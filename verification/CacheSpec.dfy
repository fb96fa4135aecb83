/**
  The reply cache as a client may think of it: a map of unexpired entries. Storing into a
  full map drops one oldest entry; nothing else ever removes an unexpired entry except an
  explicit clear.
 */
module CacheSpec {
  import opened Words
  import opened Wrappers

  datatype Key = Key(queryId: nat, interfaceIndex: nat)

  /** What an entry is worth: its payload and when it was stored (nanoseconds). */
  datatype Item = Item(payload: seq<byte>, timeStamp: nat)

  datatype Config = Config(enabled: bool, ttlSeconds: nat, maxEntries: nat, cleanUpIntervalSec: nat)

  type Items = map<Key, Item>

  /** Whole seconds from one reading of the steady clock to a later one. */
  function Seconds(from: nat, to: nat): nat
  {
    if from <= to then (to - from) / 1_000_000_000 else 0
  }

  predicate Fresh(ttl: nat, timeStamp: nat, t: nat)
  {
    Seconds(timeStamp, t) < ttl
  }

  function Live(ttl: nat, m: Items, t: nat): (l: Items)
    ensures l.Keys <= m.Keys
  {
    map k | k in m && Fresh(ttl, m[k].timeStamp, t) :: m[k]
  }

  datatype Event =
    | Lookup(key: Key, reply: Option<seq<byte>>, t: nat)
    | Store(key: Key, payload: seq<byte>, t: nat)
    | Clear(t: nat)
    | CleanInterface(index: nat, t: nat)

  ghost predicate IsOldest(m: Items, k: Key)
  {
    k in m && forall j :: j in m ==> m[k].timeStamp <= m[j].timeStamp
  }

  /** One oldest entry goes exactly when the live entries have reached the limit. */
  ghost predicate Evicted(maxEntries: nat, m: Items, m': Items)
  {
    if |m| >= maxEntries && m != map[] then exists k :: IsOldest(m, k) && m' == m - {k} else m' == m
  }

  /** One call, ending at time e.t, takes the map s to the map s'. */
  ghost predicate Step(c: Config, s: Items, e: Event, s': Items)
  {
    var live := Live(c.ttlSeconds, s, e.t);
    match e
    case Lookup(k, reply, _) =>
      && s' == live
      && reply == (if k in live then Some(live[k].payload) else None)
    case Store(k, payload, t) =>
      exists m :: Evicted(c.maxEntries, live, m) && s' == Live(c.ttlSeconds, m[k := Item(payload, t)], t)
    case Clear(_) => s' == map[]
    case CleanInterface(i, _) => s' == (map k | k in live && k.interfaceIndex != i :: live[k])
  }

  lemma FreshEarlier(ttl: nat, timeStamp: nat, t: nat, t': nat)
    requires t <= t' && Fresh(ttl, timeStamp, t')
    ensures Fresh(ttl, timeStamp, t)
  {
  }

  /** Expiry only ever removes, so filtering early does not show later. */
  lemma LiveTwice(ttl: nat, m: Items, t: nat, t': nat)
    requires t <= t'
    ensures Live(ttl, Live(ttl, m, t), t') == Live(ttl, m, t')
  {
    forall k | k in m && Fresh(ttl, m[k].timeStamp, t') ensures Fresh(ttl, m[k].timeStamp, t) {
      FreshEarlier(ttl, m[k].timeStamp, t, t');
    }
  }
}
