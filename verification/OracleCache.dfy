/**
  The reply cache of oracle_cache.cpp: expired entries linger until a lookup, a periodic
  sweep or an eviction meets them, and every validity test reads the clock again.
 */
module OracleCache {
  import opened Arith
  import opened Words
  import opened Wrappers
  import opened CacheSpec

  /** A steady clock: readings never decrease and are otherwise arbitrary. */
  class Clock {
    var now: nat

    constructor ()
    {
      now := 0;
    }

    method Read() returns (t: nat)
      modifies this
      ensures old(now) <= t == now
    {
      t :| now <= t;
      now := t;
    }
  }

  datatype Entry = Entry(payloadData: seq<byte>, errorFlag: nat, timeStamp: nat, hitCount: nat)

  function Abs(m: map<Key, Entry>): (a: Items)
    ensures a.Keys == m.Keys
  {
    map k | k in m :: Item(m[k].payloadData, m[k].timeStamp)
  }

  class Cache {
    const config: Config
    const clock: Clock
    var storage: map<Key, Entry>
    var totalRequests: nat
    var cacheHits: nat
    var cacheMisses: nat
    var lastCleanupTime: nat

    /** No entry is newer than the clock or holds an error, and the size limit holds. */
    ghost predicate ValidStorage()
      reads `storage, `lastCleanupTime, clock
    {
      && lastCleanupTime <= clock.now
      && (forall k :: k in storage ==> storage[k].timeStamp <= clock.now && storage[k].errorFlag == 0)
      && |storage| <= Limit()
    }

    /** The 64-bit counters account for every request, and a disabled cache holds nothing. */
    ghost predicate Valid()
      reads this, clock
    {
      && ValidStorage()
      && (!config.enabled ==> storage == map[])
      && cacheHits < COUNTER && cacheMisses < COUNTER
      && totalRequests == Sum(cacheHits, cacheMisses)
    }

    ghost function Limit(): nat
    {
      if config.maxEntries == 0 then 1 else config.maxEntries
    }

    /** The unexpired entries at the current time. */
    ghost function View(): Items
      reads `storage, clock
    {
      Live(config.ttlSeconds, Abs(storage), clock.now)
    }

    constructor (config: Config, clock: Clock)
      modifies clock
      ensures Valid() && this.config == config && this.clock == clock
      ensures View() == map[]
    {
      this.config := config;
      this.clock := clock;
      storage := map[];
      totalRequests, cacheHits, cacheMisses := 0, 0, 0;
      lastCleanupTime := 0;
      new;
      lastCleanupTime := clock.Read();
    }

    method IsValid(entry: Entry) returns (ok: bool)
      modifies clock
      ensures old(clock.now) <= clock.now
      ensures ok <==> Fresh(config.ttlSeconds, entry.timeStamp, clock.now)
    {
      var now := clock.Read();
      ok := Seconds(entry.timeStamp, now) < config.ttlSeconds;
    }

    /** Drops only what has expired, and everything that had expired at the start. */
    method CleanupExpired()
      requires ValidStorage()
      modifies this`storage, clock
      ensures ValidStorage() && old(clock.now) <= clock.now
      ensures Live(config.ttlSeconds, Abs(storage), clock.now) == Live(config.ttlSeconds, Abs(old(storage)), clock.now)
      ensures forall k :: k in storage ==> k in old(storage) && storage[k] == old(storage)[k]
      ensures forall k :: k in storage ==> Fresh(config.ttlSeconds, storage[k].timeStamp, old(clock.now))
    {
      ghost var was := storage;
      var todo := storage.Keys;
      while todo != {}
        invariant todo <= storage.Keys <= was.Keys && old(clock.now) <= clock.now
        invariant forall k :: k in storage ==> storage[k] == was[k]
        invariant forall k :: k in was && k !in storage ==> !Fresh(config.ttlSeconds, was[k].timeStamp, clock.now)
        invariant forall k :: k in storage && k !in todo ==> Fresh(config.ttlSeconds, was[k].timeStamp, old(clock.now))
        invariant |storage| <= |was|
        decreases |todo|
      {
        var k :| k in todo;
        var before := clock.now;
        var ok := IsValid(storage[k]);
        StaysExpired(config.ttlSeconds, Abs(was), before, clock.now);
        if ok {
          FreshEarlier(config.ttlSeconds, was[k].timeStamp, old(clock.now), clock.now);
        } else {
          storage := storage - {k};
        }
        todo := todo - {k};
      }
    }

    /** Drops one entry with the smallest time stamp, whatever order the table is walked in. */
    method RemoveOldest()
      modifies this`storage
      ensures old(storage) == map[] ==> storage == map[]
      ensures old(storage) != map[] ==>
        exists k :: IsOldest(Abs(old(storage)), k) && storage == old(storage) - {k}
    {
      if storage != map[] {
        var todo := storage.Keys;
        assert todo != {} by { NonEmptyKeys(storage); }
        var oldest :| oldest in todo;
        todo := todo - {oldest};
        while todo != {}
          invariant oldest in storage && todo <= storage.Keys
          invariant forall k :: k in storage && k !in todo ==> storage[oldest].timeStamp <= storage[k].timeStamp
          decreases |todo|
        {
          var k :| k in todo;
          if storage[k].timeStamp < storage[oldest].timeStamp {
            oldest := k;
          }
          todo := todo - {k};
        }
        assert IsOldest(Abs(storage), oldest);
        storage := storage - {oldest};
      }
    }

    /** The sweep that a lookup makes when the interval has passed shows in no answer. */
    method PeriodicCleanup()
      requires ValidStorage()
      modifies this`storage, this`lastCleanupTime, clock
      ensures ValidStorage() && old(clock.now) <= clock.now
      ensures View() == Live(config.ttlSeconds, old(View()), clock.now)
    {
      ghost var was, start := Abs(storage), clock.now;
      var now := clock.Read();
      if Seconds(lastCleanupTime, now) >= config.cleanUpIntervalSec {
        CleanupExpired();
        lastCleanupTime := now;
      }
      LiveTwice(config.ttlSeconds, was, start, clock.now);
    }

    method Find(key: Key) returns (reply: Option<seq<byte>>, errorFlag: nat)
      requires ValidStorage()
      modifies this`storage, clock
      ensures ValidStorage() && old(clock.now) <= clock.now
      ensures View() == Live(config.ttlSeconds, old(View()), clock.now)
      ensures reply == if key in View() then Some(View()[key].payload) else None
      ensures errorFlag == 0
    {
      ghost var was, start := Abs(storage), clock.now;
      if key !in storage {
        LiveTwice(config.ttlSeconds, was, start, clock.now);
        return None, 0;
      }
      var ok := IsValid(storage[key]);
      LiveTwice(config.ttlSeconds, was, start, clock.now);
      if !ok {
        ExpiredGone(config.ttlSeconds, storage, key, clock.now);
        storage := storage - {key};
        return None, 0;
      }
      var entry := storage[key];
      SameAbs(storage, key, entry.(hitCount := (entry.hitCount + 1) % 0x1_0000_0000));
      storage := storage[key := entry.(hitCount := (entry.hitCount + 1) % 0x1_0000_0000)];
      return Some(entry.payloadData), entry.errorFlag;
    }

    /** A hit carries the error flag of the entry, which is never set. */
    method Lookup(key: Key) returns (reply: Option<seq<byte>>, errorFlag: nat)
      requires Valid()
      modifies this, clock
      ensures Valid() && old(clock.now) <= clock.now && errorFlag == 0
      ensures Step(config, old(View()), CacheSpec.Lookup(key, reply, clock.now), View())
      ensures totalRequests == Bump(old(totalRequests))
      ensures cacheHits == if reply.Some? then Bump(old(cacheHits)) else old(cacheHits)
    {
      hide ValidStorage, Live, Bump, Sum;
      CountedBumped(cacheHits, cacheMisses);
      totalRequests := Bump(totalRequests);
      if !config.enabled {
        cacheMisses := Bump(cacheMisses);
        NothingLive(config.ttlSeconds, clock.now);
        return None, 0;
      }
      PeriodicCleanup();
      ghost var mid := clock.now;
      reply, errorFlag := Find(key);
      LiveTwice(config.ttlSeconds, old(View()), mid, clock.now);
      if reply.None? {
        cacheMisses := Bump(cacheMisses);
      } else {
        cacheHits := Bump(cacheHits);
      }
    }

    /** Error replies are never stored; a full table first loses its oldest entry. */
    method Store(key: Key, payload: seq<byte>, errorFlags: nat)
      requires Valid()
      modifies `storage, clock
      ensures Valid() && old(clock.now) <= clock.now
      ensures !config.enabled || errorFlags != 0 ==> storage == old(storage) && clock.now == old(clock.now)
      ensures config.enabled && errorFlags == 0 ==>
        Step(config, old(View()), CacheSpec.Store(key, payload, clock.now), View())
    {
      hide Live, Abs, Step, Trimmed, Seconds;
      if !config.enabled || errorFlags != 0 {
        return;
      }
      ghost var was, start := storage, clock.now;
      MakeRoom();
      ghost var kept := storage;
      var t := clock.Read();
      storage := storage[key := Entry(payload, errorFlags, t, 0)];
      StoreStep(config, was, kept, key, Entry(payload, errorFlags, t, 0), start);
    }

    method Clear()
      requires Valid()
      modifies `storage
      ensures Valid()
      ensures Step(config, old(View()), CacheSpec.Clear(clock.now), View())
    {
      storage := map[];
    }

    method CleanInterface(index: nat)
      requires Valid()
      modifies `storage
      ensures Valid()
      ensures Step(config, old(View()), CacheSpec.CleanInterface(index, clock.now), View())
    {
      ghost var was := storage;
      var todo := storage.Keys;
      while todo != {}
        invariant todo <= storage.Keys <= was.Keys && |storage| <= |was|
        invariant forall k :: k in storage ==> storage[k] == was[k]
        invariant forall k :: k in was && k !in storage ==> k.interfaceIndex == index
        invariant forall k :: k in storage && k !in todo ==> k.interfaceIndex != index
        decreases |todo|
      {
        var k :| k in todo;
        if k.interfaceIndex == index {
          storage := storage - {k};
        }
        todo := todo - {k};
      }
      InterfaceCleaned(config, was, storage, index, clock.now);
    }

    method MakeRoom()
      requires ValidStorage()
      modifies `storage
      ensures ValidStorage() && |storage| < Limit()
      ensures Trimmed(config, old(storage), storage)
    {
      hide Live, Abs;
      if |storage| >= config.maxEntries {
        RemoveOldest();
      }
    }
  }

  ghost predicate Trimmed(c: Config, was: map<Key, Entry>, kept: map<Key, Entry>)
  {
    if |was| >= c.maxEntries && was != map[]
    then exists k :: IsOldest(Abs(was), k) && kept == was - {k}
    else kept == was
  }

  lemma StoreStep(c: Config, was: map<Key, Entry>, kept: map<Key, Entry>, key: Key, e: Entry, start: nat)
    requires Trimmed(c, was, kept) && |was| <= (if c.maxEntries == 0 then 1 else c.maxEntries)
    requires start <= e.timeStamp && forall k :: k in was ==> was[k].timeStamp <= start
    ensures Step(c, Live(c.ttlSeconds, Abs(was), start), CacheSpec.Store(key, e.payloadData, e.timeStamp),
                 Live(c.ttlSeconds, Abs(kept[key := e]), e.timeStamp))
  {
    hide Live, Abs, Evicted, Trimmed;
    LiveTwice(c.ttlSeconds, Abs(was), start, e.timeStamp);
    EvictionOfLive(c, was, kept, e.timeStamp);
    StoredView(c.ttlSeconds, kept, key, e, e.timeStamp);
  }

  /** Dropping the oldest of all entries drops a live one exactly when none has expired. */
  lemma EvictionOfLive(c: Config, was: map<Key, Entry>, kept: map<Key, Entry>, t: nat)
    requires Trimmed(c, was, kept)
    requires |was| <= (if c.maxEntries == 0 then 1 else c.maxEntries)
    requires forall k :: k in was ==> was[k].timeStamp <= t
    ensures Evicted(c.maxEntries, Live(c.ttlSeconds, Abs(was), t), Live(c.ttlSeconds, Abs(kept), t))
  {
    hide Fresh, IsOldest;
    var live, live' := Live(c.ttlSeconds, Abs(was), t), Live(c.ttlSeconds, Abs(kept), t);
    Count(live.Keys, was.Keys);
    if |was| >= c.maxEntries && was != map[] {
      var k :| IsOldest(Abs(was), k) && kept == was - {k};
      OldestLive(c.ttlSeconds, was, k, t);
      assert live' == live - {k};
      if k in live {
        assert |live.Keys| == |was.Keys|;
      } else {
        assert live' == live;
        CountWithout(live.Keys, was.Keys, k);
      }
    }
  }

  lemma OldestLive(ttl: nat, m: map<Key, Entry>, k: Key, t: nat)
    requires IsOldest(Abs(m), k) && forall j :: j in m ==> m[j].timeStamp <= t
    ensures k in m
    ensures k in Live(ttl, Abs(m), t) ==> Live(ttl, Abs(m), t) == Abs(m)
  {
    if k in Live(ttl, Abs(m), t) {
      forall j | j in m ensures Fresh(ttl, m[j].timeStamp, t) {
        assert Abs(m)[k].timeStamp <= Abs(m)[j].timeStamp;
      }
    }
  }

  lemma InterfaceCleaned(c: Config, was: map<Key, Entry>, m: map<Key, Entry>, index: nat, t: nat)
    requires m == map k | k in was && k.interfaceIndex != index :: was[k]
    ensures Step(c, Live(c.ttlSeconds, Abs(was), t), CacheSpec.CleanInterface(index, t), Live(c.ttlSeconds, Abs(m), t))
  {
    LiveTwice(c.ttlSeconds, Abs(was), t, t);
  }

  lemma StoredView(ttl: nat, m: map<Key, Entry>, key: Key, e: Entry, t: nat)
    ensures Live(ttl, Abs(m[key := e]), t) == Live(ttl, Live(ttl, Abs(m), t)[key := Item(e.payloadData, e.timeStamp)], t)
  {
  }

  lemma Count<K>(a: set<K>, b: set<K>)
    requires a <= b
    ensures |a| <= |b|
  {
    assert b == a + (b - a);
  }

  lemma CountWithout<K>(a: set<K>, b: set<K>, k: K)
    requires a <= b && k in b && k !in a
    ensures |a| < |b|
  {
    Count(a, b - {k});
  }


  lemma NonEmptyKeys<K, V>(m: map<K, V>)
    requires m != map[]
    ensures m.Keys != {}
  {
  }

  const COUNTER: nat := 0x1_0000_0000_0000_0000

  /** The counters are 64 bits wide. */
  function Bump(n: nat): (r: nat) ensures r < COUNTER { (n + 1) % COUNTER }
  function Sum(a: nat, b: nat): nat { (a + b) % COUNTER }

  lemma CountedBumped(hits: nat, misses: nat)
    ensures Bump(Sum(hits, misses)) == Sum(Bump(hits), misses) == Sum(hits, Bump(misses))
  {
    ModOfSum(hits + misses, 1, COUNTER);
    ModOfSum(hits + 1, misses, COUNTER);
    ModOfSum(misses + 1, hits, COUNTER);
  }

  /** A hit count does not show. */
  lemma SameAbs(m: map<Key, Entry>, key: Key, e: Entry)
    requires key in m && e.payloadData == m[key].payloadData && e.timeStamp == m[key].timeStamp
    ensures Abs(m[key := e]) == Abs(m) && |m[key := e]| == |m|
  {
    assert m[key := e].Keys == m.Keys;
    assert |m[key := e]| == |m[key := e].Keys| == |m|;
  }

  lemma ExpiredGone(ttl: nat, m: map<Key, Entry>, key: Key, t: nat)
    requires key in m && !Fresh(ttl, m[key].timeStamp, t)
    ensures Live(ttl, Abs(m - {key}), t) == Live(ttl, Abs(m), t) && |m - {key}| <= |m|
    ensures key !in Live(ttl, Abs(m), t)
  {
    Count((m - {key}).Keys, m.Keys);
  }

  lemma NothingLive(ttl: nat, t: nat)
    ensures Abs(map[]) == map[] && Live(ttl, map[], t) == map[]
  {
  }

  lemma StaysExpired(ttl: nat, m: Items, t: nat, t': nat)
    requires t <= t'
    ensures forall k :: k in m && !Fresh(ttl, m[k].timeStamp, t) ==> !Fresh(ttl, m[k].timeStamp, t')
  {
    forall k | k in m && Fresh(ttl, m[k].timeStamp, t') ensures Fresh(ttl, m[k].timeStamp, t) {
      FreshEarlier(ttl, m[k].timeStamp, t, t');
    }
  }
}
