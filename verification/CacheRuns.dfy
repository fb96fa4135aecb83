/** What holds over every run of the cache, from the one-step description in CacheSpec. */
module CacheRuns {
  import opened Seqs
  import opened Words
  import opened Wrappers
  import opened CacheSpec

  /** The maps before and after each call of a run that starts empty, under a steady clock. */
  ghost predicate Run(c: Config, states: seq<Items>, events: seq<Event>)
  {
    && |states| == |events| + 1
    && states[0] == map[]
    && (forall i :: 0 <= i < |events| ==> Step(c, states[i], events[i], states[i + 1]))
    && (forall i, j :: 0 <= i <= j < |events| ==> events[i].t <= events[j].t)
  }

  /** The call replaces or removes the entry of k on purpose. */
  predicate Touches(e: Event, k: Key)
  {
    match e
    case Lookup(_, _, _) => false
    case Store(key, _, _) => key == k
    case Clear(_) => true
    case CleanInterface(i, _) => i == k.interfaceIndex
  }

  /** Call j stored the item for k and no call since, before i, touched k. */
  ghost predicate LastStored(events: seq<Event>, j: nat, i: nat, k: Key, item: Item)
  {
    && j < i <= |events|
    && events[j] == Store(k, item.payload, item.timeStamp)
    && forall m :: j < m < i ==> !Touches(events[m], k)
  }

  lemma StepKeeps(c: Config, s: Items, e: Event, s': Items, k: Key)
    requires Step(c, s, e, s') && k in s'
    ensures e.Store? && e.key == k ==> s'[k] == Item(e.payload, e.t)
    ensures !(e.Store? && e.key == k) ==> k in s && s'[k] == s[k] && !Touches(e, k)
  {
  }

  /** Every entry of every map of a run was put there by the last store to its key. */
  lemma {:induction false} Origin(c: Config, states: seq<Items>, events: seq<Event>, i: nat, k: Key) returns (j: nat)
    requires Run(c, states, events) && i < |states| && k in states[i]
    ensures LastStored(events, j, i, k, states[i][k])
  {
    StepKeeps(c, states[i - 1], events[i - 1], states[i], k);
    if events[i - 1].Store? && events[i - 1].key == k {
      j := i - 1;
    } else {
      j := Origin(c, states, events, i - 1, k);
    }
  }

  /** A hit returns what was last stored for that key, less than the time to live ago. */
  lemma HitIsLastStored(c: Config, states: seq<Items>, events: seq<Event>, i: nat) returns (j: nat)
    requires Run(c, states, events) && i < |events| && events[i].Lookup? && events[i].reply.Some?
    ensures j < i && events[j].Store?
    ensures LastStored(events, j, i, events[i].key, Item(events[i].reply.value, events[j].t))
    ensures Fresh(c.ttlSeconds, events[j].t, events[i].t)
  {
    assert Step(c, states[i], events[i], states[i + 1]);
    j := Origin(c, states, events, i, events[i].key);
  }

  /** Store m met a full map whose oldest entry was that of k. */
  ghost predicate Displaces(c: Config, states: seq<Items>, events: seq<Event>, m: nat, k: Key)
    requires m < |events| && |states| == |events| + 1
  {
    var live := Live(c.ttlSeconds, states[m], events[m].t);
    events[m].Store? && |live| >= c.maxEntries && IsOldest(live, k)
  }

  /** Until it expires or is touched, only a full map can lose an entry. */
  lemma {:induction false} StaysUntilDisplaced(c: Config, states: seq<Items>, events: seq<Event>, j: nat, i: nat, k: Key, item: Item)
    requires Run(c, states, events) && LastStored(events, j, i, k, item)
    requires Fresh(c.ttlSeconds, item.timeStamp, events[i - 1].t)
    requires forall m :: j < m < i ==> !Displaces(c, states, events, m, k)
    ensures k in states[i] && states[i][k] == item
    decreases i
  {
    hide Step, Displaces, Fresh, Touches;
    assert Step(c, states[i - 1], events[i - 1], states[i]);
    if j < i - 1 {
      assert events[i - 2].t <= events[i - 1].t;
      FreshEarlier(c.ttlSeconds, item.timeStamp, events[i - 2].t, events[i - 1].t);
      StaysUntilDisplaced(c, states, events, j, i - 1, k, item);
      StaysOne(c, states, events, i - 1, k, item);
    } else {
      JustStored(c, states[j], states[i], k, item);
    }
  }

  lemma StaysOne(c: Config, states: seq<Items>, events: seq<Event>, m: nat, k: Key, item: Item)
    requires m < |events| && |states| == |events| + 1 && Step(c, states[m], events[m], states[m + 1])
    requires k in states[m] && states[m][k] == item && Fresh(c.ttlSeconds, item.timeStamp, events[m].t)
    requires !Displaces(c, states, events, m, k) && !Touches(events[m], k)
    ensures k in states[m + 1] && states[m + 1][k] == item
  {
  }

  lemma JustStored(c: Config, s: Items, s': Items, k: Key, item: Item)
    requires Step(c, s, Store(k, item.payload, item.timeStamp), s') && Fresh(c.ttlSeconds, item.timeStamp, item.timeStamp)
    ensures k in s' && s'[k] == item
  {
  }

  /** A lookup misses only a key never stored, cleared, expired, or displaced from a full map. */
  lemma MissHasCause(c: Config, states: seq<Items>, events: seq<Event>, j: nat, i: nat, k: Key, item: Item)
    requires Run(c, states, events) && LastStored(events, j, i, k, item)
    requires i < |events| && events[i].Lookup? && events[i].key == k && events[i].reply == None
    ensures !Fresh(c.ttlSeconds, item.timeStamp, events[i].t)
            || exists m :: j < m < i && Displaces(c, states, events, m, k)
  {
    assert Step(c, states[i], events[i], states[i + 1]);
    if Fresh(c.ttlSeconds, item.timeStamp, events[i].t)
       && forall m :: j < m < i ==> !Displaces(c, states, events, m, k) {
      assert events[i - 1].t <= events[i].t;
      FreshEarlier(c.ttlSeconds, item.timeStamp, events[i - 1].t, events[i].t);
      StaysUntilDisplaced(c, states, events, j, i, k, item);
      assert false;
    }
  }

  // ------------------------------------------------------------ when answers are determined

  /** A call without its answer. */
  function Call(e: Event): Event
  {
    if e.Lookup? then e.(reply := None) else e
  }

  ghost predicate SameCalls(events: seq<Event>, others: seq<Event>)
  {
    |events| == |others| && forall i :: 0 <= i < |events| ==> Call(events[i]) == Call(others[i])
  }

  /** A store that finds the map full with more than one oldest entry. */
  ghost predicate Contested(c: Config, s: Items, e: Event)
  {
    var live := Live(c.ttlSeconds, s, e.t);
    e.Store? && |live| >= c.maxEntries && exists j, k :: j != k && IsOldest(live, j) && IsOldest(live, k)
  }

  ghost predicate Settled(c: Config, states: seq<Items>, events: seq<Event>)
    requires |states| == |events| + 1
  {
    forall i :: 0 <= i < |events| ==> !Contested(c, states[i], events[i])
  }

  lemma StepDetermined(c: Config, c': Config, s: Items, e: Event, e': Event, t: Items, t': Items)
    requires c.ttlSeconds == c'.ttlSeconds && c.maxEntries == c'.maxEntries
    requires Call(e) == Call(e') && !Contested(c, s, e)
    requires Step(c, s, e, t) && Step(c', s, e', t')
    ensures e == e' && t == t'
  {
  }

  /** A run in which no store is contested is the only run of its calls. */
  lemma {:induction false} RunDetermined(c: Config, c': Config, s: seq<Items>, s': seq<Items>, events: seq<Event>, events': seq<Event>)
    requires c.ttlSeconds == c'.ttlSeconds && c.maxEntries == c'.maxEntries
    requires Run(c, s, events) && Run(c', s', events') && SameCalls(events, events') && Settled(c, s, events)
    ensures events == events' && s == s'
  {
    hide Step, Contested, Run;
    RunSteps(c, s, events);
    RunSteps(c', s', events');
    var n := |events|;
    if n == 0 {
      assert s == [map[]] == s';
    } else {
      RunPrefix(c, s, events, n - 1);
      RunPrefix(c', s', events', n - 1);
      RunDetermined(c, c', s[..n], s'[..n], events[..n - 1], events'[..n - 1]);
      assert s[n - 1] == s[..n][n - 1] && s'[n - 1] == s'[..n][n - 1];
      StepDetermined(c, c', s[n - 1], events[n - 1], events'[n - 1], s[n], s'[n]);
      SameSnoc(events, events', n - 1);
      SameSnoc(s, s', n);
    }
  }

  lemma RunSteps(c: Config, s: seq<Items>, events: seq<Event>)
    requires Run(c, s, events)
    ensures |s| == |events| + 1 && s[0] == map[]
    ensures events != [] ==> Step(c, s[|events| - 1], events[|events| - 1], s[|events|])
  {
    hide Step;
  }

  /** After a contested store there are two maps, and a key of which one knows and the other does not. */
  lemma ContestedStep(c: Config, s: Items, e: Event) returns (k: Key, without: Items, with: Items)
    requires Contested(c, s, e)
    ensures Step(c, s, e, without) && Step(c, s, e, with) && k !in without && k in with && without != with
    ensures Live(c.ttlSeconds, without, e.t) == without && Live(c.ttlSeconds, with, e.t) == with
  {
    var live := Live(c.ttlSeconds, s, e.t);
    var a, b :| a != b && IsOldest(live, a) && IsOldest(live, b);
    k := if a == e.key then b else a;
    var other := if a == e.key then a else b;
    without := Dropping(c, s, e, k);
    with := Dropping(c, s, e, other);
  }

  /** The map after a store that found it full and dropped its oldest entry k. */
  lemma Dropping(c: Config, s: Items, e: Event, k: Key) returns (s': Items)
    requires e.Store? && |Live(c.ttlSeconds, s, e.t)| >= c.maxEntries && IsOldest(Live(c.ttlSeconds, s, e.t), k)
    ensures Step(c, s, e, s') && Live(c.ttlSeconds, s', e.t) == s'
    ensures forall j :: j in Live(c.ttlSeconds, s, e.t) && j != k ==> j in s'
    ensures k != e.key ==> k !in s'
  {
    var live := Live(c.ttlSeconds, s, e.t);
    assert Evicted(c.maxEntries, live, live - {k});
    s' := Live(c.ttlSeconds, (live - {k})[e.key := Item(e.payload, e.t)], e.t);
    if 0 < c.ttlSeconds {
      assert Fresh(c.ttlSeconds, e.t, e.t);
    }
  }

  lemma RunMore(c: Config, s: seq<Items>, events: seq<Event>, e: Event, t: Items)
    requires Run(c, s, events) && Step(c, s[|events|], e, t) && (events != [] ==> events[|events| - 1].t <= e.t)
    ensures Run(c, s + [t], events + [e])
  {
    hide Step;
    var n, more, es := |events|, s + [t], events + [e];
    forall i | 0 <= i < |es|
      ensures Step(c, more[i], es[i], more[i + 1])
    {
      assert i < n ==> more[i] == s[i] && more[i + 1] == s[i + 1];
    }
  }

  lemma RunPrefix(c: Config, s: seq<Items>, events: seq<Event>, n: nat)
    requires Run(c, s, events) && n <= |events|
    ensures Run(c, s[..n + 1], events[..n])
  {
    hide Step;
  }

  /** After a contested store the same calls have two runs, and one more lookup tells them apart. */
  lemma ContestedDiverges(c: Config, s: seq<Items>, events: seq<Event>, i: nat)
    returns (k: Key, p: seq<byte>, without: seq<Items>, with: seq<Items>)
    requires Run(c, s, events) && i < |events| && Contested(c, s[i], events[i])
    ensures Run(c, without, events[..i + 1] + [Lookup(k, None, events[i].t)])
    ensures Run(c, with, events[..i + 1] + [Lookup(k, Some(p), events[i].t)])
    ensures without[..i + 1] == with[..i + 1] == s[..i + 1] && without[i + 1] != with[i + 1]
  {
    hide Contested, Live, Step, Run;
    var e := events[i];
    LastOfPrefix(c, s, events, i);
    var w, v;
    k, w, v := ContestedStep(c, s[i], e);
    p := v[k].payload;
    RunPrefix(c, s, events, i);
    RunMore(c, s[..i + 1], events[..i], e, w);
    RunMore(c, s[..i + 1], events[..i], e, v);
    LookupStep(c, w, k, e.t);
    LookupStep(c, v, k, e.t);
    assert events[..i] + [e] == events[..i + 1];
    RunMore(c, s[..i + 1] + [w], events[..i + 1], Lookup(k, None, e.t), w);
    RunMore(c, s[..i + 1] + [v], events[..i + 1], Lookup(k, Some(p), e.t), v);
    without, with := s[..i + 1] + [w] + [w], s[..i + 1] + [v] + [v];
  }

  lemma LastOfPrefix(c: Config, s: seq<Items>, events: seq<Event>, i: nat)
    requires Run(c, s, events) && i < |events|
    ensures |s| == |events| + 1 && s[..i + 1][i] == s[i]
    ensures events[..i] != [] ==> events[..i][i - 1].t <= events[i].t
  {
    hide Step;
  }

  lemma LookupStep(c: Config, s: Items, k: Key, t: nat)
    requires Live(c.ttlSeconds, s, t) == s
    ensures Step(c, s, Lookup(k, if k in s then Some(s[k].payload) else None, t), s)
  {
    hide Live;
  }

  /** These are the only maps the first n calls can lead through. */
  ghost predicate OnlyRun(c: Config, s: seq<Items>, events: seq<Event>, n: nat)
    requires n <= |events| && |s| == |events| + 1
  {
    forall s', events' :: Run(c, s', events') && SameCalls(events[..n], events') ==> s' == s[..n + 1]
  }

  /** The calls of a run determine it, at every point, exactly when none of its stores is contested. */
  lemma DeterminedExactly(c: Config, s: seq<Items>, events: seq<Event>)
    requires Run(c, s, events)
    ensures Settled(c, s, events) <==> forall n :: 0 <= n <= |events| ==> OnlyRun(c, s, events, n)
  {
    hide Contested, Step;
    if Settled(c, s, events) {
      forall n | 0 <= n <= |events|
        ensures OnlyRun(c, s, events, n)
      {
        RunPrefix(c, s, events, n);
        assert Settled(c, s[..n + 1], events[..n]);
        forall s', events' | Run(c, s', events') && SameCalls(events[..n], events')
          ensures s' == s[..n + 1]
        {
          RunDetermined(c, c, s[..n + 1], s', events[..n], events');
        }
      }
    } else {
      var i :| 0 <= i < |events| && Contested(c, s[i], events[i]);
      var k, p, w, v := ContestedDiverges(c, s, events, i);
      NotOnly(c, s, events, i, k, p, w, v);
    }
  }

  lemma NotOnly(c: Config, s: seq<Items>, events: seq<Event>, i: nat, k: Key, p: seq<byte>, w: seq<Items>, v: seq<Items>)
    requires i < |events| && |s| == |events| + 1 && |w| > i + 1 && |v| > i + 1 && w[i + 1] != v[i + 1]
    requires Run(c, w, events[..i + 1] + [Lookup(k, None, events[i].t)])
    requires Run(c, v, events[..i + 1] + [Lookup(k, Some(p), events[i].t)])
    ensures !OnlyRun(c, s, events, i + 1)
  {
    hide Step;
    var n := i + 1;
    RunPrefix(c, w, events[..n] + [Lookup(k, None, events[i].t)], n);
    RunPrefix(c, v, events[..n] + [Lookup(k, Some(p), events[i].t)], n);
    assert (events[..n] + [Lookup(k, None, events[i].t)])[..n] == events[..n];
    assert (events[..n] + [Lookup(k, Some(p), events[i].t)])[..n] == events[..n];
    assert SameCalls(events[..n], events[..n]);
    assert w[..n + 1][n] != v[..n + 1][n];
  }

  /** Two entries at most, three stores at one instant: the fourth call can be answered either way. */
  lemma Tie(c: Config, a: Key, b: Key, d: Key, p: seq<byte>, t: nat)
    returns (events: seq<Event>, k: Key, q: seq<byte>, without: seq<Items>, with: seq<Items>)
    requires c.maxEntries == 2 && c.ttlSeconds > 0 && a != b
    ensures events == [Store(a, p, t), Store(b, p, t), Store(d, p, t)]
    ensures Run(c, without, events + [Lookup(k, None, t)]) && Run(c, with, events + [Lookup(k, Some(q), t)])
  {
    hide Run, Step, Contested, Live;
    events := [Store(a, p, t), Store(b, p, t), Store(d, p, t)];
    var run := ThreeStores(c, a, b, d, p, t);
    TieContested(c, a, b, d, p, t);
    k, q, without, with := ContestedDiverges(c, run, events, 2);
    assert events[..3] == events;
  }

  lemma ThreeStores(c: Config, a: Key, b: Key, d: Key, p: seq<byte>, t: nat) returns (s: seq<Items>)
    requires c.maxEntries == 2 && c.ttlSeconds > 0 && a != b
    ensures Run(c, s, [Store(a, p, t), Store(b, p, t), Store(d, p, t)])
    ensures |s| == 4 && s[2] == map[a := Item(p, t), b := Item(p, t)]
  {
    hide Run, Step, Contested, Live;
    var s1: Items, s2: Items := map[a := Item(p, t)], map[a := Item(p, t), b := Item(p, t)];
    StoreRoom(c, map[], a, p, t);
    StoreRoom(c, s1, b, p, t);
    TieContested(c, a, b, d, p, t);
    var _, s3, _ := ContestedStep(c, s2, Store(d, p, t));
    assert map[][a := Item(p, t)] == s1 && s1[b := Item(p, t)] == s2;
    RunNone(c);
    RunMore(c, [map[]], [], Store(a, p, t), s1);
    assert [map[]] + [s1] == [map[], s1] && [] + [Store(a, p, t)] == [Store(a, p, t)];
    RunMore(c, [map[], s1], [Store(a, p, t)], Store(b, p, t), s2);
    assert [map[], s1] + [s2] == [map[], s1, s2] && [Store(a, p, t)] + [Store(b, p, t)] == [Store(a, p, t), Store(b, p, t)];
    RunMore(c, [map[], s1, s2], [Store(a, p, t), Store(b, p, t)], Store(d, p, t), s3);
    s := [map[], s1, s2] + [s3];
    assert [Store(a, p, t), Store(b, p, t)] + [Store(d, p, t)] == [Store(a, p, t), Store(b, p, t), Store(d, p, t)];
  }

  lemma RunNone(c: Config)
    ensures Run(c, [map[]], [])
  {
  }

  /** A store into a map with room adds its entry. */
  lemma StoreRoom(c: Config, s: Items, k: Key, p: seq<byte>, t: nat)
    requires |s| < c.maxEntries && c.ttlSeconds > 0 && forall j :: j in s ==> s[j].timeStamp == t
    ensures Step(c, s, Store(k, p, t), s[k := Item(p, t)])
  {
    var live := Live(c.ttlSeconds, s, t);
    assert live == s;
    assert Evicted(c.maxEntries, live, s);
    assert Live(c.ttlSeconds, s[k := Item(p, t)], t) == s[k := Item(p, t)];
  }

  lemma TieContested(c: Config, a: Key, b: Key, d: Key, p: seq<byte>, t: nat)
    requires c.maxEntries == 2 && c.ttlSeconds > 0 && a != b
    ensures Contested(c, map[a := Item(p, t), b := Item(p, t)], Store(d, p, t))
  {
    var s: Items := map[a := Item(p, t), b := Item(p, t)];
    var live := Live(c.ttlSeconds, s, t);
    assert live == s && s.Keys == {a, b};
    assert IsOldest(live, a) && IsOldest(live, b);
  }
}
