/** Any sequence of calls on a cache object is a run of the specification, whenever it sweeps. */
module CachePlay {
  import opened Words
  import opened Wrappers
  import opened CacheSpec
  import opened CacheRuns
  import opened OracleCache

  datatype Command =
    | Ask(key: Key)
    | Put(key: Key, payload: seq<byte>, errorFlags: nat)
    | Empty
    | EmptyInterface(index: nat)

  /** Stores of error replies, and all stores into a disabled cache, are ignored. */
  predicate Ignored(enabled: bool, c: Command)
  {
    c.Put? && (!enabled || c.errorFlags != 0)
  }

  function Heeded(enabled: bool, commands: seq<Command>): seq<Command>
  {
    if commands == [] then []
    else
      var n := |commands| - 1;
      Heeded(enabled, commands[..n]) + if Ignored(enabled, commands[n]) then [] else [commands[n]]
  }

  function CommandOf(e: Event): Command
  {
    match e
    case Lookup(k, _, _) => Ask(k)
    case Store(k, payload, _) => Put(k, payload, 0)
    case Clear(_) => Empty
    case CleanInterface(i, _) => EmptyInterface(i)
  }

  function CommandsOf(events: seq<Event>): (cs: seq<Command>)
    ensures |cs| == |events|
  {
    seq(|events|, i requires 0 <= i < |events| => CommandOf(events[i]))
  }

  function Replies(events: seq<Event>): seq<Option<seq<byte>>>
  {
    if events == [] then []
    else
      var last := events[|events| - 1];
      Replies(events[..|events| - 1]) + if last.Lookup? then [last.reply] else []
  }

  /** The run so far, ending in the cache's present view. */
  ghost predicate Played(cache: Cache, commands: seq<Command>, answers: seq<Option<seq<byte>>>, states: seq<Items>, events: seq<Event>)
    reads cache, cache.clock
  {
    && Run(cache.config, states, events) && states[|events|] == cache.View()
    && (events != [] ==> events[|events| - 1].t <= cache.clock.now)
    && CommandsOf(events) == Heeded(cache.config.enabled, commands) && answers == Replies(events)
  }

  lemma PlayedMore(c: Config, commands: seq<Command>, answers: seq<Option<seq<byte>>>, states: seq<Items>, events: seq<Event>,
                   command: Command, e: Event, view: Items)
    requires Run(c, states, events) && (events != [] ==> events[|events| - 1].t <= e.t) && Step(c, states[|events|], e, view)
    requires CommandsOf(events) == Heeded(c.enabled, commands) && answers == Replies(events)
    requires !Ignored(c.enabled, command) && CommandOf(e) == command
    ensures Run(c, states + [view], events + [e])
    ensures CommandsOf(events + [e]) == Heeded(c.enabled, commands + [command])
    ensures Replies(events + [e]) == answers + if e.Lookup? then [e.reply] else []
  {
    hide Step;
    RunMore(c, states, events, e, view);
    assert (commands + [command])[..|commands|] == commands && (events + [e])[..|events|] == events;
    assert CommandsOf(events + [e]) == CommandsOf(events) + [command];
  }

  /** One command; an ignored store changes nothing and has no event. */
  method PlayOne(cache: Cache, command: Command, ghost was: seq<Command>, answers: seq<Option<seq<byte>>>,
                 ghost states: seq<Items>, ghost events: seq<Event>)
    returns (answers': seq<Option<seq<byte>>>, ghost states': seq<Items>, ghost events': seq<Event>)
    requires cache.Valid() && Played(cache, was, answers, states, events)
    modifies cache, cache.clock
    ensures cache.Valid() && Played(cache, was + [command], answers', states', events')
  {
    hide Step, Replies, Heeded, CommandsOf, Run;
    RunLengths(cache.config, states, events);
    ghost var e: Event;
    answers' := answers;
    match command {
      case Ask(key) =>
        var reply, _ := cache.Lookup(key);
        answers' := answers + [reply];
        e := Lookup(key, reply, cache.clock.now);
      case Put(key, payload, errorFlags) =>
        cache.Store(key, payload, errorFlags);
        if Ignored(cache.config.enabled, command) {
          IgnoredMore(cache.config.enabled, was, command);
          return answers, states, events;
        }
        e := Store(key, payload, cache.clock.now);
      case Empty =>
        cache.Clear();
        e := Clear(cache.clock.now);
      case EmptyInterface(index) =>
        cache.CleanInterface(index);
        e := CleanInterface(index, cache.clock.now);
    }
    PlayedMore(cache.config, was, answers, states, events, command, e, cache.View());
    states', events' := states + [cache.View()], events + [e];
    RunLengths(cache.config, states', events');
    assert answers + [] == answers;
  }

  lemma RunLengths(c: Config, states: seq<Items>, events: seq<Event>)
    requires Run(c, states, events)
    ensures |states| == |events| + 1
  {
  }

  lemma IgnoredMore(enabled: bool, commands: seq<Command>, command: Command)
    requires Ignored(enabled, command)
    ensures Heeded(enabled, commands + [command]) == Heeded(enabled, commands)
  {
    assert (commands + [command])[..|commands|] == commands;
  }

  /** Any commands, from an empty cache. */
  method Play(cache: Cache, commands: seq<Command>)
    returns (answers: seq<Option<seq<byte>>>, ghost states: seq<Items>, ghost events: seq<Event>)
    requires cache.Valid() && cache.View() == map[]
    modifies cache, cache.clock
    ensures cache.Valid() && Played(cache, commands, answers, states, events)
  {
    answers, states, events := [], [map[]], [];
    RunNone(cache.config);
    assert commands[..0] == [] && CommandsOf([]) == [];
    for n := 0 to |commands|
      invariant cache.Valid() && Played(cache, commands[..n], answers, states, events)
    {
      hide Played;
      answers, states, events := PlayOne(cache, commands[n], commands[..n], answers, states, events);
      assert commands[..n] + [commands[n]] == commands[..n + 1];
    }
    assert commands[..|commands|] == commands;
  }

  /** Two runs of the same commands heed the same ones, however the caches differ otherwise. */
  lemma SameLength(a: Cache, b: Cache, commands: seq<Command>,
                   x: seq<Option<seq<byte>>>, s: seq<Items>, events: seq<Event>,
                   y: seq<Option<seq<byte>>>, s': seq<Items>, events': seq<Event>)
    requires a.config.enabled == b.config.enabled
    requires Played(a, commands, x, s, events) && Played(b, commands, y, s', events')
    ensures |events| == |events'|
  {
    hide Step, Replies, Heeded;
    assert |CommandsOf(events)| == |CommandsOf(events')|;
  }

  /**
    Two caches that differ only in how often they sweep, and any run of the same commands on
    each: if the heeded ones fell at the same times and no store was contested, they have
    answered alike and held the same live entries throughout.
   */
  lemma CleanupIsInvisible(a: Cache, b: Cache, commands: seq<Command>,
                           x: seq<Option<seq<byte>>>, s: seq<Items>, events: seq<Event>,
                           y: seq<Option<seq<byte>>>, s': seq<Items>, events': seq<Event>)
    requires a.config == b.config.(cleanUpIntervalSec := a.config.cleanUpIntervalSec)
    requires Played(a, commands, x, s, events) && Played(b, commands, y, s', events')
    requires forall i :: 0 <= i < |events| && i < |events'| ==> events[i].t == events'[i].t
    requires Settled(a.config, s, events)
    ensures x == y && s == s' && events == events'
  {
    hide Step, Replies, Heeded, Contested;
    SameLength(a, b, commands, x, s, events, y, s', events');
    forall i | 0 <= i < |events|
      ensures Call(events[i]) == Call(events'[i])
    {
      assert CommandsOf(events)[i] == CommandsOf(events')[i];
    }
    RunDetermined(a.config, b.config, s, s', events, events');
  }
}
