/**
  The request handler of request_handler.cpp over the cache and the interface clients, and
  where the data of its responses comes from, over every interleaving of concurrent calls.
 */
module RequestHandler {
  import opened Words
  import opened Wrappers
  import opened Wire
  import opened CacheSpec
  import opened OracleCache
  import opened CacheRuns

  const INVALID_ORACLE: nat := 0x1
  const ORACLE_UNAVAIL: nat := 0x2

  function KeyOf(q: Query): Key
  {
    Key(q.id, q.interfaceIndex)
  }

  function MakeResponse(id: nat, errorFlags: nat, data: seq<byte>): (p: seq<byte>)
    ensures |p| == 16 + |data|
  {
    EncodeReply(Reply(id, errorFlags), Zeros(6)) + data
  }

  /** What a client call may come to: no client for the index, a failed call, or octets. */
  datatype Answer = NoClient | Failed | Data(octets: seq<byte>)

  /** The answer is a reply to this very query. */
  predicate Accepted(q: Query, a: Answer)
  {
    a.Data? && |a.octets| >= 24 && DecodeReply(a.octets[8..24]).id == q.id
  }

  function FlagsOf(a: Answer): nat
    requires a.Data? && |a.octets| >= 24
  {
    DecodeReply(a.octets[8..24]).errorFlags
  }

  /** The response to a query that missed the cache. */
  function Respond(q: Query, a: Answer): seq<byte>
  {
    if a.NoClient? then MakeResponse(q.id, INVALID_ORACLE, [])
    else if Accepted(q, a) then MakeResponse(q.id, FlagsOf(a), a.octets[24..])
    else MakeResponse(q.id, ORACLE_UNAVAIL, [])
  }

  predicate Storable(q: Query, a: Answer)
  {
    Accepted(q, a) && FlagsOf(a) == 0
  }

  // --------------------------------------------------------------------- atomic steps

  /**
    The steps of concurrent calls as the cache lock orders them: a lookup that hits and is
    answered, a lookup that misses, and the completion of a call that had missed.
   */
  datatype CallEvent =
    | Hit(q: Query, t: nat, response: seq<byte>)
    | Miss(q: Query, t: nat)
    | Completed(q: Query, client: nat, answer: Answer, t: nat, response: seq<byte>)

  ghost predicate HandlerStep(c: Config, s: Items, e: CallEvent, s': Items)
  {
    match e
    case Hit(q, t, response) =>
      exists p :: CacheSpec.Step(c, s, CacheSpec.Lookup(KeyOf(q), Some(p), t), s') && response == MakeResponse(q.id, 0, p)
    case Miss(q, t) =>
      CacheSpec.Step(c, s, CacheSpec.Lookup(KeyOf(q), None, t), s')
    case Completed(q, client, a, t, response) =>
      && client == q.interfaceIndex && response == Respond(q, a)
      && (c.enabled && Storable(q, a) ==> CacheSpec.Step(c, s, CacheSpec.Store(KeyOf(q), a.octets[24..], t), s'))
      && (!(c.enabled && Storable(q, a)) ==> s' == s)
  }

  /** What the client registered for an interface would answer. */
  function AnswerOf(clients: map<nat, Answer>, index: nat): Answer
  {
    if index in clients then clients[index] else NoClient
  }

  /** The steps of one call: a hit, or a miss and the completion with the answer of the client asked. */
  ghost predicate CallSteps(c: Config, q: Query, clients: map<nat, Answer>, response: seq<byte>, states: seq<Items>, events: seq<CallEvent>)
  {
    && |states| == |events| + 1
    && (forall i :: 0 <= i < |events| ==> events[i].q == q && HandlerStep(c, states[i], events[i], states[i + 1]))
    && ((|events| == 1 && events[0].Hit?) || (|events| == 2 && events[0].Miss? && events[1].Completed?))
    && match events[|events| - 1]
       case Hit(_, _, r) => r == response
       case Miss(_, _) => false
       case Completed(_, client, answer, _, r) => r == response && answer == AnswerOf(clients, client)
  }

  /** The steps fall between two readings of the clock, in order. */
  ghost predicate Timed(events: seq<CallEvent>, from: nat, to: nat)
  {
    && from <= to
    && (forall i :: 0 <= i < |events| ==> from <= events[i].t <= to)
    && forall i, j :: 0 <= i <= j < |events| ==> events[i].t <= events[j].t
  }

  class Handler {
    const cache: Cache

    constructor (cache: Cache)
      ensures this.cache == cache
    {
      this.cache := cache;
    }

    /**
      handle, given what the client of the queried interface would answer now; the call is
      one hit, or one miss and one completion, with the cache free in between.
     */
    method Handle(header: Header, payload: seq<byte>, clients: map<nat, Answer>)
      returns (response: seq<byte>, ghost states: seq<Items>, ghost events: seq<CallEvent>)
      requires cache.Valid()
      requires forall i :: i in clients ==> !clients[i].NoClient?
      modifies cache, cache.clock
      ensures cache.Valid()
      ensures header.kind != QUERY_TYPE || |payload| < 16 ==>
        response == [] && events == [] && states == [cache.View()]
        && cache.storage == old(cache.storage) && cache.clock.now == old(cache.clock.now)
      ensures header.kind == QUERY_TYPE && |payload| >= 16 ==>
        CallSteps(cache.config, DecodeQuery(payload[..16]), clients, response, states, events)
      ensures states[0] == old(cache.View()) && states[|events|] == cache.View()
      ensures Timed(events, old(cache.clock.now), cache.clock.now)
    {
      hide CacheSpec.Step, EncodeHeader, DecodeQuery, MakeResponse, Respond, Live;
      states, events := [cache.View()], [];
      if header.kind != QUERY_TYPE {
        return [], states, events;
      }
      if |payload| < 16 {
        return [], states, events;
      }
      var packet := EncodeHeader(header) + payload;
      assert packet[8..24] == payload[..16];
      var q := DecodeQuery(packet[8..24]);
      var cached, errorFlag := cache.Lookup(KeyOf(q));
      states := states + [cache.View()];
      if cached.Some? {
        response := MakeResponse(q.id, errorFlag, cached.value);
        events := [Hit(q, cache.clock.now, response)];
        return;
      }
      events := [Miss(q, cache.clock.now)];
      response := Complete(q, clients);
      states := states + [cache.View()];
      events := events + [Completed(q, q.interfaceIndex, AnswerOf(clients, q.interfaceIndex), cache.clock.now, response)];
    }

    method Complete(q: Query, clients: map<nat, Answer>) returns (response: seq<byte>)
      requires cache.Valid()
      requires forall i :: i in clients ==> !clients[i].NoClient?
      modifies cache, cache.clock
      ensures cache.Valid()
      ensures old(cache.clock.now) <= cache.clock.now
      ensures
        var completed := Completed(q, q.interfaceIndex, AnswerOf(clients, q.interfaceIndex), cache.clock.now, response);
        HandlerStep(cache.config, old(cache.View()), completed, cache.View())
    {
      if q.interfaceIndex !in clients {
        return MakeResponse(q.id, INVALID_ORACLE, []);
      }
      var answer := clients[q.interfaceIndex];
      if answer.Failed? {
        return MakeResponse(q.id, ORACLE_UNAVAIL, []);
      }
      if |answer.octets| < 16 + 8 {
        return MakeResponse(q.id, ORACLE_UNAVAIL, []);
      }
      var reply := DecodeReply(answer.octets[8..24]);
      if reply.id != q.id {
        return MakeResponse(q.id, ORACLE_UNAVAIL, []);
      }
      var replyPayload := answer.octets[24..];
      cache.Store(KeyOf(q), replyPayload, reply.errorFlags);
      return MakeResponse(q.id, reply.errorFlags, replyPayload);
    }
  }

  // ----------------------------------------------------------------------- provenance

  /** Any interleaving of the steps of any number of calls, from an empty cache. */
  ghost predicate HandlerRun(c: Config, states: seq<Items>, events: seq<CallEvent>)
  {
    && |states| == |events| + 1
    && states[0] == map[]
    && (forall i :: 0 <= i < |events| ==> HandlerStep(c, states[i], events[i], states[i + 1]))
    && (forall i, j :: 0 <= i <= j < |events| ==> events[i].t <= events[j].t)
  }

  /** Completion j obtained the payload, without error, from a reply to the same query. */
  ghost predicate Supplies(e: CallEvent, q: Query, payload: seq<byte>)
  {
    && e.Completed? && KeyOf(e.q) == KeyOf(q) && e.client == q.interfaceIndex
    && Storable(e.q, e.answer) && e.answer.octets[24..] == payload
  }

  lemma {:induction false} Supplied(c: Config, states: seq<Items>, events: seq<CallEvent>, i: nat, q: Query) returns (j: nat)
    requires HandlerRun(c, states, events) && i < |states| && KeyOf(q) in states[i]
    ensures j < i && Supplies(events[j], q, states[i][KeyOf(q)].payload) && events[j].t == states[i][KeyOf(q)].timeStamp
  {
    hide CacheSpec.Step, Respond, MakeResponse, DecodeReply;
    var k, e := KeyOf(q), events[i - 1];
    assert HandlerStep(c, states[i - 1], e, states[i]);
    match e
    case Hit(q', t, _) =>
      var p :| CacheSpec.Step(c, states[i - 1], CacheSpec.Lookup(KeyOf(q'), Some(p), t), states[i]);
      StepKeeps(c, states[i - 1], CacheSpec.Lookup(KeyOf(q'), Some(p), t), states[i], k);
      j := Supplied(c, states, events, i - 1, q);
    case Miss(q', t) =>
      StepKeeps(c, states[i - 1], CacheSpec.Lookup(KeyOf(q'), None, t), states[i], k);
      j := Supplied(c, states, events, i - 1, q);
    case Completed(q', _, a, t, _) =>
      if c.enabled && Storable(q', a) {
        StepKeeps(c, states[i - 1], CacheSpec.Store(KeyOf(q'), a.octets[24..], t), states[i], k);
      }
      if c.enabled && Storable(q', a) && KeyOf(q') == k {
        j := i - 1;
      } else {
        j := Supplied(c, states, events, i - 1, q);
      }
  }

  /**
    Every response carries the queried id; one with flags 0 carries the payload of a reply
    with that id from the client of that interface, received in this call or in an earlier
    one for the same key less than the time to live ago.
   */
  lemma Provenance(c: Config, states: seq<Items>, events: seq<CallEvent>, i: nat) returns (j: nat)
    requires HandlerRun(c, states, events) && i < |events| && !events[i].Miss?
    requires QueryFits(events[i].q)
    ensures |events[i].response| >= 16
    ensures DecodeReply(events[i].response[..16]).id == events[i].q.id
    ensures DecodeReply(events[i].response[..16]).errorFlags == 0 ==>
      && j <= i && Supplies(events[j], events[i].q, events[i].response[16..])
      && (j < i ==> events[i].Hit? && Fresh(c.ttlSeconds, events[j].t, events[i].t))
  {
    var e := events[i];
    j := i;
    assert HandlerStep(c, states[i], e, states[i + 1]);
    match e
    case Hit(q, t, response) =>
      var p :| CacheSpec.Step(c, states[i], CacheSpec.Lookup(KeyOf(q), Some(p), t), states[i + 1])
        && response == MakeResponse(q.id, 0, p);
      ResponseParts(q.id, 0, p);
      j := Supplied(c, states, events, i, q);
    case Completed(q, _, a, _, _) =>
      CompletedParts(q, a);
  }

  lemma ResponseParts(id: nat, flags: nat, data: seq<byte>)
    requires ReplyFits(Reply(id, flags))
    ensures DecodeReply(MakeResponse(id, flags, data)[..16]) == Reply(id, flags)
    ensures MakeResponse(id, flags, data)[16..] == data
  {
    hide EncodeReply, DecodeReply;
    ReplyRoundTrip(Reply(id, flags), Zeros(6));
    assert MakeResponse(id, flags, data)[..16] == EncodeReply(Reply(id, flags), Zeros(6));
  }

  lemma CompletedParts(q: Query, a: Answer)
    requires QueryFits(q)
    ensures DecodeReply(Respond(q, a)[..16]).id == q.id
    ensures DecodeReply(Respond(q, a)[..16]).errorFlags == 0 <==> Storable(q, a)
    ensures Storable(q, a) ==> Respond(q, a)[16..] == a.octets[24..]
  {
    hide MakeResponse, DecodeReply;
    ResponseParts(q.id, INVALID_ORACLE, []);
    ResponseParts(q.id, ORACLE_UNAVAIL, []);
    if Accepted(q, a) {
      DecodedFits(a.octets[..8], a.octets[8..24]);
      ResponseParts(q.id, FlagsOf(a), a.octets[24..]);
    }
  }

  // --------------------------------------------------------------------- whole sessions

  /** A request as it arrives, with what the clients would answer while it is served. */
  datatype Request = Request(header: Header, payload: seq<byte>, clients: map<nat, Answer>)

  predicate IsQuery(r: Request)
  {
    r.header.kind == QUERY_TYPE && |r.payload| >= 16
  }

  function QueryOf(r: Request): Query
    requires IsQuery(r)
  {
    DecodeQuery(r.payload[..16])
  }

  /** The event is a step of that request, and a completion uses the answer of its client. */
  ghost predicate StepOf(r: Request, e: CallEvent)
  {
    && IsQuery(r) && e.q == QueryOf(r)
    && (e.Completed? ==> e.answer == AnswerOf(r.clients, e.client))
  }

  /** The event that answers request i. */
  ghost predicate AnsweredBy(requests: seq<Request>, responses: seq<seq<byte>>, events: seq<CallEvent>, of: seq<nat>, i: nat, e: nat)
  {
    e < |events| && e < |of| && i < |responses| && of[e] == i && !events[e].Miss? && events[e].response == responses[i]
  }

  /** Every event is a step of a request, in the order of requests, and every query is answered by one. */
  ghost predicate Linked(requests: seq<Request>, responses: seq<seq<byte>>, events: seq<CallEvent>, of: seq<nat>)
  {
    && |responses| <= |requests| && |of| == |events|
    && (forall e :: 0 <= e < |of| ==> of[e] < |responses| && StepOf(requests[of[e]], events[e]))
    && (forall e, f :: 0 <= e <= f < |of| ==> of[e] <= of[f])
    && (forall i :: 0 <= i < |responses| && !IsQuery(requests[i]) ==> responses[i] == [])
    && forall i :: 0 <= i < |responses| && IsQuery(requests[i]) ==> exists e: nat :: AnsweredBy(requests, responses, events, of, i, e)
  }

  lemma RunAppend(c: Config, states: seq<Items>, events: seq<CallEvent>, more: seq<Items>, steps: seq<CallEvent>, from: nat, to: nat)
    requires HandlerRun(c, states, events) && |more| == |steps| + 1 && more[0] == states[|events|]
    requires forall i :: 0 <= i < |steps| ==> HandlerStep(c, more[i], steps[i], more[i + 1])
    requires Timed(steps, from, to) && (events != [] ==> events[|events| - 1].t <= from)
    ensures HandlerRun(c, states + more[1..], events + steps) && (states + more[1..])[|events + steps|] == more[|steps|]
    ensures events + steps != [] ==> (events + steps)[|events + steps| - 1].t <= to
  {
    hide HandlerStep;
    var n, ss, es := |events|, states + more[1..], events + steps;
    forall i | 0 <= i < |es|
      ensures HandlerStep(c, ss[i], es[i], ss[i + 1])
    {
      if i < n {
        assert ss[i] == states[i] && ss[i + 1] == states[i + 1];
      } else {
        assert ss[i] == more[i - n] && ss[i + 1] == more[i - n + 1];
      }
    }
  }

  lemma LinkMore(requests: seq<Request>, responses: seq<seq<byte>>, events: seq<CallEvent>, of: seq<nat>,
                 response: seq<byte>, steps: seq<CallEvent>)
    requires Linked(requests, responses, events, of) && |responses| < |requests|
    requires !IsQuery(requests[|responses|]) ==> response == [] && steps == []
    requires forall e :: 0 <= e < |steps| ==> StepOf(requests[|responses|], steps[e])
    requires IsQuery(requests[|responses|]) ==> steps != [] && !steps[|steps| - 1].Miss? && steps[|steps| - 1].response == response
    ensures Linked(requests, responses + [response], events + steps, of + seq(|steps|, _ => |responses|))
  {
    hide StepOf, IsQuery;
    var n := |responses|;
    var rs, es, fs := responses + [response], events + steps, of + seq(|steps|, _ => n);
    forall i | 0 <= i < |rs| && IsQuery(requests[i])
      ensures exists e: nat :: AnsweredBy(requests, rs, es, fs, i, e)
    {
      if i < n {
        var e: nat :| AnsweredBy(requests, responses, events, of, i, e);
        assert AnsweredBy(requests, rs, es, fs, i, e);
      } else {
        assert AnsweredBy(requests, rs, es, fs, i, |es| - 1);
      }
    }
  }

  /** Any requests, one after the other, from an empty cache: a run, with every event tied to its request. */
  method ServeAll(handler: Handler, requests: seq<Request>)
    returns (responses: seq<seq<byte>>, ghost states: seq<Items>, ghost events: seq<CallEvent>, ghost of: seq<nat>)
    requires handler.cache.Valid() && handler.cache.View() == map[]
    requires forall r :: r in requests ==> forall i :: i in r.clients ==> !r.clients[i].NoClient?
    modifies handler.cache, handler.cache.clock
    ensures handler.cache.Valid() && |responses| == |requests|
    ensures HandlerRun(handler.cache.config, states, events) && Linked(requests, responses, events, of)
  {
    hide HandlerStep, Linked, HandlerRun;
    var cache := handler.cache;
    responses, states, events, of := [], [map[]], [], [];
    NothingServed(cache.config, requests);
    for n := 0 to |requests|
      invariant cache.Valid() && |responses| == n
      invariant |states| == |events| + 1 && states[|events|] == cache.View()
      invariant events != [] ==> events[|events| - 1].t <= cache.clock.now
      invariant HandlerRun(cache.config, states, events) && Linked(requests, responses, events, of)
    {
      var request := requests[n];
      ghost var from := cache.clock.now;
      var response, more, steps := handler.Handle(request.header, request.payload, request.clients);
      RunAppend(cache.config, states, events, more, steps, from, cache.clock.now);
      StepsLinked(cache.config, request, response, more, steps);
      LinkMore(requests, responses, events, of, response, steps);
      of := of + seq(|steps|, _ => n);
      responses, states, events := responses + [response], states + more[1..], events + steps;
    }
  }

  lemma NothingServed(c: Config, requests: seq<Request>)
    ensures HandlerRun(c, [map[]], []) && Linked(requests, [], [], [])
  {
  }

  lemma StepsLinked(c: Config, r: Request, response: seq<byte>, states: seq<Items>, steps: seq<CallEvent>)
    requires IsQuery(r) ==> CallSteps(c, QueryOf(r), r.clients, response, states, steps)
    requires !IsQuery(r) ==> steps == []
    ensures forall e :: 0 <= e < |steps| ==> StepOf(r, steps[e])
    ensures IsQuery(r) ==> steps != [] && !steps[|steps| - 1].Miss? && steps[|steps| - 1].response == response
  {
    hide HandlerStep;
  }

  /** Request r, not after i and for the same key, was answered by its client with this payload and no error. */
  ghost predicate Source(requests: seq<Request>, i: nat, r: nat, payload: seq<byte>)
    requires i < |requests| && IsQuery(requests[i])
  {
    && r <= i && IsQuery(requests[r]) && KeyOf(QueryOf(requests[r])) == KeyOf(QueryOf(requests[i]))
    && var answer := AnswerOf(requests[r].clients, QueryOf(requests[i]).interfaceIndex);
       Storable(QueryOf(requests[r]), answer) && answer.octets[24..] == payload
  }

  /** Every response of every such session carries its query's id, and without an error the payload has a source. */
  lemma EveryResponse(c: Config, requests: seq<Request>, responses: seq<seq<byte>>, states: seq<Items>, events: seq<CallEvent>, of: seq<nat>, i: nat)
    returns (r: nat)
    requires HandlerRun(c, states, events) && Linked(requests, responses, events, of)
    requires i < |responses| && IsQuery(requests[i])
    ensures |responses[i]| >= 16 && DecodeReply(responses[i][..16]).id == QueryOf(requests[i]).id
    ensures DecodeReply(responses[i][..16]).errorFlags == 0 ==> Source(requests, i, r, responses[i][16..])
  {
    hide HandlerRun, DecodeQuery, DecodeReply, Storable;
    var e: nat :| AnsweredBy(requests, responses, events, of, i, e);
    assert StepOf(requests[of[e]], events[e]);
    DecodedFits(Zeros(8), requests[i].payload[..16]);
    var j := Provenance(c, states, events, e);
    r := i;
    if DecodeReply(responses[i][..16]).errorFlags == 0 {
      assert StepOf(requests[of[j]], events[j]);
      r := of[j];
    }
  }

  // ------------------------------------------------------------------ the composed path

  /**
    A query whose payload has the size of the interface, forwarded to a service that
    computes f, comes back as f's flags and payload under the id of the query.
   */
  lemma ComposedPath(header: Header, payload: seq<byte>, f: seq<byte> -> (nat, seq<byte>),
                     querySize: nat, replySize: nat, padding: seq<byte>)
    requires HeaderFits(header) && header.kind == QUERY_TYPE && |payload| == 16 + querySize && |padding| == 6
    requires f(payload[16..]).0 < 0x1_0000
    ensures
      var q := DecodeQuery(payload[..16]);
      var (flags, data) := f(payload[16..]);
      var served := Serve(f, EncodeHeader(header) + payload, querySize, replySize, padding);
      && ParseQueryPacket(EncodeHeader(header) + payload, querySize) == Some(QueryPacket(header, q, payload[16..]))
      && served.Some?
      && Respond(q, Data(served.value)) == MakeResponse(q.id, flags, Fit(data, replySize))
  {
    hide EncodeHeader, DecodeHeader, DecodeQuery, DecodeReply, EncodeReply, MakeResponse, Fit;
    var packet := EncodeHeader(header) + payload;
    assert packet[..8] == EncodeHeader(header) && packet[8..24] == payload[..16] && packet[24..] == payload[16..];
    HeaderRoundTrip(header);
    var q := DecodeQuery(payload[..16]);
    var (flags, data) := f(payload[16..]);
    var out := BuildReplyPacket(q.id, flags, data, replySize, padding);
    assert out[8..24] == EncodeReply(Reply(q.id, flags), padding) && out[24..] == Fit(data, replySize);
    DecodedFits(packet[..8], payload[..16]);
    ReplyRoundTrip(Reply(q.id, flags), padding);
  }
}
