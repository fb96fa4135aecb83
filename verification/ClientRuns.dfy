/**
  What the requests of a client get over its whole life: which connection carries each, as
  which exchange of that connection, and which frame of its stream the reply is.
 */
module ClientRuns {
  import opened Words
  import opened Wrappers
  import opened Sessions
  import opened Exchanges
  import opened InterfaceClient

  /** The connection of a dial, and how many requests it had carried in full. */
  datatype Exchange = Exchange(dial: nat, turn: nat)

  /** The live connection, where it comes from, and how many dials have been made. */
  datatype Line = Line(live: Option<Socket>, at: Exchange, next: nat)

  function RouteOf(dials: seq<Option<Socket>>, l: Line): seq<Option<Socket>>
    requires l.next <= |dials|
  {
    (if l.live.Some? then [l.live] else []) + dials[l.next..]
  }

  /** The exchange is on a connection that was established, and finds this script in front of it. */
  predicate Meets(dials: seq<Option<Socket>>, e: Exchange, inbox: seq<Arrival>)
  {
    e.dial < |dials| && dials[e.dial].Some? && Nth(dials[e.dial].value.inbox, e.turn) == Some(inbox)
  }

  predicate LineOk(dials: seq<Option<Socket>>, l: Line)
  {
    l.next <= |dials| && (l.live.Some? ==> l.at.dial < l.next && Meets(dials, l.at, l.live.value.inbox))
  }

  /** One request: the line behind it, and the exchange it became. */
  function Go(dials: seq<Option<Socket>>, l: Line, query: seq<byte>, left: nat): (r: (Line, Option<Exchange>))
    requires l.next <= |dials|
    ensures l.next <= r.0.next <= |dials|
    decreases left
  {
    if left == 0 || (l.live.None? && l.next == |dials|) then (l, None)
    else if l.live.None? && dials[l.next].None? then (l.(next := l.next + 1), None)
    else
      var c := Connected(dials, l);
      if TakesAll(c.live.value, query) then (Carried(c, query), Some(c.at)) else Go(dials, c.(live := None), query, left - 1)
  }

  /** The line with a connection: the live one or that of the next dial. */
  function Connected(dials: seq<Option<Socket>>, l: Line): (c: Line)
    requires l.live.Some? || (l.next < |dials| && dials[l.next].Some?)
    ensures c.live.Some? && l.next <= c.next && (l.next <= |dials| ==> c.next <= |dials|)
  {
    if l.live.Some? then l else Line(dials[l.next], Exchange(l.next, 0), l.next + 1)
  }

  /** The line behind a request its connection has carried. */
  function Carried(c: Line, query: seq<byte>): Line
    requires c.live.Some?
  {
    var rest := After(c.live.value, query);
    Line(if rest == [] then None else rest[0], Exchange(c.at.dial, c.at.turn + 1), c.next)
  }

  lemma ConnectedOk(dials: seq<Option<Socket>>, l: Line)
    requires LineOk(dials, l) && (l.live.Some? || (l.next < |dials| && dials[l.next].Some?))
    ensures
      var (c, route) := (Connected(dials, l), RouteOf(dials, l));
      && LineOk(dials, c) && LineOk(dials, c.(live := None))
      && route != [] && route[0] == c.live && route[1..] == dials[c.next..] == RouteOf(dials, c.(live := None))
  {
  }

  lemma CarriedOk(dials: seq<Option<Socket>>, c: Line, query: seq<byte>)
    requires LineOk(dials, c) && c.live.Some?
    ensures LineOk(dials, Carried(c, query)) && RouteOf(dials, Carried(c, query)) == After(c.live.value, query) + dials[c.next..]
  {
    hide Left, Meets;
    if Left(c.live.value.inbox).Some? {
      MeetsNext(dials, c.at, c.live.value.inbox);
    }
  }

  lemma RouteStep(route: seq<Option<Socket>>, query: seq<byte>, left: nat)
    requires left > 0 && route != [] && route[0].Some?
    ensures TakesAll(route[0].value, query) ==>
      Carrier(route, query, left) == route[0] && Onward(route, query, left) == After(route[0].value, query) + route[1..]
    ensures !TakesAll(route[0].value, query) ==>
      Carrier(route, query, left) == Carrier(route[1..], query, left - 1) && Onward(route, query, left) == Onward(route[1..], query, left - 1)
  {
    hide TakesAll, After;
  }

  lemma MeetsNext(dials: seq<Option<Socket>>, e: Exchange, inbox: seq<Arrival>)
    requires Meets(dials, e, inbox) && Left(inbox).Some?
    ensures Meets(dials, Exchange(e.dial, e.turn + 1), Left(inbox).value)
  {
    hide Left;
  }

  lemma GoStep(dials: seq<Option<Socket>>, l: Line, query: seq<byte>, left: nat)
    requires l.next <= |dials| && left > 0 && (l.live.Some? || (l.next < |dials| && dials[l.next].Some?))
    ensures
      var c := Connected(dials, l);
      Go(dials, l, query, left) ==
        if TakesAll(c.live.value, query) then (Carried(c, query), Some(c.at)) else Go(dials, c.(live := None), query, left - 1)
  {
    hide TakesAll, Connected, Carried;
  }

  /** The line goes on as the route does, and its exchange meets what the carrier meets. */
  predicate Follows(dials: seq<Option<Socket>>, route: seq<Option<Socket>>, r: (Line, Option<Exchange>), query: seq<byte>, left: nat)
  {
    var carrier := Carrier(route, query, left);
    && LineOk(dials, r.0) && RouteOf(dials, r.0) == Onward(route, query, left)
    && (r.1.Some? <==> carrier.Some?) && (r.1.Some? ==> Meets(dials, r.1.value, carrier.value.inbox))
  }

  lemma {:induction false} GoFollows(dials: seq<Option<Socket>>, l: Line, query: seq<byte>, left: nat)
    requires LineOk(dials, l)
    ensures Follows(dials, RouteOf(dials, l), Go(dials, l, query, left), query, left)
    decreases left
  {
    if left == 0 || (l.live.None? && (l.next == |dials| || dials[l.next].None?)) {
      GoNowhere(dials, l, query, left);
    } else {
      hide TakesAll, After, Meets, Connected, Carried, Go, Carrier, Onward, RouteOf, LineOk;
      var c := Connected(dials, l);
      ConnectedOk(dials, l);
      RouteStep(RouteOf(dials, l), query, left);
      GoStep(dials, l, query, left);
      if TakesAll(c.live.value, query) {
        CarriedOk(dials, c, query);
        AtMeets(dials, c);
      } else {
        GoFollows(dials, c.(live := None), query, left - 1);
      }
    }
  }

  lemma GoNowhere(dials: seq<Option<Socket>>, l: Line, query: seq<byte>, left: nat)
    requires LineOk(dials, l) && (left == 0 || (l.live.None? && (l.next == |dials| || dials[l.next].None?)))
    ensures Follows(dials, RouteOf(dials, l), Go(dials, l, query, left), query, left)
  {
    hide TakesAll, After, Meets;
    if left > 0 && l.next < |dials| {
      assert RouteOf(dials, l)[1..] == dials[l.next + 1..];
    }
  }

  lemma AtMeets(dials: seq<Option<Socket>>, c: Line)
    requires LineOk(dials, c) && c.live.Some?
    ensures Meets(dials, c.at, c.live.value.inbox)
  {
  }

  /** The exchange is the next one of the live connection or the first one of a later dial. */
  lemma {:induction false} GoNumbers(dials: seq<Option<Socket>>, l: Line, query: seq<byte>, left: nat)
    requires LineOk(dials, l) && left > 0
    ensures
      var (l', e) := Go(dials, l, query, left);
      && (e.Some? ==> e.value.dial < l'.next && ((l.live.Some? && e.value == l.at) || (e.value.turn == 0 && e.value.dial >= l.next)))
      && (l'.live.Some? ==> e.Some? && l'.at == Exchange(e.value.dial, e.value.turn + 1))
    decreases left
  {
    hide TakesAll, After, Meets;
    if l.live.Some? || (l.next < |dials| && dials[l.next].Some?) {
      var c := Connected(dials, l);
      if !TakesAll(c.live.value, query) && left > 1 {
        GoNumbers(dials, c.(live := None), query, left - 1);
      }
    }
  }

  // ------------------------------------------------------------------ all requests

  const ATTEMPTS: nat := MAX_SEND_RETRIES + 1

  function LineBefore(dials: seq<Option<Socket>>, queries: seq<seq<byte>>, i: nat): (l: Line)
    requires i <= |queries|
    ensures l.next <= |dials|
    decreases i
  {
    if i == 0 then Line(None, Exchange(0, 0), 0) else Go(dials, LineBefore(dials, queries, i - 1), queries[i - 1], ATTEMPTS).0
  }

  /** The exchange request i becomes, if it goes out in full. */
  function Entry(dials: seq<Option<Socket>>, queries: seq<seq<byte>>, i: nat): Option<Exchange>
    requires i < |queries|
  {
    Go(dials, LineBefore(dials, queries, i), queries[i], ATTEMPTS).1
  }

  /** How many of the first i requests went out in full on the connection of a dial. */
  function CountOn(dials: seq<Option<Socket>>, queries: seq<seq<byte>>, i: nat, dial: nat): nat
    requires i <= |queries|
    decreases i
  {
    if i == 0 then 0
    else
      var e := Entry(dials, queries, i - 1);
      CountOn(dials, queries, i - 1, dial) + if e.Some? && e.value.dial == dial then 1 else 0
  }

  lemma {:induction false} LinesFollow(dials: seq<Option<Socket>>, queries: seq<seq<byte>>, i: nat)
    requires i <= |queries|
    ensures LineOk(dials, LineBefore(dials, queries, i))
    ensures RouteOf(dials, LineBefore(dials, queries, i)) == RouteBefore(dials, queries, i)
    decreases i
  {
    hide Go, Onward, Meets;
    if i == 0 {
      assert dials[0..] == dials;
    } else {
      LinesFollow(dials, queries, i - 1);
      GoFollows(dials, LineBefore(dials, queries, i - 1), queries[i - 1], ATTEMPTS);
    }
  }

  lemma {:induction false} LinesCount(dials: seq<Option<Socket>>, queries: seq<seq<byte>>, i: nat)
    requires i <= |queries|
    ensures
      var l := LineBefore(dials, queries, i);
      && (l.live.Some? ==> l.at.turn == CountOn(dials, queries, i, l.at.dial))
      && forall d :: d >= l.next ==> CountOn(dials, queries, i, d) == 0
    decreases i
  {
    hide Go, Meets;
    if i > 0 {
      LinesCount(dials, queries, i - 1);
      LinesFollow(dials, queries, i - 1);
      GoNumbers(dials, LineBefore(dials, queries, i - 1), queries[i - 1], ATTEMPTS);
    }
  }

  /**
    For any connections and any requests: a request goes out in full exactly when it has a
    carrier, and then it is the next exchange of the connection of one dial, numbered by the
    requests that connection carried before.
   */
  lemma EachExchange(dials: seq<Option<Socket>>, queries: seq<seq<byte>>, i: nat)
    requires i < |queries|
    ensures
      var (e, carrier) := (Entry(dials, queries, i), CarrierOf(dials, queries, i));
      && (e.Some? <==> carrier.Some?)
      && (e.Some? ==> Meets(dials, e.value, carrier.value.inbox) && e.value.turn == CountOn(dials, queries, i, e.value.dial))
  {
    hide Go, Carrier, Meets, CountOn;
    var l := LineBefore(dials, queries, i);
    LinesFollow(dials, queries, i);
    GoFollows(dials, l, queries[i], ATTEMPTS);
    LinesCount(dials, queries, i);
    GoNumbers(dials, l, queries[i], ATTEMPTS);
  }

  /** The reply is the payload of frame n of the stream, behind the place of the header. */
  predicate ReadsFrame(s: seq<byte>, reply: seq<byte>, n: nat)
  {
    Frames(s, n) && Frames(Behind(s, n), 1) && reply == Zeros(8) + FramePayload(s, n)
  }

  /**
    The reply a request is given, as long as no header of its connection was broken off
    inside: the frame its number says, less one for each interruption. It is the one of its
    own number exactly when there was none.
   */
  lemma EachReply(dials: seq<Option<Socket>>, queries: seq<seq<byte>>, i: nat)
    requires i < |queries| && ReplyOn(CarrierOf(dials, queries, i)).Some?
    ensures
      var e := Entry(dials, queries, i);
      && e.Some? && e.value.dial < |dials| && dials[e.value.dial].Some?
      && var (origin, k) := (dials[e.value.dial].value.inbox, e.value.turn);
         BetweenFrames(origin, k) ==>
           && ReadsFrame(Stream(origin), ReplyOn(CarrierOf(dials, queries, i)).value, k - Lag(origin, k))
           && (Frames(Stream(origin), k) && Behind(Stream(origin), k) == Stream(CarrierOf(dials, queries, i).value.inbox)
               <==> Lag(origin, k) == 0)
  {
    hide Entry, CarrierOf, CountOn, Nth, Lag, BetweenFrames, Frames, Behind, Stream, ReplyTaken, ReplyComplete;
    EachExchange(dials, queries, i);
    var e := Entry(dials, queries, i).value;
    var origin := dials[e.dial].value.inbox;
    if BetweenFrames(origin, e.turn) {
      WhoseReply(origin, e.turn);
    }
  }
}
