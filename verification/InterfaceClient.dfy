/**
  The exchange of interface_client.cpp with an oracle service: connecting, sending a
  request, receiving the reply, and retrying on another connection.
 */
module InterfaceClient {
  import opened Words
  import opened Wire
  import opened Wrappers
  import opened Sessions
  import opened Exchanges

  const MAX_SEND_RETRIES: nat := 8

  /** What a connection that gets established will do. */
  datatype Socket = Socket(inbox: seq<Arrival>, sends: seq<int>)

  /** The socket takes the whole request. */
  predicate TakesAll(socket: Socket, query: seq<byte>)
  {
    query != [] && Takes(socket.sends, |query|) == |query|
  }

  /** The first connection on the route that takes the whole request, before one is refused and within the attempts left. */
  function Carrier(route: seq<Option<Socket>>, query: seq<byte>, left: nat): Option<Socket>
  {
    if left == 0 || route == [] || route[0].None? then None
    else if TakesAll(route[0].value, query) then route[0]
    else Carrier(route[1..], query, left - 1)
  }

  /** The first n connections were established and did not take the whole request. */
  predicate Missed(route: seq<Option<Socket>>, query: seq<byte>, n: nat)
  {
    n <= |route| && forall i :: 0 <= i < n ==> route[i].Some? && !TakesAll(route[i].value, query)
  }

  lemma {:induction false} CarrierAfter(route: seq<Option<Socket>>, query: seq<byte>, n: nat, left: nat)
    requires Missed(route, query, n) && n <= left
    ensures Carrier(route, query, left) ==
      if n == left || n == |route| || route[n].None? then None
      else if TakesAll(route[n].value, query) then route[n]
      else Carrier(route[n + 1..], query, left - n - 1)
  {
    hide TakesAll;
    if n > 0 {
      CarrierAfter(route[1..], query, n - 1, left - 1);
      assert n < |route| ==> route[1..][n..] == route[n + 1..];
    }
  }

  /** What is left of a connection that has carried the request: nothing if it is closed. */
  function After(socket: Socket, query: seq<byte>): seq<Option<Socket>>
  {
    if Left(socket.inbox).None? then []
    else [Some(Socket(Left(socket.inbox).value, SendsLeft(socket.sends, |query|)))]
  }

  /** The route behind a request: used connections and a refusal are gone, the carrier stays as far as it lives. */
  function Onward(route: seq<Option<Socket>>, query: seq<byte>, left: nat): seq<Option<Socket>>
  {
    if left == 0 || route == [] then route
    else if route[0].None? then route[1..]
    else if TakesAll(route[0].value, query) then After(route[0].value, query) + route[1..]
    else Onward(route[1..], query, left - 1)
  }

  lemma {:induction false} OnwardAfter(route: seq<Option<Socket>>, query: seq<byte>, n: nat, left: nat)
    requires Missed(route, query, n) && n <= left
    ensures Onward(route, query, left) ==
      if n == left || n == |route| then route[n..]
      else if route[n].None? then route[n + 1..]
      else if TakesAll(route[n].value, query) then After(route[n].value, query) + route[n + 1..]
      else Onward(route[n + 1..], query, left - n - 1)
  {
    hide TakesAll, After;
    if n > 0 {
      OnwardAfter(route[1..], query, n - 1, left - 1);
      assert route[1..][n - 1..] == route[n..];
      assert n < |route| ==> route[1..][n..] == route[n + 1..];
    }
  }

  /** The reply a request is given by the connection that carried it. */
  function ReplyOn(carrier: Option<Socket>): Option<seq<byte>>
  {
    if carrier.None? || !ReplyTaken(carrier.value.inbox) then None
    else
      TakenExactly(carrier.value.inbox);
      Some(ReplyData(carrier.value.inbox))
  }

  /** What a client that starts with these connections has before it when request i comes. */
  function RouteBefore(dials: seq<Option<Socket>>, queries: seq<seq<byte>>, i: nat): seq<Option<Socket>>
    requires i <= |queries|
    decreases i
  {
    if i == 0 then dials else Onward(RouteBefore(dials, queries, i - 1), queries[i - 1], MAX_SEND_RETRIES + 1)
  }

  /** The connection that carries request i. */
  function CarrierOf(dials: seq<Option<Socket>>, queries: seq<seq<byte>>, i: nat): Option<Socket>
    requires i < |queries|
  {
    Carrier(RouteBefore(dials, queries, i), queries[i], MAX_SEND_RETRIES + 1)
  }

  /** Of this request the session has taken what its socket takes, and nothing else. */
  predicate Took(session: Session, past: seq<byte>, socket: Socket, query: seq<byte>)
    reads session
  {
    session.accepted == past + query[..Takes(socket.sends, |query|)]
  }

  /** Each attempt was made on a session of its own, which took what its socket takes. */
  predicate Tried(used: seq<Session>, past: seq<byte>, route: seq<Option<Socket>>, query: seq<byte>)
    reads used
  {
    && |used| <= |route|
    && (forall i, j :: 0 <= i < j < |used| ==> used[i] != used[j])
    && forall i :: 0 <= i < |used| ==> route[i].Some? && Took(used[i], if i == 0 then past else [], route[i].value, query)
  }

  lemma TriedMore(used: seq<Session>, session: Session, past: seq<byte>, route: seq<Option<Socket>>, query: seq<byte>)
    requires Tried(used, past, route, query) && session !in used && |used| < |route| && route[|used|].Some?
    requires Took(session, if |used| == 0 then past else [], route[|used|].value, query)
    ensures Tried(used + [session], past, route, query)
  {
    hide Took;
  }

  class Client {
    var session: Session?
    /** What successive connection attempts will meet; a spent script refuses. */
    var dials: seq<Option<Socket>>

    constructor (dials: seq<Option<Socket>>)
      ensures session == null && this.dials == dials
    {
      session, this.dials := null, dials;
    }

    predicate Live()
      reads this, session
    {
      session != null && session.active
    }

    /** What successive attempts will meet: the live session first, then new connections. */
    function Route(): seq<Option<Socket>>
      reads this, session
    {
      (if Live() then [Some(Socket(session.inbox, session.sends))] else []) + dials
    }

    /** What the session has taken in earlier calls. */
    function Past(): seq<byte>
      reads this, session
    {
      if Live() then session.accepted else []
    }

    /** Keeps a live session, and otherwise replaces it by the next connection, if there is one. */
    method Connect() returns (ok: bool)
      modifies this
      ensures ok <==> Live()
      ensures ok <==> old(Route()) != [] && old(Route())[0].Some?
      ensures ok ==> Route() == old(Route()) && Past() == old(Past())
      ensures if old(Live()) then session == old(session) else session == null || fresh(session)
      ensures !ok ==> Route() == if old(Route()) == [] then [] else old(Route())[1..]
    {
      if session != null && session.active {
        return true;
      }
      session := null;
      if dials == [] {
        return false;
      }
      var socket := dials[0];
      dials := dials[1..];
      if socket.None? {
        return false;
      }
      session := new Session(socket.value.inbox, socket.value.sends);
      return true;
    }

    /**
      1 after a taken reply, 0 when the request did not go out in full, -1 when it did and no
      reply was taken. What the session goes on with depends on the script alone: after an
      interrupted header it is kept, with the rest of that header still to come.
     */
    method SendAndReceive(query: seq<byte>) returns (rc: int, reply: seq<byte>)
      modifies session
      ensures rc == 0 <==> !old(Live()) || !TakesAll(old(Route())[0].value, query)
      ensures rc != 0 ==> rc == if ReplyTaken(old(session.inbox)) then 1 else -1
      ensures old(Live()) ==> session.accepted == old(session.accepted) + query[..Takes(old(session.sends), |query|)]
      ensures rc == 1 ==> ReplyComplete(old(session.inbox)) && reply == ReplyData(old(session.inbox))
      ensures rc != 0 ==> (Live() <==> Left(old(session.inbox)).Some?)
      ensures rc != 0 && Live() ==>
        session.inbox == Left(old(session.inbox)).value && session.sends == SendsLeft(old(session.sends), |query|)
      ensures rc == -1 ==> (Live() <==> Interrupted(old(session.inbox)))
      ensures rc == 0 ==> !Live()
    {
      hide DecodeHeader, Advance, Quiet, Stream, AtOnce, Takes, SendsLeft, Gathered, Prompt, Later;
      reply := [];
      if session == null || !session.active {
        return 0, [];
      }
      TakenExactly(session.inbox);
      var ok := session.SendData(query);
      if !ok {
        session.Close();
        return 0, [];
      }
      assert query[..|query|] == query;
      var received, head := session.ReceiveExact(8);
      if received != 8 {
        return -1, [];
      }
      var size := DecodeHeader(head).size;
      ghost var mid := session.inbox;
      HeaderRead(old(session.inbox), head, mid);
      if size < 8 {
        session.Close();
        return -1, [];
      }
      var payload;
      received, payload := session.Receive(size - 8);
      if received != size - 8 {
        session.Close();
        return -1, [];
      }
      GatherMore(old(session.inbox), head, mid, payload, session.inbox);
      PayloadTaken(old(session.inbox), head, payload, session.inbox);
      return 1, Zeros(8) + payload;
    }

    /** Between attempts: those made failed to send, each on a session of its own, and the route goes on from there. */
    ghost predicate Retrying(query: seq<byte>, route: seq<Option<Socket>>, past: seq<byte>, used: seq<Session>)
      reads this, session, used
    {
      && Missed(route, query, |used|) && Route() == route[|used|..]
      && (if used == [] then Past() == past else !Live())
      && Tried(used, past, route, query)
    }

    lemma FirstTry(query: seq<byte>)
      ensures Retrying(query, Route(), Past(), [])
    {
      NoneMissed(Route(), query);
      NoneTried(Past(), Route(), query);
    }

    lemma RetryFacts(query: seq<byte>, route: seq<Option<Socket>>, past: seq<byte>, used: seq<Session>)
      requires Retrying(query, route, past, used)
      ensures |used| <= |route| && Missed(route, query, |used|) && Tried(used, past, route, query)
      ensures Route() == route[|used|..] && (used != [] ==> !Live())
    {
    }

    /** One attempt: 2 if there is no connection, and otherwise as SendAndReceive. */
    method Attempt(query: seq<byte>, ghost route: seq<Option<Socket>>, ghost past: seq<byte>, ghost used: seq<Session>)
      returns (rc: int, reply: seq<byte>, ghost used': seq<Session>)
      requires Retrying(query, route, past, used)
      modifies this, session
      ensures if old(Live()) then session == old(session) else session == null || fresh(session)
      ensures Tried(used', past, route, query)
      ensures rc == 2 <==> |used| == |route| || route[|used|].None?
      ensures rc == 2 ==> used' == used && !Live() && Route() == if |used| == |route| then [] else route[|used| + 1..]
      ensures rc != 2 ==> session != null && used' == used + [session]
      ensures rc != 2 ==> (rc == 0 <==> !TakesAll(route[|used|].value, query))
      ensures rc == 0 ==> Retrying(query, route, past, used')
      ensures rc != 2 && rc != 0 ==> rc == if ReplyTaken(route[|used|].value.inbox) then 1 else -1
      ensures rc == 1 ==> ReplyComplete(route[|used|].value.inbox) && reply == ReplyData(route[|used|].value.inbox)
      ensures rc != 2 && rc != 0 ==> Route() == After(route[|used|].value, query) + route[|used| + 1..]
      ensures rc != 2 && rc != 0 ==> (Live() <==> Left(route[|used|].value.inbox).Some?)
    {
      hide ReplyTaken, ReplyComplete, ReplyData, TakesAll, Took, Takes, SendsLeft, Stream, Advance, Quiet, Tried, Missed, Left, Interrupted;
      RouteHead(route, query, |used|);
      rc, reply, used' := 2, [], used;
      var connected := Connect();
      if !connected {
        return;
      }
      assert dials == route[|used| + 1..];
      assert session !in used;
      rc, reply := SendAndReceive(query);
      assert Took(session, old(Past()), route[|used|].value, query) by { TookNow(session, old(Past()), route[|used|].value, query); }
      TriedMore(used, session, past, route, query);
      used' := used + [session];
      if rc == 0 {
        MissedMore(route, query, |used|);
      }
    }

    /**
      At most nine attempts, each on its own session. Only the last can have sent the whole
      request, and the call succeeds exactly when it did and the reply was taken.
     */
    method ProcessQueryRequest(query: seq<byte>) returns (ok: bool, reply: seq<byte>, ghost used: seq<Session>)
      modifies this, session
      ensures session == old(session) || session == null || fresh(session)
      ensures |used| <= MAX_SEND_RETRIES + 1
      ensures Tried(used, old(Past()), old(Route()), query)
      ensures
        var route := old(Route());
        if Carrier(route, query, MAX_SEND_RETRIES + 1).Some?
          then used != [] && Missed(route, query, |used| - 1) && TakesAll(route[|used| - 1].value, query)
          else Missed(route, query, |used|) && (|used| == MAX_SEND_RETRIES + 1 || |used| == |route| || route[|used|].None?)
      ensures
        var carrier := Carrier(old(Route()), query, MAX_SEND_RETRIES + 1);
        ok <==> carrier.Some? && ReplyTaken(carrier.value.inbox)
      ensures
        var carrier := Carrier(old(Route()), query, MAX_SEND_RETRIES + 1);
        ok ==> ReplyComplete(carrier.value.inbox) && reply == ReplyData(carrier.value.inbox)
      ensures Route() == Onward(old(Route()), query, MAX_SEND_RETRIES + 1)
      ensures
        var carrier := Carrier(old(Route()), query, MAX_SEND_RETRIES + 1);
        Live() <==> carrier.Some? && Left(carrier.value.inbox).Some?
    {
      hide ReplyTaken, ReplyComplete, ReplyData, TakesAll, Took, Takes, Stream, Advance, Quiet, Carrier, Onward, After, Left, Tried, Missed, Retrying, Route, Past, Live;
      ghost var route, past := Route(), Past();
      reply, used := [], [];
      FirstTry(query);
      var attempt := 0;
      while attempt <= MAX_SEND_RETRIES
        invariant |used| == attempt <= MAX_SEND_RETRIES + 1
        invariant Retrying(query, route, past, used)
        invariant session == old(session) || session == null || fresh(session)
        invariant forall s :: s in used ==> s == old(session) || fresh(s)
      {
        RetryFacts(query, route, past, used);
        CarrierAfter(route, query, attempt, MAX_SEND_RETRIES + 1);
        OnwardAfter(route, query, attempt, MAX_SEND_RETRIES + 1);
        var rc;
        rc, reply, used := Attempt(query, route, past, used);
        if rc == 2 {
          return false, [], used;
        }
        if rc == 1 {
          return true, reply, used;
        }
        if rc < 0 {
          return false, [], used;
        }
        attempt := attempt + 1;
      }
      RetryFacts(query, route, past, used);
      CarrierAfter(route, query, attempt, MAX_SEND_RETRIES + 1);
      OnwardAfter(route, query, attempt, MAX_SEND_RETRIES + 1);
      return false, [], used;
    }

    /** Any requests, one after the other, on a new client: each is given what its carrier brings. */
    method ProcessAll(queries: seq<seq<byte>>) returns (replies: seq<Option<seq<byte>>>)
      requires session == null
      modifies this
      ensures |replies| == |queries|
      ensures forall i :: 0 <= i < |queries| ==> replies[i] == ReplyOn(CarrierOf(old(dials), queries, i))
      ensures Route() == RouteBefore(old(dials), queries, |queries|)
    {
      hide Carrier, Onward, Tried, Missed, TakesAll, ReplyTaken, ReplyComplete, ReplyData;
      ghost var all := dials;
      replies := [];
      for n := 0 to |queries|
        invariant |replies| == n && Route() == RouteBefore(all, queries, n)
        invariant session == null || fresh(session)
        invariant forall i :: 0 <= i < n ==> replies[i] == ReplyOn(CarrierOf(all, queries, i))
      {
        var ok, reply, used := ProcessQueryRequest(queries[n]);
        replies := replies + [if ok then Some(reply) else None];
      }
    }
  }

  lemma RouteHead(route: seq<Option<Socket>>, query: seq<byte>, n: nat)
    requires Missed(route, query, n)
    ensures n <= |route|
    ensures n < |route| ==> route[n..][0] == route[n] && route[n..][1..] == route[n + 1..]
  {
  }

  lemma TookNow(session: Session, past: seq<byte>, socket: Socket, query: seq<byte>)
    requires session.accepted == past + query[..Takes(socket.sends, |query|)]
    ensures Took(session, past, socket, query)
  {
  }

  lemma NoneMissed(route: seq<Option<Socket>>, query: seq<byte>)
    ensures Missed(route, query, 0)
  {
  }

  lemma MissedMore(route: seq<Option<Socket>>, query: seq<byte>, n: nat)
    requires Missed(route, query, n) && n < |route| && route[n].Some? && !TakesAll(route[n].value, query)
    ensures Missed(route, query, n + 1)
  {
    hide TakesAll;
  }

  lemma NoneTried(past: seq<byte>, route: seq<Option<Socket>>, query: seq<byte>)
    ensures Tried([], past, route, query)
  {
  }
}
