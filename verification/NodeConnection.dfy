/**
  The session loop of node_connection.cpp: which parts of an inbound octet stream reach
  the handler, for every way the stream is cut into deliveries and timeouts.
 */
module NodeConnection {
  import opened Words
  import opened Wire
  import opened Sessions
  import opened Seqs
  import opened Wrappers

  const MAX_PACKET: nat := 0xFFFF

  datatype Frame = Frame(header: Header, payload: seq<byte>)

  predicate SizeOk(size: nat)
  {
    8 <= size <= MAX_PACKET
  }

  /** The stream starts with a complete frame of acceptable size. */
  predicate StartsWithFrame(s: seq<byte>)
  {
    |s| >= 8 && SizeOk(DecodeHeader(s[..8]).size) && DecodeHeader(s[..8]).size <= |s|
  }

  /** The first frame of the stream, if the handler is to see it. */
  function FirstQuery(s: seq<byte>): seq<Frame>
    requires StartsWithFrame(s)
  {
    var header := DecodeHeader(s[..8]);
    if header.kind == QUERY_TYPE then [Frame(header, s[8..header.size])] else []
  }

  /** The query frames of a stream, up to the first frame that is malformed or incomplete. */
  function QueryFrames(s: seq<byte>): seq<Frame>
    decreases |s|
  {
    if !StartsWithFrame(s) then []
    else FirstQuery(s) + QueryFrames(s[DecodeHeader(s[..8]).size..])
  }

  function SkipTimeouts(inbox: seq<Arrival>): (r: seq<Arrival>)
    ensures Stream(r) == Stream(inbox)
  {
    if inbox != [] && inbox[0].Timeout? then SkipTimeouts(inbox[1..]) else inbox
  }

  /** The script stands in front of a complete frame that no timeout interrupts. */
  predicate FrameAhead(at: seq<Arrival>)
  {
    StartsWithFrame(Stream(at)) && Quiet(at, DecodeHeader(Stream(at)[..8]).size)
  }

  /** The frames a session serves: timeouts are waited out between frames, and end it inside one. */
  function Served(inbox: seq<Arrival>): seq<Frame>
    decreases |Stream(inbox)|
  {
    var at := SkipTimeouts(inbox);
    if !FrameAhead(at) then []
    else FirstQuery(Stream(at)) + Served(Advance(at, DecodeHeader(Stream(at)[..8]).size))
  }

  /** No timeout falls inside a complete frame. */
  predicate Undisturbed(inbox: seq<Arrival>)
    decreases |Stream(inbox)|
  {
    var at := SkipTimeouts(inbox);
    StartsWithFrame(Stream(at)) ==>
      FrameAhead(at) && Undisturbed(Advance(at, DecodeHeader(Stream(at)[..8]).size))
  }

  /** What is served is what the stream says, as far as it goes; all of it when undisturbed. */
  lemma {:induction false} ServedIsPrefix(inbox: seq<Arrival>)
    ensures Served(inbox) <= QueryFrames(Stream(inbox))
    ensures Undisturbed(inbox) ==> Served(inbox) == QueryFrames(Stream(inbox))
    decreases |Stream(inbox)|
  {
    hide DecodeHeader;
    var at := SkipTimeouts(inbox);
    if FrameAhead(at) {
      ServedIsPrefix(Advance(at, DecodeHeader(Stream(at)[..8]).size));
    }
  }

  /** How the stream was cut up does not matter. */
  lemma CutsDoNotMatter(inbox: seq<Arrival>, other: seq<Arrival>)
    requires Stream(inbox) == Stream(other) && Undisturbed(inbox) && Undisturbed(other)
    ensures Served(inbox) == Served(other)
  {
    ServedIsPrefix(inbox);
    ServedIsPrefix(other);
  }

  lemma {:induction false} SkipTwice(inbox: seq<Arrival>)
    ensures SkipTimeouts(SkipTimeouts(inbox)) == SkipTimeouts(inbox)
    ensures var at := SkipTimeouts(inbox); at == [] || !at[0].Timeout?
  {
    if inbox != [] && inbox[0].Timeout? {
      SkipTwice(inbox[1..]);
    }
  }

  function ResponseHeader(payload: seq<byte>, dejavu: nat): (p: seq<byte>)
    ensures |p| == 8
  {
    EncodeHeader(Header(8 + |payload|, REPLY_TYPE, dejavu))
  }

  /** The octets answering the calls, each response under a header with its own dejavu. */
  function Responses(calls: seq<Frame>, handler: seq<Frame> -> seq<byte>, dejavus: seq<nat>): seq<byte>
    requires |calls| == |dejavus|
  {
    if calls == [] then []
    else
      var n := |calls| - 1;
      var response := handler(calls);
      Responses(calls[..n], handler, dejavus[..n]) + if response == [] then [] else ResponseHeader(response, dejavus[n]) + response
  }

  /** What is left of the send script when a response has gone out in full; nothing if it does not. */
  function AfterResponse(sends: seq<int>, n: nat): Option<seq<int>>
  {
    if Takes(sends, 8) == 8 && Takes(SendsLeft(sends, 8), n) == n then Some(SendsLeft(SendsLeft(sends, 8), n)) else None
  }

  /** The same for the responses to all calls. */
  function AfterResponses(sends: seq<int>, calls: seq<Frame>, handler: seq<Frame> -> seq<byte>): Option<seq<int>>
  {
    if calls == [] then Some(sends)
    else
      var before := AfterResponses(sends, calls[..|calls| - 1], handler);
      if before.None? || handler(calls) == [] then before else AfterResponse(before.value, |handler(calls)|)
  }

  /** sendResponseToNode: the header, then the payload; both go out in full or the session is over. */
  method SendResponse(session: Session, payload: seq<byte>, dejavu: nat) returns (ok: bool)
    requires payload != []
    modifies session
    ensures session.inbox == old(session.inbox)
    ensures ok <==> old(session.active) && AfterResponse(old(session.sends), |payload|).Some?
    ensures ok <==> session.active
    ensures ok ==> session.sends == AfterResponse(old(session.sends), |payload|).value
    ensures ok ==> session.accepted == old(session.accepted) + (ResponseHeader(payload, dejavu) + payload)
    ensures old(session.accepted) <= session.accepted
    ensures !ok ==> session.accepted < old(session.accepted) + (ResponseHeader(payload, dejavu) + payload)
  {
    hide Takes, SendsLeft, ResponseHeader;
    var header := ResponseHeader(payload, dejavu);
    ghost var past := session.accepted;
    ok := session.SendData(header);
    if !ok {
      assert exists k :: 0 <= k < 8 && session.accepted == past + header[..k] by {
        var k := if old(session.active) then Takes(old(session.sends), 8) else 0;
        assert session.accepted == past + header[..k];
      }
      ShortOf(past, header, payload, session.accepted);
      return;
    }
    assert header[..8] == header;
    ok := session.SendData(payload);
    if !ok {
      ghost var k := Takes(SendsLeft(old(session.sends), 8), |payload|);
      assert session.accepted == past + header + payload[..k];
      ShortOf(past + header, payload, [], session.accepted);
    }
    Regroup(past, header, payload);
    assert payload[..|payload|] == payload && payload + [] == payload;
  }

  lemma ShortOf(past: seq<byte>, data: seq<byte>, more: seq<byte>, accepted: seq<byte>)
    requires exists k :: 0 <= k < |data| && accepted == past + data[..k]
    ensures accepted < past + (data + more) && past <= accepted
  {
  }

  /** Waits through timeouts for the first octets of a header. */
  method ReceiveHeader(session: Session) returns (n: int, data: seq<byte>)
    requires session.active
    modifies session
    ensures n != 0 && |data| <= 8 && (n == 8 <==> |data| == 8)
    ensures var at := SkipTimeouts(old(session.inbox));
            |data| == 8 <==> 8 <= |Stream(at)| && Quiet(at, 8)
    ensures |data| == 8 ==> session.active && Gathered(SkipTimeouts(old(session.inbox)), data, session.inbox)
    ensures session.accepted == old(session.accepted) && session.sends == old(session.sends)
  {
    hide SkipTimeouts, Quiet, Stream, Gathered;
    SkipTwice(session.inbox);
    ghost var at := SkipTimeouts(session.inbox);
    n, data := 0, [];
    while n == 0
      invariant n == 0 ==> session.active && data == [] && SkipTimeouts(session.inbox) == at
      invariant |data| <= 8 && (n == |data| || (n == -1 && data == []))
      invariant n != 0 ==> (|data| == 8 <==> 8 <= |Stream(at)| && Quiet(at, 8))
      invariant |data| == 8 ==> session.active && Gathered(at, data, session.inbox)
      invariant session.accepted == old(session.accepted) && session.sends == old(session.sends)
      decreases n == 0, |session.inbox|
    {
      SkipStep(session.inbox);
      n, data := session.ReceiveExact(8);
    }
  }

  lemma SkipStep(inbox: seq<Arrival>)
    ensures
      if inbox != [] && inbox[0].Timeout? then SkipTimeouts(inbox[1..]) == SkipTimeouts(inbox)
      else SkipTimeouts(inbox) == inbox
  {
  }

  lemma HeaderFirst(at: seq<Arrival>)
    requires FrameAhead(at)
    ensures 8 <= |Stream(at)| && Quiet(at, 8)
  {
    hide DecodeHeader;
    AdvanceTwice(at, 8, DecodeHeader(Stream(at)[..8]).size - 8);
  }

  /** With the header read, a whole frame was ahead exactly when the payload can be read too. */
  lemma PayloadSecond(at: seq<Arrival>, head: seq<byte>, mid: seq<Arrival>)
    requires |head| == 8 && Gathered(at, head, mid)
    ensures
      var size := DecodeHeader(head).size;
      FrameAhead(at) <==> SizeOk(size) && size - 8 <= |Stream(mid)| && Quiet(mid, size - 8)
  {
    hide DecodeHeader;
    assert Stream(at)[..8] == head;
    var size := DecodeHeader(head).size;
    if FrameAhead(at) {
      AdvanceTwice(at, 8, size - 8);
    } else if SizeOk(size) && size - 8 <= |Stream(mid)| && Quiet(mid, size - 8) {
      ReadOn(at, 8, size - 8);
    }
  }

  lemma FrameRead(at: seq<Arrival>, head: seq<byte>, payload: seq<byte>, rest: seq<Arrival>)
    requires |head| == 8 && |head + payload| == DecodeHeader(head).size && Gathered(at, head + payload, rest)
    requires FrameAhead(at)
    ensures Advance(at, DecodeHeader(Stream(at)[..8]).size) == rest && |Stream(rest)| < |Stream(at)|
    ensures FirstQuery(Stream(at)) == if DecodeHeader(head).kind == QUERY_TYPE then [Frame(DecodeHeader(head), payload)] else []
  {
    hide DecodeHeader;
    assert Stream(at)[..8] == head;
    assert Stream(at)[8..DecodeHeader(head).size] == payload;
  }

  lemma ServedStep(inbox: seq<Arrival>)
    ensures
      var at := SkipTimeouts(inbox);
      Served(inbox) == if !FrameAhead(at) then [] else FirstQuery(Stream(at)) + Served(Advance(at, DecodeHeader(Stream(at)[..8]).size))
  {
    hide DecodeHeader;
  }

  /** One turn of the receiving part: a frame, or the end of the session. */
  method NextFrame(session: Session) returns (done: bool, frame: Frame)
    requires session.active
    modifies session
    ensures done ==> Served(old(session.inbox)) == []
    ensures !done ==> session.active && |Stream(session.inbox)| < |old(Stream(session.inbox))|
    ensures !done ==> Served(old(session.inbox)) == (if frame.header.kind == QUERY_TYPE then [frame] else []) + Served(session.inbox)
    ensures session.accepted == old(session.accepted) && session.sends == old(session.sends)
  {
    hide DecodeHeader, SkipTimeouts, Quiet, Stream, Served, FrameAhead, Gathered, FirstQuery;
    ghost var at := SkipTimeouts(session.inbox);
    ServedStep(session.inbox);
    if FrameAhead(at) {
      HeaderFirst(at);
    }
    frame := Frame(Header(0, 0, 0), []);
    var received, head := ReceiveHeader(session);
    if received != 8 {
      return true, frame;
    }
    var header := DecodeHeader(head);
    ghost var mid := session.inbox;
    PayloadSecond(at, head, mid);
    if !SizeOk(header.size) {
      return true, frame;
    }
    var payload;
    done, payload := ReceivePayload(session, header.size - 8);
    if done {
      return true, frame;
    }
    GatherMore(at, head, mid, payload, session.inbox);
    FrameRead(at, head, payload, session.inbox);
    return false, Frame(header, payload);
  }

  method ReceivePayload(session: Session, size: nat) returns (short: bool, payload: seq<byte>)
    requires session.active
    modifies session
    ensures !short <==> size <= |Stream(old(session.inbox))| && Quiet(old(session.inbox), size)
    ensures !short ==> session.active && |payload| == size && Gathered(old(session.inbox), payload, session.inbox)
    ensures session.accepted == old(session.accepted) && session.sends == old(session.sends)
  {
    hide Stream;
    if size == 0 {
      GatherNone(session.inbox);
      return false, [];
    }
    var n;
    n, payload := session.ReceiveExact(size);
    short := n != size;
  }

  /**
    The handler is called for the served frames and for no other octets, in order, with
    their exact payloads, for all of them or up to the first whose response does not go out
    in full. The responses go out in order. What a call returns may depend on the frames of
    all earlier calls.
   */
  method HandleSession(session: Session, handler: seq<Frame> -> seq<byte>)
    returns (calls: seq<Frame>, ghost dejavus: seq<nat>)
    requires session.active
    modifies session
    ensures calls <= Served(old(session.inbox)) && |dejavus| == |calls|
    ensures forall n :: 0 <= n < |calls| ==> AfterResponses(old(session.sends), calls[..n], handler).Some?
    ensures
      var sent := old(session.accepted) + Responses(calls, handler, dejavus);
      if AfterResponses(old(session.sends), calls, handler).Some?
        then calls == Served(old(session.inbox)) && session.accepted == sent
        else old(session.accepted) + Responses(calls[..|calls| - 1], handler, dejavus[..|calls| - 1]) <= session.accepted < sent
  {
    hide Served, Stream, Responses, ResponseHeader, AfterResponses, AfterResponse;
    calls, dejavus := [], [];
    NoResponses(session.sends, handler);
    while session.active
      invariant |dejavus| == |calls| && calls <= Served(old(session.inbox))
      invariant forall n :: 0 <= n < |calls| ==> AfterResponses(old(session.sends), calls[..n], handler).Some?
      invariant session.active ==> Served(old(session.inbox)) == calls + Served(session.inbox)
      invariant session.active ==> session.accepted == old(session.accepted) + Responses(calls, handler, dejavus)
      invariant session.active ==> AfterResponses(old(session.sends), calls, handler) == Some(session.sends)
      invariant !session.active ==>
        && calls != [] && AfterResponses(old(session.sends), calls, handler).None?
        && old(session.accepted) + Responses(calls[..|calls| - 1], handler, dejavus[..|calls| - 1]) <= session.accepted
        && session.accepted < old(session.accepted) + Responses(calls, handler, dejavus)
      decreases |Stream(session.inbox)|, session.active
    {
      var done, frame := NextFrame(session);
      if done {
        break;
      }
      if frame.header.kind != QUERY_TYPE {
        continue;
      }
      var dejavu: nat :| dejavu < 0x1_0000_0000;
      var response := handler(calls + [frame]);
      ResponsesSnoc(old(session.sends), calls, handler, dejavus, frame, dejavu);
      if response != [] {
        var ok := SendResponse(session, response, dejavu);
        Regroup(old(session.accepted), Responses(calls, handler, dejavus), ResponseHeader(response, dejavu) + response);
      }
      PrefixesSnoc(calls, frame);
      calls, dejavus := calls + [frame], dejavus + [dejavu];
    }
  }

  lemma PrefixesSnoc(calls: seq<Frame>, frame: Frame)
    ensures forall n :: 0 <= n <= |calls| ==> (calls + [frame])[..n] == calls[..n]
    ensures calls[..|calls|] == calls
  {
  }

  lemma NoResponses(sends: seq<int>, handler: seq<Frame> -> seq<byte>)
    ensures Responses([], handler, []) == [] && AfterResponses(sends, [], handler) == Some(sends)
  {
  }

  lemma ResponsesSnoc(sends: seq<int>, calls: seq<Frame>, handler: seq<Frame> -> seq<byte>, dejavus: seq<nat>, frame: Frame, dejavu: nat)
    requires |calls| == |dejavus|
    ensures
      var (more, response) := (calls + [frame], handler(calls + [frame]));
      var before := AfterResponses(sends, calls, handler);
      && Responses(more, handler, dejavus + [dejavu])
         == Responses(calls, handler, dejavus) + (if response == [] then [] else ResponseHeader(response, dejavu) + response)
      && AfterResponses(sends, more, handler) == (if before.None? || response == [] then before else AfterResponse(before.value, |response|))
      && more[..|more| - 1] == calls && (dejavus + [dejavu])[..|more| - 1] == dejavus
  {
    hide AfterResponse, ResponseHeader;
    assert (calls + [frame])[..|calls|] == calls && (dejavus + [dejavu])[..|calls|] == dejavus;
  }
}
