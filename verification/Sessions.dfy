/**
  The TCP session of session.cpp over a scripted socket: what successive recv calls will
  deliver and how many octets successive send calls will accept are fixed in advance and
  otherwise arbitrary.
 */
module Sessions {
  import opened Words

  /** One recv outcome; a delivery of nothing is the peer closing. */
  datatype Arrival = Chunk(octets: seq<byte>) | Timeout | Failure

  /** Everything the peer will ever send: the deliveries up to the end of the connection. */
  function Stream(inbox: seq<Arrival>): seq<byte>
  {
    if inbox == [] || inbox[0].Failure? then []
    else if inbox[0].Timeout? then Stream(inbox[1..])
    else if inbox[0].octets == [] then []
    else inbox[0].octets + Stream(inbox[1..])
  }

  /** n octets arrive with no timeout before the last of them, or the connection ends first. */
  predicate Quiet(inbox: seq<Arrival>, n: nat)
  {
    if n == 0 || inbox == [] || inbox[0].Failure? then true
    else if inbox[0].Timeout? then false
    else if inbox[0].octets == [] || |inbox[0].octets| >= n then true
    else Quiet(inbox[1..], n - |inbox[0].octets|)
  }

  /** n octets come in one delivery. */
  predicate AtOnce(inbox: seq<Arrival>, n: nat)
  {
    inbox != [] && inbox[0].Chunk? && n <= |inbox[0].octets|
  }

  /** The script after n octets have been read. */
  function Advance(inbox: seq<Arrival>, n: nat): (rest: seq<Arrival>)
    ensures Quiet(inbox, n) && n <= |Stream(inbox)| ==> Stream(rest) == Stream(inbox)[n..]
  {
    if n == 0 || inbox == [] || !inbox[0].Chunk? || inbox[0].octets == [] then inbox
    else if |inbox[0].octets| <= n then Advance(inbox[1..], n - |inbox[0].octets|)
    else [Chunk(inbox[0].octets[n..])] + inbox[1..]
  }

  lemma {:induction false} AdvanceTwice(inbox: seq<Arrival>, m: nat, n: nat)
    requires Quiet(inbox, m + n) && m + n <= |Stream(inbox)|
    ensures Advance(Advance(inbox, m), n) == Advance(inbox, m + n)
    ensures Quiet(inbox, m) && Quiet(Advance(inbox, m), n)
  {
    if m != 0 && n != 0 {
      if |inbox[0].octets| <= m {
        AdvanceTwice(inbox[1..], m - |inbox[0].octets|, n);
      }
    }
  }

  lemma {:induction false} QuietExtends(inbox: seq<Arrival>, m: nat, n: nat)
    requires m + n <= |Stream(inbox)| && Quiet(inbox, m) && Quiet(Advance(inbox, m), n)
    ensures Quiet(inbox, m + n)
  {
    if m != 0 && |inbox[0].octets| <= m {
      QuietExtends(inbox[1..], m - |inbox[0].octets|, n);
    }
  }


  /** k octets have been read without a timeout, and n more can be. */
  lemma ReadOn(inbox: seq<Arrival>, k: nat, n: nat)
    requires Quiet(inbox, k) && k <= |Stream(inbox)|
    requires Quiet(Advance(inbox, k), n) && n <= |Stream(Advance(inbox, k))|
    ensures Quiet(inbox, k + n) && k + n <= |Stream(inbox)|
    ensures Advance(Advance(inbox, k), n) == Advance(inbox, k + n)
  {
    QuietExtends(inbox, k, n);
    AdvanceTwice(inbox, k, n);
  }

  /** The data is what the script had in front, read without a timeout, and inbox is what follows. */
  predicate Gathered(start: seq<Arrival>, data: seq<byte>, inbox: seq<Arrival>)
  {
    && Quiet(start, |data|) && inbox == Advance(start, |data|)
    && Stream(start) == data + Stream(inbox)
  }

  lemma GatherNone(inbox: seq<Arrival>)
    ensures Gathered(inbox, [], inbox)
  {
  }

  lemma GatheredAll(start: seq<Arrival>, data: seq<byte>, inbox: seq<Arrival>)
    ensures Gathered(start, data, inbox) ==> data <= Stream(start) == data + Stream(inbox) && Quiet(start, |data|)
  {
  }

  lemma GatherMore(start: seq<Arrival>, data: seq<byte>, inbox: seq<Arrival>, more: seq<byte>, rest: seq<Arrival>)
    requires Gathered(start, data, inbox) && Gathered(inbox, more, rest)
    ensures Gathered(start, data + more, rest)
  {
    hide Quiet, Advance, Stream;
    ReadOn(start, |data|, |more|);
    assert data + (more + Stream(rest)) == data + more + Stream(rest);
  }

  /** Reading can only stop short of sz at a timeout or at the end of the stream. */
  lemma StoppedShort(start: seq<Arrival>, data: seq<byte>, inbox: seq<Arrival>, sz: nat)
    requires Gathered(start, data, inbox) && |data| < sz
    requires Stream(inbox) == [] || (inbox != [] && inbox[0].Timeout?)
    ensures !(sz <= |Stream(start)| && Quiet(start, sz))
  {
    if sz <= |Stream(start)| && Quiet(start, sz) {
      AdvanceTwice(start, |data|, sz - |data|);
    }
  }

  /** What arrives before the first timeout or the end. */
  function Prompt(inbox: seq<Arrival>): seq<byte>
  {
    if inbox == [] || !inbox[0].Chunk? || inbox[0].octets == [] then []
    else inbox[0].octets + Prompt(inbox[1..])
  }

  /** The script behind the first timeout. */
  function Later(inbox: seq<Arrival>): seq<Arrival>
  {
    if inbox == [] || inbox[0].Failure? || (inbox[0].Chunk? && inbox[0].octets == []) then []
    else if inbox[0].Timeout? then inbox[1..]
    else Later(inbox[1..])
  }

  /** A read that meets a timeout has taken what came before it, and the script goes on behind it. */
  lemma {:induction false} StoppedByTimeout(start: seq<Arrival>, data: seq<byte>, inbox: seq<Arrival>, sz: nat)
    requires Gathered(start, data, inbox) && |data| < sz && inbox != [] && inbox[0].Timeout?
    ensures !Quiet(start, sz) && Prompt(start) == data && Later(start) == inbox[1..]
  {
    if data != [] {
      var n := |start[0].octets|;
      if n <= |data| {
        assert Stream(start)[..n] == start[0].octets == data[..n];
        assert Gathered(start[1..], data[n..], inbox) by {
          assert Stream(start[1..]) == Stream(start)[n..] == data[n..] + Stream(inbox);
        }
        StoppedByTimeout(start[1..], data[n..], inbox, sz - n);
        assert data == data[..n] + data[n..];
      }
    }
  }

  /** A read that meets the end has met no timeout. */
  lemma {:induction false} StoppedByEnd(start: seq<Arrival>, data: seq<byte>, inbox: seq<Arrival>, sz: nat)
    requires Gathered(start, data, inbox) && |data| < sz && Stream(inbox) == [] && !(inbox != [] && inbox[0].Timeout?)
    ensures Quiet(start, sz)
  {
    if data != [] {
      var n := |start[0].octets|;
      if n <= |data| {
        assert Gathered(start[1..], data[n..], inbox) by {
          assert Stream(start[1..]) == Stream(start)[n..] == data[n..] + Stream(inbox);
        }
        StoppedByEnd(start[1..], data[n..], inbox, sz - n);
      }
    }
  }

  /** How many of n octets the socket takes before a send fails; a spent script is a broken connection. */
  function Takes(sends: seq<int>, n: nat): (k: nat)
    ensures k <= n
  {
    if n == 0 || sends == [] || sends[0] <= 0 then 0
    else if n <= sends[0] then n
    else sends[0] + Takes(sends[1..], n - sends[0])
  }

  /** The send outcomes left when n octets have been offered. */
  function SendsLeft(sends: seq<int>, n: nat): seq<int>
  {
    if n == 0 || sends == [] then sends
    else if sends[0] <= 0 || n <= sends[0] then sends[1..]
    else SendsLeft(sends[1..], n - sends[0])
  }

  class Session {
    var active: bool
    var bytesSent: nat
    var bytesReceived: nat
    /** The socket: recv outcomes, send outcomes, and the octets accepted so far. */
    var inbox: seq<Arrival>
    var sends: seq<int>
    var accepted: seq<byte>

    constructor (inbox: seq<Arrival>, sends: seq<int>)
      ensures active && this.inbox == inbox && this.sends == sends && accepted == []
    {
      active := true;
      bytesSent, bytesReceived := 0, 0;
      this.inbox, this.sends, accepted := inbox, sends, [];
    }

    method Close()
      modifies this
      ensures !active
      ensures accepted == old(accepted)
    {
      active := false;
    }

    /** The kernel takes at most what is offered. */
    method Send(data: seq<byte>) returns (sent: int)
      modifies `sends, `accepted
      ensures sent == if old(sends) == [] then -1 else if old(sends)[0] > |data| then |data| else old(sends)[0]
      ensures sends == if old(sends) == [] then [] else old(sends)[1..]
      ensures accepted == old(accepted) + if sent > 0 then data[..sent] else []
    {
      if sends == [] {
        return -1;
      }
      sent := if sends[0] > |data| then |data| else sends[0];
      sends := sends[1..];
      accepted := accepted + if sent > 0 then data[..sent] else [];
    }

    /** True exactly when the whole of a non-empty buffer was accepted; what was accepted is a prefix. */
    method SendData(data: seq<byte>) returns (ok: bool)
      modifies this
      ensures inbox == old(inbox)
      ensures ok <==> old(active) && data != [] && Takes(old(sends), |data|) == |data|
      ensures accepted == old(accepted) + if old(active) then data[..Takes(old(sends), |data|)] else []
      ensures active <==> old(active) && (ok || data == [])
      ensures sends == if old(active) then SendsLeft(old(sends), |data|) else old(sends)
      ensures bytesSent - old(bytesSent) == |accepted| - |old(accepted)|
    {
      if !active || |data| == 0 {
        return false;
      }
      var total := 0;
      while total < |data|
        invariant 0 <= total <= |data| && active && inbox == old(inbox)
        invariant accepted == old(accepted) + data[..total]
        invariant Takes(old(sends), |data|) == total + Takes(sends, |data| - total)
        invariant SendsLeft(old(sends), |data|) == SendsLeft(sends, |data| - total)
        invariant bytesSent == old(bytesSent) + total
      {
        var sent := Send(data[total..]);
        if sent <= 0 {
          active := false;
          return false;
        }
        assert data[..total] + data[total..][..sent] == data[..total + sent];
        total := total + sent;
        bytesSent := bytesSent + sent;
      }
      return true;
    }

    /** A single recv: octets, 0 after a timeout, -1 once the connection has ended. */
    method Receive(sz: nat) returns (n: int, data: seq<byte>)
      modifies this
      ensures n > 0 ==> n == |data| <= sz && active && old(active)
      ensures n > 0 ==> Gathered(old(inbox), data, inbox)
      ensures n <= 0 ==> data == []
      ensures sz > 0 ==> (n == sz <==> old(active) && AtOnce(old(inbox), sz))
      ensures sz > 0 ==> (n == 0 <==> old(active) && old(inbox) != [] && old(inbox)[0].Timeout?)
      ensures n == 0 ==> sz > 0 && active && inbox == old(inbox)[1..] && Stream(inbox) == Stream(old(inbox))
      ensures n < 0 ==> n == -1 && !active
      ensures n < 0 && old(active) && sz > 0 ==> Stream(old(inbox)) == [] && !(old(inbox) != [] && old(inbox)[0].Timeout?)
      ensures accepted == old(accepted) && sends == old(sends)
      ensures |inbox| <= |old(inbox)|
    {
      if !active {
        return -1, [];
      }
      if inbox == [] || sz == 0 {
        active := false;
        return -1, [];
      }
      match inbox[0]
      case Timeout =>
        inbox := inbox[1..];
        return 0, [];
      case Failure =>
        inbox := inbox[1..];
        active := false;
        return -1, [];
      case Chunk(octets) =>
        if octets == [] {
          inbox := inbox[1..];
          active := false;
          return -1, [];
        }
        if |octets| <= sz {
          inbox := inbox[1..];
          data := octets;
        } else {
          inbox := [Chunk(octets[sz..])] + inbox[1..];
          data := octets[..sz];
        }
        bytesReceived := bytesReceived + |data|;
        return |data|, data;
    }

    /** Reads until sz octets, a timeout or the end; -1 only when the end came first. */
    method ReceiveExact(sz: nat) returns (n: int, data: seq<byte>)
      modifies this
      ensures n == |data| <= sz || (n == -1 && data == [] && !active)
      ensures old(active) ==> data <= Stream(old(inbox)) && (active ==> Stream(old(inbox)) == data + Stream(inbox))
      ensures sz > 0 ==> (n == 0 <==> old(active) && old(inbox) != [] && old(inbox)[0].Timeout?)
      ensures n == 0 < sz ==> active && inbox == old(inbox)[1..]
      ensures old(active) ==> (|data| == sz <==> sz <= |Stream(old(inbox))| && Quiet(old(inbox), sz))
      ensures old(active) && |data| == sz ==> active && Gathered(old(inbox), data, inbox)
      ensures old(active) ==> (active <==> |data| == sz || !Quiet(old(inbox), sz))
      ensures active && |data| < sz ==> data == Prompt(old(inbox)) && inbox == Later(old(inbox))
      ensures accepted == old(accepted) && sends == old(sends)
    {
      hide Quiet, Stream, AtOnce, Takes, Gathered, Prompt, Later;
      data := [];
      GatherNone(inbox);
      while |data| < sz
        invariant |data| <= sz && active == old(active)
        invariant active ==> Gathered(old(inbox), data, inbox)
        invariant data == [] ==> inbox == old(inbox)
        invariant data != [] ==> active && !(old(inbox) != [] && old(inbox)[0].Timeout?)
        invariant accepted == old(accepted) && sends == old(sends)
        decreases sz - |data|
      {
        ghost var before := inbox;
        GatheredAll(old(inbox), data, before);
        var received, more := Receive(sz - |data|);
        if received > 0 {
          GatherMore(old(inbox), data, before, more, inbox);
          data := data + more;
        } else if received == 0 {
          StoppedShort(old(inbox), data, before, sz);
          StoppedByTimeout(old(inbox), data, before, sz);
          return |data|, data;
        } else {
          if old(active) {
            StoppedShort(old(inbox), data, before, sz);
            StoppedByEnd(old(inbox), data, before, sz);
          }
          return if |data| > 0 then |data| else -1, data;
        }
      }
      GatheredAll(old(inbox), data, inbox);
      return |data|, data;
    }
  }
}
