/**
  One session of interface_client.cpp as a sequence of exchanges: which replies are taken,
  what a session is left with, and which frame of the stream each exchange reads.
 */
module Exchanges {
  import opened Words
  import opened Wire
  import opened Wrappers
  import opened Sessions
  import opened Arith
  import opened Seqs

  predicate HeaderReady(inbox: seq<Arrival>)
  {
    8 <= |Stream(inbox)| && Quiet(inbox, 8)
  }

  function ReplySize(inbox: seq<Arrival>): nat
    requires HeaderReady(inbox)
  {
    DecodeHeader(Stream(inbox)[..8]).size
  }

  /** A reply of its advertised size arrives, in whatever pieces, with no timeout inside it. */
  predicate ReplyComplete(inbox: seq<Arrival>)
  {
    HeaderReady(inbox) && 8 <= ReplySize(inbox) <= |Stream(inbox)| && Quiet(inbox, ReplySize(inbox))
  }

  /** The replies the client takes: complete, with a payload that one recv delivers. */
  predicate ReplyTaken(inbox: seq<Arrival>)
  {
    HeaderReady(inbox) && 8 < ReplySize(inbox) && AtOnce(Advance(inbox, 8), ReplySize(inbox) - 8)
  }

  /** The octets handed to the caller: the header is not copied, its place stays zero. */
  function ReplyData(inbox: seq<Arrival>): seq<byte>
    requires ReplyComplete(inbox)
  {
    Zeros(8) + Stream(inbox)[8..ReplySize(inbox)]
  }

  lemma QuietAtOnce(inbox: seq<Arrival>, n: nat)
    requires AtOnce(inbox, n)
    ensures Quiet(inbox, n) && n <= |Stream(inbox)| && Stream(inbox)[..n] == inbox[0].octets[..n]
  {
  }

  /** The replies taken are the complete ones that are not empty and whose payload comes in one delivery. */
  lemma TakenExactly(inbox: seq<Arrival>)
    ensures ReplyTaken(inbox) <==>
      ReplyComplete(inbox) && 8 < ReplySize(inbox) && AtOnce(Advance(inbox, 8), ReplySize(inbox) - 8)
    ensures ReplyTaken(inbox) ==>
      Advance(Advance(inbox, 8), ReplySize(inbox) - 8) == Advance(inbox, ReplySize(inbox))
  {
    hide DecodeHeader;
    if ReplyTaken(inbox) {
      QuietAtOnce(Advance(inbox, 8), ReplySize(inbox) - 8);
      ReadOn(inbox, 8, ReplySize(inbox) - 8);
    }
  }

  /** The reply of two octets that the client refuses because the second comes on its own. */
  lemma PiecesRefused()
    ensures
      var inbox := [Chunk(EncodeHeader(Header(10, REPLY_TYPE, 0))), Chunk([1]), Chunk([2])];
      ReplyComplete(inbox) && !ReplyTaken(inbox)
  {
    hide EncodeHeader, DecodeHeader;
    var h := Header(10, REPLY_TYPE, 0);
    HeaderRoundTrip(h);
    var head, tail := EncodeHeader(h), [Chunk([1]), Chunk([2])];
    var inbox := [Chunk(head)] + tail;
    assert Stream(tail[1..]) == [2];
    assert Stream(tail) == [1, 2];
    assert inbox[1..] == tail;
    assert Stream(inbox) == head + [1, 2];
    assert Stream(inbox)[..8] == head;
    assert ReplySize(inbox) == 10;
    assert Quiet(tail, 2);
    assert Advance(inbox, 8) == tail;
  }

  lemma HeaderRead(inbox: seq<Arrival>, head: seq<byte>, mid: seq<Arrival>)
    requires |head| == 8 && Gathered(inbox, head, mid)
    ensures HeaderReady(inbox) && ReplySize(inbox) == DecodeHeader(head).size && mid == Advance(inbox, 8)
  {
    hide DecodeHeader;
    assert Stream(inbox)[..8] == head;
  }

  lemma PayloadTaken(inbox: seq<Arrival>, head: seq<byte>, payload: seq<byte>, rest: seq<Arrival>)
    requires ReplyComplete(inbox) && |head| == 8 && |head + payload| == ReplySize(inbox)
    requires Gathered(inbox, head + payload, rest)
    ensures Stream(inbox)[8..ReplySize(inbox)] == payload && rest == Advance(inbox, ReplySize(inbox))
  {
    hide DecodeHeader;
  }

  // --------------------------------------------------------------- exchange after exchange

  /** A timeout comes before the header is complete. */
  predicate Interrupted(inbox: seq<Arrival>)
  {
    !Quiet(inbox, 8)
  }

  /** What the session goes on with after an exchange; nothing if it is closed. */
  function Left(inbox: seq<Arrival>): Option<seq<Arrival>>
  {
    if ReplyTaken(inbox) then Some(Advance(inbox, ReplySize(inbox)))
    else if Interrupted(inbox) then Some(Later(inbox))
    else None
  }

  /** The script in front of exchange k of a session. */
  function Nth(origin: seq<Arrival>, k: nat): Option<seq<Arrival>>
    decreases k
  {
    if k == 0 then Some(origin)
    else if Nth(origin, k - 1).None? then None
    else Left(Nth(origin, k - 1).value)
  }

  /** How many of the first k exchanges were interrupted. */
  function Lag(origin: seq<Arrival>, k: nat): (n: nat)
    ensures n <= k
    decreases k
  {
    if k == 0 then 0
    else Lag(origin, k - 1) + if Nth(origin, k - 1).Some? && Interrupted(Nth(origin, k - 1).value) then 1 else 0
  }

  /** None of the first k exchanges was interrupted with a part of a header read. */
  predicate BetweenFrames(origin: seq<Arrival>, k: nat)
    decreases k
  {
    k == 0 || (BetweenFrames(origin, k - 1)
               && (Nth(origin, k - 1).Some? && Interrupted(Nth(origin, k - 1).value) ==> Prompt(Nth(origin, k - 1).value) == []))
  }

  function FrameSize(s: seq<byte>): nat
    requires |s| >= 8
  {
    DecodeHeader(s[..8]).size
  }

  /** The stream starts with n complete frames. */
  predicate Frames(s: seq<byte>, n: nat)
    decreases n
  {
    n == 0 || (|s| >= 8 && 8 <= FrameSize(s) <= |s| && Frames(s[FrameSize(s)..], n - 1))
  }

  /** The stream behind its first n frames. */
  function Behind(s: seq<byte>, n: nat): (r: seq<byte>)
    requires Frames(s, n)
    ensures |r| + 8 * n <= |s|
    decreases n
  {
    if n == 0 then s else Behind(s[FrameSize(s)..], n - 1)
  }

  function FramePayload(s: seq<byte>, n: nat): seq<byte>
    requires Frames(s, n) && Frames(Behind(s, n), 1)
  {
    Behind(s, n)[8..FrameSize(Behind(s, n))]
  }

  lemma {:induction false} OneMoreFrame(s: seq<byte>, n: nat)
    requires Frames(s, n) && Frames(Behind(s, n), 1)
    ensures Frames(s, n + 1) && Behind(s, n + 1) == Behind(s, n)[FrameSize(Behind(s, n))..]
    decreases n
  {
    hide DecodeHeader, FrameSize;
    if n != 0 {
      OneMoreFrame(s[FrameSize(s)..], n - 1);
    } else {
      assert Frames(s[FrameSize(s)..], 0);
    }
  }

  /** Different numbers of frames end at different places. */
  lemma {:induction false} BehindInjective(s: seq<byte>, m: nat, n: nat)
    requires Frames(s, m) && Frames(s, n) && Behind(s, m) == Behind(s, n)
    ensures m == n
    decreases m
  {
    hide DecodeHeader, FrameSize;
    if m != 0 && n != 0 {
      BehindInjective(s[FrameSize(s)..], m - 1, n - 1);
    }
  }

  lemma {:induction false} InterruptedSplit(inbox: seq<Arrival>, n: nat)
    requires !Quiet(inbox, n)
    ensures |Prompt(inbox)| < n && Stream(inbox) == Prompt(inbox) + Stream(Later(inbox))
  {
    if !inbox[0].Timeout? {
      InterruptedSplit(inbox[1..], n - |inbox[0].octets|);
      Regroup(inbox[0].octets, Prompt(inbox[1..]), Stream(Later(inbox)));
    }
  }

  lemma TakenAdvances(inbox: seq<Arrival>)
    requires ReplyTaken(inbox)
    ensures ReplyComplete(inbox) && Frames(Stream(inbox), 1) && FrameSize(Stream(inbox)) == ReplySize(inbox)
    ensures Stream(Advance(inbox, ReplySize(inbox))) == Stream(inbox)[ReplySize(inbox)..]
  {
    hide DecodeHeader;
    TakenExactly(inbox);
    assert Frames(Stream(inbox)[ReplySize(inbox)..], 0);
  }

  /** As long as no header is broken off inside, exchange k starts at a frame: number k less one for each interruption. */
  lemma {:induction false} InStep(origin: seq<Arrival>, k: nat)
    requires Nth(origin, k).Some? && BetweenFrames(origin, k)
    ensures Frames(Stream(origin), k - Lag(origin, k))
    ensures Stream(Nth(origin, k).value) == Behind(Stream(origin), k - Lag(origin, k))
    decreases k
  {
    hide Quiet, Stream, ReplyTaken, Advance, Frames, Behind, Later, Prompt, FrameSize;
    if k == 0 {
      NoFrames(Stream(origin));
    } else {
      InStep(origin, k - 1);
      var before := Nth(origin, k - 1).value;
      if ReplyTaken(before) {
        TakenNotInterrupted(before);
        TakenAdvances(before);
        OneMoreFrame(Stream(origin), k - 1 - Lag(origin, k - 1));
      } else {
        InterruptedSplit(before, 8);
        assert [] + Stream(Later(before)) == Stream(Later(before));
      }
    }
  }

  lemma NoFrames(s: seq<byte>)
    ensures Frames(s, 0) && Behind(s, 0) == s
  {
  }

  lemma TakenNotInterrupted(inbox: seq<Arrival>)
    requires ReplyTaken(inbox)
    ensures !Interrupted(inbox)
  {
  }

  /**
    A reply taken by exchange k is then frame number k less the interruptions, so it is the
    reply to its own request exactly when no earlier header was interrupted.
   */
  lemma WhoseReply(origin: seq<Arrival>, k: nat)
    requires Nth(origin, k).Some? && BetweenFrames(origin, k) && ReplyTaken(Nth(origin, k).value)
    ensures
      var (s, n, inbox) := (Stream(origin), k - Lag(origin, k), Nth(origin, k).value);
      && Frames(s, n) && Frames(Behind(s, n), 1) && ReplyComplete(inbox) && ReplyData(inbox) == Zeros(8) + FramePayload(s, n)
      && (Frames(s, k) && Behind(s, k) == Stream(inbox) <==> Lag(origin, k) == 0)
  {
    hide Nth, Lag, Frames, Behind, ReplyTaken, FrameSize, Stream, BetweenFrames;
    InStep(origin, k);
    TakenAdvances(Nth(origin, k).value);
    var s := Stream(origin);
    if Frames(s, k) && Behind(s, k) == Stream(Nth(origin, k).value) {
      BehindInjective(s, k, k - Lag(origin, k));
    }
  }

  /** An interruption leaves the session at a frame exactly when nothing of the header had been read. */
  lemma StillInStep(inbox: seq<Arrival>)
    requires Interrupted(inbox) && Frames(Stream(inbox), 1)
    ensures (exists n :: Frames(Stream(inbox), n) && Behind(Stream(inbox), n) == Stream(Later(inbox))) <==> Prompt(inbox) == []
  {
    hide Stream, Later, Prompt, FrameSize, Quiet;
    InterruptedSplit(inbox, 8);
    NoFrames(Stream(inbox));
    if Prompt(inbox) == [] {
      assert [] + Stream(Later(inbox)) == Stream(Later(inbox));
      assert Frames(Stream(inbox), 0) && Behind(Stream(inbox), 0) == Stream(Later(inbox));
    } else {
      forall n: nat | Frames(Stream(inbox), n)
        ensures Behind(Stream(inbox), n) != Stream(Later(inbox))
      {
        assert n == 0 || |Behind(Stream(inbox), n)| + 8 <= |Stream(inbox)|;
      }
    }
  }

  /** A reply that a timeout holds up is not taken by its own request and is taken by the next. */
  lemma LateReply(inbox: seq<Arrival>)
    requires ReplyTaken(inbox)
    ensures
      var late := [Timeout] + inbox;
      && !ReplyTaken(late) && Left(late) == Some(inbox) == Nth(late, 1)
      && Lag(late, 1) == 1 && BetweenFrames(late, 1)
      && Stream(inbox) == Behind(Stream(late), 0)
  {
    var late := [Timeout] + inbox;
    assert late[1..] == inbox;
    assert !Quiet(late, 8) && Later(late) == inbox && Prompt(late) == [];
    assert Nth(late, 0) == Some(late);
  }

  /** A reply of six payload octets whose dejavu field looks like the header of a shorter one. */
  function OddFrame(payload: seq<byte>): (f: seq<byte>)
    requires |payload| == 6
    ensures |f| == 14
  {
    EncodeHeader(Header(14, REPLY_TYPE, 10)) + payload
  }

  lemma OddHeaders(payload: seq<byte>)
    requires |payload| == 6
    ensures FrameSize(OddFrame(payload)) == 14 && FrameSize(OddFrame(payload)[4..]) == 10
  {
    hide LeNum, LeNat, Pow;
    var h, f := Header(14, REPLY_TYPE, 10), OddFrame(payload);
    HeaderRoundTrip(h);
    assert f[..8] == EncodeHeader(h);
    PowersOf256();
    LeNumOfNat(10, 3);
    LowOctets(10, 3, 4);
    assert f[4..][..8][..3] == LeNat(10, 4)[..3];
  }

  lemma {:induction false} LowOctets(n: nat, j: nat, k: nat)
    requires j <= k
    ensures LeNat(n, k)[..j] == LeNat(n, j)
    decreases k
  {
    if j != 0 {
      LowOctets(n / 256, j - 1, k - 1);
      assert LeNat(n, k)[..j] == [Octet(n % 256)] + LeNat(n / 256, k - 1)[..j - 1];
    }
  }

  /**
    Broken off after four octets, that frame is read by the next exchange as a reply that
    nobody sent; the exchange after it is in step again.
   */
  lemma BrokenOff(payload: seq<byte>, rest: seq<Arrival>)
    requires |payload| == 6
    ensures
      var frame := OddFrame(payload);
      var inbox := [Chunk(frame[..4]), Timeout, Chunk(frame[4..])] + rest;
      && Interrupted(inbox) && Nth(inbox, 1).Some? && ReplyTaken(Nth(inbox, 1).value)
      && ReplyComplete(Nth(inbox, 1).value) && ReplyData(Nth(inbox, 1).value) == Zeros(8) + payload[4..]
      && Frames(Stream(inbox), 1) && FramePayload(Stream(inbox), 0) == payload
      && Nth(inbox, 2) == Some(rest) && Stream(rest) == Behind(Stream(inbox), 1)
  {
    hide EncodeHeader, DecodeHeader, OddFrame, ReplyTaken, ReplyComplete, ReplyData, Left, Stream, Frames, Behind, FramePayload, Quiet;
    var frame := OddFrame(payload);
    var inbox := [Chunk(frame[..4]), Timeout, Chunk(frame[4..])] + rest;
    var next := [Chunk(frame[4..])] + rest;
    OddScript(frame, rest);
    OddReply(payload, rest);
    assert Nth(inbox, 0) == Some(inbox) && Nth(inbox, 1) == Some(next);
    OddStream(payload, Stream(rest));
  }

  /** The script of a frame cut after four octets by a timeout. */
  lemma OddScript(frame: seq<byte>, rest: seq<Arrival>)
    requires |frame| == 14
    ensures
      var inbox := [Chunk(frame[..4]), Timeout, Chunk(frame[4..])] + rest;
      Interrupted(inbox) && Left(inbox) == Some([Chunk(frame[4..])] + rest) && Stream(inbox) == frame + Stream(rest)
  {
    hide DecodeHeader;
    var inbox := [Chunk(frame[..4]), Timeout, Chunk(frame[4..])] + rest;
    var next := [Chunk(frame[4..])] + rest;
    assert inbox[1..] == [Timeout] + next && inbox[1..][1..] == next && next[1..] == rest;
    assert !Quiet(inbox, 8) && Later(inbox) == next;
    assert Stream(next) == frame[4..] + Stream(rest);
    assert Stream(inbox) == frame[..4] + Stream(inbox[1..]) == frame[..4] + Stream(next);
    Regroup(frame[..4], frame[4..], Stream(rest));
    assert frame[..4] + frame[4..] == frame;
  }

  lemma OddStream(payload: seq<byte>, rest: seq<byte>)
    requires |payload| == 6
    ensures
      var s := OddFrame(payload) + rest;
      Frames(s, 1) && FramePayload(s, 0) == payload && Behind(s, 1) == rest
  {
    hide EncodeHeader, DecodeHeader;
    var frame := OddFrame(payload);
    var s := frame + rest;
    OddHeaders(payload);
    FrontBack(frame, rest);
    assert s[..8] == frame[..8];
    assert FrameSize(s) == 14 && s[14..] == rest && s[8..14] == payload;
    NoFrames(rest);
    NoFrames(s);
  }

  lemma OddReply(payload: seq<byte>, rest: seq<Arrival>)
    requires |payload| == 6
    ensures
      var next := [Chunk(OddFrame(payload)[4..])] + rest;
      ReplyTaken(next) && ReplyComplete(next) && ReplyData(next) == Zeros(8) + payload[4..] && Left(next) == Some(rest)
  {
    hide DecodeHeader, EncodeHeader;
    var frame := OddFrame(payload);
    var next := [Chunk(frame[4..])] + rest;
    OddHeaders(payload);
    assert next[1..] == rest && Stream(next) == frame[4..] + Stream(rest);
    assert Stream(next)[..8] == frame[4..][..8];
    assert Advance(next, 8) == [Chunk(frame[4..][8..])] + rest;
    TakenExactly(next);
    assert Stream(next)[8..10] == payload[4..];
  }
}
