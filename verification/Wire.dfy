/**
  The messages between a Qubic node, the oracle machine and an oracle service: header,
  query and reply records, all little-endian, and what a service makes of a packet
  (base_oracle_service.cpp).
 */
module Wire {
  import opened Arith
  import opened Words
  import opened Wrappers

  const QUERY_TYPE: nat := 190
  const REPLY_TYPE: nat := 191

  datatype Header = Header(size: nat, kind: nat, dejavu: nat)
  datatype Query = Query(id: nat, interfaceIndex: nat, timeout: nat)
  datatype Reply = Reply(id: nat, errorFlags: nat)

  predicate HeaderFits(h: Header)
  {
    h.size < 0x100_0000 && h.kind < 0x100 && h.dejavu < 0x1_0000_0000
  }

  predicate QueryFits(q: Query)
  {
    q.id < 0x1_0000_0000_0000_0000 && q.interfaceIndex < 0x1_0000_0000 && q.timeout < 0x1_0000_0000
  }

  predicate ReplyFits(r: Reply)
  {
    r.id < 0x1_0000_0000_0000_0000 && r.errorFlags < 0x1_0000
  }

  function EncodeHeader(h: Header): (p: seq<byte>)
    ensures |p| == 8
  {
    LeNat(h.size, 3) + LeNat(h.kind, 1) + LeNat(h.dejavu, 4)
  }

  function DecodeHeader(p: seq<byte>): Header
    requires |p| == 8
  {
    Header(LeNum(p[..3]), LeNum(p[3..4]), LeNum(p[4..]))
  }

  function EncodeQuery(q: Query): (p: seq<byte>)
    ensures |p| == 16
  {
    LeNat(q.id, 8) + LeNat(q.interfaceIndex, 4) + LeNat(q.timeout, 4)
  }

  function DecodeQuery(p: seq<byte>): Query
    requires |p| == 16
  {
    Query(LeNum(p[..8]), LeNum(p[8..12]), LeNum(p[12..]))
  }

  /** The six octets after the flags are padding. */
  function EncodeReply(r: Reply, padding: seq<byte>): (p: seq<byte>)
    requires |padding| == 6
    ensures |p| == 16
  {
    LeNat(r.id, 8) + LeNat(r.errorFlags, 2) + padding
  }

  function DecodeReply(p: seq<byte>): Reply
    requires |p| == 16
  {
    Reply(LeNum(p[..8]), LeNum(p[8..10]))
  }

  lemma PowersOf256()
    ensures Pow(256, 1) == 0x100 && Pow(256, 2) == 0x1_0000 && Pow(256, 3) == 0x100_0000
    ensures Pow(256, 4) == 0x1_0000_0000 && Pow(256, 8) == 0x1_0000_0000_0000_0000
  {
    assert Pow(256, 1) == 0x100 && Pow(256, 2) == 0x1_0000 && Pow(256, 3) == 0x100_0000;
    PowAdd(256, 2, 2);
    PowAdd(256, 4, 4);
  }

  lemma HeaderRoundTrip(h: Header)
    requires HeaderFits(h)
    ensures DecodeHeader(EncodeHeader(h)) == h
  {
    hide LeNat, LeNum, Pow;
    PowersOf256();
    LeNumOfNat(h.size, 3);
    LeNumOfNat(h.kind, 1);
    LeNumOfNat(h.dejavu, 4);
    var p := EncodeHeader(h);
    assert p[..3] == LeNat(h.size, 3) && p[3..4] == LeNat(h.kind, 1) && p[4..] == LeNat(h.dejavu, 4);
  }

  lemma QueryRoundTrip(q: Query)
    requires QueryFits(q)
    ensures DecodeQuery(EncodeQuery(q)) == q
  {
    hide LeNat, LeNum, Pow;
    PowersOf256();
    LeNumOfNat(q.id, 8);
    LeNumOfNat(q.interfaceIndex, 4);
    LeNumOfNat(q.timeout, 4);
    var p := EncodeQuery(q);
    assert p[..8] == LeNat(q.id, 8) && p[8..12] == LeNat(q.interfaceIndex, 4) && p[12..] == LeNat(q.timeout, 4);
  }

  lemma ReplyRoundTrip(r: Reply, padding: seq<byte>)
    requires ReplyFits(r) && |padding| == 6
    ensures DecodeReply(EncodeReply(r, padding)) == r
  {
    hide LeNat, LeNum, Pow;
    PowersOf256();
    LeNumOfNat(r.id, 8);
    LeNumOfNat(r.errorFlags, 2);
    var p := EncodeReply(r, padding);
    assert p[..8] == LeNat(r.id, 8) && p[8..10] == LeNat(r.errorFlags, 2);
  }

  /** What arrives always fits the fields it is decoded into. */
  lemma DecodedFits(h: seq<byte>, q: seq<byte>)
    requires |h| == 8 && |q| == 16
    ensures HeaderFits(DecodeHeader(h)) && QueryFits(DecodeQuery(q)) && ReplyFits(DecodeReply(q))
  {
    hide LeNum, Pow;
    PowersOf256();
    LeNumBound(h[..3]);
    LeNumBound(h[3..4]);
    LeNumBound(h[4..]);
    LeNumBound(q[..8]);
    LeNumBound(q[8..12]);
    LeNumBound(q[12..]);
    LeNumBound(q[8..10]);
  }

  // ------------------------------------------------------------------- the service

  datatype QueryPacket = QueryPacket(header: Header, query: Query, payload: seq<byte>)

  /** parseQueryPacket for a service whose interface query has querySize octets. */
  function ParseQueryPacket(data: seq<byte>, querySize: nat): (r: Option<QueryPacket>)
  {
    if |data| < 24 + querySize then None
    else
      var header := DecodeHeader(data[..8]);
      if header.kind != QUERY_TYPE then None
      else if |data| - 24 != querySize then None
      else Some(QueryPacket(header, DecodeQuery(data[8..24]), data[24..]))
  }

  /** The payload cut or zero-padded to the fixed size of the interface reply. */
  function Fit(payload: seq<byte>, n: nat): (p: seq<byte>)
    ensures |p| == n
    ensures |payload| == n ==> p == payload
  {
    if |payload| >= n then payload[..n] else payload + Zeros(n - |payload|)
  }

  /** buildReplyPacket; the padding of the reply record is whatever was on the stack. */
  function BuildReplyPacket(id: nat, errorFlags: nat, payload: seq<byte>, replySize: nat, padding: seq<byte>): (p: seq<byte>)
    requires |padding| == 6
    ensures |p| == 24 + replySize
  {
    EncodeHeader(Header(24 + replySize, REPLY_TYPE, 0))
    + EncodeReply(Reply(id, errorFlags), padding)
    + Fit(payload, replySize)
  }

  /** One turn of the service loop on a complete packet: no answer when it does not parse. */
  function Serve(f: seq<byte> -> (nat, seq<byte>), data: seq<byte>, querySize: nat, replySize: nat, padding: seq<byte>): (r: Option<seq<byte>>)
    requires |padding| == 6
  {
    match ParseQueryPacket(data, querySize)
    case None => None
    case Some(packet) =>
      var (flags, payload) := f(packet.payload);
      Some(BuildReplyPacket(packet.query.id, flags, payload, replySize, padding))
  }
}
