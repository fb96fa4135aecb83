/**
  The single-chunk KangarooTwelve of read_qubic_log_service.py against section 2 and
  section 3 of RFC 9861, over an arbitrary permutation of the 25 lanes.
 */
module K12 {
  import opened Words

  const RATE: nat := 168
  const CHUNK: nat := 8192

  type lane = bv64

  /** The 25 lanes in the order in which octet strings fill them. */
  type State = s: seq<lane> | |s| == 25 witness seq(25, i => 0)

  // --- the standard ---

  function Le64Dec(p: seq<byte>): lane
    requires |p| == 8
  {
    (p[0] as lane) | ((p[1] as lane) << 8) | ((p[2] as lane) << 16) | ((p[3] as lane) << 24)
    | ((p[4] as lane) << 32) | ((p[5] as lane) << 40) | ((p[6] as lane) << 48) | ((p[7] as lane) << 56)
  }

  function Le64Enc(x: lane): (p: seq<byte>)
    ensures |p| == 8 && Le64Dec(p) == x
  {
    [(x & 0xff) as byte, ((x >> 8) & 0xff) as byte, ((x >> 16) & 0xff) as byte, ((x >> 24) & 0xff) as byte,
     ((x >> 32) & 0xff) as byte, ((x >> 40) & 0xff) as byte, ((x >> 48) & 0xff) as byte, ((x >> 56) & 0xff) as byte]
  }

  function XorLane(x: lane, y: lane): lane { x ^ y }

  /** The block goes into the outer part of the state; the capacity is left alone. */
  function XorBlock(s: State, block: seq<byte>): State
    requires |block| == RATE
  {
    seq(25, i requires 0 <= i < 25 => if i < 21 then XorLane(s[i], Le64Dec(block[8 * i..8 * i + 8])) else s[i])
  }

  function Absorbed(kp: State -> State, p: seq<byte>, n: nat): State
    requires RATE * n <= |p|
  {
    if n == 0 then seq(25, i => 0) else kp(XorBlock(Absorbed(kp, p, n - 1), p[RATE * (n - 1)..RATE * n]))
  }

  /** The zeros that fill the last block. */
  function Filler(n: nat): (z: nat)
    ensures (n + z) % RATE == 0 && z < RATE
  {
    (RATE - n % RATE) % RATE
  }

  /** The message with its separation octet, filled up, and the last bit of the last block set. */
  function Padded(m: seq<byte>, d: byte): (p: seq<byte>)
    ensures |p| == |m| + 1 + Filler(|m| + 1) && |p| % RATE == 0
  {
    var input := m + [d] + Zeros(Filler(|m| + 1));
    input[|input| - 1 := input[|input| - 1] ^ 0x80]
  }

  function OuterBytes(s: State, n: nat): (p: seq<byte>)
    requires n <= 25
    ensures |p| == 8 * n
  {
    if n == 0 then [] else OuterBytes(s, n - 1) + Le64Enc(s[n - 1])
  }

  function Squeezed(kp: State -> State, s: State, n: nat): seq<byte>
    decreases n
  {
    if n <= RATE then OuterBytes(s, 21)[..n] else OuterBytes(s, 21) + Squeezed(kp, kp(s), n - RATE)
  }

  /** The state after all of the padded message. */
  function Soaked(kp: State -> State, p: seq<byte>): State
  {
    Absorbed(kp, p, |p| / RATE)
  }

  function TurboShake128(kp: State -> State, m: seq<byte>, d: byte, n: nat): seq<byte>
  {
    Squeezed(kp, Soaked(kp, Padded(m, d)), n)
  }

  /** KangarooTwelve of a message of one chunk with no customization string. */
  function Kangaroo(kp: State -> State, m: seq<byte>, n: nat): seq<byte>
    requires |m| < CHUNK
  {
    TurboShake128(kp, m + [0], 7, n)
  }

  // --- the code ---

  /** The five by five lanes hold the state, column by column. */
  predicate Holds(lanes: array2<lane>, s: State)
    reads lanes
  {
    && lanes.Length0 == 5 && lanes.Length1 == 5
    && forall i :: 0 <= i < 25 ==> s[i] == lanes[i % 5, i / 5]
  }

  function PartlyXored(s: State, block: seq<byte>, n: nat): State
    requires |block| == RATE && n <= 21
  {
    seq(25, i requires 0 <= i < 25 => if i < n then XorLane(s[i], Le64Dec(block[8 * i..8 * i + 8])) else s[i])
  }

  method XorInto(lanes: array2<lane>, block: seq<byte>, ghost s: State)
    requires Holds(lanes, s) && |block| == RATE
    modifies lanes
    ensures Holds(lanes, XorBlock(s, block))
  {
    hide Le64Dec, XorLane;
    for i := 0 to 21
      invariant Holds(lanes, PartlyXored(s, block, i))
    {
      var x := Le64Dec(block[8 * i..8 * i + 8]);
      assert PartlyXored(s, block, i)[i] == s[i];
      lanes[i % 5, i / 5] := XorLane(lanes[i % 5, i / 5], x);
    }
    assert PartlyXored(s, block, 21) == XorBlock(s, block);
  }

  method Permute(lanes: array2<lane>, kp: State -> State, ghost s: State)
    requires Holds(lanes, s)
    modifies lanes
    ensures Holds(lanes, kp(s))
  {
    var flat: seq<lane> := [];
    for i := 0 to 25
      invariant flat == s[..i] && Holds(lanes, s)
    {
      flat := flat + [lanes[i % 5, i / 5]];
    }
    assert flat == s;
    var t := kp(flat);
    forall x, y | 0 <= x < 5 && 0 <= y < 5 {
      lanes[x, y] := t[x + 5 * y];
    }
  }

  method SqueezeBlock(lanes: array2<lane>, out: seq<byte>, ghost s: State) returns (r: seq<byte>)
    requires Holds(lanes, s)
    ensures r == out + OuterBytes(s, 21)
  {
    hide Le64Enc;
    r := out;
    for i := 0 to 21
      invariant r == out + OuterBytes(s, i)
    {
      assert s[i] == lanes[i % 5, i / 5];
      assert out + (OuterBytes(s, i) + Le64Enc(s[i])) == r + Le64Enc(s[i]);
      r := r + Le64Enc(lanes[i % 5, i / 5]);
    }
  }

  /** k copies of the outer part. */
  function Repeated(block: seq<byte>, k: nat): (r: seq<byte>)
    requires |block| == RATE
    ensures |r| == RATE * k
  {
    if k == 0 then [] else Repeated(block, k - 1) + block
  }

  /** How many blocks the squeezing loop appends. */
  function Rounds(n: nat): (k: nat)
    ensures n <= RATE * k && (k > 0 ==> RATE * (k - 1) < n)
  {
    (n + RATE - 1) / RATE
  }

  method Pad(data: seq<byte>) returns (padded: seq<byte>)
    ensures padded == Padded(data + [0], 7)
  {
    var s := data + [0];
    padded := s + [7];
    padded := padded + Zeros(Filler(|padded|));
    var last := padded[|padded| - 1];
    assert last == 0 || last == 7;
    assert last | 0x80 == last ^ 0x80 by { OrIsXor(last); }
    padded := padded[|padded| - 1 := last | 0x80];
  }

  lemma OrIsXor(b: byte)
    requires b == 0 || b == 7
    ensures b | 0x80 == b ^ 0x80
  {
  }

  method AbsorbAll(padded: seq<byte>, kp: State -> State) returns (lanes: array2<lane>)
    requires |padded| % RATE == 0
    ensures Holds(lanes, Soaked(kp, padded))
  {
    hide XorBlock, Absorbed, Holds;
    lanes := new lane[5, 5]((x, y) => 0);
    AbsorbedNone(lanes, kp, padded);
    var blockStart := 0;
    ghost var n := 0;
    while blockStart < |padded|
      invariant blockStart == RATE * n <= |padded|
      invariant Holds(lanes, Absorbed(kp, padded, n))
    {
      ghost var s, block := Absorbed(kp, padded, n), padded[blockStart..blockStart + RATE];
      XorInto(lanes, padded[blockStart..blockStart + RATE], s);
      Permute(lanes, kp, XorBlock(s, block));
      AbsorbedNext(kp, padded, n);
      blockStart, n := blockStart + RATE, n + 1;
    }
    assert n == |padded| / RATE;
  }

  lemma AbsorbedNone(lanes: array2<lane>, kp: State -> State, p: seq<byte>)
    requires lanes.Length0 == 5 && lanes.Length1 == 5 && forall x, y :: 0 <= x < 5 && 0 <= y < 5 ==> lanes[x, y] == 0
    ensures Holds(lanes, Absorbed(kp, p, 0))
  {
  }

  lemma AbsorbedNext(kp: State -> State, p: seq<byte>, n: nat)
    requires RATE * n + RATE <= |p|
    ensures Absorbed(kp, p, n + 1) == kp(XorBlock(Absorbed(kp, p, n), p[RATE * n..RATE * n + RATE]))
  {
    hide XorBlock;
    assert RATE * (n + 1) == RATE * n + RATE;
  }

  /** No permutation between output blocks: the first one is repeated. */
  method SqueezeAll(lanes: array2<lane>, outLen: nat, ghost s: State) returns (out: seq<byte>)
    requires Holds(lanes, s)
    ensures out == Repeated(OuterBytes(s, 21), Rounds(outLen))[..outLen]
  {
    hide OuterBytes, Holds;
    ghost var block := OuterBytes(s, 21);
    ghost var k := 0;
    out := [];
    while |out| < outLen
      invariant out == Repeated(block, k) && k <= Rounds(outLen)
      decreases outLen - |out|
    {
      out := SqueezeBlock(lanes, out, s);
      k := k + 1;
    }
    out := out[..outLen];
  }

  method Hash(data: seq<byte>, outLen: nat, kp: State -> State) returns (out: seq<byte>)
    ensures out == HashOf(kp, data, outLen)
  {
    hide OuterBytes, Holds, Soaked, Padded;
    var padded := Pad(data);
    var lanes := AbsorbAll(padded, kp);
    out := SqueezeAll(lanes, outLen, Soaked(kp, padded));
  }

  /** What Hash returns. */
  function HashOf(kp: State -> State, data: seq<byte>, outLen: nat): seq<byte>
  {
    Repeated(OuterBytes(Soaked(kp, Padded(data + [0], 7)), 21), Rounds(outLen))[..outLen]
  }

  /** Up to 168 octets of output are the standard's. */
  lemma HashIsKangaroo(kp: State -> State, data: seq<byte>, outLen: nat)
    requires outLen <= RATE && |data| < CHUNK
    ensures HashOf(kp, data, outLen) == Kangaroo(kp, data, outLen)
  {
    hide OuterBytes, Soaked, Padded;
    var block := OuterBytes(Soaked(kp, Padded(data + [0], 7)), 21);
    if outLen > 0 {
      assert Rounds(outLen) == 1;
      assert Repeated(block, 1) == Repeated(block, 0) + block == block;
    }
  }

  lemma {:induction false} FirstOctet(s: State, n: nat)
    requires 0 < n <= 25
    ensures OuterBytes(s, n)[0] == Le64Enc(s[0])[0]
  {
    hide Le64Enc;
    if n > 1 {
      FirstOctet(s, n - 1);
    } else {
      assert OuterBytes(s, 0) == [];
    }
  }

  /** A permutation that changes the first octet of every state. */
  function Flip(s: State): State
  {
    s[0 := XorLane(s[0], 1)]
  }

  lemma FlipsBit(x: lane)
    ensures (x & 0xff) as byte != ((x ^ 1) & 0xff) as byte
  {
  }

  lemma FlipShows(s: State)
    ensures OuterBytes(s, 21)[0] != OuterBytes(Flip(s), 21)[0]
  {
    hide OuterBytes;
    FirstOctet(s, 21);
    FirstOctet(Flip(s), 21);
    FlipsBit(s[0]);
  }

  lemma {:induction false} RepeatedAt(block: seq<byte>, k: nat, i: nat)
    requires |block| == RATE && i < RATE * k
    ensures Repeated(block, k)[i] == block[i % RATE]
    decreases k
  {
    if i < RATE * (k - 1) {
      RepeatedAt(block, k - 1, i);
    }
  }

  /** Beyond 168 octets there is, for every message, a permutation for which they are not. */
  lemma HashIsNotKangaroo(data: seq<byte>, outLen: nat)
    requires outLen > RATE && |data| < CHUNK
    ensures HashOf(Flip, data, outLen) != Kangaroo(Flip, data, outLen)
  {
    hide OuterBytes, Soaked, Padded, Flip;
    var s := Soaked(Flip, Padded(data + [0], 7));
    var block := OuterBytes(s, 21);
    RepeatedAt(block, Rounds(outLen), RATE);
    assert HashOf(Flip, data, outLen)[RATE] == block[0];
    SecondBlockStarts(s, outLen);
    FlipShows(s);
  }

  lemma SecondBlockStarts(s: State, n: nat)
    requires n > RATE
    ensures |Squeezed(Flip, s, n)| > RATE && Squeezed(Flip, s, n)[RATE] == OuterBytes(Flip(s), 21)[0]
  {
    hide OuterBytes, Flip;
  }

  /** The output is KangarooTwelve's for every permutation exactly up to 168 octets. */
  lemma KangarooExactly(data: seq<byte>, outLen: nat)
    requires |data| < CHUNK
    ensures (forall kp: State -> State :: HashOf(kp, data, outLen) == Kangaroo(kp, data, outLen)) <==> outLen <= RATE
  {
    hide HashOf, Kangaroo;
    if outLen <= RATE {
      forall kp: State -> State
        ensures HashOf(kp, data, outLen) == Kangaroo(kp, data, outLen)
      {
        HashIsKangaroo(kp, data, outLen);
      }
    } else {
      HashIsNotKangaroo(data, outLen);
    }
  }
}
