/**
  The streaming SHA-256 of scrypt.c: an in-place compression function whose working
  variables stay put while the round indices rotate, and a context that buffers the
  tail of the message and counts bits in two 32-bit halves.
 */
module Sha256 {
  import opened Arith
  import opened Seqs
  import opened Words
  import opened Sha256Spec

  // ---------------------------------------------------------------- compression

  function CodeCh(x: word, y: word, z: word): word { (x & (y ^ z)) ^ z }
  function CodeMaj(x: word, y: word, z: word): word { (x & (y | z)) | (y & z) }

  lemma ChBits(x: word, y: word, z: word)
    ensures (x & (y ^ z)) ^ z == (x & y) ^ (!x & z)
  {
  }

  lemma MajBits(x: word, y: word, z: word)
    ensures (x & (y | z)) | (y & z) == (x & y) ^ (x & z) ^ (y & z)
  {
  }

  /** The rewritten Ch and Maj are the functions of FIPS 180-4. */
  lemma ChMajAgree(x: word, y: word, z: word)
    ensures CodeCh(x, y, z) == Ch(x, y, z)
    ensures CodeMaj(x, y, z) == Maj(x, y, z)
  {
    ChBits(x, y, z);
    MajBits(x, y, z);
  }

  /** The sum of the round macro, whose last operand is already W[i] + k. */
  function CodeSum(h: word, s1: word, ch: word, k: word, w: word): word { h + s1 + ch + (w + k) }

  lemma SumBits(h: word, s1: word, ch: word, k: word, w: word)
    ensures h + s1 + ch + (w + k) == h + s1 + ch + k + w
  {
  }

  lemma SumAgrees(h: word, s1: word, ch: word, k: word, w: word)
    ensures CodeSum(h, s1, ch, k, w) == Sum5(h, s1, ch, k, w)
  {
    SumBits(h, s1, ch, k, w);
  }

  method Be32DecVect(dst: array<word>, src: seq<byte>)
    requires |src| % 4 == 0 && |src| / 4 <= dst.Length
    modifies dst
    ensures dst[..|src| / 4] == BeWords(src)
    ensures dst[|src| / 4..] == old(dst[|src| / 4..])
  {
    for i := 0 to |src| / 4
      invariant dst[..i] == BeWords(src)[..i]
      invariant dst[|src| / 4..] == old(dst[|src| / 4..])
    {
      dst[i] := Be32Dec(src[4 * i..4 * i + 4]);
    }
  }

  method Be32EncVect(src: array<word>) returns (dst: array<byte>)
    ensures fresh(dst)
    ensures dst[..] == BeBytes(src[..])
  {
    dst := new byte[4 * src.Length];
    for i := 0 to src.Length
      invariant dst[..4 * i] == BeBytes(src[..i])
    {
      var p := Be32Enc(src[i]);
      assert src[..i + 1][..i] == src[..i];
      dst[4 * i], dst[4 * i + 1], dst[4 * i + 2], dst[4 * i + 3] := p[0], p[1], p[2], p[3];
      assert dst[..4 * (i + 1)] == dst[..4 * i] + p;
    }
    assert src[..src.Length] == src[..] && dst[..4 * src.Length] == dst[..];
  }

  /** Where the macro finds working variable j in round i. */
  function Slot(i: nat, j: nat): (p: nat)
    requires i <= 64
    ensures p < 8
  {
    (64 - i + j) % 8
  }

  lemma SlotsDiffer(i: nat, j: nat, k: nat)
    requires i <= 64 && j < 8 && k < 8
    ensures Slot(i, j) == Slot(i, k) <==> j == k
  {
  }

  lemma SlotNext(i: nat, j: nat)
    requires i < 64 && j < 8
    ensures Slot(i + 1, j) == Slot(i, if j == 0 then 7 else j - 1)
  {
  }

  /** Before round i the array holds the working variables v, each in its slot. */
  ghost predicate Rotated<T>(s: seq<T>, v: seq<T>, i: nat)
    requires |s| == 8 && |v| == 8 && i <= 64
  {
    forall j :: 0 <= j < 8 ==> s[Slot(i, j)] == v[j]
  }

  /** Two stores and a change of index do the work of the eight moves of a round. */
  lemma RotateStep<T>(s: seq<T>, v: seq<T>, i: nat, newA: T, newE: T)
    requires |s| == 8 && |v| == 8 && i < 64 && Rotated(s, v, i)
    ensures Rotated(s[Slot(i, 3) := newE][Slot(i, 7) := newA], [newA, v[0], v[1], v[2], newE, v[4], v[5], v[6]], i + 1)
  {
    hide Slot;
    var s' := s[Slot(i, 3) := newE][Slot(i, 7) := newA];
    var v' := [newA, v[0], v[1], v[2], newE, v[4], v[5], v[6]];
    forall j | 0 <= j < 8 ensures s'[Slot(i + 1, j)] == v'[j] {
      SlotNext(i, j);
      var k := if j == 0 then 7 else j - 1;
      SlotsDiffer(i, k, 3);
      SlotsDiffer(i, k, 7);
      assert s[Slot(i, k)] == v[k];
    }
  }

  lemma RotatedAt<T>(s: seq<T>, v: seq<T>, i: nat)
    requires |s| == 8 && |v| == 8 && i < 64 && Rotated(s, v, i)
    ensures s[Slot(i, 0)] == v[0] && s[Slot(i, 1)] == v[1] && s[Slot(i, 2)] == v[2] && s[Slot(i, 3)] == v[3]
    ensures s[Slot(i, 4)] == v[4] && s[Slot(i, 5)] == v[5] && s[Slot(i, 6)] == v[6] && s[Slot(i, 7)] == v[7]
  {
    hide Slot;
  }

  /** The two sums of the round macro. */
  function T0(e: word, f: word, g: word, h: word, k: word, w: word): word
  {
    CodeSum(h, BigSigma1(e), CodeCh(e, f, g), k, w)
  }

  function T1(a: word, b: word, c: word): word
  {
    Add(BigSigma0(a), CodeMaj(a, b, c))
  }

  lemma RoundByMacro(v: seq<word>, k: word, w: word)
    requires |v| == 8
    ensures
      var t0, t1 := T0(v[4], v[5], v[6], v[7], k, w), T1(v[0], v[1], v[2]);
      Round(v, k, w) == [Add(t0, t1), v[0], v[1], v[2], Add(v[3], t0), v[4], v[5], v[6]]
  {
    hide CodeCh, CodeMaj, CodeSum, Ch, Maj, Sum5, BigSigma0, BigSigma1, Add;
    ChMajAgree(v[4], v[5], v[6]);
    ChMajAgree(v[0], v[1], v[2]);
    SumAgrees(v[7], BigSigma1(v[4]), CodeCh(v[4], v[5], v[6]), k, w);
  }

  /** One application of the rotating round macro. */
  method RoundInPlace(S: array<word>, W: array<word>, i: nat, k: word, ghost v: seq<word>)
    requires S.Length == 8 && W.Length == 64 && |v| == 8 && i < 64 && S != W
    requires Rotated(S[..], v, i)
    modifies S
    ensures Rotated(S[..], Round(v, k, W[i]), i + 1)
  {
    hide Rotated, Round, T0, T1, Add, Slot;
    var a, b, c, d := Slot(i, 0), Slot(i, 1), Slot(i, 2), Slot(i, 3);
    var e, f, g, h := Slot(i, 4), Slot(i, 5), Slot(i, 6), Slot(i, 7);
    ghost var s := S[..];
    RotatedAt(s, v, i);
    RoundByMacro(v, k, W[i]);
    var t0 := T0(S[e], S[f], S[g], S[h], k, W[i]);
    var t1 := T1(S[a], S[b], S[c]);
    RotateStep(s, v, i, Add(t0, t1), Add(S[d], t0));
    S[d] := Add(S[d], t0);
    S[h] := Add(t0, t1);
    assert S[..] == s[d := Add(s[d], t0)][h := Add(t0, t1)];
  }

  /** After all 64 rounds the variables are back in their places. */
  lemma RotatedFull<T>(s: seq<T>, v: seq<T>)
    requires |s| == 8 && |v| == 8 && Rotated(s, v, 64)
    ensures s == v
  {
    assert forall j :: 0 <= j < 8 ==> Slot(64, j) == j;
  }

  method PrepareSchedule(block: seq<byte>) returns (W: array<word>)
    requires |block| == 64
    ensures fresh(W) && W.Length == 64
    ensures W[..] == Schedule(BeWords(block), 64)
  {
    W := new word[64];
    Be32DecVect(W, block);
    for i := 16 to 64
      invariant W[..i] == Schedule(BeWords(block), i)
    {
      ghost var w := W[..i];
      W[i] := Sum4(SmallSigma1(W[i - 2]), W[i - 7], SmallSigma0(W[i - 15]), W[i - 16]);
      assert W[..i + 1] == w + [W[i]];
    }
    assert W[..] == W[..64];
  }

  lemma RotatedNone<T>(h: seq<T>)
    requires |h| == 8
    ensures Rotated(h, h, 0)
  {
    assert forall j :: 0 <= j < 8 ==> Slot(0, j) == j;
  }

  lemma NoRounds(h: seq<word>, ws: seq<word>)
    requires |h| == 8
    ensures Rounds(h, ws[..0]) == h
  {
    hide Round;
    assert ws[..0] == [];
  }

  lemma NextRound(h: seq<word>, ws: seq<word>, i: nat)
    requires |h| == 8 && i < |ws| <= 64
    ensures Rounds(h, ws[..i + 1]) == Round(Rounds(h, ws[..i]), K[i], ws[i])
  {
    hide Round;
    assert ws[..i + 1][..i] == ws[..i];
  }

  method Mix(S: array<word>, W: array<word>)
    requires S.Length == 8 && W.Length == 64 && S != W
    modifies S
    ensures S[..] == Rounds(old(S[..]), W[..])
  {
    hide Rotated, Rounds, Round, Slot;
    ghost var h, ws := S[..], W[..];
    RotatedNone(h);
    NoRounds(h, ws);
    for i := 0 to 64
      invariant W[..] == ws
      invariant Rotated(S[..], Rounds(h, ws[..i]), i)
    {
      NextRound(h, ws, i);
      RoundInPlace(S, W, i, K[i], Rounds(h, ws[..i]));
    }
    assert ws[..64] == ws;
    RotatedFull(S[..], Rounds(h, ws));
  }

  /** dst[i] += src[i] for every i. */
  method AddInto(dst: array<word>, src: array<word>)
    requires dst.Length == src.Length && dst != src
    modifies dst
    ensures dst[..] == AddWords(old(dst[..]), src[..])
  {
    for i := 0 to dst.Length
      invariant forall k :: 0 <= k < i ==> dst[k] == Add(old(dst[k]), src[k])
      invariant forall k :: i <= k < dst.Length ==> dst[k] == old(dst[k])
    {
      dst[i] := Add(dst[i], src[i]);
    }
  }

  /** SHA256_Transform computes the compression of section 6.2.2 of FIPS 180-4 in place. */
  method Transform(state: array<word>, block: seq<byte>)
    requires state.Length == 8 && |block| == 64
    modifies state
    ensures state[..] == Compress(old(state[..]), block)
  {
    ghost var h := state[..];
    var W := PrepareSchedule(block);
    var S := new word[8](i requires 0 <= i < 8 reads state => state[i]);
    assert S[..] == h;
    Mix(S, W);
    AddInto(state, S);
  }

  // ------------------------------------------------------------------ streaming

  const PAD: seq<byte> := [0x80] + Zeros(63)

  /** The value of the two 32-bit counters after adding 8 * len bits with carry. */
  function AddBits(count: (nat, nat), len: nat): (r: (nat, nat))
    ensures r.0 < 0x1_0000_0000 && r.1 < 0x1_0000_0000
  {
    var bitlen1 := (len % 0x1_0000_0000 * 8) % 0x1_0000_0000;
    var bitlen0 := (len / 0x2000_0000) % 0x1_0000_0000;
    var count1 := (count.1 + bitlen1) % 0x1_0000_0000;
    var carried := if count1 < bitlen1 then (count.0 + 1) % 0x1_0000_0000 else count.0;
    ((carried + bitlen0) % 0x1_0000_0000, count1)
  }

  /** The split counters hold the bit count modulo 2^64. */
  lemma AddBitsIsCount(count: (nat, nat), n: nat, len: nat)
    requires count.0 == 8 * n / 0x1_0000_0000 % 0x1_0000_0000 && count.1 == 8 * n % 0x1_0000_0000
    ensures AddBits(count, len) ==
            (8 * (n + len) / 0x1_0000_0000 % 0x1_0000_0000, 8 * (n + len) % 0x1_0000_0000)
  {
    var a, b, lo := 8 * n / 0x1_0000_0000, len / 0x2000_0000, 8 * len % 0x1_0000_0000;
    BitLengths(len);
    CarrySplit(a, count.1, b, lo);
    var carry := if (count.1 + lo) % 0x1_0000_0000 < lo then 1 else 0;
    ModSum(a, b, carry);
    assert 8 * n == a * 0x1_0000_0000 + count.1;
    assert 8 * (n + len) == (a * 0x1_0000_0000 + count.1) + (b * 0x1_0000_0000 + lo);
  }

  lemma BitLengths(len: nat)
    ensures (len % 0x1_0000_0000 * 8) % 0x1_0000_0000 == 8 * len % 0x1_0000_0000
    ensures 8 * len == len / 0x2000_0000 * 0x1_0000_0000 + 8 * len % 0x1_0000_0000
  {
    var p, u := len / 0x1_0000_0000, len % 0x1_0000_0000;
    var q, t := len / 0x2000_0000, len % 0x2000_0000;
    assert 8 * len == 8 * u + 0x1_0000_0000 * (8 * p) == q * 0x1_0000_0000 + 8 * t;
    ModAddMultiple(8 * u, 0x1_0000_0000, 8 * p);
    DivModUnique(8 * len, 0x1_0000_0000, q, 8 * t);
  }

  lemma Buffered(n: nat)
    ensures 8 * n % 0x1_0000_0000 / 8 % 64 == n % 64
  {
    var q, r := n / 0x2000_0000, n % 0x2000_0000;
    assert n == q * 0x2000_0000 + r;
    DivModUnique(8 * n, 0x1_0000_0000, q, 8 * r);
    DivModUnique(8 * r, 8, r, 0);
    ModAddMultiple(r, 64, q * 0x80_0000);
    assert r + 64 * (q * 0x80_0000) == n;
  }

  lemma LengthField(n: nat)
    requires n < 0x1_0000_0000_0000_0000
    ensures BeNat(n, 8) == BeNat(n / 0x1_0000_0000 % 0x1_0000_0000, 4) + BeNat(n % 0x1_0000_0000, 4)
  {
    hide BeNat;
    assert Pow(256, 4) == 0x1_0000_0000;
    BeNatSplit(n, n / 0x1_0000_0000, n % 0x1_0000_0000, 4, 4);
  }

  /** 1 to 64 octets, so that the resulting length is 56 mod 64. */
  function PadLength(r: nat): (n: nat)
    requires r < 64
    ensures 1 <= n <= 64 && (r + n) % 64 == 56
  {
    if r < 56 then 56 - r else 120 - r
  }

  lemma PadSplit(m: seq<byte>)
    ensures Pad(m) == m + PAD[..PadLength(|m| % 64)] + BeNat(8 * |m|, 8)
  {
    hide BeNat, Zeros, PadLength, PadZeros, PAD;
    PadLengthIsZeros(|m|);
    PadPrefix(PadZeros(|m|));
    Regroup(m, [0x80], Zeros(PadZeros(|m|)));
  }

  lemma PadLengthIsZeros(n: nat)
    ensures PadLength(n % 64) == 1 + PadZeros(n)
  {
  }

  lemma PadPrefix(k: nat)
    requires k < 64
    ensures PAD[..1 + k] == [0x80] + Zeros(k)
  {
  }

  lemma ModSum(a: nat, b: nat, c: nat)
    requires c <= 1
    ensures ((a % 0x1_0000_0000 + c) % 0x1_0000_0000 + b % 0x1_0000_0000) % 0x1_0000_0000
            == (a + b + c) % 0x1_0000_0000
  {
  }

  lemma CarrySplit(a: nat, x: nat, b: nat, y: nat)
    requires x < 0x1_0000_0000 && y < 0x1_0000_0000
    ensures
      var n := (a * 0x1_0000_0000 + x) + (b * 0x1_0000_0000 + y);
      var carry := if (x + y) % 0x1_0000_0000 < y then 1 else 0;
      && n % 0x1_0000_0000 == (x + y) % 0x1_0000_0000
      && n / 0x1_0000_0000 == a + b + carry
  {
    var n := (a * 0x1_0000_0000 + x) + (b * 0x1_0000_0000 + y);
    var carry := if x + y < 0x1_0000_0000 then 0 else 1;
    DivModUnique(n, 0x1_0000_0000, a + b + carry, x + y - carry * 0x1_0000_0000);
    DivModUnique(x + y, 0x1_0000_0000, carry, x + y - carry * 0x1_0000_0000);
  }

  lemma {:induction false} AbsorbPrefix(h: seq<word>, m: seq<byte>, d: seq<byte>, n: nat)
    requires |h| == 8 && 64 * n <= |m|
    ensures Absorb(h, m + d, n) == Absorb(h, m, n)
  {
    hide Compress;
    if n != 0 {
      AbsorbPrefix(h, m, d, n - 1);
      assert (m + d)[64 * (n - 1)..64 * n] == m[64 * (n - 1)..64 * n];
    }
  }

  /** The buffered tail and the head of the new data make the next block. */
  lemma FillBlock<T>(m: seq<T>, d: seq<T>, n: nat)
    requires 64 * n <= |m| < 64 * (n + 1) <= |m| + |d|
    ensures m[64 * n..] + d[..64 * (n + 1) - |m|] == (m + d)[64 * n..64 * (n + 1)]
    ensures d[64 * (n + 1) - |m|..] == (m + d)[64 * (n + 1)..]
  {
  }

  /** SHA256_CTX. The two bit counters are numbers below 2^32, high half first. */
  class Ctx {
    const state: array<word>
    const buf: array<byte>
    var count: (nat, nat)

    ghost predicate Valid()
      reads this
    {
      state.Length == 8 && buf.Length == 64
    }

    /** The two halves of the bit count of n octets, modulo 2^64. */
    ghost predicate Counted(n: nat)
      reads this
    {
      count == (8 * n / 0x1_0000_0000 % 0x1_0000_0000, 8 * n % 0x1_0000_0000)
    }

    /** The context stands for the message m: counters, hash value and buffered tail. */
    ghost predicate Absorbed(m: seq<byte>)
      reads this, state, buf
    {
      && Valid()
      && Counted(|m|)
      && state[..] == Absorb(IV, m, |m| / 64)
      && buf[..|m| % 64] == m[64 * (|m| / 64)..]
    }

    constructor ()
      ensures Valid() && fresh(state) && fresh(buf)
    {
      state := new word[8];
      buf := new byte[64];
      count := (0, 0);
    }

    /** A structure copy: whatever message the other context stands for, so does this one. */
    method CopyFrom(other: Ctx, ghost m: seq<byte>)
      requires Valid() && other.Absorbed(m)
      requires state != other.state && buf != other.buf && this != other
      modifies this, state, buf
      ensures Absorbed(m)
    {
      hide Absorb;
      count := other.count;
      CopyInto(state, 0, other.state[..]);
      CopyInto(buf, 0, other.buf[..]);
    }

    method Init()
      requires Valid()
      modifies this, state
      ensures Absorbed([])
    {
      count := (0, 0);
      CopyInto(state, 0, IV);
    }

    /** Counts len more octets; r is the number of octets buffered before. */
    method Count(len: nat, ghost n: nat) returns (r: nat)
      requires Counted(n)
      modifies this
      ensures Counted(n + len)
      ensures r == n % 64
    {
      hide AddBits;
      r := count.1 / 8 % 64;
      Buffered(n);
      AddBitsIsCount(count, n, len);
      count := AddBits(count, len);
    }

    /** Whole blocks go straight from the source; n blocks of f are behind. */
    method Blocks(data: seq<byte>, ghost f: seq<byte>, ghost n: nat) returns (src: seq<byte>)
      requires Valid() && 64 * n <= |f| && data == f[64 * n..]
      requires state[..] == Absorb(IV, f, n)
      modifies state
      ensures state[..] == Absorb(IV, f, |f| / 64)
      ensures src == f[64 * (|f| / 64)..]
    {
      hide Compress;
      ghost var p := n;
      src := data;
      while |src| >= 64
        invariant n <= p && 64 * p <= |f| && src == f[64 * p..]
        invariant state[..] == Absorb(IV, f, p)
        decreases |src|
      {
        assert src[..64] == f[64 * p..64 * (p + 1)];
        Transform(state, src[..64]);
        src := src[64..];
        p := p + 1;
      }
    }

    /** Any split of a message into updates leaves the context of the whole message. */
    method Update(data: seq<byte>, ghost m: seq<byte>)
      requires Absorbed(m) && |data| < 0x1_0000_0000_0000_0000
      modifies this, state, buf
      ensures Absorbed(m + data)
    {
      hide Counted, Compress;
      ghost var f, n := m + data, |m| / 64;
      AbsorbPrefix(IV, m, data, n);
      var src := data;
      var r := Count(|src|, |m|);
      if |src| < 64 - r {
        CopyInto(buf, r, src);
        assert |f| / 64 == n;
        assert buf[..|f| % 64] == m[64 * n..] + src == f[64 * n..];
        return;
      }
      ghost var tail := buf[..r];
      FillBlock(m, data, n);
      CopyInto(buf, r, src[..64 - r]);
      assert buf[..] == tail + src[..64 - r];
      Transform(state, buf[..]);
      src := src[64 - r..];
      src := Blocks(src, f, n + 1);
      CopyInto(buf, 0, src);
    }

    /** Appends the 0x80 octet, the zeros and the bit count taken before padding. */
    method Pad(ghost m: seq<byte>)
      requires Absorbed(m) && |m| < 0x2000_0000_0000_0000
      modifies this, state, buf
      ensures Absorbed(Sha256Spec.Pad(m))
    {
      hide Absorb, BeNat, Zeros, Sha256Spec.Pad;
      var len := BeNat(count.0, 4) + BeNat(count.1, 4);
      LengthField(8 * |m|);
      var r := count.1 / 8 % 64;
      Buffered(|m|);
      PadSplit(m);
      var plen := PadLength(r);
      Update(PAD[..plen], m);
      Update(len, m + PAD[..plen]);
    }

    method Wipe()
      requires Valid()
      modifies state, buf
      ensures state[..] == seq(8, _ => 0) && buf[..] == Zeros(64)
    {
      forall i | 0 <= i < 8 { state[i] := 0; }
      forall i | 0 <= i < 64 { buf[i] := 0; }
    }

    /** The digest is that of FIPS 180-4; the context is cleared. */
    method Final(ghost m: seq<byte>) returns (digest: seq<byte>)
      requires Absorbed(m) && |m| < 0x2000_0000_0000_0000
      modifies this, state, buf
      ensures digest == Sha256Spec.Sha256(m)
      ensures Valid()
      ensures count == (0, 0) && state[..] == seq(8, _ => 0) && buf[..] == Zeros(64)
    {
      Pad(m);
      var out := Be32EncVect(state);
      digest := out[..];
      count := (0, 0);
      Wipe();
    }
  }
}
