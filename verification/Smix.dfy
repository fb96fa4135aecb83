/**
  blockmix_salsa8 and smix of scrypt.c. BlockMix writes each Y_i straight to its shuffled
  place, and the loops of smix take two steps a turn so that X and Y change roles instead
  of being copied. X, Y and Z are the three stretches of the scratch area XY.
 */
module Smix {
  import opened Arith
  import opened Seqs
  import opened Words
  import opened ScryptSpec
  import opened Salsa20

  /** X <-- H(X xor B_i); Y_i <-- X, where B_i and the place of Y_i start at src and dst. */
  method MixStep(Bin: array<word>, Bout: array<word>, X: array<word>, src: nat, dst: nat)
    requires X.Length == 16 && src + 16 <= Bin.Length && dst + 16 <= Bout.Length
    requires Bin != Bout && Bin != X && Bout != X
    modifies Bout, X
    ensures X[..] == Salsa(XorWords(old(X[..]), Bin[src..src + 16]))
    ensures Bout[..] == Splice(old(Bout[..]), dst, X[..])
  {
    hide Salsa, XorWords;
    BlkXor(X, Bin, src);
    SalsaInPlace(X);
    BlkCpy(Bout, dst, X, 0, 16);
    assert X[0..16] == X[..];
  }

  /** After k turns the even blocks fill the front of the first half, the odd ones of the second. */
  ghost predicate Placed(out: seq<word>, b: seq<word>, r: nat, k: nat)
    requires r >= 1 && |b| == 32 * r == |out| && k <= r
  {
    && out[..16 * k] == EverySecond(b, r, 0, k)
    && out[16 * r..16 * r + 16 * k] == EverySecond(b, r, 1, k)
  }

  lemma PlacedNext(out: seq<word>, b: seq<word>, r: nat, k: nat, even: seq<word>, odd: seq<word>)
    requires r >= 1 && |b| == 32 * r == |out| && k < r && Placed(out, b, r, k)
    requires even == Chain(b, r, 2 * k + 1) && odd == Chain(b, r, 2 * k + 2)
    ensures Placed(Splice(Splice(out, 16 * k, even), 16 * k + 16 * r, odd), b, r, k + 1)
  {
    hide Chain, Splice;
    var mid := Splice(out, 16 * k, even);
    var out' := Splice(mid, 16 * k + 16 * r, odd);
    SpliceBelow(mid, 16 * k + 16 * r, odd, 0, 16 * k + 16);
    SpliceUpTo(out, 16 * k, even, 0);
    SpliceUpTo(mid, 16 * k + 16 * r, odd, 16 * r);
    SpliceAbove(out, 16 * k, even, 16 * r, 16 * k + 16 * r);
  }

  lemma PlacedEnds(out: seq<word>, b: seq<word>, r: nat)
    requires r >= 1 && |b| == 32 * r == |out|
    ensures Placed(out, b, r, 0)
    ensures Placed(out, b, r, r) ==> out == BlockMix(b, r)
  {
    assert out == out[..16 * r] + out[16 * r..16 * r + 16 * r];
  }

  /** blockmix_salsa8(Bin, Bout, X, r). */
  method BlockMixInto(Bin: array<word>, Bout: array<word>, X: array<word>, r: nat)
    requires r >= 1 && Bin.Length == 32 * r == Bout.Length && X.Length == 16
    requires Bin != Bout && Bin != X && Bout != X
    modifies Bout, X
    ensures Bout[..] == BlockMix(Bin[..], r)
  {
    hide Salsa, XorWords, Splice, Placed, BlockMix;
    ghost var b := Bin[..];
    PlacedEnds(Bout[..], b, r);
    SpliceAll(X[..], Bin[(2 * r - 1) * 16..(2 * r - 1) * 16 + 16]);
    BlkCpy(X, 0, Bin, (2 * r - 1) * 16, 16);
    var i := 0;
    ghost var k := 0;
    while i < 2 * r
      invariant i == 2 * k && 0 <= k <= r
      invariant Bin[..] == b
      invariant X[..] == Chain(b, r, i)
      invariant Placed(Bout[..], b, r, k)
    {
      ghost var out := Bout[..];
      MixStep(Bin, Bout, X, i * 16, i * 8);
      ghost var even := X[..];
      MixStep(Bin, Bout, X, i * 16 + 16, i * 8 + r * 16);
      PlacedNext(out, b, r, k, even, X[..]);
      i := i + 2;
      k := k + 1;
    }
    PlacedEnds(Bout[..], b, r);
  }

  // ------------------------------------------------------------------ integerify

  /** Bitwise and of two numbers. */
  function And(x: nat, y: nat): nat
    decreases x
  {
    if x == 0 || y == 0 then 0 else (x % 2) * (y % 2) + 2 * And(x / 2, y / 2)
  }

  /** Masking with 2^k - 1 is reduction modulo 2^k. */
  lemma {:induction false} AndMask(x: nat, k: nat)
    ensures And(x, Pow(2, k) - 1) == x % Pow(2, k)
    decreases k
  {
    hide And, Pow;
    if k == 0 {
      NoMask(x);
    } else {
      AndMask(x / 2, k - 1);
      var m, n := Pow(2, k - 1), Pow(2, k);
      Doubled(k);
      MaskDouble(x, m, n);
    }
  }

  lemma NoMask(x: nat)
    ensures And(x, Pow(2, 0) - 1) == x % Pow(2, 0)
  {
    assert Pow(2, 0) == 1;
  }

  lemma MaskDouble(x: nat, m: nat, n: nat)
    requires m >= 1 && n == 2 * m && And(x / 2, m - 1) == x / 2 % m
    ensures And(x, n - 1) == x % n
  {
    hide And;
    ModDouble(x, m);
    AndOdd(x, m - 1);
  }

  lemma {:induction false} Doubled(k: nat)
    requires k >= 1
    ensures Pow(2, k) == 2 * Pow(2, k - 1)
  {
  }

  lemma AndOdd(x: nat, y: nat)
    ensures And(x, 2 * y + 1) == x % 2 + 2 * And(x / 2, y)
  {
    assert (2 * y + 1) % 2 == 1 && (2 * y + 1) / 2 == y;
  }

  /** integerify reads only the low 64 bits of the last block. */
  function Integerify64(x: seq<word>, r: nat): nat
    requires r >= 1 && |x| == 32 * r
  {
    (x[(2 * r - 1) * 16 + 1] as nat) * 0x1_0000_0000 + (x[(2 * r - 1) * 16] as nat)
  }

  /** For a power of two that fits in 64 bits, the masked low half is Integerify mod N. */
  lemma IntegerifyMasked(x: seq<word>, r: nat, k: nat)
    requires r >= 1 && |x| == 32 * r && k <= 64
    ensures And(Integerify64(x, r), Pow(2, k) - 1) == Integerify(x, r) % Pow(2, k)
  {
    hide Pow, And, LeInt;
    var n := Pow(2, k);
    var low := Integerify64(x, r);
    var high := LowWords(Sub(x, 2 * r - 1));
    AndMask(low, k);
    PowAdd(2, k, 64 - k);
    TwoTo64();
    MulAssoc(n, Pow(2, 64 - k), high);
    ModAddMultiple(low, n, Pow(2, 64 - k) * high);
  }

  lemma TwoTo64()
    ensures Pow(2, 64) == 0x1_0000_0000_0000_0000
  {
    hide Pow;
    TwoTo8();
    PowAdd(2, 8, 8);
    PowAdd(2, 16, 16);
    PowAdd(2, 32, 32);
  }

  lemma TwoTo8()
    ensures Pow(2, 8) == 0x100
  {
    assert Pow(2, 4) == 16;
    PowAdd(2, 4, 4);
  }

  lemma MulAssoc(a: nat, b: nat, c: nat)
    ensures a * b * c == a * (b * c)
  {
  }

  lemma LowWords(ws: seq<word>) returns (high: nat)
    requires |ws| >= 2
    ensures LeInt(ws) == (ws[1] as nat) * 0x1_0000_0000 + (ws[0] as nat) + 0x1_0000_0000_0000_0000 * high
  {
    high := LeInt(ws[1..][1..]);
  }

  // ------------------------------------------------------------------------ smix

  lemma RowBound(j: nat, i: nat, s: nat)
    requires j < i
    ensures j * s + s <= i * s
  {
    assert i * s == j * s + (i - j) * s;
    if s > 0 { MulAtLeast(i - j, s); }
  }

  /** The first i rows of s = 32 * r words hold V_0, ..., V_{i-1}. */
  ghost predicate Stored(v: seq<word>, b: seq<word>, r: nat, i: nat)
    requires r >= 1 && |b| == 32 * r
  {
    forall j :: 0 <= j < i ==> Row(v, b, r, j)
  }

  ghost predicate Row(v: seq<word>, b: seq<word>, r: nat, j: nat)
    requires r >= 1 && |b| == 32 * r
  {
    var s := 32 * r;
    j * s + s <= |v| && v[j * s..j * s + s] == V(b, r, j)
  }

  lemma StoreNext(v: seq<word>, b: seq<word>, r: nat, i: nat, at: nat)
    requires r >= 1 && |b| == 32 * r && Stored(v, b, r, i) && at == i * (32 * r) && at + 32 * r <= |v|
    ensures Stored(Splice(v, at, V(b, r, i)), b, r, i + 1)
  {
    hide V, Splice, Row;
    SpliceAt(v, at, V(b, r, i));
    forall j | 0 <= j < i + 1 ensures Row(Splice(v, at, V(b, r, i)), b, r, j) {
      if j < i {
        RowKept(v, b, r, i, at, j);
      } else {
        RowNew(v, b, r, i, at);
      }
    }
  }

  lemma RowKept(v: seq<word>, b: seq<word>, r: nat, i: nat, at: nat, j: nat)
    requires r >= 1 && |b| == 32 * r && Row(v, b, r, j) && j < i && at == i * (32 * r) && at + 32 * r <= |v|
    ensures Row(Splice(v, at, V(b, r, i)), b, r, j)
  {
    hide V, Splice;
    var s := 32 * r;
    RowBound(j, i, s);
    SpliceBelow(v, at, V(b, r, i), j * s, j * s + s);
  }

  lemma RowNew(v: seq<word>, b: seq<word>, r: nat, i: nat, at: nat)
    requires r >= 1 && |b| == 32 * r && at == i * (32 * r) && at + 32 * r <= |v|
    ensures Row(Splice(v, at, V(b, r, i)), b, r, i)
  {
    hide V, Splice;
    SpliceAt(v, at, V(b, r, i));
  }

  /** V_i <-- X; Out <-- H(X). */
  method FillStep(n: nat, Vs: array<word>, X: array<word>, Out: array<word>, Z: array<word>, r: nat, ghost b: seq<word>, i: nat)
    requires r >= 1 && i < n && |b| == 32 * r
    requires Vs.Length == n * (32 * r) && X.Length == 32 * r == Out.Length && Z.Length == 16
    requires Vs != X && Vs != Out && Vs != Z && X != Out && X != Z && Out != Z
    requires Stored(Vs[..], b, r, i) && X[..] == V(b, r, i)
    modifies Vs, Out, Z
    ensures Stored(Vs[..], b, r, i + 1) && Out[..] == V(b, r, i + 1)
  {
    hide BlockMix, Splice, Stored, V;
    NextV(b, r, i);
    RowBound(i, n, 32 * r);
    var at := i * (32 * r);
    StoreNext(Vs[..], b, r, i, at);
    assert X[0..32 * r] == X[..];
    BlkCpy(Vs, at, X, 0, 32 * r);
    BlockMixInto(X, Out, Z, r);
  }

  /** The first loop: V_i <-- X; X <-- H(X), two steps a turn. */
  method FillV(n: nat, Vs: array<word>, X: array<word>, Y: array<word>, Z: array<word>, r: nat, ghost b: seq<word>)
    requires r >= 1 && n % 2 == 0 && |b| == 32 * r && X[..] == b
    requires Vs.Length == n * (32 * r) && X.Length == 32 * r == Y.Length && Z.Length == 16
    requires Vs != X && Vs != Y && Vs != Z && X != Y && X != Z && Y != Z
    modifies Vs, X, Y, Z
    ensures X[..] == V(b, r, n)
    ensures Stored(Vs[..], b, r, n)
  {
    hide Stored, V;
    var i := 0;
    StoredNone(Vs[..], b, r);
    while i < n
      invariant 0 <= i <= n && i % 2 == 0
      invariant X[..] == V(b, r, i)
      invariant Stored(Vs[..], b, r, i)
    {
      FillStep(n, Vs, X, Y, Z, r, b, i);
      FillStep(n, Vs, Y, X, Z, r, b, i + 1);
      i := i + 2;
    }
  }

  lemma StoredNone(v: seq<word>, b: seq<word>, r: nat)
    requires r >= 1 && |b| == 32 * r
    ensures Stored(v, b, r, 0) && V(b, r, 0) == b
  {
  }

  lemma NextV(b: seq<word>, r: nat, i: nat)
    requires r >= 1 && |b| == 32 * r
    ensures V(b, r, i + 1) == BlockMix(V(b, r, i), r)
  {
  }

  lemma {:induction false} WalkStart(b: seq<word>, r: nat, n: nat, k: nat)
    requires r >= 1 && |b| == 32 * r && n == Pow(2, k) && k >= 1
    ensures Walk(b, r, n, 0) == V(b, r, n) && n % 2 == 0
  {
    hide V, BlockMix, Integerify, XorWords;
    EvenPower(k);
  }

  /** j <-- Integerify(X) mod N; Out <-- H(X xor V_j). */
  method WalkStep(n: nat, Vs: array<word>, X: array<word>, Out: array<word>, Z: array<word>, r: nat, ghost b: seq<word>, ghost i: nat, ghost k: nat)
    requires r >= 1 && n == Pow(2, k) && k <= 64 && |b| == 32 * r
    requires Vs.Length == n * (32 * r) && X.Length == 32 * r == Out.Length && Z.Length == 16
    requires Vs != X && Vs != Out && Vs != Z && X != Out && X != Z && Out != Z
    requires Stored(Vs[..], b, r, n) && X[..] == Walk(b, r, n, i)
    modifies X, Out, Z
    ensures Out[..] == Walk(b, r, n, i + 1)
  {
    hide BlockMix, XorWords, And, Integerify, V, Pow;
    ghost var x := X[..];
    IntegerifyMasked(x, r, k);
    var j := And(Integerify64(X[..], r), n - 1);
    assert Row(Vs[..], b, r, j);
    BlkXor(X, Vs, j * (32 * r));
    BlockMixInto(X, Out, Z, r);
  }

  /** smix(B, r, N, V, XY) computes scryptROMix in place. */
  method SmixInPlace(B: array<byte>, r: nat, n: nat, Vs: array<word>, X: array<word>, Y: array<word>, Z: array<word>, ghost k: nat)
    requires r >= 1 && n == Pow(2, k) && 1 <= k <= 63 && B.Length == 128 * r
    requires Vs.Length == n * (32 * r) && X.Length == 32 * r == Y.Length && Z.Length == 16
    requires Vs != X && Vs != Y && Vs != Z && X != Y && X != Z && Y != Z
    modifies B, Vs, X, Y, Z
    ensures B[..] == RoMix(old(B[..]), r, n)
  {
    hide Walk, V, Stored;
    ghost var b := LeWords(B[..]);
    DecodeWords(X, B);
    EvenPower(k);
    FillV(n, Vs, X, Y, Z, r, b);
    WalkAll(n, Vs, X, Y, Z, r, b, k);
    EncodeWords(B, X);
  }

  lemma {:induction false} EvenPower(k: nat)
    requires k >= 1
    ensures Pow(2, k) % 2 == 0
  {
    hide Pow;
    Doubled(k);
  }

  method DecodeWords(X: array<word>, B: array<byte>)
    requires B.Length == 4 * X.Length
    modifies X
    ensures X[..] == LeWords(B[..])
  {
    ghost var b := LeWords(B[..]);
    for i := 0 to X.Length
      invariant X[..i] == b[..i]
    {
      X[i] := Le32Dec(B[4 * i..4 * i + 4]);
      assert B[4 * i..4 * i + 4] == B[..][4 * i..4 * i + 4];
    }
  }

  method EncodeWords(B: array<byte>, X: array<word>)
    requires B.Length == 4 * X.Length
    modifies B
    ensures B[..] == LeBytes(X[..])
  {
    ghost var x := X[..];
    for i := 0 to X.Length
      invariant B[..4 * i] == LeBytes(x[..i])
    {
      var p := Le32Enc(X[i]);
      CopyInto(B, 4 * i, p);
      assert x[..i + 1][..i] == x[..i];
      assert B[..4 * (i + 1)] == B[..4 * i] + p;
    }
    assert x[..X.Length] == x && B[..4 * X.Length] == B[..];
  }

  /** The second loop, two steps a turn. */
  method WalkAll(n: nat, Vs: array<word>, X: array<word>, Y: array<word>, Z: array<word>, r: nat, ghost b: seq<word>, ghost k: nat)
    requires r >= 1 && n == Pow(2, k) && 1 <= k <= 64 && |b| == 32 * r
    requires Vs.Length == n * (32 * r) && X.Length == 32 * r == Y.Length && Z.Length == 16
    requires Vs != X && Vs != Y && Vs != Z && X != Y && X != Z && Y != Z
    requires Stored(Vs[..], b, r, n) && X[..] == V(b, r, n)
    modifies X, Y, Z
    ensures X[..] == Walk(b, r, n, n)
  {
    hide BlockMix, XorWords, Integerify, V, Stored, Walk, Pow;
    WalkStart(b, r, n, k);
    var i := 0;
    while i < n
      invariant 0 <= i <= n && i % 2 == 0
      invariant Stored(Vs[..], b, r, n)
      invariant X[..] == Walk(b, r, n, i)
    {
      WalkStep(n, Vs, X, Y, Z, r, b, i, k);
      WalkStep(n, Vs, Y, X, Z, r, b, i + 1, k);
      i := i + 2;
    }
  }
}
