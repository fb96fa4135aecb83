/**
  The scrypt functions of RFC 7914 over little-endian words: the Salsa20/8 core
  (section 3), scryptBlockMix (section 4), scryptROMix (section 5) and scrypt (section 6).
 */
module ScryptSpec {
  import opened Words
  import opened Pbkdf2Spec

  // ------------------------------------------------- Salsa20/8 core, as its rounds

  function Rotl(x: word, n: bv6): word
    requires 0 < n < 32
  {
    (x << n) | (x >> (32 - n))
  }

  /** t xor ((u + v) <<< n). */
  function Mixed(t: word, u: word, v: word, n: bv6): word
    requires 0 < n < 32
  {
    t ^ Rotl(u + v, n)
  }

  function QuarterRound(y: (word, word, word, word)): (word, word, word, word)
  {
    var z1 := Mixed(y.1, y.0, y.3, 7);
    var z2 := Mixed(y.2, z1, y.0, 9);
    var z3 := Mixed(y.3, z2, z1, 13);
    var z0 := Mixed(y.0, z3, z2, 18);
    (z0, z1, z2, z3)
  }

  /** The quarter round of each row, every row starting at its diagonal entry. */
  function RowRound(y: seq<word>): (z: seq<word>)
    requires |y| == 16
    ensures |z| == 16
  {
    var a := QuarterRound((y[0], y[1], y[2], y[3]));
    var b := QuarterRound((y[5], y[6], y[7], y[4]));
    var c := QuarterRound((y[10], y[11], y[8], y[9]));
    var d := QuarterRound((y[15], y[12], y[13], y[14]));
    [a.0, a.1, a.2, a.3, b.3, b.0, b.1, b.2, c.2, c.3, c.0, c.1, d.1, d.2, d.3, d.0]
  }

  /** The same for the columns. */
  function ColumnRound(x: seq<word>): (y: seq<word>)
    requires |x| == 16
    ensures |y| == 16
  {
    var a := QuarterRound((x[0], x[4], x[8], x[12]));
    var b := QuarterRound((x[5], x[9], x[13], x[1]));
    var c := QuarterRound((x[10], x[14], x[2], x[6]));
    var d := QuarterRound((x[15], x[3], x[7], x[11]));
    [a.0, b.3, c.2, d.1, a.1, b.0, c.3, d.2, a.2, b.1, c.0, d.3, a.3, b.2, c.1, d.0]
  }

  function DoubleRounds(x: seq<word>, n: nat): (y: seq<word>)
    requires |x| == 16
    ensures |y| == 16
    decreases n, x
  {
    if n == 0 then x else RowRound(ColumnRound(DoubleRounds(x, n - 1)))
  }

  function Salsa(x: seq<word>): (y: seq<word>)
    requires |x| == 16
    ensures |y| == 16
  {
    AddWords(x, DoubleRounds(x, 4))
  }

  // --------------------------------------------------------------------- BlockMix

  /** The i-th 16-word block. */
  function Sub(b: seq<word>, i: nat): (s: seq<word>)
    requires 16 * (i + 1) <= |b|
    ensures |s| == 16
  {
    b[16 * i..16 * i + 16]
  }

  /** X after the first i of the 2r blocks. */
  function Chain(b: seq<word>, r: nat, i: nat): (x: seq<word>)
    requires r >= 1 && |b| == 32 * r && i <= 2 * r
    ensures |x| == 16
  {
    if i == 0 then Sub(b, 2 * r - 1) else Salsa(XorWords(Chain(b, r, i - 1), Sub(b, i - 1)))
  }

  /** Y_s, Y_{s+2}, ..., n of them. */
  function EverySecond(b: seq<word>, r: nat, s: nat, n: nat): (y: seq<word>)
    requires r >= 1 && |b| == 32 * r && s <= 1 && n <= r
    ensures |y| == 16 * n
  {
    if n == 0 then [] else EverySecond(b, r, s, n - 1) + Chain(b, r, 2 * (n - 1) + s + 1)
  }

  /** (Y_0, Y_2, ..., Y_{2r-2}, Y_1, Y_3, ..., Y_{2r-1}) with Y_i = X after block i. */
  function BlockMix(b: seq<word>, r: nat): (b': seq<word>)
    requires r >= 1 && |b| == 32 * r
    ensures |b'| == 32 * r
  {
    EverySecond(b, r, 0, r) + EverySecond(b, r, 1, r)
  }

  // ------------------------------------------------------------------------ ROMix

  /** V_i, the i-fold BlockMix of the input. */
  function V(b: seq<word>, r: nat, i: nat): (v: seq<word>)
    requires r >= 1 && |b| == 32 * r
    ensures |v| == 32 * r
    decreases i, b
  {
    if i == 0 then b else BlockMix(V(b, r, i - 1), r)
  }

  /** Words read as one little-endian integer. */
  function LeInt(ws: seq<word>): nat
  {
    if ws == [] then 0 else (ws[0] as nat) + 0x1_0000_0000 * LeInt(ws[1..])
  }

  /** The last block as a (512-bit) little-endian integer. */
  function Integerify(x: seq<word>, r: nat): nat
    requires r >= 1 && |x| == 32 * r
  {
    LeInt(Sub(x, 2 * r - 1))
  }

  /** X after i steps of the second loop. */
  function Walk(b: seq<word>, r: nat, n: nat, i: nat): (x: seq<word>)
    requires r >= 1 && |b| == 32 * r && n >= 1
    ensures |x| == 32 * r
    decreases i, n, b
  {
    if i == 0 then V(b, r, n) else
      var x := Walk(b, r, n, i - 1);
      BlockMix(XorWords(x, V(b, r, Integerify(x, r) % n)), r)
  }

  function RoMix(b: seq<byte>, r: nat, n: nat): (b': seq<byte>)
    requires r >= 1 && |b| == 128 * r && n >= 1
    ensures |b'| == 128 * r
  {
    assert |b| == 4 * (32 * r);
    LeBytes(Walk(LeWords(b), r, n, n))
  }

  // ----------------------------------------------------------------------- scrypt

  function RoMixEach(b: seq<byte>, r: nat, n: nat, p: nat): (b': seq<byte>)
    requires r >= 1 && |b| == 128 * r * p && n >= 1
    ensures |b'| == 128 * r * p
    decreases p, b
  {
    if p == 0 then [] else
      assert 128 * r * (p - 1) + 128 * r == 128 * r * p;
      RoMixEach(b[..128 * r * (p - 1)], r, n, p - 1) + RoMix(b[128 * r * (p - 1)..], r, n)
  }

  function Scrypt(password: seq<byte>, salt: seq<byte>, n: nat, r: nat, p: nat, dkLen: nat): (dk: seq<byte>)
    requires InRange(password, salt) && r >= 1 && n >= 1 && dkLen <= 32 * 0xffff_ffff
    requires 128 * r * p <= 32 * 0xffff_ffff
    ensures |dk| == dkLen
  {
    Pbkdf2(password, RoMixEach(Pbkdf2(password, salt, 1, 128 * r * p), r, n, p), 1, dkLen)
  }
}
