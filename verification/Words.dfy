/**
  Octets, 32-bit words, and the four conversions between them that the hash code uses.
 */
module Words {
  import opened Arith

  type byte = bv8
  type word = bv32

  function Be32Dec(p: seq<byte>): word
    requires |p| == 4
  {
    (p[3] as word) + ((p[2] as word) << 8) + ((p[1] as word) << 16) + ((p[0] as word) << 24)
  }

  function Be32Enc(x: word): (p: seq<byte>)
    ensures |p| == 4 && Be32Dec(p) == x
  {
    [((x >> 24) & 0xff) as byte, ((x >> 16) & 0xff) as byte, ((x >> 8) & 0xff) as byte, (x & 0xff) as byte]
  }

  function Le32Dec(p: seq<byte>): word
    requires |p| == 4
  {
    (p[0] as word) + ((p[1] as word) << 8) + ((p[2] as word) << 16) + ((p[3] as word) << 24)
  }

  function Le32Enc(x: word): (p: seq<byte>)
    ensures |p| == 4 && Le32Dec(p) == x
  {
    [(x & 0xff) as byte, ((x >> 8) & 0xff) as byte, ((x >> 16) & 0xff) as byte, ((x >> 24) & 0xff) as byte]
  }

  /** Big-endian decoding of an octet vector, four octets a word. */
  function BeWords(p: seq<byte>): (ws: seq<word>)
    requires |p| % 4 == 0
    ensures 4 * |ws| == |p|
  {
    seq(|p| / 4, i requires 0 <= i < |p| / 4 => Be32Dec(p[4 * i..4 * i + 4]))
  }

  /** Big-endian encoding of a word vector. */
  function BeBytes(ws: seq<word>): (p: seq<byte>)
    ensures |p| == 4 * |ws|
  {
    if ws == [] then [] else BeBytes(ws[..|ws| - 1]) + Be32Enc(ws[|ws| - 1])
  }

  function LeWords(p: seq<byte>): (ws: seq<word>)
    requires |p| % 4 == 0
    ensures 4 * |ws| == |p|
  {
    seq(|p| / 4, i requires 0 <= i < |p| / 4 => Le32Dec(p[4 * i..4 * i + 4]))
  }

  function LeBytes(ws: seq<word>): (p: seq<byte>)
    ensures |p| == 4 * |ws|
  {
    if ws == [] then [] else LeBytes(ws[..|ws| - 1]) + Le32Enc(ws[|ws| - 1])
  }

  /** Octet-wise and word-wise exclusive or. */
  function XorBytes(a: seq<byte>, b: seq<byte>): (c: seq<byte>)
    requires |a| == |b|
    ensures |c| == |a|
  {
    seq(|a|, i requires 0 <= i < |a| => a[i] ^ b[i])
  }

  function XorWords(a: seq<word>, b: seq<word>): (c: seq<word>)
    requires |a| == |b|
    ensures |c| == |a|
  {
    seq(|a|, i requires 0 <= i < |a| => a[i] ^ b[i])
  }

  /** Addition modulo 2^32, on words and word-wise on vectors. */
  function Add(x: word, y: word): word { x + y }

  function AddWords(a: seq<word>, b: seq<word>): (c: seq<word>)
    requires |a| == |b|
    ensures |c| == |a|
  {
    seq(|a|, i requires 0 <= i < |a| => Add(a[i], b[i]))
  }

  /** An octet and the number below 256 it stands for. */
  function Octet(n: nat): byte
    requires n < 256
  {
    n as byte
  }

  function Value(b: byte): (n: nat)
    ensures n < 256
  {
    b as nat
  }

  lemma OctetValue(n: nat)
    requires n < 256
    ensures Value(Octet(n)) == n
  {
    OctetBits(n);
  }

  /** By sixteens, which the conversion axioms can take. */
  lemma OctetBits(n: nat)
    requires n < 256
    ensures (n as byte) as nat == n
  {
    if n < 128 {
      LowOctet(n);
    } else if n < 192 {
      if n < 160 { if n < 144 { } else { } } else { if n < 176 { } else { } }
    } else {
      if n < 224 { if n < 208 { } else { } } else { if n < 240 { } else { } }
    }
  }

  lemma LowOctet(n: nat)
    requires n < 128
    ensures (n as byte) as nat == n
  {
    if n < 64 {
      if n < 32 { if n < 16 { } else { } } else { if n < 48 { } else { } }
    } else {
      if n < 96 { if n < 80 { } else { } } else { if n < 112 { } else { } }
    }
  }

  lemma ValueOctet(b: byte)
    ensures Octet(Value(b)) == b
  {
  }

  /** The low k octets of n, most significant first. */
  function BeNat(n: nat, k: nat): (p: seq<byte>)
    ensures |p| == k
    decreases k, n
  {
    if k == 0 then [] else BeNat(n / 256, k - 1) + [Octet(n % 256)]
  }

  /** The low k octets of n, least significant first. */
  function LeNat(n: nat, k: nat): (p: seq<byte>)
    ensures |p| == k
    decreases k, n
  {
    if k == 0 then [] else [Octet(n % 256)] + LeNat(n / 256, k - 1)
  }

  /** The number a little-endian octet string stands for. */
  function LeNum(p: seq<byte>): nat
  {
    if p == [] then 0 else Value(p[0]) + 256 * LeNum(p[1..])
  }

  lemma {:induction false} LeNumOfNat(n: nat, k: nat)
    requires n < Pow(256, k)
    ensures LeNum(LeNat(n, k)) == n
    decreases k
  {
    hide Octet, Value;
    if k != 0 {
      OctetValue(n % 256);
      LeNumOfNat(n / 256, k - 1);
      assert LeNat(n, k)[1..] == LeNat(n / 256, k - 1);
    }
  }

  lemma {:induction false} LeNumBound(p: seq<byte>)
    ensures LeNum(p) < Pow(256, |p|)
  {
    hide Value;
    if p != [] {
      LeNumBound(p[1..]);
    }
  }

  lemma {:induction false} LeNatOfNum(p: seq<byte>)
    ensures LeNat(LeNum(p), |p|) == p
  {
    hide Octet, Value;
    if p != [] {
      LeNatOfNum(p[1..]);
      ValueOctet(p[0]);
      DivModUnique(LeNum(p), 256, LeNum(p[1..]), Value(p[0]));
      assert p == [p[0]] + p[1..];
    }
  }

  lemma Times256(x: nat, p: nat)
    ensures x * (256 * p) == 256 * (x * p)
  {
  }

  /** The last octet carries the highest weight. */
  lemma {:induction false} LeNumTop(p: seq<byte>)
    requires p != []
    ensures LeNum(p) == LeNum(p[..|p| - 1]) + Value(p[|p| - 1]) * Pow(256, |p| - 1)
  {
    hide Value;
    if |p| == 1 {
      assert p[1..] == [] && p[..0] == [];
    } else {
      var top, w := Value(p[|p| - 1]), Pow(256, |p| - 2);
      LeNumTop(p[1..]);
      assert p[..|p| - 1][1..] == p[1..][..|p| - 2];
      assert Pow(256, |p| - 1) == 256 * w;
      Times256(top, w);
    }
  }

  lemma NextPower(lo: nat, k: nat)
    requires k > 0 && lo < Pow(256, k)
    ensures Pow(256, k) == 256 * Pow(256, k - 1) && lo / 256 < Pow(256, k - 1)
  {
  }

  lemma HighAndLow(hi: nat, lo: nat, p: nat)
    ensures (hi * (256 * p) + lo) / 256 == hi * p + lo / 256 && (hi * (256 * p) + lo) % 256 == lo % 256
  {
    Times256(hi, p);
    DivModUnique(hi * (256 * p) + lo, 256, hi * p + lo / 256, lo % 256);
  }

  lemma BeNatStep(n: nat, k: nat)
    requires k > 0
    ensures BeNat(n, k) == BeNat(n / 256, k - 1) + [Octet(n % 256)]
  {
  }

  /** Splitting a number at an octet boundary splits its encoding. */
  lemma {:induction false} BeNatSplit(n: nat, hi: nat, lo: nat, j: nat, k: nat)
    requires n == hi * Pow(256, k) + lo && lo < Pow(256, k)
    ensures BeNat(n, j + k) == BeNat(hi, j) + BeNat(lo, k)
    decreases k
  {
    if k != 0 {
      hide Octet, BeNat, Pow;
      NextPower(lo, k);
      HighAndLow(hi, lo, Pow(256, k - 1));
      BeNatSplit(n / 256, hi, lo / 256, j, k - 1);
      BeNatStep(n, j + k);
      BeNatStep(lo, k);
      assert BeNat(hi, j) + (BeNat(lo / 256, k - 1) + [Octet(lo % 256)]) == BeNat(hi, j) + BeNat(lo / 256, k - 1) + [Octet(lo % 256)];
    }
  }

  function Zeros(n: nat): (z: seq<byte>)
    ensures |z| == n
  {
    seq(n, _ => 0)
  }
}
