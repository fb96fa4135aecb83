/**
  SHA-256 as FIPS 180-4 defines it: the functions of section 4.1.2, the padding of
  section 5.1.1, the initial value of section 5.3.3 and the hash computation of
  section 6.2.2 with its eight shifting working variables.
 */
module Sha256Spec {
  import opened Words

  function Rotr(x: word, n: bv6): word
    requires 0 < n < 32
  {
    (x >> n) | (x << (32 - n))
  }

  function Ch(x: word, y: word, z: word): word { (x & y) ^ (!x & z) }
  function Maj(x: word, y: word, z: word): word { (x & y) ^ (x & z) ^ (y & z) }
  function BigSigma0(x: word): word { Rotr(x, 2) ^ Rotr(x, 13) ^ Rotr(x, 22) }
  function BigSigma1(x: word): word { Rotr(x, 6) ^ Rotr(x, 11) ^ Rotr(x, 25) }
  function SmallSigma0(x: word): word { Rotr(x, 7) ^ Rotr(x, 18) ^ (x >> 3) }
  function SmallSigma1(x: word): word { Rotr(x, 17) ^ Rotr(x, 19) ^ (x >> 10) }

  function Sum4(a: word, b: word, c: word, d: word): word { a + b + c + d }
  function Sum5(a: word, b: word, c: word, d: word, e: word): word { a + b + c + d + e }

  const K: seq<word> := [
    0x428a2f98, 0x71374491, 0xb5c0fbcf, 0xe9b5dba5, 0x3956c25b, 0x59f111f1, 0x923f82a4, 0xab1c5ed5,
    0xd807aa98, 0x12835b01, 0x243185be, 0x550c7dc3, 0x72be5d74, 0x80deb1fe, 0x9bdc06a7, 0xc19bf174,
    0xe49b69c1, 0xefbe4786, 0x0fc19dc6, 0x240ca1cc, 0x2de92c6f, 0x4a7484aa, 0x5cb0a9dc, 0x76f988da,
    0x983e5152, 0xa831c66d, 0xb00327c8, 0xbf597fc7, 0xc6e00bf3, 0xd5a79147, 0x06ca6351, 0x14292967,
    0x27b70a85, 0x2e1b2138, 0x4d2c6dfc, 0x53380d13, 0x650a7354, 0x766a0abb, 0x81c2c92e, 0x92722c85,
    0xa2bfe8a1, 0xa81a664b, 0xc24b8b70, 0xc76c51a3, 0xd192e819, 0xd6990624, 0xf40e3585, 0x106aa070,
    0x19a4c116, 0x1e376c08, 0x2748774c, 0x34b0bcb5, 0x391c0cb3, 0x4ed8aa4a, 0x5b9cca4f, 0x682e6ff3,
    0x748f82ee, 0x78a5636f, 0x84c87814, 0x8cc70208, 0x90befffa, 0xa4506ceb, 0xbef9a3f7, 0xc67178f2]

  const IV: seq<word> := [
    0x6A09E667, 0xBB67AE85, 0x3C6EF372, 0xA54FF53A, 0x510E527F, 0x9B05688C, 0x1F83D9AB, 0x5BE0CD19]

  /** The first n words of the message schedule of a block given as sixteen words. */
  function Schedule(m: seq<word>, n: nat): (w: seq<word>)
    requires |m| == 16 <= n
    ensures |w| == n
    decreases n, m
  {
    if n == 16 then m else
      var w := Schedule(m, n - 1);
      w + [Sum4(SmallSigma1(w[n - 3]), w[n - 8], SmallSigma0(w[n - 16]), w[n - 17])]
  }

  /** One round on the working variables [a, b, c, d, e, f, g, h]. */
  function Round(v: seq<word>, k: word, w: word): (v': seq<word>)
    requires |v| == 8
    ensures |v'| == 8
  {
    var t1 := Sum5(v[7], BigSigma1(v[4]), Ch(v[4], v[5], v[6]), k, w);
    var t2 := Add(BigSigma0(v[0]), Maj(v[0], v[1], v[2]));
    [Add(t1, t2), v[0], v[1], v[2], Add(v[3], t1), v[4], v[5], v[6]]
  }

  /** As many rounds as w has words, starting from h. */
  function Rounds(h: seq<word>, w: seq<word>): (v: seq<word>)
    requires |h| == 8 && |w| <= 64
    ensures |v| == 8
  {
    if w == [] then h else
      var t := |w| - 1;
      Round(Rounds(h, w[..t]), K[t], w[t])
  }

  function Compress(h: seq<word>, block: seq<byte>): (h': seq<word>)
    requires |h| == 8 && |block| == 64
    ensures |h'| == 8
  {
    AddWords(h, Rounds(h, Schedule(BeWords(block), 64)))
  }

  /** The hash value after the first n blocks of m, starting from h. */
  function Absorb(h: seq<word>, m: seq<byte>, n: nat): (h': seq<word>)
    requires |h| == 8 && 64 * n <= |m|
    ensures |h'| == 8
    decreases n
  {
    if n == 0 then h else Compress(Absorb(h, m, n - 1), m[64 * (n - 1)..64 * n])
  }

  /** The number of zero octets between the 0x80 octet and the length field. */
  function PadZeros(len: nat): (k: nat)
    ensures k < 64 && (len + 1 + k) % 64 == 56
  {
    (119 - len % 64) % 64
  }

  lemma EightMore(n: nat)
    requires n % 64 == 56
    ensures (n + 8) % 64 == 0
  {
  }

  function Pad(m: seq<byte>): (p: seq<byte>)
    ensures |p| == |m| + 9 + PadZeros(|m|) && |p| % 64 == 0
  {
    var k := PadZeros(|m|);
    EightMore(|m| + 1 + k);
    m + [0x80] + Zeros(k) + BeNat(8 * |m|, 8)
  }

  /** FIPS 180-4 defines the digest of messages shorter than 2^64 bits. */
  function Sha256(m: seq<byte>): (d: seq<byte>)
    requires |m| < 0x2000_0000_0000_0000
    ensures |d| == 32
  {
    BeBytes(Absorb(IV, Pad(m), |Pad(m)| / 64))
  }
}
