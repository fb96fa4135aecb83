/**
  HMAC-SHA-256 (section 2 of RFC 2104) and PBKDF2 with it (section 5.2 of RFC 8018).
 */
module Pbkdf2Spec {
  import opened Words
  import Sha256Spec

  /** SHA-256 is defined below this many octets. */
  const LIMIT: nat := 0x2000_0000_0000_0000

  function Filled(b: byte): (p: seq<byte>)
    ensures |p| == 64
  {
    seq(64, _ => b)
  }

  /** The key brought to the block length: hashed when longer, then zero-padded. */
  function BlockKey(key: seq<byte>): (k: seq<byte>)
    requires |key| < LIMIT
    ensures |k| == 64
  {
    var k := if |key| > 64 then Sha256Spec.Sha256(key) else key;
    k + Zeros(64 - |k|)
  }

  function Hmac(key: seq<byte>, text: seq<byte>): (d: seq<byte>)
    requires |key| < LIMIT && |text| < LIMIT - 64
    ensures |d| == 32
  {
    var inner := Sha256Spec.Sha256(XorBytes(Filled(0x36), BlockKey(key)) + text);
    Sha256Spec.Sha256(XorBytes(Filled(0x5c), BlockKey(key)) + inner)
  }

  predicate InRange(password: seq<byte>, salt: seq<byte>)
  {
    |password| < LIMIT && |salt| < LIMIT - 68
  }

  /** U_j of block i; U_1 = PRF(P, S || INT(i)) and U_j = PRF(P, U_{j-1}). */
  function U(password: seq<byte>, salt: seq<byte>, i: nat, j: nat): (u: seq<byte>)
    requires InRange(password, salt) && j >= 1
    ensures |u| == 32
    decreases j, i
  {
    if j == 1 then Hmac(password, salt + BeNat(i, 4)) else Hmac(password, U(password, salt, i, j - 1))
  }

  /** F(P, S, c, i) = U_1 xor ... xor U_c. */
  function F(password: seq<byte>, salt: seq<byte>, c: nat, i: nat): (t: seq<byte>)
    requires InRange(password, salt) && c >= 1
    ensures |t| == 32
    decreases c, i
  {
    if c == 1 then U(password, salt, i, 1)
    else XorBytes(F(password, salt, c - 1, i), U(password, salt, i, c))
  }

  /** T_1 || ... || T_n. */
  function Blocks(password: seq<byte>, salt: seq<byte>, c: nat, n: nat): (dk: seq<byte>)
    requires InRange(password, salt) && c >= 1
    ensures |dk| == 32 * n
    decreases n, c
  {
    if n == 0 then [] else Blocks(password, salt, c, n - 1) + F(password, salt, c, n)
  }

  /** The first dkLen octets of as many blocks as are needed. */
  function Pbkdf2(password: seq<byte>, salt: seq<byte>, c: nat, dkLen: nat): (dk: seq<byte>)
    requires InRange(password, salt) && c >= 1 && dkLen <= 32 * 0xffff_ffff
    ensures |dk| == dkLen
  {
    Blocks(password, salt, c, (dkLen + 31) / 32)[..dkLen]
  }
}
