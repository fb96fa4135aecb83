/**
  The HMAC and PBKDF2 code of scrypt.c: keyed inner and outer contexts, and one context
  already fed with the salt that is copied for every block of output.
 */
module Pbkdf2 {
  import opened Seqs
  import opened Words
  import opened Sha256
  import opened Pbkdf2Spec
  import Sha256Spec

  /** memset(pad, b, 64) followed by pad[i] ^= K[i]. */
  method PadKey(key: seq<byte>, b: byte) returns (pad: array<byte>)
    requires |key| <= 64
    ensures fresh(pad) && pad[..] == XorBytes(Filled(b), key + Zeros(64 - |key|))
  {
    pad := new byte[64](_ => b);
    for i := 0 to |key|
      invariant forall k :: 0 <= k < i ==> pad[k] == b ^ key[k]
      invariant forall k :: i <= k < 64 ==> pad[k] == b
    {
      pad[i] := pad[i] ^ key[i];
    }
    forall k | |key| <= k < 64 ensures pad[k] == b ^ 0 {
      XorZero(b);
    }
  }

  /** Starts a hash whose first block is the padded key. */
  method Start(ctx: Ctx, key: seq<byte>, b: byte)
    requires ctx.Valid() && |key| <= 64
    modifies ctx, ctx.state, ctx.buf
    ensures ctx.Absorbed(XorBytes(Filled(b), key + Zeros(64 - |key|)))
  {
    ctx.Init();
    var pad := PadKey(key, b);
    assert [] + pad[..] == pad[..];
    ctx.Update(pad[..], []);
  }

  lemma XorZero(b: byte)
    ensures b ^ 0 == b
  {
  }

  /** HMAC_SHA256_CTX. */
  class HmacCtx {
    const ictx: Ctx
    const octx: Ctx

    ghost predicate Valid()
      reads this, ictx, octx
    {
      && ictx.Valid() && octx.Valid()
      && ictx != octx && ictx.state != octx.state && ictx.buf != octx.buf
    }

    ghost function Repr(): set<object>
      reads this
    {
      {ictx, ictx.state, ictx.buf, octx, octx.state, octx.buf}
    }

    /** Ready to produce the code of text under key. */
    ghost predicate Keyed(key: seq<byte>, text: seq<byte>)
      requires |key| < LIMIT
      reads this, Repr()
    {
      && Valid()
      && ictx.Absorbed(XorBytes(Filled(0x36), BlockKey(key)) + text)
      && octx.Absorbed(XorBytes(Filled(0x5c), BlockKey(key)))
    }

    constructor ()
      ensures Valid() && fresh(Repr())
    {
      ictx := new Ctx();
      octx := new Ctx();
    }

    method Init(key: seq<byte>)
      requires Valid() && |key| < LIMIT
      modifies Repr()
      ensures Keyed(key, [])
    {
      hide XorBytes, Filled, Zeros, Sha256Spec.Sha256, Sha256Spec.Absorb;
      var k := key;
      assert [] + k == k;
      if |k| > 64 {
        ictx.Init();
        ictx.Update(k, []);
        k := ictx.Final(k);
      }
      assert k + Zeros(64 - |k|) == BlockKey(key);
      Start(ictx, k, 0x36);
      Start(octx, k, 0x5c);
      assert XorBytes(Filled(0x36), BlockKey(key)) + [] == XorBytes(Filled(0x36), BlockKey(key));
    }

    method Update(data: seq<byte>, ghost key: seq<byte>, ghost text: seq<byte>)
      requires |key| < LIMIT && Keyed(key, text) && |data| < LIMIT
      modifies Repr()
      ensures Keyed(key, text + data)
    {
      hide XorBytes, Filled, BlockKey, Sha256Spec.Absorb;
      ghost var ipad := XorBytes(Filled(0x36), BlockKey(key));
      ictx.Update(data, ipad + text);
      assert ipad + text + data == ipad + (text + data);
    }

    method Final(ghost key: seq<byte>, ghost text: seq<byte>) returns (digest: seq<byte>)
      requires |key| < LIMIT && |text| < LIMIT - 64 && Keyed(key, text)
      modifies Repr()
      ensures Valid()
      ensures digest == Hmac(key, text)
    {
      var ihash := ictx.Final(XorBytes(Filled(0x36), BlockKey(key)) + text);
      ghost var opad := XorBytes(Filled(0x5c), BlockKey(key));
      octx.Update(ihash, opad);
      digest := octx.Final(opad + ihash);
    }

    method CopyFrom(other: HmacCtx, ghost key: seq<byte>, ghost text: seq<byte>)
      requires |key| < LIMIT && Valid() && other.Keyed(key, text)
      requires Repr() !! other.Repr()
      modifies Repr()
      ensures Keyed(key, text)
    {
      hide XorBytes, Filled, BlockKey, Sha256Spec.Absorb;
      ictx.CopyFrom(other.ictx, XorBytes(Filled(0x36), BlockKey(key)) + text);
      octx.CopyFrom(other.octx, XorBytes(Filled(0x5c), BlockKey(key)));
    }
  }

  /** dst[k] ^= src[k] for every k. */
  method XorInto(dst: array<byte>, src: seq<byte>)
    requires dst.Length == |src|
    modifies dst
    ensures dst[..] == XorBytes(old(dst[..]), src)
  {
    for i := 0 to dst.Length
      invariant forall k :: 0 <= k < i ==> dst[k] == old(dst[k]) ^ src[k]
      invariant forall k :: i <= k < dst.Length ==> dst[k] == old(dst[k])
    {
      dst[i] := dst[i] ^ src[i];
    }
  }

  /** U_1 from the context that has already taken password and salt, which stays as it is. */
  method FirstU(PShctx: HmacCtx, ghost password: seq<byte>, ghost salt: seq<byte>, i: nat) returns (u: seq<byte>)
    requires InRange(password, salt) && PShctx.Keyed(password, salt)
    ensures u == U(password, salt, i, 1)
  {
    hide Hmac, XorBytes, Filled, BlockKey, Sha256Spec.Absorb, BeNat;
    var hctx := new HmacCtx();
    hctx.CopyFrom(PShctx, password, salt);
    var ivec := BeNat(i, 4);
    hctx.Update(ivec, password, salt);
    u := hctx.Final(password, salt + ivec);
  }

  method NextU(password: seq<byte>, u: seq<byte>) returns (u': seq<byte>)
    requires |password| < LIMIT && |u| == 32
    ensures u' == Hmac(password, u)
  {
    hide Hmac;
    var hctx := new HmacCtx();
    hctx.Init(password);
    hctx.Update(u, password, []);
    assert [] + u == u;
    u' := hctx.Final(password, u);
  }

  /** T_i. */
  method Block(PShctx: HmacCtx, password: seq<byte>, ghost salt: seq<byte>, c: nat, i: nat) returns (t: seq<byte>)
    requires InRange(password, salt) && c >= 1
    requires PShctx.Keyed(password, salt)
    ensures t == F(password, salt, c, i)
  {
    hide Hmac, XorBytes, Filled, BlockKey, Sha256Spec.Absorb, BeNat;
    var u := FirstU(PShctx, password, salt, i);
    var T := new byte[32](k requires 0 <= k < 32 => u[k]);
    assert T[..] == u;
    var j := 2;
    while j <= c
      invariant 2 <= j <= c + 1
      invariant u == U(password, salt, i, j - 1)
      invariant T[..] == F(password, salt, j - 1, i)
    {
      u := NextU(password, u);
      XorInto(T, u);
      j := j + 1;
    }
    t := T[..];
  }

  function Min(a: nat, b: nat): nat { if a < b then a else b }

  /** PBKDF2_SHA256 writes the first dkLen octets of buf and nothing else. */
  method Derive(password: seq<byte>, salt: seq<byte>, c: nat, buf: array<byte>, dkLen: nat)
    requires InRange(password, salt) && c >= 1
    requires dkLen <= buf.Length && dkLen <= 32 * 0xffff_ffff
    modifies buf
    ensures buf[..] == Splice(old(buf[..]), 0, Pbkdf2(password, salt, c, dkLen))
  {
    hide Pbkdf2, XorBytes, Filled, BlockKey, Sha256Spec.Absorb;
    var PShctx := new HmacCtx();
    PShctx.Init(password);
    PShctx.Update(salt, password, []);
    assert [] + salt == salt;
    DeriveBlocks(PShctx, password, salt, c, buf, dkLen);
  }

  method DeriveBlocks(PShctx: HmacCtx, password: seq<byte>, ghost salt: seq<byte>, c: nat, buf: array<byte>, dkLen: nat)
    requires InRange(password, salt) && c >= 1
    requires dkLen <= buf.Length && dkLen <= 32 * 0xffff_ffff
    requires PShctx.Keyed(password, salt) && buf !in PShctx.Repr()
    modifies buf
    ensures buf[..] == Splice(old(buf[..]), 0, Pbkdf2(password, salt, c, dkLen))
  {
    hide Pbkdf2, F, XorBytes, Filled, BlockKey, Sha256Spec.Absorb, Splice;
    ghost var all := Pbkdf2(password, salt, c, dkLen);
    var i := 0;
    assert Splice(buf[..], 0, all[..0]) == buf[..] by {
      SpliceNothing(buf[..], 0, all);
    }
    while i * 32 < dkLen
      invariant 0 <= i <= (dkLen + 31) / 32
      invariant PShctx.Keyed(password, salt)
      invariant buf[..] == Splice(old(buf[..]), 0, all[..Min(i * 32, dkLen)])
    {
      var t := Block(PShctx, password, salt, c, (i + 1) % 0x1_0000_0000);
      var clen := Min(dkLen - i * 32, 32);
      OutputSlice(password, salt, c, dkLen, i);
      SpliceExtends(old(buf[..]), all, i * 32, clen);
      CopyInto(buf, i * 32, t[..clen]);
      i := i + 1;
    }
    assert all[..dkLen] == all;
  }

  lemma OutputSlice(password: seq<byte>, salt: seq<byte>, c: nat, dkLen: nat, i: nat)
    requires InRange(password, salt) && c >= 1 && dkLen <= 32 * 0xffff_ffff && 32 * i < dkLen
    ensures i + 1 < 0x1_0000_0000
    ensures Pbkdf2(password, salt, c, dkLen)[32 * i..32 * i + Min(dkLen - i * 32, 32)]
            == F(password, salt, c, i + 1)[..Min(dkLen - i * 32, 32)]
  {
    hide F, Blocks;
    var n := (dkLen + 31) / 32;
    BlockAt(password, salt, c, n, i);
    var b, m := Blocks(password, salt, c, n), Min(dkLen - i * 32, 32);
    SliceOfPrefix(b, dkLen, 32 * i, 32, m);
  }

  /** The i-th block sits at octet 32 * i of the concatenation. */
  lemma {:induction false} BlockAt(password: seq<byte>, salt: seq<byte>, c: nat, n: nat, i: nat)
    requires InRange(password, salt) && c >= 1 && i < n
    ensures Blocks(password, salt, c, n)[32 * i..32 * i + 32] == F(password, salt, c, i + 1)
  {
    hide F;
    if i < n - 1 {
      BlockAt(password, salt, c, n - 1, i);
      assert Blocks(password, salt, c, n)[32 * i..32 * i + 32] == Blocks(password, salt, c, n - 1)[32 * i..32 * i + 32];
    }
  }
}
