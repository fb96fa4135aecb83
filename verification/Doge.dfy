/**
  Share validation: the fixed-parameter scrypt of scrypt.c, the Merkle fold over the
  coinbase branch, and the comparison of the hash with the target (doge_service.cpp).
 */
module Doge {
  import opened Arith
  import opened Words
  import opened Pbkdf2Spec
  import opened ScryptSpec
  import opened Smix
  import DogePayload
  import Merkle
  import Pbkdf2
  import Sha256
  import Sha256Spec

  /** scrypt_1024_1_1_256 is scrypt of RFC 7914 with the input as password and as salt. */
  method Scrypt1024(input: seq<byte>) returns (output: seq<byte>)
    requires |input| == 80
    ensures output == Scrypt(input, input, 1024, 1, 1, 32)
  {
    hide Pbkdf2Spec.Pbkdf2, RoMix;
    var r, n := 1, 1024;
    var B := new byte[128];
    var X, Y, Z := new word[32 * r], new word[32 * r], new word[16];
    var Vs := new word[n * (32 * r)];
    assert Pow(2, 10) == 1024;
    Pbkdf2.Derive(input, input, 1, B, 128);
    ghost var b := B[..];
    assert b == Pbkdf2Spec.Pbkdf2(input, input, 1, 128);
    SmixInPlace(B, r, n, Vs, X, Y, Z, 10);
    assert RoMixEach(b, 1, 1024, 1) == B[..] by {
      assert b[..0] == [] && b[0..] == b;
      assert RoMixEach(b[..0], 1, 1024, 0) == [];
    }
    var out := new byte[32];
    Pbkdf2.Derive(input, B[..], 1, out, 32);
    output := out[..];
  }

  // -------------------------------------------------------------------- Merkle root

  function DoubleSha(m: seq<byte>): (d: seq<byte>)
    requires |m| < LIMIT
    ensures |d| == 32
  {
    Sha256Spec.Sha256(Sha256Spec.Sha256(m))
  }

  /** The parent of two nodes; nodes too long for SHA-256 do not occur. */
  function Parent(a: seq<byte>, b: seq<byte>): seq<byte>
  {
    if |a| + |b| < LIMIT then DoubleSha(a + b) else []
  }

  /** One round on a context that may have been used before. */
  method HashOnce(ctx: Sha256.Ctx, m: seq<byte>) returns (d: seq<byte>)
    requires ctx.Valid() && |m| < LIMIT
    modifies ctx, ctx.state, ctx.buf
    ensures ctx.Valid() && d == Sha256Spec.Sha256(m)
  {
    hide Sha256Spec.Sha256;
    ctx.Init();
    ctx.Update(m, []);
    assert [] + m == m;
    d := ctx.Final(m);
  }

  /** doubleSHA256: both rounds on one context. */
  method HashTwice(m: seq<byte>) returns (d: seq<byte>)
    requires |m| < LIMIT
    ensures d == DoubleSha(m)
  {
    var ctx := new Sha256.Ctx();
    d := HashOnce(ctx, m);
    d := HashOnce(ctx, d);
  }

  /** calculateMerkleRoot folds the hash of the assembled coinbase with the branch. */
  method CalculateMerkleRoot(coinbase1: seq<byte>, coinbase2: seq<byte>, extraNonce1: seq<byte>,
                             extraNonce2: seq<byte>, branches: seq<seq<byte>>) returns (root: seq<byte>)
    requires |coinbase1| + |extraNonce1| + |extraNonce2| + |coinbase2| < LIMIT
    requires forall b :: b in branches ==> |b| < LIMIT - 32
    ensures |root| == 32
    ensures root == Merkle.Fold(Parent, DoubleSha(coinbase1 + extraNonce1 + extraNonce2 + coinbase2), branches)
  {
    hide DoubleSha;
    var coinbase := coinbase1 + extraNonce1 + extraNonce2 + coinbase2;
    root := HashTwice(coinbase);
    ghost var leaf := root;
    for i := 0 to |branches|
      invariant |root| == 32
      invariant root == Merkle.Fold(Parent, leaf, branches[..i])
    {
      Merkle.FoldSnoc(Parent, leaf, branches[..i], branches[i]);
      assert branches[..i] + [branches[i]] == branches[..i + 1];
      assert branches[i] in branches;
      root := HashTwice(root + branches[i]);
    }
    assert branches[..|branches|] == branches;
  }

  // ------------------------------------------------------------------------ target

  /** verifyHashVsTarget compares the two as little-endian numbers. */
  method VerifyHashVsTarget(hash: seq<byte>, target: seq<byte>) returns (ok: bool)
    requires |hash| == 32 == |target|
    ensures ok <==> LeNum(hash) <= LeNum(target)
  {
    assert hash[..32] == hash && target[..32] == target;
    var i := 31;
    while i >= 0
      invariant -1 <= i <= 31
      invariant LeNum(hash) <= LeNum(target) <==> LeNum(hash[..i + 1]) <= LeNum(target[..i + 1])
    {
      TopDecides(hash[..i + 1], target[..i + 1]);
      assert hash[..i + 1][..i] == hash[..i] && target[..i + 1][..i] == target[..i];
      if Value(hash[i]) < Value(target[i]) {
        return true;
      }
      if Value(hash[i]) > Value(target[i]) {
        return false;
      }
      i := i - 1;
    }
    return true;
  }

  lemma TopDecides(a: seq<byte>, b: seq<byte>)
    requires |a| == |b| > 0
    ensures
      var (x, y) := (Value(a[|a| - 1]), Value(b[|b| - 1]));
      && (x < y ==> LeNum(a) < LeNum(b))
      && (x > y ==> LeNum(a) > LeNum(b))
      && (x == y ==> (LeNum(a) <= LeNum(b) <==> LeNum(a[..|a| - 1]) <= LeNum(b[..|b| - 1])))
  {
    hide Value, Pow, LeNum;
    var n := |a| - 1;
    var x, y, p := Value(a[n]), Value(b[n]), Pow(256, n);
    LeNumTop(a);
    LeNumTop(b);
    LeNumBound(a[..n]);
    LeNumBound(b[..n]);
    if x < y {
      Gap(x, y, p);
    } else if y < x {
      Gap(y, x, p);
    }
  }

  lemma Gap(x: nat, y: nat, p: nat)
    requires x < y
    ensures x * p + p <= y * p
  {
    RowBound(x, y, p);
  }

  /** The six header fields in order. */
  function Header(version: seq<byte>, prevHash: seq<byte>, root: seq<byte>, time: seq<byte>, nBits: seq<byte>, nonce: seq<byte>): seq<byte>
  {
    version + prevHash + root + time + nBits + nonce
  }

  /**
    A share is valid exactly when scrypt of the header, read as a little-endian number,
    is at most the target; the header commits to the coinbase through the branch.
   */
  method ValidateShare(version: seq<byte>, prevHash: seq<byte>, time: seq<byte>, nBits: seq<byte>, nonce: seq<byte>,
                       coinbase1: seq<byte>, coinbase2: seq<byte>, extraNonce1: seq<byte>, extraNonce2: seq<byte>,
                       branches: seq<seq<byte>>, target: seq<byte>) returns (valid: bool)
    requires |version| == |time| == |nBits| == |nonce| == 4 && |prevHash| == 32 == |target|
    requires |coinbase1| + |extraNonce1| + |extraNonce2| + |coinbase2| < LIMIT
    requires forall b :: b in branches ==> |b| < LIMIT - 32
    ensures
      var leaf := DoubleSha(coinbase1 + extraNonce1 + extraNonce2 + coinbase2);
      var header := Header(version, prevHash, Merkle.Fold(Parent, leaf, branches), time, nBits, nonce);
      && |header| == 80
      && (valid <==> LeNum(Scrypt(header, header, 1024, 1, 1, 32)) <= LeNum(target))
  {
    hide LeNum, DoubleSha, Scrypt;
    var root := CalculateMerkleRoot(coinbase1, coinbase2, extraNonce1, extraNonce2, branches);
    var header := Header(version, prevHash, root, time, nBits, nonce);
    var hash := Scrypt1024(header);
    valid := VerifyHashVsTarget(hash, target);
  }

  /** processInterfaceQuery: refused, a read outside the buffer, or a verdict. */
  datatype Verdict = Refused | Outside | Checked(valid: bool)

  /**
    A query is checked exactly when its parts fit the buffer, and then the share is valid
    exactly when the hash of the header built from those parts is at most the target.
   */
  method ProcessInterfaceQuery(version: seq<byte>, prevHash: seq<byte>, time: seq<byte>, nBits: seq<byte>, nonce: seq<byte>,
                               extraNonce2: seq<byte>, target: seq<byte>, counts: DogePayload.Counts, data: seq<byte>)
    returns (v: Verdict)
    requires |version| == |time| == |nBits| == |nonce| == 4 && |prevHash| == 32 == |target| && |extraNonce2| == 8
    requires |data| < DogePayload.WORD
    ensures v.Refused? <==> DogePayload.Refused(counts, data)
    ensures v.Checked? <==> DogePayload.Fits(counts, data)
    ensures v.Checked? ==>
      var p := DogePayload.PartsOf(counts, data);
      |p.coinbase1| + |p.extraNonce1| + |p.coinbase2| < LIMIT - 8 &&
      var leaf := DoubleSha(p.coinbase1 + p.extraNonce1 + extraNonce2 + p.coinbase2);
      var header := Header(version, prevHash, Merkle.Fold(Parent, leaf, p.branches), time, nBits, nonce);
      |header| == 80 && (v.valid <==> LeNum(Scrypt(header, header, 1024, 1, 1, 32)) <= LeNum(target))
  {
    hide LeNum, DoubleSha, Scrypt, Header, DogePayload.Refused, DogePayload.Fits, DogePayload.PartsOf;
    var r := DogePayload.Unpack(counts, data);
    if r.Rejected? {
      return Refused;
    }
    if r.Outside? {
      return Outside;
    }
    var p := r.parts;
    DogePayload.PartsBounded(counts, data);
    var valid := ValidateShare(version, prevHash, time, nBits, nonce, p.coinbase1, p.coinbase2, p.extraNonce1, extraNonce2, p.branches, target);
    return Checked(valid);
  }

  /** The root the service computes is that of the block whose first transaction is this coinbase. */
  lemma RootOfBlock(coinbase: seq<byte>, other: seq<byte>, rest: seq<seq<byte>>)
    requires |coinbase| < LIMIT
    ensures Merkle.Fold(Parent, DoubleSha(coinbase), Merkle.LeftBranch(Parent, [other] + rest))
            == Merkle.Root(Parent, [DoubleSha(coinbase)] + rest)
  {
    Merkle.BranchServesEveryFirst(Parent, other, DoubleSha(coinbase), rest);
  }
}
