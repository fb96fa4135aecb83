/**
  The identity encoding of read_qubic_log_service.py: a 32-octet digest as 56 base-26
  letters followed by a checksum of four.
 */
module QubicIdentity {
  import opened Arith
  import opened Seqs
  import opened Words
  import Wire

  /** n in base 26, least significant digit first, as k letters from base on. */
  function Letters(base: char, n: nat, k: nat): (s: string)
    requires base == 'a' || base == 'A'
    ensures |s| == k
  {
    if k == 0 then "" else [base + (n % 26) as char] + Letters(base, n / 26, k - 1)
  }

  predicate Lettered(base: char, s: string)
  {
    forall i :: 0 <= i < |s| ==> base as int <= s[i] as int < base as int + 26
  }

  function LettersValue(base: char, s: string): nat
    requires Lettered(base, s)
  {
    if s == "" then 0 else (s[0] as int - base as int) + 26 * LettersValue(base, s[1..])
  }

  lemma {:induction false} LettersRoundTrip(base: char, n: nat, k: nat)
    requires (base == 'a' || base == 'A') && n < Pow(26, k)
    ensures Lettered(base, Letters(base, n, k)) && LettersValue(base, Letters(base, n, k)) == n
    decreases k
  {
    if k != 0 {
      Quotient(n, Pow(26, k - 1));
      LettersRoundTrip(base, n / 26, k - 1);
      var s := Letters(base, n, k);
      assert s[1..] == Letters(base, n / 26, k - 1);
    }
  }

  lemma Quotient(n: nat, p: nat)
    requires n < 26 * p
    ensures n / 26 < p && n == n % 26 + 26 * (n / 26)
  {
  }

  /** A 64-bit number fits 14 letters, and the 18-bit checksum fits four. */
  lemma EnoughLetters()
    ensures Pow(256, 8) < Pow(26, 14) && 0x4_0000 < Pow(26, 4)
  {
    Wire.PowersOf256();
    assert Pow(26, 2) == 676 && Pow(26, 4) == 456_976 by { PowAdd(26, 2, 2); }
    PowAdd(26, 4, 4);
    PowAdd(26, 8, 4);
    PowAdd(26, 12, 2);
  }

  /** The eight octets of the i-th fragment. */
  function Fragment(digest: seq<byte>, i: nat): (f: seq<byte>)
    requires |digest| == 32 && i < 4
    ensures |f| == 8
  {
    digest[8 * i..8 * i + 8]
  }

  function Body(base: char, digest: seq<byte>, n: nat): (s: string)
    requires (base == 'a' || base == 'A') && |digest| == 32 && n <= 4
    ensures |s| == 14 * n
  {
    if n == 0 then "" else Body(base, digest, n - 1) + Letters(base, LeNum(Fragment(digest, n - 1)), 14)
  }

  /** The low 18 bits of the first three octets of the hash. */
  function Checksum(k12: seq<byte>): nat
  {
    LeNum(k12) % 0x4_0000
  }

  function Identity(base: char, digest: seq<byte>, k12: seq<byte>): (s: string)
    requires (base == 'a' || base == 'A') && |digest| == 32
    ensures |s| == 60
  {
    Body(base, digest, 4) + Letters(base, Checksum(k12), 4)
  }

  /** The 56 letters of the digest, read back. */
  function DecodeBody(base: char, s: string, n: nat): (digest: seq<byte>)
    requires Lettered(base, s) && |s| == 60 && n <= 4
    ensures |digest| == 8 * n
  {
    if n == 0 then [] else DecodeBody(base, s, n - 1) + LeNat(LettersValue(base, s[14 * (n - 1)..14 * n]), 8)
  }

  lemma {:induction false} BodyAt(base: char, digest: seq<byte>, n: nat)
    requires (base == 'a' || base == 'A') && |digest| == 32 && n <= 4
    ensures forall i :: 0 <= i < n ==> Body(base, digest, n)[14 * i..14 * i + 14] == Letters(base, LeNum(Fragment(digest, i)), 14)
  {
    hide Letters, LeNum, Fragment;
    if n != 0 {
      BodyAt(base, digest, n - 1);
      var t, last := Body(base, digest, n - 1), Letters(base, LeNum(Fragment(digest, n - 1)), 14);
      FrontBack(t, last);
      forall i | 0 <= i < n
        ensures (t + last)[14 * i..14 * i + 14] == Letters(base, LeNum(Fragment(digest, i)), 14)
      {
        if i < n - 1 {
          SliceOfPrefix(t + last, |t|, 14 * i, 14, 14);
          assert (t + last)[14 * i..14 * i + 14][..14] == (t + last)[14 * i..14 * i + 14];
        }
      }
    }
  }

  lemma FragmentLetters(base: char, digest: seq<byte>, i: nat)
    requires (base == 'a' || base == 'A') && |digest| == 32 && i < 4
    ensures
      var s := Letters(base, LeNum(Fragment(digest, i)), 14);
      Lettered(base, s) && LeNat(LettersValue(base, s), 8) == Fragment(digest, i)
  {
    hide Letters, LettersValue, LeNum, LeNat, Pow, Lettered;
    EnoughLetters();
    LeNumBound(Fragment(digest, i));
    LettersRoundTrip(base, LeNum(Fragment(digest, i)), 14);
    LeNatOfNum(Fragment(digest, i));
  }

  lemma LetteredSlices(base: char, s: string, t: string)
    requires |s| == 56 && Lettered(base, t)
    requires forall i :: 0 <= i < 4 ==> Lettered(base, s[14 * i..14 * i + 14])
    ensures Lettered(base, s + t)
  {
    forall k | 0 <= k < 56
      ensures base as int <= s[k] as int < base as int + 26
    {
      assert s[k] == s[14 * (k / 14)..14 * (k / 14) + 14][k % 14];
    }
  }

  lemma IdentityLettered(base: char, digest: seq<byte>, k12: seq<byte>)
    requires (base == 'a' || base == 'A') && |digest| == 32
    ensures Lettered(base, Identity(base, digest, k12))
    ensures LettersValue(base, Identity(base, digest, k12)[56..]) == Checksum(k12)
  {
    hide Letters, LettersValue, LeNum, LeNat, Pow, Lettered;
    var s := Body(base, digest, 4);
    BodyAt(base, digest, 4);
    forall i | 0 <= i < 4
      ensures Lettered(base, s[14 * i..14 * i + 14])
    {
      FragmentLetters(base, digest, i);
    }
    EnoughLetters();
    LettersRoundTrip(base, Checksum(k12), 4);
    LetteredSlices(base, s, Letters(base, Checksum(k12), 4));
    assert Identity(base, digest, k12)[56..] == Letters(base, Checksum(k12), 4);
  }

  lemma {:induction false} DecodesTo(base: char, digest: seq<byte>, s: string, n: nat)
    requires (base == 'a' || base == 'A') && |digest| == 32 && n <= 4 && Lettered(base, s) && |s| == 60
    requires forall i :: 0 <= i < 4 ==> s[14 * i..14 * i + 14] == Letters(base, LeNum(Fragment(digest, i)), 14)
    ensures DecodeBody(base, s, n) == digest[..8 * n]
  {
    hide Letters, LettersValue, LeNum, LeNat, Lettered, Fragment;
    if n != 0 {
      DecodesTo(base, digest, s, n - 1);
      FragmentLetters(base, digest, n - 1);
      assert 14 * (n - 1) + 14 == 14 * n;
      FragmentNext(digest, n - 1);
    }
  }

  lemma BodySlice(base: char, digest: seq<byte>, i: nat)
    requires (base == 'a' || base == 'A') && |digest| == 32 && i < 4
    ensures Body(base, digest, 4)[14 * i..14 * i + 14] == Letters(base, LeNum(Fragment(digest, i)), 14)
  {
    BodyAt(base, digest, 4);
  }

  lemma FragmentNext(digest: seq<byte>, i: nat)
    requires |digest| == 32 && i < 4
    ensures digest[..8 * (i + 1)] == digest[..8 * i] + Fragment(digest, i)
  {
  }

  /** Every digest is recovered from its identity, which is 60 letters long. */
  lemma IdentityRoundTrip(base: char, digest: seq<byte>, k12: seq<byte>)
    requires (base == 'a' || base == 'A') && |digest| == 32
    ensures Lettered(base, Identity(base, digest, k12))
    ensures DecodeBody(base, Identity(base, digest, k12), 4) == digest
  {
    hide Letters, LettersValue, LeNum, LeNat, Lettered, DecodeBody, Body;
    IdentityLettered(base, digest, k12);
    var s := Identity(base, digest, k12);
    assert s[..56] == Body(base, digest, 4);
    forall i | 0 <= i < 4
      ensures s[14 * i..14 * i + 14] == Letters(base, LeNum(Fragment(digest, i)), 14)
    {
      BodySlice(base, digest, i);
      SliceOfPrefix(s, 56, 14 * i, 14, 14);
    }
    DecodesTo(base, digest, s, 4);
    assert digest[..32] == digest;
  }

  /** Different digests have different identities, whatever their checksums. */
  lemma IdentityInjective(base: char, d: seq<byte>, c: seq<byte>, e: seq<byte>, k: seq<byte>)
    requires (base == 'a' || base == 'A') && |d| == 32 && |e| == 32
    requires Identity(base, d, c) == Identity(base, e, k)
    ensures d == e && Checksum(c) == Checksum(k)
  {
    hide Letters, LettersValue, LeNum, LeNat, Lettered, DecodeBody, Body, Identity, Checksum;
    IdentityRoundTrip(base, d, c);
    IdentityRoundTrip(base, e, k);
    IdentityLettered(base, d, c);
    IdentityLettered(base, e, k);
  }

  /** One fragment, digit by digit. */
  method AppendLetters(chars: string, base: char, n: nat, k: nat) returns (r: string)
    requires base == 'a' || base == 'A'
    ensures r == chars + Letters(base, n, k)
  {
    r := chars;
    var frag := n;
    for j := 0 to k
      invariant r + Letters(base, frag, k - j) == chars + Letters(base, n, k)
    {
      assert Letters(base, frag, k - j) == [base + (frag % 26) as char] + Letters(base, frag / 26, k - j - 1);
      r := r + [base + (frag % 26) as char];
      frag := frag / 26;
    }
  }

  method EncodeIdentity(digest: seq<byte>, lower: bool, k12: seq<byte> -> seq<byte>) returns (chars: string)
    requires |digest| == 32
    ensures chars == Identity(if lower then 'a' else 'A', digest, k12(digest))
  {
    var base := if lower then 'a' else 'A';
    chars := "";
    for i := 0 to 4
      invariant chars == Body(base, digest, i)
    {
      chars := AppendLetters(chars, base, LeNum(digest[i * 8..(i + 1) * 8]), 14);
    }
    chars := AppendLetters(chars, base, LeNum(k12(digest)) % 0x4_0000, 4);
  }
}
