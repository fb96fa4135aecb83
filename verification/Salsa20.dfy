/**
  The Salsa20/8 core of scrypt.c: thirty-two in-place updates per double round, and the
  block copy and exclusive-or primitives it shares with the mixing loops.
 */
module Salsa20 {
  import opened Seqs
  import opened Words
  import opened ScryptSpec
  import opened Sha256

  /** blkcpy(&dst[d], &src[s], 4 * n). */
  method BlkCpy(dst: array<word>, d: nat, src: array<word>, s: nat, n: nat)
    requires d + n <= dst.Length && s + n <= src.Length && dst != src
    modifies dst
    ensures dst[..] == Splice(old(dst[..]), d, src[s..s + n])
  {
    CopyInto(dst, d, src[s..s + n]);
  }

  /** blkxor(dst, &src[s], 4 * n) over the whole of dst. */
  method BlkXor(dst: array<word>, src: array<word>, s: nat)
    requires s + dst.Length <= src.Length && dst != src
    modifies dst
    ensures dst[..] == XorWords(old(dst[..]), src[s..s + dst.Length])
  {
    ghost var x := XorWords(dst[..], src[s..s + dst.Length]);
    for i := 0 to dst.Length
      invariant dst[..i] == x[..i]
      invariant dst[i..] == old(dst[i..])
    {
      assert x[i] == dst[i] ^ src[s + i];
      dst[i] := dst[i] ^ src[s + i];
    }
  }

  /** The quarter round of four entries, in place. */
  function QuarterAt(x: seq<word>, a: nat, b: nat, c: nat, d: nat): (y: seq<word>)
    requires |x| == 16 && a < 16 && b < 16 && c < 16 && d < 16
    ensures |y| == 16
  {
    Put(x, a, b, c, d, QuarterRound((x[a], x[b], x[c], x[d])))
  }

  function Put<T>(x: seq<T>, a: nat, b: nat, c: nat, d: nat, z: (T, T, T, T)): (y: seq<T>)
    requires |x| == 16 && a < 16 && b < 16 && c < 16 && d < 16
    ensures |y| == 16
  {
    x[a := z.0][b := z.1][c := z.2][d := z.3]
  }

  /** Four consecutive xor-assignments of the core, on the entries a, b, c, d. */
  method Quarter(x: array<word>, a: nat, b: nat, c: nat, d: nat)
    requires x.Length == 16 && a < 16 && b < 16 && c < 16 && d < 16
    requires a != b && a != c && a != d && b != c && b != d && c != d
    modifies x
    ensures x[..] == QuarterAt(old(x[..]), a, b, c, d)
  {
    hide Mixed;
    x[b] := Mixed(x[b], x[a], x[d], 7);
    x[c] := Mixed(x[c], x[b], x[a], 9);
    x[d] := Mixed(x[d], x[c], x[b], 13);
    x[a] := Mixed(x[a], x[d], x[c], 18);
  }

  /** Four columns written one after the other: what each reads is untouched by those before. */
  lemma PutColumns<T>(x: seq<T>, p: (T, T, T, T), q: (T, T, T, T), r: (T, T, T, T), s: (T, T, T, T))
    requires |x| == 16
    ensures
      var c0 := Put(x, 0, 4, 8, 12, p);
      var c1 := Put(c0, 5, 9, 13, 1, q);
      var c2 := Put(c1, 10, 14, 2, 6, r);
      && c0[5] == x[5] && c0[9] == x[9] && c0[13] == x[13] && c0[1] == x[1]
      && c1[10] == x[10] && c1[14] == x[14] && c1[2] == x[2] && c1[6] == x[6]
      && c2[15] == x[15] && c2[3] == x[3] && c2[7] == x[7] && c2[11] == x[11]
      && Put(c2, 15, 3, 7, 11, s)
         == [p.0, q.3, r.2, s.1, p.1, q.0, r.3, s.2, p.2, q.1, r.0, s.3, p.3, q.2, r.1, s.0]
  {
  }

  lemma PutRows<T>(x: seq<T>, p: (T, T, T, T), q: (T, T, T, T), r: (T, T, T, T), s: (T, T, T, T))
    requires |x| == 16
    ensures
      var r0 := Put(x, 0, 1, 2, 3, p);
      var r1 := Put(r0, 5, 6, 7, 4, q);
      var r2 := Put(r1, 10, 11, 8, 9, r);
      && r0[5] == x[5] && r0[6] == x[6] && r0[7] == x[7] && r0[4] == x[4]
      && r1[10] == x[10] && r1[11] == x[11] && r1[8] == x[8] && r1[9] == x[9]
      && r2[15] == x[15] && r2[12] == x[12] && r2[13] == x[13] && r2[14] == x[14]
      && Put(r2, 15, 12, 13, 14, s)
         == [p.0, p.1, p.2, p.3, q.3, q.0, q.1, q.2, r.2, r.3, r.0, r.1, s.1, s.2, s.3, s.0]
  {
  }

  /** The four column quarter rounds, one after the other, make a column round. */
  lemma Columns(x: seq<word>)
    requires |x| == 16
    ensures
      var c0 := QuarterAt(x, 0, 4, 8, 12);
      var c1 := QuarterAt(c0, 5, 9, 13, 1);
      var c2 := QuarterAt(c1, 10, 14, 2, 6);
      QuarterAt(c2, 15, 3, 7, 11) == ColumnRound(x)
  {
    hide QuarterRound, Put;
    PutColumns(x, QuarterRound((x[0], x[4], x[8], x[12])), QuarterRound((x[5], x[9], x[13], x[1])),
               QuarterRound((x[10], x[14], x[2], x[6])), QuarterRound((x[15], x[3], x[7], x[11])));
  }

  lemma Rows(x: seq<word>)
    requires |x| == 16
    ensures
      var r0 := QuarterAt(x, 0, 1, 2, 3);
      var r1 := QuarterAt(r0, 5, 6, 7, 4);
      var r2 := QuarterAt(r1, 10, 11, 8, 9);
      QuarterAt(r2, 15, 12, 13, 14) == RowRound(x)
  {
    hide QuarterRound, Put;
    PutRows(x, QuarterRound((x[0], x[1], x[2], x[3])), QuarterRound((x[5], x[6], x[7], x[4])),
            QuarterRound((x[10], x[11], x[8], x[9])), QuarterRound((x[15], x[12], x[13], x[14])));
  }

  method DoubleRound(x: array<word>)
    requires x.Length == 16
    modifies x
    ensures x[..] == RowRound(ColumnRound(old(x[..])))
  {
    hide QuarterAt, RowRound, ColumnRound;
    Columns(x[..]);
    Quarter(x, 0, 4, 8, 12);
    Quarter(x, 5, 9, 13, 1);
    Quarter(x, 10, 14, 2, 6);
    Quarter(x, 15, 3, 7, 11);
    Rows(x[..]);
    Quarter(x, 0, 1, 2, 3);
    Quarter(x, 5, 6, 7, 4);
    Quarter(x, 10, 11, 8, 9);
    Quarter(x, 15, 12, 13, 14);
  }

  /** salsa20_8. */
  method SalsaInPlace(b: array<word>)
    requires b.Length == 16
    modifies b
    ensures b[..] == Salsa(old(b[..]))
  {
    hide RowRound, ColumnRound, Add;
    ghost var b0 := b[..];
    var x := new word[16];
    BlkCpy(x, 0, b, 0, 16);
    assert x[..] == b0;
    for i := 0 to 4
      invariant x[..] == DoubleRounds(b0, i)
      invariant b[..] == b0
    {
      DoubleRound(x);
    }
    AddInto(b, x);
  }
}
