/** Overwriting a stretch of a sequence, and the block copy that does it to an array. */
module Seqs {

  /** s with t written over it from position at. */
  function Splice<T>(s: seq<T>, at: nat, t: seq<T>): (r: seq<T>)
    requires at + |t| <= |s|
    ensures |r| == |s|
  {
    s[..at] + t + s[at + |t|..]
  }

  /** memcpy(&dst[at], src, ...). */
  method CopyInto<T>(dst: array<T>, at: nat, src: seq<T>)
    requires at + |src| <= dst.Length
    modifies dst
    ensures dst[..] == Splice(old(dst[..]), at, src)
  {
    for i := 0 to |src|
      invariant forall k :: 0 <= k < dst.Length ==> dst[k] == if at <= k < at + i then src[k - at] else old(dst[k])
    {
      dst[at + i] := src[i];
    }
    ghost var r := Splice(old(dst[..]), at, src);
    assert forall k :: 0 <= k < dst.Length ==> r[k] == if at <= k < at + |src| then src[k - at] else old(dst[..])[k];
  }

  lemma FrontBack<T>(a: seq<T>, b: seq<T>)
    ensures (a + b)[..|a|] == a && (a + b)[|a|..] == b
  {
  }

  lemma SameSnoc<T>(a: seq<T>, b: seq<T>, n: nat)
    requires |a| == |b| == n + 1 && a[..n] == b[..n] && a[n] == b[n]
    ensures a == b
  {
    assert a == a[..n] + [a[n]] && b == b[..n] + [b[n]];
  }

  lemma Regroup<T>(a: seq<T>, b: seq<T>, c: seq<T>)
    ensures a + b + c == a + (b + c)
  {
  }

  /** A slice of a prefix and a prefix of a slice. */
  lemma SliceOfPrefix<T>(s: seq<T>, lim: nat, at: nat, n: nat, m: nat)
    requires at + n <= |s| && m <= n && at + m <= lim <= |s|
    ensures s[..lim][at..at + m] == s[at..at + n][..m]
  {
    var x, y := s[..lim][at..at + m], s[at..at + n][..m];
    assert forall k :: 0 <= k < m ==> x[k] == s[at + k] == y[k];
  }

  lemma SliceOfSuffix<T>(s: seq<T>, from: nat, at: nat, n: nat)
    requires from + at + n <= |s|
    ensures s[from..][at..at + n] == s[from + at..from + at + n]
  {
    var x, y := s[from..][at..at + n], s[from + at..from + at + n];
    assert forall k :: 0 <= k < n ==> x[k] == s[from + at + k] == y[k];
  }

  lemma SpliceAll<T>(s: seq<T>, t: seq<T>)
    requires |t| == |s|
    ensures Splice(s, 0, t) == t
  {
  }

  lemma SpliceNothing<T>(s: seq<T>, at: nat, t: seq<T>)
    requires at <= |s|
    ensures Splice(s, at, t[..0]) == s
  {
  }

  /** Copying the next stretch of a target extends the copied prefix. */
  lemma SpliceExtends<T>(s: seq<T>, all: seq<T>, at: nat, n: nat)
    requires at + n <= |all| <= |s|
    ensures Splice(Splice(s, 0, all[..at]), at, all[at..at + n]) == Splice(s, 0, all[..at + n])
  {
  }

  lemma SpliceAt<T>(s: seq<T>, at: nat, t: seq<T>)
    requires at + |t| <= |s|
    ensures Splice(s, at, t)[at..at + |t|] == t
  {
  }

  lemma SpliceBelow<T>(s: seq<T>, at: nat, t: seq<T>, lo: nat, hi: nat)
    requires at + |t| <= |s| && lo <= hi <= at
    ensures Splice(s, at, t)[lo..hi] == s[lo..hi]
  {
  }

  lemma SpliceAbove<T>(s: seq<T>, at: nat, t: seq<T>, lo: nat, hi: nat)
    requires at + |t| <= lo <= hi <= |s|
    ensures Splice(s, at, t)[lo..hi] == s[lo..hi]
  {
    var r := Splice(s, at, t);
    assert forall k :: lo <= k < hi ==> r[k] == s[k];
  }

  /** What lies in front of the stretch, and the stretch. */
  lemma SpliceUpTo<T>(s: seq<T>, at: nat, t: seq<T>, lo: nat)
    requires lo <= at && at + |t| <= |s|
    ensures Splice(s, at, t)[lo..at + |t|] == s[lo..at] + t
  {
    SpliceBelow(s, at, t, lo, at);
    SpliceAt(s, at, t);
    var r := Splice(s, at, t);
    assert r[lo..at + |t|] == r[lo..at] + r[at..at + |t|];
  }
}
