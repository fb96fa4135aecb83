/**
  Merkle trees built level by level from a list of leaves, the last node of an odd level
  being paired with itself, over an arbitrary two-argument hash; and the branch a miner is
  given for the first leaf.
 */
module Merkle {

  /** The parents of one level. */
  function Parents<T>(h: (T, T) -> T, xs: seq<T>): (ps: seq<T>)
    ensures |ps| == (|xs| + 1) / 2
  {
    if xs == [] then []
    else if |xs| == 1 then [h(xs[0], xs[0])]
    else [h(xs[0], xs[1])] + Parents(h, xs[2..])
  }

  function Root<T>(h: (T, T) -> T, leaves: seq<T>): T
    requires leaves != []
    decreases |leaves|
  {
    if |leaves| == 1 then leaves[0] else Root(h, Parents(h, leaves))
  }

  /** The sibling of the leftmost node of every level below the root, leaves first. */
  function LeftBranch<T>(h: (T, T) -> T, leaves: seq<T>): seq<T>
    requires leaves != []
    decreases |leaves|
  {
    if |leaves| == 1 then [] else [leaves[1]] + LeftBranch(h, Parents(h, leaves))
  }

  /** Hashing a value with each sibling in turn, always on the left. */
  function Fold<T>(h: (T, T) -> T, x: T, branch: seq<T>): T
    decreases |branch|
  {
    if branch == [] then x else Fold(h, h(x, branch[0]), branch[1..])
  }

  /** Folding the first leaf with its branch gives the root of the whole tree. */
  lemma {:induction false} FoldIsRoot<T>(h: (T, T) -> T, leaves: seq<T>)
    requires leaves != []
    ensures Fold(h, leaves[0], LeftBranch(h, leaves)) == Root(h, leaves)
    decreases |leaves|
  {
    if |leaves| > 1 {
      var branch := LeftBranch(h, leaves);
      assert branch[0] == leaves[1] && branch[1..] == LeftBranch(h, Parents(h, leaves));
      FoldIsRoot(h, Parents(h, leaves));
    }
  }

  /** The branch does not depend on the first leaf, so it serves every coinbase. */
  lemma {:induction false} BranchIgnoresFirst<T>(h: (T, T) -> T, x: T, y: T, rest: seq<T>)
    ensures LeftBranch(h, [x] + rest) == LeftBranch(h, [y] + rest)
    decreases |rest|
  {
    if rest != [] {
      var xs, ys := [x] + rest, [y] + rest;
      assert xs[2..] == rest[1..] == ys[2..];
      BranchIgnoresFirst(h, h(x, rest[0]), h(y, rest[0]), Parents(h, rest[1..]));
    }
  }

  /** Replacing the first leaf: the old branch folds the new leaf to the new root. */
  lemma BranchServesEveryFirst<T>(h: (T, T) -> T, x: T, y: T, rest: seq<T>)
    ensures Fold(h, y, LeftBranch(h, [x] + rest)) == Root(h, [y] + rest)
  {
    BranchIgnoresFirst(h, x, y, rest);
    FoldIsRoot(h, [y] + rest);
  }

  lemma {:induction false} FoldSnoc<T>(h: (T, T) -> T, x: T, branch: seq<T>, b: T)
    ensures Fold(h, x, branch + [b]) == h(Fold(h, x, branch), b)
    decreases |branch|
  {
    if branch == [] {
      assert [] + [b] == [b] && [b][1..] == [];
    } else {
      assert (branch + [b])[1..] == branch[1..] + [b];
      FoldSnoc(h, h(x, branch[0]), branch[1..], b);
    }
  }
}
