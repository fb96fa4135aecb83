/**
  The variable part of a share-validation query (doge_service.cpp): three octet strings, a
  table of branch lengths and the branches, one behind the other in a buffer of fixed size,
  with the two size checks in 32-bit arithmetic.
 */
module DogePayload {
  import opened Arith
  import opened Seqs
  import opened Words
  import Wire

  const WORD: nat := 0x1_0000_0000

  /** The four counts of the query. */
  datatype Counts = Counts(extraNonce1: nat, coinbase1: nat, coinbase2: nat, branches: nat)

  datatype Parts = Parts(extraNonce1: seq<byte>, coinbase1: seq<byte>, coinbase2: seq<byte>, branches: seq<seq<byte>>)

  /** The query is refused, a read would leave the buffer, or all of it was read. */
  datatype Unpacked = Rejected | Outside | Inside(parts: Parts)

  // --- the layout ---

  /** Where the table of lengths starts. */
  function TableAt(c: Counts): nat
  {
    c.extraNonce1 + c.coinbase1 + c.coinbase2
  }

  /** The octets in front of the branches. */
  function FixedSize(c: Counts): nat
  {
    TableAt(c) + 4 * c.branches
  }

  function Lengths(p: seq<byte>, n: nat): (lens: seq<nat>)
    requires 4 * n <= |p|
    ensures |lens| == n
    decreases n
  {
    if n == 0 then [] else [LeNum(p[..4])] + Lengths(p[4..], n - 1)
  }

  function Sum(lens: seq<nat>): nat
  {
    if lens == [] then 0 else lens[0] + Sum(lens[1..])
  }

  function Split(p: seq<byte>, lens: seq<nat>): (parts: seq<seq<byte>>)
    requires Sum(lens) <= |p|
    ensures |parts| == |lens|
  {
    if lens == [] then [] else [p[..lens[0]]] + Split(p[lens[0]..], lens[1..])
  }

  function BranchLengths(c: Counts, data: seq<byte>): (lens: seq<nat>)
    requires FixedSize(c) <= |data|
    ensures |lens| == c.branches
  {
    Lengths(data[TableAt(c)..], c.branches)
  }

  function TotalSize(c: Counts, data: seq<byte>): nat
    requires FixedSize(c) <= |data|
  {
    FixedSize(c) + Sum(BranchLengths(c, data))
  }

  function PartsOf(c: Counts, data: seq<byte>): Parts
    requires Fits(c, data)
  {
    Parts(data[..c.extraNonce1],
          data[c.extraNonce1..c.extraNonce1 + c.coinbase1],
          data[c.extraNonce1 + c.coinbase1..TableAt(c)],
          Split(data[FixedSize(c)..], BranchLengths(c, data)))
  }

  // --- the code ---

  lemma {:induction false} LengthsAt(p: seq<byte>, n: nat, i: nat)
    requires 4 * n <= |p| && i < n
    ensures Lengths(p, n)[i] == LeNum(p[4 * i..4 * i + 4])
    decreases n
  {
    if i > 0 {
      LengthsAt(p[4..], n - 1, i - 1);
      SliceOfSuffix(p, 4, 4 * (i - 1), 4);
    }
  }

  /** std::accumulate over the table: the sum of the lengths modulo 2^32. */
  method Accumulate(table: seq<byte>, n: nat) returns (lens: seq<nat>, sum: nat)
    requires 4 * n <= |table|
    ensures lens == Lengths(table, n) && sum == Sum(lens) % WORD
  {
    hide LeNum, Lengths;
    lens, sum := [], 0;
    for i := 0 to n
      invariant lens == Lengths(table, n)[..i] && sum == Sum(lens) % WORD
    {
      LengthsAt(table, n, i);
      var len := LeNum(table[4 * i..4 * i + 4]);
      SumSnoc(lens, len);
      ModOfSum(Sum(lens), len, WORD);
      sum := (sum + len) % WORD;
      lens := lens + [len];
    }
  }

  lemma {:induction false} SumSnoc(lens: seq<nat>, len: nat)
    ensures Sum(lens + [len]) == Sum(lens) + len
  {
    if lens != [] {
      SumSnoc(lens[1..], len);
      assert (lens + [len])[1..] == lens[1..] + [len];
    }
  }

  lemma {:induction false} SumPrefix(lens: seq<nat>, i: nat)
    requires i <= |lens|
    ensures Sum(lens[..i]) <= Sum(lens)
  {
    if i > 0 {
      SumPrefix(lens[1..], i - 1);
      assert lens[..i][1..] == lens[1..][..i - 1];
    }
  }

  lemma {:induction false} SplitAt(p: seq<byte>, lens: seq<nat>, i: nat)
    requires Sum(lens) <= |p| && i < |lens|
    ensures Sum(lens[..i]) + lens[i] <= |p|
    ensures Split(p, lens)[i] == p[Sum(lens[..i])..Sum(lens[..i]) + lens[i]]
  {
    if i > 0 {
      SplitAt(p[lens[0]..], lens[1..], i - 1);
      assert lens[..i][1..] == lens[1..][..i - 1];
      var at := Sum(lens[1..][..i - 1]);
      SliceOfSuffix(p, lens[0], at, lens[i]);
    }
  }

  /** The branches one by one; false at the first that would leave the buffer. */
  method ReadBranches(p: seq<byte>, lens: seq<nat>) returns (ok: bool, branches: seq<seq<byte>>)
    ensures ok <==> Sum(lens) <= |p|
    ensures ok ==> branches == Split(p, lens)
  {
    hide Sum, Split;
    var at := 0;
    branches := [];
    assert Sum(lens[..0]) == 0 by { SumOfNone(lens[..0]); }
    for i := 0 to |lens|
      invariant 0 <= at == Sum(lens[..i]) <= |p|
      invariant Sum(lens) <= |p| ==> branches == Split(p, lens)[..i]
    {
      assert lens[..i + 1] == lens[..i] + [lens[i]];
      SumSnoc(lens[..i], lens[i]);
      SumPrefix(lens, i + 1);
      if at + lens[i] > |p| {
        return false, [];
      }
      if Sum(lens) <= |p| {
        SplitAt(p, lens, i);
      }
      branches := branches + [p[at..at + lens[i]]];
      at := at + lens[i];
    }
    assert lens[..|lens|] == lens;
    return true, branches;
  }

  lemma SumOfNone(lens: seq<nat>)
    requires lens == []
    ensures Sum(lens) == 0
  {
  }

  /** A sum that is compared with the buffer exceeds it. */
  predicate Refused(c: Counts, data: seq<byte>)
  {
    || FixedSize(c) % WORD > |data|
    || (FixedSize(c) <= |data| && TotalSize(c, data) % WORD > |data|)
  }

  /** All the octets to be read are there. */
  predicate Fits(c: Counts, data: seq<byte>)
  {
    FixedSize(c) <= |data| && TotalSize(c, data) <= |data|
  }

  /**
    The counts are unsigned 32-bit numbers and so is each sum compared with the buffer's
    size. All reads stay inside exactly when the true sizes fit; a query is refused exactly
    when a sum is too large modulo 2^32; and without a wrap-around one of the two happens.
   */
  method Unpack(c: Counts, data: seq<byte>) returns (r: Unpacked)
    requires |data| < WORD
    ensures r.Inside? <==> Fits(c, data)
    ensures r.Inside? ==> r.parts == PartsOf(c, data)
    ensures r.Rejected? <==> Refused(c, data)
    ensures FixedSize(c) < WORD && (FixedSize(c) <= |data| ==> TotalSize(c, data) < WORD) ==> !r.Outside?
  {
    hide Lengths, Split, Sum, FixedSize, TotalSize, PartsOf;
    FixedParts(c);
    var additionalDataSize := FixedSize(c) % WORD;
    SmallMod(FixedSize(c), |data|);
    if additionalDataSize > |data| {
      return Rejected;
    }
    if FixedSize(c) > |data| {
      return Outside;
    }
    var lens, sum := Accumulate(data[TableAt(c)..], c.branches);
    TotalParts(c, data);
    ModOfSum(Sum(lens), FixedSize(c), WORD);
    SmallMod(TotalSize(c, data), |data|);
    additionalDataSize := (additionalDataSize + sum) % WORD;
    if additionalDataSize > |data| {
      return Rejected;
    }
    var ok, branches := ReadBranches(data[FixedSize(c)..], lens);
    if !ok {
      return Outside;
    }
    PartsRead(c, data, branches);
    return Inside(Parts(data[..c.extraNonce1], data[c.extraNonce1..c.extraNonce1 + c.coinbase1],
                        data[c.extraNonce1 + c.coinbase1..TableAt(c)], branches));
  }

  lemma FixedParts(c: Counts)
    ensures FixedSize(c) == TableAt(c) + 4 * c.branches
  {
  }

  lemma TotalParts(c: Counts, data: seq<byte>)
    requires FixedSize(c) <= |data|
    ensures TotalSize(c, data) == FixedSize(c) + Sum(Lengths(data[TableAt(c)..], c.branches))
  {
    hide Sum, Lengths;
  }

  lemma PartsRead(c: Counts, data: seq<byte>, branches: seq<seq<byte>>)
    requires Fits(c, data) && branches == Split(data[FixedSize(c)..], Lengths(data[TableAt(c)..], c.branches))
    ensures PartsOf(c, data) == Parts(data[..c.extraNonce1], data[c.extraNonce1..c.extraNonce1 + c.coinbase1],
                                      data[c.extraNonce1 + c.coinbase1..TableAt(c)], branches)
  {
    hide Sum, Lengths, Split;
  }

  lemma SmallMod(x: nat, size: nat)
    requires size < WORD
    ensures x <= size || x < WORD ==> x % WORD == x
  {
  }

  /** A count of branches whose table is 2^32 octets long is neither refused nor does it fit, in any buffer. */
  lemma TableWraps(data: seq<byte>)
    requires |data| < WORD
    ensures var c := Counts(0, 0, 0, 0x4000_0000); !Refused(c, data) && !Fits(c, data)
  {
  }

  /** Neither does a single branch whose length makes the total 2^32, whatever follows the table. */
  lemma LengthWraps(rest: seq<byte>)
    requires |rest| < WORD - 4
    ensures
      var (c, data) := (Counts(0, 0, 0, 1), LeNat(WORD - 4, 4) + rest);
      FixedSize(c) <= |data| && TotalSize(c, data) == WORD && !Refused(c, data) && !Fits(c, data)
  {
    hide LeNat, LeNum;
    var c, data := Counts(0, 0, 0, 1), LeNat(WORD - 4, 4) + rest;
    Wire.PowersOf256();
    LeNumOfNat(WORD - 4, 4);
    FrontBack(LeNat(WORD - 4, 4), rest);
    assert data[TableAt(c)..] == data;
    assert Lengths(data, 1) == [LeNum(data[..4])] + Lengths(data[4..], 0);
    assert Sum([WORD - 4]) == WORD - 4;
  }

  lemma {:induction false} SplitBounded(p: seq<byte>, lens: seq<nat>)
    requires Sum(lens) <= |p|
    ensures forall b :: b in Split(p, lens) ==> |b| <= |p|
  {
    if lens != [] {
      SplitBounded(p[lens[0]..], lens[1..]);
    }
  }

  /** No part is longer than the buffer. */
  lemma PartsBounded(c: Counts, data: seq<byte>)
    requires Fits(c, data)
    ensures
      var p := PartsOf(c, data);
      |p.extraNonce1| + |p.coinbase1| + |p.coinbase2| <= |data| && forall b :: b in p.branches ==> |b| <= |data|
  {
    hide Split, Sum, Lengths;
    SplitBounded(data[FixedSize(c)..], BranchLengths(c, data));
  }

  // --- round trip ---

  function CountsOf(p: Parts): Counts
  {
    Counts(|p.extraNonce1|, |p.coinbase1|, |p.coinbase2|, |p.branches|)
  }

  function Table(branches: seq<seq<byte>>): (t: seq<byte>)
    ensures |t| == 4 * |branches|
  {
    if branches == [] then [] else LeNat(|branches[0]|, 4) + Table(branches[1..])
  }

  function Joined(branches: seq<seq<byte>>): seq<byte>
  {
    if branches == [] then [] else branches[0] + Joined(branches[1..])
  }

  function Sizes(branches: seq<seq<byte>>): (lens: seq<nat>)
    ensures |lens| == |branches|
  {
    if branches == [] then [] else [|branches[0]|] + Sizes(branches[1..])
  }

  function Packed(p: Parts, rest: seq<byte>): seq<byte>
  {
    p.extraNonce1 + p.coinbase1 + p.coinbase2 + (Table(p.branches) + (Joined(p.branches) + rest))
  }

  lemma {:induction false} TableRead(branches: seq<seq<byte>>, rest: seq<byte>)
    requires forall b :: b in branches ==> |b| < WORD
    ensures Lengths(Table(branches) + rest, |branches|) == Sizes(branches)
  {
    hide LeNat, LeNum;
    if branches != [] {
      var first, more := LeNat(|branches[0]|, 4), Table(branches[1..]);
      assert branches[0] in branches;
      TableRead(branches[1..], rest);
      Wire.PowersOf256();
      LeNumOfNat(|branches[0]|, 4);
      Regroup(first, more, rest);
      FrontBack(first, more + rest);
    }
  }

  lemma {:induction false} JoinedSplit(branches: seq<seq<byte>>, rest: seq<byte>)
    ensures Sum(Sizes(branches)) == |Joined(branches)|
    ensures Split(Joined(branches) + rest, Sizes(branches)) == branches
  {
    if branches != [] {
      JoinedSplit(branches[1..], rest);
      Regroup(branches[0], Joined(branches[1..]), rest);
      FrontBack(branches[0], Joined(branches[1..]) + rest);
      assert Sizes(branches)[1..] == Sizes(branches[1..]);
    }
  }

  /** Parts laid out in a buffer, whatever follows them, are what is read back. */
  lemma PackRoundTrip(p: Parts, rest: seq<byte>)
    requires forall b :: b in p.branches ==> |b| < WORD
    ensures
      var (c, data) := (CountsOf(p), Packed(p, rest));
      Fits(c, data) && PartsOf(c, data) == p
  {
    hide Table, Joined, Sizes, Split, Lengths, Sum;
    var c, data := CountsOf(p), Packed(p, rest);
    var tail := Joined(p.branches) + rest;
    assert data[TableAt(c)..] == Table(p.branches) + tail && data[FixedSize(c)..] == tail;
    TableRead(p.branches, tail);
    JoinedSplit(p.branches, rest);
    assert data[..c.extraNonce1] == p.extraNonce1;
    assert data[c.extraNonce1..c.extraNonce1 + c.coinbase1] == p.coinbase1;
    assert data[c.extraNonce1 + c.coinbase1..TableAt(c)] == p.coinbase2;
  }
}
