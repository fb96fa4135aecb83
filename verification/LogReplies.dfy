/** What the two log-reading services share: oracle error flags and replies that carry only a code. */
module LogReplies {
  import opened Words
  import opened Arith
  import Wire

  const NO_ERROR: nat := 0x0
  const ORACLE_UNAVAIL: nat := 0x2
  const INVALID_ARG: nat := 0x10

  function CodeReply(code: nat, size: nat): (p: seq<byte>)
    requires size >= 8
    ensures |p| == size
  {
    LeNat(code, 8) + Zeros(size - 8)
  }

  function CodeOf(p: seq<byte>): nat
    requires |p| >= 8
  {
    LeNum(p[..8])
  }

  lemma CodeOfCodeReply(code: nat, size: nat)
    requires code < 256 && size >= 8
    ensures CodeOf(CodeReply(code, size)) == code
    ensures forall k :: 8 <= k < size ==> CodeReply(code, size)[k] == 0
  {
    hide LeNat, LeNum, Pow;
    Wire.PowersOf256();
    LeNumOfNat(code, 8);
    assert CodeReply(code, size)[..8] == LeNat(code, 8);
  }
}
