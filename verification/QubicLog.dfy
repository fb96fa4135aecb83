/**
  read_qubic_log_service.py: one log of one Qubic transaction, read from every configured
  bob node and answered only if they all agree.
 */
module QubicLog {
  import opened Arith
  import opened Words
  import opened Wrappers
  import opened Consensus
  import opened LogReplies
  import opened QubicIdentity
  import Wire

  const QUERY_SIZE: nat := 48
  const REPLY_SIZE: nat := 288

  const SUCCESS: nat := 0
  const BAD_QUERY: nat := 1
  const TX_NOT_FOUND: nat := 2
  const TX_NOT_EXECUTED: nat := 3
  const TICK_MISMATCH: nat := 4
  const LOG_NOT_FOUND: nat := 5
  const LOG_DATA_TOO_LARGE: nat := 6

  datatype Log = Log(logId: int, logType: int, contractIndex: int, data: seq<byte>)
  datatype Receipt = Receipt(tick: int, status: string, logs: seq<Log>)

  /** What the bobs say of a transaction named by its identity, and the hash behind identities. */
  datatype World = World(receipt: (string, string) -> Rpc<Option<Receipt>>, k12: seq<byte> -> seq<byte>)

  predicate IsU64(v: int)
  {
    0 <= v < 0x1_0000_0000_0000_0000
  }

  predicate LogOk(log: Log)
  {
    IsU64(log.logId) && IsU64(log.logType) && IsU64(log.contractIndex)
  }

  predicate ReceiptOk(receipt: Receipt)
  {
    IsU64(receipt.tick) && forall log :: log in receipt.logs ==> LogOk(log)
  }

  /** normalize_receipt: a number outside 64 bits raises. */
  function Normalized(answer: Rpc<Option<Receipt>>): (r: Rpc<Option<Receipt>>)
    ensures r.Answered? && r.value.Some? ==> ReceiptOk(r.value.value)
  {
    if answer.Answered? && answer.value.Some? && !ReceiptOk(answer.value.value) then Raised else answer
  }

  // --- agreement ---

  function Receipts(world: World, bobs: seq<string>, identity: string): (answers: seq<Rpc<Option<Receipt>>>)
    ensures |answers| == |bobs|
  {
    Asked(bobs, bob => Normalized(world.receipt(bob, identity)))
  }

  /** The receipt on which the bobs agree; with no bob to ask there is none. */
  method GetReceipt(world: World, bobs: seq<string>, identity: string) returns (r: Rpc<Option<Receipt>>)
    ensures r == if bobs == [] then Answered(None) else Agreed(Receipts(world, bobs, identity))
  {
    hide Normalized;
    ghost var answers := Receipts(world, bobs, identity);
    var receipt: Option<Receipt> := None;
    for i := 0 to |bobs|
      invariant i > 0 ==> Unanimous(answers[..i], receipt)
      invariant i == 0 ==> receipt.None?
    {
      var answer := Normalized(world.receipt(bobs[i], identity));
      assert answer == answers[i];
      if answer.Raised? {
        return Raised;
      }
      if i == 0 {
        receipt := answer.value;
      } else if answer.value != receipt {
        assert answers[0] == answers[..i][0] == Answered(receipt);
        return Raised;
      }
    }
    assert answers[..|answers|] == answers;
    if bobs != [] {
      AgreedExactly(answers, receipt);
    }
    return Answered(receipt);
  }

  // --- replies ---

  predicate Encodable(log: Log)
  {
    LogOk(log) && |log.data| <= 256
  }

  function LogReply(log: Log): (p: seq<byte>)
    requires Encodable(log)
    ensures |p| == REPLY_SIZE
  {
    LeNat(SUCCESS, 8) + LeNat(log.contractIndex, 8) + LeNat(log.logType, 8) + LeNat(|log.data|, 8)
    + (log.data + Zeros(256 - |log.data|))
  }

  /** Contract index, log type and data, read back by their fixed offsets. */
  function DecodeLog(p: seq<byte>): Option<(nat, nat, seq<byte>)>
    requires |p| == REPLY_SIZE
  {
    var len := LeNum(p[24..32]);
    if len > 256 then None else Some((LeNum(p[8..16]), LeNum(p[16..24]), p[32..32 + len]))
  }

  lemma LogRoundTrip(log: Log)
    requires Encodable(log)
    ensures CodeOf(LogReply(log)) == SUCCESS
    ensures DecodeLog(LogReply(log)) == Some((log.contractIndex, log.logType, log.data))
  {
    hide LeNat, LeNum, Pow;
    Wire.PowersOf256();
    LeNumOfNat(SUCCESS, 8);
    LeNumOfNat(log.contractIndex, 8);
    LeNumOfNat(log.logType, 8);
    LeNumOfNat(|log.data|, 8);
    var p := LogReply(log);
    assert p[..8] == LeNat(SUCCESS, 8) && p[8..16] == LeNat(log.contractIndex, 8);
    assert p[16..24] == LeNat(log.logType, 8) && p[24..32] == LeNat(|log.data|, 8);
    assert p[32..32 + |log.data|] == log.data;
  }

  // --- queries ---

  datatype Query = Query(tick: nat, txHash: seq<byte>, logId: nat)

  function ParseQuery(payload: seq<byte>): (q: Query)
    requires |payload| == QUERY_SIZE
    ensures |q.txHash| == 32
  {
    Query(LeNum(payload[..8]), payload[8..40], LeNum(payload[40..]))
  }

  /** The first log with that id. */
  function Matching(logs: seq<Log>, logId: nat): (r: Option<Log>)
    ensures r.None? <==> forall i :: 0 <= i < |logs| ==> logs[i].logId != logId
    ensures r.Some? ==> exists i :: 0 <= i < |logs| && logs[i] == r.value && r.value.logId == logId
                                    && forall j :: 0 <= j < i ==> logs[j].logId != logId
  {
    if logs == [] then None
    else if logs[0].logId == logId then Some(logs[0])
    else
      var r := Matching(logs[1..], logId);
      assert forall i :: 0 < i < |logs| ==> logs[i] == logs[1..][i - 1];
      assert r.Some? ==> exists i :: 0 <= i < |logs| && logs[i] == r.value && r.value.logId == logId
                                    && forall j :: 0 <= j < i ==> logs[j].logId != logId by {
        if r.Some? {
          var k :| 0 <= k < |logs[1..]| && logs[1..][k] == r.value && forall j :: 0 <= j < k ==> logs[1..][j].logId != logId;
          assert logs[k + 1] == r.value;
        }
      }
      r
  }

  function AnswerReceipt(fetched: Rpc<Option<Receipt>>, q: Query): (r: (nat, seq<byte>))
    requires fetched.Answered? && fetched.value.Some? ==> ReceiptOk(fetched.value.value)
    ensures |r.1| == REPLY_SIZE
  {
    if fetched.Raised? then (ORACLE_UNAVAIL, Zeros(REPLY_SIZE))
    else if fetched.value.None? then (NO_ERROR, CodeReply(TX_NOT_FOUND, REPLY_SIZE))
    else
      var receipt := fetched.value.value;
      if receipt.status != "success" then (NO_ERROR, CodeReply(TX_NOT_EXECUTED, REPLY_SIZE))
      else if receipt.tick != q.tick then (NO_ERROR, CodeReply(TICK_MISMATCH, REPLY_SIZE))
      else
        var log := Matching(receipt.logs, q.logId);
        if log.None? then (NO_ERROR, CodeReply(LOG_NOT_FOUND, REPLY_SIZE))
        else if |log.value.data| > 256 then (NO_ERROR, CodeReply(LOG_DATA_TOO_LARGE, REPLY_SIZE))
        else (NO_ERROR, LogReply(log.value))
  }

  function IdentityOf(world: World, txHash: seq<byte>): string
    requires |txHash| == 32
  {
    Identity('a', txHash, world.k12(txHash))
  }

  lemma AgreedOk(world: World, bobs: seq<string>, identity: string)
    ensures
      var r := Agreed(Receipts(world, bobs, identity));
      r.Answered? && r.value.Some? ==> ReceiptOk(r.value.value)
  {
    var answers := Receipts(world, bobs, identity);
    if answers != [] {
      assert answers[0] == Normalized(world.receipt(bobs[0], identity));
    }
  }

  /** Flags and reply to a query, as a function of what the bobs say. */
  function Answer(world: World, bobs: seq<string>, payload: seq<byte>): (r: (nat, seq<byte>))
    ensures |r.1| == REPLY_SIZE
  {
    if |payload| != QUERY_SIZE then (INVALID_ARG, Zeros(REPLY_SIZE))
    else
      var q := ParseQuery(payload);
      if q.txHash == Zeros(32) || q.tick == 0 then (NO_ERROR, CodeReply(BAD_QUERY, REPLY_SIZE))
      else if bobs == [] then (ORACLE_UNAVAIL, Zeros(REPLY_SIZE))
      else
        var identity := IdentityOf(world, q.txHash);
        AgreedOk(world, bobs, identity);
        AnswerReceipt(Agreed(Receipts(world, bobs, identity)), q)
  }

  method HandleQuery(world: World, bobs: seq<string>, payload: seq<byte>) returns (errorFlags: nat, reply: seq<byte>)
    ensures (errorFlags, reply) == Answer(world, bobs, payload) && |reply| == REPLY_SIZE
    ensures errorFlags == NO_ERROR && CodeOf(reply) == SUCCESS ==>
      |payload| == QUERY_SIZE && exists receipt, log :: Justified(world, bobs, ParseQuery(payload), receipt, log)
                                                        && DecodeLog(reply) == Some((log.contractIndex, log.logType, log.data))
    ensures |payload| == QUERY_SIZE ==> forall receipt, log :: Justified(world, bobs, ParseQuery(payload), receipt, log) ==>
      Encodable(log) && errorFlags == NO_ERROR && reply == LogReply(log)
    ensures errorFlags != NO_ERROR ==> reply == Zeros(REPLY_SIZE)
    ensures errorFlags == NO_ERROR && CodeOf(reply) != SUCCESS ==> reply == CodeReply(CodeOf(reply), REPLY_SIZE)
  {
    hide LeNum, LeNat, Agreed, Matching, Identity, LogReply, DecodeLog, CodeReply, CodeOf, Justified;
    RestIsZero(world, bobs, payload);
    if |payload| == QUERY_SIZE {
      SuccessExactly(world, bobs, payload);
    }
    if |payload| != QUERY_SIZE {
      return INVALID_ARG, Zeros(REPLY_SIZE);
    }
    var q := ParseQuery(payload);
    if q.txHash == Zeros(32) || q.tick == 0 {
      return NO_ERROR, CodeReply(BAD_QUERY, REPLY_SIZE);
    }
    if bobs == [] {
      return ORACLE_UNAVAIL, Zeros(REPLY_SIZE);
    }
    var identity := EncodeIdentity(q.txHash, true, world.k12);
    AgreedOk(world, bobs, identity);
    var fetched := GetReceipt(world, bobs, identity);
    if fetched.Raised? {
      return ORACLE_UNAVAIL, Zeros(REPLY_SIZE);
    }
    if fetched.value.None? {
      return NO_ERROR, CodeReply(TX_NOT_FOUND, REPLY_SIZE);
    }
    var receipt := fetched.value.value;
    if receipt.status != "success" {
      return NO_ERROR, CodeReply(TX_NOT_EXECUTED, REPLY_SIZE);
    }
    if receipt.tick != q.tick {
      return NO_ERROR, CodeReply(TICK_MISMATCH, REPLY_SIZE);
    }
    var log := Matching(receipt.logs, q.logId);
    if log.None? {
      return NO_ERROR, CodeReply(LOG_NOT_FOUND, REPLY_SIZE);
    }
    if |log.value.data| > 256 {
      return NO_ERROR, CodeReply(LOG_DATA_TOO_LARGE, REPLY_SIZE);
    }
    return NO_ERROR, LogReply(log.value);
  }

  predicate Succeeds(r: (nat, seq<byte>))
    requires |r.1| == REPLY_SIZE
  {
    r.0 == NO_ERROR && CodeOf(r.1) == SUCCESS
  }

  /** Every bob returned this very receipt for this very transaction: executed, in the tick asked about, with this log. */
  predicate Justified(world: World, bobs: seq<string>, q: Query, receipt: Receipt, log: Log)
    requires |q.txHash| == 32
  {
    && q.txHash != Zeros(32) && q.tick != 0 && bobs != []
    && (forall bob :: bob in bobs ==> Normalized(world.receipt(bob, IdentityOf(world, q.txHash))) == Answered(Some(receipt)))
    && receipt.status == "success" && receipt.tick == q.tick
    && Matching(receipt.logs, q.logId) == Some(log) && |log.data| <= 256
  }

  lemma UnanimousBobs(world: World, bobs: seq<string>, identity: string, v: Option<Receipt>)
    requires bobs != []
    ensures Agreed(Receipts(world, bobs, identity)) == Answered(v)
       <==> forall bob :: bob in bobs ==> Normalized(world.receipt(bob, identity)) == Answered(v)
  {
    hide Normalized, Agreed;
    var answers := Receipts(world, bobs, identity);
    AgreedExactly(answers, v);
    assert forall i :: 0 <= i < |answers| ==> answers[i] == Normalized(world.receipt(bobs[i], identity));
    if Unanimous(answers, v) {
      forall bob | bob in bobs
        ensures Normalized(world.receipt(bob, identity)) == Answered(v)
      {
        var i :| 0 <= i < |bobs| && bobs[i] == bob;
        assert answers[i] == Answered(v);
      }
    }
  }

  lemma AnswerReceiptSucceeds(fetched: Rpc<Option<Receipt>>, q: Query)
    requires fetched.Answered? && fetched.value.Some? ==> ReceiptOk(fetched.value.value)
    ensures
      var r := AnswerReceipt(fetched, q);
      Succeeds(r) <==>
      && fetched.Answered? && fetched.value.Some? && fetched.value.value.status == "success" && fetched.value.value.tick == q.tick
      && Matching(fetched.value.value.logs, q.logId).Some? && |Matching(fetched.value.value.logs, q.logId).value.data| <= 256
    ensures
      var r := AnswerReceipt(fetched, q);
      Succeeds(r) ==>
        var log := Matching(fetched.value.value.logs, q.logId).value;
        Encodable(log) && r.1 == LogReply(log) && DecodeLog(r.1) == Some((log.contractIndex, log.logType, log.data))
    ensures
      var r := AnswerReceipt(fetched, q);
      if r.0 != NO_ERROR then r.1 == Zeros(REPLY_SIZE)
      else Succeeds(r) || (CodeOf(r.1) <= LOG_DATA_TOO_LARGE && r.1 == CodeReply(CodeOf(r.1), REPLY_SIZE))
  {
    hide LeNat, LeNum, LogReply, DecodeLog, CodeOf, CodeReply;
    CodeOfCodeReply(TX_NOT_FOUND, REPLY_SIZE);
    CodeOfCodeReply(TX_NOT_EXECUTED, REPLY_SIZE);
    CodeOfCodeReply(TICK_MISMATCH, REPLY_SIZE);
    CodeOfCodeReply(LOG_NOT_FOUND, REPLY_SIZE);
    CodeOfCodeReply(LOG_DATA_TOO_LARGE, REPLY_SIZE);
    if fetched.Answered? && fetched.value.Some? {
      var log := Matching(fetched.value.value.logs, q.logId);
      if log.Some? && |log.value.data| <= 256 {
        LogRoundTrip(log.value);
      }
    }
  }

  /** Success means a justified log, which the reply decodes to; every justified log is answered so. */
  lemma SuccessExactly(world: World, bobs: seq<string>, payload: seq<byte>)
    requires |payload| == QUERY_SIZE
    ensures
      var r := Answer(world, bobs, payload);
      Succeeds(r) ==> exists receipt, log :: Justified(world, bobs, ParseQuery(payload), receipt, log)
                                             && DecodeLog(r.1) == Some((log.contractIndex, log.logType, log.data))
    ensures forall receipt, log :: Justified(world, bobs, ParseQuery(payload), receipt, log) ==>
      Encodable(log) && Answer(world, bobs, payload) == (NO_ERROR, LogReply(log))
  {
    hide LeNat, LeNum, LogReply, DecodeLog, CodeOf, CodeReply, Agreed, Matching, IdentityOf, Normalized;
    var q := ParseQuery(payload);
    CodeOfCodeReply(BAD_QUERY, REPLY_SIZE);
    if q.txHash == Zeros(32) || q.tick == 0 || bobs == [] {
      return;
    }
    var identity := IdentityOf(world, q.txHash);
    var fetched := Agreed(Receipts(world, bobs, identity));
    AgreedOk(world, bobs, identity);
    AnswerReceiptSucceeds(fetched, q);
    forall receipt, log | Justified(world, bobs, q, receipt, log)
      ensures Encodable(log) && Answer(world, bobs, payload) == (NO_ERROR, LogReply(log))
    {
      UnanimousBobs(world, bobs, identity, Some(receipt));
    }
    if Succeeds(Answer(world, bobs, payload)) {
      var receipt := fetched.value.value;
      UnanimousBobs(world, bobs, identity, Some(receipt));
      assert Justified(world, bobs, q, receipt, Matching(receipt.logs, q.logId).value);
    }
  }

  /** Everything after a non-zero code, and the whole reply under an error flag, is zero. */
  lemma RestIsZero(world: World, bobs: seq<string>, payload: seq<byte>)
    ensures
      var r := Answer(world, bobs, payload);
      && (r.0 != NO_ERROR ==> r.1 == Zeros(REPLY_SIZE))
      && (r.0 == NO_ERROR && CodeOf(r.1) != SUCCESS ==> r.1 == CodeReply(CodeOf(r.1), REPLY_SIZE) && CodeOf(r.1) <= LOG_DATA_TOO_LARGE)
  {
    hide LeNat, LeNum, LogReply, DecodeLog, CodeOf, CodeReply, Agreed, Matching, IdentityOf, AnswerReceipt;
    CodeOfCodeReply(BAD_QUERY, REPLY_SIZE);
    if |payload| == QUERY_SIZE {
      var q := ParseQuery(payload);
      var identity := IdentityOf(world, q.txHash);
      AgreedOk(world, bobs, identity);
      AnswerReceiptSucceeds(Agreed(Receipts(world, bobs, identity)), q);
    }
  }

  /** The order of the bobs never changes an octet. */
  lemma AnswerIgnoresOrder(world: World, a: seq<string>, b: seq<string>, payload: seq<byte>)
    requires SameMembers(a, b)
    ensures Answer(world, a, payload) == Answer(world, b, payload)
  {
    hide Agreed, LeNum, AnswerReceipt, CodeReply;
    assert a != [] ==> a[0] in b;
    assert b != [] ==> b[0] in a;
    if |payload| == QUERY_SIZE {
      var identity := IdentityOf(world, ParseQuery(payload).txHash);
      AskedMembers(a, b, bob => Normalized(world.receipt(bob, identity)));
      AgreedMembers(Receipts(world, a, identity), Receipts(world, b, identity));
    }
  }

  /** One bob that fails, or two that differ, and the service abstains. */
  lemma DisagreementAbstains(world: World, bobs: seq<string>, payload: seq<byte>, e: string, f: string)
    requires |payload| == QUERY_SIZE && e in bobs && f in bobs
    requires
      var q := ParseQuery(payload);
      && q.txHash != Zeros(32) && q.tick != 0
      && var one, other := Normalized(world.receipt(e, IdentityOf(world, q.txHash))), Normalized(world.receipt(f, IdentityOf(world, q.txHash)));
         one.Raised? || one != other
    ensures Answer(world, bobs, payload) == (ORACLE_UNAVAIL, Zeros(REPLY_SIZE))
  {
    hide LeNum, Normalized, Agreed, IdentityOf;
    var q := ParseQuery(payload);
    var identity := IdentityOf(world, q.txHash);
    var agreed := Agreed(Receipts(world, bobs, identity));
    if agreed.Answered? {
      UnanimousBobs(world, bobs, identity, agreed.value);
    }
  }
}
