/**
  read_evm_log_service.py: one log of one transaction, read from every configured endpoint
  of a chain and answered only if they all agree.
 */
module EvmLog {
  import opened Arith
  import opened Words
  import opened Wrappers
  import opened Consensus
  import opened LogReplies
  import Wire

  const QUERY_SIZE: nat := 48
  const REPLY_SIZE: nat := 440

  const SUCCESS: nat := 0
  const BAD_QUERY: nat := 1
  const CHAIN_UNSUPPORTED: nat := 2
  const TX_NOT_FOUND: nat := 3
  const TX_NOT_FINALIZED: nat := 4
  const LOG_INDEX_OUT_OF_RANGE: nat := 5
  const LOG_DATA_TOO_LARGE: nat := 6

  datatype Log = Log(address: seq<byte>, topics: seq<seq<byte>>, data: seq<byte>)
  datatype Receipt = Receipt(status: int, blockNumber: int, blockHash: seq<byte>, logs: seq<Log>)
  datatype Chain = Chain(endpoints: seq<string>, minConfirmations: nat)

  /** What the endpoints say, with hexadecimal and JSON already read. */
  datatype World = World(
    receipt: (string, seq<byte>) -> Rpc<Option<Receipt>>,
    latest: string -> Rpc<int>,
    finalized: string -> Rpc<int>)

  predicate LogOk(log: Log)
  {
    |log.address| == 20 && forall i :: 0 <= i < |log.topics| ==> |log.topics[i]| == 32
  }

  /** normalize_receipt: malformed log entries raise. */
  function Normalized(answer: Rpc<Option<Receipt>>): (r: Rpc<Option<Receipt>>)
    ensures r.Answered? && r.value.Some? ==> forall log :: log in r.value.value.logs ==> LogOk(log)
  {
    if answer.Answered? && answer.value.Some? && exists log :: log in answer.value.value.logs && !LogOk(log) then Raised else answer
  }

  function FinalizedHead(world: World, chain: Chain, endpoint: string): Rpc<int>
  {
    if chain.minConfirmations == 0 then world.finalized(endpoint)
    else
      var latest := world.latest(endpoint);
      if latest.Raised? then Raised else Answered(latest.value - chain.minConfirmations)
  }

  // --- agreement ---

  datatype Outcome = Abstain | Fetched(receipt: Option<Receipt>, finalized: bool)

  function Receipts(world: World, chain: Chain, tx: seq<byte>): (answers: seq<Rpc<Option<Receipt>>>)
    ensures |answers| == |chain.endpoints|
  {
    Asked(chain.endpoints, endpoint => Normalized(world.receipt(endpoint, tx)))
  }

  predicate HeadsKnown(world: World, chain: Chain)
  {
    forall endpoint :: endpoint in chain.endpoints ==> FinalizedHead(world, chain, endpoint).Answered?
  }

  /** The block is at or below every endpoint's finalized head. */
  predicate Final(world: World, chain: Chain, block: int)
  {
    forall endpoint :: endpoint in chain.endpoints ==>
      var head := FinalizedHead(world, chain, endpoint);
      head.Answered? && block <= head.value
  }

  /** What the endpoints agree on, in no particular order. */
  function Fetch(world: World, chain: Chain, tx: seq<byte>): Outcome
  {
    if chain.endpoints == [] then Fetched(None, false)
    else
      var agreed := Agreed(Receipts(world, chain, tx));
      if agreed.Raised? then Abstain
      else if agreed.value.None? then Fetched(None, false)
      else if !HeadsKnown(world, chain) then Abstain
      else Fetched(agreed.value, Final(world, chain, agreed.value.value.blockNumber))
  }

  method GetReceipt(world: World, chain: Chain, tx: seq<byte>) returns (out: Outcome)
    ensures out == Fetch(world, chain, tx)
  {
    hide Normalized, FinalizedHead;
    ghost var answers := Receipts(world, chain, tx);
    var receipt: Option<Receipt>, finalized := None, true;
    for i := 0 to |chain.endpoints|
      invariant i > 0 ==> Unanimous(answers[..i], receipt)
      invariant i == 0 ==> receipt.None?
      invariant receipt.None? ==> finalized
      invariant receipt.Some? ==> forall j :: 0 <= j < i ==> FinalizedHead(world, chain, chain.endpoints[j]).Answered?
      invariant receipt.Some? ==> (finalized <==> forall j :: 0 <= j < i ==>
        receipt.value.blockNumber <= FinalizedHead(world, chain, chain.endpoints[j]).value)
    {
      var endpoint := chain.endpoints[i];
      var answer := Normalized(world.receipt(endpoint, tx));
      assert answer == answers[i];
      if answer.Raised? {
        return Abstain;
      }
      var one := answer.value;
      if i == 0 {
        receipt := one;
      } else if one != receipt {
        assert answers[0] == answers[..i][0] == Answered(receipt);
        return Abstain;
      }
      if one.Some? {
        assert answers[0] == Answered(receipt) by {
          assert i > 0 ==> answers[..i][0] == answers[0];
        }
        var head := FinalizedHead(world, chain, endpoint);
        if head.Raised? {
          assert endpoint in chain.endpoints;
          return Abstain;
        }
        if one.value.blockNumber > head.value {
          finalized := false;
        }
      }
    }
    assert answers[..|answers|] == answers;
    if |answers| > 0 {
      AgreedExactly(answers, receipt);
    }
    if receipt.None? {
      finalized := false;
    }
    return Fetched(receipt, finalized);
  }

  /** The order of the endpoints never changes the outcome. */
  lemma FetchIgnoresOrder(world: World, a: Chain, b: Chain, tx: seq<byte>)
    requires SameMembers(a.endpoints, b.endpoints) && a.minConfirmations == b.minConfirmations
    ensures Fetch(world, a, tx) == Fetch(world, b, tx)
  {
    hide Agreed;
    assert a.endpoints != [] ==> a.endpoints[0] in b.endpoints;
    assert b.endpoints != [] ==> b.endpoints[0] in a.endpoints;
    AskedMembers(a.endpoints, b.endpoints, endpoint => Normalized(world.receipt(endpoint, tx)));
    AgreedMembers(Receipts(world, a, tx), Receipts(world, b, tx));
    assert forall e :: FinalizedHead(world, a, e) == FinalizedHead(world, b, e);
  }

  /** Permuting the endpoints of a chain changes nothing. */
  lemma FetchPermuted(world: World, a: Chain, b: Chain, tx: seq<byte>)
    requires multiset(a.endpoints) == multiset(b.endpoints) && a.minConfirmations == b.minConfirmations
    ensures Fetch(world, a, tx) == Fetch(world, b, tx)
  {
    hide Fetch;
    PermutationSameMembers(a.endpoints, b.endpoints);
    FetchIgnoresOrder(world, a, b, tx);
  }

  // --- replies ---

  function Concat(ts: seq<seq<byte>>): seq<byte>
  {
    if ts == [] then [] else Concat(ts[..|ts| - 1]) + ts[|ts| - 1]
  }

  predicate Encodable(log: Log)
  {
    LogOk(log) && |log.topics| <= 4 && |log.data| <= 256
  }

  lemma {:induction false} ConcatAt(ts: seq<seq<byte>>)
    requires forall i :: 0 <= i < |ts| ==> |ts[i]| == 32
    ensures |Concat(ts)| == 32 * |ts|
    ensures forall i :: 0 <= i < |ts| ==> Concat(ts)[32 * i..32 * i + 32] == ts[i]
  {
    if ts != [] {
      var n := |ts| - 1;
      ConcatAt(ts[..n]);
      forall i | 0 <= i < |ts|
        ensures Concat(ts)[32 * i..32 * i + 32] == ts[i]
      {
        if i < n {
          assert Concat(ts)[32 * i..32 * i + 32] == Concat(ts[..n])[32 * i..32 * i + 32] == ts[..n][i];
        }
      }
    }
  }

  function LogReply(log: Log): (p: seq<byte>)
    requires Encodable(log)
    ensures |p| == REPLY_SIZE
  {
    ConcatAt(log.topics);
    LeNat(SUCCESS, 8)
    + (Zeros(12) + log.address)
    + LeNat(|log.topics|, 8)
    + (Concat(log.topics) + Zeros(32 * (4 - |log.topics|)))
    + LeNat(|log.data|, 8)
    + (log.data + Zeros(256 - |log.data|))
  }

  method EncodeLog(log: Log) returns (reply: seq<byte>)
    requires Encodable(log)
    ensures reply == LogReply(log)
  {
    hide LeNat;
    ghost var head := LeNat(SUCCESS, 8) + (Zeros(12) + log.address) + LeNat(|log.topics|, 8);
    reply := LeNat(SUCCESS, 8);
    reply := reply + (Zeros(12) + log.address);
    reply := reply + LeNat(|log.topics|, 8);
    for i := 0 to |log.topics|
      invariant reply == head + Concat(log.topics[..i])
    {
      assert log.topics[..i + 1][..i] == log.topics[..i];
      assert head + (Concat(log.topics[..i]) + log.topics[i]) == head + Concat(log.topics[..i]) + log.topics[i];
      reply := reply + log.topics[i];
    }
    assert log.topics[..|log.topics|] == log.topics;
    reply := reply + Zeros(32 * (4 - |log.topics|));
    assert reply == head + (Concat(log.topics) + Zeros(32 * (4 - |log.topics|)));
    reply := reply + LeNat(|log.data|, 8);
    reply := reply + (log.data + Zeros(256 - |log.data|));
  }

  /** A reply read back by its fixed offsets. */
  function DecodeLog(p: seq<byte>): Option<Log>
    requires |p| == REPLY_SIZE
  {
    var count, len := LeNum(p[40..48]), LeNum(p[176..184]);
    if count > 4 || len > 256 then None
    else Some(Log(p[20..40], seq(count, i requires 0 <= i < count => p[48 + 32 * i..80 + 32 * i]), p[184..184 + len]))
  }

  /** The log comes back exactly, for every number of topics up to four and every length up to 256. */
  lemma LogRoundTrip(log: Log)
    requires Encodable(log)
    ensures CodeOf(LogReply(log)) == SUCCESS && DecodeLog(LogReply(log)) == Some(log)
  {
    hide LeNat, LeNum, Pow, Concat;
    ConcatAt(log.topics);
    Wire.PowersOf256();
    LeNumOfNat(SUCCESS, 8);
    LeNumOfNat(|log.topics|, 8);
    LeNumOfNat(|log.data|, 8);
    var p := LogReply(log);
    assert p[..8] == LeNat(SUCCESS, 8) && p[20..40] == log.address && p[40..48] == LeNat(|log.topics|, 8);
    assert p[176..184] == LeNat(|log.data|, 8) && p[184..184 + |log.data|] == log.data;
    assert p[48..48 + 32 * |log.topics|] == Concat(log.topics);
    forall i | 0 <= i < |log.topics|
      ensures p[48 + 32 * i..80 + 32 * i] == log.topics[i]
    {
      SliceOfSlice(p, 48, 32 * |log.topics|, 32 * i);
    }
    assert DecodeLog(p).value.topics == log.topics;
  }

  lemma SliceOfSlice(p: seq<byte>, at: nat, n: nat, k: nat)
    requires at + n <= |p| && k + 32 <= n
    ensures p[at + k..at + k + 32] == p[at..at + n][k..k + 32]
  {
    var a, b := p[at + k..at + k + 32], p[at..at + n][k..k + 32];
    assert forall j :: 0 <= j < 32 ==> a[j] == b[j];
  }

  // --- queries ---

  datatype Query = Query(chainId: nat, txHash: seq<byte>, logIndex: nat)

  function ParseQuery(payload: seq<byte>): Query
    requires |payload| == QUERY_SIZE
  {
    Query(LeNum(payload[..8]), payload[8..40], LeNum(payload[40..]))
  }

  /** The reply to a transaction on which the endpoints have agreed. */
  function AnswerReceipt(out: Outcome, logIndex: nat): (r: (nat, seq<byte>))
    requires out.Fetched? && out.receipt.Some? ==> forall log :: log in out.receipt.value.logs ==> LogOk(log)
    ensures |r.1| == REPLY_SIZE
  {
    if out.Abstain? then (ORACLE_UNAVAIL, Zeros(REPLY_SIZE))
    else if out.receipt.None? then (NO_ERROR, CodeReply(TX_NOT_FOUND, REPLY_SIZE))
    else
      var receipt := out.receipt.value;
      if !out.finalized || receipt.status != 1 then (NO_ERROR, CodeReply(TX_NOT_FINALIZED, REPLY_SIZE))
      else if logIndex >= |receipt.logs| then (NO_ERROR, CodeReply(LOG_INDEX_OUT_OF_RANGE, REPLY_SIZE))
      else if |receipt.logs[logIndex].data| > 256 then (NO_ERROR, CodeReply(LOG_DATA_TOO_LARGE, REPLY_SIZE))
      else if |receipt.logs[logIndex].topics| > 4 then (ORACLE_UNAVAIL, Zeros(REPLY_SIZE))
      else (NO_ERROR, LogReply(receipt.logs[logIndex]))
  }

  lemma FetchedLogsOk(world: World, chain: Chain, tx: seq<byte>)
    ensures var out := Fetch(world, chain, tx);
            out.Fetched? && out.receipt.Some? ==> forall log :: log in out.receipt.value.logs ==> LogOk(log)
  {
    hide FinalizedHead, LogOk;
    var answers := Receipts(world, chain, tx);
    if answers != [] {
      assert answers[0] == Normalized(world.receipt(chain.endpoints[0], tx));
    }
  }

  /** Flags and reply to a query, as a function of what the endpoints say. */
  function Answer(world: World, chains: map<nat, Chain>, payload: seq<byte>): (r: (nat, seq<byte>))
    ensures |r.1| == REPLY_SIZE
  {
    if |payload| != QUERY_SIZE then (INVALID_ARG, Zeros(REPLY_SIZE))
    else
      var q := ParseQuery(payload);
      if q.txHash == Zeros(32) then (NO_ERROR, CodeReply(BAD_QUERY, REPLY_SIZE))
      else if q.chainId !in chains then (NO_ERROR, CodeReply(CHAIN_UNSUPPORTED, REPLY_SIZE))
      else
        FetchedLogsOk(world, chains[q.chainId], q.txHash);
        AnswerReceipt(Fetch(world, chains[q.chainId], q.txHash), q.logIndex)
  }

  method HandleQuery(world: World, chains: map<nat, Chain>, payload: seq<byte>) returns (errorFlags: nat, reply: seq<byte>)
    ensures (errorFlags, reply) == Answer(world, chains, payload) && |reply| == REPLY_SIZE
    ensures errorFlags == NO_ERROR && CodeOf(reply) == SUCCESS ==>
      |payload| == QUERY_SIZE && exists receipt :: Justified(world, chains, ParseQuery(payload), receipt)
                                                   && DecodeLog(reply) == Some(receipt.logs[ParseQuery(payload).logIndex])
    ensures |payload| == QUERY_SIZE ==> forall receipt :: Justified(world, chains, ParseQuery(payload), receipt) ==>
      errorFlags == NO_ERROR && reply == LogReply(receipt.logs[ParseQuery(payload).logIndex])
    ensures errorFlags != NO_ERROR ==> reply == Zeros(REPLY_SIZE)
    ensures errorFlags == NO_ERROR && CodeOf(reply) != SUCCESS ==> reply == CodeReply(CodeOf(reply), REPLY_SIZE)
  {
    hide LeNum, LeNat, LogReply, Fetch, LogOk, DecodeLog, CodeReply, CodeOf, Justified;
    RestIsZero(world, chains, payload);
    if |payload| == QUERY_SIZE {
      ghost var receipt := SuccessExactly(world, chains, payload);
    }
    if |payload| != QUERY_SIZE {
      return INVALID_ARG, Zeros(REPLY_SIZE);
    }
    var q := ParseQuery(payload);
    if q.txHash == Zeros(32) {
      return NO_ERROR, CodeReply(BAD_QUERY, REPLY_SIZE);
    }
    if q.chainId !in chains {
      return NO_ERROR, CodeReply(CHAIN_UNSUPPORTED, REPLY_SIZE);
    }
    FetchedLogsOk(world, chains[q.chainId], q.txHash);
    var out := GetReceipt(world, chains[q.chainId], q.txHash);
    if out.Abstain? {
      return ORACLE_UNAVAIL, Zeros(REPLY_SIZE);
    }
    if out.receipt.None? {
      return NO_ERROR, CodeReply(TX_NOT_FOUND, REPLY_SIZE);
    }
    var receipt := out.receipt.value;
    if !out.finalized || receipt.status != 1 {
      return NO_ERROR, CodeReply(TX_NOT_FINALIZED, REPLY_SIZE);
    }
    if q.logIndex >= |receipt.logs| {
      return NO_ERROR, CodeReply(LOG_INDEX_OUT_OF_RANGE, REPLY_SIZE);
    }
    var log := receipt.logs[q.logIndex];
    if |log.data| > 256 {
      return NO_ERROR, CodeReply(LOG_DATA_TOO_LARGE, REPLY_SIZE);
    }
    if |log.topics| > 4 {
      return ORACLE_UNAVAIL, Zeros(REPLY_SIZE);
    }
    reply := EncodeLog(log);
    return NO_ERROR, reply;
  }

  /** Every endpoint returned this very receipt, of a successful transaction, in a block final for all of them. */
  predicate Confirmed(world: World, chain: Chain, tx: seq<byte>, receipt: Receipt)
  {
    && (forall e :: e in chain.endpoints ==> Normalized(world.receipt(e, tx)) == Answered(Some(receipt)))
    && receipt.status == 1 && Final(world, chain, receipt.blockNumber)
  }

  predicate Succeeds(r: (nat, seq<byte>))
    requires |r.1| == REPLY_SIZE
  {
    r.0 == NO_ERROR && CodeOf(r.1) == SUCCESS
  }

  /** The log this reply carries is the one asked for in a receipt that every endpoint confirmed. */
  predicate Justified(world: World, chains: map<nat, Chain>, q: Query, receipt: Receipt)
  {
    && q.txHash != Zeros(32) && q.chainId in chains && chains[q.chainId].endpoints != []
    && Confirmed(world, chains[q.chainId], q.txHash, receipt)
    && q.logIndex < |receipt.logs| && Encodable(receipt.logs[q.logIndex])
  }

  lemma FetchedExactly(world: World, chain: Chain, tx: seq<byte>, receipt: Receipt)
    requires chain.endpoints != []
    ensures Fetch(world, chain, tx) == Fetched(Some(receipt), true) && receipt.status == 1 <==> Confirmed(world, chain, tx, receipt)
  {
    hide Normalized, FinalizedHead, Agreed;
    var answers := Receipts(world, chain, tx);
    AgreedExactly(answers, Some(receipt));
    assert forall i :: 0 <= i < |answers| ==> answers[i] == Normalized(world.receipt(chain.endpoints[i], tx));
    if Unanimous(answers, Some(receipt)) {
      forall e | e in chain.endpoints
        ensures Normalized(world.receipt(e, tx)) == Answered(Some(receipt))
      {
        var i :| 0 <= i < |answers| && chain.endpoints[i] == e;
        assert answers[i] == Answered(Some(receipt));
      }
    }
    if Confirmed(world, chain, tx, receipt) {
      assert Unanimous(answers, Some(receipt));
      assert HeadsKnown(world, chain);
    }
  }

  /** Success means a justified log, and every justified log is answered with success. */
  lemma SuccessExactly(world: World, chains: map<nat, Chain>, payload: seq<byte>) returns (receipt: Receipt)
    requires |payload| == QUERY_SIZE
    ensures Succeeds(Answer(world, chains, payload)) ==>
      && Justified(world, chains, ParseQuery(payload), receipt)
      && DecodeLog(Answer(world, chains, payload).1) == Some(receipt.logs[ParseQuery(payload).logIndex])
    ensures forall r :: Justified(world, chains, ParseQuery(payload), r) ==>
      Answer(world, chains, payload) == (NO_ERROR, LogReply(r.logs[ParseQuery(payload).logIndex])) && r == receipt
  {
    hide LeNat, LeNum, Fetch, Confirmed, LogReply, DecodeLog, CodeOf, CodeReply, LogOk;
    var q := ParseQuery(payload);
    receipt := Receipt(0, 0, [], []);
    CodeOfCodeReply(BAD_QUERY, REPLY_SIZE);
    CodeOfCodeReply(CHAIN_UNSUPPORTED, REPLY_SIZE);
    if q.txHash == Zeros(32) || q.chainId !in chains {
      return;
    }
    var chain := chains[q.chainId];
    var out := Fetch(world, chain, q.txHash);
    if out.Fetched? && out.receipt.Some? {
      receipt := out.receipt.value;
    }
    FetchedLogsOk(world, chain, q.txHash);
    AnswerReceiptSucceeds(out, q.logIndex);
    forall r | Justified(world, chains, q, r)
      ensures Answer(world, chains, payload) == (NO_ERROR, LogReply(r.logs[q.logIndex])) && r == receipt
    {
      FetchedExactly(world, chain, q.txHash, r);
    }
    if Succeeds(Answer(world, chains, payload)) {
      NoEndpoints(world, chain, q.txHash);
      FetchedExactly(world, chain, q.txHash, receipt);
    }
  }

  lemma NoEndpoints(world: World, chain: Chain, tx: seq<byte>)
    ensures chain.endpoints == [] ==> Fetch(world, chain, tx) == Fetched(None, false)
  {
  }

  lemma AnswerReceiptSucceeds(out: Outcome, logIndex: nat)
    requires out.Fetched? && out.receipt.Some? ==> forall log :: log in out.receipt.value.logs ==> LogOk(log)
    ensures Succeeds(AnswerReceipt(out, logIndex)) <==>
      && out.Fetched? && out.receipt.Some? && out.finalized && out.receipt.value.status == 1
      && logIndex < |out.receipt.value.logs| && Encodable(out.receipt.value.logs[logIndex])
    ensures Succeeds(AnswerReceipt(out, logIndex)) ==>
      DecodeLog(AnswerReceipt(out, logIndex).1) == Some(out.receipt.value.logs[logIndex])
  {
    hide LeNat, LeNum, LogReply, DecodeLog, CodeOf, CodeReply, LogOk;
    CodeOfCodeReply(TX_NOT_FOUND, REPLY_SIZE);
    CodeOfCodeReply(TX_NOT_FINALIZED, REPLY_SIZE);
    CodeOfCodeReply(LOG_INDEX_OUT_OF_RANGE, REPLY_SIZE);
    CodeOfCodeReply(LOG_DATA_TOO_LARGE, REPLY_SIZE);
    if out.Fetched? && out.receipt.Some? && logIndex < |out.receipt.value.logs| {
      var log := out.receipt.value.logs[logIndex];
      assert LogOk(log);
      if Encodable(log) {
        LogRoundTrip(log);
      }
    }
  }

  /** Everything after a non-zero code, and the whole reply under an error flag, is zero. */
  lemma RestIsZero(world: World, chains: map<nat, Chain>, payload: seq<byte>)
    ensures
      var r := Answer(world, chains, payload);
      && (r.0 != NO_ERROR ==> r.1 == Zeros(REPLY_SIZE))
      && (r.0 == NO_ERROR && CodeOf(r.1) != SUCCESS ==> r.1 == CodeReply(CodeOf(r.1), REPLY_SIZE) && CodeOf(r.1) <= LOG_DATA_TOO_LARGE)
  {
    hide LeNat, LeNum, LogReply, CodeOf, CodeReply, Fetch, LogOk;
    CodeOfCodeReply(BAD_QUERY, REPLY_SIZE);
    CodeOfCodeReply(CHAIN_UNSUPPORTED, REPLY_SIZE);
    CodeOfCodeReply(TX_NOT_FOUND, REPLY_SIZE);
    CodeOfCodeReply(TX_NOT_FINALIZED, REPLY_SIZE);
    CodeOfCodeReply(LOG_INDEX_OUT_OF_RANGE, REPLY_SIZE);
    CodeOfCodeReply(LOG_DATA_TOO_LARGE, REPLY_SIZE);
    if |payload| == QUERY_SIZE {
      var q := ParseQuery(payload);
      if q.chainId in chains {
        FetchedLogsOk(world, chains[q.chainId], q.txHash);
        AnswerReceiptSucceeds(Fetch(world, chains[q.chainId], q.txHash), q.logIndex);
      }
    }
  }

  /** Two configurations that list the same endpoints answer alike, octet for octet. */
  lemma AnswerIgnoresOrder(world: World, a: map<nat, Chain>, b: map<nat, Chain>, payload: seq<byte>)
    requires a.Keys == b.Keys
    requires forall c :: c in a ==> SameMembers(a[c].endpoints, b[c].endpoints) && a[c].minConfirmations == b[c].minConfirmations
    ensures Answer(world, a, payload) == Answer(world, b, payload)
  {
    hide Fetch, LeNum, CodeReply, LogReply;
    if |payload| == QUERY_SIZE {
      var q := ParseQuery(payload);
      if q.chainId in a {
        FetchIgnoresOrder(world, a[q.chainId], b[q.chainId], q.txHash);
      }
    }
  }

  /** One endpoint that fails, or two that differ, and the service abstains. */
  lemma DisagreementAbstains(world: World, chains: map<nat, Chain>, payload: seq<byte>, e: string, f: string)
    requires |payload| == QUERY_SIZE
    requires
      var q := ParseQuery(payload);
      && q.txHash != Zeros(32) && q.chainId in chains && e in chains[q.chainId].endpoints && f in chains[q.chainId].endpoints
      && var one, other := Normalized(world.receipt(e, q.txHash)), Normalized(world.receipt(f, q.txHash));
         one.Raised? || one != other
    ensures Answer(world, chains, payload) == (ORACLE_UNAVAIL, Zeros(REPLY_SIZE))
  {
    hide LeNum, Normalized, FinalizedHead;
    var q := ParseQuery(payload);
    var chain := chains[q.chainId];
    var answers := Receipts(world, chain, q.txHash);
    var i :| 0 <= i < |answers| && chain.endpoints[i] == e;
    var j :| 0 <= j < |answers| && chain.endpoints[j] == f;
    assert answers[i] == Normalized(world.receipt(e, q.txHash));
    assert answers[j] == Normalized(world.receipt(f, q.txHash));
  }

  /** Not found is said exactly when every endpoint says so. */
  lemma NotFoundExactly(world: World, chains: map<nat, Chain>, payload: seq<byte>)
    requires |payload| == QUERY_SIZE
    requires
      var q := ParseQuery(payload);
      q.txHash != Zeros(32) && q.chainId in chains && chains[q.chainId].endpoints != []
    ensures
      var q := ParseQuery(payload);
      Answer(world, chains, payload) == (NO_ERROR, CodeReply(TX_NOT_FOUND, REPLY_SIZE)) <==>
      forall e :: e in chains[q.chainId].endpoints ==> world.receipt(e, q.txHash) == Answered(None)
  {
    hide LeNum, LeNat, FinalizedHead, Agreed, LogReply, CodeReply, CodeOf, DecodeLog;
    var q := ParseQuery(payload);
    var chain := chains[q.chainId];
    var answers := Receipts(world, chain, q.txHash);
    AgreedExactly(answers, None);
    FetchedLogsOk(world, chain, q.txHash);
    AnswerReceiptSucceeds(Fetch(world, chain, q.txHash), q.logIndex);
    CodeOfCodeReply(TX_NOT_FOUND, REPLY_SIZE);
    CodeOfCodeReply(TX_NOT_FINALIZED, REPLY_SIZE);
    CodeOfCodeReply(LOG_INDEX_OUT_OF_RANGE, REPLY_SIZE);
    CodeOfCodeReply(LOG_DATA_TOO_LARGE, REPLY_SIZE);
    assert Unanimous(answers, None) <==> forall e :: e in chain.endpoints ==> world.receipt(e, q.txHash) == Answered(None) by {
      if Unanimous(answers, None) {
        forall e | e in chain.endpoints
          ensures world.receipt(e, q.txHash) == Answered(None)
        {
          var i :| 0 <= i < |answers| && chain.endpoints[i] == e;
          assert answers[i] == Answered(None);
        }
      }
    }
  }
}
