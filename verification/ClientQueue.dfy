/**
  The request queue of interface_client.cpp as interleaved atomic steps: any number of
  callers pass the running check, take a number and push; one worker takes, processes and
  calls back; stop clears the flag, waits for the worker and empties the queue; start may
  follow. Requests are named by the order in which they took their number.
 */
module ClientQueue {
  /** Worker: not running, at its loop test, inside the wait, or with a request in hand. */
  datatype Worker = Off | AtTest | Waiting | Holding(pos: nat)

  datatype Stopper = Idle | Signalled | WorkerJoined

  datatype State = State(
    running: bool,
    passed: nat,
    counter: nat,
    requestId: nat,
    ids: map<nat, nat>,
    pending: set<nat>,
    pushed: seq<nat>,
    next: nat,
    queue: seq<nat>,
    called: seq<nat>,
    discarded: set<nat>,
    worker: Worker,
    stopper: Stopper)
  // requestId is the 32-bit counter and ids what each request took from it; counter, pushed,
  // called (positions in pushed), discarded (positions) and next are history.

  ghost predicate Init(s: State)
  {
    s == State(false, 0, 0, 0, map[], {}, [], 0, [], [], {}, Off, Idle)
  }

  predicate Between(lo: nat, p: nat, hi: nat)
  {
    lo <= p < hi
  }

  function Positions(lo: nat, hi: nat): set<nat>
  {
    set p: nat | lo <= p < hi && Between(lo, p, hi)
  }

  // start, stop

  ghost predicate Starts(s: State, s': State)
  {
    !s.running && s.worker == Off && s.stopper == Idle && s' == s.(running := true, worker := AtTest)
  }

  ghost predicate StopStep(s: State, s': State)
  {
    match s.stopper
    case Idle => s.running && s' == s.(running := false, stopper := Signalled)
    case Signalled => s.worker == Off && s' == s.(stopper := WorkerJoined)
    case WorkerJoined =>
      s' == s.(stopper := Idle, queue := [], next := |s.pushed|,
               discarded := s.discarded + Positions(s.next, |s.pushed|))
  }

  // queryAsync

  ghost predicate Passes(s: State, s': State)
  {
    s.running && s' == s.(passed := s.passed + 1)
  }

  ghost predicate TakesNumber(s: State, s': State)
  {
    && s.passed > 0
    && s' == s.(passed := s.passed - 1, counter := s.counter + 1, pending := s.pending + {s.counter},
                requestId := (s.requestId + 1) % 0x1_0000_0000, ids := s.ids[s.counter := s.requestId])
  }

  ghost predicate Pushes(s: State, n: nat, s': State)
  {
    n in s.pending && s' == s.(pending := s.pending - {n}, queue := s.queue + [n], pushed := s.pushed + [n])
  }

  // workerThread: a request that is queued is taken even after running has been cleared

  ghost predicate WorkerStep(s: State, s': State)
  {
    match s.worker
    case Off => false
    case AtTest => s' == s.(worker := if s.running then Waiting else Off)
    case Waiting =>
      if s.queue != [] then s' == s.(worker := Holding(s.next), queue := s.queue[1..], next := s.next + 1)
      else !s.running && s' == s.(worker := Off)
    case Holding(p) => s' == s.(worker := AtTest, called := s.called + [p])
  }

  ghost predicate Next(s: State, s': State)
  {
    || Starts(s, s') || StopStep(s, s') || Passes(s, s') || TakesNumber(s, s') || WorkerStep(s, s')
    || exists n :: Pushes(s, n, s')
  }

  /** The queue is what has been pushed and not yet taken. */
  ghost predicate QueueInv(s: State)
  {
    && s.next <= |s.pushed| && s.queue == s.pushed[s.next..]
    && (forall i, j :: 0 <= i < j < |s.pushed| ==> s.pushed[i] != s.pushed[j])
    && (forall n :: n in s.pending ==> n < s.counter && n !in s.pushed)
    && (forall n :: n in s.pushed ==> n < s.counter)
    && (forall n: nat :: n < s.counter ==> n in s.pending || n in s.pushed)
    && s.requestId == s.counter % 0x1_0000_0000
    && (forall n: nat :: n < s.counter ==> n in s.ids && s.ids[n] == n % 0x1_0000_0000)
  }

  /** Every position taken from the queue was called back, is in hand, or was discarded. */
  ghost predicate TakenInv(s: State)
  {
    && s.next <= |s.pushed|
    && (forall i, j :: 0 <= i < j < |s.called| ==> s.called[i] < s.called[j])
    && (forall p :: p in s.called ==> p < s.next && p !in s.discarded)
    && (forall p :: p in s.discarded ==> p < s.next)
    && (s.worker.Holding? ==>
          s.worker.pos < s.next && s.worker.pos !in s.discarded && forall p :: p in s.called ==> p < s.worker.pos)
    && (forall p: nat :: p < s.next ==> p in s.called || p in s.discarded || s.worker == Holding(p))
    && (s.stopper == WorkerJoined ==> s.worker == Off)
    && (s.stopper != Idle ==> !s.running)
    && (s.running ==> s.worker != Off)
  }

  ghost predicate Inv(s: State)
  {
    QueueInv(s) && TakenInv(s)
  }

  lemma NextKeepsInv(s: State, s': State)
    requires Inv(s) && Next(s, s')
    ensures Inv(s')
  {
    hide QueueInv, TakenInv, Starts, StopStep, Passes, TakesNumber, WorkerStep, Pushes;
    if Starts(s, s') || Passes(s, s') || TakesNumber(s, s') || exists n :: Pushes(s, n, s') {
      CallersKeepQueue(s, s');
      CallersKeepTaken(s, s');
    } else if StopStep(s, s') {
      StopKeeps(s, s');
    } else {
      WorkerKeeps(s, s');
    }
  }

  lemma CallersKeepQueue(s: State, s': State)
    requires QueueInv(s)
    requires Starts(s, s') || Passes(s, s') || TakesNumber(s, s') || exists n :: Pushes(s, n, s')
    ensures QueueInv(s')
  {
  }

  lemma CallersKeepTaken(s: State, s': State)
    requires TakenInv(s)
    requires Starts(s, s') || Passes(s, s') || TakesNumber(s, s') || exists n :: Pushes(s, n, s')
    ensures TakenInv(s')
  {
  }

  lemma StopKeeps(s: State, s': State)
    requires Inv(s) && StopStep(s, s')
    ensures Inv(s')
  {
    if s.stopper == WorkerJoined {
      forall p: nat | p < s'.next ensures p in s'.called || p in s'.discarded {
        if p >= s.next {
          assert Between(s.next, p, |s.pushed|);
        }
      }
    }
  }

  lemma WorkerKeeps(s: State, s': State)
    requires Inv(s) && WorkerStep(s, s')
    ensures Inv(s')
  {
    if s.worker.Holding? {
      assert s'.called[|s.called|] == s.worker.pos;
      assert forall p :: p in s'.called <==> p in s.called || p == s.worker.pos;
      assert forall i :: 0 <= i < |s.called| ==> s.called[i] in s.called;
    }
  }

  ghost predicate Behaviour(ss: seq<State>)
  {
    ss != [] && Init(ss[0]) && forall i :: 0 <= i < |ss| - 1 ==> Next(ss[i], ss[i + 1])
  }

  lemma {:induction false} Reachable(ss: seq<State>, i: nat)
    requires Behaviour(ss) && i < |ss|
    ensures Inv(ss[i])
  {
    hide Inv, Next, Init;
    if i == 0 {
      InitInv(ss[0]);
    } else {
      Reachable(ss, i - 1);
      NextKeepsInv(ss[i - 1], ss[i]);
    }
  }

  lemma InitInv(s: State)
    requires Init(s)
    ensures Inv(s)
  {
  }

  // ---------------------------------------------------------------------------- places

  datatype Place = AboutToPush | Queued | InHand | CalledBack | Discarded

  ghost predicate IsAt(s: State, n: nat, place: Place)
  {
    match place
    case AboutToPush => n in s.pending
    case Queued => n in s.queue
    case InHand => s.worker.Holding? && s.worker.pos < |s.pushed| && s.pushed[s.worker.pos] == n
    case CalledBack => exists p :: p in s.called && p < |s.pushed| && s.pushed[p] == n
    case Discarded => exists p :: p in s.discarded && p < |s.pushed| && s.pushed[p] == n
  }

  /** Where the request pushed at position p is, in terms of p. */
  lemma AtPosition(s: State, n: nat, p: nat)
    requires Inv(s) && p < |s.pushed| && s.pushed[p] == n
    ensures n !in s.pending
    ensures IsAt(s, n, Queued) <==> p >= s.next
    ensures IsAt(s, n, InHand) <==> s.worker == Holding(p)
    ensures IsAt(s, n, CalledBack) <==> p in s.called
    ensures IsAt(s, n, Discarded) <==> p in s.discarded
  {
    if p >= s.next {
      assert s.queue[p - s.next] == n;
    }
  }

  /** In every reachable state every accepted request is in exactly one place. */
  lemma ExactlyOnePlace(ss: seq<State>, i: nat, n: nat) returns (place: Place)
    requires Behaviour(ss) && i < |ss| && n < ss[i].counter
    ensures IsAt(ss[i], n, place)
    ensures forall other :: IsAt(ss[i], n, other) ==> other == place
  {
    Reachable(ss, i);
    var s := ss[i];
    if n in s.pending {
      place := AboutToPush;
    } else {
      var p: nat :| p < |s.pushed| && s.pushed[p] == n;
      AtPosition(s, n, p);
      place :=
        if p >= s.next then Queued
        else if p in s.called then CalledBack
        else if p in s.discarded then Discarded
        else InHand;
    }
  }

  /** Callbacks run in push order, no request twice, and only for requests that were pushed. */
  lemma CallbacksInPushOrder(ss: seq<State>, i: nat)
    requires Behaviour(ss) && i < |ss|
    ensures forall a :: 0 <= a < |ss[i].called| ==> ss[i].called[a] < |ss[i].pushed|
    ensures forall a, b :: 0 <= a < b < |ss[i].called| ==>
      ss[i].called[a] < ss[i].called[b] && ss[i].pushed[ss[i].called[a]] != ss[i].pushed[ss[i].called[b]]
  {
    Reachable(ss, i);
    assert forall a :: 0 <= a < |ss[i].called| ==> ss[i].called[a] in ss[i].called;
  }

  // ------------------------------------------------------------------------ after stop

  /** Step i is the one in which stop empties the queue. */
  ghost predicate ClearedAt(ss: seq<State>, i: nat)
  {
    0 < i < |ss| && ss[i - 1].stopper == WorkerJoined && ss[i].stopper == Idle
  }

  /** A caller has passed the running check or taken a number and has not pushed yet. */
  predicate UnderWay(s: State)
  {
    s.passed > 0 || s.pending != {}
  }

  lemma ClearStep(s: State, s': State)
    requires TakenInv(s) && Next(s, s') && s.stopper == WorkerJoined && s'.stopper == Idle
    ensures s'.worker == Off && !s'.running && s'.next == |s'.pushed| && s'.queue == []
  {
  }

  lemma ClearedOff(ss: seq<State>, i: nat)
    requires Behaviour(ss) && ClearedAt(ss, i)
    ensures ss[i].worker == Off && !ss[i].running && ss[i].next == |ss[i].pushed| && ss[i].queue == []
  {
    hide Init, QueueInv, TakenInv, Next;
    Reachable(ss, i - 1);
    ClearStep(ss[i - 1], ss[i]);
  }

  /** While no worker is started, what is in the queue came there after the clear. */
  lemma {:induction false} LeftBehind(ss: seq<State>, i: nat, j: nat)
    requires Behaviour(ss) && ClearedAt(ss, i) && i <= j < |ss|
    requires forall k :: i <= k <= j ==> ss[k].worker == Off
    ensures ss[j].next == |ss[i].pushed| && ss[j].called == ss[i].called && ss[j].stopper == Idle && !ss[j].running
    ensures ss[i].pushed <= ss[j].pushed && ss[j].queue == ss[j].pushed[|ss[i].pushed|..]
  {
    hide Init, Next, TakenInv, QueueInv;
    ClearedOff(ss, i);
    Reachable(ss, j);
    QueueOf(ss[j]);
    if i < j {
      LeftBehind(ss, i, j - 1);
      IdleStep(ss[j - 1], ss[j]);
    }
  }

  lemma QueueOf(s: State)
    requires QueueInv(s)
    ensures s.next <= |s.pushed| && s.queue == s.pushed[s.next..]
  {
  }

  /** With the worker off and stop done, only callers under way can move. */
  lemma IdleStep(s: State, s': State)
    requires Next(s, s') && s.worker == Off && s.stopper == Idle && !s.running && s'.worker == Off
    ensures s'.next == s.next && s'.called == s.called && s'.stopper == Idle && !s'.running && s.pushed <= s'.pushed
    ensures UnderWay(s)
  {
  }

  /** If no caller is under way at the clear, the queue is empty and only a new start can follow. */
  lemma NothingLeftBehind(ss: seq<State>, i: nat)
    requires Behaviour(ss) && ClearedAt(ss, i) && !UnderWay(ss[i])
    ensures ss[i].queue == [] && (i + 1 < |ss| ==> Starts(ss[i], ss[i + 1]))
  {
    hide Init, QueueInv, TakenInv;
    ClearedOff(ss, i);
    if i + 1 < |ss| {
      assert Next(ss[i], ss[i + 1]);
    }
  }

  /** If one is, the run can go on, without a worker, to a state in which its request is queued. */
  lemma CanBeLeftBehind(ss: seq<State>) returns (more: seq<State>)
    requires Behaviour(ss) && ClearedAt(ss, |ss| - 1) && UnderWay(ss[|ss| - 1])
    ensures Behaviour(ss + more) && more != [] && more[|more| - 1].queue != []
    ensures forall k :: 0 <= k < |more| ==> more[k].worker == Off
  {
    hide Init;
    var s := ss[|ss| - 1];
    ClearedOff(ss, |ss| - 1);
    if s.pending != {} {
      more := [PushState(s)];
      Extends(ss, more[0]);
    } else {
      var taken := s.(passed := s.passed - 1, counter := s.counter + 1, pending := s.pending + {s.counter},
                      requestId := (s.requestId + 1) % 0x1_0000_0000, ids := s.ids[s.counter := s.requestId]);
      assert TakesNumber(s, taken);
      Extends(ss, taken);
      more := [taken, PushState(taken)];
      Extends(ss + [taken], more[1]);
      assert ss + [taken] + [more[1]] == ss + more;
    }
  }

  /** The run goes on from its last state, with no worker, to one in which a request is queued. */
  ghost predicate Strands(ss: seq<State>, more: seq<State>)
  {
    && Behaviour(ss + more) && more != [] && more[|more| - 1].queue != []
    && forall k :: 0 <= k < |more| ==> more[k].worker == Off
  }

  /** A request can be left behind by stop exactly when a caller is under way at the clear. */
  lemma LeftBehindExactly(ss: seq<State>)
    requires Behaviour(ss) && ClearedAt(ss, |ss| - 1)
    ensures (exists more :: Strands(ss, more)) <==> UnderWay(ss[|ss| - 1])
  {
    hide Init, Next;
    if UnderWay(ss[|ss| - 1]) {
      var more := CanBeLeftBehind(ss);
      assert Strands(ss, more);
    }
    forall more | Strands(ss, more)
      ensures UnderWay(ss[|ss| - 1])
    {
      if !UnderWay(ss[|ss| - 1]) {
        NothingLeftBehind(ss + more, |ss| - 1);
      }
    }
  }

  ghost function PushState(s: State): (s': State)
    requires s.pending != {}
    ensures Next(s, s') && s'.queue != [] && s'.worker == s.worker
  {
    var n :| n in s.pending;
    var s' := s.(pending := s.pending - {n}, queue := s.queue + [n], pushed := s.pushed + [n]);
    assert Pushes(s, n, s');
    s'
  }

  lemma Extends(ss: seq<State>, s: State)
    requires Behaviour(ss) && Next(ss[|ss| - 1], s)
    ensures Behaviour(ss + [s])
  {
    hide Next, Init;
  }

  /** A caller passes the check and stop runs to its end. */
  lemma StopWithCallerUnderWay() returns (ss: seq<State>)
    ensures Behaviour(ss) && |ss| == 7 && ClearedAt(ss, 6) && UnderWay(ss[6])
  {
    var s0 := State(false, 0, 0, 0, map[], {}, [], 0, [], [], {}, Off, Idle);
    var s1 := s0.(running := true, worker := AtTest);
    var s2 := s1.(passed := 1);
    var s3 := s2.(running := false, stopper := Signalled);
    var s4 := s3.(worker := Off);
    var s5 := s4.(stopper := WorkerJoined);
    var s6 := s5.(stopper := Idle);
    assert s5.discarded + Positions(0, 0) == s5.discarded;
    assert Starts(s0, s1) && Passes(s1, s2) && StopStep(s2, s3) && WorkerStep(s3, s4) && StopStep(s4, s5) && StopStep(s5, s6);
    ss := Path(s0, s1, s2, s3, s4, s5, s6);
  }

  lemma Path(s0: State, s1: State, s2: State, s3: State, s4: State, s5: State, s6: State) returns (ss: seq<State>)
    requires Init(s0) && Next(s0, s1) && Next(s1, s2) && Next(s2, s3) && Next(s3, s4) && Next(s4, s5) && Next(s5, s6)
    ensures ss == [s0, s1, s2, s3, s4, s5, s6] && Behaviour(ss)
  {
    hide Next, Init;
    ss := [s0, s1, s2, s3, s4, s5, s6];
  }

  /** So there is a run in which a request stays queued with nobody to take it. */
  lemma StaysQueued() returns (ss: seq<State>)
    ensures Behaviour(ss) && ClearedAt(ss, 6)
    ensures ss[|ss| - 1].worker == Off && ss[|ss| - 1].queue != []
  {
    hide Next, Init, Behaviour;
    var stopped := StopWithCallerUnderWay();
    var more := CanBeLeftBehind(stopped);
    ss := stopped + more;
  }

  /** Two requests fewer than 2^32 apart never carry the same id. */
  lemma IdsDistinct(ss: seq<State>, i: nat, m: nat, n: nat)
    requires Behaviour(ss) && i < |ss| && m < n < ss[i].counter && n < m + 0x1_0000_0000
    ensures m in ss[i].ids && n in ss[i].ids && ss[i].ids[m] != ss[i].ids[n]
  {
    hide TakenInv, Behaviour;
    Reachable(ss, i);
    assert m == m / 0x1_0000_0000 * 0x1_0000_0000 + m % 0x1_0000_0000;
    assert n == n / 0x1_0000_0000 * 0x1_0000_0000 + n % 0x1_0000_0000;
  }
}
