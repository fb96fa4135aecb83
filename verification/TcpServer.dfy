/**
  The thread and descriptor bookkeeping of tcp_server.cpp as interleaved atomic steps of
  the accept thread, the client threads, the thread that stops the server, and the rest of
  the process, which also opens and closes descriptors. The kernel hands out any number
  that is not in use, and a thread id may be used again once its thread has been joined.
 */
module TcpServer {

  type Fd = nat
  type Id = nat
  /** Connections and the threads that serve them, numbered in order of acceptance. */
  type Conn = nat

  datatype Owner = Of(conn: Conn) | Listening | Other

  /** Where a client thread is: in its session, past it, marked finished, off the list, or done. */
  datatype Phase = InSession | PastSession | Marked | Unlisted | Done

  datatype Thread = Thread(id: Id, fd: Fd, phase: Phase)

  datatype Acceptor =
    | Top
    | Got(fd: Fd, conn: Conn)
    | Listed(fd: Fd, conn: Conn)
    | Cleaning(fd: Fd, conn: Conn, toJoin: seq<Conn>)
    | Exited

  datatype Stopper =
    | Running | Requested | SocketClosed | AcceptJoined | ShutDown(next: nat) | Joined | Cleared

  datatype State = State(
    open: map<Fd, Owner>,
    server: Fd,
    active: seq<Fd>,
    threads: map<Conn, Thread>,
    clientThreads: seq<Conn>,
    finished: set<Id>,
    joined: seq<Conn>,
    acceptor: Acceptor,
    stopper: Stopper)

  // --------------------------------------------------------------------------- helpers

  ghost predicate NoDup<T>(xs: seq<T>)
  {
    forall i, j :: 0 <= i < j < |xs| ==> xs[i] != xs[j]
  }

  /** std::find and erase: the first occurrence goes. */
  function Remove<T(==)>(xs: seq<T>, x: T): seq<T>
  {
    if xs == [] then [] else if xs[0] == x then xs[1..] else [xs[0]] + Remove(xs[1..], x)
  }

  /** The scan of cleanupFinishedThreads: what stays, what is to be joined, the ids left over. */
  function Scan(threads: map<Conn, Thread>, cs: seq<Conn>, finished: set<Id>): (r: (seq<Conn>, seq<Conn>, set<Id>))
    requires forall c :: c in cs ==> c in threads
  {
    if cs == [] then ([], [], finished) else
      var id := threads[cs[0]].id;
      if id in finished then
        var (keep, toJoin, left) := Scan(threads, cs[1..], finished - {id});
        (keep, [cs[0]] + toJoin, left)
      else
        var (keep, toJoin, left) := Scan(threads, cs[1..], finished);
        ([cs[0]] + keep, toJoin, left)
  }

  predicate PastMark(p: Phase)
  {
    p == Marked || p == Unlisted || p == Done
  }

  // ----------------------------------------------------------------------------- steps

  ghost predicate Init(s: State)
  {
    && s.server in s.open && s.open[s.server] == Listening
    && (forall fd :: fd in s.open ==> !s.open[fd].Of? && (s.open[fd] == Listening ==> fd == s.server))
    && s.active == [] && s.threads == map[] && s.clientThreads == [] && s.finished == {} && s.joined == []
    && s.acceptor == Top && s.stopper == Running
  }

  ghost predicate Unjoined(s: State, c: Conn)
  {
    c in s.threads && c !in s.joined
  }

  // The rest of the process.
  ghost predicate OtherOpens(s: State, s': State)
  {
    exists fd: Fd :: fd !in s.open && s' == s.(open := s.open[fd := Other])
  }

  ghost predicate OtherCloses(s: State, s': State)
  {
    exists fd: Fd :: fd in s.open && s.open[fd] == Other && s' == s.(open := s.open - {fd})
  }

  // The accept thread.
  ghost predicate Accepts(s: State, s': State)
  {
    && s.acceptor == Top && s.stopper in {Running, Requested}
    && exists fd: Fd, c: Conn :: fd !in s.open && c !in s.threads
                       && s' == s.(open := s.open[fd := Of(c)], acceptor := Got(fd, c))
  }

  ghost predicate Rejects(s: State, s': State)
  {
    s.acceptor.Got? && s' == s.(open := s.open - {s.acceptor.fd}, acceptor := Top)
  }

  ghost predicate Lists(s: State, s': State)
  {
    && s.acceptor.Got?
    && s' == s.(active := s.active + [s.acceptor.fd], acceptor := Listed(s.acceptor.fd, s.acceptor.conn))
  }

  ghost predicate Scans(s: State, s': State)
    requires forall c :: c in s.clientThreads ==> c in s.threads
  {
    && s.acceptor.Listed?
    && var (keep, toJoin, left) := Scan(s.threads, s.clientThreads, s.finished);
       s' == s.(clientThreads := keep, finished := left,
                acceptor := Cleaning(s.acceptor.fd, s.acceptor.conn, toJoin))
  }

  /** join blocks until the thread has returned. */
  ghost predicate CleanupJoins(s: State, s': State)
  {
    && s.acceptor.Cleaning? && s.acceptor.toJoin != []
    && var c := s.acceptor.toJoin[0];
       && c in s.threads && s.threads[c].phase == Done
       && s' == s.(joined := s.joined + [c],
                   acceptor := Cleaning(s.acceptor.fd, s.acceptor.conn, s.acceptor.toJoin[1..]))
  }

  ghost predicate Spawns(s: State, s': State)
  {
    && s.acceptor.Cleaning? && s.acceptor.toJoin == []
    && exists id: Id :: (forall c :: Unjoined(s, c) ==> s.threads[c].id != id)
                    && s' == s.(threads := s.threads[s.acceptor.conn := Thread(id, s.acceptor.fd, InSession)],
                                clientThreads := s.clientThreads + [s.acceptor.conn],
                                acceptor := Top)
  }

  ghost predicate AcceptExits(s: State, s': State)
  {
    s.acceptor == Top && s.stopper != Running && s' == s.(acceptor := Exited)
  }

  // A client thread.
  ghost predicate ClientStep(s: State, c: Conn, s': State)
  {
    && c in s.threads
    && var t := s.threads[c];
       match t.phase
       case InSession => s' == s.(threads := s.threads[c := t.(phase := PastSession)])
       case PastSession => s' == s.(threads := s.threads[c := t.(phase := Marked)], finished := s.finished + {t.id})
       case Marked => s' == s.(threads := s.threads[c := t.(phase := Unlisted)], active := Remove(s.active, t.fd))
       case Unlisted => s' == s.(threads := s.threads[c := t.(phase := Done)], open := s.open - {t.fd})
       case Done => false
  }

  // The stopping thread.
  ghost predicate StopStep(s: State, s': State)
  {
    match s.stopper
    case Running => s' == s.(stopper := Requested)
    case Requested => s' == s.(stopper := SocketClosed, open := s.open - {s.server})
    case SocketClosed => s.acceptor == Exited && s' == s.(stopper := AcceptJoined)
    case AcceptJoined => s' == s.(stopper := ShutDown(0))
    case ShutDown(k) =>
      if k < |s.clientThreads| then
        && s.clientThreads[k] in s.threads && s.threads[s.clientThreads[k]].phase == Done
        && s' == s.(stopper := ShutDown(k + 1), joined := s.joined + [s.clientThreads[k]])
      else s' == s.(stopper := Joined)
    case Joined => s' == s.(stopper := Cleared, clientThreads := [], finished := {}, active := [])
    case Cleared => false
  }

  ghost predicate Next(s: State, s': State)
    requires forall c :: c in s.clientThreads ==> c in s.threads
  {
    || OtherOpens(s, s') || OtherCloses(s, s')
    || Accepts(s, s') || Rejects(s, s') || Lists(s, s') || Scans(s, s') || CleanupJoins(s, s') || Spawns(s, s')
    || AcceptExits(s, s')
    || (exists c :: ClientStep(s, c, s'))
    || StopStep(s, s')
  }

  // ------------------------------------------------------------------------- invariant

  /** Connection c still owns descriptor fd. */
  predicate Holds(s: State, c: Conn, fd: Fd)
  {
    || (c in s.threads && s.threads[c].fd == fd && s.threads[c].phase != Done)
    || ((s.acceptor.Got? || s.acceptor.Listed? || s.acceptor.Cleaning?) && s.acceptor.fd == fd && s.acceptor.conn == c)
  }

  /** Connection c is one whose descriptor is on the active list. */
  predicate OnList(s: State, c: Conn, fd: Fd)
  {
    || (c in s.threads && s.threads[c].fd == fd && s.threads[c].phase in {InSession, PastSession, Marked})
    || ((s.acceptor.Listed? || s.acceptor.Cleaning?) && s.acceptor.fd == fd && s.acceptor.conn == c)
  }

  /** Descriptors: the kernel table and the connections agree, with one owner each. */
  ghost predicate FdsInv(s: State)
  {
    && (forall fd :: fd in s.open && s.open[fd].Of? ==> Holds(s, s.open[fd].conn, fd))
    && (forall c :: c in s.threads && s.threads[c].phase != Done ==>
          s.threads[c].fd in s.open && s.open[s.threads[c].fd] == Of(c))
    && (s.acceptor.Got? || s.acceptor.Listed? || s.acceptor.Cleaning? ==>
          s.acceptor.fd in s.open && s.open[s.acceptor.fd] == Of(s.acceptor.conn) && s.acceptor.conn !in s.threads)
    && (s.server in s.open && s.stopper in {Running, Requested} ==> s.open[s.server] == Listening)
    && (s.stopper in {Running, Requested} ==> s.server in s.open)
  }

  /** The active list: no number twice, and exactly the descriptors of listed connections. */
  ghost predicate ListInv(s: State)
  {
    && NoDup(s.active)
    && forall fd :: fd in s.active <==> fd in s.open && s.open[fd].Of? && OnList(s, s.open[fd].conn, fd)
  }

  /** The threads whose objects the server still keeps. */
  function Kept(s: State): seq<Conn>
  {
    s.clientThreads + if s.acceptor.Cleaning? then s.acceptor.toJoin else []
  }

  /** Threads: kept once, joined once, and never lost. */
  ghost predicate ThreadsInv(s: State)
  {
    && NoDup(Kept(s)) && NoDup(s.joined)
    && (forall c :: c in Kept(s) ==> c in s.threads)
    && (forall c :: c in s.joined ==> c in s.threads && s.threads[c].phase == Done)
    && (forall c :: c in s.threads ==> c in Kept(s) || c in s.joined)
    && (s.stopper in {Running, Requested, SocketClosed, AcceptJoined} ==>
          forall c :: c in Kept(s) ==> c !in s.joined)
    && (s.stopper.ShutDown? ==>
          && s.stopper.next <= |s.clientThreads|
          && forall i :: 0 <= i < |s.clientThreads| ==> (s.clientThreads[i] in s.joined <==> i < s.stopper.next))
    && (s.stopper.Joined? ==> forall c :: c in Kept(s) ==> c in s.joined)
    && (s.stopper.Cleared? ==> s.clientThreads == [])
    && (s.stopper in {Running, Requested, SocketClosed} || s.acceptor == Exited)
  }

  /** Ids: those marked finished are the ids of kept threads past their session, and no others. */
  ghost predicate IdsInv(s: State)
  {
    && (forall c, d :: c in Kept(s) && d in Kept(s) && c in s.threads && d in s.threads && c != d ==>
          s.threads[c].id != s.threads[d].id)
    && (forall c :: c in s.clientThreads && c in s.threads ==>
          (s.threads[c].id in s.finished <==> PastMark(s.threads[c].phase)))
    && (forall id :: id in s.finished ==>
          exists c :: c in s.clientThreads && c in s.threads && s.threads[c].id == id)
    && (s.acceptor.Cleaning? ==>
          forall c :: c in s.acceptor.toJoin && c in s.threads ==> PastMark(s.threads[c].phase))
  }

  ghost predicate Inv(s: State)
  {
    FdsInv(s) && ListInv(s) && ThreadsInv(s) && IdsInv(s)
  }

  // ---------------------------------------------------------------------------- proofs

  lemma InitInv(s: State)
    requires Init(s)
    ensures Inv(s)
  {
  }

  /** Steps of the accept thread that touch no thread object. */
  lemma ThreadsUntouched(s: State, s': State)
    requires ThreadsInv(s) && IdsInv(s) && !s.acceptor.Cleaning? && !s'.acceptor.Cleaning?
    requires s'.threads == s.threads && s'.clientThreads == s.clientThreads && s'.finished == s.finished
    requires s'.joined == s.joined && s'.stopper == s.stopper && (s.acceptor == Exited ==> s'.acceptor == Exited)
    ensures ThreadsInv(s') && IdsInv(s')
  {
    assert Kept(s) == Kept(s');
  }

  /** Steps of others that touch neither threads nor the accept thread. */
  lemma OthersThreads(s: State, s': State)
    requires ThreadsInv(s) && IdsInv(s) && s' == s.(open := s'.open)
    ensures ThreadsInv(s') && IdsInv(s')
  {
    assert Kept(s) == Kept(s');
  }

  lemma OtherKeepsInv(s: State, s': State)
    requires Inv(s) && (OtherOpens(s, s') || OtherCloses(s, s'))
    ensures Inv(s')
  {
    hide ThreadsInv, IdsInv;
    OthersThreads(s, s');
  }

  lemma AcceptsKeepsInv(s: State, s': State)
    requires Inv(s) && (Accepts(s, s') || Rejects(s, s') || AcceptExits(s, s'))
    ensures Inv(s')
  {
    hide ThreadsInv, IdsInv;
    ThreadsUntouched(s, s');
  }

  lemma ListsKeepsInv(s: State, s': State)
    requires Inv(s) && Lists(s, s')
    ensures Inv(s')
  {
    hide ThreadsInv, IdsInv;
    ThreadsUntouched(s, s');
    assert s.acceptor.fd !in s.active;
  }

  lemma DropKeeps<T>(xs: seq<T>, n: nat)
    requires NoDup(xs) && n < |xs|
    ensures NoDup(xs[..n] + xs[n + 1..])
    ensures forall x :: x in xs <==> x == xs[n] || x in xs[..n] + xs[n + 1..]
    ensures xs[n] !in xs[..n] + xs[n + 1..]
  {
    var ys := xs[..n] + xs[n + 1..];
    forall x | x in xs ensures x == xs[n] || x in ys {
      var i :| 0 <= i < |xs| && xs[i] == x;
      if i < n {
        assert ys[i] == x;
      } else if i > n {
        assert ys[i - 1] == x;
      }
    }
  }

  lemma CleanupJoinsKeepsInv(s: State, s': State)
    requires Inv(s) && CleanupJoins(s, s')
    ensures Inv(s')
  {
    hide FdsInv, ListInv, ThreadsInv, IdsInv;
    CleanupJoinsFds(s, s');
    CleanupJoinsThreads(s, s');
    CleanupJoinsIds(s, s');
  }

  lemma CleanupJoinsFds(s: State, s': State)
    requires FdsInv(s) && ListInv(s) && CleanupJoins(s, s')
    ensures FdsInv(s') && ListInv(s')
  {
  }

  lemma CleanupJoinsThreads(s: State, s': State)
    requires ThreadsInv(s) && CleanupJoins(s, s')
    ensures ThreadsInv(s')
  {
    hide NoDup;
    var n, c := |s.clientThreads|, s.acceptor.toJoin[0];
    assert Kept(s)[n] == c && Kept(s') == Kept(s)[..n] + Kept(s)[n + 1..];
    DropKeeps(Kept(s), n);
    assert c in Kept(s);
    SnocNoDup(s.joined, c);
  }

  lemma SnocNoDup<T>(xs: seq<T>, x: T)
    requires NoDup(xs) && x !in xs
    ensures NoDup(xs + [x]) && forall y :: y in xs + [x] <==> y in xs || y == x
  {
  }

  lemma CleanupJoinsIds(s: State, s': State)
    requires IdsInv(s) && CleanupJoins(s, s')
    ensures IdsInv(s')
  {
    assert forall d :: d in s'.acceptor.toJoin ==> d in s.acceptor.toJoin;
    assert forall d :: d in Kept(s') ==> d in Kept(s);
  }

  lemma SpawnsKeepsInv(s: State, s': State)
    requires Inv(s) && Spawns(s, s')
    ensures Inv(s')
  {
    hide FdsInv, ListInv, ThreadsInv, IdsInv, Spawns;
    SpawnsFds(s, s');
    SpawnsThreads(s, s');
    SpawnsIds(s, s');
  }

  lemma SpawnsFds(s: State, s': State)
    requires FdsInv(s) && ListInv(s) && Spawns(s, s')
    ensures FdsInv(s') && ListInv(s')
  {
  }

  lemma SpawnsThreads(s: State, s': State)
    requires FdsInv(s) && ThreadsInv(s) && Spawns(s, s')
    ensures ThreadsInv(s')
  {
    hide NoDup;
    assert Kept(s) == s.clientThreads;
    assert Kept(s') == s.clientThreads + [s.acceptor.conn];
    SnocNoDup(Kept(s), s.acceptor.conn);
  }

  lemma SpawnsIds(s: State, s': State)
    requires FdsInv(s) && ThreadsInv(s) && IdsInv(s) && Spawns(s, s')
    ensures IdsInv(s')
  {
    hide FdsInv, NoDup;
    var conn := s.acceptor.conn;
    NewConnection(s);
    assert Kept(s) == s.clientThreads;
    assert Kept(s') == s.clientThreads + [conn];
    assert forall c :: c in Kept(s') <==> c in Kept(s) || c == conn;
    forall c | c in Kept(s)
      ensures Unjoined(s, c) && s'.threads[c] == s.threads[c] && s'.threads[conn].id != s.threads[c].id
    {
    }
    forall x | x in s'.finished
      ensures x != s'.threads[conn].id && exists c :: c in s'.clientThreads && c in s'.threads && s'.threads[c].id == x
    {
      var d :| d in s.clientThreads && d in s.threads && s.threads[d].id == x;
      assert d in s'.clientThreads && s'.threads[d].id == x;
    }
  }

  lemma NewConnection(s: State)
    requires FdsInv(s) && ThreadsInv(s) && s.acceptor.Cleaning?
    ensures s.acceptor.conn !in s.threads && s.acceptor.conn !in Kept(s)
  {
  }

  lemma {:induction false} RemoveFacts<T>(xs: seq<T>, x: T)
    requires NoDup(xs)
    ensures NoDup(Remove(xs, x))
    ensures forall y :: y in Remove(xs, x) <==> y in xs && y != x
  {
    if xs != [] {
      var rest := xs[1..];
      assert xs == [xs[0]] + rest;
      assert xs[0] !in rest;
      RemoveFacts(rest, x);
    }
  }

  /** The steps of a client thread. */
  lemma ClientKeepsInv(s: State, c: Conn, s': State)
    requires Inv(s) && ClientStep(s, c, s')
    ensures Inv(s')
  {
    ClientFds(s, c, s');
    ClientList(s, c, s');
    ClientThreads(s, c, s');
    ClientIds(s, c, s');
  }

  lemma ClientFds(s: State, c: Conn, s': State)
    requires FdsInv(s) && ClientStep(s, c, s')
    ensures FdsInv(s')
  {
  }

  lemma ClientList(s: State, c: Conn, s': State)
    requires FdsInv(s) && ListInv(s) && ClientStep(s, c, s')
    ensures ListInv(s')
  {
    if s.threads[c].phase == Marked {
      RemoveFacts(s.active, s.threads[c].fd);
    }
  }

  lemma ClientThreads(s: State, c: Conn, s': State)
    requires ThreadsInv(s) && ClientStep(s, c, s')
    ensures ThreadsInv(s')
  {
    assert Kept(s) == Kept(s');
  }

  lemma ClientIds(s: State, c: Conn, s': State)
    requires ThreadsInv(s) && IdsInv(s) && ClientStep(s, c, s')
    ensures IdsInv(s')
  {
    hide ThreadsInv;
    hide IdsInv;
    if s.threads[c].phase == PastSession {
      StillKept(s, c);
      MarkIds(s, c, s');
    } else {
      SamePhasesIds(s, s');
    }
  }

  /** A thread that has not marked itself is in the server's list. */
  lemma StillKept(s: State, c: Conn)
    requires ThreadsInv(s) && IdsInv(s) && c in s.threads && s.threads[c].phase == PastSession
    ensures c in s.clientThreads
  {
    assert c in Kept(s);
  }

  lemma MarkIds(s: State, c: Conn, s': State)
    requires IdsInv(s) && ClientStep(s, c, s') && s.threads[c].phase == PastSession && c in s.clientThreads
    ensures IdsInv(s')
  {
    assert forall d :: d in s.clientThreads ==> d in Kept(s);
    assert Kept(s) == Kept(s');
    forall id | id in s'.finished
      ensures exists d :: d in s'.clientThreads && d in s'.threads && s'.threads[d].id == id
    {
      if id == s.threads[c].id {
        assert c in s'.clientThreads && s'.threads[c].id == id;
      } else {
        var d :| d in s.clientThreads && d in s.threads && s.threads[d].id == id;
        assert d in s'.clientThreads && s'.threads[d].id == id;
      }
    }
  }

  lemma SamePhasesIds(s: State, s': State)
    requires IdsInv(s)
    requires s'.clientThreads == s.clientThreads && s'.finished == s.finished && s'.acceptor == s.acceptor
    requires s'.threads.Keys == s.threads.Keys
    requires forall d :: d in s.threads ==>
      s'.threads[d].id == s.threads[d].id && PastMark(s'.threads[d].phase) == PastMark(s.threads[d].phase)
    ensures IdsInv(s')
  {
    assert Kept(s) == Kept(s');
    forall id | id in s'.finished
      ensures exists d :: d in s'.clientThreads && d in s'.threads && s'.threads[d].id == id
    {
      var d :| d in s.clientThreads && d in s.threads && s.threads[d].id == id;
      assert d in s'.clientThreads && s'.threads[d].id == id;
    }
  }

  // The scan.

  lemma {:induction false} ScanFacts(threads: map<Conn, Thread>, cs: seq<Conn>, finished: set<Id>)
    requires NoDup(cs) && forall c :: c in cs ==> c in threads
    requires forall c, d :: c in cs && d in cs && c != d ==> threads[c].id != threads[d].id
    ensures
      var (keep, toJoin, left) := Scan(threads, cs, finished);
      && NoDup(keep) && NoDup(toJoin)
      && (forall c :: c in keep <==> c in cs && threads[c].id !in finished)
      && (forall c :: c in toJoin <==> c in cs && threads[c].id in finished)
      && left <= finished
      && (forall c :: c in cs ==> threads[c].id !in left)
      && (forall id :: id in finished && id !in left ==> exists c :: c in cs && threads[c].id == id)
  {
    if cs != [] {
      var c, rest := cs[0], cs[1..];
      var id := threads[c].id;
      assert cs == [c] + rest && c !in rest;
      ScanFacts(threads, rest, if id in finished then finished - {id} else finished);
    }
  }

  lemma ScansKeepsInv(s: State, s': State)
    requires Inv(s) && Scans(s, s')
    ensures Inv(s')
  {
    hide FdsInv, ListInv, ThreadsInv, IdsInv;
    KeptKnown(s);
    ScansScanned(s, s');
    ScansFds(s, s');
    ScansThreads(s, s');
    ScansIds(s, s');
  }

  lemma ScansScanned(s: State, s': State)
    requires ThreadsInv(s) && IdsInv(s) && (forall c :: c in s.clientThreads ==> c in s.threads) && Scans(s, s')
    ensures Scanned(s, s') && s'.finished == {}
  {
    assert Kept(s) == s.clientThreads;
    ScanFacts(s.threads, s.clientThreads, s.finished);
  }

  lemma ScansFds(s: State, s': State)
    requires FdsInv(s) && ListInv(s) && (forall c :: c in s.clientThreads ==> c in s.threads) && Scans(s, s')
    ensures FdsInv(s') && ListInv(s')
  {
    hide Scan;
  }

  ghost predicate Scanned(s: State, s': State)
  {
    && s.acceptor.Listed? && s'.acceptor.Cleaning?
    && s'.threads == s.threads && s'.joined == s.joined && s'.stopper == s.stopper
    && NoDup(s'.clientThreads) && NoDup(s'.acceptor.toJoin)
    && (forall c :: c in s'.clientThreads <==> c in s.clientThreads && c in s.threads && s.threads[c].id !in s.finished)
    && (forall c :: c in s'.acceptor.toJoin <==> c in s.clientThreads && c in s.threads && s.threads[c].id in s.finished)
    && s'.finished <= s.finished
    && (forall c :: c in s.clientThreads && c in s.threads ==> s.threads[c].id !in s'.finished)
  }

  lemma ScansThreads(s: State, s': State)
    requires ThreadsInv(s) && Scanned(s, s')
    ensures ThreadsInv(s')
  {
    assert Kept(s) == s.clientThreads;
    var a, b := s'.clientThreads, s'.acceptor.toJoin;
    assert forall c :: c in Kept(s') <==> c in a || c in b;
    ConcatNoDup(a, b);
  }

  lemma ConcatNoDup<T>(a: seq<T>, b: seq<T>)
    requires NoDup(a) && NoDup(b) && forall x :: x in a ==> x !in b
    ensures NoDup(a + b)
  {
    var ab := a + b;
    forall i, j | 0 <= i < j < |ab| ensures ab[i] != ab[j] {
      if i < |a| <= j {
        assert ab[i] in a && ab[j] in b;
      }
    }
  }

  lemma ScansIds(s: State, s': State)
    requires IdsInv(s) && Scanned(s, s') && s'.finished == {}
    ensures IdsInv(s')
  {
    assert Kept(s) == s.clientThreads;
    assert forall c :: c in Kept(s') <==> c in s'.clientThreads || c in s'.acceptor.toJoin;
    assert forall c :: c in Kept(s') ==> c in Kept(s);
  }

  // Stopping.

  lemma StopKeepsInv(s: State, s': State)
    requires Inv(s) && StopStep(s, s')
    ensures Inv(s')
  {
    match s.stopper
    case ShutDown(k) =>
      hide FdsInv, ListInv, ThreadsInv, IdsInv;
      StopJoinFds(s, s');
      StopJoinThreads(s, s');
      SamePhasesIds(s, s');
    case Joined =>
      AllGone(s);
      StopClears(s, s');
    case _ =>
      StopWaits(s, s');
  }

  lemma StopJoinFds(s: State, s': State)
    requires FdsInv(s) && ListInv(s) && StopStep(s, s') && s.stopper.ShutDown?
    ensures FdsInv(s') && ListInv(s')
  {
  }

  lemma StopClears(s: State, s': State)
    requires Inv(s) && StopStep(s, s') && s.stopper == Joined
    requires (forall c :: c in s.threads ==> c in s.joined && s.threads[c].phase == Done) && s.active == []
    ensures Inv(s')
  {
  }

  lemma StopWaits(s: State, s': State)
    requires Inv(s) && StopStep(s, s') && s.stopper in {Running, Requested, SocketClosed, AcceptJoined}
    ensures Inv(s')
  {
    hide FdsInv, ListInv, ThreadsInv, IdsInv;
    StopWaitsFds(s, s');
    StopWaitsThreads(s, s');
    SamePhasesIds(s, s');
  }

  lemma StopWaitsFds(s: State, s': State)
    requires FdsInv(s) && ListInv(s) && StopStep(s, s') && s.stopper in {Running, Requested, SocketClosed, AcceptJoined}
    ensures FdsInv(s') && ListInv(s')
  {
  }

  lemma StopWaitsThreads(s: State, s': State)
    requires ThreadsInv(s) && StopStep(s, s') && s.stopper in {Running, Requested, SocketClosed, AcceptJoined}
    ensures ThreadsInv(s')
  {
    assert Kept(s) == Kept(s');
  }

  lemma StopJoinThreads(s: State, s': State)
    requires ThreadsInv(s) && StopStep(s, s') && s.stopper.ShutDown?
    ensures ThreadsInv(s')
  {
    hide NoDup;
    assert Kept(s) == s.clientThreads == Kept(s');
    var k := s.stopper.next;
    if k < |s.clientThreads| {
      SnocNoDup(s.joined, s.clientThreads[k]);
      Distinct(s.clientThreads, k);
    }
  }

  lemma Distinct<T>(xs: seq<T>, k: nat)
    requires NoDup(xs) && k < |xs|
    ensures forall i :: 0 <= i < |xs| && i != k ==> xs[i] != xs[k]
  {
  }

  /** Once every kept thread is joined, no thread is running and no connection is open or listed. */
  lemma AllGone(s: State)
    requires Inv(s) && s.stopper in {Joined, Cleared}
    ensures forall c :: c in s.threads ==> c in s.joined && s.threads[c].phase == Done
    ensures forall fd :: fd in s.open ==> !s.open[fd].Of?
    ensures s.active == []
  {
    HasFirst(s.active);
  }

  lemma HasFirst(fds: seq<nat>)
    ensures fds != [] ==> exists fd :: fd in fds
  {
    if fds != [] {
      assert fds[0] in fds;
    }
  }

  lemma KeptKnown(s: State)
    requires Inv(s)
    ensures forall c :: c in s.clientThreads ==> c in s.threads
  {
    assert forall c :: c in s.clientThreads ==> c in Kept(s);
  }

  lemma NextKeepsInv(s: State, s': State)
    requires Inv(s) && Next(s, s')
    ensures Inv(s')
  {
    KeptKnown(s);
    hide Inv, OtherOpens, OtherCloses, Accepts, Rejects, Lists, Scans, CleanupJoins, Spawns, AcceptExits, ClientStep, StopStep;
    if OtherOpens(s, s') || OtherCloses(s, s') { OtherKeepsInv(s, s'); }
    else if Accepts(s, s') || Rejects(s, s') || AcceptExits(s, s') { AcceptsKeepsInv(s, s'); }
    else if Lists(s, s') { ListsKeepsInv(s, s'); }
    else if Scans(s, s') { ScansKeepsInv(s, s'); }
    else if CleanupJoins(s, s') { CleanupJoinsKeepsInv(s, s'); }
    else if Spawns(s, s') { SpawnsKeepsInv(s, s'); }
    else if StopStep(s, s') { StopKeepsInv(s, s'); }
    else {
      var c :| ClientStep(s, c, s');
      ClientKeepsInv(s, c, s');
    }
  }

  // ------------------------------------------------------------------------- every run

  ghost predicate Behaviour(ss: seq<State>)
  {
    && ss != [] && Init(ss[0])
    && forall i :: 0 <= i < |ss| - 1 ==>
         (forall c :: c in ss[i].clientThreads ==> c in ss[i].threads) && Next(ss[i], ss[i + 1])
  }

  lemma {:induction false} Reachable(ss: seq<State>, i: nat)
    requires Behaviour(ss) && i < |ss|
    ensures Inv(ss[i])
  {
    hide Inv, Init, Next;
    if i == 0 {
      InitInv(ss[0]);
    } else {
      Reachable(ss, i - 1);
      NextKeepsInv(ss[i - 1], ss[i]);
    }
  }

  /** No thread is joined twice, and every joined thread has returned. */
  lemma JoinedOnce(ss: seq<State>, i: nat)
    requires Behaviour(ss) && i < |ss|
    ensures NoDup(ss[i].joined)
    ensures forall c :: c in ss[i].joined ==> c in ss[i].threads && ss[i].threads[c].phase == Done
  {
    Reachable(ss, i);
  }

  /** What a cleanup waits for is already past its session, so the accept loop cannot hang on a client. */
  lemma CleanupJoinsOnlyFinished(ss: seq<State>, i: nat, c: Conn)
    requires Behaviour(ss) && i < |ss| && ss[i].acceptor.Cleaning? && c in ss[i].acceptor.toJoin
    ensures c in ss[i].threads && c !in ss[i].joined && PastMark(ss[i].threads[c].phase)
  {
    Reachable(ss, i);
    assert c in Kept(ss[i]);
  }

  /**
    Every listed descriptor is open, listed once, and belongs to the connection it was
    listed for, so shutting the listed ones down never reaches a number used again.
   */
  lemma ListedIsOwned(ss: seq<State>, i: nat, fd: Fd)
    requires Behaviour(ss) && i < |ss| && fd in ss[i].active
    ensures NoDup(ss[i].active)
    ensures fd in ss[i].open && ss[i].open[fd].Of? && OnList(ss[i], ss[i].open[fd].conn, fd)
  {
    Reachable(ss, i);
  }

  /** Conversely a connection in its session can always be reached by a shutdown. */
  lemma SessionIsListed(ss: seq<State>, i: nat, c: Conn)
    requires Behaviour(ss) && i < |ss| && c in ss[i].threads && ss[i].threads[c].phase == InSession
    ensures ss[i].stopper != Cleared && ss[i].threads[c].fd in ss[i].active
    ensures ss[i].threads[c].fd in ss[i].open && ss[i].open[ss[i].threads[c].fd] == Of(c)
  {
    Reachable(ss, i);
    if ss[i].stopper == Cleared {
      AllGone(ss[i]);
    }
  }

  /** When stop has joined the threads, all that were ever spawned are joined and nothing is left open. */
  lemma StopLeavesNothing(ss: seq<State>, i: nat)
    requires Behaviour(ss) && i < |ss| && ss[i].stopper in {Joined, Cleared}
    ensures forall c :: c in ss[i].threads <==> c in ss[i].joined
    ensures NoDup(ss[i].joined)
    ensures ss[i].active == []
    ensures forall fd :: fd in ss[i].open ==> !ss[i].open[fd].Of?
  {
    Reachable(ss, i);
    AllGone(ss[i]);
  }
}
