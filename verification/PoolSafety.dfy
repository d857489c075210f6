/** What every reachable state of the worker pool satisfies. */
module PoolSafety {
  import opened PoolProtocol

  predicate InAcceptLoop(m: MainPc) {
    m.LoopHead? || m.Accepting? || m.InHand? || m.EnqLocked? || m.Pushed? || m.Signalled? || m.Refused? || m.MustClose?
  }

  /** After the main thread itself has set the shutdown flag. */
  predicate PastShutdown(m: MainPc) {
    m.StopSet? || m.StopCast? || m.Joining? || m.Done?
  }

  /** The mutex has the owner the program counters say it has, so at most one. */
  ghost predicate Owned(s: State) {
    && (s.mutex == ByMain <==> MainHolds(s.main))
    && (s.mutex == ByStopper <==> StopperHolds(s.stopper))
    && (forall i :: 0 <= i < |s.workers| ==> (s.mutex == ByWorker(i) <==> WorkerHolds(s.workers[i])))
    && (s.mutex.ByWorker? ==> s.mutex.i < |s.workers|)
  }

  /** Workers are created and joined in index order. */
  ghost predicate Roster(s: State) {
    && s.queue.Valid()
    && 1 <= |s.workers| && s.created <= |s.workers|
    && (forall i :: 0 <= i < |s.workers| ==> (s.workers[i].NotCreated? <==> s.created <= i))
    && (s.main.Creating? ==> s.main.i == s.created)
    && (InAcceptLoop(s.main) || s.book.accepted > 0 ==> s.created == |s.workers|)
    && (s.main.Creating? ==> s.book.accepted == 0)
    && (s.main.Joining? ==> s.main.j <= s.created && forall k :: 0 <= k < s.main.j ==> s.workers[k].Exited?)
    && (s.main.Done? ==> forall k :: 0 <= k < s.created ==> s.workers[k].Exited?)
  }

  ghost predicate Flags(s: State) {
    && (PastShutdown(s.main) || s.stopper.SSet? || s.stopper.SCast? ==> s.queue.shutdown)
    && (s.queue.shutdown ==> s.shouldStop || PastShutdown(s.main))
    && (!s.stopper.Idle? ==> s.shouldStop)
    && (s.main.Pushed? ==> !s.queue.shutdown)
    && (s.queue.shutdown && !s.main.StopSet? && !s.stopper.SSet? ==> Parked !in s.workers)
    && (forall i :: 0 <= i < |s.workers| && (s.workers[i].Closing? || s.workers[i].Exited?) ==>
          s.queue.shutdown && s.queue.contents == [])
  }

  /** No lost wakeup: while somebody is parked, every queued item has its own worker on the way to it,
      up to the one signal the main thread may be about to send. */
  ghost predicate NoLostWakeup(s: State) {
    Parked in s.workers ==> |s.queue.contents| <= Count(Awake, s.workers) + if s.main.Pushed? then 1 else 0
  }

  predicate MainCarries(m: MainPc, t: Ticket) {
    (m.InHand? || m.EnqLocked? || m.Refused? || m.MustClose?) && m.t == t
  }

  /** In how many places ticket `t` is: the main thread's hand, the queue, the workers, and closed by a
      worker or by the main thread. */
  ghost function Places(s: State, t: Ticket): (r: nat) {
    (if MainCarries(s.main, t) then 1 else 0) + multiset(s.queue.contents)[t]
    + Count(Holding(t), s.workers) + s.book.served[t] + s.book.refused[t]
  }

  /** Every accepted connection is in exactly one place, and nothing else is anywhere. */
  ghost predicate Conserved(s: State) {
    forall t: Ticket :: Places(s, t) == if t < s.book.accepted then 1 else 0
  }

  /** The handler was invoked exactly for the connections being handled or closed by a worker. */
  ghost predicate HandledOnce(s: State) {
    forall t: Ticket :: s.book.handled[t] == Count(InHandler(t), s.workers) + s.book.served[t]
  }

  /** Connections leave the queue in the order they entered it, which is the order of acceptance. */
  ghost predicate InOrder(s: State) {
    && s.book.enqueued == s.book.taken + s.queue.contents
    && (forall i, j :: 0 <= i < j < |s.book.enqueued| ==> s.book.enqueued[i] < s.book.enqueued[j])
    && (forall i :: 0 <= i < |s.book.enqueued| ==> s.book.enqueued[i] < s.book.accepted)
    && (s.main.InHand? || s.main.EnqLocked? ==>
          s.main.t < s.book.accepted && forall i :: 0 <= i < |s.book.enqueued| ==> s.book.enqueued[i] < s.main.t)
  }

  ghost predicate Inv(s: State) {
    Owned(s) && Roster(s) && Flags(s) && NoLostWakeup(s) && Conserved(s) && HandledOnce(s) && InOrder(s)
  }

  lemma InitInv(s: State)
    requires Init(s)
    ensures Inv(s)
  {
    forall t: Ticket
      ensures Count(Holding(t), s.workers) == Count(InHandler(t), s.workers) == 0
    {
      CountZero(Holding(t), s.workers);
      CountZero(InHandler(t), s.workers);
    }
  }

  /** The stopper and the environment only wake workers, raise flags and pass the mutex on. */
  lemma OthersFrame(s: State, s': State)
    requires OtherStep(s, s')
    ensures s'.book == s.book && s'.queue.contents == s.queue.contents && s'.main == s.main
    ensures Wakes(s.workers, s'.workers)
  {
  }

  lemma OwnedKeptByWorker(s: State, s': State, i: nat)
    requires Owned(s) && WorkerStep(s, s', i)
    ensures Owned(s')
  {
  }

  lemma OwnedKeptByStart(s: State, s': State)
    requires Owned(s) && Roster(s) && StartStep(s, s')
    ensures Owned(s')
  {
  }

  lemma OwnedKeptByAccept(s: State, s': State)
    requires Owned(s) && AcceptStep(s, s')
    ensures Owned(s')
  {
  }

  lemma OwnedKeptByJoin(s: State, s': State)
    requires Owned(s) && JoinStep(s, s')
    ensures Owned(s')
  {
  }

  lemma OwnedKeptByOthers(s: State, s': State)
    requires Owned(s) && OtherStep(s, s')
    ensures Owned(s')
  {
  }

  lemma RosterKeptByWorker(s: State, s': State, i: nat)
    requires Roster(s) && WorkerStep(s, s', i)
    ensures Roster(s')
  {
  }

  lemma RosterKeptByStart(s: State, s': State)
    requires Roster(s) && StartStep(s, s')
    ensures Roster(s')
  {
  }

  lemma RosterKeptByAccept(s: State, s': State)
    requires Roster(s) && AcceptStep(s, s')
    ensures Roster(s')
  {
  }

  lemma RosterKeptByJoin(s: State, s': State)
    requires Roster(s) && JoinStep(s, s')
    ensures Roster(s')
  {
  }

  lemma RosterKeptByOthers(s: State, s': State)
    requires Roster(s) && OtherStep(s, s')
    ensures Roster(s')
  {
  }

  lemma FlagsKeptByWorker(s: State, s': State, i: nat)
    requires Owned(s) && Roster(s) && Flags(s) && WorkerStep(s, s', i)
    ensures Flags(s')
  {
  }

  lemma FlagsKeptByStart(s: State, s': State)
    requires Owned(s) && Roster(s) && Flags(s) && StartStep(s, s')
    ensures Flags(s')
  {
  }

  lemma FlagsKeptByAccept(s: State, s': State)
    requires Owned(s) && Roster(s) && Flags(s) && AcceptStep(s, s')
    ensures Flags(s')
  {
  }

  lemma FlagsKeptByJoin(s: State, s': State)
    requires Owned(s) && Roster(s) && Flags(s) && JoinStep(s, s')
    ensures Flags(s')
  {
  }

  lemma FlagsKeptByOthers(s: State, s': State)
    requires Owned(s) && Roster(s) && Flags(s) && OtherStep(s, s')
    ensures Flags(s')
  {
  }

  lemma NoLostWakeupKeptByWorker(s: State, s': State, i: nat)
    requires Roster(s) && Flags(s) && NoLostWakeup(s) && WorkerStep(s, s', i)
    ensures NoLostWakeup(s')
  {
    CountUpdate(Awake, s.workers, i, s'.workers[i]);
  }

  lemma NoLostWakeupKeptByStart(s: State, s': State)
    requires Roster(s) && Flags(s) && NoLostWakeup(s) && StartStep(s, s')
    ensures NoLostWakeup(s')
  {
    if s.main.i < |s.workers| {
      CountUpdate(Awake, s.workers, s.main.i, Entry);
    }
  }

  lemma NoLostWakeupKeptByAccept(s: State, s': State)
    requires Roster(s) && Flags(s) && NoLostWakeup(s) && AcceptStep(s, s')
    ensures NoLostWakeup(s')
  {
    CountWakes(Awake, s.workers, s'.workers);
  }

  lemma NoLostWakeupKeptByJoin(s: State, s': State)
    requires Roster(s) && Flags(s) && NoLostWakeup(s) && JoinStep(s, s')
    ensures NoLostWakeup(s')
  {
    CountWakes(Awake, s.workers, s'.workers);
  }

  lemma NoLostWakeupKeptByOthers(s: State, s': State)
    requires Roster(s) && Flags(s) && NoLostWakeup(s) && OtherStep(s, s')
    ensures NoLostWakeup(s')
  {
    OthersFrame(s, s');
    CountWakes(Awake, s.workers, s'.workers);
  }

  lemma HeadCounts(q: seq<Ticket>, t: Ticket)
    requires q != []
    ensures multiset(q)[t] == multiset(q[1..])[t] + if q[0] == t then 1 else 0
  {
    assert q == [q[0]] + q[1..];
  }

  /** A worker's step moves a ticket at most from the queue to that worker or from the worker to closed. */
  lemma WorkerMovesTicket(s: State, s': State, i: nat, t: Ticket)
    requires WorkerStep(s, s', i)
    ensures s'.workers == s.workers[i := s'.workers[i]] && s'.main == s.main
    ensures s'.book.accepted == s.book.accepted && s'.book.refused == s.book.refused
    ensures multiset(s'.queue.contents)[t] + Weight(Holding(t), s'.workers[i]) + s'.book.served[t]
         == multiset(s.queue.contents)[t] + Weight(Holding(t), s.workers[i]) + s.book.served[t]
  {
    if s.queue.contents != [] {
      HeadCounts(s.queue.contents, t);
    }
  }

  lemma ConservedKeptByWorker(s: State, s': State, i: nat)
    requires Conserved(s) && WorkerStep(s, s', i)
    ensures Conserved(s')
  {
    forall t: Ticket
      ensures Places(s', t) == if t < s'.book.accepted then 1 else 0
    {
      assert Places(s, t) == if t < s.book.accepted then 1 else 0;
      WorkerMovesTicket(s, s', i, t);
      CountUpdate(Holding(t), s.workers, i, s'.workers[i]);
    }
  }

  lemma ConservedKeptByStart(s: State, s': State)
    requires Roster(s) && Conserved(s) && StartStep(s, s')
    ensures Conserved(s')
  {
    forall t: Ticket
      ensures Places(s', t) == if t < s'.book.accepted then 1 else 0
    {
      if s.main.i < |s.workers| {
        CountUpdate(Holding(t), s.workers, s.main.i, Entry);
      }
      assert Places(s, t) == if t < s.book.accepted then 1 else 0;
    }
  }

  /** 1 if `t` is in the main thread's hand. */
  function InMainHand(m: MainPc, t: Ticket): (r: nat) {
    if MainCarries(m, t) then 1 else 0
  }

  function IsAccepted(s: State, t: Ticket): (r: nat) {
    if t < s.book.accepted then 1 else 0
  }

  /** A step of the accept loop moves a ticket at most from the main thread's hand into the queue or to closed. */
  lemma LoopMovesTicket(s: State, s': State, t: Ticket)
    requires LoopStep(s, s')
    ensures InMainHand(s'.main, t) + multiset(s'.queue.contents)[t] + s'.book.refused[t]
         == InMainHand(s.main, t) + multiset(s.queue.contents)[t] + s.book.refused[t]
  {
  }

  lemma LoopFrame(s: State, s': State)
    requires LoopStep(s, s')
    ensures Wakes(s.workers, s'.workers) && s'.book.accepted == s.book.accepted
    ensures s'.book.served == s.book.served && s'.book.handled == s.book.handled
  {
  }

  lemma ConservedKeptByLoop(s: State, s': State)
    requires Conserved(s) && LoopStep(s, s')
    ensures Conserved(s')
  {
    LoopFrame(s, s');
    forall t: Ticket
      ensures Places(s', t) == IsAccepted(s', t)
    {
      LoopMovesTicket(s, s', t);
      CountWakes(Holding(t), s.workers, s'.workers);
      assert Places(s, t) == IsAccepted(s, t);
    }
  }

  lemma ConservedKeptByAccept(s: State, s': State)
    requires Conserved(s) && AcceptStep(s, s')
    ensures Conserved(s')
  {
    if LoopStep(s, s') {
      ConservedKeptByLoop(s, s');
    } else {
      forall t: Ticket
        ensures Places(s', t) == IsAccepted(s', t)
      {
        assert Places(s, t) == IsAccepted(s, t);
      }
    }
  }

  lemma ConservedKeptByJoin(s: State, s': State)
    requires Conserved(s) && JoinStep(s, s')
    ensures Conserved(s')
  {
    forall t: Ticket
      ensures Places(s', t) == if t < s'.book.accepted then 1 else 0
    {
      CountWakes(Holding(t), s.workers, s'.workers);
      assert Places(s, t) == if t < s.book.accepted then 1 else 0;
    }
  }

  lemma ConservedKeptByOthers(s: State, s': State)
    requires Conserved(s) && OtherStep(s, s')
    ensures Conserved(s')
  {
    OthersFrame(s, s');
    forall t: Ticket
      ensures Places(s', t) == if t < s'.book.accepted then 1 else 0
    {
      CountWakes(Holding(t), s.workers, s'.workers);
      assert Places(s, t) == if t < s.book.accepted then 1 else 0;
    }
  }

  lemma WorkerHandles(s: State, s': State, i: nat, t: Ticket)
    requires WorkerStep(s, s', i)
    ensures s'.workers == s.workers[i := s'.workers[i]]
    ensures s'.book.handled[t] + Weight(InHandler(t), s.workers[i]) + s.book.served[t]
         == s.book.handled[t] + Weight(InHandler(t), s'.workers[i]) + s'.book.served[t]
  {
  }

  lemma HandledOnceKeptByWorker(s: State, s': State, i: nat)
    requires HandledOnce(s) && WorkerStep(s, s', i)
    ensures HandledOnce(s')
  {
    forall t: Ticket
      ensures s'.book.handled[t] == Count(InHandler(t), s'.workers) + s'.book.served[t]
    {
      WorkerHandles(s, s', i, t);
      CountUpdate(InHandler(t), s.workers, i, s'.workers[i]);
    }
  }

  lemma HandledOnceKeptByStart(s: State, s': State)
    requires Roster(s) && HandledOnce(s) && StartStep(s, s')
    ensures HandledOnce(s')
  {
    forall t: Ticket
      ensures s'.book.handled[t] == Count(InHandler(t), s'.workers) + s'.book.served[t]
    {
      if s.main.i < |s.workers| {
        CountUpdate(InHandler(t), s.workers, s.main.i, Entry);
      }
    }
  }

  lemma HandledOnceKeptByAccept(s: State, s': State)
    requires HandledOnce(s) && AcceptStep(s, s')
    ensures HandledOnce(s')
  {
    if LoopStep(s, s') {
      LoopFrame(s, s');
      forall t: Ticket
        ensures s'.book.handled[t] == Count(InHandler(t), s'.workers) + s'.book.served[t]
      {
        CountWakes(InHandler(t), s.workers, s'.workers);
      }
    }
  }

  lemma HandledOnceKeptByJoin(s: State, s': State)
    requires HandledOnce(s) && JoinStep(s, s')
    ensures HandledOnce(s')
  {
    forall t: Ticket
      ensures s'.book.handled[t] == Count(InHandler(t), s'.workers) + s'.book.served[t]
    {
      CountWakes(InHandler(t), s.workers, s'.workers);
    }
  }

  lemma HandledOnceKeptByOthers(s: State, s': State)
    requires HandledOnce(s) && OtherStep(s, s')
    ensures HandledOnce(s')
  {
    OthersFrame(s, s');
    forall t: Ticket
      ensures s'.book.handled[t] == Count(InHandler(t), s'.workers) + s'.book.served[t]
    {
      CountWakes(InHandler(t), s.workers, s'.workers);
    }
  }

  lemma InOrderKeptByWorker(s: State, s': State, i: nat)
    requires InOrder(s) && WorkerStep(s, s', i)
    ensures InOrder(s')
  {
    if s.queue.contents != [] {
      assert s.book.taken + s.queue.contents == (s.book.taken + [s.queue.contents[0]]) + s.queue.contents[1..];
    }
  }

  lemma InOrderKeptByStart(s: State, s': State)
    requires InOrder(s) && StartStep(s, s')
    ensures InOrder(s')
  {
  }

  lemma InOrderKeptByPush(s: State, s': State)
    requires InOrder(s) && LoopStep(s, s') && s.main.EnqLocked?
    ensures InOrder(s')
  {
    assert s.book.enqueued + [s.main.t] == s.book.taken + (s.queue.contents + [s.main.t]);
  }

  lemma InOrderKeptByAccept(s: State, s': State)
    requires InOrder(s) && AcceptStep(s, s')
    ensures InOrder(s')
  {
    if s.main.EnqLocked? {
      InOrderKeptByPush(s, s');
    }
  }

  lemma InOrderKeptByJoin(s: State, s': State)
    requires InOrder(s) && JoinStep(s, s')
    ensures InOrder(s')
  {
  }

  lemma InOrderKeptByOthers(s: State, s': State)
    requires InOrder(s) && OtherStep(s, s')
    ensures InOrder(s')
  {
    OthersFrame(s, s');
  }

  lemma InvKeptByWorker(s: State, s': State, i: nat)
    requires Inv(s) && WorkerStep(s, s', i)
    ensures Inv(s')
  {
    OwnedKeptByWorker(s, s', i);
    RosterKeptByWorker(s, s', i);
    FlagsKeptByWorker(s, s', i);
    NoLostWakeupKeptByWorker(s, s', i);
    ConservedKeptByWorker(s, s', i);
    HandledOnceKeptByWorker(s, s', i);
    InOrderKeptByWorker(s, s', i);
  }

  lemma InvKeptByStart(s: State, s': State)
    requires Inv(s) && StartStep(s, s')
    ensures Inv(s')
  {
    OwnedKeptByStart(s, s');
    RosterKeptByStart(s, s');
    FlagsKeptByStart(s, s');
    NoLostWakeupKeptByStart(s, s');
    ConservedKeptByStart(s, s');
    HandledOnceKeptByStart(s, s');
    InOrderKeptByStart(s, s');
  }

  lemma InvKeptByAccept(s: State, s': State)
    requires Inv(s) && AcceptStep(s, s')
    ensures Inv(s')
  {
    OwnedKeptByAccept(s, s');
    RosterKeptByAccept(s, s');
    FlagsKeptByAccept(s, s');
    NoLostWakeupKeptByAccept(s, s');
    ConservedKeptByAccept(s, s');
    HandledOnceKeptByAccept(s, s');
    InOrderKeptByAccept(s, s');
  }

  lemma InvKeptByJoin(s: State, s': State)
    requires Inv(s) && JoinStep(s, s')
    ensures Inv(s')
  {
    OwnedKeptByJoin(s, s');
    RosterKeptByJoin(s, s');
    FlagsKeptByJoin(s, s');
    NoLostWakeupKeptByJoin(s, s');
    ConservedKeptByJoin(s, s');
    HandledOnceKeptByJoin(s, s');
    InOrderKeptByJoin(s, s');
  }

  lemma InvKeptByOthers(s: State, s': State)
    requires Inv(s) && OtherStep(s, s')
    ensures Inv(s')
  {
    OwnedKeptByOthers(s, s');
    RosterKeptByOthers(s, s');
    FlagsKeptByOthers(s, s');
    NoLostWakeupKeptByOthers(s, s');
    ConservedKeptByOthers(s, s');
    HandledOnceKeptByOthers(s, s');
    InOrderKeptByOthers(s, s');
  }

  lemma InvKept(s: State, s': State)
    requires Inv(s) && Step(s, s')
    ensures Inv(s')
  {
    if i: nat :| WorkerStep(s, s', i) {
      InvKeptByWorker(s, s', i);
    } else if StartStep(s, s') {
      InvKeptByStart(s, s');
    } else if AcceptStep(s, s') {
      InvKeptByAccept(s, s');
    } else if JoinStep(s, s') {
      InvKeptByJoin(s, s');
    } else {
      InvKeptByOthers(s, s');
    }
  }

  /** The invariant holds in every state of every schedule. */
  lemma {:induction false} Always(run: seq<State>, k: nat)
    requires IsRun(run) && k < |run|
    ensures Inv(run[k])
  {
    if k == 0 {
      InitInv(run[0]);
    } else {
      Always(run, k - 1);
      assert StepAt(run, k - 1);
      InvKept(run[k - 1], run[k]);
    }
  }
}
