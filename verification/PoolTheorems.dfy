/** The worker pool's guarantees, for every schedule of module PoolProtocol. */
module PoolTheorems {
  import opened BoundedQueue
  import opened PoolProtocol
  import opened PoolSafety

  // --- safety ------------------------------------------------------------------------------------

  /** Queued work never coexists with sleeping workers unless enough of them are already on their way: with
      the mutex free, at least `|contents|` workers have been woken and not yet looked. */
  lemma WorkIsNeverSleptOn(run: seq<State>, k: nat)
    requires IsRun(run) && k < |run|
    requires run[k].mutex == Free && Parked in run[k].workers
    ensures |run[k].queue.contents| <= Count(Awake, run[k].workers)
    ensures run[k].queue.contents != [] ==> Woken in run[k].workers
  {
    Always(run, k);
    CountZero(Awake, run[k].workers);
  }

  /** No connection is handled twice or closed twice, and only accepted ones are. */
  lemma AtMostOnce(run: seq<State>, k: nat, t: Ticket)
    requires IsRun(run) && k < |run|
    ensures run[k].book.handled[t] <= 1
    ensures run[k].book.served[t] + run[k].book.refused[t] <= 1
    ensures t in run[k].book.handled || t in run[k].book.served || t in run[k].book.refused ==> t < run[k].book.accepted
  {
    Always(run, k);
    var s := run[k];
    assert Places(s, t) == if t < s.book.accepted then 1 else 0;
    CountAtMost(InHandler(t), Holding(t), s.workers);
  }

  lemma QueuedIsSomewhere(s: State)
    ensures s.queue.contents != [] ==> Places(s, s.queue.contents[0]) >= 1
  {
  }

  /** When `thread_pool_stop` has returned, the queue is empty, exactly the created workers have exited, and
      exactly the accepted connections are closed, each once. This includes a start that failed part way. */
  lemma DrainedWhenStopped(run: seq<State>, k: nat)
    requires IsRun(run) && k < |run| && run[k].main == Done
    ensures run[k].queue.contents == []
    ensures forall i :: 0 <= i < |run[k].workers| ==>
                          run[k].workers[i] == if i < run[k].created then Exited else NotCreated
    ensures forall t: Ticket ::
              run[k].book.served[t] + run[k].book.refused[t] == if t < run[k].book.accepted then 1 else 0
    ensures run[k].book.handled == run[k].book.served
  {
    Always(run, k);
    var s := run[k];
    QueuedIsSomewhere(s);
    forall t: Ticket
      ensures s.book.served[t] + s.book.refused[t] == if t < s.book.accepted then 1 else 0
      ensures s.book.handled[t] == s.book.served[t]
    {
      CountZero(Holding(t), s.workers);
      CountZero(InHandler(t), s.workers);
      assert Places(s, t) == if t < s.book.accepted then 1 else 0;
    }
  }

  /** Workers take connections in the order of acceptance, and none that entered the queue before the last
      one taken was passed over. */
  lemma TakenInOrder(run: seq<State>, k: nat)
    requires IsRun(run) && k < |run|
    ensures run[k].book.taken <= run[k].book.enqueued
    ensures forall i, j :: 0 <= i < j < |run[k].book.taken| ==> run[k].book.taken[i] < run[k].book.taken[j]
  {
    Always(run, k);
    var s := run[k];
    forall i, j | 0 <= i < j < |s.book.taken|
      ensures s.book.taken[i] < s.book.taken[j]
    {
      assert s.book.taken[i] == s.book.enqueued[i] && s.book.taken[j] == s.book.enqueued[j];
    }
  }

  // --- who is turned away, and when the loop ends --------------------------------------------------

  /** The main thread finds the queue shut or full when it wants to add `t`. */
  ghost predicate TurnedAway(s: State, t: Ticket) {
    s.main == EnqLocked(t) && (s.queue.shutdown || |s.queue.contents| == s.queue.capacity)
  }

  /** Whoever adds a ticket is refused exactly if the queue is shut or full, and otherwise the ticket is queued last. */
  lemma RefusedIff(s: State, s': State, t: Ticket)
    requires LoopStep(s, s') && s.main == EnqLocked(t) && s.queue.Valid()
    ensures s'.main == Refused(t) <==> TurnedAway(s, t)
    ensures !TurnedAway(s, t) ==> s'.main == Pushed && s'.queue.contents == s.queue.contents + [t]
  {
  }

  predicate IsOnItsWayOut(m: MainPc, t: Ticket) {
    m == Refused(t) || m == MustClose(t)
  }

  lemma LoopWayOut(s: State, s': State, t: Ticket)
    requires LoopStep(s, s')
    ensures IsOnItsWayOut(s'.main, t) ==> IsOnItsWayOut(s.main, t) || TurnedAway(s, t)
    ensures t in s'.book.refused ==> t in s.book.refused || IsOnItsWayOut(s.main, t)
  {
  }

  lemma WayOut(s: State, s': State, t: Ticket)
    requires Inv(s) && Step(s, s')
    ensures IsOnItsWayOut(s'.main, t) ==> IsOnItsWayOut(s.main, t) || TurnedAway(s, t)
    ensures t in s'.book.refused ==> t in s.book.refused || IsOnItsWayOut(s.main, t)
  {
    if i: nat :| WorkerStep(s, s', i) {
      WorkerMovesTicket(s, s', i, t);
    } else if LoopStep(s, s') {
      LoopWayOut(s, s', t);
    } else if OtherStep(s, s') {
      OthersFrame(s, s');
    }
  }

  /** Over whole schedules: the main thread closes a connection itself only if it found the queue shut or full. */
  lemma {:induction false} OnlyTurnedAwayAreRefused(run: seq<State>, k: nat, t: Ticket)
    requires IsRun(run) && k < |run|
    requires t in run[k].book.refused || IsOnItsWayOut(run[k].main, t)
    ensures exists j: nat :: j < k && TurnedAway(run[j], t)
  {
    if k > 0 {
      Always(run, k - 1);
      assert StepAt(run, k - 1);
      WayOut(run[k - 1], run[k], t);
      if !TurnedAway(run[k - 1], t) {
        OnlyTurnedAwayAreRefused(run, k - 1, t);
      }
    }
  }

  /** The main thread is on its way through `thread_pool_stop`. */
  predicate HasLeftTheLoop(m: MainPc) {
    m.StopLock? || m.StopHeld? || m.StopSet? || m.StopCast? || m.Joining? || m.Done?
  }

  lemma LeavesForAReason(s: State, s': State)
    requires Inv(s) && Step(s, s')
    requires HasLeftTheLoop(s.main) ==> s.shouldStop || s.created < |s.workers|
    ensures HasLeftTheLoop(s'.main) ==> s'.shouldStop || s'.created < |s'.workers|
  {
    if i: nat :| WorkerStep(s, s', i) {
      WorkerMovesTicket(s, s', i, 0);
    } else if AcceptStep(s, s') {
    } else if OtherStep(s, s') {
      OthersFrame(s, s');
    }
  }

  /** Over whole schedules: unless `server_stop` was called or a worker could not be created, the main thread stays in
      the accept loop. */
  lemma {:induction false} StopsForAReason(run: seq<State>, k: nat)
    requires IsRun(run) && k < |run|
    ensures HasLeftTheLoop(run[k].main) ==> run[k].shouldStop || run[k].created < |run[k].workers|
  {
    if k > 0 {
      StopsForAReason(run, k - 1);
      Always(run, k - 1);
      assert StepAt(run, k - 1);
      LeavesForAReason(run[k - 1], run[k]);
    }
  }

  // --- shutdown ----------------------------------------------------------------------------------

  /** The flag stays, nothing enters the queue, and nobody starts to wait. */
  ghost predicate StaysShut(s: State, s': State) {
    && s'.queue.shutdown && s'.book.enqueued == s.book.enqueued
    && |s'.workers| == |s.workers|
    && forall i :: 0 <= i < |s.workers| && s'.workers[i].Parked? ==> s.workers[i].Parked?
  }

  lemma StaysShutByWorker(s: State, s': State, i: nat)
    requires WorkerStep(s, s', i) && s.queue.shutdown
    ensures StaysShut(s, s')
  {
  }

  lemma StaysShutByMain(s: State, s': State)
    requires MainStep(s, s') && s.queue.shutdown
    ensures StaysShut(s, s')
  {
  }

  /** Once the flag is set it stays set, nothing enters the queue, and nobody starts to wait. */
  lemma ClosedForGood(s: State, s': State)
    requires Step(s, s') && s.queue.shutdown
    ensures StaysShut(s, s')
  {
    if i: nat :| WorkerStep(s, s', i) {
      StaysShutByWorker(s, s', i);
    } else if MainStep(s, s') {
      StaysShutByMain(s, s');
    } else if !AcceptReturns(s, s') {
      OthersFrame(s, s');
    }
  }

  /** How many steps the main thread can still take once the queue is shut, joining `n` workers. */
  function MainStepsLeft(m: MainPc, n: nat): (r: nat) {
    match m
    case Creating(_) => n + 13
    case Accepting => n + 12
    case InHand(_) => n + 11
    case EnqLocked(_) => n + 10
    case Refused(_) => n + 9
    case Pushed => n + 9
    case MustClose(_) => n + 8
    case Signalled => n + 8
    case LoopHead => n + 7
    case StopLock => n + 6
    case StopHeld => n + 5
    case StopSet => n + 4
    case StopCast => n + 3
    case Joining(j) => if j <= n then n - j + 1 else 1
    case Done => 0
  }

  function StopperStepsLeft(p: StopperPc): (r: nat) {
    match p
    case Idle => 0
    case Flagged => 4
    case SHeld => 3
    case SSet => 2
    case SCast => 1
  }

  /** A bound on all steps still to come once the queue is shut, whatever the schedule. */
  function Measure(s: State): (r: nat) {
    Count(StepsLeft, s.workers) + 4 * |s.queue.contents|
    + MainStepsLeft(s.main, |s.workers|) + StopperStepsLeft(s.stopper) + 5 * s.stopsLeft
  }

  lemma WorkerStepDescends(s: State, s': State, i: nat)
    requires Inv(s) && s.queue.shutdown && WorkerStep(s, s', i)
    ensures Measure(s') < Measure(s)
  {
    CountUpdate(StepsLeft, s.workers, i, s'.workers[i]);
  }

  lemma StartStepDescends(s: State, s': State)
    requires Inv(s) && s.queue.shutdown && StartStep(s, s')
    ensures Measure(s') < Measure(s)
  {
    if s.main.i < |s.workers| {
      CountUpdate(StepsLeft, s.workers, s.main.i, Entry);
    }
  }

  lemma AcceptStepDescends(s: State, s': State)
    requires Inv(s) && s.queue.shutdown && AcceptStep(s, s')
    ensures Measure(s') < Measure(s)
  {
    CountWakes(StepsLeft, s.workers, s'.workers);
  }

  lemma JoinStepDescends(s: State, s': State)
    requires Inv(s) && s.queue.shutdown && JoinStep(s, s')
    ensures Measure(s') < Measure(s)
  {
    CountWakes(StepsLeft, s.workers, s'.workers);
  }

  lemma OtherStepDescends(s: State, s': State)
    requires Inv(s) && s.queue.shutdown && OtherStep(s, s')
    ensures Measure(s') < Measure(s)
  {
    if i: nat :| SpuriousWakeup(s, s', i) {
      CountUpdate(StepsLeft, s.workers, i, Woken);
    } else {
      CountWakes(StepsLeft, s.workers, s'.workers);
    }
  }

  lemma EveryStepDescends(s: State, s': State)
    requires Inv(s) && s.queue.shutdown && Step(s, s')
    ensures Measure(s') < Measure(s)
  {
    if i: nat :| WorkerStep(s, s', i) {
      WorkerStepDescends(s, s', i);
    } else if StartStep(s, s') {
      StartStepDescends(s, s');
    } else if AcceptStep(s, s') {
      AcceptStepDescends(s, s');
    } else if JoinStep(s, s') {
      JoinStepDescends(s, s');
    } else {
      OtherStepDescends(s, s');
    }
  }

  lemma OneStepCloser(run: seq<State>, k: nat)
    requires IsRun(run) && k + 1 < |run| && run[k].queue.shutdown
    ensures run[k + 1].queue.shutdown && Measure(run[k + 1]) < Measure(run[k])
  {
    Always(run, k);
    assert StepAt(run, k);
    ClosedForGood(run[k], run[k + 1]);
    EveryStepDescends(run[k], run[k + 1]);
  }

  /** Shutdown terminates: after the flag is set at position `k`, no schedule has more than `Measure` further
      steps, spurious wakeups and further calls of `server_stop` included. */
  lemma {:induction false} ShutdownTerminates(run: seq<State>, k: nat, m: nat)
    requires IsRun(run) && k <= m < |run| && run[k].queue.shutdown
    ensures run[m].queue.shutdown
    ensures Measure(run[m]) + (m - k) <= Measure(run[k])
    decreases m
  {
    if k < m {
      ShutdownTerminates(run, k, m - 1);
      OneStepCloser(run, m - 1);
    }
  }

  // --- progress ----------------------------------------------------------------------------------

  /** Everybody who waits, woken. */
  function AllWoken(ws: seq<WorkerPc>): (r: seq<WorkerPc>) {
    seq(|ws|, i requires 0 <= i < |ws| => if ws[i].Parked? then Woken else ws[i])
  }

  lemma WakingAll(ws: seq<WorkerPc>)
    ensures Signal(ws, AllWoken(ws)) && Broadcast(ws, AllWoken(ws))
  {
  }

  lemma WorkerOwnerCanStep(s: State, i: nat) returns (s': State)
    requires Inv(s) && s.mutex == ByWorker(i)
    ensures WorkerStep(s, s', i)
  {
    match s.workers[i]
    case Popped(t) =>
      s' := s.(mutex := Free, book := s.book.(handled := s.book.handled + multiset{t}),
               workers := s.workers[i := Handling(t)]);
    case Closing => s' := s.(mutex := Free, workers := s.workers[i := Exited]);
    case Check =>
      match s.queue.DequeueResult() {
        case Wait => s' := s.(mutex := Free, workers := s.workers[i := Parked]);
        case Closed => s' := s.(workers := s.workers[i := Closing]);
        case Taken(t) =>
          s' := s.(queue := s.queue.Dequeue(), book := s.book.(taken := s.book.taken + [t]),
                   workers := s.workers[i := Popped(t)]);
      }
  }

  lemma MainOwnerCanStep(s: State) returns (s': State)
    requires Inv(s) && s.mutex == ByMain
    ensures ThreadStep(s, s')
  {
    WakingAll(s.workers);
    match s.main
    case EnqLocked(t) =>
      if s.queue.EnqueueResult() == QueueOk {
        s' := s.(queue := s.queue.Enqueue(t), book := s.book.(enqueued := s.book.enqueued + [t]), main := Pushed);
      } else {
        s' := s.(main := Refused(t));
      }
    case Pushed => s' := s.(main := Signalled, workers := AllWoken(s.workers));
    case Signalled => s' := s.(mutex := Free, main := LoopHead);
    case Refused(t) => s' := s.(mutex := Free, main := MustClose(t));
    case StopHeld => s' := s.(queue := s.queue.(shutdown := true), main := StopSet);
    case StopSet => s' := s.(main := StopCast, workers := AllWoken(s.workers));
    case StopCast => s' := s.(mutex := Free, main := Joining(0));
  }

  lemma StopperCanStep(s: State) returns (s': State)
    requires Inv(s) && !s.stopper.Idle? && (s.mutex == Free || s.mutex == ByStopper)
    ensures ThreadStep(s, s')
  {
    WakingAll(s.workers);
    match s.stopper
    case Flagged => s' := s.(mutex := ByStopper, stopper := SHeld);
    case SHeld => s' := s.(queue := s.queue.(shutdown := true), stopper := SSet);
    case SSet => s' := s.(stopper := SCast, workers := AllWoken(s.workers));
    case SCast => s' := s.(mutex := Free, stopper := Idle);
    assert StopperStep(s, s');
  }

  /** The owner of the mutex can always go on. */
  lemma OwnerCanStep(s: State) returns (s': State)
    requires Inv(s) && s.mutex != Free
    ensures ThreadStep(s, s')
  {
    match s.mutex
    case ByWorker(i) => s' := WorkerOwnerCanStep(s, i);
    case ByMain => s' := MainOwnerCanStep(s);
    case ByStopper => s' := StopperCanStep(s);
  }

  lemma WorkerCanStep(s: State, j: nat) returns (s': State)
    requires Inv(s) && s.mutex == Free
    requires j < |s.workers| && !s.workers[j].NotCreated? && !s.workers[j].Parked? && !s.workers[j].Exited?
    ensures WorkerStep(s, s', j)
  {
    match s.workers[j]
    case Handling(t) =>
      s' := s.(book := s.book.(served := s.book.served + multiset{t}), workers := s.workers[j := Entry]);
    case Entry => s' := s.(mutex := ByWorker(j), workers := s.workers[j := Check]);
    case Woken => s' := s.(mutex := ByWorker(j), workers := s.workers[j := Check]);
  }

  lemma JoinerOrWorkerCanStep(s: State) returns (s': State)
    requires Inv(s) && s.mutex == Free && s.main.Joining?
    ensures ThreadStep(s, s')
  {
    var j := s.main.j;
    if j >= s.created {
      s' := s.(main := Done);
      assert JoinStep(s, s');
    } else if s.workers[j].Exited? {
      s' := s.(main := Joining(j + 1));
      assert JoinStep(s, s');
    } else {
      s' := WorkerCanStep(s, j);
    }
  }

  lemma MainCanStep(s: State) returns (s': State)
    requires Inv(s) && s.mutex == Free && !s.main.Done? && !s.main.Accepting?
    ensures ThreadStep(s, s')
  {
    match s.main
    case Creating(_) => s' := s.(main := if s.main.i < |s.workers| then StopLock else LoopHead);
    case LoopHead => s' := s.(main := if s.shouldStop then StopLock else Accepting);
    case InHand(t) => s' := s.(mutex := ByMain, main := EnqLocked(t));
    case MustClose(t) => s' := s.(book := s.book.(refused := s.book.refused + multiset{t}), main := LoopHead);
    case StopLock => s' := s.(mutex := ByMain, main := StopHeld);
    case Joining(j) => s' := JoinerOrWorkerCanStep(s);
  }

  /** The main thread has returned from `thread_pool_stop`, or waits in `accept`; no call of `server_stop` is under way;
      and every created worker waits for work or has exited. */
  predicate AtRest(s: State) {
    && (s.main.Done? || s.main.Accepting?) && s.stopper.Idle?
    && forall i :: 0 <= i < |s.workers| ==>
                     s.workers[i].NotCreated? || s.workers[i].Parked? || s.workers[i].Exited?
  }

  /** No deadlock, shut or not: some thread of the program can take a step unless all of them are at rest. */
  lemma NeverSticks(s: State) returns (s': State)
    requires Inv(s) && !AtRest(s)
    ensures ThreadStep(s, s')
  {
    if s.mutex != Free {
      s' := OwnerCanStep(s);
    } else if !s.main.Done? && !s.main.Accepting? {
      s' := MainCanStep(s);
    } else if !s.stopper.Idle? {
      s' := StopperCanStep(s);
    } else {
      var j :| 0 <= j < |s.workers| && !s.workers[j].NotCreated? && !s.workers[j].Parked? && !s.workers[j].Exited?;
      s' := WorkerCanStep(s, j);
    }
  }

  /** No thread can take a step. */
  ghost predicate Stuck(s: State) {
    forall s' :: !ThreadStep(s, s')
  }

  lemma RestHasNoWork(s: State)
    requires Inv(s) && AtRest(s)
    ensures s.queue.contents == []
  {
    QueuedIsSomewhere(s);
    CountZero(Awake, s.workers);
    if Parked !in s.workers {
      assert s.workers[0].NotCreated? || s.workers[0].Exited?;
    }
  }

  lemma RestIsDrained(s: State)
    requires Inv(s) && AtRest(s)
    ensures s.queue.contents == []
    ensures forall t: Ticket :: s.book.served[t] + s.book.refused[t] == if t < s.book.accepted then 1 else 0
    ensures s.queue.shutdown ==> Parked !in s.workers
  {
    RestHasNoWork(s);
    forall t: Ticket
      ensures s.book.served[t] + s.book.refused[t] == if t < s.book.accepted then 1 else 0
    {
      CountZero(Holding(t), s.workers);
      assert Places(s, t) == if t < s.book.accepted then 1 else 0;
    }
  }

  /** Put together, for every reachable state: no thread can go on exactly if all are at rest; and then the queue is
      empty and every accepted connection is closed, once. If the queue is shut, no worker waits any more. */
  lemma MaximalRunsDrain(run: seq<State>, k: nat)
    requires IsRun(run) && k < |run|
    ensures var s := run[k];
            && (Stuck(s) <==> AtRest(s))
            && (Stuck(s) ==>
                  && s.queue.contents == []
                  && (s.queue.shutdown ==> Parked !in s.workers)
                  && forall t: Ticket ::
                       s.book.served[t] + s.book.refused[t] == if t < s.book.accepted then 1 else 0)
  {
    Always(run, k);
    if AtRest(run[k]) {
      RestIsDrained(run[k]);
    } else {
      var s' := NeverSticks(run[k]);
    }
  }
}
