/** The worker pool of src/thread_pool.c with its two other actors, the accept loop and the signal-driven
    stop of src/server.c, as a step system. The mutex has an explicit owner and every critical section is
    cut into program counters, so a step is one of: take the mutex, test, change the queue, signal,
    release. A signal wakes any nonempty subset of the parked workers and any parked worker may wake
    spuriously. Every accepted connection is named by a fresh ticket. */
module PoolProtocol {
  import opened BoundedQueue

  type Ticket = nat

  /** Where a worker is in `worker_main` and `socket_queue_dequeue`. */
  datatype WorkerPc =
    | NotCreated
    | Entry              // about to lock
    | Check              // owns the mutex, about to test the wait condition
    | Parked             // inside pthread_cond_wait
    | Woken              // left the wait, must retake the mutex
    | Popped(t: Ticket)  // owns the mutex, has taken an item
    | Closing            // owns the mutex, found the queue closed
    | Handling(t: Ticket)
    | Exited

  /** Where the main thread is in `thread_pool_start`, `server_run`, `socket_queue_enqueue` and
      `thread_pool_stop`. */
  datatype MainPc =
    | Creating(i: nat)
    | LoopHead
    | Accepting
    | InHand(t: Ticket)      // accepted, about to lock
    | EnqLocked(t: Ticket)   // owns the mutex, about to test shutdown and capacity
    | Pushed                 // owns the mutex, item stored, not yet signalled
    | Signalled              // owns the mutex
    | Refused(t: Ticket)     // owns the mutex, queue closed or full
    | MustClose(t: Ticket)   // released, closes the connection itself
    | StopLock               // thread_pool_stop, about to lock
    | StopHeld               // owns the mutex
    | StopSet                // owns the mutex, flag set, not yet broadcast
    | StopCast               // owns the mutex
    | Joining(j: nat)
    | Done

  /** Where the thread running `server_stop` is. */
  datatype StopperPc = Idle | Flagged | SHeld | SSet | SCast

  datatype Owner = Free | ByMain | ByStopper | ByWorker(i: nat)

  /** What has happened to the accepted connections; no thread reads it. */
  datatype Book = Book(
    accepted: nat,               // tickets given out by accept
    handled: multiset<Ticket>,   // tickets whose handler was invoked
    served: multiset<Ticket>,    // closed by a worker's handler
    refused: multiset<Ticket>,   // closed by the main thread
    enqueued: seq<Ticket>,       // everything that entered the queue, in order
    taken: seq<Ticket>)          // everything that left it, in order

  datatype State = State(
    workers: seq<WorkerPc>,
    created: nat,                // workers whose pthread_create succeeded
    main: MainPc,
    stopper: StopperPc,
    stopsLeft: nat,              // calls of server_stop still to come
    shouldStop: bool,
    mutex: Owner,
    queue: Queue<Ticket>,
    book: Book)

  predicate MainHolds(m: MainPc) {
    m.EnqLocked? || m.Pushed? || m.Signalled? || m.Refused? || m.StopHeld? || m.StopSet? || m.StopCast?
  }

  predicate StopperHolds(p: StopperPc) {
    p.SHeld? || p.SSet? || p.SCast?
  }

  predicate WorkerHolds(w: WorkerPc) {
    w.Check? || w.Popped? || w.Closing?
  }

  ghost predicate Init(s: State) {
    && s.queue.capacity >= 1 && s.queue.contents == [] && !s.queue.shutdown
    && |s.workers| >= 1 && (forall i :: 0 <= i < |s.workers| ==> s.workers[i] == NotCreated)
    && s.created == 0 && s.main == Creating(0) && s.stopper == Idle && !s.shouldStop
    && s.mutex == Free
    && s.book == Book(0, multiset{}, multiset{}, multiset{}, [], [])
  }

  /** Some parked workers, possibly none, are moved out of the wait. */
  ghost predicate Wakes(ws: seq<WorkerPc>, ws': seq<WorkerPc>) {
    |ws'| == |ws| && forall i :: 0 <= i < |ws| ==> ws'[i] == ws[i] || (ws[i].Parked? && ws'[i].Woken?)
  }

  /** `pthread_cond_signal`: if anybody is parked, somebody wakes. */
  ghost predicate Signal(ws: seq<WorkerPc>, ws': seq<WorkerPc>) {
    Wakes(ws, ws') && (Parked in ws ==> ws' != ws)
  }

  /** `pthread_cond_broadcast`. */
  ghost predicate Broadcast(ws: seq<WorkerPc>, ws': seq<WorkerPc>) {
    Wakes(ws, ws') && Parked !in ws'
  }

  ghost predicate WorkerStep(s: State, s': State, i: nat) {
    i < |s.workers| &&
    match s.workers[i]
    case NotCreated => false
    case Exited => false
    case Parked => false
    case Entry => s.mutex == Free && s' == s.(mutex := ByWorker(i), workers := s.workers[i := Check])
    case Woken => s.mutex == Free && s' == s.(mutex := ByWorker(i), workers := s.workers[i := Check])
    case Check =>
      (match s.queue.DequeueResult()
       case Wait => s' == s.(mutex := Free, workers := s.workers[i := Parked])
       case Closed => s' == s.(workers := s.workers[i := Closing])
       case Taken(t) =>
         s' == s.(queue := s.queue.Dequeue(), book := s.book.(taken := s.book.taken + [t]),
           workers := s.workers[i := Popped(t)]))
    case Closing => s' == s.(mutex := Free, workers := s.workers[i := Exited])
    case Popped(t) =>
      s' == s.(mutex := Free, book := s.book.(handled := s.book.handled + multiset{t}),
        workers := s.workers[i := Handling(t)])
    case Handling(t) =>
      s' == s.(book := s.book.(served := s.book.served + multiset{t}), workers := s.workers[i := Entry])
  }

  /** `thread_pool_start`, src/thread_pool.c:184-199. */
  ghost predicate StartStep(s: State, s': State) {
    && s.main.Creating?
    && if s.main.i < |s.workers| then
         || s' == s.(created := s.main.i + 1, main := Creating(s.main.i + 1), workers := s.workers[s.main.i := Entry])
         || s' == s.(main := StopLock)  // malloc or pthread_create failed
       else
         s' == s.(main := LoopHead)
  }

  /** The accept loop of `server_run` and `socket_queue_enqueue`. */
  ghost predicate LoopStep(s: State, s': State) {
    match s.main
    case LoopHead => s' == s.(main := if s.shouldStop then StopLock else Accepting)
    case InHand(t) => s.mutex == Free && s' == s.(mutex := ByMain, main := EnqLocked(t))
    case EnqLocked(t) =>
      if s.queue.EnqueueResult() == QueueOk then
        s' == s.(queue := s.queue.Enqueue(t), book := s.book.(enqueued := s.book.enqueued + [t]), main := Pushed)
      else
        s' == s.(main := Refused(t))
    case Pushed => Signal(s.workers, s'.workers) && s' == s.(main := Signalled, workers := s'.workers)
    case Signalled => s' == s.(mutex := Free, main := LoopHead)
    case Refused(t) => s' == s.(mutex := Free, main := MustClose(t))
    case MustClose(t) => s' == s.(book := s.book.(refused := s.book.refused + multiset{t}), main := LoopHead)
    case _ => false
  }

  /** `thread_pool_stop`: the shutdown, then one join after the other. */
  ghost predicate JoinStep(s: State, s': State) {
    match s.main
    case StopLock => s.mutex == Free && s' == s.(mutex := ByMain, main := StopHeld)
    case StopHeld => s' == s.(queue := s.queue.(shutdown := true), main := StopSet)
    case StopSet => Broadcast(s.workers, s'.workers) && s' == s.(main := StopCast, workers := s'.workers)
    case StopCast => s' == s.(mutex := Free, main := Joining(0))
    case Joining(j) =>
      if j < s.created && j < |s.workers| then
        s.workers[j].Exited? && s' == s.(main := Joining(j + 1))
      else
        s' == s.(main := Done)
    case _ => false
  }

  ghost predicate MainStep(s: State, s': State) {
    StartStep(s, s') || LoopStep(s, s') || JoinStep(s, s')
  }

  ghost predicate StopperStep(s: State, s': State) {
    match s.stopper
    case Idle => false
    case Flagged => s.mutex == Free && s' == s.(mutex := ByStopper, stopper := SHeld)
    case SHeld => s' == s.(queue := s.queue.(shutdown := true), stopper := SSet)
    case SSet => Broadcast(s.workers, s'.workers) && s' == s.(stopper := SCast, workers := s'.workers)
    case SCast => s' == s.(mutex := Free, stopper := Idle)
  }

  /** A step of one of the program's own threads. */
  ghost predicate ThreadStep(s: State, s': State) {
    (exists i: nat :: WorkerStep(s, s', i)) || MainStep(s, s') || StopperStep(s, s')
  }

  /** The environment calls `server_stop`. */
  ghost predicate StopArrives(s: State, s': State) {
    s.stopper.Idle? && s.stopsLeft > 0 &&
    s' == s.(stopper := Flagged, stopsLeft := s.stopsLeft - 1, shouldStop := true)
  }

  ghost predicate SpuriousWakeup(s: State, s': State, i: nat) {
    i < |s.workers| && s.workers[i].Parked? && s' == s.(workers := s.workers[i := Woken])
  }

  /** `accept` returns, with a connection or with an error. */
  ghost predicate AcceptReturns(s: State, s': State) {
    && s.main == Accepting
    && (|| s' == s.(book := s.book.(accepted := s.book.accepted + 1), main := InHand(s.book.accepted))
        || s' == s.(main := LoopHead))
  }

  ghost predicate EnvironmentStep(s: State, s': State) {
    AcceptReturns(s, s') || StopArrives(s, s') || exists i: nat :: SpuriousWakeup(s, s', i)
  }

  // Two groups of steps that the proofs take together: the accept loop with what `accept` brings it, and all that
  // leaves the main thread alone.

  ghost predicate AcceptStep(s: State, s': State) {
    LoopStep(s, s') || AcceptReturns(s, s')
  }

  ghost predicate OtherStep(s: State, s': State) {
    StopperStep(s, s') || StopArrives(s, s') || exists i: nat :: SpuriousWakeup(s, s', i)
  }

  ghost predicate Step(s: State, s': State) {
    ThreadStep(s, s') || EnvironmentStep(s, s')
  }

  /** A schedule: any interleaving whatever of the steps above. */
  ghost predicate IsRun(run: seq<State>) {
    && |run| >= 1
    && Init(run[0])
    && forall k :: 0 <= k < |run| - 1 ==> StepAt(run, k)
  }

  ghost predicate StepAt(run: seq<State>, k: nat)
    requires k + 1 < |run|
  {
    Step(run[k], run[k + 1])
  }

  // --- counting over the workers ---------------------------------------------------------------

  /** What is counted: the workers that will test the queue again before they can park, the workers holding
      ticket `t`, those whose handler is running on it, or the steps a worker can still take once the queue
      is shut. */
  datatype Gauge = Awake | Holding(t: Ticket) | InHandler(t: Ticket) | StepsLeft

  function Weight(g: Gauge, w: WorkerPc): (r: nat) {
    match g
    case Awake => if w.Woken? || w.Check? then 1 else 0
    case Holding(t) => if w == Popped(t) || w == Handling(t) then 1 else 0
    case InHandler(t) => if w == Handling(t) then 1 else 0
    case StepsLeft =>
      match w
      case NotCreated => 4
      case Entry => 3
      case Check => 2
      case Parked => 4
      case Woken => 3
      case Popped(_) => 5
      case Closing => 1
      case Handling(_) => 4
      case Exited => 0
  }

  function Count(g: Gauge, ws: seq<WorkerPc>): (r: nat) {
    if ws == [] then 0 else Weight(g, ws[0]) + Count(g, ws[1..])
  }

  lemma {:induction false} CountUpdate(g: Gauge, ws: seq<WorkerPc>, i: nat, w: WorkerPc)
    requires i < |ws|
    ensures Count(g, ws[i := w]) + Weight(g, ws[i]) == Count(g, ws) + Weight(g, w)
    decreases i
  {
    if i == 0 {
      assert ws[i := w][1..] == ws[1..];
    } else {
      assert ws[i := w][1..] == ws[1..][i - 1 := w];
      CountUpdate(g, ws[1..], i - 1, w);
    }
  }

  lemma {:induction false} CountZero(g: Gauge, ws: seq<WorkerPc>)
    ensures Count(g, ws) == 0 <==> forall i :: 0 <= i < |ws| ==> Weight(g, ws[i]) == 0
    decreases |ws|
  {
    if ws != [] {
      CountZero(g, ws[1..]);
      assert ws == [ws[0]] + ws[1..];
    }
  }

  lemma {:induction false} CountAtMost(g: Gauge, h: Gauge, ws: seq<WorkerPc>)
    requires forall w :: Weight(g, w) <= Weight(h, w)
    ensures Count(g, ws) <= Count(h, ws)
    decreases |ws|
  {
    if ws != [] {
      CountAtMost(g, h, ws[1..]);
    }
  }

  /** Waking workers never lowers `Awake`, raises it if anybody woke, and leaves every ticket where it is. */
  lemma {:induction false} CountWakes(g: Gauge, ws: seq<WorkerPc>, ws': seq<WorkerPc>)
    requires Wakes(ws, ws')
    ensures g == Awake ==> Count(g, ws') >= Count(g, ws) + if ws' == ws then 0 else 1
    ensures g.Holding? || g.InHandler? ==> Count(g, ws') == Count(g, ws)
    ensures g == StepsLeft ==> Count(g, ws') <= Count(g, ws)
    decreases |ws|
  {
    if ws != [] {
      CountWakes(g, ws[1..], ws'[1..]);
      assert ws == [ws[0]] + ws[1..] && ws' == [ws'[0]] + ws'[1..];
    }
  }
}
