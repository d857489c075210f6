/** The bounded socket queue of src/thread_pool.c: its meaning as a bounded sequence, and the ring
    buffer that implements it. */
module BoundedQueue {
  datatype QueueResult = QueueOk | QueueFull | QueueClosed

  /** What one pass through the critical section of `socket_queue_dequeue` decides. */
  datatype Dequeue<+T> = Wait | Closed | Taken(item: T)

  /** The queue as its callers see it. */
  datatype Queue<T> = Queue(capacity: nat, contents: seq<T>, shutdown: bool) {
    ghost predicate Valid() {
      1 <= capacity && |contents| <= capacity
    }

    function EnqueueResult(): (r: QueueResult) {
      if shutdown then QueueClosed else if |contents| == capacity then QueueFull else QueueOk
    }

    function Enqueue(x: T): (r: Queue<T>) {
      if EnqueueResult() == QueueOk then this.(contents := contents + [x]) else this
    }

    function DequeueResult(): (r: Dequeue<T>) {
      if contents != [] then Taken(contents[0]) else if shutdown then Closed else Wait
    }

    function Dequeue(): (r: Queue<T>) {
      if contents != [] then this.(contents := contents[1..]) else this
    }
  }

  /** Where a ring of `n` slots is `d` steps after `i`. */
  function Slot(i: nat, d: nat, n: nat): (r: nat)
    requires i < n && d <= n
  {
    if i + d < n then i + d else i + d - n
  }

  lemma NextSlot(i: nat, n: nat)
    requires i < n
    ensures (i + 1) % n == Slot(i, 1, n)
  {
  }

  /** The `count` items from `head` on, around the end of the ring if need be. */
  function RingContents(items: seq<int>, head: nat, count: nat): (contents: seq<int>)
    requires head < |items| && count <= |items|
    ensures |contents| == count
    ensures forall k :: 0 <= k < count ==> contents[k] == items[Slot(head, k, |items|)]
  {
    if head + count <= |items| then items[head..head + count] else items[head..] + items[..head + count - |items|]
  }

  lemma RingPop(items: seq<int>, head: nat, count: nat)
    requires head < |items| && 0 < count <= |items|
    ensures RingContents(items, head, count) == [items[head]] + RingContents(items, Slot(head, 1, |items|), count - 1)
  {
  }

  lemma RingPush(items: seq<int>, head: nat, count: nat, x: int)
    requires head < |items| && count < |items|
    ensures RingContents(items[Slot(head, count, |items|) := x], head, count + 1)
            == RingContents(items, head, count) + [x]
  {
  }

  /** The ring buffer. The mutex and the condition variables are the subject of module PoolProtocol;
      each method here is one critical section. */
  class SocketQueue {
    var items: array<int>
    var head: nat
    var tail: nat
    var count: nat
    var shutdown: bool

    ghost predicate Valid()
      reads this
    {
      && 1 <= items.Length
      && head < items.Length
      && count <= items.Length
      && tail == Slot(head, count, items.Length)
    }

    /** The bounded sequence the ring represents, with any amount of wraparound. */
    ghost function Abstract(): (r: Queue<int>)
      reads this, items
      requires Valid()
    {
      Queue(items.Length, RingContents(items[..], head, count), shutdown)
    }

    constructor (capacity: nat)
      requires 1 <= capacity
      ensures Valid() && fresh(items)
      ensures Abstract() == Queue(capacity, [], false)
    {
      items := new int[capacity](_ => 0);
      head, tail, count, shutdown := 0, 0, 0, false;
    }

    /** `socket_queue_init`, where `granted` says that both allocations and the mutex and both condition variables
        can be had. A zero capacity is refused. */
    static method Init(capacity: nat, granted: bool) returns (queue: SocketQueue?)
      ensures queue == null <==> capacity == 0 || !granted
      ensures queue != null ==>
                fresh(queue) && queue.Valid() && fresh(queue.items) && queue.Abstract() == Queue(capacity, [], false)
    {
      if capacity == 0 || !granted {
        return null;
      }
      queue := new SocketQueue(capacity);
    }

    method Enqueue(clientFd: int) returns (result: QueueResult)
      requires Valid()
      modifies this, items
      ensures Valid() && items == old(items)
      ensures result == QueueClosed <==> old(shutdown)
      ensures result == QueueFull <==> !old(shutdown) && old(count) == items.Length
      ensures result == old(Abstract()).EnqueueResult()
      ensures Abstract() == old(Abstract()).Enqueue(clientFd)
    {
      if shutdown {
        result := QueueClosed;
      } else if count == items.Length {
        result := QueueFull;
      } else {
        RingPush(items[..], head, count, clientFd);
        items[tail] := clientFd;
        NextSlot(tail, items.Length);
        tail := (tail + 1) % items.Length;
        count := count + 1;
        result := QueueOk;
      }
    }

    /** `Wait` is the answer on which the caller parks on `not_empty`. */
    method Dequeue() returns (result: Dequeue<int>)
      requires Valid()
      modifies this
      ensures Valid() && items == old(items)
      ensures result == Wait <==> old(count) == 0 && !old(shutdown)
      ensures result == Closed <==> old(count) == 0 && old(shutdown)
      ensures old(count) > 0 ==> result == Taken(old(items[head]))
      ensures result == old(Abstract()).DequeueResult()
      ensures Abstract() == old(Abstract()).Dequeue()
    {
      if count == 0 && !shutdown {
        return Wait;
      }
      if count == 0 && shutdown {
        return Closed;
      }
      RingPop(items[..], head, count);
      result := Taken(items[head]);
      NextSlot(head, items.Length);
      head := (head + 1) % items.Length;
      count := count - 1;
    }

    method Shutdown()
      requires Valid()
      modifies this
      ensures Valid() && items == old(items)
      ensures Abstract() == old(Abstract()).(shutdown := true)
    {
      shutdown := true;
    }
  }

  datatype Op = Enq(item: int) | Deq | Close

  /** What a run of operations lets in, and what it hands out. */
  datatype Trace = Trace(accepted: seq<int>, served: seq<int>, queue: Queue<int>)

  function Replay(q: Queue<int>, ops: seq<Op>): (r: Trace)
    decreases |ops|
  {
    if ops == [] then Trace([], [], q)
    else match ops[0] {
      case Enq(x) =>
        var t := Replay(q.Enqueue(x), ops[1..]);
        if q.EnqueueResult() == QueueOk then t.(accepted := [x] + t.accepted) else t
      case Deq =>
        var t := Replay(q.Dequeue(), ops[1..]);
        if q.DequeueResult().Taken? then t.(served := [q.DequeueResult().item] + t.served) else t
      case Close => Replay(q.(shutdown := true), ops[1..])
    }
  }

  /** First in, first out over whole runs: what was waiting, then what was accepted, is handed out in that
      order, and what has not been handed out is still waiting; the bound is never exceeded; once the queue
      is shut nothing more is accepted. */
  lemma {:induction false} RunIsFifo(q: Queue<int>, ops: seq<Op>)
    requires q.Valid()
    ensures var t := Replay(q, ops);
            && t.served + t.queue.contents == q.contents + t.accepted
            && t.queue.Valid() && t.queue.capacity == q.capacity
            && (q.shutdown ==> t.accepted == [])
            && (t.queue.shutdown <==> q.shutdown || Close in ops)
    decreases |ops|
  {
    if ops != [] {
      assert ops == [ops[0]] + ops[1..];
      match ops[0] {
        case Enq(x) =>
          RunIsFifo(q.Enqueue(x), ops[1..]);
          if q.EnqueueResult() == QueueOk {
            var t := Replay(q.Enqueue(x), ops[1..]);
            assert q.contents + [x] + t.accepted == q.contents + ([x] + t.accepted);
          }
        case Deq =>
          RunIsFifo(q.Dequeue(), ops[1..]);
          if q.contents != [] {
            var t := Replay(q.Dequeue(), ops[1..]);
            assert q.contents == [q.contents[0]] + q.contents[1..];
            assert [q.contents[0]] + t.served + t.queue.contents == [q.contents[0]] + (t.served + t.queue.contents);
            assert [q.contents[0]] + (q.contents[1..] + t.accepted) == q.contents + t.accepted;
          }
        case Close => RunIsFifo(q.(shutdown := true), ops[1..]);
      }
    }
  }

  /** An item is accepted exactly if the queue is not shut and has room; it is full exactly if `capacity` items wait. */
  lemma AcceptedIff(q: Queue<int>, x: int)
    requires q.Valid()
    ensures Replay(q, [Enq(x)]).accepted == [x] <==> !q.shutdown && |q.contents| < q.capacity
    ensures q.EnqueueResult() == QueueFull <==> !q.shutdown && |q.contents| == q.capacity
    ensures q.EnqueueResult() == QueueClosed <==> q.shutdown
  {
    assert [Enq(x)][1..] == [];
  }

  function Burst(xs: seq<int>): (ops: seq<Op>) {
    if xs == [] then [] else [Enq(xs[0])] + Burst(xs[1..])
  }

  function Drain(n: nat): (ops: seq<Op>) {
    if n == 0 then [] else [Deq] + Drain(n - 1)
  }

  /** Of a burst, exactly what fits is accepted, from its front; nothing if the queue is shut. */
  lemma {:induction false} BurstFillsTheRoom(q: Queue<int>, xs: seq<int>)
    requires q.Valid()
    ensures var room := if q.shutdown then 0 else q.capacity - |q.contents|;
            Replay(q, Burst(xs)).accepted == if |xs| <= room then xs else xs[..room]
    decreases |xs|
  {
    if xs != [] {
      var ops := Burst(xs);
      assert ops[0] == Enq(xs[0]) && ops[1..] == Burst(xs[1..]);
      BurstFillsTheRoom(q.Enqueue(xs[0]), xs[1..]);
      assert xs == [xs[0]] + xs[1..];
    }
  }

  /** Taking `n` items hands out the first `n` that wait, or all, shut or not. */
  lemma {:induction false} DrainEmptiesTheFront(q: Queue<int>, n: nat)
    requires q.Valid()
    ensures Replay(q, Drain(n)).served == if n <= |q.contents| then q.contents[..n] else q.contents
    decreases n
  {
    if n > 0 {
      var ops := Drain(n);
      assert ops[0] == Deq && ops[1..] == Drain(n - 1);
      DrainEmptiesTheFront(q.Dequeue(), n - 1);
      if q.contents != [] {
        assert q.contents == [q.contents[0]] + q.contents[1..];
      }
    }
  }
}
