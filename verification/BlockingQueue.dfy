/**
 The bounded blocking queue.  Its mutex makes every method one atomic step, except
 `wait_and_pop`, which is a sequence of steps separated by sleeps: each time the
 thread holds the mutex it makes one `Attempt`.
 */
module BlockingQueue {
  import opened Wrappers

  /** The queue's contents as a value, shared by the class and by the thread-pool protocol. */
  datatype Queue<T> = Queue(items: seq<T>, capacity: nat, shutdown: bool)

  /** What a thread that holds the mutex in `wait_and_pop` does next. */
  datatype Attempt<T> = Sleep | Quit | Take(item: T, rest: Queue<T>)

  /** A signal sent on the condition variable. */
  datatype Signal = NoSignal | WakeOne | WakeAll

  function Offer<T>(q: Queue<T>, item: T): Queue<T> {
    if |q.items| >= q.capacity then q else q.(items := q.items + [item])
  }

  function TryTake<T>(q: Queue<T>): Attempt<T> {
    if q.items != [] then Take(q.items[0], q.(items := q.items[1..]))
    else if q.shutdown then Quit
    else Sleep
  }

  class BoundedBlockingQueue<T> {
    var queue: seq<T>
    const capacity: nat
    var shutdown: bool

    ghost function Contents(): Queue<T>
      reads this
    {
      Queue(queue, capacity, shutdown)
    }

    constructor (capacity: nat)
      ensures Contents() == Queue([], capacity, false)
    {
      this.capacity := capacity;
      queue, shutdown := [], false;
    }

    /** Refuses when full; otherwise appends and wakes one sleeper. */
    method Push(item: T) returns (ok: bool, signal: Signal)
      modifies this
      ensures Contents() == Offer(old(Contents()), item)
      ensures ok <==> |old(queue)| < capacity
      ensures ok ==> queue == old(queue) + [item] && signal == WakeOne
      ensures !ok ==> queue == old(queue) && signal == NoSignal
    {
      if |queue| >= capacity {
        return false, NoSignal;
      }
      queue := queue + [item];
      return true, WakeOne;
    }

    /** One pass through the critical section of `wait_and_pop`. */
    method WaitAndPopAttempt() returns (r: Attempt<T>, signal: Signal)
      modifies this
      ensures r == TryTake(old(Contents()))
      ensures r.Take? ==> Contents() == r.rest && old(queue) == [r.item] + queue && signal == WakeOne
      ensures !r.Take? ==> Contents() == old(Contents()) && queue == [] && signal == NoSignal
      ensures r.Quit? ==> shutdown
    {
      if !(queue != [] || shutdown) {
        return Sleep, NoSignal;
      }
      if shutdown && queue == [] {
        return Quit, NoSignal;
      }
      var item := queue[0];
      queue := queue[1..];
      return Take(item, Queue(queue, capacity, shutdown)), WakeOne;
    }

    /** `try_pop` never sleeps and ignores the shutdown flag. */
    method TryPop() returns (r: Option<T>, signal: Signal)
      modifies this
      ensures shutdown == old(shutdown)
      ensures old(queue) == [] ==> r == None && queue == [] && signal == NoSignal
      ensures old(queue) != [] ==> r.Some? && old(queue) == [r.value] + queue && signal == WakeOne
    {
      if queue == [] {
        return None, NoSignal;
      }
      var item := queue[0];
      queue := queue[1..];
      return Some(item), WakeOne;
    }

    /** Sets the flag; the broadcast follows after the mutex is released. */
    method Shutdown() returns (signal: Signal)
      modifies this
      ensures Contents() == old(Contents()).(shutdown := true) && signal == WakeAll
    {
      shutdown := true;
      return WakeAll;
    }
  }
}
