/**
 The thread pool as an interleaved step system: any number of workers, any number of
 producers calling `submit`, and one thread that calls `shutdown`.  Every critical
 section of the queue and every atomic operation is one step, and any enabled step of
 any thread may come next.
 */
module ThreadPool {
  import opened Wrappers
  import opened Sums
  import opened BlockingQueue

  /** A task is known by a number; the same number may be submitted again. */
  type Task = nat

  /** Where a worker is in `worker_loop` and `wait_and_pop`. */
  datatype Worker =
    | Entering                // about to lock the queue's mutex
    | Asleep                  // on the condition variable, not yet signalled
    | Notified                // signalled or woken spuriously, about to lock again
    | Holding(task: Task)     // popped a task, not yet counted as active
    | Running(task: Task)     // counted as active, inside the task
    | Leaving                 // the task returned or threw, still counted as active
    | Exited

  /** A producer is outside `submit`, or past the test of `stopped_` and about to push. */
  datatype Producer = Idle | Pushing(task: Task)

  /** Where the thread that calls `shutdown` is. */
  datatype Closer =
    | Serving
    | Stopping                // `stopped_` is set, the queue's flag is not
    | Waking                  // the queue's flag is set, the broadcast has not happened
    | Joining(joined: nat)
    | Closed

  datatype State = State(
    queue: Queue<Task>,
    stopped: bool,
    workers: seq<Worker>,
    producers: seq<Producer>,
    closer: Closer,
    active: int,              // active_workers_
    accepted: seq<Task>,      // history: tasks pushed, in order
    popped: seq<Task>,        // history: tasks taken from the queue, in order
    ran: seq<Task>)           // history: tasks whose call has ended

  datatype Action =
    | Attempt(w: nat, wake: Option<nat>)
    | Spurious(w: nat)
    | Count(w: nat)
    | Finish(w: nat, threw: bool)
    | Uncount(w: nat)
    | Check(p: nat, task: Task)
    | Push(p: nat, wake: Option<nat>)
    | Throw(p: nat)
    | Stop
    | Flag
    | NotifyAll
    | Join

  /** The constructor replaces a thread count of zero by two. */
  function PoolSize(threads: nat): nat {
    if threads == 0 then 2 else threads
  }

  function Init(capacity: nat, threads: nat, producers: nat): State {
    State(Queue([], capacity, false), false, seq(PoolSize(threads), _ => Entering), seq(producers, _ => Idle),
          Serving, 0, [], [], [])
  }

  ghost predicate NoneAsleep(ws: seq<Worker>) {
    forall i :: 0 <= i < |ws| ==> !ws[i].Asleep?
  }

  ghost predicate AllExited(ws: seq<Worker>) {
    forall i :: 0 <= i < |ws| ==> ws[i].Exited?
  }

  ghost predicate NoneExited(ws: seq<Worker>) {
    forall i :: 0 <= i < |ws| ==> !ws[i].Exited?
  }

  ghost predicate NoSubmitInFlight(s: State) {
    forall p :: 0 <= p < |s.producers| ==> s.producers[p].Idle?
  }

  /** `notify_one` wakes exactly one sleeper of its choice, or nobody when nobody sleeps. */
  ghost predicate ValidWake(ws: seq<Worker>, wake: Option<nat>) {
    match wake
    case None => NoneAsleep(ws)
    case Some(j) => j < |ws| && ws[j].Asleep?
  }

  function Wake(ws: seq<Worker>, wake: Option<nat>): seq<Worker>
    requires wake.Some? ==> wake.value < |ws|
  {
    if wake.Some? then ws[wake.value := Notified] else ws
  }

  function Awake(w: Worker): Worker {
    if w.Asleep? then Notified else w
  }

  ghost predicate Enabled(s: State, a: Action) {
    match a
    case Attempt(w, wake) =>
      && w < |s.workers|
      && (s.workers[w].Entering? || s.workers[w].Notified?)
      && (if TryTake(s.queue).Take? then ValidWake(s.workers, wake) else wake.None?)
    case Spurious(w) => w < |s.workers| && s.workers[w].Asleep?
    case Count(w) => w < |s.workers| && s.workers[w].Holding?
    case Finish(w, _) => w < |s.workers| && s.workers[w].Running?
    case Uncount(w) => w < |s.workers| && s.workers[w].Leaving?
    case Check(p, _) => p < |s.producers| && s.producers[p].Idle?
    case Push(p, wake) =>
      && p < |s.producers|
      && s.producers[p].Pushing?
      && (if |s.queue.items| < s.queue.capacity then ValidWake(s.workers, wake) else wake.None?)
    case Throw(p) => p < |s.producers| && s.producers[p].Pushing?
    case Stop => s.closer.Serving?
    case Flag => s.closer.Stopping?
    case NotifyAll => s.closer.Waking?
    case Join =>
      s.closer.Joining? && (s.closer.joined < |s.workers| ==> s.workers[s.closer.joined].Exited?)
  }

  ghost function Step(s: State, a: Action): State
    requires Enabled(s, a)
  {
    match a
    case Attempt(w, wake) =>
      (match TryTake(s.queue)
       case Take(t, rest) =>
         s.(queue := rest, popped := s.popped + [t], workers := Wake(s.workers, wake)[w := Holding(t)])
       case Quit => s.(workers := s.workers[w := Exited])
       case Sleep => s.(workers := s.workers[w := Asleep]))
    case Spurious(w) => s.(workers := s.workers[w := Notified])
    case Count(w) => s.(active := s.active + 1, workers := s.workers[w := Running(s.workers[w].task)])
    case Finish(w, _) => s.(ran := s.ran + [s.workers[w].task], workers := s.workers[w := Leaving])
    case Uncount(w) => s.(active := s.active - 1, workers := s.workers[w := Entering])
    case Check(p, t) => if s.stopped then s else s.(producers := s.producers[p := Pushing(t)])
    case Push(p, wake) =>
      var t := s.producers[p].task;
      var idle := s.producers[p := Idle];
      if |s.queue.items| < s.queue.capacity then
        s.(queue := Offer(s.queue, t), accepted := s.accepted + [t], producers := idle,
           workers := Wake(s.workers, wake))
      else s.(producers := idle)
    case Throw(p) => s.(producers := s.producers[p := Idle])
    case Stop => s.(stopped := true, closer := Stopping)
    case Flag => s.(queue := s.queue.(shutdown := true), closer := Waking)
    case NotifyAll =>
      s.(workers := seq(|s.workers|, i requires 0 <= i < |s.workers| => Awake(s.workers[i])), closer := Joining(0))
    case Join =>
      s.(closer := if s.closer.joined < |s.workers| then Joining(s.closer.joined + 1) else Closed)
  }

  /** `acts` is a run from `s` to `t`. */
  ghost predicate Leads(s: State, acts: seq<Action>, t: State)
    decreases |acts|
  {
    if acts == [] then s == t
    else Enabled(s, acts[0]) && Leads(Step(s, acts[0]), acts[1..], t)
  }

  ghost predicate Reachable(s: State) {
    exists capacity: nat, threads: nat, producers: nat, acts: seq<Action> ::
      Leads(Init(capacity, threads, producers), acts, s)
  }

  // ---- The invariant ----

  ghost function ActiveUnit(w: Worker): nat {
    if w.Running? || w.Leaving? then 1 else 0
  }

  ghost function NotifiedUnit(w: Worker): nat {
    if w.Notified? then 1 else 0
  }

  /** One for a worker that has popped task `t` and not finished it. */
  ghost function Holds(t: Task): Worker -> nat {
    (w: Worker) => if (w.Holding? || w.Running?) && w.task == t then 1 else 0
  }

  /** Tasks come out in the order in which they were accepted, and the queue never overfills. */
  ghost predicate Fifo(s: State) {
    && |s.queue.items| <= s.queue.capacity
    && s.accepted == s.popped + s.queue.items
    && (s.queue.capacity == 0 ==> s.accepted == [])
  }

  /** Task `t` was popped as often as it has run or is held by a worker. */
  ghost predicate Balanced(s: State, t: Task) {
    multiset(s.popped)[t] == multiset(s.ran)[t] + Sum(s.workers, Holds(t))
  }

  ghost predicate ExactlyOnce(s: State) {
    forall t :: Balanced(s, t)
  }

  /** While anyone sleeps, every queued task has a woken worker on its way to the mutex. */
  ghost predicate NoLostWakeup(s: State) {
    NoneAsleep(s.workers) || |s.queue.items| <= Sum(s.workers, NotifiedUnit)
  }

  /** `active_workers_` counts the workers between their increment and their decrement. */
  ghost predicate GaugeExact(s: State) {
    s.active == Sum(s.workers, ActiveUnit)
  }

  /** How far `shutdown` has come fixes the two flags and which workers may sleep or be gone. */
  ghost predicate Phases(s: State) {
    && s.workers != []
    && (s.stopped <==> !s.closer.Serving?)
    && (s.queue.shutdown <==> !s.closer.Serving? && !s.closer.Stopping?)
    && (!s.queue.shutdown ==> NoneExited(s.workers))
    && (s.closer.Joining? || s.closer.Closed? ==> NoneAsleep(s.workers))
    && (s.closer.Joining? ==>
          && s.closer.joined <= |s.workers|
          && forall i :: 0 <= i < s.closer.joined ==> s.workers[i].Exited?)
    && (s.closer.Closed? ==> AllExited(s.workers))
  }

  ghost predicate Inv(s: State) {
    Fifo(s) && ExactlyOnce(s) && NoLostWakeup(s) && GaugeExact(s) && Phases(s)
  }

  /** A total that does not tell sleeping from notified workers sees only the worker that moves. */
  lemma SignalAndMove(ws: seq<Worker>, wake: Option<nat>, w: nat, pc: Worker, f: Worker -> nat)
    requires ValidWake(ws, wake) && w < |ws| && !ws[w].Asleep? && f(Asleep) == f(Notified)
    ensures Sum(Wake(ws, wake)[w := pc], f) + f(ws[w]) == Sum(ws, f) + f(pc)
  {
    if wake.Some? {
      SumUpdate(ws, wake.value, Notified, f);
    }
    SumUpdate(Wake(ws, wake), w, pc, f);
  }

  lemma SignalOnly(ws: seq<Worker>, wake: Option<nat>, f: Worker -> nat)
    requires ValidWake(ws, wake)
    ensures Sum(Wake(ws, wake), f) + (if wake.Some? then f(Asleep) else 0)
         == Sum(ws, f) + (if wake.Some? then f(Notified) else 0)
  {
    if wake.Some? {
      SumUpdate(ws, wake.value, Notified, f);
    }
  }

  lemma {:induction false} InitInv(capacity: nat, threads: nat, producers: nat)
    ensures Inv(Init(capacity, threads, producers))
  {
    var s := Init(capacity, threads, producers);
    SumBound(s.workers, ActiveUnit, 0);
    forall t ensures Balanced(s, t) {
      SumBound(s.workers, Holds(t), 0);
    }
  }

  lemma StepKeepsFifo(s: State, a: Action)
    requires Fifo(s) && Enabled(s, a)
    ensures Fifo(Step(s, a))
  {
    if a.Attempt? && TryTake(s.queue).Take? {
      var Take(t, rest) := TryTake(s.queue);
      assert s.accepted == (s.popped + [t]) + rest.items;
    }
  }

  lemma AttemptKeepsBalanced(s: State, w: nat, wake: Option<nat>, t: Task)
    requires Balanced(s, t) && Enabled(s, Attempt(w, wake))
    ensures Balanced(Step(s, Attempt(w, wake)), t)
  {
    match TryTake(s.queue)
    case Take(item, _) => SignalAndMove(s.workers, wake, w, Holding(item), Holds(t));
    case Quit => SumUpdate(s.workers, w, Exited, Holds(t));
    case Sleep => SumUpdate(s.workers, w, Asleep, Holds(t));
  }

  lemma FinishKeepsBalanced(s: State, w: nat, threw: bool, t: Task)
    requires Balanced(s, t) && Enabled(s, Finish(w, threw))
    ensures Balanced(Step(s, Finish(w, threw)), t)
  {
    SumUpdate(s.workers, w, Leaving, Holds(t));
  }

  lemma StepKeepsBalanced(s: State, a: Action, t: Task)
    requires Balanced(s, t) && Enabled(s, a)
    ensures Balanced(Step(s, a), t)
  {
    var ws := s.workers;
    match a
    case Attempt(w, wake) => AttemptKeepsBalanced(s, w, wake, t);
    case Spurious(w) => SumUpdate(ws, w, Notified, Holds(t));
    case Count(w) => SumUpdate(ws, w, Running(ws[w].task), Holds(t));
    case Finish(w, threw) => FinishKeepsBalanced(s, w, threw, t);
    case Uncount(w) => SumUpdate(ws, w, Entering, Holds(t));
    case Push(_, wake) => if ValidWake(ws, wake) { SignalOnly(ws, wake, Holds(t)); }
    case NotifyAll => SumPointwise(ws, Step(s, a).workers, Holds(t));
    case _ =>
  }

  lemma StepKeepsNoLostWakeup(s: State, a: Action)
    requires NoLostWakeup(s) && Enabled(s, a)
    ensures NoLostWakeup(Step(s, a))
  {
    var ws := s.workers;
    match a
    case Attempt(w, wake) =>
      match TryTake(s.queue) {
        case Take(item, _) =>
          SignalOnly(ws, wake, NotifiedUnit);
          SumUpdate(Wake(ws, wake), w, Holding(item), NotifiedUnit);
        case Quit => SumUpdate(ws, w, Exited, NotifiedUnit);
        case Sleep => SumUpdate(ws, w, Asleep, NotifiedUnit);
      }
    case Spurious(w) => SumUpdate(ws, w, Notified, NotifiedUnit);
    case Count(w) => SumUpdate(ws, w, Running(ws[w].task), NotifiedUnit);
    case Finish(w, _) => SumUpdate(ws, w, Leaving, NotifiedUnit);
    case Uncount(w) => SumUpdate(ws, w, Entering, NotifiedUnit);
    case Push(_, wake) => if ValidWake(ws, wake) { SignalOnly(ws, wake, NotifiedUnit); }
    case _ =>
  }

  lemma StepKeepsGaugeExact(s: State, a: Action)
    requires GaugeExact(s) && Enabled(s, a)
    ensures GaugeExact(Step(s, a))
  {
    var ws := s.workers;
    match a
    case Attempt(w, wake) =>
      match TryTake(s.queue) {
        case Take(item, _) => SignalAndMove(ws, wake, w, Holding(item), ActiveUnit);
        case Quit => SumUpdate(ws, w, Exited, ActiveUnit);
        case Sleep => SumUpdate(ws, w, Asleep, ActiveUnit);
      }
    case Spurious(w) => SumUpdate(ws, w, Notified, ActiveUnit);
    case Count(w) => SumUpdate(ws, w, Running(ws[w].task), ActiveUnit);
    case Finish(w, _) => SumUpdate(ws, w, Leaving, ActiveUnit);
    case Uncount(w) => SumUpdate(ws, w, Entering, ActiveUnit);
    case Push(_, wake) => if ValidWake(ws, wake) { SignalOnly(ws, wake, ActiveUnit); }
    case NotifyAll => SumPointwise(ws, Step(s, a).workers, ActiveUnit);
    case _ =>
  }

  lemma StepKeepsPhases(s: State, a: Action)
    requires Phases(s) && Enabled(s, a)
    ensures Phases(Step(s, a))
  {
  }

  /** Every step of every thread keeps the invariant. */
  lemma StepKeepsInv(s: State, a: Action)
    requires Inv(s) && Enabled(s, a)
    ensures Inv(Step(s, a))
  {
    StepKeepsFifo(s, a);
    forall t ensures Balanced(Step(s, a), t) {
      StepKeepsBalanced(s, a, t);
    }
    StepKeepsNoLostWakeup(s, a);
    StepKeepsGaugeExact(s, a);
    StepKeepsPhases(s, a);
  }

  lemma {:induction false} RunKeepsInv(s: State, acts: seq<Action>, t: State)
    requires Inv(s) && Leads(s, acts, t)
    ensures Inv(t)
    decreases |acts|
  {
    if acts != [] {
      StepKeepsInv(s, acts[0]);
      RunKeepsInv(Step(s, acts[0]), acts[1..], t);
    }
  }

  lemma ReachableInv(s: State)
    requires Reachable(s)
    ensures Inv(s)
  {
    var capacity: nat, threads: nat, producers: nat, acts :| Leads(Init(capacity, threads, producers), acts, s);
    InitInv(capacity, threads, producers);
    RunKeepsInv(Init(capacity, threads, producers), acts, s);
  }
}
