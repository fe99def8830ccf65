/**
 What the thread pool's invariant gives: nobody sleeps through work, the gauges are
 exact, and `shutdown` drains every accepted task exactly once, provided no `submit`
 is between its test of `stopped_` and its push when `stopped_` is set.
 */
module PoolShutdown {
  import opened Wrappers
  import opened Sums
  import opened BlockingQueue
  import opened ThreadPool

  /** In every reachable state the queue is bounded and first-in first-out. */
  lemma FifoEverywhere(s: State)
    requires Reachable(s)
    ensures |s.queue.items| <= s.queue.capacity
    ensures s.accepted == s.popped + s.queue.items
  {
    ReachableInv(s);
  }

  /** In every reachable state the gauge is exact, so `idle_workers` cannot underflow. */
  lemma GaugeEverywhere(s: State)
    requires Reachable(s)
    ensures s.active == Sum(s.workers, ActiveUnit)
    ensures 0 <= s.active <= |s.workers|
  {
    ReachableInv(s);
    SumBound(s.workers, ActiveUnit, 1);
  }

  /** In every reachable state, while anyone sleeps, each queued task has a woken worker on its way to the mutex. */
  lemma WakeupsCoverQueue(s: State, w: nat)
    requires Reachable(s) && w < |s.workers| && s.workers[w].Asleep?
    ensures |s.queue.items| <= Sum(s.workers, NotifiedUnit)
  {
    ReachableInv(s);
  }

  /** A step that the worker takes on its own, without a signal or a spurious wakeup. */
  ghost predicate CanAct(s: State, w: nat) {
    w < |s.workers| && !s.workers[w].Asleep? && !s.workers[w].Exited?
  }

  /** A worker's next step of its own. */
  ghost function OwnStep(s: State, w: nat, wake: Option<nat>): Action
    requires CanAct(s, w)
  {
    match s.workers[w]
    case Entering => Attempt(w, wake)
    case Notified => Attempt(w, wake)
    case Holding(_) => Count(w)
    case Running(_) => Finish(w, false)
    case Leaving => Uncount(w)
  }

  lemma WakeExists(ws: seq<Worker>) returns (wake: Option<nat>)
    ensures ValidWake(ws, wake)
  {
    if j: nat :| j < |ws| && ws[j].Asleep? {
      wake := Some(j);
    } else {
      wake := None;
    }
  }

  lemma OwnStepEnabled(s: State, w: nat) returns (a: Action)
    requires CanAct(s, w)
    ensures Enabled(s, a) && (exists wake :: a == OwnStep(s, w, wake))
  {
    var wake := WakeExists(s.workers);
    a := OwnStep(s, w, if TryTake(s.queue).Take? then wake else None);
  }

  /** No task waits in the queue while every worker sleeps: some worker can act unaided. */
  lemma NoWorkSleptThrough(s: State) returns (w: nat, a: Action)
    requires Reachable(s) && s.queue.items != [] && !s.queue.shutdown
    ensures CanAct(s, w) && Enabled(s, a) && (exists wake :: a == OwnStep(s, w, wake))
  {
    ReachableInv(s);
    if NoneAsleep(s.workers) {
      w := 0;
    } else {
      w := FindNotified(s.workers);
    }
    a := OwnStepEnabled(s, w);
  }

  lemma {:induction false} FindNotified(ws: seq<Worker>) returns (w: nat)
    requires Sum(ws, NotifiedUnit) > 0
    ensures w < |ws| && ws[w].Notified?
  {
    if ws[0].Notified? {
      w := 0;
    } else {
      w := FindNotified(ws[1..]);
      w := w + 1;
    }
  }

  /** A spurious wakeup with nothing to do can happen to any sleeper and leads back to the very same state. */
  lemma SpuriousHarmless(s: State, w: nat)
    requires w < |s.workers| && s.workers[w].Asleep? && s.queue.items == [] && !s.queue.shutdown
    ensures Enabled(s, Spurious(w)) && Enabled(Step(s, Spurious(w)), Attempt(w, None))
    ensures Step(Step(s, Spurious(w)), Attempt(w, None)) == s
  {
    var s' := Step(s, Spurious(w));
    assert s'.workers[w := Asleep] == s.workers;
  }

  ghost function AsleepUnit(w: Worker): nat {
    if w.Asleep? then 1 else 0
  }

  ghost function Sleepers(s: State): nat {
    Sum(s.workers, AsleepUnit)
  }

  /** The step sends `notify_one`: an accepted push, or a pop. */
  ghost predicate Signals(s: State, a: Action) {
    || (a.Push? && |s.queue.items| < s.queue.capacity)
    || (a.Attempt? && TryTake(s.queue).Take?)
  }

  lemma NobodySleeps(ws: seq<Worker>)
    requires NoneAsleep(ws)
    ensures Sum(ws, AsleepUnit) == 0
  {
    SumBound(ws, AsleepUnit, 0);
  }

  lemma AttemptSleepers(s: State, w: nat, wake: Option<nat>)
    requires Enabled(s, Attempt(w, wake))
    ensures var n, n' := Sleepers(s), Sleepers(Step(s, Attempt(w, wake)));
            if TryTake(s.queue).Take? then n' == (if n > 0 then n - 1 else 0)
            else n' == (if s.queue.shutdown then n else n + 1)
  {
    var ws := s.workers;
    match TryTake(s.queue)
    case Take(item, _) =>
      SignalOnly(ws, wake, AsleepUnit);
      SumUpdate(Wake(ws, wake), w, Holding(item), AsleepUnit);
      if wake.None? {
        NobodySleeps(ws);
      }
    case Quit => SumUpdate(ws, w, Exited, AsleepUnit);
    case Sleep => SumUpdate(ws, w, Asleep, AsleepUnit);
  }

  /**
   Who sleeps: every signal wakes one sleeper if there is one, a spurious wakeup one, the broadcast
   all; a worker that finds the queue empty and open goes to sleep; no other step changes the number.
   */
  lemma SleepersExact(s: State, a: Action)
    requires Enabled(s, a)
    ensures var n, n' := Sleepers(s), Sleepers(Step(s, a));
            n' == if Signals(s, a) then (if n > 0 then n - 1 else 0)
                  else if a.Spurious? then n - 1
                  else if a.NotifyAll? then 0
                  else if a.Attempt? && !s.queue.shutdown then n + 1
                  else n
  {
    var ws := s.workers;
    match a
    case Attempt(w, wake) => AttemptSleepers(s, w, wake);
    case Spurious(w) => SumUpdate(ws, w, Notified, AsleepUnit);
    case Count(w) => SumUpdate(ws, w, Running(ws[w].task), AsleepUnit);
    case Finish(w, _) => SumUpdate(ws, w, Leaving, AsleepUnit);
    case Uncount(w) => SumUpdate(ws, w, Entering, AsleepUnit);
    case Push(_, wake) =>
      if Signals(s, a) {
        SignalOnly(ws, wake, AsleepUnit);
        if wake.None? {
          NobodySleeps(ws);
        }
      }
    case NotifyAll => NobodySleeps(Step(s, a).workers);
    case _ =>
  }

  /** Once the broadcast of `shutdown` has run, no worker is asleep in any later state. */
  lemma {:induction false} NoSleepAfterBroadcast(s: State, acts: seq<Action>, t: State)
    requires Reachable(s) && s.closer.Waking? && Leads(Step(s, NotifyAll), acts, t)
    ensures NoneAsleep(t.workers)
  {
    ReachableInv(s);
    StepKeepsInv(s, NotifyAll);
    RunKeepsInv(Step(s, NotifyAll), acts, t);
    PastBroadcast(Step(s, NotifyAll), acts, t);
  }

  lemma {:induction false} PastBroadcast(s: State, acts: seq<Action>, t: State)
    requires (s.closer.Joining? || s.closer.Closed?) && Leads(s, acts, t)
    ensures t.closer.Joining? || t.closer.Closed?
    decreases |acts|
  {
    if acts != [] {
      PastBroadcast(Step(s, acts[0]), acts[1..], t);
    }
  }

  // ---- Draining ----

  /** No further push is possible, and nobody has gone home leaving a task behind. */
  ghost predicate Quiet(s: State) {
    && s.stopped
    && NoSubmitInFlight(s)
    && (NoneExited(s.workers) || s.queue.items == [])
  }

  /** `acts` is a run that starts by setting `stopped_` in `s` and ends in `t` with `shutdown` returning. */
  ghost predicate ClosesAt(s: State, acts: seq<Action>, t: State)
    requires s.closer.Serving?
  {
    Leads(Step(s, Stop), acts, t) && t.closer.Closed?
  }

  ghost predicate AllRanOnce(s: State) {
    multiset(s.ran) == multiset(s.accepted)
  }

  lemma StepKeepsQuiet(s: State, a: Action)
    requires Quiet(s) && Enabled(s, a)
    ensures Quiet(Step(s, a)) && Step(s, a).accepted == s.accepted
  {
  }

  lemma {:induction false} RunKeepsQuiet(s: State, acts: seq<Action>, t: State)
    requires Quiet(s) && Leads(s, acts, t)
    ensures Quiet(t) && t.accepted == s.accepted
    decreases |acts|
  {
    if acts != [] {
      StepKeepsQuiet(s, acts[0]);
      RunKeepsQuiet(Step(s, acts[0]), acts[1..], t);
    }
  }

  /** When nobody holds a task, what was popped is exactly what ran. */
  lemma NothingHeld(s: State)
    requires Inv(s) && AllExited(s.workers)
    ensures multiset(s.ran) == multiset(s.popped)
  {
    forall t ensures multiset(s.ran)[t] == multiset(s.popped)[t] {
      assert Balanced(s, t);
      SumBound(s.workers, Holds(t), 0);
    }
  }

  lemma ClosedDrained(s: State)
    requires Inv(s) && s.closer.Closed? && s.queue.items == []
    ensures AllRanOnce(s)
  {
    NothingHeld(s);
    assert s.accepted == s.popped;
  }

  /**
   Exactly-once drain: from any reachable state with no submit in flight, in every run that
   starts by setting `stopped_`, when `shutdown` returns every accepted task has run once,
   nothing was accepted meanwhile, all workers are gone and the queue is empty.
   */
  lemma DrainExactlyOnce(s: State, acts: seq<Action>, t: State)
    requires Reachable(s) && s.closer.Serving? && NoSubmitInFlight(s)
    requires ClosesAt(s, acts, t)
    ensures AllRanOnce(t) && t.accepted == s.accepted
    ensures AllExited(t.workers) && t.queue.items == []
  {
    ReachableInv(s);
    var s' := Step(s, Stop);
    StepKeepsInv(s, Stop);
    RunKeepsInv(s', acts, t);
    RunKeepsQuiet(s', acts, t);
    assert t.workers[0].Exited?;
    ClosedDrained(t);
  }

  lemma {:induction false} SizesStay(s: State, acts: seq<Action>, t: State)
    requires Leads(s, acts, t)
    ensures |t.workers| == |s.workers| && |t.producers| == |s.producers| && t.queue.capacity == s.queue.capacity
    decreases |acts|
  {
    if acts != [] {
      SizesStay(Step(s, acts[0]), acts[1..], t);
    }
  }

  /** In every reachable state there are as many workers as were asked for, two if none was, and the queue keeps its size. */
  lemma PoolKeepsItsSize(capacity: nat, threads: nat, producers: nat, acts: seq<Action>, s: State)
    requires Leads(Init(capacity, threads, producers), acts, s)
    ensures threads > 0 ==> |s.workers| == threads
    ensures threads == 0 ==> |s.workers| == 2
    ensures |s.producers| == producers && s.queue.capacity == capacity
  {
    SizesStay(Init(capacity, threads, producers), acts, s);
  }

  // ---- Termination ----

  ghost function Weight(w: Worker): nat {
    match w
    case Exited => 0
    case Entering => 1
    case Notified => 1
    case Asleep => 2
    case Leaving => 2
    case Running(_) => 3
    case Holding(_) => 4
  }

  ghost function ClosingSteps(s: State): nat {
    match s.closer
    case Waking => |s.workers| + 2
    case Joining(k) => if k <= |s.workers| then |s.workers| + 1 - k else 0
    case _ => 0
  }

  /** The work left: queued tasks, what each worker still has to do, and the joins. */
  ghost function Remaining(s: State): nat {
    4 * |s.queue.items| + Sum(s.workers, Weight) + ClosingSteps(s)
  }

  predicate ByProducer(a: Action) {
    a.Check? || a.Push? || a.Throw?
  }

  lemma AttemptDecreases(s: State, w: nat, wake: Option<nat>)
    requires s.queue.shutdown && Enabled(s, Attempt(w, wake))
    ensures Remaining(Step(s, Attempt(w, wake))) < Remaining(s)
  {
    var ws := s.workers;
    match TryTake(s.queue)
    case Take(t, _) =>
      if wake.Some? {
        SumUpdate(ws, wake.value, Notified, Weight);
      }
      SumUpdate(Wake(ws, wake), w, Holding(t), Weight);
    case Quit => SumUpdate(ws, w, Exited, Weight);
    case Sleep =>
  }

  /**
   Once the queue's flag is set, every step of a worker and every step of `shutdown`
   strictly decreases the work left, spurious wakeups included.
   */
  lemma ShutdownDecreases(s: State, a: Action)
    requires Phases(s) && s.queue.shutdown && Enabled(s, a) && !ByProducer(a)
    ensures Remaining(Step(s, a)) < Remaining(s)
  {
    var ws := s.workers;
    match a
    case Attempt(w, wake) => AttemptDecreases(s, w, wake);
    case Spurious(w) => SumUpdate(ws, w, Notified, Weight);
    case Count(w) => SumUpdate(ws, w, Running(ws[w].task), Weight);
    case Finish(w, _) => SumUpdate(ws, w, Leaving, Weight);
    case Uncount(w) => SumUpdate(ws, w, Entering, Weight);
    case NotifyAll => AwakeLighter(ws, Step(s, a).workers);
    case _ =>
  }

  lemma {:induction false} AwakeLighter(ws: seq<Worker>, vs: seq<Worker>)
    requires |ws| == |vs| && forall i :: 0 <= i < |ws| ==> vs[i] == Awake(ws[i])
    ensures Sum(vs, Weight) <= Sum(ws, Weight)
  {
    if ws != [] {
      AwakeLighter(ws[1..], vs[1..]);
    }
  }

  /** The only stuck state after the flag is set is the one where `shutdown` has returned. */
  lemma ShutdownNeverStuck(s: State) returns (a: Action)
    requires Inv(s) && s.queue.shutdown && !s.closer.Closed?
    ensures Enabled(s, a) && !ByProducer(a) && !a.Spurious?
  {
    if s.closer.Waking? {
      a := NotifyAll;
    } else if s.closer.joined < |s.workers| && !s.workers[s.closer.joined].Exited? {
      a := OwnStepEnabled(s, s.closer.joined);
    } else {
      a := Join;
    }
  }

  /** No step of the run is a producer's. */
  ghost predicate WithoutProducers(acts: seq<Action>) {
    forall i :: 0 <= i < |acts| ==> !ByProducer(acts[i])
  }

  /** So every run after the flag, with no producer's step, is at most as long as the work left. */
  lemma {:induction false} RunBounded(s: State, acts: seq<Action>, t: State)
    requires Phases(s) && s.queue.shutdown && Leads(s, acts, t) && WithoutProducers(acts)
    ensures |acts| + Remaining(t) <= Remaining(s)
    decreases |acts|
  {
    hide Remaining;
    if acts != [] {
      ShutdownDecreases(s, acts[0]);
      StepKeepsPhases(s, acts[0]);
      RunBounded(Step(s, acts[0]), acts[1..], t);
    }
  }

  /** `shutdown` has joined every worker and is about to return. */
  ghost predicate AllJoined(s: State) {
    s.closer == Joining(|s.workers|)
  }

  /** Letting workers and `shutdown` run, without the producers, always reaches the last join. */
  lemma {:induction false} DrainToLastJoin(s: State) returns (acts: seq<Action>, t: State)
    requires Inv(s) && s.queue.shutdown && !s.closer.Closed? && (NoneExited(s.workers) || s.queue.items == [])
    ensures Leads(s, acts, t) && Inv(t) && AllJoined(t) && WithoutProducers(acts)
    ensures t.producers == s.producers && t.accepted == s.accepted
    ensures t.queue.capacity == s.queue.capacity
    ensures NoneExited(t.workers) || t.queue.items == []
    decreases Remaining(s)
  {
    hide Fifo, ExactlyOnce, NoLostWakeup, GaugeExact, Remaining;
    if AllJoined(s) {
      acts, t := [], s;
    } else {
      var a := ShutdownNeverStuck(s);
      var s' := Step(s, a);
      StepKeepsInv(s, a);
      ShutdownDecreases(s, a);
      var rest;
      rest, t := DrainToLastJoin(s');
      acts := [a] + rest;
      assert acts[1..] == rest;
    }
  }

  /** And so the end, with nothing left behind. */
  lemma DrainRun(s: State) returns (acts: seq<Action>, t: State)
    requires Inv(s) && s.queue.shutdown && (NoneExited(s.workers) || s.queue.items == [])
    ensures Leads(s, acts, t) && Inv(t) && t.closer.Closed? && WithoutProducers(acts)
    ensures t.producers == s.producers && t.accepted == s.accepted && t.queue.items == []
  {
    if s.closer.Closed? {
      acts, t := [], s;
    } else {
      var drain, last := DrainToLastJoin(s);
      acts, t := drain + [Join], Step(last, Join);
      LeadsThen(s, drain, last, Join);
      StepKeepsInv(last, Join);
    }
    assert t.workers[0].Exited?;
  }

  lemma {:induction false} LeadsThen(s: State, acts: seq<Action>, t: State, a: Action)
    requires Leads(s, acts, t) && Enabled(t, a)
    ensures Leads(s, acts + [a], Step(t, a))
    decreases |acts|
  {
    if acts != [] {
      assert (acts + [a])[1..] == acts[1..] + [a];
      LeadsThen(Step(s, acts[0]), acts[1..], t, a);
    }
  }

  /** The run ends with the join after which `shutdown` returns. */
  ghost predicate ReturnsAt(s: State, acts: seq<Action>, t: State)
    requires s.closer.Serving?
  {
    acts != [] && acts[|acts| - 1] == Join && ClosesAt(s, acts, t)
  }

  /** A submit caught past its test of `stopped_` can have its task accepted and not run when `shutdown` returns. */
  lemma OverlapLosesTask(s: State, p: nat) returns (acts: seq<Action>, t: State)
    requires Reachable(s) && s.closer.Serving? && s.queue.capacity > 0
    requires p < |s.producers| && s.producers[p].Pushing?
    ensures ReturnsAt(s, acts, t) && !AllRanOnce(t)
  {
    hide Fifo, ExactlyOnce, NoLostWakeup, GaugeExact, AllRanOnce;
    ReachableInv(s);
    var s1 := Step(s, Stop);
    StepKeepsInv(s, Stop);
    var s2 := Step(s1, Flag);
    StepKeepsInv(s1, Flag);
    var drain, s3 := DrainToLastJoin(s2);
    assert s3.workers[0].Exited?;
    LateTaskStays(s3, p);
    var push := Push(p, None);
    var s4 := Step(s3, push);
    t := Step(s4, Join);
    LeadsThen(s2, drain, s3, push);
    LeadsThen(s2, drain + [push], s4, Join);
    acts := [Flag] + (drain + [push] + [Join]);
    assert acts[1..] == drain + [push] + [Join];
  }

  /** A task pushed after the last worker has gone stays in the queue. */
  lemma LateTaskStays(s: State, p: nat)
    requires Inv(s) && AllJoined(s) && s.queue.items == [] && s.queue.capacity > 0
    requires p < |s.producers| && s.producers[p].Pushing?
    ensures Enabled(s, Push(p, None))
    ensures var s' := Step(s, Push(p, None)); Enabled(s', Join) && !AllRanOnce(Step(s', Join))
  {
    NothingHeld(s);
    assert s.accepted == s.popped;
    var task := s.producers[p].task;
    var t := Step(Step(s, Push(p, None)), Join);
    assert multiset(t.accepted)[task] == multiset(s.accepted)[task] + 1;
  }

  /** With capacity zero nothing is ever accepted, so nothing can be lost. */
  lemma NothingAccepted(t: State)
    requires Inv(t) && t.queue.capacity == 0
    ensures AllRanOnce(t)
  {
    assert t.popped == [];
    forall x ensures multiset(t.ran)[x] == 0 {
      assert Balanced(t, x);
    }
    assert multiset(t.ran) == multiset{};
  }

  /**
   The exact condition.  `shutdown` has run every accepted task when it returns, in every
   interleaving, if and only if no submit is in flight when it sets `stopped_` (or the queue has
   no room at all); and the same holds of every later state.
   */
  lemma DrainExactCondition(s: State)
    requires Reachable(s) && s.closer.Serving?
    ensures (forall acts, t :: ReturnsAt(s, acts, t) ==> AllRanOnce(t))
            <==> (NoSubmitInFlight(s) || s.queue.capacity == 0)
    ensures (forall acts, t :: ClosesAt(s, acts, t) ==> AllRanOnce(t))
            <==> (NoSubmitInFlight(s) || s.queue.capacity == 0)
  {
    if NoSubmitInFlight(s) {
      forall acts, t | ClosesAt(s, acts, t) ensures AllRanOnce(t) {
        DrainExactlyOnce(s, acts, t);
      }
    } else if s.queue.capacity == 0 {
      ReachableInv(s);
      StepKeepsInv(s, Stop);
      forall acts, t | ClosesAt(s, acts, t) ensures AllRanOnce(t) {
        RunKeepsInv(Step(s, Stop), acts, t);
        SizesStay(Step(s, Stop), acts, t);
        NothingAccepted(t);
      }
    } else {
      var p: nat :| p < |s.producers| && s.producers[p].Pushing?;
      var acts, t := OverlapLosesTask(s, p);
      assert ClosesAt(s, acts, t);
    }
  }

  // ---- The workers work in parallel ----

  /** The first `k` workers are inside a task, the others have not started, and nothing waits. */
  ghost predicate Busy(s: State, k: nat) {
    && k <= |s.workers| && s.queue.items == [] && !s.queue.shutdown && !s.stopped && s.queue.capacity > 0
    && s.producers != [] && s.producers[0].Idle?
    && (forall i :: 0 <= i < k ==> s.workers[i].Running?)
    && (forall i :: k <= i < |s.workers| ==> s.workers[i].Entering?)
  }

  /** One more task is submitted, taken and started. */
  lemma OneMoreBusy(s: State, k: nat) returns (acts: seq<Action>, t: State)
    requires Busy(s, k) && k < |s.workers|
    ensures Leads(s, acts, t) && Busy(t, k + 1)
  {
    var s1 := Step(s, Check(0, k));
    var s2 := Step(s1, Push(0, None));
    var s3 := Step(s2, Attempt(k, None));
    t := Step(s3, Count(k));
    acts := [Check(0, k), Push(0, None), Attempt(k, None), Count(k)];
    assert acts[1..] == [Push(0, None), Attempt(k, None), Count(k)];
    assert acts[1..][1..] == [Attempt(k, None), Count(k)];
    assert acts[1..][1..][1..] == [Count(k)];
    assert Leads(s3, [Count(k)], t);
    assert Leads(s2, acts[1..][1..], t);
    assert Leads(s1, acts[1..], t);
  }

  lemma {:induction false} LeadsJoin(s: State, first: seq<Action>, t: State, second: seq<Action>, u: State)
    requires Leads(s, first, t) && Leads(t, second, u)
    ensures Leads(s, first + second, u)
    decreases |first|
  {
    hide Step, Enabled;
    if first == [] {
      assert first + second == second;
    } else {
      assert (first + second)[1..] == first[1..] + second;
      LeadsJoin(Step(s, first[0]), first[1..], t, second, u);
    }
  }

  lemma {:induction false} BusyFrom(s: State, k: nat) returns (acts: seq<Action>, t: State)
    requires Busy(s, k)
    ensures Leads(s, acts, t) && Busy(t, |t.workers|)
    decreases |s.workers| - k
  {
    hide Step, Enabled;
    if k == |s.workers| {
      acts, t := [], s;
    } else {
      var first, s' := OneMoreBusy(s, k);
      SizesStay(s, first, s');
      var rest;
      rest, t := BusyFrom(s', k + 1);
      acts := first + rest;
      LeadsJoin(s, first, s', rest, t);
    }
  }

  /** Some run has every worker inside a task at once: as many as were asked for, two if none was. */
  lemma AllWorkersBusy(capacity: nat, threads: nat, producers: nat) returns (acts: seq<Action>, s: State)
    requires capacity > 0 && producers > 0
    ensures Leads(Init(capacity, threads, producers), acts, s)
    ensures |s.workers| == (if threads == 0 then 2 else threads) == s.active
    ensures forall i :: 0 <= i < |s.workers| ==> s.workers[i].Running?
  {
    var start := Init(capacity, threads, producers);
    acts, s := BusyFrom(start, 0);
    PoolKeepsItsSize(capacity, threads, producers, acts, s);
    InitInv(capacity, threads, producers);
    RunKeepsInv(start, acts, s);
    AllActive(s.workers);
  }

  lemma {:induction false} AllActive(ws: seq<Worker>)
    requires forall i :: 0 <= i < |ws| ==> ws[i].Running?
    ensures Sum(ws, ActiveUnit) == |ws|
  {
    if ws != [] {
      AllActive(ws[1..]);
    }
  }
}
