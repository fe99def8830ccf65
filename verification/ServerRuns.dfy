/** What holds in every state of every run of the server, and when its shutdown has returned. */
module ServerRuns {
  import opened Sums
  import Pool = ThreadPool
  import PoolShutdown
  import opened Server

  /** A worker that holds an uncounted task is not inside a handler, so each counts for one connection. */
  lemma {:induction false} OnePerWorker(ws: seq<Pool.Worker>, hs: seq<Phase>)
    requires |ws| == |hs|
    requires forall i :: 0 <= i < |hs| ==> (hs[i].Off? <==> !ws[i].Running?)
    ensures Sum(ws, HoldingUnit) + Sum(hs, Counted) <= |ws|
  {
    if ws != [] {
      assert hs[0].Off? <==> !ws[0].Running?;
      OnePerWorker(ws[1..], hs[1..]);
    }
  }

  /**
   In every reachable state `active_connections_` is exactly the number of connections being
   submitted, rejected, queued, handled or leaked; it is never negative and is bounded by the
   queue, the workers, the one connection in the accept loop and the leaks.
   */
  lemma ActiveConnectionsBounded(s: State)
    requires Reachable(s)
    ensures s.active == MainCounts(s.main) + |s.pool.queue.items| + Sum(s.pool.workers, HoldingUnit)
                        + Sum(s.handlers, Counted) + |s.leaked|
    ensures 0 <= s.active <= s.pool.queue.capacity + |s.pool.workers| + 1 + |s.leaked|
  {
    ReachableInv(s);
    OnePerWorker(s.pool.workers, s.handlers);
  }

  /** In every reachable state no socket has been closed twice, and none was closed that was not accepted. */
  lemma ClosedAtMostOnce(s: State, c: Conn)
    requires Reachable(s)
    ensures multiset(s.closed)[c] + multiset(s.leaked)[c] <= 1
    ensures c in s.closed ==> c < s.next
  {
    ReachableInv(s);
    assert Placed(s, c);
  }

  // ---- Outcome accounting ----

  /** Requests and refusals are the recorded outcomes, the empty arrivals and what is still unclassified. */
  ghost predicate InBalance(s: State) {
    var k := s.counters;
    k.total + k.rejected == k.success + k.client + k.server + k.empty + Sum(s.handlers, Unclassified)
  }

  /** In every reachable state requests and refusals balance, late failures and lost requests included. */
  lemma OutcomesBalance(s: State)
    requires Reachable(s)
    ensures var k := s.counters;
            k.total + k.rejected + k.late
            == k.success + k.client + k.server + k.empty + k.lost + Sum(s.handlers, Unclassified)
    ensures InBalance(s) <==> s.counters.late == s.counters.lost
  {
    ReachableInv(s);
  }

  /** How many steps of a run are events of one kind. */
  ghost function Count(acts: seq<Action>, event: Action -> bool): nat
    decreases |acts|
  {
    if acts == [] then 0 else (if event(acts[0]) then 1 else 0) + Count(acts[1..], event)
  }

  ghost predicate EntersHandler(a: Action) {
    a.Handle? && a.h.Record?
  }

  ghost predicate Succeeds(a: Action) {
    a.Handle? && a.h == Classify(Success)
  }

  ghost predicate BlamesClient(a: Action) {
    a.Handle? && a.h == Classify(ClientError)
  }

  /** A response of 500 or above, a failed handler, or a refused connection. */
  ghost predicate BlamesServer(a: Action) {
    (a.Handle? && (a.h == Classify(ServerError) || a.h.RecordFailure?)) || (a.OnMain? && a.m.RecordReject?)
  }

  ghost predicate RefusesConnection(a: Action) {
    a.OnMain? && a.m.RecordReject?
  }

  ghost predicate ArrivesEmpty(a: Action) {
    a.Handle? && a.h.Empty?
  }

  /** A failure is recorded for a request whose outcome was recorded already. */
  ghost predicate FailsLate(s: State, a: Action) {
    && a.Handle? && a.h.RecordFailure? && a.w < |s.handlers|
    && s.handlers[a.w].Failing? && s.handlers[a.w].late
  }

  /** A foreign exception leaves a handler that has recorded no outcome. */
  ghost predicate EscapesUnrecorded(s: State, a: Action) {
    a.Handle? && a.h.Escape? && a.w < |s.handlers| && Unclassified(s.handlers[a.w]) == 1
  }

  /** How many steps of a run are events of one kind, when that depends on the state they are taken in. */
  ghost function CountAt(s: State, acts: seq<Action>, event: (State, Action) -> bool): nat
    decreases |acts|
  {
    if acts == [] || !Enabled(s, acts[0]) then 0
    else (if event(s, acts[0]) then 1 else 0) + CountAt(Step(s, acts[0]), acts[1..], event)
  }

  /** Each counter is the number of its own events in the run, the two history counters included. */
  lemma {:induction false} CountersCountEvents(s: State, acts: seq<Action>, t: State)
    requires Leads(s, acts, t)
    ensures t.counters.total == s.counters.total + Count(acts, EntersHandler)
    ensures t.counters.success == s.counters.success + Count(acts, Succeeds)
    ensures t.counters.client == s.counters.client + Count(acts, BlamesClient)
    ensures t.counters.server == s.counters.server + Count(acts, BlamesServer)
    ensures t.counters.rejected == s.counters.rejected + Count(acts, RefusesConnection)
    ensures t.counters.empty == s.counters.empty + Count(acts, ArrivesEmpty)
    ensures t.counters.late == s.counters.late + CountAt(s, acts, FailsLate)
    ensures t.counters.lost == s.counters.lost + CountAt(s, acts, EscapesUnrecorded)
    decreases |acts|
  {
    hide Step, Enabled, EntersHandler, Succeeds, BlamesClient, BlamesServer, RefusesConnection, ArrivesEmpty,
         FailsLate, EscapesUnrecorded;
    if acts != [] {
      var a := acts[0];
      OneStepCounts(s, a);
      CountersCountEvents(Step(s, a), acts[1..], t);
    }
  }

  ghost function One(b: bool): nat {
    if b then 1 else 0
  }

  lemma OneStepCounts(s: State, a: Action)
    requires Enabled(s, a)
    ensures var k, k' := s.counters, Step(s, a).counters;
            && k'.total == k.total + One(EntersHandler(a))
            && k'.success == k.success + One(Succeeds(a))
            && k'.client == k.client + One(BlamesClient(a))
            && k'.server == k.server + One(BlamesServer(a))
            && k'.rejected == k.rejected + One(RefusesConnection(a))
            && k'.empty == k.empty + One(ArrivesEmpty(a))
            && k'.late == k.late + One(FailsLate(s, a))
            && k'.lost == k.lost + One(EscapesUnrecorded(s, a))
  {
    hide Pool.Step, Pool.Enabled, NextPhase, Tally;
    if a.Handle? {
      TallyCounts(s.counters, s.handlers[a.w], a.h);
    }
  }

  lemma TallyCounts(k: Counters, p: Phase, h: HandlerStep)
    ensures var k' := Tally(k, p, h);
            && k'.total == k.total + One(h.Record?)
            && k'.success == k.success + One(h == Classify(Success))
            && k'.client == k.client + One(h == Classify(ClientError))
            && k'.server == k.server + One(h == Classify(ServerError) || h.RecordFailure?)
            && k'.rejected == k.rejected
            && k'.empty == k.empty + One(h.Empty?)
            && k'.late == k.late + One(h.RecordFailure? && p.Failing? && p.late)
            && k'.lost == k.lost + One(h.Escape? && Unclassified(p) == 1)
  {
  }

  /** The balance holds in every state of the run. */
  ghost predicate AlwaysInBalance(s: State, acts: seq<Action>)
    decreases |acts|
  {
    && InBalance(s)
    && (acts == [] || (Enabled(s, acts[0]) && AlwaysInBalance(Step(s, acts[0]), acts[1..])))
  }

  /** No step of the run records a second outcome or loses a request. */
  ghost predicate NeverUnbalances(s: State, acts: seq<Action>)
    decreases |acts|
  {
    || acts == []
    || (&& Enabled(s, acts[0])
        && !FailsLate(s, acts[0]) && !EscapesUnrecorded(s, acts[0])
        && NeverUnbalances(Step(s, acts[0]), acts[1..]))
  }

  /**
   The exact condition: from a state in balance, the balance holds throughout a run if and only if
   no step fails after its outcome was recorded or escapes before, and at its end if and only if
   there are as many steps of the one kind as of the other.
   */
  lemma {:induction false} BalanceExactCondition(s: State, acts: seq<Action>, t: State)
    requires Inv(s) && InBalance(s) && Leads(s, acts, t)
    ensures AlwaysInBalance(s, acts) <==> NeverUnbalances(s, acts)
    ensures InBalance(t) <==> CountAt(s, acts, FailsLate) == CountAt(s, acts, EscapesUnrecorded)
  {
    BalancedWhileHarmless(s, acts, t);
    CountersCountEvents(s, acts, t);
    RunKeepsInv(s, acts, t);
  }

  lemma {:induction false} BalancedWhileHarmless(s: State, acts: seq<Action>, t: State)
    requires Inv(s) && InBalance(s) && Leads(s, acts, t)
    ensures AlwaysInBalance(s, acts) <==> NeverUnbalances(s, acts)
    decreases |acts|
  {
    hide Step, Enabled, FailsLate, EscapesUnrecorded;
    if acts != [] {
      var a := acts[0];
      OneStepCounts(s, a);
      StepKeepsInv(s, a);
      OneKind(s, a);
      if InBalance(Step(s, a)) {
        BalancedWhileHarmless(Step(s, a), acts[1..], t);
      }
    }
  }

  /** No step both records a late failure and escapes. */
  lemma OneKind(s: State, a: Action)
    ensures !(FailsLate(s, a) && EscapesUnrecorded(s, a))
  {
  }

  /** The step lets no exception out of a handler and raises none after the outcome was recorded. */
  ghost predicate Tame(s: State, a: Action)
    requires Enabled(s, a)
  {
    a.Handle? ==> !a.h.Escape? && (a.h.Raise? ==> s.handlers[a.w].Receiving?)
  }

  ghost predicate TameRun(s: State, acts: seq<Action>)
    decreases |acts|
  {
    acts == [] || (Enabled(s, acts[0]) && Tame(s, acts[0]) && TameRun(Step(s, acts[0]), acts[1..]))
  }

  ghost predicate NoneLate(s: State) {
    forall w :: 0 <= w < |s.handlers| ==> !(s.handlers[w].Failing? && s.handlers[w].late)
  }

  lemma {:induction false} TameNeverUnbalances(s: State, acts: seq<Action>)
    requires NoneLate(s) && TameRun(s, acts)
    ensures NeverUnbalances(s, acts)
    decreases |acts|
  {
    hide Pool.Step, Pool.Enabled;
    if acts != [] {
      TameNeverUnbalances(Step(s, acts[0]), acts[1..]);
    }
  }

  /** So the balance holds throughout every run whose exceptions are caught and come before the outcome is recorded. */
  lemma TameRunsAddUp(capacity: nat, threads: nat, acts: seq<Action>, s: State)
    requires Leads(Init(capacity, threads), acts, s) && TameRun(Init(capacity, threads), acts)
    ensures AlwaysInBalance(Init(capacity, threads), acts) && InBalance(s)
  {
    var start := Init(capacity, threads);
    InitInv(capacity, threads);
    TameNeverUnbalances(start, acts);
    BalanceExactCondition(start, acts, s);
    BalanceAtEnd(start, acts, s);
  }

  lemma {:induction false} BalanceAtEnd(s: State, acts: seq<Action>, t: State)
    requires Leads(s, acts, t) && AlwaysInBalance(s, acts)
    ensures InBalance(t)
    decreases |acts|
  {
    hide Step, Enabled;
    if acts != [] {
      BalanceAtEnd(Step(s, acts[0]), acts[1..], t);
    }
  }

  lemma StepKeepsSizes(s: State, a: Action)
    requires Enabled(s, a)
    ensures |Step(s, a).pool.workers| == |s.pool.workers| && Step(s, a).pool.queue.capacity == s.pool.queue.capacity
  {
    StepRefinesPool(s, a);
  }

  lemma {:induction false} SizesStay(s: State, acts: seq<Action>, t: State)
    requires Leads(s, acts, t)
    ensures |t.pool.workers| == |s.pool.workers| && t.pool.queue.capacity == s.pool.queue.capacity
    decreases |acts|
  {
    hide Step, Enabled;
    if acts != [] {
      StepKeepsSizes(s, acts[0]);
      SizesStay(Step(s, acts[0]), acts[1..], t);
    }
  }

  /** In every reachable state the server has the workers and the queue it was configured with, two workers for none. */
  lemma ServerKeepsItsSize(capacity: nat, threads: nat, acts: seq<Action>, s: State)
    requires Leads(Init(capacity, threads), acts, s)
    ensures threads > 0 ==> |s.pool.workers| == |s.handlers| == s.threads == threads
    ensures threads == 0 ==> |s.pool.workers| == |s.handlers| == s.threads == 2
    ensures s.pool.queue.capacity == capacity
  {
    InitInv(capacity, threads);
    RunKeepsInv(Init(capacity, threads), acts, s);
    SizesStay(Init(capacity, threads), acts, s);
  }

  // ---- The accept loop ends only when asked to ----

  ghost predicate RequestsStop(a: Action) {
    a.RequestStop?
  }

  lemma {:induction false} StopsWhenAsked(s: State, acts: seq<Action>, t: State)
    requires Leads(s, acts, t) && (s.main.Draining? ==> !s.running)
    ensures t.main.Draining? ==> !t.running
    ensures t.running <==> s.running && Count(acts, RequestsStop) == 0
    decreases |acts|
  {
    hide Pool.Step, Pool.Enabled, NextPhase, Tally;
    if acts != [] {
      StopsWhenAsked(Step(s, acts[0]), acts[1..], t);
    }
  }

  /** In every run the accept loop is left, and the pool shut down, only after a stop request. */
  lemma NeverStopsUnasked(capacity: nat, threads: nat, acts: seq<Action>, s: State)
    requires Leads(Init(capacity, threads), acts, s)
    ensures s.main.Draining? || !s.pool.closer.Serving? ==> Count(acts, RequestsStop) > 0
    ensures s.running <==> Count(acts, RequestsStop) == 0
  {
    StopsWhenAsked(Init(capacity, threads), acts, s);
    InitInv(capacity, threads);
    RunKeepsInv(Init(capacity, threads), acts, s);
  }

  /**
   A failed accept while the server runs changes nothing: the next test of `running_` leads back to the
   very state in which accept was called, and once a stop was requested it leaves the loop.
   */
  lemma FailedAcceptHarmless(s: State)
    requires s.main.Waiting?
    ensures Enabled(s, OnMain(AcceptFailed))
    ensures var t := Step(s, OnMain(AcceptFailed));
            if s.running then Enabled(t, OnMain(Test)) && Step(t, OnMain(Test)) == s && Enabled(s, OnMain(Accept))
            else t == s.(main := Draining)
  {
  }

  // ---- The stored gauge ----

  /** The pool's gauge has the value `v` in some state of the run. */
  ghost predicate HadActive(s: State, acts: seq<Action>, v: int)
    decreases |acts|
  {
    s.pool.active == v || (acts != [] && Enabled(s, acts[0]) && HadActive(Step(s, acts[0]), acts[1..], v))
  }

  /** The gauge is stored by the main thread only, from what it read before. */
  lemma OnlyStoreStores(s: State, a: Action)
    requires Enabled(s, a)
    ensures var t := Step(s, a);
            && (t.gauge == s.gauge || (s.main.Storing? && t.gauge == s.main.sample))
            && (t.main.Storing? ==> t.main.sample == s.pool.active || (s.main.Storing? && t.main.sample == s.main.sample))
  {
    hide Pool.Step, Pool.Enabled, NextPhase, Tally;
  }

  lemma {:induction false} SamplesAreReal(s: State, acts: seq<Action>, t: State)
    requires Leads(s, acts, t)
    ensures t.gauge == s.gauge || HadActive(s, acts, t.gauge) || (s.main.Storing? && t.gauge == s.main.sample)
    ensures t.main.Storing? ==> HadActive(s, acts, t.main.sample) || (s.main.Storing? && t.main.sample == s.main.sample)
    decreases |acts|
  {
    hide Step, Enabled;
    if acts != [] {
      OnlyStoreStores(s, acts[0]);
      SamplesAreReal(Step(s, acts[0]), acts[1..], t);
    }
  }

  /** In every run the stored gauge is a value that the pool's own gauge had. */
  lemma GaugeWasReal(capacity: nat, threads: nat, acts: seq<Action>, s: State)
    requires Leads(Init(capacity, threads), acts, s)
    ensures HadActive(Init(capacity, threads), acts, s.gauge)
  {
    SamplesAreReal(Init(capacity, threads), acts, s);
  }

  ghost predicate MainPauses(acts: seq<Action>) {
    forall i :: 0 <= i < |acts| ==> !acts[i].OnMain?
  }

  /** It is the value read for the connection at hand, whatever the other threads did between reading and storing. */
  lemma {:induction false} SampleIsStored(s: State, acts: seq<Action>, t: State)
    requires s.main.Sampling? && MainPauses(acts) && Leads(Step(s, OnMain(Sample)), acts, t)
    ensures t.main.Storing? && Step(t, OnMain(Store)).gauge == s.pool.active
  {
    MainStays(Step(s, OnMain(Sample)), acts, t);
  }

  lemma {:induction false} MainStays(s: State, acts: seq<Action>, t: State)
    requires MainPauses(acts) && Leads(s, acts, t)
    ensures t.main == s.main
    decreases |acts|
  {
    hide Pool.Step, Pool.Enabled, NextPhase, Tally;
    if acts != [] {
      MainStays(Step(s, acts[0]), acts[1..], t);
    }
  }

  /** The idle workers that a metrics report shows. */
  function ReportedIdle(threads: int, active: int): int {
    if threads > active then threads - active else 0
  }

  /** Every report has active + idle = worker threads, however stale the stored gauge is. */
  lemma ReportAddsUp(s: State)
    requires Reachable(s)
    ensures s.gauge + ReportedIdle(s.threads, s.gauge) == s.threads == |s.pool.workers|
  {
    ReachableInv(s);
  }

  /** The accept loop is never turned away by `stopped_`: a refusal means the queue was full, and leaves it alone. */
  lemma RefusedOnlyWhenFull(s: State)
    requires Reachable(s)
    ensures s.main.Submitting? && Enabled(s, OnMain(Check)) ==> Step(s, OnMain(Check)).main == InSubmit(s.main.conn)
    ensures forall wake :: Enabled(s, OnMain(Push(wake))) ==>
              var s' := Step(s, OnMain(Push(wake)));
              if |s.pool.queue.items| == s.pool.queue.capacity
              then s'.main == Rejecting(s.main.conn) && s'.pool.queue == s.pool.queue && s'.pool.accepted == s.pool.accepted
              else s'.main == LoopHead && s'.pool.queue.items == s.pool.queue.items + [s.main.conn]
  {
    ReachableInv(s);
  }

  /** No submit is in flight when the main thread starts to shut the pool down. */
  lemma NoSubmitAtShutdown(s: State)
    requires Reachable(s) && s.main.Draining?
    ensures Pool.NoSubmitInFlight(s.pool)
  {
    ReachableInv(s);
  }

  /** Nothing is left in any worker once all have exited. */
  lemma NobodyHolds(s: State, c: Conn)
    requires Inv(s) && Pool.AllExited(s.pool.workers)
    ensures Sum(s.pool.workers, HoldingUnit) == 0 && Sum(s.pool.workers, HoldsConn(c)) == 0
    ensures Sum(s.handlers, Counted) == 0 && Sum(s.handlers, Owns(c)) == 0 && Sum(s.handlers, Unclassified) == 0
  {
    forall w | 0 <= w < |s.handlers| ensures s.handlers[w].Off? {
      assert s.pool.workers[w].Exited?;
    }
    SumBound(s.pool.workers, HoldingUnit, 0);
    SumBound(s.pool.workers, HoldsConn(c), 0);
    SumBound(s.handlers, Counted, 0);
    SumBound(s.handlers, Owns(c), 0);
    SumBound(s.handlers, Unclassified, 0);
  }

  /** When the pool's shutdown has returned, the queue is empty and every worker has exited. */
  lemma ShutdownDrains(s: State)
    requires Reachable(s) && s.pool.closer.Closed?
    ensures s.main.Draining? && Pool.AllExited(s.pool.workers) && s.pool.queue.items == []
    ensures PoolShutdown.AllRanOnce(s.pool)
  {
    ReachableInv(s);
    assert s.pool.workers[0].Exited?;
    PoolShutdown.ClosedDrained(s.pool);
  }

  /**
   When the pool's shutdown has returned, every accepted socket has been closed exactly once or was
   leaked by an escaping handler, and the connection gauge is the number of leaks.
   */
  lemma EverySocketClosed(s: State)
    requires Reachable(s) && s.pool.closer.Closed?
    ensures forall c: Conn :: c < s.next ==> multiset(s.closed)[c] + multiset(s.leaked)[c] == 1
    ensures s.active == |s.leaked|
    ensures s.leaked == [] <==> AllClosedOnce(s)
  {
    ReachableInv(s);
    ShutdownDrains(s);
    forall c: Conn ensures (if c < s.next then 1 else 0) == multiset(s.closed)[c] + multiset(s.leaked)[c] {
      assert Placed(s, c);
      NobodyHolds(s, c);
    }
    NobodyHolds(s, 0);
    if s.leaked != [] {
      var c := s.leaked[0];
      assert c in multiset(s.leaked);
    }
  }

  ghost predicate AllClosedOnce(s: State) {
    forall c: Conn :: c < s.next ==> multiset(s.closed)[c] == 1
  }

  lemma {:induction false} LeaksStay(s: State, acts: seq<Action>, t: State, c: Conn)
    requires Leads(s, acts, t) && c in s.leaked
    ensures c in t.leaked
    decreases |acts|
  {
    hide Pool.Step, Pool.Enabled, NextPhase, Tally;
    if acts != [] {
      LeaksStay(Step(s, acts[0]), acts[1..], t, c);
    }
  }

  /** A foreign exception leaves a handler. */
  ghost predicate Escapes(a: Action) {
    a.Handle? && a.h.Escape?
  }

  lemma {:induction false} EscapesLeak(s: State, acts: seq<Action>, t: State)
    requires Leads(s, acts, t)
    ensures |t.leaked| == |s.leaked| + Count(acts, Escapes)
    decreases |acts|
  {
    hide Pool.Step, Pool.Enabled, NextPhase, Tally;
    if acts != [] {
      EscapesLeak(Step(s, acts[0]), acts[1..], t);
    }
  }

  /**
   The exact condition on the run.  Open connections never exceed the queue, the workers and one
   more, plus the exceptions that left a handler; after shutdown the gauge is the number of those,
   and every accepted socket was closed exactly once if and only if there was none.
   */
  lemma ClosedExactCondition(capacity: nat, threads: nat, acts: seq<Action>, s: State)
    requires Leads(Init(capacity, threads), acts, s)
    ensures 0 <= s.active <= capacity + Pool.PoolSize(threads) + 1 + Count(acts, Escapes)
    ensures s.pool.closer.Closed? ==>
              s.active == Count(acts, Escapes) && (AllClosedOnce(s) <==> Count(acts, Escapes) == 0)
  {
    var start := Init(capacity, threads);
    EscapesLeak(start, acts, s);
    SizesStay(start, acts, s);
    ActiveConnectionsBounded(s);
    if s.pool.closer.Closed? {
      EverySocketClosed(s);
    }
  }

  /** And the outcome counters add up, with nothing still under way. */
  lemma OutcomesFinal(s: State)
    requires Reachable(s) && s.pool.closer.Closed?
    ensures var k := s.counters;
            k.total + k.rejected + k.late == k.success + k.client + k.server + k.empty + k.lost
  {
    ReachableInv(s);
    ShutdownDrains(s);
    NobodyHolds(s, 0);
  }

  // ---- The server's shutdown terminates ----

  /** How many steps a handler has left at most. */
  ghost function StepsLeft(p: Phase): nat {
    match p
    case Begun(_) => 6
    case Receiving(_) => 5
    case Classified(_) => 4
    case Failing(_, _) => 3
    case Closing(_) => 2
    case Uncounting(_) => 1
    case _ => 0
  }

  /** The work left: a step of the pool starts at most one handler, which takes at most six steps. */
  ghost function Left(s: State): nat {
    7 * PoolShutdown.Remaining(s.pool) + Sum(s.handlers, StepsLeft)
  }

  lemma WorkShrinks(s: State, p: Pool.Action)
    requires Inv(s) && s.pool.queue.shutdown && WorkEnabled(s, p)
    ensures Left(WorkStep(s, p)) < Left(s)
  {
    hide PoolShutdown.Remaining, Pool.Step;
    PoolShutdown.ShutdownDecreases(s.pool, p);
    match p
    case Count(w) => SumUpdate(s.handlers, w, Begun(s.pool.workers[w].task), StepsLeft);
    case Finish(w, _) => SumUpdate(s.handlers, w, Off, StepsLeft);
    case _ =>
  }

  /** Once the queue's flag is set, every step but a further stop request leaves less to do. */
  lemma ShutdownShrinks(s: State, a: Action)
    requires Inv(s) && s.pool.queue.shutdown && Enabled(s, a) && !a.RequestStop?
    ensures Left(Step(s, a)) < Left(s)
  {
    hide PoolShutdown.Remaining, Pool.Step;
    match a
    case Work(p) => WorkShrinks(s, p);
    case Handle(w, h) => SumUpdate(s.handlers, w, NextPhase(s.handlers[w], h).value, StepsLeft);
    case OnMain(m) =>
      assert s.main.Draining?;
      PoolShutdown.ShutdownDecreases(s.pool, m.a);
  }

  ghost predicate Works(a: Action) {
    !a.RequestStop?
  }

  lemma FlagStays(s: State, a: Action)
    requires s.pool.queue.shutdown && Enabled(s, a)
    ensures Step(s, a).pool.queue.shutdown
  {
    StepRefinesPool(s, a);
  }

  /** So after the flag every run of the server takes at most that many steps. */
  lemma {:induction false} RunBounded(s: State, acts: seq<Action>, t: State)
    requires Inv(s) && s.pool.queue.shutdown && Leads(s, acts, t)
    ensures Count(acts, Works) + Left(t) <= Left(s)
    decreases |acts|
  {
    hide Step, Enabled, Left;
    if acts != [] {
      var a := acts[0];
      StepKeepsInv(s, a);
      FlagStays(s, a);
      if Works(a) {
        ShutdownShrinks(s, a);
      } else {
        StopRequestIdle(s);
      }
      RunBounded(Step(s, a), acts[1..], t);
    }
  }

  lemma StopRequestIdle(s: State)
    ensures Enabled(s, RequestStop) && Left(Step(s, RequestStop)) == Left(s)
  {
  }

  /** The step a handler can always take. */
  ghost function HandlerMove(p: Phase): HandlerStep
    requires !p.Off? && !p.Done? && !p.Escaped?
  {
    match p
    case Begun(_) => Record
    case Receiving(_) => Empty
    case Classified(_) => Sent
    case Failing(_, _) => RecordFailure
    case Closing(_) => CloseSocket
    case Uncounting(_) => Uncount
  }

  /** Until the shutdown has returned some thread can always move, without a spurious wakeup. */
  lemma ShutdownNeverStuck(s: State) returns (a: Action)
    requires Inv(s) && s.pool.queue.shutdown && !s.pool.closer.Closed?
    ensures Enabled(s, a) && !a.RequestStop? && !(a.Work? && a.a.Spurious?) && !Escapes(a)
  {
    var p := PoolShutdown.ShutdownNeverStuck(s.pool);
    if p.Finish? {
      var phase := s.handlers[p.w];
      if phase.Done? || phase.Escaped? {
        a := Work(Pool.Finish(p.w, phase.Escaped?));
      } else {
        a := Handle(p.w, HandlerMove(phase));
      }
    } else if p.Flag? || p.NotifyAll? || p.Join? || p.Stop? {
      a := OnMain(Close(p));
    } else {
      a := Work(p);
    }
  }

  /** So from every such state some run, in which no exception escapes, reaches the end of the shutdown. */
  lemma {:induction false} ShutdownRun(s: State) returns (acts: seq<Action>, t: State)
    requires Inv(s) && s.pool.queue.shutdown
    ensures Leads(s, acts, t) && Inv(t) && t.pool.closer.Closed?
    ensures Count(acts, Escapes) == 0
    decreases Left(s)
  {
    hide Step, Enabled, Left;
    if s.pool.closer.Closed? {
      acts, t := [], s;
    } else {
      var a := ShutdownNeverStuck(s);
      ShutdownShrinks(s, a);
      StepKeepsInv(s, a);
      FlagStays(s, a);
      var rest;
      rest, t := ShutdownRun(Step(s, a));
      acts := [a] + rest;
      assert acts[1..] == rest;
    }
  }
}
