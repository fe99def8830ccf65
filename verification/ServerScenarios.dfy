/** Runs of the server that exist: every worker busy, every ending of a request, and the runs that go wrong. */
module ServerScenarios {
  import opened Wrappers
  import opened Sums
  import Pool = ThreadPool
  import opened Server
  import opened ServerRuns

  // ---- Putting runs together ----

  lemma {:induction false} LeadsJoin(s: State, first: seq<Action>, t: State, second: seq<Action>, u: State)
    requires Leads(s, first, t) && Leads(t, second, u)
    ensures Leads(s, first + second, u)
    decreases |first|
  {
    hide Step, Enabled;
    if first == [] {
      assert first + second == second;
    } else {
      assert (first + second)[1..] == first[1..] + second;
      LeadsJoin(Step(s, first[0]), first[1..], t, second, u);
    }
  }

  /** A run that goes one step further. */
  lemma Then(s: State, acts: seq<Action>, t: State, a: Action) returns (acts': seq<Action>, t': State)
    requires Leads(s, acts, t) && Enabled(t, a)
    ensures Leads(s, acts', t') && t' == Step(t, a)
  {
    hide Step, Enabled;
    acts', t' := acts + [a], Step(t, a);
    assert [a][1..] == [];
    assert Leads(t', [], t');
    LeadsJoin(s, acts, t, [a], t');
  }

  // ---- Every worker busy ----

  /** The first `k` workers are inside a handler, the others have not started, and nothing waits. */
  ghost predicate Busy(s: State, k: nat) {
    && s.main.LoopHead? && s.running && s.pool.queue.items == [] && !s.pool.queue.shutdown
    && !s.pool.stopped && s.pool.closer.Serving? && s.pool.queue.capacity > 0
    && |s.pool.producers| == 1 && s.pool.producers[0].Idle?
    && k <= |s.handlers| == |s.pool.workers|
    && (forall i :: 0 <= i < k ==> s.handlers[i].Begun? && s.pool.workers[i].Running?)
    && (forall i :: k <= i < |s.handlers| ==> s.handlers[i].Off? && s.pool.workers[i].Entering?)
  }

  /** The accept thread takes the next connection up to its submission. */
  lemma Accepted(s: State) returns (acts: seq<Action>, t: State)
    requires s.main.LoopHead? && s.running
    ensures Leads(s, acts, t)
    ensures t == s.(main := Submitting(s.next), active := s.active + 1, next := s.next + 1, gauge := s.pool.active)
  {
    assert Leads(s, [], s);
    hide Leads, Pool.Enabled, Pool.Step, WorkEnabled, NextPhase, Tally;
    acts, t := Then(s, [], s, OnMain(Test));
    acts, t := Then(s, acts, t, OnMain(Accept));
    acts, t := Then(s, acts, t, OnMain(Open));
    acts, t := Then(s, acts, t, OnMain(Sample));
    acts, t := Then(s, acts, t, OnMain(Store));
  }

  /** One more connection is accepted, submitted, taken by the next worker and started. */
  lemma OneMoreBusy(s: State, k: nat) returns (acts: seq<Action>, t: State)
    requires Busy(s, k) && k < |s.handlers|
    ensures Leads(s, acts, t) && Busy(t, k + 1) && |t.handlers| == |s.handlers|
    ensures t.handlers[k] == Begun(s.next) && t.counters == s.counters && t.closed == s.closed && t.leaked == s.leaked
    ensures t.active == s.active + 1
  {
    hide Leads;
    acts, t := Accepted(s);
    acts, t := Then(s, acts, t, OnMain(Check));
    acts, t := Then(s, acts, t, OnMain(Push(None)));
    acts, t := Then(s, acts, t, Work(Pool.Attempt(k, None)));
    acts, t := Then(s, acts, t, Work(Pool.Count(k)));
  }

  lemma {:induction false} BusyFrom(s: State, k: nat) returns (acts: seq<Action>, t: State)
    requires Busy(s, k)
    ensures Leads(s, acts, t) && Busy(t, |t.handlers|)
    decreases |s.handlers| - k
  {
    if k == |s.handlers| {
      acts, t := [], s;
    } else {
      hide Step, Enabled;
      var first, s' := OneMoreBusy(s, k);
      var rest;
      rest, t := BusyFrom(s', k + 1);
      acts := first + rest;
      LeadsJoin(s, first, s', rest, t);
    }
  }

  /** Some run has every worker inside a handler at once: as many as configured, two for none. */
  lemma AllWorkersBusy(capacity: nat, threads: nat) returns (acts: seq<Action>, s: State)
    requires capacity > 0
    ensures Leads(Init(capacity, threads), acts, s)
    ensures |s.handlers| == |s.pool.workers| == if threads == 0 then 2 else threads
    ensures forall i :: 0 <= i < |s.handlers| ==> s.handlers[i].Begun? && s.pool.workers[i].Running?
  {
    acts, s := BusyFrom(Init(capacity, threads), 0);
    ServerKeepsItsSize(capacity, threads, acts, s);
  }

  // ---- A refusal ----

  /** Why a connection is refused: the queue is full, or submit throws before or after its test of `stopped_`. */
  datatype Reason = Full | ThrewBefore | ThrewInside

  /** One more connection was taken and refused; everything else is as before. */
  ghost function Refused(s: State): State {
    s.(next := s.next + 1, closed := s.closed + [s.next], gauge := s.pool.active,
       counters := s.counters.(server := s.counters.server + 1, rejected := s.counters.rejected + 1))
  }

  /** The next connection, when it cannot be submitted, comes to be rejected with the pool untouched. */
  lemma NotSubmitted(s: State, why: Reason) returns (acts: seq<Action>, t: State)
    requires s.main.LoopHead? && s.running && !s.pool.stopped && |s.pool.producers| == 1 && s.pool.producers[0].Idle?
    requires why.Full? ==> |s.pool.queue.items| == s.pool.queue.capacity
    ensures Leads(s, acts, t)
    ensures t == s.(main := Rejecting(s.next), active := s.active + 1, next := s.next + 1, gauge := s.pool.active)
  {
    hide Leads;
    acts, t := Accepted(s);
    if why.ThrewBefore? {
      acts, t := Then(s, acts, t, OnMain(ThrowBefore));
    } else {
      acts, t := Then(s, acts, t, OnMain(Check));
      acts, t := Then(s, acts, t, OnMain(if why.Full? then Push(None) else ThrowInside));
      assert t.pool.producers == s.pool.producers;
      assert t.pool == s.pool;
    }
  }

  /**
   Whenever the next connection cannot be submitted it is refused, and the accept loop is back where it
   was: one more socket is closed, one more refusal and server error are counted, the pool is untouched.
   */
  lemma RefusalRun(s: State, why: Reason) returns (acts: seq<Action>, t: State)
    requires s.main.LoopHead? && s.running && !s.pool.stopped && |s.pool.producers| == 1 && s.pool.producers[0].Idle?
    requires why.Full? ==> |s.pool.queue.items| == s.pool.queue.capacity
    ensures Leads(s, acts, t) && t == Refused(s)
  {
    hide Leads, Pool.Enabled, Pool.Step;
    acts, t := NotSubmitted(s, why);
    acts, t := Then(s, acts, t, OnMain(RecordReject));
    acts, t := Then(s, acts, t, OnMain(CloseReject));
    acts, t := Then(s, acts, t, OnMain(UncountReject));
  }

  // ---- Every ending of a request ----

  /** The first worker receives the first request, and nothing else has happened. */
  lemma FirstReceiving(capacity: nat, threads: nat) returns (acts: seq<Action>, s: State)
    requires capacity > 0
    ensures Leads(Init(capacity, threads), acts, s)
    ensures s.handlers != [] && s.handlers[0] == Receiving(0) && Busy(s.(handlers := s.handlers[0 := Begun(0)]), 1)
    ensures s.counters == Counters(1, 0, 0, 0, 0, 0, 0, 0) && s.closed == [] && s.leaked == [] && s.active == 1
  {
    hide Leads;
    var start := Init(capacity, threads);
    acts, s := OneMoreBusy(start, 0);
    ghost var before := s;
    acts, s := Then(start, acts, s, Handle(0, Record));
    assert s.handlers[0 := Begun(0)] == before.handlers;
  }

  /** How a request can end without an escaping exception. */
  datatype Ending = Answered(o: Outcome) | ArrivedEmpty | Failed | FailedLate

  /** The counters after one request with that ending. */
  ghost function Tallied(e: Ending): Counters {
    match e
    case Answered(Success) => Counters(1, 1, 0, 0, 0, 0, 0, 0)
    case Answered(ClientError) => Counters(1, 0, 1, 0, 0, 0, 0, 0)
    case Answered(ServerError) => Counters(1, 0, 0, 1, 0, 0, 0, 0)
    case ArrivedEmpty => Counters(1, 0, 0, 0, 0, 1, 0, 0)
    case Failed => Counters(1, 0, 0, 1, 0, 0, 0, 0)
    case FailedLate => Counters(1, 1, 0, 1, 0, 0, 1, 0)
  }

  /** The steps of the handler from the receive to the close. */
  ghost function EndingSteps(e: Ending): seq<HandlerStep> {
    match e
    case Answered(o) => [Classify(o), Sent]
    case ArrivedEmpty => [Empty]
    case Failed => [Raise, RecordFailure]
    case FailedLate => [Classify(Success), Raise, RecordFailure]
  }

  /** Where a handler and the counters are after some steps of the handler, if it can take them. */
  ghost function Play(p: Phase, k: Counters, steps: seq<HandlerStep>): Option<(Phase, Counters)>
    decreases |steps|
  {
    if steps == [] then Some((p, k))
    else
      match NextPhase(p, steps[0])
      case None => None
      case Some(q) => Play(q, Tally(k, p, steps[0]), steps[1..])
  }

  ghost predicate KeepsSocket(steps: seq<HandlerStep>) {
    forall i :: 0 <= i < |steps| ==> !steps[i].CloseSocket? && !steps[i].Uncount? && !steps[i].Escape?
  }

  lemma {:induction false} HandlerSteps(start: State, acts: seq<Action>, s: State, steps: seq<HandlerStep>)
    returns (acts': seq<Action>, s': State)
    requires Leads(start, acts, s) && s.handlers != [] && KeepsSocket(steps)
    requires Play(s.handlers[0], s.counters, steps).Some?
    ensures Leads(start, acts', s')
    ensures var (p, k) := Play(s.handlers[0], s.counters, steps).value;
            s' == s.(handlers := s.handlers[0 := p], counters := k)
    decreases |steps|
  {
    hide Leads, NextPhase, Tally;
    if steps == [] {
      acts', s' := acts, s;
      assert s.handlers[0 := s.handlers[0]] == s.handlers;
    } else {
      acts', s' := Then(start, acts, s, Handle(0, steps[0]));
      acts', s' := HandlerSteps(start, acts', s', steps[1..]);
    }
  }

  lemma PlayOne(p: Phase, k: Counters, h: HandlerStep, rest: seq<HandlerStep>)
    requires NextPhase(p, h).Some?
    ensures Play(p, k, [h] + rest) == Play(NextPhase(p, h).value, Tally(k, p, h), rest)
  {
    hide NextPhase, Tally;
    assert ([h] + rest)[1..] == rest;
  }

  lemma EndingPlays(e: Ending)
    ensures KeepsSocket(EndingSteps(e))
    ensures Play(Receiving(0), Counters(1, 0, 0, 0, 0, 0, 0, 0), EndingSteps(e)) == Some((Closing(0), Tallied(e)))
  {
    var k := Counters(1, 0, 0, 0, 0, 0, 0, 0);
    match e
    case Answered(o) =>
      PlayOne(Receiving(0), k, Classify(o), [Sent]);
      PlayOne(Classified(0), Tallied(e), Sent, []);
      assert EndingSteps(e) == [Classify(o)] + [Sent] && [Sent] == [Sent] + [];
    case ArrivedEmpty =>
      PlayOne(Receiving(0), k, Empty, []);
      assert EndingSteps(e) == [Empty] + [];
    case Failed =>
      PlayOne(Receiving(0), k, Raise, [RecordFailure]);
      PlayOne(Failing(0, false), k, RecordFailure, []);
      assert EndingSteps(e) == [Raise] + [RecordFailure] && [RecordFailure] == [RecordFailure] + [];
    case FailedLate =>
      var k' := Counters(1, 1, 0, 0, 0, 0, 0, 0);
      PlayOne(Receiving(0), k, Classify(Success), [Raise, RecordFailure]);
      PlayOne(Classified(0), k', Raise, [RecordFailure]);
      PlayOne(Failing(0, true), k', RecordFailure, []);
      assert EndingSteps(e) == [Classify(Success)] + [Raise, RecordFailure];
      assert [Raise, RecordFailure] == [Raise] + [RecordFailure] && [RecordFailure] == [RecordFailure] + [];
  }

  /**
   Every ending happens: for each there is a run in which the first connection is accepted, handled
   with that ending, closed and uncounted, and its worker is back for more.
   */
  lemma EveryEnding(capacity: nat, threads: nat, e: Ending) returns (acts: seq<Action>, s: State)
    requires capacity > 0
    ensures Leads(Init(capacity, threads), acts, s)
    ensures s.counters == Tallied(e) && s.closed == [0] && s.leaked == [] && s.active == 0
    ensures s.handlers != [] && s.handlers[0].Off? && s.pool.workers != [] && s.pool.workers[0].Entering?
  {
    hide Leads, Play, Tallied, EndingSteps, KeepsSocket;
    var start := Init(capacity, threads);
    acts, s := FirstReceiving(capacity, threads);
    EndingPlays(e);
    acts, s := HandlerSteps(start, acts, s, EndingSteps(e));
    acts, s := Then(start, acts, s, Handle(0, CloseSocket));
    acts, s := Then(start, acts, s, Handle(0, Uncount));
    acts, s := Then(start, acts, s, Work(Pool.Finish(0, false)));
    acts, s := Then(start, acts, s, Work(Pool.Uncount(0)));
  }

  // ---- Runs that go wrong ----

  /** A foreign exception can leave a handler from inside its try or catch block, and from nowhere else. */
  lemma EscapesFromBlocksOnly(s: State, w: nat)
    requires w < |s.handlers|
    ensures Enabled(s, Handle(w, Escape))
            <==> s.handlers[w].Receiving? || s.handlers[w].Classified? || s.handlers[w].Failing?
  {
  }

  /** A foreign exception has left the first handler, and the server has begun to shut down. */
  lemma LeakedAndStopping(capacity: nat, threads: nat) returns (acts: seq<Action>, s: State)
    requires capacity > 0
    ensures Leads(Init(capacity, threads), acts, s) && 0 in s.leaked && s.pool.queue.shutdown
  {
    hide Leads;
    var start := Init(capacity, threads);
    acts, s := FirstReceiving(capacity, threads);
    acts, s := Then(start, acts, s, Handle(0, Escape));
    acts, s := Then(start, acts, s, RequestStop);
    acts, s := Then(start, acts, s, OnMain(Test));
    acts, s := Then(start, acts, s, OnMain(Close(Pool.Stop)));
    acts, s := Then(start, acts, s, OnMain(Close(Pool.Flag)));
  }

  /** With any room in the queue some run leaks a socket: a handler lets a foreign exception out. */
  lemma LeakingRun(capacity: nat, threads: nat) returns (acts: seq<Action>, s: State)
    requires capacity > 0
    ensures Leads(Init(capacity, threads), acts, s) && s.pool.closer.Closed?
    ensures 0 in s.leaked && 0 !in s.closed && s.active > 0
  {
    hide Leads, Inv;
    var first, s1 := LeakedAndStopping(capacity, threads);
    InitInv(capacity, threads);
    RunKeepsInv(Init(capacity, threads), first, s1);
    var drain;
    drain, s := ShutdownRun(s1);
    acts := first + drain;
    LeadsJoin(Init(capacity, threads), first, s1, drain, s);
    LeaksStay(s1, drain, s, 0);
    EverySocketClosed(s);
    ClosedAtMostOnce(s, 0);
  }

  /** With any room in the queue some run loses the balance: an exception follows the recorded outcome. */
  lemma UnbalancedRun(capacity: nat, threads: nat) returns (acts: seq<Action>, s: State)
    requires capacity > 0
    ensures Leads(Init(capacity, threads), acts, s) && !InBalance(s)
  {
    hide Leads;
    acts, s := EveryEnding(capacity, threads, FailedLate);
    OutcomesBalance(s);
  }
}
