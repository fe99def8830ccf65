/**
 The server as an interleaved step system on top of the thread pool: the accept loop is
 the pool's only producer and the thread that shuts it down, and each running task is a
 client handler.  Sockets, connection gauge and outcome counters move one atomic
 operation at a time.
 */
module Server {
  import opened Wrappers
  import opened Sums
  import opened BlockingQueue
  import Pool = ThreadPool
  import PoolShutdown

  /** An accepted socket; the n-th accept yields number n. */
  type Conn = nat

  /** Where the main thread is: in the accept loop, then in the pool's shutdown. */
  datatype Main =
    | LoopHead                               // about to test `running_`
    | Waiting                                // inside accept
    | Opening(conn: Conn)                    // about to count the connection
    | Sampling(conn: Conn)                   // about to read the pool's active workers
    | Storing(conn: Conn, sample: int)       // about to store that reading
    | Submitting(conn: Conn)                 // about to call submit
    | InSubmit(conn: Conn)                   // past submit's test of `stopped_`
    | Rejecting(conn: Conn)                  // about to record the 503
    | RejectClosing(conn: Conn)              // about to close the socket
    | RejectUncounting(conn: Conn)           // about to uncount the connection
    | Draining                               // in pool_->shutdown()

  /** Where a worker is inside `handle_client`. */
  datatype Phase =
    | Off
    | Begun(conn: Conn)                      // about to record the request
    | Receiving(conn: Conn)                  // inside the try block, no outcome recorded yet
    | Classified(conn: Conn)                 // outcome recorded, response not fully sent
    | Failing(conn: Conn, late: bool)        // in the catch block; late: an outcome was already recorded
    | Closing(conn: Conn)                    // about to close the socket
    | Uncounting(conn: Conn)                 // about to uncount the connection
    | Done(conn: Conn)
    | Escaped(conn: Conn)                    // an exception that `handle_client` does not catch is leaving

  datatype Outcome = Success | ClientError | ServerError

  /** The metrics' counters, followed by history counters of the events they stand for. */
  datatype Counters = Counters(
    total: nat, success: nat, client: nat, server: nat,
    rejected: nat,          // history: connections refused with 503
    empty: nat,             // history: requests that arrived empty
    late: nat,              // history: failures recorded after an outcome was recorded
    lost: nat)              // history: handlers that escaped with no outcome recorded

  datatype State = State(
    pool: Pool.State,
    main: Main,
    running: bool,
    handlers: seq<Phase>,
    counters: Counters,
    active: int,            // active_connections_
    gauge: int,             // the metrics' stored copy of the pool's active workers
    threads: nat,           // the metrics' worker_threads
    next: nat,              // how many sockets have been accepted
    closed: seq<Conn>,      // history: sockets closed, in order
    leaked: seq<Conn>)      // history: sockets whose handler escaped

  datatype HandlerStep = Record | Empty | Classify(o: Outcome) | Raise | Sent | RecordFailure | CloseSocket | Uncount | Escape

  datatype MainStep =
    | Test | Accept | AcceptFailed | Open | Sample | Store | Check | Push(wake: Option<nat>) | ThrowBefore | ThrowInside
    | RecordReject | CloseReject | UncountReject | Close(a: Pool.Action)

  datatype Action =
    | RequestStop                            // anyone clears `running_`
    | Work(a: Pool.Action)                   // a worker's own step in the pool
    | Handle(w: nat, h: HandlerStep)
    | OnMain(m: MainStep)

  function Init(capacity: nat, threads: nat): State {
    var pool := Pool.Init(capacity, threads, 1);
    State(pool, LoopHead, true, seq(|pool.workers|, _ => Off), Counters(0, 0, 0, 0, 0, 0, 0, 0),
          0, 0, |pool.workers|, 0, [], [])
  }

  // ---- Steps of the workers in the pool ----

  ghost predicate WorkEnabled(s: State, a: Pool.Action) {
    && Pool.Enabled(s.pool, a)
    && match a
       case Attempt(_, _) => true
       case Spurious(_) => true
       case Count(w) => w < |s.handlers|
       case Finish(w, threw) => w < |s.handlers| && (if threw then s.handlers[w].Escaped? else s.handlers[w].Done?)
       case Uncount(_) => true
       case _ => false
  }

  ghost function WorkStep(s: State, a: Pool.Action): State
    requires WorkEnabled(s, a)
  {
    s.(pool := Pool.Step(s.pool, a),
       handlers := match a
                   case Count(w) => s.handlers[w := Begun(s.pool.workers[w].task)]
                   case Finish(w, _) => s.handlers[w := Off]
                   case _ => s.handlers)
  }

  // ---- Steps of a handler ----

  ghost function NextPhase(p: Phase, h: HandlerStep): Option<Phase> {
    match (p, h)
    case (Begun(c), Record) => Some(Receiving(c))
    case (Receiving(c), Empty) => Some(Closing(c))
    case (Receiving(c), Classify(_)) => Some(Classified(c))
    case (Receiving(c), Raise) => Some(Failing(c, false))
    case (Receiving(c), Escape) => Some(Escaped(c))
    case (Classified(c), Raise) => Some(Failing(c, true))
    case (Classified(c), Sent) => Some(Closing(c))
    case (Classified(c), Escape) => Some(Escaped(c))
    case (Failing(c, _), RecordFailure) => Some(Closing(c))
    case (Failing(c, _), Escape) => Some(Escaped(c))
    case (Closing(c), CloseSocket) => Some(Uncounting(c))
    case (Uncounting(c), Uncount) => Some(Done(c))
    case _ => None
  }

  ghost function Tally(k: Counters, p: Phase, h: HandlerStep): Counters {
    match h
    case Record => k.(total := k.total + 1)
    case Empty => k.(empty := k.empty + 1)
    case Classify(Success) => k.(success := k.success + 1)
    case Classify(ClientError) => k.(client := k.client + 1)
    case Classify(ServerError) => k.(server := k.server + 1)
    case RecordFailure =>
      k.(server := k.server + 1, late := if p.Failing? && p.late then k.late + 1 else k.late)
    case Escape => k.(lost := k.lost + Unclassified(p))
    case _ => k
  }

  ghost function HandleStep(s: State, w: nat, h: HandlerStep): State
    requires w < |s.handlers| && NextPhase(s.handlers[w], h).Some?
  {
    var p := s.handlers[w];
    s.(handlers := s.handlers[w := NextPhase(p, h).value],
       counters := Tally(s.counters, p, h),
       active := if h.Uncount? then s.active - 1 else s.active,
       closed := if h.CloseSocket? then s.closed + [p.conn] else s.closed,
       leaked := if h.Escape? then s.leaked + [p.conn] else s.leaked)
  }

  // ---- Steps of the main thread ----

  ghost predicate MainEnabled(s: State, m: MainStep) {
    match m
    case Test => s.main.LoopHead?
    case Accept => s.main.Waiting?
    case AcceptFailed => s.main.Waiting?
    case Open => s.main.Opening?
    case Sample => s.main.Sampling?
    case Store => s.main.Storing?
    case Check => s.main.Submitting? && Pool.Enabled(s.pool, Pool.Check(0, s.main.conn))
    case Push(wake) => s.main.InSubmit? && Pool.Enabled(s.pool, Pool.Push(0, wake))
    case ThrowBefore => s.main.Submitting?
    case ThrowInside => s.main.InSubmit? && Pool.Enabled(s.pool, Pool.Throw(0))
    case RecordReject => s.main.Rejecting?
    case CloseReject => s.main.RejectClosing?
    case UncountReject => s.main.RejectUncounting?
    case Close(a) => s.main.Draining? && Pool.Enabled(s.pool, a) && (a.Stop? || a.Flag? || a.NotifyAll? || a.Join?)
  }

  ghost function MainNext(s: State, m: MainStep): State
    requires MainEnabled(s, m)
  {
    match m
    case Test => s.(main := if s.running then Waiting else Draining)
    case Accept => s.(main := Opening(s.next), next := s.next + 1)
    case AcceptFailed => s.(main := if s.running then LoopHead else Draining)
    case Open => s.(main := Sampling(s.main.conn), active := s.active + 1)
    case Sample => s.(main := Storing(s.main.conn, s.pool.active))
    case Store => s.(main := Submitting(s.main.conn), gauge := s.main.sample)
    case Check =>
      s.(pool := Pool.Step(s.pool, Pool.Check(0, s.main.conn)),
         main := if s.pool.stopped then Rejecting(s.main.conn) else InSubmit(s.main.conn))
    case Push(wake) =>
      s.(pool := Pool.Step(s.pool, Pool.Push(0, wake)),
         main := if |s.pool.queue.items| < s.pool.queue.capacity then LoopHead else Rejecting(s.main.conn))
    case ThrowBefore => s.(main := Rejecting(s.main.conn))
    case ThrowInside => s.(pool := Pool.Step(s.pool, Pool.Throw(0)), main := Rejecting(s.main.conn))
    case RecordReject =>
      s.(main := RejectClosing(s.main.conn),
         counters := s.counters.(server := s.counters.server + 1, rejected := s.counters.rejected + 1))
    case CloseReject => s.(main := RejectUncounting(s.main.conn), closed := s.closed + [s.main.conn])
    case UncountReject => s.(main := LoopHead, active := s.active - 1)
    case Close(a) => s.(pool := Pool.Step(s.pool, a))
  }

  ghost predicate Enabled(s: State, a: Action) {
    match a
    case RequestStop => true
    case Work(p) => WorkEnabled(s, p)
    case Handle(w, h) => w < |s.handlers| && NextPhase(s.handlers[w], h).Some?
    case OnMain(m) => MainEnabled(s, m)
  }

  ghost function Step(s: State, a: Action): State
    requires Enabled(s, a)
  {
    match a
    case RequestStop => s.(running := false)
    case Work(p) => WorkStep(s, p)
    case Handle(w, h) => HandleStep(s, w, h)
    case OnMain(m) => MainNext(s, m)
  }

  ghost predicate Leads(s: State, acts: seq<Action>, t: State)
    decreases |acts|
  {
    if acts == [] then s == t
    else Enabled(s, acts[0]) && Leads(Step(s, acts[0]), acts[1..], t)
  }

  ghost predicate Reachable(s: State) {
    exists capacity: nat, threads: nat, acts: seq<Action> :: Leads(Init(capacity, threads), acts, s)
  }

  // ---- Totals ----

  ghost function Unclassified(p: Phase): nat {
    if p.Receiving? || (p.Failing? && !p.late) then 1 else 0
  }

  /** One while the handler's connection is counted in `active_connections_` and not leaked. */
  ghost function Counted(p: Phase): nat {
    if p.Off? || p.Done? || p.Escaped? then 0 else 1
  }

  ghost function HoldingUnit(w: Pool.Worker): nat {
    if w.Holding? then 1 else 0
  }

  ghost function HoldsConn(c: Conn): Pool.Worker -> nat {
    (w: Pool.Worker) => if w.Holding? && w.task == c then 1 else 0
  }

  /** One while the handler still has to close socket `c`. */
  ghost function Owns(c: Conn): Phase -> nat {
    (p: Phase) =>
      if (p.Begun? || p.Receiving? || p.Classified? || p.Failing? || p.Closing?) && p.conn == c then 1 else 0
  }

  ghost function MainOwns(m: Main, c: Conn): nat {
    if m.LoopHead? || m.Waiting? || m.RejectUncounting? || m.Draining? || m.conn != c then 0 else 1
  }

  ghost function MainCounts(m: Main): nat {
    if m.LoopHead? || m.Waiting? || m.Opening? || m.Draining? then 0 else 1
  }

  // ---- The invariant ----

  /** The three views of the threads agree: pool workers, handler phases, the accept loop's place. */
  ghost predicate Sync(s: State) {
    && |s.handlers| == |s.pool.workers| == s.threads
    && |s.pool.producers| == 1
    && (forall w :: 0 <= w < |s.handlers| ==> (s.handlers[w].Off? <==> !s.pool.workers[w].Running?))
    && (s.main.InSubmit? <==> s.pool.producers[0].Pushing?)
    && (s.main.InSubmit? ==> s.pool.producers[0].task == s.main.conn)
    && (!s.main.Draining? ==> s.pool.closer.Serving?)
  }

  /** Nothing can be pushed once the pool is stopping, and nobody left a task behind. */
  ghost predicate Quieted(s: State) {
    s.pool.stopped ==> PoolShutdown.Quiet(s.pool)
  }

  /** Socket `c`, once accepted, is in exactly one place. */
  ghost predicate Placed(s: State, c: Conn) {
    (if c < s.next then 1 else 0)
      == MainOwns(s.main, c) + multiset(s.pool.queue.items)[c] + Sum(s.pool.workers, HoldsConn(c))
         + Sum(s.handlers, Owns(c)) + multiset(s.closed)[c] + multiset(s.leaked)[c]
  }

  /** `active_connections_` counts what is being submitted, rejected, queued, handled or was leaked. */
  ghost predicate ActiveExact(s: State) {
    s.active == MainCounts(s.main) + |s.pool.queue.items| + Sum(s.pool.workers, HoldingUnit)
                + Sum(s.handlers, Counted) + |s.leaked|
  }

  /** Every request and every refusal is accounted for by one outcome or is still under way. */
  ghost predicate Accounted(s: State) {
    var k := s.counters;
    k.total + k.rejected + k.late == k.success + k.client + k.server + k.empty + k.lost + Sum(s.handlers, Unclassified)
  }

  /** The stored gauge may be stale but is never above the number of workers. */
  ghost predicate GaugeBounded(s: State) {
    0 <= s.gauge <= s.threads && (s.main.Storing? ==> 0 <= s.main.sample <= s.threads)
  }

  ghost predicate Inv(s: State) {
    && Pool.Inv(s.pool)
    && Sync(s)
    && Quieted(s)
    && (forall c :: Placed(s, c))
    && ActiveExact(s)
    && Accounted(s)
    && GaugeBounded(s)
  }

  lemma InitInv(capacity: nat, threads: nat)
    ensures Inv(Init(capacity, threads))
  {
    var s := Init(capacity, threads);
    Pool.InitInv(capacity, threads, 1);
    SumBound(s.pool.workers, HoldingUnit, 0);
    SumBound(s.handlers, Counted, 0);
    SumBound(s.handlers, Unclassified, 0);
    forall c ensures Placed(s, c) {
      SumBound(s.pool.workers, HoldsConn(c), 0);
      SumBound(s.handlers, Owns(c), 0);
    }
  }

  // ---- Refinement of the pool ----

  /** The pool step that a server step contains, if any. */
  ghost function PoolPart(s: State, a: Action): Option<Pool.Action>
    requires Enabled(s, a)
  {
    match a
    case Work(p) => Some(p)
    case OnMain(Check) => Some(Pool.Check(0, s.main.conn))
    case OnMain(Push(wake)) => Some(Pool.Push(0, wake))
    case OnMain(ThrowInside) => Some(Pool.Throw(0))
    case OnMain(Close(p)) => Some(p)
    case _ => None
  }

  /** Every server step is a step of the pool or leaves the pool alone. */
  lemma StepRefinesPool(s: State, a: Action)
    requires Enabled(s, a)
    ensures match PoolPart(s, a)
            case Some(p) => Pool.Enabled(s.pool, p) && Step(s, a).pool == Pool.Step(s.pool, p)
            case None => Step(s, a).pool == s.pool
  {
  }

  /** So every run of the server contains a run of the pool, and the pool's theorems apply to it. */
  lemma {:induction false} RunRefinesPool(s: State, acts: seq<Action>, t: State) returns (poolActs: seq<Pool.Action>)
    requires Leads(s, acts, t)
    ensures Pool.Leads(s.pool, poolActs, t.pool)
    decreases |acts|
  {
    if acts == [] {
      poolActs := [];
    } else {
      StepRefinesPool(s, acts[0]);
      poolActs := RunRefinesPool(Step(s, acts[0]), acts[1..], t);
      var part := PoolPart(s, acts[0]);
      if part.Some? {
        var rest := poolActs;
        poolActs := [part.value] + rest;
        assert poolActs[1..] == rest;
      }
    }
  }

  lemma PoolReachable(s: State)
    requires Reachable(s)
    ensures Pool.Reachable(s.pool)
  {
    var capacity: nat, threads: nat, acts :| Leads(Init(capacity, threads), acts, s);
    var poolActs := RunRefinesPool(Init(capacity, threads), acts, s);
    assert Pool.Leads(Pool.Init(capacity, threads, 1), poolActs, s.pool);
  }

  // ---- Every step keeps the invariant ----

  lemma StepKeepsPool(s: State, a: Action)
    requires Inv(s) && Enabled(s, a)
    ensures Pool.Inv(Step(s, a).pool)
  {
    StepRefinesPool(s, a);
    var part := PoolPart(s, a);
    if part.Some? {
      Pool.StepKeepsInv(s.pool, part.value);
    }
  }

  lemma WorkKeepsSync(s: State, a: Pool.Action)
    requires Sync(s) && WorkEnabled(s, a)
    ensures Sync(WorkStep(s, a))
  {
  }

  lemma HandleKeepsSync(s: State, w: nat, h: HandlerStep)
    requires Sync(s) && Enabled(s, Handle(w, h))
    ensures Sync(HandleStep(s, w, h))
  {
  }

  lemma MainKeepsSync(s: State, m: MainStep)
    requires Sync(s) && Pool.Phases(s.pool) && MainEnabled(s, m)
    ensures Sync(MainNext(s, m))
  {
  }

  lemma StepKeepsQuieted(s: State, a: Action)
    requires Pool.Inv(s.pool) && Sync(s) && Quieted(s) && Enabled(s, a)
    ensures Quieted(Step(s, a))
  {
    StepRefinesPool(s, a);
    var part := PoolPart(s, a);
    if part.Some? && s.pool.stopped {
      PoolShutdown.StepKeepsQuiet(s.pool, part.value);
    }
  }

  lemma FrontOfQueue(items: seq<Conn>, c: Conn)
    requires items != []
    ensures multiset(items)[c] == multiset(items[1..])[c] + (if items[0] == c then 1 else 0)
  {
    assert items == [items[0]] + items[1..];
  }

  lemma AttemptKeepsPlaced(s: State, w: nat, wake: Option<nat>, c: Conn)
    requires Placed(s, c) && WorkEnabled(s, Pool.Attempt(w, wake))
    ensures Placed(WorkStep(s, Pool.Attempt(w, wake)), c)
  {
    var ws := s.pool.workers;
    match TryTake(s.pool.queue)
    case Take(t, rest) =>
      Pool.SignalAndMove(ws, wake, w, Pool.Holding(t), HoldsConn(c));
      FrontOfQueue(s.pool.queue.items, c);
    case Quit => SumUpdate(ws, w, Pool.Exited, HoldsConn(c));
    case Sleep => SumUpdate(ws, w, Pool.Asleep, HoldsConn(c));
  }

  /** Starting the handler moves the connection from the worker's hand to the handler. */
  lemma CountKeepsPlaced(s: State, w: nat, c: Conn)
    requires Sync(s) && Placed(s, c) && WorkEnabled(s, Pool.Count(w))
    ensures Placed(WorkStep(s, Pool.Count(w)), c)
  {
    var t := s.pool.workers[w].task;
    SumUpdate(s.pool.workers, w, Pool.Running(t), HoldsConn(c));
    SumUpdate(s.handlers, w, Begun(t), Owns(c));
  }

  /** A handler that ends no longer owns its socket. */
  lemma FinishKeepsPlaced(s: State, w: nat, threw: bool, c: Conn)
    requires Placed(s, c) && WorkEnabled(s, Pool.Finish(w, threw))
    ensures Placed(WorkStep(s, Pool.Finish(w, threw)), c)
  {
    SumUpdate(s.pool.workers, w, Pool.Leaving, HoldsConn(c));
    SumUpdate(s.handlers, w, Off, Owns(c));
  }

  lemma WorkKeepsPlaced(s: State, a: Pool.Action, c: Conn)
    requires Sync(s) && Placed(s, c) && WorkEnabled(s, a)
    ensures Placed(WorkStep(s, a), c)
  {
    var ws := s.pool.workers;
    match a
    case Attempt(w, wake) => AttemptKeepsPlaced(s, w, wake, c);
    case Spurious(w) => SumUpdate(ws, w, Pool.Notified, HoldsConn(c));
    case Count(w) => CountKeepsPlaced(s, w, c);
    case Finish(w, threw) => FinishKeepsPlaced(s, w, threw, c);
    case Uncount(w) => SumUpdate(ws, w, Pool.Entering, HoldsConn(c));
  }

  /** A handler gives up its socket by closing it or by escaping, and in no other step. */
  lemma PhaseOwns(p: Phase, h: HandlerStep, c: Conn)
    requires NextPhase(p, h).Some?
    ensures !p.Off?
    ensures Owns(c)(p) == Owns(c)(NextPhase(p, h).value) + (if (h.CloseSocket? || h.Escape?) && p.conn == c then 1 else 0)
  {
  }

  lemma HandleKeepsPlaced(s: State, w: nat, h: HandlerStep, c: Conn)
    requires Placed(s, c) && Enabled(s, Handle(w, h))
    ensures Placed(HandleStep(s, w, h), c)
  {
    hide Tally, NextPhase, Owns;
    var p := s.handlers[w];
    SumUpdate(s.handlers, w, NextPhase(p, h).value, Owns(c));
    PhaseOwns(p, h, c);
    if h.CloseSocket? {
      assert multiset(s.closed + [p.conn])[c] == multiset(s.closed)[c] + (if p.conn == c then 1 else 0);
    } else if h.Escape? {
      assert multiset(s.leaked + [p.conn])[c] == multiset(s.leaked)[c] + (if p.conn == c then 1 else 0);
    }
  }

  /** The main thread only ever wakes workers: a total blind to that does not see it. */
  lemma MainOnlyWakes(s: State, m: MainStep, f: Pool.Worker -> nat)
    requires MainEnabled(s, m) && f(Pool.Asleep) == f(Pool.Notified)
    ensures Sum(MainNext(s, m).pool.workers, f) == Sum(s.pool.workers, f)
  {
    var ws := s.pool.workers;
    if m.Push? && Pool.ValidWake(ws, m.wake) {
      Pool.SignalOnly(ws, m.wake, f);
    } else if m.Close? && m.a.NotifyAll? {
      SumPointwise(ws, MainNext(s, m).pool.workers, f);
    }
  }

  /** An accepted push moves the connection from the main thread to the queue; a refused one keeps it. */
  lemma PushKeepsPlaced(s: State, wake: Option<nat>, c: Conn)
    requires Sync(s) && Placed(s, c) && MainEnabled(s, Push(wake))
    ensures Placed(MainNext(s, Push(wake)), c)
  {
    MainOnlyWakes(s, Push(wake), HoldsConn(c));
  }

  lemma ShutdownKeepsPlaced(s: State, a: Pool.Action, c: Conn)
    requires Placed(s, c) && MainEnabled(s, Close(a))
    ensures Placed(MainNext(s, Close(a)), c)
  {
    MainOnlyWakes(s, Close(a), HoldsConn(c));
  }

  lemma RejectKeepsPlaced(s: State, c: Conn)
    requires Placed(s, c) && MainEnabled(s, CloseReject)
    ensures Placed(MainNext(s, CloseReject), c)
  {
    assert multiset(s.closed + [s.main.conn]) == multiset(s.closed) + multiset{s.main.conn};
  }

  lemma MainKeepsPlaced(s: State, m: MainStep, c: Conn)
    requires Sync(s) && Pool.Phases(s.pool) && Placed(s, c) && MainEnabled(s, m)
    ensures Placed(MainNext(s, m), c)
  {
    match m
    case Push(wake) => PushKeepsPlaced(s, wake, c);
    case Close(a) => ShutdownKeepsPlaced(s, a, c);
    case CloseReject => RejectKeepsPlaced(s, c);
    case _ =>
  }

  lemma AttemptKeepsActive(s: State, w: nat, wake: Option<nat>)
    requires ActiveExact(s) && WorkEnabled(s, Pool.Attempt(w, wake))
    ensures ActiveExact(WorkStep(s, Pool.Attempt(w, wake)))
  {
    var ws := s.pool.workers;
    match TryTake(s.pool.queue)
    case Take(t, _) => Pool.SignalAndMove(ws, wake, w, Pool.Holding(t), HoldingUnit);
    case Quit => SumUpdate(ws, w, Pool.Exited, HoldingUnit);
    case Sleep => SumUpdate(ws, w, Pool.Asleep, HoldingUnit);
  }

  lemma WorkKeepsActive(s: State, a: Pool.Action)
    requires Sync(s) && ActiveExact(s) && WorkEnabled(s, a)
    ensures ActiveExact(WorkStep(s, a))
  {
    var ws := s.pool.workers;
    match a
    case Attempt(w, wake) => AttemptKeepsActive(s, w, wake);
    case Spurious(w) => SumUpdate(ws, w, Pool.Notified, HoldingUnit);
    case Count(w) =>
      SumUpdate(ws, w, Pool.Running(ws[w].task), HoldingUnit);
      SumUpdate(s.handlers, w, Begun(ws[w].task), Counted);
    case Finish(w, _) =>
      SumUpdate(ws, w, Pool.Leaving, HoldingUnit);
      SumUpdate(s.handlers, w, Off, Counted);
    case Uncount(w) => SumUpdate(ws, w, Pool.Entering, HoldingUnit);
  }

  lemma HandleKeepsActive(s: State, w: nat, h: HandlerStep)
    requires ActiveExact(s) && Enabled(s, Handle(w, h))
    ensures ActiveExact(HandleStep(s, w, h))
  {
    SumUpdate(s.handlers, w, NextPhase(s.handlers[w], h).value, Counted);
  }

  lemma MainKeepsActive(s: State, m: MainStep)
    requires Sync(s) && Pool.Phases(s.pool) && ActiveExact(s) && MainEnabled(s, m)
    ensures ActiveExact(MainNext(s, m))
  {
    MainOnlyWakes(s, m, HoldingUnit);
  }

  lemma HandleKeepsAccounted(s: State, w: nat, h: HandlerStep)
    requires Accounted(s) && Enabled(s, Handle(w, h))
    ensures Accounted(HandleStep(s, w, h))
  {
    SumUpdate(s.handlers, w, NextPhase(s.handlers[w], h).value, Unclassified);
  }

  lemma WorkKeepsAccounted(s: State, a: Pool.Action)
    requires Sync(s) && Accounted(s) && WorkEnabled(s, a)
    ensures Accounted(WorkStep(s, a))
  {
    match a
    case Count(w) => SumUpdate(s.handlers, w, Begun(s.pool.workers[w].task), Unclassified);
    case Finish(w, _) => SumUpdate(s.handlers, w, Off, Unclassified);
    case _ =>
  }

  lemma StepKeepsAccounted(s: State, a: Action)
    requires Sync(s) && Accounted(s) && Enabled(s, a)
    ensures Accounted(Step(s, a))
  {
    hide Pool.Step, Pool.Enabled, NextPhase, Tally;
    match a
    case Handle(w, h) => HandleKeepsAccounted(s, w, h);
    case Work(p) => WorkKeepsAccounted(s, p);
    case _ =>
  }

  lemma StepKeepsGauge(s: State, a: Action)
    requires Pool.Inv(s.pool) && Sync(s) && GaugeBounded(s) && Enabled(s, a)
    ensures GaugeBounded(Step(s, a))
  {
    SumBound(s.pool.workers, Pool.ActiveUnit, 1);
  }

  lemma StepKeepsPlaced(s: State, a: Action, c: Conn)
    requires Inv(s) && Enabled(s, a)
    ensures Placed(Step(s, a), c)
  {
    assert Placed(s, c);
    match a
    case RequestStop =>
    case Work(p) => WorkKeepsPlaced(s, p, c);
    case Handle(w, h) => HandleKeepsPlaced(s, w, h, c);
    case OnMain(m) => MainKeepsPlaced(s, m, c);
  }

  lemma StepKeepsSyncAndActive(s: State, a: Action)
    requires Inv(s) && Enabled(s, a)
    ensures Sync(Step(s, a)) && ActiveExact(Step(s, a))
  {
    match a
    case RequestStop =>
    case Work(p) =>
      WorkKeepsSync(s, p);
      WorkKeepsActive(s, p);
    case Handle(w, h) =>
      HandleKeepsSync(s, w, h);
      HandleKeepsActive(s, w, h);
    case OnMain(m) =>
      MainKeepsSync(s, m);
      MainKeepsActive(s, m);
  }

  /** Every step of every thread keeps the whole invariant. */
  lemma StepKeepsInv(s: State, a: Action)
    requires Inv(s) && Enabled(s, a)
    ensures Inv(Step(s, a))
  {
    StepKeepsPool(s, a);
    StepKeepsSyncAndActive(s, a);
    StepKeepsQuieted(s, a);
    StepKeepsAccounted(s, a);
    StepKeepsGauge(s, a);
    forall c ensures Placed(Step(s, a), c) {
      StepKeepsPlaced(s, a, c);
    }
  }

  lemma {:induction false} RunKeepsInv(s: State, acts: seq<Action>, t: State)
    requires Inv(s) && Leads(s, acts, t)
    ensures Inv(t)
    decreases |acts|
  {
    if acts != [] {
      StepKeepsInv(s, acts[0]);
      RunKeepsInv(Step(s, acts[0]), acts[1..], t);
    }
  }

  lemma ReachableInv(s: State)
    requires Reachable(s)
    ensures Inv(s)
  {
    var capacity: nat, threads: nat, acts :| Leads(Init(capacity, threads), acts, s);
    InitInv(capacity, threads);
    RunKeepsInv(Init(capacity, threads), acts, s);
  }
}
