/**
 The connection gauges of the metrics: `active_connections_` and the compare-exchange
 loop that keeps `peak_connections_`, as an interleaved step system in which every
 atomic operation is one step and a weak compare-exchange may fail for no reason.
 */
module PeakGauge {

  const UINT64_RANGE := 0x1_0000_0000_0000_0000

  /** The cast from a signed to an unsigned 64-bit count. */
  function AsUnsigned(x: int): int {
    if x < 0 then x + UINT64_RANGE else x
  }

  /** Where a thread is in `connection_opened`. */
  datatype Opener =
    | Out
    | Added(current: int)                 // after the fetch_add, before the load of the peak
    | Comparing(current: int, seen: int)  // in the loop, `seen` is the local copy of the peak

  datatype State = State(
    active: int,
    peak: int,
    highest: int,           // history: the highest value `active` has had
    openers: seq<Opener>)

  datatype Action =
    | Open(i: nat)
    | Load(i: nat)
    | CompareExchange(i: nat, spurious: bool)
    | Leave(i: nat)
    | Close                 // connection_closed for a connection that was opened
    | StrayClose            // connection_closed with nothing open

  function Init(threads: nat): State {
    State(0, 0, 0, seq(threads, _ => Out))
  }

  ghost predicate Enabled(s: State, a: Action) {
    match a
    case Open(i) => i < |s.openers| && s.openers[i].Out?
    case Load(i) => i < |s.openers| && s.openers[i].Added?
    case CompareExchange(i, _) =>
      i < |s.openers| && s.openers[i].Comparing? && AsUnsigned(s.openers[i].current) > s.openers[i].seen
    case Leave(i) =>
      i < |s.openers| && s.openers[i].Comparing? && AsUnsigned(s.openers[i].current) <= s.openers[i].seen
    case Close => s.active > 0
    case StrayClose => s.active <= 0
  }

  ghost function Step(s: State, a: Action): State
    requires Enabled(s, a)
  {
    match a
    case Open(i) =>
      var n := s.active + 1;
      State(n, s.peak, if n > s.highest then n else s.highest, s.openers[i := Added(n)])
    case Load(i) => s.(openers := s.openers[i := Comparing(s.openers[i].current, s.peak)])
    case CompareExchange(i, spurious) =>
      var Comparing(current, seen) := s.openers[i];
      if s.peak == seen && !spurious
      then s.(peak := AsUnsigned(current), openers := s.openers[i := Out])
      else s.(openers := s.openers[i := Comparing(current, s.peak)])
    case Leave(i) => s.(openers := s.openers[i := Out])
    case Close => s.(active := s.active - 1)
    case StrayClose => s.(active := s.active - 1)
  }

  ghost predicate Leads(s: State, acts: seq<Action>, t: State)
    decreases |acts|
  {
    if acts == [] then s == t
    else Enabled(s, acts[0]) && Leads(Step(s, acts[0]), acts[1..], t)
  }

  /** Every close pairs with an earlier open. */
  ghost predicate Paired(acts: seq<Action>) {
    forall i :: 0 <= i < |acts| ==> !acts[i].StrayClose?
  }

  ghost predicate NobodyOpening(s: State) {
    forall i :: 0 <= i < |s.openers| ==> s.openers[i].Out?
  }

  ghost predicate Sound(o: Opener, s: State) {
    match o
    case Out => true
    case Added(current) => 1 <= current <= s.highest
    case Comparing(current, seen) => 1 <= current <= s.highest && 0 <= seen <= s.peak
  }

  ghost predicate Claims(o: Opener, value: int) {
    !o.Out? && o.current == value
  }

  /** The peak lags behind the highest value only while an opener is still carrying that value. */
  ghost predicate Inv(s: State) {
    && 0 <= s.active <= s.highest
    && 0 <= s.peak <= s.highest
    && (forall i :: 0 <= i < |s.openers| ==> Sound(s.openers[i], s))
    && (s.peak == s.highest || exists i :: 0 <= i < |s.openers| && Claims(s.openers[i], s.highest))
  }

  lemma StepKeepsInv(s: State, a: Action)
    requires Inv(s) && Enabled(s, a) && !a.StrayClose?
    ensures Inv(Step(s, a)) && s.peak <= Step(s, a).peak && s.highest <= Step(s, a).highest
  {
    var s' := Step(s, a);
    if s.peak != s.highest {
      var k :| 0 <= k < |s.openers| && Claims(s.openers[k], s.highest);
      assert Claims(s'.openers[k], s.highest) || s'.peak == s.highest;
    }
    if a.Open? {
      assert Claims(s'.openers[a.i], s'.active);
    }
  }

  lemma {:induction false} RunKeepsInv(s: State, acts: seq<Action>, t: State)
    requires Inv(s) && Leads(s, acts, t) && Paired(acts)
    ensures Inv(t) && s.peak <= t.peak
    decreases |acts|
  {
    if acts != [] {
      assert !acts[0].StrayClose?;
      StepKeepsInv(s, acts[0]);
      RunKeepsInv(Step(s, acts[0]), acts[1..], t);
    }
  }

  /**
   In every interleaving of openers and closers the peak never exceeds the highest value the
   gauge has had, equals it whenever no opener is under way, and never goes down afterwards.
   */
  lemma PeakIsHighest(threads: nat, acts: seq<Action>, s: State, more: seq<Action>, t: State)
    requires Leads(Init(threads), acts, s) && Paired(acts)
    requires Leads(s, more, t) && Paired(more)
    ensures 0 <= s.active <= s.highest
    ensures s.peak <= s.highest
    ensures NobodyOpening(s) ==> s.peak == s.highest
    ensures s.peak <= t.peak
  {
    RunKeepsInv(Init(threads), acts, s);
    RunKeepsInv(s, more, t);
  }

  ghost predicate Opens(a: Action) {
    a.Open?
  }

  ghost predicate Closes(a: Action) {
    a.Close? || a.StrayClose?
  }

  ghost function Count(acts: seq<Action>, event: Action -> bool): nat
    decreases |acts|
  {
    if acts == [] then 0 else (if event(acts[0]) then 1 else 0) + Count(acts[1..], event)
  }

  /** The gauge has the value `v` in some state of the run. */
  ghost predicate HadActive(s: State, acts: seq<Action>, v: int)
    decreases |acts|
  {
    s.active == v || (acts != [] && Enabled(s, acts[0]) && HadActive(Step(s, acts[0]), acts[1..], v))
  }

  lemma {:induction false} GaugeCounts(s: State, acts: seq<Action>, t: State)
    requires Leads(s, acts, t) && s.active <= s.highest
    ensures t.active == s.active + Count(acts, Opens) - Count(acts, Closes)
    ensures t.highest == s.highest || HadActive(s, acts, t.highest)
    ensures forall v :: HadActive(s, acts, v) ==> v <= t.highest
    decreases |acts|
  {
    if acts != [] {
      GaugeCounts(Step(s, acts[0]), acts[1..], t);
    }
    HighestGrows(s, acts, t);
  }

  lemma {:induction false} HighestGrows(s: State, acts: seq<Action>, t: State)
    requires Leads(s, acts, t)
    ensures s.highest <= t.highest
    decreases |acts|
  {
    if acts != [] {
      HighestGrows(Step(s, acts[0]), acts[1..], t);
    }
  }

  /**
   In every run, paired or not, the gauge is opens minus closes, and the history variable the peak is
   compared with is the maximum of the gauge over the run.
   */
  lemma GaugeIsOpensMinusCloses(threads: nat, acts: seq<Action>, s: State)
    requires Leads(Init(threads), acts, s)
    ensures s.active == Count(acts, Opens) - Count(acts, Closes)
    ensures HadActive(Init(threads), acts, s.highest)
    ensures forall v :: HadActive(Init(threads), acts, v) ==> v <= s.highest
  {
    GaugeCounts(Init(threads), acts, s);
  }

  /** A retry forced by another thread strictly narrows the gap, so the loop ends. */
  lemma RetryNarrows(threads: nat, acts: seq<Action>, s: State, i: nat, spurious: bool)
    requires Leads(Init(threads), acts, s) && Paired(acts)
    requires Enabled(s, CompareExchange(i, spurious)) && s.peak != s.openers[i].seen
    ensures var o := Step(s, CompareExchange(i, spurious)).openers[i];
            && o.Comparing? && o.current == s.openers[i].current
            && s.openers[i].seen < o.seen
  {
    RunKeepsInv(Init(threads), acts, s);
    assert Sound(s.openers[i], s);
  }

  /** A compare-exchange that fails for no reason leaves everything as it was. */
  lemma SpuriousFailureHarmless(s: State, i: nat)
    requires i < |s.openers| && s.openers[i].Comparing? && AsUnsigned(s.openers[i].current) > s.openers[i].seen == s.peak
    ensures Enabled(s, CompareExchange(i, true)) && Step(s, CompareExchange(i, true)) == s
  {
    assert s.openers[i := Comparing(s.openers[i].current, s.peak)] == s.openers;
  }

  /** A whole call of `connection_opened` with no other thread in between. */
  ghost function OpenAlone(s: State, i: nat): State
    requires Enabled(s, Open(i))
  {
    var s' := Step(Step(s, Open(i)), Load(i));
    if Enabled(s', Leave(i)) then Step(s', Leave(i)) else Step(s', CompareExchange(i, false))
  }

  /** One undisturbed call keeps the peak right exactly when the gauge was not below -1 before it. */
  lemma OpenAloneExact(s: State, i: nat)
    requires Enabled(s, Open(i)) && 0 <= s.peak == s.highest < UINT64_RANGE / 2
    requires -(UINT64_RANGE / 2) <= s.active <= s.highest
    ensures OpenAlone(s, i).peak == OpenAlone(s, i).highest <==> s.active >= -1
  {
    var s' := Step(Step(s, Open(i)), Load(i));
    assert s'.openers[i] == Comparing(s.active + 1, s.peak);
  }

  /** Without pairing the cast of a negative count poisons the peak. */
  lemma StrayClosePoisonsPeak() returns (acts: seq<Action>, s: State)
    ensures Leads(Init(1), acts, s) && !Paired(acts)
    ensures NobodyOpening(s) && s.peak > s.highest
  {
    var s0 := Init(1);
    var s1 := Step(s0, StrayClose);
    var s2 := Step(s1, StrayClose);
    var s3 := Step(s2, Open(0));
    var s4 := Step(s3, Load(0));
    s := Step(s4, CompareExchange(0, false));
    acts := [StrayClose, StrayClose, Open(0), Load(0), CompareExchange(0, false)];
    assert acts[0].StrayClose?;
    assert acts[1..] == [StrayClose, Open(0), Load(0), CompareExchange(0, false)];
    assert acts[1..][1..] == [Open(0), Load(0), CompareExchange(0, false)];
    assert acts[1..][1..][1..] == [Load(0), CompareExchange(0, false)];
    assert acts[1..][1..][1..][1..] == [CompareExchange(0, false)];
    assert Leads(s4, [CompareExchange(0, false)], s);
    assert Leads(s3, acts[1..][1..][1..], s);
    assert Leads(s2, acts[1..][1..], s);
    assert Leads(s1, acts[1..], s);
  }
}
