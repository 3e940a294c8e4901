/**
 The lock-free progress meter: any number of threads start and finish objects by atomic steps on a shared
 gauge, in any interleaving, with compare-exchange failing whenever it likes.
*/
module MeterModel {
  import opened Machine

  /** An object's call as far as it has come; `Loaded` holds the gauge value its finisher last saw. */
  datatype Pc =
    | Started
    | Loaded(current: nat)
    | Dropped(viaZero: bool)
    | Finished(viaZero: bool)

  /** `stray` marks a finish that no start came before. */
  datatype Call = Call(stray: bool, pc: Pc)

  /** The shared counters and every call made so far, by a number of its own. */
  datatype State = State(inFlight: nat, objectsDone: nat, calls: map<nat, Call>)

  const INITIAL := State(0, 0, map[])

  datatype Step =
    | Start(call: nat)               // object_started: fetch_add on the gauge
    | BeginStray(call: nat)          // object_finished called with no start: its first load
    | Load(call: nat)                // object_finished: its first load
    | ExchangeOk(call: nat)          // compare_exchange_weak finds the gauge as loaded and stores one less
    | ExchangeFails(call: nat)       // it fails, spuriously or not, and returns the gauge as it is
    | LeaveAtZero(call: nat)         // the loop ends on a zero gauge
    | CountDone(call: nat)           // fetch_add on the done counter

  predicate Enabled(s: State, step: Step) {
    match step
    case Start(c) => c !in s.calls
    case BeginStray(c) => c !in s.calls
    case Load(c) => c in s.calls && s.calls[c].pc == Started
    case ExchangeOk(c) => c in s.calls && s.calls[c].pc.Loaded? && s.calls[c].pc.current > 0 && s.calls[c].pc.current == s.inFlight
    case ExchangeFails(c) => c in s.calls && s.calls[c].pc.Loaded? && s.calls[c].pc.current > 0
    case LeaveAtZero(c) => c in s.calls && s.calls[c].pc == Loaded(0)
    case CountDone(c) => c in s.calls && s.calls[c].pc.Dropped?
  }

  function At(s: State, c: nat, pc: Pc): map<nat, Call>
    requires c in s.calls
  {
    s.calls[c := s.calls[c].(pc := pc)]
  }

  /** Atomics wrap at 2^64; subtraction never happens below one. */
  function Next(s: State, step: Step): State
    requires Enabled(s, step)
  {
    match step
    case Start(c) => s.(inFlight := (s.inFlight + 1) % (U64_MAX + 1), calls := s.calls[c := Call(false, Started)])
    case BeginStray(c) => s.(calls := s.calls[c := Call(true, Loaded(s.inFlight))])
    case Load(c) => s.(calls := At(s, c, Loaded(s.inFlight)))
    case ExchangeOk(c) => s.(inFlight := s.inFlight - 1, calls := At(s, c, Dropped(false)))
    case ExchangeFails(c) => s.(calls := At(s, c, Loaded(s.inFlight)))
    case LeaveAtZero(c) => s.(calls := At(s, c, Dropped(true)))
    case CountDone(c) => s.(objectsDone := (s.objectsDone + 1) % (U64_MAX + 1), calls := At(s, c, Finished(s.calls[c].pc.viaZero)))
  }

  /** `s` is reached by taking the steps in order from the initial state. */
  ghost predicate Reaches(steps: seq<Step>, s: State) {
    if steps == [] then s == INITIAL
    else
      var earlier, last := steps[..|steps| - 1], steps[|steps| - 1];
      exists before :: Reaches(earlier, before) && Moves(before, last, s)
  }

  predicate Moves(s: State, step: Step, t: State) {
    Enabled(s, step) && t == Next(s, step)
  }

  // ----- counting calls -----

  function CallsWith(calls: map<nat, Call>, p: Call -> bool): set<nat> {
    set c | c in calls && p(calls[c])
  }

  function CountWith(calls: map<nat, Call>, p: Call -> bool): nat {
    |CallsWith(calls, p)|
  }

  function WasStarted(call: Call): bool { !call.stray }

  /** Has taken one off the gauge. */
  function HasDecremented(call: Call): bool { call.pc == Dropped(false) || call.pc == Finished(false) }

  function IsCounted(call: Call): bool { call.pc.Finished? }

  /** Started and not yet taken off the gauge. */
  function IsOpen(call: Call): bool { !call.stray && (call.pc == Started || call.pc.Loaded?) }

  /** The gauge is the starts less the decrements, the done counter is the completed finishes; nothing has wrapped. */
  ghost predicate Balanced(s: State) {
    && s.inFlight + CountWith(s.calls, HasDecremented) == CountWith(s.calls, WasStarted)
    && s.objectsDone == CountWith(s.calls, IsCounted)
  }

  /** Fewer than 2^64 calls in all. */
  ghost predicate Bounded(s: State) { |s.calls| <= U64_MAX }

  lemma SubsetSize(a: set<nat>, b: set<nat>)
    requires a <= b
    ensures |a| <= |b|
  {
    assert |b| == |a| + |b - a| by { assert b == a + (b - a); }
  }

  lemma CountBound(calls: map<nat, Call>, p: Call -> bool)
    ensures CountWith(calls, p) <= |calls|
  {
    assert |calls| == |calls.Keys|;
    SubsetSize(CallsWith(calls, p), calls.Keys);
  }

  /** Changing one call changes a count by that call alone. */
  lemma CountUpdate(calls: map<nat, Call>, c: nat, call: Call, p: Call -> bool)
    ensures CountWith(calls[c := call], p)
            == CountWith(calls, p) + (if p(call) then 1 else 0) - (if c in calls && p(calls[c]) then 1 else 0)
  {
    var before, after := CallsWith(calls, p), CallsWith(calls[c := call], p);
    assert after == if p(call) then before + {c} else before - {c};
  }

  /** Every step rewrites the record of its own call and no other. */
  lemma StepRewritesOneCall(s: State, step: Step)
    requires Enabled(s, step)
    ensures step.call in Next(s, step).calls && Next(s, step).calls == s.calls[step.call := Next(s, step).calls[step.call]]
  {
  }

  lemma StepCounts(s: State, step: Step, p: Call -> bool)
    requires Enabled(s, step)
    ensures step.call in Next(s, step).calls
    ensures CountWith(Next(s, step).calls, p)
            == CountWith(s.calls, p) + (if p(Next(s, step).calls[step.call]) then 1 else 0)
               - (if step.call in s.calls && p(s.calls[step.call]) then 1 else 0)
  {
    StepRewritesOneCall(s, step);
    CountUpdate(s.calls, step.call, Next(s, step).calls[step.call], p);
  }

  lemma StepKeepsBalance(s: State, step: Step)
    requires Enabled(s, step) && Balanced(s) && Bounded(Next(s, step))
    ensures Balanced(Next(s, step))
  {
    StepCounts(s, step, HasDecremented);
    StepCounts(s, step, WasStarted);
    StepCounts(s, step, IsCounted);
    CountBound(Next(s, step).calls, WasStarted);
    CountBound(Next(s, step).calls, IsCounted);
  }

  lemma StepGrowsCalls(s: State, step: Step)
    requires Enabled(s, step)
    ensures |s.calls| <= |Next(s, step).calls|
  {
    assert |s.calls| == |s.calls.Keys| && |Next(s, step).calls| == |Next(s, step).calls.Keys|;
    SubsetSize(s.calls.Keys, Next(s, step).calls.Keys);
  }

  /**
   Under every interleaving, stray finishes included, the gauge never wraps: it is always the number of
   starts less the number of decrements.
  */
  lemma {:induction false} GaugeNeverWraps(steps: seq<Step>, s: State)
    requires Reaches(steps, s) && Bounded(s)
    ensures Balanced(s)
  {
    if steps == [] {
      assert CallsWith(s.calls, HasDecremented) == {} && CallsWith(s.calls, WasStarted) == {} && CallsWith(s.calls, IsCounted) == {};
    } else {
      var last := steps[|steps| - 1];
      var before :| Reaches(steps[..|steps| - 1], before) && Moves(before, last, s);
      StepGrowsCalls(before, last);
      GaugeNeverWraps(steps[..|steps| - 1], before);
      StepKeepsBalance(before, last);
    }
  }

  // ----- strays, and the calls they rob -----

  /** A stray finish that took one off the gauge. */
  function IsRobber(call: Call): bool { call.stray && HasDecremented(call) }

  /** A started call whose finisher has left without taking its one off. */
  function LeftAtZero(call: Call): bool { !call.stray && (call.pc == Dropped(true) || call.pc == Finished(true)) }

  /** A started call whose finisher has seen a zero gauge, and so will leave there or has. */
  function SawZero(call: Call): bool { LeftAtZero(call) || (!call.stray && call.pc == Loaded(0)) }

  /** The gauge and the robbers account for every started call; no more calls saw zero than there are robbers. */
  ghost predicate Accounted(s: State) {
    && s.inFlight + CountWith(s.calls, IsRobber) == CountWith(s.calls, IsOpen) + CountWith(s.calls, LeftAtZero)
    && CountWith(s.calls, SawZero) <= CountWith(s.calls, IsRobber)
  }

  lemma SawZeroBound(calls: map<nat, Call>)
    ensures CountWith(calls, LeftAtZero) <= CountWith(calls, SawZero) <= CountWith(calls, IsOpen) + CountWith(calls, LeftAtZero)
  {
    var open, left := CallsWith(calls, IsOpen), CallsWith(calls, LeftAtZero);
    SubsetSize(left, CallsWith(calls, SawZero));
    SubsetSize(CallsWith(calls, SawZero), open + left);
  }

  lemma OpenBound(calls: map<nat, Call>)
    ensures CountWith(calls, IsOpen) + CountWith(calls, LeftAtZero) <= |calls|
  {
    var open, left := CallsWith(calls, IsOpen), CallsWith(calls, LeftAtZero);
    assert open !! left && |calls| == |calls.Keys|;
    SubsetSize(open + left, calls.Keys);
  }

  lemma StepKeepsAccounts(s: State, step: Step)
    requires Enabled(s, step) && Accounted(s) && Bounded(Next(s, step))
    ensures Accounted(Next(s, step))
  {
    StepCounts(s, step, IsRobber);
    StepCounts(s, step, IsOpen);
    StepCounts(s, step, LeftAtZero);
    StepCounts(s, step, SawZero);
    OpenBound(Next(s, step).calls);
    SawZeroBound(Next(s, step).calls);
  }

  /** In every reachable state, strays or not, every started call and every robber is accounted for. */
  lemma {:induction false} RunsKeepAccounts(steps: seq<Step>, s: State)
    requires Reaches(steps, s) && Bounded(s)
    ensures Accounted(s)
  {
    if steps == [] {
      assert CallsWith(s.calls, IsRobber) == {} && CallsWith(s.calls, IsOpen) == {};
      assert CallsWith(s.calls, LeftAtZero) == {} && CallsWith(s.calls, SawZero) == {};
    } else {
      var last := steps[|steps| - 1];
      var before :| Reaches(steps[..|steps| - 1], before) && Moves(before, last, s);
      StepGrowsCalls(before, last);
      RunsKeepAccounts(steps[..|steps| - 1], before);
      StepKeepsAccounts(before, last);
    }
  }

  ghost predicate NoRobbers(s: State) {
    forall c :: c in s.calls ==> !IsRobber(s.calls[c])
  }

  /** The gauge counts the open calls, and no started call has seen or left at zero. */
  ghost predicate Disciplined(s: State) {
    && s.inFlight == CountWith(s.calls, IsOpen)
    && (forall c :: c in s.calls && !s.calls[c].stray && s.calls[c].pc.Loaded? ==> s.calls[c].pc.current > 0)
    && (forall c :: c in s.calls && !s.calls[c].stray && (s.calls[c].pc.Dropped? || s.calls[c].pc.Finished?) ==> !s.calls[c].pc.viaZero)
  }

  lemma CountedOnce(calls: map<nat, Call>, c: nat, p: Call -> bool)
    requires c in calls && p(calls[c])
    ensures CountWith(calls, p) > 0
  {
    SubsetSize({c}, CallsWith(calls, p));
  }

  /**
   Under every interleaving and every spurious failure: as long as no stray finish has taken anything off the
   gauge, as when every finish follows its own start, no started call has left at zero and the gauge is exactly the
   number of starts not yet taken off.
  */
  lemma NoFinisherLeavesAtZero(steps: seq<Step>, s: State)
    requires Reaches(steps, s) && NoRobbers(s) && Bounded(s)
    ensures Disciplined(s)
  {
    RunsKeepAccounts(steps, s);
    SawZeroBound(s.calls);
    assert CallsWith(s.calls, IsRobber) == {};
    forall c | c in s.calls ensures !SawZero(s.calls[c]) {
      if SawZero(s.calls[c]) { CountedOnce(s.calls, c, SawZero); }
    }
  }

  ghost predicate Quiescent(s: State) {
    forall c :: c in s.calls ==> s.calls[c].pc.Finished?
  }

  /** Once every call has finished, strays or not, the gauge is zero and the done counter is the number of finishes. */
  lemma QuiescentMeterIsExact(steps: seq<Step>, s: State)
    requires Reaches(steps, s) && Bounded(s) && Quiescent(s)
    ensures s.inFlight == 0 && s.objectsDone == |s.calls|
  {
    RunsKeepAccounts(steps, s);
    SawZeroBound(s.calls);
    GaugeNeverWraps(steps, s);
    assert CallsWith(s.calls, IsOpen) == {};
    assert CallsWith(s.calls, IsCounted) == s.calls.Keys;
  }

  /**
   At rest as many started calls have left at zero as strays have taken something off: each robber has robbed
   one call. So some started call left at zero exactly when some stray took something off.
  */
  lemma QuiescentWithStrays(steps: seq<Step>, s: State)
    requires Reaches(steps, s) && Bounded(s) && Quiescent(s)
    ensures CountWith(s.calls, LeftAtZero) == CountWith(s.calls, IsRobber)
    ensures (exists c :: c in s.calls && LeftAtZero(s.calls[c])) <==> !NoRobbers(s)
    ensures CountWith(s.calls, WasStarted) == CountWith(s.calls, HasDecremented)
  {
    RunsKeepAccounts(steps, s);
    SawZeroBound(s.calls);
    GaugeNeverWraps(steps, s);
    QuiescentMeterIsExact(steps, s);
    SomeCounted(s.calls, LeftAtZero);
    SomeCounted(s.calls, IsRobber);
  }

  lemma SomeCounted(calls: map<nat, Call>, p: Call -> bool)
    ensures CountWith(calls, p) > 0 <==> exists c :: c in calls && p(calls[c])
  {
    if c :| c in calls && p(calls[c]) { CountedOnce(calls, c, p); }
    if CallsWith(calls, p) != {} { var c :| c in CallsWith(calls, p); }
  }

  function Pair(started: Pc, stray: Pc): map<nat, Call> {
    map[0 := Call(false, started), 1 := Call(true, stray)]
  }

  /** One stray finish can take the place of a started object's own, which then leaves at zero. */
  lemma StrayCanRobAStart() returns (steps: seq<Step>, s: State)
    ensures Reaches(steps, s) && Quiescent(s)
    ensures s == State(0, 2, Pair(Finished(true), Finished(false)))
  {
    steps := StrayTakesTheStart();
    steps := StartSeesZero(steps);
    steps, s := StartIsCounted(steps);
  }

  lemma StartIsCounted(before: seq<Step>) returns (steps: seq<Step>, s: State)
    requires Reaches(before, State(0, 1, Pair(Dropped(true), Finished(false))))
    ensures Reaches(steps, s) && s == State(0, 2, Pair(Finished(true), Finished(false)))
  {
    s := State(0, 2, Pair(Finished(true), Finished(false)));
    steps := Take(before, State(0, 1, Pair(Dropped(true), Finished(false))), CountDone(0), s);
  }

  lemma StartSeesZero(before: seq<Step>) returns (steps: seq<Step>)
    requires Reaches(before, State(0, 1, Pair(Started, Finished(false))))
    ensures Reaches(steps, State(0, 1, Pair(Dropped(true), Finished(false))))
  {
    steps := Take(before, State(0, 1, Pair(Started, Finished(false))), Load(0), State(0, 1, Pair(Loaded(0), Finished(false))));
    steps := Take(steps, State(0, 1, Pair(Loaded(0), Finished(false))), LeaveAtZero(0), State(0, 1, Pair(Dropped(true), Finished(false))));
  }

  lemma StrayTakesTheStart() returns (steps: seq<Step>)
    ensures Reaches(steps, State(0, 1, Pair(Started, Finished(false))))
  {
    steps := Take([], INITIAL, Start(0), State(1, 0, map[0 := Call(false, Started)]));
    steps := Take(steps, State(1, 0, map[0 := Call(false, Started)]), BeginStray(1), State(1, 0, Pair(Started, Loaded(1))));
    steps := Take(steps, State(1, 0, Pair(Started, Loaded(1))), ExchangeOk(1), State(0, 0, Pair(Started, Dropped(false))));
    steps := Take(steps, State(0, 0, Pair(Started, Dropped(false))), CountDone(1), State(0, 1, Pair(Started, Finished(false))));
  }

  lemma Take(steps: seq<Step>, s: State, step: Step, t: State) returns (longer: seq<Step>)
    requires Reaches(steps, s) && Moves(s, step, t)
    ensures longer == steps + [step] && Reaches(longer, t)
  {
    longer := steps + [step];
    assert longer[..|longer| - 1] == steps;
  }

  // ----- progress -----

  /** An exchange that fails although the gauge is as it was loaded. */
  predicate Spurious(s: State, step: Step) {
    step.ExchangeFails? && step.call in s.calls && s.calls[step.call].pc == Loaded(s.inFlight)
  }

  /** Steps a call needs at most when it runs alone: a stale load costs one failed exchange, which loads the gauge again. */
  function StepsLeft(s: State, c: nat): nat
    requires c in s.calls
  {
    match s.calls[c].pc
    case Started => 3
    case Loaded(current) => if current == 0 || current == s.inFlight then 2 else 3
    case Dropped(_) => 1
    case Finished(_) => 0
  }

  /** Only unfinished calls have steps of their own, and each one that does not fail spuriously brings the call nearer its end. */
  lemma StepMakesProgress(s: State, step: Step)
    requires step.call in s.calls && Enabled(s, step) && !Spurious(s, step)
    ensures step.call in Next(s, step).calls && StepsLeft(Next(s, step), step.call) < StepsLeft(s, step.call)
  {
  }

  lemma NeverStuck(s: State, c: nat) returns (step: Step)
    requires c in s.calls && !s.calls[c].pc.Finished?
    ensures step.call == c && Enabled(s, step) && !Spurious(s, step)
  {
    match s.calls[c].pc
    case Started => step := Load(c);
    case Loaded(current) =>
      step := if current == 0 then LeaveAtZero(c) else if current == s.inFlight then ExchangeOk(c) else ExchangeFails(c);
    case Dropped(_) => step := CountDone(c);
  }

  /** A call runs by itself from one state to another, no exchange failing spuriously. */
  ghost predicate RunsAlone(s: State, c: nat, steps: seq<Step>, t: State)
    decreases |steps|
  {
    if steps == [] then s == t
    else steps[0].call == c && Enabled(s, steps[0]) && !Spurious(s, steps[0]) && RunsAlone(Next(s, steps[0]), c, steps[1..], t)
  }

  /** Alone, a call takes at most three steps, and cannot take one more only once it has finished. */
  lemma {:induction false} AloneIsBounded(s: State, c: nat, steps: seq<Step>, t: State)
    requires c in s.calls && RunsAlone(s, c, steps, t)
    ensures c in t.calls && |steps| + StepsLeft(t, c) <= StepsLeft(s, c) <= 3
    ensures StepsLeft(t, c) == 0 <==> t.calls[c].pc.Finished?
    decreases |steps|
  {
    if steps != [] {
      StepMakesProgress(s, steps[0]);
      AloneIsBounded(Next(s, steps[0]), c, steps[1..], t);
    }
  }

  /** From every state at all, every unfinished call finishes within three steps of its own when it runs alone. */
  lemma {:induction false} FinishesAlone(s: State, c: nat) returns (steps: seq<Step>, t: State)
    requires c in s.calls
    ensures RunsAlone(s, c, steps, t) && |steps| <= 3 && c in t.calls && t.calls[c].pc.Finished?
    decreases StepsLeft(s, c)
  {
    if s.calls[c].pc.Finished? {
      steps, t := [], s;
    } else {
      var step := NeverStuck(s, c);
      StepMakesProgress(s, step);
      var rest;
      rest, t := FinishesAlone(Next(s, step), c);
      steps := [step] + rest;
      assert steps[1..] == rest;
      AloneIsBounded(s, c, steps, t);
    }
  }
}
