/** The pulse scheduler: chains one `run` per pair of consecutive pulses, applying
    each pulse's override first, stitching the traces, and carrying the last row
    of every sub-run into the compositors' current values. */
module PulseScheduler {
  import opened Outcomes
  import opened Records
  import opened Compositors
  import opened BioSystems
  import opened RateFolding
  import opened Simulation

  /** Python's `m[2:]`: everything after the first two entries (empty if there are fewer). */
  function Drop2<T>(m: seq<T>): (r: seq<T>)
    ensures |m| >= 2 ==> |r| == |m| - 2 && forall k :: 0 <= k < |r| ==> r[k] == m[k + 2]
    ensures |m| < 2 ==> r == []
  {
    if |m| < 2 then [] else m[2..]
  }

  /** Number of sub-runs for a pulse list: one per consecutive pair. */
  function SubRuns(pulses: seq<Pulse>): nat {
    if |pulses| >= 1 then |pulses| - 1 else 0
  }

  /** Sub-run `i` starts at 0 for the first one and at pulse `i`'s time afterwards. */
  function Start(pulses: seq<Pulse>, i: nat): real
    requires i == 0 || i < |pulses|
  {
    if i == 0 then 0.0 else pulses[i].time
  }

  function Length(pulses: seq<Pulse>, i: nat): real
    requires i + 1 < |pulses|
  {
    pulses[i + 1].time - pulses[i].time
  }

  /** The time grid of sub-run `i`. */
  function SubRunTimes(pulses: seq<Pulse>, i: nat): (t: seq<real>)
    requires i + 1 < |pulses|
    ensures |t| == SampleCount(Length(pulses, i))
  {
    Linspace(Start(pulses, i), Start(pulses, i) + Length(pulses, i), SampleCount(Length(pulses, i)))
  }

  /** Sub-run `i` covers a span as long as the gap between pulses `i` and `i + 1`,
      from 0 for the first sub-run and from pulse `i`'s time afterwards, so every
      later sub-run ends at the next pulse's time. */
  lemma SubRunSpan(pulses: seq<Pulse>, i: nat)
    requires i + 1 < |pulses|
    ensures var t := SubRunTimes(pulses, i);
      && t[0] == Start(pulses, i) && t[|t| - 1] - t[0] == pulses[i + 1].time - pulses[i].time
      && (i > 0 ==> t[|t| - 1] == pulses[i + 1].time)
  {
  }

  /** Rows the first `m` sub-runs contribute once their first two rows are dropped. */
  function StitchedCount(pulses: seq<Pulse>, m: nat): nat
    requires m <= SubRuns(pulses)
  {
    if m == 0 then 0 else StitchedCount(pulses, m - 1) + SampleCount(Length(pulses, m - 1)) - 2
  }

  /** The global clock of the first `m` sub-runs, each without its first two points. */
  function StitchedTimes(pulses: seq<Pulse>, m: nat): (t: seq<real>)
    requires m <= SubRuns(pulses)
    ensures |t| == StitchedCount(pulses, m)
  {
    if m == 0 then [] else StitchedTimes(pulses, m - 1) + Drop2(SubRunTimes(pulses, m - 1))
  }

  datatype PulseOutcome =
    | Done(sys: BioSystem, times: seq<real>, rows: seq<seq<real>>)
      /** Pulse `pulse` named a compositor the system does not have; `sys` is the
          state left behind at that point. */
    | Aborted(sys: BioSystem, pulse: nat)
      /** The integration of sub-run `pulse` failed for want of a rate function;
          `sys` is the state with that pulse applied. */
    | Failed(sys: BioSystem, pulse: nat)

  /** Pulse `p` overrides the compositor at position `j`. */
  ghost predicate Overrides(s: BioSystem, p: Pulse, j: nat)
    requires Valid(s)
  {
    p.compositorName != "" && CompositorIndex(s, p.compositorName) == Some(j)
  }

  /** Pulse `p` can be applied: it names nothing or a known compositor. */
  ghost predicate Applicable(s: BioSystem, p: Pulse)
    requires Valid(s)
  {
    p.compositorName == "" || CompositorIndex(s, p.compositorName).Some?
  }

  /** `a` is `b` except possibly for the compositors' current values. */
  ghost predicate SameExceptValues(a: BioSystem, b: BioSystem) {
    && |a.compositors| == |b.compositors|
    && a.(compositors := b.compositors) == b
    && forall j :: 0 <= j < |a.compositors| ==> a.compositors[j] == b.compositors[j].(value := a.compositors[j].value)
  }

  function Last<T>(m: seq<T>): T
    requires |m| > 0
  {
    m[|m| - 1]
  }

  /** The state a sub-run builds on: the system as given for the first, the
      system with its rates determined afterwards. */
  ghost function Base(s: BioSystem, i: nat): BioSystem
    requires PartsWellFormed(s.parts)
  {
    if i == 0 then s else DetermineRates(s)
  }

  /** Values fold, whatever the current values are. */
  lemma DetermineRatesIgnoresValues(a: BioSystem, b: BioSystem)
    requires SameExceptValues(a, b) && PartsWellFormed(b.parts)
    ensures PartsWellFormed(a.parts)
    ensures SameExceptValues(DetermineRates(a), DetermineRates(b))
  {
    var da, db := DetermineRates(a), DetermineRates(b);
    forall j | 0 <= j < |a.compositors|
      ensures da.compositors[j] == db.compositors[j].(value := da.compositors[j].value)
    {
    }
  }

  /** Sets the current value of compositor `j`. */
  function SetValue(s: BioSystem, j: nat, v: real): (r: BioSystem)
    requires j < |s.compositors|
    ensures |r.compositors| == |s.compositors| && r.compositors[j].value == v
    ensures forall k :: 0 <= k < |s.compositors| && k != j ==> r.compositors[k] == s.compositors[k]
    ensures SameExceptValues(r, s)
    ensures Valid(s) ==> Valid(r)
  {
    var cs := s.compositors[j := s.compositors[j].(value := v)];
    assert CompositorNames(cs) == CompositorNames(s.compositors);
    s.(compositors := cs)
  }

  /** Sets every compositor's current value from one row of a trace. */
  function WithValues(s: BioSystem, row: seq<real>): (r: BioSystem)
    requires |row| == |s.compositors|
    ensures |r.compositors| == |s.compositors|
    ensures forall j :: 0 <= j < |row| ==> r.compositors[j].value == row[j]
    ensures SameExceptValues(r, s)
    ensures Valid(s) ==> Valid(r)
  {
    var cs := seq(|row|, j requires 0 <= j < |row| => s.compositors[j].(value := row[j]));
    assert CompositorNames(cs) == CompositorNames(s.compositors);
    s.(compositors := cs)
  }

  lemma SameExceptValuesTrans(a: BioSystem, b: BioSystem, c: BioSystem)
    requires SameExceptValues(a, b) && SameExceptValues(b, c)
    ensures SameExceptValues(a, c)
  {
  }

  lemma SameExceptValuesValid(a: BioSystem, b: BioSystem)
    requires SameExceptValues(a, b) && Valid(b)
    ensures Valid(a)
    ensures forall n :: CompositorIndex(a, n) == CompositorIndex(b, n)
  {
    assert CompositorNames(a.compositors) == CompositorNames(b.compositors);
  }

  lemma ResetIgnoresValues(a: BioSystem, b: BioSystem)
    requires SameExceptValues(a, b)
    ensures ResetStateVariables(a) == ResetStateVariables(b)
  {
    var ra, rb := ResetStateVariables(a), ResetStateVariables(b);
    assert ra.compositors == rb.compositors;
  }

  lemma BaseFacts(s: BioSystem, i: nat)
    requires Valid(s) && PartsWellFormed(s.parts)
    ensures Valid(Base(s, i)) && Base(s, i).mapCompositors == s.mapCompositors && Base(s, i).parts == s.parts
    ensures |Base(s, i).compositors| == |s.compositors|
    ensures DetermineRates(Base(s, i)) == Base(s, i + 1)
    ensures Runnable(Base(s, i)) <==> Runnable(s)
  {
  }

  /** Whether a system runs does not depend on its current values. */
  lemma RunnableIgnoresValues(a: BioSystem, b: BioSystem)
    requires SameExceptValues(a, b) && PartsWellFormed(b.parts)
    ensures PartsWellFormed(a.parts)
    ensures Runnable(a) <==> Runnable(b)
  {
    DetermineRatesIgnoresValues(a, b);
    var da, db := DetermineRates(a).compositors, DetermineRates(b).compositors;
    assert forall j :: 0 <= j < |da| ==> da[j].compiled == db[j].compiled;
  }

  /** The pulse applied before a sub-run: the named compositor takes the pulse's value. */
  function ApplyPulse(cur: BioSystem, p: Pulse): (r: BioSystem)
    requires Valid(cur) && Applicable(cur, p)
    ensures SameExceptValues(r, cur) && Valid(r) && r.mapCompositors == cur.mapCompositors
    ensures forall j :: 0 <= j < |cur.compositors| ==>
      r.compositors[j].value == (if Overrides(cur, p, j) then p.value else cur.compositors[j].value)
  {
    if p.compositorName == "" then cur else SetValue(cur, CompositorIndex(cur, p.compositorName).value, p.value)
  }

  /** The override step of `run_pulses`: a pulse with a compositor name sets that
      compositor's current value; a name the system does not know is an error. */
  function TryApplyPulse(cur: BioSystem, p: Pulse): (r: Result<BioSystem, LookupError>)
    requires Valid(cur)
    ensures r.Success? <==> Applicable(cur, p)
    ensures r.Failure? ==> r.error == UnknownName(p.compositorName)
    ensures r.Success? ==> r.value == ApplyPulse(cur, p)
  {
    if p.compositorName == "" then Success(cur)
    else
      match CompositorIndex(cur, p.compositorName)
      case None => Failure(UnknownName(p.compositorName))
      case Some(j) => Success(SetValue(cur, j, p.value))
  }

  /** Pulses `0 .. m-1` can all be applied. */
  ghost predicate AllApplicable(s: BioSystem, pulses: seq<Pulse>, m: nat)
    requires Valid(s) && m <= |pulses|
  {
    forall k :: 0 <= k < m ==> Applicable(s, pulses[k])
  }

  /** The first `m` sub-runs can take place: a well-formed system, an integrator
      of the right shape, no unknown name among the pulses applied, and a rate
      function for every compositor once there is a sub-run. */
  ghost predicate Ready(s: BioSystem, pulses: seq<Pulse>, solve: Integrator, m: nat) {
    && Valid(s) && PartsWellFormed(s.parts) && Shaped(solve)
    && m <= SubRuns(pulses) && AllApplicable(s, pulses, m)
    && (m > 0 ==> Runnable(s))
  }

  /** The system when sub-run `k` is about to start, before pulse `k` is applied:
      the caller's system for the first, the previous sub-run's system carrying
      that sub-run's last row as current values afterwards. */
  ghost function Before(s: BioSystem, pulses: seq<Pulse>, solve: Integrator, k: nat): (r: BioSystem)
    requires Ready(s, pulses, solve, k)
    ensures Valid(r) && r.mapCompositors == s.mapCompositors && SameExceptValues(r, Base(s, k))
    decreases k, 0
  {
    BaseFacts(s, k);
    if k == 0 then s
    else
      var prev := Sub(s, pulses, solve, k - 1);
      var r := WithValues(prev.sys, Last(prev.rows));
      SameExceptValuesTrans(r, prev.sys, Base(s, k));
      r
  }

  /** The system sub-run `k` integrates from: `Before(k)` with pulse `k` applied. */
  ghost function Input(s: BioSystem, pulses: seq<Pulse>, solve: Integrator, k: nat): (r: BioSystem)
    requires Ready(s, pulses, solve, k + 1)
    ensures Valid(r) && r.mapCompositors == s.mapCompositors && SameExceptValues(r, Base(s, k))
    decreases k, 1
  {
    BaseFacts(s, k);
    var b := Before(s, pulses, solve, k);
    assert Applicable(s, pulses[k]);
    assert forall name :: CompositorIndex(b, name) == CompositorIndex(s, name);
    var r := ApplyPulse(b, pulses[k]);
    SameExceptValuesTrans(r, b, Base(s, k));
    r
  }

  /** Sub-run `k`: `run` over `[Start(k), Start(k) + Length(k)]` from `Input(k)`. */
  ghost function Sub(s: BioSystem, pulses: seq<Pulse>, solve: Integrator, k: nat): (r: RunResult)
    requires Ready(s, pulses, solve, k + 1)
    ensures r.times == SubRunTimes(pulses, k)
    ensures IsMatrix(r.rows, SampleCount(Length(pulses, k)), |s.compositors|)
    ensures SameExceptValues(r.sys, Base(s, k + 1))
    decreases k, 2
  {
    BaseFacts(s, k);
    var input := Input(s, pulses, solve, k);
    var t0 := Start(pulses, k);
    var t1 := t0 + Length(pulses, k);
    assert t1 - t0 == Length(pulses, k);
    DetermineRatesIgnoresValues(input, Base(s, k));
    RunnableIgnoresValues(input, Base(s, k));
    Run(input, t0, t1, solve).value
  }

  /** The stitched rows of the first `m` sub-runs, each without its first two rows. */
  ghost function StitchedRows(s: BioSystem, pulses: seq<Pulse>, solve: Integrator, m: nat): (rows: seq<seq<real>>)
    requires Ready(s, pulses, solve, m)
    ensures |rows| == StitchedCount(pulses, m)
  {
    if m == 0 then [] else StitchedRows(s, pulses, solve, m - 1) + Drop2(Sub(s, pulses, solve, m - 1).rows)
  }

  /** The variables `run_pulses` carries from one pass of its loop to the next. */
  datatype LoopState = LoopState(cur: BioSystem, times: seq<real>, rows: seq<seq<real>>, prevEnd: real)

  /** The loop state after `i` passes, by the reference definitions: the system
      before sub-run `i`, the stitched clock and rows so far, and the end of the
      last sub-run. */
  ghost function Reached(s: BioSystem, pulses: seq<Pulse>, solve: Integrator, i: nat): LoopState
    requires Ready(s, pulses, solve, i)
  {
    LoopState(Before(s, pulses, solve, i), StitchedTimes(pulses, i), StitchedRows(s, pulses, solve, i), Start(pulses, i))
  }

  /** Every intermediate system knows the same compositor names as the caller's. */
  lemma BeforeKeepsNames(s: BioSystem, pulses: seq<Pulse>, solve: Integrator, i: nat)
    requires Ready(s, pulses, solve, i)
    ensures forall name :: CompositorIndex(Before(s, pulses, solve, i), name) == CompositorIndex(s, name)
  {
  }

  /** The system a pass of the loop runs is `Input(i)`. */
  lemma AppliedIsInput(s: BioSystem, pulses: seq<Pulse>, solve: Integrator, i: nat, applied: BioSystem)
    requires Ready(s, pulses, solve, i + 1)
    requires TryApplyPulse(Before(s, pulses, solve, i), pulses[i]) == Success(applied)
    ensures applied == Input(s, pulses, solve, i) && PartsWellFormed(applied.parts)
  {
  }

  /** The run one pass of the loop makes is sub-run `i`. */
  lemma SubIsRun(s: BioSystem, pulses: seq<Pulse>, solve: Integrator, i: nat,
                 applied: BioSystem, prevEnd: real, simLength: real)
    requires Ready(s, pulses, solve, i + 1)
    requires applied == Input(s, pulses, solve, i) && PartsWellFormed(applied.parts)
    requires prevEnd == Start(pulses, i) && simLength == Length(pulses, i)
    ensures Run(applied, prevEnd, prevEnd + simLength, solve) == Success(Sub(s, pulses, solve, i))
  {
    BaseFacts(s, i);
    RunnableIgnoresValues(applied, Base(s, i));
  }

  /** Applying pulse `i` keeps the parts, and the run that follows succeeds
      exactly when the caller's system is runnable. */
  lemma AppliedFacts(s: BioSystem, pulses: seq<Pulse>, solve: Integrator, i: nat, applied: BioSystem, t0: real, t1: real)
    requires Ready(s, pulses, solve, i) && i < SubRuns(pulses)
    requires TryApplyPulse(Before(s, pulses, solve, i), pulses[i]) == Success(applied)
    ensures PartsWellFormed(applied.parts)
    ensures Run(applied, t0, t1, solve).Success? <==> Runnable(s)
    ensures applied == ApplyPulse(Before(s, pulses, solve, i), pulses[i])
  {
    BaseFacts(s, i);
    SameExceptValuesTrans(applied, Before(s, pulses, solve, i), Base(s, i));
    RunnableIgnoresValues(applied, Base(s, i));
  }

  /** What one pass adds: the stitched trace grows by sub-run `i` without its
      first two points, and the next sub-run starts from its last row. */
  lemma Advance(s: BioSystem, pulses: seq<Pulse>, solve: Integrator, i: nat, res: RunResult)
    requires Ready(s, pulses, solve, i + 1)
    requires res == Sub(s, pulses, solve, i)
    ensures |res.rows| > 0 && |Last(res.rows)| == |res.sys.compositors|
    ensures WithValues(res.sys, Last(res.rows)) == Before(s, pulses, solve, i + 1)
    ensures StitchedTimes(pulses, i) + Drop2(res.times) == StitchedTimes(pulses, i + 1)
    ensures StitchedRows(s, pulses, solve, i) + Drop2(res.rows) == StitchedRows(s, pulses, solve, i + 1)
    // mirrors the `len(Y) > 0` test of the stitching, whose else branch starts from the run alone
    ensures StitchedRows(s, pulses, solve, i) == [] ==> Drop2(res.rows) == StitchedRows(s, pulses, solve, i + 1)
  {
    BaseFacts(s, i + 1);
  }

  /** After sub-run `i` every compositor's current value is that sub-run's last row. */
  lemma CarriedValues(s: BioSystem, pulses: seq<Pulse>, solve: Integrator, i: nat)
    requires Ready(s, pulses, solve, i + 1)
    ensures var rows := Sub(s, pulses, solve, i).rows;
      && |rows| > 0 && |Last(rows)| == |s.compositors|
      && |Before(s, pulses, solve, i + 1).compositors| == |s.compositors|
      && forall j :: 0 <= j < |s.compositors| ==> Before(s, pulses, solve, i + 1).compositors[j].value == Last(rows)[j]
  {
    BaseFacts(s, i + 1);
  }

  /** Whether every pulse that is applied names a known compositor does not
      depend on the stop pulse, which is never applied. */
  lemma StopPulseNeverApplied(s: BioSystem, pulses: seq<Pulse>, p: Pulse)
    requires Valid(s) && |pulses| > 0
    ensures AllApplicable(s, pulses, SubRuns(pulses)) <==> AllApplicable(s, pulses[|pulses| - 1 := p], SubRuns(pulses))
  {
    var q := pulses[|pulses| - 1 := p];
    assert forall k :: 0 <= k < SubRuns(pulses) ==> q[k] == pulses[k];
  }

  /** `q` schedules the same sub-runs as `pulses`: the same times everywhere and
      the same pulses except possibly the last, which only marks the stop time. */
  ghost predicate SameRuns(pulses: seq<Pulse>, q: seq<Pulse>) {
    && |q| == |pulses|
    && (forall j :: 0 <= j < |pulses| ==> q[j].time == pulses[j].time)
    && (forall j :: 0 <= j < |pulses| - 1 ==> q[j] == pulses[j])
  }

  /** Schedules with the same sub-runs are ready for the same number of them. */
  lemma SameRunsReady(s: BioSystem, pulses: seq<Pulse>, q: seq<Pulse>, solve: Integrator, m: nat)
    requires SameRuns(pulses, q) && Ready(s, pulses, solve, m)
    ensures SubRuns(q) == SubRuns(pulses) && Ready(s, q, solve, m)
  {
    assert forall k :: 0 <= k < m ==> Applicable(s, q[k]) by {
      forall k | 0 <= k < m ensures Applicable(s, q[k]) {
        assert q[k] == pulses[k];
      }
    }
  }

  /** Sub-run `k` of two schedules with the same sub-runs, started from the same
      system, is the same run. */
  lemma SameRunsSub(s: BioSystem, pulses: seq<Pulse>, q: seq<Pulse>, solve: Integrator, k: nat)
    requires SameRuns(pulses, q) && Ready(s, pulses, solve, k + 1) && Ready(s, q, solve, k + 1)
    requires Before(s, pulses, solve, k) == Before(s, q, solve, k)
    ensures Sub(s, pulses, solve, k) == Sub(s, q, solve, k)
  {
    assert q[k] == pulses[k] && q[k + 1].time == pulses[k + 1].time;
    var input := Input(s, pulses, solve, k);
    assert Input(s, q, solve, k) == input;
    AppliedIsInput(s, pulses, solve, k, input);
    var t0, len := Start(pulses, k), Length(pulses, k);
    assert Start(q, k) == t0 && Length(q, k) == len;
    SubIsRun(s, pulses, solve, k, input, t0, len);
    SubIsRun(s, q, solve, k, input, t0, len);
  }

  /** A schedule ready for `m` sub-runs is ready for fewer. */
  lemma ReadyPrefix(s: BioSystem, pulses: seq<Pulse>, solve: Integrator, m: nat, k: nat)
    requires Ready(s, pulses, solve, m) && k <= m
    ensures Ready(s, pulses, solve, k)
  {
  }

  /** Before any pass two schedules with the same sub-runs are in the same state. */
  lemma SameRunsStart(s: BioSystem, pulses: seq<Pulse>, q: seq<Pulse>, solve: Integrator)
    requires SameRuns(pulses, q) && Ready(s, pulses, solve, 0)
    ensures Ready(s, q, solve, 0) && Reached(s, q, solve, 0) == Reached(s, pulses, solve, 0)
  {
    SameRunsReady(s, pulses, q, solve, 0);
  }

  /** One more pass keeps two schedules with the same sub-runs in step. */
  lemma SameRunsNext(s: BioSystem, pulses: seq<Pulse>, q: seq<Pulse>, solve: Integrator, k: nat)
    requires SameRuns(pulses, q) && Ready(s, pulses, solve, k + 1) && Ready(s, q, solve, k)
    requires Reached(s, q, solve, k) == Reached(s, pulses, solve, k)
    ensures Ready(s, q, solve, k + 1) && Reached(s, q, solve, k + 1) == Reached(s, pulses, solve, k + 1)
  {
    SameRunsReady(s, pulses, q, solve, k + 1);
    SameRunsSub(s, pulses, q, solve, k);
    assert Start(q, k) == Start(pulses, k) && Length(q, k) == Length(pulses, k);
    assert SubRunTimes(q, k) == SubRunTimes(pulses, k);
    assert Start(q, k + 1) == Start(pulses, k + 1);
  }

  /** Two schedules with the same sub-runs reach the same state after every
      number of passes: the same system, clock, rows and end time. */
  lemma {:induction false} SameRunsReached(s: BioSystem, pulses: seq<Pulse>, q: seq<Pulse>, solve: Integrator, m: nat)
    requires SameRuns(pulses, q) && Ready(s, pulses, solve, m)
    ensures Ready(s, q, solve, m) && Reached(s, q, solve, m) == Reached(s, pulses, solve, m)
    decreases m
  {
    if m == 0 {
      SameRunsStart(s, pulses, q, solve);
    } else {
      var k := m - 1;
      ReadyPrefix(s, pulses, solve, m, k);
      SameRunsReached(s, pulses, q, solve, k);
      SameRunsNext(s, pulses, q, solve, k);
    }
  }

  /** The stop pulse's compositor and value never matter: replacing it by any
      pulse at the same time leaves the state after every number of passes, and
      so the stitched clock and rows and the final system, as they were. */
  lemma StopPulseIgnored(s: BioSystem, pulses: seq<Pulse>, solve: Integrator, p: Pulse, m: nat)
    requires |pulses| > 0 && p.time == pulses[|pulses| - 1].time && Ready(s, pulses, solve, m)
    ensures var q := pulses[|pulses| - 1 := p];
      && SubRuns(q) == SubRuns(pulses) && Ready(s, q, solve, m)
      && Before(s, q, solve, m) == Before(s, pulses, solve, m)
      && StitchedTimes(q, m) == StitchedTimes(pulses, m)
      && StitchedRows(s, q, solve, m) == StitchedRows(s, pulses, solve, m)
  {
    var q := pulses[|pulses| - 1 := p];
    assert SameRuns(pulses, q);
    SameRunsReady(s, pulses, q, solve, m);
    SameRunsReached(s, pulses, q, solve, m);
  }

  /** The run a pass of the loop makes, once pulse `i` is applied, is sub-run `i`. */
  lemma PassRunIsSub(s: BioSystem, pulses: seq<Pulse>, solve: Integrator, i: nat,
                     applied: BioSystem, res: RunResult, prevEnd: real, simLength: real)
    requires Ready(s, pulses, solve, i + 1)
    requires TryApplyPulse(Before(s, pulses, solve, i), pulses[i]) == Success(applied)
    requires prevEnd == Start(pulses, i) && simLength == Length(pulses, i)
    requires PartsWellFormed(applied.parts) && Run(applied, prevEnd, prevEnd + simLength, solve) == Success(res)
    ensures res == Sub(s, pulses, solve, i)
  {
    AppliedIsInput(s, pulses, solve, i, applied);
    SubIsRun(s, pulses, solve, i, applied, prevEnd, simLength);
  }

  /** The facts one pass of the loop rests on: with `T` and `Y` the stitched
      clock and rows so far, sub-run `i` extends them to the reference state
      after `i + 1` passes. */
  lemma StepFacts(s: BioSystem, pulses: seq<Pulse>, solve: Integrator, i: nat,
                  res: RunResult, T: seq<real>, Y: seq<seq<real>>, prevEnd: real)
    requires Ready(s, pulses, solve, i + 1) && res == Sub(s, pulses, solve, i)
    requires prevEnd == Start(pulses, i) && T == StitchedTimes(pulses, i) && Y == StitchedRows(s, pulses, solve, i)
    ensures |res.rows| > 0 && |Last(res.rows)| == |res.sys.compositors|
      && Reached(s, pulses, solve, i + 1) == LoopState(
           WithValues(res.sys, Last(res.rows)),
           T + Drop2(res.times),
           if |Y| > 0 then Y + Drop2(res.rows) else Drop2(res.rows),
           pulses[i].time + Length(pulses, i))
  {
    Advance(s, pulses, solve, i, res);
  }

  /** The part of one pass of `run_pulses`' loop after pulse `i` is applied and
      the run up to the next pulse has succeeded: append the run without its
      first two points, and carry its last row into the current values. */
  method RunSegment(ghost s: BioSystem, pulses: seq<Pulse>, solve: Integrator, i: nat,
                    res: RunResult, T: seq<real>, Y: seq<seq<real>>, prevEnd: real)
    returns (cur': BioSystem, T': seq<real>, Y': seq<seq<real>>, prevEnd': real)
    requires Ready(s, pulses, solve, i + 1) && res == Sub(s, pulses, solve, i)
    requires prevEnd == Start(pulses, i) && T == StitchedTimes(pulses, i) && Y == StitchedRows(s, pulses, solve, i)
    ensures LoopState(cur', T', Y', prevEnd') == Reached(s, pulses, solve, i + 1)
  {
    StepFacts(s, pulses, solve, i, res, T, Y, prevEnd);
    var simLength := pulses[i + 1].time - pulses[i].time;
    T' := T + Drop2(res.times);
    if |Y| > 0 {
      Y' := Y + Drop2(res.rows);
    } else {
      Y' := Drop2(res.rows);
    }
    var prevStart := pulses[i].time;
    prevEnd' := prevStart + simLength;
    cur' := WithValues(res.sys, Last(res.rows));
  }

  /** A pass stops at pulse `i` exactly when the caller's system does not know its name. */
  lemma PassApplies(s: BioSystem, pulses: seq<Pulse>, solve: Integrator, i: nat)
    requires Ready(s, pulses, solve, i) && i < SubRuns(pulses)
    ensures TryApplyPulse(Before(s, pulses, solve, i), pulses[i]).Success? <==> Applicable(s, pulses[i])
  {
    BeforeKeepsNames(s, pulses, solve, i);
  }

  /** The run after pulse `i` fails only on the first pass, when the caller's
      system lacks a rate function; otherwise the next pass is ready. */
  lemma PassRuns(s: BioSystem, pulses: seq<Pulse>, solve: Integrator, i: nat,
                 applied: BioSystem, t0: real, t1: real)
    requires Ready(s, pulses, solve, i) && i < SubRuns(pulses)
    requires TryApplyPulse(Before(s, pulses, solve, i), pulses[i]) == Success(applied)
    ensures Applicable(s, pulses[i]) && PartsWellFormed(applied.parts)
    ensures Run(applied, t0, t1, solve).Failure? ==> i == 0 && !Runnable(s) && applied == ApplyPulse(s, pulses[0])
    ensures Run(applied, t0, t1, solve).Success? ==> Runnable(s) && Ready(s, pulses, solve, i + 1)
  {
    PassApplies(s, pulses, solve, i);
    AppliedFacts(s, pulses, solve, i, applied, t0, t1);
    assert AllApplicable(s, pulses, i + 1);
  }

  /** One pass of `run_pulses`' loop: apply pulse `i`, run up to the next pulse,
      stitch and carry the last row; or stop, with an unknown name or with a
      failed first run. */
  method RunPass(ghost s: BioSystem, pulses: seq<Pulse>, solve: Integrator, i: nat,
                 cur: BioSystem, T: seq<real>, Y: seq<seq<real>>, prevEnd: real)
    returns (stop: Option<PulseOutcome>, cur': BioSystem, T': seq<real>, Y': seq<seq<real>>, prevEnd': real)
    requires Ready(s, pulses, solve, i) && i < SubRuns(pulses)
    requires LoopState(cur, T, Y, prevEnd) == Reached(s, pulses, solve, i)
    ensures stop.None? <==> Applicable(s, pulses[i]) && Runnable(s)
    ensures stop.None? ==> Ready(s, pulses, solve, i + 1) && LoopState(cur', T', Y', prevEnd') == Reached(s, pulses, solve, i + 1)
    ensures stop.Some? && !Applicable(s, pulses[i]) ==> stop.value == Aborted(cur, i)
    ensures stop.Some? && Applicable(s, pulses[i]) ==> i == 0 && stop.value == Failed(ApplyPulse(s, pulses[0]), 0)
  {
    PassApplies(s, pulses, solve, i);
    var applied := TryApplyPulse(cur, pulses[i]);
    if applied.Failure? {
      return Some(Aborted(cur, i)), cur, T, Y, prevEnd;
    }
    var simLength := pulses[i + 1].time - pulses[i].time;
    PassRuns(s, pulses, solve, i, applied.value, prevEnd, prevEnd + simLength);
    var run := Run(applied.value, prevEnd, prevEnd + simLength, solve);
    if run.Failure? {
      return Some(Failed(applied.value, i)), cur, T, Y, prevEnd;
    }
    assert prevEnd == Start(pulses, i) && simLength == Length(pulses, i);
    PassRunIsSub(s, pulses, solve, i, applied.value, run.value, prevEnd, simLength);
    cur', T', Y', prevEnd' := RunSegment(s, pulses, solve, i, run.value, T, Y, prevEnd);
    stop := None;
  }

  /** `run_pulses`: one sub-run per consecutive pair of pulses (the last pulse is
      only a stop time and is never applied), stitched without the first two rows
      of each; at the end every value is back at its initial value. A pulse naming
      an unknown compositor aborts, leaving the state reached so far. A compositor
      without a rate function makes the first sub-run fail; later sub-runs start
      from the system the first one compiled, so they cannot fail that way. */
  method RunPulses(s: BioSystem, pulses: seq<Pulse>, solve: Integrator) returns (r: PulseOutcome)
    requires Valid(s) && PartsWellFormed(s.parts) && Shaped(solve)
    ensures r.Done? <==> AllApplicable(s, pulses, SubRuns(pulses)) && (SubRuns(pulses) > 0 ==> Runnable(s))
    ensures r.Aborted? ==> r.pulse < SubRuns(pulses) && !Applicable(s, pulses[r.pulse]) && AllApplicable(s, pulses, r.pulse)
    ensures r.Aborted? ==> (r.pulse > 0 ==> Runnable(s)) && r.sys == Before(s, pulses, solve, r.pulse)
    ensures r.Failed? ==> r.pulse == 0 < SubRuns(pulses) && Applicable(s, pulses[0]) && !Runnable(s)
    ensures r.Failed? ==> r.sys == ApplyPulse(s, pulses[0])
    ensures r.Done? ==> r.times == StitchedTimes(pulses, SubRuns(pulses))
    ensures r.Done? ==> r.rows == StitchedRows(s, pulses, solve, SubRuns(pulses))
    ensures r.Done? ==> |r.rows| == |r.times| == StitchedCount(pulses, SubRuns(pulses))
    ensures r.Done? ==> r.sys == ResetStateVariables(Base(s, SubRuns(pulses)))
    ensures r.Done? ==> forall j :: 0 <= j < |r.sys.compositors| ==> r.sys.compositors[j].value == r.sys.compositors[j].initValue
  {
    var n := |pulses|;
    var cur := s;
    var T: seq<real> := [];
    var Y: seq<seq<real>> := [];
    var prevEnd := 0.0;
    var i := 0;
    while i < n - 1
      invariant Ready(s, pulses, solve, i)
      invariant LoopState(cur, T, Y, prevEnd) == Reached(s, pulses, solve, i)
    {
      var stop, cur', T', Y', prevEnd' := RunPass(s, pulses, solve, i, cur, T, Y, prevEnd);
      if stop.Some? {
        r := stop.value;
        return;
      }
      cur, T, Y, prevEnd := cur', T', Y', prevEnd';
      i := i + 1;
    }
    assert i == SubRuns(pulses);
    ResetIgnoresValues(cur, Base(s, i));
    r := Done(ResetStateVariables(cur), T, Y);
  }
}
