/** What becomes of each caller of the admission queue, told from the run itself: its request,
    whether its timer fired and whether its derivation panicked. */
module AdmissionOutcomes {
  import opened AdmissionQueue

  /** The derivations of one caller that ended in a run, each with whether it panicked. */
  function Derivations(steps: seq<Step>, i: nat): seq<bool> {
    if steps == [] then []
    else
      (match steps[0]
       case Finish(j, panicked) => if j == i then [panicked] else []
       case _ => []) + Derivations(steps[1..], i)
  }

  predicate TimesOut(steps: seq<Step>, i: nat) {
    steps != [] && ((steps[0].TimeOut? && steps[0].i == i) || TimesOut(steps[1..], i))
  }

  /** A request no more than the whole of either budget: 256 MiB and 16 lanes. */
  predicate Within(c: Caller) {
    c.kib <= 262_144 && c.lanes <= 16
  }

  /** How far a caller is agrees with what the run did to it. */
  predicate Accounted(c: Caller, derivations: seq<bool>, timedOut: bool) {
    match c.phase
    case Start => derivations == [] && !timedOut
    case Queued => derivations == [] && !timedOut && Within(c)
    case Checking => derivations == [] && !timedOut && Within(c)
    case Waiting => derivations == [] && !timedOut && Within(c)
    case Reserved => derivations == [] && !timedOut && Within(c)
    case Deriving => derivations == [] && !timedOut && Within(c)
    case GivingUp => derivations == [] && timedOut && Within(c)
    case Releasing(outcome) => Served(c, outcome, derivations) && !timedOut
    case Poking(outcome) => Served(c, outcome, derivations) && !timedOut
    case Finished(outcome) =>
      if outcome == Busy then derivations == [] && (timedOut <==> Within(c))
      else Served(c, outcome, derivations) && !timedOut
  }

  predicate Served(c: Caller, outcome: Outcome, derivations: seq<bool>) {
    Within(c) && ((outcome == Derived && derivations == [false]) || (outcome == Panicked && derivations == [true]))
  }

  lemma StepIsAccounted(s: State, step: Step, i: nat, derivations: seq<bool>, timedOut: bool)
    requires Enabled(s, step) && i < |s.callers| && Accounted(s.callers[i], derivations, timedOut)
    ensures |Apply(s, step).callers| == |s.callers|
    ensures Accounted(Apply(s, step).callers[i], derivations + Derivations([step], i), timedOut || TimesOut([step], i))
    ensures Apply(s, step).callers[i].kib == s.callers[i].kib && Apply(s, step).callers[i].lanes == s.callers[i].lanes
  {
    assert Derivations([step], i) == if step.Finish? && step.i == i then [step.panicked] else [];
    assert TimesOut([step], i) == (step.TimeOut? && step.i == i);
    assert derivations + [] == derivations;
    hide Derivations, TimesOut, Fits;
  }

  lemma {:induction false} RunIsAccounted(s: State, steps: seq<Step>, i: nat, derivations: seq<bool>, timedOut: bool)
    requires IsRun(s, steps) && i < |s.callers| && Accounted(s.callers[i], derivations, timedOut)
    ensures
      var t := After(s, steps);
      && |t.callers| == |s.callers|
      && Accounted(t.callers[i], derivations + Derivations(steps, i), timedOut || TimesOut(steps, i))
      && t.callers[i].kib == s.callers[i].kib && t.callers[i].lanes == s.callers[i].lanes
    decreases |steps|
  {
    hide Apply, Enabled, Accounted;
    if steps == [] {
      assert derivations + [] == derivations;
    } else {
      StepIsAccounted(s, steps[0], i, derivations, timedOut);
      FirstStep(steps, i);
      RunIsAccounted(Apply(s, steps[0]), steps[1..], i, derivations + Derivations([steps[0]], i),
                     timedOut || TimesOut([steps[0]], i));
      assert derivations + Derivations(steps, i)
          == derivations + Derivations([steps[0]], i) + Derivations(steps[1..], i);
    }
  }

  lemma FirstStep(steps: seq<Step>, i: nat)
    requires steps != []
    ensures Derivations(steps, i) == Derivations([steps[0]], i) + Derivations(steps[1..], i)
    ensures TimesOut(steps, i) <==> TimesOut([steps[0]], i) || TimesOut(steps[1..], i)
  {}

  /** Over every run from the start: a caller derives at most once; it is told Busy exactly
      when its request exceeds a whole budget or its timer fired, and then never derives;
      otherwise its one derivation decides between a result and a panic. */
  lemma OutcomesAreEarned(s: State, steps: seq<Step>, i: nat)
    requires Init(s) && IsRun(s, steps) && i < |s.callers|
    ensures |After(s, steps).callers| == |s.callers| && |Derivations(steps, i)| <= 1
    ensures
      var c := After(s, steps).callers[i];
      c.phase.Finished? ==>
        && (c.phase.outcome == Busy <==> s.callers[i].kib > 262_144 || s.callers[i].lanes > 16 || TimesOut(steps, i))
        && (c.phase.outcome == Busy <==> Derivations(steps, i) == [])
        && (c.phase.outcome == Derived <==> Derivations(steps, i) == [false])
        && (c.phase.outcome == Panicked <==> Derivations(steps, i) == [true])
  {
    hide IsRun, After, Derivations, TimesOut;
    RunIsAccounted(s, steps, i, [], false);
    assert [] + Derivations(steps, i) == Derivations(steps, i);
  }

  /** A caller that waits, in the queue or for room, can be timed out at any moment, and has
      then only to leave the queue before it is told Busy. */
  lemma TimersAlwaysFire(s: State, i: nat)
    requires i < |s.callers| && s.callers[i].phase in {Queued, Waiting}
    ensures Enabled(s, TimeOut(i))
    ensures
      var t := Apply(s, TimeOut(i));
      && t.shared == s.shared
      && if s.callers[i].phase == Queued then t.callers[i].phase == Finished(Busy)
         else
           && Enabled(t, Leave(i))
           && Apply(t, Leave(i)).callers[i].phase == Finished(Busy)
           && Apply(t, Leave(i)).shared == s.shared.(admit := false)
  {}

  /** Without timers, a run that cannot be extended has refused exactly the requests that
      exceed 256 MiB or 16 lanes and run the derivation of every other caller. */
  lemma CompleteRunsDeriveExactly(s: State, steps: seq<Step>, i: nat)
    requires Init(s) && IsRun(s, steps) && TimerFree(steps) && i < |s.callers|
    requires forall step :: Enabled(After(s, steps), step) ==> step.TimeOut?
    ensures |After(s, steps).callers| == |s.callers| && After(s, steps).callers[i].phase.Finished?
    ensures Derivations(steps, i) == [] <==> s.callers[i].kib > 262_144 || s.callers[i].lanes > 16
  {
    hide IsRun, After, Derivations, TimesOut, Enabled, TimerFree;
    CompleteRunsServeEveryone(s, steps);
    OutcomesAreEarned(s, steps, i);
    NoTimersNoTimeOuts(steps, i);
  }

  lemma {:induction false} NoTimersNoTimeOuts(steps: seq<Step>, i: nat)
    requires TimerFree(steps)
    ensures !TimesOut(steps, i)
  {
    if steps != [] {
      NoTimersNoTimeOuts(steps[1..], i);
    }
  }
}
