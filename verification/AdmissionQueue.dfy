/** Admission control for password derivations: two budgets, memory and lanes, reserved
    together by one negotiating caller at a time, as a machine over the atomic steps of any
    number of concurrent callers. Timers may fire at any point a caller waits. */
module AdmissionQueue {
  import opened Sums

  const BUDGET_KIB: int := 4 * 64 * 1024
  const BUDGET_LANES: int := 4 * 4

  /** The shared variables: who holds the queue, the wake token, and what is free. */
  datatype Shared = Shared(admit: bool, wake: bool, free: int, freeLanes: int)

  datatype Outcome = Busy | Derived | Panicked

  /** Where a caller stands. From Checking to GivingUp or Reserved it holds the queue; from
      Reserved to Releasing it holds its reservation; at Poking the reservation is back but
      the wake token is not yet set. */
  datatype Phase =
    | Start
    | Queued
    | Checking
    | Waiting
    | GivingUp
    | Reserved
    | Deriving
    | Releasing(outcome: Outcome)
    | Poking(outcome: Outcome)
    | Finished(outcome: Outcome)

  datatype Caller = Caller(kib: nat, lanes: nat, phase: Phase)

  datatype State = State(shared: Shared, callers: seq<Caller>)

  datatype Step =
    | Enter(i: nat)
    | Admit(i: nat)
    | TimeOut(i: nat)
    | Check(i: nat)
    | Wake(i: nat)
    | Leave(i: nat)
    | Finish(i: nat, panicked: bool)
    | GiveBack(i: nat)
    | Poke(i: nat)

  // ----- the critical sections

  predicate Fits(v: Shared, kib: int, lanes: int) {
    v.free >= kib && v.freeLanes >= lanes
  }

  function Taken(v: Shared, kib: int, lanes: int): Shared {
    v.(free := v.free - kib, freeLanes := v.freeLanes - lanes)
  }

  function Returned(v: Shared, kib: int, lanes: int): Shared {
    v.(free := v.free + kib, freeLanes := v.freeLanes + lanes)
  }

  /** The budget object, with one method for each section that runs under its mutex or is
      one channel operation. */
  class Budget {
    var admit: bool
    var wake: bool
    var free: int
    var freeLanes: int

    function View(): Shared
      reads this
    {
      Shared(admit, wake, free, freeLanes)
    }

    constructor ()
      ensures View() == INITIAL
    {
      admit, wake := false, false;
      free, freeLanes := BUDGET_KIB, BUDGET_LANES;
    }

    /** A send on the one-slot queue channel, which goes through when the slot is empty. */
    method TakeQueue() returns (ok: bool)
      modifies this
      ensures ok == !old(View()).admit && View() == old(View()).(admit := true)
    {
      ok := !admit;
      admit := true;
    }

    /** A receive from the queue channel by the caller whose token is in it. */
    method LeaveQueue()
      requires View().admit
      modifies this
      ensures View() == old(View()).(admit := false)
    {
      admit := false;
    }

    /** A receive from the wake channel, which goes through when there is a token. */
    method TakeWake() returns (ok: bool)
      modifies this
      ensures ok == old(View()).wake && View() == old(View()).(wake := false)
    {
      ok := wake;
      wake := false;
    }

    /** Both or neither. */
    method TryReserve(kib: int, lanes: int) returns (ok: bool)
      modifies this
      ensures ok == Fits(old(View()), kib, lanes)
      ensures View() == if ok then Taken(old(View()), kib, lanes) else old(View())
    {
      ok := free >= kib && freeLanes >= lanes;
      if ok {
        free := free - kib;
        freeLanes := freeLanes - lanes;
      }
    }

    method GiveBackReservation(kib: int, lanes: int)
      modifies this
      ensures View() == Returned(old(View()), kib, lanes)
    {
      free := free + kib;
      freeLanes := freeLanes + lanes;
    }

    /** A send that is dropped when the one-slot channel is full. */
    method SetWake()
      modifies this
      ensures View() == old(View()).(wake := true)
    {
      if !wake {
        wake := true;
      }
    }
  }

  const INITIAL: Shared := Shared(false, false, BUDGET_KIB, BUDGET_LANES)

  // ----- the machine

  predicate Enabled(s: State, step: Step) {
    && step.i < |s.callers|
    && var phase := s.callers[step.i].phase;
    match step
    case Enter(_) => phase == Start
    case Admit(_) => phase == Queued && !s.shared.admit
    case TimeOut(_) => phase == Queued || phase == Waiting
    case Check(_) => phase == Checking
    case Wake(_) => phase == Waiting && s.shared.wake
    case Leave(_) => phase == GivingUp || phase == Reserved
    case Finish(_, _) => phase == Deriving
    case GiveBack(_) => phase.Releasing?
    case Poke(_) => phase.Poking?
  }

  predicate Satisfiable(c: Caller) {
    c.kib <= BUDGET_KIB && c.lanes <= BUDGET_LANES
  }

  /** The phase a caller moves to. */
  function NextPhase(v: Shared, c: Caller, step: Step): Phase {
    match step
    case Enter(_) => if Satisfiable(c) then Queued else Finished(Busy)
    case Admit(_) => Checking
    case TimeOut(_) => if c.phase == Queued then Finished(Busy) else GivingUp
    case Check(_) => if Fits(v, c.kib, c.lanes) then Reserved else Waiting
    case Wake(_) => Checking
    case Leave(_) => if c.phase == GivingUp then Finished(Busy) else Deriving
    case Finish(_, panicked) => Releasing(if panicked then Panicked else Derived)
    case GiveBack(_) => Poking(if c.phase.Releasing? then c.phase.outcome else Busy)
    case Poke(_) => Finished(if c.phase.Poking? then c.phase.outcome else Busy)
  }

  function NextShared(v: Shared, c: Caller, step: Step): Shared {
    match step
    case Admit(_) => v.(admit := true)
    case Check(_) => if Fits(v, c.kib, c.lanes) then Taken(v, c.kib, c.lanes) else v
    case Wake(_) => v.(wake := false)
    case Leave(_) => v.(admit := false)
    case GiveBack(_) => Returned(v, c.kib, c.lanes)
    case Poke(_) => v.(wake := true)
    case _ => v
  }

  function Apply(s: State, step: Step): State
    requires Enabled(s, step)
  {
    var c := s.callers[step.i];
    State(NextShared(s.shared, c, step), s.callers[step.i := c.(phase := NextPhase(s.shared, c, step))])
  }

  ghost predicate Init(s: State) {
    s.shared == INITIAL && forall i :: 0 <= i < |s.callers| ==> s.callers[i].phase == Start
  }

  /** Every step of the run is enabled where it is taken. */
  ghost predicate IsRun(s: State, steps: seq<Step>)
    decreases |steps|
  {
    steps == [] || (Enabled(s, steps[0]) && IsRun(Apply(s, steps[0]), steps[1..]))
  }

  function After(s: State, steps: seq<Step>): State
    requires IsRun(s, steps)
    decreases |steps|
  {
    if steps == [] then s else After(Apply(s, steps[0]), steps[1..])
  }

  // ----- what every run keeps

  predicate HoldsQueue(c: Caller) {
    c.phase in {Checking, Waiting, GivingUp, Reserved}
  }

  predicate HoldsReservation(c: Caller) {
    c.phase == Reserved || c.phase == Deriving || c.phase.Releasing?
  }

  function HeldKib(c: Caller): int {
    if HoldsReservation(c) then c.kib else 0
  }

  function HeldLanes(c: Caller): int {
    if HoldsReservation(c) then c.lanes else 0
  }

  /** Nothing is lost and nothing is over-committed. */
  ghost predicate Conserved(s: State) {
    && s.shared.free + Total(HeldKib, s.callers) == BUDGET_KIB
    && s.shared.freeLanes + Total(HeldLanes, s.callers) == BUDGET_LANES
    && s.shared.free >= 0 && s.shared.freeLanes >= 0
  }

  /** The queue token is out exactly when someone holds it, and only one caller does. */
  ghost predicate OneNegotiator(s: State) {
    && (s.shared.admit <==> exists i :: 0 <= i < |s.callers| && HoldsQueue(s.callers[i]))
    && forall i, j | 0 <= i < |s.callers| && 0 <= j < |s.callers| ::
         HoldsQueue(s.callers[i]) && HoldsQueue(s.callers[j]) ==> i == j
  }

  /** A waiter whose request would fit is about to be woken. */
  ghost predicate NoLostWakeup(s: State) {
    forall i :: 0 <= i < |s.callers| && s.callers[i].phase == Waiting &&
                Fits(s.shared, s.callers[i].kib, s.callers[i].lanes) ==>
                s.shared.wake || exists j :: 0 <= j < |s.callers| && s.callers[j].phase.Poking?
  }

  /** Only requests that fit an empty budget go past the first check, and only they derive. */
  ghost predicate OnlySatisfiable(s: State) {
    forall i :: 0 <= i < |s.callers| && s.callers[i].phase != Start && s.callers[i].phase != Finished(Busy) ==>
                Satisfiable(s.callers[i])
  }

  ghost predicate Inv(s: State) {
    Conserved(s) && OneNegotiator(s) && NoLostWakeup(s) && OnlySatisfiable(s)
  }

  lemma InitHolds(s: State)
    requires Init(s)
    ensures Inv(s)
  {
    TotalOfZeros(HeldKib, s.callers);
    TotalOfZeros(HeldLanes, s.callers);
  }

  lemma StepConserves(s: State, step: Step)
    requires Inv(s) && Enabled(s, step)
    ensures Conserved(Apply(s, step))
  {
    var t := Apply(s, step);
    TotalAfterUpdate(HeldKib, s.callers, step.i, t.callers[step.i]);
    TotalAfterUpdate(HeldLanes, s.callers, step.i, t.callers[step.i]);
  }

  lemma StepKeepsOneNegotiator(s: State, step: Step)
    requires Inv(s) && Enabled(s, step)
    ensures OneNegotiator(Apply(s, step))
  {
    hide HoldsQueue;
    var t := Apply(s, step);
    var i := step.i;
    TokenMovesWithItsHolder(s, step);
    assert forall j :: 0 <= j < |s.callers| && j != i ==> t.callers[j] == s.callers[j];
  }

  lemma TokenMovesWithItsHolder(s: State, step: Step)
    requires Enabled(s, step)
    ensures
      var t := Apply(s, step);
      var before, after := HoldsQueue(s.callers[step.i]), HoldsQueue(t.callers[step.i]);
      && (!before && after ==> !s.shared.admit && t.shared.admit)
      && (before && !after ==> !t.shared.admit)
      && (before == after ==> t.shared.admit == s.shared.admit)
  {}

  lemma StepLosesNoWakeup(s: State, step: Step)
    requires Inv(s) && Enabled(s, step)
    ensures NoLostWakeup(Apply(s, step))
  {
    var t := Apply(s, step);
    var i := step.i;
    forall w | 0 <= w < |t.callers| && t.callers[w].phase == Waiting &&
               Fits(t.shared, t.callers[w].kib, t.callers[w].lanes)
      ensures t.shared.wake || exists j :: 0 <= j < |t.callers| && t.callers[j].phase.Poking?
    {
      if step.GiveBack? {
        assert t.callers[i].phase.Poking?;
      } else if !step.Poke? {
        assert w != i;
        assert HoldsQueue(s.callers[w]);
        if !s.shared.wake {
          var j :| 0 <= j < |s.callers| && s.callers[j].phase.Poking?;
          assert t.callers[j].phase.Poking?;
        }
      }
    }
  }

  /** Every step keeps the invariant. */
  lemma StepKeepsInv(s: State, step: Step)
    requires Inv(s) && Enabled(s, step)
    ensures Inv(Apply(s, step))
  {
    StepConserves(s, step);
    StepKeepsOneNegotiator(s, step);
    StepLosesNoWakeup(s, step);
  }

  /** Conservation, one negotiator and no lost wakeup hold in every reachable state. */
  lemma {:induction false} RunsKeepInv(s: State, steps: seq<Step>)
    requires Inv(s) && IsRun(s, steps)
    ensures Inv(After(s, steps))
    decreases |steps|
  {
    if steps != [] {
      StepKeepsInv(s, steps[0]);
      RunsKeepInv(Apply(s, steps[0]), steps[1..]);
    }
  }

  // ----- progress

  predicate InProgress(c: Caller) {
    c.phase != Start && !c.phase.Finished?
  }

  /** With no derivation running, someone past the door can always move without a timer. */
  lemma NeverStuck(s: State, i: nat) returns (step: Step)
    requires Inv(s) && i < |s.callers| && InProgress(s.callers[i])
    requires forall j :: 0 <= j < |s.callers| ==> s.callers[j].phase != Deriving
    ensures Enabled(s, step) && !step.TimeOut? && !step.Enter?
  {
    if k :| 0 <= k < |s.callers| && InProgress(s.callers[k]) && s.callers[k].phase != Queued
                                 && s.callers[k].phase != Waiting {
      var phase := s.callers[k].phase;
      step :=
        if phase == Checking then Check(k)
        else if phase.Releasing? then GiveBack(k)
        else if phase.Poking? then Poke(k)
        else Leave(k);
    } else if w :| 0 <= w < |s.callers| && s.callers[w].phase == Waiting {
      TotalOfZeros(HeldKib, s.callers);
      TotalOfZeros(HeldLanes, s.callers);
      step := Wake(w);
    } else {
      step := Admit(i);
    }
  }

  lemma SomeStep(s: State, i: nat) returns (step: Step)
    requires Inv(s) && i < |s.callers| && !s.callers[i].phase.Finished?
    ensures Enabled(s, step) && !step.TimeOut?
  {
    if s.callers[i].phase == Start {
      step := Enter(i);
    } else if j :| 0 <= j < |s.callers| && s.callers[j].phase == Deriving {
      step := Finish(j, false);
    } else {
      step := NeverStuck(s, i);
    }
  }

  /** While one caller negotiates, nobody else's step makes less room. */
  lemma RoomNeverShrinksUnderNegotiator(s: State, i: nat, step: Step)
    requires Inv(s) && Enabled(s, step)
    requires i < |s.callers| && step.i != i && s.callers[i].phase in {Checking, Waiting}
    ensures Apply(s, step).shared.free >= s.shared.free
    ensures Apply(s, step).shared.freeLanes >= s.shared.freeLanes
  {
    assert HoldsQueue(s.callers[i]);
    assert !HoldsQueue(s.callers[step.i]);
  }

  /** How many more steps a caller can take when no timer fires. */
  function Rank(c: Caller): int {
    match c.phase
    case Start => 11
    case Queued => 10
    case Checking => 9
    case Waiting => 8
    case Reserved => 7
    case Deriving => 6
    case Releasing(_) => 5
    case Poking(_) => 4
    case GivingUp => 1
    case Finished(_) => 0
  }

  function Measure(s: State): int {
    Total(Rank, s.callers) + if s.shared.wake then 2 else 0
  }

  lemma StepsDecrease(s: State, step: Step)
    requires Enabled(s, step) && !step.TimeOut?
    ensures Measure(Apply(s, step)) < Measure(s)
  {
    var t := Apply(s, step);
    TotalAfterUpdate(Rank, s.callers, step.i, t.callers[step.i]);
  }

  ghost predicate TimerFree(steps: seq<Step>) {
    forall k :: 0 <= k < |steps| ==> !steps[k].TimeOut?
  }

  /** No run goes on forever without a timer: its length is bounded from the start. */
  lemma {:induction false} TimerFreeRunsAreBounded(s: State, steps: seq<Step>)
    requires IsRun(s, steps) && TimerFree(steps)
    ensures |steps| + Measure(After(s, steps)) <= Measure(s)
    ensures Measure(After(s, steps)) >= 0
    decreases |steps|
  {
    if steps == [] {
      TotalIsNotNegative(Rank, s.callers);
    } else {
      StepsDecrease(s, steps[0]);
      TimerFreeRunsAreBounded(Apply(s, steps[0]), steps[1..]);
    }
  }

  /** Without timers nobody who can be served is turned away. */
  ghost predicate NobodyTurnedAway(s: State) {
    forall i :: 0 <= i < |s.callers| ==>
                (s.callers[i].phase == Finished(Busy) ==> !Satisfiable(s.callers[i])) &&
                s.callers[i].phase != GivingUp &&
                (s.callers[i].phase.Releasing? || s.callers[i].phase.Poking? ==> s.callers[i].phase.outcome != Busy)
  }

  lemma {:induction false} TimerFreeRunsTurnNobodyAway(s: State, steps: seq<Step>)
    requires NobodyTurnedAway(s) && IsRun(s, steps) && TimerFree(steps)
    ensures NobodyTurnedAway(After(s, steps))
    ensures |After(s, steps).callers| == |s.callers|
    decreases |steps|
  {
    if steps != [] {
      TimerFreeRunsTurnNobodyAway(Apply(s, steps[0]), steps[1..]);
    }
  }

  /** A timer-free run from the start that cannot be extended has finished every caller: the
      requests that exceed a whole budget were refused, every other one ran its derivation,
      and everything reserved is free again. Such a run takes at most 11 steps a caller. */
  lemma CompleteRunsServeEveryone(s: State, steps: seq<Step>)
    requires Init(s) && IsRun(s, steps) && TimerFree(steps)
    requires forall step :: Enabled(After(s, steps), step) ==> step.TimeOut?
    ensures
      var t := After(s, steps);
      && |t.callers| == |s.callers|
      && t.shared.(wake := false) == INITIAL
      && forall i :: 0 <= i < |t.callers| ==>
                     && t.callers[i].phase.Finished?
                     && (t.callers[i].phase.outcome == Busy <==> !Satisfiable(t.callers[i]))
    ensures |steps| <= 11 * |s.callers|
  {
    var t := After(s, steps);
    InitHolds(s);
    RunsKeepInv(s, steps);
    TimerFreeRunsTurnNobodyAway(s, steps);
    forall i | 0 <= i < |t.callers|
      ensures t.callers[i].phase.Finished?
    {
      if !t.callers[i].phase.Finished? {
        var step := SomeStep(t, i);
      }
    }
    AllFinishedRestores(t);
    TimerFreeRunsAreBounded(s, steps);
    TotalOfStarts(s.callers);
  }

  lemma {:induction false} TotalOfStarts(callers: seq<Caller>)
    requires forall i :: 0 <= i < |callers| ==> callers[i].phase == Start
    ensures Total(Rank, callers) == 11 * |callers|
  {
    if callers != [] {
      TotalOfStarts(callers[1..]);
    }
  }

  /** However callers left, by deriving, panicking or timing out, once all have left the
      queue is free and both budgets are whole. */
  lemma AllFinishedRestores(s: State)
    requires Inv(s)
    requires forall i :: 0 <= i < |s.callers| ==> s.callers[i].phase.Finished?
    ensures s.shared.(wake := false) == INITIAL
  {
    TotalOfZeros(HeldKib, s.callers);
    TotalOfZeros(HeldLanes, s.callers);
  }
}
