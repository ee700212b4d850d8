/** The verifier's two mutexes alone: where a lookup takes and releases each, whatever it
    decides in between. The sections that KeyCache treats as single steps are the stretches
    here during which the state mutex is held. */
module KeyLocks {
  import KeyCache
  import opened Sums
  import opened Wrappers

  /** AtMu is waiting for the state mutex, InMu holding it, AtFetchMu waiting for the fetch
      mutex; from the second look to Leaving the fetch mutex is held. */
  datatype Place =
    | AtMu
    | InMu
    | AtFetchMu
    | AtMuAgain
    | InMuAgain
    | Fetching
    | AtMuToFinish
    | InMuToFinish
    | Leaving
    | Done

  datatype State = State(mu: bool, fetchMu: bool, places: seq<Place>)

  /** A lookup moves on to another place. */
  datatype Step = Step(i: nat, to: Place)

  /** The first look ends in an answer or in line for the fetch mutex, the second in leaving
      or in a fetch; everything else has one way on. */
  predicate Follows(from: Place, to: Place) {
    match from
    case AtMu => to == InMu
    case InMu => to == Done || to == AtFetchMu
    case AtFetchMu => to == AtMuAgain
    case AtMuAgain => to == InMuAgain
    case InMuAgain => to == Leaving || to == Fetching
    case Fetching => to == AtMuToFinish
    case AtMuToFinish => to == InMuToFinish
    case InMuToFinish => to == Leaving
    case Leaving => to == Done
    case Done => false
  }

  predicate HoldsMu(p: Place) {
    p == InMu || p == InMuAgain || p == InMuToFinish
  }

  predicate HoldsFetchMu(p: Place) {
    p == AtMuAgain || p == InMuAgain || p == Fetching || p == AtMuToFinish || p == InMuToFinish || p == Leaving
  }

  predicate Enabled(s: State, step: Step) {
    && step.i < |s.places| && Follows(s.places[step.i], step.to)
    && (HoldsMu(step.to) ==> !s.mu)
    && (HoldsFetchMu(step.to) && !HoldsFetchMu(s.places[step.i]) ==> !s.fetchMu)
  }

  function Apply(s: State, step: Step): State
    requires Enabled(s, step)
  {
    var from := s.places[step.i];
    State(if HoldsMu(from) || HoldsMu(step.to) then HoldsMu(step.to) else s.mu,
          if HoldsFetchMu(from) || HoldsFetchMu(step.to) then HoldsFetchMu(step.to) else s.fetchMu,
          s.places[step.i := step.to])
  }

  ghost predicate Init(s: State) {
    !s.mu && !s.fetchMu && forall i :: 0 <= i < |s.places| ==> s.places[i] == AtMu
  }

  ghost predicate IsRun(s: State, steps: seq<Step>)
    decreases |steps|
  {
    steps == [] || (Enabled(s, steps[0]) && IsRun(Apply(s, steps[0]), steps[1..]))
  }

  function After(s: State, steps: seq<Step>): State
    requires IsRun(s, steps)
    decreases |steps|
  {
    if steps == [] then s else After(Apply(s, steps[0]), steps[1..])
  }

  // ----- what every run keeps

  ghost predicate MuHasOneHolder(s: State) {
    && (s.mu <==> exists i :: 0 <= i < |s.places| && HoldsMu(s.places[i]))
    && forall i, j | 0 <= i < |s.places| && 0 <= j < |s.places| ::
         HoldsMu(s.places[i]) && HoldsMu(s.places[j]) ==> i == j
  }

  ghost predicate FetchMuHasOneHolder(s: State) {
    && (s.fetchMu <==> exists i :: 0 <= i < |s.places| && HoldsFetchMu(s.places[i]))
    && forall i, j | 0 <= i < |s.places| && 0 <= j < |s.places| ::
         HoldsFetchMu(s.places[i]) && HoldsFetchMu(s.places[j]) ==> i == j
  }

  ghost predicate Inv(s: State) {
    MuHasOneHolder(s) && FetchMuHasOneHolder(s)
  }

  lemma StepKeepsMuHolder(s: State, step: Step)
    requires MuHasOneHolder(s) && Enabled(s, step)
    ensures MuHasOneHolder(Apply(s, step))
  {
    hide HoldsFetchMu;
    var t := Apply(s, step);
    assert t.places[step.i] == step.to;
    assert forall j :: 0 <= j < |s.places| && j != step.i ==> t.places[j] == s.places[j];
    assert HoldsMu(s.places[step.i]) ==> !HoldsMu(step.to);
  }

  lemma StepKeepsFetchMuHolder(s: State, step: Step)
    requires FetchMuHasOneHolder(s) && Enabled(s, step)
    ensures FetchMuHasOneHolder(Apply(s, step))
  {
    hide HoldsMu;
    var t := Apply(s, step);
    assert t.places[step.i] == step.to;
    assert forall j :: 0 <= j < |s.places| && j != step.i ==> t.places[j] == s.places[j];
  }

  /** Each mutex has at most one holder, and is held exactly while it has one. */
  lemma {:induction false} RunsKeepInv(s: State, steps: seq<Step>)
    requires Inv(s) && IsRun(s, steps)
    ensures Inv(After(s, steps))
    decreases |steps|
  {
    hide MuHasOneHolder, FetchMuHasOneHolder, Apply, Enabled;
    if steps != [] {
      StepKeepsMuHolder(s, steps[0]);
      StepKeepsFetchMuHolder(s, steps[0]);
      RunsKeepInv(Apply(s, steps[0]), steps[1..]);
    }
  }

  // ----- progress

  /** The way on that a lookup can take without finding an answer. */
  function Onward(p: Place): Place {
    match p
    case AtMu => InMu
    case InMu => AtFetchMu
    case AtFetchMu => AtMuAgain
    case AtMuAgain => InMuAgain
    case InMuAgain => Fetching
    case Fetching => AtMuToFinish
    case AtMuToFinish => InMuToFinish
    case InMuToFinish => Leaving
    case Leaving => Done
    case Done => Done
  }

  /** A lookup waiting for the state mutex waits for a holder that can release it at once:
      never for a fetch, and never for one that waits itself. */
  lemma StateMutexIsNeverBlocked(s: State, i: nat) returns (step: Step)
    requires Inv(s) && i < |s.places| && s.places[i] in {AtMu, AtMuAgain, AtMuToFinish}
    ensures Enabled(s, step) && (step.i == i || HoldsMu(s.places[step.i]))
  {
    if s.mu {
      var j :| 0 <= j < |s.places| && HoldsMu(s.places[j]);
      step := Step(j, Onward(s.places[j]));
    } else {
      step := Step(i, Onward(s.places[i]));
    }
  }

  /** The two mutexes never deadlock: while a lookup is unfinished, some lookup can move. */
  lemma NeverStuck(s: State, i: nat) returns (step: Step)
    requires Inv(s) && i < |s.places| && s.places[i] != Done
    ensures Enabled(s, step)
  {
    hide MuHasOneHolder;
    var k := i;
    if s.places[i] == AtFetchMu && s.fetchMu {
      var j :| 0 <= j < |s.places| && HoldsFetchMu(s.places[j]);
      k := j;
    }
    if s.places[k] in {AtMu, AtMuAgain, AtMuToFinish} {
      step := StateMutexIsNeverBlocked(s, k);
    } else {
      step := Step(k, Onward(s.places[k]));
    }
  }

  function Rank(p: Place): int {
    match p
    case AtMu => 9
    case InMu => 8
    case AtFetchMu => 7
    case AtMuAgain => 6
    case InMuAgain => 5
    case Fetching => 4
    case AtMuToFinish => 3
    case InMuToFinish => 2
    case Leaving => 1
    case Done => 0
  }

  lemma {:induction false} RunsAreBounded(s: State, steps: seq<Step>)
    requires IsRun(s, steps)
    ensures |steps| + Total(Rank, After(s, steps).places) <= Total(Rank, s.places)
    ensures |After(s, steps).places| == |s.places|
    decreases |steps|
  {
    if steps != [] {
      TotalAfterUpdate(Rank, s.places, steps[0].i, steps[0].to);
      RunsAreBounded(Apply(s, steps[0]), steps[1..]);
    }
  }

  lemma {:induction false} TotalOfStarts(places: seq<Place>)
    requires forall i :: 0 <= i < |places| ==> places[i] == AtMu
    ensures Total(Rank, places) == 9 * |places|
  {
    if places != [] {
      TotalOfStarts(places[1..]);
    }
  }

  /** A run that cannot go on has finished every lookup, within nine steps each. */
  lemma CompleteRunsFinishEveryone(s: State, steps: seq<Step>)
    requires Init(s) && IsRun(s, steps)
    requires forall step :: !Enabled(After(s, steps), step)
    ensures forall i :: 0 <= i < |After(s, steps).places| ==> After(s, steps).places[i] == Done
    ensures !After(s, steps).mu && !After(s, steps).fetchMu
    ensures |steps| <= 9 * |s.places|
  {
    hide Enabled, Apply, IsRun, After;
    RunsKeepInv(s, steps);
    RunsAreBounded(s, steps);
    var t := After(s, steps);
    TotalIsNotNegative(Rank, t.places);
    TotalOfStarts(s.places);
    forall i | 0 <= i < |t.places|
      ensures t.places[i] == Done
    {
      if t.places[i] != Done {
        var step := NeverStuck(t, i);
      }
    }
  }

  // ----- sections may be taken as undivided

  /** Every section is undivided: whoever takes the state mutex gives it back next. */
  predicate Atomic(steps: seq<Step>)
    decreases |steps|
  {
    steps == [] ||
    if HoldsMu(steps[0].to) then
      |steps| >= 2 && steps[1].i == steps[0].i && !HoldsMu(steps[1].to) && Atomic(steps[2..])
    else Atomic(steps[1..])
  }

  /** The steps of one lookup. */
  function Own(steps: seq<Step>, i: nat): seq<Step>
    decreases |steps|
  {
    if steps == [] then []
    else (if steps[0].i == i then [steps[0]] else []) + Own(steps[1..], i)
  }

  /** The sections in the order in which they are entered. */
  function Sections(steps: seq<Step>): seq<Step>
    decreases |steps|
  {
    if steps == [] then []
    else (if HoldsMu(steps[0].to) then [steps[0]] else []) + Sections(steps[1..])
  }

  /** Put off every entry into a section until just before its exit; pending is the entry
      being put off. */
  function Undivided(steps: seq<Step>, pending: Option<Step>): seq<Step>
    decreases |steps|
  {
    if steps == [] then []
    else
      match pending
      case None =>
        if HoldsMu(steps[0].to) then Undivided(steps[1..], Some(steps[0]))
        else [steps[0]] + Undivided(steps[1..], None)
      case Some(entry) =>
        if steps[0].i == entry.i then [entry] + ([steps[0]] + Undivided(steps[1..], None))
        else [steps[0]] + Undivided(steps[1..], pending)
  }

  function Outside(p: Place): Place {
    if p == InMu then AtMu else if p == InMuAgain then AtMuAgain else AtMuToFinish
  }

  /** The state as it is without the entry being put off. */
  function Without(s: State, pending: Option<Step>): State {
    match pending
    case None => s
    case Some(entry) =>
      if entry.i < |s.places| then State(false, s.fetchMu, s.places[entry.i := Outside(entry.to)]) else s
  }

  ghost predicate Pends(s: State, pending: Option<Step>) {
    match pending
    case None => !s.mu
    case Some(entry) => s.mu && entry.i < |s.places| && s.places[entry.i] == entry.to && HoldsMu(entry.to)
  }

  lemma Entering(s: State, entry: Step)
    requires Inv(s) && !s.mu && Enabled(s, entry) && HoldsMu(entry.to)
    ensures Pends(Apply(s, entry), Some(entry)) && Without(Apply(s, entry), Some(entry)) == s
  {
    var t := Apply(s, entry);
    assert t.places[entry.i := s.places[entry.i]] == s.places;
  }

  lemma Reentering(s: State, entry: Step)
    requires Inv(s) && Pends(s, Some(entry))
    ensures Enabled(Without(s, Some(entry)), entry) && Apply(Without(s, Some(entry)), entry) == s
  {
    var t := Without(s, Some(entry));
    assert HoldsFetchMu(entry.to) ==> s.fetchMu;
    assert t.places[entry.i := entry.to] == s.places;
  }

  lemma LeavingFrees(s: State, entry: Step, step: Step)
    requires Inv(s) && Pends(s, Some(entry)) && Enabled(s, step) && step.i == entry.i
    ensures !HoldsMu(step.to) && Pends(Apply(s, step), None)
  {}

  /** While one lookup is in a section, the others' steps do not touch the state mutex, and are
      the same steps without the entry. */
  lemma Meanwhile(s: State, entry: Step, step: Step)
    requires Inv(s) && Pends(s, Some(entry)) && Enabled(s, step) && step.i != entry.i
    ensures !HoldsMu(step.to) && Pends(Apply(s, step), Some(entry))
    ensures Enabled(Without(s, Some(entry)), step)
    ensures Apply(Without(s, Some(entry)), step) == Without(Apply(s, step), Some(entry))
  {
    assert HoldsMu(s.places[entry.i]) && !HoldsMu(s.places[step.i]);
    var from := Outside(entry.to);
    assert s.places[entry.i := from][step.i := step.to] == s.places[step.i := step.to][entry.i := from];
  }

  lemma NotEntering(s: State, step: Step)
    requires Inv(s) && !s.mu && Enabled(s, step) && !HoldsMu(step.to)
    ensures Pends(Apply(s, step), None)
  {}

  lemma {:induction false} UndividedRuns(s: State, steps: seq<Step>, pending: Option<Step>)
    requires Inv(s) && Pends(s, pending) && IsRun(s, steps) && !After(s, steps).mu
    ensures
      var whole := Undivided(steps, pending);
      IsRun(Without(s, pending), whole) && After(Without(s, pending), whole) == After(s, steps)
    ensures Atomic(Undivided(steps, pending))
    decreases |steps|
  {
    if steps != [] {
      hide Inv, Pends, Enabled, Apply, Without, Atomic, HoldsMu;
      var step, rest := steps[0], steps[1..];
      var t := Apply(s, step);
      StepKeepsInv(s, step);
      if pending.None? {
        if HoldsMu(step.to) {
          Outset(s, pending);
          Entering(s, step);
          UndividedRuns(t, rest, Some(step));
        } else {
          Outset(s, pending);
          NotEntering(s, step);
          UndividedRuns(t, rest, None);
          Outset(t, None);
          ThenStep(s, step, Undivided(rest, None));
          AtomicStep(step, Undivided(rest, None));
        }
      } else if step.i == pending.value.i {
        var entry := pending.value;
        Reentering(s, entry);
        LeavingFrees(s, entry, step);
        UndividedRuns(t, rest, None);
        Outset(t, None);
        ThenStep(s, step, Undivided(rest, None));
        ThenStep(Without(s, pending), entry, [step] + Undivided(rest, None));
        Outset(s, pending);
        AtomicSection(entry, step, Undivided(rest, None));
      } else {
        Meanwhile(s, pending.value, step);
        UndividedRuns(t, rest, pending);
        ThenStep(Without(s, pending), step, Undivided(rest, pending));
        AtomicStep(step, Undivided(rest, pending));
      }
    } else {
      NoStep(Without(s, pending));
    }
  }

  lemma StepKeepsInv(s: State, step: Step)
    requires Inv(s) && Enabled(s, step)
    ensures Inv(Apply(s, step))
  {
    hide MuHasOneHolder, FetchMuHasOneHolder, Apply, Enabled;
    StepKeepsMuHolder(s, step);
    StepKeepsFetchMuHolder(s, step);
  }

  lemma Outset(s: State, pending: Option<Step>)
    requires Pends(s, pending)
    ensures pending.None? ==> Without(s, pending) == s && !s.mu
    ensures pending.Some? ==> HoldsMu(pending.value.to)
  {}

  lemma ThenStep(s: State, step: Step, steps: seq<Step>)
    requires Enabled(s, step) && IsRun(Apply(s, step), steps)
    ensures IsRun(s, [step] + steps) && After(s, [step] + steps) == After(Apply(s, step), steps)
  {
    hide Enabled, Apply;
    assert ([step] + steps)[1..] == steps;
  }

  lemma AtomicStep(step: Step, steps: seq<Step>)
    requires Atomic(steps) && !HoldsMu(step.to)
    ensures Atomic([step] + steps)
  {
    assert ([step] + steps)[1..] == steps;
  }

  lemma AtomicSection(entry: Step, step: Step, steps: seq<Step>)
    requires Atomic(steps) && HoldsMu(entry.to) && !HoldsMu(step.to) && entry.i == step.i
    ensures Atomic([entry] + ([step] + steps))
  {
    assert ([entry] + ([step] + steps))[2..] == steps;
  }

  function Entry(pending: Option<Step>): seq<Step> {
    if pending.Some? then [pending.value] else []
  }

  function OwnEntry(pending: Option<Step>, i: nat): seq<Step> {
    if pending.Some? && pending.value.i == i then [pending.value] else []
  }

  /** Putting entries off changes no lookup's own steps. */
  lemma {:induction false} UndividedKeepsSteps(s: State, steps: seq<Step>, pending: Option<Step>, i: nat)
    requires Inv(s) && Pends(s, pending) && IsRun(s, steps) && !After(s, steps).mu
    ensures Own(Undivided(steps, pending), i) == OwnEntry(pending, i) + Own(steps, i)
    decreases |steps|
  {
    hide Inv, Pends, Enabled, Apply, Without, HoldsMu, Own;
    if steps == [] {
      FinallyFree(s, pending);
      assert Own(Undivided(steps, pending), i) == Own(steps, i);
    } else {
      var step, rest := steps[0], steps[1..];
      var t := Apply(s, step);
      StepKeepsInv(s, step);
      Outset(s, pending);
      assert steps == [step] + rest;
      OneMoreOwn(step, rest, i);
      if pending.None? {
        if HoldsMu(step.to) {
          Entering(s, step);
          UndividedKeepsSteps(t, rest, Some(step), i);
        } else {
          NotEntering(s, step);
          UndividedKeepsSteps(t, rest, None, i);
          OneMoreOwn(step, Undivided(rest, None), i);
        }
      } else if step.i == pending.value.i {
        var entry := pending.value;
        LeavingFrees(s, entry, step);
        UndividedKeepsSteps(t, rest, None, i);
        OneMoreOwn(step, Undivided(rest, None), i);
        OneMoreOwn(entry, [step] + Undivided(rest, None), i);
      } else {
        Meanwhile(s, pending.value, step);
        UndividedKeepsSteps(t, rest, pending, i);
        OneMoreOwn(step, Undivided(rest, pending), i);
      }
    }
  }

  /** Nor the order of the sections. */
  lemma {:induction false} UndividedKeepsSections(s: State, steps: seq<Step>, pending: Option<Step>)
    requires Inv(s) && Pends(s, pending) && IsRun(s, steps) && !After(s, steps).mu
    ensures Sections(Undivided(steps, pending)) == Entry(pending) + Sections(steps)
    decreases |steps|
  {
    hide Inv, Pends, Enabled, Apply, Without, HoldsMu, Sections;
    if steps == [] {
      FinallyFree(s, pending);
    } else {
      var step, rest := steps[0], steps[1..];
      var t := Apply(s, step);
      StepKeepsInv(s, step);
      Outset(s, pending);
      assert steps == [step] + rest;
      OneMoreSection(step, rest);
      if pending.None? {
        if HoldsMu(step.to) {
          Entering(s, step);
          UndividedKeepsSections(t, rest, Some(step));
        } else {
          NotEntering(s, step);
          UndividedKeepsSections(t, rest, None);
          OneMoreSection(step, Undivided(rest, None));
        }
      } else if step.i == pending.value.i {
        var entry := pending.value;
        LeavingFrees(s, entry, step);
        UndividedKeepsSections(t, rest, None);
        OneMoreSection(step, Undivided(rest, None));
        OneMoreSection(entry, [step] + Undivided(rest, None));
      } else {
        Meanwhile(s, pending.value, step);
        UndividedKeepsSections(t, rest, pending);
        OneMoreSection(step, Undivided(rest, pending));
      }
    }
  }

  lemma FinallyFree(s: State, pending: Option<Step>)
    requires Pends(s, pending) && !s.mu
    ensures pending.None?
  {}

  lemma OneMoreOwn(step: Step, steps: seq<Step>, i: nat)
    ensures Own([step] + steps, i) == (if step.i == i then [step] else []) + Own(steps, i)
  {
    assert ([step] + steps)[1..] == steps;
  }

  lemma OneMoreSection(step: Step, steps: seq<Step>)
    ensures Sections([step] + steps) == (if HoldsMu(step.to) then [step] else []) + Sections(steps)
  {
    assert ([step] + steps)[1..] == steps;
  }

  /** Every interleaving of lock operations that leaves the state mutex free amounts to one in
      which each section is undivided: it ends in the same state, every lookup takes the same
      steps, and the sections are entered in the same order. */
  lemma SectionsAreAtomic(s: State, steps: seq<Step>) returns (whole: seq<Step>)
    requires Init(s) && IsRun(s, steps) && !After(s, steps).mu
    ensures Atomic(whole) && IsRun(s, whole) && After(s, whole) == After(s, steps)
    ensures forall i: nat :: Own(whole, i) == Own(steps, i)
    ensures Sections(whole) == Sections(steps)
  {
    whole := Undivided(steps, None);
    UndividedRuns(s, steps, None);
    forall i: nat
      ensures Own(whole, i) == Own(steps, i)
    {
      UndividedKeepsSteps(s, steps, None, i);
    }
    UndividedKeepsSections(s, steps, None);
  }

  // ----- the cache's steps, lock by lock

  function PlaceOf(phase: KeyCache.Phase): Place {
    match phase
    case Idle => AtMu
    case Looking(_) => AtMu
    case WantsFetch => AtFetchMu
    case Rechecking => AtMuAgain
    case Fetching => Fetching
    case Unlocking(_) => Leaving
    case Done(_) => Done
  }

  /** The locks of a cache state, between its sections. */
  function Locks(s: KeyCache.State): State {
    State(false, s.fetchHeld, seq(|s.calls|, i requires 0 <= i < |s.calls| => PlaceOf(s.calls[i].phase)))
  }

  /** The lock operations a step of the cache stands for, given where it leads. */
  function Path(step: KeyCache.Step, to: Place): seq<Step> {
    match step
    case Tick(_) => []
    case Begin(_) => []
    case Look(i) => [Step(i, InMu), Step(i, to)]
    case LockFetch(i) => [Step(i, AtMuAgain)]
    case LookAgain(i, _, _, _) => [Step(i, InMuAgain), Step(i, to)]
    case EndFetch(i, _) => [Step(i, AtMuToFinish), Step(i, InMuToFinish), Step(i, Leaving)]
    case UnlockFetch(i) => [Step(i, Done)]
  }

  lemma OneStepRun(s: State, step: Step)
    requires Enabled(s, step)
    ensures IsRun(s, [step]) && After(s, [step]) == Apply(s, step)
  {
    hide Enabled, Apply;
    assert [step][1..] == [];
    assert IsRun(Apply(s, step), []);
  }

  lemma TwoStepRun(s: State, first: Step, second: Step)
    requires Enabled(s, first) && Enabled(Apply(s, first), second)
    ensures IsRun(s, [first, second]) && After(s, [first, second]) == Apply(Apply(s, first), second)
  {
    hide Enabled, Apply;
    OneStepRun(Apply(s, first), second);
    assert [first, second][1..] == [second];
  }

  lemma ThreeStepRun(s: State, first: Step, second: Step, third: Step)
    requires Enabled(s, first) && Enabled(Apply(s, first), second)
    requires Enabled(Apply(Apply(s, first), second), third)
    ensures IsRun(s, [first, second, third])
    ensures After(s, [first, second, third]) == Apply(Apply(Apply(s, first), second), third)
  {
    hide Enabled, Apply;
    TwoStepRun(Apply(s, first), second, third);
    assert [first, second, third][1..] == [second, third];
  }

  lemma LookRun(s: State, i: nat, to: Place)
    requires i < |s.places| && !s.mu && s.places[i] == AtMu && Follows(InMu, to)
    ensures
      var path := [Step(i, InMu), Step(i, to)];
      IsRun(s, path) && After(s, path) == State(false, s.fetchMu, s.places[i := to])
  {
    hide IsRun, After;
    TwoStepRun(s, Step(i, InMu), Step(i, to));
    assert s.places[i := InMu][i := to] == s.places[i := to];
  }

  lemma LookAgainRun(s: State, i: nat, to: Place)
    requires i < |s.places| && !s.mu && s.fetchMu && s.places[i] == AtMuAgain && Follows(InMuAgain, to)
    ensures
      var path := [Step(i, InMuAgain), Step(i, to)];
      IsRun(s, path) && After(s, path) == State(false, true, s.places[i := to])
  {
    hide IsRun, After;
    TwoStepRun(s, Step(i, InMuAgain), Step(i, to));
    assert s.places[i := InMuAgain][i := to] == s.places[i := to];
  }

  lemma EndFetchRun(s: State, i: nat)
    requires i < |s.places| && !s.mu && s.fetchMu && s.places[i] == Fetching
    ensures
      var path := [Step(i, AtMuToFinish), Step(i, InMuToFinish), Step(i, Leaving)];
      IsRun(s, path) && After(s, path) == State(false, true, s.places[i := Leaving])
  {
    hide IsRun, After;
    ThreeStepRun(s, Step(i, AtMuToFinish), Step(i, InMuToFinish), Step(i, Leaving));
    assert s.places[i := AtMuToFinish][i := InMuToFinish][i := Leaving] == s.places[i := Leaving];
  }

  /** What a step changes in the locks: one lookup's place, and the fetch mutex with it. */
  lemma StepMovesOnePlace(s: KeyCache.State, config: KeyCache.Config, step: KeyCache.Step)
    requires s.sets != [] && KeyCache.Enabled(s, step)
    ensures
      var t := KeyCache.Apply(s, config, step);
      && |t.calls| == |s.calls|
      && (step.Tick? || step.Begin? ==> Locks(t) == Locks(s))
      && (!step.Tick? ==>
            && Locks(t).places == Locks(s).places[step.i := PlaceOf(t.calls[step.i].phase)]
            && t.fetchHeld == if step.LockFetch? then true else if step.UnlockFetch? then false else s.fetchHeld)
  {
    hide KeyCache.Peek, KeyCache.Recheck, KeyCache.Conclude, KeyCache.Install;
  }

  lemma StepLeads(s: KeyCache.State, config: KeyCache.Config, step: KeyCache.Step)
    requires KeyCache.Inv(s, config) && KeyCache.Enabled(s, step) && !step.Tick?
    ensures
      var t := KeyCache.Apply(s, config, step);
      && |t.calls| == |s.calls|
      && var from, to := PlaceOf(s.calls[step.i].phase), PlaceOf(t.calls[step.i].phase);
      match step
      case Begin(_) => true
      case Look(_) => from == AtMu && Follows(InMu, to)
      case LockFetch(_) => from == AtFetchMu && to == AtMuAgain && !s.fetchHeld
      case LookAgain(_, _, _, _) => from == AtMuAgain && Follows(InMuAgain, to) && s.fetchHeld
      case EndFetch(_, _) => from == Fetching && to == Leaving && s.fetchHeld
      case UnlockFetch(_) => from == Leaving && to == Done
  {
    hide KeyCache.Peek, KeyCache.Recheck, KeyCache.Conclude, KeyCache.Install, KeyCache.Spaced, KeyCache.Truthful;
    if KeyCache.HoldsFetch(s.calls[step.i].phase) {
      assert s.fetchHeld;
    }
  }

  /** Every step of the cache takes and releases the two mutexes as the code does, with the
      state mutex free before and after. */
  lemma StepsAreLockRuns(s: KeyCache.State, config: KeyCache.Config, step: KeyCache.Step)
    requires KeyCache.Inv(s, config) && KeyCache.Enabled(s, step)
    ensures
      var t := KeyCache.Apply(s, config, step);
      var path := Path(step, if step.Tick? then Done else PlaceOf(t.calls[step.i].phase));
      |t.calls| == |s.calls| && IsRun(Locks(s), path) && After(Locks(s), path) == Locks(t)
  {
    hide KeyCache.Apply, KeyCache.Spaced, KeyCache.Truthful, KeyCache.SingleFlight, PlaceOf, IsRun, After;
    StepMovesOnePlace(s, config, step);
    var a := Locks(s);
    if step.Tick? || step.Begin? {
      NoStep(a);
    } else {
      StepLeads(s, config, step);
      var i := step.i;
      var to := PlaceOf(KeyCache.Apply(s, config, step).calls[i].phase);
      if step.Look? {
        LookRun(a, i, to);
      } else if step.LookAgain? {
        LookAgainRun(a, i, to);
      } else if step.EndFetch? {
        EndFetchRun(a, i);
      } else {
        OneStepRun(a, Step(i, to));
      }
    }
  }

  lemma NoStep(s: State)
    ensures IsRun(s, []) && After(s, []) == s
  {}
}
