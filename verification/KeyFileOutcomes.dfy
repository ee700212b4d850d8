/** What becomes of each process that races for a key file, told from the steps of the run:
    which of them failed and which crashed. */
module KeyFileOutcomes {
  import opened Wrappers
  import opened KeyFile

  predicate Fails(steps: seq<Step>, p: nat) {
    steps != [] && (steps[0] == Fail(p) || Fails(steps[1..], p))
  }

  predicate Crashes(steps: seq<Step>, p: nat) {
    steps != [] && (steps[0] == Crash(p) || Crashes(steps[1..], p))
  }

  /** Only a process that failed is on its way to say so, and only one that crashed is gone. */
  predicate Accounted(phase: Phase, failed: bool, crashed: bool) {
    && (phase == Cleaning(Failed) || phase == Returned(Err(FileFailed)) ==> failed)
    && (failed ==> phase == Cleaning(Failed) || phase.Returned? || phase == Crashed)
    && (failed && phase.Returned? ==> phase.result == Err(FileFailed))
    && (phase == Crashed <==> crashed)
  }

  lemma StepIsAccounted(c: Config, s: State, step: Step, p: nat, failed: bool, crashed: bool)
    requires Inv(c, s) && Enabled(c, s, step) && p < |s.phases| && Accounted(s.phases[p], failed, crashed)
    ensures
      var t := Apply(c, s, step);
      && |t.phases| == |s.phases|
      && Accounted(t.phases[p], failed || step == Fail(p), crashed || step == Crash(p))
  {
    hide Encode, ReadKey, FileInStep, NameIsWhole, ReadPath;
    if step.p == p && (step.FirstRead? || step.Reread?) {
      PresentNameReads(c, s, p);
    }
  }

  lemma PresentNameReads(c: Config, s: State, p: nat)
    requires Inv(c, s) && p < |s.phases|
    ensures s.name != Absent ==> ReadPath(c, s) != Err(FileFailed)
    ensures s.phases[p] == Rereading ==> s.name != Absent
  {
    hide Encode;
    assert Honest(c, s, s.phases[p]);
  }

  lemma {:induction false} RunIsAccounted(c: Config, s: State, steps: seq<Step>, p: nat, failed: bool, crashed: bool)
    requires Inv(c, s) && IsRun(c, s, steps) && p < |s.phases| && Accounted(s.phases[p], failed, crashed)
    ensures
      var t := After(c, s, steps);
      && |t.phases| == |s.phases|
      && Accounted(t.phases[p], failed || Fails(steps, p), crashed || Crashes(steps, p))
    decreases |steps|
  {
    hide Apply, Enabled, Accounted, Inv;
    if steps != [] {
      StepIsAccounted(c, s, steps[0], p, failed, crashed);
      StepKeepsInv(c, s, steps[0]);
      RunIsAccounted(c, Apply(c, s, steps[0]), steps[1..], p, failed || steps[0] == Fail(p),
                     crashed || steps[0] == Crash(p));
    }
  }

  lemma InitHolds(c: Config, s: State)
    requires Init(c, s)
    ensures Inv(c, s)
  {}

  /** Over every run, a process that comes back reports a failure exactly when one of its own
      steps failed, whatever the others do; and only a crash keeps it from coming back. */
  lemma FailuresAreOwn(c: Config, s: State, steps: seq<Step>, p: nat)
    requires Init(c, s) && IsRun(c, s, steps) && p < |s.phases|
    ensures |After(c, s, steps).phases| == |s.phases|
    ensures
      var phase := After(c, s, steps).phases[p];
      && (phase.Returned? ==> (phase.result == Err(FileFailed) <==> Fails(steps, p)))
      && (phase == Crashed <==> Crashes(steps, p))
  {
    hide Fails, Crashes, IsRun, After;
    InitHolds(c, s);
    RunIsAccounted(c, s, steps, p, false, false);
  }

  /** On an absent path, a process whose own steps do not fail returns a key, and that key is
      on disk under the final name. */
  lemma UnfailingCallsReturnTheKey(c: Config, s: State, steps: seq<Step>, p: nat)
    requires Init(c, s) && s.name == Absent && IsRun(c, s, steps) && p < |s.phases|
    requires |After(c, s, steps).phases| == |s.phases| && After(c, s, steps).phases[p].Returned?
    requires !Fails(steps, p)
    ensures
      var t := After(c, s, steps);
      t.phases[p].result.Ok? && Content(t) == Some(Encode(c.enc, t.phases[p].result.value))
  {
    hide Fails, IsRun, After, Encode, ReadKey;
    InitHolds(c, s);
    RunsKeepContent(c, s, steps);
    OneKeyForEveryone(c, s, steps);
    FailuresAreOwn(c, s, steps, p);
    var t := After(c, s, steps);
    assert Honest(c, t, t.phases[p]);
    if t.phases[p].result.Ok? {
      var key: Octets :| |key| == c.size && Content(t) == Some(Encode(c.enc, key));
      ReadOfEncode(c.enc, key);
    }
  }

  /** On a path that was taken, it returns what the earlier file reads as. */
  lemma UnfailingCallsReadTheEarlierFile(c: Config, s: State, steps: seq<Step>, p: nat)
    requires Init(c, s) && s.name.Earlier? && IsRun(c, s, steps) && p < |s.phases|
    requires |After(c, s, steps).phases| == |s.phases| && After(c, s, steps).phases[p].Returned?
    requires !Fails(steps, p)
    ensures After(c, s, steps).phases[p].result == ReadKey(c.enc, c.size, s.name.content)
  {
    hide Fails, IsRun, After, Encode, ReadKey;
    FailuresAreOwn(c, s, steps, p);
    EarlierFileStays(c, s, steps, p);
  }

  /** A process that has neither come back nor crashed can always take a step of its own that
      is no failure: nobody waits for anybody. */
  lemma NobodyWaits(c: Config, s: State, p: nat) returns (step: Step)
    requires Inv(c, s) && p < |s.phases| && !s.phases[p].Returned? && s.phases[p] != Crashed
    ensures Enabled(c, s, step) && step.p == p && !step.Fail? && !step.Crash?
  {
    hide ReadKey;
    var phase := s.phases[p];
    assert FileInStep(c, s.files[p], phase);
    match phase
    case Start => step := FirstRead(p);
    case Minting => step := Mint(p, seq(c.size, _ => 0));
    case Opening(_) => step := CreateTemp(p);
    case Writing(key, _) => step := Write(p, |Encode(c.enc, key)|);
    case Syncing(_) => step := Sync(p);
    case Linking(_) => step := Link(p);
    case SyncingDir(_) => step := SyncDir(p);
    case Cleaning(_) => step := RemoveTemp(p);
    case Rereading => step := Reread(p);
  }
}
