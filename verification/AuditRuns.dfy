/** Every interleaving of concurrent appends to one chain: some callers give up waiting for
    the lock, some stores fail, and a stored record is on disk before the chain moves. */
module AuditRuns {
  import opened Wrappers
  import opened Sums
  import opened AuditRecord
  import opened AuditChain

  /** From Holding to Releasing a caller has the lock. At Stored the record is kept but the
      chain's memory still names its predecessor. */
  datatype Phase =
    | Waiting
    | Holding
    | Stored(rec: Record)
    | Releasing(result: Option<Record>)
    | Finished(result: Option<Record>)

  datatype Caller = Caller(fields: Fields, phase: Phase)

  datatype State = State(locked: bool, count: Uint64, head: Bounded, log: seq<Record>, callers: seq<Caller>)

  datatype Step =
    | Acquire(i: nat)
    | GiveUp(i: nat)
    | Persist(i: nat, fails: bool)
    | Advance(i: nat)
    | Unlock(i: nat)

  predicate Enabled(s: State, step: Step) {
    && step.i < |s.callers|
    && var phase := s.callers[step.i].phase;
    match step
    case Acquire(_) => phase == Waiting && !s.locked
    case GiveUp(_) => phase == Waiting
    case Persist(_, _) => phase == Holding
    case Advance(_) => phase.Stored?
    case Unlock(_) => phase.Releasing?
  }

  function Moved(s: State, i: nat, phase: Phase): State
    requires i < |s.callers|
  {
    s.(callers := s.callers[i := s.callers[i].(phase := phase)])
  }

  function Apply(mac: Mac, key: Key, s: State, step: Step): State
    requires Enabled(s, step)
  {
    var c := s.callers[step.i];
    match step
    case Acquire(i) => Moved(s, i, Holding).(locked := true)
    case GiveUp(i) => Moved(s, i, Finished(None))
    case Persist(i, fails) =>
      var rec := Minted(mac, key, s.count, s.head, c.fields);
      if fails then Moved(s, i, Releasing(None)) else Moved(s, i, Stored(rec)).(log := s.log + [rec])
    case Advance(i) =>
      Moved(s, i, Releasing(Some(c.phase.rec))).(count := c.phase.rec.seqNo, head := c.phase.rec.hash)
    case Unlock(i) => Moved(s, i, Finished(c.phase.result)).(locked := false)
  }

  ghost predicate IsRun(mac: Mac, key: Key, s: State, steps: seq<Step>)
    decreases |steps|
  {
    steps == [] || (Enabled(s, steps[0]) && IsRun(mac, key, Apply(mac, key, s, steps[0]), steps[1..]))
  }

  function After(mac: Mac, key: Key, s: State, steps: seq<Step>): State
    requires IsRun(mac, key, s, steps)
    decreases |steps|
  {
    if steps == [] then s else After(mac, key, Apply(mac, key, s, steps[0]), steps[1..])
  }

  // ----- what every run keeps

  predicate HoldsLock(phase: Phase) {
    phase == Holding || phase.Stored? || phase.Releasing?
  }

  ghost predicate OneHolder(s: State) {
    && (s.locked <==> exists i :: 0 <= i < |s.callers| && HoldsLock(s.callers[i].phase))
    && forall i, j | 0 <= i < |s.callers| && 0 <= j < |s.callers| ::
         HoldsLock(s.callers[i].phase) && HoldsLock(s.callers[j].phase) ==> i == j
  }

  predicate NoneStored(s: State) {
    forall i :: 0 <= i < |s.callers| ==> !s.callers[i].phase.Stored?
  }

  /** The log is the one the chain's memory describes, with one more record on it while some
      caller is between storing and advancing. */
  ghost predicate LogInStep(mac: Mac, key: Key, s: State) {
    && (NoneStored(s) ==> InStep(mac, key, s.count, s.head, s.log))
    && forall i :: 0 <= i < |s.callers| && s.callers[i].phase.Stored? ==>
         OneAhead(mac, key, s, s.callers[i].phase.rec, s.callers[i].fields)
  }

  ghost predicate OneAhead(mac: Mac, key: Key, s: State, rec: Record, fields: Fields) {
    && s.log != [] && s.log[|s.log| - 1] == rec
    && InStep(mac, key, s.count, s.head, s.log[..|s.log| - 1])
    && rec == Minted(mac, key, s.count, s.head, fields)
  }

  /** The record a caller has had stored. */
  function RecordOf(c: Caller): Option<Record> {
    match c.phase
    case Stored(rec) => Some(rec)
    case Releasing(result) => result
    case Finished(result) => result
    case _ => None
  }

  function StoredCount(c: Caller): int {
    if RecordOf(c).Some? then 1 else 0
  }

  /** A caller's record is in the log, with the caller's fields, where its number says. */
  predicate Placed(s: State, base: nat, c: Caller) {
    RecordOf(c).Some? ==>
      var rec := RecordOf(c).value;
      base < rec.seqNo <= |s.log| && s.log[rec.seqNo - 1] == rec && rec.fields == c.fields
  }

  /** Every caller that succeeded owns one record of the log; nobody shares one and nothing
      else was appended. */
  ghost predicate Owned(s: State, base: nat) {
    && |s.log| == base + Total(StoredCount, s.callers)
    && (|s.log| < TWO_TO_64 ==>
          && (forall i :: 0 <= i < |s.callers| ==> Placed(s, base, s.callers[i]))
          && (forall i, j | 0 <= i < j < |s.callers| ::
                RecordOf(s.callers[i]).Some? && RecordOf(s.callers[j]).Some? ==>
                RecordOf(s.callers[i]) != RecordOf(s.callers[j])))
  }

  ghost predicate Inv(mac: Mac, key: Key, s: State, base: nat) {
    OneHolder(s) && LogInStep(mac, key, s) && Owned(s, base)
  }

  /** A chain just made or resumed, in step with its log, and nobody admitted yet. */
  ghost predicate Init(mac: Mac, key: Key, s: State) {
    && !s.locked && InStep(mac, key, s.count, s.head, s.log)
    && forall i :: 0 <= i < |s.callers| ==> s.callers[i].phase == Waiting
  }

  lemma InitHolds(mac: Mac, key: Key, s: State)
    requires Init(mac, key, s)
    ensures Inv(mac, key, s, |s.log|)
  {
    hide InStep;
    TotalOfZeros(StoredCount, s.callers);
  }

  lemma StepKeepsOneHolder(mac: Mac, key: Key, s: State, step: Step)
    requires OneHolder(s) && Enabled(s, step)
    ensures OneHolder(Apply(mac, key, s, step))
  {
    hide Minted;
    var t := Apply(mac, key, s, step);
    var before, after := HoldsLock(s.callers[step.i].phase), HoldsLock(t.callers[step.i].phase);
    assert forall j :: 0 <= j < |s.callers| && j != step.i ==> t.callers[j] == s.callers[j];
  }

  lemma StepKeepsLogInStep(mac: Mac, key: Key, s: State, step: Step)
    requires OneHolder(s) && LogInStep(mac, key, s) && Enabled(s, step)
    ensures LogInStep(mac, key, Apply(mac, key, s, step))
  {
    hide Minted, InStep, OneHolder, LogInStep, OneAhead;
    if step.Advance? {
      AdvanceCatchesUp(mac, key, s, step.i);
    } else if step.Persist? && !step.fails {
      StoredIsOneAhead(mac, key, s, step.i);
    } else {
      OtherStepsKeepLogInStep(mac, key, s, step);
    }
  }

  lemma OnlyHolder(s: State, i: nat, j: nat)
    requires OneHolder(s) && i < |s.callers| && j < |s.callers| && HoldsLock(s.callers[i].phase)
    ensures i == j || !s.callers[j].phase.Stored?
  {
    assert s.callers[j].phase.Stored? ==> HoldsLock(s.callers[j].phase);
  }

  /** Advancing brings the chain's memory to the record just stored. */
  lemma AdvanceCatchesUp(mac: Mac, key: Key, s: State, i: nat)
    requires OneHolder(s) && LogInStep(mac, key, s) && Enabled(s, Advance(i))
    ensures LogInStep(mac, key, Apply(mac, key, s, Advance(i)))
  {
    hide Minted, InStep, OneHolder;
    var t := Apply(mac, key, s, Advance(i));
    var rec := s.callers[i].phase.rec;
    assert OneAhead(mac, key, s, rec, s.callers[i].fields);
    MintedExtends(mac, key, s.count, s.head, s.log[..|s.log| - 1], s.callers[i].fields);
    assert s.log == s.log[..|s.log| - 1] + [rec];
    forall j | 0 <= j < |t.callers|
      ensures !t.callers[j].phase.Stored?
    {
      OnlyHolder(s, i, j);
    }
  }

  /** Storing puts the log one record ahead of the chain's memory. */
  lemma StoredIsOneAhead(mac: Mac, key: Key, s: State, i: nat)
    requires OneHolder(s) && LogInStep(mac, key, s) && Enabled(s, Persist(i, false))
    ensures LogInStep(mac, key, Apply(mac, key, s, Persist(i, false)))
  {
    hide Minted, InStep, OneHolder;
    var t := Apply(mac, key, s, Persist(i, false));
    HolderHasNotStored(s, i);
    assert t.log[..|t.log| - 1] == s.log;
    assert t.callers[i].phase.Stored?;
    forall j | 0 <= j < |t.callers| && t.callers[j].phase.Stored?
      ensures OneAhead(mac, key, t, t.callers[j].phase.rec, t.callers[j].fields)
    {
      assert j == i;
    }
  }

  lemma OtherStepsKeepLogInStep(mac: Mac, key: Key, s: State, step: Step)
    requires LogInStep(mac, key, s) && Enabled(s, step)
    ensures step.Advance? || (step.Persist? && !step.fails) || LogInStep(mac, key, Apply(mac, key, s, step))
  {
    hide Minted, InStep;
    if !step.Advance? && (step.Persist? ==> step.fails) {
      var t := Apply(mac, key, s, step);
      if NoneStored(t) {
        assert forall j :: 0 <= j < |s.callers| && j != step.i ==> t.callers[j] == s.callers[j];
        assert NoneStored(s);
      }
      forall j | 0 <= j < |t.callers| && t.callers[j].phase.Stored?
        ensures OneAhead(mac, key, t, t.callers[j].phase.rec, t.callers[j].fields)
      {
        assert t.callers[j] == s.callers[j];
        assert OneAhead(mac, key, s, s.callers[j].phase.rec, s.callers[j].fields);
      }
    }
  }

  lemma MintedNumber(mac: Mac, key: Key, count: Uint64, head: Bounded, log: seq<Record>, fields: Fields)
    requires InStep(mac, key, count, head, log)
    ensures Minted(mac, key, count, head, fields).fields == fields
    ensures |log| + 1 < TWO_TO_64 ==> Minted(mac, key, count, head, fields).seqNo == |log| + 1
  {
    hide DigestOf, Linked;
  }

  lemma StepKeepsOwned(mac: Mac, key: Key, s: State, step: Step, base: nat)
    requires Inv(mac, key, s, base) && Enabled(s, step)
    ensures Owned(Apply(mac, key, s, step), base)
  {
    hide Minted, InStep, Placed, LogInStep, OneHolder;
    var t := Apply(mac, key, s, step);
    var i := step.i;
    TotalAfterUpdate(StoredCount, s.callers, i, t.callers[i]);
    TotalIsNotNegative(StoredCount, s.callers);
    if step.Persist? && !step.fails {
      HolderHasNotStored(s, i);
      PersistPlaces(mac, key, s, step, base);
    } else {
      SamePlaces(s, t, base, i);
    }
  }

  lemma SamePlaces(s: State, t: State, base: nat, i: nat)
    requires Owned(s, base) && i < |s.callers| && t.log == s.log && |t.callers| == |s.callers|
    requires forall j :: 0 <= j < |s.callers| && j != i ==> t.callers[j] == s.callers[j]
    requires RecordOf(t.callers[i]) == RecordOf(s.callers[i]) && t.callers[i].fields == s.callers[i].fields
    requires Total(StoredCount, t.callers) == Total(StoredCount, s.callers)
    ensures Owned(t, base)
  {
    hide Placed;
    forall j | 0 <= j < |t.callers| && |t.log| < TWO_TO_64
      ensures Placed(t, base, t.callers[j])
    {
      assert Placed(s, base, s.callers[j]);
      SamePlace(s, t, base, s.callers[j], t.callers[j]);
    }
  }

  lemma HolderHasNotStored(s: State, i: nat)
    requires OneHolder(s) && i < |s.callers| && s.callers[i].phase == Holding
    ensures NoneStored(s)
  {
    assert HoldsLock(s.callers[i].phase);
  }

  lemma SamePlace(s: State, t: State, base: nat, c: Caller, d: Caller)
    requires Placed(s, base, c) && s.log <= t.log
    requires RecordOf(c) == RecordOf(d) && c.fields == d.fields
    ensures Placed(t, base, d)
  {}

  lemma PersistPlaces(mac: Mac, key: Key, s: State, step: Step, base: nat)
    requires Inv(mac, key, s, base) && Enabled(s, step) && step.Persist? && !step.fails && NoneStored(s)
    requires |s.log| + 1 == base + Total(StoredCount, Apply(mac, key, s, step).callers)
    ensures Owned(Apply(mac, key, s, step), base)
  {
    hide Minted, InStep, Placed, OneHolder;
    var t := Apply(mac, key, s, step);
    var i := step.i;
    TotalIsNotNegative(StoredCount, s.callers);
    if |t.log| < TWO_TO_64 {
      MintedNumber(mac, key, s.count, s.head, s.log, s.callers[i].fields);
      forall j | 0 <= j < |t.callers|
        ensures Placed(t, base, t.callers[j])
        ensures j != i && RecordOf(t.callers[j]).Some? ==> RecordOf(t.callers[j]).value.seqNo <= |s.log|
      {
        assert Placed(s, base, s.callers[j]);
        if j == i {
          NewPlace(t, base, t.callers[i]);
        } else {
          SamePlace(s, t, base, s.callers[j], t.callers[j]);
          if RecordOf(s.callers[j]).Some? {
            OldNumber(s, base, s.callers[j]);
          }
        }
      }
    }
  }

  lemma NewPlace(t: State, base: nat, c: Caller)
    requires c.phase.Stored? && c.phase.rec.seqNo == |t.log| && base < |t.log|
    requires t.log[|t.log| - 1] == c.phase.rec && c.phase.rec.fields == c.fields
    ensures Placed(t, base, c)
  {}

  lemma OldNumber(s: State, base: nat, c: Caller)
    requires Placed(s, base, c) && RecordOf(c).Some?
    ensures RecordOf(c).value.seqNo <= |s.log|
  {}

  /** Whoever gives up, whichever stores fail and however callers interleave, the invariant
      holds in every reachable state. */
  lemma {:induction false} RunsKeepInv(mac: Mac, key: Key, s: State, steps: seq<Step>, base: nat)
    requires Inv(mac, key, s, base) && IsRun(mac, key, s, steps)
    ensures Inv(mac, key, After(mac, key, s, steps), base)
    decreases |steps|
  {
    hide Apply, OneHolder, LogInStep, Owned;
    if steps != [] {
      StepKeepsOneHolder(mac, key, s, steps[0]);
      StepKeepsLogInStep(mac, key, s, steps[0]);
      StepKeepsOwned(mac, key, s, steps[0], base);
      RunsKeepInv(mac, key, Apply(mac, key, s, steps[0]), steps[1..], base);
    }
  }

  /** Whenever the lock is free the stored log verifies against the chain's anchor, its
      records numbered from one, with exactly one record for each append that succeeded. */
  lemma UnlockedLogVerifies(mac: Mac, key: Key, s: State, steps: seq<Step>)
    requires Init(mac, key, s) && IsRun(mac, key, s, steps)
    requires !After(mac, key, s, steps).locked
    ensures
      var t := After(mac, key, s, steps);
      && Judge(mac, key, Items(t.log), Anchor(t.count, t.head)) == Verified
      && (forall i :: 0 <= i < |t.log| ==> t.log[i].seqNo == Wrap(i + 1))
      && Owned(t, |s.log|)
  {
    hide Minted, DigestOf, Links, Judge, Wrap;
    InitHolds(mac, key, s);
    RunsKeepInv(mac, key, s, steps, |s.log|);
    var t := After(mac, key, s, steps);
    forall i | 0 <= i < |t.callers|
      ensures !t.callers[i].phase.Stored?
    {
      assert !HoldsLock(t.callers[i].phase);
    }
    ReadableOfItems(t.log);
    VerifiedExactly(mac, key, Items(t.log), Anchor(t.count, t.head));
    forall i | 0 <= i < |t.log|
      ensures t.log[i].seqNo == Wrap(i + 1)
    {
      LinkNumber(mac, key, t.log, i);
    }
  }

  lemma LinkNumber(mac: Mac, key: Key, log: seq<Record>, i: nat)
    requires Linked(mac, key, log) && i < |log|
    ensures log[i].seqNo == Wrap(i + 1)
  {
    hide DigestOf, ValidHash, Wrap;
    assert Links(mac, key, log, i);
  }
}
