/** What becomes of each append of a run, and of the log, told from the steps of the run: who
    gave up, whose store failed, and in which order the others stored. */
module AuditOutcomes {
  import opened Wrappers
  import opened AuditRecord
  import opened AuditChain
  import opened AuditRuns

  function StoredBy(step: Step): seq<nat> {
    if step.Persist? && !step.fails then [step.i] else []
  }

  function RefusedBy(step: Step): seq<nat> {
    if step.GiveUp? || (step.Persist? && step.fails) then [step.i] else []
  }

  /** The callers whose records were stored, in the order of storing. */
  function Stores(steps: seq<Step>): seq<nat> {
    if steps == [] then [] else StoredBy(steps[0]) + Stores(steps[1..])
  }

  /** The callers that gave up or whose store failed. */
  function Refusals(steps: seq<Step>): seq<nat> {
    if steps == [] then [] else RefusedBy(steps[0]) + Refusals(steps[1..])
  }

  predicate Accounted(c: Caller, stored: bool, refused: bool) {
    match c.phase
    case Waiting => !stored && !refused
    case Holding => !stored && !refused
    case Stored(_) => stored && !refused
    case Releasing(result) => stored == result.Some? && refused == result.None?
    case Finished(result) => stored == result.Some? && refused == result.None?
  }

  lemma StepIsAccounted(mac: Mac, key: Key, s: State, step: Step, i: nat, stored: bool, refused: bool)
    requires Enabled(s, step) && i < |s.callers| && Accounted(s.callers[i], stored, refused)
    ensures
      var t := Apply(mac, key, s, step);
      && |t.callers| == |s.callers| && t.callers[i].fields == s.callers[i].fields
      && Accounted(t.callers[i], stored || i in StoredBy(step), refused || i in RefusedBy(step))
  {
    hide Minted;
  }

  lemma FirstStep(steps: seq<Step>)
    requires steps != []
    ensures Stores(steps) == StoredBy(steps[0]) + Stores(steps[1..])
    ensures Refusals(steps) == RefusedBy(steps[0]) + Refusals(steps[1..])
  {}

  lemma {:induction false} RunIsAccounted(mac: Mac, key: Key, s: State, steps: seq<Step>, i: nat,
                                          stored: bool, refused: bool)
    requires IsRun(mac, key, s, steps) && i < |s.callers| && Accounted(s.callers[i], stored, refused)
    ensures
      var t := After(mac, key, s, steps);
      && |t.callers| == |s.callers| && t.callers[i].fields == s.callers[i].fields
      && Accounted(t.callers[i], stored || i in Stores(steps), refused || i in Refusals(steps))
    decreases |steps|
  {
    hide Apply, Enabled, Accounted, Stores, Refusals, StoredBy, RefusedBy;
    if steps == [] {
      NoSteps();
    } else {
      StepIsAccounted(mac, key, s, steps[0], i, stored, refused);
      FirstStep(steps);
      RunIsAccounted(mac, key, Apply(mac, key, s, steps[0]), steps[1..], i, stored || i in StoredBy(steps[0]),
                     refused || i in RefusedBy(steps[0]));
    }
  }

  lemma NoSteps()
    ensures Stores([]) == [] && Refusals([]) == []
  {}

  /** Over every run, an append that has come back succeeded exactly when its record was
      stored, and failed exactly when its caller gave up or its store failed. */
  lemma AppendsAreEarned(mac: Mac, key: Key, s: State, steps: seq<Step>, i: nat)
    requires Init(mac, key, s) && IsRun(mac, key, s, steps) && i < |s.callers|
    ensures |After(mac, key, s, steps).callers| == |s.callers|
    ensures
      var c := After(mac, key, s, steps).callers[i];
      c.phase.Finished? ==>
        (c.phase.result.Some? <==> i in Stores(steps)) && (c.phase.result.None? <==> i in Refusals(steps))
  {
    hide Stores, Refusals, InStep, After, IsRun;
    RunIsAccounted(mac, key, s, steps, i, false, false);
  }

  /** The log after a run is the log before it and one record for each store, in the order of
      the stores, with the fields of the caller that stored it. */
  ghost predicate Grew(before: seq<Record>, after: seq<Record>, callers: seq<Caller>, stores: seq<nat>) {
    && before <= after && |after| == |before| + |stores|
    && forall k :: 0 <= k < |stores| ==>
         stores[k] < |callers| && after[|before| + k].fields == callers[stores[k]].fields
  }

  lemma StepGrowsTheLog(mac: Mac, key: Key, s: State, step: Step)
    requires Enabled(s, step)
    ensures
      var t := Apply(mac, key, s, step);
      && Grew(s.log, t.log, s.callers, StoredBy(step))
      && |t.callers| == |s.callers| && forall i :: 0 <= i < |s.callers| ==> t.callers[i].fields == s.callers[i].fields
  {
    hide DigestOf;
  }

  lemma GrowsOn(a: seq<Record>, b: seq<Record>, c: seq<Record>, callers: seq<Caller>, others: seq<Caller>,
                first: seq<nat>, rest: seq<nat>)
    requires Grew(a, b, callers, first) && Grew(b, c, others, rest) && |callers| == |others|
    requires forall i :: 0 <= i < |callers| ==> callers[i].fields == others[i].fields
    ensures Grew(a, c, callers, first + rest)
  {
    var all := first + rest;
    forall k | 0 <= k < |all|
      ensures all[k] < |callers| && c[|a| + k].fields == callers[all[k]].fields
    {
      if k < |first| {
        assert c[|a| + k] == b[|a| + k] && all[k] == first[k];
      } else {
        assert all[k] == rest[k - |first|] && |a| + k == |b| + (k - |first|);
      }
    }
  }

  /** The log grows by exactly the records stored, in the order of storing. */
  lemma {:induction false} LogFollowsTheStores(mac: Mac, key: Key, s: State, steps: seq<Step>)
    requires IsRun(mac, key, s, steps)
    ensures Grew(s.log, After(mac, key, s, steps).log, s.callers, Stores(steps))
    decreases |steps|
  {
    hide Apply, Enabled, Stores, StoredBy, Grew;
    if steps == [] {
      NoSteps();
      NothingGrew(s.log, s.callers);
    } else {
      var t := Apply(mac, key, s, steps[0]);
      StepGrowsTheLog(mac, key, s, steps[0]);
      FirstStep(steps);
      LogFollowsTheStores(mac, key, t, steps[1..]);
      GrowsOn(s.log, t.log, After(mac, key, s, steps).log, s.callers, t.callers, StoredBy(steps[0]),
              Stores(steps[1..]));
    }
  }

  lemma NothingGrew(log: seq<Record>, callers: seq<Caller>)
    ensures Grew(log, log, callers, [])
  {}

  /** While an append has not come back, some append can go on without giving up. */
  lemma NeverStuck(s: State, i: nat) returns (step: Step)
    requires OneHolder(s) && i < |s.callers| && !s.callers[i].phase.Finished?
    ensures Enabled(s, step) && !step.GiveUp?
  {
    var k := i;
    if s.callers[i].phase == Waiting && s.locked {
      k :| 0 <= k < |s.callers| && HoldsLock(s.callers[k].phase);
    }
    var phase := s.callers[k].phase;
    step := if phase == Waiting then Acquire(k)
            else if phase == Holding then Persist(k, false)
            else if phase.Stored? then Advance(k)
            else Unlock(k);
  }

  /** A caller that only waits can always give up, and leaves everything else as it was. */
  lemma WaitersCanGiveUp(mac: Mac, key: Key, s: State, i: nat)
    requires i < |s.callers| && s.callers[i].phase == Waiting
    ensures Enabled(s, GiveUp(i))
    ensures
      var t := Apply(mac, key, s, GiveUp(i));
      && t.locked == s.locked && t.count == s.count && t.head == s.head && t.log == s.log
      && t.callers[i].phase == Finished(None)
  {}
}
