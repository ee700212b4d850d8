/** How old a key handed out by the key cache can be, in plain arithmetic over the history of
    a run: when its set was fetched, when a fetch last began and which clock readings were
    taken. */
module KeyFreshness {
  import opened Wrappers
  import opened KeyCache

  /** A span below a configured one: zero configures the default, and no span is below the
      least duration. */
  ghost predicate Below(span: int, setting: int, byDefault: int) {
    var bound := if setting == 0 then byDefault else setting;
    span < bound && bound != -0x8000_0000_0000_0000
  }

  /** What a run has done so far: the last set fetched and when, and when a fetch last began. */
  datatype History = History(keys: KeySet, fetchedAt: Time, startedAt: Time)

  /** The kid is listed by a set younger than the maximum age, or a fetch began within the
      refresh limit. */
  ghost predicate Serves(h: History, config: Config, kid: Kid, t1: Time, t2: Time) {
    || (kid in h.keys && Below(t1 - h.fetchedAt, config.maxAgeSetting, 3_600_000_000_000))
    || (h.startedAt != 0 && Below(t2 - h.startedAt, config.minRefreshSetting, 30_000_000_000))
  }

  ghost function Remembered(h: History, kid: Kid): Option<Key> {
    if kid in h.keys then Some(h.keys[kid]) else None
  }

  /** What a run has fetched and begun, read off its steps and the clock at each. */
  ghost function Recorded(h: History, s: State, config: Config, steps: seq<Step>): History
    requires IsRun(s, config, steps)
    decreases |steps|
  {
    if steps == [] then h
    else
      var t := Apply(s, config, steps[0]);
      Recorded(Noted(h, s, steps[0], t), t, config, steps[1..])
  }

  ghost function Noted(h: History, s: State, step: Step, t: State): History
    requires Enabled(s, step) && |t.calls| == |s.calls|
  {
    match step
    case EndFetch(_, Some(keys)) => History(keys, s.clock, h.startedAt)
    case LookAgain(i, _, _, t3) => if t.calls[i].phase == Fetching then h.(startedAt := t3) else h
    case _ => h
  }

  ghost function View(c: Cache): History {
    History(c.keys, c.fetchedAt, c.attemptedAt)
  }

  lemma StepIsRecorded(s: State, config: Config, step: Step)
    requires s.sets != [] && Enabled(s, step)
    ensures
      var t := Apply(s, config, step);
      |t.calls| == |s.calls| && t.sets != [] && View(t.cache) == Noted(View(s.cache), s, step, t)
  {
    hide Peek, Conclude;
  }

  /** The cache is exactly what the run recorded. */
  lemma {:induction false} CacheIsTheRecord(s: State, config: Config, steps: seq<Step>)
    requires IsRun(s, config, steps)
    ensures View(After(s, config, steps).cache) == Recorded(View(s.cache), s, config, steps)
    decreases |steps|
  {
    hide Apply, Enabled, View;
    if steps != [] {
      StepIsRecorded(s, config, steps[0]);
      CacheIsTheRecord(Apply(s, config, steps[0]), config, steps[1..]);
    }
  }

  // ----- both looks and the end of a fetch

  lemma SubBelow(t: Time, u: Time, d: Duration)
    ensures Sub(t, u) < d <==> t - u < d && d != -0x8000_0000_0000_0000
  {}

  /** The first look answers exactly when it may serve, and then with the set as it stands. */
  lemma FirstLookExactly(c: Cache, config: Config, kid: Kid, now: Time)
    ensures Peek(c, config, kid, now) ==
      if !Serves(View(c), config, kid, now, now) then None
      else match Remembered(View(c), kid)
        case Some(key) => Some(Found(key))
        case None => Some(Unknown)
  {
    SubBelow(now, c.fetchedAt, config.MaxAge());
    SubBelow(now, c.attemptedAt, config.MinRefresh());
  }

  /** So does the second look, with a later reading for the refresh limit. */
  lemma SecondLookExactly(c: Cache, config: Config, kid: Kid, t1: Time, t2: Time)
    ensures Recheck(c, config, kid, t1, t2) ==
      if !Serves(View(c), config, kid, t1, t2) then None
      else match Remembered(View(c), kid)
        case Some(key) => Some(Found(key))
        case None => Some(Unknown)
  {
    SubBelow(t1, c.fetchedAt, config.MaxAge());
    SubBelow(t2, c.attemptedAt, config.MinRefresh());
  }

  /** A stale set and a spent refresh limit send a lookup on to fetch, whatever its kid. */
  lemma StaleSetIsFetched(c: Cache, config: Config, kid: Kid, now: Time)
    requires now - c.fetchedAt >= config.MaxAge()
    requires c.attemptedAt == 0 || now - c.attemptedAt >= config.MinRefresh()
    ensures Peek(c, config, kid, now) == None && Recheck(c, config, kid, now, now) == None
  {
    FirstLookExactly(c, config, kid, now);
    SecondLookExactly(c, config, kid, now, now);
  }

  /** What the step that answers a lookup saw, given the history before it. */
  ghost predicate Justified(h: History, config: Config, c: Call, step: Step, answer: Answer) {
    match step
    case Look(_) =>
      && c.phase.Looking? && Serves(h, config, c.kid, c.phase.now, c.phase.now)
      && answer == (if c.kid in h.keys then Found(h.keys[c.kid]) else Unknown)
    case LookAgain(_, t1, t2, _) =>
      && Serves(h, config, c.kid, t1, t2)
      && answer == (if c.kid in h.keys then Found(h.keys[c.kid]) else Unknown)
    case EndFetch(_, Some(keys)) => answer == (if c.kid in keys then Found(keys[c.kid]) else Unknown)
    case EndFetch(_, None) => answer == (if c.kid in h.keys then Found(h.keys[c.kid]) else FetchFailed)
    case _ => false
  }

  /** A lookup that got its answer in this step. */
  ghost predicate Answers(s: State, t: State, i: nat, answer: Answer) {
    && i < |s.calls| == |t.calls|
    && !HasAnswer(s.calls[i]) && HasAnswer(t.calls[i]) && AnswerOf(t.calls[i]) == answer
  }

  lemma AnswerIsJustified(s: State, config: Config, step: Step, i: nat, answer: Answer)
    requires s.sets != [] && Enabled(s, step) && Answers(s, Apply(s, config, step), i, answer)
    ensures !step.Tick? && step.i == i && Justified(View(s.cache), config, s.calls[i], step, answer)
  {
    hide Peek, Recheck, Serves;
    if step.Look? {
      FirstLookExactly(s.cache, config, s.calls[step.i].kid, s.calls[step.i].phase.now);
    } else if step.LookAgain? {
      SecondLookExactly(s.cache, config, s.calls[step.i].kid, step.t1, step.t2);
    }
  }

  // ----- over whole runs

  lemma {:induction false} RunsSplit(s: State, config: Config, steps: seq<Step>, k: nat)
    requires IsRun(s, config, steps) && k <= |steps|
    ensures IsRun(s, config, steps[..k])
    ensures IsRun(After(s, config, steps[..k]), config, steps[k..])
    ensures After(After(s, config, steps[..k]), config, steps[k..]) == After(s, config, steps)
    decreases |steps|
  {
    hide Apply, Enabled;
    if k == 0 {
      assert steps[..0] == [] && steps[0..] == steps;
    } else {
      assert steps[..k][1..] == steps[1..][..k - 1] && steps[1..][k - 1..] == steps[k..];
      RunsSplit(Apply(s, config, steps[0]), config, steps[1..], k - 1);
    }
  }

  lemma AnswersStay(s: State, config: Config, step: Step, i: nat)
    requires s.sets != [] && Enabled(s, step) && i < |s.calls| && HasAnswer(s.calls[i])
    ensures
      var t := Apply(s, config, step);
      |t.calls| == |s.calls| && HasAnswer(t.calls[i]) && AnswerOf(t.calls[i]) == AnswerOf(s.calls[i])
  {
    hide Peek, Recheck, Conclude;
  }

  /** The history before the step of a run with that number. */
  ghost function Before(s: State, config: Config, steps: seq<Step>, k: nat): History
    requires k <= |steps| && IsRun(s, config, steps)
  {
    RunsSplit(s, config, steps, k);
    Recorded(View(s.cache), s, config, steps[..k])
  }

  ghost function StateBefore(s: State, config: Config, steps: seq<Step>, k: nat): State
    requires k <= |steps| && IsRun(s, config, steps)
  {
    RunsSplit(s, config, steps, k);
    After(s, config, steps[..k])
  }

  /** Every answer of every run is justified by the step that gave it: a key comes from a set
      younger than the maximum age, from the set at hand within the refresh limit of a fetch,
      from the set the lookup has itself just fetched, or from the set at hand when its own
      fetch failed. */
  lemma {:induction false} EveryAnswerIsJustified(s: State, config: Config, steps: seq<Step>, i: nat) returns (k: nat)
    requires Init(s) && IsRun(s, config, steps)
    requires i < |After(s, config, steps).calls| && HasAnswer(After(s, config, steps).calls[i])
    ensures k < |steps| && !steps[k].Tick? && steps[k].i == i && i < |StateBefore(s, config, steps, k).calls|
    ensures Justified(Before(s, config, steps, k), config, StateBefore(s, config, steps, k).calls[i], steps[k],
                      AnswerOf(After(s, config, steps).calls[i]))
    ensures Answers(StateBefore(s, config, steps, k), StateBefore(s, config, steps, k + 1), i,
                    AnswerOf(After(s, config, steps).calls[i]))
    decreases |steps|
  {
    hide Justified, Recorded, Apply, Enabled;
    if steps == [] {
      assert false;
    } else {
      var last := |steps| - 1;
      var butLast := steps[..last];
      RunsSplit(s, config, steps, last);
      var t := After(s, config, butLast);
      assert steps[last..] == [steps[last]];
      LastStep(t, config, steps[last]);
      assert After(s, config, steps) == Apply(t, config, steps[last]);
      StepIsRecorded(t, config, steps[last]);
      if HasAnswer(t.calls[i]) {
        AnswersStay(t, config, steps[last], i);
        k := EveryAnswerIsJustified(s, config, butLast, i);
        assert butLast[..k] == steps[..k] && butLast[..k + 1] == steps[..k + 1];
      } else {
        k := last;
        assert steps[..k + 1] == steps;
        ApplyKeepsLength(t, config, steps[last]);
        AnswerIsJustified(t, config, steps[last], i, AnswerOf(After(s, config, steps).calls[i]));
        CacheIsTheRecord(s, config, butLast);
      }
    }
  }

  lemma LastStep(s: State, config: Config, step: Step)
    requires IsRun(s, config, [step])
    ensures s.sets != [] && Enabled(s, step) && After(s, config, [step]) == Apply(s, config, step)
  {
    hide Apply, Enabled;
    assert [step][1..] == [];
  }

  lemma ApplyKeepsLength(s: State, config: Config, step: Step)
    requires s.sets != [] && Enabled(s, step)
    ensures |Apply(s, config, step).calls| == |s.calls|
    ensures forall i :: 0 <= i < |s.calls| ==> Apply(s, config, step).calls[i].kid == s.calls[i].kid
  {
    hide Peek, Recheck, Conclude;
  }

  lemma {:induction false} RunKeepsAnswers(s: State, config: Config, steps: seq<Step>, i: nat)
    requires IsRun(s, config, steps) && i < |s.calls|
    ensures |After(s, config, steps).calls| == |s.calls| && After(s, config, steps).calls[i].kid == s.calls[i].kid
    ensures HasAnswer(s.calls[i]) ==> HasAnswer(After(s, config, steps).calls[i])
    decreases |steps|
  {
    hide Apply, Enabled;
    if steps != [] {
      ApplyKeepsLength(s, config, steps[0]);
      if HasAnswer(s.calls[i]) {
        AnswersStay(s, config, steps[0], i);
      }
      RunKeepsAnswers(Apply(s, config, steps[0]), config, steps[1..], i);
    }
  }

  /** A kid that is in the cached set at every moment from the beginning of a call is answered
      with a key: neither a rotation of other keys nor a failing issuer refuses it. */
  lemma KidInEverySetIsFound(s: State, config: Config, steps: seq<Step>, i: nat, b: nat)
    requires Init(s) && IsRun(s, config, steps) && i < |s.calls| && b < |steps| && steps[b] == Begin(i)
    requires |After(s, config, steps).calls| == |s.calls| && HasAnswer(After(s, config, steps).calls[i])
    requires forall m :: b < m <= |steps| ==> s.calls[i].kid in StateBefore(s, config, steps, m).cache.keys
    ensures AnswerOf(After(s, config, steps).calls[i]).Found?
  {
    hide After, IsRun, Apply, Serves, Recorded, Init;
    var k := EveryAnswerIsJustified(s, config, steps, i);
    var t := StateBefore(s, config, steps, k);
    RunsSplit(s, config, steps, k);
    RunsSplit(s, config, steps, k + 1);
    RunKeepsAnswers(s, config, steps[..k], i);
    CacheIsTheRecord(s, config, steps[..k]);
    if k < b {
      AnswerStaysUntil(s, config, steps, i, k + 1, b);
      BeginsIdle(s, config, steps, b);
    }
    if steps[k].EndFetch? && steps[k].fetched.Some? {
      StateAfterStep(s, config, steps, k);
      Installed(t, config, steps[k]);
    }
  }

  /** A call under way keeps its start, and is still present exactly if its kid is still cached. */
  ghost predicate NotesKept(s: State, t: State, i: nat) {
    && i < |s.calls| == |t.calls| && t.calls[i].since == s.calls[i].since && t.calls[i].phase != Idle
    && (t.calls[i].present <==> s.calls[i].present && s.calls[i].kid in t.cache.keys)
  }

  lemma EndFetchKeepsNotes(s: State, config: Config, step: Step, i: nat)
    requires s.sets != [] && Enabled(s, step) && i < |s.calls| && s.calls[i].phase != Idle && step.EndFetch?
    requires s.calls[i].present ==> s.calls[i].kid in s.cache.keys
    ensures NotesKept(s, Apply(s, config, step), i)
  {
    hide Conclude;
  }

  lemma StepKeepsNotes(s: State, config: Config, step: Step, i: nat)
    requires s.sets != [] && Enabled(s, step) && i < |s.calls| && s.calls[i].phase != Idle && !step.EndFetch?
    requires s.calls[i].present ==> s.calls[i].kid in s.cache.keys
    ensures NotesKept(s, Apply(s, config, step), i)
  {
    hide Peek, Recheck;
  }

  /** What a call is said to have seen: since names the set that was current when it began,
      and present says that its kid has been in the cached set at every moment after that. */
  lemma {:induction false} NotesAreTrue(s: State, config: Config, steps: seq<Step>, i: nat, b: nat, n: nat)
    requires Init(s) && IsRun(s, config, steps) && i < |s.calls| && b < n <= |steps| && steps[b] == Begin(i)
    ensures
      var t := StateBefore(s, config, steps, n);
      && i < |t.calls| && t.calls[i].phase != Idle
      && t.calls[i].since == |StateBefore(s, config, steps, b).sets| - 1
      && (t.calls[i].present <==>
            forall m :: b < m <= n ==> t.calls[i].kid in StateBefore(s, config, steps, m).cache.keys)
    decreases n
  {
    hide After, IsRun, Apply, Init, Inv;
    RunsSplit(s, config, steps, n - 1);
    RunsSplit(s, config, steps, n);
    RunKeepsAnswers(s, config, steps[..n - 1], i);
    RunKeepsAnswers(s, config, steps[..n], i);
    StateAfterStep(s, config, steps, n - 1);
    var before := StateBefore(s, config, steps, n - 1);
    if n == b + 1 {
      BeginNotes(before, config, i);
    } else {
      NotesAreTrue(s, config, steps, i, b, n - 1);
      InitHolds(s, config);
      RunsKeepInv(s, config, steps[..n - 1]);
      PresentIsCached(before, config, i);
      if steps[n - 1].EndFetch? {
        EndFetchKeepsNotes(before, config, steps[n - 1], i);
      } else {
        StepKeepsNotes(before, config, steps[n - 1], i);
      }
    }
  }

  lemma BeginNotes(s: State, config: Config, i: nat)
    requires s.sets != [] && Enabled(s, Begin(i))
    ensures
      var t := Apply(s, config, Begin(i));
      && t.cache == s.cache && t.calls[i].phase != Idle && t.calls[i].since == |s.sets| - 1
      && (t.calls[i].present <==> t.calls[i].kid in s.cache.keys)
  {}

  lemma PresentIsCached(s: State, config: Config, i: nat)
    requires Inv(s, config) && i < |s.calls| && s.calls[i].phase != Idle
    ensures s.calls[i].present ==> s.calls[i].kid in s.cache.keys
  {
    hide SingleFlight, Spaced;
    PresentIsCurrent(s, s.calls[i]);
  }

  lemma AnswerStaysUntil(s: State, config: Config, steps: seq<Step>, i: nat, m: nat, n: nat)
    requires IsRun(s, config, steps) && m <= n <= |steps|
    requires i < |StateBefore(s, config, steps, m).calls| && HasAnswer(StateBefore(s, config, steps, m).calls[i])
    ensures i < |StateBefore(s, config, steps, n).calls| && HasAnswer(StateBefore(s, config, steps, n).calls[i])
  {
    hide After, IsRun, Apply;
    RunsSplit(s, config, steps, m);
    RunsSplit(s, config, steps, n);
    RunsSplit(s, config, steps[..n], m);
    assert steps[..n][..m] == steps[..m];
    RunKeepsAnswers(StateBefore(s, config, steps, m), config, steps[..n][m..], i);
  }

  lemma StateAfterStep(s: State, config: Config, steps: seq<Step>, k: nat)
    requires IsRun(s, config, steps) && k < |steps|
    ensures
      var t := StateBefore(s, config, steps, k);
      && t.sets != [] && Enabled(t, steps[k])
      && StateBefore(s, config, steps, k + 1) == Apply(t, config, steps[k])
  {
    hide After, IsRun, Apply;
    RunsSplit(s, config, steps, k);
    RunsSplit(s, config, steps, k + 1);
    RunsSplit(s, config, steps[..k + 1], k);
    assert steps[..k + 1][..k] == steps[..k] && steps[..k + 1][k..] == [steps[k]];
    LastStep(StateBefore(s, config, steps, k), config, steps[k]);
  }

  lemma BeginsIdle(s: State, config: Config, steps: seq<Step>, b: nat)
    requires IsRun(s, config, steps) && b < |steps| && steps[b].Begin?
    ensures
      var t := StateBefore(s, config, steps, b);
      steps[b].i < |t.calls| && t.calls[steps[b].i].phase == Idle
  {
    hide After, IsRun, Apply;
    StateAfterStep(s, config, steps, b);
  }

  lemma Installed(s: State, config: Config, step: Step)
    requires s.sets != [] && Enabled(s, step) && step.EndFetch? && step.fetched.Some?
    ensures Apply(s, config, step).cache.keys == step.fetched.value
  {
    hide Conclude;
  }

  /** A lookup that may not be served goes on: to wait for the fetch mutex after the first
      look, to fetch after the second; and only then is a start recorded. */
  lemma UnservedGoesOn(s: State, config: Config, step: Step)
    requires s.sets != [] && Enabled(s, step) && (step.Look? || step.LookAgain?)
    ensures
      var h, c, t := View(s.cache), s.calls[step.i], Apply(s, config, step);
      && |t.calls| == |s.calls|
      && (step.Look? ==>
            && (t.calls[step.i].phase == WantsFetch <==> !Serves(h, config, c.kid, c.phase.now, c.phase.now))
            && t.starts == s.starts)
      && (step.LookAgain? ==>
            && (t.calls[step.i].phase == Fetching <==> !Serves(h, config, c.kid, step.t1, step.t2))
            && t.starts == s.starts + (if t.calls[step.i].phase == Fetching then [step.t3] else []))
  {
    hide Peek, Recheck, Serves;
    if step.Look? {
      FirstLookExactly(s.cache, config, s.calls[step.i].kid, s.calls[step.i].phase.now);
    } else {
      SecondLookExactly(s.cache, config, s.calls[step.i].kid, step.t1, step.t2);
    }
  }
}
