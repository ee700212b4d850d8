/** The verifier's cache of an issuer's signing keys: a state mutex, a single-flight fetch
    mutex, double-checked state, a refresh limit and a stale-on-error fallback, as a machine
    over the critical sections of any number of concurrent lookups. */
module KeyCache {
  import opened Wrappers

  type Kid = string
  type Key = nat
  type KeySet = map<Kid, Key>

  /** Nanoseconds since the zero time, which is also what an unset time field holds. */
  type Time = int
  const ZERO_TIME: Time := 0

  const MAX_DURATION := 0x7fff_ffff_ffff_ffff
  const MIN_DURATION := -0x8000_0000_0000_0000
  const HOUR := 3_600_000_000_000
  const THIRTY_SECONDS := 30_000_000_000

  type Duration = d: int | MIN_DURATION <= d <= MAX_DURATION

  datatype Config = Config(maxAgeSetting: Duration, minRefreshSetting: Duration) {
    function MaxAge(): Duration {
      if maxAgeSetting == 0 then HOUR else maxAgeSetting
    }

    function MinRefresh(): Duration {
      if minRefreshSetting == 0 then THIRTY_SECONDS else minRefreshSetting
    }
  }

  /** Time subtraction saturates at the ends of the duration range. */
  function Sub(t: Time, u: Time): Duration {
    if t - u > MAX_DURATION then MAX_DURATION else if t - u < MIN_DURATION then MIN_DURATION else t - u
  }

  datatype Answer = Found(key: Key) | Unknown | FetchFailed

  // ----- the critical sections

  /** What the state mutex guards. */
  datatype Cache = Cache(keys: KeySet, fetchedAt: Time, attemptedAt: Time)

  function Lookup(keys: KeySet, kid: Kid, otherwise: Answer): Answer {
    if kid in keys then Found(keys[kid]) else otherwise
  }

  predicate RecentAttempt(c: Cache, config: Config, now: Time) {
    c.attemptedAt != ZERO_TIME && Sub(now, c.attemptedAt) < config.MinRefresh()
  }

  predicate Fresh(c: Cache, config: Config, now: Time) {
    Sub(now, c.fetchedAt) < config.MaxAge()
  }

  /** The first look, with the clock as read before it: an answer, or None to go fetching. */
  function Peek(c: Cache, config: Config, kid: Kid, now: Time): Option<Answer> {
    if (kid in c.keys && Fresh(c, config, now)) || RecentAttempt(c, config, now)
    then Some(Lookup(c.keys, kid, Unknown))
    else None
  }

  /** The second look, under the fetch mutex. The clock is read up to three times. */
  function Recheck(c: Cache, config: Config, kid: Kid, t1: Time, t2: Time): Option<Answer> {
    if kid in c.keys && Fresh(c, config, t1) then Some(Found(c.keys[kid]))
    else if RecentAttempt(c, config, t2) then Some(Lookup(c.keys, kid, Unknown))
    else None
  }

  function Install(c: Cache, fetched: Option<KeySet>, now: Time): Cache {
    match fetched
    case Some(keys) => c.(keys := keys, fetchedAt := now)
    case None => c
  }

  function Conclude(c: Cache, kid: Kid, fetched: Option<KeySet>): Answer {
    match fetched
    case Some(keys) => Lookup(keys, kid, Unknown)
    case None => Lookup(c.keys, kid, FetchFailed)
  }

  /** The verifier object, with one method for each section that runs under its state mutex. */
  class Verifier {
    const config: Config
    var keys: KeySet
    var fetchedAt: Time
    var attemptedAt: Time

    function View(): Cache
      reads this
    {
      Cache(keys, fetchedAt, attemptedAt)
    }

    constructor (config: Config)
      ensures this.config == config && View() == EMPTY
    {
      this.config := config;
      keys, fetchedAt, attemptedAt := map[], ZERO_TIME, ZERO_TIME;
    }

    method FirstLook(kid: Kid, now: Time) returns (answer: Option<Answer>)
      ensures answer == Peek(View(), config, kid, now)
    {
      var known := kid in keys;
      var isFresh := Sub(now, fetchedAt) < config.MaxAge();
      var recentAttempt := attemptedAt != ZERO_TIME && Sub(now, attemptedAt) < config.MinRefresh();
      if known && isFresh {
        return Some(Found(keys[kid]));
      }
      if recentAttempt {
        if known {
          return Some(Found(keys[kid]));
        }
        return Some(Unknown);
      }
      return None;
    }

    method SecondLook(kid: Kid, t1: Time, t2: Time, t3: Time) returns (answer: Option<Answer>)
      modifies this
      ensures answer == Recheck(old(View()), config, kid, t1, t2)
      ensures View() == if answer.None? then old(View()).(attemptedAt := t3) else old(View())
    {
      if kid in keys && Sub(t1, fetchedAt) < config.MaxAge() {
        return Some(Found(keys[kid]));
      }
      if attemptedAt != ZERO_TIME && Sub(t2, attemptedAt) < config.MinRefresh() {
        if kid in keys {
          return Some(Found(keys[kid]));
        }
        return Some(Unknown);
      }
      attemptedAt := t3;
      return None;
    }

    method Finish(kid: Kid, fetched: Option<KeySet>, now: Time) returns (answer: Answer)
      modifies this
      ensures answer == Conclude(old(View()), kid, fetched)
      ensures View() == Install(old(View()), fetched, now)
    {
      if fetched.None? {
        if kid in keys {
          return Found(keys[kid]);
        }
        return FetchFailed;
      }
      keys := fetched.value;
      fetchedAt := now;
      if kid in keys {
        return Found(keys[kid]);
      }
      return Unknown;
    }
  }

  const EMPTY: Cache := Cache(map[], ZERO_TIME, ZERO_TIME)

  // ----- the machine

  /** Where a lookup stands. Rechecking, Fetching and Unlocking hold the fetch mutex. */
  datatype Phase =
    | Idle
    | Looking(now: Time)
    | WantsFetch
    | Rechecking
    | Fetching
    | Unlocking(answer: Answer)
    | Done(answer: Answer)

  /** One call of key. since is the set that was current when the call began; present says
      that kid has been in the current set ever since. */
  datatype Call = Call(kid: Kid, phase: Phase, since: nat, present: bool)

  /** sets lists every key set that has been current, oldest first; starts lists the times
      at which fetches began. */
  datatype State = State(
    cache: Cache,
    clock: Time,
    fetchHeld: bool,
    calls: seq<Call>,
    sets: seq<KeySet>,
    starts: seq<Time>)

  datatype Step =
    | Tick(to: Time)
    | Begin(i: nat)
    | Look(i: nat)
    | LockFetch(i: nat)
    | LookAgain(i: nat, t1: Time, t2: Time, t3: Time)
    | EndFetch(i: nat, fetched: Option<KeySet>)
    | UnlockFetch(i: nat)

  predicate Enabled(s: State, step: Step) {
    match step
    case Tick(to) => s.clock <= to
    case Begin(i) => i < |s.calls| && s.calls[i].phase == Idle
    case Look(i) => i < |s.calls| && s.calls[i].phase.Looking?
    case LockFetch(i) => i < |s.calls| && s.calls[i].phase == WantsFetch && !s.fetchHeld
    case LookAgain(i, t1, t2, t3) =>
      i < |s.calls| && s.calls[i].phase == Rechecking && s.clock <= t1 <= t2 <= t3
    case EndFetch(i, _) => i < |s.calls| && s.calls[i].phase == Fetching
    case UnlockFetch(i) => i < |s.calls| && s.calls[i].phase.Unlocking?
  }

  function Moved(s: State, i: nat, phase: Phase): State
    requires i < |s.calls|
  {
    s.(calls := s.calls[i := s.calls[i].(phase := phase)])
  }

  /** A new current set, and every call's view of whether its kid stayed in. */
  function Publish(s: State, keys: KeySet): State {
    s.(sets := s.sets + [keys],
       calls := seq(|s.calls|, i requires 0 <= i < |s.calls| =>
         s.calls[i].(present := s.calls[i].present && s.calls[i].kid in keys)))
  }

  function Apply(s: State, config: Config, step: Step): State
    requires Enabled(s, step) && s.sets != []
  {
    match step
    case Tick(to) => s.(clock := to)
    case Begin(i) =>
      s.(calls := s.calls[i := Call(s.calls[i].kid, Looking(s.clock), |s.sets| - 1, s.calls[i].kid in s.cache.keys)])
    case Look(i) =>
      (match Peek(s.cache, config, s.calls[i].kid, s.calls[i].phase.now)
       case Some(answer) => Moved(s, i, Done(answer))
       case None => Moved(s, i, WantsFetch))
    case LockFetch(i) => Moved(s, i, Rechecking).(fetchHeld := true)
    case LookAgain(i, t1, t2, t3) =>
      (match Recheck(s.cache, config, s.calls[i].kid, t1, t2)
       case Some(answer) => Moved(s, i, Unlocking(answer)).(clock := t3)
       case None =>
         Moved(s, i, Fetching).(clock := t3, cache := s.cache.(attemptedAt := t3), starts := s.starts + [t3]))
    case EndFetch(i, fetched) =>
      var t := Moved(s, i, Unlocking(Conclude(s.cache, s.calls[i].kid, fetched)))
        .(cache := Install(s.cache, fetched, s.clock));
      if fetched.Some? then Publish(t, fetched.value) else t
    case UnlockFetch(i) => Moved(s, i, Done(s.calls[i].phase.answer)).(fetchHeld := false)
  }

  ghost predicate Init(s: State) {
    && s.cache == EMPTY && !s.fetchHeld && s.sets == [map[]] && s.starts == []
    && forall i :: 0 <= i < |s.calls| ==> s.calls[i].phase == Idle
  }

  // ----- what every run keeps

  predicate HoldsFetch(phase: Phase) {
    phase == Rechecking || phase == Fetching || phase.Unlocking?
  }

  /** The fetch mutex admits one caller, so at most one fetch is in flight. */
  ghost predicate SingleFlight(s: State) {
    && (s.fetchHeld <==> exists i :: 0 <= i < |s.calls| && HoldsFetch(s.calls[i].phase))
    && forall i, j | 0 <= i < |s.calls| && 0 <= j < |s.calls| ::
         HoldsFetch(s.calls[i].phase) && HoldsFetch(s.calls[j].phase) ==> i == j
  }

  /** Fetches begin in clock order, and after any that did not begin at the zero time the
      next waits out the refresh limit, whether the fetch succeeded or failed. */
  ghost predicate Spaced(s: State, config: Config) {
    && (forall k :: 0 <= k < |s.starts| - 1 ==>
          s.starts[k] <= s.starts[k + 1] &&
          (s.starts[k] != ZERO_TIME ==> s.starts[k + 1] - s.starts[k] >= config.MinRefresh()))
    && s.cache.attemptedAt == (if s.starts == [] then ZERO_TIME else s.starts[|s.starts| - 1])
    && (s.starts != [] ==> s.cache.attemptedAt <= s.clock)
  }

  predicate HasAnswer(c: Call) {
    c.phase.Unlocking? || c.phase.Done?
  }

  function AnswerOf(c: Call): Answer
    requires HasAnswer(c)
  {
    c.phase.answer
  }

  /** A kid that stayed in the current set is never refused, and a key that is handed out
      was filed under that kid in a set that was current during the call. */
  ghost predicate Truthful(s: State, c: Call) {
    c.phase != Idle ==>
      && c.since < |s.sets|
      && (c.present ==> c.kid in s.cache.keys)
      && (HasAnswer(c) && c.present ==> AnswerOf(c).Found?)
      && (HasAnswer(c) && AnswerOf(c).Found? ==>
            exists k :: c.since <= k < |s.sets| && c.kid in s.sets[k] && s.sets[k][c.kid] == AnswerOf(c).key)
  }

  ghost predicate Inv(s: State, config: Config) {
    && s.sets != [] && s.sets[|s.sets| - 1] == s.cache.keys
    && SingleFlight(s)
    && Spaced(s, config)
    && forall i :: 0 <= i < |s.calls| ==> Truthful(s, s.calls[i])
  }

  lemma TokenMovesWithItsHolder(s: State, config: Config, step: Step)
    requires s.sets != [] && Enabled(s, step) && !step.Tick?
    ensures
      var t := Apply(s, config, step);
      var before, after := HoldsFetch(s.calls[step.i].phase), HoldsFetch(t.calls[step.i].phase);
      && |t.calls| == |s.calls|
      && (forall j :: 0 <= j < |s.calls| && j != step.i ==> t.calls[j].phase == s.calls[j].phase)
      && (!before && after ==> !s.fetchHeld && t.fetchHeld)
      && (before && !after ==> !t.fetchHeld)
      && (before == after ==> t.fetchHeld == s.fetchHeld)
  {
    hide Peek, Recheck, Conclude, Install;
  }

  lemma StepKeepsSingleFlight(s: State, config: Config, step: Step)
    requires Inv(s, config) && Enabled(s, step)
    ensures SingleFlight(Apply(s, config, step))
  {
    hide Truthful, Spaced;
    if !step.Tick? {
      TokenMovesWithItsHolder(s, config, step);
      SingleFlightSurvives(s, Apply(s, config, step), step.i);
    }
  }

  lemma SingleFlightSurvives(s: State, t: State, i: nat)
    requires SingleFlight(s) && |t.calls| == |s.calls| && i < |s.calls|
    requires forall j :: 0 <= j < |s.calls| && j != i ==> t.calls[j].phase == s.calls[j].phase
    requires
      var before, after := HoldsFetch(s.calls[i].phase), HoldsFetch(t.calls[i].phase);
      && (!before && after ==> !s.fetchHeld && t.fetchHeld)
      && (before && !after ==> !t.fetchHeld)
      && (before == after ==> t.fetchHeld == s.fetchHeld)
    ensures SingleFlight(t)
  {
    hide HoldsFetch;
  }

  lemma StepKeepsSpaced(s: State, config: Config, step: Step)
    requires Inv(s, config) && Enabled(s, step)
    ensures Spaced(Apply(s, config, step), config)
  {
    hide Peek, Recheck, Conclude, Truthful, SingleFlight, Spaced, Publish;
    var t := Apply(s, config, step);
    if step.LookAgain? && Recheck(s.cache, config, s.calls[step.i].kid, step.t1, step.t2).None? {
      var begun := s.(clock := step.t3, cache := s.cache.(attemptedAt := step.t3), starts := s.starts + [step.t3]);
      NewStartIsSpaced(s, config, s.calls[step.i].kid, step.t1, step.t2, step.t3);
      SpacedSurvives(begun, t, config);
    } else {
      if step.EndFetch? && step.fetched.Some? {
        PublishKeeps(Moved(s, step.i, Unlocking(Conclude(s.cache, s.calls[step.i].kid, step.fetched)))
          .(cache := Install(s.cache, step.fetched, s.clock)), step.fetched.value);
      }
      SpacedSurvives(s, t, config);
    }
  }

  lemma SpacedSurvives(s: State, t: State, config: Config)
    requires Spaced(s, config) && s.clock <= t.clock
    requires t.starts == s.starts && t.cache.attemptedAt == s.cache.attemptedAt
    ensures Spaced(t, config)
  {}

  lemma PublishKeeps(s: State, keys: KeySet)
    ensures Publish(s, keys).cache == s.cache && Publish(s, keys).starts == s.starts
    ensures Publish(s, keys).clock == s.clock
  {}

  lemma NewStartIsSpaced(s: State, config: Config, kid: Kid, t1: Time, t2: Time, t3: Time)
    requires Spaced(s, config) && s.clock <= t1 <= t2 <= t3
    requires Recheck(s.cache, config, kid, t1, t2).None?
    ensures Spaced(s.(clock := t3, cache := s.cache.(attemptedAt := t3), starts := s.starts + [t3]), config)
  {
    hide Recheck;
    if s.starts != [] {
      LimitHasPassed(s.cache, config, kid, t1, t2);
    }
    var starts := s.starts + [t3];
    forall k | 0 <= k < |starts| - 1
      ensures starts[k] <= starts[k + 1]
      ensures starts[k] != ZERO_TIME ==> starts[k + 1] - starts[k] >= config.MinRefresh()
    {
      assert starts[k] == s.starts[k] && (k + 1 < |s.starts| ==> starts[k + 1] == s.starts[k + 1]);
    }
  }

  lemma LimitHasPassed(c: Cache, config: Config, kid: Kid, t1: Time, t2: Time)
    requires Recheck(c, config, kid, t1, t2).None? && c.attemptedAt <= t2
    ensures c.attemptedAt != ZERO_TIME ==> t2 - c.attemptedAt >= config.MinRefresh()
  {}

  /** An answer agrees with a key set about a kid. */
  predicate Agrees(answer: Answer, keys: KeySet, kid: Kid) {
    (kid in keys ==> answer == Found(keys[kid])) && (answer.Found? ==> kid in keys)
  }

  /** A call stays truthful when it keeps its answer, has none, or takes one that agrees
      with the current set. */
  lemma TruthfulSurvives(s: State, t: State, c: Call, c': Call)
    requires Truthful(s, c) && c.phase != Idle && c'.phase != Idle
    requires t.sets != [] && s.sets <= t.sets && t.sets[|t.sets| - 1] == t.cache.keys
    requires c'.kid == c.kid && c'.since == c.since
    requires c'.present ==> c.present && c.kid in t.cache.keys
    requires HasAnswer(c') ==>
               || (HasAnswer(c) && AnswerOf(c) == AnswerOf(c'))
               || Agrees(AnswerOf(c'), t.cache.keys, c.kid)
    ensures Truthful(t, c')
  {
    if HasAnswer(c) && HasAnswer(c') && AnswerOf(c) == AnswerOf(c') && AnswerOf(c).Found? {
      var k :| c.since <= k < |s.sets| && c.kid in s.sets[k] && s.sets[k][c.kid] == AnswerOf(c).key;
      assert t.sets[k] == s.sets[k];
    } else {
      var k := |t.sets| - 1;
      assert t.sets[k] == t.cache.keys;
    }
  }

  lemma LookupAgrees(c: Cache, config: Config, kid: Kid, t1: Time, t2: Time, fetched: Option<KeySet>)
    ensures Peek(c, config, kid, t1).Some? ==> Agrees(Peek(c, config, kid, t1).value, c.keys, kid)
    ensures Recheck(c, config, kid, t1, t2).Some? ==> Agrees(Recheck(c, config, kid, t1, t2).value, c.keys, kid)
    ensures Agrees(Conclude(c, kid, fetched), Install(c, fetched, t1).keys, kid)
  {}

  /** A call's own view moves on: the sets only grow, its kid and its start stay, and an
      answer it gets agrees with the set that is then current. */
  ghost predicate MovesOn(s: State, t: State, c: Call, c': Call) {
    && t.sets != [] && s.sets <= t.sets && t.sets[|t.sets| - 1] == t.cache.keys
    && c'.phase != Idle && c'.kid == c.kid && c'.since == c.since
    && (c'.present ==> c.present && (c.kid in s.cache.keys ==> c.kid in t.cache.keys))
    && (HasAnswer(c') ==>
          || (HasAnswer(c) && AnswerOf(c) == AnswerOf(c'))
          || Agrees(AnswerOf(c'), t.cache.keys, c.kid))
  }

  lemma EndFetchMovesOn(s: State, config: Config, i: nat, fetched: Option<KeySet>, j: nat)
    requires s.sets != [] && s.sets[|s.sets| - 1] == s.cache.keys && Enabled(s, EndFetch(i, fetched))
    requires j < |s.calls| && s.calls[j].phase != Idle
    ensures
      var t := Apply(s, config, EndFetch(i, fetched));
      |t.calls| == |s.calls| && MovesOn(s, t, s.calls[j], t.calls[j])
  {
    hide Conclude, Agrees;
    LookupAgrees(s.cache, config, s.calls[i].kid, s.clock, s.clock, fetched);
  }

  lemma StepMovesOn(s: State, config: Config, step: Step, j: nat)
    requires s.sets != [] && s.sets[|s.sets| - 1] == s.cache.keys && Enabled(s, step)
    requires !step.EndFetch? && j < |s.calls| && s.calls[j].phase != Idle
    ensures
      var t := Apply(s, config, step);
      |t.calls| == |s.calls| && MovesOn(s, t, s.calls[j], t.calls[j])
  {
    hide Peek, Recheck, Agrees;
    if step.Look? {
      LookupAgrees(s.cache, config, s.calls[step.i].kid, s.calls[step.i].phase.now, s.clock, None);
    } else if step.LookAgain? {
      LookupAgrees(s.cache, config, s.calls[step.i].kid, step.t1, step.t2, None);
    }
  }

  /** A lookup that was idle is idle still, or has just begun on the current set. */
  lemma IdleBegins(s: State, config: Config, step: Step, j: nat)
    requires s.sets != [] && s.sets[|s.sets| - 1] == s.cache.keys && Enabled(s, step)
    requires j < |s.calls| && s.calls[j].phase == Idle
    ensures
      var t := Apply(s, config, step);
      && t.sets != [] && t.sets[|t.sets| - 1] == t.cache.keys && |t.calls| == |s.calls|
      && var c := t.calls[j];
      c.phase == Idle || (c.phase.Looking? && c.since < |t.sets| && (c.present ==> c.kid in t.cache.keys))
  {
    hide Peek, Recheck, Conclude;
  }

  lemma StepKeepsTruthful(s: State, config: Config, step: Step, j: nat)
    requires Inv(s, config) && Enabled(s, step) && j < |s.calls|
    ensures
      var t := Apply(s, config, step);
      && t.sets != [] && t.sets[|t.sets| - 1] == t.cache.keys
      && |t.calls| == |s.calls| && Truthful(t, t.calls[j])
  {
    hide SingleFlight, Spaced, Truthful, Agrees, Apply, Enabled;
    var t := Apply(s, config, step);
    var c := s.calls[j];
    if c.phase == Idle {
      IdleBegins(s, config, step, j);
      NewCallIsTruthful(t, t.calls[j]);
    } else {
      if step.EndFetch? {
        EndFetchMovesOn(s, config, step.i, step.fetched, j);
      } else {
        StepMovesOn(s, config, step, j);
      }
      PresentIsCurrent(s, c);
      TruthfulSurvives(s, t, c, t.calls[j]);
    }
  }

  lemma PresentIsCurrent(s: State, c: Call)
    requires Truthful(s, c) && c.phase != Idle
    ensures c.present ==> c.kid in s.cache.keys
  {}

  lemma NewCallIsTruthful(s: State, c: Call)
    requires c.phase == Idle || (c.phase.Looking? && c.since < |s.sets| && (c.present ==> c.kid in s.cache.keys))
    ensures Truthful(s, c)
  {}

  // ----- over whole runs

  /** Every step of the run is enabled where it is taken. */
  ghost predicate IsRun(s: State, config: Config, steps: seq<Step>)
    decreases |steps|
  {
    s.sets != [] &&
    (steps == [] || (Enabled(s, steps[0]) && IsRun(Apply(s, config, steps[0]), config, steps[1..])))
  }

  function After(s: State, config: Config, steps: seq<Step>): State
    requires IsRun(s, config, steps)
    decreases |steps|
  {
    if steps == [] then s else After(Apply(s, config, steps[0]), config, steps[1..])
  }

  lemma StepKeepsInv(s: State, config: Config, step: Step)
    requires Inv(s, config) && Enabled(s, step)
    ensures Inv(Apply(s, config, step), config)
  {
    hide SingleFlight, Spaced, Truthful, Apply;
    StepKeepsSingleFlight(s, config, step);
    StepKeepsSpaced(s, config, step);
    var t := Apply(s, config, step);
    ApplyKeepsCalls(s, config, step);
    forall j | 0 <= j < |t.calls|
      ensures Truthful(t, t.calls[j])
    {
      StepKeepsTruthful(s, config, step, j);
    }
    if |s.calls| > 0 {
      StepKeepsTruthful(s, config, step, 0);
    }
  }

  lemma ApplyKeepsCalls(s: State, config: Config, step: Step)
    requires Inv(s, config) && Enabled(s, step)
    ensures
      var t := Apply(s, config, step);
      |t.calls| == |s.calls| && (step.Tick? ==> t.sets == s.sets && t.cache == s.cache)
  {
    hide SingleFlight, Spaced, Truthful;
  }

  /** In every reachable state at most one fetch is in flight, fetches are spaced, and every
      answer is truthful. */
  lemma {:induction false} RunsKeepInv(s: State, config: Config, steps: seq<Step>)
    requires Inv(s, config) && IsRun(s, config, steps)
    ensures Inv(After(s, config, steps), config)
    decreases |steps|
  {
    hide SingleFlight, Spaced, Truthful, Apply;
    if steps != [] {
      StepKeepsInv(s, config, steps[0]);
      RunsKeepInv(Apply(s, config, steps[0]), config, steps[1..]);
    }
  }

  lemma InitHolds(s: State, config: Config)
    requires Init(s)
    ensures Inv(s, config)
  {}

  /** A kid that stayed in the cached set for the whole call was found. */
  lemma StayingKidIsFound(s: State, config: Config, steps: seq<Step>, i: nat)
    requires Init(s) && IsRun(s, config, steps)
    requires
      var t := After(s, config, steps);
      i < |t.calls| && t.calls[i].phase.Done? && t.calls[i].present
    ensures After(s, config, steps).calls[i].phase.answer.Found?
  {
    InitHolds(s, config);
    RunsKeepInv(s, config, steps);
    var t := After(s, config, steps);
    assert Truthful(t, t.calls[i]);
  }

  /** Under the fetch mutex, the second look of any reachable state sends a lookup on to fetch
      exactly when its kid is unknown or stale, and the last fetch is MinRefresh ago, began
      at the zero time, or never was. */
  lemma FetchAllowedExactly(s: State, config: Config, steps: seq<Step>, kid: Kid, t1: Time, t2: Time)
    requires Init(s) && IsRun(s, config, steps) && After(s, config, steps).clock <= t1 <= t2
    ensures
      var t := After(s, config, steps);
      Recheck(t.cache, config, kid, t1, t2).None? <==>
        && !(kid in t.cache.keys && Fresh(t.cache, config, t1))
        && (|| t.starts == []
            || t.starts[|t.starts| - 1] == ZERO_TIME
            || t2 - t.starts[|t.starts| - 1] >= config.MinRefresh())
  {
    InitHolds(s, config);
    RunsKeepInv(s, config, steps);
  }

  /** Any two fetches are at least as far apart as the fetches between them make it. */
  ghost predicate Apart(starts: seq<Time>, gap: int) {
    forall i, j :: 0 <= i <= j < |starts| ==> starts[j] - starts[i] >= (j - i) * gap
  }

  lemma {:induction false} SpacedStretch(s: State, config: Config, i: nat, j: nat)
    requires Spaced(s, config) && i <= j < |s.starts|
    requires forall k :: i <= k < j ==> s.starts[k] != ZERO_TIME
    ensures s.starts[j] - s.starts[i] >= (j - i) * config.MinRefresh()
    decreases j - i
  {
    if i < j {
      SpacedStretch(s, config, i, j - 1);
      assert s.starts[j] - s.starts[j - 1] >= config.MinRefresh();
      assert (j - i) * config.MinRefresh() == (j - 1 - i) * config.MinRefresh() + config.MinRefresh();
    }
  }

  ghost predicate StartsFrom(s: State, earliest: Time) {
    earliest <= s.clock && forall k :: 0 <= k < |s.starts| ==> earliest <= s.starts[k]
  }

  lemma {:induction false} StartsAfter(s: State, config: Config, steps: seq<Step>, earliest: Time)
    requires StartsFrom(s, earliest) && IsRun(s, config, steps)
    ensures StartsFrom(After(s, config, steps), earliest)
    decreases |steps|
  {
    if steps != [] {
      StepStartsAfter(s, config, steps[0], earliest);
      hide Apply, Enabled, StartsFrom;
      StartsAfter(Apply(s, config, steps[0]), config, steps[1..], earliest);
    }
  }

  lemma StepStartsAfter(s: State, config: Config, step: Step, earliest: Time)
    requires StartsFrom(s, earliest) && s.sets != [] && Enabled(s, step)
    ensures StartsFrom(Apply(s, config, step), earliest)
  {
    hide Peek, Recheck, Conclude, Publish;
    if step.EndFetch? && step.fetched.Some? {
      PublishKeeps(Moved(s, step.i, Unlocking(Conclude(s.cache, s.calls[step.i].kid, step.fetched)))
        .(cache := Install(s.cache, step.fetched, s.clock)), step.fetched.value);
    }
  }

  /** Started after the zero time, no run fetches more often than once per MinRefresh,
      whatever the clock, the fetches and the lookups do. */
  lemma FetchesAreSpaced(s: State, config: Config, steps: seq<Step>)
    requires Init(s) && s.clock > ZERO_TIME && IsRun(s, config, steps)
    ensures Apart(After(s, config, steps).starts, config.MinRefresh())
  {
    hide Spaced, IsRun, After;
    InitHolds(s, config);
    RunsKeepInv(s, config, steps);
    StartsAfter(s, config, steps, s.clock);
    var t := After(s, config, steps);
    forall i, j | 0 <= i <= j < |t.starts|
      ensures t.starts[j] - t.starts[i] >= (j - i) * config.MinRefresh()
    {
      SpacedStretch(t, config, i, j);
    }
  }

  /** The limit holds over every run of two or more lookups exactly when the clock starts
      after the zero time. */
  lemma LimitHoldsExactly(s: State, config: Config)
    requires Init(s) && config.MinRefresh() > 0 && |s.calls| >= 2
    ensures (forall steps | IsRun(s, config, steps) :: Apart(After(s, config, steps).starts, config.MinRefresh()))
            <==> s.clock > ZERO_TIME
  {
    hide IsRun, After, Apart;
    if s.clock > ZERO_TIME {
      forall steps | IsRun(s, config, steps)
        ensures Apart(After(s, config, steps).starts, config.MinRefresh())
      {
        FetchesAreSpaced(s, config, steps);
      }
    } else {
      var steps := ZeroTimeDefeatsTheLimit(s, config);
      TwoAtOnceAreNotApart(config.MinRefresh());
      assert !Apart(After(s, config, steps).starts, config.MinRefresh());
    }
  }

  lemma TwoAtOnceAreNotApart(gap: int)
    requires gap > 0
    ensures !Apart([ZERO_TIME, ZERO_TIME], gap)
  {
    var starts := [ZERO_TIME, ZERO_TIME];
    assert starts[1] - starts[0] < (1 - 0) * gap;
  }

  /** At the zero time an attempt leaves no trace, and a second lookup fetches again at once. */
  lemma ZeroTimeDefeatsTheLimit(s: State, config: Config) returns (steps: seq<Step>)
    requires Init(s) && s.clock <= ZERO_TIME && |s.calls| >= 2
    ensures IsRun(s, config, steps) && After(s, config, steps).starts == [ZERO_TIME, ZERO_TIME]
  {
    hide IsRun, After, Enabled, Apply;
    var wait, s0 := WaitForZero(s, config);
    var first, s1 := OneFetch(s0, config, 0);
    var finish, s2 := EndsAndUnlocks(s1, config, 0);
    var second, s3 := OneFetch(s2, config, 1);
    RunsCompose(s, config, wait, first);
    RunsCompose(s, config, wait + first, finish);
    RunsCompose(s, config, wait + first + finish, second);
    steps := wait + first + finish + second;
  }

  lemma WaitForZero(s: State, config: Config) returns (steps: seq<Step>, t: State)
    requires s.sets != [] && s.clock <= ZERO_TIME
    ensures t == s.(clock := ZERO_TIME) && IsRun(s, config, steps) && After(s, config, steps) == t
  {
    t := Apply(s, config, Tick(ZERO_TIME));
    hide IsRun, After, Apply;
    NoSteps(t, config);
    Prepend(s, config, Tick(ZERO_TIME), t, []);
    steps := [Tick(ZERO_TIME)] + [];
  }

  lemma OneFetch(s: State, config: Config, i: nat) returns (steps: seq<Step>, t: State)
    requires s.sets != [] && i < |s.calls| && s.calls[i].phase == Idle
    requires s.cache == EMPTY && s.clock == ZERO_TIME && !s.fetchHeld
    ensures |t.calls| == |s.calls| && t.calls == s.calls[i := t.calls[i]] && t.calls[i].phase == Fetching
    ensures t == s.(fetchHeld := true, starts := s.starts + [ZERO_TIME], calls := t.calls)
    ensures IsRun(s, config, steps) && After(s, config, steps) == t
  {
    var a := Apply(s, config, Begin(i));
    var b := Apply(a, config, Look(i));
    var c := Apply(b, config, LockFetch(i));
    var last := LookAgain(i, ZERO_TIME, ZERO_TIME, ZERO_TIME);
    t := Apply(c, config, last);
    hide IsRun, After, Apply;
    NoSteps(t, config);
    Prepend(c, config, last, t, []);
    Prepend(b, config, LockFetch(i), c, [last]);
    Prepend(a, config, Look(i), b, [LockFetch(i)] + [last]);
    Prepend(s, config, Begin(i), a, [Look(i)] + ([LockFetch(i)] + [last]));
    steps := [Begin(i)] + ([Look(i)] + ([LockFetch(i)] + [last]));
  }

  lemma EndsAndUnlocks(s: State, config: Config, i: nat) returns (steps: seq<Step>, t: State)
    requires s.sets != [] && i < |s.calls| && s.calls[i].phase == Fetching && s.cache == EMPTY
    ensures t == s.(fetchHeld := false, calls := s.calls[i := s.calls[i].(phase := Done(FetchFailed))])
    ensures IsRun(s, config, steps) && After(s, config, steps) == t
  {
    var a := Apply(s, config, EndFetch(i, None));
    t := Apply(a, config, UnlockFetch(i));
    hide IsRun, After, Apply;
    NoSteps(t, config);
    Prepend(a, config, UnlockFetch(i), t, []);
    Prepend(s, config, EndFetch(i, None), a, [UnlockFetch(i)]);
    steps := [EndFetch(i, None)] + [UnlockFetch(i)];
  }

  lemma NoSteps(s: State, config: Config)
    requires s.sets != []
    ensures IsRun(s, config, []) && After(s, config, []) == s
  {}

  lemma Prepend(s: State, config: Config, step: Step, t: State, steps: seq<Step>)
    requires s.sets != [] && Enabled(s, step) && t == Apply(s, config, step) && IsRun(t, config, steps)
    ensures IsRun(s, config, [step] + steps) && After(s, config, [step] + steps) == After(t, config, steps)
  {
    hide Apply, Enabled;
    assert ([step] + steps)[1..] == steps;
  }

  lemma {:induction false} RunsCompose(s: State, config: Config, steps: seq<Step>, more: seq<Step>)
    requires IsRun(s, config, steps) && IsRun(After(s, config, steps), config, more)
    ensures IsRun(s, config, steps + more)
    ensures After(s, config, steps + more) == After(After(s, config, steps), config, more)
    decreases |steps|
  {
    hide Apply, Enabled;
    if steps == [] {
      assert steps + more == more;
    } else {
      assert (steps + more)[1..] == steps[1..] + more;
      RunsCompose(Apply(s, config, steps[0]), config, steps[1..], more);
    }
  }

  /** Lookups never deadlock: while one is unfinished, some lookup can take a step. */
  lemma NeverStuck(s: State, config: Config, i: nat) returns (step: Step)
    requires Inv(s, config) && i < |s.calls| && !s.calls[i].phase.Done?
    ensures Enabled(s, step) && !step.Tick?
  {
    if s.calls[i].phase == WantsFetch && s.fetchHeld {
      var j :| 0 <= j < |s.calls| && HoldsFetch(s.calls[j].phase);
      step := if s.calls[j].phase == Rechecking then LookAgain(j, s.clock, s.clock, s.clock)
              else if s.calls[j].phase == Fetching then EndFetch(j, None)
              else UnlockFetch(j);
    } else {
      var phase := s.calls[i].phase;
      step := if phase == Idle then Begin(i)
              else if phase.Looking? then Look(i)
              else if phase == WantsFetch then LockFetch(i)
              else if phase == Rechecking then LookAgain(i, s.clock, s.clock, s.clock)
              else if phase == Fetching then EndFetch(i, None)
              else UnlockFetch(i);
    }
  }
}
