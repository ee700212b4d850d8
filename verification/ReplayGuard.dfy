/** The bounded in-process guard that remembers accepted event ids until their timestamps
    leave the window. */
module ReplayGuard {
  import opened Sequences

  /** Nanoseconds on any fixed scale. */
  type Time = int

  const DEFAULT_WINDOW: int := 300_000_000_000
  const DEFAULT_MAX := 10000

  datatype Answer = Recorded | Replayed | Full

  datatype State = State(seen: map<string, Time>, order: seq<string>)

  datatype Event = Event(id: string, at: Time, now: Time)

  // ----- one check

  predicate Live(s: State, id: string, cutoff: Time) {
    id in s.seen && s.seen[id] > cutoff
  }

  function Tail(s: State): State
    requires s.order != []
  {
    State(s.seen - {s.order[0]}, s.order[1..])
  }

  /** Forget ids from the front of the queue until one is still live. */
  function Trimmed(s: State, cutoff: Time): State
    decreases |s.order|
  {
    if s.order == [] || Live(s, s.order[0], cutoff) then s
    else Trimmed(Tail(s), cutoff)
  }

  function AnswerTo(s: State, max: nat, id: string): Answer {
    if id in s.seen then Replayed else if |s.order| >= max then Full else Recorded
  }

  function Checked(s: State, max: nat, id: string, at: Time): State {
    if AnswerTo(s, max, id) == Recorded then State(s.seen[id := at], s.order + [id]) else s
  }

  class MemoryReplay {
    const window: int
    const max: nat
    var seen: map<string, Time>
    var order: seq<string>

    function View(): State
      reads this
    {
      State(seen, order)
    }

    constructor (window: int, max: int)
      ensures this.window == (if window <= 0 then 5 * 60 * 1_000_000_000 else window)
      ensures this.max == (if max <= 0 then 10_000 else max)
      ensures View() == State(map[], []) && Valid(View(), this.max)
    {
      this.window := if window <= 0 then DEFAULT_WINDOW else window;
      this.max := if max <= 0 then DEFAULT_MAX else max;
      seen, order := map[], [];
    }

    method Check(id: string, at: Time, now: Time) returns (answer: Answer)
      modifies this
      ensures answer == AnswerTo(Trimmed(old(View()), now - window), max, id)
      ensures View() == Checked(Trimmed(old(View()), now - window), max, id, at)
    {
      var cutoff := now - window;
      while |order| > 0
        invariant Trimmed(View(), cutoff) == Trimmed(old(View()), cutoff)
        decreases |order|
      {
        var oldest := order[0];
        if oldest in seen && seen[oldest] > cutoff {
          break;
        }
        seen := seen - {oldest};
        order := order[1..];
      }
      if id in seen {
        return Replayed;
      }
      if |order| >= max {
        return Full;
      }
      seen := seen[id := at];
      order := order + [id];
      return Recorded;
    }
  }

  // ----- what every check keeps

  /** The queue lists each remembered id once, and there are at most max. */
  ghost predicate Valid(s: State, max: nat) {
    && Distinct(s.order)
    && (forall id :: id in s.seen <==> id in s.order)
    && |s.order| <= max
  }

  lemma TailIsValid(s: State, max: nat)
    requires Valid(s, max) && s.order != []
    ensures Valid(Tail(s), max)
  {
    var front := s.order[0];
    forall id
      ensures id in Tail(s).seen <==> id in s.order[1..]
    {
      assert s.order == [front] + s.order[1..];
      if id in s.order[1..] {
        assert id != front;
      }
    }
  }

  lemma {:induction false} TrimmedIsValid(s: State, max: nat, cutoff: Time)
    requires Valid(s, max)
    ensures Valid(Trimmed(s, cutoff), max)
    decreases |s.order|
  {
    hide Valid;
    if s.order != [] && !Live(s, s.order[0], cutoff) {
      TailIsValid(s, max);
      TrimmedIsValid(Tail(s), max, cutoff);
    }
  }

  /** Trimming forgets only expired ids, and keeps the timestamps of the rest. */
  lemma {:induction false} TrimmedForgetsExpired(s: State, cutoff: Time, id: string)
    ensures id in Trimmed(s, cutoff).seen ==> id in s.seen && Trimmed(s, cutoff).seen[id] == s.seen[id]
    ensures id in s.seen && id !in Trimmed(s, cutoff).seen ==> s.seen[id] <= cutoff
    decreases |s.order|
  {
    if s.order != [] && !Live(s, s.order[0], cutoff) {
      TrimmedForgetsExpired(Tail(s), cutoff, id);
    }
  }

  /** Trimming removes a stretch from the front of the queue and stops at a live id. */
  lemma {:induction false} TrimmedIsSuffix(s: State, cutoff: Time)
    ensures
      var t := Trimmed(s, cutoff);
      && |t.order| <= |s.order| && t.order == s.order[|s.order| - |t.order|..]
      && (t.order != [] ==> Live(t, t.order[0], cutoff))
    decreases |s.order|
  {
    if s.order != [] && !Live(s, s.order[0], cutoff) {
      TrimmedIsSuffix(Tail(s), cutoff);
    }
  }

  lemma CheckKeepsValid(s: State, max: nat, cutoff: Time, id: string, at: Time)
    requires Valid(s, max)
    ensures Valid(Checked(Trimmed(s, cutoff), max, id, at), max)
  {
    hide Valid, Trimmed;
    TrimmedIsValid(s, max, cutoff);
    RecordKeepsValid(Trimmed(s, cutoff), max, id, at);
  }

  lemma RecordKeepsValid(s: State, max: nat, id: string, at: Time)
    requires Valid(s, max)
    ensures Valid(Checked(s, max, id, at), max)
  {
    if AnswerTo(s, max, id) == Recorded {
      var t := Checked(s, max, id, at);
      assert id !in s.order;
      forall other
        ensures other in t.seen <==> other in t.order
      {
        assert other in t.order <==> other in s.order || other == id;
      }
    }
  }

  /** A live id is answered as a replay, and survives any check with the timestamp it has. */
  lemma LiveIdIsKept(s: State, max: nat, window: int, id: string, e: Event)
    requires id in s.seen && e.now < s.seen[id] + window
    ensures
      var t := Checked(Trimmed(s, e.now - window), max, e.id, e.at);
      id in t.seen && t.seen[id] == s.seen[id]
    ensures e.id == id ==> AnswerTo(Trimmed(s, e.now - window), max, e.id) == Replayed
  {
    hide Trimmed;
    TrimmedForgetsExpired(s, e.now - window, id);
  }

  /** An id is forgotten by a check only once its timestamp has left the window. */
  lemma ForgottenOnlyWhenExpired(s: State, max: nat, window: int, id: string, e: Event)
    requires id in s.seen && id !in Checked(Trimmed(s, e.now - window), max, e.id, e.at).seen
    ensures s.seen[id] + window <= e.now
  {
    hide Trimmed;
    TrimmedForgetsExpired(s, e.now - window, id);
  }

  // ----- sequences of checks

  function Run(s: State, max: nat, window: int, events: seq<Event>): State
    decreases |events|
  {
    if events == [] then s
    else
      var e := events[0];
      Run(Checked(Trimmed(s, e.now - window), max, e.id, e.at), max, window, events[1..])
  }

  /** What the guard answers to an event after a history. */
  function AnswerAfter(s: State, max: nat, window: int, history: seq<Event>, e: Event): Answer {
    AnswerTo(Trimmed(Run(s, max, window, history), e.now - window), max, e.id)
  }

  ghost predicate ClockRuns(events: seq<Event>) {
    forall i, j :: 0 <= i < j < |events| ==> events[i].now <= events[j].now
  }

  lemma {:induction false} RunKeepsValid(s: State, max: nat, window: int, events: seq<Event>)
    requires Valid(s, max)
    ensures Valid(Run(s, max, window, events), max)
    decreases |events|
  {
    hide Trimmed, Checked, Valid;
    if events != [] {
      var e := events[0];
      CheckKeepsValid(s, max, e.now - window, e.id, e.at);
      RunKeepsValid(Checked(Trimmed(s, e.now - window), max, e.id, e.at), max, window, events[1..]);
    }
  }

  lemma {:induction false} LiveIdIsKeptByRun(s: State, max: nat, window: int, id: string, events: seq<Event>)
    requires id in s.seen
    requires forall i :: 0 <= i < |events| ==> events[i].now < s.seen[id] + window
    ensures id in Run(s, max, window, events).seen
    ensures Run(s, max, window, events).seen[id] == s.seen[id]
    decreases |events|
  {
    hide Trimmed, Checked;
    if events != [] {
      var e := events[0];
      LiveIdIsKept(s, max, window, id, e);
      var t := Checked(Trimmed(s, e.now - window), max, e.id, e.at);
      LiveIdIsKeptByRun(t, max, window, id, events[1..]);
    }
  }

  /** Once recorded, an event is answered as a replay by every later check whose clock has not
      reached its timestamp plus the window, whatever came between. */
  lemma RecordedEventsAreReplays(max: nat, window: int, before: seq<Event>, e: Event, between: seq<Event>, again: Event)
    requires ClockRuns(before + [e] + between + [again])
    requires AnswerAfter(State(map[], []), max, window, before, e) == Recorded
    requires again.id == e.id && again.now < e.at + window
    ensures AnswerAfter(State(map[], []), max, window, before + [e] + between, again) == Replayed
  {
    hide Trimmed, Run;
    var s0 := State(map[], []);
    var s := Run(s0, max, window, before);
    var t := Checked(Trimmed(s, e.now - window), max, e.id, e.at);
    RunComposes(s0, max, window, before, [e] + between);
    assert before + [e] + between == before + ([e] + between);
    OneMoreEvent(s, max, window, e, between);
    var all := before + [e] + between + [again];
    forall i | 0 <= i < |between|
      ensures between[i].now < e.at + window
    {
      assert all[|before| + 1 + i] == between[i] && all[|all| - 1] == again;
    }
    LiveIdIsKeptByRun(t, max, window, e.id, between);
    LiveIdIsKept(Run(t, max, window, between), max, window, e.id, again);
  }

  lemma OneMoreEvent(s: State, max: nat, window: int, e: Event, events: seq<Event>)
    ensures Run(s, max, window, [e] + events) ==
              Run(Checked(Trimmed(s, e.now - window), max, e.id, e.at), max, window, events)
  {
    hide Trimmed, Checked;
    assert ([e] + events)[1..] == events;
  }

  lemma {:induction false} RunComposes(s: State, max: nat, window: int, first: seq<Event>, rest: seq<Event>)
    ensures Run(s, max, window, first + rest) == Run(Run(s, max, window, first), max, window, rest)
    decreases |first|
  {
    hide Trimmed, Checked;
    if first == [] {
      assert first + rest == rest;
    } else {
      assert (first + rest)[1..] == first[1..] + rest;
      var e := first[0];
      RunComposes(Checked(Trimmed(s, e.now - window), max, e.id, e.at), max, window, first[1..], rest);
    }
  }

  lemma {:induction false} RememberedWereRecorded(max: nat, window: int, history: seq<Event>, id: string)
    returns (k: nat)
    requires id in Run(State(map[], []), max, window, history).seen
    ensures k < |history| && history[k].id == id
    ensures AnswerAfter(State(map[], []), max, window, history[..k], history[k]) == Recorded
  {
    hide Trimmed;
    var s0 := State(map[], []);
    if history == [] {
      assert false;
    } else {
      var last := |history| - 1;
      var before, e := history[..last], history[last];
      assert history == before + [e];
      RunOneMore(s0, max, window, before, e);
      TrimmedForgetsExpired(Run(s0, max, window, before), e.now - window, id);
      if id in Run(s0, max, window, before).seen {
        k := RememberedWereRecorded(max, window, before, id);
        assert before[..k] == history[..k];
      } else {
        k := last;
      }
    }
  }

  /** Nothing is called a replay that was not recorded: an event is refused as one only after
      an earlier event of its id was accepted. */
  lemma ReplaysWereRecorded(max: nat, window: int, history: seq<Event>, e: Event) returns (k: nat)
    requires AnswerAfter(State(map[], []), max, window, history, e) == Replayed
    ensures k < |history| && history[k].id == e.id
    ensures AnswerAfter(State(map[], []), max, window, history[..k], history[k]) == Recorded
  {
    hide Trimmed;
    TrimmedForgetsExpired(Run(State(map[], []), max, window, history), e.now - window, e.id);
    k := RememberedWereRecorded(max, window, history, e.id);
  }

  lemma {:induction false} QueueIsShort(s: State, max: nat, window: int, history: seq<Event>)
    ensures |Run(s, max, window, history).order| <= |s.order| + |history|
    decreases |history|
  {
    hide Trimmed;
    if history != [] {
      var e := history[0];
      TrimmedIsSuffix(s, e.now - window);
      QueueIsShort(Checked(Trimmed(s, e.now - window), max, e.id, e.at), max, window, history[1..]);
    }
  }

  /** And an id never seen is recorded while fewer than max events have come. */
  lemma NewIdIsRecorded(max: nat, window: int, history: seq<Event>, e: Event)
    requires |history| < max && forall k :: 0 <= k < |history| ==> history[k].id != e.id
    ensures AnswerAfter(State(map[], []), max, window, history, e) == Recorded
  {
    hide Trimmed, Run;
    var s := Run(State(map[], []), max, window, history);
    QueueIsShort(State(map[], []), max, window, history);
    TrimmedIsSuffix(s, e.now - window);
    if AnswerAfter(State(map[], []), max, window, history, e) == Replayed {
      var k := ReplaysWereRecorded(max, window, history, e);
    }
  }

  // ----- when the guard is full

  /** Somewhere in the queue a live id stands before an expired one. */
  ghost predicate LiveBeforeExpired(s: State, cutoff: Time) {
    exists i, j :: 0 <= i < j < |s.order| && Live(s, s.order[i], cutoff) && !Live(s, s.order[j], cutoff)
  }

  /** After trimming every remembered id is live, so a refusal for want of room means max live
      ids, exactly when no live id stood before an expired one. */
  lemma AllLiveExactly(s: State, max: nat, cutoff: Time)
    requires Valid(s, max)
    ensures (forall id :: id in Trimmed(s, cutoff).seen ==> Live(s, id, cutoff)) <==> !LiveBeforeExpired(s, cutoff)
  {
    hide Trimmed, Valid, Live;
    if LiveBeforeExpired(s, cutoff) {
      var i, j :| 0 <= i < j < |s.order| && Live(s, s.order[i], cutoff) && !Live(s, s.order[j], cutoff);
      BehindALiveIdStays(s, max, cutoff, i, j);
    } else {
      forall id | id in Trimmed(s, cutoff).seen
        ensures Live(s, id, cutoff)
      {
        RememberedBehindALiveId(s, max, cutoff, id);
      }
    }
  }

  lemma BehindALiveIdStays(s: State, max: nat, cutoff: Time, i: nat, j: nat)
    requires Valid(s, max) && i <= j < |s.order| && Live(s, s.order[i], cutoff)
    ensures s.order[j] in Trimmed(s, cutoff).seen
  {
    hide Trimmed;
    TrimmedIsValid(s, max, cutoff);
    TrimmedIsSuffix(s, cutoff);
    LiveIdsAreNotTrimmed(s, max, cutoff, i);
    var t := Trimmed(s, cutoff);
    var k := |s.order| - |t.order|;
    assert t.order[j - k] == s.order[j];
  }

  lemma RememberedBehindALiveId(s: State, max: nat, cutoff: Time, id: string)
    requires Valid(s, max) && id in Trimmed(s, cutoff).seen
    ensures Live(s, id, cutoff) || LiveBeforeExpired(s, cutoff)
  {
    hide Trimmed;
    TrimmedIsValid(s, max, cutoff);
    TrimmedIsSuffix(s, cutoff);
    var t := Trimmed(s, cutoff);
    var k := |s.order| - |t.order|;
    var m :| 0 <= m < |t.order| && t.order[m] == id;
    TrimmedForgetsExpired(s, cutoff, t.order[0]);
    assert t.order[0] == s.order[k] && t.order[m] == s.order[k + m];
    assert Live(s, s.order[k], cutoff);
  }

  lemma LiveIdsAreNotTrimmed(s: State, max: nat, cutoff: Time, i: nat)
    requires Valid(s, max) && i < |s.order| && Live(s, s.order[i], cutoff)
    ensures i >= |s.order| - |Trimmed(s, cutoff).order|
  {
    hide Trimmed;
    TrimmedIsValid(s, max, cutoff);
    TrimmedIsSuffix(s, cutoff);
    TrimmedForgetsExpired(s, cutoff, s.order[i]);
    var t := Trimmed(s, cutoff);
    var m :| 0 <= m < |t.order| && t.order[m] == s.order[i];
    assert t.order[m] == s.order[|s.order| - |t.order| + m];
  }

  /** Timestamps out of order do bring that about: a guard for two ids refuses a third while
      it holds a single live one. */
  lemma FullWithOneLiveId()
    ensures
      var history := [Event("a", 10, 5), Event("b", 5, 5)];
      var e := Event("c", 10, 10);
      var s := Run(State(map[], []), 2, 5, history);
      && ClockRuns(history + [e])
      && AnswerAfter(State(map[], []), 2, 5, history, e) == Full
      && Live(s, "a", e.now - 5) && !Live(s, "b", e.now - 5)
  {
    var s0 := State(map[], []);
    var a, b := Event("a", 10, 5), Event("b", 5, 5);
    var s1 := Checked(Trimmed(s0, 0), 2, "a", 10);
    assert s1 == State(map["a" := 10], ["a"]);
    var s2 := Checked(Trimmed(s1, 0), 2, "b", 5);
    assert s2 == State(map["a" := 10, "b" := 5], ["a", "b"]);
    assert [a, b][1..] == [b] && [b][1..] == [];
    assert Run(s1, 2, 5, [b]) == s2;
    assert Trimmed(s2, 5) == s2;
  }

  // ----- timestamps in order

  /** The queue stands in the order of its timestamps, none of them after latest. */
  ghost predicate Sorted(s: State, latest: Time) {
    && (forall i :: 0 <= i < |s.order| ==> s.order[i] in s.seen && s.seen[s.order[i]] <= latest)
    && (forall i, j :: 0 <= i < j < |s.order| ==> s.seen[s.order[i]] <= s.seen[s.order[j]])
  }

  /** Every event that gets recorded is stamped no earlier than those recorded before it. */
  ghost predicate RecordsInOrder(s: State, max: nat, window: int, latest: Time, events: seq<Event>)
    decreases |events|
  {
    events != [] ==>
      var e := events[0];
      var t := Trimmed(s, e.now - window);
      var recorded := AnswerTo(t, max, e.id) == Recorded;
      && (recorded ==> latest <= e.at)
      && RecordsInOrder(Checked(t, max, e.id, e.at), max, window, if recorded then e.at else latest, events[1..])
  }

  lemma TailIsSorted(s: State, max: nat, latest: Time)
    requires Valid(s, max) && Sorted(s, latest) && s.order != []
    ensures Sorted(Tail(s), latest)
  {
    var t := Tail(s);
    assert forall i :: 0 <= i < |t.order| ==> t.order[i] == s.order[i + 1] && s.order[0] != s.order[i + 1];
  }

  lemma {:induction false} TrimmedIsSorted(s: State, max: nat, cutoff: Time, latest: Time)
    requires Valid(s, max) && Sorted(s, latest)
    ensures Sorted(Trimmed(s, cutoff), latest)
    decreases |s.order|
  {
    hide Valid, Sorted;
    if s.order != [] && !Live(s, s.order[0], cutoff) {
      TailIsValid(s, max);
      TailIsSorted(s, max, latest);
      TrimmedIsSorted(Tail(s), max, cutoff, latest);
    }
  }

  lemma RecordingKeepsSorted(s: State, max: nat, id: string, at: Time, latest: Time)
    requires Valid(s, max) && Sorted(s, latest) && (AnswerTo(s, max, id) == Recorded ==> latest <= at)
    ensures Sorted(Checked(s, max, id, at), if AnswerTo(s, max, id) == Recorded then at else latest)
  {
    if AnswerTo(s, max, id) == Recorded {
      assert id !in s.order;
      assert forall i :: 0 <= i < |s.order| ==> s.order[i] != id;
    }
  }

  lemma OneEventKeepsSorted(s: State, max: nat, window: int, latest: Time, e: Event)
    requires Valid(s, max) && Sorted(s, latest)
    requires AnswerTo(Trimmed(s, e.now - window), max, e.id) == Recorded ==> latest <= e.at
    ensures
      var t := Trimmed(s, e.now - window);
      var next := Checked(t, max, e.id, e.at);
      Valid(next, max) && Sorted(next, if AnswerTo(t, max, e.id) == Recorded then e.at else latest)
  {
    hide Trimmed, Checked, Valid, Sorted, AnswerTo;
    TrimmedIsValid(s, max, e.now - window);
    TrimmedIsSorted(s, max, e.now - window, latest);
    CheckKeepsValid(s, max, e.now - window, e.id, e.at);
    RecordingKeepsSorted(Trimmed(s, e.now - window), max, e.id, e.at, latest);
  }

  lemma {:induction false} InOrderRunsStaySorted(s: State, max: nat, window: int, latest: Time, events: seq<Event>)
    returns (newest: Time)
    requires Valid(s, max) && Sorted(s, latest) && RecordsInOrder(s, max, window, latest, events)
    ensures Sorted(Run(s, max, window, events), newest)
    decreases |events|
  {
    hide Trimmed, Checked, Valid, Sorted, AnswerTo;
    newest := latest;
    if events != [] {
      var e := events[0];
      var t := Trimmed(s, e.now - window);
      OneEventKeepsSorted(s, max, window, latest, e);
      newest := InOrderRunsStaySorted(Checked(t, max, e.id, e.at), max, window,
        if AnswerTo(t, max, e.id) == Recorded then e.at else latest, events[1..]);
    }
  }

  /** When events are recorded in the order of their timestamps, a refusal for want of room
      means what it says: the guard holds max ids, all of them live. */
  lemma InOrderGuardIsFullOfLiveIds(max: nat, window: int, earliest: Time, history: seq<Event>, e: Event)
    requires RecordsInOrder(State(map[], []), max, window, earliest, history)
    requires AnswerAfter(State(map[], []), max, window, history, e) == Full
    ensures
      var t := Trimmed(Run(State(map[], []), max, window, history), e.now - window);
      |t.order| == max && Distinct(t.order) && forall id :: id in t.order ==> Live(t, id, e.now - window)
  {
    hide Trimmed, Run, RecordsInOrder;
    var s0 := State(map[], []);
    var newest := InOrderRunsStaySorted(s0, max, window, earliest, history);
    RunKeepsValid(s0, max, window, history);
    var s := Run(s0, max, window, history);
    var cutoff := e.now - window;
    TrimmedIsValid(s, max, cutoff);
    AllLiveExactly(s, max, cutoff);
    assert !LiveBeforeExpired(s, cutoff);
    forall id | id in Trimmed(s, cutoff).order
      ensures Live(Trimmed(s, cutoff), id, cutoff)
    {
      TrimmedForgetsExpired(s, cutoff, id);
    }
  }

  // ----- how far timestamps may go back

  /** No event is stamped more than slack before an earlier one. */
  ghost predicate WithinSlack(events: seq<Event>, slack: int) {
    forall i, j :: 0 <= i < j < |events| ==> events[i].at - slack <= events[j].at
  }

  predicate AllLive(s: State, cutoff: Time) {
    forall id :: id in s.order ==> Live(s, id, cutoff)
  }

  /** What the guard remembers as it decides about e. */
  function Remembered(max: nat, window: int, history: seq<Event>, e: Event): State {
    Trimmed(Run(State(map[], []), max, window, history), e.now - window)
  }

  /** Whatever happened within the slack, a guard that is full holds live ids only. */
  ghost predicate FullMeansLive(max: nat, window: int, slack: int) {
    forall history: seq<Event>, e: Event |
      ClockRuns(history + [e]) && WithinSlack(history + [e], slack) &&
      AnswerAfter(State(map[], []), max, window, history, e) == Full ::
      AllLive(Remembered(max, window, history, e), e.now - window)
  }

  lemma {:induction false} OrderedEventsRecordInOrder(s: State, max: nat, window: int, latest: Time, events: seq<Event>)
    requires WithinSlack(events, 0) && forall i :: 0 <= i < |events| ==> latest <= events[i].at
    ensures RecordsInOrder(s, max, window, latest, events)
    decreases |events|
  {
    hide Trimmed, Checked, AnswerTo;
    if events != [] {
      var e := events[0];
      var t := Trimmed(s, e.now - window);
      OrderedEventsRecordInOrder(Checked(t, max, e.id, e.at), max, window,
        if AnswerTo(t, max, e.id) == Recorded then e.at else latest, events[1..]);
    }
  }

  lemma NoSlackMeansLive(max: nat, window: int, slack: int, history: seq<Event>, e: Event)
    requires slack <= 0 && WithinSlack(history + [e], slack)
    requires AnswerAfter(State(map[], []), max, window, history, e) == Full
    ensures AllLive(Remembered(max, window, history, e), e.now - window)
  {
    hide Trimmed, Run, RecordsInOrder, Live;
    var earliest := if history == [] then 0 else history[0].at;
    forall i, j | 0 <= i < j < |history|
      ensures history[i].at <= history[j].at
    {
      assert (history + [e])[i] == history[i] && (history + [e])[j] == history[j];
    }
    OrderedEventsRecordInOrder(State(map[], []), max, window, earliest, history);
    InOrderGuardIsFullOfLiveIds(max, window, earliest, history, e);
  }

  lemma OneIdIsLive(window: int, history: seq<Event>, e: Event)
    requires AnswerAfter(State(map[], []), 1, window, history, e) == Full
    ensures AllLive(Remembered(1, window, history, e), e.now - window)
  {
    hide Trimmed, Run;
    var s := Run(State(map[], []), 1, window, history);
    RunKeepsValid(State(map[], []), 1, window, history);
    TrimmedIsValid(s, 1, e.now - window);
    TrimmedIsSuffix(s, e.now - window);
  }

  /** Ids told apart by their lengths. */
  function Name(i: nat): (id: string)
    ensures |id| == i
  {
    seq(i, _ => 'a')
  }

  function Names(n: nat): (ids: seq<string>)
    ensures |ids| == n
  {
    seq(n, i requires 0 <= i < n => Name(i + 1))
  }

  /** n events stamped one, arriving as the stamp zero leaves the window. */
  function Arrivals(n: nat, window: int): (events: seq<Event>)
    ensures |events| == n
  {
    seq(n, i requires 0 <= i < n => Event(Name(i + 1), 1, window))
  }

  /** n ids remembered in order, all stamped one. */
  ghost predicate Filled(s: State, n: nat) {
    && s.order == Names(n) && (forall id :: id in s.seen <==> id in Names(n))
    && (forall id :: id in s.seen ==> s.seen[id] == 1)
  }

  lemma NameIsNew(n: nat, i: nat)
    requires i == 0 || i > n
    ensures Name(i) !in Names(n)
  {}

  lemma FilledIsLive(s: State, n: nat)
    requires Filled(s, n)
    ensures Trimmed(s, 0) == s && (n > 0 ==> Live(s, s.order[0], 0))
  {
    hide Name, Names;
    assert n > 0 ==> s.order[0] in Names(n);
  }

  lemma OneMoreId(s: State, max: nat, n: nat)
    requires Filled(s, n) && n < max
    ensures Filled(Checked(s, max, Name(n + 1), 1), n + 1)
  {
    hide Name;
    NameIsNew(n, n + 1);
    assert Names(n + 1) == Names(n) + [Name(n + 1)];
  }

  lemma {:induction false} ArrivalsFill(max: nat, window: int, n: nat)
    requires n <= max
    ensures Filled(Run(State(map[], []), max, window, Arrivals(n, window)), n)
  {
    if n > 0 {
      hide Filled, Run, Checked, Trimmed, Name;
      var before := Arrivals(n - 1, window);
      var s := Run(State(map[], []), max, window, before);
      var e := Event(Name(n), 1, window);
      ArrivalsFill(max, window, n - 1);
      assert Arrivals(n, window) == before + [e];
      RunOneMore(State(map[], []), max, window, before, e);
      FilledIsLive(s, n - 1);
      OneMoreId(s, max, n - 1);
    }
  }

  lemma RunOneMore(s: State, max: nat, window: int, events: seq<Event>, e: Event)
    ensures
      var t := Run(s, max, window, events);
      Run(s, max, window, events + [e]) == Checked(Trimmed(t, e.now - window), max, e.id, e.at)
  {
    hide Checked, Trimmed;
    RunComposes(s, max, window, events, [e]);
    OneMoreEvent(Run(s, max, window, events), max, window, e, []);
    assert [e] + [] == [e];
  }

  /** An id stamped zero behind live ones is remembered though it has expired. */
  lemma LateIdIsRemembered(s: State, max: nat)
    requires max >= 2 && Filled(s, max - 1)
    ensures
      var t := Checked(s, max, Name(max), 0);
      && Trimmed(t, 0) == t && |t.order| == max && Name(0) !in t.seen
      && Name(max) in t.order && !Live(t, Name(max), 0)
  {
    hide Name;
    NameIsNew(max - 1, max);
    NameIsNew(max - 1, 0);
    FilledIsLive(s, max - 1);
    var t := Checked(s, max, Name(max), 0);
    assert t.order == s.order + [Name(max)];
    assert t.order[0] == s.order[0] && s.order[0] in Names(max - 1);
    DifferentNames(0, max);
  }

  lemma DifferentNames(i: nat, j: nat)
    requires i != j
    ensures Name(i) != Name(j)
  {
    assert |Name(i)| != |Name(j)|;
  }

  /** One event stamped a moment before the others stays behind them when it has expired. */
  lemma SlackKeepsAnExpiredId(max: nat, window: int, slack: int) returns (history: seq<Event>, e: Event)
    requires max >= 2 && slack >= 1
    ensures ClockRuns(history + [e]) && WithinSlack(history + [e], slack)
    ensures AnswerAfter(State(map[], []), max, window, history, e) == Full
    ensures !AllLive(Remembered(max, window, history, e), e.now - window)
  {
    hide Filled, Run, Checked, Trimmed, Name, Live;
    var before, late := Arrivals(max - 1, window), Event(Name(max), 0, window);
    history, e := before + [late], Event(Name(0), 1, window);
    var s := Run(State(map[], []), max, window, before);
    ArrivalsFill(max, window, max - 1);
    FilledIsLive(s, max - 1);
    RunOneMore(State(map[], []), max, window, before, late);
    LateIdIsRemembered(s, max);
  }

  /** Over all histories, full means live ids only exactly when timestamps never go back or
      there is room for a single id. */
  lemma FullMeansLiveExactly(max: nat, window: int, slack: int)
    requires max >= 1
    ensures FullMeansLive(max, window, slack) <==> slack <= 0 || max == 1
  {
    hide AnswerAfter, AllLive, Remembered, ClockRuns, WithinSlack;
    if slack <= 0 || max == 1 {
      forall history: seq<Event>, e: Event |
        ClockRuns(history + [e]) && WithinSlack(history + [e], slack) &&
        AnswerAfter(State(map[], []), max, window, history, e) == Full
        ensures AllLive(Remembered(max, window, history, e), e.now - window)
      {
        if slack <= 0 {
          NoSlackMeansLive(max, window, slack, history, e);
        } else {
          OneIdIsLive(window, history, e);
        }
      }
    } else {
      var history, e := SlackKeepsAnExpiredId(max, window, slack);
    }
  }
}
