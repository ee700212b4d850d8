/** The replay guard behind the receiver's freshness test. Each reads the clock for itself. */
module EventFreshness {
  import opened ReplayGuard

  /** A signed event arriving: its id and timestamp, the clock as the freshness test reads it,
      and the clock as the guard reads it afterwards. */
  datatype Arrival = Arrival(id: string, at: Time, tested: Time, checked: Time)

  predicate IsFresh(a: Arrival, tolerance: int) {
    -tolerance <= a.tested - a.at <= tolerance
  }

  /** Verify's last two tests: stale events never reach the guard. */
  predicate Accepts(s: State, max: nat, window: int, tolerance: int, a: Arrival) {
    IsFresh(a, tolerance) && AnswerTo(Trimmed(s, a.checked - window), max, a.id) == Recorded
  }

  function Next(s: State, max: nat, window: int, tolerance: int, a: Arrival): State {
    if IsFresh(a, tolerance) then Checked(Trimmed(s, a.checked - window), max, a.id, a.at) else s
  }

  function After(s: State, max: nat, window: int, tolerance: int, arrivals: seq<Arrival>): State
    decreases |arrivals|
  {
    if arrivals == [] then s
    else After(Next(s, max, window, tolerance, arrivals[0]), max, window, tolerance, arrivals[1..])
  }

  predicate AcceptedAt(max: nat, window: int, tolerance: int, arrivals: seq<Arrival>, k: nat)
    requires k < |arrivals|
  {
    Accepts(After(State(map[], []), max, window, tolerance, arrivals[..k]), max, window, tolerance, arrivals[k])
  }

  /** The guard runs one check after another, and none comes later than delay after its own
      freshness test. */
  ghost predicate Timed(arrivals: seq<Arrival>, delay: int) {
    && (forall k :: 0 <= k < |arrivals| ==> arrivals[k].tested <= arrivals[k].checked <= arrivals[k].tested + delay)
    && (forall i, j :: 0 <= i < j < |arrivals| ==> arrivals[i].checked <= arrivals[j].checked)
  }

  /** Into an empty guard, an event is accepted exactly when its timestamp is no further from
      the clock than the tolerance, before it or after it. */
  lemma FirstArrivalExactly(max: nat, window: int, tolerance: int, a: Arrival)
    ensures AcceptedAt(max, window, tolerance, [a], 0) <==>
              max > 0 && a.at <= a.tested + tolerance && a.tested <= a.at + tolerance
  {
    assert [a][..0] == [];
  }

  /** An event outside the tolerance is refused whatever the guard remembers, and leaves it as
      it was. */
  lemma StaleChangesNothing(s: State, max: nat, window: int, tolerance: int, a: Arrival)
    requires a.at > a.tested + tolerance || a.at < a.tested - tolerance
    ensures !Accepts(s, max, window, tolerance, a) && Next(s, max, window, tolerance, a) == s
  {
    hide Trimmed, Checked, AnswerTo;
  }

  /** An event within it is put to the guard, which alone decides. */
  lemma FreshIsChecked(s: State, max: nat, window: int, tolerance: int, a: Arrival)
    requires a.tested - tolerance <= a.at <= a.tested + tolerance
    ensures
      var trimmed := Trimmed(s, a.checked - window);
      && (Accepts(s, max, window, tolerance, a) <==> a.id !in trimmed.seen && |trimmed.order| < max)
      && Next(s, max, window, tolerance, a) ==
           if Accepts(s, max, window, tolerance, a) then State(trimmed.seen[a.id := a.at], trimmed.order + [a.id])
           else trimmed
  {
    hide Trimmed;
  }

  predicate SameEvent(a: Arrival, b: Arrival) {
    a.id == b.id && a.at == b.at
  }

  ghost predicate NeverTwice(max: nat, window: int, tolerance: int, arrivals: seq<Arrival>) {
    forall i, j | 0 <= i < j < |arrivals| ::
      SameEvent(arrivals[i], arrivals[j]) && AcceptedAt(max, window, tolerance, arrivals, i) ==>
      !AcceptedAt(max, window, tolerance, arrivals, j)
  }

  lemma {:induction false} KeptByArrivals(s: State, max: nat, window: int, tolerance: int, id: string,
                                          arrivals: seq<Arrival>)
    requires id in s.seen
    requires forall k :: 0 <= k < |arrivals| ==> arrivals[k].checked < s.seen[id] + window
    ensures
      var t := After(s, max, window, tolerance, arrivals);
      id in t.seen && t.seen[id] == s.seen[id]
    decreases |arrivals|
  {
    hide Trimmed, Checked;
    if arrivals != [] {
      var a := arrivals[0];
      LiveIdIsKept(s, max, window, id, Event(a.id, a.at, a.checked));
      KeptByArrivals(Next(s, max, window, tolerance, a), max, window, tolerance, id, arrivals[1..]);
    }
  }

  lemma {:induction false} AfterComposes(s: State, max: nat, window: int, tolerance: int,
                                         first: seq<Arrival>, rest: seq<Arrival>)
    ensures After(s, max, window, tolerance, first + rest) ==
              After(After(s, max, window, tolerance, first), max, window, tolerance, rest)
    decreases |first|
  {
    hide Next;
    if first == [] {
      assert first + rest == rest;
    } else {
      assert (first + rest)[1..] == first[1..] + rest;
      AfterComposes(Next(s, max, window, tolerance, first[0]), max, window, tolerance, first[1..], rest);
    }
  }

  /** An accepted event is refused while the guard's clock has not reached its timestamp plus
      the window. */
  lemma AcceptedIsRemembered(max: nat, window: int, tolerance: int, arrivals: seq<Arrival>, i: nat, j: nat)
    requires i < j < |arrivals| && SameEvent(arrivals[i], arrivals[j])
    requires forall k :: i < k <= j ==> arrivals[k].checked < arrivals[i].at + window
    requires AcceptedAt(max, window, tolerance, arrivals, i)
    ensures !AcceptedAt(max, window, tolerance, arrivals, j)
  {
    hide Trimmed, After;
    var s0 := State(map[], []);
    var a, b := arrivals[i], arrivals[j];
    var s := After(s0, max, window, tolerance, arrivals[..i]);
    var t := Next(s, max, window, tolerance, a);
    var between := arrivals[i + 1..j];
    assert arrivals[..j] == arrivals[..i] + ([a] + between);
    AfterComposes(s0, max, window, tolerance, arrivals[..i], [a] + between);
    OneMoreArrival(s, max, window, tolerance, a, between);
    KeptByArrivals(t, max, window, tolerance, a.id, between);
    LiveIdIsKept(After(t, max, window, tolerance, between), max, window, a.id, Event(b.id, b.at, b.checked));
  }

  lemma OneMoreArrival(s: State, max: nat, window: int, tolerance: int, a: Arrival, rest: seq<Arrival>)
    ensures After(s, max, window, tolerance, [a] + rest) ==
              After(Next(s, max, window, tolerance, a), max, window, tolerance, rest)
  {
    hide Next;
    assert ([a] + rest)[1..] == rest;
  }

  /** An event and its copy, the copy as late as the freshness test lets it through. */
  function LateCopy(window: int, tolerance: int): seq<Arrival> {
    [Arrival("a", 0, 0, 0), Arrival("a", 0, if tolerance < window then tolerance else window, window)]
  }

  lemma LateCopyIsAccepted(max: nat, window: int, tolerance: int, delay: int)
    requires max >= 1 && window > 0 && delay >= 0 && tolerance >= 0 && window <= tolerance + delay
    ensures Timed(LateCopy(window, tolerance), delay)
    ensures !NeverTwice(max, window, tolerance, LateCopy(window, tolerance))
  {
    var s0 := State(map[], []);
    var arrivals := LateCopy(window, tolerance);
    var a, b := arrivals[0], arrivals[1];
    var s1 := State(map["a" := 0], ["a"]);
    assert arrivals[..0] == [] && arrivals[..1] == [a] && [a][1..] == [];
    assert Next(s0, max, window, tolerance, a) == s1;
    assert After(s0, max, window, tolerance, [a]) == s1;
    assert Tail(s1) == s0;
    assert Trimmed(s1, 0) == s0;
    assert AcceptedAt(max, window, tolerance, arrivals, 0) && AcceptedAt(max, window, tolerance, arrivals, 1);
    assert SameEvent(arrivals[0], arrivals[1]);
  }

  /** No event is accepted twice, however events arrive, exactly when the guard's window is
      longer than the freshness tolerance and the delay between the two clock readings
      together (or the tolerance admits nothing). Equal windows are not enough: a copy
      arriving exactly at the end of both is accepted again. */
  lemma NeverTwiceExactly(max: nat, window: int, tolerance: int, delay: int)
    requires max >= 1 && window > 0 && delay >= 0
    ensures (forall arrivals | Timed(arrivals, delay) :: NeverTwice(max, window, tolerance, arrivals))
            <==> tolerance < 0 || window > tolerance + delay
  {
    hide AcceptedAt, NeverTwice;
    if tolerance < 0 || window > tolerance + delay {
      forall arrivals | Timed(arrivals, delay)
        ensures NeverTwice(max, window, tolerance, arrivals)
      {
        LongWindowSuffices(max, window, tolerance, delay, arrivals);
      }
    } else {
      LateCopyIsAccepted(max, window, tolerance, delay);
    }
  }

  lemma LongWindowSuffices(max: nat, window: int, tolerance: int, delay: int, arrivals: seq<Arrival>)
    requires Timed(arrivals, delay) && (tolerance < 0 || window > tolerance + delay)
    ensures NeverTwice(max, window, tolerance, arrivals)
  {
    hide After, AnswerTo, Trimmed;
    forall i, j | 0 <= i < j < |arrivals| && SameEvent(arrivals[i], arrivals[j]) &&
                  AcceptedAt(max, window, tolerance, arrivals, i)
      ensures !AcceptedAt(max, window, tolerance, arrivals, j)
    {
      if IsFresh(arrivals[j], tolerance) {
        AcceptedIsRemembered(max, window, tolerance, arrivals, i, j);
      }
    }
  }
}
