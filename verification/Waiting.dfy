/** watch.Next as a waiter on a condition variable: which values and which cancellations it is woken for. */
module Waiting {

  /**
   * Where a watcher is in Next. Testing: about to take the lock and look at version and context. Deciding: both looked
   * at, the lock still held. Asleep: in Wait, the lock released.
   */
  datatype Place = Outside | Testing | Deciding | Asleep

  /**
   * version is the channel's, seen the watcher's; signalled says that the goroutine of this Next call has made its
   * broadcast, which it does once, after the cancellation, without the lock.
   */
  datatype State = State(version: nat, seen: int, place: Place, cancelled: bool, signalled: bool)

  datatype Event =
    | Enter | Test | Sleep   // the watcher
    | Set                    // a writer, with the lock
    | Cancel                 // the context of Next
    | Signal                 // the goroutine of this Next call
    | OtherSignal            // that of an earlier call or of another watcher

  const START: State := State(0, -1, Outside, false, false)

  predicate Enabled(s: State, e: Event) {
    match e
    case Enter => s.place == Outside
    case Test => s.place == Testing
    case Sleep => s.place == Deciding
    case Set => s.place != Deciding
    case Signal => s.place != Outside && s.cancelled && !s.signalled
    case _ => true
  }

  /** A broadcast reaches a watcher only in Wait. */
  function Broadcast(s: State): State {
    if s.place == Asleep then s.(place := Testing) else s
  }

  function After(s: State, e: Event): State
    requires Enabled(s, e)
  {
    match e
    case Enter => s.(place := Testing, signalled := false)
    case Test =>
      if s.seen < s.version then s.(seen := s.version, place := Outside)
      else if s.cancelled then s.(place := Outside)
      else s.(place := Deciding)
    case Sleep => s.(place := Asleep)
    case Set => Broadcast(s.(version := s.version + 1))
    case Cancel => s.(cancelled := true)
    case Signal => Broadcast(s.(signalled := true))
    case OtherSignal => Broadcast(s)
  }

  predicate Reaches(s: State, events: seq<Event>, s': State)
    decreases |events|
  {
    if |events| == 0 then s == s'
    else Enabled(s, events[0]) && Reaches(After(s, events[0]), events[1..], s')
  }

  /** Behind the test the watcher has the current version, and a signal made before the test is not overlooked. */
  predicate Invariant(s: State) {
    && s.seen <= s.version
    && (s.place == Deciding || s.place == Asleep ==> s.seen == s.version)
    && (s.signalled ==> s.cancelled)
  }

  lemma {:induction false} InvariantHolds(s: State, events: seq<Event>, s': State)
    requires Invariant(s) && Reaches(s, events, s')
    ensures Invariant(s')
    decreases |events|
  {
    if |events| > 0 {
      InvariantHolds(After(s, events[0]), events[1..], s');
    }
  }

  /**
   * No Set is missed: in every reachable state, a watcher in Next that is behind the channel is not asleep, and its
   * next look returns the current version, cancelled or not.
   */
  lemma NoSetMissed(events: seq<Event>, s: State)
    requires Reaches(START, events, s) && s.place != Outside && s.seen < s.version
    ensures s.place == Testing
    ensures After(s, Test) == s.(seen := s.version, place := Outside)
  {
    InvariantHolds(START, events, s);
  }

  /** Asleep although cancelled, with no signal of its own to come. */
  predicate Stranded(s: State) {
    s.place == Asleep && s.cancelled && s.signalled
  }

  /**
   * Whether, behind an event, a signal has fallen between the look at the context and Wait, with no broadcast since
   * that found the watcher asleep.
   */
  predicate MissedBy(missed: bool, s: State, e: Event) {
    match e
    case Signal => s.place == Deciding
    case Enter => false
    case Set | OtherSignal => missed && s.place != Asleep
    case _ => missed
  }

  /** The same behind a run. */
  predicate Missed(missed: bool, s: State, events: seq<Event>, s': State)
    requires Reaches(s, events, s')
    decreases |events|
  {
    if |events| == 0 then missed else Missed(MissedBy(missed, s, events[0]), After(s, events[0]), events[1..], s')
  }

  predicate Accounted(missed: bool, s: State) {
    && Invariant(s)
    && if s.place == Asleep || s.place == Deciding then missed <==> s.signalled else !missed
  }

  lemma {:induction false} MissedAccounted(missed: bool, s: State, events: seq<Event>, s': State)
    requires Accounted(missed, s) && Reaches(s, events, s')
    ensures Accounted(Missed(missed, s, events, s'), s')
    decreases |events|
  {
    if |events| > 0 {
      MissedAccounted(MissedBy(missed, s, events[0]), After(s, events[0]), events[1..], s');
    }
  }

  /**
   * In every reachable state, a watcher is stranded exactly when it is asleep and its signal fell between its look at
   * the context and Wait.
   */
  lemma StrandedExactly(events: seq<Event>, s: State)
    requires Reaches(START, events, s)
    ensures Stranded(s) <==> s.place == Asleep && Missed(false, START, events, s)
  {
    MissedAccounted(false, START, events, s);
  }

  /** A stranded watcher sleeps on, with the current version, until a value is set or another call signals. */
  lemma {:induction false} StrandedStays(s: State, events: seq<Event>, s': State)
    requires Invariant(s) && Stranded(s) && Reaches(s, events, s')
    requires Set !in events && OtherSignal !in events
    ensures Stranded(s') && s'.version == s.version
    decreases |events|
  {
    if |events| > 0 {
      assert events[0] in events;
      StrandedStays(After(s, events[0]), events[1..], s');
    }
  }

  /** A cancelled watcher in Next that is not stranded leaves at its next look once its signal was made. */
  lemma CancellationHeard(events: seq<Event>, s: State)
    requires Reaches(START, events, s)
    requires s.place == Testing || s.place == Asleep
    requires s.signalled && !Stranded(s)
    ensures s.place == Testing && After(s, Test).place == Outside
  {
    InvariantHolds(START, events, s);
  }

  /** A run that strands a watcher: it has the first version, waits for another, and is cancelled on its way to Wait. */
  lemma StrandedRun() returns (s: State)
    ensures Reaches(START, [Enter, Test, Enter, Test, Cancel, Signal, Sleep], s) && Stranded(s)
  {
    s := State(0, 0, Asleep, true, true);
    assert Reaches(State(0, 0, Deciding, true, true), [Sleep], s);
    assert Reaches(State(0, 0, Deciding, true, false), [Signal, Sleep], s);
    assert Reaches(State(0, 0, Deciding, false, false), [Cancel, Signal, Sleep], s);
    assert Reaches(State(0, 0, Testing, false, false), [Test, Cancel, Signal, Sleep], s);
    assert Reaches(State(0, 0, Outside, false, false), [Enter, Test, Cancel, Signal, Sleep], s);
    assert Reaches(State(0, -1, Testing, false, false), [Test, Enter, Test, Cancel, Signal, Sleep], s);
  }
}
