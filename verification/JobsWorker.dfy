/**
 * Starting the background jobs once per process, with retries. The worker's runtime and the recurring
 * schedules are registered by the same protocol: a marker for what is done, a promise for what is under
 * way, and a retry timer.
 */
module JobsWorker {
  import opened Wrappers

  /** What has become of one start. A failed one stays the promise under way until its failure is caught. */
  datatype Outcome = InFlight | Failed | Caught | Succeeded

  /**
   * The fields of the process, and beside them what they stand for: how the starts went, and which timers are
   * live, that is, set and neither fired nor cleared.
   */
  datatype State = State(
    runtime: Option<nat>, initializing: Option<nat>, retryTimeout: Option<nat>, starts: seq<Outcome>,
    liveTimers: set<nat>, timersSet: nat)

  const INITIAL := State(None, None, None, [], {}, 0)

  /** The configuration is read anew by every registration. */
  datatype Event =
    | Register(enabled: bool) | RetryFires(timer: nat, enabled: bool)
    | StartSucceeds(start: nat) | StartFails(start: nat) | FailureCaught(start: nat)

  predicate HasOutcome(s: State, start: nat, o: Outcome) {
    start < |s.starts| && s.starts[start] == o
  }

  /** What can happen next: a live timer fires, a start in flight ends, a failure is caught. */
  predicate Possible(s: State, e: Event) {
    match e
    case Register(_) => true
    case RetryFires(timer, _) => timer in s.liveTimers
    case StartSucceeds(n) => HasOutcome(s, n, InFlight)
    case StartFails(n) => HasOutcome(s, n, InFlight)
    case FailureCaught(n) => HasOutcome(s, n, Failed)
  }

  function Cleared(s: State): State {
    if s.retryTimeout.None? then s
    else s.(retryTimeout := None, liveTimers := s.liveTimers - {s.retryTimeout.value})
  }

  function Registered(s: State, enabled: bool): State {
    if !enabled then Cleared(s)
    else if s.runtime.Some? || s.initializing.Some? then s
    else s.(initializing := Some(|s.starts|), starts := s.starts + [InFlight])
  }

  function WithRetry(s: State): State {
    if s.runtime.Some? || s.initializing.Some? || s.retryTimeout.Some? then s
    else s.(retryTimeout := Some(s.timersSet), liveTimers := s.liveTimers + {s.timersSet}, timersSet := s.timersSet + 1)
  }

  function Step(s: State, e: Event): State
    requires Possible(s, e)
  {
    match e
    case Register(enabled) => Registered(s, enabled)
    case RetryFires(timer, enabled) =>
      Registered(s.(retryTimeout := None, liveTimers := s.liveTimers - {timer}), enabled)
    case StartSucceeds(n) =>
      Cleared(s).(runtime := Some(n), initializing := None, starts := s.starts[n := Succeeded])
    case StartFails(n) => s.(starts := s.starts[n := Failed])
    case FailureCaught(n) => WithRetry(s.(initializing := None, starts := s.starts[n := Caught]))
  }

  /** The fields the registration reads and writes, shared by every call in the process. */
  class Registration {
    var runtime: Option<nat>
    var initializing: Option<nat>
    var retryTimeout: Option<nat>
    var nextStart: nat
    var timersSet: nat
    ghost var starts: seq<Outcome>
    ghost var liveTimers: set<nat>

    ghost function Current(): State
      reads this
    {
      State(runtime, initializing, retryTimeout, starts, liveTimers, timersSet)
    }

    ghost predicate Valid()
      reads this
    {
      nextStart == |starts|
    }

    constructor ()
      ensures Valid() && Current() == INITIAL
    {
      runtime, initializing, retryTimeout, nextStart, timersSet := None, None, None, 0, 0;
      starts, liveTimers := [], {};
    }

    method ClearRetryTimeout()
      requires Valid()
      modifies this`retryTimeout, this`liveTimers
      ensures Valid() && Current() == Cleared(old(Current()))
    {
      if retryTimeout.Some? {
        liveTimers := liveTimers - {retryTimeout.value};
        retryTimeout := None;
      }
    }

    method ScheduleRetry()
      requires Valid()
      modifies this`retryTimeout, this`liveTimers, this`timersSet
      ensures Valid() && Current() == WithRetry(old(Current()))
    {
      if runtime.Some? || initializing.Some? || retryTimeout.Some? {
        return;
      }
      liveTimers := liveTimers + {timersSet};
      retryTimeout := Some(timersSet);
      timersSet := timersSet + 1;
    }

    /** Up to the point where it awaits: what it awaits, if it has no runtime to return. */
    method Register(enabled: bool) returns (awaited: Option<nat>)
      requires Valid()
      modifies this
      ensures Valid() && Current() == Step(old(Current()), Event.Register(enabled))
      ensures enabled && runtime.None? ==> awaited == initializing
    {
      if !enabled {
        ClearRetryTimeout();
        return None;
      }
      if runtime.Some? {
        return None;
      }
      if initializing.Some? {
        return initializing;
      }
      initializing := Some(nextStart);
      starts := starts + [InFlight];
      nextStart := nextStart + 1;
      awaited := initializing;
    }

    method RetryTimeoutFires(timer: nat, enabled: bool)
      requires Valid() && Possible(Current(), RetryFires(timer, enabled))
      modifies this
      ensures Valid() && Current() == Step(old(Current()), RetryFires(timer, enabled))
    {
      liveTimers := liveTimers - {timer};
      retryTimeout := None;
      var _ := Register(enabled);
    }

    method Succeed(start: nat)
      requires Valid() && Possible(Current(), StartSucceeds(start))
      modifies this
      ensures Valid() && Current() == Step(old(Current()), StartSucceeds(start))
    {
      starts := starts[start := Succeeded];
      ClearRetryTimeout();
      runtime := Some(start);
      initializing := None;
    }

    /** The failed start's own caller clears the promise and schedules the retry. */
    method CatchFailure(start: nat)
      requires Valid() && Possible(Current(), FailureCaught(start))
      modifies this
      ensures Valid() && Current() == Step(old(Current()), FailureCaught(start))
    {
      starts := starts[start := Caught];
      initializing := None;
      ScheduleRetry();
    }
  }

  // ----- Every interleaving -----

  /** A sequence of events, each possible when it happens. */
  ghost predicate Happens(s: State, events: seq<Event>)
    decreases |events|
  {
    events == [] || (Possible(s, events[0]) && Happens(Step(s, events[0]), events[1..]))
  }

  ghost function After(s: State, events: seq<Event>): State
    requires Happens(s, events)
    decreases |events|
  {
    if events == [] then s else After(Step(s, events[0]), events[1..])
  }

  predicate UnderWay(o: Outcome) {
    o.InFlight? || o.Failed?
  }

  /** The promise is the only start under way, the runtime the only success, the timer field the only live timer. */
  ghost predicate Orderly(s: State) {
    (forall n :: 0 <= n < |s.starts| ==> (UnderWay(s.starts[n]) <==> s.initializing == Some(n))) &&
    (forall n :: 0 <= n < |s.starts| ==> (s.starts[n].Succeeded? <==> s.runtime == Some(n))) &&
    (s.initializing.Some? ==> s.initializing.value < |s.starts|) &&
    (s.runtime.Some? ==> s.runtime.value < |s.starts| && s.initializing.None? && s.retryTimeout.None?) &&
    s.liveTimers == (if s.retryTimeout.Some? then {s.retryTimeout.value} else {}) &&
    (s.retryTimeout.Some? ==> s.retryTimeout.value < s.timersSet)
  }

  lemma StepIsOrderly(s: State, e: Event)
    requires Orderly(s) && Possible(s, e)
    ensures Orderly(Step(s, e))
    ensures s.runtime.Some? ==> Step(s, e).runtime == s.runtime && Step(s, e).starts == s.starts
  {
  }

  lemma {:induction false} RunIsOrderly(s: State, events: seq<Event>)
    requires Orderly(s) && Happens(s, events)
    ensures Orderly(After(s, events))
    ensures s.runtime.Some? ==> After(s, events).runtime == s.runtime && After(s, events).starts == s.starts
    decreases |events|
  {
    if events != [] {
      StepIsOrderly(s, events[0]);
      RunIsOrderly(Step(s, events[0]), events[1..]);
    }
  }

  /**
   * In every interleaving of registrations, timer firings and start outcomes, at most one start is under way
   * and at most one ever succeeds, never both, and a retry timer never coexists with a live runtime.
   */
  lemma StartsAtMostOnce(events: seq<Event>, a: nat, b: nat)
    requires Happens(INITIAL, events)
    ensures var s := After(INITIAL, events);
            (s.runtime.Some? ==> s.liveTimers == {} && s.initializing.None?) &&
            (a < b < |s.starts| ==>
               !(UnderWay(s.starts[a]) && UnderWay(s.starts[b])) &&
               !(s.starts[a].Succeeded? && s.starts[b].Succeeded?) &&
               !(UnderWay(s.starts[a]) && s.starts[b].Succeeded?) &&
               !(s.starts[a].Succeeded? && UnderWay(s.starts[b])))
  {
    RunIsOrderly(INITIAL, events);
  }

  /** In every run the timer field holds the one live timer, and is empty exactly when none is live. */
  lemma FieldIsLiveTimer(events: seq<Event>, timer: nat)
    requires Happens(INITIAL, events)
    ensures var s := After(INITIAL, events);
            (timer in s.liveTimers <==> s.retryTimeout == Some(timer)) &&
            (s.retryTimeout.None? <==> s.liveTimers == {})
  {
    RunIsOrderly(INITIAL, events);
  }

  /** A timer that has fired is never live again, and only a caught failure sets another. */
  lemma {:induction false} FiredStaysGone(s: State, timer: nat, events: seq<Event>)
    requires Orderly(s) && Happens(s, events) && timer < s.timersSet && timer !in s.liveTimers
    ensures timer !in After(s, events).liveTimers
    ensures (forall e :: e in events ==> !e.FailureCaught?) ==> After(s, events).liveTimers <= s.liveTimers
    decreases |events|
  {
    if events != [] {
      StepIsOrderly(s, events[0]);
      FiredStaysGone(Step(s, events[0]), timer, events[1..]);
      assert events[0] in events && forall e :: e in events[1..] ==> e in events;
    }
  }

  /** After a firing no timer is live until a failure is caught, whatever else happens. */
  lemma FiringLeavesNoTimer(before: seq<Event>, timer: nat, enabled: bool, after: seq<Event>)
    requires Happens(INITIAL, before) && Possible(After(INITIAL, before), RetryFires(timer, enabled))
    requires Happens(Step(After(INITIAL, before), RetryFires(timer, enabled)), after)
    requires forall e :: e in after ==> !e.FailureCaught?
    ensures After(Step(After(INITIAL, before), RetryFires(timer, enabled)), after).liveTimers == {}
    ensures After(Step(After(INITIAL, before), RetryFires(timer, enabled)), after).retryTimeout == None
  {
    var s := After(INITIAL, before);
    RunIsOrderly(INITIAL, before);
    StepIsOrderly(s, RetryFires(timer, enabled));
    FiredStaysGone(Step(s, RetryFires(timer, enabled)), timer, after);
    RunIsOrderly(Step(s, RetryFires(timer, enabled)), after);
  }

  /** Once the runtime lives nothing is started any more, whatever else happens. */
  lemma NothingStartsAfterSuccess(before: seq<Event>, after: seq<Event>)
    requires Happens(INITIAL, before) && After(INITIAL, before).runtime.Some?
    requires Happens(After(INITIAL, before), after)
    ensures After(After(INITIAL, before), after).starts == After(INITIAL, before).starts
    ensures After(After(INITIAL, before), after).runtime == After(INITIAL, before).runtime
  {
    RunIsOrderly(INITIAL, before);
    RunIsOrderly(After(INITIAL, before), after);
  }

  /** A live runtime, a start under way, or a live retry timer. */
  ghost predicate Attended(s: State) {
    s.runtime.Some? || s.initializing.Some? || s.liveTimers != {}
  }

  predicate SeenEnabled(e: Event) {
    match e
    case Register(enabled) => enabled
    case RetryFires(_, enabled) => enabled
    case _ => true
  }

  /** The only way to be given up: a disabled registration that cancels the last pending retry. */
  lemma GivenUpExactly(s: State, e: Event)
    requires Orderly(s) && Attended(s) && Possible(s, e)
    ensures !Attended(Step(s, e)) <==> !SeenEnabled(e) && s.runtime.None? && s.initializing.None?
  {
  }

  lemma {:induction false} StaysAttended(s: State, events: seq<Event>)
    requires Orderly(s) && Attended(s) && Happens(s, events)
    requires forall e :: e in events ==> SeenEnabled(e)
    ensures Attended(After(s, events))
    decreases |events|
  {
    if events != [] {
      StepIsOrderly(s, events[0]);
      GivenUpExactly(s, events[0]);
      assert events[0] in events && forall e :: e in events[1..] ==> e in events;
      StaysAttended(Step(s, events[0]), events[1..]);
    }
  }

  /** After a failure, as long as the configuration is seen enabled, the service is never given up. */
  lemma FailureIsAttended(before: seq<Event>, start: nat, after: seq<Event>)
    requires Happens(INITIAL, before) && Possible(After(INITIAL, before), StartFails(start))
    requires Happens(Step(After(INITIAL, before), StartFails(start)), after)
    requires forall e :: e in after ==> SeenEnabled(e)
    ensures Attended(After(Step(After(INITIAL, before), StartFails(start)), after))
  {
    var s := After(INITIAL, before);
    RunIsOrderly(INITIAL, before);
    StepIsOrderly(s, StartFails(start));
    StaysAttended(Step(s, StartFails(start)), after);
  }

  /** One registration that sees it disabled cancels the retry for good: nothing is left to restart the worker. */
  lemma DisabledForgetsRetry()
    ensures var events := [Event.Register(true), StartFails(0), FailureCaught(0), Event.Register(false)];
            Happens(INITIAL, events) && !Attended(After(INITIAL, events))
  {
    var s1 := Step(INITIAL, Event.Register(true));
    var s2 := Step(s1, StartFails(0));
    var s3 := Step(s2, FailureCaught(0));
    var e3 := [Event.Register(false)];
    var e2 := [FailureCaught(0), Event.Register(false)];
    var e1 := [StartFails(0), FailureCaught(0), Event.Register(false)];
    var e0 := [Event.Register(true), StartFails(0), FailureCaught(0), Event.Register(false)];
    assert e0[1..] == e1 && e1[1..] == e2 && e2[1..] == e3 && e3[1..] == [];
    assert s3 == State(None, None, Some(0), [Caught], {0}, 1);
    assert Happens(s3, e3) && After(s3, e3) == Step(s3, Event.Register(false));
    assert Happens(s2, e2) && After(s2, e2) == After(s3, e3);
    assert Happens(s1, e1) && After(s1, e1) == After(s2, e2);
  }
}
