/**
 * The earlier exporter (the repository's top-level main.go): besides the one-hot status
 * gauges it remembers the current status and when it last changed, and publishes the
 * whole seconds spent in it, both on each event and on a 60-second ticker.
 */
module Legacy {
  import opened Wrappers
  import opened Clock
  import opened Engine
  import opened Metrics
  import opened OpStatus

  /** The program's globals: the registry, `currentStatus` and `lastStateChangeTimestampSeconds`. */
  datatype Tracker = Tracker(gauges: Gauges, currentStatus: string, lastChange: Time)

  /**
   * The globals at start: the three plain gauges are registered and read 0 until first set,
   * the status gauges have no series yet, the status is empty and the change time is zero.
   */
  const Initial: Tracker :=
    Tracker(map[LastCheckedTime := 0.0, LastDbusUpdate := 0.0, TimeInCurrentStatus := 0.0], "", ZeroTime)

  /**
   * `bumpTimeSinceUpdateGauge` at instant `now`: publishes the whole seconds since the last
   * status change and changes nothing else.
   */
  function BumpTimeSinceUpdate(t: Tracker, now: Time): (r: Tracker)
    ensures r.currentStatus == t.currentStatus && r.lastChange == t.lastChange
    ensures TimeInCurrentStatus in r.gauges
    ensures r.gauges[TimeInCurrentStatus] == SecondsSince(t.lastChange, now) as real
    ensures t.lastChange <= now ==> r.gauges[TimeInCurrentStatus] >= 0.0
    ensures forall k :: k != TimeInCurrentStatus ==>
      (k in r.gauges <==> k in t.gauges) && (k in t.gauges ==> r.gauges[k] == t.gauges[k])
  {
    t.(gauges := t.gauges[TimeInCurrentStatus := SecondsSince(t.lastChange, now) as real])
  }

  /**
   * `updateOpstatus` at instant `now`: the one-hot status write, then a new change time
   * only when the status differs from the current one, then the time-in-status gauge.
   */
  function UpdateOpstatusTracked(t: Tracker, newstate: string, now: Time): (r: Tracker)
    ensures r.currentStatus == newstate
    ensures newstate == t.currentStatus ==> r.lastChange == t.lastChange
    ensures newstate != t.currentStatus ==> r.lastChange == now
    ensures TimeInCurrentStatus in r.gauges
    ensures r.gauges[TimeInCurrentStatus] == SecondsSince(r.lastChange, now) as real
    ensures forall k: Key :: k.StatusOp? ==>
      (k in r.gauges <==> k in UpdateOpstatus(t.gauges, newstate)) &&
      (k in r.gauges ==> r.gauges[k] == UpdateOpstatus(t.gauges, newstate)[k])
    ensures forall k: Key :: !k.StatusOp? && k != TimeInCurrentStatus ==>
      (k in r.gauges <==> k in t.gauges) && (k in t.gauges ==> r.gauges[k] == t.gauges[k])
  {
    StatusKeysAreStatusOps();
    var g := UpdateOpstatus(t.gauges, newstate);
    var changed := if t.currentStatus != newstate then Tracker(g, newstate, now) else t.(gauges := g);
    BumpTimeSinceUpdate(changed, now)
  }

  /** The status gauges show the new state, as the current exporter's do. */
  lemma UpdateOpstatusTrackedOneHot(t: Tracker, newstate: string, now: Time)
    ensures OneHotOn(UpdateOpstatusTracked(t, newstate, now).gauges, newstate)
    ensures Winners(UpdateOpstatusTracked(t, newstate, now).gauges) == WinnersFor(newstate)
  {
    UpdateOpstatusOneHot(t.gauges, newstate);
    OneHotDependsOnStatusOps(UpdateOpstatus(t.gauges, newstate), UpdateOpstatusTracked(t, newstate, now).gauges, newstate);
    WinnersDependOnStatusOps(UpdateOpstatus(t.gauges, newstate), UpdateOpstatusTracked(t, newstate, now).gauges);
  }

  /** A transition publishes zero seconds in the new status at the instant it happens. */
  lemma TransitionResetsTimeInStatus(t: Tracker, newstate: string, now: Time)
    requires newstate != t.currentStatus
    ensures UpdateOpstatusTracked(t, newstate, now).gauges[TimeInCurrentStatus] == 0.0
  {
    SecondsSinceSelf(now);
  }

  /** A tick of `runUpdateTime` is a bare bump; a later one never publishes less time in status than an earlier one. */
  lemma TickMonotone(t: Tracker, t1: Time, t2: Time)
    requires t1 <= t2
    ensures BumpTimeSinceUpdate(t, t1).gauges[TimeInCurrentStatus] <= BumpTimeSinceUpdate(t, t2).gauges[TimeInCurrentStatus]
  {
    SecondsSinceMonotone(t.lastChange, t1, t2);
  }

  /**
   * Before any event the change time is still Go's zero time, so a tick at any realistic
   * instant saturates the elapsed duration and publishes about 292 years.
   */
  lemma TickBeforeFirstEventSaturates(now: Time)
    requires now >= MaxDuration
    ensures BumpTimeSinceUpdate(Initial, now).gauges[TimeInCurrentStatus] == 9_223_372_036.0
  {
  }

  /** What the program reacts to: a status from the channel, or a ticker tick, each at `now`. */
  datatype Input = Received(status: Status, now: Time) | Ticked(now: Time)

  /**
   * The body of the `for st := range us` loop for one status: the receive time, the engine's
   * last-check time, then `updateOpstatus`.
   */
  function Receive(t: Tracker, st: Status, now: Time): (r: Tracker)
    ensures LastDbusUpdate in r.gauges && r.gauges[LastDbusUpdate] == UnixSeconds(now)
    ensures LastCheckedTime in r.gauges && r.gauges[LastCheckedTime] == st.lastCheckedTime as real
    ensures r.currentStatus == st.currentOperation
    ensures r.lastChange == if st.currentOperation == t.currentStatus then t.lastChange else now
  {
    var g := t.gauges[LastDbusUpdate := UnixSeconds(now)][LastCheckedTime := st.lastCheckedTime as real];
    UpdateOpstatusTracked(t.(gauges := g), st.currentOperation, now)
  }

  function StepInput(t: Tracker, input: Input): Tracker
  {
    match input
    case Received(st, now) => Receive(t, st, now)
    case Ticked(now) => BumpTimeSinceUpdate(t, now)
  }

  /** The event loop and the ticker, interleaved in one order, over a finite input. */
  function Run(t: Tracker, inputs: seq<Input>): Tracker
    decreases |inputs|
  {
    if |inputs| == 0 then t else Run(StepInput(t, inputs[0]), inputs[1..])
  }

  /** Every input, event or tick, leaves the time-in-status gauge measured at its own instant. */
  lemma {:induction false} RunPublishesTimeInStatus(t: Tracker, inputs: seq<Input>)
    requires |inputs| > 0
    ensures var r := Run(t, inputs);
      TimeInCurrentStatus in r.gauges &&
      r.gauges[TimeInCurrentStatus] == SecondsSince(r.lastChange, inputs[|inputs| - 1].now) as real
    decreases |inputs|
  {
    if |inputs| > 1 {
      RunPublishesTimeInStatus(StepInput(t, inputs[0]), inputs[1..]);
    }
  }

  /** Inputs carrying no transition away from `status`: every received status is `status`. */
  ghost predicate NoTransition(status: string, inputs: seq<Input>)
  {
    forall i :: 0 <= i < |inputs| && inputs[i].Received? ==> inputs[i].status.currentOperation == status
  }

  /** Inputs whose instants never go back. */
  ghost predicate ClockNonDecreasing(inputs: seq<Input>)
  {
    forall i, j :: 0 <= i <= j < |inputs| ==> inputs[i].now <= inputs[j].now
  }

  /** Without a transition, the status and its change time are left alone, whatever the clock does. */
  lemma {:induction false} SteadyRunKeepsLastChange(t: Tracker, inputs: seq<Input>)
    requires NoTransition(t.currentStatus, inputs)
    ensures Run(t, inputs).currentStatus == t.currentStatus
    ensures Run(t, inputs).lastChange == t.lastChange
    decreases |inputs|
  {
    if |inputs| > 0 {
      var t' := StepInput(t, inputs[0]);
      assert t'.currentStatus == t.currentStatus && t'.lastChange == t.lastChange;
      assert NoTransition(t.currentStatus, inputs[1..]) by {
        forall i | 0 <= i < |inputs[1..]| ensures inputs[1..][i] == inputs[i + 1] {}
      }
      SteadyRunKeepsLastChange(t', inputs[1..]);
    }
  }

  /**
   * Between transitions, under a non-decreasing clock, the published time in the current
   * status never goes down from one input to a later one.
   */
  lemma SteadyTimeInStatusNonDecreasing(t: Tracker, inputs: seq<Input>, i: nat, j: nat)
    requires NoTransition(t.currentStatus, inputs) && ClockNonDecreasing(inputs)
    requires 1 <= i <= j <= |inputs|
    ensures TimeInCurrentStatus in Run(t, inputs[..i]).gauges
    ensures TimeInCurrentStatus in Run(t, inputs[..j]).gauges
    ensures Run(t, inputs[..i]).gauges[TimeInCurrentStatus] <= Run(t, inputs[..j]).gauges[TimeInCurrentStatus]
  {
    NoTransitionPrefix(t.currentStatus, inputs, i);
    NoTransitionPrefix(t.currentStatus, inputs, j);
    SteadyTimeInStatus(t, inputs[..i]);
    SteadyTimeInStatus(t, inputs[..j]);
    assert inputs[..i][i - 1] == inputs[i - 1] && inputs[..j][j - 1] == inputs[j - 1];
    assert inputs[i - 1].now <= inputs[j - 1].now;
    SecondsSinceMonotone(t.lastChange, inputs[i - 1].now, inputs[j - 1].now);
  }

  /** Without a transition, a run publishes the time since the unchanged change time. */
  lemma SteadyTimeInStatus(t: Tracker, inputs: seq<Input>)
    requires NoTransition(t.currentStatus, inputs) && |inputs| > 0
    ensures TimeInCurrentStatus in Run(t, inputs).gauges
    ensures Run(t, inputs).gauges[TimeInCurrentStatus] == SecondsSince(t.lastChange, inputs[|inputs| - 1].now) as real
  {
    SteadyRunKeepsLastChange(t, inputs);
    RunPublishesTimeInStatus(t, inputs);
  }

  /** A prefix of inputs without a transition has none either. */
  lemma NoTransitionPrefix(status: string, inputs: seq<Input>, n: nat)
    requires NoTransition(status, inputs) && n <= |inputs|
    ensures NoTransition(status, inputs[..n])
  {
    assert forall i :: 0 <= i < n ==> inputs[..n][i] == inputs[i];
  }

  /**
   * The change time never runs ahead of the clock: when it starts no later than every
   * instant and the instants never go back, after any run it is no later than the last one.
   */
  lemma {:induction false} LastChangeBehindClock(t: Tracker, inputs: seq<Input>)
    requires |inputs| > 0
    requires forall i :: 0 <= i < |inputs| ==> t.lastChange <= inputs[i].now
    requires ClockNonDecreasing(inputs)
    ensures Run(t, inputs).lastChange <= inputs[|inputs| - 1].now
    decreases |inputs|
  {
    var t' := StepInput(t, inputs[0]);
    assert t'.lastChange == t.lastChange || t'.lastChange == inputs[0].now;
    if |inputs| > 1 {
      var rest := inputs[1..];
      assert forall i :: 0 <= i < |rest| ==> rest[i] == inputs[i + 1];
      LastChangeBehindClock(t', rest);
    }
  }

  /**
   * Under a clock that never goes back and never reads before the change time, the
   * published time in the current status stays non-negative once it is.
   */
  lemma TimeInStatusStaysNonNegative(t: Tracker, inputs: seq<Input>)
    requires TimeInCurrentStatus in t.gauges && t.gauges[TimeInCurrentStatus] >= 0.0
    requires forall i :: 0 <= i < |inputs| ==> t.lastChange <= inputs[i].now
    requires ClockNonDecreasing(inputs)
    ensures TimeInCurrentStatus in Run(t, inputs).gauges
    ensures Run(t, inputs).gauges[TimeInCurrentStatus] >= 0.0
  {
    if |inputs| > 0 {
      var r := Run(t, inputs);
      RunPublishesTimeInStatus(t, inputs);
      LastChangeBehindClock(t, inputs);
      SecondsSinceNonNegative(r.lastChange, inputs[|inputs| - 1].now);
    }
  }

  /**
   * From the start of the program, under a clock that never goes back and never reads before
   * Go's zero time, the published time in the current status is never negative.
   */
  lemma TimeInStatusNonNegative(inputs: seq<Input>)
    requires forall i :: 0 <= i < |inputs| ==> ZeroTime <= inputs[i].now
    requires ClockNonDecreasing(inputs)
    ensures TimeInCurrentStatus in Run(Initial, inputs).gauges
    ensures Run(Initial, inputs).gauges[TimeInCurrentStatus] >= 0.0
  {
    TimeInStatusStaysNonNegative(Initial, inputs);
  }

  /**
   * A status that differs from the current one and from every status received since is a
   * transition when it arrives: it becomes current and stamps the change time with its instant.
   */
  lemma NewStatusIsTransitionFrom(t: Tracker, inputs: seq<Input>, st: Status, now: Time)
    requires st.currentOperation != t.currentStatus
    requires forall i :: 0 <= i < |inputs| && inputs[i].Received? ==>
      inputs[i].status.currentOperation != st.currentOperation
    ensures Run(t, inputs + [Received(st, now)]).lastChange == now
    ensures Run(t, inputs + [Received(st, now)]).currentStatus == st.currentOperation
  {
    RunSnoc(t, inputs, Received(st, now));
    RunAvoidsStatus(t, inputs, st.currentOperation);
  }

  /**
   * Since the status starts empty, the first event carrying a given non-empty operation (the
   * first of any of the eight states, say, whatever unknown operations came before) is a
   * transition: it stamps the change time with its own instant.
   */
  lemma FirstRealStatusIsTransition(inputs: seq<Input>, st: Status, now: Time)
    requires st.currentOperation != ""
    requires forall i :: 0 <= i < |inputs| && inputs[i].Received? ==>
      inputs[i].status.currentOperation != st.currentOperation
    ensures Run(Initial, inputs + [Received(st, now)]).lastChange == now
    ensures Run(Initial, inputs + [Received(st, now)]).currentStatus == st.currentOperation
  {
    NewStatusIsTransitionFrom(Initial, inputs, st, now);
  }

  /** A status that is neither current nor received is not current after the run. */
  lemma {:induction false} RunAvoidsStatus(t: Tracker, inputs: seq<Input>, s: string)
    requires t.currentStatus != s
    requires forall i :: 0 <= i < |inputs| && inputs[i].Received? ==>
      inputs[i].status.currentOperation != s
    ensures Run(t, inputs).currentStatus != s
    decreases |inputs|
  {
    if |inputs| > 0 {
      var rest := inputs[1..];
      assert forall i :: 0 <= i < |rest| ==> rest[i] == inputs[i + 1];
      RunAvoidsStatus(StepInput(t, inputs[0]), rest, s);
    }
  }

  /** Running a prefix then one more input is running the whole. */
  lemma {:induction false} RunSnoc(t: Tracker, inputs: seq<Input>, last: Input)
    ensures Run(t, inputs + [last]) == StepInput(Run(t, inputs), last)
    decreases |inputs|
  {
    if |inputs| == 0 {
      assert inputs + [last] == [last];
    } else {
      assert (inputs + [last])[1..] == inputs[1..] + [last];
      RunSnoc(StepInput(t, inputs[0]), inputs[1..], last);
    }
  }

  /** The operation of the last received status in `inputs`, or `current` if none was received. */
  function LastOperation(current: string, inputs: seq<Input>): string
    decreases |inputs|
  {
    if |inputs| == 0 then current
    else
      var last := inputs[|inputs| - 1];
      if last.Received? then last.status.currentOperation
      else LastOperation(current, inputs[..|inputs| - 1])
  }

  /**
   * After any run the current status is the last one received, and the status gauges show
   * it (one-hot, or all zero when it is not a known state) once anything was received.
   */
  lemma {:induction false} RunTracksLastStatus(t: Tracker, inputs: seq<Input>)
    ensures Run(t, inputs).currentStatus == LastOperation(t.currentStatus, inputs)
    ensures (exists i :: 0 <= i < |inputs| && inputs[i].Received?) ==>
      OneHotOn(Run(t, inputs).gauges, LastOperation(t.currentStatus, inputs))
    ensures (exists i :: 0 <= i < |inputs| && inputs[i].Received?) ==>
      Winners(Run(t, inputs).gauges) == WinnersFor(LastOperation(t.currentStatus, inputs))
    decreases |inputs|
  {
    if |inputs| > 0 {
      var front, last := inputs[..|inputs| - 1], inputs[|inputs| - 1];
      assert inputs == front + [last];
      RunSnoc(t, front, last);
      RunTracksLastStatus(t, front);
      var before := Run(t, front);
      match last
      case Received(st, now) =>
        var g := before.gauges[LastDbusUpdate := UnixSeconds(now)][LastCheckedTime := st.lastCheckedTime as real];
        UpdateOpstatusTrackedOneHot(before.(gauges := g), st.currentOperation, now);
      case Ticked(now) =>
        WinnersDependOnStatusOps(before.gauges, BumpTimeSinceUpdate(before, now).gauges);
        if exists i :: 0 <= i < |inputs| && inputs[i].Received? {
          var i :| 0 <= i < |inputs| && inputs[i].Received?;
          assert front[i] == inputs[i];
          OneHotDependsOnStatusOps(before.gauges, BumpTimeSinceUpdate(before, now).gauges,
            LastOperation(t.currentStatus, inputs));
        }
    }
  }

  /**
   * `runExporter`: an update-engine connection failure is returned before anything is
   * applied; otherwise every input is processed and, when the status channel closes,
   * the loop returns no error.
   */
  function RunExporter(engine: Result<()>, inputs: seq<Input>): (r: (Tracker, Option<string>))
    ensures engine.Failure? ==> r == (Initial, Some(engine.error))
    ensures engine.Success? ==> r.1 == None && r.0 == Run(Initial, inputs)
    ensures engine.Success? ==> r.0.currentStatus == LastOperation("", inputs)
  {
    RunTracksLastStatus(Initial, inputs);
    if engine.Failure? then (Initial, Some(engine.error)) else (Run(Initial, inputs), None)
  }
}
