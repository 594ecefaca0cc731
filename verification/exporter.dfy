/**
 * The current exporter (cmd/exporter): start-up host facts, the per-event apply, the
 * event loop that stops on the shutdown signal, and pretend mode.
 */
module Exporter {
  import opened Wrappers
  import opened Clock
  import opened Engine
  import opened Metrics
  import opened OpStatus

  /** The exporter's mutable globals: the registry and the readiness flag behind `/readyz`. */
  datatype State = State(gauges: Gauges, ready: bool)

  /**
   * The process at start, not ready: the four plain gauges are registered and read 0 until
   * first set; the labelled gauges (status, OS, kernel) have no series yet.
   */
  const Start: State := State(
    map[LastCheckedTime := 0.0, LastDbusUpdate := 0.0, NewVersionAvailable := 0.0, UpdateProgress := 0.0],
    false)

  /** What the event loop's `select` can receive: a status event (at instant `now`) or shutdown. */
  datatype Input = Event(status: Status, now: Time) | Done

  /** The error `cli.Exit` builds: a message and a process exit code. */
  datatype Exit = Exit(message: string, code: int)

  /** The error returned when the shutdown signal is observed. */
  const NormalExit: Exit := Exit("normal exit", 0)

  /** The gauges one status event writes besides the status gauges. */
  predicate EventKey(k: Key)
  {
    k == LastDbusUpdate || k == LastCheckedTime || k == UpdateProgress || k == NewVersionAvailable
  }

  /**
   * The shape of one event's writes: receive time and last-check time, then the status
   * gauges `m` overlaid, then progress and new-version.
   */
  function Overlay(g: Gauges, m: Gauges, d: real, c: real, p: real, n: real): Gauges
  {
    (g[LastDbusUpdate := d][LastCheckedTime := c] + m)[UpdateProgress := p][NewVersionAvailable := n]
  }

  /** Overlaying the same writes twice is overlaying them once, when `m` holds only status gauges. */
  lemma OverlayIdempotent(g: Gauges, m: Gauges, d: real, c: real, p: real, n: real)
    requires forall k :: k in m ==> k.StatusOp?
    ensures Overlay(Overlay(g, m, d, c, p, n), m, d, c, p, n) == Overlay(g, m, d, c, p, n)
  {
    var once := Overlay(g, m, d, c, p, n);
    assert once[LastDbusUpdate := d][LastCheckedTime := c] == once;
    assert once + m == once;
  }

  /** The registry writes of one status event, in the order the loop makes them. */
  function EventGauges(g: Gauges, st: Status, now: Time): Gauges
  {
    var g1 := g[LastDbusUpdate := UnixSeconds(now)][LastCheckedTime := st.lastCheckedTime as real];
    UpdateOpstatus(g1, st.currentOperation)[UpdateProgress := st.progress]
      [NewVersionAvailable := Indicator(st.newVersion != NoVersion)]
  }

  /**
   * One status event received by the live loop: marks the exporter ready, publishes the
   * receive time, the engine's last-check time, the one-hot operation, the progress and
   * whether a new version is on offer.
   */
  function ApplyStatus(e: State, st: Status, now: Time): (r: State)
    ensures r.ready
    ensures LastDbusUpdate in r.gauges && r.gauges[LastDbusUpdate] == UnixSeconds(now)
    ensures LastCheckedTime in r.gauges && r.gauges[LastCheckedTime] == st.lastCheckedTime as real
    ensures UpdateProgress in r.gauges && r.gauges[UpdateProgress] == st.progress
    ensures NewVersionAvailable in r.gauges
    ensures r.gauges[NewVersionAvailable] == 1.0 <==> st.newVersion != NoVersion
    ensures r.gauges[NewVersionAvailable] == 0.0 <==> st.newVersion == NoVersion
    ensures forall k: Key :: k.StatusOp? ==>
      (k in r.gauges <==> k in UpdateOpstatus(e.gauges, st.currentOperation)) &&
      (k in r.gauges ==> r.gauges[k] == UpdateOpstatus(e.gauges, st.currentOperation)[k])
    ensures forall k: Key :: !k.StatusOp? && !EventKey(k) ==>
      (k in r.gauges <==> k in e.gauges) && (k in e.gauges ==> r.gauges[k] == e.gauges[k])
  {
    StatusKeysAreStatusOps();
    assert EventGauges(e.gauges, st, now) == Overlay(e.gauges, StatusGauges(st.currentOperation),
      UnixSeconds(now), st.lastCheckedTime as real, st.progress, Indicator(st.newVersion != NoVersion));
    State(EventGauges(e.gauges, st, now), true)
  }

  /** After an event, the status gauges show exactly its operation, or nothing if it is unknown. */
  lemma ApplyStatusOneHot(e: State, st: Status, now: Time)
    ensures OneHotOn(ApplyStatus(e, st, now).gauges, st.currentOperation)
    ensures Winners(ApplyStatus(e, st, now).gauges) == WinnersFor(st.currentOperation)
  {
    var u := UpdateOpstatus(e.gauges, st.currentOperation);
    UpdateOpstatusOneHot(e.gauges, st.currentOperation);
    OneHotDependsOnStatusOps(u, ApplyStatus(e, st, now).gauges, st.currentOperation);
    WinnersDependOnStatusOps(u, ApplyStatus(e, st, now).gauges);
  }

  /** Applying the same event twice at the same instant is the same as applying it once. */
  lemma ApplyStatusIdempotent(e: State, st: Status, now: Time)
    ensures ApplyStatus(ApplyStatus(e, st, now), st, now) == ApplyStatus(e, st, now)
  {
    EventGaugesIdempotent(e.gauges, st, now);
  }

  lemma EventGaugesIdempotent(g: Gauges, st: Status, now: Time)
    ensures EventGauges(EventGauges(g, st, now), st, now) == EventGauges(g, st, now)
  {
    var m := StatusGauges(st.currentOperation);
    var d, c, p, n := UnixSeconds(now), st.lastCheckedTime as real, st.progress, Indicator(st.newVersion != NoVersion);
    assert EventGauges(g, st, now) == Overlay(g, m, d, c, p, n);
    assert EventGauges(Overlay(g, m, d, c, p, n), st, now) == Overlay(Overlay(g, m, d, c, p, n), m, d, c, p, n);
    OverlayIdempotent(g, StatusGauges(st.currentOperation), UnixSeconds(now),
      st.lastCheckedTime as real, st.progress, Indicator(st.newVersion != NoVersion));
  }

  /** The outcome of the live event loop: the state it leaves and, if it returned, its error. */
  datatype LoopResult = LoopResult(state: State, exit: Option<Exit>)

  /** Index of the first shutdown signal in `inputs`, or `|inputs|` when there is none. */
  function FirstDone(inputs: seq<Input>): (n: nat)
    ensures n <= |inputs|
    ensures forall i :: 0 <= i < n ==> inputs[i].Event?
    ensures n < |inputs| ==> inputs[n].Done?
  {
    if |inputs| == 0 || inputs[0].Done? then 0 else 1 + FirstDone(inputs[1..])
  }

  /**
   * The live loop of `runExporter`: applies each event in order and returns the normal-exit
   * error at the first shutdown signal; when the inputs run out it is still waiting.
   */
  function EventLoop(e: State, inputs: seq<Input>): (r: LoopResult)
    ensures r.exit.Some? <==> Done in inputs
    ensures r.exit.Some? ==> r.exit.value == NormalExit && r.exit.value.code == 0
    ensures e.ready ==> r.state.ready
    decreases |inputs|
  {
    if |inputs| == 0 then LoopResult(e, None)
    else if inputs[0].Done? then LoopResult(e, Some(NormalExit))
    else
      assert inputs == [inputs[0]] + inputs[1..];
      EventLoop(Step(e, inputs[0]), inputs[1..])
  }

  /** One received event, applied; keeps readiness once set. */
  function Step(e: State, input: Input): (r: State)
    requires input.Event?
    ensures r.ready
  {
    ApplyStatus(e, input.status, input.now)
  }

  /** Nothing after the first shutdown signal is applied. */
  lemma {:induction false} EventLoopStopsAtDone(e: State, xs: seq<Input>, ys: seq<Input>)
    requires Done !in xs
    ensures EventLoop(e, xs + [Done] + ys) == EventLoop(e, xs + [Done])
    ensures EventLoop(e, xs + [Done]) == LoopResult(EventLoop(e, xs).state, Some(NormalExit))
    decreases |xs|
  {
    if |xs| == 0 {
      assert xs + [Done] + ys == [Done] + ys;
      assert xs + [Done] == [Done];
    } else {
      var st, now := xs[0].status, xs[0].now;
      assert (xs + [Done] + ys)[1..] == xs[1..] + [Done] + ys;
      assert (xs + [Done])[1..] == xs[1..] + [Done];
      assert Done !in xs[1..] by { assert forall x | x in xs[1..] :: x in xs; }
      EventLoopStopsAtDone(ApplyStatus(e, st, now), xs[1..], ys);
    }
  }

  /**
   * After the loop, the exporter is ready exactly when it was before or an event preceded
   * the first shutdown signal; with no such event the state is untouched.
   */
  lemma {:induction false} EventLoopReadiness(e: State, inputs: seq<Input>)
    ensures var n := FirstDone(inputs);
      var r := EventLoop(e, inputs).state;
      && (r.ready <==> e.ready || n > 0)
      && (n == 0 ==> r == e)
    decreases |inputs|
  {
    if |inputs| > 0 && inputs[0].Event? {
      EventLoopReadiness(Step(e, inputs[0]), inputs[1..]);
    }
  }

  /** Running the loop over events then one more event is running it and stepping once more. */
  lemma {:induction false} EventLoopSnoc(e: State, xs: seq<Input>, x: Input)
    requires Done !in xs && x.Event?
    ensures EventLoop(e, xs + [x]).state == Step(EventLoop(e, xs).state, x)
    decreases |xs|
  {
    if |xs| == 0 {
      assert xs + [x] == [x];
    } else {
      assert (xs + [x])[1..] == xs[1..] + [x];
      assert Done !in xs[1..] by { assert forall y | y in xs[1..] :: y in xs; }
      EventLoopSnoc(Step(e, xs[0]), xs[1..], x);
    }
  }

  /** The loop's state depends only on the inputs before the first shutdown signal. */
  lemma EventLoopPrefix(e: State, inputs: seq<Input>)
    ensures EventLoop(e, inputs).state == EventLoop(e, inputs[..FirstDone(inputs)]).state
  {
    var n := FirstDone(inputs);
    var xs := inputs[..n];
    assert Done !in xs by {
      forall y | y in xs ensures y != Done { var i :| 0 <= i < n && xs[i] == y; }
    }
    if n < |inputs| {
      assert inputs == xs + [Done] + inputs[n + 1..];
      EventLoopStopsAtDone(e, xs, inputs[n + 1..]);
    } else {
      assert xs == inputs;
    }
  }

  /** A non-empty sequence is its front followed by its last element. */
  lemma SplitLast<T>(s: seq<T>)
    requires |s| > 0
    ensures s == s[..|s| - 1] + [s[|s| - 1]]
  {
  }

  /** The loop's state is the last event before the first shutdown signal applied to what came before. */
  lemma EventLoopLastStep(e: State, inputs: seq<Input>)
    requires FirstDone(inputs) > 0
    ensures var n := FirstDone(inputs);
      EventLoop(e, inputs).state
        == ApplyStatus(EventLoop(e, inputs[..n - 1]).state, inputs[n - 1].status, inputs[n - 1].now)
  {
    var n := FirstDone(inputs);
    EventLoopPrefix(e, inputs);
    LastBeforeDone(inputs);
    EventLoopSnoc(e, inputs[..n - 1], inputs[n - 1]);
  }

  /** The inputs before the first shutdown signal are events: the front ones, then the last one. */
  lemma LastBeforeDone(inputs: seq<Input>)
    requires FirstDone(inputs) > 0
    ensures var n := FirstDone(inputs);
      && inputs[..n] == inputs[..n - 1] + [inputs[n - 1]]
      && Done !in inputs[..n - 1]
      && inputs[n - 1].Event?
  {
    var n := FirstDone(inputs);
    var ys := inputs[..n];
    SplitLast(ys);
    var xs := inputs[..n - 1];
    assert ys[..n - 1] == xs;
    forall y | y in xs ensures y != Done {
      var i :| 0 <= i < n - 1 && xs[i] == y;
    }
  }

  /**
   * After the loop, the status gauges show the operation of the last event before the first
   * shutdown signal: one-hot when it is a known state, all zero otherwise.
   */
  lemma EventLoopReflectsLastEvent(e: State, inputs: seq<Input>)
    requires FirstDone(inputs) > 0
    ensures OneHotOn(EventLoop(e, inputs).state.gauges, inputs[FirstDone(inputs) - 1].status.currentOperation)
    ensures Winners(EventLoop(e, inputs).state.gauges)
      == WinnersFor(inputs[FirstDone(inputs) - 1].status.currentOperation)
  {
    var n := FirstDone(inputs);
    EventLoopLastStep(e, inputs);
    ApplyStatusOneHot(EventLoop(e, inputs[..n - 1]).state, inputs[n - 1].status, inputs[n - 1].now);
  }

  /** An os-release file, as the key/value map `osrelease.Read` returns. */
  type OsRelease = map<string, string>

  /** A Go map lookup: the value, or the empty string for a missing key. */
  function Lookup(m: OsRelease, k: string): string
  {
    if k in m then m[k] else ""
  }

  /** The OS gauge published for an os-release file. */
  function OsKey(rel: OsRelease): Key
  {
    Os(Lookup(rel, "ID"), Lookup(rel, "VERSION"), Lookup(rel, "FLATCAR_BOARD"))
  }

  /**
   * `getSystemRelease`: publishes the OS gauge when the os-release read succeeded and the
   * kernel gauge when the kernel-version read succeeded, independently, and returns no error.
   */
  function GetSystemRelease(g: Gauges, osRelease: Result<OsRelease>, kernel: Result<string>)
    : (r: (Gauges, Option<string>))
    ensures r.1 == None
    ensures osRelease.Success? ==> OsKey(osRelease.value) in r.0 && r.0[OsKey(osRelease.value)] == 1.0
    ensures kernel.Success? ==> Kernel(kernel.value) in r.0 && r.0[Kernel(kernel.value)] == 1.0
    ensures forall k :: !(osRelease.Success? && k == OsKey(osRelease.value)) &&
                        !(kernel.Success? && k == Kernel(kernel.value)) ==>
      (k in r.0 <==> k in g) && (k in g ==> r.0[k] == g[k])
  {
    var g1 := if osRelease.Success? then g[OsKey(osRelease.value) := 1.0] else g;
    var g2 := if kernel.Success? then g1[Kernel(kernel.value) := 1.0] else g1;
    (g2, None)
  }

  /**
   * Pretend mode: each of `ticks` iterations runs `updateOpstatus` on the idle state and
   * nothing else, so after at least one the status gauges show IDLE alone.
   */
  function PretendLoop(e: State, ticks: nat): (r: State)
    ensures r.ready == e.ready
    ensures ticks == 0 ==> r == e
    ensures ticks > 0 ==> r.gauges == e.gauges + StatusGauges(Idle)
    ensures ticks > 0 ==> OneHotOn(r.gauges, Idle) && Winners(r.gauges) == {"IDLE"}
    ensures forall k: Key :: !k.StatusOp? ==>
      (k in r.gauges <==> k in e.gauges) && (k in e.gauges ==> r.gauges[k] == e.gauges[k])
    decreases ticks
  {
    if ticks == 0 then e
    else
      UpdateOpstatusIdempotent(e.gauges, Idle);
      UpdateOpstatusOneHot(e.gauges, Idle);
      WinnersForStates(Idle);
      LabelsTable();
      PretendLoop(State(UpdateOpstatus(e.gauges, Idle), e.ready), ticks - 1)
  }

  /** How `runExporter` ends: with an error, with the normal-exit error, or not yet. */
  datatype Completion = Failed(error: string) | Exited(exit: Exit) | Running

  /**
   * The whole run: the state left behind, whether the systemd ready notification was attempted, and how it ended.
   */
  datatype Outcome = Outcome(state: State, notifyAttempted: bool, completion: Completion)

  /** The collaborators' answers the run depends on. */
  datatype Environment = Environment(
    osRelease: Result<OsRelease>,  // osrelease.Read
    kernel: Result<string>,        // kernel.Version
    engine: Result<()>,            // updateengine.New
    inputs: seq<Input>,            // what the live loop's select receives, in order
    pretendTicks: nat              // iterations of the pretend loop
  )

  /**
   * `runExporter`: reads the host facts once, then either runs pretend mode or connects to
   * the update engine, attempts the systemd ready notification and runs the event loop.
   */
  function RunExporter(pretend: bool, env: Environment): (r: Outcome)
    ensures var facts := GetSystemRelease(Start.gauges, env.osRelease, env.kernel).0;
      && (pretend ==> !r.state.ready && !r.notifyAttempted && r.completion == Running)
      && (!pretend && env.engine.Failure? ==>
            r == Outcome(State(facts, false), false, Failed(env.engine.error)))
      && (!pretend && env.engine.Success? ==>
            r.notifyAttempted && r.completion == if Done in env.inputs then Exited(NormalExit) else Running)
      && (!pretend && env.engine.Success? ==>
            (r.state.ready <==> FirstDone(env.inputs) > 0))
      && (pretend ==> r.state == PretendLoop(State(facts, false), env.pretendTicks))
      && (!pretend && env.engine.Success? ==>
            r.state == EventLoop(State(facts, false), env.inputs).state)
  {
    var (facts, _) := GetSystemRelease(Start.gauges, env.osRelease, env.kernel);
    var e := State(facts, Start.ready);
    if pretend then
      Outcome(PretendLoop(e, env.pretendTicks), false, Running)
    else if env.engine.Failure? then
      Outcome(e, false, Failed(env.engine.error))
    else
      var loop := EventLoop(e, env.inputs);
      EventLoopReadiness(e, env.inputs);
      Outcome(loop.state, true, if loop.exit.Some? then Exited(loop.exit.value) else Running)
  }

  /** Events write only their own four gauges and the status gauges; every other gauge survives the loop. */
  lemma {:induction false} EventLoopKeepsOtherGauges(e: State, inputs: seq<Input>)
    ensures forall k: Key :: !k.StatusOp? && !EventKey(k) ==>
      (k in EventLoop(e, inputs).state.gauges <==> k in e.gauges) &&
      (k in e.gauges ==> EventLoop(e, inputs).state.gauges[k] == e.gauges[k])
    decreases |inputs|
  {
    if |inputs| > 0 && inputs[0].Event? {
      EventLoopKeepsOtherGauges(Step(e, inputs[0]), inputs[1..]);
    }
  }

  /** The host facts published at start-up are still published, at 1, however the run goes. */
  lemma RunExporterKeepsHostFacts(pretend: bool, env: Environment)
    ensures var r := RunExporter(pretend, env);
      && (env.osRelease.Success? ==>
            OsKey(env.osRelease.value) in r.state.gauges && r.state.gauges[OsKey(env.osRelease.value)] == 1.0)
      && (env.kernel.Success? ==>
            Kernel(env.kernel.value) in r.state.gauges && r.state.gauges[Kernel(env.kernel.value)] == 1.0)
  {
    var facts := GetSystemRelease(Start.gauges, env.osRelease, env.kernel).0;
    if !pretend && env.engine.Success? {
      EventLoopKeepsOtherGauges(State(facts, false), env.inputs);
    }
  }
}
