# Flatcar update-engine exporter: a verified model of its status logic

The exporter subscribes to the Flatcar update engine over D-Bus and republishes each
status event as Prometheus gauges. This project models the sequential logic of the
exporter in Dafny:

- the one-hot write of the eight `status{op}` gauges (`updateOpstatus`);
- the per-event apply and the event loop of the current exporter (`cmd/exporter/main.go`),
  which stops at the shutdown signal with the normal-exit error;
- start-up host facts (`getSystemRelease`) and pretend mode;
- the earlier exporter (`main.go`), which also tracks the current status and the instant
  it last changed, and publishes the whole seconds spent in it on each event and on a
  60-second ticker;
- `charsToString`, which turns the NUL-terminated `utsname.Release` field into a string.

The Prometheus registry is a map from gauge (`Metrics.Key`: metric plus label values) to a
`real` value. Time is an integer count of nanoseconds since Go's zero `time.Time`, and the
current instant is passed in explicitly. `time.Time.Sub` saturates at the bounds of a
64-bit `time.Duration`, as Go's does. The event stream is a finite sequence of inputs, and
each loop is a recursion over that sequence.

Files:
- `wrappers.dfy`: `Option` and `Result`.
- `clock.dfy`: Go time arithmetic.
- `engine.dfy`: the update engine's status record and state names.
- `metrics.dfy`: gauge keys.
- `opstatus.dfy`: the shared one-hot update.
- `exporter.dfy`: the current exporter.
- `legacy.dfy`: the earlier exporter.
- `kernel.dfy`: `charsToString`.

Facts about the code that the model keeps:
- An operation outside the eight known states sets all eight status gauges to 0; it does
  not keep the previous winner (cmd/exporter/main.go:124-130).
- Pretend mode never sets the readiness flag (cmd/exporter/main.go:213-217); only a
  received event does (cmd/exporter/main.go:195).
- Go's `select` does not give the shutdown signal priority (cmd/exporter/main.go:193-209).
  The model takes the inputs in the order given and claims no priority.
- The eight gauge writes are one sequential step. Nothing is claimed about a scrape that
  runs concurrently with them.
- Plain gauges registered with `promauto.NewGauge` read 0 before their first `Set`, so the
  start states already hold them at 0 (cmd/exporter/main.go:30-39, 63-72; main.go:18-27,
  33-37). Labelled gauges have no series until first written.

The eight state names (`UPDATE_STATUS_IDLE`, …) belong to the update-engine client package.
That package is not part of this model. The constants in `engine.dfy` use the client's
values, and `OpStatus.StatesWellFormed` proves that they carry the prefix the code slices off.

## Model

| member | source | states |
|---|---|---|
| OpStatus.StatesWellFormed | cmd/exporter/main.go:114-123 | the eight states in the list are distinct and each starts with `UPDATE_STATUS_`, so the slice at 126/128 is in range |
| OpStatus.Label | cmd/exporter/main.go:126 | the label is the state with the prefix removed: prefix ++ label gives the state back |
| OpStatus.LabelsOfStates | cmd/exporter/main.go:126-128 | each of the eight labels (IDLE … REPORTING_ERROR_EVENT) is its state's name with the prefix sliced off |
| OpStatus.WriteStatusesWrites | cmd/exporter/main.go:114-130 | writing a list of states in order leaves each state's gauge at 1 if it equals the new state and 0 otherwise, adds exactly those gauges and keeps every other one |
| OpStatus.StatusGaugesValues | cmd/exporter/main.go:124-130 | the reference table holds, under each known state's label, 1 for the new state and 0 for every other state |
| OpStatus.WritesMatchTable | cmd/exporter/main.go:113-131 | the eight sequential writes leave exactly the registry overlaid with the reference table |
| OpStatus.UpdateOpstatus | cmd/exporter/main.go:113-131 | the loop over the eight states equals the registry overlaid with the reference one-hot table, whatever the new state is |
| OpStatus.UpdateOpstatusFrame | cmd/exporter/main.go:113-131 | a call adds exactly the eight status gauges to the registry and leaves every other gauge's value unchanged |
| OpStatus.WinnersForStates | cmd/exporter/main.go:124-128 | a known state wins alone under its own label; any other string has no winner |
| OpStatus.UpdateOpstatusOneHot | cmd/exporter/main.go:124-130 | afterwards the set of gauges reading 1 is exactly the new state's label if it is one of the eight, and empty otherwise; each gauge reads 0 iff its state differs |
| OpStatus.UpdateOpstatusCommutes | cmd/exporter/main.go:113-131 | writing a non-status gauge before or after the status gauges gives the same registry |
| OpStatus.UpdateOpstatusIdempotent | cmd/exporter/main.go:113-131 | writing the same state twice gives the same registry as writing it once |
| Exporter.ApplyStatus | cmd/exporter/main.go:194-205 | an event sets ready, last-dbus-update to now, last-checked to `LastCheckedTime`, progress to `Progress`, new-version to 1 iff `NewVersion != "0.0.0"` (0 iff equal), the status gauges as `updateOpstatus` does, and nothing else |
| OpStatus.OneHotWinners | cmd/exporter/main.go:124-130 | when the status gauges show a state, the labels reading 1 are exactly those of the known states equal to it |
| Exporter.ApplyStatusOneHot | cmd/exporter/main.go:199 | after an event the status gauges show the event's operation: 1 for its label and 0 for the other seven, or all eight 0 when it is unknown |
| Exporter.ApplyStatusIdempotent | cmd/exporter/main.go:194-205 | applying the same event twice at the same instant equals applying it once |
| Exporter.EventLoop | cmd/exporter/main.go:192-211 | the loop returns the normal-exit error (code 0) iff a shutdown signal arrives; readiness never reverts |
| Exporter.EventLoopStopsAtDone | cmd/exporter/main.go:206-211 | no input after the first shutdown signal has any effect, and the loop returns the state reached before it with the normal exit |
| Exporter.EventLoopReadiness | cmd/exporter/main.go:192-211 | after the loop, ready holds iff it held before or an event preceded the first shutdown signal; with no such event the state is unchanged |
| Exporter.EventLoopPrefix | cmd/exporter/main.go:206-211 | the loop's state depends only on the inputs before the first shutdown signal |
| Exporter.EventLoopLastStep | cmd/exporter/main.go:192-205 | the loop's state is the last event before the first shutdown signal applied to the state the earlier events left |
| Exporter.EventLoopReflectsLastEvent | cmd/exporter/main.go:192-205 | after the loop, the status gauges show the operation of the last event before the first shutdown signal: one-hot on a known state, all zero otherwise |
| Exporter.GetSystemRelease | cmd/exporter/main.go:159-173 | always returns no error; publishes the OS gauge only when the os-release read succeeded and the kernel gauge only when the kernel read succeeded, missing os-release keys reading as empty, and nothing else |
| Exporter.PretendLoop | cmd/exporter/main.go:213-217 | pretend iterations never change readiness; after at least one the registry is the start registry overlaid with the idle table, so IDLE reads 1, the other seven read 0, and no non-status gauge is touched |
| Exporter.RunExporter | cmd/exporter/main.go:175-219 | pretend mode never becomes ready and never attempts the systemd ready notification; an update-engine connection failure is returned before any event is applied or the notification attempted; otherwise the notification is attempted, the run ends with the normal exit iff a shutdown arrives, and readiness holds iff an event preceded it; the final state is the pretend loop or the event loop started from the host facts |
| Exporter.EventLoopKeepsOtherGauges | cmd/exporter/main.go:192-211 | the loop writes only the four event gauges and the status gauges; every other gauge keeps its presence and value |
| Exporter.RunExporterKeepsHostFacts | cmd/exporter/main.go:159-173 | the OS and kernel gauges published at start-up still read 1 at the end of the run, in every mode |
| Clock.Sub | main.go:78 | elapsed time between two instants, exact within the 64-bit duration range and saturated outside it; non-negative and no more than the difference when time moved forward |
| Clock.TruncSeconds | main.go:78 | the whole seconds of a duration, rounded toward zero |
| Clock.SecondsSinceMonotone | main.go:78 | the published seconds-since never decrease as the clock advances |
| Legacy.BumpTimeSinceUpdate | main.go:77-79 | publishes the truncated seconds since the last change (non-negative when time moved forward) and changes nothing else |
| Legacy.UpdateOpstatusTracked | main.go:51-75 | afterwards the current status is the new one; the change time is untouched when the status is the same and set to now when it differs; status gauges as in the current exporter; time-in-status measured from the resulting change time |
| Legacy.UpdateOpstatusTrackedOneHot | main.go:62-68 | the status gauges show the new state: 1 for its label and 0 for the other seven, all zero when it is unknown |
| Legacy.TransitionResetsTimeInStatus | main.go:69-74 | at the instant of a transition the time-in-status gauge reads 0 |
| Legacy.TickMonotone | main.go:81-86 | with the change time fixed, a tick at a later instant never publishes less time in status than one at an earlier instant |
| Legacy.TickBeforeFirstEventSaturates | main.go:46-47 | before any event, a tick at a realistic instant publishes the saturated 9223372036 seconds, because the change time is still the zero time |
| Legacy.Receive | main.go:98-103 | each received status sets last-dbus-update and last-checked, then the current status and change time as `updateOpstatus` does |
| Legacy.RunPublishesTimeInStatus | main.go:74-84 | after any input, event or tick, the time-in-status gauge is measured from the current change time at that input's instant |
| Legacy.SteadyRunKeepsLastChange | main.go:69-73 | inputs that carry no new status leave the current status and the change time unchanged, whatever the clock does |
| Legacy.LastChangeBehindClock | main.go:69-73 | when the change time starts no later than every instant and the clock never goes back, after any run the change time is no later than the last instant |
| Legacy.TimeInStatusStaysNonNegative | main.go:77-86 | under such a clock, a non-negative time-in-status gauge stays non-negative through any run of events and ticks |
| Legacy.TimeInStatusNonNegative | main.go:46-86 | from the program's start, under a clock that never goes back, the time-in-status gauge is always present and never negative |
| Legacy.SteadyTimeInStatus | main.go:69-86 | a run without a transition publishes, at its last input, the whole seconds elapsed since the unchanged change time |
| Legacy.SteadyTimeInStatusNonDecreasing | main.go:77-86 | between transitions, under a non-decreasing clock, the time-in-status gauge never decreases from one input to a later one |
| Legacy.NewStatusIsTransitionFrom | main.go:69-73 | from any tracker, an event whose operation differs from the current status and from every status received before it becomes the current status and stamps the change time with its own instant, whatever ticks and other statuses came before |
| Legacy.FirstRealStatusIsTransition | main.go:46-73 | as the status starts empty, the first event carrying a given non-empty operation (any of the eight states or an unknown one) is a transition stamped with its own instant, whatever other operations were received earlier |
| Legacy.RunAvoidsStatus | main.go:69-73 | a run never reaches a status that it neither starts in nor receives |
| Legacy.RunTracksLastStatus | main.go:98-103 | after any sequence of events and ticks, the current status is the last one received (or the initial one), and once a status was received the status gauges are one-hot on it, or all zero if it is unknown |
| Legacy.RunExporter | main.go:88-105 | a connection failure is returned before anything is applied; otherwise every input is processed in order, the loop returns no error when the channel closes, and the current status is the last one received |
| Kernel.ToUint8 | internal/pkg/kernel/kernel_linux.go:19 | the byte is congruent to the `int8` modulo 256, equal to it when non-negative, and zero iff it is zero |
| Kernel.CharsToString | internal/pkg/kernel/kernel_linux.go:12-22 | the result is no longer than the input, stops at the first zero (or the end), has no zero byte, and byte i is `uint8(ca[i])`; so an empty input or a leading zero gives "" |
| Kernel.CharsToStringCharacterized | internal/pkg/kernel/kernel_linux.go:13-21 | a byte string is the NUL-terminated read of the input iff it equals `CharsToString` |
| Kernel.CharsToStringLoop | internal/pkg/kernel/kernel_linux.go:12-22 | the buffer-and-break loop returns the NUL-terminated read of the input |
| Kernel.CharsToStringIgnoresTail | internal/pkg/kernel/kernel_linux.go:15-18 | two inputs that agree up to and including a zero give the same string |
| Kernel.CharsToStringRoundTrip | internal/pkg/kernel/kernel_linux.go:12-22 | a string without zero bytes, written as `int8`s with or without a terminator and padding, reads back unchanged |

## Left out

- HTTP server, request logging, `/healthz` and `/readyz`: network I/O. Readiness is only the `ready` flag.
- systemd notification and the watchdog goroutine (`setupSystemd`): foreign library calls, sleeps and concurrency. The model keeps only whether the live path reached `setupSystemd` (cmd/exporter/main.go:189), that is, whether the ready notification was attempted.
- The `NOTIFY_SOCKET` gate: `daemon.SdNotify` sends the notification only when the socket variable is set and otherwise only logs (cmd/exporter/main.go:134-141). Whether the notification was delivered depends on the environment and is not modelled.
- Concurrency and registry locking: the event loop, the ticker and scrapes run as one sequential interleaving. Atomicity of the eight gauge writes against a scrape is not claimed.
- Floating point: gauges hold `real` values. Progress is copied through unchanged. `LastCheckedTime` is published as an exact integer, and float64 rounding is not modelled.
- The uptime gauge (`GaugeFunc`) and `kernel.Version`'s `syscall.Uname` call: foreign calls.
- The kernel read result reaches `GetSystemRelease` as a parameter.
- The update-engine client (`updateengine.New`, `ReceiveStatuses`) and the one-shot command in `cmd/oneshot/main.go`: external D-Bus collaborators. Connection success, and the events with their instants, are parameters.
- `osrelease.Read`: external file read; its result is a parameter.
- The non-Linux stubs in `internal/pkg/kernel/kernel.go` and `cmd/exporter/kernel_darwin.go`, and `cmd/exporter/kernel_linux.go`, which does not type-check.
- Pretend mode's 10-second sleep, CLI flags, log levels and `main`'s exit-code plumbing: glue. Pretend mode runs a given number of iterations.
- Legacy.UpdateOpstatusTracked: uses one instant for both the transition stamp and the following bump, and `Legacy.Receive` passes that same instant to the receive-time gauge. The code reads the clock three times per status (`SetToCurrentTime` at main.go:100, `time.Now` at main.go:71, `time.Since` at main.go:78), so the receive time may differ slightly from the stamp, and the "0 at a transition" property holds only when the two reads are less than one second apart (the elapsed time is a monotonic duration, truncated to whole seconds).
- Clock: Go's monotonic clock reading is not modelled; there is one integer clock. `UnixNano` overflow after the year 2262 is not modelled.
- Metrics.Key: drops the metric namespace. The earlier exporter uses `coreos` and the current one `flatcar_linux`; the two versions are modelled separately.
