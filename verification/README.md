# SnorlaxSvc lifecycle in Dafny

SnorlaxSvc is a minimal Windows service: `main` hands `SvcMain` to the service
control dispatcher. `SvcMain` registers `ServiceCtrlHandler` and steps the global
`SERVICE_STATUS` record through START_PENDING, RUNNING and STOPPED. It publishes
each step to the Service Control Manager (SCM) with `SetServiceStatus`. In
between it polls a manual-reset stop event. The handler sets that event when a
STOP arrives while the service is RUNNING, after publishing STOP_PENDING.

The project models that state machine in three files:

- `servicestatus.dfy` (module `ServiceStatus`): 32-bit `DWord`s, the Win32
  constants the service uses (`SERVICE_RUNNING` = 4, `SERVICE_ACCEPT_STOP` = 1,
  and so on), the `Status` record and one `Report`. A `Report` is one
  `SetServiceStatus` call together with whether the SCM accepted it.
- `lifecycle.dfy` (module `Lifecycle`): a reference model written as functions.
  `Handle` is the control handler and `Loop` the polling run loop. `Run` is
  `SvcMain` from entry to return. The lemmas state what the lifecycle
  guarantees about the calls it makes.
- `service.dfy` (module `SnorlaxSvc`): the globals `gSvcStatus`,
  `gSvcStatusHandle` and `ghSvcStopEvent` become fields of class `Service`.
  `SvcMain`, the run loop and the handler are methods that overwrite those
  fields in place. A ghost field logs every `SetServiceStatus` call. Each method
  is proved to make exactly the calls, and leave exactly the status record, stop
  event and handle, that the reference model gives.

The Win32 calls are replaced by their outcomes, collected in `Lifecycle.Host`:
- whether `RegisterServiceCtrlHandler` returns a handle;
- the result of each `SetServiceStatus` made by `SvcMain`;
- whether `CreateEvent` returns an event;
- the value `GetLastError` returns.

The dispatch thread is a schedule of `Event`s. `Poll` is one
`WaitForSingleObject` test of the event, followed by `Sleep(30)` when the event
is not set. `Control(code, publishOk)` is one invocation of the handler, and
`publishOk` is the outcome of the handler's own `SetServiceStatus`. The schedule
is the fuel of the run loop. When it runs out while the loop is still polling,
the run ends as `StillPolling`. This matters because the source's loop can
genuinely run forever (see `LostStopNeverEnds`).

Two behaviours of the source are kept as written:
- The checkpoint goes down on the way out. STOP_PENDING carries 4 and the final
  STOPPED carries 3 (`StoppedRun`).
- If the handler's STOP_PENDING publish fails, the event is never set. Every
  later STOP is then a no-op, so the loop never exits (`LostStopNeverEnds`).

The published states are not always a prefix of START_PENDING, RUNNING,
STOP_PENDING, STOPPED. When `CreateEvent` fails, the code publishes
START_PENDING and then STOPPED, skipping RUNNING (main.c:107-118).
`StatesInOrder` states both shapes.

## Model

| member | source | states |
|---|---|---|
| `Lifecycle.Handle` | main.c:17-41 | The handler acts exactly when the code is STOP and the state is RUNNING; otherwise nothing changes and nothing is published. When it acts, the record becomes STOP_PENDING with no controls, exit code 0 and checkpoint 4, and the other fields are kept. That record is published once. The event ends up set iff it already was or the publish succeeded. |
| `Lifecycle.SecondStopIsNoOp` | main.c:19-24 | After the handler has acted, any further control, including a second STOP, changes nothing and publishes nothing. |
| `Lifecycle.LoopWhenNotRunning` | main.c:130-132 | Once the state is not RUNNING, the run loop publishes and changes nothing. It exits at a poll if the stop event is set, and never otherwise. |
| `Lifecycle.LoopFromRunning` | main.c:22-132 | From RUNNING with the event clear, the loop publishes at most once: the STOP_PENDING record of the first STOP delivered. It exits iff that publish succeeded and a later poll sees the event. Without a STOP it changes nothing. |
| `Lifecycle.RegistrationFailurePublishesNothing` | main.c:87-93 | If `RegisterServiceCtrlHandler` fails, `SvcMain` returns with no `SetServiceStatus` call. |
| `Lifecycle.FailedPublishEndsRun` | main.c:103-126 | A failed `SetServiceStatus` is always the last call of the run. A failed START_PENDING or RUNNING publish returns before the run loop. |
| `Lifecycle.StopEventFailure` | main.c:107-118 | If `CreateEvent` fails, exactly one call follows START_PENDING. It carries STOPPED, no controls, the last error as exit code and checkpoint 1. RUNNING is never sent. |
| `Lifecycle.StopsIff` | main.c:120-141 | `SvcMain` reaches its final STOPPED publish iff registration, START_PENDING, event creation and RUNNING all succeeded, and the first STOP was published and then seen by a poll. |
| `Lifecycle.StoppedRun` | main.c:64-141 | A run that reaches the end sends START_PENDING (checkpoint 0, wait hint 500), RUNNING (checkpoint 0, accepts STOP), STOP_PENDING (checkpoint 4) and STOPPED (checkpoint 3), in that order. The checkpoint drops from 4 to 3, every exit code is 0, and the first three calls succeeded. |
| `Lifecycle.LostStopNeverEnds` | main.c:26-35 | If the first STOP's publish fails, no continuation of the schedule ever lets `SvcMain` leave the run loop. |
| `Lifecycle.ControlsAcceptedOnlyWhileRunning` | main.c:64-141 | Every record sent accepts STOP iff its state is RUNNING, and accepts no control otherwise. |
| `Lifecycle.StatesInOrder` | main.c:64-141 | The states sent are a prefix of START_PENDING, RUNNING, STOP_PENDING, STOPPED, or START_PENDING then STOPPED when the stop event could not be created. |
| `Lifecycle.StoppedFollowsStopPending` | main.c:130-136 | The final STOPPED (checkpoint 3) is always sent immediately after a STOP_PENDING that the SCM accepted. |
| `Lifecycle.StateAtReturn` | main.c:64-141 | When `SvcMain` returns, the status record holds the last record it sent, or START_PENDING if it sent none. After a completed run it holds STOPPED with checkpoint 3 and the event is set. When `CreateEvent` failed it holds STOPPED and there is no event. When registration failed the event is untouched. |
| `SnorlaxSvc.Service.constructor` | main.c:13-15 | Before `SvcMain` runs, the status record is zeroed, there is no handle and no event, and no call has been made. |
| `SnorlaxSvc.Service.SetServiceStatus` | main.c:103-105 | A publish appends the current record and its outcome to the log and returns that outcome. |
| `SnorlaxSvc.Service.CtrlHandler` | main.c:17-41 | Updating the fields in place leaves exactly the record, event state and log that `Lifecycle.Handle` gives. |
| `SnorlaxSvc.Service.RunLoop` | main.c:130-132 | The polling loop, interleaved with handler calls, ends with the state, log and exit that `Lifecycle.Loop` gives. |
| `SnorlaxSvc.Service.SvcMain` | main.c:51-141 | Updating the fields in place, it returns at the point, makes exactly the calls, and leaves the status record, handle and stop event that `Lifecycle.Run` gives. |
| `SnorlaxSvc.ProcessExitCode` | main.c:172-176 | The process exits with 0 iff `StartServiceCtrlDispatcher` fails, and with 1 otherwise. |

## Left out

- Threads: the SCM's dispatch thread runs concurrently with `SvcMain`. Here the handler runs only at the points of the run loop that the schedule names.
- Handler calls before the run loop: these are no-ops unless the state is RUNNING (`Lifecycle.Handle`). The short window between setting RUNNING (main.c:121) and publishing it (main.c:124) is not modelled.
- `Sleep(30)` and the zero timeout of `WaitForSingleObject` are timing, not logic. Each `Poll` is one test of the event.
- `RegisterServiceCtrlHandler`, `SetServiceStatus`, `CreateEvent`, `SetEvent`, `GetLastError` and `StartServiceCtrlDispatcher` are foreign calls. Each becomes the outcome it returns, and `SetEvent` always succeeds on the created event. Handles are booleans (NULL or not), and the service name is not modelled.
- Non-termination of the run loop is bounded by the schedule. A run whose schedule ends while the event is unset is reported as `StillPolling` rather than running forever.
- The construction of the dispatch table in `main` (main.c:158-164) is platform glue. Only the exit-code mapping is modelled.
- `argc` and `argv` of `SvcMain` are unused by the source and are not modelled.
- `SnorlaxSvc.Service.SvcMain`: its call log covers the current run only. It is reset on entry rather than accumulated across runs, because the source calls `SvcMain` once per process.
