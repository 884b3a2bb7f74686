/**
 * main.c as an object: the globals gSvcStatus, gSvcStatusHandle and
 * ghSvcStopEvent become fields that SvcMain and the control handler overwrite
 * in place. Each Win32 call is replaced by the outcome it returned, and every
 * SetServiceStatus call is appended to a log. Each method is proved to do
 * what the reference model in module Lifecycle describes.
 */
module SnorlaxSvc {
  import opened ServiceStatus
  import opened Lifecycle

  class Service {
    // gSvcStatus, the SERVICE_STATUS record
    var status: Status

    // gSvcStatusHandle is not NULL
    var hasStatusHandle: bool
    // ghSvcStopEvent is not NULL
    var hasStopEvent: bool
    // the manual-reset stop event is signaled
    var stopEventSet: bool

    // every SetServiceStatus call so far, with its outcome
    ghost var reports: seq<Report>

    /** The state the handler and SvcMain share. */
    function SharedState(): Shared
      reads this
    {
      Lifecycle.Shared(status, stopEventSet)
    }

    /** The process's globals before SvcMain runs: zeroed, no handle, no event. */
    constructor ()
      ensures status == Status(0, 0, 0, 0, 0, 0, 0)
      ensures !hasStatusHandle && !hasStopEvent && !stopEventSet
      ensures reports == []
    {
      status := Status(0, 0, 0, 0, 0, 0, 0);
      hasStatusHandle, hasStopEvent, stopEventSet := false, false, false;
      reports := [];
    }

    /** SetServiceStatus(gSvcStatusHandle, &gSvcStatus), whose outcome is `ok`. */
    method SetServiceStatus(ok: bool) returns (success: bool)
      requires hasStatusHandle
      modifies this`reports
      ensures success == ok
      ensures reports == old(reports) + [Report(status, ok)]
    {
      reports := reports + [Report(status, ok)];
      success := ok;
    }

    /** ServiceCtrlHandler: the SCM delivers `code`; a publish it makes has outcome `publishOk`. */
    method CtrlHandler(code: DWord, publishOk: bool)
      requires hasStatusHandle
      requires status.currentState == ServiceRunning ==> hasStopEvent
      modifies this
      ensures SharedState() == Handle(old(SharedState()), code, publishOk).after
      ensures reports == old(reports) + Handle(old(SharedState()), code, publishOk).reports
      ensures hasStatusHandle && hasStopEvent == old(hasStopEvent)
    {
      if code == ServiceControlStop {
        if status.currentState != ServiceRunning {
          return;
        }
        status := status.(controlsAccepted := 0, win32ExitCode := 0);
        status := status.(currentState := ServiceStopPending);
        status := status.(checkPoint := 4);
        var ok := SetServiceStatus(publishOk);
        if !ok {
          return;
        }
        // SetEvent(ghSvcStopEvent): tell the run loop to shut down
        stopEventSet := true;
      }
    }

    /**
     * The run loop: poll the stop event and sleep until it is set, while the
     * handler runs at the points the schedule gives. Returns whether the loop
     * saw the event before the schedule ran out.
     */
    method RunLoop(schedule: seq<Event>) returns (exited: bool)
      requires hasStatusHandle && hasStopEvent
      modifies this
      ensures var l := Loop(old(SharedState()), schedule);
        && exited == l.exited
        && SharedState() == l.after
        && reports == old(reports) + l.reports
      ensures hasStatusHandle && hasStopEvent
    {
      ghost var start := SharedState();
      ghost var done: seq<Report> := [];
      exited := false;
      var i := 0;
      while i < |schedule| && !exited
        invariant 0 <= i <= |schedule|
        invariant hasStatusHandle && hasStopEvent
        invariant reports == old(reports) + done
        invariant !exited ==> Loop(start, schedule) == Prepend(done, Loop(SharedState(), schedule[i..]))
        invariant exited ==> Loop(start, schedule) == LoopEnd(SharedState(), done, true)
        decreases |schedule| - i
      {
        ghost var now := SharedState();
        LoopStep(now, schedule[i..]);
        assert schedule[i..][1..] == schedule[i + 1..];
        ghost var rest := Loop(now, schedule[i..]);
        match schedule[i] {
          case Poll =>
            // WaitForSingleObject(ghSvcStopEvent, 0) == WAIT_OBJECT_0; otherwise Sleep(30)
            exited := stopEventSet;
            assert done + [] == done;
          case Control(code, ok) =>
            CtrlHandler(code, ok);
            ghost var h := Handle(now, code, ok);
            PrependTwice(done, h.reports, Loop(h.after, schedule[i + 1..]));
            done := done + h.reports;
        }
        i := i + 1;
      }
    }

    /**
     * SvcMain: publish START_PENDING, create the stop event, publish RUNNING,
     * run the loop, publish STOPPED, returning early at the first failure.
     */
    method SvcMain(host: Host) returns (exit: Exit)
      modifies this
      ensures exit == Run(host).exit
      ensures reports == Run(host).reports
      ensures status == Run(host).status
      ensures hasStatusHandle == host.registerOk
      ensures match Run(host).event
        case Untouched => hasStopEvent == old(hasStopEvent) && stopEventSet == old(stopEventSet)
        case Missing => !hasStopEvent
        case Created(signaled) => hasStopEvent && stopEventSet == signaled
    {
      reports := [];
      // ZeroMemory, then the START_PENDING record
      status := Status(0, 0, 0, 0, 0, 0, 0);
      status := status.(serviceType := ServiceWin32OwnProcess, waitHint := 500);
      status := status.(currentState := ServiceStartPending, controlsAccepted := 0);
      status := status.(win32ExitCode := NoError, serviceSpecificExitCode := NoError, checkPoint := 0);
      assert status == InitialStatus();

      hasStatusHandle := host.registerOk;
      if !hasStatusHandle {
        return NoHandle;
      }
      var ok := SetServiceStatus(host.startPublishOk);
      if !ok {
        return PublishFailed;
      }

      hasStopEvent := host.createEventOk;
      if !hasStopEvent {
        status := status.(controlsAccepted := 0, currentState := ServiceStopped);
        status := status.(win32ExitCode := host.lastError, checkPoint := 1);
        assert status == NoEventStatus(InitialStatus(), host.lastError);
        ok := SetServiceStatus(host.stoppedPublishOk);
        return NoStopEvent;
      }
      stopEventSet := false;

      status := status.(controlsAccepted := ServiceAcceptStop, currentState := ServiceRunning);
      status := status.(win32ExitCode := 0, checkPoint := 0);
      assert status == RunningStatus(InitialStatus());
      ok := SetServiceStatus(host.runningPublishOk);
      if !ok {
        return PublishFailed;
      }

      assert reports == [Report(InitialStatus(), true), Report(RunningStatus(InitialStatus()), true)];
      var exited := RunLoop(host.schedule);
      if !exited {
        return StillPolling;
      }

      status := status.(controlsAccepted := 0, win32ExitCode := 0);
      status := status.(currentState := ServiceStopped, checkPoint := 3);
      ok := SetServiceStatus(host.finalPublishOk);
      return Stopped;
    }
  }

  /** main: 0 when StartServiceCtrlDispatcher fails (not started by the SCM), 1 once it has returned. */
  function ProcessExitCode(dispatcherOk: bool): (code: int)
    ensures code == 0 <==> !dispatcherOk
    ensures code == 1 <==> dispatcherOk
  {
    if dispatcherOk then 1 else 0
  }
}
