/**
 * A reference model of the service lifecycle in main.c, written as functions:
 * the control handler, the polling run loop and SvcMain, each mapping the
 * shared state (the status record and the stop event) and the SCM's answers
 * to the new shared state and the SetServiceStatus calls made. The lemmas
 * state what the lifecycle guarantees about those calls.
 */
module Lifecycle {
  import opened ServiceStatus

  /** The state shared by SvcMain and the handler: gSvcStatus and whether the stop event is set. */
  datatype Shared = Shared(status: Status, signaled: bool)

  /**
   * What happens on the dispatch thread at one point of the run loop: the loop
   * polls the stop event, or the SCM delivers a control code to the handler,
   * whose SetServiceStatus call (if it makes one) has the given outcome.
   */
  datatype Event = Poll | Control(code: DWord, publishOk: bool)

  /**
   * The answers of the SCM and of the Win32 calls during one run of SvcMain.
   * The schedule bounds how long the run loop is followed.
   */
  datatype Host = Host(
    registerOk: bool,        // RegisterServiceCtrlHandler returns a handle
    startPublishOk: bool,    // SetServiceStatus(START_PENDING)
    createEventOk: bool,     // CreateEvent returns an event
    lastError: DWord,        // GetLastError after CreateEvent failed
    stoppedPublishOk: bool,  // SetServiceStatus(STOPPED) after CreateEvent failed
    runningPublishOk: bool,  // SetServiceStatus(RUNNING)
    schedule: seq<Event>,    // polls and handler invocations during the run loop
    finalPublishOk: bool)    // SetServiceStatus(STOPPED) after the run loop

  /** The return point SvcMain reaches, or StillPolling when the schedule ends inside the run loop. */
  datatype Exit = NoHandle | PublishFailed | NoStopEvent | StillPolling | Stopped

  datatype Handled = Handled(after: Shared, reports: seq<Report>)
  datatype LoopEnd = LoopEnd(after: Shared, reports: seq<Report>, exited: bool)

  /**
   * What SvcMain leaves in ghSvcStopEvent: untouched when it returned before
   * CreateEvent, NULL when CreateEvent failed, or a created event and whether it is set.
   */
  datatype StopEvent = Untouched | Missing | Created(signaled: bool)

  /** How SvcMain returned, the calls it made, and the record and event it left behind. */
  datatype RunResult = RunResult(exit: Exit, reports: seq<Report>, status: Status, event: StopEvent)

  predicate IsStop(e: Event)
  {
    e.Control? && e.code == ServiceControlStop
  }

  /** The record SvcMain builds before registering: zeroed, then the START_PENDING fields. */
  function InitialStatus(): Status
  {
    Status(ServiceWin32OwnProcess, ServiceStartPending, 0, NoError, NoError, 0, 500)
  }

  /** The record after SvcMain failed to create the stop event. */
  function NoEventStatus(s: Status, lastError: DWord): Status
  {
    s.(controlsAccepted := 0, currentState := ServiceStopped, win32ExitCode := lastError, checkPoint := 1)
  }

  /** The record SvcMain publishes once the stop event exists. */
  function RunningStatus(s: Status): Status
  {
    s.(controlsAccepted := ServiceAcceptStop, currentState := ServiceRunning, win32ExitCode := 0, checkPoint := 0)
  }

  /** The record the handler publishes on an accepted STOP. */
  function StopPendingStatus(s: Status): Status
  {
    s.(controlsAccepted := 0, win32ExitCode := 0, currentState := ServiceStopPending, checkPoint := 4)
  }

  /** The record SvcMain publishes after the run loop ends. */
  function FinalStatus(s: Status): Status
  {
    s.(controlsAccepted := 0, win32ExitCode := 0, currentState := ServiceStopped, checkPoint := 3)
  }

  /**
   * ServiceCtrlHandler: only a STOP that arrives while RUNNING does anything.
   * It then moves the record to STOP_PENDING, publishes it, and sets the stop
   * event only when the publish succeeded.
   */
  function Handle(sh: Shared, code: DWord, publishOk: bool): (r: Handled)
    ensures !(code == ServiceControlStop && sh.status.currentState == ServiceRunning) <==> r == Handled(sh, [])
    ensures code == ServiceControlStop && sh.status.currentState == ServiceRunning ==>
      && r.after.status.currentState == ServiceStopPending
      && r.after.status.controlsAccepted == 0
      && r.after.status.win32ExitCode == 0
      && r.after.status.checkPoint == 4
      && r.after.status == sh.status.(currentState := ServiceStopPending, controlsAccepted := 0,
                                      win32ExitCode := 0, checkPoint := 4)
      && r.reports == [Report(r.after.status, publishOk)]
      && (r.after.signaled <==> sh.signaled || publishOk)
  {
    if code == ServiceControlStop && sh.status.currentState == ServiceRunning then
      var s := StopPendingStatus(sh.status);
      Handled(Shared(s, sh.signaled || publishOk), [Report(s, publishOk)])
    else
      Handled(sh, [])
  }

  /**
   * The run loop, followed along a schedule: a poll that finds the event set
   * leaves the loop; a poll that does not goes on after the sleep; a control
   * runs the handler. When the schedule ends, the loop has not exited.
   */
  function Loop(sh: Shared, schedule: seq<Event>): LoopEnd
    decreases |schedule|
  {
    if schedule == [] then LoopEnd(sh, [], false)
    else match schedule[0]
      case Poll =>
        if sh.signaled then LoopEnd(sh, [], true) else Loop(sh, schedule[1..])
      case Control(code, ok) =>
        var h := Handle(sh, code, ok);
        Prepend(h.reports, Loop(h.after, schedule[1..]))
  }

  /** A loop outcome with the given reports made before it. */
  function Prepend(rs: seq<Report>, l: LoopEnd): LoopEnd
  {
    LoopEnd(l.after, rs + l.reports, l.exited)
  }

  lemma PrependTwice(rs1: seq<Report>, rs2: seq<Report>, l: LoopEnd)
    ensures Prepend(rs1, Prepend(rs2, l)) == Prepend(rs1 + rs2, l)
  {
  }

  /** One step of the run loop: what the first event of a non-empty schedule does. */
  lemma LoopStep(sh: Shared, schedule: seq<Event>)
    requires schedule != []
    ensures Loop(sh, schedule) ==
      match schedule[0]
      case Poll => if sh.signaled then LoopEnd(sh, [], true) else Loop(sh, schedule[1..])
      case Control(code, ok) =>
        Prepend(Handle(sh, code, ok).reports, Loop(Handle(sh, code, ok).after, schedule[1..]))
  {
  }

  /** SvcMain from entry to return, given the host's answers. */
  function Run(h: Host): RunResult
  {
    var s0 := InitialStatus();
    if !h.registerOk then RunResult(NoHandle, [], s0, Untouched)
    else if !h.startPublishOk then RunResult(PublishFailed, [Report(s0, false)], s0, Untouched)
    else if !h.createEventOk then
      var s1 := NoEventStatus(s0, h.lastError);
      RunResult(NoStopEvent, [Report(s0, true), Report(s1, h.stoppedPublishOk)], s1, Missing)
    else
      var s1 := RunningStatus(s0);
      if !h.runningPublishOk then RunResult(PublishFailed, [Report(s0, true), Report(s1, false)], s1, Created(false))
      else
        var l := Loop(Shared(s1, false), h.schedule);
        var started := [Report(s0, true), Report(s1, true)];
        if !l.exited then RunResult(StillPolling, started + l.reports, l.after.status, Created(l.after.signaled))
        else
          var s2 := FinalStatus(l.after.status);
          RunResult(Stopped, started + l.reports + [Report(s2, h.finalPublishOk)], s2, Created(l.after.signaled))
  }

  /** The index of the first STOP control in a schedule, or its length when there is none. */
  function FirstStop(schedule: seq<Event>): (i: nat)
    ensures i <= |schedule|
    ensures i < |schedule| ==> IsStop(schedule[i])
    ensures forall k :: 0 <= k < i ==> !IsStop(schedule[k])
    decreases |schedule|
  {
    if schedule == [] then 0
    else if IsStop(schedule[0]) then 0
    else 1 + FirstStop(schedule[1..])
  }

  /** The first STOP of the schedule is published successfully and a poll follows it. */
  predicate StopHonoured(schedule: seq<Event>)
  {
    var i := FirstStop(schedule);
    i < |schedule| && schedule[i].publishOk && Poll in schedule[i + 1..]
  }

  // ---------------------------------------------------------------------------
  // The handler

  /** A second STOP is a no-op: once the handler has acted, any further control changes nothing. */
  lemma SecondStopIsNoOp(sh: Shared, ok1: bool, code: DWord, ok2: bool)
    ensures var first := Handle(sh, ServiceControlStop, ok1);
      Handle(first.after, code, ok2) == Handled(first.after, [])
  {
  }

  // ---------------------------------------------------------------------------
  // The run loop

  /**
   * Once the state is no longer RUNNING, the loop publishes nothing and changes
   * nothing; it exits at a poll if the event is set, and never otherwise.
   */
  lemma {:induction false} LoopWhenNotRunning(sh: Shared, schedule: seq<Event>)
    requires sh.status.currentState != ServiceRunning
    ensures Loop(sh, schedule) == LoopEnd(sh, [], sh.signaled && Poll in schedule)
    decreases |schedule|
  {
    if schedule != [] {
      LoopWhenNotRunning(sh, schedule[1..]);
      assert schedule == [schedule[0]] + schedule[1..];
    }
  }

  /**
   * From RUNNING with the event clear, the loop makes at most one report: the
   * STOP_PENDING record of the first STOP it is given. It exits exactly when
   * that report was accepted and a poll follows it.
   */
  lemma {:induction false} LoopFromRunning(s: Status, schedule: seq<Event>)
    requires s.currentState == ServiceRunning
    ensures var l := Loop(Shared(s, false), schedule);
      var i := FirstStop(schedule);
      if i == |schedule| then l == LoopEnd(Shared(s, false), [], false)
      else
        && l.after == Shared(StopPendingStatus(s), schedule[i].publishOk)
        && l.reports == [Report(StopPendingStatus(s), schedule[i].publishOk)]
        && (l.exited <==> StopHonoured(schedule))
    decreases |schedule|
  {
    if schedule != [] {
      var tail := schedule[1..];
      if IsStop(schedule[0]) {
        LoopWhenNotRunning(Shared(StopPendingStatus(s), schedule[0].publishOk), tail);
      } else {
        LoopFromRunning(s, tail);
        var i := FirstStop(tail);
        if i < |tail| {
          assert schedule[i + 1 + 1..] == tail[i + 1..];
        }
      }
    }
  }

  /** The first STOP of a schedule stays the first STOP whatever is appended after it. */
  lemma {:induction false} FirstStopOfExtension(schedule: seq<Event>, more: seq<Event>)
    requires FirstStop(schedule) < |schedule|
    ensures FirstStop(schedule + more) == FirstStop(schedule)
    decreases |schedule|
  {
    if !IsStop(schedule[0]) {
      assert (schedule + more)[1..] == schedule[1..] + more;
      FirstStopOfExtension(schedule[1..], more);
    }
  }

  // ---------------------------------------------------------------------------
  // SvcMain

  /** If RegisterServiceCtrlHandler fails, SvcMain returns having published nothing. */
  lemma RegistrationFailurePublishesNothing(h: Host)
    requires !h.registerOk
    ensures Run(h).exit == NoHandle && Run(h).reports == []
  {
  }

  /**
   * A failed SetServiceStatus is always the last call of the run, and a failed
   * START_PENDING or RUNNING publish makes SvcMain return before the run loop.
   */
  lemma FailedPublishEndsRun(h: Host)
    ensures var rs := Run(h).reports;
      forall i :: 0 <= i < |rs| - 1 ==> rs[i].accepted
    ensures h.registerOk && !h.startPublishOk ==>
      Run(h).exit == PublishFailed && Run(h).reports == [Report(InitialStatus(), false)]
    ensures h.registerOk && h.startPublishOk && h.createEventOk && !h.runningPublishOk ==>
      && Run(h).exit == PublishFailed
      && States(Run(h).reports) == [ServiceStartPending, ServiceRunning]
      && !Run(h).reports[1].accepted
  {
    if h.registerOk && h.startPublishOk && h.createEventOk && h.runningPublishOk {
      LoopFromRunning(RunningStatus(InitialStatus()), h.schedule);
    }
  }

  /**
   * If CreateEvent fails, exactly one more report follows START_PENDING: STOPPED
   * with no controls, the last error as exit code and checkpoint 1. RUNNING is
   * never published.
   */
  lemma StopEventFailure(h: Host)
    requires h.registerOk && h.startPublishOk && !h.createEventOk
    ensures Run(h).exit == NoStopEvent
    ensures var rs := Run(h).reports;
      && |rs| == 2
      && rs[0] == Report(InitialStatus(), true)
      && rs[1].status.currentState == ServiceStopped
      && rs[1].status.controlsAccepted == 0
      && rs[1].status.win32ExitCode == h.lastError
      && rs[1].status.checkPoint == 1
      && rs[1].accepted == h.stoppedPublishOk
      && ServiceRunning !in States(rs)
  {
  }

  /**
   * SvcMain reaches its final STOPPED publish exactly when every earlier call
   * succeeded and the first STOP was published and then seen by a poll.
   */
  lemma {:induction false} StopsIff(h: Host)
    ensures Run(h).exit == Stopped <==>
      h.registerOk && h.startPublishOk && h.createEventOk && h.runningPublishOk && StopHonoured(h.schedule)
  {
    if h.registerOk && h.startPublishOk && h.createEventOk && h.runningPublishOk {
      LoopFromRunning(RunningStatus(InitialStatus()), h.schedule);
    }
  }

  /**
   * A run that reaches its final publish reports, in order, START_PENDING
   * (checkpoint 0, wait hint 500), RUNNING (checkpoint 0), STOP_PENDING
   * (checkpoint 4) and STOPPED (checkpoint 3): the checkpoint goes down on the
   * last step. Every exit code is 0 and only RUNNING accepts STOP.
   */
  lemma {:induction false} StoppedRun(h: Host)
    requires Run(h).exit == Stopped
    ensures var rs := Run(h).reports;
      && |rs| == 4
      && States(rs) == [ServiceStartPending, ServiceRunning, ServiceStopPending, ServiceStopped]
      && rs[0].status.checkPoint == 0 && rs[1].status.checkPoint == 0
      && rs[2].status.checkPoint == 4 && rs[3].status.checkPoint == 3
      && rs[3].status.checkPoint < rs[2].status.checkPoint
      && rs[0].status.waitHint == 500
      && rs[0].status.controlsAccepted == 0 && rs[1].status.controlsAccepted == ServiceAcceptStop
      && rs[2].status.controlsAccepted == 0 && rs[3].status.controlsAccepted == 0
      && (forall i :: 0 <= i < 4 ==> rs[i].status.win32ExitCode == NoError)
      && rs[0].accepted && rs[1].accepted && rs[2].accepted
      && rs[3].accepted == h.finalPublishOk
  {
    LoopFromRunning(RunningStatus(InitialStatus()), h.schedule);
    var rs := Run(h).reports;
    assert forall i :: 0 <= i < 4 ==> rs[i].status.win32ExitCode == NoError;
  }

  /**
   * If the first STOP's publish fails, the event is never set and every later
   * STOP is a no-op, so the run loop never exits, however long the schedule grows.
   */
  lemma {:induction false} LostStopNeverEnds(h: Host, more: seq<Event>)
    requires h.registerOk && h.startPublishOk && h.createEventOk && h.runningPublishOk
    requires FirstStop(h.schedule) < |h.schedule| && !h.schedule[FirstStop(h.schedule)].publishOk
    ensures Run(h.(schedule := h.schedule + more)).exit == StillPolling
  {
    var h' := h.(schedule := h.schedule + more);
    FirstStopOfExtension(h.schedule, more);
    StopsIff(h');
    assert h'.schedule[FirstStop(h'.schedule)] == h.schedule[FirstStop(h.schedule)];
    LoopFromRunning(RunningStatus(InitialStatus()), h'.schedule);
  }

  /** Every record SvcMain or the handler sends accepts STOP if and only if its state is RUNNING, and nothing otherwise. */
  lemma {:induction false} ControlsAcceptedOnlyWhileRunning(h: Host)
    ensures forall r :: r in Run(h).reports ==> AcceptsStopOnlyWhileRunning(r.status)
  {
    if h.registerOk && h.startPublishOk && h.createEventOk && h.runningPublishOk {
      LoopFromRunning(RunningStatus(InitialStatus()), h.schedule);
    }
  }

  /**
   * The states sent are, in order, a prefix of START_PENDING, RUNNING,
   * STOP_PENDING, STOPPED, or START_PENDING followed by STOPPED when the stop
   * event could not be created.
   */
  lemma {:induction false} StatesInOrder(h: Host)
    ensures var ss := States(Run(h).reports);
      || ss <= [ServiceStartPending, ServiceRunning, ServiceStopPending, ServiceStopped]
      || ss == [ServiceStartPending, ServiceStopped]
  {
    var rs := Run(h).reports;
    if h.registerOk && h.startPublishOk && h.createEventOk && h.runningPublishOk {
      LoopFromRunning(RunningStatus(InitialStatus()), h.schedule);
      var i := FirstStop(h.schedule);
      if Run(h).exit == Stopped {
        StoppedRun(h);
      } else if i == |h.schedule| {
        assert States(rs) == [ServiceStartPending, ServiceRunning];
      } else {
        assert States(rs) == [ServiceStartPending, ServiceRunning, ServiceStopPending];
      }
    } else if h.registerOk && h.startPublishOk && h.createEventOk {
      assert States(rs) == [ServiceStartPending, ServiceRunning];
    } else if h.registerOk && h.startPublishOk {
      assert States(rs) == [ServiceStartPending, ServiceStopped];
    } else if h.registerOk {
      assert States(rs) == [ServiceStartPending];
    }
  }

  /** The final STOPPED (checkpoint 3) is always sent right after an accepted STOP_PENDING. */
  lemma {:induction false} StoppedFollowsStopPending(h: Host)
    ensures var rs := Run(h).reports;
      forall i :: 0 <= i < |rs| && rs[i].status.currentState == ServiceStopped && rs[i].status.checkPoint == 3 ==>
        0 < i && rs[i - 1].status.currentState == ServiceStopPending && rs[i - 1].accepted
  {
    var rs := Run(h).reports;
    if Run(h).exit == Stopped {
      StoppedRun(h);
      assert forall i :: 0 <= i < |rs| ==> rs[i].status.currentState == States(rs)[i];
    } else if h.registerOk && h.startPublishOk && h.createEventOk && h.runningPublishOk {
      LoopFromRunning(RunningStatus(InitialStatus()), h.schedule);
    }
  }

  /**
   * When SvcMain returns, gSvcStatus holds the last record it sent to the SCM
   * (the START_PENDING record when it sent none), and the stop event is what
   * the return point implies: set after a completed run, NULL when CreateEvent
   * failed, and untouched when SvcMain returned before creating it.
   */
  lemma {:induction false} StateAtReturn(h: Host)
    ensures var r := Run(h);
      && (r.reports == [] ==> r.status == InitialStatus())
      && (r.reports != [] ==> r.status == r.reports[|r.reports| - 1].status)
    ensures var r := Run(h);
      && (r.exit == Stopped ==>
            && r.status.currentState == ServiceStopped && r.status.checkPoint == 3
            && r.status.controlsAccepted == 0 && r.status.win32ExitCode == NoError
            && r.event == Created(true))
      && (r.exit == StillPolling ==>
            && r.event.Created?
            && ((r.status.currentState == ServiceRunning && !r.event.signaled)
                || r.status.currentState == ServiceStopPending))
      && (r.exit == NoStopEvent ==> r.status.currentState == ServiceStopped && r.event == Missing)
      && (r.exit == NoHandle ==> r.event == Untouched)
  {
    if h.registerOk && h.startPublishOk && h.createEventOk && h.runningPublishOk {
      LoopFromRunning(RunningStatus(InitialStatus()), h.schedule);
    }
  }
}
