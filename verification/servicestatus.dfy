/**
 * The vocabulary shared by the service and the Service Control Manager (SCM):
 * 32-bit DWORD values, the Win32 constants main.c uses, the SERVICE_STATUS
 * record it publishes, and one entry of the log of publish calls.
 */
module ServiceStatus {

  /** An unsigned 32-bit Win32 DWORD. */
  type DWord = x: int | 0 <= x < 0x1_0000_0000

  // dwServiceType
  const ServiceWin32OwnProcess: DWord := 0x10

  // dwCurrentState
  const ServiceStopped: DWord := 1
  const ServiceStartPending: DWord := 2
  const ServiceStopPending: DWord := 3
  const ServiceRunning: DWord := 4

  // dwControlsAccepted
  const ServiceAcceptStop: DWord := 1

  // control codes delivered to the handler
  const ServiceControlStop: DWord := 1

  // dwWin32ExitCode / dwServiceSpecificExitCode
  const NoError: DWord := 0

  /** A snapshot of SERVICE_STATUS, the record handed to SetServiceStatus. */
  datatype Status = Status(
    serviceType: DWord,
    currentState: DWord,
    controlsAccepted: DWord,
    win32ExitCode: DWord,
    serviceSpecificExitCode: DWord,
    checkPoint: DWord,
    waitHint: DWord)

  /** One SetServiceStatus call: the record sent and whether the SCM accepted it. */
  datatype Report = Report(status: Status, accepted: bool)

  /** The states carried by a sequence of reports, in call order. */
  function States(rs: seq<Report>): seq<DWord>
  {
    seq(|rs|, i requires 0 <= i < |rs| => rs[i].status.currentState)
  }

  /** The states of calls made one after the other are the states of the first calls, then of the later ones. */
  lemma StatesOfConcat(a: seq<Report>, b: seq<Report>)
    ensures States(a + b) == States(a) + States(b)
  {
    assert |States(a + b)| == |States(a) + States(b)|;
    forall i | 0 <= i < |a| + |b|
      ensures States(a + b)[i] == (States(a) + States(b))[i]
    {
    }
  }

  /**
   * The rule the service keeps for every record it sends: STOP is accepted
   * exactly while the state is RUNNING, and otherwise no control is accepted.
   */
  predicate AcceptsStopOnlyWhileRunning(s: Status)
  {
    s.controlsAccepted == if s.currentState == ServiceRunning then ServiceAcceptStop else 0
  }
}
