/** The user events the tray icon sends to the UI event loop (`start_event_loop`). */
module TrayEvents {
  import opened LogBuffer

  datatype Events = ClickTrayIcon | OpenLog | Exit

  /** What the event loop does after handling an event: keep waiting, or stop. */
  datatype ControlFlow = Wait | Exit

  /**
   * Handling of one `Event::UserEvent`. The control flow is first set to
   * `Wait`; "Open log file" attempts a flush (before the file is handed to the
   * platform's viewer), "Exit" stops the loop, a click does nothing.
   */
  method HandleUserEvent(log: SharedLog, e: Events, lockAcquired: bool) returns (flow: ControlFlow)
    requires log.Valid()
    modifies log
    ensures log.Valid()
    ensures flow == if e == Events.Exit then ControlFlow.Exit else Wait
    ensures e == OpenLog && lockAcquired ==> log.sink == old(log.sink) + old(log.buffer) && log.buffer == []
    ensures !(e == OpenLog && lockAcquired) ==> log.sink == old(log.sink) && log.buffer == old(log.buffer)
    ensures log.logged + log.pending == old(log.logged) + old(log.pending)
  {
    flow := Wait;
    match e {
      case OpenLog =>
        log.TryDump(lockAcquired);
      case Exit =>
        flow := ControlFlow.Exit;
      case ClickTrayIcon =>
    }
  }
}
