/**
 * The status-polling worker (`spawn_worker_thread`) as a sequential state
 * machine: each step takes the probe's outcome and whether the non-blocking
 * lock attempt of a flush would succeed.
 */
module Worker {
  import opened Base
  import opened Probe
  import opened Tracker
  import opened LogBuffer

  const KB: nat := 1024

  /** The running byte count at which the worker attempts a flush. */
  const DumpThreshold: nat := 5 * KB

  /** The bytes a step appends to the buffer. */
  function Appended(msg: Option<Message>): string {
    Flatten(AsSeq(msg))
  }

  class PingWorker {
    var lastStatus: Status
    // Bytes appended since the last flush attempt (`messages_length`).
    var counter: nat
    const log: SharedLog

    ghost predicate Valid()
      reads this, log
    {
      log.Valid() && counter < DumpThreshold
    }

    /** The worker's state before its first poll: the link is assumed up. */
    constructor (log: SharedLog)
      requires log.Valid()
      ensures Valid() && this.log == log
      ensures lastStatus == Up && counter == 0
    {
      lastStatus := Up;
      counter := 0;
      this.log := log;
    }

    /**
     * One iteration of the worker's loop: map the probe to a status, append the
     * message for (last, current) if there is one, remember the current status,
     * and attempt a flush once the counter reaches the threshold, resetting the
     * counter whatever the flush's outcome.
     */
    method Step<O, E>(probe: Result<O, E>, lockAcquired: bool)
      requires Valid()
      modifies this, log
      ensures Valid() && counter < DumpThreshold
      ensures lastStatus == FromResult(probe)
      ensures var msg := Transition(old(lastStatus), lastStatus);
              var grown := old(counter) + |Appended(msg)|;
              var buffered := old(log.buffer) + Appended(msg);
              if grown >= DumpThreshold then
                && counter == 0
                && (lockAcquired ==> log.sink == old(log.sink) + buffered && log.buffer == [])
                && (!lockAcquired ==> log.sink == old(log.sink) && log.buffer == buffered)
              else
                counter == grown && log.sink == old(log.sink) && log.buffer == buffered
      ensures old(lastStatus) == Down && lastStatus == Down ==>
                counter == old(counter) && log.buffer == old(log.buffer) && log.sink == old(log.sink)
      ensures old(log.sink) <= log.sink
      ensures log.logged + log.pending == old(log.logged + log.pending) + AsSeq(Transition(old(lastStatus), lastStatus))
    {
      var cur := FromResult(probe);
      Record(cur);
      DumpIfDue(lockAcquired);
    }

    /** The transition match and `last_status = cur_status`: append the pair's message, if any, and count its bytes. */
    method Record(cur: Status)
      requires Valid()
      modifies this, log
      ensures log.Valid()
      ensures lastStatus == cur
      ensures var msg := Transition(old(lastStatus), cur);
              && counter == old(counter) + |Appended(msg)|
              && log.buffer == old(log.buffer) + Appended(msg)
              && log.sink == old(log.sink)
              && log.logged == old(log.logged)
              && log.pending == old(log.pending) + AsSeq(msg)
    {
      var msg := Transition(lastStatus, cur);
      match msg {
        case Some(m) =>
          assert Appended(msg) == Text(m);
          log.Append(m);
          counter := counter + |Text(m)|;
        case None =>
      }
      lastStatus := cur;
    }

    /** The threshold check: once the counter reaches it, attempt a flush and reset the counter either way. */
    method DumpIfDue(lockAcquired: bool)
      requires log.Valid()
      modifies this, log
      ensures Valid()
      ensures lastStatus == old(lastStatus)
      ensures old(counter) >= DumpThreshold ==>
                && counter == 0
                && (lockAcquired ==> log.sink == old(log.sink) + old(log.buffer) && log.buffer == [])
                && (!lockAcquired ==> log.sink == old(log.sink) && log.buffer == old(log.buffer))
      ensures old(counter) < DumpThreshold ==>
                counter == old(counter) && log.sink == old(log.sink) && log.buffer == old(log.buffer)
      ensures old(log.sink) <= log.sink
      ensures log.logged + log.pending == old(log.logged) + old(log.pending)
    {
      if counter >= DumpThreshold {
        log.TryDump(lockAcquired);
        counter := 0;
      }
    }
  }

  /** One more poll of the worker's loop, on the message history that precedes the run. */
  lemma EmittedPrefixStep(before: seq<Message>, start: Status, ss: seq<Status>, i: nat)
    requires i < |ss|
    ensures (before + Emitted(start, ss[..i])) + AsSeq(Transition(Final(start, ss[..i]), ss[i])) == before + Emitted(start, ss[..i + 1])
    ensures Final(start, ss[..i + 1]) == ss[i]
  {
    assert ss[..i + 1] == ss[..i] + [ss[i]];
    EmittedSnoc(start, ss[..i], ss[i]);
  }

  /**
   * A finite prefix of the worker's endless loop: one step per probe outcome,
   * with the matching lock outcome for any flush that step attempts.
   */
  method RunWorker<O, E>(w: PingWorker, probes: seq<Result<O, E>>, locks: seq<bool>)
    requires w.Valid()
    requires |locks| == |probes|
    modifies w, w.log
    ensures w.Valid()
    ensures w.lastStatus == Final(old(w.lastStatus), Statuses(probes))
    ensures w.log.logged + w.log.pending == old(w.log.logged + w.log.pending) + Emitted(old(w.lastStatus), Statuses(probes))
    ensures old(w.log.sink) <= w.log.sink
  {
    ghost var start := w.lastStatus;
    ghost var ss := Statuses(probes);
    ghost var before := w.log.logged + w.log.pending;
    for i := 0 to |probes|
      invariant w.Valid()
      invariant w.lastStatus == Final(start, ss[..i])
      invariant w.log.logged + w.log.pending == before + Emitted(start, ss[..i])
      invariant old(w.log.sink) <= w.log.sink
    {
      w.Step(probes[i], locks[i]);
      EmittedPrefixStep(before, start, ss, i);
    }
    assert ss[..|probes|] == ss;
  }
}
