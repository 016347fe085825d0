/**
 * The shared message buffer (`Arc<Mutex<Vec<u8>>>`) and the append-only log
 * file it is flushed into (`try_dump_messages`).
 */
module LogBuffer {
  import opened Base
  import opened Tracker

  /** The bytes of a sequence of whole messages, one after another. */
  function Flatten(ms: seq<Message>): string
    decreases |ms|
  {
    if ms == [] then [] else Text(ms[0]) + Flatten(ms[1..])
  }

  lemma {:induction false} FlattenAppend(a: seq<Message>, b: seq<Message>)
    ensures Flatten(a + b) == Flatten(a) + Flatten(b)
    decreases |a|
  {
    if a == [] {
      assert a + b == b;
    } else {
      assert (a + b)[1..] == a[1..] + b;
      FlattenAppend(a[1..], b);
    }
  }

  /** Appending the bytes of more messages after some prefix `e`. */
  lemma FlattenAfter(e: string, a: seq<Message>, b: seq<Message>)
    ensures (e + Flatten(a)) + Flatten(b) == e + Flatten(a + b)
  {
    FlattenAppend(a, b);
  }

  /** A concatenation of whole messages is empty or ends with a newline. */
  lemma {:induction false} FlattenEndsWithNewline(ms: seq<Message>)
    ensures Flatten(ms) == [] || Flatten(ms)[|Flatten(ms)| - 1] == Newline
    decreases |ms|
  {
    if ms != [] {
      FlattenEndsWithNewline(ms[1..]);
      if Flatten(ms[1..]) == [] {
        assert Flatten(ms) == Text(ms[0]);
      }
    }
  }

  /** The message whose line starts `b`, if any (there is at most one, by TextPrefixFree). */
  ghost function Leading(b: string): (r: Option<Message>)
    ensures r.Some? ==> Text(r.value) <= b
    ensures r.None? ==> forall m: Message :: !(Text(m) <= b)
  {
    if exists m: Message :: Text(m) <= b then
      var m: Message :| Text(m) <= b; Some(m)
    else
      None
  }

  /** Splits bytes back into the whole messages they are made of; `None` when they are not. */
  ghost function Decode(b: string): Option<seq<Message>>
    decreases |b|
  {
    if b == [] then Some([])
    else match Leading(b)
      case None => None
      case Some(m) =>
        match Decode(b[|Text(m)|..])
        case None => None
        case Some(ms) => Some([m] + ms)
  }

  /** Whole messages decode to themselves. */
  lemma {:induction false} DecodeFlatten(ms: seq<Message>)
    ensures Decode(Flatten(ms)) == Some(ms)
    decreases |ms|
  {
    if ms != [] {
      var b := Flatten(ms);
      var m := Leading(b).value;
      TextPrefixFree(m, ms[0], Flatten(ms[1..]));
      assert b[|Text(m)|..] == Flatten(ms[1..]);
      DecodeFlatten(ms[1..]);
      assert [ms[0]] + ms[1..] == ms;
    }
  }

  /** A non-empty text that decodes starts with a whole message, and the rest decodes too. */
  lemma DecodeCons(b: string) returns (m: Message, rest: seq<Message>)
    requires b != [] && Decode(b).Some?
    ensures Text(m) <= b
    ensures Decode(b[|Text(m)|..]) == Some(rest)
    ensures Decode(b) == Some([m] + rest)
  {
    m := Leading(b).value;
    rest := Decode(b[|Text(m)|..]).value;
  }

  /** Whatever decodes is exactly the bytes of the messages it decodes to. */
  lemma {:induction false} DecodeSound(b: string, ms: seq<Message>)
    requires Decode(b) == Some(ms)
    ensures Flatten(ms) == b
    decreases |b|
  {
    if b != [] {
      var m, rest := DecodeCons(b);
      DecodeSound(b[|Text(m)|..], rest);
      FlattenCons(m, rest, b);
    }
  }

  /** A message in front of the messages that make up the rest of `b`. */
  lemma FlattenCons(m: Message, rest: seq<Message>, b: string)
    requires Text(m) <= b && Flatten(rest) == b[|Text(m)|..]
    ensures Flatten([m] + rest) == b
  {
    assert ([m] + rest)[1..] == rest;
    PrefixThenRest(Text(m), b);
  }

  lemma PrefixThenRest(t: string, b: string)
    requires t <= b
    ensures t + b[|t|..] == b
  {
  }

  /**
   * The buffer shared by the worker and the tray event handler, and the
   * contents of the log file. The file may already hold `existing` bytes when
   * the program starts; it is opened for appending only.
   */
  class SharedLog {
    var buffer: string
    var sink: string
    ghost const existing: string
    // The messages in the buffer, and the messages flushed to the file so far.
    ghost var pending: seq<Message>
    ghost var logged: seq<Message>

    ghost predicate Valid()
      reads this
    {
      && buffer == Flatten(pending)
      && sink == existing + Flatten(logged)
    }

    /** An empty buffer over a log file that holds `existing`. */
    constructor (existing: string)
      ensures Valid()
      ensures buffer == [] && sink == existing
      ensures this.existing == existing && pending == [] && logged == []
    {
      buffer := [];
      sink := existing;
      this.existing := existing;
      pending := [];
      logged := [];
    }

    /** One locked `extend_from_slice` of a message's bytes. */
    method Append(m: Message)
      requires Valid()
      modifies this
      ensures Valid()
      ensures buffer == old(buffer) + Text(m) && sink == old(sink)
      ensures pending == old(pending) + [m] && logged == old(logged)
    {
      FlattenAppend(pending, [m]);
      assert Flatten([m]) == Text(m);
      buffer := buffer + Text(m);
      pending := pending + [m];
    }

    /**
     * `try_dump_messages`: when the non-blocking lock attempt succeeds, the
     * whole buffer is written to the end of the file and the buffer is cleared;
     * otherwise nothing changes.
     */
    method TryDump(lockAcquired: bool)
      requires Valid()
      modifies this
      ensures Valid()
      ensures lockAcquired ==> sink == old(sink) + old(buffer) && buffer == []
      ensures !lockAcquired ==> sink == old(sink) && buffer == old(buffer)
      ensures old(sink) <= sink
      ensures logged + pending == old(logged) + old(pending)
    {
      if lockAcquired {
        FlattenAfter(existing, logged, pending);
        sink := sink + buffer;
        buffer := [];
        logged := logged + pending;
        pending := [];
      }
    }
  }

  /**
   * The buffer is always a concatenation of whole messages, so it is empty or
   * ends with a newline; the bytes appended to the file since startup are too.
   */
  lemma WholeMessages(log: SharedLog)
    requires log.Valid()
    ensures Decode(log.buffer) == Some(log.pending)
    ensures log.buffer == [] || log.buffer[|log.buffer| - 1] == Newline
    ensures log.existing <= log.sink
    ensures Decode(log.sink[|log.existing|..]) == Some(log.logged)
  {
    DecodeFlatten(log.pending);
    FlattenEndsWithNewline(log.pending);
    assert log.sink[|log.existing|..] == Flatten(log.logged);
    DecodeFlatten(log.logged);
  }

  /** The file followed by the buffer holds every byte handed to the log, in order. */
  lemma Conserved(log: SharedLog)
    requires log.Valid()
    ensures log.sink + log.buffer == log.existing + Flatten(log.logged + log.pending)
  {
    FlattenAfter(log.existing, log.logged, log.pending);
  }
}
