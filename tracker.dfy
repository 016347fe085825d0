/**
 * The status tracker of the worker loop: the fixed log messages and the table
 * that maps a pair (previous status, current status) to zero or one of them.
 */
module Tracker {
  import opened Base
  import opened Probe

  /** The three lines the worker can log. */
  datatype Message = CameBackUp | BeShiddin | AllGood

  /** The character that ends every logged line. */
  const Newline: char := '\n'

  /** A message's sentence, without its line terminator. */
  function Sentence(m: Message): string {
    match m
    case CameBackUp => "Shitternet came back up, hallelujah!"
    case BeShiddin => "Shitternet be shiddin (fard)!"
    case AllGood => "All good"
  }

  /** The status a message announces. */
  function Reports(m: Message): Status {
    match m
    case CameBackUp => Up
    case BeShiddin => Down
    case AllGood => Up
  }

  /** Whether a message announces a change of status. */
  predicate AnnouncesChange(m: Message) {
    m != AllGood
  }

  /** Every sentence is plain ASCII on one line. */
  lemma SentenceIsPlain(m: Message)
    ensures forall c | c in Sentence(m) :: c as int < 128 && c != Newline
  {
  }

  /**
   * What is appended to the buffer for a message: its sentence and a newline.
   * Every character is ASCII, so each is one byte of `message.as_bytes()`.
   */
  function Text(m: Message): (t: string)
    ensures 0 < |t| && t[|t| - 1] == Newline
    ensures forall c | c in t :: c as int < 128
  {
    SentenceIsPlain(m);
    Sentence(m) + [Newline]
  }

  /** Every message is exactly one line: its only newline is its last character. */
  lemma TextIsOneLine(m: Message)
    ensures forall i | 0 <= i < |Text(m)| - 1 :: Text(m)[i] != Newline
  {
  }

  /** The byte lengths the worker adds to its counter (`message.len()`). */
  lemma TextLengths()
    ensures |Text(CameBackUp)| == 37
    ensures |Text(BeShiddin)| == 30
    ensures |Text(AllGood)| == 9
  {
  }

  /** Distinct messages have distinct texts. */
  lemma TextInjective(m1: Message, m2: Message)
    requires Text(m1) == Text(m2)
    ensures m1 == m2
  {
  }

  /**
   * No message's text begins another message followed by anything:
   * each message is the shortest prefix that ends at a newline.
   */
  lemma {:induction false} TextPrefixFree(m1: Message, m2: Message, rest: string)
    requires Text(m1) <= Text(m2) + rest
    ensures m1 == m2
  {
    var t1, t2 := Text(m1), Text(m2);
    var b := t2 + rest;
    TextIsOneLine(m1);
    TextIsOneLine(m2);
    // Both lines agree up to the end of the shorter one, where that one has its newline.
    var k := if |t1| <= |t2| then |t1| - 1 else |t2| - 1;
    assert t1[k] == b[k] == t2[k];
    assert |t1| == |t2|;
    assert t1 == b[..|t1|] == t2;
    TextInjective(m1, m2);
  }

  /**
   * The transition table of the worker loop. A message is produced unless the
   * link stays down; the message announces the current status, and whether the
   * status changed.
   */
  function Transition(last: Status, cur: Status): (r: Option<Message>)
    ensures r.None? <==> (last == Down && cur == Down)
    ensures r.Some? ==> Reports(r.value) == cur
    ensures r.Some? ==> (AnnouncesChange(r.value) <==> last != cur)
  {
    match (last, cur)
    case (Down, Up) => Some(CameBackUp)
    case (Up, Down) => Some(BeShiddin)
    case (Up, Up) => Some(AllGood)
    case (Down, Down) => None
  }

  /** The transition table has exactly one answer per pair: the properties of Transition determine it. */
  lemma TransitionUnique(last: Status, cur: Status, r: Option<Message>)
    requires r.None? <==> (last == Down && cur == Down)
    requires r.Some? ==> Reports(r.value) == cur
    requires r.Some? ==> (AnnouncesChange(r.value) <==> last != cur)
    ensures r == Transition(last, cur)
  {
  }

  /** Zero or one messages as a sequence. */
  function AsSeq(o: Option<Message>): seq<Message> {
    if o.Some? then [o.value] else []
  }

  /** The status after polling `ss`, starting from `last`. */
  function Final(last: Status, ss: seq<Status>): Status {
    if ss == [] then last else ss[|ss| - 1]
  }

  /** The messages the worker produces, in order, for the polled statuses `ss`, starting from `last`. */
  function Emitted(last: Status, ss: seq<Status>): (ms: seq<Message>)
    decreases |ss|
  {
    if ss == [] then [] else AsSeq(Transition(last, ss[0])) + Emitted(ss[0], ss[1..])
  }

  /** Polling one more status appends that poll's message, if any, at the end. */
  lemma {:induction false} EmittedSnoc(last: Status, ss: seq<Status>, s: Status)
    ensures Emitted(last, ss + [s]) == Emitted(last, ss) + AsSeq(Transition(Final(last, ss), s))
    decreases |ss|
  {
    if ss != [] {
      assert (ss + [s])[1..] == ss[1..] + [s];
      EmittedSnoc(ss[0], ss[1..], s);
      assert Final(ss[0], ss[1..]) == Final(last, ss);
    }
  }

  /** At most one message per poll; exactly one per poll while the link stays up. */
  lemma {:induction false} EmittedBound(last: Status, ss: seq<Status>)
    ensures |Emitted(last, ss)| <= |ss|
    ensures last == Up && (forall i | 0 <= i < |ss| :: ss[i] == Up) ==> |Emitted(last, ss)| == |ss|
    decreases |ss|
  {
    if ss != [] {
      EmittedBound(ss[0], ss[1..]);
    }
  }

  /** Every emitted message announces a status that some poll returned. */
  lemma {:induction false} EmittedReportsPolled(last: Status, ss: seq<Status>)
    ensures forall m | m in Emitted(last, ss) :: Reports(m) in ss
    decreases |ss|
  {
    if ss != [] {
      EmittedReportsPolled(ss[0], ss[1..]);
      assert forall m | m in Emitted(ss[0], ss[1..]) :: Reports(m) in ss by {
        forall m | m in Emitted(ss[0], ss[1..]) ensures Reports(m) in ss {
          assert Reports(m) in ss[1..];
        }
      }
    }
  }

  /** `n` polls of one status. */
  function Repeat(s: Status, n: nat): (ss: seq<Status>)
    ensures |ss| == n
    ensures forall i | 0 <= i < n :: ss[i] == s
  {
    seq(n, _ => s)
  }

  /** While the link stays down, nothing is logged. */
  lemma {:induction false} StillDownIsSilent(n: nat)
    ensures Emitted(Down, Repeat(Down, n)) == []
  {
    if n > 0 {
      assert Repeat(Down, n)[1..] == Repeat(Down, n - 1);
      StillDownIsSilent(n - 1);
    }
  }

  /** Starting from `Up`, `n` failing probes log exactly one failure message, on the first of them. */
  lemma FailureLoggedOnce(n: nat)
    requires n >= 1
    ensures Emitted(Up, Repeat(Down, n)) == [BeShiddin]
  {
    assert Repeat(Down, n)[1..] == Repeat(Down, n - 1);
    StillDownIsSilent(n - 1);
  }

  /** While the link stays up, every poll logs "All good". */
  lemma {:induction false} StillUpLogsEveryPoll(n: nat)
    ensures Emitted(Up, Repeat(Up, n)) == seq(n, _ => AllGood)
  {
    if n > 0 {
      assert Repeat(Up, n)[1..] == Repeat(Up, n - 1);
      StillUpLogsEveryPoll(n - 1);
      assert seq(n, _ => AllGood) == [AllGood] + seq(n - 1, _ => AllGood);
    }
  }

  /** An outage of any length followed by recovery logs one failure line and one recovery line. */
  lemma OutageThenRecovery(n: nat)
    requires n >= 1
    ensures Emitted(Up, Repeat(Down, n) + [Up]) == [BeShiddin, CameBackUp]
  {
    FailureLoggedOnce(n);
    EmittedSnoc(Up, Repeat(Down, n), Up);
  }

  /** The poll sequence Up, Up, Down, Down, Up from the initial `Up`. */
  lemma SampleRun()
    ensures Emitted(Up, [Up, Up, Down, Down, Up]) == [AllGood, AllGood, BeShiddin, CameBackUp]
  {
  }
}
