# ping-logger: the status-polling worker and its log buffer

ping-logger is a small tray utility. A background worker pings a public
address every 30 seconds and turns each outcome into a status, `Up` or `Down`.
For each pair (previous status, current status) the worker logs zero or one
fixed line into a shared in-memory buffer. The buffer is flushed into an
append-only log file in two cases: the worker attempts a flush once the bytes
it has appended since its last attempt reach 5 KiB, and the tray's
"Open log file" action flushes before it opens the file. A flush runs only if
a non-blocking lock attempt succeeds. The worker resets its byte counter after
every attempt, whether or not the lock was obtained.

The model treats the worker as a sequential state machine:

- `base.dfy` (`Base`) holds `Option` and `Result`.
- `probe.dfy` (`Probe`) holds `Status` and the conversion from a probe's `Result`.
- `tracker.dfy` (`Tracker`) holds the three messages and the transition table.
  It also defines `Emitted`, the messages a whole run of polls produces, with lemmas about it.
- `log_buffer.dfy` (`LogBuffer`) holds the class `SharedLog`.
  - Its fields are the buffer and the file contents (`sink`).
  - Its methods are `Append` (the worker's locked `extend_from_slice`) and `TryDump` (`try_dump_messages`).
  - `Decode` splits text back into whole messages.
- `worker.dfy` (`Worker`) holds the class `PingWorker`, with fields `lastStatus`, `counter` and `log`.
  - `Step` runs one body of the worker's loop.
  - `RunWorker` runs a finite prefix of that loop.
- `tray_events.dfy` (`TrayEvents`) holds the dispatch of the tray's user events.

Inputs replace the side effects. The ping's result is a `Result<O, E>`
parameter of `Step`. Whether `try_lock` would succeed is a `bool` parameter
of `TryDump`, `Step` and `HandleUserEvent`.

Two ghost fields record the message structure. `SharedLog.pending` lists the
messages in the buffer, and `SharedLog.logged` lists the messages written to
the file so far. The object invariant `Valid()` says two things:
- the buffer is exactly the text of `pending`;
- the file is its bytes at startup (`existing`) followed by the text of `logged`.

Every method keeps this invariant. Each method also states how `logged + pending`
grows: only the worker's step adds to it, and flushes only move messages from
the buffer to the file.

The buffer is modelled as a `string`, not as bytes. All three messages are
ASCII (`Tracker.SentenceIsPlain`), so each character is one byte of
`message.as_bytes()`, and `|Text(m)|` is the source's `message.len()`.

Two consequences of the transition table:
- Polls of `[Up, Up, Down, Down, Up]` from the initial `Up` log four lines: "All good" twice, the failure line, then the recovery line (`Tracker.SampleRun`).
- While the link stays up, every poll logs "All good", so every pair except (Down, Down) produces a message.

## Model

| member | source | states |
|---|---|---|
| `Probe.FromResult` | src/main.rs:39-46 | a probe result gives `Up` exactly when it is `Ok`, and `Down` exactly when it is `Err`; no other status exists |
| `Probe.Statuses` | src/main.rs:97-105 | reading a run of probe results gives one status per probe, `Up` exactly at the successful ones |
| `Tracker.SentenceIsPlain` | src/main.rs:110-122 | every message sentence is ASCII and has no newline |
| `Tracker.Text` | src/main.rs:110-122 | every appended message is non-empty, ends in a newline and is ASCII |
| `Tracker.TextIsOneLine` | src/main.rs:110-122 | a message's only newline is its last character |
| `Tracker.TextLengths` | src/main.rs:110-124 | the counter grows by 37, 30 and 9 bytes for the three messages |
| `Tracker.TextInjective` | src/main.rs:110-122 | distinct messages have distinct texts |
| `Tracker.TextPrefixFree` | src/main.rs:110-122 | a message's text begins another message's text followed by anything only when the two messages are the same |
| `Tracker.Transition` | src/main.rs:107-127 | no message exactly for (Down, Down); otherwise the message announces the current status and announces a change exactly when the status changed |
| `Tracker.TransitionUnique` | src/main.rs:107-127 | those three properties determine the table completely |
| `Tracker.Emitted` | src/main.rs:96-129 | the messages a run of polls logs, in order: each poll contributes the table's message for (status before it, its status) |
| `Tracker.EmittedSnoc` | src/main.rs:96-129 | one more poll appends that poll's message, if any, after the earlier ones, and the pair it uses is (status after the earlier polls, new status) |
| `Tracker.EmittedBound` | src/main.rs:107-127 | at most one message per poll, and exactly one per poll while the link stays up from `Up` |
| `Tracker.EmittedReportsPolled` | src/main.rs:107-129 | every logged message announces a status that some poll actually returned |
| `Tracker.StillDownIsSilent` | src/main.rs:126-129 | starting from `Down`, any number of failing polls logs nothing |
| `Tracker.FailureLoggedOnce` | src/main.rs:92-129 | starting from `Up`, n >= 1 failing polls log exactly one failure line |
| `Tracker.StillUpLogsEveryPoll` | src/main.rs:120-129 | starting from `Up`, n successful polls log "All good" n times |
| `Tracker.OutageThenRecovery` | src/main.rs:107-129 | starting from `Up`, an outage of any length and then a successful poll log exactly the failure line and then the recovery line |
| `Tracker.SampleRun` | src/main.rs:92-129 | the polls Up, Up, Down, Down, Up from the initial state log "All good" twice, then the failure line, then the recovery line |
| `LogBuffer.FlattenAppend` | src/main.rs:111-123 | the text of two message lists one after the other is the text of the concatenated list |
| `LogBuffer.FlattenEndsWithNewline` | src/main.rs:110-122 | a concatenation of whole messages is empty or ends with a newline |
| `LogBuffer.DecodeFlatten` | src/main.rs:107-127 | a concatenation of whole messages decodes back to exactly those messages |
| `LogBuffer.DecodeSound` | src/main.rs:107-127 | whatever decodes is exactly the text of the messages it decodes to |
| `LogBuffer.SharedLog.Valid` | src/main.rs:218-221 | the buffer is exactly the text of the pending messages (created empty at line 54, extended at line 111, cleared at line 220), and the file is its startup contents followed by the text of the flushed messages (written at line 219) |
| `LogBuffer.SharedLog.constructor` | src/main.rs:54 | the shared buffer starts empty, over a log file that keeps its existing contents |
| `LogBuffer.SharedLog.Append` | src/main.rs:109-111 | appending a message adds exactly its text at the end of the buffer; the file is unchanged |
| `LogBuffer.SharedLog.TryDump` | src/main.rs:214-222 | when the lock is taken, the file becomes the old file followed by the old buffer, and the buffer becomes empty; otherwise nothing changes; the old file is always a prefix of the new one |
| `LogBuffer.WholeMessages` | src/main.rs:107-127 | the buffer, and everything written to the file since startup, decode to whole messages; the buffer is empty or ends in a newline; the startup contents of the file stay a prefix |
| `LogBuffer.Conserved` | src/main.rs:214-222 | the file followed by the buffer is the startup contents followed by every message handed to the log, in order |
| `Worker.PingWorker.constructor` | src/main.rs:92-95 | the worker starts with last status `Up` and counter 0 |
| `Worker.PingWorker.Step` | src/main.rs:96-139 | the new last status is the probe's status, whether or not a message was logged. The pair's message, if any, is appended and counted. If the counter reaches 5120, a flush is attempted and the counter becomes 0 whatever the lock outcome; otherwise no flush happens. (Down, Down) changes no buffer, counter or file. The counter always ends below 5120, and the file only grows |
| `Worker.PingWorker.Record` | src/main.rs:107-129 | the transition match and `last_status = cur_status`: the buffer and counter grow by exactly the pair's message |
| `Worker.PingWorker.DumpIfDue` | src/main.rs:131-138 | at or above the threshold, one flush attempt and a reset counter; below it, nothing changes |
| `Worker.RunWorker` | src/main.rs:96-141 | after a run of polls, the last status is the last poll's status and the messages handed to the log are extended by exactly `Emitted` of the run; the file only grows |
| `TrayEvents.HandleUserEvent` | src/main.rs:157-177 | `OpenLog` makes one flush attempt; `Exit` sets the control flow to `Exit`, every other event leaves it `Wait`; `ClickTrayIcon` changes nothing |

## Left out

- The ping to 8.8.8.8 (src/main.rs:97-105) is network I/O. Its result is a parameter of `Step`.
- `thread::spawn`, `thread::sleep` and the `Arc<Mutex<_>>` are concurrency. The model is sequential: whether `try_lock` succeeds is a parameter, and the worker and UI threads are not interleaved within a step.
- There is no relation between the counter and the buffer length, because none holds: the UI thread can clear the buffer without touching the counter, and a failed flush resets the counter but keeps the buffer.
- The tray icon, the invisible window, the winit event loop and the icon bytes (src/main.rs:68-87, 145-166) are GUI plumbing over external crates. This includes the window's `CloseRequested` event.
- Log path resolution and file creation (src/main.rs:183-212) are filesystem and library calls. The file is modelled only as append-only text, with arbitrary contents at startup.
- `open::that` and the `unwrap()` panics on a failed open or write (src/main.rs:171, 215, 219) are foreign calls and error paths the model cannot observe. The model's flushes always write successfully.
- `main` (src/main.rs:48-66) only wires these pieces together. `RunWorker` models a finite prefix of the worker's endless loop.
- `Worker.RunWorker`: the byte-level form, "file followed by buffer grows by the text of the emitted messages", is not in its contract. It follows from the message-level contract together with `LogBuffer.Conserved` and `LogBuffer.FlattenAppend`.
- The messages are modelled as characters, which are bytes here because every message is ASCII. Non-ASCII text and UTF-8 encoding are not modelled.
