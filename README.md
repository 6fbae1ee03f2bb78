# Receiver poll-read loop of mio-sample, in Dafny

This project models the receiver side of mio-sample: `client()` in
`src/main.rs`. The receiver registers one non-blocking TCP stream for
level-triggered readable events. It then polls forever, and for each readable
event it does one read into a 64 KiB buffer. The loop stops at a zero-byte
read (end of stream). It reports a non-empty read and goes on. It stops on a
read error, except a `WouldBlock` when the `workaround` feature is enabled and
the target is Windows: that case is a spurious wakeup and is ignored.

The OS side is an input:

- A poll trace is a finite sequence of batches. Each batch holds the events
  of one `poll.poll` call, at most 128 of them (`Events::with_capacity(128)`).
- Each event carries its readable flag and the outcome of the read the loop
  would then issue: the bytes delivered (at most the buffer's 64 KiB, as the
  `Read` trait promises) or an error kind.
- When the trace runs out and the loop has not returned, the loop is still
  waiting. This stands for blocking in `poll.poll(&mut events, None)`.

The files:

- `read_outcome.dfy` (module `ReadOutcome`): the byte type, the buffer
  capacity, `io::Result`, the two compile-time switches and `Classify`, the
  `match` on the read result.
- `poll_loop.dfy` (module `PollLoop`): the events and the loop's observable
  state. `Step` and `Run` are the specification, a left fold of one event's
  handling over the events in order. `Read` models `stream.read(&mut buf)` on
  an `array<u8>`. `Client` is the loop itself: nested `while` loops over the
  batches and their events, reusing one buffer and returning from inside the
  inner loop. It is proved to end in the state `Run` gives for the flattened
  trace.
- `loop_properties.dfy` (module `LoopProperties`): a reference description of
  when the loop ends, written without `Step` (`Stops`, `ExitOf`,
  `ReadableCount`, `DataChunks`), and lemmas that tie `Run` to it.
- `scenarios.dfy` (module `Scenarios`): the loop on the sender's
  "Hello" / ", " / "world!" trace, and on an injected spurious wakeup.

The loop's state counts the reads issued and logs the byte strings reported.
Both stand for what `client()` prints: one "read N bytes" line per reported
read.

## Model

| member | source | states |
|---|---|---|
| `ReadOutcome.Classify` | src/main.rs:27-46 | `Ok(0)`, and only `Ok(0)`, is a clean end of stream. `Ok(len)` with len > 0 is reported with its length and never stops the loop. A `WouldBlock` goes on if and only if the workaround is enabled and the target is Windows. Every other error stops the loop as fatal under any switches and keeps its kind. |
| `PollLoop.Read` | src/main.rs:27 | The read returns the socket's outcome. On success the delivered bytes are at the front of `buf`; on an error `buf` is unchanged. |
| `PollLoop.Client` | src/main.rs:20-49 | The nested poll/event loop with its early returns ends in exactly the state the specification fold `Run` gives for all the trace's events in order. Its slice `buf[..len]` is proved in bounds at every report. |
| `PollLoop.StopIsFinal` | src/main.rs:28-31 | Once the loop has returned, whether by end of stream or by a fatal error, no later event or batch changes its state. Nothing is read past a terminal outcome. |
| `PollLoop.EarlyExit` | src/main.rs:41-44 | A `return` from inside the `for` over one batch ends the whole run: the rest of that batch and all later polls are never handled. |
| `LoopProperties.QuietRunKeepsWaiting` | src/main.rs:21-49 | On a trace where no event stops the loop, the loop is still waiting. It has read once per readable event and reported every non-empty chunk, in order. |
| `LoopProperties.FirstStopDecides` | src/main.rs:24-47 | Events are handled in order and the first stopping event decides the exit: end of stream for a zero-byte read, fatal with its kind for an error. Reads then equal the readable events up to and including that one. The reported data is exactly that of the readable events before it. |
| `LoopProperties.EndedIffSomeEventStops` | src/main.rs:21-49 | The loop has exactly two exits. It has returned if and only if some event of the trace stops it. |
| `LoopProperties.StillWaitingReadEveryReadable` | src/main.rs:21-27 | When the loop ends the trace still waiting, it has issued one read per readable event and reported every delivered chunk. |
| `LoopProperties.ReportedReadsFitBuffer` | src/main.rs:32-34 | Every reported read length satisfies 0 < len <= 65536, the buffer's capacity. |
| `LoopProperties.NotReadableChangesNothing` | src/main.rs:26 | An event that is not readable causes no read and leaves the loop's state unchanged. |
| `LoopProperties.DataKeepsLoopGoing` | src/main.rs:32-35 | A read of len > 0 bytes, under any switches, counts one read, appends the bytes to what was reported and leaves the loop waiting for the next event. |
| `LoopProperties.EofEndsLoop` | src/main.rs:28-31 | A zero-byte read ends the loop with a clean end of stream after one more read, reports nothing, and no later event or batch is handled. |
| `LoopProperties.SpuriousWakeupPolicy` | src/main.rs:36-44 | A readable event whose read fails with `WouldBlock` leaves the loop waiting if and only if the workaround is on and the target is Windows. In that case it costs one read and reports nothing. Otherwise it ends the loop as a fatal `WouldBlock`. |
| `LoopProperties.OtherErrorIsFatal` | src/main.rs:41-44 | A read error of any kind other than `WouldBlock` ends the loop as fatal with that kind, under any switches. No later event or batch is handled. |
| `Scenarios.HelloWorldThenClose` | src/main.rs:57-64 | For the sender's writes "Hello, " (coalesced) and "world!", then close: the loop ends cleanly after three reads, having reported both chunks in order, under any switches. |
| `Scenarios.HelloCommaWorldThenClose` | src/main.rs:57-64 | For the same writes with "Hello" and ", " arriving as two reads: the loop ends cleanly after four reads, having reported the three chunks in order, under any switches. |
| `Scenarios.InjectedSpuriousWakeup` | src/main.rs:37-44 | A spurious `WouldBlock` followed by "world!": with the workaround on Windows the loop reports "world!" and keeps waiting after two reads. Otherwise it stops as a fatal `WouldBlock` after one read. |

## Left out

- `server()` (src/main.rs:52-65) and `main()` (src/main.rs:67-71): thread spawning, fixed sleeps and TCP writes. They only appear as the traces of `Scenarios.HelloWorldThenClose` and `Scenarios.HelloCommaWorldThenClose`.
- The setup in src/main.rs:11-18 (`TcpStream::connect`, `Poll::new`, `register` with level-triggered options) is foreign library code. Its effect is the given trace, and its `.unwrap()` panics are not modelled.
- Level-triggered readiness is not modelled as a relation between events and the bytes pending on the socket. The trace is an arbitrary input, so the properties hold for every trace the OS could produce.
- A failing `poll.poll(&mut events, None).unwrap()` (src/main.rs:22) panics, a third way out of `client()` that is not modelled: every poll yields its batch. "Exactly two exits" means the two `return`s at src/main.rs:30 and src/main.rs:43.
- Blocking forever in `poll.poll(&mut events, None)` is represented by the finite trace running out, with the loop in the `Waiting` phase.
- The event's token (`Token(0)`) and its readiness flags other than readable are not modelled; the loop ignores them.
- Error kinds other than `WouldBlock` are one constructor with a number, and error messages are not modelled.
- `String::from_utf8_lossy` and all `println!` output are display only. The model records the reported byte strings and the number of reads instead of the printed text.
