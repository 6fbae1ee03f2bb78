/** The values the receiver's poll-read loop works on, and the decision it
    takes on the outcome of one non-blocking read (src/main.rs:20, 27-46). */
module ReadOutcome {

  /** Rust's `u8`. */
  newtype u8 = x: int | 0 <= x < 0x100

  /** The receiver's read buffer, `[0; 0x10000]`, holds 64 KiB. */
  const BUF_CAPACITY: nat := 0x10000

  /** What one read can hand back. The `Read` trait promises that a read into
      `buf` returns at most `buf.len()` bytes, so a chunk never exceeds the buffer. */
  type Chunk = s: seq<u8> | |s| <= BUF_CAPACITY

  /** The kind of an I/O error. Only `WouldBlock` is told apart by the loop;
      every other `std::io::ErrorKind` is an `Other`, identified by a number. */
  datatype ErrorKind = WouldBlock | Other(code: nat)

  /** Rust's `io::Result<usize>`, as returned by `stream.read(&mut buf)`. */
  datatype IoResult = Ok(n: nat) | Err(kind: ErrorKind)

  /** The two compile-time switches the loop consults:
      `cfg!(feature = "workaround")` and `cfg!(windows)`. */
  datatype Config = Config(workaround: bool, windows: bool)

  /** A `WouldBlock` after a readable event is a spurious wakeup to be ignored
      only when the workaround feature is enabled on Windows. */
  predicate ToleratesSpurious(cfg: Config)
  {
    cfg.workaround && cfg.windows
  }

  /** What the loop does with one read outcome. */
  datatype Action =
    | Report(len: nat)      // `Ok(len)`, len > 0: print the bytes, go on
    | IgnoreSpurious        // tolerated `WouldBlock`: go on
    | StopEof               // `Ok(0)`: return, the stream is over
    | StopError(kind: ErrorKind)  // any other error: return
  {
    /** The two actions that leave the loop. */
    predicate Stops()
    {
      StopEof? || StopError?
    }
  }

  /** The `match stream.read(&mut buf)` of src/main.rs:27-46. */
  function Classify(r: IoResult, cfg: Config): (a: Action)
    // zero bytes, and only zero bytes, is a clean end of stream
    ensures a == StopEof <==> r == Ok(0)
    // bytes read are reported with their count and never stop the loop
    ensures a.Report? <==> r.Ok? && r.n > 0
    ensures a.Report? ==> a.len == r.n
    // a WouldBlock goes on exactly when the workaround is on and the target is Windows
    ensures r == Err(WouldBlock) ==> (!a.Stops() <==> ToleratesSpurious(cfg))
    ensures a == IgnoreSpurious <==> r == Err(WouldBlock) && ToleratesSpurious(cfg)
    // every other error is fatal whatever the switches, and carries its kind
    ensures r.Err? && r.kind != WouldBlock ==> a == StopError(r.kind)
    ensures a.StopError? ==> r == Err(a.kind)
  {
    match r
    case Ok(n) =>
      if n == 0 then StopEof else Report(n)
    case Err(kind) =>
      if ToleratesSpurious(cfg) && kind == WouldBlock then IgnoreSpurious
      else StopError(kind)
  }
}
