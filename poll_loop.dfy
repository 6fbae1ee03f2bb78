/** The receiver's poll-read loop, `client()` at src/main.rs:20-49.

    The event-notification facility and the socket are inputs: a poll trace is
    the finite sequence of event batches successive `poll.poll` calls return,
    and each event carries what a read would hand back at that moment. When the
    trace runs out without the loop having returned, the loop is still waiting,
    which stands for blocking in `poll.poll(&mut events, None)` forever. */
module PollLoop {
  import opened ReadOutcome

  /** `Events::with_capacity(128)`: one poll fills at most 128 events. */
  const EVENTS_CAPACITY: nat := 128

  /** What the socket hands back to a read issued when the event is handled. */
  datatype SocketRead = Delivers(data: Chunk) | Fails(kind: ErrorKind)

  /** One readiness event: whether it reports the stream readable, and the
      outcome of the read the loop would then perform. */
  datatype Event = Event(readable: bool, read: SocketRead)

  /** The events one `poll.poll` call leaves in `events`. */
  type Batch = s: seq<Event> | |s| <= EVENTS_CAPACITY

  /** How the loop has ended so far: its two exits, or not at all. */
  datatype Exit = EndOfStream | Fatal(kind: ErrorKind)
  datatype Phase = Waiting | Ended(exit: Exit)

  /** The observable state of the loop: whether it has returned, how many reads
      it has issued, and the byte strings it has reported (in order). */
  datatype LoopState = LoopState(phase: Phase, readCount: nat, reported: seq<seq<u8>>)

  const Initial := LoopState(Waiting, 0, [])

  /** The `io::Result` that `stream.read` returns for a socket outcome. */
  function ResultOf(s: SocketRead): (r: IoResult)
    // the `Read` trait's promise: a read never returns more than the buffer holds
    ensures r.Ok? ==> r.n <= BUF_CAPACITY
  {
    match s
    case Delivers(data) => Ok(|data|)
    case Fails(kind) => Err(kind)
  }

  /** Handling one event (the body of `for event in &events`). A loop that has
      returned handles nothing more; an event that is not readable causes no read. */
  function Step(s: LoopState, e: Event, cfg: Config): (s': LoopState)
  {
    if s.phase.Ended? || !e.readable then s
    else
      match Classify(ResultOf(e.read), cfg)
      case Report(_) => LoopState(Waiting, s.readCount + 1, s.reported + [e.read.data])
      case IgnoreSpurious => LoopState(Waiting, s.readCount + 1, s.reported)
      case StopEof => LoopState(Ended(EndOfStream), s.readCount + 1, s.reported)
      case StopError(kind) => LoopState(Ended(Fatal(kind)), s.readCount + 1, s.reported)
  }

  /** The state after handling `evs` in order, from the start of the loop. */
  function Run(evs: seq<Event>, cfg: Config): (s: LoopState)
  {
    if evs == [] then Initial
    else Step(Run(evs[..|evs| - 1], cfg), evs[|evs| - 1], cfg)
  }

  /** All events of a poll trace, batch after batch. */
  function Flatten(trace: seq<Batch>): (evs: seq<Event>)
  {
    if trace == [] then []
    else Flatten(trace[..|trace| - 1]) + trace[|trace| - 1]
  }

  lemma RunSnoc(p: seq<Event>, e: Event, cfg: Config)
    ensures Run(p + [e], cfg) == Step(Run(p, cfg), e, cfg)
  {
    assert (p + [e])[..|p|] == p;
  }

  /** Once the loop has returned, no later event changes anything: nothing is
      read past a terminal outcome. */
  lemma {:induction false} StopIsFinal(p: seq<Event>, q: seq<Event>, cfg: Config)
    requires Run(p, cfg).phase.Ended?
    ensures Run(p + q, cfg) == Run(p, cfg)
    decreases |q|
  {
    if q == [] {
      assert p + q == p;
    } else {
      var q' := q[..|q| - 1];
      StopIsFinal(p, q', cfg);
      assert p + q == (p + q') + [q[|q| - 1]];
      RunSnoc(p + q', q[|q| - 1], cfg);
    }
  }

  /** The same, for a run that has returned within a prefix of the events. */
  lemma StopIsFinalPrefix(evs: seq<Event>, n: nat, cfg: Config)
    requires n <= |evs| && Run(evs[..n], cfg).phase.Ended?
    ensures Run(evs, cfg) == Run(evs[..n], cfg)
  {
    assert evs == evs[..n] + evs[n..];
    StopIsFinal(evs[..n], evs[n..], cfg);
  }

  lemma {:induction false} FlattenAppend(t1: seq<Batch>, t2: seq<Batch>)
    ensures Flatten(t1 + t2) == Flatten(t1) + Flatten(t2)
    decreases |t2|
  {
    if t2 == [] {
      assert t1 + t2 == t1;
    } else {
      var t2' := t2[..|t2| - 1];
      FlattenAppend(t1, t2');
      assert (t1 + t2)[..|t1 + t2| - 1] == t1 + t2';
      assert t2[..|t2| - 1] == t2';
    }
  }

  lemma FlattenSnoc(trace: seq<Batch>, b: nat)
    requires b < |trace|
    ensures Flatten(trace[..b + 1]) == Flatten(trace[..b]) + trace[b]
  {
    assert trace[..b + 1][..b] == trace[..b];
  }

  lemma FlattenCons(x: Batch, rest: seq<Batch>)
    ensures Flatten([x] + rest) == x + Flatten(rest)
  {
    FlattenAppend([x], rest);
    assert [x][..0] == [];
  }

  /** The events of a trace split around the `i`-th event of batch `b`. */
  lemma FlattenAround(trace: seq<Batch>, b: nat, i: nat)
    requires b < |trace| && i < |trace[b]|
    ensures Flatten(trace) ==
      (Flatten(trace[..b]) + trace[b][..i + 1]) + (trace[b][i + 1..] + Flatten(trace[b + 1..]))
  {
    assert trace == trace[..b] + ([trace[b]] + trace[b + 1..]);
    FlattenAppend(trace[..b], [trace[b]] + trace[b + 1..]);
    FlattenCons(trace[b], trace[b + 1..]);
    assert trace[b] == trace[b][..i + 1] + trace[b][i + 1..];
  }

  /** Returning from inside the `for` over a batch ends the whole run. */
  lemma EarlyExit(trace: seq<Batch>, b: nat, i: nat, cfg: Config)
    requires b < |trace| && i < |trace[b]|
    requires Run(Flatten(trace[..b]) + trace[b][..i + 1], cfg).phase.Ended?
    ensures Run(Flatten(trace), cfg) == Run(Flatten(trace[..b]) + trace[b][..i + 1], cfg)
  {
    FlattenAround(trace, b, i);
    StopIsFinal(Flatten(trace[..b]) + trace[b][..i + 1], trace[b][i + 1..] + Flatten(trace[b + 1..]), cfg);
  }

  /** `stream.read(&mut buf)`: the socket's bytes land at the front of `buf`
      and their count is returned, or the error is returned and `buf` keeps
      its contents. */
  method Read(buf: array<u8>, s: SocketRead) returns (r: IoResult)
    requires buf.Length == BUF_CAPACITY
    modifies buf
    ensures r == ResultOf(s)
    ensures s.Delivers? ==> buf[..|s.data|] == s.data
    ensures s.Fails? ==> buf[..] == old(buf[..])
  {
    match s
    case Delivers(data) =>
      forall k | 0 <= k < |data| {
        buf[k] := data[k];
      }
      r := Ok(|data|);
    case Fails(kind) =>
      r := Err(kind);
  }

  /** `client()` from the first `poll.poll` on: poll, handle each event of the
      batch in order, return on end of stream or on a fatal error. */
  method Client(trace: seq<Batch>, cfg: Config) returns (outcome: LoopState)
    ensures outcome == Run(Flatten(trace), cfg)
  {
    var buf := new u8[BUF_CAPACITY](_ => 0);
    var readCount: nat := 0;
    var reported: seq<seq<u8>> := [];
    var b := 0;
    while b < |trace|
      invariant 0 <= b <= |trace|
      invariant Run(Flatten(trace[..b]), cfg) == LoopState(Waiting, readCount, reported)
    {
      var events := trace[b];  // poll.poll(&mut events, None)
      ghost var polled := Flatten(trace[..b]);
      var i := 0;
      assert polled + events[..i] == polled;
      while i < |events|
        invariant 0 <= i <= |events|
        invariant Run(polled + events[..i], cfg) == LoopState(Waiting, readCount, reported)
      {
        var event := events[i];
        assert (polled + events[..i]) + [event] == polled + events[..i + 1];
        RunSnoc(polled + events[..i], event, cfg);
        if event.readable {
          var r := Read(buf, event.read);
          readCount := readCount + 1;
          match Classify(r, cfg)
          case Report(len) =>
            reported := reported + [buf[..len]];
          case IgnoreSpurious =>
          case StopEof =>
            outcome := LoopState(Ended(EndOfStream), readCount, reported);
            EarlyExit(trace, b, i, cfg);
            return;
          case StopError(kind) =>
            outcome := LoopState(Ended(Fatal(kind)), readCount, reported);
            EarlyExit(trace, b, i, cfg);
            return;
        }
        i := i + 1;
      }
      assert events[..i] == events;
      FlattenSnoc(trace, b);
      b := b + 1;
    }
    assert trace[..b] == trace;
    outcome := LoopState(Waiting, readCount, reported);
  }
}
