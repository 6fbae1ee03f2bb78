/** What the receiver loop guarantees, stated against a reference description
    written without the loop's step function: the loop ends at the first event
    that stops it, and nowhere else. */
module LoopProperties {
  import opened ReadOutcome
  import opened PollLoop

  /** An event that makes the loop return: a readable event whose read yields
      zero bytes, or an error other than a tolerated spurious `WouldBlock`. */
  predicate Stops(e: Event, cfg: Config)
  {
    e.readable &&
    match e.read
    case Delivers(data) => data == []
    case Fails(kind) => !(kind == WouldBlock && ToleratesSpurious(cfg))
  }

  /** The exit a stopping event takes. */
  function ExitOf(e: Event): (x: Exit)
  {
    match e.read
    case Delivers(_) => EndOfStream
    case Fails(kind) => Fatal(kind)
  }

  /** How many of `evs` are readable, i.e. how many reads they cause. */
  function ReadableCount(evs: seq<Event>): (n: nat)
  {
    if evs == [] then 0
    else ReadableCount(evs[..|evs| - 1]) + (if evs[|evs| - 1].readable then 1 else 0)
  }

  /** The non-empty byte strings the readable events of `evs` deliver, in order. */
  function DataChunks(evs: seq<Event>): (chunks: seq<seq<u8>>)
  {
    if evs == [] then []
    else
      var e := evs[|evs| - 1];
      DataChunks(evs[..|evs| - 1]) +
        (if e.readable && e.read.Delivers? && e.read.data != [] then [e.read.data] else [])
  }

  /** On a trace none of whose events stops the loop, the loop is still
      waiting, has read once per readable event and reported every chunk. */
  lemma {:induction false} QuietRunKeepsWaiting(evs: seq<Event>, cfg: Config)
    requires forall k | 0 <= k < |evs| :: !Stops(evs[k], cfg)
    ensures Run(evs, cfg) == LoopState(Waiting, ReadableCount(evs), DataChunks(evs))
    decreases |evs|
  {
    if evs != [] {
      var p, e := evs[..|evs| - 1], evs[|evs| - 1];
      assert forall k | 0 <= k < |p| :: p[k] == evs[k];
      QuietRunKeepsWaiting(p, cfg);
      assert evs == p + [e];
      RunSnoc(p, e, cfg);
    }
  }

  /** A quiet prefix followed by a stopping event: the loop returns there. */
  lemma QuietThenStop(p: seq<Event>, e: Event, cfg: Config)
    requires forall k | 0 <= k < |p| :: !Stops(p[k], cfg)
    requires Stops(e, cfg)
    ensures Run(p + [e], cfg) ==
      LoopState(Ended(ExitOf(e)), ReadableCount(p + [e]), DataChunks(p))
  {
    QuietRunKeepsWaiting(p, cfg);
    RunSnoc(p, e, cfg);
    assert (p + [e])[..|p|] == p;
  }

  /** The first event that stops the loop decides how it ends; it has then
      read exactly once per readable event up to and including that one, and
      reported the data of the events before it. */
  lemma FirstStopDecides(evs: seq<Event>, k: nat, cfg: Config)
    requires k < |evs| && Stops(evs[k], cfg)
    requires forall j | 0 <= j < k :: !Stops(evs[j], cfg)
    ensures Run(evs, cfg) ==
      LoopState(Ended(ExitOf(evs[k])), ReadableCount(evs[..k + 1]), DataChunks(evs[..k]))
  {
    var p, done := evs[..k], evs[..k + 1];
    forall j | 0 <= j < |p|
      ensures !Stops(p[j], cfg)
    {
      assert p[j] == evs[j];
    }
    assert done == p + [evs[k]];
    QuietThenStop(p, evs[k], cfg);
    StopIsFinalPrefix(evs, k + 1, cfg);
  }

  /** The loop has exactly two exits: it has returned if and only if some
      event stops it. */
  lemma {:induction false} EndedIffSomeEventStops(evs: seq<Event>, cfg: Config)
    ensures Run(evs, cfg).phase.Ended? <==> exists k | 0 <= k < |evs| :: Stops(evs[k], cfg)
    decreases |evs|
  {
    if evs != [] {
      var p, e := evs[..|evs| - 1], evs[|evs| - 1];
      EndedIffSomeEventStops(p, cfg);
      assert evs == p + [e];
      RunSnoc(p, e, cfg);
      if exists k | 0 <= k < |p| :: Stops(p[k], cfg) {
        var k :| 0 <= k < |p| && Stops(p[k], cfg);
        assert evs[k] == p[k];
      }
      if exists k | 0 <= k < |evs| :: Stops(evs[k], cfg) {
        var k :| 0 <= k < |evs| && Stops(evs[k], cfg);
        if k < |p| {
          assert p[k] == evs[k];
        }
      }
    }
  }

  /** On a trace that ends with the loop still waiting, every readable event
      has been read once and every delivered chunk reported. */
  lemma {:induction false} StillWaitingReadEveryReadable(evs: seq<Event>, cfg: Config)
    requires Run(evs, cfg).phase.Waiting?
    ensures Run(evs, cfg).readCount == ReadableCount(evs)
    ensures Run(evs, cfg).reported == DataChunks(evs)
  {
    EndedIffSomeEventStops(evs, cfg);
    QuietRunKeepsWaiting(evs, cfg);
  }

  /** Every reported read is non-empty and fits the 64 KiB buffer, so the
      slice `buf[..len]` it was taken from is in bounds. */
  lemma {:induction false} ReportedReadsFitBuffer(evs: seq<Event>, cfg: Config)
    ensures forall c | c in Run(evs, cfg).reported :: 0 < |c| <= BUF_CAPACITY
    decreases |evs|
  {
    if evs != [] {
      var p, e := evs[..|evs| - 1], evs[|evs| - 1];
      ReportedReadsFitBuffer(p, cfg);
      assert evs == p + [e];
      RunSnoc(p, e, cfg);
    }
  }

  /** An event that is not readable causes no read and changes nothing. */
  lemma NotReadableChangesNothing(p: seq<Event>, e: Event, cfg: Config)
    requires !e.readable
    ensures Run(p + [e], cfg) == Run(p, cfg)
  {
    RunSnoc(p, e, cfg);
  }

  /** A read of len > 0 bytes is reported and the loop goes on, whatever the
      switches. */
  lemma DataKeepsLoopGoing(p: seq<Event>, data: Chunk, cfg: Config)
    requires Run(p, cfg).phase.Waiting?
    requires data != []
    ensures Run(p + [Event(true, Delivers(data))], cfg) ==
      LoopState(Waiting, Run(p, cfg).readCount + 1, Run(p, cfg).reported + [data])
  {
    RunSnoc(p, Event(true, Delivers(data)), cfg);
  }

  /** A read of zero bytes ends the loop cleanly, and no later event or batch
      is handled. */
  lemma EofEndsLoop(p: seq<Event>, later: seq<Event>, cfg: Config)
    requires Run(p, cfg).phase.Waiting?
    ensures Run(p + [Event(true, Delivers([]))] + later, cfg) ==
      LoopState(Ended(EndOfStream), Run(p, cfg).readCount + 1, Run(p, cfg).reported)
  {
    RunSnoc(p, Event(true, Delivers([])), cfg);
    StopIsFinal(p + [Event(true, Delivers([]))], later, cfg);
  }

  /** A `WouldBlock` after a readable event lets the loop go on, with one more
      read and nothing reported, if and only if the workaround is on and the
      target is Windows; otherwise the loop ends with a fatal `WouldBlock`. */
  lemma SpuriousWakeupPolicy(p: seq<Event>, cfg: Config)
    requires Run(p, cfg).phase.Waiting?
    ensures ToleratesSpurious(cfg) ==>
      (Run(p + [Event(true, Fails(WouldBlock))], cfg) ==
         LoopState(Waiting, Run(p, cfg).readCount + 1, Run(p, cfg).reported))
    ensures !ToleratesSpurious(cfg) ==>
      (Run(p + [Event(true, Fails(WouldBlock))], cfg) ==
         LoopState(Ended(Fatal(WouldBlock)), Run(p, cfg).readCount + 1, Run(p, cfg).reported))
  {
    RunSnoc(p, Event(true, Fails(WouldBlock)), cfg);
  }

  /** An error of any kind but `WouldBlock` ends the loop as fatal whatever the
      switches, and no later event or batch is handled. */
  lemma OtherErrorIsFatal(p: seq<Event>, code: nat, later: seq<Event>, cfg: Config)
    requires Run(p, cfg).phase.Waiting?
    ensures Run(p + [Event(true, Fails(Other(code)))] + later, cfg) ==
      LoopState(Ended(Fatal(Other(code))), Run(p, cfg).readCount + 1, Run(p, cfg).reported)
  {
    RunSnoc(p, Event(true, Fails(Other(code))), cfg);
    StopIsFinal(p + [Event(true, Fails(Other(code)))], later, cfg);
  }
}
