/** The receiver loop on the traces the sender in src/main.rs:52-65 produces,
    and on an injected spurious wakeup. */
module Scenarios {
  import opened ReadOutcome
  import opened PollLoop
  import opened LoopProperties

  /** "Hello" and ", " coalesced into one read. */
  const HELLO_COMMA: seq<u8> := [72, 101, 108, 108, 111, 44, 32]
  /** "world!" */
  const WORLD: seq<u8> := [119, 111, 114, 108, 100, 33]

  /** The sender writes "Hello" and ", ", pauses, writes "world!" and closes:
      each poll wakes the loop once, and the third read yields zero bytes. The
      loop ends cleanly after three reads, having reported both chunks, with
      or without the workaround and on every target. */
  lemma HelloWorldThenClose(cfg: Config)
    ensures
      var trace: seq<Batch> :=
        [[Event(true, Delivers(HELLO_COMMA))], [Event(true, Delivers(WORLD))], [Event(true, Delivers([]))]];
      Run(Flatten(trace), cfg) == LoopState(Ended(EndOfStream), 3, [HELLO_COMMA, WORLD])
  {
    var trace: seq<Batch> :=
      [[Event(true, Delivers(HELLO_COMMA))], [Event(true, Delivers(WORLD))], [Event(true, Delivers([]))]];
    var hello, world, eof :=
      Event(true, Delivers(HELLO_COMMA)), Event(true, Delivers(WORLD)), Event(true, Delivers([]));
    assert trace == [trace[0]] + ([trace[1]] + ([trace[2]] + []));
    FlattenCons(trace[0], [trace[1]] + [trace[2]]);
    FlattenCons(trace[1], [trace[2]]);
    FlattenCons(trace[2], []);
    assert Flatten([]) == [];
    assert [trace[2]] + [] == [trace[2]];
    assert Flatten(trace) == [hello] + [world] + [eof] + [];
    assert Run([], cfg) == Initial;
    DataKeepsLoopGoing([], HELLO_COMMA, cfg);
    assert [] + [hello] == [hello];
    DataKeepsLoopGoing([hello], WORLD, cfg);
    EofEndsLoop([hello] + [world], [], cfg);
  }

  /** "Hello" */
  const HELLO: seq<u8> := [72, 101, 108, 108, 111]
  /** ", " */
  const COMMA: seq<u8> := [44, 32]

  /** The same writes, with "Hello" and ", " arriving as two reads: the loop
      ends cleanly after four reads, having reported the three chunks in order. */
  lemma HelloCommaWorldThenClose(cfg: Config)
    ensures
      var trace: seq<Batch> :=
        [[Event(true, Delivers(HELLO))], [Event(true, Delivers(COMMA))],
         [Event(true, Delivers(WORLD))], [Event(true, Delivers([]))]];
      Run(Flatten(trace), cfg) == LoopState(Ended(EndOfStream), 4, [HELLO, COMMA, WORLD])
  {
    var trace: seq<Batch> :=
      [[Event(true, Delivers(HELLO))], [Event(true, Delivers(COMMA))],
       [Event(true, Delivers(WORLD))], [Event(true, Delivers([]))]];
    var hello, comma, world, eof :=
      Event(true, Delivers(HELLO)), Event(true, Delivers(COMMA)),
      Event(true, Delivers(WORLD)), Event(true, Delivers([]));
    var tail2: seq<Batch> := [trace[3]];
    var tail1: seq<Batch> := [trace[2]] + tail2;
    var tail0: seq<Batch> := [trace[1]] + tail1;
    assert trace == [trace[0]] + tail0;
    FlattenCons(trace[0], tail0);
    FlattenCons(trace[1], tail1);
    FlattenCons(trace[2], tail2);
    FlattenCons(trace[3], []);
    assert Flatten([]) == [];
    assert [trace[3]] + [] == tail2;
    assert Flatten(trace) == [hello] + [comma] + [world] + [eof] + [];
    assert Run([], cfg) == Initial;
    DataKeepsLoopGoing([], HELLO, cfg);
    assert [] + [hello] == [hello];
    DataKeepsLoopGoing([hello], COMMA, cfg);
    DataKeepsLoopGoing([hello] + [comma], WORLD, cfg);
    EofEndsLoop([hello] + [comma] + [world], [], cfg);
  }

  /** A wakeup whose read fails with `WouldBlock`, followed by a poll that
      delivers "world!". With the workaround on Windows the loop ignores the
      wakeup and reports the data; otherwise it ends at once with a fatal
      `WouldBlock` after a single read. */
  lemma InjectedSpuriousWakeup(cfg: Config)
    ensures
      var trace: seq<Batch> := [[Event(true, Fails(WouldBlock))], [Event(true, Delivers(WORLD))]];
      Run(Flatten(trace), cfg) ==
        if ToleratesSpurious(cfg) then LoopState(Waiting, 2, [WORLD])
        else LoopState(Ended(Fatal(WouldBlock)), 1, [])
  {
    var trace: seq<Batch> := [[Event(true, Fails(WouldBlock))], [Event(true, Delivers(WORLD))]];
    assert trace == [trace[0]] + ([trace[1]] + []);
    FlattenCons(trace[0], [trace[1]]);
    FlattenCons(trace[1], []);
    var spurious := Event(true, Fails(WouldBlock));
    var world := Event(true, Delivers(WORLD));
    assert Flatten(trace) == [spurious] + [world];
    assert Run([], cfg) == Initial;
    SpuriousWakeupPolicy([], cfg);
    assert [] + [spurious] == [spurious];
    if ToleratesSpurious(cfg) {
      DataKeepsLoopGoing([spurious], WORLD, cfg);
    } else {
      StopIsFinal([spurious], [world], cfg);
    }
  }
}
