/** The message that tailing loses: on any ring whose last statement wrapped without writing, a reader
    before the last message fails 1024 times and then gives it up. At the end a concrete run, from a
    new ring to an output that is no prefix of what was written. */
module GiveUp {
  import opened Bytes
  import opened Codes
  import opened Records
  import opened RingState
  import opened RingReader
  import opened Recovery
  import opened Tailing
  import opened TailStart
  import opened BlindSpot

  // --------------------------------------------------------------- single polls

  /** A poll with a clock later than every message. */
  lemma {:induction false} LateClock(reg: Registry, y: System, curTsc: nat)
    requires InStep(reg, y) && ClockAfter(y.h.All(), curTsc)
    ensures Guarded(reg, y, Read(curTsc))
    ensures y.Place() < |y.h.All()| ==> (Passes(y.h, y.Place(), curTsc) <==> !Stuck(y.h, y.Place()))
  {
    hide Increasing, Kept, Stuck, TailInv, RingInv, ClockAfter;
    IncreasingIn(reg, y);
    RingOf(reg, y.r, y.h, y.s, y.Place());
    ReadyOf(reg, y.r, y.h);
    var n, all := y.Place(), y.h.All();
    if y.seen > 0 {
      ClockAfterEach(y.h, curTsc, y.seen - 1);
    }
    if n < |all| {
      ClockAfterEach(y.h, curTsc, n);
    }
    if n + 1 < |all| {
      ClockAfterEach(y.h, curTsc, n + 1);
    }
  }

  lemma {:induction false} ReadPrints(reg: Registry, y: System, curTsc: nat)
    requires InStep(reg, y) && ClockAfter(y.h.All(), curTsc) && y.Place() < |y.h.All()| && !Stuck(y.h, y.Place())
    ensures Guarded(reg, y, Read(curTsc))
    ensures var z := Do(reg, y, Read(curTsc));
      && InStep(reg, z) && z.r == y.r && z.h == y.h && z.lost == y.lost && z.s.corruption == 0
      && z.out == y.out + [y.h.All()[y.Place()]]
  {
    hide TailInv, Poll, Kept, Passes, ClockAfter;
    LateClock(reg, y, curTsc);
    ReadInStep(reg, y, curTsc);
    PollStep(reg, y.r, y.h, y.s, y.Place(), curTsc);
  }

  /** The state after `n` failed polls. */
  function Waited(y: System, n: nat): System {
    if n == 0 then y else y.(s := y.s.(corruption := y.s.corruption + n), seen := |y.h.All()|)
  }

  lemma {:induction false} ReadWaits(reg: Registry, y: System, curTsc: nat)
    requires InStep(reg, y) && ClockAfter(y.h.All(), curTsc) && Stuck(y.h, y.Place()) && y.s.corruption < THRESHOLD
    ensures Guarded(reg, y, Read(curTsc)) && Do(reg, y, Read(curTsc)) == Waited(y, 1)
    ensures InStep(reg, Do(reg, y, Read(curTsc)))
  {
    hide TailInv, Poll, Kept, Stuck, Passes, ClockAfter;
    StuckPlace(y);
    LateClock(reg, y, curTsc);
    ReadInStep(reg, y, curTsc);
    PollStep(reg, y.r, y.h, y.s, y.Place(), curTsc);
  }

  lemma {:induction false} StuckFails(y: System, curTsc: nat)
    requires Stuck(y.h, y.Place())
    ensures y.Place() < |y.h.All()| && !Passes(y.h, y.Place(), curTsc)
  {
    StuckPlace(y);
  }

  lemma {:induction false} StuckPlace(y: System)
    requires Stuck(y.h, y.Place())
    ensures y.Place() + 1 == |y.h.All()|
  {
  }

  // ---------------------------------------------------------------- polls in a row

  lemma {:induction false} RunSnoc(reg: Registry, y: System, acts: seq<Action>, a: Action)
    requires GuardedRun(reg, y, acts) && Guarded(reg, Runs(reg, y, acts), a)
    ensures GuardedRun(reg, y, acts + [a]) && Runs(reg, y, acts + [a]) == Do(reg, Runs(reg, y, acts), a)
    decreases |acts|
  {
    hide Guarded, Do;
    if acts == [] {
      assert acts + [a] == [a] && [a][1..] == [];
      assert Guarded(reg, y, a);
    } else {
      assert (acts + [a])[1..] == acts[1..] + [a];
      RunReady(reg, y, acts[0]);
      RunSnoc(reg, Do(reg, y, acts[0]), acts[1..], a);
    }
  }

  lemma {:induction false} RunReady(reg: Registry, y: System, a: Action)
    requires Guarded(reg, y, a)
    ensures y.r.Ready() && (a.Write? && a.e.Trace? ==> Size(a.e.rec) <= MAX_RECORD)
  {
  }

  function Polls(n: nat, curTsc: nat): (acts: seq<Action>)
    ensures |acts| == n
  {
    if n == 0 then [] else Polls(n - 1, curTsc) + [Read(curTsc)]
  }

  /** A stuck reader waits for 1024 polls. */
  lemma {:induction false} PollsWait(reg: Registry, y: System, curTsc: nat, n: nat)
    requires InStep(reg, y) && ClockAfter(y.h.All(), curTsc) && Stuck(y.h, y.Place())
    requires y.s.corruption + n <= THRESHOLD
    ensures GuardedRun(reg, y, Polls(n, curTsc))
    ensures Runs(reg, y, Polls(n, curTsc)) == Waited(y, n)
    ensures InStep(reg, Waited(y, n))
    decreases n
  {
    hide InStep, Stuck, Do, ClockAfter;
    if n > 0 {
      PollsWait(reg, y, curTsc, n - 1);
      var z := Runs(reg, y, Polls(n - 1, curTsc));
      ReadWaits(reg, z, curTsc);
      RunSnoc(reg, y, Polls(n - 1, curTsc), Read(curTsc));
    }
  }

  /** The state is reached on every ring that a disabled statement has wrapped: a reader that
      `fastforward` has put there gives up at the 1025th poll unless something is written before. */
  lemma {:induction false} WrappedGivesUp(reg: Registry, r: Ring, h: History, curTsc: nat, failures: nat)
    requires RingInv(reg, r, h) && h.cur == [] && h.prev != [] && ClockAfter(h.All(), curTsc)
    requires failures == THRESHOLD
    ensures r.Ready()
    ensures var y := System(r, h, FastForward(r.m, reg, Fresh(r), true), h.All()[..|h.All()| - 1], [], 0);
      && InStep(reg, y) && GuardedRun(reg, y, Polls(failures, curTsc))
      && GivesUp(Runs(reg, y, Polls(failures, curTsc)), Read(curTsc))
  {
    hide RingInv, InStep, SkipAll, Do, ClockAfter, Passes;
    ReadyOf(reg, r, h);
    FastForwardInStep(reg, r, h);
    SkipKeepsCount(r.m, reg, Fresh(r));
    var y := System(r, h, FastForward(r.m, reg, Fresh(r), true), h.All()[..|h.All()| - 1], [], 0);
    PollsWait(reg, y, curTsc, failures);
    StuckFails(Waited(y, failures), curTsc);
  }

  // ------------------------------------------------------------ a concrete run

  const CLOCK: nat := 100

  /** The first `n` messages, each polled for after it is written. */
  function Followed(n: nat): seq<Action> {
    if n == 0 then [] else Followed(n - 1) + [Write(Event.Trace(Line(n)))] + [Read(CLOCK)]
  }

  /** A new ring of the smallest size and a new reader. */
  function Begin(m: seq<byte>): System
    requires |m| == MIN_RING
  {
    System(BufIs(m, 0, MIN_RING), History([], [], []), NewReader(0, MIN_RING), [], [], 0)
  }

  /** Where the run is: what is written, what is printed, where the writer is. */
  ghost predicate IsAt(y: System, h: History, out: seq<Rec>, lost: seq<nat>, ptr: nat) {
    && InStep(REG, y) && y.r.Ready() && y.h == h && y.out == out && y.lost == lost
    && y.r.base == 0 && y.r.bufEnd == MIN_RING - TRAILER && y.r.ptr == ptr
  }

  /** An enabled message that does not wrap, while the reader is not in the previous lap. */
  lemma {:induction false} WriteLine(y: System, h: History, out: seq<Rec>, lost: seq<nat>, ptr: nat, rec: Rec)
    requires IsAt(y, h, out, lost, ptr) && RecOk(REG, rec) && ptr < MIN_RING - TRAILER
    requires |out| + |lost| >= Base(h) && (h.All() != [] ==> h.All()[|h.All()| - 1].tsc < rec.tsc)
    ensures Guarded(REG, y, Write(Event.Trace(rec)))
    ensures IsAt(Do(REG, y, Write(Event.Trace(rec))), h.(cur := h.cur + [rec]), out, lost, ptr + Size(rec))
    ensures Do(REG, y, Write(Event.Trace(rec))).s == y.s
  {
    hide InStep, WriteMsg, Fits;
    StepPtr(y.r, rec);
    WriteInStep(REG, y, Event.Trace(rec));
  }

  lemma {:induction false} LineTsc(k: nat)
    ensures Line(k).tsc == k
  {
  }

  /** A poll that prints the next message. */
  lemma {:induction false} PollLine(y: System, h: History, out: seq<Rec>, lost: seq<nat>, ptr: nat)
    requires IsAt(y, h, out, lost, ptr) && |out| + |lost| < |h.All()| && h.cur != []
    requires h.All()[|h.All()| - 1].tsc < CLOCK
    ensures Guarded(REG, y, Read(CLOCK))
    ensures var z := Do(REG, y, Read(CLOCK));
      IsAt(z, h, out + [h.All()[|out| + |lost|]], lost, ptr) && z.s.corruption == 0
  {
    hide InStep, Do;
    ReadPrints(REG, y, CLOCK);
  }

  /** One message and the poll that prints it. */
  lemma {:induction false} FollowOne(y: System, n: nat)
    requires n < 3 && IsAt(y, History([], [], Lines(0, n)), Lines(0, n), [], HEADER + 249 * n)
    ensures Guarded(REG, y, Write(Event.Trace(Line(n + 1))))
    ensures Guarded(REG, Do(REG, y, Write(Event.Trace(Line(n + 1)))), Read(CLOCK))
    ensures var z := Do(REG, Do(REG, y, Write(Event.Trace(Line(n + 1)))), Read(CLOCK));
      IsAt(z, History([], [], Lines(0, n + 1)), Lines(0, n + 1), [], HEADER + 249 * (n + 1)) && z.s.corruption == 0
  {
    hide InStep, Do, Guarded, Line, IsAt;
    LineOk(n + 1);
    LineTsc(n + 1);
    LinesIncreasing(n);
    NoOld(Lines(0, n));
    NoOld(Lines(0, n + 1));
    WriteLine(y, History([], [], Lines(0, n)), Lines(0, n), [], HEADER + 249 * n, Line(n + 1));
    RunReady(REG, y, Write(Event.Trace(Line(n + 1))));
    var y' := Do(REG, y, Write(Event.Trace(Line(n + 1))));
    PollLine(y', History([], [], Lines(0, n + 1)), Lines(0, n), [], HEADER + 249 * (n + 1));
  }

  lemma {:induction false} FollowedRun(m: seq<byte>, n: nat)
    requires |m| == MIN_RING && n <= 3
    ensures GuardedRun(REG, Begin(m), Followed(n))
    ensures var y := Runs(REG, Begin(m), Followed(n));
      IsAt(y, History([], [], Lines(0, n)), Lines(0, n), [], HEADER + 249 * n) && y.s.corruption == 0
  {
    hide InStep, Do, Guarded, Line, Lines, Begin, IsAt;
    if n == 0 {
      StartIsAt(m);
    } else {
      FollowedRun(m, n - 1);
      var y0 := Begin(m);
      FollowOne(Runs(REG, y0, Followed(n - 1)), n - 1);
      RunSnoc(REG, y0, Followed(n - 1), Write(Event.Trace(Line(n))));
      RunSnoc(REG, y0, Followed(n - 1) + [Write(Event.Trace(Line(n)))], Read(CLOCK));
    }
  }

  lemma {:induction false} NoOld(cur: seq<Rec>)
    ensures History([], [], cur).All() == cur
  {
  }

  lemma {:induction false} StartIsAt(m: seq<byte>)
    requires |m| == MIN_RING
    ensures Lines(0, 0) == [] && IsAt(Begin(m), History([], [], []), [], [], HEADER)
    ensures Begin(m).s.corruption == 0
  {
    hide InStep, BufIs;
    FreshInStep(REG, m, 0, MIN_RING);
  }

  lemma {:induction false} RunConcat(reg: Registry, y: System, a: seq<Action>, b: seq<Action>)
    requires GuardedRun(reg, y, a) && GuardedRun(reg, Runs(reg, y, a), b)
    ensures GuardedRun(reg, y, a + b) && Runs(reg, y, a + b) == Runs(reg, Runs(reg, y, a), b)
    decreases |a|
  {
    hide Guarded, Do;
    if a == [] {
      assert a + b == b;
    } else {
      assert (a + b)[1..] == a[1..] + b;
      RunReady(reg, y, a[0]);
      RunConcat(reg, Do(reg, y, a[0]), a[1..], b);
    }
  }

  /** A disabled message that wraps. */
  lemma {:induction false} WriteOff(y: System, h: History, out: seq<Rec>, lost: seq<nat>, ptr: nat)
    requires IsAt(y, h, out, lost, ptr) && ptr >= MIN_RING - TRAILER
    ensures Guarded(REG, y, Write(Disabled))
    ensures IsAt(Do(REG, y, Write(Disabled)), History(h.older + h.prev, h.cur, []), out, lost, HEADER)
    ensures Do(REG, y, Write(Disabled)).s == y.s
  {
    hide InStep;
    WriteInStep(REG, y, Disabled);
  }

  /** 1025 polls of a reader before the last message of a lap that has ended. */
  lemma {:induction false} PollsLose(y: System, h: History, out: seq<Rec>, ptr: nat, failures: nat)
    requires IsAt(y, h, out, [], ptr) && y.s.corruption == 0 && Stuck(h, |out|) && failures == THRESHOLD
    requires ClockAfter(h.All(), CLOCK)
    ensures GuardedRun(REG, y, Polls(failures + 1, CLOCK))
    ensures IsAt(Runs(REG, y, Polls(failures + 1, CLOCK)), h, out, [|out|], ptr)
  {
    hide InStep, Stuck, ClockAfter, Do;
    PollsWait(REG, y, CLOCK, failures);
    var z := Runs(REG, y, Polls(failures, CLOCK));
    ReadLoses(z, CLOCK);
    RunSnoc(REG, y, Polls(failures, CLOCK), Read(CLOCK));
  }

  lemma {:induction false} ReadLoses(y: System, curTsc: nat)
    requires InStep(REG, y) && ClockAfter(y.h.All(), curTsc) && Stuck(y.h, y.Place()) && y.s.corruption >= THRESHOLD
    ensures Guarded(REG, y, Read(curTsc))
    ensures var z := Do(REG, y, Read(curTsc));
      InStep(REG, z) && z == y.(s := Reset(y.s), lost := y.lost + [y.Place()], seen := |y.h.All()|)
  {
    hide TailInv, Poll, Kept, Stuck, Reset, ClockAfter, Passes;
    StuckPlace(y);
    LateClock(REG, y, curTsc);
    ReadInStep(REG, y, curTsc);
    PollStep(REG, y.r, y.h, y.s, y.Place(), curTsc);
  }

  /** The actions of the run: three messages, each printed; a fourth; a disabled one, which wraps; polls
      that fail and one that gives up; a fifth message and a poll. */
  function LosingRun(failures: nat): seq<Action> {
    Followed(3) + [Write(Event.Trace(Line(4)))] + [Write(Disabled)] + Polls(failures + 1, CLOCK)
      + [Write(Event.Trace(Line(5)))] + [Read(CLOCK)]
  }

  lemma {:induction false} BeforePolls(m: seq<byte>) returns (acts: seq<Action>)
    requires |m| == MIN_RING
    ensures acts == Followed(3) + [Write(Event.Trace(Line(4)))] + [Write(Disabled)]
    ensures GuardedRun(REG, Begin(m), acts)
    ensures var y := Runs(REG, Begin(m), acts);
      IsAt(y, History([], Lines(0, 4), []), Lines(0, 3), [], HEADER) && y.s.corruption == 0
  {
    hide InStep, Do, Guarded, Line, BufIs, IsAt, Followed;
    FollowedRun(m, 3);
    LineOk(4);
    LineTsc(4);
    LinesIncreasing(3);
    NoOld(Lines(0, 3));
    var y0, a1 := Begin(m), Followed(3);
    var y1 := Runs(REG, y0, a1);
    WriteLine(y1, History([], [], Lines(0, 3)), Lines(0, 3), [], HEADER + 249 * 3, Line(4));
    RunSnoc(REG, y0, a1, Write(Event.Trace(Line(4))));
    var a2 := a1 + [Write(Event.Trace(Line(4)))];
    var y2 := Runs(REG, y0, a2);
    WriteOff(y2, History([], [], Lines(0, 4)), Lines(0, 3), [], HEADER + 249 * 4);
    RunSnoc(REG, y0, a2, Write(Disabled));
    acts := a2 + [Write(Disabled)];
  }

  /** A run of the smallest ring from its creation: four messages of 249 bytes, one disabled statement,
      1025 polls, and one more message. The reader prints messages 1, 2, 3 and 5. */
  lemma {:induction false} GiveUpRun(m: seq<byte>, failures: nat)
    requires |m| == MIN_RING && failures == THRESHOLD
    ensures GuardedRun(REG, Begin(m), LosingRun(failures))
    ensures var z := Runs(REG, Begin(m), LosingRun(failures));
      && z.h.All() == Lines(0, 4) + [Line(5)] && z.out == Lines(0, 3) + [Line(5)]
      && !(z.out <= z.h.All())
  {
    hide InStep, Do, Guarded, Line, BufIs, IsAt, Followed, Runs, GuardedRun;
    var y0, h := Begin(m), History([], Lines(0, 4), []);
    LinesIncreasing(4);
    LinesIncreasing(3);
    LineOk(5);
    LineTsc(5);
    assert h.All() == Lines(0, 4);
    var a3 := BeforePolls(m);
    PollsLose(Runs(REG, y0, a3), h, Lines(0, 3), HEADER, failures);
    RunConcat(REG, y0, a3, Polls(failures + 1, CLOCK));
    var a4 := a3 + Polls(failures + 1, CLOCK);
    WriteLine(Runs(REG, y0, a4), h, Lines(0, 3), [3], HEADER, Line(5));
    RunSnoc(REG, y0, a4, Write(Event.Trace(Line(5))));
    var a5, h5 := a4 + [Write(Event.Trace(Line(5)))], h.(cur := [Line(5)]);
    assert h.cur + [Line(5)] == [Line(5)];
    assert h5.All() == Lines(0, 4) + [Line(5)];
    PollLine(Runs(REG, y0, a5), h5, Lines(0, 3), [3], HEADER + Size(Line(5)));
    RunSnoc(REG, y0, a5, Read(CLOCK));
    Lossy(Runs(REG, y0, LosingRun(failures)), h5, Lines(0, 3) + [Line(5)], HEADER + Size(Line(5)));
  }

  lemma {:induction false} Lossy(z: System, h: History, out: seq<Rec>, ptr: nat)
    requires IsAt(z, h, out, [3], ptr) && |out| == 4
    ensures z.h == h && z.out == out && !(z.out <= z.h.All())
  {
    hide InStep;
    PrefixIff(REG, z);
  }
}
