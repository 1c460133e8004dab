/** qttail following a ring while it is being written: the reader polls between complete messages.
    As long as the writer does not lap the reader, the messages printed are at all times the messages
    written up to some point, without exactly those at which the reader gave up. */
module Tailing {
  import opened Bytes
  import opened Codes
  import opened Records
  import opened RingState
  import opened RingReader
  import opened Recovery

  /** One round of tailing a ring: select it if it shows a timestamp, then dump. */
  function Poll(m: seq<byte>, reg: Registry, s: Reader, curTsc: nat): (Reader, Outcome) {
    var t := NextTsc(m, s);
    if t == 0 || t == U64_MAX then (s, NoMessage) else Dump(m, reg, s, t, curTsc, true)
  }

  /** Number of messages in laps before the current one. */
  function Base(h: History): nat {
    |h.older| + |h.prev|
  }

  /** The reader has printed the first `n` messages of the history and its cursor is where message
      `n` is, or will be written. In the previous lap that place must not be overwritten yet. */
  ghost predicate CursorAt(r: Ring, h: History, s: Reader, n: nat) {
    && s.start == r.Start() && s.end == r.bufEnd
    && |h.older| <= n <= Base(h) + |h.cur|
    && if n >= Base(h) then s.cur == WrapCursor(s, s.start + Off(h.cur, n - Base(h)))
       else s.cur == s.start + Off(h.prev, n - |h.older|) && Limit(r, h) <= s.cur
  }

  /** Where the reader's `lastTsc_` is among the timestamps. The message before the cursor may be later
      only right after a reset, at the start of the ring. */
  ghost predicate Separates(all: seq<Rec>, t: nat, n: nat, atStart: bool) {
    && n <= |all|
    && (n > 0 && !atStart ==> all[n - 1].tsc <= t)
    && (n < |all| ==> t <= all[n].tsc)
    && (n == |all| ==> if n == 0 then t == 0 else t <= all[n - 1].tsc + 1)
    && (n == |all| >= 2 ==> all[n - 2].tsc < t)
  }

  ghost predicate TailInv(reg: Registry, r: Ring, h: History, s: Reader, n: nat) {
    && RingInv(reg, r, h)
    && CursorAt(r, h, s, n)
    && Separates(h.All(), s.lastTsc, n, s.cur == s.start)
  }

  /** The writer has wrapped without writing, and the reader is at the last message before. */
  predicate Stuck(h: History, n: nat) {
    h.cur == [] && h.prev != [] && n + 1 == Base(h)
  }

  /** Message `n` and what follows it pass the checks of a poll at clock time `curTsc`: the clock was read
      after the message was written, not before the next one, and the reader is not stuck. */
  predicate Passes(h: History, n: nat, curTsc: nat)
    requires n < |h.All()|
  {
    && !Stuck(h, n)
    && h.All()[n].tsc < curTsc
    && (n + 1 < |h.All()| ==> h.All()[n + 1].tsc <= curTsc)
  }

  lemma {:induction false} AllIndex(h: History, n: nat)
    requires n < |h.All()|
    ensures |h.All()| == Base(h) + |h.cur|
    ensures h.All()[n] ==
      if n < |h.older| then h.older[n]
      else if n < Base(h) then h.prev[n - |h.older|]
      else h.cur[n - Base(h)]
  {
  }

  // ------------------------------------------------------------------- poll

  /** Nothing new: the ring is not selected. */
  lemma {:induction false} PollNothing(reg: Registry, r: Ring, h: History, s: Reader, curTsc: nat)
    requires TailInv(reg, r, h, s, |h.All()|)
    ensures Poll(r.m, reg, s, curTsc) == (s, NoMessage)
  {
    hide RingInv, Pending, Dump, NextTsc, Lay;
    NothingPending(reg, r, h, s);
  }

  lemma {:induction false} NothingPending(reg: Registry, r: Ring, h: History, s: Reader)
    requires TailInv(reg, r, h, s, |h.All()|)
    ensures NextTsc(r.m, s) == 0 || NextTsc(r.m, s) == U64_MAX
  {
    hide NextTsc, Lay, PrevInv, CurInv;
    var lap, n := StartLap(h), |h.All()|;
    assert r.ptr == r.Start() + End(h.cur) by {
      LapsOf(reg, r, h);
    }
    if |lap| >= 2 {
      AllIndex(h, n - 1);
      AllIndex(h, n - 2);
      LapsIncreasing(h);
      assert |lap| > 2 ==> Earlier(lap, 0, |lap| - 2);
    }
    EndCursor(reg, r, h, s);
    QuietEnd(reg, r, h, s);
    assert Pending(r.m, reg, s, []);
  }

  /** A reader with nothing left to print is behind the last message, or at the start of the ring. */
  lemma {:induction false} EndCursor(reg: Registry, r: Ring, h: History, s: Reader)
    requires TailInv(reg, r, h, s, |h.All()|)
    ensures s.start == r.Start() && s.end == r.bufEnd
    ensures if StartLap(h) == [] then s.cur == s.start else s.cur == WrapCursor(s, s.start + End(StartLap(h)))
  {
    hide Lay, Increasing, Separates;
    LapsOf(reg, r, h);
  }

  /** What one poll does at a complete record. */
  lemma {:induction false} PollAtRecord(m: seq<byte>, reg: Registry, s: Reader, rec: Rec, curTsc: nat)
    requires Holds(m, s.cur, rec) && RecOk(reg, rec) && s.lastTsc <= rec.tsc
    ensures Poll(m, reg, s, curTsc) ==
      if rec.tsc < curTsc && FollowerOk(m, s.start, s.end, rec.tsc, s.cur + Size(rec), curTsc, true) then
        (s.(cur := WrapCursor(s, s.cur + Size(rec)), lastTsc := rec.tsc, corruption := 0), Printed(rec))
      else if s.corruption >= THRESHOLD then (s, Failed)
      else (s.(corruption := s.corruption + 1), NoMessage)
  {
    hide FollowerOk, Holds, Length, TscAt, IdAt, Fits;
    ReadBack(reg, m, s.cur, rec);
  }

  ghost predicate ClockAfter(all: seq<Rec>, curTsc: nat) {
    all != [] ==> all[|all| - 1].tsc < curTsc
  }

  lemma {:induction false} ClockAfterEach(h: History, curTsc: nat, n: nat)
    requires Increasing(h.All()) && ClockAfter(h.All(), curTsc) && n < |h.All()|
    ensures h.All()[n].tsc < curTsc
  {
    if n < |h.All()| - 1 {
      assert Earlier(h.All(), n, |h.All()| - 1);
    }
  }

  /** The follower check on a record of the same lap. */
  lemma {:induction false} NextFollower(m: seq<byte>, reg: Registry, start: nat, end: nat, tsc: nat, q: nat, r: Rec,
                                        curTsc: nat)
    requires Holds(m, q, r) && RecOk(reg, r) && q < end && tsc < r.tsc
    ensures FollowerOk(m, start, end, tsc, q, curTsc, true) <==> r.tsc <= curTsc
  {
    hide Holds, Fits, TscAt;
    ReadBack(reg, m, q, r);
  }

  /** ... on the message after `n`, all in the current lap. */
  lemma {:induction false} NewFollower(reg: Registry, r: Ring, h: History, n: nat, curTsc: nat)
    requires RingInv(reg, r, h) && Base(h) <= n < |h.All()|
    ensures var k := n - Base(h);
      k < |h.cur| &&
      (FollowerOk(r.m, r.Start(), r.bufEnd, h.cur[k].tsc, r.Start() + Off(h.cur, k + 1), curTsc, true) <==>
        (n + 1 < |h.All()| ==> h.All()[n + 1].tsc <= curTsc))
  {
    hide Lay, PrevInv, TscAt, Holds, Fits;
    var k := n - Base(h);
    AllIndex(h, n);
    if k + 1 < |h.cur| {
      AllIndex(h, n + 1);
      LapsIncreasing(h);
      CurHolds(reg, r, h, k + 1);
      assert Earlier(h.cur, k, k + 1) && RecOk(reg, h.cur[k + 1]);
      var q := r.Start() + Off(h.cur, k + 1);
      NextFollower(r.m, reg, r.Start(), r.bufEnd, h.cur[k].tsc, q, h.cur[k + 1], curTsc);
    } else {
      ZeroTsc(r.m, r.ptr);
    }
  }

  /** A message of the current lap. */
  lemma {:induction false} PollCurrent(reg: Registry, r: Ring, h: History, s: Reader, n: nat, curTsc: nat)
    requires TailInv(reg, r, h, s, n) && Base(h) <= n < |h.All()|
    ensures var (s', o) := Poll(r.m, reg, s, curTsc);
      if Passes(h, n, curTsc) then
        o == Printed(h.All()[n]) && s'.corruption == 0 && s'.lastTsc == h.All()[n].tsc && CursorAt(r, h, s', n + 1)
      else if s.corruption >= THRESHOLD then o == Failed && s' == s
      else o == NoMessage && s' == s.(corruption := s.corruption + 1)
  {
    hide Poll, Holds, FollowerOk, Lay, PrevInv, CurInv;
    var k := n - Base(h);
    AllIndex(h, n);
    assert Lap(reg, h.cur, r.bufEnd - r.Start()) by {
      LapsOf(reg, r, h);
    }
    CurHolds(reg, r, h, k);
    NewFollower(reg, r, h, n, curTsc);
    assert RecOk(reg, h.cur[k]);
    PollAtRecord(r.m, reg, s, h.cur[k], curTsc);
  }

  lemma {:induction false} LapsOf(reg: Registry, r: Ring, h: History)
    requires RingInv(reg, r, h)
    ensures Lap(reg, h.cur, r.bufEnd - r.Start()) && Lap(reg, h.prev, r.bufEnd - r.Start())
    ensures h.prev != [] ==> r.bufEnd <= TailEnd(r, h)
    ensures r.ptr == r.Start() + End(h.cur)
  {
    hide Lay, Intact;
  }

  /** The follower check on the last message before a wrap looks at the start of the ring. */
  lemma {:induction false} LastFollower(reg: Registry, r: Ring, h: History, curTsc: nat)
    requires RingInv(reg, r, h) && h.prev != []
    requires Limit(r, h) <= r.Start() + Off(h.prev, |h.prev| - 1)
    ensures FollowerOk(r.m, r.Start(), r.bufEnd, h.prev[|h.prev| - 1].tsc, TailEnd(r, h), curTsc, true)
      <==> h.cur != [] && h.cur[0].tsc <= curTsc
  {
    hide TscAt, Lay, Intact, Holds, CurInv, Fits;
    var last := |h.prev| - 1;
    PrevEnd(reg, r, h);
    StartLapFirst(reg, r, h);
    if h.cur == [] {
      LapsOf(reg, r, h);
      FullLap(reg, h.prev, r.bufEnd - r.Start());
      LapsIncreasing(h);
      assert Earlier(h.prev, 0, last);
    } else {
      PartEarlier(h.older, h.prev, h.cur, last, 0);
    }
  }

  lemma {:induction false} OldFollower(reg: Registry, r: Ring, h: History, s: Reader, n: nat, curTsc: nat)
    requires RingInv(reg, r, h) && CursorAt(r, h, s, n) && n < Base(h)
    ensures n < |h.All()|
    ensures var k := n - |h.older|;
      FollowerOk(r.m, r.Start(), r.bufEnd, h.prev[k].tsc, r.Start() + Off(h.prev, k + 1), curTsc, true) <==>
        !Stuck(h, n) && (n + 1 < |h.All()| ==> h.All()[n + 1].tsc <= curTsc)
  {
    hide FollowerOk, Lay, PrevIntact, CurInv, Holds, Fits;
    var k := n - |h.older|;
    AllIndex(h, n);
    if n + 1 < |h.All()| {
      AllIndex(h, n + 1);
    }
    if k + 1 < |h.prev| {
      OffMono(h.prev, k, k + 1);
      LapsIncreasing(h);
      PrevHolds(reg, r, h, k + 1);
      assert Earlier(h.prev, k, k + 1) && RecOk(reg, h.prev[k + 1]);
      var q := r.Start() + Off(h.prev, k + 1);
      NextFollower(r.m, reg, r.Start(), r.bufEnd, h.prev[k].tsc, q, h.prev[k + 1], curTsc);
    } else {
      LastFollower(reg, r, h, curTsc);
    }
  }

  lemma {:induction false} IncreasingOf(reg: Registry, r: Ring, h: History)
    requires RingInv(reg, r, h)
    ensures Increasing(h.All())
  {
  }

  /** A message of the previous lap, not overwritten yet. */
  lemma {:induction false} PollOld(reg: Registry, r: Ring, h: History, s: Reader, n: nat, curTsc: nat)
    requires TailInv(reg, r, h, s, n) && n < Base(h)
    ensures n < |h.All()|
    ensures var (s', o) := Poll(r.m, reg, s, curTsc);
      if Passes(h, n, curTsc) then
        o == Printed(h.All()[n]) && s'.corruption == 0 && s'.lastTsc == h.All()[n].tsc && CursorAt(r, h, s', n + 1)
      else if s.corruption >= THRESHOLD then o == Failed && s' == s
      else o == NoMessage && s' == s.(corruption := s.corruption + 1)
  {
    hide Holds, FollowerOk, Lay, PrevInv, CurInv, Poll, Stuck;
    var k := n - |h.older|;
    AllIndex(h, n);
    LapsOf(reg, r, h);
    assert RecOk(reg, h.prev[k]);
    PrevHolds(reg, r, h, k);
    OldFollower(reg, r, h, s, n, curTsc);
    PollAtRecord(r.m, reg, s, h.prev[k], curTsc);
    LapLength(reg, h.prev, r.bufEnd - r.Start());
    OldCursorMoves(r, h, s, n);
  }

  lemma {:induction false} OldCursorMoves(r: Ring, h: History, s: Reader, n: nat)
    requires CursorAt(r, h, s, n) && n < Base(h) && r.Start() < r.bufEnd <= TailEnd(r, h)
    requires forall k :: 0 <= k < |h.prev| ==> Off(h.prev, k) < r.bufEnd - r.Start()
    ensures CursorAt(r, h, s.(cur := WrapCursor(s, s.start + Off(h.prev, n - |h.older| + 1))), n + 1)
  {
    OffMono(h.prev, n - |h.older|, n - |h.older| + 1);
  }

  /** What one poll does, in every state and at every clock value: there is nothing new; the next message
      is printed, in order; or it does not pass, and is given up after 1024 tries. */
  lemma {:induction false} PollStep(reg: Registry, r: Ring, h: History, s: Reader, n: nat, curTsc: nat)
    requires TailInv(reg, r, h, s, n)
    ensures var (s', o) := Poll(r.m, reg, s, curTsc);
      if n == |h.All()| then s' == s && o == NoMessage
      else if Passes(h, n, curTsc) then
        o == Printed(h.All()[n]) && s'.corruption == 0 && TailInv(reg, r, h, s', n + 1)
      else if s.corruption >= THRESHOLD then o == Failed && s' == s
      else o == NoMessage && s' == s.(corruption := s.corruption + 1) && TailInv(reg, r, h, s', n)
  {
    hide Poll, RingInv, Passes;
    if n == |h.All()| {
      PollNothing(reg, r, h, s, curTsc);
    } else {
      IncreasingOf(reg, r, h);
      if n >= Base(h) {
        PollCurrent(reg, r, h, s, n, curTsc);
      } else {
        PollOld(reg, r, h, s, n, curTsc);
      }
      if n + 1 < |h.All()| {
        assert Earlier(h.All(), n, n + 1);
      }
      if n > 0 {
        assert Earlier(h.All(), n - 1, n);
      }
    }
  }

  // ------------------------------------------------------------ writer step

  /** The writer does not pass the reader from the next lap: when the reader is still in the
      previous lap and the current one holds messages, `ptr_ + 8` is at most the cursor. */
  ghost predicate NoOverrun(r: Ring, h: History, s: Reader, n: nat) {
    n < Base(h) && h.cur != [] ==> r.ptr + 8 <= s.cur
  }

  lemma {:induction false} WrapKeepsPlace(reg: Registry, r: Ring, h: History, s: Reader, n: nat)
    requires RingInv(reg, r, h) && CursorAt(r, h, s, n)
    ensures CursorAt(MaybeWrap(r), AfterWrap(r, h), s, n)
  {
    hide Lay, PrevIntact, RecsOk, Increasing;
    if r.ptr >= r.bufEnd {
      LapsOf(reg, r, h);
      if n < Base(h) {
        LapLength(reg, h.prev, r.bufEnd - r.Start());
        assert false;
      } else if n < Base(h) + |h.cur| {
        LapLength(reg, h.cur, r.bufEnd - r.Start());
      }
    }
  }

  lemma {:induction false} WriteKeepsPlace(reg: Registry, r: Ring, h: History, s: Reader, n: nat, rec: Rec)
    requires RingInv(reg, r, h) && CursorAt(r, h, s, n) && r.ptr < r.bufEnd && RecOk(reg, rec)
    requires var h' := h.(cur := h.cur + [rec]);
      NoOverrun(WriteMsg(r, rec), h', s, n)
    ensures CursorAt(WriteMsg(r, rec), h.(cur := h.cur + [rec]), s, n)
  {
    hide Lay, PrevIntact, RecsOk, Increasing, Enc;
    LapsOf(reg, r, h);
    if n >= Base(h) {
      OffPrefix(h.cur, [rec], n - Base(h));
    }
  }

  lemma {:induction false} SeparatesMore(all: seq<Rec>, t: nat, n: nat, atStart: bool, rec: Rec)
    requires Separates(all, t, n, atStart) && (all != [] ==> all[|all| - 1].tsc < rec.tsc)
    ensures Separates(all + [rec], t, n, atStart)
  {
  }

  /** A trace statement, enabled or not, keeps the reader's place as long as it does not overrun. */
  lemma {:induction false} WriterStep(reg: Registry, r: Ring, h: History, s: Reader, n: nat, e: Event)
    requires TailInv(reg, r, h, s, n)
    requires e.Trace? ==> RecOk(reg, e.rec) && Newer(h, e.rec)
    requires NoOverrun(Step(r, e), Extend(r, h, e), s, n)
    ensures TailInv(reg, Step(r, e), Extend(r, h, e), s, n)
  {
    hide RingInv, CursorAt, WriteMsg, MaybeWrap, AfterWrap, RecOk;
    ReadyOf(reg, r, h);
    StepInv(reg, r, h, e);
    WrapInv(reg, r, h);
    WrapKeepsPlace(reg, r, h, s, n);
    if e.Trace? {
      WriteKeepsPlace(reg, MaybeWrap(r), AfterWrap(r, h), s, n, e.rec);
      SeparatesMore(h.All(), s.lastTsc, n, s.cur == s.start, e.rec);
    }
  }

  // ------------------------------------------------------------------- runs

  /** The whole system: the ring, its history, the reader, what the reader has printed, the places in the
      history of the messages at which it gave up, and how many messages there were at its last poll. */
  datatype System = System(r: Ring, h: History, s: Reader, out: seq<Rec>, lost: seq<nat>, seen: nat)
  {
    /** How many messages the reader is done with. */
    function Place(): nat {
      |out| + |lost|
    }
  }

  /** The writer executes a trace statement or the reader polls at clock time `curTsc`. */
  datatype Action = Write(e: Event) | Read(curTsc: nat)

  ghost function Do(reg: Registry, y: System, a: Action): System
    requires y.r.Ready() && (a.Write? && a.e.Trace? ==> Size(a.e.rec) <= MAX_RECORD)
  {
    match a
    case Write(e) => y.(r := Step(y.r, e), h := Extend(y.r, y.h, e))
    case Read(curTsc) =>
      var (s, o) := Poll(y.r.m, reg, y.s, curTsc);
      var z := y.(seen := |y.h.All()|);
      match o
      case Printed(rec) => z.(s := s, out := y.out + [rec])
      case Failed => z.(s := Reset(s), lost := y.lost + [y.Place()])
      case _ => z.(s := s)
  }

  /** The clock is read between two polls: its value is later than every message that was there at the
      end of the poll before. Messages written after the clock is read may be later than it. */
  predicate ClockRead(y: System, curTsc: nat) {
    0 < y.seen <= |y.h.All()| ==> y.h.All()[y.seen - 1].tsc < curTsc
  }

  /** The actions the theorem is about: records as in `RecOk` with a later timestamp, no overrun, and
      polls with a clock value read since the poll before. */
  ghost predicate Guarded(reg: Registry, y: System, a: Action) {
    && y.r.Ready()
    && match a
       case Write(e) =>
         && (e.Trace? ==> RecOk(reg, e.rec) && Newer(y.h, e.rec))
         && NoOverrun(Step(y.r, e), Extend(y.r, y.h, e), y.s, y.Place())
       case Read(curTsc) => ClockRead(y, curTsc)
  }

  /** A poll of a message that does not pass, after 1024 failed ones. */
  predicate GivesUp(y: System, a: Action) {
    a.Read? && y.Place() < |y.h.All()| && !Passes(y.h, y.Place(), a.curTsc) && y.s.corruption >= THRESHOLD
  }

  ghost predicate GuardedRun(reg: Registry, y: System, acts: seq<Action>)
    decreases |acts|
  {
    acts == [] || (Guarded(reg, y, acts[0]) && GuardedRun(reg, Do(reg, y, acts[0]), acts[1..]))
  }

  ghost function Runs(reg: Registry, y: System, acts: seq<Action>): System
    requires GuardedRun(reg, y, acts)
    decreases |acts|
  {
    if acts == [] then y else Runs(reg, Do(reg, y, acts[0]), acts[1..])
  }

  ghost predicate NeverGivesUp(reg: Registry, y: System, acts: seq<Action>)
    requires GuardedRun(reg, y, acts)
    decreases |acts|
  {
    acts == [] || (!GivesUp(y, acts[0]) && NeverGivesUp(reg, Do(reg, y, acts[0]), acts[1..]))
  }

  /** The first `n` messages without those at the places `lost`. */
  function Kept(all: seq<Rec>, n: nat, lost: seq<nat>): (out: seq<Rec>)
    requires n <= |all|
  {
    if n == 0 then [] else Kept(all, n - 1, lost) + if n - 1 in lost then [] else [all[n - 1]]
  }

  predicate Ascending(lost: seq<nat>) {
    forall i, j :: 0 <= i < j < |lost| ==> lost[i] < lost[j]
  }

  /** Failed polls are counted at the last message of the previous lap, where the reader may be stuck.
      Elsewhere there are at most two of them: the first when the message is later than the clock, the
      second when the next one is. */
  predicate Patient(y: System) {
    && y.seen <= |y.h.All()|
    && (y.s.corruption > 0 ==>
          && y.Place() < y.seen
          && (y.Place() + 1 == Base(y.h) || y.s.corruption == 1
              || (y.s.corruption == 2 && y.Place() + 1 < y.seen)))
  }

  /** What has been printed are the messages up to the reader's place, without exactly those lost. */
  ghost predicate InStep(reg: Registry, y: System) {
    && TailInv(reg, y.r, y.h, y.s, y.Place())
    && y.Place() <= |y.h.All()|
    && Ascending(y.lost) && (forall i :: 0 <= i < |y.lost| ==> y.lost[i] < y.Place())
    && y.out == Kept(y.h.All(), y.Place(), y.lost)
    && Patient(y)
  }

  lemma {:induction false} RingOf(reg: Registry, r: Ring, h: History, s: Reader, n: nat)
    requires TailInv(reg, r, h, s, n)
    ensures RingInv(reg, r, h)
  {
  }

  lemma {:induction false} KeptMore(all: seq<Rec>, more: seq<Rec>, n: nat, lost: seq<nat>)
    requires n <= |all|
    ensures Kept(all + more, n, lost) == Kept(all, n, lost)
    decreases n
  {
    if n > 0 {
      KeptMore(all, more, n - 1, lost);
    }
  }

  lemma {:induction false} KeptLost(all: seq<Rec>, n: nat, lost: seq<nat>, k: nat)
    requires n <= |all| && n <= k
    ensures Kept(all, n, lost + [k]) == Kept(all, n, lost)
    decreases n
  {
    if n > 0 {
      KeptLost(all, n - 1, lost, k);
    }
  }

  /** Giving up at the last message of the previous lap puts the reader at the start of the ring, in step
      with what is written there. */
  lemma {:induction false} ResetInStep(reg: Registry, r: Ring, h: History, s: Reader, n: nat)
    requires TailInv(reg, r, h, s, n) && n + 1 == Base(h)
    ensures n < |h.All()| && TailInv(reg, r, h, Reset(s), n + 1) && Reset(s).corruption == 0
  {
    hide Lay, Intact, Fits, Increasing;
    LastOldCursor(reg, r, h, s, n);
    IncreasingOf(reg, r, h);
    LapsOf(reg, r, h);
    assert s.start < s.end;
    AllIndex(h, n);
    if n + 1 < |h.All()| {
      NextLater(h.All(), n);
    }
  }

  lemma {:induction false} NextLater(all: seq<Rec>, n: nat)
    requires Increasing(all) && n + 1 < |all|
    ensures all[n].tsc < all[n + 1].tsc
  {
    assert Earlier(all, n, n + 1);
  }

  lemma {:induction false} SizeOf(reg: Registry, e: Event)
    requires e.Trace? ==> RecOk(reg, e.rec)
    ensures e.Trace? ==> Size(e.rec) <= MAX_RECORD
  {
    hide Fits;
  }

  lemma {:induction false} WriteInStep(reg: Registry, y: System, e: Event)
    requires InStep(reg, y) && Guarded(reg, y, Write(e))
    ensures InStep(reg, Do(reg, y, Write(e))) && Do(reg, y, Write(e)).lost == y.lost
  {
    hide TailInv, RingInv, Increasing, Step, RecOk, NoOverrun, Kept;
    var n := y.Place();
    SizeOf(reg, e);
    RingOf(reg, y.r, y.h, y.s, n);
    WriterStep(reg, y.r, y.h, y.s, n, e);
    StepInv(reg, y.r, y.h, e);
    KeptMore(y.h.All(), if e.Trace? then [e.rec] else [], n, y.lost);
    PlaceOf(reg, Step(y.r, e), Extend(y.r, y.h, e), y.s, n);
    assert Patient(Do(reg, y, Write(e)));
  }

  lemma {:induction false} PlaceOf(reg: Registry, r: Ring, h: History, s: Reader, n: nat)
    requires TailInv(reg, r, h, s, n)
    ensures |h.older| <= n <= |h.All()|
  {
    hide RingInv;
  }

  /** A message that was there at the last poll, and its follower, are older than the clock. */
  lemma {:induction false} SeenPasses(h: History, n: nat, seen: nat, curTsc: nat)
    requires Increasing(h.All()) && n < seen <= |h.All()| && h.All()[seen - 1].tsc < curTsc
    ensures h.All()[n].tsc < curTsc
    ensures n + 1 < seen ==> h.All()[n + 1].tsc <= curTsc
  {
    if n < seen - 1 {
      assert Earlier(h.All(), n, seen - 1);
    }
    if n + 1 < seen - 1 {
      assert Earlier(h.All(), n + 1, seen - 1);
    }
  }

  /** A message that fails twice where the reader is not stuck has a follower written since. */
  lemma {:induction false} FailsLater(reg: Registry, y: System, curTsc: nat)
    requires InStep(reg, y) && Guarded(reg, y, Read(curTsc))
    requires y.Place() < |y.h.All()| && !Passes(y.h, y.Place(), curTsc)
    ensures y.s.corruption > 0 && y.Place() + 1 != Base(y.h) ==>
      y.s.corruption == 1 && y.Place() + 1 < |y.h.All()|
  {
    hide TailInv, Increasing, Kept;
    if y.s.corruption > 0 {
      IncreasingIn(reg, y);
      SeenPasses(y.h, y.Place(), y.seen, curTsc);
    }
  }

  lemma {:induction false} ReadInStep(reg: Registry, y: System, curTsc: nat)
    requires InStep(reg, y) && Guarded(reg, y, Read(curTsc))
    ensures InStep(reg, Do(reg, y, Read(curTsc)))
    ensures Do(reg, y, Read(curTsc)).lost == y.lost + if GivesUp(y, Read(curTsc)) then [y.Place()] else []
  {
    hide TailInv, Poll, Reset, Kept, Passes;
    var n, all := y.Place(), y.h.All();
    PollStep(reg, y.r, y.h, y.s, n, curTsc);
    if n < |all| && !Passes(y.h, n, curTsc) {
      FailsLater(reg, y, curTsc);
    }
    if GivesUp(y, Read(curTsc)) {
      ResetInStep(reg, y.r, y.h, y.s, n);
      KeptLost(all, n, y.lost, n);
      KeptNext(all, n, y.lost + [n]);
    } else if n < |all| {
      KeptNext(all, n, y.lost);
    }
  }

  lemma {:induction false} KeptNext(all: seq<Rec>, n: nat, lost: seq<nat>)
    requires n < |all|
    ensures Kept(all, n + 1, lost) == Kept(all, n, lost) + if n in lost then [] else [all[n]]
  {
  }

  /** Tailing: over any guarded run of writes and polls, with any number of wraps and records of any
      sizes, disabled statements included, the messages printed are at all times those written up to
      the reader's place, without exactly those at which it gave up: none else lost, none twice, none
      out of order. */
  lemma {:induction false} TailsExactly(reg: Registry, y: System, acts: seq<Action>)
    requires InStep(reg, y) && GuardedRun(reg, y, acts)
    ensures InStep(reg, Runs(reg, y, acts))
    ensures y.lost <= Runs(reg, y, acts).lost
    ensures Runs(reg, y, acts).lost == y.lost <==> NeverGivesUp(reg, y, acts)
    decreases |acts|
  {
    hide InStep, Do, Passes;
    if acts != [] {
      match acts[0] {
        case Write(e) =>
          WriteInStep(reg, y, e);
        case Read(curTsc) =>
          ReadInStep(reg, y, curTsc);
      }
      TailsExactly(reg, Do(reg, y, acts[0]), acts[1..]);
    }
  }

  lemma {:induction false} KeptAll(all: seq<Rec>, n: nat, lost: seq<nat>)
    requires n <= |all| && forall i :: 0 <= i < |lost| ==> lost[i] >= n
    ensures Kept(all, n, lost) == all[..n]
    decreases n
  {
    if n > 0 {
      KeptAll(all, n - 1, lost);
    }
  }

  /** Behind the first lost message everything printed is later than it. */
  lemma {:induction false} KeptLater(all: seq<Rec>, n: nat, lost: seq<nat>)
    requires Increasing(all) && lost != [] && Ascending(lost) && lost[0] <= n <= |all|
    ensures |Kept(all, n, lost)| >= lost[0] && Kept(all, n, lost)[..lost[0]] == all[..lost[0]]
    ensures forall i :: lost[0] <= i < |Kept(all, n, lost)| ==>
      lost[0] < |all| && all[lost[0]].tsc < Kept(all, n, lost)[i].tsc
    decreases n
  {
    if n == lost[0] {
      KeptAll(all, n, lost);
    } else {
      KeptLater(all, n - 1, lost);
      if lost[0] < n - 1 {
        assert Earlier(all, lost[0], n - 1);
      }
    }
  }

  /** What is printed is a prefix of what is written if and only if nothing was lost, or nothing has
      been printed since the first loss. */
  lemma {:induction false} PrefixIff(reg: Registry, y: System)
    requires InStep(reg, y)
    ensures y.out <= y.h.All() <==> y.lost == [] || |y.out| == y.lost[0]
  {
    hide TailInv, Increasing, Kept;
    var n, all := y.Place(), y.h.All();
    if y.lost == [] {
      KeptAll(all, n, []);
    } else {
      IncreasingIn(reg, y);
      KeptLater(all, n, y.lost);
      var k := y.lost[0];
      if |y.out| > k {
        assert all[k].tsc < y.out[k].tsc;
      }
    }
  }

  lemma {:induction false} IncreasingIn(reg: Registry, y: System)
    requires InStep(reg, y)
    ensures Increasing(y.h.All())
  {
  }

  /** Loss-free tailing: as long as no poll gives up, the messages printed are a prefix of the messages
      written. */
  lemma {:induction false} LossFree(reg: Registry, y: System, acts: seq<Action>)
    requires InStep(reg, y) && y.lost == [] && GuardedRun(reg, y, acts) && NeverGivesUp(reg, y, acts)
    ensures InStep(reg, Runs(reg, y, acts)) && Runs(reg, y, acts).out <= Runs(reg, y, acts).h.All()
  {
    hide InStep, Runs, NeverGivesUp, GuardedRun;
    TailsExactly(reg, y, acts);
    PrefixIff(reg, Runs(reg, y, acts));
  }

  /** Giving up loses a message for good: whatever guarded actions follow, as soon as anything more is
      printed the output is no prefix of what is written. */
  lemma {:induction false} GivingUpLoses(reg: Registry, y: System, a: Action, acts: seq<Action>)
    requires InStep(reg, y) && y.lost == [] && Guarded(reg, y, a) && GivesUp(y, a)
    requires GuardedRun(reg, Do(reg, y, a), acts)
    ensures var z := Runs(reg, Do(reg, y, a), acts);
      z.out <= z.h.All() <==> |z.out| == |y.out|
  {
    hide InStep, Runs, GuardedRun, Passes, Do;
    ReadInStep(reg, y, a.curTsc);
    TailsExactly(reg, Do(reg, y, a), acts);
    PrefixIff(reg, Runs(reg, Do(reg, y, a), acts));
  }

  /** A fresh ring and a fresh reader satisfy the invariant. */
  lemma {:induction false} FreshInStep(reg: Registry, m: seq<byte>, base: nat, size: nat)
    requires MIN_RING <= size && base + size <= |m| && size < INT_BOUND
    ensures InStep(reg, System(BufIs(m, base, size), History([], [], []), NewReader(base, size), [], [], 0))
  {
    hide RingInv;
    BufIsInv(reg, m, base, size);
  }

  // --------------------------------------------- when a message is given up

  predicate Enabled(a: Action) {
    a.Write? ==> a.e.Trace?
  }

  /** No more than the two failures that a clock read too early explains. */
  predicate Calm(y: System) {
    && (y.h.cur != [] || y.h.prev == [])
    && (y.s.corruption > 0 ==>
          y.Place() < y.seen && (y.s.corruption == 1 || (y.s.corruption == 2 && y.Place() + 1 < y.seen)))
  }

  lemma {:induction false} CalmStays(reg: Registry, y: System, a: Action)
    requires InStep(reg, y) && Calm(y) && Guarded(reg, y, a) && Enabled(a)
    ensures !GivesUp(y, a) && Calm(Do(reg, y, a))
  {
    hide TailInv, Poll, Step, RecOk, NoOverrun, Kept;
    if a.Read? {
      var n := y.Place();
      PollStep(reg, y.r, y.h, y.s, n, a.curTsc);
      if y.s.corruption > 0 {
        IncreasingIn(reg, y);
        SeenPasses(y.h, n, y.seen, a.curTsc);
      }
    }
  }

  /** Only a disabled statement can leave the ring wrapped with nothing written since, so without
      disabled messages no poll ever gives up, and tailing is loss-free without condition. */
  lemma {:induction false} EnabledNeverGivesUp(reg: Registry, y: System, acts: seq<Action>)
    requires InStep(reg, y) && Calm(y)
    requires GuardedRun(reg, y, acts) && (forall i :: 0 <= i < |acts| ==> Enabled(acts[i]))
    ensures NeverGivesUp(reg, y, acts)
    decreases |acts|
  {
    hide InStep, Calm, Do, GivesUp;
    if acts != [] {
      assert Enabled(acts[0]);
      CalmStays(reg, y, acts[0]);
      match acts[0] {
        case Write(e) =>
          WriteInStep(reg, y, e);
        case Read(curTsc) =>
          ReadInStep(reg, y, curTsc);
      }
      EnabledNeverGivesUp(reg, Do(reg, y, acts[0]), acts[1..]);
    }
  }

  lemma {:induction false} LastOldCursor(reg: Registry, r: Ring, h: History, s: Reader, n: nat)
    requires TailInv(reg, r, h, s, n) && n + 1 == Base(h)
    ensures s.start == r.Start() && s.end == r.bufEnd && s.cur != s.start
    ensures n < |h.All()| && s.lastTsc <= h.All()[n].tsc < U64_MAX
  {
    hide Lay, Intact, Fits, Increasing;
    LapsOf(reg, r, h);
    FullLap(reg, h.prev, r.bufEnd - r.Start());
    OffMono(h.prev, 0, |h.prev| - 1);
    AllIndex(h, n);
    assert RecOk(reg, h.prev[|h.prev| - 1]);
  }
}
