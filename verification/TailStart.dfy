/** Where a tailing reader starts on a ring that is in use: behind everything (`fastforward`), or, when
    a file is opened again, at the first message that is left (`rewind`). */
module TailStart {
  import opened Bytes
  import opened Codes
  import opened Wrappers
  import opened Records
  import opened RingState
  import opened RingReader
  import opened Recovery
  import opened Tailing

  /** `fastforward` over the records of a lap up to record `stop`. */
  lemma {:induction false} SkipLap(m: seq<byte>, reg: Registry, start: nat, end: nat, s: Reader, rs: seq<Rec>,
                                   k: nat, stop: nat)
    requires k <= stop <= |rs| && RecsOk(reg, rs) && Increasing(rs) && s.start == start && s.end == end
    requires forall i {:trigger ReadableAt(m, start, end, rs, i, true, U64_MAX)} ::
      k <= i < stop ==> ReadableAt(m, start, end, rs, i, true, U64_MAX)
    requires s.cur == start + Off(rs, k) && (k < stop ==> s.lastTsc <= rs[k].tsc)
    ensures var lastTsc := if k < stop then rs[stop - 1].tsc else s.lastTsc;
      SkipAll(m, reg, s, true) == SkipAll(m, reg, s.(cur := start + Off(rs, stop), lastTsc := lastTsc), true)
    decreases stop - k
  {
    hide Lay, FollowerOk, Holds, Fits, Next, NextTsc;
    if k < stop {
      assert ReadableAt(m, start, end, rs, k, true, U64_MAX) && RecOk(reg, rs[k]);
      assert k + 1 < stop ==> Earlier(rs, k, k + 1);
      NextAtRecord(m, reg, s, rs[k], U64_MAX, true);
      var s' := s.(cur := start + Off(rs, k + 1), lastTsc := rs[k].tsc);
      SkipLap(m, reg, start, end, s', rs, k + 1, stop);
    }
  }

  lemma {:induction false} ClockMax(reg: Registry, r: Ring, h: History)
    requires RingInv(reg, r, h)
    ensures ClockAfter(h.All(), U64_MAX)
    ensures forall i :: 0 <= i < |h.cur| ==> h.cur[i].tsc < U64_MAX
  {
    hide Fits, Lay, Intact;
    LapsOf(reg, r, h);
    forall i | 0 <= i < |h.cur|
      ensures h.cur[i].tsc < U64_MAX
    {
      assert RecOk(reg, h.cur[i]);
    }
    if h.All() != [] {
      AllIndex(h, |h.All()| - 1);
      if h.cur == [] {
        assert RecOk(reg, h.prev[|h.prev| - 1]);
      }
    }
  }

  /** `fastforward` over a current lap with messages goes to its end. */
  lemma {:induction false} FastForwardCur(reg: Registry, r: Ring, h: History)
    requires RingInv(reg, r, h) && (h.cur != [] || h.prev == [])
    ensures TailInv(reg, r, h, FastForward(r.m, reg, Fresh(r), true), |h.All()|)
  {
    hide Lay, RingInv, Readable, SkipAll, NextTsc, Separates;
    ReadyOf(reg, r, h);
    var s, n := Fresh(r), |h.cur|;
    LapsOf(reg, r, h);
    SkipCur(reg, r, h);
    var s1 := s.(cur := r.ptr, lastTsc := if n > 0 then h.cur[n - 1].tsc else 0);
    assert FastForward(r.m, reg, s, true) == s1.(cur := WrapCursor(s, r.ptr));
    LastSeparates(reg, r, h, WrapCursor(s, r.ptr) == s.start);
  }

  lemma {:induction false} LastSeparates(reg: Registry, r: Ring, h: History, atStart: bool)
    requires RingInv(reg, r, h) && (h.cur != [] || h.prev == [])
    ensures Separates(h.All(), if h.cur != [] then h.cur[|h.cur| - 1].tsc else 0, |h.All()|, atStart)
  {
    assert h.cur == [] ==> h.older == [] && h.prev == [];
    IncreasingOf(reg, r, h);
    hide RingInv, Increasing;
    var n := |h.All()|;
    if h.cur != [] {
      AllIndex(h, n - 1);
      if n >= 2 {
        LastTwo(h.All());
      }
    }
  }

  lemma {:induction false} LastTwo(all: seq<Rec>)
    requires Increasing(all) && |all| >= 2
    ensures all[|all| - 2].tsc < all[|all| - 1].tsc
  {
    assert Earlier(all, |all| - 2, |all| - 1);
  }

  lemma {:induction false} SkipCur(reg: Registry, r: Ring, h: History)
    requires RingInv(reg, r, h) && (h.cur != [] || h.prev == [])
    ensures SkipAll(r.m, reg, Fresh(r), true) ==
      Fresh(r).(cur := r.ptr, lastTsc := if h.cur != [] then h.cur[|h.cur| - 1].tsc else 0)
  {
    hide Lay, RecsOk, Fits, CurInv, PrevInv, TscAt;
    hide FollowerOk, Holds, ReadableAt, Increasing, ClockAfter, Fill, SkipAll;
    var s, n := Fresh(r), |h.cur|;
    ClockMax(reg, r, h);
    CurReadable(reg, r, h, U64_MAX, true);
    SkipLap(r.m, reg, s.start, s.end, s, h.cur, 0, n);
    CurEnd(reg, r, h);
    SkipStops(r.m, reg, s.(cur := r.ptr, lastTsc := if n > 0 then h.cur[n - 1].tsc else 0));
  }

  lemma {:induction false} CurEnd(reg: Registry, r: Ring, h: History)
    requires RingInv(reg, r, h) && (h.cur != [] || h.prev == [])
    ensures r.ptr == r.Start() + Off(h.cur, |h.cur|) && TscAt(r.m, r.ptr) == 0
  {
    hide Lay, RecsOk, Fits, PrevInv, TscAt, Fill;
    ZeroTsc(r.m, r.ptr);
  }

  lemma {:induction false} SkipStops(m: seq<byte>, reg: Registry, s: Reader)
    requires TscAt(m, s.cur) == 0
    ensures SkipAll(m, reg, s, true) == s
  {
    hide TscAt, FollowerOk;
  }

  lemma {:induction false} WrappedReadable(reg: Registry, r: Ring, h: History, i: nat)
    requires RingInv(reg, r, h) && h.cur == [] && i + 1 < |h.prev|
    ensures ReadableAt(r.m, r.Start(), r.bufEnd, h.prev, i, true, U64_MAX)
  {
    hide Lay, PrevIntact, Fits, TscAt, FollowerOk, Holds, Fill, RecOk;
    ClockMax(reg, r, h);
    LapLength(reg, h.prev, r.bufEnd - r.Start());
    OffMono(h.prev, 0, i);
    PrevHolds(reg, r, h, i);
    AllIndex(h, |h.older| + i);
    AllIndex(h, |h.older| + i + 1);
    ClockAfterEach(h, U64_MAX, |h.older| + i);
    ClockAfterEach(h, U64_MAX, |h.older| + i + 1);
    PrevFollower(reg, r, h, i, U64_MAX, true);
  }

  /** Right after a wrap it stops before the last message written, which tailing prints as soon as
      the next message follows. */
  lemma {:induction false} FastForwardWrapped(reg: Registry, r: Ring, h: History)
    requires RingInv(reg, r, h) && h.cur == [] && h.prev != []
    ensures TailInv(reg, r, h, FastForward(r.m, reg, Fresh(r), true), |h.All()| - 1)
  {
    hide Lay, PrevIntact, Fits, TscAt, FollowerOk, Holds, NextTsc;
    hide CurInv, Fill, RecOk, ReadableAt, ClockAfter, TailInv, Increasing;
    var s, stop := Fresh(r), |h.prev| - 1;
    ClockMax(reg, r, h);
    LapsIncreasing(h);
    LapLength(reg, h.prev, r.bufEnd - r.Start());
    FullLap(reg, h.prev, r.bufEnd - r.Start());
    OffMono(h.prev, 0, stop);
    forall i | 0 <= i < stop
      ensures ReadableAt(r.m, s.start, s.end, h.prev, i, true, U64_MAX)
    {
      WrappedReadable(reg, r, h, i);
    }
    SkipLap(r.m, reg, s.start, s.end, s, h.prev, 0, stop);
    var s' := s.(cur := s.start + Off(h.prev, stop), lastTsc := h.prev[stop - 1].tsc);
    StopsAtLast(reg, r, h, s');
    AtLastInStep(reg, r, h, s');
    assert FastForward(r.m, reg, s, true) == s';
  }

  /** A reader before the last message of a lap that has just ended is in step. */
  lemma {:induction false} AtLastInStep(reg: Registry, r: Ring, h: History, s: Reader)
    requires RingInv(reg, r, h) && h.cur == [] && |h.prev| >= 2
    requires s.start == r.Start() && s.end == r.bufEnd
    requires s.cur == s.start + Off(h.prev, |h.prev| - 1) && s.lastTsc == h.prev[|h.prev| - 2].tsc
    ensures TailInv(reg, r, h, s, |h.All()| - 1)
  {
    hide Lay, Fits, Fill, RecOk;
    LapsIncreasing(h);
    OffMono(h.prev, 0, |h.prev| - 1);
    AllIndex(h, |h.All()| - 1);
    AllIndex(h, |h.All()| - 2);
    assert Earlier(h.prev, |h.prev| - 2, |h.prev| - 1);
  }

  lemma {:induction false} StopsAtLast(reg: Registry, r: Ring, h: History, s: Reader)
    requires RingInv(reg, r, h) && h.cur == [] && |h.prev| >= 2
    requires s.start == r.Start() && s.end == r.bufEnd && s.corruption == 0
    requires s.cur == s.start + Off(h.prev, |h.prev| - 1) && s.lastTsc == h.prev[|h.prev| - 2].tsc
    ensures Next(r.m, reg, s, U64_MAX, true) == Nothing
  {
    hide Lay, PrevIntact, FollowerOk, Holds, Next, Fits;
    var last := |h.prev| - 1;
    ClockMax(reg, r, h);
    LapsIncreasing(h);
    OffMono(h.prev, 0, last);
    assert Earlier(h.prev, last - 1, last) && RecOk(reg, h.prev[last]);
    PrevHolds(reg, r, h, last);
    LastFollower(reg, r, h, U64_MAX);
    NextAtRecord(r.m, reg, s, h.prev[last], U64_MAX, true);
  }

  lemma {:induction false} SkipKeepsCount(m: seq<byte>, reg: Registry, s: Reader)
    ensures SkipAll(m, reg, s, true).corruption == s.corruption
    decreases if s.cur < |m| then |m| - s.cur else 0
  {
    hide Next;
    var f := Next(m, reg, s, U64_MAX, true);
    if f.Msg? {
      FoundInside(m, reg, s, U64_MAX, true);
      SkipKeepsCount(m, reg, Advance(s, f));
    }
  }

  /** Starting to tail an existing file: `fastforward` puts the reader in step with the writer,
      with nothing left to print except, right after a wrap, the last message. */
  lemma {:induction false} FastForwardInStep(reg: Registry, r: Ring, h: History)
    requires RingInv(reg, r, h)
    ensures var n := |h.All()| - if h.cur == [] && h.prev != [] then 1 else 0;
      InStep(reg, System(r, h, FastForward(r.m, reg, Fresh(r), true), h.All()[..n], [], 0))
  {
    hide TailInv, RingInv, SkipAll, Increasing, Kept;
    var n := |h.All()| - if h.cur == [] && h.prev != [] then 1 else 0;
    ReadyOf(reg, r, h);
    KeptAll(h.All(), n, []);
    SkipKeepsCount(r.m, reg, Fresh(r));
    if h.cur == [] && h.prev != [] {
      FastForwardWrapped(reg, r, h);
    } else {
      FastForwardCur(reg, r, h);
    }
  }

  // ------------------------------------------------------ opening a file again

  /** Record `i` of the lap at `start` starts in the usable area and can be read. */
  ghost predicate InLap(m: seq<byte>, start: nat, end: nat, rs: seq<Rec>, i: nat)
    requires i < |rs|
  {
    start + Off(rs, i) < end && ReadableAt(m, start, end, rs, i, true, U64_MAX)
  }

  /** The forward loop of `rewind` over the records of a lap up to record `stop`, in tailing mode. */
  lemma {:induction false} ForwardUpTo(m: seq<byte>, reg: Registry, start: nat, end: nat, s: Reader, rs: seq<Rec>,
                                       k: nat, stop: nat)
    requires k <= stop <= |rs| && RecsOk(reg, rs) && Increasing(rs) && s.start == start && s.end == end
    requires forall i {:trigger InLap(m, start, end, rs, i)} :: k <= i < stop ==> InLap(m, start, end, rs, i)
    requires s.cur == start + Off(rs, k) && (k < stop ==> s.lastTsc <= rs[k].tsc)
    ensures var lastTsc := if k < stop then rs[stop - 1].tsc else s.lastTsc;
      Forward(m, reg, s, true) == Forward(m, reg, s.(cur := start + Off(rs, stop), lastTsc := lastTsc), true)
    decreases stop - k
  {
    hide Lay, FollowerOk, Holds, Fits, Next, NextTsc;
    if k < stop {
      assert InLap(m, start, end, rs, k) && RecOk(reg, rs[k]);
      assert k + 1 < stop ==> Earlier(rs, k, k + 1);
      NextAtRecord(m, reg, s, rs[k], U64_MAX, true);
      var s' := s.(cur := start + Off(rs, k + 1), lastTsc := rs[k].tsc);
      ForwardUpTo(m, reg, start, end, s', rs, k + 1, stop);
    }
  }

  /** Right after a wrap the follower of the last message is the old first message: `rewind`, which
      tolerates no failed decode, takes that for corruption. */
  lemma {:induction false} ForwardFails(reg: Registry, r: Ring, h: History)
    requires RingInv(reg, r, h) && h.cur == [] && h.prev != []
    ensures Forward(r.m, reg, Fresh(r).(corruption := THRESHOLD), true) == None
  {
    hide Lay, PrevIntact, Fits, TscAt, FollowerOk, Holds;
    hide NextTsc, CurInv, Fill, RecOk, ReadableAt, ClockAfter, Increasing;
    var s, stop := Fresh(r).(corruption := THRESHOLD), |h.prev| - 1;
    LapsIncreasing(h);
    LapLength(reg, h.prev, r.bufEnd - r.Start());
    FullLap(reg, h.prev, r.bufEnd - r.Start());
    forall i | 0 <= i < stop
      ensures InLap(r.m, s.start, s.end, h.prev, i)
    {
      WrappedReadable(reg, r, h, i);
    }
    ForwardUpTo(r.m, reg, s.start, s.end, s, h.prev, 0, stop);
    LastIsCorrupt(reg, r, h, s.(cur := s.start + Off(h.prev, stop), lastTsc := h.prev[stop - 1].tsc));
  }

  lemma {:induction false} LastIsCorrupt(reg: Registry, r: Ring, h: History, s: Reader)
    requires RingInv(reg, r, h) && h.cur == [] && |h.prev| >= 2
    requires s.start == r.Start() && s.end == r.bufEnd && s.corruption >= THRESHOLD
    requires s.cur == s.start + Off(h.prev, |h.prev| - 1) && s.lastTsc == h.prev[|h.prev| - 2].tsc
    ensures Next(r.m, reg, s, U64_MAX, true) == Corrupt && s.cur < s.end
  {
    hide Lay, PrevIntact, FollowerOk, Holds, Next, Fits;
    var last := |h.prev| - 1;
    ClockMax(reg, r, h);
    LapsIncreasing(h);
    OffMono(h.prev, 0, last);
    assert Earlier(h.prev, last - 1, last) && RecOk(reg, h.prev[last]);
    PrevHolds(reg, r, h, last);
    LastFollower(reg, r, h, U64_MAX);
    NextAtRecord(r.m, reg, s, h.prev[last], U64_MAX, true);
  }

  /** In all other states the forward loop finds the end of the current lap, as in qtcat mode. */
  lemma {:induction false} ForwardSame(reg: Registry, r: Ring, h: History)
    requires RingInv(reg, r, h) && (h.cur != [] || h.prev == [])
    ensures var s := Fresh(r).(corruption := THRESHOLD);
      Forward(r.m, reg, s, true) == Forward(r.m, reg, s, false)
  {
    hide Lay, Readable, TscAt, PrevIntact, RecOk, Length, At, FollowerOk, Increasing, ClockAfter, Fill, CurInv;
    var s := Fresh(r).(corruption := THRESHOLD);
    ForwardFindsEnd(reg, r, h);
    ClockMax(reg, r, h);
    CurReadable(reg, r, h, U64_MAX, true);
    ForwardLap(r.m, reg, s, h.cur, 0, true);
    CurEnd(reg, r, h);
    ForwardStops(r.m, reg, s.(cur := r.ptr, lastTsc := if h.cur == [] then 0 else h.cur[|h.cur| - 1].tsc));
  }

  lemma {:induction false} ForwardStops(m: seq<byte>, reg: Registry, s: Reader)
    requires TscAt(m, s.cur) == 0
    ensures Forward(m, reg, s, true) == Some(s)
  {
    hide TscAt, FollowerOk;
  }

  /** Opening a file for tailing goes to the first message as qtcat does, except right after a wrap with
      nothing written since: there it fails, and qttail exits. */
  lemma {:induction false} TailRewind(reg: Registry, r: Ring, h: History)
    requires RingInv(reg, r, h)
    ensures Rewind(r.m, reg, Fresh(r), true).None? <==> h.cur == [] && h.prev != []
    ensures Rewind(r.m, reg, Fresh(r), true) ==
      if h.cur == [] && h.prev != [] then None else Rewind(r.m, reg, Fresh(r), false)
  {
    hide Lay, Forward, SplitCursor, TscAt, Increasing, CurInv, Recovered, Pending, PrevIntact;
    CatRecovery(reg, r, h);
    if h.cur == [] && h.prev != [] {
      ForwardFails(reg, r, h);
    } else {
      ForwardSame(reg, r, h);
    }
  }

  /** Where it succeeds and the ring is not blind, the reader is in step with the writer: tailing will
      print what qtcat would, and then what is written next. */
  lemma {:induction false} RewindInStep(reg: Registry, r: Ring, h: History)
    requires RingInv(reg, r, h) && (h.cur != [] || h.prev == []) && !Blind(r, h)
    ensures var s, n := Rewind(r.m, reg, Fresh(r), true), |h.All()| - |Recovered(r, h)|;
      s.Some? && n >= 0 && InStep(reg, System(r, h, s.value, h.All()[..n], [], 0))
  {
    hide RingInv, Rewind, TailInv, Recovered, Kept;
    TailRewind(reg, r, h);
    ReadyOf(reg, r, h);
    RecoveredIsSuffix(r, h);
    var n := |h.All()| - |Recovered(r, h)|;
    KeptAll(h.All(), n, []);
    RewoundCursor(reg, r, h);
    RewoundCount(r.m, reg, Fresh(r));
  }

  lemma {:induction false} RewoundCount(m: seq<byte>, reg: Registry, s: Reader)
    requires s.start >= 4
    ensures Rewind(m, reg, s, false).Some? ==> Rewind(m, reg, s, false).value.corruption == 0
  {
    hide Forward, SplitCursor, TscAt;
  }

  lemma {:induction false} RewoundCursor(reg: Registry, r: Ring, h: History)
    requires RingInv(reg, r, h) && (h.cur != [] || h.prev == []) && !Blind(r, h)
    ensures var s := Rewind(r.m, reg, Fresh(r), false);
      s.Some? && TailInv(reg, r, h, s.value, |h.All()| - |Recovered(r, h)|)
  {
    hide Lay, TscAt, PrevIntact, Forward, Backward, FirstAbove, SplitCursor;
    hide Holds, RecOk, Load, Sub, Blind, FirstOld, TailInv;
    var s1, s := Fresh(r).(corruption := THRESHOLD), Rewind(r.m, reg, Fresh(r), false);
    ForwardFindsEnd(reg, r, h);
    if h.prev != [] {
      SplitCursorIs(reg, r, h, s1.(cur := r.ptr, lastTsc := h.cur[|h.cur| - 1].tsc));
    }
    NothingOld(r, h);
    if FirstOld(r, h) == |h.prev| {
      AtCurrent(reg, r, h, s.value);
    } else {
      AtOld(reg, r, h, s.value, FirstOld(r, h));
    }
  }

  lemma {:induction false} NothingOld(r: Ring, h: History)
    requires r.Start() <= r.ptr && !Blind(r, h)
    ensures FirstOld(r, h) <= |h.prev| && (h.prev == [] ==> FirstOld(r, h) == 0)
    ensures |h.All()| - |Recovered(r, h)| == |h.older| + FirstOld(r, h)
  {
    hide Blind, FirstAbove;
  }

  lemma {:induction false} AtCurrent(reg: Registry, r: Ring, h: History, s: Reader)
    requires RingInv(reg, r, h) && (h.cur != [] || h.prev == [])
    requires s.start == s.cur == r.Start() && s.end == r.bufEnd && s.lastTsc == TscAt(r.m, s.cur)
    ensures TailInv(reg, r, h, s, Base(h))
  {
    hide Lay, TscAt, PrevIntact, RecOk, Increasing, Fill;
    if h.cur == [] {
      CurEnd(reg, r, h);
    } else {
      StartLapFirst(reg, r, h);
      AllIndex(h, Base(h));
    }
  }

  lemma {:induction false} AtOld(reg: Registry, r: Ring, h: History, s: Reader, k: nat)
    requires RingInv(reg, r, h) && h.cur != [] && k < |h.prev| && k == FirstOld(r, h)
    requires s.start == r.Start() && s.cur == r.Start() + Off(h.prev, k) && s.end == r.bufEnd
    requires s.lastTsc == TscAt(r.m, s.cur)
    ensures TailInv(reg, r, h, s, |h.older| + k)
  {
    hide Lay, TscAt, PrevIntact, Holds, Fill, FirstAbove, CurInv;
    var n := |h.older| + k;
    PrevHolds(reg, r, h, k);
    assert RecOk(reg, h.prev[k]);
    ReadBack(reg, r.m, s.cur, h.prev[k]);
    AllIndex(h, n);
    if n > 0 {
      assert Earlier(h.All(), n - 1, n);
    }
  }
}
