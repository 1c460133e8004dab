/** What qtcat recovers from the bytes of one ring: `rewind` followed by repeated `dump`, on a ring
    that any run of trace statements has left behind. */
module Recovery {
  import opened Bytes
  import opened Codes
  import opened Wrappers
  import opened Records
  import opened RingState
  import opened RingReader

  /** The reader of a ring, freshly constructed. */
  function Fresh(r: Ring): Reader
    requires r.Placed()
  {
    NewReader(r.base, r.bufEnd + TRAILER - r.base)
  }

  /** On the unchanging memory `m`, the reader delivers exactly `rs` in qtcat mode: each message is
      the one selected and printed, and after the last one the ring is never selected again. */
  ghost predicate Pending(m: seq<byte>, reg: Registry, s: Reader, rs: seq<Rec>)
    decreases |rs|
  {
    if rs == [] then NextTsc(m, s) == 0 || NextTsc(m, s) == U64_MAX
    else
      var (s', o) := Dump(m, reg, s, NextTsc(m, s), U64_MAX, false);
      && 0 < NextTsc(m, s) == rs[0].tsc < U64_MAX
      && o == Printed(rs[0])
      && Pending(m, reg, s', rs[1..])
  }

  // ------------------------------------------------------- reading one lap

  /** Record `i` of the lap at `start` is in memory and its follower passes. */
  ghost predicate ReadableAt(m: seq<byte>, start: nat, end: nat, rs: seq<Rec>, i: nat, tail: bool, curTsc: nat)
    requires i < |rs|
  {
    && Holds(m, start + Off(rs, i), rs[i])
    && rs[i].tsc < curTsc
    && FollowerOk(m, start, end, rs[i].tsc, start + Off(rs, i + 1), curTsc, tail)
  }

  /** From record `k` on, the lap at `start` can be read. */
  ghost predicate Readable(m: seq<byte>, reg: Registry, start: nat, end: nat, rs: seq<Rec>, k: nat, tail: bool,
                           curTsc: nat)
  {
    && start <= end
    && Lap(reg, rs, end - start)
    && Increasing(rs)
    && forall i {:trigger ReadableAt(m, start, end, rs, i, tail, curTsc)} ::
         k <= i < |rs| ==> ReadableAt(m, start, end, rs, i, tail, curTsc)
  }

  /** At a complete record whose follower passes, `next` returns it. */
  lemma {:induction false} NextAtRecord(m: seq<byte>, reg: Registry, s: Reader, r: Rec, curTsc: nat, tail: bool)
    requires Holds(m, s.cur, r) && RecOk(reg, r) && s.lastTsc <= r.tsc < curTsc
    ensures NextTsc(m, s) == r.tsc > 0
    ensures Next(m, reg, s, curTsc, tail) ==
      if FollowerOk(m, s.start, s.end, r.tsc, s.cur + 13 + |r.params|, curTsc, tail)
      then Msg(r.tsc, r.id, |r.params|) else Suspicious(s)
    ensures Sub(m, s.cur + 12, |r.params|) == r.params
  {
    ReadBack(reg, m, s.cur, r);
  }

  /** The follower check on another record of the same lap. */
  lemma {:induction false} RecordFollows(m: seq<byte>, reg: Registry, start: nat, end: nat, tsc: nat, q: nat, r: Rec,
                                         curTsc: nat, tail: bool)
    requires Holds(m, q, r) && RecOk(reg, r) && q < end && tsc < r.tsc <= curTsc
    ensures FollowerOk(m, start, end, tsc, q, curTsc, tail)
  {
    ReadBack(reg, m, q, r);
  }

  lemma {:induction false} ForwardLap(m: seq<byte>, reg: Registry, s: Reader, rs: seq<Rec>, k: nat, tail: bool)
    requires k <= |rs| && Readable(m, reg, s.start, s.end, rs, k, tail, U64_MAX)
    requires s.cur == s.start + Off(rs, k)
    requires k < |rs| ==> s.lastTsc <= rs[k].tsc
    ensures Forward(m, reg, s, tail) ==
      Forward(m, reg, s.(cur := s.start + End(rs), lastTsc := if k < |rs| then rs[|rs| - 1].tsc else s.lastTsc), tail)
    decreases |rs| - k
  {
    hide Lay, TscAt, Load, Sub, At, Length, FollowerOk, Holds, RecOk, Next, NextTsc, Suspicious;
    if k < |rs| {
      LapLength(reg, rs, s.end - s.start);
      assert ReadableAt(m, s.start, s.end, rs, k, tail, U64_MAX);
      assert k + 1 < |rs| ==> Earlier(rs, k, k + 1);
      NextAtRecord(m, reg, s, rs[k], U64_MAX, tail);
      ForwardLap(m, reg, s.(cur := s.start + Off(rs, k + 1), lastTsc := rs[k].tsc), rs, k + 1, tail);
    } else {
    }
  }

  /** Dumping a lap from record `k` on, then whatever is pending after its end. */
  lemma {:induction false} PendingLap(m: seq<byte>, reg: Registry, s: Reader, rs: seq<Rec>, k: nat, rest: seq<Rec>)
    requires k < |rs| && Readable(m, reg, s.start, s.end, rs, k, false, U64_MAX)
    requires s.cur == s.start + Off(rs, k) && s.lastTsc <= rs[k].tsc
    requires var done := s.(cur := WrapCursor(s, s.start + End(rs)), lastTsc := rs[|rs| - 1].tsc, corruption := 0);
      Pending(m, reg, done, rest)
    ensures Pending(m, reg, s, rs[k..] + rest)
    decreases |rs| - k
  {
    hide Lay, TscAt, Load, Sub, At, Length, FollowerOk, Holds, RecOk, Next, NextTsc, Suspicious, Fits;
    LapLength(reg, rs, s.end - s.start);
    assert ReadableAt(m, s.start, s.end, rs, k, false, U64_MAX);
    assert k + 1 < |rs| ==> Earlier(rs, k, k + 1);
    NextAtRecord(m, reg, s, rs[k], U64_MAX, false);
    var s' := s.(cur := WrapCursor(s, s.start + Off(rs, k + 1)), lastTsc := rs[k].tsc, corruption := 0);
    assert Dump(m, reg, s, rs[k].tsc, U64_MAX, false) == (s', Printed(rs[k]));
    if k + 1 < |rs| {
      PendingLap(m, reg, s', rs, k + 1, rest);
      assert (rs[k..] + rest)[1..] == rs[k + 1..] + rest;
    } else {
      assert (rs[k..] + rest)[1..] == rest;
    }
  }

  // ------------------------------------------------ the two laps of a ring

  lemma {:induction false} PartEarlier(a: seq<Rec>, b: seq<Rec>, c: seq<Rec>, i: nat, j: nat)
    requires Increasing(a + b + c) && i < |b|
    ensures i < j < |b| ==> Earlier(b, i, j)
    ensures j < |c| ==> b[i].tsc < c[j].tsc
  {
    var all := a + b + c;
    if i < j < |b| {
      assert Earlier(all, |a| + i, |a| + j);
      assert all[|a| + i] == b[i] && all[|a| + j] == b[j];
    }
    if j < |c| {
      assert Earlier(all, |a| + i, |a| + |b| + j);
      assert all[|a| + i] == b[i] && all[|a| + |b| + j] == c[j];
    }
  }

  /** Both laps of a ring are increasing. */
  lemma {:induction false} LapsIncreasing(h: History)
    requires Increasing(h.All())
    ensures Increasing(h.prev) && Increasing(h.cur)
  {
    forall i: nat, j: nat | i < j < |h.prev|
      ensures Earlier(h.prev, i, j)
    {
      PartEarlier(h.older, h.prev, h.cur, i, j);
    }
    forall i: nat, j: nat | i < j < |h.cur|
      ensures Earlier(h.cur, i, j)
    {
      assert h.All() == (h.older + h.prev) + h.cur + [];
      PartEarlier(h.older + h.prev, h.cur, [], i, j);
    }
  }

  lemma {:induction false} CurHolds(reg: Registry, r: Ring, h: History, k: nat)
    requires RingInv(reg, r, h) && k < |h.cur|
    ensures Holds(r.m, r.Start() + Off(h.cur, k), h.cur[k])
    ensures Off(h.cur, k) < r.bufEnd - r.Start()
  {
    hide Holds, Fits, PrevInv, Lay;
    LaySize(h.cur);
    assert r.m[r.Start()..r.ptr] == Lay(h.cur)[0..];
    assert Intact(r.m, r.Start(), h.cur, r.Start());
    IntactHolds(r.m, r.Start(), h.cur, r.Start(), k);
    LapLength(reg, h.cur, r.bufEnd - r.Start());
  }

  lemma {:induction false} CurFollower(reg: Registry, r: Ring, h: History, k: nat, curTsc: nat, tail: bool)
    requires RingInv(reg, r, h) && k < |h.cur|
    requires forall i :: 0 <= i < |h.cur| ==> h.cur[i].tsc < curTsc
    ensures FollowerOk(r.m, r.Start(), r.bufEnd, h.cur[k].tsc, r.Start() + Off(h.cur, k + 1), curTsc, tail)
  {
    hide Lay, PrevInv, TscAt, Holds, Fits, Load, Increasing;
    LapsIncreasing(h);
    if k + 1 < |h.cur| {
      CurHolds(reg, r, h, k + 1);
      assert Earlier(h.cur, k, k + 1);
      var q := r.Start() + Off(h.cur, k + 1);
      RecordFollows(r.m, reg, r.Start(), r.bufEnd, h.cur[k].tsc, q, h.cur[k + 1], curTsc, tail);
    } else {
      ZeroTsc(r.m, r.ptr);
    }
  }

  /** The current lap can be read to its end, in either mode. */
  lemma {:induction false} CurReadable(reg: Registry, r: Ring, h: History, curTsc: nat, tail: bool)
    requires RingInv(reg, r, h)
    requires forall i :: 0 <= i < |h.cur| ==> h.cur[i].tsc < curTsc
    ensures Readable(r.m, reg, r.Start(), r.bufEnd, h.cur, 0, tail, curTsc)
  {
    LapsIncreasing(h);
    forall k | 0 <= k < |h.cur|
      ensures ReadableAt(r.m, r.Start(), r.bufEnd, h.cur, k, tail, curTsc)
    {
      CurHolds(reg, r, h, k);
      CurFollower(reg, r, h, k, curTsc, tail);
    }
  }

  lemma {:induction false} CurReadableByCat(reg: Registry, r: Ring, h: History)
    requires RingInv(reg, r, h)
    ensures Readable(r.m, reg, r.Start(), r.bufEnd, h.cur, 0, false, U64_MAX)
  {
    forall i | 0 <= i < |h.cur|
      ensures h.cur[i].tsc < U64_MAX
    {
      assert RecOk(reg, h.cur[i]);
    }
    CurReadable(reg, r, h, U64_MAX, false);
  }

  lemma {:induction false} PrevHolds(reg: Registry, r: Ring, h: History, k: nat)
    requires RingInv(reg, r, h) && k < |h.prev| && Limit(r, h) <= r.Start() + Off(h.prev, k)
    ensures Holds(r.m, r.Start() + Off(h.prev, k), h.prev[k])
    ensures Off(h.prev, k) < r.bufEnd - r.Start()
  {
    hide Lay, Intact, Holds, Fits;
    IntactHolds(r.m, r.Start(), h.prev, Limit(r, h), k);
    LapLength(reg, h.prev, r.bufEnd - r.Start());
  }

  /** The 0xff bytes after a previous lap that is not overwritten to its end. */
  lemma {:induction false} PrevEnd(reg: Registry, r: Ring, h: History)
    requires RingInv(reg, r, h) && h.prev != [] && Limit(r, h) <= TailEnd(r, h)
    ensures TscAt(r.m, TailEnd(r, h)) == U64_MAX && TailEnd(r, h) >= r.bufEnd
  {
    OnesTsc(r.m, TailEnd(r, h));
  }

  lemma {:induction false} PrevFollower(reg: Registry, r: Ring, h: History, k: nat, curTsc: nat, tail: bool)
    requires RingInv(reg, r, h) && k < |h.prev| && Limit(r, h) <= r.Start() + Off(h.prev, k)
    requires k + 1 < |h.prev| ==> h.prev[k + 1].tsc <= curTsc
    requires k + 1 == |h.prev| ==> !tail
    ensures FollowerOk(r.m, r.Start(), r.bufEnd, h.prev[k].tsc, r.Start() + Off(h.prev, k + 1), curTsc, tail)
  {
    hide Lay, FollowerOk, TscAt, Intact, RecOk, CurInv;
    OffMono(h.prev, k, k + 1);
    if k + 1 < |h.prev| {
      LapsIncreasing(h);
      PrevHolds(reg, r, h, k + 1);
      assert Earlier(h.prev, k, k + 1);
      var q := r.Start() + Off(h.prev, k + 1);
      RecordFollows(r.m, reg, r.Start(), r.bufEnd, h.prev[k].tsc, q, h.prev[k + 1], curTsc, tail);
    } else {
      PrevEndFollows(reg, r, h, h.prev[k].tsc, curTsc);
    }
  }

  lemma {:induction false} PrevEndFollows(reg: Registry, r: Ring, h: History, tsc: nat, curTsc: nat)
    requires RingInv(reg, r, h) && h.prev != [] && Limit(r, h) <= TailEnd(r, h)
    ensures FollowerOk(r.m, r.Start(), r.bufEnd, tsc, TailEnd(r, h), curTsc, false)
  {
    hide TscAt, RingInv;
    PrevEnd(reg, r, h);
  }

  /** What is left of the previous lap can be read to its end by qtcat. */
  lemma {:induction false} PrevReadable(reg: Registry, r: Ring, h: History, k: nat)
    requires RingInv(reg, r, h) && k < |h.prev| && Limit(r, h) <= r.Start() + Off(h.prev, k)
    ensures Readable(r.m, reg, r.Start(), r.bufEnd, h.prev, k, false, U64_MAX)
  {
    hide Lay, TscAt, Load, Sub, At, FollowerOk, Holds, PrevIntact;
    LapsIncreasing(h);
    forall i | k <= i < |h.prev|
      ensures ReadableAt(r.m, r.Start(), r.bufEnd, h.prev, i, false, U64_MAX)
    {
      OffMono(h.prev, k, i);
      PrevHolds(reg, r, h, i);
      assert RecOk(reg, h.prev[i]);
      if i + 1 < |h.prev| {
        assert RecOk(reg, h.prev[i + 1]);
      }
      PrevFollower(reg, r, h, i, U64_MAX, false);
    }
  }

  // --------------------------------------------------------- backward walk

  /** The lowest boundary of the lap above `split`, searched from boundary `j` down. */
  function FirstAbove(rs: seq<Rec>, start: nat, split: nat, j: nat): (k: nat)
    requires j <= |rs| && start <= split < start + Off(rs, j)
    ensures 0 < k <= j && split < start + Off(rs, k) && start + Off(rs, k - 1) <= split
  {
    if split < start + Off(rs, j - 1) then FirstAbove(rs, start, split, j - 1) else j
  }

  /** The walk reads no byte below the split point. */
  lemma {:induction false} BackwardReadsAbove(m: seq<byte>, m': seq<byte>, w: Walk, split: nat)
    requires forall i :: split <= i ==> At(m, i) == At(m', i)
    ensures Backward(m, w, split) == Backward(m', w, split)
    decreases if w.p > split then w.p - split else 0
  {
    if w.p > split {
      assert At(m, w.p - 1) == At(m', w.p - 1);
      BackwardReadsAbove(m, m', Walk(w.p - 1 - At(m, w.p - 1), w.p, w.moved + 1), split);
    }
  }

  /** Started at a boundary of the previous lap, the walk goes from boundary to boundary and stops
      one below the lowest boundary above the split point, which becomes the cursor. */
  lemma {:induction false} BackwardWalk(reg: Registry, m: seq<byte>, start: nat, prev: seq<Rec>, split: nat, j: nat,
                                        cur: nat, moved: nat)
    requires j <= |prev| && start <= split < start + Off(prev, j)
    requires RecsOk(reg, prev) && Intact(m, start, prev, split)
    ensures var k := FirstAbove(prev, start, split, j);
      Backward(m, Walk(start + Off(prev, j), cur, moved), split)
      == Walk(start + Off(prev, k - 1), start + Off(prev, k), moved + j - k + 1)
    decreases j
  {
    hide Lay, Intact, RecOk, At;
    var p, q := start + Off(prev, j), start + Off(prev, j - 1);
    IntactLengthByte(m, start, prev, split, j - 1, reg);
    assert p - 1 - At(m, p - 1) == q;
    if split < start + Off(prev, j - 1) {
      BackwardWalk(reg, m, start, prev, split, j - 1, start + Off(prev, j), moved + 1);
    }
  }

  // ------------------------------------------------------------ cat recovery

  /** The last record of the previous lap starts exactly eight bytes after the write position. */
  predicate Blind(r: Ring, h: History) {
    h.prev != [] && h.cur != [] && r.Start() + Off(h.prev, |h.prev| - 1) == r.ptr + 8
  }

  /** The first record of the previous lap that qtcat recovers. */
  function FirstOld(r: Ring, h: History): (k: nat)
    requires r.Start() <= r.ptr
    ensures k <= |h.prev|
  {
    if h.prev == [] then 0
    else if h.cur == [] then 0
    else if TailEnd(r, h) <= r.ptr + 8 then |h.prev|
      else FirstAbove(h.prev, r.Start(), r.ptr + 8, |h.prev|)
  }

  /** What qtcat prints for the ring. */
  function Recovered(r: Ring, h: History): seq<Rec>
    requires r.Start() <= r.ptr
  {
    if Blind(r, h) then [] else h.prev[FirstOld(r, h)..] + h.cur
  }

  /** The lap that starts at the ring's start: the current one, or right after a wrap the previous. */
  function StartLap(h: History): seq<Rec> {
    if h.cur == [] then h.prev else h.cur
  }

  lemma {:induction false} StartLapFirst(reg: Registry, r: Ring, h: History)
    requires RingInv(reg, r, h) && StartLap(h) != []
    ensures RecOk(reg, StartLap(h)[0]) && Holds(r.m, r.Start(), StartLap(h)[0])
    ensures TscAt(r.m, r.Start()) == StartLap(h)[0].tsc
  {
    hide Lay, TscAt, Intact, Fits, Holds;
    if h.cur == [] {
      PrevHolds(reg, r, h, 0);
    } else {
      CurHolds(reg, r, h, 0);
    }
    assert RecOk(reg, StartLap(h)[0]);
    ReadBack(reg, r.m, r.Start(), StartLap(h)[0]);
  }

  /** Behind the last message written nothing is selected, even when the cursor has wrapped to the
      start: the first message there is older than `lastTsc_`. */
  lemma {:induction false} QuietEnd(reg: Registry, r: Ring, h: History, s: Reader)
    requires RingInv(reg, r, h) && s.start == r.Start() && s.end == r.bufEnd
    requires var lap := StartLap(h);
      if lap == [] then s.cur == s.start
      else s.cur == WrapCursor(s, s.start + End(lap)) && (|lap| >= 2 ==> lap[0].tsc < s.lastTsc)
    ensures Pending(r.m, reg, s, [])
  {
    hide Lay, TscAt, Intact, RecOk;
    var lap := StartLap(h);
    if lap == [] || s.start + End(lap) < s.end {
      ZeroTsc(r.m, r.ptr);
    } else {
      FullLap(reg, lap, r.bufEnd - r.Start());
      StartLapFirst(reg, r, h);
    }
  }

  /** After the last message of the current lap nothing is selected. */
  lemma {:induction false} PendingEnd(reg: Registry, r: Ring, h: History, s: Reader)
    requires RingInv(reg, r, h) && s.start == r.Start() && s.end == r.bufEnd
    requires var lap := StartLap(h);
      if lap == [] then s.cur == s.start
      else s.cur == WrapCursor(s, s.start + End(lap)) && s.lastTsc == lap[|lap| - 1].tsc
    ensures Pending(r.m, reg, s, [])
  {
    hide Lay, CurInv, PrevInv, RecOk, Pending;
    var lap := StartLap(h);
    LapsIncreasing(h);
    assert |lap| >= 2 ==> Earlier(lap, 0, |lap| - 1);
    QuietEnd(reg, r, h, s);
  }

  /** The current lap, read from the start of the ring. */
  lemma {:induction false} PendingCur(reg: Registry, r: Ring, h: History, s: Reader)
    requires RingInv(reg, r, h) && s.start == s.cur == r.Start() && s.end == r.bufEnd
    requires h.cur != [] && s.lastTsc <= h.cur[0].tsc
    ensures Pending(r.m, reg, s, h.cur)
  {
    hide Readable, Lay, TscAt, RecOk, Pending, PrevInv;
    CurReadableByCat(reg, r, h);
    var done := s.(cur := WrapCursor(s, s.start + End(h.cur)), lastTsc := h.cur[|h.cur| - 1].tsc, corruption := 0);
    PendingEnd(reg, r, h, done);
    PendingLap(r.m, reg, s, h.cur, 0, []);
    assert h.cur[0..] + [] == h.cur;
  }

  /** Old messages from record `k` of the previous lap on, then the current lap. */
  lemma {:induction false} PendingOld(reg: Registry, r: Ring, h: History, k: nat, s: Reader)
    requires RingInv(reg, r, h) && s.start == r.Start() && s.end == r.bufEnd
    requires k < |h.prev| && Limit(r, h) <= s.cur == r.Start() + Off(h.prev, k)
    requires s.lastTsc <= h.prev[k].tsc
    ensures Pending(r.m, reg, s, h.prev[k..] + h.cur)
  {
    hide Pending, Lay, TscAt, Readable, CurInv, PrevIntact, RecOk;
    PrevReadable(reg, r, h, k);
    OffMono(h.prev, 0, k);
    var last := h.prev[|h.prev| - 1];
    var done := s.(cur := WrapCursor(s, s.start + End(h.prev)), lastTsc := last.tsc, corruption := 0);
    if h.cur == [] {
      PendingEnd(reg, r, h, done);
    } else {
      PartEarlier(h.older, h.prev, h.cur, |h.prev| - 1, 0);
      PendingCur(reg, r, h, done);
    }
    PendingLap(r.m, reg, s, h.prev, k, h.cur);
  }

  lemma {:induction false} StartLapReadable(reg: Registry, r: Ring, h: History)
    requires RingInv(reg, r, h) && StartLap(h) != []
    ensures Readable(r.m, reg, r.Start(), r.bufEnd, StartLap(h), 0, false, U64_MAX)
  {
    hide Lay, Readable, PrevIntact, CurInv;
    if h.cur == [] {
      PrevReadable(reg, r, h, 0);
    } else {
      CurReadableByCat(reg, r, h);
    }
  }

  /** The forward half of `rewind` stops where the last message was written. */
  lemma {:induction false} ForwardFindsEnd(reg: Registry, r: Ring, h: History)
    requires RingInv(reg, r, h)
    ensures var s := Fresh(r).(corruption := THRESHOLD);
      var lap := StartLap(h);
      Forward(r.m, reg, s, false) ==
        Some(s.(cur := r.Start() + End(lap), lastTsc := if lap == [] then 0 else lap[|lap| - 1].tsc))
  {
    hide Lay, Readable, TscAt, PrevIntact, RecOk, Length, At, FollowerOk;
    var s := Fresh(r).(corruption := THRESHOLD);
    var lap := StartLap(h);
    if h.cur != [] || lap == [] {
      ZeroTsc(r.m, r.ptr);
    }
    if lap != [] {
      StartLapReadable(reg, r, h);
      ForwardLap(r.m, reg, s, lap, 0, false);
    }
  }

  /** Where `rewind` leaves the cursor when both laps hold messages. */
  lemma {:induction false} SplitCursorIs(reg: Registry, r: Ring, h: History, s: Reader)
    requires RingInv(reg, r, h) && h.prev != [] && h.cur != []
    requires s.start == r.Start() && s.end == r.bufEnd && s.cur == r.ptr
    ensures SplitCursor(r.m, s, HEADER + End(h.prev)) ==
      if Blind(r, h) then TailEnd(r, h)
      else if FirstOld(r, h) == |h.prev| then r.Start()
      else r.Start() + Off(h.prev, FirstOld(r, h))
  {
    hide Lay, TscAt, Load, Sub, CurInv, Increasing, RecOk, Fits, Backward;
    var split := r.ptr + 8;
    if split < TailEnd(r, h) {
      BackwardWalk(reg, r.m, r.Start(), h.prev, split, |h.prev|, s.cur, 0);
    }
  }

  /** Cat recovery: on any ring that a run has left behind, `rewind` succeeds and repeated `dump`
      then prints exactly `Recovered`. */
  lemma {:induction false} CatRecovery(reg: Registry, r: Ring, h: History)
    requires RingInv(reg, r, h)
    ensures var s := Rewind(r.m, reg, Fresh(r), false);
      s.Some? && Pending(r.m, reg, s.value, Recovered(r, h))
  {
    hide Lay, TscAt, PrevIntact, Pending, Forward, Backward, Blind, FirstOld, Recovered, Holds, RecOk, Load, Sub;
    var s1 := Fresh(r).(corruption := THRESHOLD);
    var s := Rewind(r.m, reg, Fresh(r), false);
    ForwardFindsEnd(reg, r, h);
    if h.prev == [] || h.cur == [] {
      RecoverOneLap(reg, r, h, s.value);
    } else {
      SplitCursorIs(reg, r, h, s1.(cur := r.ptr, lastTsc := h.cur[|h.cur| - 1].tsc));
      RecoverTwoLaps(reg, r, h, s.value);
    }
  }

  lemma {:induction false} RecoverOneLap(reg: Registry, r: Ring, h: History, s: Reader)
    requires RingInv(reg, r, h) && (h.prev == [] || h.cur == [])
    requires s.start == s.cur == r.Start() && s.end == r.bufEnd && s.lastTsc == TscAt(r.m, s.cur)
    ensures Pending(r.m, reg, s, Recovered(r, h))
  {
    hide Lay, TscAt, PrevIntact, Pending, Holds, RecOk;
    if h.cur == [] && h.prev == [] {
      PendingEnd(reg, r, h, s);
      assert Recovered(r, h) == [];
    } else {
      StartLapFirst(reg, r, h);
      if h.cur == [] {
        PendingOld(reg, r, h, 0, s);
      } else {
        PendingCur(reg, r, h, s);
        assert Recovered(r, h) == h.cur;
      }
    }
  }

  lemma {:induction false} RecoverTwoLaps(reg: Registry, r: Ring, h: History, s: Reader)
    requires RingInv(reg, r, h) && h.prev != [] && h.cur != []
    requires s.start == r.Start() && s.end == r.bufEnd && s.lastTsc == TscAt(r.m, s.cur)
    requires s.cur == if Blind(r, h) then TailEnd(r, h)
      else if FirstOld(r, h) == |h.prev| then r.Start()
      else r.Start() + Off(h.prev, FirstOld(r, h))
    ensures Pending(r.m, reg, s, Recovered(r, h))
  {
    hide Lay, TscAt, Holds, RecOk, Intact, FirstAbove;
    var k := FirstOld(r, h);
    if Blind(r, h) {
      PrevEnd(reg, r, h);
    } else if k == |h.prev| {
      StartLapFirst(reg, r, h);
      PendingCur(reg, r, h, s);
      assert Recovered(r, h) == h.cur;
    } else {
      PrevHolds(reg, r, h, k);
      assert RecOk(reg, h.prev[k]);
      ReadBack(reg, r.m, s.cur, h.prev[k]);
      PendingOld(reg, r, h, k, s);
    }
  }

  // --------------------------------------------------- what is recovered

  /** What qtcat prints is a suffix of the messages written, and it contains the whole current lap
      exactly when the last old record does not start at the split point. */
  lemma {:induction false} RecoveredIsSuffix(r: Ring, h: History)
    requires r.Start() <= r.ptr
    ensures var all, rec := h.All(), Recovered(r, h);
      && |rec| <= |all| && all[|all| - |rec|..] == rec
      && (|rec| >= |h.cur| <==> !Blind(r, h))
  {
  }

  /** Apart from the blind case, the old messages recovered are exactly those that start above the
      split point, eight bytes after the write position. */
  lemma {:induction false} RecoveredOldOnes(r: Ring, h: History, k: nat)
    requires r.Start() <= r.ptr && k < |h.prev| && !Blind(r, h)
    ensures k >= FirstOld(r, h) <==> h.cur == [] || r.Start() + Off(h.prev, k) > r.ptr + 8
  {
    var f := FirstOld(r, h);
    if h.cur != [] {
      OffMono(h.prev, 0, k);
      if k >= f {
        OffMono(h.prev, f, k);
      } else {
        OffMono(h.prev, k, f - 1);
        OffMono(h.prev, f - 1, |h.prev|);
      }
    }
  }

  /** From any run of trace statements on a fresh ring: qtcat succeeds and prints a suffix of the
      enabled messages; it includes the whole current lap if and only if the run is not blind. */
  lemma {:induction false} CatAfterRun(reg: Registry, m: seq<byte>, base: nat, size: nat, es: seq<Event>)
    requires MIN_RING <= size && base + size <= |m| && size < INT_BOUND
    requires EventsFit(es) && EventsOk(reg, es) && Increasing(Written(es))
    ensures var r0 := BufIs(m, base, size);
      var r, h := Run(r0, es), HistoryOf(r0, es);
      var s, rec := Rewind(r.m, reg, NewReader(base, size), false), Recovered(r, h);
      && s.Some? && Pending(r.m, reg, s.value, rec)
      && |rec| <= |Written(es)| && Written(es)[|Written(es)| - |rec|..] == rec
      && (|rec| >= |h.cur| <==> !Blind(r, h))
  {
    hide Pending, Rewind, Recovered, Blind, RingInv, Step, DoWrap;
    var r0 := BufIs(m, base, size);
    var r, h := Run(r0, es), HistoryOf(r0, es);
    BufIsInv(reg, m, base, size);
    RunInv(reg, r0, es);
    CatRecovery(reg, r, h);
    RecoveredIsSuffix(r, h);
  }
}
