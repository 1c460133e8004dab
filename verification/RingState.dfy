/** The writer side of one ring as a value: the memory image, the ring's region and the write
    position, the effect of each writer operation, and the invariant that every run keeps.

    A ring occupies `base .. bufEnd + 256`: the 4-byte tail word, the records, and the trailer. */
module RingState {
  import opened Bytes
  import opened Codes
  import opened Records

  datatype Ring = Ring(m: seq<byte>, base: nat, bufEnd: nat, ptr: nat)
  {
    /** First byte after the tail word. */
    function Start(): nat {
      base + HEADER
    }

    /** The region is inside memory, its offsets fit 32 bits and a lap holds two records. */
    predicate Placed() {
      && base + HEADER + 2 * MAX_RECORD <= bufEnd
      && bufEnd + TRAILER <= |m|
      && bufEnd + TRAILER - base < INT_BOUND
    }

    /** ... and the write position leaves room for the eight bytes after the last record. */
    predicate Ready() {
      && Placed()
      && Start() <= ptr <= bufEnd + MAX_RECORD - 1
    }
  }

  /** The smallest ring of a file is 1 KB; see `Geometry.AddAndLimitSizes`. */
  const MIN_RING: nat := 1024

  // ------------------------------------------------------------- operations

  /** `RingBuf::doWrap`: restore the trailer, store the tail pointer, go back to the start. */
  function DoWrap(r: Ring): Ring
    requires r.Placed() && r.base <= r.ptr <= r.bufEnd + MAX_RECORD - 1
  {
    var m1 := Put(r.m, r.ptr, Fill(255, 8));
    Ring(Put(m1, r.base, Store(r.ptr - r.base, 4)), r.base, r.bufEnd, r.base + HEADER)
  }

  /** `RingBuf::maybeWrap`. */
  function MaybeWrap(r: Ring): (w: Ring)
    requires r.Ready()
    ensures w.Ready() && w.ptr < w.bufEnd && w.base == r.base && w.bufEnd == r.bufEnd && |w.m| == |r.m|
  {
    if r.ptr >= r.bufEnd then DoWrap(r) else r
  }

  /** `RingBuf::bufIs` on a region of `size` bytes. */
  function BufIs(m: seq<byte>, base: nat, size: nat): (r: Ring)
    requires MIN_RING <= size && base + size <= |m| && size < INT_BOUND
    ensures r.Ready() && r.base == base && r.bufEnd == base + size - TRAILER && |r.m| == |m|
    ensures r.ptr == r.Start()
  {
    var m1 := Put(m, base + size - TRAILER, Fill(255, TRAILER));
    var w := DoWrap(Ring(m1, base, base + size - TRAILER, base));
    w.(m := Put(w.m, w.ptr, Fill(0, 8)))
  }

  /** `startMsg`, the `put`s and `endMsg` of one enabled message, after `maybeWrap`. */
  function WriteMsg(r: Ring, rec: Rec): (w: Ring)
    requires r.Ready() && r.ptr < r.bufEnd && 13 + |rec.params| <= MAX_RECORD
    ensures w.Ready() && w.base == r.base && w.bufEnd == r.bufEnd && |w.m| == |r.m|
  {
    var n := 13 + |rec.params|;
    r.(m := Put(Put(r.m, r.ptr, Enc(rec)), r.ptr + n, Fill(0, 8)), ptr := r.ptr + n)
  }

  /** A trace statement: enabled, with the record it writes, or with the `off` bit of its counter
      set, in which case only the wrap takes place. */
  datatype Event = Trace(rec: Rec) | Disabled

  function Step(r: Ring, e: Event): (w: Ring)
    requires r.Ready() && (e.Trace? ==> 13 + |e.rec.params| <= MAX_RECORD)
    ensures w.Ready() && w.base == r.base && w.bufEnd == r.bufEnd && |w.m| == |r.m|
  {
    match e
    case Trace(rec) => WriteMsg(MaybeWrap(r), rec)
    case Disabled => MaybeWrap(r)
  }

  ghost predicate EventsOk(reg: Registry, es: seq<Event>) {
    forall i :: 0 <= i < |es| && es[i].Trace? ==> RecOk(reg, es[i].rec)
  }

  /** No record is larger than the trailer can absorb. */
  predicate EventsFit(es: seq<Event>) {
    forall i :: 0 <= i < |es| && es[i].Trace? ==> 13 + |es[i].rec.params| <= MAX_RECORD
  }

  function Run(r: Ring, es: seq<Event>): (w: Ring)
    requires r.Ready() && EventsFit(es)
    ensures w.Ready() && w.base == r.base && w.bufEnd == r.bufEnd && |w.m| == |r.m|
  {
    if es == [] then r else Step(Run(r, es[..|es| - 1]), es[|es| - 1])
  }

  /** The enabled messages of a run, in order. */
  function Written(es: seq<Event>): seq<Rec> {
    if es == [] then []
    else
      var last := es[|es| - 1];
      Written(es[..|es| - 1]) + if last.Trace? then [last.rec] else []
  }

  // -------------------------------------------------------------- invariant

  /** Every message written so far: those of laps that are gone, of the previous lap and of the
      current one. `prev` is empty until the first wrap. */
  datatype History = History(older: seq<Rec>, prev: seq<Rec>, cur: seq<Rec>)
  {
    function All(): seq<Rec> {
      older + prev + cur
    }
  }

  /** A lap of records starts inside the ring, every record before the end of the usable area. */
  ghost predicate Lap(reg: Registry, rs: seq<Rec>, room: nat) {
    && RecsOk(reg, rs)
    && (rs != [] ==> Off(rs, |rs| - 1) < room)
  }

  /** First byte that the current lap has not overwritten. */
  function Limit(r: Ring, h: History): nat {
    if h.cur == [] then r.Start() else r.ptr + 8
  }

  function TailEnd(r: Ring, h: History): nat {
    r.Start() + End(h.prev)
  }

  /** The current lap is in memory up to `ptr`; the zero tsc follows it, except right after a wrap. */
  ghost predicate CurInv(reg: Registry, r: Ring, h: History)
    requires r.Ready()
  {
    && Lap(reg, h.cur, r.bufEnd - r.Start())
    && r.ptr == r.Start() + End(h.cur)
    && r.m[r.Start()..r.ptr] == Lay(h.cur)
    && (h.cur != [] || h.prev == [] ==> r.m[r.ptr..r.ptr + 8] == Fill(0, 8))
  }

  /** The tail word says where the previous lap ends; what the current lap has not overwritten of
      it is intact, and so are the eight 0xff bytes after it. */
  ghost predicate PrevInv(reg: Registry, r: Ring, h: History)
    requires r.Ready()
  {
    if h.prev == [] then h.older == [] && WordAt(r.m, r.base) == 0
    else
      && Lap(reg, h.prev, r.bufEnd - r.Start())
      && r.bufEnd <= TailEnd(r, h)
      && WordAt(r.m, r.base) == HEADER + End(h.prev)
      && PrevIntact(r.m, r.Start(), h.prev, Limit(r, h))
  }

  ghost predicate PrevIntact(m: seq<byte>, start: nat, prev: seq<Rec>, lim: nat) {
    var end := start + End(prev);
    && end + 8 <= |m|
    && Intact(m, start, prev, lim)
    && (lim <= end ==> m[end..end + 8] == Fill(255, 8))
  }

  ghost predicate RingInv(reg: Registry, r: Ring, h: History) {
    && r.Ready()
    && Increasing(h.All())
    && CurInv(reg, r, h)
    && PrevInv(reg, r, h)
  }

  lemma {:induction false} ReadyOf(reg: Registry, r: Ring, h: History)
    requires RingInv(reg, r, h)
    ensures r.Ready()
  {
  }

  lemma {:induction false} LapLength(reg: Registry, rs: seq<Rec>, room: nat)
    requires Lap(reg, rs, room) && rs != []
    ensures End(rs) <= room + MAX_RECORD - 1
    ensures forall k :: 0 <= k < |rs| ==> Off(rs, k) < room
  {
    forall k | 0 <= k < |rs|
      ensures Off(rs, k) < room
    {
      OffMono(rs, k, |rs| - 1);
    }
    assert RecOk(reg, rs[|rs| - 1]);
  }

  lemma {:induction false} EndBound(reg: Registry, rs: seq<Rec>, k: nat)
    requires RecsOk(reg, rs) && k <= |rs|
    ensures Off(rs, k) <= MAX_RECORD * k
    decreases k
  {
    if k > 0 {
      EndBound(reg, rs, k - 1);
      assert RecOk(reg, rs[k - 1]);
    }
  }

  /** A lap that reaches the end of the usable area holds at least two records. */
  lemma {:induction false} FullLap(reg: Registry, rs: seq<Rec>, room: nat)
    requires RecsOk(reg, rs) && 2 * MAX_RECORD <= room <= End(rs)
    ensures |rs| >= 2
  {
    EndBound(reg, rs, |rs|);
  }

  // -------------------------------------------------- the invariant is kept

  lemma {:induction false} BufIsInv(reg: Registry, m: seq<byte>, base: nat, size: nat)
    requires MIN_RING <= size && base + size <= |m| && size < INT_BOUND
    ensures RingInv(reg, BufIs(m, base, size), History([], [], []))
  {
    var r := BufIs(m, base, size);
    assert r.m[r.ptr..r.ptr + 8] == Fill(0, 8);
    assert r.m[base..base + 4] == Store(0, 4);
    SubIsSlice(r.m, base, 4);
    WordSizes();
    LoadStore(0, 4);
  }

  ghost function AfterWrap(r: Ring, h: History): History {
    if r.ptr >= r.bufEnd then History(h.older + h.prev, h.cur, []) else h
  }

  lemma {:induction false} TailWord(m: seq<byte>, base: nat, v: nat)
    requires base + 4 <= |m| && v < U32_BOUND && m[base..base + 4] == Store(v, 4)
    ensures WordAt(m, base) == v
  {
    SubIsSlice(m, base, 4);
    WordSizes();
    LoadStore(v, 4);
  }

  lemma {:induction false} DoWrapBytes(r: Ring)
    requires r.Ready() && r.ptr >= r.bufEnd
    ensures var w := DoWrap(r);
      && w.m[r.Start()..r.ptr] == r.m[r.Start()..r.ptr]
      && w.m[r.ptr..r.ptr + 8] == Fill(255, 8)
      && WordAt(w.m, r.base) == r.ptr - r.base
  {
    var w := DoWrap(r);
    assert w.m[r.base..r.base + 4] == Store(r.ptr - r.base, 4);
    TailWord(w.m, r.base, r.ptr - r.base);
  }

  lemma {:induction false} WrapInv(reg: Registry, r: Ring, h: History)
    requires RingInv(reg, r, h)
    ensures RingInv(reg, MaybeWrap(r), AfterWrap(r, h))
    ensures AfterWrap(r, h).All() == h.All()
  {
    hide Lay, Store;
    if r.ptr >= r.bufEnd {
      var w, h' := MaybeWrap(r), AfterWrap(r, h);
      assert h'.All() == h.All();
      DoWrapBytes(r);
      assert h.cur != [];
      assert TailEnd(w, h') == r.ptr;
      LaySize(h.cur);
      LayEmpty();
      assert Lay(h.cur)[0..] == Lay(h.cur);
      assert CurInv(reg, w, h');
      assert PrevInv(reg, w, h');
    }
  }

  ghost predicate Newer(h: History, rec: Rec) {
    h.All() != [] ==> h.All()[|h.All()| - 1].tsc < rec.tsc
  }

  lemma {:induction false} IncreasingPrefix(rs: seq<Rec>, n: nat)
    requires Increasing(rs) && n <= |rs|
    ensures Increasing(rs[..n])
  {
    forall i, j | 0 <= i < j < n
      ensures Earlier(rs[..n], i, j)
    {
      assert Earlier(rs, i, j);
    }
  }

  lemma {:induction false} IncreasingSnoc(rs: seq<Rec>, rec: Rec)
    requires Increasing(rs) && (rs != [] ==> rs[|rs| - 1].tsc < rec.tsc)
    ensures Increasing(rs + [rec])
  {
    var all := rs + [rec];
    forall i, j | 0 <= i < j < |all|
      ensures Earlier(all, i, j)
    {
      if j < |rs| {
        assert Earlier(rs, i, j);
      } else if i < |rs| - 1 {
        assert Earlier(rs, i, |rs| - 1);
      }
    }
  }

  /** One more record makes a longer lap. */
  lemma {:induction false} LapSnoc(reg: Registry, rs: seq<Rec>, rec: Rec, room: nat)
    requires Lap(reg, rs, room) && RecOk(reg, rec) && End(rs) < room
    ensures Lap(reg, rs + [rec], room)
  {
    hide RecOk;
    EndSnoc(rs, rec);
    OffPrefix(rs, [rec], |rs|);
  }

  /** Bytes `e` and then `z` written at `p`, seen from `start` on. */
  lemma {:induction false} Appended(m: seq<byte>, start: nat, p: nat, e: seq<byte>, z: seq<byte>)
    requires start <= p && p + |e| + |z| <= |m|
    ensures var m', q := Put(Put(m, p, e), p + |e|, z), p + |e|;
      m'[start..q] == m[start..p] + e && m'[q..q + |z|] == z
  {
    hide Put;
  }

  /** What lies above a limit survives a write below it. */
  lemma {:induction false} PrevIntactKept(m: seq<byte>, m': seq<byte>, start: nat, prev: seq<Rec>, lim: nat, lim': nat)
    requires PrevIntact(m, start, prev, lim) && start <= lim <= lim'
    requires |m| == |m'| && (forall i :: lim' <= i < |m| ==> m'[i] == m[i])
    ensures PrevIntact(m', start, prev, lim')
  {
    hide Lay, Off;
    var end, lay := start + End(prev), Lay(prev);
    if lim' <= end {
      SliceOfSlice(m, lim, end, lim', end);
      SameSlice(m, m', lim', end);
      SameSlice(m, m', end, end + 8);
      SliceOfSlice(lay, lim - start, |lay|, lim' - start, |lay|);
    }
  }

  lemma {:induction false} WritePrev(reg: Registry, r: Ring, h: History, rec: Rec)
    requires RingInv(reg, r, h) && r.ptr < r.bufEnd && RecOk(reg, rec)
    ensures PrevInv(reg, WriteMsg(r, rec), h.(cur := h.cur + [rec]))
  {
    hide Lay, Enc, Fits, Intact, Lap;
    var w, h' := WriteMsg(r, rec), h.(cur := h.cur + [rec]);
    assert Sub(w.m, r.base, 4) == Sub(r.m, r.base, 4);
    if h.prev != [] {
      PrevIntactKept(r.m, w.m, r.Start(), h.prev, Limit(r, h), Limit(w, h'));
    }
  }

  lemma {:induction false} WriteInv(reg: Registry, r: Ring, h: History, rec: Rec)
    requires RingInv(reg, r, h) && r.ptr < r.bufEnd && RecOk(reg, rec) && Newer(h, rec)
    ensures RingInv(reg, WriteMsg(r, rec), h.(cur := h.cur + [rec]))
  {
    hide Lay, Enc, Fits, Put, Fill, PrevInv, Increasing, Lap;
    assert h.(cur := h.cur + [rec]).All() == h.All() + [rec];
    IncreasingSnoc(h.All(), rec);
    LaySnoc(h.cur, rec);
    EndSnoc(h.cur, rec);
    LapSnoc(reg, h.cur, rec, r.bufEnd - r.Start());
    Appended(r.m, r.Start(), r.ptr, Enc(rec), Fill(0, 8));
    WritePrev(reg, r, h, rec);
  }

  /** The history after one more event. */
  ghost function Extend(r: Ring, h: History, e: Event): History {
    var h1 := AfterWrap(r, h);
    if e.Trace? then h1.(cur := h1.cur + [e.rec]) else h1
  }

  lemma {:induction false} StepInv(reg: Registry, r: Ring, h: History, e: Event)
    requires RingInv(reg, r, h)
    requires e.Trace? ==> RecOk(reg, e.rec) && Newer(h, e.rec)
    ensures RingInv(reg, Step(r, e), Extend(r, h, e))
    ensures Extend(r, h, e).All() == h.All() + if e.Trace? then [e.rec] else []
  {
    hide Lay, CurInv, PrevInv, RecOk, MaybeWrap, WriteMsg;
    WrapInv(reg, r, h);
    if e.Trace? {
      WriteInv(reg, MaybeWrap(r), AfterWrap(r, h), e.rec);
    }
  }

  /** The history that a run of events leaves behind. */
  ghost function HistoryOf(r: Ring, es: seq<Event>): History
    requires r.Ready() && EventsFit(es)
  {
    if es == [] then History([], [], [])
    else
      var front := es[..|es| - 1];
      Extend(Run(r, front), HistoryOf(r, front), es[|es| - 1])
  }

  /** After any run of trace statements on a fresh ring, with an increasing clock, the ring is in
      its invariant and its history is exactly the enabled messages, in order. */
  lemma {:induction false} RunInv(reg: Registry, r: Ring, es: seq<Event>)
    requires RingInv(reg, r, History([], [], []))
    requires EventsOk(reg, es) && Increasing(Written(es))
    ensures RingInv(reg, Run(r, es), HistoryOf(r, es))
    ensures HistoryOf(r, es).All() == Written(es)
    decreases |es|
  {
    if es != [] {
      var front, e := es[..|es| - 1], es[|es| - 1];
      IncreasingPrefix(Written(es), |Written(front)|);
      assert Written(front) == Written(es)[..|Written(front)|];
      assert forall i :: 0 <= i < |front| ==> front[i] == es[i];
      RunInv(reg, r, front);
      if e.Trace? && Written(front) != [] {
        assert Earlier(Written(es), |Written(front)| - 1, |Written(front)|);
      }
      StepInv(reg, Run(r, front), HistoryOf(r, front), e);
    }
  }
}
