/** One trace file: all its rings in one memory image. Writing one ring changes no byte outside its
    region, so after any run of trace statements on all levels every ring is in its invariant. */
module TraceFile {
  import opened Bytes
  import opened Codes
  import opened Wrappers
  import opened Records
  import opened RingState
  import opened Geometry
  import RingWriter

  /** Memory, size of everything before the rings, ring sizes in KB, one write position a ring. */
  datatype File = File(m: seq<byte>, hdr: nat, sizes: seq<nat>, ptrs: seq<nat>)

  ghost predicate Mapped(f: File) {
    && |f.ptrs| == |f.sizes|
    && LevelStart(f.hdr, f.sizes, |f.sizes|) <= |f.m|
    && forall i :: 0 <= i < |f.sizes| ==> 1 <= f.sizes[i] && f.sizes[i] * KB < INT_BOUND
  }

  function Base(f: File, i: nat): nat
    requires i < |f.sizes|
  {
    LevelStart(f.hdr, f.sizes, i)
  }

  function RingAt(f: File, i: nat): Ring
    requires i < |f.sizes| == |f.ptrs| && f.sizes[i] >= 1
  {
    Ring(f.m, Base(f, i), Base(f, i) + f.sizes[i] * KB - TRAILER, f.ptrs[i])
  }

  ghost predicate LevelOk(reg: Registry, f: File, hs: seq<History>, i: nat)
    requires i < |f.sizes| == |f.ptrs| == |hs| && f.sizes[i] >= 1
  {
    RingInv(reg, RingAt(f, i), hs[i])
  }

  ghost predicate FileInv(reg: Registry, f: File, hs: seq<History>) {
    && Mapped(f) && |hs| == |f.sizes|
    && forall i {:trigger LevelOk(reg, f, hs, i)} :: 0 <= i < |hs| ==> LevelOk(reg, f, hs, i)
  }

  // ------------------------------------------------------------ containment

  /** `m` and `m'` agree outside the region of ring `r`. */
  ghost predicate SameOutside(r: Ring, m: seq<byte>, m': seq<byte>) {
    && |m| == |m'|
    && forall p :: 0 <= p < |m| && !(r.base <= p < r.bufEnd + TRAILER) ==> m'[p] == m[p]
  }

  /** Containment: a trace statement, with its zero terminator and its 0xff restore, changes no byte
      outside its own ring. */
  lemma {:induction false} StepContained(r: Ring, e: Event)
    requires r.Ready() && (e.Trace? ==> Size(e.rec) <= MAX_RECORD)
    ensures SameOutside(r, r.m, Step(r, e).m)
  {
    hide Enc, Fill, Store, Put;
  }

  lemma {:induction false} BufIsContained(m: seq<byte>, base: nat, size: nat)
    requires MIN_RING <= size && base + size <= |m| && size < INT_BOUND
    ensures SameOutside(BufIs(m, base, size), m, BufIs(m, base, size).m)
  {
    hide Fill, Store, Put;
  }

  /** What an enabled statement stores from `ptr` on, whatever the size of its record. */
  function Stored(m: seq<byte>, ptr: nat, rec: Rec): seq<byte>
    requires ptr + Size(rec) + 8 <= |m|
  {
    Put(Put(m, ptr, Enc(rec)), ptr + Size(rec), Fill(0, 8))
  }

  /** On memory `m`, the statement changes nothing outside the region. */
  ghost predicate Stays(r: Ring, m: seq<byte>, rec: Rec)
    requires r.ptr + Size(rec) + 8 <= |m|
  {
    SameOutside(r, m, Stored(m, r.ptr, rec))
  }

  /** Exactly which records stay inside: an enabled statement keeps to its region on every memory if and
      only if its record and the zero tsc behind it end before the trailer does. */
  lemma {:induction false} ContainedIff(r: Ring, rec: Rec, size: nat)
    requires r.Placed() && r.Start() <= r.ptr < r.bufEnd && r.ptr + Size(rec) + 8 <= size
    ensures (forall m: seq<byte> {:trigger Stays(r, m, rec)} :: |m| == size ==> Stays(r, m, rec))
      <==> r.ptr + Size(rec) + 8 <= r.bufEnd + TRAILER
  {
    hide Enc, Put, Fill, Stays, Stored, SameOutside;
    if r.ptr + Size(rec) + 8 > r.bufEnd + TRAILER {
      Escapes(r, Fill(1, size), rec);
    } else {
      forall m: seq<byte> | |m| == size
        ensures Stays(r, m, rec)
      {
        Contained(r, m, rec);
      }
    }
  }

  lemma {:induction false} Contained(r: Ring, m: seq<byte>, rec: Rec)
    requires r.base <= r.ptr && r.ptr + Size(rec) + 8 <= r.bufEnd + TRAILER && r.ptr + Size(rec) + 8 <= |m|
    ensures Stays(r, m, rec)
  {
    hide Enc, Put, Fill;
  }

  /** The last byte of the zero tsc is behind the ring, and shows on memory that holds ones. */
  lemma {:induction false} Escapes(r: Ring, m: seq<byte>, rec: Rec)
    requires r.ptr + Size(rec) + 8 > r.bufEnd + TRAILER && r.ptr + Size(rec) + 8 <= |m|
    requires m[r.ptr + Size(rec) + 7] != 0
    ensures !Stays(r, m, rec)
  {
    hide Enc, Put, Fill;
    var p := r.ptr + Size(rec) + 7;
    assert Stored(m, r.ptr, rec)[p] == Fill(0, 8)[7];
  }

  predicate EndsInside(r: Ring, ptr: nat, n: nat) {
    ptr + n + 8 <= r.bufEnd + TRAILER
  }

  /** At every position of the usable area exactly the records of at most 249 bytes stay inside. */
  lemma {:induction false} BoundIsTight(r: Ring, n: nat)
    requires r.Placed()
    ensures (forall ptr: nat :: r.Start() <= ptr < r.bufEnd ==> EndsInside(r, ptr, n)) <==> n <= MAX_RECORD
  {
    assert EndsInside(r, r.bufEnd - 1, n) <==> n <= MAX_RECORD;
  }

  /** `putLongString` with a string that reaches its limit: a record of 254 bytes, which stays inside on
      every memory if and only if it starts before the last five bytes of the usable area. */
  lemma {:induction false} LongStringEscapes(r: Ring, tsc: nat, id: nat, text: seq<byte>, size: nat)
    requires r.Placed() && r.Start() <= r.ptr < r.bufEnd && r.ptr + 262 <= size
    requires |text| >= LONG_STRING_LIMIT && 0 !in text
    ensures ArgOk(LongString(text)) && Size(Rec(tsc, id, Encode(LongString(text), LONG_STRING_LIMIT))) == 254
    ensures var rec := Rec(tsc, id, Encode(LongString(text), LONG_STRING_LIMIT));
      (forall m: seq<byte> {:trigger Stays(r, m, rec)} :: |m| == size ==> Stays(r, m, rec)) <==> r.ptr < r.bufEnd - 5
  {
    hide Put, Fill, Enc, CutString, Stays;
    CutLength(text, LONG_STRING_LIMIT);
    ContainedIff(r, Rec(tsc, id, Encode(LongString(text), LONG_STRING_LIMIT)), size);
  }

  function LongString(text: seq<byte>): Arg {
    Arg(Plain(Str), Some(Text(text)))
  }

  const LONG_STRING_LIMIT: nat := 240

  lemma {:induction false} CutLength(text: seq<byte>, maxLen: nat)
    requires |text| >= maxLen && 0 !in text
    ensures |CutString(text, maxLen)| == maxLen
    decreases maxLen
  {
    if maxLen > 0 {
      CutLength(text[1..], maxLen - 1);
    }
  }

  /** `m'` agrees with the ring's memory inside the ring's region. */
  ghost predicate SameInside(r: Ring, m': seq<byte>) {
    && |m'| == |r.m| && r.bufEnd + TRAILER <= |r.m|
    && forall p :: r.base <= p < r.bufEnd + TRAILER ==> m'[p] == r.m[p]
  }

  lemma {:induction false} CurKept(reg: Registry, r: Ring, h: History, m': seq<byte>)
    requires r.Ready() && CurInv(reg, r, h) && SameInside(r, m')
    ensures CurInv(reg, r.(m := m'), h)
  {
    hide Lay, Lap, Fill, Off;
    SameSlice(r.m, m', r.Start(), r.ptr);
    SameSlice(r.m, m', r.ptr, r.ptr + 8);
  }

  lemma {:induction false} PrevKept(reg: Registry, r: Ring, h: History, m': seq<byte>)
    requires r.Ready() && PrevInv(reg, r, h) && SameInside(r, m') && h.prev != []
    ensures PrevIntact(m', r.Start(), h.prev, Limit(r, h))
  {
    hide Lay, RecOk, Fill, Off;
    var lim, end := Limit(r, h), TailEnd(r, h);
    LapLength(reg, h.prev, r.bufEnd - r.Start());
    if lim <= end {
      SameSlice(r.m, m', lim, end);
      SameSlice(r.m, m', end, end + 8);
    }
  }

  /** A ring depends only on the bytes of its region. */
  lemma {:induction false} RingKept(reg: Registry, r: Ring, h: History, m': seq<byte>)
    requires RingInv(reg, r, h) && SameInside(r, m')
    ensures RingInv(reg, r.(m := m'), h)
  {
    hide CurInv, PrevIntact, Increasing, Lap;
    CurKept(reg, r, h, m');
    assert Sub(r.m, r.base, 4) == Sub(m', r.base, 4);
    if h.prev != [] {
      PrevKept(reg, r, h, m');
    }
  }

  // -------------------------------------------------------------- statements

  /** A trace statement at one level. */
  datatype LevelEvent = LevelEvent(level: nat, e: Event)

  ghost function FileStep(f: File, le: LevelEvent): File
    requires le.level < |f.sizes| == |f.ptrs| && f.sizes[le.level] >= 1
    requires RingAt(f, le.level).Ready() && (le.e.Trace? ==> Size(le.e.rec) <= MAX_RECORD)
  {
    var w := Step(RingAt(f, le.level), le.e);
    f.(m := w.m, ptrs := f.ptrs[le.level := w.ptr])
  }

  lemma {:induction false} LevelReady(reg: Registry, f: File, hs: seq<History>, i: nat)
    requires FileInv(reg, f, hs) && i < |hs|
    ensures RingAt(f, i).Ready() && RingInv(reg, RingAt(f, i), hs[i])
  {
    hide RingInv;
    assert LevelOk(reg, f, hs, i);
    ReadyOf(reg, RingAt(f, i), hs[i]);
  }

  lemma {:induction false} FileStepInv(reg: Registry, f: File, hs: seq<History>, le: LevelEvent)
    requires FileInv(reg, f, hs) && le.level < |hs|
    requires le.e.Trace? ==> RecOk(reg, le.e.rec) && Newer(hs[le.level], le.e.rec)
    ensures RingAt(f, le.level).Ready()
    ensures FileInv(reg, FileStep(f, le), hs[le.level := Extend(RingAt(f, le.level), hs[le.level], le.e)])
  {
    hide RingInv, Fits, Step, Extend;
    var l := le.level;
    LevelReady(reg, f, hs, l);
    var r := RingAt(f, l);
    StepInv(reg, r, hs[l], le.e);
    StepContained(r, le.e);
    var f', hs' := FileStep(f, le), hs[l := Extend(r, hs[l], le.e)];
    forall i | 0 <= i < |hs'|
      ensures LevelOk(reg, f', hs', i)
    {
      if i != l {
        LevelReady(reg, f, hs, i);
        if i < l {
          Disjoint(f.hdr, f.sizes, i, l);
        } else {
          Disjoint(f.hdr, f.sizes, l, i);
        }
        RingKept(reg, RingAt(f, i), hs[i], f'.m);
      }
    }
  }

  /** The statements of one level, in order. */
  function AtLevel(les: seq<LevelEvent>, i: nat): seq<Event> {
    if les == [] then []
    else AtLevel(les[..|les| - 1], i) + if les[|les| - 1].level == i then [les[|les| - 1].e] else []
  }

  ghost predicate StatementsOk(reg: Registry, levels: nat, les: seq<LevelEvent>) {
    && (forall k :: 0 <= k < |les| ==> les[k].level < levels && (les[k].e.Trace? ==> RecOk(reg, les[k].e.rec)))
    && forall i {:trigger AtLevel(les, i)} :: 0 <= i < levels ==> Increasing(Written(AtLevel(les, i)))
  }

  lemma {:induction false} StatementsPrefix(reg: Registry, levels: nat, les: seq<LevelEvent>)
    requires StatementsOk(reg, levels, les) && les != []
    ensures StatementsOk(reg, levels, les[..|les| - 1])
  {
    var front, last := les[..|les| - 1], les[|les| - 1];
    forall i | 0 <= i < levels
      ensures Increasing(Written(AtLevel(front, i)))
    {
      var a, b := AtLevel(front, i), AtLevel(les, i);
      if last.level == i {
        assert b[..|b| - 1] == a;
        IncreasingPrefix(Written(b), |Written(a)|);
        assert Written(b)[..|Written(a)|] == Written(a);
      } else {
        assert a == b;
      }
    }
  }

  /** The last enabled statement at a level is newer than what was written there before. */
  lemma {:induction false} LastNewer(reg: Registry, levels: nat, les: seq<LevelEvent>, h: History)
    requires StatementsOk(reg, levels, les) && les != []
    requires var le := les[|les| - 1]; le.e.Trace? && h.All() == Written(AtLevel(les[..|les| - 1], le.level))
    ensures Newer(h, les[|les| - 1].e.rec)
  {
    var le := les[|les| - 1];
    var a, b := AtLevel(les[..|les| - 1], le.level), AtLevel(les, le.level);
    assert b[..|b| - 1] == a;
    if Written(a) != [] {
      assert Earlier(Written(b), |Written(a)| - 1, |Written(a)|);
    }
  }

  /** The file and its histories after a run of statements; the file starts as `f`, empty. */
  ghost function FileRun(reg: Registry, f: File, les: seq<LevelEvent>): (r: (File, seq<History>))
    requires FileInv(reg, f, seq(|f.sizes|, i => History([], [], []))) && StatementsOk(reg, |f.sizes|, les)
    ensures FileInv(reg, r.0, r.1) && r.0.sizes == f.sizes && r.0.hdr == f.hdr && |r.0.m| == |f.m|
    ensures forall i :: 0 <= i < |r.1| ==> r.1[i].All() == Written(AtLevel(les, i))
    decreases |les|
  {
    hide FileInv, RecOk, Increasing;
    if les == [] then (f, seq(|f.sizes|, i => History([], [], [])))
    else
      StatementsPrefix(reg, |f.sizes|, les);
      var le, (f1, hs) := les[|les| - 1], FileRun(reg, f, les[..|les| - 1]);
      RunStep(reg, f1, hs, les);
      (FileStep(f1, le), hs[le.level := Extend(RingAt(f1, le.level), hs[le.level], le.e)])
  }

  lemma {:induction false} RunStep(reg: Registry, f: File, hs: seq<History>, les: seq<LevelEvent>)
    requires FileInv(reg, f, hs) && les != [] && StatementsOk(reg, |f.sizes|, les)
    requires forall i :: 0 <= i < |hs| ==> hs[i].All() == Written(AtLevel(les[..|les| - 1], i))
    ensures var le := les[|les| - 1];
      && le.level < |f.sizes| == |f.ptrs| == |hs| && f.sizes[le.level] >= 1
      && RingAt(f, le.level).Ready() && (le.e.Trace? ==> Size(le.e.rec) <= MAX_RECORD)
      && |FileStep(f, le).m| == |f.m|
      && var hs' := hs[le.level := Extend(RingAt(f, le.level), hs[le.level], le.e)];
        FileInv(reg, FileStep(f, le), hs') && forall i :: 0 <= i < |hs'| ==> hs'[i].All() == Written(AtLevel(les, i))
  {
    hide RingInv, Fits, Step, Extend, LevelOk, AtLevel, Written, Increasing;
    var le := les[|les| - 1];
    LevelReady(reg, f, hs, le.level);
    if le.e.Trace? {
      LastNewer(reg, |f.sizes|, les, hs[le.level]);
    }
    FileStepInv(reg, f, hs, le);
    StepInv(reg, RingAt(f, le.level), hs[le.level], le.e);
    forall i | 0 <= i < |hs|
      ensures hs[le.level := Extend(RingAt(f, le.level), hs[le.level], le.e)][i].All() == Written(AtLevel(les, i))
    {
      WrittenNext(les, i);
    }
  }

  lemma {:induction false} WrittenNext(les: seq<LevelEvent>, i: nat)
    requires les != []
    ensures var le := les[|les| - 1];
      Written(AtLevel(les, i)) ==
      Written(AtLevel(les[..|les| - 1], i)) + if i == le.level && le.e.Trace? then [le.e.rec] else []
  {
    var a, b := AtLevel(les[..|les| - 1], i), AtLevel(les, i);
    if i == les[|les| - 1].level {
      assert b[..|b| - 1] == a;
    } else {
      assert a == b;
    }
  }

  // ---------------------------------------------------------------- creation

  /** The loop of the `TraceFile` constructor: `bufIs` on the first `n` rings. */
  function InitMem(m: seq<byte>, hdr: nat, sizes: seq<nat>, n: nat): (r: seq<byte>)
    requires n <= |sizes| && (forall i :: 0 <= i < |sizes| ==> 1 <= sizes[i] && sizes[i] * KB < INT_BOUND)
    requires LevelStart(hdr, sizes, |sizes|) <= |m|
    ensures |r| == |m|
  {
    if n == 0 then m
    else
      SumMono(sizes, n, |sizes|);
      BufIs(InitMem(m, hdr, sizes, n - 1), LevelStart(hdr, sizes, n - 1), sizes[n - 1] * KB).m
  }

  function EmptyFile(m: seq<byte>, hdr: nat, sizes: seq<nat>): File {
    File(m, hdr, sizes, seq(|sizes|, i requires 0 <= i < |sizes| => LevelStart(hdr, sizes, i) + HEADER))
  }

  lemma {:induction false} InitLevels(reg: Registry, m: seq<byte>, hdr: nat, sizes: seq<nat>, n: nat, i: nat)
    requires i < n <= |sizes| && (forall i :: 0 <= i < |sizes| ==> 1 <= sizes[i] && sizes[i] * KB < INT_BOUND)
    requires LevelStart(hdr, sizes, |sizes|) <= |m|
    ensures RingInv(reg, RingAt(EmptyFile(InitMem(m, hdr, sizes, n), hdr, sizes), i), History([], [], []))
    decreases n
  {
    hide RingInv, BufIs;
    SumMono(sizes, n, |sizes|);
    var before := InitMem(m, hdr, sizes, n - 1);
    var base, size := LevelStart(hdr, sizes, n - 1), sizes[n - 1] * KB;
    if i == n - 1 {
      BufIsInv(reg, before, base, size);
    } else {
      InitLevels(reg, m, hdr, sizes, n - 1, i);
      BufIsContained(before, base, size);
      Disjoint(hdr, sizes, i, n - 1);
      RingKept(reg, RingAt(EmptyFile(before, hdr, sizes), i), History([], [], []), BufIs(before, base, size).m);
    }
  }

  /** A new trace file: every ring is in its invariant, with an empty history. */
  lemma {:induction false} InitInv(reg: Registry, m: seq<byte>, hdr: nat, sizes: seq<nat>)
    requires forall i :: 0 <= i < |sizes| ==> 1 <= sizes[i] && sizes[i] * KB < INT_BOUND
    requires LevelStart(hdr, sizes, |sizes|) <= |m|
    ensures FileInv(reg, EmptyFile(InitMem(m, hdr, sizes, |sizes|), hdr, sizes), seq(|sizes|, i => History([], [], [])))
  {
    hide RingInv, InitMem;
    var f, hs := EmptyFile(InitMem(m, hdr, sizes, |sizes|), hdr, sizes), seq(|sizes|, i => History([], [], []));
    forall i | 0 <= i < |sizes|
      ensures LevelOk(reg, f, hs, i)
    {
      InitLevels(reg, m, hdr, sizes, |sizes|, i);
    }
  }
}
