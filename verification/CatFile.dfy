/** `Tail` in qtcat mode: one file, its rings merged by repeatedly scanning for the least pending
    timestamp; and the whole of qtcat on the file that any run of trace statements leaves. */
module CatFile {
  import opened Bytes
  import opened Codes
  import opened Records
  import opened RingState
  import opened RingReader
  import opened Recovery
  import opened Merging
  import opened Rounds
  import opened Geometry
  import opened TraceFile

  /** `next_` when the first `n` rings have been scanned. */
  function PickPair(ps: Pendings, n: nat): (nat, int)
    requires n <= |ps|
  {
    var k := Pick(ps, n);
    if k < 0 then (U64_MAX, -1) else (ps[k][0].tsc, k)
  }

  class Tail {
    const mem: array<byte>
    const rings: seq<RingBuffer>
    const enabled: seq<bool>
    const reg: Registry
    var next: (nat, int)

    constructor (mem: array<byte>, rings: seq<RingBuffer>, enabled: seq<bool>, reg: Registry)
      ensures this.mem == mem && this.rings == rings && this.enabled == enabled && this.reg == reg
      ensures next == (U64_MAX, -1)
    {
      this.mem, this.rings, this.enabled, this.reg := mem, rings, enabled, reg;
      next := (U64_MAX, -1);
    }

    ghost predicate Valid() {
      && |rings| == |enabled|
      && (forall i :: 0 <= i < |rings| ==> rings[i].mem == mem)
      && (forall i, j :: 0 <= i < j < |rings| ==> rings[i] != rings[j])
    }

    /** Ring `i` will deliver `ps[i]`; disabled rings are ignored. */
    ghost predicate RingDelivers(ps: Pendings, i: nat)
      requires i < |rings| == |enabled| == |ps|
      reads rings[i], mem
    {
      if enabled[i] then Pending(mem[..], reg, rings[i].State(), ps[i]) else ps[i] == []
    }

    ghost predicate Delivers(ps: Pendings)
      requires Valid()
      reads rings, mem
    {
      && |ps| == |rings|
      && forall i {:trigger RingDelivers(ps, i)} :: 0 <= i < |rings| ==> RingDelivers(ps, i)
    }

    ghost function Readers(): (rs: seq<Reader>)
      reads rings
      ensures |rs| == |rings| && forall i :: 0 <= i < |rings| ==> rs[i] == rings[i].State()
    {
      seq(|rings|, i requires 0 <= i < |rings| reads rings => rings[i].State())
    }

    /** What a pass of the scan reads. */
    ghost function Seen(): (ts: seq<nat>)
      requires Valid()
      reads rings, mem
      ensures |ts| == |rings|
      ensures forall i :: 0 <= i < |rings| ==>
        ts[i] == if enabled[i] then RingReader.NextTsc(mem[..], rings[i].State()) else 0
    {
      var m := mem[..];
      Observe(seq(|rings|, i => m), Readers(), enabled)
    }

    /** One pass of the scan in `nextTsc`. */
    method Scan()
      requires Valid()
      modifies `next
      ensures next == Least(Seen(), |Seen()|)
    {
      hide RingReader.NextTsc, Seen;
      next := (U64_MAX, -1);
      ghost var ts := Seen();
      for i := 0 to |rings|
        invariant next == Least(ts, i)
      {
        if enabled[i] {
          var tsc := rings[i].Peek();
          assert tsc == ts[i];
          if tsc != 0 && tsc < next.0 {
            next := (tsc, i);
          }
        }
      }
    }

    /** On rings that deliver `ps` the scan finds the first of the least pending messages. */
    lemma {:induction false} ScanPicks(ps: Pendings, n: nat)
      requires Valid() && Delivers(ps) && n <= |ps|
      ensures Least(Seen(), n) == PickPair(ps, n)
      decreases n
    {
      hide RingReader.NextTsc, Seen, Dump;
      if n > 0 {
        ScanPicks(ps, n - 1);
        LeastIs(Seen(), n - 1);
        assert RingDelivers(ps, n - 1);
      }
    }

    /** `nextTsc`: scan until two rounds agree; keep the answer until a message is consumed. */
    method NextTsc(ghost ps: Pendings) returns (tsc: nat, bufNum: int)
      requires Valid() && Delivers(ps) && (next.1 >= 0 ==> next == PickPair(ps, |ps|))
      modifies `next
      ensures (tsc, bufNum) == next == PickPair(ps, |ps|)
    {
      if next.1 >= 0 {
        return next.0, next.1;
      }
      var prevMinTsc := U64_MAX;
      ghost var answer := PickPair(ps, |ps|);
      ScanPicks(ps, |ps|);
      Scan();
      while next.0 != prevMinTsc
        invariant next == answer && (prevMinTsc == U64_MAX || prevMinTsc == answer.0)
        decreases if prevMinTsc == answer.0 then 0 else 1
      {
        prevMinTsc := next.0;
        Scan();
      }
      tsc, bufNum := next.0, next.1;
    }

    /** `tailBuffer` on the selected ring, whatever memory holds by now: the selection is kept only if nothing
        was there yet; when `dump` throws, the ring is reset in tailing mode, and otherwise the program ends. */
    method DumpSelected(tsc: nat, curTsc: nat, bufNum: nat, tail: bool) returns (ok: bool, o: Outcome)
      requires Valid() && bufNum < |rings|
      modifies `next, rings[bufNum]
      ensures (rings[bufNum].State(), o) == DumpOrReset(mem[..], reg, old(rings[bufNum].State()), tsc, curTsc, tail)
      ensures o.Printed? ==> o.rec.tsc == tsc
      ensures ok <==> o.Printed? || o.Retry?
      ensures next == if ok || (o.Failed? && tail) then (U64_MAX, -1) else old(next)
    {
      hide Dump, Reset;
      o := rings[bufNum].Print(reg, tsc, curTsc, tail);
      if o.Failed? && tail {
        var done := rings[bufNum].ResetCursor();
      }
      ok := o.Printed? || o.Retry?;
      if ok || (o.Failed? && tail) {
        next := (U64_MAX, -1);
      }
    }

    /** ... in qtcat mode, on rings that deliver `ps`: the message is printed. */
    method TailBuffer(tsc: nat, bufNum: nat, ghost ps: Pendings) returns (rec: Rec)
      requires Valid() && Delivers(ps) && PickPair(ps, |ps|) == (tsc, bufNum)
      modifies `next, rings[bufNum]
      ensures Pick(ps, |ps|) == bufNum && rec == ps[bufNum][0] && Delivers(Drop(ps, bufNum))
      ensures next == (U64_MAX, -1)
    {
      hide Dump, RingReader.NextTsc;
      assert RingDelivers(ps, bufNum);
      var ok, o := DumpSelected(tsc, U64_MAX, bufNum, false);
      rec := o.rec;
      ghost var ps' := Drop(ps, bufNum);
      forall i | 0 <= i < |rings|
        ensures RingDelivers(ps', i)
      {
        assert old(RingDelivers(ps, i));
      }
    }

    /** `catOne`: tail until nothing is left. */
    method CatOne(ghost start: Pendings) returns (out: seq<(nat, Rec)>)
      requires Valid() && Delivers(start) && next == (U64_MAX, -1)
      modifies this, rings
      ensures out == Merge(start)
    {
      ghost var ps := start;
      out := [];
      var tsc, bufNum := NextTsc(ps);
      while bufNum >= 0
        invariant Delivers(ps) && (tsc, bufNum) == PickPair(ps, |ps|)
        invariant out + Merge(ps) == Merge(start)
        decreases Total(ps, |ps|)
      {
        var rec := TailBuffer(tsc, bufNum, ps);
        TotalDrop(ps, |ps|, bufNum);
        MergeStep(out, ps);
        out := out + [(bufNum as nat, rec)];
        ps := Drop(ps, bufNum);
        tsc, bufNum := NextTsc(ps);
      }
    }
  }

  lemma {:induction false} MergeStep(out: seq<(nat, Rec)>, ps: Pendings)
    requires Pick(ps, |ps|) >= 0
    ensures var k := Pick(ps, |ps|);
      out + [(k as nat, ps[k][0])] + Merge(Drop(ps, k)) == out + Merge(ps)
  {
  }

  // ---------------------------------------------------- qtcat on one file

  /** What each enabled ring of a file will deliver. */
  function Deliveries(f: File, hs: seq<History>, enabled: seq<bool>): (ps: Pendings)
    requires |f.ptrs| == |f.sizes| == |hs| == |enabled|
    requires forall i :: 0 <= i < |hs| ==> f.sizes[i] >= 1 && RingAt(f, i).Start() <= f.ptrs[i]
    ensures |ps| == |hs|
  {
    seq(|hs|, i requires 0 <= i < |hs| => if enabled[i] then Recovered(RingAt(f, i), hs[i]) else [])
  }

  lemma {:induction false} LevelsReady(reg: Registry, f: File, hs: seq<History>)
    requires FileInv(reg, f, hs)
    ensures |f.ptrs| == |f.sizes| == |hs|
    ensures forall i :: 0 <= i < |hs| ==> f.sizes[i] >= 1 && RingAt(f, i).Start() <= f.ptrs[i]
  {
    hide LevelOk, RingInv;
    forall i | 0 <= i < |hs|
      ensures RingAt(f, i).Start() <= f.ptrs[i]
    {
      LevelReady(reg, f, hs, i);
    }
  }

  /** Opening one ring of the file and going to its first message. */
  method OpenRing(mem: array<byte>, reg: Registry, base: nat, size: nat, ghost r: Ring, ghost h: History)
    returns (ring: RingBuffer)
    requires RingInv(reg, r, h) && r.m == mem[..] && base == r.base && base + size == r.bufEnd + TRAILER
    ensures fresh(ring) && ring.mem == mem && Pending(mem[..], reg, ring.State(), Recovered(r, h))
  {
    hide RingInv, Rewind, Recovered, Pending;
    ReadyOf(reg, r, h);
    CatRecovery(reg, r, h);
    ring := new RingBuffer(mem, base, size);
    var ok := ring.GoToFirst(reg, false);
  }

  /** The ring-buffer part of `Tail::initialize` in qtcat mode: open every ring, and go to the first
      message of the enabled ones. */
  method OpenRings(mem: array<byte>, hdr: nat, sizes: seq<nat>, enabled: seq<bool>, reg: Registry, ghost f: File,
                   ghost hs: seq<History>, ghost ps: Pendings)
    returns (rings: seq<RingBuffer>)
    requires FileInv(reg, f, hs) && f.m == mem[..] && f.hdr == hdr && f.sizes == sizes
    requires |enabled| == |sizes| == |hs| == |f.ptrs| == |ps| && (forall i :: 0 <= i < |sizes| ==> sizes[i] >= 1)
    requires forall i :: 0 <= i < |hs| && enabled[i] ==>
      RingAt(f, i).Start() <= f.ptrs[i] && ps[i] == Recovered(RingAt(f, i), hs[i])
    ensures |rings| == |sizes| && fresh(rings)
    ensures forall k :: 0 <= k < |rings| ==> rings[k].mem == mem
    ensures forall k, l :: 0 <= k < l < |rings| ==> rings[k] != rings[l]
    ensures forall k {:trigger rings[k]} :: 0 <= k < |rings| && enabled[k] ==>
      Pending(mem[..], reg, rings[k].State(), ps[k])
  {
    hide FileInv, Pending, Recovered, RingInv;
    rings := [];
    var logStart := hdr;
    for i := 0 to |sizes|
      invariant |rings| == i && logStart == LevelStart(hdr, sizes, i)
      invariant fresh(rings) && forall k :: 0 <= k < i ==> rings[k].mem == mem
      invariant forall k, l :: 0 <= k < l < i ==> rings[k] != rings[l]
      invariant forall k {:trigger rings[k]} :: 0 <= k < i && enabled[k] ==>
        Pending(mem[..], reg, rings[k].State(), ps[k])
    {
      var logSize := sizes[i] * KB;
      var ring;
      if enabled[i] {
        LevelReady(reg, f, hs, i);
        ring := OpenRing(mem, reg, logStart, logSize, RingAt(f, i), hs[i]);
      } else {
        ring := new RingBuffer(mem, logStart, logSize);
      }
      rings := rings + [ring];
      NextStart(hdr, sizes, i);
      logStart := logStart + logSize;
    }
  }

  lemma {:induction false} NextStart(hdr: nat, sizes: seq<nat>, i: nat)
    requires i < |sizes|
    ensures LevelStart(hdr, sizes, i + 1) == LevelStart(hdr, sizes, i) + sizes[i] * KB
  {
  }

  /** `Tail`'s constructor in qtcat mode: map the file and `initialize`, with `rewind` on every enabled
      ring. */
  method OpenFile(mem: array<byte>, hdr: nat, sizes: seq<nat>, enabled: seq<bool>, reg: Registry, ghost f: File,
                  ghost hs: seq<History>)
    returns (tail: Tail)
    requires FileInv(reg, f, hs) && f.m == mem[..] && f.hdr == hdr && f.sizes == sizes && |enabled| == |sizes|
    ensures fresh(tail) && fresh(tail.rings) && tail.mem == mem && tail.Valid() && tail.next == (U64_MAX, -1)
    ensures (LevelsReady(reg, f, hs); tail.Delivers(Deliveries(f, hs, enabled)))
  {
    hide FileInv, Pending, Recovered, Merge;
    LevelsReady(reg, f, hs);
    ghost var ps := Deliveries(f, hs, enabled);
    var rings := OpenRings(mem, hdr, sizes, enabled, reg, f, hs, ps);
    tail := new Tail(mem, rings, enabled, reg);
    forall i | 0 <= i < |rings|
      ensures tail.RingDelivers(ps, i)
    {
      assert rings[i] == tail.rings[i];
    }
  }

  /** qtcat on one file: `initialize`, then `catOne`. On the file that a run of trace statements has left
      behind it prints the merge of what the enabled rings recover. */
  method Cat(mem: array<byte>, hdr: nat, sizes: seq<nat>, enabled: seq<bool>, reg: Registry, ghost f: File,
             ghost hs: seq<History>)
    returns (out: seq<(nat, Rec)>)
    requires FileInv(reg, f, hs) && f.m == mem[..] && f.hdr == hdr && f.sizes == sizes && |enabled| == |sizes|
    ensures (LevelsReady(reg, f, hs); out == Merge(Deliveries(f, hs, enabled)))
  {
    hide FileInv, Pending, Recovered, Merge;
    LevelsReady(reg, f, hs);
    var tail := OpenFile(mem, hdr, sizes, enabled, reg, f, hs);
    out := tail.CatOne(Deliveries(f, hs, enabled));
  }

  /** The output shows of level `i` a suffix of what was written there, with the whole current lap unless
      the ring is blind, and nothing of a disabled level. */
  ghost predicate LevelShown(f: File, hs: seq<History>, enabled: seq<bool>, i: nat, out: seq<(nat, Rec)>)
    requires i < |hs| == |f.sizes| == |f.ptrs| == |enabled| && f.sizes[i] >= 1
  {
    if !enabled[i] then From(out, i) == []
    else
      var all, got := hs[i].All(), From(out, i);
      && |got| <= |all| && all[|all| - |got|..] == got
      && (|got| >= |hs[i].cur| <==> !Blind(RingAt(f, i), hs[i]))
  }

  /** What that means for the reader of the output: sorted by timestamp, and for every enabled level
      a suffix of the messages written there, whole current lap included unless the ring is blind. */
  lemma {:induction false} CatMeaning(reg: Registry, f: File, hs: seq<History>, enabled: seq<bool>, i: nat)
    requires FileInv(reg, f, hs) && |enabled| == |f.sizes| && i < |hs|
    ensures (LevelsReady(reg, f, hs);
      var out := Merge(Deliveries(f, hs, enabled));
      SortedOut(out) && LevelShown(f, hs, enabled, i, out))
  {
    hide FileInv, Recovered, Merge, Blind;
    LevelsReady(reg, f, hs);
    var ps := Deliveries(f, hs, enabled);
    forall k | 0 <= k < |ps|
      ensures Sorted(ps[k])
    {
      if enabled[k] {
        LevelReady(reg, f, hs, k);
        RecoveredSorted(reg, RingAt(f, k), hs[k]);
      }
    }
    MergeSorted(ps);
    MergeKeepsEach(ps, i);
    if enabled[i] {
      RecoveredIsSuffix(RingAt(f, i), hs[i]);
    }
  }

  lemma {:induction false} RecoveredSorted(reg: Registry, r: Ring, h: History)
    requires RingInv(reg, r, h) && r.Start() <= r.ptr
    ensures Sorted(Recovered(r, h))
  {
    hide CurInv, PrevInv, Recovered, Blind;
    RecoveredIsSuffix(r, h);
    var all, rec := h.All(), Recovered(r, h);
    forall i, j | 0 <= i < j < |rec|
      ensures rec[i].tsc <= rec[j].tsc
    {
      var d := |all| - |rec|;
      assert Earlier(all, d + i, d + j) && rec[i] == all[d + i] && rec[j] == all[d + j];
    }
  }
}
