/** Several rings tailed together while they are being written: `nextTsc` scans them for the least timestamp,
    `tailBuffer` dumps the ring selected, and memory may change arbitrarily between any two reads. */
module Rounds {
  import opened Bytes
  import opened Records
  import opened RingReader

  // ------------------------------------------------------------------ the scan

  /** What one pass of the scan reads, each ring in memory as it is at that moment; disabled rings count as
      empty. */
  function Observe(looks: seq<seq<byte>>, rings: seq<Reader>, enabled: seq<bool>): (ts: seq<nat>)
    requires |looks| == |rings| == |enabled|
    ensures |ts| == |rings|
  {
    seq(|rings|, i requires 0 <= i < |rings| => if enabled[i] then NextTsc(looks[i], rings[i]) else 0)
  }

  /** `next_` after the first `n` rings of a pass. */
  function Least(ts: seq<nat>, n: nat): (nat, int)
    requires n <= |ts|
  {
    if n == 0 then (U64_MAX, -1)
    else
      var (t, k) := Least(ts, n - 1);
      if ts[n - 1] != 0 && ts[n - 1] < t then (ts[n - 1], n - 1) else (t, k)
  }

  /** Ring `k` shows `t`, and no other ring an earlier timestamp, nor one before it the same. */
  ghost predicate IsLeast(ts: seq<nat>, n: nat, t: nat, k: int)
    requires n <= |ts|
  {
    && 0 <= k < n && 0 < t == ts[k] < U64_MAX
    && forall j :: 0 <= j < n && ts[j] != 0 ==> t <= ts[j] && (j < k ==> t < ts[j])
  }

  /** A pass finds the least timestamp, in the lowest ring that shows it; nothing only where all rings are
      empty or at their tail. */
  lemma {:induction false} LeastIs(ts: seq<nat>, n: nat)
    requires n <= |ts|
    ensures var (t, k) := Least(ts, n);
      if k < 0 then t == U64_MAX && k == -1 && forall j :: 0 <= j < n ==> ts[j] == 0 || ts[j] >= U64_MAX
      else IsLeast(ts, n, t, k)
    decreases n
  {
    if n > 0 {
      LeastIs(ts, n - 1);
    }
  }

  // ------------------------------------------------------------------ the runs

  /** Scanning, with the least timestamp of the pass before, or holding a selected message. */
  datatype Phase = Scanning(prevMin: nat) | Selected(tsc: nat, k: nat)

  /** A message printed, its ring, and what the pass that selected it saw of all rings. */
  datatype Line = Line(level: nat, rec: Rec, seen: seq<nat>)

  /** The rings' readers, `next_`, the timestamps of the last pass, the one selected last, the output. */
  datatype Tailer = Tailer(rings: seq<Reader>, phase: Phase, seen: seq<nat>, chosen: nat, out: seq<Line>)

  /** A pass of the scan, or `tailBuffer` with memory as it is by then. */
  datatype Act = Pass(looks: seq<seq<byte>>) | TryDump(m: seq<byte>, reg: Registry, curTsc: nat)

  predicate CanDo(s: Tailer, a: Act) {
    match a
    case Pass(looks) => |looks| == |s.rings|
    case TryDump(_, _, _) => s.phase.Selected? && s.phase.k < |s.rings|
  }

  function Do(enabled: seq<bool>, s: Tailer, a: Act): Tailer
    requires |enabled| == |s.rings| && CanDo(s, a)
  {
    match a
    case Pass(looks) =>
      if s.phase.Selected? then s
      else
        var ts := Observe(looks, s.rings, enabled);
        var (t, k) := Least(ts, |ts|);
        var s1 := s.(seen := ts);
        if t != s.phase.prevMin then s1.(phase := Scanning(t))
        else if k < 0 then s1.(phase := Scanning(U64_MAX))
        else s1.(phase := Selected(t, k), chosen := t)
    case TryDump(m, reg, curTsc) =>
      var k := s.phase.k;
      var (r, o) := DumpOrReset(m, reg, s.rings[k], s.phase.tsc, curTsc, true);
      var s1 := s.(rings := s.rings[k := r]);
      match o
      case Printed(rec) => s1.(phase := Scanning(U64_MAX), out := s.out + [Line(k, rec, s.seen)])
      case NoMessage => s1
      case _ => s1.(phase := Scanning(U64_MAX))
  }

  predicate CanDoAll(enabled: seq<bool>, s: Tailer, acts: seq<Act>)
    requires |enabled| == |s.rings|
    decreases |acts|
  {
    acts == [] || (CanDo(s, acts[0]) && CanDoAll(enabled, Do(enabled, s, acts[0]), acts[1..]))
  }

  function DoAll(enabled: seq<bool>, s: Tailer, acts: seq<Act>): Tailer
    requires |enabled| == |s.rings| && CanDoAll(enabled, s, acts)
    decreases |acts|
  {
    if acts == [] then s else DoAll(enabled, Do(enabled, s, acts[0]), acts[1..])
  }

  function Start(rings: seq<Reader>): Tailer {
    Tailer(rings, Scanning(U64_MAX), [], 0, [])
  }

  // ------------------------------------------------------------- stale selections

  /** Only the message that was selected is ever printed, and what is not printed is counted. */
  lemma {:induction false} PrintsSelected(m: seq<byte>, reg: Registry, s: Reader, orderTsc: nat, curTsc: nat,
                                          tail: bool)
    ensures var (r, o) := Dump(m, reg, s, orderTsc, curTsc, tail);
      && (o.Printed? ==> o.rec.tsc == orderTsc)
      && (o.Retry? <==> Next(m, reg, s, curTsc, tail).Msg? && Next(m, reg, s, curTsc, tail).tsc != orderTsc)
      && (!o.Printed? ==> r == s.(corruption := if o.Failed? then s.corruption else (s.corruption + 1) % U32_BOUND))
  {
    hide Next;
  }

  /** A ring that shows another message by the time of the dump: nothing is printed, every reader stays where
      it is, and the next pass scans all rings afresh. */
  lemma {:induction false} StaleSelection(enabled: seq<bool>, s: Tailer, m: seq<byte>, reg: Registry, curTsc: nat)
    requires |enabled| == |s.rings| && CanDo(s, TryDump(m, reg, curTsc))
    requires var f := Next(m, reg, s.rings[s.phase.k], curTsc, true); f.Msg? && f.tsc != s.phase.tsc
    ensures var s' := Do(enabled, s, TryDump(m, reg, curTsc));
      && s'.out == s.out && s'.phase == Scanning(U64_MAX) && |s'.rings| == |s.rings|
      && forall i :: 0 <= i < |s.rings| ==>
           s'.rings[i].cur == s.rings[i].cur && s'.rings[i].lastTsc == s.rings[i].lastTsc
  {
    hide Next;
  }

  /** A selection takes two passes in a row with the same least timestamp. */
  lemma {:induction false} TwoPassesIff(enabled: seq<bool>, s: Tailer, one: seq<seq<byte>>, two: seq<seq<byte>>)
    requires |enabled| == |s.rings| == |one| == |two| && s.phase == Scanning(U64_MAX)
    ensures var s1 := Do(enabled, s, Pass(one));
      && !s1.phase.Selected?
      && var s2 := Do(enabled, s1, Pass(two));
      var a, b := Observe(one, s.rings, enabled), Observe(two, s.rings, enabled);
      s2.phase.Selected? <==> exists t: nat, j: int, k: int :: IsLeast(a, |a|, t, j) && IsLeast(b, |b|, t, k)
  {
    hide NextTsc, IsLeast;
    var a, b := Observe(one, s.rings, enabled), Observe(two, s.rings, enabled);
    LeastIs(a, |a|);
    LeastIs(b, |b|);
    var (t, j) := Least(a, |a|);
    var (u, k) := Least(b, |b|);
    LeastBelow(a, t, j);
    LeastBelow(b, u, k);
    forall v: nat, j': int, k': int | IsLeast(a, |a|, v, j') && IsLeast(b, |b|, v, k')
      ensures t == u == v && k >= 0
    {
      LeastUnique(a, v, j');
      LeastUnique(b, v, k');
    }
  }

  lemma {:induction false} LeastBelow(ts: seq<nat>, t: nat, k: int)
    ensures k >= 0 && IsLeast(ts, |ts|, t, k) ==> t < U64_MAX
  {
  }

  lemma {:induction false} LeastUnique(ts: seq<nat>, t: nat, k: int)
    requires IsLeast(ts, |ts|, t, k)
    ensures Least(ts, |ts|) == (t, k) && k >= 0 && t < U64_MAX
  {
    LeastIs(ts, |ts|);
    var (u, j) := Least(ts, |ts|);
    assert ts[k] == t;
  }

  // ------------------------------------------------------------------ whole runs

  /** What is printed was least among all rings in the pass that selected it. */
  ghost predicate LineOk(enabled: seq<bool>, l: Line) {
    && |l.seen| == |enabled| && l.level < |enabled| && enabled[l.level]
    && IsLeast(l.seen, |l.seen|, l.rec.tsc, l.level)
  }

  ghost predicate TailerInv(enabled: seq<bool>, s: Tailer) {
    && |s.rings| == |enabled|
    && (s.phase.Selected? ==>
          && |s.seen| == |enabled| && s.phase.k < |enabled| && enabled[s.phase.k]
          && IsLeast(s.seen, |s.seen|, s.phase.tsc, s.phase.k) && s.phase.tsc == s.chosen)
    && forall i {:trigger s.out[i]} :: 0 <= i < |s.out| ==> LineOk(enabled, s.out[i])
  }

  lemma {:induction false} DoInv(enabled: seq<bool>, s: Tailer, a: Act)
    requires TailerInv(enabled, s) && CanDo(s, a)
    ensures TailerInv(enabled, Do(enabled, s, a))
  {
    hide NextTsc, Dump, LineOk, IsLeast;
    match a {
      case Pass(looks) =>
        if !s.phase.Selected? {
          var ts := Observe(looks, s.rings, enabled);
          LeastIs(ts, |ts|);
          var (t, k) := Least(ts, |ts|);
          if k >= 0 {
            LeastEnabled(looks, s.rings, enabled, t, k);
          }
        }
      case TryDump(m, reg, curTsc) =>
        var k := s.phase.k;
        var o := Dump(m, reg, s.rings[k], s.phase.tsc, curTsc, true).1;
        PrintsSelected(m, reg, s.rings[k], s.phase.tsc, curTsc, true);
        if o.Printed? {
          LinePrinted(enabled, s, o.rec);
        }
    }
  }

  lemma {:induction false} LeastEnabled(looks: seq<seq<byte>>, rings: seq<Reader>, enabled: seq<bool>, t: nat, k: int)
    requires |looks| == |rings| == |enabled|
    requires var ts := Observe(looks, rings, enabled); IsLeast(ts, |ts|, t, k)
    ensures 0 <= k < |enabled| && enabled[k]
  {
    hide NextTsc;
  }

  lemma {:induction false} LinePrinted(enabled: seq<bool>, s: Tailer, rec: Rec)
    requires TailerInv(enabled, s) && s.phase.Selected? && rec.tsc == s.phase.tsc
    ensures LineOk(enabled, Line(s.phase.k, rec, s.seen))
  {
    hide IsLeast;
  }

  /** Over whole runs, whatever happens to memory: every line printed is a message that, with that timestamp,
      was the least that the rings showed in the pass that selected it, in the lowest ring that showed it. */
  lemma {:induction false} PrintedWasLeast(enabled: seq<bool>, s: Tailer, acts: seq<Act>)
    requires TailerInv(enabled, s) && CanDoAll(enabled, s, acts)
    ensures TailerInv(enabled, DoAll(enabled, s, acts))
    decreases |acts|
  {
    hide TailerInv, Do, CanDo;
    SameRings(enabled, s);
    if acts != [] {
      DoInv(enabled, s, acts[0]);
      PrintedWasLeast(enabled, Do(enabled, s, acts[0]), acts[1..]);
    }
  }

  lemma {:induction false} SameRings(enabled: seq<bool>, s: Tailer)
    requires TailerInv(enabled, s)
    ensures |enabled| == |s.rings|
  {
  }

  lemma {:induction false} StartInv(enabled: seq<bool>, rings: seq<Reader>)
    requires |enabled| == |rings|
    ensures TailerInv(enabled, Start(rings))
  {
  }

  /** No pass sees a message older than the one selected before it. */
  ghost predicate NoneOlder(enabled: seq<bool>, s: Tailer, a: Act)
    requires |enabled| == |s.rings|
  {
    match a
    case Pass(looks) =>
      |looks| == |s.rings| ==>
        var ts := Observe(looks, s.rings, enabled);
        forall i :: 0 <= i < |ts| && ts[i] != 0 ==> s.chosen <= ts[i]
    case TryDump(_, _, _) => true
  }

  ghost predicate NoneOlderAll(enabled: seq<bool>, s: Tailer, acts: seq<Act>)
    requires |enabled| == |s.rings| && CanDoAll(enabled, s, acts)
    decreases |acts|
  {
    acts == [] || (NoneOlder(enabled, s, acts[0]) && NoneOlderAll(enabled, Do(enabled, s, acts[0]), acts[1..]))
  }

  /** The output so far is in order, and not later than the last selection. */
  ghost predicate Ordered(s: Tailer) {
    && (forall i, j :: 0 <= i < j < |s.out| ==> s.out[i].rec.tsc <= s.out[j].rec.tsc)
    && (forall i :: 0 <= i < |s.out| ==> s.out[i].rec.tsc <= s.chosen)
  }

  lemma {:induction false} DoOrdered(enabled: seq<bool>, s: Tailer, a: Act)
    requires TailerInv(enabled, s) && CanDo(s, a) && NoneOlder(enabled, s, a) && Ordered(s)
    ensures Ordered(Do(enabled, s, a))
  {
    hide NextTsc, Dump, LineOk;
    match a {
      case Pass(looks) =>
        if !s.phase.Selected? {
          var ts := Observe(looks, s.rings, enabled);
          LeastIs(ts, |ts|);
          var (t, k) := Least(ts, |ts|);
          assert k >= 0 ==> s.chosen <= ts[k];
        }
      case TryDump(m, reg, curTsc) =>
        PrintsSelected(m, reg, s.rings[s.phase.k], s.phase.tsc, curTsc, true);
    }
  }

  /** Over whole runs: as long as no pass sees a message older than one selected before, the output of all rings
      together is in the order of the timestamps, whatever happens between scan and dump. */
  lemma {:induction false} OutputOrdered(enabled: seq<bool>, s: Tailer, acts: seq<Act>)
    requires TailerInv(enabled, s) && CanDoAll(enabled, s, acts) && Ordered(s)
    requires (SameRings(enabled, s); NoneOlderAll(enabled, s, acts))
    ensures Ordered(DoAll(enabled, s, acts))
    decreases |acts|
  {
    hide TailerInv, Do, CanDo, Ordered, NoneOlder;
    SameRings(enabled, s);
    if acts != [] {
      DoInv(enabled, s, acts[0]);
      DoOrdered(enabled, s, acts[0]);
      OutputOrdered(enabled, Do(enabled, s, acts[0]), acts[1..]);
    }
  }
}
