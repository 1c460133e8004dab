/** The two models of the writer agree: the single stores of `Race`, in any order of the parameter bytes and
    with readers looking in between, add up to the operations on values of `RingState`. */
module Stores {
  import opened Bytes
  import opened Codes
  import opened Records
  import opened RingState
  import opened Race

  /** The region of the ring is inside memory, as `RingState` has it. */
  predicate InMemory(g: Geo, m: seq<byte>) {
    Ring(m, g.base, g.end, g.Start()).Placed()
  }

  /** The ring as it will be when the stores of the operation in progress are done. */
  ghost function Completed(g: Geo, st: State): (r: Ring)
    requires Inv(g, st) && InMemory(g, st.m)
    ensures r.Ready() && r.base == g.base && r.bufEnd == g.end
  {
    Positions(g, st);
    var p := g.Slot(st.j);
    match st.phase
    case Idle(_) => Ring(st.m, g.base, g.end, p)
    case Writing(rec, _) => Ring(WithRecord(st.m, p, rec), g.base, g.end, p + Size(rec))
    case Wrapping => Ring(Put(st.m, g.base, Store(p - g.base, 4)), g.base, g.end, g.Start())
  }

  /** Memory with `rec` at `p` and the zero tsc behind it. */
  function WithRecord(m: seq<byte>, p: nat, rec: Rec): (m': seq<byte>)
    requires p + Size(rec) + 8 <= |m|
    ensures |m'| == |m|
  {
    Put(Put(m, p, Enc(rec)), p + Size(rec), Fill(0, 8))
  }

  lemma {:induction false} Positions(g: Geo, st: State)
    requires Inv(g, st) && InMemory(g, st.m)
    ensures g.Start() <= g.Slot(st.j) <= g.end + MAX_RECORD - 1
    ensures st.phase.Writing? ==>
      g.Slot(st.j) < g.end && Size(st.phase.rec) == g.size <= MAX_RECORD && g.Slot(st.j) + g.size == g.Slot(st.j + 1)
  {
    hide Enc, Fill, Store, SlotOk, OthersOk, StageOk, Newest;
    SlotInside(g, st.j);
    SlotInside(g, g.slots - 1);
  }

  /** The statement that a store is the first of. */
  function Starts(v: Move): (es: seq<Event>)
    ensures |es| <= 1
  {
    match v
    case Begin(rec) => [Event.Trace(rec)]
    case RestoreTrailer => [Disabled]
    case _ => []
  }

  function Statements(vs: seq<Move>): seq<Event> {
    if vs == [] then [] else Starts(vs[0]) + Statements(vs[1..])
  }

  lemma {:induction false} Overwritten(m: seq<byte>, p: nat, bs: seq<byte>, q: nat, part: seq<byte>)
    requires p <= q && q + |part| <= p + |bs| && p + |bs| <= |m|
    ensures Put(Put(m, q, part), p, bs) == Put(m, p, bs)
  {
  }

  lemma {:induction false} HeldAlready(m: seq<byte>, p: nat, rec: Rec)
    requires Holds(m, p, rec)
    ensures Put(m, p, Enc(rec)) == m
  {
    hide Enc;
    assert m == m[..p] + m[p..p + Size(rec)] + m[p + Size(rec)..];
  }

  lemma {:induction false} StaysInMemory(g: Geo, st: State, v: Move)
    requires Inv(g, st) && Can(g, st, v) && InMemory(g, st.m)
    ensures Inv(g, Go(g, st, v)) && InMemory(g, Go(g, st, v).m)
  {
    GoInv(g, st, v);
    hide Inv, Enc, Fill, Store;
  }

  /** The first store of a message already determines what the message will leave behind. */
  lemma {:induction false} BeginCompletes(g: Geo, st: State, rec: Rec)
    requires Inv(g, st) && Can(g, st, Begin(rec)) && InMemory(g, st.m)
    ensures Inv(g, Go(g, st, Begin(rec))) && InMemory(g, Go(g, st, Begin(rec)).m)
    ensures Completed(g, st).ptr < g.end && Size(rec) <= MAX_RECORD
    ensures Completed(g, Go(g, st, Begin(rec))) == WriteMsg(Completed(g, st), rec)
  {
    StaysInMemory(g, st, Begin(rec));
    hide Inv, Enc, Fill, Store, Put;
    SlotInside(g, st.j);
    Positions(g, Go(g, st, Begin(rec)));
    Overwritten(st.m, g.Slot(st.j), Enc(rec), g.Slot(st.j), Store(rec.tsc, 8));
  }

  /** The other stores inside a message. */
  lemma {:induction false} InnerStored(g: Geo, st: State, st': State, q: nat, part: seq<byte>)
    requires Inv(g, st) && InMemory(g, st.m) && Inv(g, st') && InMemory(g, st'.m)
    requires st.phase.Writing? && st'.phase.Writing? && st'.phase.rec == st.phase.rec && st'.j == st.j
    requires g.Slot(st.j) <= q && q + |part| <= g.Slot(st.j) + g.size && q + |part| <= |st.m|
    requires st'.m == Put(st.m, q, part)
    ensures Completed(g, st') == Completed(g, st)
  {
    Positions(g, st);
    hide Inv, Enc, Put;
    Overwritten(st.m, g.Slot(st.j), Enc(st.phase.rec), q, part);
  }

  /** Where the inner stores go. */
  lemma {:induction false} InnerShape(g: Geo, st: State, v: Move) returns (q: nat, part: seq<byte>)
    requires Inv(g, st) && Can(g, st, v) && (v.StoreId? || v.StoreParam? || v.StoreLength?)
    ensures g.Slot(st.j) <= q && q + |part| <= g.Slot(st.j) + g.size && q + |part| <= |st.m|
    ensures var st' := Go(g, st, v);
      st'.m == Put(st.m, q, part) && st'.j == st.j && st'.phase.Writing? && st'.phase.rec == st.phase.rec
  {
    hide Enc, Fill, Store, Put, SlotOk, OthersOk, Newest, TrailerOk, AllFull, FirstLap, StageOk;
    SlotInside(g, st.j);
    var p, rec := g.Slot(st.j), st.phase.rec;
    match v {
      case StoreId => q, part := p + 8, Store(rec.id, 4);
      case StoreParam(k) => q, part := p + 12 + k, [rec.params[k]];
      case StoreLength => q, part := p + g.size - 1, [g.size - 1];
    }
  }

  lemma {:induction false} InnerCompletes(g: Geo, st: State, v: Move)
    requires Inv(g, st) && Can(g, st, v) && InMemory(g, st.m) && (v.StoreId? || v.StoreParam? || v.StoreLength?)
    ensures Inv(g, Go(g, st, v)) && InMemory(g, Go(g, st, v).m)
    ensures Completed(g, Go(g, st, v)) == Completed(g, st)
  {
    var q, part := InnerShape(g, st, v);
    StaysInMemory(g, st, v);
    IsWriting(g, st, v);
    hide *;
    InnerStored(g, st, Go(g, st, v), q, part);
  }

  lemma {:induction false} IsWriting(g: Geo, st: State, v: Move)
    requires Can(g, st, v) && (v.StoreId? || v.StoreParam? || v.StoreLength? || v.Finish?)
    ensures st.phase.Writing?
  {
  }

  lemma {:induction false} Finished(g: Geo, st: State, st': State)
    requires Inv(g, st) && InMemory(g, st.m) && Inv(g, st') && InMemory(g, st'.m)
    requires st.phase.Writing? && st'.phase.Idle? && st'.j == st.j + 1 && Holds(st.m, g.Slot(st.j), st.phase.rec)
    requires g.Slot(st.j) + Size(st.phase.rec) + 8 <= |st.m|
    requires st'.m == Put(st.m, g.Slot(st.j) + Size(st.phase.rec), Fill(0, 8))
    ensures Completed(g, st') == Completed(g, st)
  {
    Positions(g, st);
    hide Inv, Enc, Put, Fill, Holds;
    HeldAlready(st.m, g.Slot(st.j), st.phase.rec);
  }

  lemma {:induction false} FinishShape(g: Geo, st: State)
    requires Inv(g, st) && Can(g, st, Finish)
    ensures g.Slot(st.j) + Size(st.phase.rec) + 8 <= |st.m| && Holds(st.m, g.Slot(st.j), st.phase.rec)
    ensures var st' := Go(g, st, Finish);
      st'.m == Put(st.m, g.Slot(st.j) + Size(st.phase.rec), Fill(0, 8)) && st'.j == st.j + 1 && st'.phase.Idle?
  {
    hide Enc, Fill, Store, Put, SlotOk, OthersOk, Newest, TrailerOk, AllFull, FirstLap, Holds;
    SlotInside(g, st.j);
  }

  /** The last store of a message. */
  lemma {:induction false} FinishCompletes(g: Geo, st: State)
    requires Inv(g, st) && Can(g, st, Finish) && InMemory(g, st.m)
    ensures Inv(g, Go(g, st, Finish)) && InMemory(g, Go(g, st, Finish).m)
    ensures Completed(g, Go(g, st, Finish)) == Completed(g, st)
  {
    FinishShape(g, st);
    StaysInMemory(g, st, Finish);
    IsWriting(g, st, Finish);
    hide *;
    Finished(g, st, Go(g, st, Finish));
  }

  /** The first store of a wrap, and the second. */
  lemma {:induction false} WrapCompletes(g: Geo, st: State, v: Move)
    requires Inv(g, st) && Can(g, st, v) && InMemory(g, st.m) && (v.RestoreTrailer? || v.StoreTail?)
    ensures Inv(g, Go(g, st, v)) && InMemory(g, Go(g, st, v).m)
    ensures Completed(g, Go(g, st, v)) == if v.StoreTail? then Completed(g, st) else DoWrap(Completed(g, st))
    ensures v.RestoreTrailer? ==> Completed(g, st).ptr >= g.end
  {
    StaysInMemory(g, st, v);
    Positions(g, st);
    AtEnd(g, st, v);
    hide Inv, Enc, Fill, Store, Put;
    ZeroSlot(g);
  }

  lemma {:induction false} AtEnd(g: Geo, st: State, v: Move)
    requires Inv(g, st) && Can(g, st, v) && (v.RestoreTrailer? || v.StoreTail?)
    ensures st.j == g.slots && g.Slot(st.j) >= g.end
  {
    hide Enc, Fill, Store, SlotOk, OthersOk;
  }

  // ------------------------------------------------------------------- runs

  /** A run of statements from its front. */
  lemma {:induction false} RunCons(r: Ring, e: Event, es: seq<Event>)
    requires r.Ready() && (e.Trace? ==> 13 + |e.rec.params| <= MAX_RECORD) && EventsFit(es)
    ensures EventsFit([e] + es) && Run(r, [e] + es) == Run(Step(r, e), es)
    decreases |es|
  {
    hide Step;
    var all := [e] + es;
    assert EventsFit(all);
    if es == [] {
      assert all[..0] == [] && all[0] == e;
    } else {
      var front, last := es[..|es| - 1], es[|es| - 1];
      assert all[..|all| - 1] == [e] + front && all[|all| - 1] == last;
      RunCons(r, e, front);
    }
  }

  /** The first store of a statement performs it, as far as `Completed` goes; the others change nothing. */
  lemma {:induction false} GoCompletes(g: Geo, st: State, v: Move)
    requires Inv(g, st) && Can(g, st, v) && InMemory(g, st.m)
    ensures Inv(g, Go(g, st, v)) && InMemory(g, Go(g, st, v).m)
    ensures v.Begin? ==> 13 + |v.rec.params| <= MAX_RECORD
    ensures Completed(g, Go(g, st, v)) ==
      if Starts(v) == [] then Completed(g, st) else Step(Completed(g, st), Starts(v)[0])
  {
    hide Inv, Go, Can, Completed, WriteMsg, DoWrap;
    match v {
      case Begin(rec) => BeginCompletes(g, st, rec);
      case Finish => FinishCompletes(g, st);
      case RestoreTrailer => WrapCompletes(g, st, v);
      case StoreTail => WrapCompletes(g, st, v);
      case _ => InnerCompletes(g, st, v);
    }
  }

  /** Over whole runs: after any stores of the writer, the ring as it will be once the statement in progress
      is done is what the statements started so far make of it. */
  lemma {:induction false} StoresAreSteps(g: Geo, st: State, vs: seq<Move>)
    requires Inv(g, st) && InMemory(g, st.m) && CanRun(g, st, vs)
    ensures InMemory(g, GoAll(g, st, vs).m) && EventsFit(Statements(vs))
    ensures Completed(g, GoAll(g, st, vs)) == Run(Completed(g, st), Statements(vs))
    decreases |vs|
  {
    hide Inv, Go, Can, Completed, Step;
    if vs == [] {
    } else {
      var v, rest := vs[0], Statements(vs[1..]);
      GoCompletes(g, st, v);
      StoresAreSteps(g, Go(g, st, v), vs[1..]);
      if Starts(v) == [] {
        assert Statements(vs) == rest;
      } else {
        assert Statements(vs) == [Starts(v)[0]] + rest;
        RunCons(Completed(g, st), Starts(v)[0], rest);
      }
    }
  }

  /** The ring between two statements. */
  function RingOf(g: Geo, st: State): Ring {
    Ring(st.m, g.base, g.end, g.Slot(st.j))
  }

  lemma {:induction false} StillIdle(g: Geo, st: State)
    requires Inv(g, st) && InMemory(g, st.m) && st.phase.Idle?
    ensures Completed(g, st) == RingOf(g, st)
  {
    hide Inv;
  }

  lemma {:induction false} NewRing(g: Geo, m: seq<byte>, size: nat)
    requires MIN_RING <= size && g.base + size <= |m| && size < INT_BOUND
    requires forall i :: g.base <= i < g.base + size ==> m[i] == 0
    requires g.Ok() && g.end == g.base + size - TRAILER
    ensures var r := BufIs(m, g.base, size);
      && Inv(g, Empty(g, r.m)) && InMemory(g, r.m) && Empty(g, r.m).m == r.m && Empty(g, r.m).phase.Idle?
      && RingOf(g, Empty(g, r.m)) == r
  {
    hide Inv, Geo.Ok;
    BufIsZeroed(g, m, g.base, size);
    FreshInv(g, BufIs(m, g.base, size).m);
    ZeroSlot(g);
  }

  /** A run between two quiet states. */
  lemma {:induction false} QuietRun(g: Geo, st: State, vs: seq<Move>)
    requires Inv(g, st) && InMemory(g, st.m) && CanRun(g, st, vs) && st.phase.Idle?
    ensures EventsFit(Statements(vs)) && RingOf(g, st).Ready()
    ensures GoAll(g, st, vs).phase.Idle? ==> RingOf(g, GoAll(g, st, vs)) == Run(RingOf(g, st), Statements(vs))
  {
    hide *;
    StoresAreSteps(g, st, vs);
    StillIdle(g, st);
    if GoAll(g, st, vs).phase.Idle? {
      StillIdle(g, GoAll(g, st, vs));
    }
  }

  /** From a new ring: whenever the writer is between two statements, memory and write position are those that
      the statements executed leave in `RingState`. */
  lemma {:induction false} StoresRefineRun(g: Geo, m: seq<byte>, size: nat, vs: seq<Move>)
    requires MIN_RING <= size && g.base + size <= |m| && size < INT_BOUND
    requires forall i :: g.base <= i < g.base + size ==> m[i] == 0
    requires g.Ok() && g.end == g.base + size - TRAILER
    ensures var r := BufIs(m, g.base, size);
      && Inv(g, Empty(g, r.m))
      && (CanRun(g, Empty(g, r.m), vs) ==>
            var st := GoAll(g, Empty(g, r.m), vs);
            && EventsFit(Statements(vs))
            && (st.phase.Idle? ==> RingOf(g, st) == Run(r, Statements(vs))))
  {
    hide *;
    NewRing(g, m, size);
    var r := BufIs(m, g.base, size);
    if CanRun(g, Empty(g, r.m), vs) {
      QuietRun(g, Empty(g, r.m), vs);
    }
  }

  lemma {:induction false} NoStarts(vs: seq<Move>)
    requires forall i {:trigger vs[i]} :: 0 <= i < |vs| ==> Starts(vs[i]) == []
    ensures Statements(vs) == []
    decreases |vs|
  {
    if vs != [] {
      NoStarts(vs[1..]);
    }
  }

  /** All the stores of one operation, between two quiet states. */
  lemma {:induction false} OneOperation(g: Geo, st: State, v: Move, vs: seq<Move>)
    requires Inv(g, st) && InMemory(g, st.m) && CanRun(g, st, [v] + vs) && Starts(v) != []
    requires forall i {:trigger vs[i]} :: 0 <= i < |vs| ==> Starts(vs[i]) == []
    requires st.phase.Idle? && GoAll(g, st, [v] + vs).phase.Idle?
    ensures RingOf(g, st).Ready() && (v.Begin? ==> 13 + |v.rec.params| <= MAX_RECORD)
    ensures RingOf(g, GoAll(g, st, [v] + vs)) == Step(RingOf(g, st), Starts(v)[0])
  {
    hide Inv, Go, Can, Step;
    var all := [v] + vs;
    assert all[0] == v && all[1..] == vs;
    NoStarts(vs);
    GoCompletes(g, st, v);
    StoresAreSteps(g, Go(g, st, v), vs);
    StillIdle(g, st);
    StillIdle(g, GoAll(g, st, all));
  }

  /** One message: whatever the order of its stores, they leave what `WriteMsg` does. */
  lemma {:induction false} MessageIsWriteMsg(g: Geo, st: State, rec: Rec, vs: seq<Move>)
    requires Inv(g, st) && InMemory(g, st.m) && CanRun(g, st, [Begin(rec)] + vs)
    requires forall i {:trigger vs[i]} :: 0 <= i < |vs| ==> Starts(vs[i]) == []
    requires GoAll(g, st, [Begin(rec)] + vs).phase.Idle?
    ensures RingOf(g, st).Ready() && g.Slot(st.j) < g.end && 13 + |rec.params| <= MAX_RECORD
    ensures RingOf(g, GoAll(g, st, [Begin(rec)] + vs)) == WriteMsg(RingOf(g, st), rec)
  {
    hide Inv, WriteMsg, Go, GoAll, InMemory;
    OneOperation(g, st, Begin(rec), vs);
    BelowEnd(g, st);
  }

  lemma {:induction false} BelowEnd(g: Geo, st: State)
    requires Inv(g, st)
    ensures g.Slot(st.j) < g.end <==> st.j < g.slots
  {
    SlotInside(g, st.j);
  }

  /** The two stores of a wrap leave what `DoWrap` does. */
  lemma {:induction false} WrapIsDoWrap(g: Geo, st: State)
    requires Inv(g, st) && InMemory(g, st.m) && CanRun(g, st, [RestoreTrailer] + [StoreTail])
    ensures RingOf(g, st).Ready()
    ensures RingOf(g, GoAll(g, st, [RestoreTrailer] + [StoreTail])) == DoWrap(RingOf(g, st))
  {
    TailLeavesIdle(g, st);
    hide Inv, DoWrap, Go, GoAll, InMemory;
    OneOperation(g, st, RestoreTrailer, [StoreTail]);
    BelowEnd(g, st);
  }

  lemma {:induction false} TailLeavesIdle(g: Geo, st: State)
    requires Inv(g, st) && CanRun(g, st, [RestoreTrailer] + [StoreTail])
    ensures GoAll(g, st, [RestoreTrailer] + [StoreTail]).phase.Idle?
  {
    hide Inv, Fill, Store;
    var all := [RestoreTrailer] + [StoreTail];
    assert all[0] == RestoreTrailer && all[1..] == [StoreTail] && [StoreTail][1..] == [];
    GoInv(g, st, RestoreTrailer);
  }
}
