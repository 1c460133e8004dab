/** The writer and a tailing reader interleaved, when all records of a ring have one size: the
    writer's stores are separate atomic steps, and the reader may look between any two of them, in
    any lap, also after it has been lapped. */
module Race {
  import opened Bytes
  import opened Codes
  import opened Wrappers
  import opened Records
  import opened RingReader
  import RingState

  /** A ring of records of `size` bytes: its start, the end of its usable area, the number of
      records that start before that end. */
  datatype Geo = Geo(base: nat, end: nat, size: nat, slots: nat)
  {
    function Start(): nat {
      base + 4
    }

    /** Where slot `i` starts; `Slot(slots)` is where the last one ends. */
    function Slot(i: nat): nat {
      if i == 0 then Start() else Slot(i - 1) + size
    }

    ghost predicate Ok() {
      && 13 <= size <= MAX_RECORD && slots >= 2
      && Slot(slots - 1) < end <= Slot(slots)
    }
  }

  /** How far a message is: its timestamp stored, its id too with some of the parameter bytes, or all
      of it but the zero tsc behind it. */
  datatype Stage = Stamped | Filling(done: set<nat>) | Sealed

  /** What the writer is doing: between messages (with or without the zero tsc at its position),
      inside a message, or inside `doWrap`. */
  datatype Phase = Idle(zeroed: bool) | Writing(rec: Rec, stage: Stage) | Wrapping

  /** Memory, the slot the writer is at, its phase, and the complete record last written to each
      slot. */
  datatype State = State(m: seq<byte>, j: nat, phase: Phase, content: seq<Option<Rec>>)

  /** The stores of the writer. Parameter bytes come in any order: a string's length byte, for one, is
      stored after its characters. */
  datatype Move = Begin(rec: Rec) | StoreId | StoreParam(k: nat) | StoreLength | Finish | RestoreTrailer | StoreTail

  /** `tsc` is later than the timestamp of every record in the ring. */
  ghost predicate Newest(content: seq<Option<Rec>>, tsc: nat) {
    forall i {:trigger content[i]} :: 0 <= i < |content| && content[i].Some? ==> content[i].value.tsc < tsc
  }

  predicate SizedRec(g: Geo, r: Rec) {
    Size(r) == g.size && 0 < r.tsc < U64_MAX && r.id < U32_BOUND
  }

  /** Every parameter byte is stored. */
  predicate AllStored(rec: Rec, done: set<nat>) {
    forall k :: 0 <= k < |rec.params| ==> k in done
  }

  lemma {:induction false} SlotMono(g: Geo, i: nat, j: nat)
    requires i <= j
    ensures g.Slot(i) <= g.Slot(j) && (i < j ==> g.Slot(i + 1) <= g.Slot(j))
    decreases j
  {
    if i < j {
      SlotMono(g, i, j - 1);
    }
  }

  lemma {:induction false} ZeroSlot(g: Geo)
    ensures g.Slot(0) == g.Start()
  {
  }

  lemma {:induction false} SlotInside(g: Geo, j: nat)
    requires g.Ok() && j <= g.slots
    ensures g.Start() <= g.Slot(j) <= g.Slot(g.slots)
    ensures j < g.slots ==> g.Slot(j) < g.end && g.Slot(j + 1) == g.Slot(j) + g.size <= g.Slot(g.slots)
  {
    SlotMono(g, 0, j);
    SlotMono(g, j, g.slots);
    if j < g.slots {
      SlotMono(g, j, g.slots - 1);
    }
  }

  // -------------------------------------------------------------- invariant

  ghost predicate Shape(g: Geo, st: State) {
    && g.Ok() && |st.content| == g.slots && st.j <= g.slots
    && g.Slot(g.slots) + 8 <= |st.m|
  }

  /** Slot `i` holds its complete record; before its first record its length byte is wrong. */
  ghost predicate SlotOk(g: Geo, st: State, i: nat)
    requires i < |st.content|
  {
    match st.content[i]
    case Some(r) => SizedRec(g, r) && Holds(st.m, g.Slot(i), r)
    case None => At(st.m, g.Slot(i) + g.size - 1) != g.size - 1
  }

  /** The bytes of a message at `p` that are stored. */
  ghost predicate StageOk(m: seq<byte>, p: nat, rec: Rec, stage: Stage) {
    && p + Size(rec) <= |m|
    && match stage
       case Stamped => m[p..p + 8] == Store(rec.tsc, 8)
       case Filling(done) =>
         && m[p..p + 8] == Store(rec.tsc, 8)
         && m[p + 8..p + 12] == Store(rec.id, 4)
         && forall k :: k in done ==> k < |rec.params| && m[p + 12 + k] == rec.params[k]
       case Sealed => Holds(m, p, rec)
  }

  /** The slot the writer is at. */
  ghost predicate CurrentOk(g: Geo, st: State)
    requires Shape(g, st)
  {
    SlotInside(g, st.j);
    var p := g.Slot(st.j);
    match st.phase
    case Idle(zeroed) =>
      if !zeroed then st.j == 0 && st.content[0].Some? && SlotOk(g, st, 0)
      else
        && st.m[p..p + 8] == Fill(0, 8)
        && (st.j < g.slots && st.content[st.j].None? ==> SlotOk(g, st, st.j))
    case Writing(rec, stage) =>
      && st.j < g.slots && SizedRec(g, rec) && Newest(st.content, rec.tsc)
      && StageOk(st.m, p, rec, stage)
      && (!stage.Sealed? && st.content[st.j].None? ==> SlotOk(g, st, st.j))
    case Wrapping => st.j == g.slots && st.m[p..p + 8] == Fill(255, 8)
  }

  ghost predicate OthersOk(g: Geo, st: State)
    requires |st.content| == g.slots
  {
    forall i {:trigger SlotOk(g, st, i)} :: 0 <= i < g.slots && i != st.j ==> SlotOk(g, st, i)
  }

  ghost predicate AllFull(st: State) {
    forall i {:trigger st.content[i]} :: 0 <= i < |st.content| ==> st.content[i].Some?
  }

  ghost predicate FirstLap(st: State) {
    forall i {:trigger st.content[i]} :: 0 <= i < |st.content| ==> (st.content[i].Some? <==> i < st.j)
  }

  /** The eight bytes after the last slot are 0xff during a lap. */
  ghost predicate TrailerOk(g: Geo, st: State)
    requires Shape(g, st)
  {
    SlotInside(g, g.slots);
    st.j < g.slots ==> st.m[g.Slot(g.slots)..g.Slot(g.slots) + 8] == Fill(255, 8)
  }

  ghost predicate Inv(g: Geo, st: State) {
    && Shape(g, st)
    && CurrentOk(g, st)
    && OthersOk(g, st)
    && (AllFull(st) || FirstLap(st))
    && TrailerOk(g, st)
  }

  // ------------------------------------------------------------ transitions

  ghost predicate Can(g: Geo, st: State, v: Move) {
    match v
    case Begin(rec) => st.phase.Idle? && st.j < g.slots && SizedRec(g, rec) && Newest(st.content, rec.tsc)
    case StoreId => st.phase.Writing? && st.phase.stage.Stamped?
    case StoreParam(k) =>
      && st.phase.Writing? && st.phase.stage.Filling?
      && k < |st.phase.rec.params| && k !in st.phase.stage.done
    case StoreLength =>
      st.phase.Writing? && st.phase.stage.Filling? && AllStored(st.phase.rec, st.phase.stage.done)
    case Finish => st.phase.Writing? && st.phase.stage.Sealed?
    case RestoreTrailer => st.phase.Idle? && st.j == g.slots
    case StoreTail => st.phase.Wrapping?
  }

  ghost function Go(g: Geo, st: State, v: Move): State
    requires Inv(g, st) && Can(g, st, v)
  {
    var p := g.Slot(st.j);
    match v
    case Begin(rec) =>
      SlotInside(g, st.j);
      st.(m := Put(st.m, p, Store(rec.tsc, 8)), phase := Writing(rec, Stamped))
    case StoreId =>
      SlotInside(g, st.j);
      st.(m := Put(st.m, p + 8, Store(st.phase.rec.id, 4)), phase := Writing(st.phase.rec, Filling({})))
    case StoreParam(k) =>
      SlotInside(g, st.j);
      st.(m := Put(st.m, p + 12 + k, [st.phase.rec.params[k]]),
          phase := Writing(st.phase.rec, Filling(st.phase.stage.done + {k})))
    case StoreLength =>
      SlotInside(g, st.j);
      st.(m := Put(st.m, p + g.size - 1, [g.size - 1]), phase := Writing(st.phase.rec, Sealed))
    case Finish =>
      SlotInside(g, st.j);
      State(Put(st.m, g.Slot(st.j + 1), Fill(0, 8)), st.j + 1, Idle(true), st.content[st.j := Some(st.phase.rec)])
    case RestoreTrailer => st.(m := Put(st.m, p, Fill(255, 8)), phase := Wrapping)
    case StoreTail =>
      SlotInside(g, 0);
      State(Put(st.m, g.base, Store(g.Slot(g.slots) - g.base, 4)), 0, Idle(false), st.content)
  }

  lemma {:induction false} FilledSlice(m: seq<byte>, p: nat, b: byte)
    requires p + 8 <= |m| && forall i :: p <= i < p + 8 ==> m[i] == b
    ensures m[p..p + 8] == Fill(b, 8)
  {
  }

  /** The region of a ring that `bufIs` has set up in zeroed memory; other memory is arbitrary. */
  ghost predicate Zeroed(g: Geo, m: seq<byte>) {
    && g.Ok() && g.end + TRAILER <= |m|
    && (forall i :: g.Start() <= i < g.end ==> m[i] == 0)
    && (forall i :: g.end <= i < g.end + TRAILER ==> m[i] == 255)
  }

  function Empty(g: Geo, m: seq<byte>): State {
    State(m, 0, Idle(true), seq(g.slots, i => None))
  }

  /** A new trace file is zeroed memory, on which the constructor calls `bufIs` for every ring. */
  lemma {:induction false} BufIsZeroed(g: Geo, m: seq<byte>, base: nat, size: nat)
    requires RingState.MIN_RING <= size && base + size <= |m| && size < INT_BOUND
    requires forall i :: base <= i < base + size ==> m[i] == 0
    requires g.Ok() && g.base == base && g.end == base + size - TRAILER
    ensures Zeroed(g, RingState.BufIs(m, base, size).m)
  {
    hide Put, Fill, Store, Geo.Ok;
  }

  lemma {:induction false} FreshInv(g: Geo, m: seq<byte>)
    requires Zeroed(g, m)
    ensures Inv(g, Empty(g, m))
  {
    hide Enc, Fill, Store, Holds, SizedRec, Geo.Slot, Newest;
    ZeroSlot(g);
    var st := Empty(g, m);
    SlotInside(g, 0);
    SlotInside(g, g.slots);
    SlotMono(g, 1, g.slots - 1);
    LastSlot(g);
    forall i | 0 <= i < g.slots
      ensures SlotOk(g, st, i)
    {
      SlotInside(g, i);
    }
    FilledSlice(m, g.Start(), 0);
    FilledSlice(m, g.Slot(g.slots), 255);
  }

  /** The last record ends in the trailer, eight bytes before its end. */
  lemma {:induction false} LastSlot(g: Geo)
    requires g.Ok()
    ensures g.Slot(g.slots) + 8 <= g.end + TRAILER
  {
    SlotInside(g, g.slots - 1);
  }

  /** A store inside `lo .. hi` leaves every slot outside it as it was. */
  lemma {:induction false} SlotKept(g: Geo, st: State, st': State, i: nat, lo: nat, hi: nat)
    requires i < |st.content| == |st'.content| && st'.content[i] == st.content[i] && |st.m| == |st'.m|
    requires forall k :: 0 <= k < |st.m| && !(lo <= k < hi) ==> st'.m[k] == st.m[k]
    requires g.Slot(i) + g.size <= lo || hi <= g.Slot(i)
    requires g.size >= 13 && g.Slot(i) + g.size <= |st.m| && SlotOk(g, st, i)
    ensures SlotOk(g, st', i)
  {
    hide Enc;
    if st.content[i].Some? {
      SameSlice(st.m, st'.m, g.Slot(i), g.Slot(i) + g.size);
    }
  }

  lemma {:induction false} OthersKept(g: Geo, st: State, st': State, lo: nat, hi: nat)
    requires Shape(g, st) && Shape(g, st') && OthersOk(g, st) && st'.j == st.j && st'.content == st.content
    requires |st.m| == |st'.m| && (forall k :: 0 <= k < |st.m| && !(lo <= k < hi) ==> st'.m[k] == st.m[k])
    requires g.Slot(st.j) <= lo && (st.j < g.slots ==> hi <= g.Slot(st.j + 1))
    ensures OthersOk(g, st')
  {
    hide SlotOk;
    forall i | 0 <= i < g.slots && i != st.j
      ensures SlotOk(g, st', i)
    {
      SlotInside(g, i);
      if i < st.j {
        SlotMono(g, i, st.j);
      } else {
        SlotMono(g, st.j, i);
      }
      SlotKept(g, st, st', i, lo, hi);
    }
  }

  /** A store inside the record being written, before its length byte. */
  lemma {:induction false} InnerStore(g: Geo, st: State, st': State, lo: nat, hi: nat)
    requires Inv(g, st) && Shape(g, st') && st.j < g.slots && st'.j == st.j && st'.content == st.content
    requires g.Slot(st.j) <= lo <= hi < g.Slot(st.j) + g.size
    requires |st.m| == |st'.m| && (forall k :: 0 <= k < |st.m| && !(lo <= k < hi) ==> st'.m[k] == st.m[k])
    ensures OthersOk(g, st') && TrailerOk(g, st')
    ensures st.content[st.j].None? && SlotOk(g, st, st.j) ==> SlotOk(g, st', st.j)
  {
    hide Enc, SlotOk, OthersOk, CurrentOk, Fill;
    SlotInside(g, st.j);
    SlotInside(g, g.slots);
    OthersKept(g, st, st', lo, hi);
    SameSlice(st.m, st'.m, g.Slot(g.slots), g.Slot(g.slots) + 8);
    if st.content[st.j].None? && SlotOk(g, st, st.j) {
      NoneKept(g, st, st', st.j, lo, hi);
    }
  }

  lemma {:induction false} BeginInv(g: Geo, st: State, rec: Rec)
    requires Inv(g, st) && Can(g, st, Begin(rec))
    ensures Inv(g, Go(g, st, Begin(rec)))
  {
    hide Enc, Store, SlotOk, OthersOk;
    var st', p := Go(g, st, Begin(rec)), g.Slot(st.j);
    SlotInside(g, st.j);
    InnerStore(g, st, st', p, p + 8);
    assert st'.m[p..p + 8] == Store(rec.tsc, 8);
  }

  lemma {:induction false} IdInv(g: Geo, st: State)
    requires Inv(g, st) && Can(g, st, StoreId)
    ensures Inv(g, Go(g, st, StoreId))
  {
    hide Enc, Store, SlotOk, OthersOk, Newest;
    var st', p := Go(g, st, StoreId), g.Slot(st.j);
    SlotInside(g, st.j);
    InnerStore(g, st, st', p + 8, p + 12);
    SameSlice(st.m, st'.m, p, p + 8);
    assert st'.m[p + 8..p + 12] == Store(st.phase.rec.id, 4);
  }

  lemma {:induction false} ParamInv(g: Geo, st: State, k: nat)
    requires Inv(g, st) && Can(g, st, StoreParam(k))
    ensures Inv(g, Go(g, st, StoreParam(k)))
  {
    hide Enc, Store, SlotOk, OthersOk, Newest, Put;
    var st', p := Go(g, st, StoreParam(k)), g.Slot(st.j);
    SlotInside(g, st.j);
    InnerStore(g, st, st', p + 12 + k, p + 13 + k);
    SameSlice(st.m, st'.m, p, p + 8);
    SameSlice(st.m, st'.m, p + 8, p + 12);
  }

  /** The length byte: now every byte of the record is stored. */
  lemma {:induction false} LengthHolds(g: Geo, st: State)
    requires Inv(g, st) && Can(g, st, StoreLength)
    ensures Holds(Go(g, st, StoreLength).m, g.Slot(st.j), st.phase.rec)
  {
    hide Enc, Store, SlotOk, OthersOk, Newest, Put, Holds, Fill, TrailerOk;
    var st', p := Go(g, st, StoreLength), g.Slot(st.j);
    SlotInside(g, st.j);
    SameSlice(st.m, st'.m, p, p + 8);
    SameSlice(st.m, st'.m, p + 8, p + 12);
    BytesHold(st'.m, p, st.phase.rec);
  }

  lemma {:induction false} LengthInv(g: Geo, st: State)
    requires Inv(g, st) && Can(g, st, StoreLength)
    ensures Inv(g, Go(g, st, StoreLength))
  {
    LengthHolds(g, st);
    hide Enc, Store, SlotOk, OthersOk, Newest, Put, Holds, Fill;
    var st', p := Go(g, st, StoreLength), g.Slot(st.j);
    SlotInside(g, st.j);
    SlotInside(g, g.slots);
    OthersKept(g, st, st', p + g.size - 1, p + g.size);
    SameSlice(st.m, st'.m, g.Slot(g.slots), g.Slot(g.slots) + 8);
  }

  lemma {:induction false} BytesHold(m: seq<byte>, p: nat, rec: Rec)
    requires p + Size(rec) <= |m| && m[p..p + 8] == Store(rec.tsc, 8) && m[p + 8..p + 12] == Store(rec.id, 4)
    requires forall k :: 0 <= k < |rec.params| ==> m[p + 12 + k] == rec.params[k]
    requires m[p + 12 + |rec.params|] == (12 + |rec.params|) % 256
    ensures Holds(m, p, rec)
  {
    hide Store;
    var n := |rec.params|;
    assert m[p + 12..p + 12 + n] == rec.params;
    assert m[p + 12 + n..p + 13 + n] == [(12 + n) % 256];
    assert m[p..p + 13 + n] == m[p..p + 8] + m[p + 8..p + 12] + m[p + 12..p + 12 + n] + m[p + 12 + n..p + 13 + n];
  }

  /** A store that leaves the length byte of a slot alone leaves an unwritten slot unwritten. */
  lemma {:induction false} NoneKept(g: Geo, st: State, st': State, i: nat, lo: nat, hi: nat)
    requires i < |st.content| == |st'.content| && st'.content[i] == st.content[i] && st.content[i].None?
    requires |st.m| == |st'.m| && (forall k :: 0 <= k < |st.m| && !(lo <= k < hi) ==> st'.m[k] == st.m[k])
    requires hi < g.Slot(i) + g.size <= |st.m|
    requires SlotOk(g, st, i)
    ensures SlotOk(g, st', i)
  {
  }

  /** The zero tsc after the record: the message is complete and the next slot becomes current. */
  lemma {:induction false} FinishInv(g: Geo, st: State)
    requires Inv(g, st) && Can(g, st, Finish)
    ensures Inv(g, Go(g, st, Finish))
  {
    hide Enc, SlotOk, CurrentOk, Fill;
    var st' := Go(g, st, Finish);
    SlotInside(g, st.j);
    FinishCurrent(g, st);
    forall i | 0 <= i < g.slots && i != st'.j
      ensures SlotOk(g, st', i)
    {
      if i != st.j {
        FinishOthers(g, st, st', i);
      }
    }
    if st'.j < g.slots {
      SlotInside(g, st.j + 1);
      SameSlice(st.m, st'.m, g.Slot(g.slots), g.Slot(g.slots) + 8);
    }
  }

  lemma {:induction false} FinishCurrent(g: Geo, st: State)
    requires Inv(g, st) && Can(g, st, Finish)
    ensures var st' := Go(g, st, Finish);
      Shape(g, st') && CurrentOk(g, st') && SlotOk(g, st', st.j)
  {
    FinishFill(g, st);
    FinishSlot(g, st);
    hide Enc, Fill, Geo.Slot, Newest, SlotOk, OthersOk, Put, CurrentOk;
    var st' := Go(g, st, Finish);
    SlotInside(g, st.j);
    if st'.j < g.slots && st'.content[st'.j].None? {
      FinishNext(g, st);
    }
    IdleCurrent(g, st');
  }

  lemma {:induction false} IdleCurrent(g: Geo, st: State)
    requires Shape(g, st) && st.phase == Idle(true) && g.Slot(st.j) + 8 <= |st.m|
    requires st.m[g.Slot(st.j)..g.Slot(st.j) + 8] == Fill(0, 8)
    requires st.j < g.slots && st.content[st.j].None? ==> SlotOk(g, st, st.j)
    ensures CurrentOk(g, st)
  {
    hide SlotOk, Fill;
  }

  lemma {:induction false} FinishFill(g: Geo, st: State)
    requires Inv(g, st) && Can(g, st, Finish)
    ensures var m, q := Go(g, st, Finish).m, g.Slot(st.j + 1);
      |m| == |st.m| && q + 8 <= |m| && m[q..q + 8] == Fill(0, 8)
  {
    hide Enc, Fill, Geo.Slot, Newest, SlotOk, OthersOk;
    SlotInside(g, st.j);
  }

  lemma {:induction false} FinishSlot(g: Geo, st: State)
    requires Inv(g, st) && Can(g, st, Finish)
    ensures SlotOk(g, Go(g, st, Finish), st.j)
  {
    hide Enc, Fill, OthersOk;
    var st', p := Go(g, st, Finish), g.Slot(st.j);
    SlotInside(g, st.j);
    SameSlice(st.m, st'.m, p, p + g.size);
  }

  /** The zero tsc in the next slot leaves its length byte alone. */
  lemma {:induction false} FinishNext(g: Geo, st: State)
    requires Inv(g, st) && Can(g, st, Finish)
    requires st.j + 1 < g.slots && st.content[st.j + 1].None?
    ensures SlotOk(g, Go(g, st, Finish), st.j + 1)
  {
    hide Enc, Fill, CurrentOk;
    SlotInside(g, st.j);
    SlotInside(g, st.j + 1);
    assert SlotOk(g, st, st.j + 1);
  }

  lemma {:induction false} FinishOthers(g: Geo, st: State, st': State, i: nat)
    requires Shape(g, st) && OthersOk(g, st) && st.j < g.slots && i < g.slots && i != st.j && i != st.j + 1
    requires |st'.content| == |st.content| && st'.content[i] == st.content[i] && |st.m| == |st'.m|
    requires forall k :: 0 <= k < |st.m| && !(g.Slot(st.j + 1) <= k < g.Slot(st.j + 1) + 8) ==> st'.m[k] == st.m[k]
    ensures SlotOk(g, st', i)
  {
    hide SlotOk;
    assert SlotOk(g, st, i);
    SlotInside(g, i);
    SlotInside(g, st.j + 1);
    if i < st.j {
      SlotMono(g, i, st.j + 1);
    } else {
      SlotMono(g, st.j + 1, i);
    }
    SlotKept(g, st, st', i, g.Slot(st.j + 1), g.Slot(st.j + 1) + 8);
  }

  lemma {:induction false} RestoreInv(g: Geo, st: State)
    requires Inv(g, st) && Can(g, st, RestoreTrailer)
    ensures Inv(g, Go(g, st, RestoreTrailer))
  {
    hide SlotOk, Fill;
    var st', p := Go(g, st, RestoreTrailer), g.Slot(st.j);
    SlotInside(g, st.j);
    OthersKept(g, st, st', p, p + 8);
    assert st'.m[p..p + 8] == Fill(255, 8);
  }

  lemma {:induction false} StoreTailInv(g: Geo, st: State)
    requires Inv(g, st) && Can(g, st, StoreTail)
    ensures Inv(g, Go(g, st, StoreTail))
  {
    hide SlotOk, Fill, Store;
    var st' := Go(g, st, StoreTail);
    SlotInside(g, g.slots);
    forall i | 0 <= i < g.slots
      ensures SlotOk(g, st', i)
    {
      assert SlotOk(g, st, i);
      SlotInside(g, i);
      SlotMono(g, 0, i);
      SlotKept(g, st, st', i, g.base, g.base + 4);
    }
    SameSlice(st.m, st'.m, g.Slot(g.slots), g.Slot(g.slots) + 8);
  }

  /** Every atomic step keeps the invariant. */
  lemma {:induction false} GoInv(g: Geo, st: State, v: Move)
    requires Inv(g, st) && Can(g, st, v)
    ensures Inv(g, Go(g, st, v))
  {
    hide Inv, Go;
    match v {
      case Begin(rec) => BeginInv(g, st, rec);
      case StoreId => IdInv(g, st);
      case StoreParam(k) => ParamInv(g, st, k);
      case StoreLength => LengthInv(g, st);
      case Finish => FinishInv(g, st);
      case RestoreTrailer => RestoreInv(g, st);
      case StoreTail => StoreTailInv(g, st);
    }
  }

  // ---------------------------------------------------------------- reader

  /** Every byte of `r` is written: it is a complete message, or one that only lacks the zero tsc
      behind it. */
  ghost predicate Complete(g: Geo, st: State, r: Rec) {
    || (exists i :: 0 <= i < |st.content| && st.content[i] == Some(r))
    || (st.phase.Writing? && st.phase.rec == r && st.phase.stage.Sealed?)
  }

  /** A reader of this ring, wherever it is and whatever it has read before. */
  predicate ReaderOf(g: Geo, s: Reader) {
    s.start == g.Start() && s.end == g.end
  }

  /** Inside a message, the timestamp after it is an old one, or the length byte is missing. */
  lemma {:induction false} TornRejected(g: Geo, st: State, curTsc: nat)
    requires Inv(g, st) && st.phase.Writing? && !st.phase.stage.Sealed?
    ensures var p := g.Slot(st.j);
      || At(st.m, p + g.size - 1) != g.size - 1
      || !FollowerOk(st.m, g.Start(), g.end, st.phase.rec.tsc, p + g.size, curTsc, true)
  {
    hide Enc, TscAt, Fill, Store, Load, Geo.Slot;
    ZeroSlot(g);
    var p, tsc := g.Slot(st.j), st.phase.rec.tsc;
    SlotInside(g, st.j);
    if st.content[st.j].Some? {
      assert AllFull(st);
      if st.j + 1 < g.slots {
        SlotInside(g, st.j + 1);
        assert SlotOk(g, st, st.j + 1);
        HeadBack(st.m, p + g.size, st.content[st.j + 1].value);
      } else {
        OnesTsc(st.m, p + g.size);
        assert SlotOk(g, st, 0);
        HeadBack(st.m, g.Start(), st.content[0].value);
      }
    }
  }

  /** What a slot holds when the reader finds a timestamp and a matching length byte there. */
  lemma {:induction false} AcceptedSlot(g: Geo, st: State, k: nat, curTsc: nat)
    requires Inv(g, st) && k < g.slots
    requires TscAt(st.m, g.Slot(k)) != 0
    requires At(st.m, g.Slot(k) + g.size - 1) == g.size - 1
    requires FollowerOk(st.m, g.Start(), g.end, TscAt(st.m, g.Slot(k)), g.Slot(k) + g.size, curTsc, true)
    ensures exists r :: Complete(g, st, r) && SizedRec(g, r) && Holds(st.m, g.Slot(k), r)
  {
    hide Enc, TscAt, FollowerOk;
    SlotInside(g, k);
    if k != st.j || st.phase == Idle(false) {
      assert SlotOk(g, st, k);
      assert Complete(g, st, st.content[k].value);
    } else if st.phase.Idle? {
      ZeroTsc(st.m, g.Slot(k));
      assert false;
    } else {
      var rec := st.phase.rec;
      WritingTsc(g, st);
      if !st.phase.stage.Sealed? {
        TornRejected(g, st, curTsc);
        assert false;
      }
      assert Complete(g, st, rec);
    }
  }

  lemma {:induction false} WritingTsc(g: Geo, st: State)
    requires Inv(g, st) && st.phase.Writing?
    ensures TscAt(st.m, g.Slot(st.j)) == st.phase.rec.tsc
  {
    hide Load, Store, Enc;
    var p, rec := g.Slot(st.j), st.phase.rec;
    SlotInside(g, st.j);
    if st.phase.stage.Sealed? {
      HeadBack(st.m, p, rec);
    } else {
      SubIsSlice(st.m, p, 8);
      WordSizes();
      LoadStore(rec.tsc, 8);
    }
  }

  /** Concurrent safety: whatever is registered, when `next` accepts a message of the ring's record
      size at a record boundary, every byte of that record is written, and the timestamp returned is
      the record's. */
  lemma {:induction false} AcceptedIsComplete(g: Geo, st: State, reg: Registry, s: Reader, k: nat, curTsc: nat)
    requires Inv(g, st) && k < g.slots && ReaderOf(g, s) && s.cur == g.Slot(k)
    requires var f := Next(st.m, reg, s, curTsc, true); f.Msg? && f.len + 13 == g.size
    ensures var f := Next(st.m, reg, s, curTsc, true);
      exists r :: Complete(g, st, r) && Holds(st.m, s.cur, r) && f.tsc == r.tsc && f.id == r.id
  {
    hide Inv, TscAt, IdAt, FollowerOk, Length, Complete, Enc;
    AcceptedSlot(g, st, k, curTsc);
    var r :| Complete(g, st, r) && SizedRec(g, r) && Holds(st.m, g.Slot(k), r);
    HeadBack(st.m, s.cur, r);
  }

  /** Exactly when the code is safe: what `next` accepts at a record boundary is a complete record if
      and only if the bytes there decode to the ring's record size. */
  lemma {:induction false} AcceptedIff(g: Geo, st: State, reg: Registry, s: Reader, k: nat, curTsc: nat)
    requires Inv(g, st) && k < g.slots && ReaderOf(g, s) && s.cur == g.Slot(k)
    requires Next(st.m, reg, s, curTsc, true).Msg?
    requires forall r :: Complete(g, st, r) ==> RecOk(reg, r)
    ensures IdAt(st.m, s.cur) in reg
    ensures var f := Next(st.m, reg, s, curTsc, true);
      Length(reg[IdAt(st.m, s.cur)], st.m, s.cur + 12) + 13 == g.size <==>
      exists r :: Complete(g, st, r) && SizedRec(g, r) && Holds(st.m, s.cur, r) && f.tsc == r.tsc && f.id == r.id
  {
    hide Inv, TscAt, IdAt, FollowerOk, Length, Complete, Enc, RecOk, Holds;
    var f := Next(st.m, reg, s, curTsc, true);
    if f.len + 13 == g.size {
      AcceptedSlot(g, st, k, curTsc);
      var r :| Complete(g, st, r) && SizedRec(g, r) && Holds(st.m, g.Slot(k), r);
      ReadBack(reg, st.m, s.cur, r);
    }
    forall r | Complete(g, st, r) && SizedRec(g, r) && Holds(st.m, s.cur, r) && f.tsc == r.tsc && f.id == r.id
      ensures f.len + 13 == g.size
    {
      ReadBack(reg, st.m, s.cur, r);
    }
  }

  predicate FixedKey(key: seq<Code>) {
    forall i :: 0 <= i < |key| ==> key[i].Plain? && key[i].basic != Str
  }

  function KeySize(key: seq<Code>): nat
    requires FixedKey(key)
  {
    if key == [] then 0 else FixedWidth(key[0].basic) + KeySize(key[1..])
  }

  /** A message of this ring: registered, with fixed-width parameters that make the ring's record size. */
  ghost predicate OwnMsg(g: Geo, reg: Registry, id: nat) {
    id in reg && FixedKey(reg[id]) && 13 + KeySize(reg[id]) == g.size
  }

  /** The ids that `allocateMsgId` gives out; see `MsgIds`. What they are registered for is arbitrary: other
      rings of the file may have messages of other sizes, or with strings. */
  ghost predicate IdsGiven(reg: Registry) {
    forall id :: id in reg ==> 0 < id < INT_BOUND
  }

  /** The writer starts messages of this ring only. */
  ghost predicate OwnMove(g: Geo, reg: Registry, v: Move) {
    v.Begin? ==> OwnMsg(g, reg, v.rec.id)
  }

  /** The id in memory at slot `i` is that of a message of this ring, or of none. */
  ghost predicate IdOk(g: Geo, reg: Registry, m: seq<byte>, i: nat) {
    IdAt(m, g.Slot(i)) in reg ==> OwnMsg(g, reg, IdAt(m, g.Slot(i)))
  }

  ghost predicate IdsOk(g: Geo, reg: Registry, st: State) {
    && (forall i {:trigger IdOk(g, reg, st.m, i)} :: 0 <= i < g.slots ==> IdOk(g, reg, st.m, i))
    && (st.phase.Writing? ==> OwnMsg(g, reg, st.phase.rec.id))
  }

  /** Before the first message the id bytes of a slot are zero, or end with an 0xff of the trailer. */
  lemma {:induction false} FreshId(g: Geo, m: seq<byte>, i: nat)
    requires Zeroed(g, m) && i < g.slots
    ensures IdAt(m, g.Slot(i)) == 0 || IdAt(m, g.Slot(i)) >= INT_BOUND
  {
    SlotInside(g, i);
    var w := Sub(m, g.Slot(i) + 8, 4);
    if w[3] == 0 {
      assert w == Fill(0, 4);
      LoadFill(0, 4);
    } else {
      TopByte(w);
    }
  }

  lemma {:induction false} TopByte(w: seq<byte>)
    requires |w| == 4 && w[3] == 255
    ensures Load(w) >= INT_BOUND
  {
    var w1, w2 := w[1..], w[2..];
    assert w1[1..] == w2 && w2[1..] == [255];
    assert Load(w) == w[0] + 256 * Load(w1);
    assert Load(w1) == w[1] + 256 * Load(w2);
    assert Load(w2) == w[2] + 256 * Load([255]);
    assert Load([255]) == 255 + 256 * Load([]);
  }

  lemma {:induction false} FreshIds(g: Geo, reg: Registry, m: seq<byte>)
    requires Zeroed(g, m) && IdsGiven(reg)
    ensures IdsOk(g, reg, Empty(g, m))
  {
    hide Zeroed, IdAt, Geo.Slot, OwnMsg;
    forall i | 0 <= i < g.slots
      ensures IdOk(g, reg, m, i)
    {
      FreshId(g, m, i);
    }
  }

  /** A store in the eight bytes at a slot, or in the record there behind its id, changes no id. */
  lemma {:induction false} IdKept(g: Geo, m: seq<byte>, m': seq<byte>, i: nat, c: nat, lo: nat, hi: nat)
    requires g.Ok() && i < g.slots && c <= g.slots && |m| == |m'|
    requires forall k :: 0 <= k < |m| && !(lo <= k < hi) ==> m'[k] == m[k]
    requires g.Slot(c) <= lo && (hi <= g.Slot(c) + 8 || (g.Slot(c) + 12 <= lo && hi <= g.Slot(c) + g.size))
    ensures IdAt(m', g.Slot(i)) == IdAt(m, g.Slot(i))
  {
    hide Load;
    SlotInside(g, i);
    if i < c {
      SlotMono(g, i, c);
    } else {
      SlotMono(g, c, i);
    }
    assert Sub(m', g.Slot(i) + 8, 4) == Sub(m, g.Slot(i) + 8, 4);
  }

  lemma {:induction false} IdsKept(g: Geo, reg: Registry, m: seq<byte>, m': seq<byte>, c: nat, lo: nat, hi: nat)
    requires g.Ok() && c <= g.slots && |m| == |m'|
    requires forall k :: 0 <= k < |m| && !(lo <= k < hi) ==> m'[k] == m[k]
    requires g.Slot(c) <= lo && (hi <= g.Slot(c) + 8 || (g.Slot(c) + 12 <= lo && hi <= g.Slot(c) + g.size))
    requires forall i {:trigger IdOk(g, reg, m, i)} :: 0 <= i < g.slots ==> IdOk(g, reg, m, i)
    ensures forall i {:trigger IdOk(g, reg, m', i)} :: 0 <= i < g.slots ==> IdOk(g, reg, m', i)
  {
    hide IdAt, OwnMsg, Geo.Slot, Geo.Ok;
    forall i | 0 <= i < g.slots
      ensures IdOk(g, reg, m', i)
    {
      assert IdOk(g, reg, m, i);
      IdKept(g, m, m', i, c, lo, hi);
    }
  }

  /** The id is stored: one slot now has the id of the message being written. */
  lemma {:induction false} StoreIdOk(g: Geo, reg: Registry, st: State)
    requires Inv(g, st) && Can(g, st, StoreId) && IdsOk(g, reg, st)
    ensures IdsOk(g, reg, Go(g, st, StoreId))
  {
    hide IdOk, OwnMsg, SlotOk, OthersOk, Enc, Store, Newest;
    var st', p := Go(g, st, StoreId), g.Slot(st.j);
    SlotInside(g, st.j);
    forall i | 0 <= i < g.slots
      ensures IdOk(g, reg, st'.m, i)
    {
      assert IdOk(g, reg, st.m, i);
      if i == st.j {
        IdStored(st.m, p, st.phase.rec.id);
        OwnId(g, reg, st'.m, i, st.phase.rec.id);
      } else {
        OtherIdKept(g, reg, st, i);
      }
    }
  }

  lemma {:induction false} IdStored(m: seq<byte>, p: nat, id: nat)
    requires p + 12 <= |m| && id < U32_BOUND
    ensures IdAt(Put(m, p + 8, Store(id, 4)), p) == id
  {
    hide Store, Load;
    SubIsSlice(Put(m, p + 8, Store(id, 4)), p + 8, 4);
    assert Put(m, p + 8, Store(id, 4))[p + 8..p + 12] == Store(id, 4);
    WordSizes();
    LoadStore(id, 4);
  }

  lemma {:induction false} OwnId(g: Geo, reg: Registry, m: seq<byte>, i: nat, id: nat)
    requires OwnMsg(g, reg, id) && IdAt(m, g.Slot(i)) == id
    ensures IdOk(g, reg, m, i)
  {
  }

  lemma {:induction false} OtherIdKept(g: Geo, reg: Registry, st: State, i: nat)
    requires Inv(g, st) && Can(g, st, StoreId) && i < g.slots && i != st.j && IdOk(g, reg, st.m, i)
    ensures IdOk(g, reg, Go(g, st, StoreId).m, i)
  {
    hide OwnMsg, SlotOk, OthersOk, Enc, Store, Newest, Load;
    var st', p := Go(g, st, StoreId), g.Slot(st.j);
    SlotInside(g, st.j);
    SlotInside(g, i);
    if i < st.j {
      SlotMono(g, i, st.j);
    } else {
      SlotMono(g, st.j, i);
    }
    assert Sub(st'.m, g.Slot(i) + 8, 4) == Sub(st.m, g.Slot(i) + 8, 4);
  }

  /** The tail word lies before all slots. */
  lemma {:induction false} TailWordIds(g: Geo, reg: Registry, st: State)
    requires Inv(g, st) && Can(g, st, StoreTail) && IdsOk(g, reg, st)
    ensures IdsOk(g, reg, Go(g, st, StoreTail))
  {
    hide OwnMsg, SlotOk, OthersOk, Enc, Store, Newest, Fill, Load;
    var st' := Go(g, st, StoreTail);
    SlotInside(g, 0);
    forall i | 0 <= i < g.slots
      ensures IdOk(g, reg, st'.m, i)
    {
      SlotInside(g, i);
      assert IdOk(g, reg, st.m, i);
      assert Sub(st'.m, g.Slot(i) + 8, 4) == Sub(st.m, g.Slot(i) + 8, 4);
    }
  }

  /** The other stores inside a message. */
  lemma {:induction false} InnerIds(g: Geo, reg: Registry, st: State, v: Move)
    requires Inv(g, st) && Can(g, st, v) && IdsOk(g, reg, st) && OwnMove(g, reg, v)
    requires v.Begin? || v.StoreParam? || v.StoreLength?
    ensures IdsOk(g, reg, Go(g, st, v))
  {
    hide IdOk, OwnMsg, SlotOk, OthersOk, Enc, Store, Newest, Fill, TrailerOk, AllFull, FirstLap;
    var st', p := Go(g, st, v), g.Slot(st.j);
    SlotInside(g, st.j);
    match v {
      case Begin(rec) => IdsKept(g, reg, st.m, st'.m, st.j, p, p + 8);
      case StoreParam(k) => IdsKept(g, reg, st.m, st'.m, st.j, p + 12 + k, p + 13 + k);
      case StoreLength => IdsKept(g, reg, st.m, st'.m, st.j, p + g.size - 1, p + g.size);
    }
  }

  /** The stores behind a message and behind the last slot. */
  lemma {:induction false} OuterIds(g: Geo, reg: Registry, st: State, v: Move)
    requires Inv(g, st) && Can(g, st, v) && IdsOk(g, reg, st) && (v.Finish? || v.RestoreTrailer?)
    ensures IdsOk(g, reg, Go(g, st, v))
  {
    hide IdOk, OwnMsg, SlotOk, OthersOk, Enc, Store, Newest, Fill, TrailerOk, AllFull, FirstLap;
    var st', c := Go(g, st, v), if v.Finish? then st.j + 1 else st.j;
    SlotInside(g, st.j);
    IdsKept(g, reg, st.m, st'.m, c, g.Slot(c), g.Slot(c) + 8);
  }

  /** The ids in memory stay those of messages of this ring, whatever store is next. */
  lemma {:induction false} GoIds(g: Geo, reg: Registry, st: State, v: Move)
    requires Inv(g, st) && Can(g, st, v) && IdsOk(g, reg, st) && OwnMove(g, reg, v)
    ensures IdsOk(g, reg, Go(g, st, v))
  {
    hide Inv, Go, Can, IdsOk, OwnMove;
    match v {
      case StoreId => StoreIdOk(g, reg, st);
      case Finish => OuterIds(g, reg, st, v);
      case RestoreTrailer => OuterIds(g, reg, st, v);
      case StoreTail => TailWordIds(g, reg, st);
      case _ => InnerIds(g, reg, st, v);
    }
  }

  lemma {:induction false} FixedLength(key: seq<Code>, m: seq<byte>, p: int)
    requires FixedKey(key)
    ensures Length(key, m, p) == KeySize(key)
    decreases |key|
  {
    if key != [] {
      FixedLength(key[1..], m, p + Width(key[0], m, p));
    }
  }

  /** When the messages written to this ring have fixed-width parameters of one size, then whatever else is
      registered the decoded size is always the ring's, so whatever `next` accepts, between any two stores
      of the writer, is a completely written record. */
  lemma {:induction false} FixedWidthSafety(g: Geo, st: State, reg: Registry, s: Reader, k: nat, curTsc: nat)
    requires Inv(g, st) && k < g.slots && ReaderOf(g, s) && s.cur == g.Slot(k) && IdsOk(g, reg, st)
    requires Next(st.m, reg, s, curTsc, true).Msg?
    ensures var f := Next(st.m, reg, s, curTsc, true);
      f.len + 13 == g.size && Complete(g, st, Rec(f.tsc, f.id, Sub(st.m, s.cur + 12, f.len)))
  {
    hide Inv, TscAt, IdAt, FollowerOk, Length, Complete, Enc, Holds, FixedKey, KeySize;
    var f := Next(st.m, reg, s, curTsc, true);
    assert IdOk(g, reg, st.m, k);
    FixedLength(reg[f.id], st.m, s.cur + 12);
    AcceptedSlot(g, st, k, curTsc);
    var r :| Complete(g, st, r) && SizedRec(g, r) && Holds(st.m, g.Slot(k), r);
    HeldRec(st.m, s.cur, r);
  }

  lemma {:induction false} HeldRec(m: seq<byte>, p: nat, r: Rec)
    requires Holds(m, p, r) && r.tsc < U64_BOUND && r.id < U32_BOUND
    ensures TscAt(m, p) == r.tsc && IdAt(m, p) == r.id && Sub(m, p + 12, |r.params|) == r.params
  {
    hide Enc;
    HeadBack(m, p, r);
    SubIsSlice(m, p + 12, |r.params|);
  }

  ghost predicate CanRun(g: Geo, st: State, vs: seq<Move>)
    requires Inv(g, st)
    decreases |vs|
  {
    vs == [] || (Can(g, st, vs[0]) && (GoInv(g, st, vs[0]); CanRun(g, Go(g, st, vs[0]), vs[1..])))
  }

  ghost function GoAll(g: Geo, st: State, vs: seq<Move>): (st': State)
    requires Inv(g, st) && CanRun(g, st, vs)
    ensures Inv(g, st')
    decreases |vs|
  {
    if vs == [] then st
    else
      GoInv(g, st, vs[0]);
      GoAll(g, Go(g, st, vs[0]), vs[1..])
  }

  /** The writer does a store, or the reader calls `dump` or `reset`. */
  datatype Turn = Writer(v: Move) | Dumps(orderTsc: nat, curTsc: nat) | Resets

  /** Whatever the reader prints in these turns is a record all of whose bytes are stored. */
  ghost predicate PrintsComplete(g: Geo, reg: Registry, st: State, s: Reader, ts: seq<Turn>)
    requires Inv(g, st)
    decreases |ts|
  {
    if ts == [] then true
    else
      match ts[0]
      case Writer(v) =>
        Can(g, st, v) ==>
          (GoInv(g, st, v);
           PrintsComplete(g, reg, Go(g, st, v), s, ts[1..]))
      case Dumps(orderTsc, curTsc) =>
        var (s', o) := Dump(st.m, reg, s, orderTsc, curTsc, true);
        && (o.Printed? ==> Complete(g, st, o.rec))
        && PrintsComplete(g, reg, st, s', ts[1..])
      case Resets => PrintsComplete(g, reg, st, Reset(s), ts[1..])
  }

  /** The reader stays at record boundaries. */
  ghost predicate AtSlot(g: Geo, s: Reader) {
    exists k :: 0 <= k < g.slots && s.cur == g.Slot(k)
  }

  lemma {:induction false} DumpSafe(g: Geo, reg: Registry, st: State, s: Reader, orderTsc: nat, curTsc: nat)
    requires Inv(g, st) && ReaderOf(g, s) && AtSlot(g, s) && IdsOk(g, reg, st)
    ensures var (s', o) := Dump(st.m, reg, s, orderTsc, curTsc, true);
      (o.Printed? ==> Complete(g, st, o.rec)) && ReaderOf(g, s') && AtSlot(g, s')
  {
    hide Next, Complete, IdsOk, Geo.Slot, CurrentOk, OthersOk;
    var k: nat :| k < g.slots && s.cur == g.Slot(k);
    if Next(st.m, reg, s, curTsc, true).Msg? {
      FixedWidthSafety(g, st, reg, s, k, curTsc);
      var s' := Dump(st.m, reg, s, orderTsc, curTsc, true).0;
      SlotInside(g, k);
      ZeroSlot(g);
      if s'.cur == g.Slot(k + 1) {
        NextSlot(g, k);
      } else {
        assert s'.cur == g.Slot(k) || s'.cur == g.Slot(0);
      }
    }
  }

  /** Only the slots before the end of the usable area are boundaries that a reader keeps. */
  lemma {:induction false} NextSlot(g: Geo, k: nat)
    requires g.Ok() && k < g.slots
    ensures g.Slot(k + 1) < g.end <==> k + 1 < g.slots
  {
    SlotMono(g, k + 1, g.slots);
    if k + 1 < g.slots {
      SlotInside(g, k + 1);
    }
  }

  /** All messages written in these turns are messages of this ring. */
  ghost predicate OwnTurns(g: Geo, reg: Registry, ts: seq<Turn>) {
    forall i {:trigger ts[i]} :: 0 <= i < |ts| && ts[i].Writer? ==> OwnMove(g, reg, ts[i].v)
  }

  /** Over whole runs: from a new ring in zeroed memory, to which only messages with fixed-width parameters of
      one size are written, with the stores of the writer and the calls of the reader in any order, over any
      number of laps and for a reader that is lapped, everything printed is a completely written record. */
  lemma {:induction false} RaceFreedom(g: Geo, reg: Registry, m: seq<byte>, s: Reader, ts: seq<Turn>)
    requires Zeroed(g, m) && ReaderOf(g, s) && s.cur == s.start && IdsGiven(reg) && OwnTurns(g, reg, ts)
    ensures Inv(g, Empty(g, m)) && PrintsComplete(g, reg, Empty(g, m), s, ts)
  {
    FreshInv(g, m);
    FreshIds(g, reg, m);
    ZeroSlot(g);
    assert AtSlot(g, s);
    TurnsSafe(g, reg, Empty(g, m), s, ts);
  }

  lemma {:induction false} TurnsSafe(g: Geo, reg: Registry, st: State, s: Reader, ts: seq<Turn>)
    requires Inv(g, st) && ReaderOf(g, s) && AtSlot(g, s) && IdsOk(g, reg, st) && OwnTurns(g, reg, ts)
    ensures PrintsComplete(g, reg, st, s, ts)
    decreases |ts|
  {
    hide Inv, IdsOk, Dump, Complete, Go, OwnMove;
    if ts != [] {
      match ts[0] {
        case Writer(v) =>
          if Can(g, st, v) {
            GoInv(g, st, v);
            GoIds(g, reg, st, v);
            TurnsSafe(g, reg, Go(g, st, v), s, ts[1..]);
          }
        case Dumps(orderTsc, curTsc) =>
          DumpSafe(g, reg, st, s, orderTsc, curTsc);
          TurnsSafe(g, reg, st, Dump(st.m, reg, s, orderTsc, curTsc, true).0, ts[1..]);
        case Resets =>
          ResetSafe(g, st, s);
          TurnsSafe(g, reg, st, Reset(s), ts[1..]);
      }
    }
  }

  lemma {:induction false} ResetSafe(g: Geo, st: State, s: Reader)
    requires Inv(g, st) && ReaderOf(g, s) && AtSlot(g, s)
    ensures ReaderOf(g, Reset(s)) && AtSlot(g, Reset(s))
  {
    hide CurrentOk, OthersOk, Geo.Slot;
    ZeroSlot(g);
    assert s.start == g.Slot(0);
  }
}
