/** Where the safety of `Race` ends: with a string or an optional parameter the size that the reader
    decodes inside a half-written message comes from the bytes of the message before it, and the
    reader can accept a record that nobody wrote. Two concrete runs on the smallest ring. */
module TornRecord {
  import opened Bytes
  import opened Codes
  import opened Wrappers
  import opened Records
  import opened RingReader
  import opened Race
  import RingState

  // ------------------------------------------------------------ reaching states

  /** Some stores of the writer lead from `st` to `st'`. */
  ghost predicate Reaches(g: Geo, st: State, st': State)
    requires Inv(g, st)
  {
    exists vs :: CanRun(g, st, vs) && GoAll(g, st, vs) == st'
  }

  lemma {:induction false} RunAppend(g: Geo, st: State, vs: seq<Move>, ws: seq<Move>)
    requires Inv(g, st) && CanRun(g, st, vs) && CanRun(g, GoAll(g, st, vs), ws)
    ensures CanRun(g, st, vs + ws) && GoAll(g, st, vs + ws) == GoAll(g, GoAll(g, st, vs), ws)
    decreases |vs|
  {
    hide Inv, Can, Go;
    if vs == [] {
      assert vs + ws == ws;
    } else {
      assert (vs + ws)[1..] == vs[1..] + ws;
      GoInv(g, st, vs[0]);
      RunAppend(g, Go(g, st, vs[0]), vs[1..], ws);
    }
  }

  lemma {:induction false} ReachesItself(g: Geo, st: State)
    requires Inv(g, st)
    ensures Reaches(g, st, st)
  {
    hide Inv;
    assert CanRun(g, st, []) && GoAll(g, st, []) == st;
  }

  /** One more store. */
  lemma {:induction false} ReachesNext(g: Geo, st: State, st': State, v: Move)
    requires Inv(g, st) && Reaches(g, st, st') && Inv(g, st') && Can(g, st', v)
    ensures Inv(g, Go(g, st', v)) && Reaches(g, st, Go(g, st', v))
  {
    hide Inv, Can, Go;
    GoInv(g, st', v);
    var vs :| CanRun(g, st, vs) && GoAll(g, st, vs) == st';
    OneMove(g, st', v);
    RunAppend(g, st, vs, [v]);
  }

  lemma {:induction false} OneMove(g: Geo, st: State, v: Move)
    requires Inv(g, st) && Can(g, st, v) && Inv(g, Go(g, st, v))
    ensures CanRun(g, st, [v]) && GoAll(g, st, [v]) == Go(g, st, v)
  {
    hide Inv, Can, Go;
    assert [v][1..] == [];
  }

  // ----------------------------------------------------------- whole messages

  /** The parameter bytes from `k` on, in address order. */
  lemma {:induction false} ReachParams(g: Geo, st0: State, st: State, k: nat) returns (st': State)
    requires Inv(g, st0) && Reaches(g, st0, st) && Inv(g, st)
    requires st.phase.Writing? && st.phase.stage.Filling? && k <= |st.phase.rec.params|
    requires forall i: nat :: i in st.phase.stage.done <==> i < k
    ensures Inv(g, st') && Reaches(g, st0, st') && st'.j == st.j && st'.content == st.content
    ensures st'.phase.Writing? && st'.phase.rec == st.phase.rec && st'.phase.stage.Filling?
    ensures AllStored(st'.phase.rec, st'.phase.stage.done)
    decreases |st.phase.rec.params| - k
  {
    hide Inv, Reaches;
    if k == |st.phase.rec.params| {
      st' := st;
    } else {
      ReachesNext(g, st0, st, StoreParam(k));
      st' := ReachParams(g, st0, Go(g, st, StoreParam(k)), k + 1);
    }
  }

  /** A whole message. */
  lemma {:induction false} ReachMessage(g: Geo, st0: State, st: State, rec: Rec) returns (st': State)
    requires Inv(g, st0) && Reaches(g, st0, st) && Inv(g, st) && Can(g, st, Begin(rec))
    ensures Inv(g, st') && Reaches(g, st0, st')
    ensures st'.j == st.j + 1 && st'.phase == Idle(true) && st'.content == st.content[st.j := Some(rec)]
  {
    hide Inv, Reaches, SizedRec, Newest, Put, Store, Fill;
    ReachesNext(g, st0, st, Begin(rec));
    var s1 := Go(g, st, Begin(rec));
    ReachesNext(g, st0, s1, StoreId);
    var s2 := ReachParams(g, st0, Go(g, s1, StoreId), 0);
    ReachesNext(g, st0, s2, StoreLength);
    var s3 := Go(g, s2, StoreLength);
    ReachesNext(g, st0, s3, Finish);
    st' := Go(g, s3, Finish);
  }

  /** A lap of records that fill the ring, with timestamps 1, 2, and so on. */
  ghost predicate LapOf(g: Geo, rs: seq<Rec>) {
    |rs| == g.slots && forall i :: 0 <= i < |rs| ==> SizedRec(g, rs[i]) && rs[i].tsc == i + 1
  }

  lemma {:induction false} ReachLap(g: Geo, m: seq<byte>, rs: seq<Rec>, n: nat) returns (st: State)
    requires Zeroed(g, m) && Inv(g, Empty(g, m)) && LapOf(g, rs) && n <= |rs|
    ensures Inv(g, st) && Reaches(g, Empty(g, m), st) && st.j == n && st.phase == Idle(true)
    ensures |st.content| == g.slots
    ensures forall i :: 0 <= i < g.slots ==> st.content[i] == if i < n then Some(rs[i]) else None
  {
    hide Inv, Reaches, SizedRec, Zeroed;
    if n == 0 {
      st := Empty(g, m);
      ReachesItself(g, st);
    } else {
      var before := ReachLap(g, m, rs, n - 1);
      assert Newest(before.content, rs[n - 1].tsc);
      st := ReachMessage(g, Empty(g, m), before, rs[n - 1]);
    }
  }

  /** The lap and the two stores of the wrap after it. */
  lemma {:induction false} ReachWrapped(g: Geo, m: seq<byte>, rs: seq<Rec>) returns (st: State)
    requires Zeroed(g, m) && Inv(g, Empty(g, m)) && LapOf(g, rs)
    ensures Inv(g, st) && Reaches(g, Empty(g, m), st) && st.j == 0 && st.phase == Idle(false)
    ensures |st.content| == g.slots && forall i :: 0 <= i < g.slots ==> st.content[i] == Some(rs[i])
  {
    hide Inv, Reaches, Zeroed, SizedRec, Put, Fill, Store;
    var st1 := ReachLap(g, m, rs, g.slots);
    ReachesNext(g, Empty(g, m), st1, RestoreTrailer);
    var st2 := Go(g, st1, RestoreTrailer);
    ReachesNext(g, Empty(g, m), st2, StoreTail);
    st := Go(g, st2, StoreTail);
  }

  // -------------------------------------------------------- a half-written head

  /** ... then the timestamp and the id of one more message: the bytes behind them are still those of
      the ring's first record. */
  lemma {:induction false} ReachTorn(g: Geo, m: seq<byte>, rs: seq<Rec>, rec: Rec) returns (st: State)
    requires Zeroed(g, m) && Inv(g, Empty(g, m)) && LapOf(g, rs) && SizedRec(g, rec) && rec.tsc == g.slots + 1
    ensures Inv(g, st) && Reaches(g, Empty(g, m), st) && st.phase == Writing(rec, Filling({}))
    ensures |st.content| == g.slots && forall i :: 0 <= i < g.slots ==> st.content[i] == Some(rs[i])
    ensures |rs| > 0 && |rs[0].params| + 13 == g.size
    ensures TscAt(st.m, g.Start()) == rec.tsc && IdAt(st.m, g.Start()) == rec.id
    ensures Sub(st.m, g.Start() + 12, g.size - 12) == rs[0].params + [g.size - 1]
  {
    hide Inv, Reaches, Zeroed, TscAt, IdAt, Put, Store;
    var st0 := ReachWrapped(g, m, rs);
    FirstSlot(g, st0);
    assert Newest(st0.content, rec.tsc);
    ReachesNext(g, Empty(g, m), st0, Begin(rec));
    var st1 := Go(g, st0, Begin(rec));
    ReachesNext(g, Empty(g, m), st1, StoreId);
    st := Go(g, st1, StoreId);
    ZeroSlot(g);
    assert SizedRec(g, rs[0]);
    SizeBound(g, m);
    HeadOver(st0.m, st.m, g.Start(), rs[0], rec);
  }

  lemma {:induction false} SizeBound(g: Geo, m: seq<byte>)
    requires Zeroed(g, m)
    ensures 13 <= g.size <= MAX_RECORD
  {
  }

  lemma {:induction false} FirstSlot(g: Geo, st: State)
    requires Inv(g, st) && st.j == 0 && st.phase == Idle(false)
    ensures g.slots > 0 && g.Slot(0) == g.Start() && st.content[0].Some?
    ensures var r := st.content[0].value; SizedRec(g, r) && Holds(st.m, g.Start(), r)
  {
    SlotInside(g, 0);
  }

  /** A new timestamp and id over an old record. */
  lemma {:induction false} HeadOver(m: seq<byte>, m': seq<byte>, p: nat, first: Rec, rec: Rec)
    requires Holds(m, p, first) && first.tsc < U64_BOUND && first.id < U32_BOUND
    requires rec.tsc < U64_BOUND && rec.id < U32_BOUND
    requires p + 12 <= |m| && m' == Put(Put(m, p, Store(rec.tsc, 8)), p + 8, Store(rec.id, 4))
    ensures TscAt(m', p) == rec.tsc && IdAt(m', p) == rec.id
    ensures Sub(m', p + 12, |first.params| + 1) == first.params + [(12 + |first.params|) % 256]
  {
    hide Put, Store, Load, TscAt, IdAt, Holds, Sub;
    NewHead(m, m', p, rec);
    OldRest(m, m', p, first);
  }

  lemma {:induction false} NewHead(m: seq<byte>, m': seq<byte>, p: nat, rec: Rec)
    requires p + 12 <= |m| && rec.tsc < U64_BOUND && rec.id < U32_BOUND
    requires m' == Put(Put(m, p, Store(rec.tsc, 8)), p + 8, Store(rec.id, 4))
    ensures TscAt(m', p) == rec.tsc && IdAt(m', p) == rec.id
  {
    hide Put, Store, Load;
    assert m'[p..p + 8] == Store(rec.tsc, 8) && m'[p + 8..p + 12] == Store(rec.id, 4);
    SubIsSlice(m', p, 8);
    SubIsSlice(m', p + 8, 4);
    WordSizes();
    LoadStore(rec.tsc, 8);
    LoadStore(rec.id, 4);
  }

  lemma {:induction false} OldRest(m: seq<byte>, m': seq<byte>, p: nat, first: Rec)
    requires Holds(m, p, first) && first.tsc < U64_BOUND && first.id < U32_BOUND
    requires |m'| == |m| && forall i :: p + 12 <= i < |m| ==> m'[i] == m[i]
    ensures Sub(m', p + 12, |first.params| + 1) == first.params + [(12 + |first.params|) % 256]
  {
    hide Enc;
    var n := |first.params|;
    HeadBack(m, p, first);
    forall i | 0 <= i < n
      ensures m[p + 12 + i] == first.params[i]
    {
      assert m[p + 12 + i] == m[p + 12..p + 12 + n][i];
    }
  }

  /** A number is at least its byte `i`. */
  lemma {:induction false} LoadAtLeast(s: seq<byte>, i: nat)
    requires i < |s|
    ensures Load(s) >= s[i]
    decreases i
  {
    if i > 0 {
      LoadAtLeast(s[1..], i - 1);
    }
  }

  /** What makes the old bytes `ps` look like a shorter message of `len` parameter bytes: they decode to
      that length, the length byte agrees, and the eight bytes behind it are a later timestamp. */
  predicate Misread(key: seq<Code>, ps: seq<byte>, len: nat, tsc: nat) {
    && Length(key, ps, 0) == len && len + 1 < |ps|
    && ps[len] == len + 12
    && ps[len + 1] >= tsc
  }

  lemma {:induction false} MisreadAccepted(g: Geo, reg: Registry, m: seq<byte>, s: Reader, ps: seq<byte>, len: nat)
    requires g.Ok() && |ps| == g.size - 12 && g.Start() + g.size <= |m|
    requires ReaderOf(g, s) && s.cur == s.start && s.lastTsc == 0
    requires Sub(m, g.Start() + 12, |ps|) == ps
    requires 0 < TscAt(m, g.Start()) < U64_MAX && IdAt(m, g.Start()) in reg
    requires Misread(reg[IdAt(m, g.Start())], ps, len, TscAt(m, g.Start()))
    ensures Next(m, reg, s, U64_MAX, true) == Msg(TscAt(m, g.Start()), IdAt(m, g.Start()), len)
  {
    hide IdAt, Length, Load;
    var p, key := g.Start(), reg[IdAt(m, g.Start())];
    assert Sub(ps, 0, |ps|) == ps;
    LengthLocal(key, ps, 0, m, p + 12, |ps|);
    assert At(m, p + 12 + len) == ps[len] && At(m, p + 13 + len) == ps[len + 1];
    LoadAtLeast(Sub(m, p + 13 + len, 8), 0);
    ZeroSlot(g);
    SlotInside(g, 1);
    SlotMono(g, 1, g.slots - 1);
  }

  // ------------------------------------------------------------ the two runs

  /** Records 1, 2, and so on: the first with the parameters `ps`, the others with zeros. */
  function Lap(ps: seq<byte>, n: nat): (rs: seq<Rec>)
    ensures |rs| == n
  {
    seq(n, (i: nat) => Rec(i + 1, 1, if i == 0 then ps else Fill(0, |ps|)))
  }

  /** On a ring of records of 13 + `|ps|` bytes, where message 2 can misread the parameters `ps`: the
      reader accepts a record of another size, with a timestamp that no complete record has. */
  lemma {:induction false} TornAt(g: Geo, reg: Registry, m: seq<byte>, ps: seq<byte>, rec: Rec, len: nat)
    returns (st: State)
    requires Zeroed(g, m) && g.size == 13 + |ps| && SizedRec(g, rec) && rec.tsc == g.slots + 1 < U64_MAX
    requires 1 in reg && rec.id in reg && Length(reg[1], ps, 0) == |ps| == Length(reg[1], Fill(0, |ps|), 0)
    requires Misread(reg[rec.id], ps + [g.size - 1], len, rec.tsc)
    ensures Inv(g, Empty(g, m)) && Inv(g, st) && Reaches(g, Empty(g, m), st)
    ensures var s := Reader(g.Start(), g.end, g.Start(), 0, 0);
      Next(st.m, reg, s, U64_MAX, true) == Msg(rec.tsc, rec.id, len) && len + 13 < g.size
    ensures forall r :: Complete(g, st, r) ==> RecOk(reg, r) && r.tsc < rec.tsc
  {
    hide Inv, Zeroed, Reaches, Length, Misread, Next, Fill, TscAt, IdAt, Sub;
    assert g.Ok() && g.slots < U64_MAX by {
      ZeroedOk(g, m);
    }
    FreshInv(g, m);
    var rs := Lap(ps, g.slots);
    st := ReachTorn(g, m, rs, rec);
    assert rs[0].params == ps;
    assert g.Start() + g.size <= |st.m| by {
      RoomOf(g, st);
    }
    MisreadAccepted(g, reg, st.m, Reader(g.Start(), g.end, g.Start(), 0, 0), ps + [g.size - 1], len);
    LenBound(reg[rec.id], ps, g.size - 1, len, rec.tsc);
  }

  lemma {:induction false} LenBound(key: seq<Code>, ps: seq<byte>, b: byte, len: nat, tsc: nat)
    requires Misread(key, ps + [b], len, tsc)
    ensures len < |ps|
  {
    hide Length;
  }

  lemma {:induction false} RoomOf(g: Geo, st: State)
    requires Inv(g, st)
    ensures g.Start() + g.size <= |st.m|
  {
    hide CurrentOk, OthersOk;
    ZeroSlot(g);
    SlotInside(g, 0);
  }

  lemma {:induction false} ZeroedOk(g: Geo, m: seq<byte>)
    requires Zeroed(g, m)
    ensures g.Ok()
  {
  }

  /** Slots of one size lie one behind the other. */
  lemma {:induction false} SlotAt(g: Geo, i: nat)
    ensures g.Slot(i) == g.Start() + g.size * i
    decreases i
  {
    if i > 0 {
      SlotAt(g, i - 1);
    }
  }

  /** The smallest ring of a file, at the start of the memory. */
  ghost function SmallRing(size: nat, slots: nat): Geo {
    Geo(0, RingState.MIN_RING - TRAILER, size, slots)
  }

  lemma {:induction false} SmallZeroed(size: nat, slots: nat, m: seq<byte>)
    requires |m| == RingState.MIN_RING && forall i :: 0 <= i < |m| ==> m[i] == 0
    requires 13 <= size <= MAX_RECORD && slots >= 2 && HEADER + size * (slots - 1) < 768 <= HEADER + size * slots
    ensures Zeroed(SmallRing(size, slots), RingState.BufIs(m, 0, RingState.MIN_RING).m)
  {
    hide RingState.BufIs;
    SlotAt(SmallRing(size, slots), slots - 1);
    SlotAt(SmallRing(size, slots), slots);
    BufIsZeroed(SmallRing(size, slots), m, 0, RingState.MIN_RING);
  }

  const U64_THEN_U8: seq<Code> := [Plain(U64), Plain(U8)]

  /** A string: 37 records of 21 bytes fill the smallest ring. The 38th message, with the string
      "aaaaaaa", is taken for one with a 2-character string as soon as its id is stored. */
  lemma {:induction false} TornAccepted(m: seq<byte>) returns (st: State)
    requires |m| == RingState.MIN_RING && forall i :: 0 <= i < |m| ==> m[i] == 0
    ensures var g, reg := SmallRing(21, 37), map[1 := [Plain(U64)], 2 := [Plain(Str)]];
      var start := Empty(g, RingState.BufIs(m, 0, RingState.MIN_RING).m);
      && Inv(g, start) && Inv(g, st) && Reaches(g, start, st)
      && Next(st.m, reg, Reader(4, 768, 4, 0, 0), U64_MAX, true) == Msg(38, 2, 3)
      && forall r :: Complete(g, st, r) ==> RecOk(reg, r) && r.tsc < 38
  {
    hide Inv, Zeroed, Next, Complete, Reaches, RingState.BufIs, Fill;
    var g, reg := SmallRing(21, 37), map[1 := [Plain(U64)], 2 := [Plain(Str)]];
    SmallZeroed(21, 37, m);
    var ps: seq<byte> := [2, 0, 0, 15, 200, 0, 0, 0];
    var text: seq<byte> := [7, 97, 97, 97, 97, 97, 97, 97];
    OneNumber(ps);
    OneNumber(Fill(0, 8));
    OneString(ps + [20]);
    st := TornAt(g, reg, RingState.BufIs(m, 0, RingState.MIN_RING).m, ps, Rec(38, 2, text), 3);
  }

  lemma {:induction false} OneNumber(ps: seq<byte>)
    ensures Length([Plain(U64)], ps, 0) == 8
    ensures Length(U64_THEN_U8, ps, 0) == 9
  {
    assert U64_THEN_U8[1..] == [Plain(U8)];
    assert Length([Plain(U8)], ps, 8) == 1;
  }

  lemma {:induction false} OneString(ps: seq<byte>)
    ensures Length([Plain(Str)], ps, 0) == 1 + At(ps, 0)
    ensures Length([Opt(U64)], ps, 0) == if At(ps, 0) != 0 then 9 else 1
  {
  }

  /** An optional: 35 records of 22 bytes fill the smallest ring. The 36th message, whose optional
      number is present, is taken for one whose optional is empty. */
  lemma {:induction false} TornOptional(m: seq<byte>) returns (st: State)
    requires |m| == RingState.MIN_RING && forall i :: 0 <= i < |m| ==> m[i] == 0
    ensures var g, reg := SmallRing(22, 35), map[1 := U64_THEN_U8, 2 := [Opt(U64)]];
      var start := Empty(g, RingState.BufIs(m, 0, RingState.MIN_RING).m);
      && Inv(g, start) && Inv(g, st) && Reaches(g, start, st)
      && Next(st.m, reg, Reader(4, 768, 4, 0, 0), U64_MAX, true) == Msg(36, 2, 1)
      && forall r :: Complete(g, st, r) ==> RecOk(reg, r) && r.tsc < 36
  {
    hide Inv, Zeroed, Next, Complete, Reaches, RingState.BufIs, Fill;
    var g, reg := SmallRing(22, 35), map[1 := U64_THEN_U8, 2 := [Opt(U64)]];
    SmallZeroed(22, 35, m);
    var ps: seq<byte> := [0, 13, 200, 0, 0, 0, 0, 0, 0];
    OneNumber(ps);
    OneNumber(Fill(0, 9));
    OneString(ps + [21]);
    st := TornAt(g, reg, RingState.BufIs(m, 0, RingState.MIN_RING).m, ps, Rec(36, 2, [1, 0, 0, 0, 0, 0, 0, 0, 0]), 1);
  }
}
