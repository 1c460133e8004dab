/** Message ids across threads: every call site has one static id, shared by all threads, and each
    thread has its own trace file. A step is one access to shared memory, taken by any thread. */
module MsgIds {
  const MAX_ID: int := 0x7fff_ffff

  /** What a trace file gets, in the order of writing. */
  datatype Entry = Descriptor(site: nat, id: int) | Record(site: nat, id: int)

  /** Where a thread is in the trace macro: before it, at the unlocked check of the macro, at the
      unlocked check of the descriptor's constructor, in `allocateMsgId` (before the lock, after it,
      with an id taken, before the unlock), reading the id, with a descriptor to write, with the id
      to mark, with the record to write. */
  datatype Place =
    | Idle
    | Check(site: nat)
    | Construct(site: nat)
    | WantLock(site: nat)
    | Recheck(site: nat)
    | Taken(site: nat, id: int)
    | Unlock(site: nat)
    | ReadId(site: nat)
    | Describe(site: nat, id: int)
    | Mark(site: nat, id: int)
    | Write(site: nat)

  /** A thread: its place, its file, and `msgIdInitialized_` of that file. */
  datatype Thread = Thread(place: Place, file: seq<Entry>, flags: seq<bool>)

  /** `holder` is the thread in the locked part, `|threads|` when the mutex is free. */
  datatype State = State(ids: seq<int>, next: int, holder: nat, threads: seq<Thread>)

  /** Thread `t` does its next step; from `Idle` it enters the macro of `site`. `on` says whether the
      message is enabled when it writes the record. */
  datatype Move = Move(t: nat, site: nat, on: bool)

  /** `msgIdInitialized`. */
  function Initialized(flags: seq<bool>, id: int): bool {
    id != 0 && 0 <= id < |flags| && flags[id]
  }

  /** `msgIdInitializedIs`. */
  function SetInitialized(flags: seq<bool>, id: nat): (r: seq<bool>)
    ensures forall i :: Initialized(r, i) <==> Initialized(flags, i) || (i == id != 0)
  {
    (if |flags| <= id then flags + seq(id + 32 - |flags|, _ => false) else flags)[id := true]
  }

  /** `nextMsgId_++` of a 32-bit `int`. */
  function Bump(n: int): int {
    if n == MAX_ID then -MAX_ID - 1 else n + 1
  }

  predicate Shape(s: State) {
    && s.holder <= |s.threads|
    && forall t :: 0 <= t < |s.threads| ==> PlaceOk(s.threads[t].place, |s.ids|)
  }

  predicate PlaceOk(p: Place, sites: nat) {
    (!p.Idle? ==> p.site < sites) && (p.Mark? ==> p.id >= 0)
  }

  predicate MoveOk(s: State, v: Move) {
    v.t < |s.threads| && v.site < |s.ids|
  }

  function Goto(s: State, t: nat, p: Place): State
    requires t < |s.threads|
  {
    s.(threads := s.threads[t := s.threads[t].(place := p)])
  }

  function Step(s: State, v: Move): (r: State)
    requires Shape(s) && MoveOk(s, v)
    ensures |r.ids| == |s.ids| && |r.threads| == |s.threads|
  {
    var th := s.threads[v.t];
    match th.place
    case Idle => Goto(s, v.t, Check(v.site))
    case Check(site) => Goto(s, v.t, if Initialized(th.flags, s.ids[site]) then Write(site) else Construct(site))
    case Construct(site) => Goto(s, v.t, if s.ids[site] == 0 then WantLock(site) else ReadId(site))
    case WantLock(site) => if s.holder == |s.threads| then Goto(s, v.t, Recheck(site)).(holder := v.t) else s
    case Recheck(site) =>
      if s.ids[site] != 0 then Goto(s, v.t, Unlock(site))
      else
        var id := if s.next == 0 then 1 else s.next;
        Goto(s, v.t, Taken(site, id)).(next := Bump(id))
    case Taken(site, id) => Goto(s, v.t, Unlock(site)).(ids := s.ids[site := id])
    case Unlock(site) => Goto(s, v.t, ReadId(site)).(holder := |s.threads|)
    case ReadId(site) => Goto(s, v.t, Describe(site, s.ids[site]))
    case Describe(site, id) =>
      var place := Mark(site, if id < 0 then 0 else id);
      s.(threads := s.threads[v.t := th.(place := place, file := th.file + [Descriptor(site, id)])])
    case Mark(site, id) =>
      s.(threads := s.threads[v.t := th.(place := Write(site), flags := SetInitialized(th.flags, id))])
    case Write(site) =>
      var file := if v.on then th.file + [Record(site, s.ids[site])] else th.file;
      s.(threads := s.threads[v.t := th.(place := Idle, file := file)])
  }

  /** Nothing allocated, no file written. */
  function Start(sites: nat, threads: nat): State {
    State(seq(sites, i => 0), 1, threads, seq(threads, i => Thread(Idle, [], [])))
  }

  // -------------------------------------------------------------- invariant

  /** How many sites have an id. */
  function Allocated(ids: seq<int>): (n: nat)
    ensures n <= |ids|
  {
    if ids == [] then 0 else Allocated(ids[..|ids| - 1]) + if ids[|ids| - 1] != 0 then 1 else 0
  }

  lemma {:induction false} AllocatedUpdate(ids: seq<int>, k: nat, v: int)
    requires k < |ids| && ids[k] == 0 && v != 0
    ensures Allocated(ids[k := v]) == Allocated(ids) + 1
    ensures Allocated(ids) < |ids|
    decreases |ids|
  {
    var n := |ids| - 1;
    if k < n {
      AllocatedUpdate(ids[..n], k, v);
      assert ids[k := v][..n] == ids[..n][k := v];
    } else {
      assert ids[k := v][..n] == ids[..n];
    }
  }

  predicate Holding(p: Place) {
    p.Recheck? || p.Taken? || p.Unlock?
  }

  /** An id has been taken and not yet stored. */
  predicate Pending(s: State) {
    s.holder < |s.threads| && s.threads[s.holder].place.Taken?
  }

  /** How many ids have been handed out. */
  function Given(s: State): nat {
    Allocated(s.ids) + if Pending(s) then 1 else 0
  }

  /** Distinct non-zero ids, counted by `nextMsgId_`; one id may be on its way to its site. */
  ghost predicate IdsOk(s: State) {
    && |s.ids| <= MAX_ID
    && (Given(s) < MAX_ID ==> s.next == Given(s) + 1)
    && Given(s) <= MAX_ID
    && (forall i :: 0 <= i < |s.ids| ==> 0 <= s.ids[i] <= Given(s))
    && (forall i, j :: 0 <= i < j < |s.ids| && s.ids[i] == s.ids[j] ==> s.ids[i] == 0)
    && (Pending(s) ==>
        var p := s.threads[s.holder].place;
        && p.site < |s.ids| && s.ids[p.site] == 0 && 0 < p.id <= Given(s)
        && forall i :: 0 <= i < |s.ids| ==> s.ids[i] != p.id)
  }

  /** Only the holder of the mutex is in the locked part. */
  ghost predicate LockOk(s: State) {
    forall t :: 0 <= t < |s.threads| && Holding(s.threads[t].place) ==> t == s.holder
  }

  /** The file has a descriptor with this id. */
  ghost predicate Describes(file: seq<Entry>, id: int) {
    exists i :: 0 <= i < |file| && file[i].Descriptor? && file[i].id == id
  }

  /** Entries carry the id of their site. */
  ghost predicate EntriesOk(file: seq<Entry>, ids: seq<int>) {
    forall i :: 0 <= i < |file| ==> file[i].site < |ids| && file[i].id == ids[file[i].site] > 0
  }

  /** Exactly one descriptor for an id before the first record with that id. */
  ghost predicate FileOk(file: seq<Entry>) {
    && (forall i :: 0 <= i < |file| && file[i].Record? ==>
          exists j :: 0 <= j < i && file[j] == Descriptor(file[i].site, file[i].id))
    && (forall i, j :: 0 <= i < j < |file| && file[i].Descriptor? && file[j].Descriptor? ==> file[i].id != file[j].id)
  }

  /** `msgIdInitialized_` says what is in the file, except between the write and the mark. */
  ghost predicate FlagsOk(th: Thread) {
    forall id :: Describes(th.file, id) <==> Initialized(th.flags, id) || (th.place.Mark? && th.place.id == id)
  }

  /** What a thread knows at its place. */
  ghost predicate PlaceMeans(th: Thread, ids: seq<int>) {
    var p := th.place;
    && PlaceOk(p, |ids|)
    && (p.Construct? || p.WantLock? || Holding(p) || p.ReadId? || p.Describe? ==> !Describes(th.file, ids[p.site]))
    && (p.Unlock? || p.ReadId? || p.Write? ==> ids[p.site] > 0)
    && (p.Describe? || p.Mark? ==> p.id == ids[p.site] > 0)
    && (p.Mark? || p.Write? ==> Describes(th.file, ids[p.site]))
  }

  ghost predicate ThreadOk(th: Thread, ids: seq<int>) {
    EntriesOk(th.file, ids) && FileOk(th.file) && FlagsOk(th) && PlaceMeans(th, ids)
  }

  ghost predicate ThreadsOk(s: State) {
    forall t :: 0 <= t < |s.threads| ==> ThreadOk(s.threads[t], s.ids)
  }

  ghost predicate Inv(s: State) {
    s.holder <= |s.threads| && IdsOk(s) && LockOk(s) && ThreadsOk(s)
  }

  lemma {:induction false} InvShape(s: State)
    requires Inv(s)
    ensures Shape(s)
  {
    hide EntriesOk, FileOk, FlagsOk, Describes, IdsOk, LockOk;
    forall t | 0 <= t < |s.threads|
      ensures PlaceOk(s.threads[t].place, |s.ids|)
    {
      assert ThreadOk(s.threads[t], s.ids);
    }
  }

  /** A new id at a site without one changes nothing for a thread: no entry has either. */
  lemma {:induction false} ThreadKept(th: Thread, ids: seq<int>, k: nat, id: int)
    requires ThreadOk(th, ids) && k < |ids| && ids[k] == 0 && id > 0 && id !in ids
    ensures ThreadOk(th, ids[k := id])
  {
    hide FileOk, FlagsOk;
  }

  /** The thread's own part of a step. */
  lemma {:induction false} OwnStep(s: State, v: Move)
    requires Inv(s) && Shape(s) && MoveOk(s, v)
    ensures ThreadOk(Step(s, v).threads[v.t], Step(s, v).ids)
  {
    hide LockOk, EntriesOk, FileOk, Describes, Allocated;
    var th := s.threads[v.t];
    assert ThreadOk(th, s.ids);
    match th.place {
      case Taken(site, id) =>
        TakenIsHolder(s, v.t);
        ThreadKept(th, s.ids, site, id);
      case Describe(site, id) =>
        DescribeStep(th, s.ids);
      case Mark(site, id) =>
      case Write(site) =>
        if v.on {
          WriteStep(th, s.ids);
        }
      case _ =>
    }
  }

  lemma {:induction false} TakenIsHolder(s: State, t: nat)
    requires Inv(s) && t < |s.threads| && s.threads[t].place.Taken?
    ensures var p := s.threads[t].place;
      t == s.holder && p.site < |s.ids| && s.ids[p.site] == 0 && p.id > 0 && p.id !in s.ids
  {
    hide ThreadsOk;
    assert Holding(s.threads[t].place);
  }

  lemma {:induction false} DescribesSnoc(file: seq<Entry>, e: Entry)
    ensures forall id :: Describes(file + [e], id) <==> Describes(file, id) || (e.Descriptor? && e.id == id)
  {
    forall id | Describes(file, id) || (e.Descriptor? && e.id == id)
      ensures Describes(file + [e], id)
    {
      if Describes(file, id) {
        var i :| 0 <= i < |file| && file[i].Descriptor? && file[i].id == id;
        assert (file + [e])[i] == file[i];
      } else {
        assert (file + [e])[|file|] == e;
      }
    }
  }

  lemma {:induction false} FileSnoc(file: seq<Entry>, e: Entry, ids: seq<int>)
    requires EntriesOk(file, ids) && FileOk(file) && e.site < |ids| && e.id == ids[e.site] > 0
    requires Describes(file, e.id) <==> e.Record?
    requires forall i, j :: 0 <= i < j < |ids| && ids[i] == ids[j] ==> ids[i] == 0
    ensures EntriesOk(file + [e], ids) && FileOk(file + [e])
  {
    var f := file + [e];
    assert forall i :: 0 <= i < |file| ==> f[i] == file[i];
    assert EntriesOk(f, ids);
    forall i | 0 <= i < |f| && f[i].Record?
      ensures exists j :: 0 <= j < i && f[j] == Descriptor(f[i].site, f[i].id)
    {
      EarlierDescriptor(file, e, ids, i);
    }
    hide EntriesOk;
    forall i, j | 0 <= i < j < |f| && f[i].Descriptor? && f[j].Descriptor?
      ensures f[i].id != f[j].id
    {
      if j == |file| {
        assert !Describes(file, e.id);
      }
    }
  }

  lemma {:induction false} EarlierDescriptor(file: seq<Entry>, e: Entry, ids: seq<int>, i: nat)
    requires EntriesOk(file, ids) && FileOk(file) && e.site < |ids| && e.id == ids[e.site] > 0
    requires e.Record? ==> Describes(file, e.id)
    requires forall i, j :: 0 <= i < j < |ids| && ids[i] == ids[j] ==> ids[i] == 0
    requires i <= |file| && (file + [e])[i].Record?
    ensures var f := file + [e]; exists j :: 0 <= j < i && f[j] == Descriptor(f[i].site, f[i].id)
  {
    var f := file + [e];
    if i < |file| {
      var j :| 0 <= j < i && file[j] == Descriptor(file[i].site, file[i].id);
      assert f[j] == file[j];
    } else {
      var j :| 0 <= j < |file| && file[j].Descriptor? && file[j].id == e.id;
      assert f[j] == file[j];
    }
  }

  lemma {:induction false} DescribeStep(th: Thread, ids: seq<int>)
    requires ThreadOk(th, ids) && th.place.Describe?
    requires forall i, j :: 0 <= i < j < |ids| && ids[i] == ids[j] ==> ids[i] == 0
    ensures var p := th.place;
      ThreadOk(th.(place := Mark(p.site, p.id), file := th.file + [Descriptor(p.site, p.id)]), ids)
  {
    hide FileOk, EntriesOk, Describes;
    DescribesSnoc(th.file, Descriptor(th.place.site, th.place.id));
    FileSnoc(th.file, Descriptor(th.place.site, th.place.id), ids);
  }

  lemma {:induction false} WriteStep(th: Thread, ids: seq<int>)
    requires ThreadOk(th, ids) && th.place.Write?
    requires forall i, j :: 0 <= i < j < |ids| && ids[i] == ids[j] ==> ids[i] == 0
    ensures var p := th.place;
      ThreadOk(th.(place := Idle, file := th.file + [Record(p.site, ids[p.site])]), ids)
  {
    hide FileOk, EntriesOk, Describes;
    DescribesSnoc(th.file, Record(th.place.site, ids[th.place.site]));
    FileSnoc(th.file, Record(th.place.site, ids[th.place.site]), ids);
  }

  lemma {:induction false} StepLock(s: State, v: Move)
    requires LockOk(s) && s.holder <= |s.threads| && Shape(s) && MoveOk(s, v)
    ensures LockOk(Step(s, v)) && Step(s, v).holder <= |s.threads|
  {
  }

  lemma {:induction false} StepIds(s: State, v: Move)
    requires Inv(s) && Shape(s) && MoveOk(s, v)
    ensures IdsOk(Step(s, v))
  {
    hide ThreadsOk;
    var th := s.threads[v.t];
    match th.place {
      case Recheck(site) =>
        assert Holding(th.place);
        if s.ids[site] == 0 {
          AllocatedUpdate(s.ids, site, 1);
        }
      case Taken(site, id) =>
        TakenIsHolder(s, v.t);
        AllocatedUpdate(s.ids, site, id);
      case Unlock(site) =>
        assert Holding(th.place);
      case _ =>
        SamePending(s, v);
    }
  }

  lemma {:induction false} SamePending(s: State, v: Move)
    requires Inv(s) && Shape(s) && MoveOk(s, v)
    requires !Holding(s.threads[v.t].place)
    ensures IdsOk(Step(s, v))
  {
  }

  lemma {:induction false} StepInv(s: State, v: Move)
    requires Inv(s) && MoveOk(s, v)
    ensures Shape(s) && Inv(Step(s, v))
  {
    hide ThreadOk, IdsOk, LockOk;
    InvShape(s);
    StepLock(s, v);
    StepIds(s, v);
    OwnStep(s, v);
    var r := Step(s, v);
    forall t | 0 <= t < |s.threads| && t != v.t
      ensures ThreadOk(r.threads[t], r.ids)
    {
      assert ThreadOk(s.threads[t], s.ids);
      if s.threads[v.t].place.Taken? {
        TakenIsHolder(s, v.t);
        ThreadKept(s.threads[t], s.ids, s.threads[v.t].place.site, s.threads[v.t].place.id);
      }
    }
  }

  // -------------------------------------------------------------- all runs

  predicate MovesOk(s: State, vs: seq<Move>) {
    forall i :: 0 <= i < |vs| ==> MoveOk(s, vs[i])
  }

  /** The states that any interleaving reaches. */
  ghost function Run(s: State, vs: seq<Move>): (r: State)
    requires Inv(s) && MovesOk(s, vs)
    ensures Inv(r) && |r.ids| == |s.ids| && |r.threads| == |s.threads|
    decreases |vs|
  {
    if vs == [] then s
    else
      (StepInv(s, vs[0]); Run(Step(s, vs[0]), vs[1..]))
  }

  lemma {:induction false} ZeroIds(n: nat)
    ensures Allocated(seq(n, i => 0)) == 0
  {
    if n > 0 {
      ZeroIds(n - 1);
      assert seq(n, i => 0)[..n - 1] == seq(n - 1, i => 0);
    }
  }

  lemma {:induction false} IdleOk(sites: nat)
    ensures ThreadOk(Thread(Idle, [], []), seq(sites, i => 0))
  {
  }

  lemma {:induction false} StartInv(sites: nat, threads: nat)
    requires sites <= MAX_ID
    ensures Inv(Start(sites, threads))
  {
    hide ThreadOk, Allocated;
    ZeroIds(sites);
    IdleOk(sites);
  }

  /** An id once given to a site stays. */
  lemma {:induction false} IdsStay(s: State, vs: seq<Move>, site: nat)
    requires Inv(s) && MovesOk(s, vs) && site < |s.ids| && s.ids[site] != 0
    ensures Run(s, vs).ids[site] == s.ids[site]
    decreases |vs|
  {
    hide IdsOk, LockOk, ThreadOk;
    if vs != [] {
      StepInv(s, vs[0]);
      if s.threads[vs[0].t].place.Taken? {
        TakenIsHolder(s, vs[0].t);
      }
      IdsStay(Step(s, vs[0]), vs[1..], site);
    }
  }

  /** The main result: for fewer than 2^31 sites and any interleaving, two entries of any two files
      have the same id exactly when they are of the same site, no id is zero, and every file has
      exactly one descriptor for an id before its first record with it. */
  lemma {:induction false} OneIdOneDescriptor(sites: nat, threads: nat, vs: seq<Move>, t: nat, u: nat)
    requires sites <= MAX_ID && t < threads && u < threads
    requires forall i :: 0 <= i < |vs| ==> vs[i].t < threads && vs[i].site < sites
    ensures Inv(Start(sites, threads)) && MovesOk(Start(sites, threads), vs)
    ensures var s := Run(Start(sites, threads), vs);
      var f, g := s.threads[t].file, s.threads[u].file;
      && (forall i :: 0 <= i < |f| ==> f[i].id == s.ids[f[i].site] > 0)
      && (forall i, j :: 0 <= i < |f| && 0 <= j < |g| ==> (f[i].id == g[j].id <==> f[i].site == g[j].site))
      && FileOk(f)
  {
    hide Run, FileOk, FlagsOk, PlaceMeans, LockOk;
    StartInv(sites, threads);
    var s := Run(Start(sites, threads), vs);
    assert ThreadOk(s.threads[t], s.ids) && ThreadOk(s.threads[u], s.ids);
    var f, g := s.threads[t].file, s.threads[u].file;
    forall i, j | 0 <= i < |f| && 0 <= j < |g|
      ensures f[i].id == g[j].id <==> f[i].site == g[j].site
    {
      assert f[i].id == s.ids[f[i].site] > 0 && g[j].id == s.ids[g[j].site] > 0;
    }
  }

  // ------------------------------------------------------- every call is traced

  function RecordSites(file: seq<Entry>): seq<nat> {
    if file == [] then []
    else RecordSites(file[..|file| - 1]) + if file[|file| - 1].Record? then [file[|file| - 1].site] else []
  }

  /** The call that a thread is in. */
  function Open(p: Place): seq<nat> {
    if p.Idle? then [] else [p.site]
  }

  /** The sites that thread `t` enters in a run. */
  ghost function Entered(s: State, vs: seq<Move>, t: nat): seq<nat>
    requires Inv(s) && MovesOk(s, vs) && t < |s.threads|
    decreases |vs|
  {
    if vs == [] then []
    else
      (StepInv(s, vs[0]);
       (if vs[0].t == t && s.threads[t].place.Idle? then [vs[0].site] else []) + Entered(Step(s, vs[0]), vs[1..], t))
  }

  lemma {:induction false} StepRecords(s: State, v: Move, t: nat)
    requires Shape(s) && MoveOk(s, v) && v.on && t < |s.threads|
    ensures var a, b := s.threads[t], Step(s, v).threads[t];
      RecordSites(b.file) + Open(b.place) ==
      RecordSites(a.file) + Open(a.place) + if v.t == t && a.place.Idle? then [v.site] else []
  {
    hide Initialized, SetInitialized;
    var a, b := s.threads[t], Step(s, v).threads[t];
    if v.t == t {
      assert a.place.Describe? || a.place.Write? ==> b.file[..|a.file|] == a.file;
    }
  }

  /** Whatever the interleaving, with enabled messages the records in a thread's file are those of the calls it
      has entered, in order and each once, except the one it is in. */
  lemma {:induction false} EachCallRecorded(s: State, vs: seq<Move>, t: nat)
    requires Inv(s) && MovesOk(s, vs) && t < |s.threads| && forall i :: 0 <= i < |vs| ==> vs[i].on
    ensures var a, b := s.threads[t], Run(s, vs).threads[t];
      RecordSites(b.file) + Open(b.place) == RecordSites(a.file) + Open(a.place) + Entered(s, vs, t)
    decreases |vs|
  {
    hide Step, RecordSites, Open, Inv;
    if vs != [] {
      StepInv(s, vs[0]);
      InvShape(s);
      StepRecords(s, vs[0], t);
      EachCallRecorded(Step(s, vs[0]), vs[1..], t);
    }
  }

  /** The thread that has the mutex is in the locked part. */
  ghost predicate HeldOk(s: State) {
    s.holder < |s.threads| ==> Holding(s.threads[s.holder].place)
  }

  lemma {:induction false} StepHeld(s: State, v: Move)
    requires Shape(s) && MoveOk(s, v) && LockOk(s) && HeldOk(s)
    ensures HeldOk(Step(s, v))
  {
    hide Initialized, SetInitialized, Bump;
  }

  lemma {:induction false} RunHeld(s: State, vs: seq<Move>)
    requires Inv(s) && MovesOk(s, vs) && HeldOk(s)
    ensures HeldOk(Run(s, vs))
    decreases |vs|
  {
    hide Step, IdsOk, ThreadsOk, LockOk, HeldOk;
    if vs != [] {
      StepInv(s, vs[0]);
      InvShape(s);
      StepHeld(s, vs[0]);
      RunHeld(Step(s, vs[0]), vs[1..]);
    }
  }

  /** How far a thread is from the end of its call. */
  function Left(p: Place): nat {
    match p
    case Idle => 0
    case Write(_) => 1
    case Mark(_, _) => 2
    case Describe(_, _) => 3
    case ReadId(_) => 4
    case Unlock(_) => 5
    case Taken(_, _) => 6
    case Recheck(_) => 7
    case WantLock(_) => 8
    case Construct(_) => 9
    case Check(_) => 10
  }

  /** A thread on its own gets on unless another one has the mutex. */
  lemma {:induction false} GetsOn(s: State, v: Move)
    requires Shape(s) && MoveOk(s, v) && !s.threads[v.t].place.Idle?
    requires s.holder == |s.threads| || (s.holder == v.t && Holding(s.threads[v.t].place))
    ensures var r := Step(s, v);
      && Left(r.threads[v.t].place) < Left(s.threads[v.t].place)
      && (forall u :: 0 <= u < |s.threads| && u != v.t ==> r.threads[u] == s.threads[u])
      && (r.holder == |r.threads| || r.holder == v.t)
  {
    hide Initialized, SetInitialized, Bump;
  }

  lemma {:induction false} Finishes(s: State, t: nat) returns (vs: seq<Move>)
    requires Inv(s) && HeldOk(s) && t < |s.threads| && |s.ids| > 0 && (s.holder == |s.threads| || s.holder == t)
    ensures MovesOk(s, vs)
    ensures var r := Run(s, vs);
      && r.threads[t].place.Idle? && r.holder == |r.threads| && HeldOk(r)
      && forall u :: 0 <= u < |s.threads| && u != t ==> r.threads[u] == s.threads[u]
    decreases Left(s.threads[t].place)
  {
    hide Step, IdsOk, ThreadsOk, LockOk;
    if s.threads[t].place.Idle? {
      vs := [];
    } else {
      var v := Move(t, 0, true);
      InvShape(s);
      StepInv(s, v);
      LockedOnly(s);
      StepHeld(s, v);
      GetsOn(s, v);
      var rest := Finishes(Step(s, v), t);
      vs := [v] + rest;
      assert vs[1..] == rest;
    }
  }

  lemma {:induction false} LockedOnly(s: State)
    requires Inv(s)
    ensures LockOk(s)
  {
  }

  lemma {:induction false} RunConcat(s: State, a: seq<Move>, b: seq<Move>)
    requires Inv(s) && MovesOk(s, a) && MovesOk(Run(s, a), b)
    ensures MovesOk(s, a + b) && Run(s, a + b) == Run(Run(s, a), b)
    decreases |a|
  {
    hide Step, Inv;
    if a == [] {
      assert a + b == b;
    } else {
      assert (a + b)[1..] == a[1..] + b;
      StepInv(s, a[0]);
      RunConcat(Step(s, a[0]), a[1..], b);
    }
  }

  /** No deadlock: from every state that a run reaches, some run completes every call in progress. */
  lemma {:induction false} AllFinish(s: State, n: nat) returns (vs: seq<Move>)
    requires Inv(s) && HeldOk(s) && |s.ids| > 0 && n <= |s.threads| && s.holder == |s.threads|
    ensures MovesOk(s, vs)
    ensures forall t :: 0 <= t < n ==> Run(s, vs).threads[t].place.Idle?
    ensures Run(s, vs).holder == |s.threads| && HeldOk(Run(s, vs))
    decreases n
  {
    hide Run, Inv, HeldOk;
    if n == 0 {
      vs := [];
      NoMoves(s);
    } else {
      var a := AllFinish(s, n - 1);
      RunInv(s, a);
      var b := Finishes(Run(s, a), n - 1);
      RunConcat(s, a, b);
      vs := a + b;
    }
  }

  lemma {:induction false} NoMoves(s: State)
    requires Inv(s)
    ensures Run(s, []) == s
  {
  }

  lemma {:induction false} RunInv(s: State, vs: seq<Move>)
    requires Inv(s) && MovesOk(s, vs)
    ensures Inv(Run(s, vs)) && |Run(s, vs).ids| == |s.ids| && |Run(s, vs).threads| == |s.threads|
  {
  }

  lemma {:induction false} NoDeadlock(sites: nat, threads: nat, vs: seq<Move>) returns (more: seq<Move>)
    requires 0 < sites <= MAX_ID
    requires forall i :: 0 <= i < |vs| ==> vs[i].t < threads && vs[i].site < sites
    ensures Inv(Start(sites, threads)) && MovesOk(Start(sites, threads), vs)
    ensures var s := Run(Start(sites, threads), vs);
      MovesOk(s, more) && forall t :: 0 <= t < threads ==> Run(s, more).threads[t].place.Idle?
  {
    hide Run, Inv;
    StartInv(sites, threads);
    var s0 := Start(sites, threads);
    RunInv(s0, vs);
    RunHeld(s0, vs);
    var s := Run(s0, vs);
    if s.holder < |s.threads| {
      var a := Finishes(s, s.holder);
      RunInv(s, a);
      var b := AllFinish(Run(s, a), threads);
      RunConcat(s, a, b);
      more := a + b;
    } else {
      HolderBound(s);
      more := AllFinish(s, threads);
    }
  }

  lemma {:induction false} HolderBound(s: State)
    requires Inv(s)
    ensures s.holder <= |s.threads|
  {
  }
}
