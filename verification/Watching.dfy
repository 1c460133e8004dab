/** `Tail`'s status and `Watch` as objects: the events of one directory change the states of its
    tailed files and switch the notification for modifications on and off. */
module Watching {
  import opened TailStates

  /** The parts of `Tail` that its status depends on. */
  class TailFile {
    var status: Status
    var mapped: bool
    var selected: bool
    ghost var marks: seq<Mark>

    ghost function State(): File
      reads this
    {
      File(status, mapped, selected, false, marks)
    }

    constructor (usable: bool)
      ensures FileInv(State()) && State() == Open(usable)
    {
      status, mapped, selected, marks := REINIT_READY, false, false, [];
      new;
      hide FileInv, Initialize;
      ClosedInv();
      InitializeFile(usable);
    }

    method CleanupFile()
      modifies `mapped, `marks
      ensures State() == Cleanup(old(State()))
    {
      if mapped {
        mapped := false;
        marks := marks + [Unmapped];
      }
    }

    /** `statusIs`; its asserts are Dafny's here. */
    method SetStatus(s: Status)
      requires FileInv(State())
      requires s == INITIALIZING ==> status in {INITIALIZING, REINIT_READY}
      requires s == ACTIVE ==> status in {INITIALIZING, ACTIVE}
      modifies this
      ensures State() == StatusIs(old(State()), s)
      ensures s in {DELETE_PENDING, REINIT_PENDING, REINIT_READY} ==> FileInv(State())
    {
      if s in {DELETE_PENDING, REINIT_PENDING, REINIT_READY} {
        StatusInv(State(), s);
      }
      if s != status {
        match s {
          case INITIALIZING =>
            assert status == REINIT_READY;
          case ACTIVE =>
            assert status == INITIALIZING;
            marks := marks + [Activated];
          case DELETE_PENDING | REINIT_PENDING =>
            if status == INITIALIZING {
              CleanupFile();
            }
          case REINIT_READY =>
            if status != REINIT_PENDING {
              return;
            }
        }
      }
      status := s;
    }

    method InitializeFile(usable: bool)
      requires FileInv(State()) && !selected && (status == INITIALIZING || (status == REINIT_READY && !mapped))
      modifies this
      ensures State() == Initialize(old(State()), usable) && FileInv(State())
      ensures mapped && status == if usable then ACTIVE else INITIALIZING
    {
      InitializeInv(State(), usable);
      if status != INITIALIZING {
        SetStatus(INITIALIZING);
      }
      if !mapped {
        mapped := true;
        marks := marks + [Mapped];
      }
      if usable {
        status := ACTIVE;
        marks := marks + [Activated];
      }
    }

    /** `nextTsc`, with what the header and the scan of the rings say as parameters. */
    method NextTsc(usable: bool, found: bool)
      requires FileInv(State())
      modifies this
      ensures State() == Poll(old(State()), usable, found) && FileInv(State())
    {
      PollInv(State(), usable, found);
      if selected {
        return;
      }
      if status == INITIALIZING {
        InitializeFile(usable);
        if status == INITIALIZING {
          return;
        }
      }
      if !mapped {
        if status != REINIT_READY {
          return;
        }
        InitializeFile(usable);
        if status == INITIALIZING {
          return;
        }
      }
      selected := found;
      if !found {
        marks := marks + [Drained];
        if status == DELETE_PENDING || status == REINIT_PENDING || status == REINIT_READY {
          CleanupFile();
        }
      }
    }

    method TailBuffer(done: bool)
      requires FileInv(State()) && selected
      modifies this
      ensures State() == Consume(old(State()), done) && FileInv(State())
    {
      if done {
        selected := false;
      }
    }
  }

  datatype Event = Create(name: string) | Delete(name: string) | Modify(name: string)

  // ------------------------------------------------- one directory, as a value

  /** The tailed files of a directory by name, and whether its watch includes IN_MODIFY. */
  datatype Dir = Dir(names: seq<string>, files: seq<File>, notify: bool)

  function IndexOf(names: seq<string>, name: string): (i: nat)
    ensures i <= |names| && (i < |names| ==> names[i] == name)
    ensures forall j :: 0 <= j < i ==> names[j] != name
  {
    if names == [] || names[0] == name then 0 else 1 + IndexOf(names[1..], name)
  }

  /** Some file was re-created and waits for its first modification. */
  predicate Waiting(files: seq<File>) {
    exists i :: 0 <= i < |files| && files[i].status == REINIT_PENDING
  }

  /** `watchForModificationsIs`. */
  function Switch(d: Dir, on: bool): Dir {
    if Waiting(d.files) then d else d.(notify := on)
  }

  /** `process`. */
  function Process(d: Dir, e: Event): Dir
    requires |d.names| == |d.files|
  {
    var i := IndexOf(d.names, e.name);
    if i == |d.names| then d
    else
      match e
      case Create(_) =>
        var d1 := Switch(d, true);
        d1.(files := d1.files[i := StatusIs(d1.files[i], REINIT_PENDING)])
      case Delete(_) =>
        var d1 := Switch(d, false);
        d1.(files := d1.files[i := StatusIs(d1.files[i], DELETE_PENDING)])
      case Modify(_) => Switch(d.(files := d.files[i := StatusIs(d.files[i], REINIT_READY)]), false)
  }

  /** A directory event, or a poll or consumption of file `i`. */
  datatype DirStep = Notified(e: Event) | OnFile(i: nat, t: Step)

  predicate DirPossible(d: Dir, v: DirStep) {
    |d.names| == |d.files| &&
    match v
    case Notified(_) => true
    case OnFile(i, t) => i < |d.files| && !t.Told? && Possible(d.files[i], t)
  }

  function DirDo(d: Dir, v: DirStep): Dir
    requires DirPossible(d, v)
  {
    match v
    case Notified(e) => Process(d, e)
    case OnFile(i, t) => d.(files := d.files[i := Do(d.files[i], t)])
  }

  predicate DirPossibleAll(d: Dir, vs: seq<DirStep>)
    decreases |vs|
  {
    vs == [] || (DirPossible(d, vs[0]) && DirPossibleAll(DirDo(d, vs[0]), vs[1..]))
  }

  function DirDoAll(d: Dir, vs: seq<DirStep>): Dir
    requires DirPossibleAll(d, vs)
    decreases |vs|
  {
    if vs == [] then d else DirDoAll(DirDo(d, vs[0]), vs[1..])
  }

  /** No modify notification that a file waits for is lost. */
  ghost predicate DirInv(d: Dir) {
    && |d.names| == |d.files|
    && (forall i :: 0 <= i < |d.files| ==> FileInv(d.files[i]))
    && (Waiting(d.files) ==> d.notify)
  }

  /** A poll never makes a file wait. */
  lemma {:induction false} PollNeverWaits(f: File, t: Step)
    requires !t.Told?
    ensures Do(f, t).status == REINIT_PENDING ==> f.status == REINIT_PENDING
  {
  }

  lemma {:induction false} DirDoInv(d: Dir, v: DirStep)
    requires DirInv(d) && DirPossible(d, v)
    ensures DirInv(DirDo(d, v))
  {
    hide FileInv, Poll;
    var d' := DirDo(d, v);
    match v {
      case Notified(e) =>
        var i := IndexOf(d.names, e.name);
        if i < |d.names| {
          StatusInv(d.files[i], match e {
            case Create(_) => REINIT_PENDING
            case Delete(_) => DELETE_PENDING
            case Modify(_) => REINIT_READY
          });
        }
      case OnFile(i, t) =>
        DoInv(d.files[i], t);
        PollNeverWaits(d.files[i], t);
        if Waiting(d'.files) {
          var k :| 0 <= k < |d'.files| && d'.files[k].status == REINIT_PENDING;
          assert d.files[k].status == REINIT_PENDING;
        }
    }
  }

  /** In every reachable state of a directory with any number of tailed files, if some file waits
      for its first modification then the watch includes IN_MODIFY. */
  lemma {:induction false} NoLostNotification(d: Dir, vs: seq<DirStep>)
    requires DirInv(d) && DirPossibleAll(d, vs)
    ensures DirInv(DirDoAll(d, vs))
    ensures var r := DirDoAll(d, vs);
      forall i :: 0 <= i < |r.files| && r.files[i].status == REINIT_PENDING ==> r.notify
    decreases |vs|
  {
    hide FileInv;
    if vs != [] {
      hide Waiting;
      DirDoInv(d, vs[0]);
      NoLostNotification(DirDo(d, vs[0]), vs[1..]);
    }
  }

  /** After a modification of a tailed file the watch includes IN_MODIFY exactly while some file still waits
      for one. */
  lemma {:induction false} NotifiedIff(d: Dir, name: string)
    requires DirInv(d) && name in d.names
    ensures var d' := DirDo(d, Notified(Modify(name)));
      d'.notify <==> exists i :: 0 <= i < |d'.files| && d'.files[i].status == REINIT_PENDING
  {
    hide FileInv;
    DirDoInv(d, Notified(Modify(name)));
    var j :| 0 <= j < |d.names| && d.names[j] == name;
    assert IndexOf(d.names, name) <= j;
    var i, d' := IndexOf(d.names, name), DirDo(d, Notified(Modify(name)));
    if Waiting(d'.files) {
      var k :| 0 <= k < |d'.files| && d'.files[k].status == REINIT_PENDING;
      assert d.files[k].status == REINIT_PENDING;
    }
  }

  /** What a directory's steps are for file `i`: creation, deletion and modification under its name, and its own
      polls and consumption. */
  function StepsOf(names: seq<string>, vs: seq<DirStep>, i: nat): seq<Step>
    requires i < |names|
  {
    if vs == [] then []
    else
      (match vs[0]
       case OnFile(k, t) => if k == i then [t] else []
       case Notified(Create(name)) => if name == names[i] then [Told(REINIT_PENDING)] else []
       case Notified(Delete(name)) => if name == names[i] then [Told(DELETE_PENDING)] else []
       case Notified(Modify(name)) => if name == names[i] then [Told(REINIT_READY)] else [])
      + StepsOf(names, vs[1..], i)
  }

  ghost predicate Distinct(names: seq<string>) {
    forall i, j :: 0 <= i < j < |names| ==> names[i] != names[j]
  }

  /** Every file goes through exactly the steps that are for it, and no others. */
  lemma {:induction false} EachFile(d: Dir, vs: seq<DirStep>, i: nat)
    requires DirPossibleAll(d, vs) && Distinct(d.names) && |d.names| == |d.files| && i < |d.names|
    ensures var ts, d' := StepsOf(d.names, vs, i), DirDoAll(d, vs);
      && d'.names == d.names && |d'.files| == |d.files|
      && PossibleAll(d.files[i], ts) && d'.files[i] == DoAll(d.files[i], ts)
    decreases |vs|
  {
    hide Do, Possible, Switch;
    if vs != [] {
      OneStep(d, vs[0], i);
      EachFile(DirDo(d, vs[0]), vs[1..], i);
      var first := StepsOf(d.names, [vs[0]], i);
      assert [vs[0]][1..] == [];
      assert StepsOf(d.names, vs, i) == first + StepsOf(d.names, vs[1..], i);
      if first != [] {
        assert (first + StepsOf(d.names, vs[1..], i))[1..] == StepsOf(d.names, vs[1..], i);
      } else {
        assert first + StepsOf(d.names, vs[1..], i) == StepsOf(d.names, vs[1..], i);
      }
    }
  }

  lemma {:induction false} OneStep(d: Dir, v: DirStep, i: nat)
    requires DirPossible(d, v) && Distinct(d.names) && i < |d.names|
    ensures var first, d' := StepsOf(d.names, [v], i), DirDo(d, v);
      && d'.names == d.names && |d'.files| == |d.files| && |first| <= 1
      && (first == [] ==> d'.files[i] == d.files[i])
      && (first != [] ==> Possible(d.files[i], first[0]) && d'.files[i] == Do(d.files[i], first[0]))
  {
    hide StatusIs, Poll, Waiting;
    assert [v][1..] == [];
    if v.Notified? {
      var k := IndexOf(d.names, v.e.name);
      assert k < |d.names| && d.names[i] == v.e.name ==> k == i;
    }
  }

  // -------------------------------------------------------------- the object

  class Watch {
    var names: seq<string>
    var tails: seq<TailFile>
    var watchesModify: bool

    ghost function State(): Dir
      reads this, tails
    {
      Dir(names, seq(|tails|, i requires 0 <= i < |tails| reads this, tails => tails[i].State()), watchesModify)
    }

    ghost predicate Valid()
      reads this, tails
    {
      && (forall i, j :: 0 <= i < j < |tails| ==> tails[i] != tails[j])
      && DirInv(State())
    }

    constructor ()
      ensures Valid() && State() == Dir([], [], false)
    {
      names, tails, watchesModify := [], [], false;
    }

    /** `watchForModificationsIs`: nothing while some file waits. */
    method WatchForModificationsIs(on: bool)
      modifies `watchesModify
      ensures State() == Switch(old(State()), on)
    {
      for i := 0 to |tails|
        invariant forall k :: 0 <= k < i ==> tails[k].status != REINIT_PENDING
        invariant watchesModify == old(watchesModify)
      {
        if tails[i].status == REINIT_PENDING {
          assert State().files[i].status == REINIT_PENDING;
          return;
        }
      }
      watchesModify := on;
    }

    method TellTail(i: nat, s: Status)
      requires i < |tails| && (forall k, l :: 0 <= k < l < |tails| ==> tails[k] != tails[l])
      requires FileInv(tails[i].State()) && s in {DELETE_PENDING, REINIT_PENDING, REINIT_READY}
      modifies tails[i]
      ensures State() == old(State()).(files := old(State().files)[i := StatusIs(old(State().files)[i], s)])
    {
      tails[i].SetStatus(s);
    }

    /** `process`. */
    method ProcessEvent(e: Event)
      requires Valid()
      modifies this`watchesModify, tails
      ensures Valid() && State() == Process(old(State()), e)
    {
      hide FileInv, StatusIs;
      DirDoInv(State(), Notified(e));
      var i := IndexOf(names, e.name);
      if i == |names| {
        return;
      }
      assert FileInv(State().files[i]);
      match e {
        case Create(_) =>
          WatchForModificationsIs(true);
          TellTail(i, REINIT_PENDING);
        case Delete(_) =>
          WatchForModificationsIs(false);
          TellTail(i, DELETE_PENDING);
        case Modify(_) =>
          TellTail(i, REINIT_READY);
          WatchForModificationsIs(false);
      }
    }
  }
}
