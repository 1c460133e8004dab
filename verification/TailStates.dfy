/** The states of a tailed file (`Tail::statusIs`, `Tail::initialize`, `Tail::nextTsc`) under any
    interleaving of directory events and polls. What the ring buffers would say (is a message
    pending, are the header's times usable) is a parameter of each step. */
module TailStates {

  datatype Status = INITIALIZING | ACTIVE | DELETE_PENDING | REINIT_PENDING | REINIT_READY

  /** What happened to the mapping: made, in use, found without pending message, removed. */
  datatype Mark = Mapped | Activated | Drained | Unmapped

  /** `status_`, `tfh_ != nullptr`, `next_.second >= 0`, whether an assert has failed, and what
      happened to the mappings so far. */
  datatype File = File(status: Status, mapped: bool, selected: bool, failed: bool, marks: seq<Mark>)

  function Cleanup(f: File): File {
    if f.mapped then f.(mapped := false, marks := f.marks + [Unmapped]) else f
  }

  /** `statusIs`, with its asserts and the `cleanup` of a file that was still initializing. */
  function StatusIs(f: File, s: Status): File {
    if s == f.status then f
    else
      match s
      case INITIALIZING => f.(status := s, failed := f.failed || f.status != REINIT_READY)
      case ACTIVE =>
        f.(status := s, failed := f.failed || f.status != INITIALIZING, marks := f.marks + [Activated])
      case DELETE_PENDING | REINIT_PENDING => (if f.status == INITIALIZING then Cleanup(f) else f).(status := s)
      case REINIT_READY => if f.status != REINIT_PENDING then f else f.(status := s)
  }

  /** `initialize`: map the file unless it is mapped, and go on when its times are usable. */
  function Initialize(f: File, usable: bool): File {
    var f1 := StatusIs(f, INITIALIZING);
    var f2 := if f1.mapped then f1 else f1.(mapped := true, marks := f1.marks + [Mapped]);
    if usable then StatusIs(f2, ACTIVE) else f2
  }

  /** The last part of `nextTsc`, on a mapped file: `found` says whether the scan selects a ring. */
  function Scan(f: File, found: bool): File {
    if found then f.(selected := true)
    else
      var f1 := f.(selected := false, marks := f.marks + [Drained]);
      if f.status in {DELETE_PENDING, REINIT_PENDING, REINIT_READY} then Cleanup(f1) else f1
  }

  /** `nextTsc`. */
  function Poll(f: File, usable: bool, found: bool): File {
    if f.selected then f
    else if f.status == INITIALIZING && !usable then Initialize(f, usable)
    else
      var f1 := if f.status == INITIALIZING then Initialize(f, usable) else f;
      if !f1.mapped && (f1.status != REINIT_READY || !usable) then
        if f1.status == REINIT_READY then Initialize(f1, usable) else f1
      else
        Scan(if f1.mapped then f1 else Initialize(f1, usable), found)
  }

  /** `tailBuffer` of a selected message: printed (or given up), or to be tried again. */
  function Consume(f: File, done: bool): File {
    if done then f.(selected := false) else f
  }

  /** The constructor. */
  function Open(usable: bool): File {
    Initialize(File(REINIT_READY, false, false, false, []), usable)
  }

  datatype Step = Told(s: Status) | Polled(usable: bool, found: bool) | Consumed(done: bool)

  /** Directory events only ever ask for these three. */
  predicate Possible(f: File, t: Step) {
    match t
    case Told(s) => s in {DELETE_PENDING, REINIT_PENDING, REINIT_READY}
    case Polled(_, _) => true
    case Consumed(_) => f.selected
  }

  function Do(f: File, t: Step): File {
    match t
    case Told(s) => StatusIs(f, s)
    case Polled(usable, found) => Poll(f, usable, found)
    case Consumed(done) => Consume(f, done)
  }

  function DoAll(f: File, ts: seq<Step>): File
    decreases |ts|
  {
    if ts == [] then f else DoAll(Do(f, ts[0]), ts[1..])
  }

  predicate PossibleAll(f: File, ts: seq<Step>)
    decreases |ts|
  {
    ts == [] || (Possible(f, ts[0]) && PossibleAll(Do(f, ts[0]), ts[1..]))
  }

  // -------------------------------------------------------------- invariant

  /** Is there a mapping at the end of `marks`, and has it been in use? */
  datatype Use = NoFile | Fresh | InUse

  function LastUse(marks: seq<Mark>): Use {
    if marks == [] then NoFile
    else
      match marks[|marks| - 1]
      case Mapped => Fresh
      case Activated => InUse
      case Unmapped => NoFile
      case Drained => LastUse(marks[..|marks| - 1])
  }

  predicate Follows(before: seq<Mark>, k: Mark) {
    match k
    case Mapped => LastUse(before) == NoFile
    case Activated => LastUse(before) != NoFile
    case Unmapped => LastUse(before) == Fresh || (before != [] && before[|before| - 1] == Drained)
    case Drained => LastUse(before) == InUse
  }

  /** Mappings are made only when there is none, only one whose header is usable is read, and one that has been
      in use is removed only right after a poll that found no pending message in it. */
  predicate DrainedFirst(marks: seq<Mark>) {
    marks == [] || (DrainedFirst(marks[..|marks| - 1]) && Follows(marks[..|marks| - 1], marks[|marks| - 1]))
  }

  ghost predicate FileInv(f: File) {
    && !f.failed
    && (f.selected ==> f.mapped && f.status != INITIALIZING)
    && (f.status == INITIALIZING ==> f.mapped && LastUse(f.marks) == Fresh)
    && (f.mapped <==> LastUse(f.marks) != NoFile)
    && (f.mapped && f.status != INITIALIZING ==> LastUse(f.marks) == InUse)
    && (f.status == ACTIVE ==> f.mapped)
    && DrainedFirst(f.marks)
  }

  lemma {:induction false} MarkMore(marks: seq<Mark>, k: Mark)
    ensures (marks + [k])[..|marks|] == marks
    ensures LastUse(marks + [k]) ==
      match k { case Mapped => Fresh case Activated => InUse case Unmapped => NoFile case Drained => LastUse(marks) }
    ensures DrainedFirst(marks) && Follows(marks, k) ==> DrainedFirst(marks + [k])
  {
    assert (marks + [k])[..|marks|] == marks;
  }

  lemma {:induction false} CleanupInv(f: File)
    requires DrainedFirst(f.marks) && (f.mapped <==> LastUse(f.marks) != NoFile)
    requires LastUse(f.marks) == Fresh || (f.marks != [] && f.marks[|f.marks| - 1] == Drained)
    ensures var c := Cleanup(f); !c.mapped && DrainedFirst(c.marks) && LastUse(c.marks) == NoFile
    ensures Cleanup(f) == f.(mapped := false, marks := Cleanup(f).marks)
  {
    MarkMore(f.marks, Unmapped);
  }

  lemma {:induction false} StatusInv(f: File, s: Status)
    requires FileInv(f) && s in {DELETE_PENDING, REINIT_PENDING, REINIT_READY}
    ensures FileInv(StatusIs(f, s))
  {
    if f.status == INITIALIZING {
      CleanupInv(f);
    }
  }

  lemma {:induction false} InitializeInv(f: File, usable: bool)
    requires FileInv(f) && !f.selected && (f.status == INITIALIZING || (f.status == REINIT_READY && !f.mapped))
    ensures FileInv(Initialize(f, usable)) && Initialize(f, usable).mapped && !Initialize(f, usable).selected
    ensures Initialize(f, usable).status == if usable then ACTIVE else INITIALIZING
  {
    MarkMore(f.marks, Mapped);
    MarkMore(f.marks, Activated);
    MarkMore(f.marks + [Mapped], Activated);
  }

  lemma {:induction false} ScanInv(f: File, found: bool)
    requires FileInv(f) && f.mapped && f.status != INITIALIZING
    ensures FileInv(Scan(f, found))
  {
    MarkMore(f.marks, Drained);
    if !found {
      CleanupInv(f.(selected := false, marks := f.marks + [Drained]));
    }
  }

  lemma {:induction false} PollInv(f: File, usable: bool, found: bool)
    requires FileInv(f)
    ensures FileInv(Poll(f, usable, found))
  {
    hide FileInv, Initialize, Scan;
    if !f.selected {
      PollCases(f);
      if f.status == INITIALIZING {
        InitializeInv(f, usable);
        if usable {
          ScanInv(Initialize(f, usable), found);
        }
      } else if f.mapped {
        ScanInv(f, found);
      } else if f.status == REINIT_READY {
        InitializeInv(f, usable);
        if usable {
          ScanInv(Initialize(f, usable), found);
        }
      }
    }
  }

  lemma {:induction false} PollCases(f: File)
    requires FileInv(f)
    ensures f.status == INITIALIZING ==> f.mapped
  {
  }

  lemma {:induction false} DoInv(f: File, t: Step)
    requires FileInv(f) && Possible(f, t)
    ensures FileInv(Do(f, t))
  {
    match t {
      case Told(s) => StatusInv(f, s);
      case Polled(usable, found) => PollInv(f, usable, found);
      case Consumed(_) =>
    }
  }

  /** Over every interleaving of directory events, polls and consumption, from the constructor on:
      no assert of `statusIs` fails, a selected message belongs to a mapped file, and a mapping that
      has been in use goes only right after a poll has found nothing pending in it. */
  lemma {:induction false} StateMachine(f: File, ts: seq<Step>)
    requires FileInv(f) && PossibleAll(f, ts)
    ensures var g := DoAll(f, ts);
      && !g.failed && (g.selected ==> g.mapped) && DrainedFirst(g.marks)
      && FileInv(g)
    decreases |ts|
  {
    hide Do, DrainedFirst, LastUse;
    if ts != [] {
      DoInv(f, ts[0]);
      StateMachine(Do(f, ts[0]), ts[1..]);
    }
  }

  lemma {:induction false} ClosedInv()
    ensures FileInv(File(REINIT_READY, false, false, false, []))
  {
  }

  lemma {:induction false} OpenInv(usable: bool)
    ensures FileInv(Open(usable))
  {
    InitializeInv(File(REINIT_READY, false, false, false, []), usable);
  }
}
