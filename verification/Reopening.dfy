/** That a re-created file is tailed again: what directory events and polls in any order come to, once the
    polls find the old file drained and the new one's header usable. */
module Reopening {
  import opened TailStates

  /** The last IN_CREATE or IN_DELETE among the steps is step `c`, and it set the status `s`. */
  ghost predicate LastSet(ts: seq<Step>, c: nat, s: Status) {
    && c < |ts| && ts[c] == Told(s) && (s == REINIT_PENDING || s == DELETE_PENDING)
    && forall k {:trigger ts[k]} :: c < k < |ts| ==> ts[k] != Told(REINIT_PENDING) && ts[k] != Told(DELETE_PENDING)
  }

  /** The last event of these two kinds was IN_DELETE. */
  ghost predicate Deleted(ts: seq<Step>) {
    exists c: nat :: LastSet(ts, c, DELETE_PENDING)
  }

  /** It was IN_CREATE, and no IN_MODIFY has come since. */
  ghost predicate Awaited(ts: seq<Step>) {
    exists c: nat ::
      LastSet(ts, c, REINIT_PENDING) && forall d {:trigger ts[d]} :: c < d < |ts| ==> ts[d] != Told(REINIT_READY)
  }

  /** Polls that find no message and a usable header, after a message still selected has been consumed. */
  function Settle(f: File, n: nat): (ts: seq<Step>) {
    (if f.selected then [Consumed(true)] else []) + Polls(n)
  }

  function Polls(n: nat): (ts: seq<Step>)
    ensures |ts| == n
  {
    if n == 0 then [] else [Polled(true, false)] + Polls(n - 1)
  }

  // ------------------------------------------------------------------ steps

  /** What one step does to the status of a file that is being deleted or awaited, and of others. */
  lemma {:induction false} StepStatus(f: File, t: Step)
    requires FileInv(f) && Possible(f, t)
    ensures var g := Do(f, t);
      && (t == Told(DELETE_PENDING) ==> g.status == DELETE_PENDING)
      && (t == Told(REINIT_PENDING) ==> g.status == REINIT_PENDING)
      && (t == Told(REINIT_READY) ==> g.status == if f.status == REINIT_PENDING then REINIT_READY else f.status)
      && (!t.Told? ==>
            if f.status in {DELETE_PENDING, REINIT_PENDING} then g.status == f.status
            else g.status in {INITIALIZING, ACTIVE, REINIT_READY})
  {
  }

  lemma {:induction false} DoSnoc(f: File, ts: seq<Step>, t: Step)
    requires PossibleAll(f, ts)
    ensures DoAll(f, ts + [t]) == Do(DoAll(f, ts), t)
    ensures PossibleAll(f, ts + [t]) <==> Possible(DoAll(f, ts), t)
    decreases |ts|
  {
    hide Do, Possible;
    if ts == [] {
      assert ts + [t] == [t] && [t][1..] == [];
    } else {
      assert (ts + [t])[1..] == ts[1..] + [t];
      DoSnoc(Do(f, ts[0]), ts[1..], t);
    }
  }

  lemma {:induction false} FrontPossible(f: File, ts: seq<Step>, n: nat)
    requires PossibleAll(f, ts) && n <= |ts|
    ensures PossibleAll(f, ts[..n])
    decreases n
  {
    hide Do, Possible;
    if n > 0 {
      assert ts[..n][1..] == ts[1..][..n - 1];
      FrontPossible(Do(f, ts[0]), ts[1..], n - 1);
    }
  }

  lemma {:induction false} DeletedSnoc(ts: seq<Step>, t: Step)
    ensures Deleted(ts + [t]) <==> t == Told(DELETE_PENDING) || (Deleted(ts) && t != Told(REINIT_PENDING))
  {
    var all := ts + [t];
    if t == Told(DELETE_PENDING) {
      assert LastSet(all, |ts|, DELETE_PENDING);
    } else if Deleted(ts) && t != Told(REINIT_PENDING) {
      var c: nat :| LastSet(ts, c, DELETE_PENDING);
      assert LastSet(all, c, DELETE_PENDING);
    }
    if Deleted(all) {
      var c: nat :| LastSet(all, c, DELETE_PENDING);
      assert all[|ts|] == t;
      if c < |ts| {
        SetBefore(ts, t, c, DELETE_PENDING);
      }
    }
  }

  lemma {:induction false} SetBefore(ts: seq<Step>, t: Step, c: nat, s: Status)
    requires LastSet(ts + [t], c, s) && c < |ts|
    ensures LastSet(ts, c, s) && t != Told(REINIT_PENDING) && t != Told(DELETE_PENDING)
  {
    var all := ts + [t];
    assert all[|ts|] == t && all[c] == ts[c];
    forall k | c < k < |ts|
      ensures ts[k] != Told(REINIT_PENDING) && ts[k] != Told(DELETE_PENDING)
    {
      assert all[k] == ts[k];
    }
  }

  lemma {:induction false} AwaitedSnoc(ts: seq<Step>, t: Step)
    ensures Awaited(ts + [t]) <==>
      t == Told(REINIT_PENDING) || (Awaited(ts) && t != Told(DELETE_PENDING) && t != Told(REINIT_READY))
  {
    var all := ts + [t];
    if t == Told(REINIT_PENDING) {
      assert LastSet(all, |ts|, REINIT_PENDING);
    } else if Awaited(ts) && t != Told(DELETE_PENDING) && t != Told(REINIT_READY) {
      var c: nat :| LastSet(ts, c, REINIT_PENDING)
        && forall d {:trigger ts[d]} :: c < d < |ts| ==> ts[d] != Told(REINIT_READY);
      assert LastSet(all, c, REINIT_PENDING);
    }
    if Awaited(all) {
      var c: nat :| LastSet(all, c, REINIT_PENDING)
        && forall d {:trigger all[d]} :: c < d < |all| ==> all[d] != Told(REINIT_READY);
      assert all[|ts|] == t;
      if c < |ts| {
        SetBefore(ts, t, c, REINIT_PENDING);
        forall d | c < d < |ts|
          ensures ts[d] != Told(REINIT_READY)
        {
          assert all[d] == ts[d];
        }
      }
    }
  }

  /** Whatever happens to a file that is not being deleted or awaited at first: it is being deleted or awaited
      exactly when the last events say so. */
  lemma {:induction false} StatusAfter(f: File, ts: seq<Step>)
    requires FileInv(f) && f.status in {INITIALIZING, ACTIVE, REINIT_READY} && PossibleAll(f, ts)
    ensures var g := DoAll(f, ts);
      && FileInv(g)
      && (g.status == DELETE_PENDING <==> Deleted(ts)) && (g.status == REINIT_PENDING <==> Awaited(ts))
    decreases |ts|
  {
    hide Do, FileInv, Deleted, Awaited, LastSet, Possible, DoAll, PossibleAll;
    if ts == [] {
      NothingYet(f);
    } else {
      var front, t := ts[..|ts| - 1], ts[|ts| - 1];
      assert ts == front + [t];
      FrontPossible(f, ts, |ts| - 1);
      StatusAfter(f, front);
      DoSnoc(f, front, t);
      var g := DoAll(f, front);
      DoInv(g, t);
      StepStatus(g, t);
      DeletedSnoc(front, t);
      AwaitedSnoc(front, t);
      if t.Told? {
        ToldThree(g, t);
      }
    }
  }

  lemma {:induction false} ToldThree(f: File, t: Step)
    requires Possible(f, t) && t.Told?
    ensures t.s in {DELETE_PENDING, REINIT_PENDING, REINIT_READY}
  {
  }

  lemma {:induction false} NothingYet(f: File)
    ensures DoAll(f, []) == f && !Deleted([]) && !Awaited([])
  {
  }

  // ------------------------------------------------------------ settling down

  /** One poll that finds nothing. */
  lemma {:induction false} QuietPoll(f: File)
    requires FileInv(f) && !f.selected
    ensures var g := Do(f, Polled(true, false));
      && FileInv(g) && !g.selected
      && (f.status in {DELETE_PENDING, REINIT_PENDING} ==> g.status == f.status && !g.mapped)
      && (f.status == REINIT_READY && f.mapped ==> g.status == REINIT_READY && !g.mapped)
      && (f.status in {INITIALIZING, ACTIVE} || (f.status == REINIT_READY && !f.mapped) ==>
            g.status == ACTIVE && g.mapped)
  {
    DoInv(f, Polled(true, false));
  }

  lemma {:induction false} QuietPolls(f: File, n: nat)
    requires FileInv(f) && !f.selected
    requires n >= if f.status == REINIT_READY && f.mapped then 2 else 1
    ensures PossibleAll(f, Polls(n))
    ensures var g := DoAll(f, Polls(n));
      && FileInv(g) && !g.selected
      && if f.status in {DELETE_PENDING, REINIT_PENDING} then g.status == f.status && !g.mapped
         else g.status == ACTIVE && g.mapped
    decreases n
  {
    hide Do, FileInv;
    var g := Do(f, Polled(true, false));
    QuietPoll(f);
    assert Polls(n)[1..] == Polls(n - 1);
    if n > 1 {
      QuietPolls(g, n - 1);
    }
  }

  lemma {:induction false} Consuming(f: File)
    requires FileInv(f) && f.selected
    ensures var g := Do(f, Consumed(true));
      FileInv(g) && !g.selected && g.status == f.status && Possible(f, Consumed(true))
  {
    DoInv(f, Consumed(true));
  }

  lemma {:induction false} Settled(f: File, n: nat)
    requires FileInv(f) && n >= 2
    ensures PossibleAll(f, Settle(f, n))
    ensures var g := DoAll(f, Settle(f, n));
      && !g.selected
      && if f.status in {DELETE_PENDING, REINIT_PENDING} then g.status == f.status && !g.mapped
         else g.status == ACTIVE && g.mapped
  {
    hide Do, FileInv, Possible;
    if f.selected {
      Consuming(f);
      QuietPolls(Do(f, Consumed(true)), n);
      assert ([Consumed(true)] + Polls(n))[1..] == Polls(n);
    } else {
      QuietPolls(f, n);
      assert [] + Polls(n) == Polls(n);
    }
  }

  /** Exactly which event orders leave a file unopened: after any steps, two or more polls that find no message
      and a usable header leave it mapped and ACTIVE, unless the last creation or deletion was a deletion, or
      a creation without a modification since. */
  lemma {:induction false} OpenIff(f: File, ts: seq<Step>, n: nat)
    requires FileInv(f) && f.status in {INITIALIZING, ACTIVE, REINIT_READY} && PossibleAll(f, ts) && n >= 2
    ensures var g := DoAll(f, ts);
      && PossibleAll(g, Settle(g, n))
      && var h := DoAll(g, Settle(g, n));
      && (h.mapped <==> !Deleted(ts) && !Awaited(ts))
      && h.status == if Deleted(ts) then DELETE_PENDING else if Awaited(ts) then REINIT_PENDING else ACTIVE
  {
    hide Do, FileInv, Deleted, Awaited, DoAll, PossibleAll;
    StatusAfter(f, ts);
    Settled(DoAll(f, ts), n);
  }

  // ------------------------------------------------------------- the new file

  /** Since mark `k` a mapping was made, if the file is open. */
  ghost predicate NewIfOpen(f: File, k: nat) {
    k <= |f.marks| && (f.status in {INITIALIZING, ACTIVE} ==> Mapped in f.marks[k..])
  }

  lemma {:induction false} StepMaps(f: File, t: Step, k: nat)
    requires FileInv(f) && Possible(f, t) && NewIfOpen(f, k)
    ensures NewIfOpen(Do(f, t), k)
  {
    var g := Do(f, t);
    assert f.marks <= g.marks;
    if g.status in {INITIALIZING, ACTIVE} && f.status !in {INITIALIZING, ACTIVE} {
      assert g.marks[|f.marks|] == Mapped;
      assert g.marks[k..][|f.marks| - k] == Mapped;
    } else if g.status in {INITIALIZING, ACTIVE} {
      var i :| 0 <= i < |f.marks[k..]| && f.marks[k..][i] == Mapped;
      assert g.marks[k..][i] == Mapped;
    }
  }

  lemma {:induction false} StepsMap(f: File, ts: seq<Step>, k: nat)
    requires FileInv(f) && PossibleAll(f, ts) && NewIfOpen(f, k)
    ensures NewIfOpen(DoAll(f, ts), k)
    decreases |ts|
  {
    hide Do, FileInv, NewIfOpen, Possible;
    if ts != [] {
      DoInv(f, ts[0]);
      StepMaps(f, ts[0], k);
      StepsMap(Do(f, ts[0]), ts[1..], k);
    }
  }

  lemma {:induction false} DoConcat(f: File, a: seq<Step>, b: seq<Step>)
    requires PossibleAll(f, a) && PossibleAll(DoAll(f, a), b)
    ensures PossibleAll(f, a + b) && DoAll(f, a + b) == DoAll(DoAll(f, a), b)
    decreases |a|
  {
    hide Do, Possible;
    if a == [] {
      assert a + b == b;
    } else {
      assert (a + b)[1..] == a[1..] + b;
      DoConcat(Do(f, a[0]), a[1..], b);
    }
  }

  /** A re-created file is tailed again: from every state, once IN_CREATE and, later, IN_MODIFY have come, with
      anything in between and after except another creation or deletion, two or more polls that find the old
      mapping drained and a usable header leave the file ACTIVE and mapped, by a mapping made since. */
  lemma {:induction false} Reopened(f: File, ts: seq<Step>, d: nat, n: nat)
    requires FileInv(f) && n >= 2
    requires var g := Do(f, Told(REINIT_PENDING)); PossibleAll(g, ts)
    requires d < |ts| && ts[d] == Told(REINIT_READY)
    requires forall k {:trigger ts[k]} ::
      0 <= k < |ts| ==> ts[k] != Told(REINIT_PENDING) && ts[k] != Told(DELETE_PENDING)
    ensures var g := Do(f, Told(REINIT_PENDING));
      var e := DoAll(g, ts);
      && PossibleAll(e, Settle(e, n))
      && var h := DoAll(e, Settle(e, n));
      h.status == ACTIVE && h.mapped && |g.marks| <= |h.marks| && Mapped in h.marks[|g.marks|..]
  {
    hide Do, FileInv, Possible, DoAll, PossibleAll;
    var g := Do(f, Told(REINIT_PENDING));
    var e := DoAll(g, ts);
    Waits(f);
    Leaves(g, ts, d);
    Settled(e, n);
    StepsMap(g, ts, |g.marks|);
    StepsMap(e, Settle(e, n), |g.marks|);
  }

  lemma {:induction false} Waits(f: File)
    requires FileInv(f)
    ensures var g := Do(f, Told(REINIT_PENDING)); FileInv(g) && g.status == REINIT_PENDING && NewIfOpen(g, |g.marks|)
  {
    hide FileInv;
    DoInv(f, Told(REINIT_PENDING));
  }

  /** An awaited file waits exactly until it is modified. */
  lemma {:induction false} Leaves(f: File, ts: seq<Step>, d: nat)
    requires FileInv(f) && PossibleAll(f, ts)
    requires f.status != DELETE_PENDING && (f.status == REINIT_PENDING ==> d < |ts| && ts[d] == Told(REINIT_READY))
    requires forall k {:trigger ts[k]} ::
      0 <= k < |ts| ==> ts[k] != Told(REINIT_PENDING) && ts[k] != Told(DELETE_PENDING)
    ensures FileInv(DoAll(f, ts)) && DoAll(f, ts).status !in {DELETE_PENDING, REINIT_PENDING}
    decreases |ts|
  {
    hide Do, FileInv;
    if ts != [] {
      var t, g := ts[0], Do(f, ts[0]);
      DoInv(f, t);
      StepStatus(f, t);
      Leaves(g, ts[1..], if d == 0 then 0 else d - 1);
    }
  }

  /** A poll selects exactly a message that the scan finds in a file that is open and no longer initializing. */
  lemma {:induction false} SelectedIff(f: File, usable: bool, found: bool)
    requires FileInv(f)
    ensures var g := Do(f, Polled(usable, found));
      g.selected <==> f.selected || (found && g.mapped && g.status != INITIALIZING)
  {
    DoInv(f, Polled(usable, found));
  }

  /** A selected message stays selected, and its file mapped, until it has been consumed, whatever events come. */
  lemma {:induction false} SelectionKept(f: File, ts: seq<Step>)
    requires FileInv(f) && f.selected && PossibleAll(f, ts)
    requires forall k {:trigger ts[k]} :: 0 <= k < |ts| ==> ts[k] != Consumed(true)
    ensures DoAll(f, ts).selected && DoAll(f, ts).mapped && DoAll(f, ts).marks == f.marks
    decreases |ts|
  {
    hide DrainedFirst, LastUse;
    if ts != [] {
      DoInv(f, ts[0]);
      assert ts[0] != Consumed(true);
      SelectionKept(Do(f, ts[0]), ts[1..]);
    }
  }
}
