/** `CatControl::catMany`: several files printed in timestamp order through the file queue. */
module CatMany {
  import opened Bytes
  import opened Records
  import opened Merging
  import opened CatFile
  import opened RingReader
  import Q = FileQueue

  /** A printed message: file, ring, record. */
  type Line = (nat, (nat, Rec))

  /** What of the output came from file `j`. */
  function FromFile(out: seq<Line>, j: nat): seq<(nat, Rec)> {
    if out == [] then []
    else FromFile(out[..|out| - 1], j) + if out[|out| - 1].0 == j then [out[|out| - 1].1] else []
  }

  ghost predicate InOrder(out: seq<Line>) {
    forall i, j :: 0 <= i < j < |out| ==> out[i].1.1.tsc <= out[j].1.1.tsc
  }

  function TotalAll(pss: seq<Pendings>, n: nat): nat
    requires n <= |pss|
  {
    if n == 0 then 0 else TotalAll(pss, n - 1) + Total(pss[n - 1], |pss[n - 1]|)
  }

  lemma {:induction false} TotalAllDrop(pss: seq<Pendings>, n: nat, f: nat, k: nat)
    requires n <= |pss| && f < |pss| && k < |pss[f]| && pss[f][k] != []
    ensures TotalAll(pss[f := Drop(pss[f], k)], n) == TotalAll(pss, n) - if f < n then 1 else 0
    decreases n
  {
    if n > 0 {
      TotalAllDrop(pss, n - 1, f, k);
      if f == n - 1 {
        TotalDrop(pss[f], |pss[f]|, k);
      }
    }
  }

  /** In a sorted file the next message is not earlier than the one before it. */
  lemma {:induction false} NextNotEarlier(ps: Pendings)
    requires AllSorted(ps) && Pick(ps, |ps|) >= 0
    ensures var k := Pick(ps, |ps|);
      var rest := Drop(ps, k);
      AllSorted(rest) && (Pick(rest, |rest|) >= 0 ==> ps[k][0].tsc <= rest[Pick(rest, |rest|)][0].tsc)
  {
    var k := Pick(ps, |ps|);
    var rest := Drop(ps, k);
    var k' := Pick(rest, |rest|);
    if k' >= 0 && k' != k {
      PickIsLeast(ps, |ps|, k');
    }
  }

  /** The files are different objects with different rings. */
  ghost predicate Separate(files: seq<Tail>) {
    && (forall k :: 0 <= k < |files| ==> files[k].Valid())
    && (forall k, l :: 0 <= k < l < |files| ==> files[k] != files[l])
    && (forall k, l :: 0 <= k < |files| && 0 <= l < |files| && k != l ==>
          forall r :: r in files[k].rings ==> r !in files[l].rings)
  }

  ghost function AllRings(files: seq<Tail>): (s: set<RingBuffer>)
    ensures forall k, r {:trigger r in files[k].rings} :: 0 <= k < |files| && r in files[k].rings ==> r in s
  {
    set k, r | 0 <= k < |files| && r in files[k].rings :: r
  }

  ghost function AllMem(files: seq<Tail>): (s: set<array<byte>>)
    ensures forall k {:trigger files[k]} :: 0 <= k < |files| ==> files[k].mem in s
  {
    set k | 0 <= k < |files| :: files[k].mem
  }

  /** File `k` will deliver `ps` and has its next message selected. */
  ghost predicate FileReady(files: seq<Tail>, k: nat, ps: Pendings)
    requires k < |files| && files[k].Valid()
    reads files, AllRings(files), AllMem(files)
  {
    var f := files[k];
    assert f in files && f.mem in AllMem(files);
    assert forall r :: r in f.rings ==> r in AllRings(files);
    f.Delivers(ps) && f.next == PickPair(ps, |ps|)
  }

  // ------------------------------------------------ what the queue says

  ghost predicate NodeOk(pss: seq<Pendings>, x: Q.Node) {
    x.file < |pss| && PickPair(pss[x.file], |pss[x.file]|) == (x.tsc, x.bufNum)
  }

  /** Every entry's key and ring are those of its file's next message, and every file that has
      messages left has an entry. */
  ghost predicate QueueOk(pss: seq<Pendings>, q: seq<Q.Node>) {
    && Q.HeadFirst(q) && Q.Distinct(q)
    && (forall x :: x in q ==> NodeOk(pss, x))
    && forall j {:trigger pss[j]} :: 0 <= j < |pss| && Pick(pss[j], |pss[j]|) >= 0 ==> Q.Holds(q, j)
  }

  /** Printed so far: in order, not later than anything queued, and complete for each file. */
  ghost predicate OutOk(starts: seq<Pendings>, pss: seq<Pendings>, q: seq<Q.Node>, out: seq<Line>) {
    && |starts| == |pss|
    && (forall j {:trigger pss[j]} :: 0 <= j < |pss| ==>
          AllSorted(pss[j]) && FromFile(out, j) + Merge(pss[j]) == Merge(starts[j]))
    && InOrder(out)
    && (out != [] ==> forall x :: x in q ==> out[|out| - 1].1.1.tsc <= x.tsc)
  }

  /** What is left of the files once the first entry's message is printed. */
  function Rest(pss: seq<Pendings>, q: seq<Q.Node>): seq<Pendings>
    requires q != [] && NodeOk(pss, q[0])
  {
    pss[q[0].file := Drop(pss[q[0].file], q[0].bufNum)]
  }

  /** The queue after that round. */
  function Round(pss: seq<Pendings>, q: seq<Q.Node>): seq<Q.Node>
    requires q != [] && NodeOk(pss, q[0])
  {
    var ps := Drop(pss[q[0].file], q[0].bufNum);
    var (tsc, k) := PickPair(ps, |ps|);
    Q.Requeue(q, k >= 0, tsc, if k >= 0 then k else 0)
  }

  function PrintedLine(pss: seq<Pendings>, q: seq<Q.Node>): Line
    requires q != [] && NodeOk(pss, q[0])
  {
    (q[0].file, (q[0].bufNum, pss[q[0].file][q[0].bufNum][0]))
  }

  lemma {:induction false} RoundHas(pss: seq<Pendings>, q: seq<Q.Node>, x: Q.Node)
    requires QueueOk(pss, q) && q != []
    ensures x in Round(pss, q) ==> NodeOk(Rest(pss, q), x) && (x in q[1..] || x.file == q[0].file)
    ensures x in q[1..] ==> x in Round(pss, q)
  {
    hide Q.HeadFirst, Q.Requeue;
    var pss' := Rest(pss, q);
    var ps := pss'[q[0].file];
    var (tsc, k) := PickPair(ps, |ps|);
    Q.RequeueHas(q, k >= 0, tsc, if k >= 0 then k else 0, x);
    if x in q[1..] {
      var i :| 0 <= i < |q[1..]| && q[1..][i] == x;
      assert q[i + 1] == x && x.file != q[0].file;
      assert NodeOk(pss, x);
    }
  }

  lemma {:induction false} StillHeld(pss: seq<Pendings>, q: seq<Q.Node>, j: nat)
    requires QueueOk(pss, q) && q != [] && j < |pss|
    requires Pick(Rest(pss, q)[j], |Rest(pss, q)[j]|) >= 0
    ensures Q.Holds(Round(pss, q), j)
  {
    hide Q.HeadFirst, Q.Requeue;
    var pss' := Rest(pss, q);
    var ps := pss'[q[0].file];
    var (tsc, k) := PickPair(ps, |ps|);
    var r, x := Round(pss, q), q[0].(tsc := tsc, bufNum := if k >= 0 then k else 0);
    if j != q[0].file {
      assert Pick(pss[j], |pss[j]|) >= 0;
      var i :| 0 <= i < |q| && q[i].file == j;
      x := q[i];
      assert q[1..][i - 1] == q[i];
    }
    Q.RequeueHas(q, k >= 0, tsc, if k >= 0 then k else 0, x);
    var i :| 0 <= i < |r| && r[i] == x;
    assert r[i].file == j;
  }

  /** One round keeps the queue right. */
  lemma {:induction false} RoundOk(pss: seq<Pendings>, q: seq<Q.Node>)
    requires QueueOk(pss, q) && q != []
    ensures QueueOk(Rest(pss, q), Round(pss, q))
  {
    hide Q.HeadFirst, Q.Requeue, Pick;
    var pss', r := Rest(pss, q), Round(pss, q);
    var ps := pss'[q[0].file];
    var (tsc, k) := PickPair(ps, |ps|);
    Q.RequeueKeeps(q, k >= 0, tsc, if k >= 0 then k else 0);
    forall x | x in r
      ensures NodeOk(pss', x)
    {
      RoundHas(pss, q, x);
    }
    forall j {:trigger pss'[j]} | 0 <= j < |pss'| && Pick(pss'[j], |pss'[j]|) >= 0
      ensures Q.Holds(r, j)
    {
      StillHeld(pss, q, j);
    }
  }

  /** What one round prints is in order and is the file's next message. */
  lemma {:induction false} FromFileSnoc(out: seq<Line>, line: Line, j: nat)
    ensures FromFile(out + [line], j) == FromFile(out, j) + if line.0 == j then [line.1] else []
  {
    assert (out + [line])[..|out|] == out;
  }

  lemma {:induction false} OutStep(starts: seq<Pendings>, pss: seq<Pendings>, q: seq<Q.Node>, out: seq<Line>)
    requires QueueOk(pss, q) && q != [] && OutOk(starts, pss, q, out)
    ensures OutOk(starts, Rest(pss, q), Round(pss, q), out + [PrintedLine(pss, q)])
  {
    hide Q.Requeue, Pick, Merge, Round, AllSorted, Q.Distinct, FromFile;
    var f, line := q[0].file, PrintedLine(pss, q);
    var pss', out' := Rest(pss, q), out + [line];
    assert NodeOk(pss, q[0]);
    NextNotEarlier(pss[f]);
    forall j {:trigger pss'[j]} | 0 <= j < |pss'|
      ensures AllSorted(pss'[j]) && FromFile(out', j) + Merge(pss'[j]) == Merge(starts[j])
    {
      FromFileSnoc(out, line, j);
      if j == f {
        MergeStep(FromFile(out, f), pss[f]);
      }
    }
    forall x | x in Round(pss, q)
      ensures line.1.1.tsc <= x.tsc
    {
      RoundHas(pss, q, x);
      if x in q[1..] {
        var i :| 0 <= i < |q[1..]| && q[1..][i] == x;
        assert q[i + 1] == x;
      }
    }
    InOrderSnoc(out, line, q);
  }

  lemma {:induction false} InOrderSnoc(out: seq<Line>, line: Line, q: seq<Q.Node>)
    requires InOrder(out) && q != [] && line.1.1.tsc == q[0].tsc
    requires out != [] ==> forall x :: x in q ==> out[|out| - 1].1.1.tsc <= x.tsc
    ensures InOrder(out + [line])
  {
    if out != [] {
      assert q[0] in q;
    }
  }

  // -------------------------------------------------------------- the class

  /** File numbers are given in the order of the files. */
  ghost predicate Numbered(q: seq<Q.Node>) {
    forall x, y :: x in q && y in q && x.file < y.file ==> x.fileNum < y.fileNum
  }

  /** Entries by timestamp, and those with equal timestamps in the order of their files. */
  ghost predicate InFileOrder(q: seq<Q.Node>) {
    forall i, j :: 0 <= i < j < |q| ==> q[i].tsc < q[j].tsc || (q[i].tsc == q[j].tsc && q[i].file < q[j].file)
  }

  lemma {:induction false} OrderedByFile(q: seq<Q.Node>)
    requires Q.Ordered(q) && Q.Distinct(q) && Numbered(q)
    ensures InFileOrder(q)
  {
    forall i, j | 0 <= i < j < |q|
      ensures q[i].tsc < q[j].tsc || (q[i].tsc == q[j].tsc && q[i].file < q[j].file)
    {
      assert Q.Less(q[i], q[j]);
      if q[j].file < q[i].file {
        assert q[i] in q && q[j] in q;
      }
    }
  }

  /** The queue once the first `i` files have been asked; `fileNum` numbers are used up. */
  ghost predicate Populated(pss: seq<Pendings>, q: seq<Q.Node>, i: nat, fileNum: nat) {
    && i <= |pss| && Q.Ordered(q) && Q.Distinct(q)
    && (forall x :: x in q ==> NodeOk(pss, x) && x.file < i && x.fileNum < fileNum)
    && Numbered(q)
    && forall j {:trigger pss[j]} :: 0 <= j < i && Pick(pss[j], |pss[j]|) >= 0 ==> Q.Holds(q, j)
  }

  lemma {:induction false} NothingPopulated(pss: seq<Pendings>)
    ensures Populated(pss, [], 0, 0)
  {
  }

  lemma {:induction false} PopulateNone(pss: seq<Pendings>, q: seq<Q.Node>, i: nat, fileNum: nat)
    requires Populated(pss, q, i, fileNum) && i < |pss| && Pick(pss[i], |pss[i]|) < 0
    ensures Populated(pss, q, i + 1, fileNum)
  {
    hide Q.Ordered, Q.Distinct, Pick, Q.Holds;
  }

  lemma {:induction false} PopulateOne(pss: seq<Pendings>, q: seq<Q.Node>, n: Q.Node)
    requires Populated(pss, q, n.file, n.fileNum) && NodeOk(pss, n)
    ensures Populated(pss, Q.Insert(q, n), n.file + 1, n.fileNum + 1)
  {
    hide Q.Insert, Pick, Q.Distinct, Q.Ordered, Q.Holds;
    forall i | 0 <= i < |q|
      ensures q[i].fileNum != n.fileNum && q[i].file != n.file
    {
      assert q[i] in q;
    }
    Q.InsertOrdered(q, n);
    Q.InsertDistinct(q, n);
    InsertHolds(q, n);
    forall x
      ensures x in Q.Insert(q, n) <==> x == n || x in q
    {
      Q.InsertHas(q, n, x);
    }
  }

  lemma {:induction false} AllPopulated(pss: seq<Pendings>, q: seq<Q.Node>, fileNum: nat)
    requires Populated(pss, q, |pss|, fileNum)
    ensures QueueOk(pss, q) && Q.Ordered(q) && InFileOrder(q)
  {
    hide Pick, InFileOrder, Numbered;
    OrderedHeadFirst(q);
    OrderedByFile(q);
  }

  /** The numbers `i`, `i + 1` and so on below `n`. */
  function Upto(i: nat, n: nat): (r: seq<nat>)
    requires i <= n
    ensures |r| == n - i && forall k :: 0 <= k < |r| ==> r[k] == i + k
  {
    seq(n - i, (k: nat) => i + k)
  }

  /** Of the first `n` files, those that have a message. */
  function WithMessages(pss: seq<Pendings>, n: nat): seq<nat>
    requires n <= |pss|
  {
    if n == 0 then []
    else WithMessages(pss, n - 1) + if Pick(pss[n - 1], |pss[n - 1]|) >= 0 then [n - 1] else []
  }

  /** In the list the first `i` files have been asked and are left before position `pos`. */
  ghost predicate ListedFrom(pss: seq<Pendings>, listed: seq<nat>, pos: nat, i: nat) {
    i <= |pss| && listed == WithMessages(pss, i) + Upto(i, |pss|) && pos == |WithMessages(pss, i)|
  }

  lemma {:induction false} ListedFirst(pss: seq<Pendings>)
    ensures ListedFrom(pss, Upto(0, |pss|), 0, 0)
  {
    assert [] + Upto(0, |pss|) == Upto(0, |pss|);
  }

  lemma {:induction false} ListedStep(pss: seq<Pendings>, listed: seq<nat>, pos: nat, i: nat)
    requires ListedFrom(pss, listed, pos, i)
    ensures pos <= |listed| && (pos < |listed| <==> i < |pss|)
    ensures pos == |listed| ==> listed == WithMessages(pss, |pss|)
    ensures pos < |listed| ==>
      && listed[pos] == i
      && if Pick(pss[i], |pss[i]|) >= 0 then ListedFrom(pss, listed, pos + 1, i + 1)
         else ListedFrom(pss, listed[..pos] + listed[pos + 1..], pos, i + 1)
  {
    hide Pick;
    if i < |pss| {
      var a := WithMessages(pss, i);
      assert Upto(i, |pss|) == [i] + Upto(i + 1, |pss|);
      assert listed == a + [i] + Upto(i + 1, |pss|);
      assert listed[..pos] == a && listed[pos + 1..] == Upto(i + 1, |pss|);
    }
  }

  /** Every entry of the queue is of a file that is still in the list. */
  lemma {:induction false} EntriesListed(pss: seq<Pendings>, q: seq<Q.Node>, x: Q.Node)
    requires QueueOk(pss, q) && x in q
    ensures x.file in WithMessages(pss, |pss|)
  {
    hide Pick, Q.HeadFirst, Q.Distinct;
    assert NodeOk(pss, x);
    Listed(pss, |pss|, x.file);
  }

  lemma {:induction false} Listed(pss: seq<Pendings>, n: nat, k: nat)
    requires k < n <= |pss|
    ensures k in WithMessages(pss, n) <==> Pick(pss[k], |pss[k]|) >= 0
    decreases n
  {
    hide Pick;
    if k < n - 1 {
      Listed(pss, n - 1, k);
    } else {
      ListedBelow(pss, n - 1);
    }
  }

  lemma {:induction false} ListedBelow(pss: seq<Pendings>, n: nat)
    requires n <= |pss|
    ensures forall k :: k in WithMessages(pss, n) ==> k < n
  {
    hide Pick;
    if n > 0 {
      ListedBelow(pss, n - 1);
    }
  }

  class CatControl {
    const files: seq<Tail>
    /** The files that are still in the list `files_`, by their index. */
    var listed: seq<nat>
    var fileQueue: seq<Q.Node>

    constructor (files: seq<Tail>)
      ensures this.files == files && listed == Upto(0, |files|) && fileQueue == []
    {
      this.files, listed, fileQueue := files, Upto(0, |files|), [];
    }

    /** `populateQueue`: files without messages are erased from the list, the others get an entry. */
    method PopulateQueue(ghost pss: seq<Pendings>)
      requires Separate(files) && |pss| == |files| && fileQueue == [] && listed == Upto(0, |files|)
      requires forall k :: 0 <= k < |files| ==> files[k].Delivers(pss[k]) && files[k].next == (U64_MAX, -1)
      modifies this, set k | 0 <= k < |files| :: files[k]
      ensures QueueOk(pss, fileQueue) && Q.Ordered(fileQueue) && InFileOrder(fileQueue)
      ensures listed == WithMessages(pss, |pss|)
      ensures forall k :: 0 <= k < |files| ==> files[k].next == PickPair(pss[k], |pss[k]|)
    {
      hide Populated, QueueOk, Q.Insert, Q.Ordered, InFileOrder, Pick, ListedFrom, WithMessages, Upto;
      var fileNum := 0;
      ListedFirst(pss);
      NothingPopulated(pss);
      ghost var i := 0;
      var file := 0;
      while file < |listed|
        invariant i <= |files| && ListedFrom(pss, listed, file, i)
        invariant forall k :: 0 <= k < i ==> files[k].next == PickPair(pss[k], |pss[k]|)
        invariant forall k :: i <= k < |files| ==> files[k].next == (U64_MAX, -1)
        invariant Populated(pss, fileQueue, i, fileNum)
        decreases |files| - i
      {
        ListedStep(pss, listed, file, i);
        var f := listed[file];
        var tsc, bufNum := files[f].NextTsc(pss[i]);
        if bufNum < 0 {
          PopulateNone(pss, fileQueue, i, fileNum);
          listed := listed[..file] + listed[file + 1..];
        } else {
          var n := Q.Node(tsc, fileNum, f, bufNum);
          PopulateOne(pss, fileQueue, n);
          fileQueue := Q.Insert(fileQueue, n);
          fileNum := fileNum + 1;
          file := file + 1;
        }
        i := i + 1;
      }
      ListedStep(pss, listed, file, i);
      AllPopulated(pss, fileQueue, fileNum);
    }

    /** `tailBuffer` and `nextTsc` on one file, with the rings of the other files untouched. */
    method Advance(f: nat, tsc: nat, bufNum: nat, ghost pss: seq<Pendings>)
      returns (rec: Rec, nextTsc: nat, nextBuf: int)
      requires Separate(files) && |pss| == |files| && f < |files|
      requires forall k :: 0 <= k < |files| ==> files[k].Delivers(pss[k])
      requires PickPair(pss[f], |pss[f]|) == (tsc, bufNum)
      modifies files[f], files[f].rings
      ensures Pick(pss[f], |pss[f]|) == bufNum && rec == pss[f][bufNum][0]
      ensures var pss' := pss[f := Drop(pss[f], bufNum)];
        && (forall k :: 0 <= k < |files| ==> files[k].Delivers(pss'[k]))
        && (nextTsc, nextBuf) == files[f].next == PickPair(pss'[f], |pss'[f]|)
      ensures forall k :: 0 <= k < |files| && k != f ==> files[k].next == old(files[k].next)
    {
      hide Pick, Drop, Tail.RingDelivers;
      rec := files[f].TailBuffer(tsc, bufNum, pss[f]);
      nextTsc, nextBuf := files[f].NextTsc(Drop(pss[f], bufNum));
      forall k | 0 <= k < |files| && k != f
        ensures files[k].Delivers(pss[k])
      {
        assert files[f].rings[bufNum] in files[f].rings;
        assert old(files[k].Delivers(pss[k]));
        assert files[k].next == old(files[k].next);
      }
    }

    /** `nextTsc` of a file whose next message is selected already: nothing changes. */
    method SelectedTsc(k: nat, ghost pss: seq<Pendings>) returns (tsc: nat)
      requires Ready(pss) && k < |files|
      modifies files[k]
      ensures tsc == PickPair(pss[k], |pss[k]|).0 && Ready(pss)
    {
      hide Pick, Tail.Delivers;
      var bufNum;
      assert FileReady(files, k, pss[k]);
      tsc, bufNum := files[k].NextTsc(pss[k]);
      forall j | 0 <= j < |files|
        ensures FileReady(files, j, pss[j])
      {
        assert old(FileReady(files, j, pss[j]));
      }
    }

    ghost predicate Ready(pss: seq<Pendings>)
      reads this, files, AllRings(files), AllMem(files)
    {
      && Separate(files) && |pss| == |files|
      && forall k {:trigger files[k]} :: 0 <= k < |files| ==>
           FileReady(files, k, pss[k])
    }

    /** One round of the loop of `catMany`: print the first entry's message, then erase the entry,
        re-queue it, or update its key in place. */
    method OneRound(ghost pss: seq<Pendings>) returns (line: Line)
      requires Ready(pss) && QueueOk(pss, fileQueue) && fileQueue != []
      modifies this, files, AllRings(files)
      ensures NodeOk(pss, old(fileQueue)[0])
      ensures line == PrintedLine(pss, old(fileQueue))
      ensures Ready(Rest(pss, old(fileQueue))) && fileQueue == Round(pss, old(fileQueue))
    {
      hide QueueOk, Pick, Drop, Q.Insert, Separate, Tail.Delivers;
      var first := fileQueue[0];
      FirstOk(pss, fileQueue);
      assert files[first.file] in files;
      assert forall r :: r in files[first.file].rings ==> r in AllRings(files);
      var rec, tsc, bufNum := Advance(first.file, first.tsc, first.bufNum, pss);
      line := (first.file, (first.bufNum, rec));
      if bufNum < 0 {
        fileQueue := fileQueue[1..];
        return;
      }
      var updated := first.(tsc := tsc, bufNum := bufNum);
      var nextFileTsc := tsc;
      if |fileQueue| > 1 {
        nextFileTsc := SelectedTsc(fileQueue[1].file, Rest(pss, fileQueue));
      }
      if nextFileTsc < tsc {
        fileQueue := Q.Insert(fileQueue[1..], updated);
      } else {
        fileQueue := [updated] + fileQueue[1..];
      }
    }

    /** `catMany`: it terminates, and what it prints is in timestamp order and restricted to any file
        is exactly that file's own output. */
    method CatMany(ghost starts: seq<Pendings>) returns (out: seq<Line>)
      requires Separate(files) && |starts| == |files| && fileQueue == [] && listed == Upto(0, |files|)
      requires forall k :: 0 <= k < |files| ==> files[k].Delivers(starts[k]) && files[k].next == (U64_MAX, -1)
      requires forall k :: 0 <= k < |files| ==> AllSorted(starts[k])
      modifies this, files, AllRings(files)
      ensures InOrder(out)
      ensures forall j :: 0 <= j < |files| ==> FromFile(out, j) == Merge(starts[j])
    {
      hide QueueOk, OutOk, Merge, FromFile, Pick, InOrder, Round;
      PopulateQueue(starts);
      ghost var pss := starts;
      out := [];
      StartOk(starts, fileQueue);
      while fileQueue != []
        invariant Ready(pss) && QueueOk(pss, fileQueue) && OutOk(starts, pss, fileQueue, out)
        decreases TotalAll(pss, |pss|)
      {
        ghost var queue := fileQueue;
        RoundOk(pss, queue);
        OutStep(starts, pss, queue, out);
        var line := OneRound(pss);
        TotalAllDrop(pss, |pss|, queue[0].file, queue[0].bufNum);
        out := out + [line];
        pss := Rest(pss, queue);
      }
      EndOk(starts, pss, out);
    }
  }

  lemma {:induction false} FirstOk(pss: seq<Pendings>, q: seq<Q.Node>)
    requires QueueOk(pss, q) && q != []
    ensures NodeOk(pss, q[0])
    ensures |q| > 1 ==> NodeOk(pss, q[1]) && q[1].file != q[0].file
  {
    assert q[0] in q;
    assert |q| > 1 ==> q[1] in q;
  }

  lemma {:induction false} StartOk(starts: seq<Pendings>, q: seq<Q.Node>)
    requires forall k :: 0 <= k < |starts| ==> AllSorted(starts[k])
    ensures OutOk(starts, starts, q, [])
  {
  }

  /** When the queue is empty every file has been printed to its end. */
  lemma {:induction false} EndOk(starts: seq<Pendings>, pss: seq<Pendings>, out: seq<Line>)
    requires QueueOk(pss, []) && OutOk(starts, pss, [], out)
    ensures InOrder(out)
    ensures forall j :: 0 <= j < |starts| ==> FromFile(out, j) == Merge(starts[j])
  {
    forall j | 0 <= j < |starts|
      ensures FromFile(out, j) == Merge(starts[j])
    {
      assert !Q.Holds([], j);
      assert Merge(pss[j]) == [];
    }
  }

  lemma {:induction false} InsertHolds(q: seq<Q.Node>, n: Q.Node)
    ensures forall j :: Q.Holds(q, j) || j == n.file ==> Q.Holds(Q.Insert(q, n), j)
  {
    var r := Q.Insert(q, n);
    forall j | Q.Holds(q, j) || j == n.file
      ensures Q.Holds(r, j)
    {
      var x := n;
      if j != n.file {
        var i :| 0 <= i < |q| && q[i].file == j;
        x := q[i];
      }
      Q.InsertHas(q, n, x);
      var k :| 0 <= k < |r| && r[k] == x;
      assert r[k].file == j;
    }
  }

  lemma {:induction false} OrderedHeadFirst(q: seq<Q.Node>)
    requires Q.Ordered(q)
    ensures Q.HeadFirst(q)
  {
    if q != [] {
      assert Q.Ordered(q[1..]);
    }
  }
}
