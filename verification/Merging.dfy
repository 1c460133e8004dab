/** Merging several pending message sequences by timestamp, ties going to the lower index: the
    specification of what qtcat prints for one file with ten rings. */
module Merging {
  import opened Bytes
  import opened Records

  type Pendings = seq<seq<Rec>>

  /** The index whose first pending message has the least timestamp among the first `n`, ties going
      to the lower index; `-1` when nothing is pending there. */
  function Pick(ps: Pendings, n: nat): (k: int)
    requires n <= |ps|
    ensures -1 <= k < n && (k >= 0 ==> ps[k] != [])
  {
    if n == 0 then -1
    else
      var k := Pick(ps, n - 1);
      if ps[n - 1] != [] && (k < 0 || ps[n - 1][0].tsc < ps[k][0].tsc) then n - 1 else k
  }

  lemma {:induction false} PickIsLeast(ps: Pendings, n: nat, i: nat)
    requires i < n <= |ps| && ps[i] != []
    ensures var k := Pick(ps, n);
      k >= 0 && ps[k][0].tsc <= ps[i][0].tsc && (i < k ==> ps[k][0].tsc < ps[i][0].tsc)
    decreases n
  {
    if i < n - 1 {
      PickIsLeast(ps, n - 1, i);
    }
  }

  function Total(ps: Pendings, n: nat): nat
    requires n <= |ps|
  {
    if n == 0 then 0 else Total(ps, n - 1) + |ps[n - 1]|
  }

  lemma {:induction false} TotalDrop(ps: Pendings, n: nat, k: nat)
    requires k < |ps| && n <= |ps| && ps[k] != []
    ensures Total(ps[k := ps[k][1..]], n) == Total(ps, n) - if k < n then 1 else 0
    decreases n
  {
    if n > 0 {
      TotalDrop(ps, n - 1, k);
    }
  }

  function Drop(ps: Pendings, k: nat): Pendings
    requires k < |ps| && ps[k] != []
  {
    ps[k := ps[k][1..]]
  }

  /** The merge: repeatedly the picked message, with the index it came from. */
  function Merge(ps: Pendings): seq<(nat, Rec)>
    decreases Total(ps, |ps|)
  {
    var k := Pick(ps, |ps|);
    if k < 0 then []
    else
      TotalDrop(ps, |ps|, k);
      [(k as nat, ps[k][0])] + Merge(Drop(ps, k))
  }

  /** What of `out` came from index `i`. */
  function From(out: seq<(nat, Rec)>, i: nat): seq<Rec> {
    if out == [] then [] else (if out[0].0 == i then [out[0].1] else []) + From(out[1..], i)
  }

  /** Nothing is lost, added or reordered within one sequence: the merge restricted to any index is
      that sequence. */
  lemma {:induction false} MergeKeepsEach(ps: Pendings, i: nat)
    requires i < |ps|
    ensures From(Merge(ps), i) == ps[i]
    decreases Total(ps, |ps|)
  {
    var k := Pick(ps, |ps|);
    if k < 0 {
      if ps[i] != [] {
        PickIsLeast(ps, |ps|, i);
      }
    } else {
      TotalDrop(ps, |ps|, k);
      MergeKeepsEach(Drop(ps, k), i);
      assert Merge(ps)[1..] == Merge(Drop(ps, k));
      assert ps[k] == [ps[k][0]] + ps[k][1..];
    }
  }

  ghost predicate Sorted(rs: seq<Rec>) {
    forall i, j :: 0 <= i < j < |rs| ==> rs[i].tsc <= rs[j].tsc
  }

  ghost predicate SortedOut(out: seq<(nat, Rec)>) {
    forall i, j :: 0 <= i < j < |out| ==> out[i].1.tsc <= out[j].1.tsc
  }

  ghost predicate AllSorted(ps: Pendings) {
    forall i :: 0 <= i < |ps| ==> Sorted(ps[i])
  }

  ghost predicate AtLeast(ps: Pendings, t: nat) {
    forall i :: 0 <= i < |ps| && ps[i] != [] ==> t <= ps[i][0].tsc
  }

  lemma {:induction false} MergeAtLeast(ps: Pendings, t: nat)
    requires AllSorted(ps) && AtLeast(ps, t)
    ensures SortedOut(Merge(ps)) && forall j :: 0 <= j < |Merge(ps)| ==> t <= Merge(ps)[j].1.tsc
    decreases Total(ps, |ps|)
  {
    var k := Pick(ps, |ps|);
    if k >= 0 {
      TotalDrop(ps, |ps|, k);
      var rest: Pendings := Drop(ps, k);
      var t' := ps[k][0].tsc;
      forall i | 0 <= i < |rest| && rest[i] != []
        ensures t' <= rest[i][0].tsc
      {
        if i != k {
          PickIsLeast(ps, |ps|, i);
        }
      }
      MergeAtLeast(rest, t');
      assert Merge(ps) == [(k as nat, ps[k][0])] + Merge(rest);
    }
  }

  /** Merging sorted sequences gives a sorted output. */
  lemma {:induction false} MergeSorted(ps: Pendings)
    requires AllSorted(ps)
    ensures SortedOut(Merge(ps))
  {
    MergeAtLeast(ps, 0);
  }
}
