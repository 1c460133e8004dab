/** The whole of qtcat on several files: open each, then `catMany`. */
module CatFiles {
  import opened Bytes
  import opened Records
  import opened RingState
  import opened RingReader
  import opened Recovery
  import opened Merging
  import opened TraceFile
  import opened CatFile
  import opened CatMany

  /** A file given on the command line: its bytes, what its header says, the levels asked for, and its
      dictionary. */
  datatype Input = Input(mem: array<byte>, hdr: nat, sizes: seq<nat>, enabled: seq<bool>, reg: Registry)

  /** The file is one that a run of trace statements has left behind. */
  ghost predicate LeftBehind(x: Input, f: File, hs: seq<History>)
    reads x.mem
  {
    && FileInv(x.reg, f, hs) && f.m == x.mem[..] && f.hdr == x.hdr && f.sizes == x.sizes
    && |x.enabled| == |x.sizes|
  }

  ghost predicate AllLeftBehind(ins: seq<Input>, fs: seq<File>, hss: seq<seq<History>>)
    reads set x | x in ins :: x.mem
  {
    |ins| == |fs| == |hss| && forall j {:trigger ins[j]} :: 0 <= j < |ins| ==> LeftBehind(ins[j], fs[j], hss[j])
  }

  /** What file `j` prints by itself. */
  ghost function Own(x: Input, f: File, hs: seq<History>): Pendings
    requires FileInv(x.reg, f, hs) && |x.enabled| == |f.sizes|
  {
    LevelsReady(x.reg, f, hs);
    Deliveries(f, hs, x.enabled)
  }

  lemma {:induction false} OwnSorted(x: Input, f: File, hs: seq<History>)
    requires FileInv(x.reg, f, hs) && |x.enabled| == |f.sizes|
    ensures AllSorted(Own(x, f, hs))
  {
    hide FileInv, Recovered;
    LevelsReady(x.reg, f, hs);
    forall k | 0 <= k < |hs|
      ensures Sorted(Own(x, f, hs)[k])
    {
      if x.enabled[k] {
        LevelReady(x.reg, f, hs, k);
        RecoveredSorted(x.reg, RingAt(f, k), hs[k]);
      }
    }
  }

  /** qtcat on several files: the output is in timestamp order, and restricted to any file it is exactly
      what qtcat prints for that file alone. */
  method Cat(ins: seq<Input>, ghost fs: seq<File>, ghost hss: seq<seq<History>>) returns (out: seq<Line>)
    requires AllLeftBehind(ins, fs, hss)
    ensures InOrder(out)
    ensures forall j {:trigger ins[j]} :: 0 <= j < |ins| ==> FromFile(out, j) == Merge(Own(ins[j], fs[j], hss[j]))
  {
    hide FileInv, Deliveries, Merge, FromFile, InOrder, AllSorted, Tail.Delivers;
    var files: seq<Tail> := [];
    ghost var starts: seq<Pendings> := [];
    for j := 0 to |ins|
      invariant |files| == |starts| == j && fresh(files)
      invariant forall k :: 0 <= k < j ==> fresh(files[k].rings) && files[k].Valid() && files[k].next == (U64_MAX, -1)
      invariant forall k :: 0 <= k < j ==> files[k].Delivers(starts[k])
      invariant forall k :: 0 <= k < j ==> starts[k] == Own(ins[k], fs[k], hss[k]) && AllSorted(starts[k])
      invariant forall k, l :: 0 <= k < l < j ==> files[k] != files[l]
      invariant forall k, l :: 0 <= k < j && 0 <= l < j && k != l ==>
        forall r :: r in files[k].rings ==> r !in files[l].rings
    {
      var x := ins[j];
      assert LeftBehind(x, fs[j], hss[j]);
      var tail := OpenFile(x.mem, x.hdr, x.sizes, x.enabled, x.reg, fs[j], hss[j]);
      OwnSorted(x, fs[j], hss[j]);
      files := files + [tail];
      starts := starts + [Own(x, fs[j], hss[j])];
    }
    var control := new CatControl(files);
    out := control.CatMany(starts);
  }

  /** ... so of every enabled level of every file it shows a suffix of what was written there. */
  lemma {:induction false} CatMeaning(ins: seq<Input>, fs: seq<File>, hss: seq<seq<History>>, out: seq<Line>, j: nat,
                                      i: nat)
    requires AllLeftBehind(ins, fs, hss) && j < |ins| && i < |hss[j]|
    requires FromFile(out, j) == Merge(Own(ins[j], fs[j], hss[j]))
    ensures (LevelsReady(ins[j].reg, fs[j], hss[j]);
      LevelShown(fs[j], hss[j], ins[j].enabled, i, FromFile(out, j)))
  {
    hide FileInv, Deliveries, Merge, FromFile, LevelShown;
    assert LeftBehind(ins[j], fs[j], hss[j]);
    CatFile.CatMeaning(ins[j].reg, fs[j], hss[j], ins[j].enabled, i);
  }
}
