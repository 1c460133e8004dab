/** The rings of one trace file: how the size spec lays them out, that the reader computes the same
    regions, and that writing one ring never disturbs another. */
module Geometry {
  import opened Bytes
  import opened Codes
  import opened Records
  import opened RingState
  import opened RingWriter

  const KB: nat := 1024
  const LEVELS: nat := 10

  // ------------------------------------------------------------- size specs

  const MAX_SIZE: nat := 16384

  function SumTo(sizes: seq<nat>, n: nat): nat
    requires n <= |sizes|
  {
    if n == 0 then 0 else SumTo(sizes, n - 1) + sizes[n - 1]
  }

  lemma {:induction false} SumMono(sizes: seq<nat>, i: nat, j: nat)
    requires i <= j <= |sizes|
    ensures SumTo(sizes, i) <= SumTo(sizes, j)
    ensures i < j ==> SumTo(sizes, i) + sizes[i] <= SumTo(sizes, j)
    decreases j
  {
    if i < j {
      SumMono(sizes, i, j - 1);
    }
  }

  lemma {:induction false} SumSame(a: seq<nat>, b: seq<nat>, n: nat)
    requires n <= |a| && n <= |b| && a[..n] == b[..n]
    ensures SumTo(a, n) == SumTo(b, n)
    decreases n
  {
    if n > 0 {
      assert a[..n - 1] == a[..n][..n - 1] && b[..n - 1] == b[..n][..n - 1];
      assert a[n - 1] == a[..n][n - 1] && b[n - 1] == b[..n][n - 1];
      SumSame(a, b, n - 1);
    }
  }

  lemma {:induction false} SumBound(sizes: seq<nat>, n: nat)
    requires n <= |sizes| && (forall i :: 0 <= i < n ==> sizes[i] <= MAX_SIZE)
    ensures SumTo(sizes, n) <= MAX_SIZE * n
    decreases n
  {
    if n > 0 {
      SumBound(sizes, n - 1);
    }
  }

  lemma {:induction false} ModSum(a: nat, b: nat)
    ensures (a % U32_BOUND + b) % U32_BOUND == (a + b) % U32_BOUND
  {
    var q := a / U32_BOUND;
    assert a + b == a % U32_BOUND + b + q * U32_BOUND;
  }

  /** `addAndLimitSizes`: normalises the spec in place and returns the total, a 32-bit number. A size from 1 to
      the maximum is kept, zero becomes 1, and a larger one is cut only where there is a limit. Within the limit
      the total of ten levels does not wrap around. */
  method AddAndLimitSizes(spec: array<nat>, limit: bool) returns (sz: nat)
    modifies spec
    ensures forall i :: 0 <= i < spec.Length && 1 <= old(spec[i]) <= MAX_SIZE ==> spec[i] == old(spec[i])
    ensures forall i :: 0 <= i < spec.Length && old(spec[i]) == 0 ==> spec[i] == 1
    ensures forall i :: 0 <= i < spec.Length && old(spec[i]) > MAX_SIZE ==>
      spec[i] == if limit then MAX_SIZE else old(spec[i])
    ensures sz == SumTo(spec[..], spec.Length) % U32_BOUND
    ensures limit && spec.Length <= LEVELS ==> sz == SumTo(spec[..], spec.Length) <= MAX_SIZE * LEVELS
  {
    sz := 0;
    for i := 0 to spec.Length
      invariant forall k :: 0 <= k < i ==>
        spec[k] == if old(spec[k]) > MAX_SIZE && limit then MAX_SIZE else if old(spec[k]) == 0 then 1 else old(spec[k])
      invariant forall k :: i <= k < spec.Length ==> spec[k] == old(spec[k])
      invariant sz == SumTo(spec[..], i) % U32_BOUND
    {
      ghost var before := spec[..];
      var szi := spec[i];
      if szi > MAX_SIZE && limit {
        szi := MAX_SIZE;
      } else if szi == 0 {
        szi := 1;
      }
      ModSum(SumTo(before, i), szi);
      sz := (sz + szi) % U32_BOUND;
      spec[i] := szi;
      SumSame(before, spec[..], i);
    }
    if limit {
      SumBound(spec[..], spec.Length);
    }
  }

  /** `addLevelSizes`, a 32-bit number too. */
  method AddLevelSizes(spec: array<nat>, end: nat) returns (sum: nat)
    requires end <= spec.Length
    ensures sum == SumTo(spec[..], end) % U32_BOUND
  {
    sum := 0;
    for i := 0 to end
      invariant sum == SumTo(spec[..], i) % U32_BOUND
    {
      sum := (sum + spec[i]) % U32_BOUND;
    }
  }

  // ----------------------------------------------------------------- tiling

  /** Where the ring of level `i` starts; for `i == |sizes|`, where the mapped area ends. */
  function LevelStart(hdr: nat, sizes: seq<nat>, i: nat): nat
    requires i <= |sizes|
  {
    hdr + SumTo(sizes, i) * KB
  }

  /** The rings do not overlap and each lies inside the mapped area. */
  lemma {:induction false} Disjoint(hdr: nat, sizes: seq<nat>, i: nat, j: nat)
    requires i < j < |sizes|
    ensures LevelStart(hdr, sizes, i) + sizes[i] * KB <= LevelStart(hdr, sizes, j)
    ensures LevelStart(hdr, sizes, j) + sizes[j] * KB <= LevelStart(hdr, sizes, |sizes|)
  {
    SumMono(sizes, i, j);
    SumMono(sizes, j, |sizes|);
  }

  predicate InLevel(hdr: nat, sizes: seq<nat>, i: nat, p: nat)
    requires i < |sizes|
  {
    LevelStart(hdr, sizes, i) <= p < LevelStart(hdr, sizes, i) + sizes[i] * KB
  }

  /** The rings tile the mapped area after the counters: every byte is in exactly one. */
  lemma {:induction false} Tiling(hdr: nat, sizes: seq<nat>, n: nat, p: nat) returns (i: nat)
    requires n <= |sizes| && hdr <= p < LevelStart(hdr, sizes, n)
    ensures i < n && InLevel(hdr, sizes, i, p)
    ensures forall k :: 0 <= k < |sizes| && k != i ==> !InLevel(hdr, sizes, k, p)
    decreases n
  {
    if p < LevelStart(hdr, sizes, n - 1) {
      i := Tiling(hdr, sizes, n - 1, p);
    } else {
      i := n - 1;
      forall k | 0 <= k < |sizes| && k != i
        ensures !InLevel(hdr, sizes, k, p)
      {
        if k < i {
          Disjoint(hdr, sizes, k, i);
        } else {
          Disjoint(hdr, sizes, i, k);
        }
      }
    }
  }

  /** Where `Tail::initialize` puts the ring of level `i`: it computes each size as a 32-bit number. */
  function ReaderStart(hdr: nat, sizes: seq<nat>, i: nat): nat
    requires i <= |sizes|
  {
    if i == 0 then hdr else ReaderStart(hdr, sizes, i - 1) + sizes[i - 1] * KB % U32_BOUND
  }

  /** The ring bases as `Tail::initialize` computes them, adding up the sizes from the header. */
  method ReaderBases(hdr: nat, sizes: array<nat>) returns (bases: seq<nat>)
    ensures |bases| == sizes.Length
    ensures forall i :: 0 <= i < |bases| ==> bases[i] == ReaderStart(hdr, sizes[..], i)
  {
    bases := [];
    var logStart := hdr;
    for i := 0 to sizes.Length
      invariant |bases| == i && logStart == ReaderStart(hdr, sizes[..], i)
      invariant forall k :: 0 <= k < i ==> bases[k] == ReaderStart(hdr, sizes[..], k)
    {
      var logSize := sizes[i] * KB % U32_BOUND;
      bases := bases + [logStart];
      logStart := logStart + logSize;
    }
  }

  /** The reader finds a ring where the writer put it if and only if the sizes of all rings before it fit
      32 bits. */
  lemma {:induction false} ReaderAgreesIff(hdr: nat, sizes: seq<nat>, i: nat)
    requires i <= |sizes|
    ensures ReaderStart(hdr, sizes, i) <= LevelStart(hdr, sizes, i)
    ensures ReaderStart(hdr, sizes, i) == LevelStart(hdr, sizes, i) <==>
      forall k :: 0 <= k < i ==> sizes[k] * KB < U32_BOUND
    decreases i
  {
    if i > 0 {
      ReaderAgreesIff(hdr, sizes, i - 1);
      assert LevelStart(hdr, sizes, i) == LevelStart(hdr, sizes, i - 1) + sizes[i - 1] * KB;
    }
  }
}
