/** Bytes, little-endian numbers and reads and writes on a memory image.

    A memory image is a `seq<byte>`. Reads outside the image yield zero: the reader maps 128 KB
    more than the file holds, and those pages read as zeros. */
module Bytes {

  type byte = b: int | 0 <= b < 256

  const INT_BOUND: int := 0x8000_0000
  const U32_BOUND: int := 0x1_0000_0000
  const U64_BOUND: int := 0x1_0000_0000_0000_0000
  const U64_MAX: int := U64_BOUND - 1

  function Pow256(n: nat): (r: nat)
    ensures r > 0
  {
    if n == 0 then 1 else 256 * Pow256(n - 1)
  }

  /** The number that the bytes `s` hold, least significant byte first. */
  function Load(s: seq<byte>): nat {
    if s == [] then 0 else s[0] + 256 * Load(s[1..])
  }

  /** The low `n` bytes of `v`, least significant byte first. */
  function Store(v: nat, n: nat): (s: seq<byte>)
    ensures |s| == n
  {
    if n == 0 then [] else [v % 256] + Store(v / 256, n - 1)
  }

  lemma {:induction false} LoadStore(v: nat, n: nat)
    requires v < Pow256(n)
    ensures Load(Store(v, n)) == v
  {
    if n > 0 {
      LoadStore(v / 256, n - 1);
    }
  }

  lemma {:induction false} StoreLoad(s: seq<byte>)
    ensures Load(s) < Pow256(|s|)
    ensures Store(Load(s), |s|) == s
  {
    if s != [] {
      StoreLoad(s[1..]);
      assert s == [s[0]] + s[1..];
      assert Load(s) % 256 == s[0] && Load(s) / 256 == Load(s[1..]);
    }
  }

  lemma {:induction false} WordSizes()
    ensures Pow256(4) == U32_BOUND
    ensures Pow256(8) == U64_BOUND
  {
    assert Pow256(1) == 256;
    assert Pow256(2) == 0x1_0000;
    assert Pow256(3) == 0x100_0000;
    assert Pow256(5) == 0x100_0000_0000;
    assert Pow256(6) == 0x1_0000_0000_0000;
    assert Pow256(7) == 0x100_0000_0000_0000;
  }

  /** `memset`. */
  function Fill(b: byte, n: nat): (s: seq<byte>)
    ensures |s| == n && forall i :: 0 <= i < n ==> s[i] == b
  {
    seq(n, i => b)
  }

  lemma {:induction false} LoadFill(b: byte, n: nat)
    requires b == 0 || b == 255
    ensures Load(Fill(b, n)) == if b == 0 then 0 else Pow256(n) - 1
  {
    if n > 0 {
      LoadFill(b, n - 1);
      assert Fill(b, n)[1..] == Fill(b, n - 1);
    }
  }

  function At(m: seq<byte>, p: int): byte {
    if 0 <= p < |m| then m[p] else 0
  }

  function Sub(m: seq<byte>, p: int, n: nat): (s: seq<byte>)
    ensures |s| == n && forall i :: 0 <= i < n ==> s[i] == At(m, p + i)
  {
    seq<byte>(n, i => At(m, p + i))
  }

  lemma {:induction false} SubIsSlice(m: seq<byte>, p: nat, n: nat)
    requires p + n <= |m|
    ensures Sub(m, p, n) == m[p..p + n]
  {
  }

  /** LOAD_TSC: the 64-bit number at `p`. */
  function TscAt(m: seq<byte>, p: int): (t: nat)
    ensures t < U64_BOUND
  {
    StoreLoad(Sub(m, p, 8));
    WordSizes();
    Load(Sub(m, p, 8))
  }

  function WordAt(m: seq<byte>, p: int): nat {
    Load(Sub(m, p, 4))
  }

  /** `memcpy`: the image `m` with `bs` written at `p`. */
  function Put(m: seq<byte>, p: nat, bs: seq<byte>): (r: seq<byte>)
    requires p + |bs| <= |m|
    ensures |r| == |m|
    ensures forall i :: 0 <= i < |m| ==> r[i] == if p <= i < p + |bs| then bs[i - p] else m[i]
  {
    m[..p] + bs + m[p + |bs|..]
  }

  lemma {:induction false} PutTwice(m: seq<byte>, p: nat, a: seq<byte>, b: seq<byte>)
    requires p + |a| + |b| <= |m|
    ensures Put(Put(m, p, a), p + |a|, b) == Put(m, p, a + b)
  {
  }

  lemma {:induction false} SliceParts(m: seq<byte>, p: nat, a: seq<byte>, b: seq<byte>)
    requires p + |a| + |b| <= |m|
    requires m[p..p + |a| + |b|] == a + b
    ensures m[p..p + |a|] == a
    ensures m[p + |a|..p + |a| + |b|] == b
  {
    assert m[p..p + |a|] == m[p..p + |a| + |b|][..|a|];
    assert m[p + |a|..p + |a| + |b|] == m[p..p + |a| + |b|][|a|..];
  }

  lemma {:induction false} SliceOfSlice<T>(s: seq<T>, lo: nat, hi: nat, a: nat, b: nat)
    requires lo <= a <= b <= hi <= |s|
    ensures s[lo..hi][a - lo..b - lo] == s[a..b]
  {
    var inner, outer := s[lo..hi][a - lo..b - lo], s[a..b];
    forall i | 0 <= i < b - a
      ensures inner[i] == outer[i]
    {
    }
  }

  lemma {:induction false} SameSlice(m: seq<byte>, m': seq<byte>, a: nat, b: nat)
    requires a <= b <= |m| == |m'|
    requires forall i :: a <= i < b ==> m'[i] == m[i]
    ensures m'[a..b] == m[a..b]
  {
  }

  lemma {:induction false} ZeroTsc(m: seq<byte>, p: nat)
    requires p + 8 <= |m| && m[p..p + 8] == Fill(0, 8)
    ensures TscAt(m, p) == 0
  {
    SubIsSlice(m, p, 8);
    LoadFill(0, 8);
  }

  lemma {:induction false} OnesTsc(m: seq<byte>, p: nat)
    requires p + 8 <= |m| && m[p..p + 8] == Fill(255, 8)
    ensures TscAt(m, p) == U64_MAX
  {
    SubIsSlice(m, p, 8);
    LoadFill(255, 8);
    WordSizes();
  }
}
