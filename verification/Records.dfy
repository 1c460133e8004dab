/** Records of a ring and how a sequence of them is laid out in memory. */
module Records {
  import opened Bytes
  import opened Codes

  /** A trace message as it was written: timestamp counter, message id, parameter bytes. */
  datatype Rec = Rec(tsc: nat, id: nat, params: seq<byte>)

  /** The keys of the message descriptors with a non-empty text, by message id: the ids for which
      `Messages::get` returns a formatter. */
  type Registry = map<nat, seq<Code>>

  /** `tsc(8) id(4) params`: what is in memory when `endMsg` is called. */
  function Body(r: Rec): (s: seq<byte>)
    ensures |s| == 12 + |r.params|
  {
    Store(r.tsc, 8) + Store(r.id, 4) + r.params
  }

  /** A complete record: the body and the length byte. */
  function Enc(r: Rec): (s: seq<byte>)
    ensures |s| == 13 + |r.params|
  {
    Body(r) + [(12 + |r.params|) % 256]
  }

  const MAX_RECORD: nat := 249

  /** The tail word before the records of a ring and the trailer behind them. */
  const HEADER: nat := 4
  const TRAILER: nat := 256

  /** The records this model is about: a clock value above zero and below UINT64_MAX, a registered
      id, parameters that fit the id's key, and a total size that the ring trailer can absorb. */
  ghost predicate RecOk(reg: Registry, r: Rec) {
    && 0 < r.tsc < U64_MAX
    && r.id < U32_BOUND
    && r.id in reg
    && Fits(reg[r.id], r.params)
    && 13 + |r.params| <= MAX_RECORD
  }

  ghost predicate RecsOk(reg: Registry, rs: seq<Rec>) {
    forall i {:trigger RecOk(reg, rs[i])} :: 0 <= i < |rs| ==> RecOk(reg, rs[i])
  }

  predicate Earlier(rs: seq<Rec>, i: nat, j: nat)
    requires i < |rs| && j < |rs|
  {
    rs[i].tsc < rs[j].tsc
  }

  /** The clock is strictly increasing along `rs`. */
  ghost predicate Increasing(rs: seq<Rec>) {
    forall i, j {:trigger Earlier(rs, i, j)} :: 0 <= i < j < |rs| ==> Earlier(rs, i, j)
  }

  /** The bytes of consecutive records. */
  function Lay(rs: seq<Rec>): seq<byte> {
    if rs == [] then [] else Lay(rs[..|rs| - 1]) + Enc(rs[|rs| - 1])
  }

  function Size(r: Rec): nat {
    13 + |r.params|
  }

  /** The offset of record `k`; `Off(rs, |rs|)` is the end of the last one. */
  function Off(rs: seq<Rec>, k: nat): nat
    requires k <= |rs|
  {
    if k == 0 then 0 else Off(rs, k - 1) + Size(rs[k - 1])
  }

  function End(rs: seq<Rec>): nat {
    Off(rs, |rs|)
  }

  lemma {:induction false} OffMono(rs: seq<Rec>, i: nat, j: nat)
    requires i <= j <= |rs|
    ensures Off(rs, i) + 13 * (j - i) <= Off(rs, j)
    decreases j
  {
    if i < j {
      OffMono(rs, i, j - 1);
    }
  }

  /** Offsets depend only on the records before them. */
  lemma {:induction false} OffPrefix(rs: seq<Rec>, more: seq<Rec>, k: nat)
    requires k <= |rs|
    ensures Off(rs + more, k) == Off(rs, k)
    decreases k
  {
    if k > 0 {
      OffPrefix(rs, more, k - 1);
    }
  }

  lemma {:induction false} EndSnoc(rs: seq<Rec>, r: Rec)
    ensures End(rs + [r]) == End(rs) + Size(r)
  {
    OffPrefix(rs, [r], |rs|);
  }

  lemma {:induction false} LayEmpty()
    ensures Lay([]) == [] && End([]) == 0
  {
  }

  lemma {:induction false} LaySnoc(rs: seq<Rec>, r: Rec)
    ensures Lay(rs + [r]) == Lay(rs) + Enc(r)
  {
    assert (rs + [r])[..|rs|] == rs;
  }

  lemma {:induction false} LaySize(rs: seq<Rec>)
    ensures |Lay(rs)| == End(rs)
    decreases |rs|
  {
    if rs != [] {
      var front, r := rs[..|rs| - 1], rs[|rs| - 1];
      assert rs == front + [r];
      LaySize(front);
      EndSnoc(front, r);
    }
  }

  /** Record `k` sits at its offset in the layout. */
  lemma {:induction false} LayAt(rs: seq<Rec>, k: nat)
    requires k < |rs|
    ensures Off(rs, k) + Size(rs[k]) == Off(rs, k + 1) <= End(rs) == |Lay(rs)|
    ensures Lay(rs)[Off(rs, k)..Off(rs, k + 1)] == Enc(rs[k])
    decreases |rs|
  {
    LaySize(rs);
    OffMono(rs, k + 1, |rs|);
    var front, r := rs[..|rs| - 1], rs[|rs| - 1];
    assert rs == front + [r];
    LaySize(front);
    if k < |front| {
      LayAt(front, k);
      OffPrefix(front, [r], k);
      OffPrefix(front, [r], k + 1);
      assert Lay(rs)[Off(rs, k)..Off(rs, k + 1)] == Lay(front)[Off(rs, k)..Off(rs, k + 1)];
    } else {
      OffPrefix(front, [r], k);
    }
  }

  /** Memory from `p` on holds record `r`. */
  ghost predicate Holds(m: seq<byte>, p: nat, r: Rec) {
    && p + 13 + |r.params| <= |m|
    && m[p..p + 13 + |r.params|] == Enc(r)
  }

  function IdAt(m: seq<byte>, p: int): nat {
    WordAt(m, p + 8)
  }

  lemma {:induction false} HeadBack(m: seq<byte>, p: nat, r: Rec)
    requires Holds(m, p, r) && r.tsc < U64_BOUND && r.id < U32_BOUND
    ensures TscAt(m, p) == r.tsc && IdAt(m, p) == r.id
    ensures m[p + 12..p + 12 + |r.params|] == r.params
    ensures At(m, p + 12 + |r.params|) == (12 + |r.params|) % 256
  {
    hide Load, Store;
    var n := |r.params|;
    var tsc, id := Store(r.tsc, 8), Store(r.id, 4);
    SliceParts(m, p, Body(r), [(12 + n) % 256]);
    SliceParts(m, p, tsc + id, r.params);
    SliceParts(m, p, tsc, id);
    SubIsSlice(m, p, 8);
    SubIsSlice(m, p + 8, 4);
    WordSizes();
    LoadStore(r.tsc, 8);
    LoadStore(r.id, 4);
    assert m[p + 12 + n] == m[p + 12 + n..p + 13 + n][0];
  }

  /** Reading a record back: timestamp, id, decoded length and length byte are those written. */
  lemma {:induction false} ReadBack(reg: Registry, m: seq<byte>, p: nat, r: Rec)
    requires Holds(m, p, r) && RecOk(reg, r)
    ensures TscAt(m, p) == r.tsc
    ensures IdAt(m, p) == r.id
    ensures Length(reg[r.id], m, p + 12) == |r.params|
    ensures At(m, p + 12 + |r.params|) == 12 + |r.params|
    ensures Sub(m, p + 12, |r.params|) == r.params
  {
    hide Load, Store, TscAt, IdAt, Length, Enc;
    var n := |r.params|;
    HeadBack(m, p, r);
    SubIsSlice(m, p + 12, n);
    SubIsSlice(r.params, 0, n);
    assert r.params[0..n] == r.params;
    LengthLocal(reg[r.id], r.params, 0, m, p + 12, n);
  }

  /** Memory from `p` on holds the records `rs`, at least in the bytes from `lim` on. */
  ghost predicate Intact(m: seq<byte>, p: nat, rs: seq<Rec>, lim: nat) {
    && |Lay(rs)| == End(rs)
    && p + End(rs) <= |m|
    && (p <= lim <= p + End(rs) ==> m[lim..p + End(rs)] == Lay(rs)[lim - p..])
  }

  lemma {:induction false} IntactHolds(m: seq<byte>, p: nat, rs: seq<Rec>, lim: nat, k: nat)
    requires k < |rs| && p <= lim && Intact(m, p, rs, lim)
    requires lim <= p + Off(rs, k)
    ensures Holds(m, p + Off(rs, k), rs[k])
  {
    hide Lay, Enc, Off;
    LayAt(rs, k);
    var a, b, n := Off(rs, k), Off(rs, k + 1), End(rs);
    SliceOfSlice(m, lim, p + n, p + a, p + b);
    SliceOfSlice(Lay(rs), lim - p, n, a, b);
    assert Lay(rs)[lim - p..n] == Lay(rs)[lim - p..];
  }

  /** The length byte of a record whose start may be overwritten. */
  lemma {:induction false} IntactLengthByte(m: seq<byte>, p: nat, rs: seq<Rec>, lim: nat, k: nat, reg: Registry)
    requires k < |rs| && p <= lim && Intact(m, p, rs, lim)
    requires lim < p + Off(rs, k + 1)
    requires RecOk(reg, rs[k])
    ensures At(m, p + Off(rs, k + 1) - 1) == 12 + |rs[k].params|
  {
    LayAt(rs, k);
    var q, n := Off(rs, k + 1) - 1, End(rs);
    assert m[p + q] == m[lim..p + n][p + q - lim];
    assert Lay(rs)[q] == Lay(rs)[lim - p..][p + q - lim];
    assert Lay(rs)[Off(rs, k)..Off(rs, k + 1)][q - Off(rs, k)] == Lay(rs)[q];
  }
}
