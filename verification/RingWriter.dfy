/** `RingBuf`: the writer of one ring, working in place on the shared trace file memory. Each
    method is tied to the value-level operations of `RingState`. */
module RingWriter {
  import opened Bytes
  import opened Codes
  import opened Wrappers
  import opened Records
  import opened RingState

  method MemCpy(mem: array<byte>, p: nat, bs: seq<byte>)
    requires p + |bs| <= mem.Length
    modifies mem
    ensures mem[..] == Put(old(mem[..]), p, bs)
  {
    forall i | 0 <= i < |bs| {
      mem[p + i] := bs[i];
    }
  }

  /** The loop of `putWithMaxLen`. */
  method CopyString(mem: array<byte>, p: nat, x: seq<byte>, maxLen: nat) returns (i: nat)
    requires p + |CutString(x, maxLen)| <= mem.Length
    modifies mem
    ensures i == |CutString(x, maxLen)|
    ensures mem[..] == Put(old(mem[..]), p, CutString(x, maxLen))
  {
    ghost var t := CutString(x, maxLen);
    CutStringIs(x, maxLen);
    i := 0;
    while i < maxLen && i < |x| && x[i] != 0
      invariant i <= |t|
      invariant mem[..] == Put(old(mem[..]), p, t[..i])
    {
      mem[p + i] := x[i];
      PutNext(old(mem[..]), p, t, i);
      i := i + 1;
    }
    assert t[..i] == t;
  }

  /** `MsgCounter`: the hit count and the last-use time, whose top bit switches the message off. */
  datatype Counter = Counter(count: nat, lastTsc: nat)
  {
    predicate Off() {
      lastTsc / 0x8000_0000 % 2 == 1
    }
  }

  /** `updateLastTsc`. */
  function UpdateLastTsc(lastTsc: nat, tsc: nat): (t: nat)
    requires lastTsc < U32_BOUND && tsc < U64_BOUND
    ensures t < U32_BOUND
    ensures Counter(0, t).Off() <==> Counter(0, lastTsc).Off()
    ensures t % 0x8000_0000 == tsc / 0x1000_0000 % 0x8000_0000
  {
    tsc / 0x1000_0000 % 0x8000_0000 + if lastTsc >= 0x8000_0000 then 0x8000_0000 else 0
  }

  function Hit(c: Counter, tsc: nat): Counter
    requires c.lastTsc < U32_BOUND && tsc < U64_BOUND
  {
    Counter((c.count + 1) % U32_BOUND, UpdateLastTsc(c.lastTsc, tsc))
  }

  /** A counter after the statements executed at the times `tscs`. */
  function Hits(c: Counter, tscs: seq<nat>): (r: Counter)
    requires c.lastTsc < U32_BOUND && forall i :: 0 <= i < |tscs| ==> tscs[i] < U64_BOUND
    ensures r.lastTsc < U32_BOUND
  {
    if tscs == [] then c else Hit(Hits(c, tscs[..|tscs| - 1]), tscs[|tscs| - 1])
  }

  /** A counter counts the statements, modulo 2^32, keeps its off bit, and has the time of the last one. */
  lemma {:induction false} HitsCounted(c: Counter, tscs: seq<nat>)
    requires c.lastTsc < U32_BOUND && forall i :: 0 <= i < |tscs| ==> tscs[i] < U64_BOUND
    ensures var r := Hits(c, tscs);
      && r.count % U32_BOUND == (c.count + |tscs|) % U32_BOUND
      && (r.Off() <==> c.Off())
      && (tscs != [] ==> r.lastTsc % 0x8000_0000 == tscs[|tscs| - 1] / 0x1000_0000 % 0x8000_0000)
    decreases |tscs|
  {
    hide UpdateLastTsc, Counter.Off;
    if tscs != [] {
      var front, last := tscs[..|tscs| - 1], tscs[|tscs| - 1];
      HitsCounted(c, front);
      var f := Hits(c, front);
      OffOnly(f.count, f.lastTsc);
      OffOnly((f.count + 1) % U32_BOUND, UpdateLastTsc(f.lastTsc, last));
      OneMoreHit(f.count, c.count + |front|);
    }
  }

  lemma {:induction false} OneMoreHit(a: nat, b: nat)
    requires a % U32_BOUND == b % U32_BOUND
    ensures (a + 1) % U32_BOUND % U32_BOUND == (b + 1) % U32_BOUND
  {
    assert (a + 1) % U32_BOUND == (a % U32_BOUND + 1) % U32_BOUND;
    assert (b + 1) % U32_BOUND == (b % U32_BOUND + 1) % U32_BOUND;
  }

  lemma {:induction false} OffOnly(count: nat, lastTsc: nat)
    ensures Counter(count, lastTsc).Off() <==> Counter(0, lastTsc).Off()
  {
  }

  class RingBuf {
    const mem: array<byte>
    const counters: array<Counter>
    var buf: nat
    var bufEnd: nat
    var ptr: nat
    var msgStart: Option<nat>

    ghost function View(): Ring
      reads this, mem
    {
      Ring(mem[..], buf, bufEnd, ptr)
    }

    ghost predicate Valid()
      reads this, mem, counters
    {
      && View().Ready()
      && counters.Length > 0
      && (forall i :: 0 <= i < counters.Length ==> counters[i].lastTsc < U32_BOUND)
    }

    /** Inside an enabled message: started in the usable area, room for the length byte left. */
    ghost predicate InMessage()
      reads this, mem
    {
      && msgStart.Some?
      && buf + HEADER <= msgStart.value < bufEnd
      && msgStart.value + 12 <= ptr < msgStart.value + MAX_RECORD
    }

    constructor (mem: array<byte>, counters: array<Counter>)
      ensures this.mem == mem && this.counters == counters && msgStart == None
    {
      this.mem, this.counters := mem, counters;
      buf, bufEnd, ptr, msgStart := 0, 0, 0, None;
    }

    /** `bufIs`: give the ring its region of `size` bytes and mark it empty. */
    method BufIs(base: nat, size: nat)
      requires MIN_RING <= size && base + size <= mem.Length && size < INT_BOUND
      modifies `buf, `bufEnd, `ptr, mem
      ensures View() == RingState.BufIs(old(mem[..]), base, size) && View().Ready()
    {
      hide Store, Put, Fill;
      buf, bufEnd := base, base + size - TRAILER;
      MemCpy(mem, bufEnd, Fill(255, TRAILER));
      ptr := buf;
      DoWrap();
      MemCpy(mem, ptr, Fill(0, 8));
    }

    method DoWrap()
      requires View().Placed() && buf <= ptr <= bufEnd + MAX_RECORD - 1
      modifies `ptr, mem
      ensures View() == RingState.DoWrap(old(View()))
    {
      MemCpy(mem, ptr, Fill(255, 8));
      MemCpy(mem, buf, Store(ptr - buf, 4));
      ptr := buf + HEADER;
    }

    method MaybeWrap()
      requires Valid()
      modifies `ptr, mem
      ensures Valid() && View() == RingState.MaybeWrap(old(View()))
    {
      if ptr >= bufEnd {
        DoWrap();
      }
    }

    method StartMsg(tsc: nat, id: nat)
      requires Valid() && mem as object != counters && tsc < U64_BOUND
      modifies `ptr, `msgStart, mem, counters
      ensures Valid()
      ensures var i := id % counters.Length;
        counters[..] == old(counters[..])[i := Hit(old(counters[i]), tsc)]
      ensures var w := RingState.MaybeWrap(old(View()));
        if old(counters[id % counters.Length]).Off() then View() == w && msgStart == None
        else
          && View() == w.(m := Put(w.m, w.ptr, Store(tsc, 8) + Store(id, 4)), ptr := w.ptr + 12)
          && msgStart == Some(w.ptr) && InMessage()
    {
      hide Store, Put, Fill, RingState.MaybeWrap;
      var i := id % counters.Length;
      MaybeWrap();
      ghost var w := View();
      if counters[i].lastTsc >= 0x8000_0000 {
        msgStart := None;
      } else {
        msgStart := Some(ptr);
        MemCpy(mem, ptr, Store(tsc, 8));
        ptr := ptr + 8;
        MemCpy(mem, ptr, Store(id, 4));
        ptr := ptr + 4;
        PutTwice(w.m, w.ptr, Store(tsc, 8), Store(id, 4));
      }
      counters[i] := Hit(counters[i], tsc);
    }

    /** `push`, as the `put` overloads reach it through `operator<<`. */
    method Push(bs: seq<byte>)
      requires Valid() && InMessage() && ptr + |bs| < msgStart.value + MAX_RECORD
      modifies `ptr, mem
      ensures Valid() && InMessage()
      ensures View() == old(View()).(m := Put(old(mem[..]), old(ptr), bs), ptr := old(ptr) + |bs|)
    {
      MemCpy(mem, ptr, bs);
      ptr := ptr + |bs|;
    }

    /** `putWithMaxLen`: a length byte and the characters of the C string `x` (whose terminating
        NUL follows its last byte), copied one by one up to the first NUL or `maxLen`. */
    method PutWithMaxLen(x: seq<byte>, maxLen: nat)
      requires Valid() && InMessage() && maxLen < 256
      requires ptr + 1 + |CutString(x, maxLen)| < msgStart.value + MAX_RECORD
      modifies `ptr, mem
      ensures Valid() && InMessage()
      ensures var t := CutString(x, maxLen);
        View() == old(View()).(m := Put(old(mem[..]), old(ptr), [|t|] + t), ptr := old(ptr) + 1 + |t|)
    {
      hide CutString, Put;
      ghost var t := CutString(x, maxLen);
      var n := CopyString(mem, ptr + 1, x, maxLen);
      mem[ptr] := n;
      PutBefore(old(mem[..]), ptr, n, t);
      ptr := ptr + 1 + n;
    }

    /** The `put` overload of a basic type. */
    method PutBasic(b: Basic, v: Value, maxLen: nat)
      requires Valid() && InMessage() && BasicOk(b, v) && maxLen < 256
      requires ptr + |EncodeBasic(b, v, maxLen)| < msgStart.value + MAX_RECORD
      modifies `ptr, mem
      ensures Valid() && InMessage()
      ensures var bs := EncodeBasic(b, v, maxLen);
        View() == old(View()).(m := Put(old(mem[..]), old(ptr), bs), ptr := old(ptr) + |bs|)
    {
      hide Store, CutString, Put;
      match v {
        case Number(_, n) => Push(Store(n, FixedWidth(b)));
        case Text(s) => PutWithMaxLen(s, maxLen);
      }
    }

    /** `put` of one argument. */
    method PutArg(a: Arg, maxLen: nat)
      requires Valid() && InMessage() && ArgOk(a) && maxLen < 256
      requires ptr + |Encode(a, maxLen)| < msgStart.value + MAX_RECORD
      modifies `ptr, mem
      ensures Valid() && InMessage()
      ensures var bs := Encode(a, maxLen);
        View() == old(View()).(m := Put(old(mem[..]), old(ptr), bs), ptr := old(ptr) + |bs|)
    {
      hide EncodeBasic, BasicOk, Put;
      match a.code {
        case Plain(b) =>
          PutBasic(b, a.value.value, maxLen);
        case Opt(b) =>
          if a.value.None? {
            Push([0]);
          } else {
            Push([1]);
            PutBasic(b, a.value.value, maxLen);
            PutTwice(old(mem[..]), old(ptr), [1], EncodeBasic(b, a.value.value, maxLen));
          }
      }
    }

    method EndMsg()
      requires Valid() && (msgStart.Some? ==> InMessage())
      modifies `ptr, mem
      ensures Valid()
      ensures View() ==
        if msgStart == None then old(View())
        else
          var n := old(ptr) - msgStart.value;
          Ring(Put(Put(old(mem[..]), old(ptr), [n]), old(ptr) + 1, Fill(0, 8)), buf, bufEnd, old(ptr) + 1)
    {
      if msgStart.Some? {
        MemCpy(mem, ptr, [(ptr - msgStart.value) % 256]);
        ptr := ptr + 1;
        MemCpy(mem, ptr, Fill(0, 8));
      }
    }

    /** One trace statement: `startMsg`, `<<` of every argument, `endMsg`. Its effect on the ring
        is one event of the run that `RingState` is about. */
    method Trace(tsc: nat, id: nat, args: seq<Arg>, maxLen: nat)
      requires Valid() && mem as object != counters && tsc < U64_BOUND
      requires ArgsOk(args) && maxLen < 256 && 13 + |EncodeAll(args, maxLen)| <= MAX_RECORD
      modifies `ptr, `msgStart, mem, counters
      ensures Valid()
      ensures var i := id % counters.Length;
        counters[..] == old(counters[..])[i := Hit(old(counters[i]), tsc)]
      ensures View() == Step(old(View()),
        if old(counters[id % counters.Length]).Off() then Disabled
        else Event.Trace(Rec(tsc, id, EncodeAll(args, maxLen))))
    {
      hide EncodeAll, Store, Enc, Put, Fill, Hit;
      ghost var w := RingState.MaybeWrap(View());
      StartMsg(tsc, id);
      if msgStart.Some? {
        PutArgs(args, maxLen);
        PiecesMakeRecord(w, Rec(tsc, id, EncodeAll(args, maxLen)));
      }
      EndMsg();
    }

    method PutArgs(args: seq<Arg>, maxLen: nat)
      requires Valid() && InMessage() && ArgsOk(args) && maxLen < 256
      requires ptr + |EncodeAll(args, maxLen)| < msgStart.value + MAX_RECORD
      modifies `ptr, mem
      ensures Valid() && InMessage()
      ensures var bs := EncodeAll(args, maxLen);
        View() == old(View()).(m := Put(old(mem[..]), old(ptr), bs), ptr := old(ptr) + |bs|)
    {
      hide EncodeAll, Encode, Put, ArgOk;
      var i := 0;
      NoArgs(old(mem[..]), old(ptr), maxLen);
      assert args[..0] == [];
      while i < |args|
        invariant i <= |args| && Valid() && InMessage()
        invariant |EncodeAll(args[..i], maxLen)| <= |EncodeAll(args, maxLen)|
        invariant var done := EncodeAll(args[..i], maxLen);
          View() == old(View()).(m := Put(old(mem[..]), old(ptr), done), ptr := old(ptr) + |done|)
      {
        EncodeSnoc(args, i, maxLen);
        PutArg(args[i], maxLen);
        PutTwice(old(mem[..]), old(ptr), EncodeAll(args[..i], maxLen), Encode(args[i], maxLen));
        i := i + 1;
      }
      assert args[..i] == args;
    }
  }

  lemma {:induction false} NoArgs(m: seq<byte>, p: nat, maxLen: nat)
    requires p <= |m| && maxLen < 256
    ensures EncodeAll([], maxLen) == [] && Put(m, p, []) == m
  {
  }

  lemma {:induction false} PutNext(m: seq<byte>, p: nat, t: seq<byte>, i: nat)
    requires i < |t| && p + |t| <= |m|
    ensures Put(m, p, t[..i])[p + i := t[i]] == Put(m, p, t[..i + 1])
  {
  }

  lemma {:induction false} PutBefore(m: seq<byte>, p: nat, b: byte, t: seq<byte>)
    requires p + 1 + |t| <= |m|
    ensures Put(m, p + 1, t)[p := b] == Put(m, p, [b] + t)
  {
  }

  /** Head, parameters, length byte and zero tsc, written one after the other, are the record. */
  lemma {:induction false} PiecesMakeRecord(w: Ring, r: Rec)
    requires w.Ready() && w.ptr < w.bufEnd && 13 + |r.params| <= MAX_RECORD
    ensures var m1 := Put(w.m, w.ptr, Store(r.tsc, 8) + Store(r.id, 4));
      var m2 := Put(m1, w.ptr + 12, r.params);
      var n := 12 + |r.params|;
      Put(Put(m2, w.ptr + n, [n]), w.ptr + n + 1, Fill(0, 8)) == WriteMsg(w, r).m
  {
    hide Put, Store, Fill;
    var head, n := Store(r.tsc, 8) + Store(r.id, 4), 12 + |r.params|;
    PutTwice(w.m, w.ptr, head, r.params);
    PutTwice(w.m, w.ptr, Body(r), [n]);
  }

  /** Which prefix of a C string survives: the loop of `putWithMaxLen` stops at its end. */
  lemma {:induction false} CutStringIs(x: seq<byte>, maxLen: nat)
    ensures var t := CutString(x, maxLen);
      && (forall i :: 0 <= i < |t| ==> i < maxLen && i < |x| && x[i] != 0 && t[i] == x[i])
      && !(|t| < maxLen && |t| < |x| && x[|t|] != 0)
    decreases |x|
  {
    if x != [] && x[0] != 0 && maxLen > 0 {
      CutStringIs(x[1..], maxLen - 1);
    }
  }

  lemma {:induction false} EncodeStep(a: seq<Arg>, maxLen: nat)
    requires ArgsOk(a) && maxLen < 256 && a != []
    ensures EncodeAll(a, maxLen) == Encode(a[0], maxLen) + EncodeAll(a[1..], maxLen)
  {
  }

  lemma {:induction false} EncodeConcat(a: seq<Arg>, b: seq<Arg>, maxLen: nat)
    requires ArgsOk(a) && ArgsOk(b) && ArgsOk(a + b) && maxLen < 256
    ensures EncodeAll(a + b, maxLen) == EncodeAll(a, maxLen) + EncodeAll(b, maxLen)
    decreases |a|
  {
    hide EncodeAll, Encode, ArgOk;
    if a == [] {
      NoArgs([], 0, maxLen);
      assert a + b == b;
    } else {
      assert (a + b)[1..] == a[1..] + b;
      EncodeConcat(a[1..], b, maxLen);
      EncodeStep(a, maxLen);
      EncodeStep(a + b, maxLen);
    }
  }

  lemma {:induction false} EncodeSnoc(args: seq<Arg>, i: nat, maxLen: nat)
    requires ArgsOk(args) && maxLen < 256 && i < |args|
    ensures EncodeAll(args[..i + 1], maxLen) == EncodeAll(args[..i], maxLen) + Encode(args[i], maxLen)
    ensures EncodeAll(args[i..], maxLen) == Encode(args[i], maxLen) + EncodeAll(args[i + 1..], maxLen)
    ensures EncodeAll(args[..i + 1], maxLen) + EncodeAll(args[i + 1..], maxLen) == EncodeAll(args, maxLen)
  {
    assert args[..i + 1] == args[..i] + [args[i]];
    EncodeConcat(args[..i], [args[i]], maxLen);
    assert EncodeAll([args[i]], maxLen) == Encode(args[i], maxLen);
    assert args == args[..i + 1] + args[i + 1..];
    EncodeConcat(args[..i + 1], args[i + 1..], maxLen);
  }
}
