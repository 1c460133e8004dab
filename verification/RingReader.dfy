/** `RingBuffer` of qttail: the reader of one ring. The operations are functions of a memory image
    and the reader's fields; the class at the end works on the shared memory and is tied to them. */
module RingReader {
  import opened Bytes
  import opened Codes
  import opened Wrappers
  import opened Records

  /** Number of failed decodes of one message after which the ring is deemed corrupt. */
  const THRESHOLD: nat := 1024

  datatype Reader = Reader(start: nat, end: nat, cur: nat, lastTsc: nat, corruption: nat)

  /** The constructor, for a ring region `base .. base + size`. */
  function NewReader(base: nat, size: nat): Reader
    requires size >= TRAILER
  {
    Reader(base + HEADER, base + size - TRAILER, base + HEADER, 0, 0)
  }

  /** `next`: no message, a message with its decoded parameter length, or a CorruptionError. */
  datatype Found = Nothing | Msg(tsc: nat, id: nat, len: nat) | Corrupt

  function NextTsc(m: seq<byte>, s: Reader): (t: nat)
    ensures t < U64_BOUND
  {
    var tsc := TscAt(m, s.cur);
    if s.cur == s.start && tsc < s.lastTsc then 0 else tsc
  }

  predicate IsValidTsc(s: Reader, tsc: nat, curTsc: nat) {
    tsc > 0 && tsc >= s.lastTsc && tsc < curTsc
  }

  function Suspicious(s: Reader): Found {
    if s.corruption >= THRESHOLD then Corrupt else Nothing
  }

  function Next(m: seq<byte>, reg: Registry, s: Reader, curTsc: nat, tail: bool): Found {
    var tsc := NextTsc(m, s);
    if tsc == 0 then Nothing
    else if !IsValidTsc(s, tsc, curTsc) then Suspicious(s)
    else
      var id := IdAt(m, s.cur);
      if id !in reg then Suspicious(s)
      else
        var len := Length(reg[id], m, s.cur + 12);
        if At(m, s.cur + 12 + len) != len + 12 then Suspicious(s)
        else if FollowerOk(m, s.start, s.end, tsc, s.cur + 13 + len, curTsc, tail) then Msg(tsc, id, len)
        else Suspicious(s)
  }

  /** The check of the timestamp at `q`, just after the message with timestamp `tsc`. */
  predicate FollowerOk(m: seq<byte>, start: nat, end: nat, tsc: nat, q: nat, curTsc: nat, tail: bool) {
    var at := TscAt(m, q);
    if at != 0 && q >= end && at != U64_MAX then false
    else
      var nextTsc := if at != 0 && q >= end then (if tail then TscAt(m, start) else 0) else at;
      nextTsc == 0 || tsc <= nextTsc <= curTsc
  }

  // ------------------------------------------------------------------- dump

  /** What `dump` does: prints the message, asks for another round of ring selection, finds
      nothing, or throws. */
  datatype Outcome = Printed(rec: Rec) | Retry | NoMessage | Failed

  function WrapCursor(s: Reader, cur: nat): nat {
    if cur >= s.end then s.start else cur
  }

  function Dump(m: seq<byte>, reg: Registry, s: Reader, orderTsc: nat, curTsc: nat, tail: bool): (Reader, Outcome) {
    match Next(m, reg, s, curTsc, tail)
    case Corrupt => (s, Failed)
    case Nothing => (s.(corruption := (s.corruption + 1) % U32_BOUND), NoMessage)
    case Msg(tsc, id, len) =>
      if tsc != orderTsc then (s.(corruption := (s.corruption + 1) % U32_BOUND), Retry)
      else
        (s.(cur := WrapCursor(s, s.cur + 13 + len), lastTsc := tsc, corruption := 0),
         Printed(Rec(tsc, id, Sub(m, s.cur + 12, len))))
  }

  /** `reset`, after a CorruptionError in tailing mode. */
  function Reset(s: Reader): Reader {
    if s.cur == s.start then s
    else s.(corruption := 0, cur := s.start, lastTsc := (s.lastTsc + 1) % U64_BOUND)
  }

  /** `tailBuffer`: `dump`, and in tailing mode `reset` when it throws. */
  function DumpOrReset(m: seq<byte>, reg: Registry, s: Reader, orderTsc: nat, curTsc: nat, tail: bool)
    : (Reader, Outcome)
  {
    var (r, o) := Dump(m, reg, s, orderTsc, curTsc, tail);
    (if o.Failed? && tail then Reset(r) else r, o)
  }

  // ---------------------------------------------------- skip and fastforward

  function Advance(s: Reader, f: Found): Reader
    requires f.Msg?
  {
    s.(cur := s.cur + 13 + f.len, lastTsc := f.tsc)
  }

  /** The timestamp of a message is in memory. */
  lemma {:induction false} FoundInside(m: seq<byte>, reg: Registry, s: Reader, curTsc: nat, tail: bool)
    requires Next(m, reg, s, curTsc, tail).Msg?
    ensures s.cur < |m|
  {
    if s.cur >= |m| {
      assert Sub(m, s.cur, 8) == Fill(0, 8);
      LoadFill(0, 8);
    }
  }

  /** The length of a message is what its formatter decodes, and its length byte agrees. */
  lemma {:induction false} FoundLength(m: seq<byte>, reg: Registry, s: Reader, curTsc: nat, tail: bool)
    requires Next(m, reg, s, curTsc, tail).Msg?
    ensures var f := Next(m, reg, s, curTsc, tail);
      f.id in reg && f.len == Length(reg[f.id], m, s.cur + 12) && At(m, s.cur + 12 + f.len) == f.len + 12
  {
    hide Length, FollowerOk;
  }

  /** The loop of `fastforward`: `skip` while there are messages. */
  function SkipAll(m: seq<byte>, reg: Registry, s: Reader, tail: bool): Reader
    decreases if s.cur < |m| then |m| - s.cur else 0
  {
    var f := Next(m, reg, s, U64_MAX, tail);
    if f.Msg? then
      FoundInside(m, reg, s, U64_MAX, tail);
      SkipAll(m, reg, Advance(s, f), tail)
    else s
  }

  function FastForward(m: seq<byte>, reg: Registry, s: Reader, tail: bool): Reader {
    var t := SkipAll(m, reg, s, tail);
    t.(cur := WrapCursor(t, t.cur))
  }

  // ----------------------------------------------------------------- rewind

  /** The forward loop of `rewind`; `None` when it met corruption. */
  function Forward(m: seq<byte>, reg: Registry, s: Reader, tail: bool): Option<Reader>
    decreases if s.cur < s.end then s.end - s.cur else 0
  {
    if s.cur >= s.end then Some(s)
    else
      match Next(m, reg, s, U64_MAX, tail)
      case Corrupt => None
      case Nothing => Some(s)
      case Msg(tsc, id, len) => Forward(m, reg, s.(cur := s.cur + 13 + len, lastTsc := tsc), tail)
  }

  /** State of the backward loop: position, cursor, number of steps. */
  datatype Walk = Walk(p: int, cur: nat, moved: nat)

  function Backward(m: seq<byte>, w: Walk, split: nat): Walk
    decreases if w.p > split then w.p - split else 0
  {
    if w.p <= split then w
    else Backward(m, Walk(w.p - 1 - At(m, w.p - 1), w.p, w.moved + 1), split)
  }

  /** Where `rewind` puts the cursor once the current lap is known to end at `s.cur`. */
  function SplitCursor(m: seq<byte>, s: Reader, e: nat): nat {
    var split := s.cur + 8;
    var p := s.start - 4 + e;
    if p <= split then s.start
    else
      var w := Backward(m, Walk(p, s.cur, 0), split);
      if w.p < split && w.moved == 1 then s.start else w.cur
  }

  /** `rewind`; `None` when the file changed while reading. */
  function Rewind(m: seq<byte>, reg: Registry, s: Reader, tail: bool): Option<Reader>
    requires s.start >= 4
  {
    var s1 := s.(corruption := THRESHOLD);
    var e := WordAt(m, s.start - 4);
    if e == 0 then Some(s1.(lastTsc := TscAt(m, s1.cur), corruption := 0))
    else
      match Forward(m, reg, s1, tail)
      case None => None
      case Some(s2) =>
        var cur := SplitCursor(m, s2, e);
        Some(s2.(cur := cur, lastTsc := TscAt(m, cur), corruption := 0))
  }

  // -------------------------------------------------------------- the class

  class RingBuffer {
    const mem: array<byte>
    const start: nat
    const end: nat
    var cur: nat
    var lastTsc: nat
    var corruption: nat

    function State(): Reader
      reads this
    {
      Reader(start, end, cur, lastTsc, corruption)
    }

    constructor (mem: array<byte>, base: nat, size: nat)
      requires size >= TRAILER
      ensures this.mem == mem && State() == NewReader(base, size)
    {
      this.mem := mem;
      start, end, cur := base + HEADER, base + size - TRAILER, base + HEADER;
      lastTsc, corruption := 0, 0;
    }

    function Peek(): nat
      reads this, mem
    {
      NextTsc(mem[..], State())
    }

    /** `dump`. The two checks that follow the decode in the source cannot fail on unchanging
        memory, because formatting a message takes as many bytes as `length` said. */
    method Print(reg: Registry, orderTsc: nat, curTsc: nat, tail: bool) returns (o: Outcome)
      modifies this
      ensures (State(), o) == Dump(mem[..], reg, old(State()), orderTsc, curTsc, tail)
      ensures o.Printed? ==> o.rec.tsc == orderTsc
      ensures !o.Printed? ==> cur == old(cur) && lastTsc == old(lastTsc)
    {
      hide Next, Length, Sub;
      var f := Next(mem[..], reg, State(), curTsc, tail);
      match f {
        case Corrupt => o := Failed;
        case Nothing =>
          corruption := (corruption + 1) % U32_BOUND;
          o := NoMessage;
        case Msg(tsc, id, len) =>
          if tsc != orderTsc {
            corruption := (corruption + 1) % U32_BOUND;
            o := Retry;
          } else {
            FoundLength(mem[..], reg, State(), curTsc, tail);
            var n := Length(reg[id], mem[..], cur + 12);
            assert At(mem[..], cur + n + 12) == n + 12;
            o := Printed(Rec(tsc, id, Sub(mem[..], cur + 12, n)));
            cur := cur + 13 + n;
            if cur >= end {
              cur := start;
            }
            lastTsc := tsc;
            corruption := 0;
          }
      }
    }

    method ResetCursor() returns (done: bool)
      modifies this
      ensures State() == Reset(old(State())) && done == (old(cur) != start)
    {
      if cur == start {
        return false;
      }
      corruption := 0;
      cur := start;
      lastTsc := (lastTsc + 1) % U64_BOUND;
      done := true;
    }

    method SkipOne(reg: Registry, tail: bool) returns (more: bool)
      requires corruption < THRESHOLD
      modifies `cur, `lastTsc
      ensures var f := Next(mem[..], reg, old(State()), U64_MAX, tail);
        more == f.Msg? && State() == if f.Msg? then Advance(old(State()), f) else old(State())
      ensures more ==> old(cur) < mem.Length
    {
      var f := Next(mem[..], reg, State(), U64_MAX, tail);
      if f.Msg? {
        FoundInside(mem[..], reg, State(), U64_MAX, tail);
        cur := cur + 13 + f.len;
        lastTsc := f.tsc;
      }
      more := f.Msg?;
    }

    method SkipToEnd(reg: Registry, tail: bool)
      requires corruption < THRESHOLD
      modifies `cur, `lastTsc
      ensures State() == FastForward(mem[..], reg, old(State()), tail)
    {
      ghost var goal := SkipAll(mem[..], reg, State(), tail);
      var more := true;
      while more
        invariant SkipAll(mem[..], reg, State(), tail) == goal
        invariant !more ==> State() == goal
        decreases more, if cur < mem.Length then mem.Length - cur else 0
      {
        more := SkipOne(reg, tail);
      }
      if cur >= end {
        cur := start;
      }
    }

    /** `rewind`: false when the file changed while reading. */
    method GoToFirst(reg: Registry, tail: bool) returns (ok: bool)
      requires start >= 4
      modifies this
      ensures ok == Rewind(mem[..], reg, old(State()), tail).Some?
      ensures ok ==> State() == Rewind(mem[..], reg, old(State()), tail).value
    {
      corruption := THRESHOLD;
      var e := WordAt(mem[..], start - 4);
      if e != 0 {
        ok := WalkForward(reg, tail);
        if !ok {
          return;
        }
        WalkBack(e);
      }
      lastTsc := TscAt(mem[..], cur);
      corruption := 0;
      ok := true;
    }

    /** The first half of `rewind`: over the current lap to the point of the last write. */
    method WalkForward(reg: Registry, tail: bool) returns (ok: bool)
      modifies `cur, `lastTsc
      ensures var r := Forward(mem[..], reg, old(State()), tail);
        ok == r.Some? && (ok ==> State() == r.value)
    {
      hide Next;
      ghost var goal := Forward(mem[..], reg, State(), tail);
      var more := true;
      while more && cur < end
        invariant more ==> Forward(mem[..], reg, State(), tail) == goal
        invariant !more ==> goal == Some(State())
        decreases more, if cur < end then end - cur else 0
      {
        var f := Next(mem[..], reg, State(), U64_MAX, tail);
        if f.Corrupt? {
          return false;
        }
        if f.Msg? {
          cur := cur + 13 + f.len;
          lastTsc := f.tsc;
        }
        more := f.Msg?;
      }
      ok := true;
    }

    /** The second half of `rewind`: the walk over the trailing length bytes. */
    method WalkBack(e: nat)
      requires start >= 4
      modifies `cur
      ensures cur == SplitCursor(mem[..], old(State()), e)
    {
      var splitPoint := cur + 8;
      var p: int := start - 4 + e;
      if p <= splitPoint {
        cur := start;
      } else {
        ghost var goal := Backward(mem[..], Walk(p, cur, 0), splitPoint);
        var moved := 0;
        while p > splitPoint
          invariant Backward(mem[..], Walk(p, cur, moved), splitPoint) == goal
          invariant moved >= 0
        {
          moved := moved + 1;
          cur := p;
          p := p - (1 + At(mem[..], p - 1));
        }
        if p < splitPoint && moved == 1 {
          cur := start;
        }
      }
    }
  }
}
