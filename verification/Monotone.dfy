/** The order of what one `RingBuffer` prints, whatever the bytes: memory, descriptors and clock may
    change arbitrarily between calls, corrupt data included. */
module Monotone {
  import opened Bytes
  import opened Codes
  import opened Records
  import opened RingReader

  /** One call by `tailBuffer`: a dump of the memory as it is at that moment, or a reset. */
  datatype Call = DumpCall(m: seq<byte>, reg: Registry, orderTsc: nat, curTsc: nat, tail: bool) | ResetCall

  /** The reader, the timestamps printed before the last reset, and those printed since. */
  datatype Log = Log(s: Reader, before: seq<nat>, since: seq<nat>)
  {
    function All(): seq<nat> {
      before + since
    }
  }

  function Perform(l: Log, c: Call): Log {
    match c
    case DumpCall(m, reg, orderTsc, curTsc, tail) =>
      var (s, o) := Dump(m, reg, l.s, orderTsc, curTsc, tail);
      l.(s := s, since := if o.Printed? then l.since + [o.rec.tsc] else l.since)
    case ResetCall =>
      if l.s.cur == l.s.start then l else Log(Reset(l.s), l.before + l.since, [])
  }

  function PerformAll(l: Log, cs: seq<Call>): Log
    decreases |cs|
  {
    if cs == [] then l else PerformAll(Perform(l, cs[0]), cs[1..])
  }

  ghost predicate NonDecreasing(ts: seq<nat>) {
    forall i, j :: 0 <= i < j < |ts| ==> ts[i] <= ts[j]
  }

  ghost predicate LogInv(l: Log) {
    var all := l.All();
    && NonDecreasing(all)
    && (forall i, j :: 0 <= i < |l.before| && 0 <= j < |l.since| ==> l.before[i] < l.since[j])
    && (all != [] ==>
          && all[|all| - 1] < U64_MAX
          && if l.since != [] then l.s.lastTsc == all[|all| - 1]
             else l.s.cur == l.s.start && l.s.lastTsc == all[|all| - 1] + 1)
  }

  /** What stands behind the message with timestamp `tsc` that ends at `q`: nothing yet; in the usable area, a
      message that is not older, nor later than the clock; behind it, the trailer, and in tailing mode at the
      ring's start nothing or such a message. */
  predicate FollowedWell(m: seq<byte>, s: Reader, tsc: nat, q: nat, curTsc: nat, tail: bool) {
    var at, first := TscAt(m, q), TscAt(m, s.start);
    || at == 0
    || (q < s.end && tsc <= at <= curTsc)
    || (q >= s.end && at == U64_MAX && (tail ==> first == 0 || tsc <= first <= curTsc))
  }

  /** Exactly what `next` accepts, whatever the bytes. */
  lemma {:induction false} AcceptsIff(m: seq<byte>, reg: Registry, s: Reader, curTsc: nat, tail: bool, tsc: nat,
                                      id: nat, len: nat)
    ensures Next(m, reg, s, curTsc, tail) == Msg(tsc, id, len) <==>
      && tsc == TscAt(m, s.cur) && 0 < tsc && s.lastTsc <= tsc < curTsc
      && id == IdAt(m, s.cur) && id in reg
      && len == Length(reg[id], m, s.cur + 12) && At(m, s.cur + 12 + len) == 12 + len
      && FollowedWell(m, s, tsc, s.cur + 13 + len, curTsc, tail)
  {
    hide TscAt, IdAt, Length, At;
  }

  /** What `next` lets through is not older than `lastTsc_`. */
  lemma {:induction false} FoundNotOlder(m: seq<byte>, reg: Registry, s: Reader, curTsc: nat, tail: bool)
    requires Next(m, reg, s, curTsc, tail).Msg?
    ensures s.lastTsc <= Next(m, reg, s, curTsc, tail).tsc < curTsc
  {
    hide FollowerOk, IdAt, TscAt;
  }

  lemma {:induction false} PrintInv(l: Log, s: Reader)
    requires LogInv(l) && l.s.lastTsc <= s.lastTsc < U64_MAX
    ensures LogInv(Log(s, l.before, l.since + [s.lastTsc]))
  {
    var all, l' := l.All(), Log(s, l.before, l.since + [s.lastTsc]);
    assert l'.All() == all + [s.lastTsc];
    forall i | 0 <= i < |all|
      ensures all[i] <= s.lastTsc
      ensures i < |l.before| ==> l.before[i] == all[i] < s.lastTsc
    {
      assert all[i] <= all[|all| - 1];
      if i < |l.before| && l.since != [] {
        assert l.before[i] < l.since[|l.since| - 1];
      }
    }
  }

  lemma {:induction false} PerformInv(l: Log, c: Call)
    requires LogInv(l) && (c.DumpCall? ==> c.curTsc <= U64_MAX)
    ensures LogInv(Perform(l, c))
  {
    hide Next, NonDecreasing;
    match c {
      case DumpCall(m, reg, orderTsc, curTsc, tail) =>
        var f := Next(m, reg, l.s, curTsc, tail);
        if f.Msg? {
          FoundNotOlder(m, reg, l.s, curTsc, tail);
          if f.tsc == orderTsc {
            PrintInv(l, Dump(m, reg, l.s, orderTsc, curTsc, tail).0);
          }
        }
      case ResetCall =>
        if l.s.cur != l.s.start {
          assert Perform(l, c).All() == l.All();
        }
    }
  }

  /** Over any sequence of calls from a fresh reader the timestamps printed never decrease, and
      those printed after a reset are strictly greater than all printed before it. */
  lemma {:induction false} PrintedInOrder(l: Log, cs: seq<Call>)
    requires LogInv(l) && (forall i :: 0 <= i < |cs| && cs[i].DumpCall? ==> cs[i].curTsc <= U64_MAX)
    ensures LogInv(PerformAll(l, cs))
    ensures NonDecreasing(PerformAll(l, cs).All())
    decreases |cs|
  {
    hide LogInv, Perform;
    if cs != [] {
      PerformInv(l, cs[0]);
      PrintedInOrder(Perform(l, cs[0]), cs[1..]);
    } else {
      LogOrder(l);
    }
  }

  lemma {:induction false} LogOrder(l: Log)
    requires LogInv(l)
    ensures NonDecreasing(l.All())
    ensures forall x, y :: x in l.before && y in l.since ==> x < y
  {
  }

  /** A reader that has printed nothing is a start, wherever initialisation has left it. */
  lemma {:induction false} StartInv(s: Reader)
    ensures LogInv(Log(s, [], []))
  {
  }
}
