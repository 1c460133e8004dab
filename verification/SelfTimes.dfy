/** Self-profiling timers of one thread: a stack of the time spent in inner blocks, and counters
    shared by the messages whose ids agree modulo the number of counters. */
module SelfTimes {
  import opened Bytes
  import W = RingWriter

  /** A `MsgCounter`: hits with the last time stamp, all time, and time without inner blocks. */
  datatype Counter = Counter(hits: W.Counter, total: nat, own: nat)

  /** A timer object: `BlockTimerSelfMsg` when `msg`, else `BlockTimerSelf`, which also counts. */
  datatype Timer = Timer(id: nat, tsc: nat, msg: bool)

  datatype State = State(stack: seq<nat>, counters: seq<Counter>, timers: seq<Timer>)

  /** The scopes of one thread open and close blocks. */
  datatype Event = Enter(id: nat, now: nat, msg: bool) | Leave(now: nat)

  predicate CounterOk(c: Counter) {
    c.hits.lastTsc < U32_BOUND && c.own < U64_BOUND
  }

  predicate StateOk(s: State) {
    && |s.stack| == |s.timers| + 1 && s.counters != []
    && (forall i :: 0 <= i < |s.counters| ==> CounterOk(s.counters[i]))
    && (forall i :: 0 <= i < |s.stack| ==> s.stack[i] < U64_BOUND)
  }

  predicate EventOk(s: State, e: Event) {
    e.now < U64_BOUND && (e.Leave? ==> s.timers != [])
  }

  /** Subtraction of unsigned 64-bit numbers. */
  function Minus(a: int, b: int): (r: nat)
    ensures r < U64_BOUND
  {
    (a - b) % U64_BOUND
  }

  function Closed(c: Counter, t: Timer, now: nat, inner: nat): (r: Counter)
    requires CounterOk(c) && now < U64_BOUND
    ensures CounterOk(r)
  {
    var delta := Minus(now, t.tsc);
    Counter(if t.msg then c.hits else W.Hit(c.hits, now), (c.total + delta) % U64_BOUND, Minus(c.own + delta, inner))
  }

  function Step(s: State, e: Event): (r: State)
    requires StateOk(s) && EventOk(s, e)
    ensures StateOk(r) && |r.counters| == |s.counters|
  {
    match e
    case Enter(id, now, msg) => State(s.stack + [0], s.counters, s.timers + [Timer(id, now, msg)])
    case Leave(now) =>
      var n, t := |s.timers|, s.timers[|s.timers| - 1];
      var k := t.id % |s.counters|;
      var outer := (s.stack[n - 1] + Minus(now, t.tsc)) % U64_BOUND;
      State(s.stack[..n - 1] + [outer], s.counters[k := Closed(s.counters[k], t, now, s.stack[n])], s.timers[..n - 1])
  }

  /** Blocks close in the opposite order of opening, at 64-bit times; nothing else is asked. */
  predicate Lifo(es: seq<Event>, open: nat)
  {
    es == [] || (es[0].now < U64_BOUND && (es[0].Leave? ==> open > 0)
      && Lifo(es[1..], if es[0].Enter? then open + 1 else open - 1))
  }

  function Run(s: State, es: seq<Event>): (r: State)
    requires StateOk(s) && Lifo(es, |s.timers|)
    ensures StateOk(r) && |r.counters| == |s.counters|
    decreases |es|
  {
    if es == [] then s else Run(Step(s, es[0]), es[1..])
  }

  function Zeroed(n: nat): (s: State)
    requires n > 0
    ensures StateOk(s) && |s.counters| == n && s.timers == []
  {
    State([0], seq(n, i => Counter(W.Counter(0, 0), 0, 0)), [])
  }

  // ------------------------------------------------------- the thread itself

  class Thread {
    var threadSubFuncStack: seq<nat>
    var timers: seq<Timer>
    const counters: array<Counter>

    ghost function View(): State
      reads this, counters
    {
      State(threadSubFuncStack, counters[..], timers)
    }

    constructor (n: nat)
      requires n > 0
      ensures View() == Zeroed(n) && fresh(counters)
    {
      threadSubFuncStack, timers := [0], [];
      counters := new Counter[n](_ => Counter(W.Counter(0, 0), 0, 0));
    }

    /** The constructors of the two timers. */
    method Construct(id: nat, now: nat, msg: bool)
      requires StateOk(View()) && EventOk(View(), Enter(id, now, msg))
      modifies this
      ensures View() == Step(old(View()), Enter(id, now, msg))
    {
      timers := timers + [Timer(id, now, msg)];
      threadSubFuncStack := threadSubFuncStack + [0];
    }

    /** What the destructors do to the counter of the message, assignment by assignment. */
    method CloseCounter(was: Counter, timer: Timer, delta: nat, now: nat, inner: nat) returns (mc: Counter)
      requires CounterOk(was) && now < U64_BOUND && delta == Minus(now, timer.tsc)
      ensures mc == Closed(was, timer, now, inner)
    {
      hide W.Hit, Minus;
      mc := was;
      if !timer.msg {
        mc := mc.(hits := W.Hit(mc.hits, now));
      }
      mc := mc.(total := (mc.total + delta) % U64_BOUND);
      mc := mc.(own := (mc.own + delta) % U64_BOUND);
      mc := mc.(own := Minus(mc.own, inner));
      AddThenSubtract(was.own, delta, inner);
    }

    /** The destructors of the two timers. */
    method Destruct(now: nat)
      requires StateOk(View()) && EventOk(View(), Leave(now))
      modifies this, counters
      ensures View() == Step(old(View()), Leave(now))
    {
      hide W.Hit, Minus, Closed;
      var timer := timers[|timers| - 1];
      timers := timers[..|timers| - 1];
      var delta := Minus(now, timer.tsc);
      var k := timer.id % counters.Length;
      assert CounterOk(old(View()).counters[k]);
      counters[k] := CloseCounter(counters[k], timer, delta, now, threadSubFuncStack[|threadSubFuncStack| - 1]);
      assert counters[..] == old(counters[..])[k := counters[k]];
      threadSubFuncStack := threadSubFuncStack[..|threadSubFuncStack| - 1];
      var top := |threadSubFuncStack| - 1;
      threadSubFuncStack := threadSubFuncStack[top := (threadSubFuncStack[top] + delta) % U64_BOUND];
    }
  }

  lemma {:induction false} AddThenSubtract(a: int, b: int, c: int)
    ensures Minus((a + b) % U64_BOUND, c) == Minus(a + b, c)
  {
    Same(a + b - c, (a + b) % U64_BOUND - c, (a + b) / U64_BOUND);
  }

  /** Numbers that differ by a multiple of 2^64. */
  lemma {:induction false} Same(a: int, b: int, k: int)
    requires a == b + k * U64_BOUND
    ensures a % U64_BOUND == b % U64_BOUND
  {
  }

  // ------------------------------------------------------------ conservation

  function Sum(s: seq<int>): int {
    if s == [] then 0 else Sum(s[..|s| - 1]) + s[|s| - 1]
  }

  function OwnTimes(cs: seq<Counter>): (r: seq<int>)
    ensures |r| == |cs|
  {
    seq(|cs|, i requires 0 <= i < |cs| => cs[i].own)
  }

  lemma {:induction false} SumUpdate(s: seq<int>, k: nat, v: int)
    requires k < |s|
    ensures Sum(s[k := v]) == Sum(s) - s[k] + v
    decreases |s|
  {
    var n := |s| - 1;
    if k < n {
      SumUpdate(s[..n], k, v);
      assert s[k := v][..n] == s[..n][k := v];
    } else {
      assert s[k := v][..n] == s[..n];
    }
  }

  lemma {:induction false} SumSnoc(s: seq<int>, v: int)
    ensures Sum(s + [v]) == Sum(s) + v
  {
    assert (s + [v])[..|s|] == s;
  }

  ghost predicate Conserved(s: State) {
    Sum(OwnTimes(s.counters)) % U64_BOUND == Sum(s.stack) % U64_BOUND
  }

  lemma {:induction false} StepConserves(s: State, e: Event)
    requires StateOk(s) && EventOk(s, e) && Conserved(s)
    ensures Conserved(Step(s, e))
  {
    hide W.Hit, Sum;
    match e {
      case Enter(id, now, msg) =>
        SumSnoc(s.stack, 0);
      case Leave(now) =>
        hide Minus, Step, StateOk;
        var n, t := |s.timers|, s.timers[|s.timers| - 1];
        var k, delta := t.id % |s.counters|, Minus(now, t.tsc);
        var a, inner, outer := s.counters[k].own, s.stack[n], s.stack[n - 1];
        LeaveOwn(s, now);
        LeaveStack(s, now);
        BothSides(Sum(OwnTimes(s.counters)), Sum(s.stack), a, delta, inner, outer);
    }
  }

  lemma {:induction false} LeaveOwn(s: State, now: nat)
    requires StateOk(s) && EventOk(s, Leave(now))
    ensures var t := s.timers[|s.timers| - 1];
      var a := s.counters[t.id % |s.counters|].own;
      Sum(OwnTimes(Step(s, Leave(now)).counters)) ==
        Sum(OwnTimes(s.counters)) - a + Minus(a + Minus(now, t.tsc), s.stack[|s.timers|])
  {
    hide W.Hit, Sum, Minus;
    var k, r := s.timers[|s.timers| - 1].id % |s.counters|, Step(s, Leave(now));
    assert OwnTimes(r.counters) == OwnTimes(s.counters)[k := r.counters[k].own];
    SumUpdate(OwnTimes(s.counters), k, r.counters[k].own);
  }

  lemma {:induction false} LeaveStack(s: State, now: nat)
    requires StateOk(s) && EventOk(s, Leave(now))
    ensures var n, t := |s.timers|, s.timers[|s.timers| - 1];
      Sum(Step(s, Leave(now)).stack) ==
        Sum(s.stack) - s.stack[n - 1] - s.stack[n] + (s.stack[n - 1] + Minus(now, t.tsc)) % U64_BOUND
  {
    hide W.Hit, Sum, Minus, Closed;
    var n, r := |s.timers|, Step(s, Leave(now));
    var inner, outer := s.stack[n], s.stack[n - 1];
    assert s.stack == s.stack[..n - 1] + [outer] + [inner];
    SumSnoc(s.stack[..n - 1] + [outer], inner);
    SumSnoc(s.stack[..n - 1], outer);
    SumSnoc(s.stack[..n - 1], r.stack[n - 1]);
  }

  lemma {:induction false} BothSides(x: int, y: int, a: int, delta: int, inner: int, outer: int)
    requires x % U64_BOUND == y % U64_BOUND
    ensures (x - a + Minus(a + delta, inner)) % U64_BOUND ==
      (y - outer - inner + (outer + delta) % U64_BOUND) % U64_BOUND
  {
    Same(x - a + Minus(a + delta, inner), x + delta - inner, -((a + delta - inner) / U64_BOUND));
    Same(y - outer - inner + (outer + delta) % U64_BOUND, y + delta - inner, -((outer + delta) / U64_BOUND));
    Same(x + delta - inner, y + delta - inner, x / U64_BOUND - y / U64_BOUND);
  }

  lemma {:induction false} RunConserves(s: State, es: seq<Event>)
    requires StateOk(s) && Lifo(es, |s.timers|) && Conserved(s)
    ensures Conserved(Run(s, es))
    decreases |es|
  {
    hide Step, Conserved;
    if es != [] {
      StepTimers(s, es[0]);
      StepConserves(s, es[0]);
      RunConserves(Step(s, es[0]), es[1..]);
    }
  }

  lemma {:induction false} StepTimers(s: State, e: Event)
    requires StateOk(s) && EventOk(s, e)
    ensures |Step(s, e).timers| == if e.Enter? then |s.timers| + 1 else |s.timers| - 1
  {
  }

  lemma {:induction false} ZeroSum(n: nat)
    ensures Sum(seq(n, i => 0)) == 0
  {
    if n > 0 {
      ZeroSum(n - 1);
      assert seq(n, i => 0)[..n - 1] == seq(n - 1, i => 0);
    }
  }

  /** Conservation: whatever the clock does, the own times of all the counters add up to the times
      on the stack, modulo 2^64; when all blocks are closed that is the time of the outermost ones. */
  lemma {:induction false} Conservation(n: nat, es: seq<Event>)
    requires n > 0 && Lifo(es, 0)
    ensures var s := Run(Zeroed(n), es);
      Sum(OwnTimes(s.counters)) % U64_BOUND == Sum(s.stack) % U64_BOUND
  {
    hide Run, Lifo;
    ZeroSum(n);
    assert OwnTimes(Zeroed(n).counters) == seq(n, i => 0);
    assert [0][..0] == [];
    RunConserves(Zeroed(n), es);
  }

  // --------------------------------------------- what each block contributes

  /** An open block with the durations of its closed direct children; the outermost frame stands
      for the thread. */
  datatype Frame = Frame(id: nat, tsc: nat, msg: bool, children: seq<int>)

  /** A closed block. */
  datatype Block = Block(id: nat, duration: int, msg: bool, children: seq<int>)

  /** The meaning of a run, without counters or wrap-around. */
  datatype Account = Account(frames: seq<Frame>, blocks: seq<Block>)

  function Book(a: Account, e: Event): Account
    requires |a.frames| > if e.Leave? then 1 else 0
  {
    match e
    case Enter(id, now, msg) => Account(a.frames + [Frame(id, now, msg, [])], a.blocks)
    case Leave(now) =>
      var n, f := |a.frames| - 1, a.frames[|a.frames| - 1];
      var outer := a.frames[n - 1];
      var frame := outer.(children := outer.children + [now - f.tsc]);
      Account(a.frames[..n - 1] + [frame], a.blocks + [Block(f.id, now - f.tsc, f.msg, f.children)])
  }

  function BookAll(a: Account, es: seq<Event>): (r: Account)
    requires a.frames != [] && Lifo(es, |a.frames| - 1)
    decreases |es|
  {
    if es == [] then a else BookAll(Book(a, es[0]), es[1..])
  }

  const NOTHING_YET: Account := Account([Frame(0, 0, false, [])], [])

  /** Time of the block itself: its duration without its direct children. */
  function Own(b: Block): int {
    b.duration - Sum(b.children)
  }

  /** The own times of the blocks whose ids share the counter `k` of `n`. */
  function OwnSum(bs: seq<Block>, k: nat, n: nat): int
    requires n > 0
  {
    if bs == [] then 0
    else OwnSum(bs[..|bs| - 1], k, n) + if bs[|bs| - 1].id % n == k then Own(bs[|bs| - 1]) else 0
  }

  function TotalSum(bs: seq<Block>, k: nat, n: nat): int
    requires n > 0
  {
    if bs == [] then 0
    else TotalSum(bs[..|bs| - 1], k, n) + if bs[|bs| - 1].id % n == k then bs[|bs| - 1].duration else 0
  }

  /** How many of the blocks trace no message, which would count the use itself. */
  function Uses(bs: seq<Block>, k: nat, n: nat): nat
    requires n > 0
  {
    if bs == [] then 0
    else Uses(bs[..|bs| - 1], k, n) + if bs[|bs| - 1].id % n == k && !bs[|bs| - 1].msg then 1 else 0
  }

  ghost predicate FrameMatches(s: State, a: Account, i: nat)
    requires |s.stack| == |s.timers| + 1 == |a.frames| && i < |s.stack|
  {
    && s.stack[i] == Sum(a.frames[i].children) % U64_BOUND
    && (i > 0 ==>
          var t, f := s.timers[i - 1], a.frames[i];
          t.id == f.id && t.tsc == f.tsc && t.msg == f.msg)
  }

  ghost predicate CounterMatches(s: State, a: Account, k: nat)
    requires k < |s.counters|
  {
    && s.counters[k].own == OwnSum(a.blocks, k, |s.counters|) % U64_BOUND
    && s.counters[k].total == TotalSum(a.blocks, k, |s.counters|) % U64_BOUND
    && s.counters[k].hits.count == Uses(a.blocks, k, |s.counters|) % U32_BOUND
  }

  ghost predicate Accounts(s: State, a: Account) {
    && StateOk(s) && |a.frames| == |s.stack|
    && (forall i :: 0 <= i < |s.stack| ==> FrameMatches(s, a, i))
    && (forall k :: 0 <= k < |s.counters| ==> CounterMatches(s, a, k))
  }

  lemma {:induction false} SumsSnoc(bs: seq<Block>, b: Block, k: nat, n: nat)
    requires n > 0
    ensures OwnSum(bs + [b], k, n) == OwnSum(bs, k, n) + if b.id % n == k then Own(b) else 0
    ensures TotalSum(bs + [b], k, n) == TotalSum(bs, k, n) + if b.id % n == k then b.duration else 0
    ensures Uses(bs + [b], k, n) == Uses(bs, k, n) + if b.id % n == k && !b.msg then 1 else 0
  {
    assert (bs + [b])[..|bs|] == bs;
  }

  /** One closed block in a counter, all modulo 2^64. */
  lemma {:induction false} AddOwn(x: int, now: int, tsc: int, y: int)
    ensures Minus(x % U64_BOUND + Minus(now, tsc), y % U64_BOUND) == (x + (now - tsc - y)) % U64_BOUND
    ensures (x % U64_BOUND + Minus(now, tsc)) % U64_BOUND == (x + (now - tsc)) % U64_BOUND
  {
    var q, d := x / U64_BOUND, (now - tsc) / U64_BOUND;
    Same(x + (now - tsc - y), x % U64_BOUND + Minus(now, tsc) - y % U64_BOUND, q + d - y / U64_BOUND);
    Same(x + (now - tsc), x % U64_BOUND + Minus(now, tsc), q + d);
  }

  lemma {:induction false} LeaveAccounts(s: State, a: Account, now: nat)
    requires Accounts(s, a) && EventOk(s, Leave(now))
    ensures Accounts(Step(s, Leave(now)), Book(a, Leave(now)))
  {
    hide W.Hit, Sum, OwnSum, TotalSum, Uses, Minus, StateOk;
    assert StateOk(s) && |s.stack| == |s.timers| + 1 && s.counters != [] by {
      ShapeOf(s);
    }
    var n := |s.timers|;
    var t, f, outer := s.timers[n - 1], a.frames[n], a.frames[n - 1];
    var s', a' := Step(s, Leave(now)), Book(a, Leave(now));
    ShapeOf(s');
    forall i | 0 <= i < n
      ensures FrameMatches(s', a', i)
    {
      LeaveFrames(s, a, now, i);
    }
    forall k | 0 <= k < |s.counters|
      ensures CounterMatches(s', a', k)
    {
      LeaveCounters(s, a, now, k);
    }
  }

  lemma {:induction false} LeaveFrames(s: State, a: Account, now: nat, i: nat)
    requires Accounts(s, a) && EventOk(s, Leave(now)) && |s.stack| == |s.timers| + 1 && i < |s.timers|
    ensures |Step(s, Leave(now)).stack| == |Step(s, Leave(now)).timers| + 1 == |s.timers|
    ensures |Book(a, Leave(now)).frames| == |s.timers|
    ensures FrameMatches(Step(s, Leave(now)), Book(a, Leave(now)), i)
  {
    hide W.Hit, Sum, OwnSum, TotalSum, Uses, Minus, StateOk, Closed, CounterMatches;
    var n := |s.timers|;
    var f, outer := a.frames[n], a.frames[n - 1];
    assert FrameMatches(s, a, n) && FrameMatches(s, a, n - 1) && FrameMatches(s, a, i);
    SumSnoc(outer.children, now - f.tsc);
    AddOwn(Sum(outer.children), now, f.tsc, 0);
  }

  lemma {:induction false} OneHit(c: Counter, now: nat, uses: nat)
    requires CounterOk(c) && now < U64_BOUND && c.hits.count == uses % U32_BOUND
    ensures W.Hit(c.hits, now).count == (uses + 1) % U32_BOUND
  {
  }

  lemma {:induction false} LeaveCounters(s: State, a: Account, now: nat, k: nat)
    requires Accounts(s, a) && EventOk(s, Leave(now)) && |s.stack| == |s.timers| + 1 && k < |s.counters|
    ensures k < |Step(s, Leave(now)).counters| == |s.counters|
    ensures CounterMatches(Step(s, Leave(now)), Book(a, Leave(now)), k)
  {
    hide W.Hit, Sum, OwnSum, TotalSum, Uses, Minus, StateOk;
    var n, m := |s.timers|, |s.counters|;
    var f := a.frames[n];
    assert FrameMatches(s, a, n) && CounterMatches(s, a, k);
    SumsSnoc(a.blocks, Block(f.id, now - f.tsc, f.msg, f.children), k, m);
    AddOwn(OwnSum(a.blocks, k, m), now, f.tsc, Sum(f.children));
    AddOwn(TotalSum(a.blocks, k, m), now, f.tsc, 0);
    ShapeOf(s);
    OneHit(s.counters[k], now, Uses(a.blocks, k, m));
  }

  lemma {:induction false} ShapeOf(s: State)
    requires StateOk(s)
    ensures |s.stack| == |s.timers| + 1 && s.counters != []
    ensures forall i :: 0 <= i < |s.counters| ==> CounterOk(s.counters[i])
  {
  }

  lemma {:induction false} StepAccounts(s: State, a: Account, e: Event)
    requires Accounts(s, a) && EventOk(s, e)
    ensures Accounts(Step(s, e), Book(a, e))
  {
    match e {
      case Enter(id, now, msg) =>
        hide Sum, OwnSum, TotalSum, Uses, StateOk;
        ShapeOf(s);
        var s', a' := Step(s, e), Book(a, e);
        ShapeOf(s');
        assert Sum([]) == 0 by {
          EmptySum();
        }
        forall i | 0 <= i < |s'.stack|
          ensures FrameMatches(s', a', i)
        {
          assert i < |s.stack| ==> FrameMatches(s, a, i);
        }
        forall k | 0 <= k < |s.counters|
          ensures CounterMatches(s', a', k)
        {
          assert CounterMatches(s, a, k);
        }
      case Leave(now) =>
        hide Step, Book, Accounts;
        LeaveAccounts(s, a, now);
    }
  }

  lemma {:induction false} EmptySum()
    ensures Sum([]) == 0
  {
  }

  lemma {:induction false} RunAccounts(s: State, a: Account, es: seq<Event>)
    requires Accounts(s, a) && Lifo(es, |s.timers|)
    ensures |a.frames| == |s.timers| + 1
    ensures Accounts(Run(s, es), BookAll(a, es))
    decreases |es|
  {
    hide Step, FrameMatches, CounterMatches;
    if es != [] {
      StepTimers(s, es[0]);
      StepAccounts(s, a, es[0]);
      RunAccounts(Step(s, es[0]), Book(a, es[0]), es[1..]);
    }
  }

  // ------------------------------------------------------ non-decreasing time

  /** The clock never goes back. */
  predicate Clocked(es: seq<Event>, clock: nat)
  {
    es == [] || (clock <= es[0].now && Clocked(es[1..], es[0].now))
  }

  /** Closed children of an open block fit between its start and its next child or the clock. */
  ghost predicate RoomLeft(a: Account, i: nat, clock: nat)
    requires i < |a.frames|
  {
    && Sum(a.frames[i].children) >= 0
    && (i > 0 ==>
          var limit := if i + 1 < |a.frames| then a.frames[i + 1].tsc else clock;
          a.frames[i].tsc + Sum(a.frames[i].children) <= limit)
    && a.frames[i].tsc <= clock
  }

  ghost predicate Sound(b: Block) {
    0 <= Own(b) <= b.duration
  }

  ghost predicate Timely(a: Account, clock: nat) {
    && (forall i :: 0 <= i < |a.frames| ==> RoomLeft(a, i, clock))
    && (forall i :: 0 <= i < |a.blocks| ==> Sound(a.blocks[i]))
  }

  lemma {:induction false} StepTimely(a: Account, e: Event, clock: nat)
    requires Timely(a, clock) && clock <= e.now && |a.frames| > if e.Leave? then 1 else 0
    ensures Timely(Book(a, e), e.now)
  {
    hide Sum;
    var a', n := Book(a, e), |a.frames| - 1;
    EmptySum();
    assert RoomLeft(a, n, clock);
    if e.Leave? {
      assert RoomLeft(a, n - 1, clock);
      SumSnoc(a.frames[n - 1].children, e.now - a.frames[n].tsc);
    }
    forall i | 0 <= i < |a'.frames|
      ensures RoomLeft(a', i, e.now)
    {
      assert i <= n ==> RoomLeft(a, i, clock);
    }
    forall i | 0 <= i < |a'.blocks|
      ensures Sound(a'.blocks[i])
    {
      assert i < |a.blocks| ==> Sound(a.blocks[i]);
    }
  }

  lemma {:induction false} RunTimely(a: Account, es: seq<Event>, clock: nat)
    requires a.frames != [] && Timely(a, clock) && Lifo(es, |a.frames| - 1) && Clocked(es, clock)
    ensures forall i :: 0 <= i < |BookAll(a, es).blocks| ==> Sound(BookAll(a, es).blocks[i])
    decreases |es|
  {
    hide Sound, RoomLeft;
    if es != [] {
      StepTimely(a, es[0], clock);
      RunTimely(Book(a, es[0]), es[1..], es[0].now);
    }
  }

  /** After any run, each counter holds the own and the whole times of the blocks that share it, modulo 2^64,
      and how many of them it counts, modulo 2^32: recursion and shared counters included. */
  lemma {:induction false} CountersAreSums(n: nat, es: seq<Event>, k: nat)
    requires k < n && Lifo(es, 0)
    ensures var c := Run(Zeroed(n), es).counters[k];
      && c.own == OwnSum(BookAll(NOTHING_YET, es).blocks, k, n) % U64_BOUND
      && c.total == TotalSum(BookAll(NOTHING_YET, es).blocks, k, n) % U64_BOUND
      && c.hits.count == Uses(BookAll(NOTHING_YET, es).blocks, k, n) % U32_BOUND
  {
    hide Run, Lifo, BookAll, FrameMatches;
    var s, a := Zeroed(n), NOTHING_YET;
    EmptySum();
    assert FrameMatches(s, a, 0) by {
      ZeroFrame(n);
    }
    assert forall j :: 0 <= j < n ==> CounterMatches(s, a, j);
    RunAccounts(s, a, es);
    assert CounterMatches(Run(s, es), BookAll(a, es), k);
  }

  lemma {:induction false} ZeroFrame(n: nat)
    requires n > 0
    ensures FrameMatches(Zeroed(n), NOTHING_YET, 0)
  {
  }

  /** With a clock that never goes back, no block's own time is negative or above its duration. */
  lemma {:induction false} OwnTimeNotNegative(es: seq<Event>)
    requires Lifo(es, 0) && Clocked(es, 0)
    ensures var bs := BookAll(NOTHING_YET, es).blocks;
      forall i :: 0 <= i < |bs| ==> 0 <= Own(bs[i]) <= bs[i].duration
  {
    hide BookAll, Lifo, Clocked;
    EmptySum();
    assert RoomLeft(NOTHING_YET, 0, 0);
    RunTimely(NOTHING_YET, es, 0);
    var bs := BookAll(NOTHING_YET, es).blocks;
    assert forall i :: 0 <= i < |bs| ==> Sound(bs[i]);
  }
}
