/** The case that the `p > splitPoint` comparison of `rewind` loses, on a concrete run: seven trace
    statements on the smallest ring, after which qtcat prints nothing for the ring at all, although
    its current lap holds three complete messages. */
module BlindSpot {
  import opened Bytes
  import opened Codes
  import opened Records
  import opened RingState
  import opened RingReader
  import opened Recovery

  /** One registered message, `"%s"`. */
  const REG: Registry := map[1 := [Plain(Str)]]

  /** Message number `k`: a string of 235 characters, the last of the seven one of 227. */
  function Line(k: nat): Rec {
    var n: byte := if k == 7 then 227 else 235;
    Rec(k, 1, [n] + Fill(97, n))
  }

  lemma {:induction false} LineOk(k: nat)
    requires 0 < k <= 7
    ensures RecOk(REG, Line(k)) && Size(Line(k)) == if k == 7 then 241 else 249
  {
    var ps := Line(k).params;
    assert Length([Plain(Str)], ps, 0) == 1 + At(ps, 0);
    assert REG[1] == [Plain(Str)];
  }

  function Lines(i: nat, j: nat): seq<Rec>
    requires i <= j
    decreases j - i
  {
    if i == j then [] else Lines(i, j - 1) + [Line(j)]
  }

  lemma {:induction false} LinesEnd(i: nat, j: nat)
    requires i <= j <= 7
    ensures |Lines(i, j)| == j - i
    ensures End(Lines(i, j)) == 249 * (j - i) - if j == 7 && i < 7 then 8 else 0
    decreases j - i
  {
    if i < j {
      LinesEnd(i, j - 1);
      LineOk(j);
      EndSnoc(Lines(i, j - 1), Line(j));
    }
  }

  function Statements(n: nat): (es: seq<Event>)
    ensures |es| == n
  {
    if n == 0 then [] else Statements(n - 1) + [Event.Trace(Line(n))]
  }

  lemma {:induction false} StatementsOk(n: nat)
    requires n <= 7
    ensures EventsFit(Statements(n)) && EventsOk(REG, Statements(n))
    ensures Written(Statements(n)) == Lines(0, n)
  {
    if n > 0 {
      StatementsOk(n - 1);
      LineOk(n);
      assert Statements(n)[..n - 1] == Statements(n - 1);
      assert RecOk(REG, Statements(n)[n - 1].rec);
    }
  }

  lemma {:induction false} LinesIncreasing(n: nat)
    ensures Increasing(Lines(0, n)) && |Lines(0, n)| == n
    ensures n > 0 ==> Lines(0, n)[n - 1].tsc == n
  {
    if n > 0 {
      LinesIncreasing(n - 1);
      IncreasingSnoc(Lines(0, n - 1), Line(n));
    }
  }

  /** Four messages fill the first lap; the fifth wraps. */
  lemma {:induction false} AfterStatements(m: seq<byte>, n: nat)
    requires |m| == MIN_RING && n <= 7
    ensures EventsFit(Statements(n))
    ensures HistoryOf(BufIs(m, 0, MIN_RING), Statements(n)) ==
      if n <= 4 then History([], [], Lines(0, n)) else History([], Lines(0, 4), Lines(4, n))
    ensures Run(BufIs(m, 0, MIN_RING), Statements(n)).ptr ==
      HEADER + End(if n <= 4 then Lines(0, n) else Lines(4, n))
  {
    hide BufIs, Lay, Enc, Line, Put, Fill, EventsOk, Off;
    hide Increasing, RecOk, Store, Run, HistoryOf, Fits, Step, EventsFit, Written;
    LayEmpty();
    StatementsOk(n);
    if n > 0 {
      StatementsOk(n - 1);
      AfterStatements(m, n - 1);
      assert Statements(n)[..n - 1] == Statements(n - 1);
      LinesEnd(if n <= 5 then 0 else 4, n - 1);
      var i := if n <= 4 then 0 else 4;
      EndSnoc(Lines(i, n - 1), Line(n));
      NextStatement(m, n);
      LineOk(n);
      StepPtr(Run(BufIs(m, 0, MIN_RING), Statements(n - 1)), Line(n));
    } else {
      NoStatement(m);
    }
  }

  lemma {:induction false} StepPtr(r: Ring, rec: Rec)
    requires r.Ready() && Size(rec) <= MAX_RECORD
    ensures Step(r, Event.Trace(rec)).ptr == (if r.ptr >= r.bufEnd then r.Start() else r.ptr) + Size(rec)
  {
  }

  lemma {:induction false} NoStatement(m: seq<byte>)
    requires |m| == MIN_RING
    ensures var r0 := BufIs(m, 0, MIN_RING);
      && EventsFit(Statements(0)) && HistoryOf(r0, Statements(0)) == History([], [], []) && Run(r0, Statements(0)) == r0
  {
    hide BufIs;
  }

  lemma {:induction false} NextStatement(m: seq<byte>, n: nat)
    requires |m| == MIN_RING && 0 < n <= 7 && EventsFit(Statements(n)) && EventsFit(Statements(n - 1))
    ensures var r0, es := BufIs(m, 0, MIN_RING), Statements(n - 1);
      && HistoryOf(r0, Statements(n)) == Extend(Run(r0, es), HistoryOf(r0, es), Event.Trace(Line(n)))
      && Run(r0, Statements(n)) == Step(Run(r0, es), Event.Trace(Line(n)))
  {
    hide BufIs, Line, Step, Extend;
    assert Statements(n)[..n - 1] == Statements(n - 1);
  }

  /** Seven messages written in one ring, every hypothesis of `CatAfterRun` met, and nothing
      printed: the last message of the first lap starts eight bytes after the seventh. */
  lemma {:induction false} BlindRun(m: seq<byte>)
    requires |m| == MIN_RING
    ensures var es, r0 := Statements(7), BufIs(m, 0, MIN_RING);
      && EventsFit(es) && EventsOk(REG, es) && Increasing(Written(es)) && |Written(es)| == 7
      && Blind(Run(r0, es), HistoryOf(r0, es))
      && |HistoryOf(r0, es).cur| == 3
      && Rewind(Run(r0, es).m, REG, NewReader(0, MIN_RING), false).Some?
      && Pending(Run(r0, es).m, REG, Rewind(Run(r0, es).m, REG, NewReader(0, MIN_RING), false).value, [])
  {
    hide BufIs, Rewind, Pending, Run, HistoryOf, Lay;
    StatementsOk(7);
    LinesIncreasing(7);
    AfterStatements(m, 7);
    LinesEnd(0, 3);
    LinesEnd(4, 7);
    OffPrefix(Lines(0, 3), [Line(4)], 3);
    CatAfterRun(REG, m, 0, MIN_RING, Statements(7));
  }
}
