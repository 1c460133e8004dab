/** `MessageFormatter::init` as the source runs it: it moves along the message and the key text,
    cuts the tokenised copy of the message with NULs, and fills the two vectors. */
module FormatterInit {
  import opened Bytes
  import opened Codes
  import opened Wrappers
  import F = Formatting
  import R = Rendering
  import opened KeyStrings

  /** A formatter and its data: text of the tokenised message from a position up to the next NUL,
      the whole message, a fixed text, stream state on and off, or a parameter decoder. */
  datatype Entry = From(start: nat) | Whole | Fixed(text: string) | ApplySpec | ResetSpec | Param(code: Code, hex: bool)

  /** The C string at `i`. */
  function CStr(t: string, i: nat): (r: string)
    ensures i <= |t| ==> i + |r| <= |t|
    decreases |t| - i
  {
    if i >= |t| || t[i] == '\0' then "" else [t[i]] + CStr(t, i + 1)
  }

  function Resolve(t: string, msg: string, e: Entry): F.Token {
    match e
    case From(start) => F.Literal(CStr(t, start))
    case Whole => F.Literal(msg)
    case Fixed(text) => F.Literal(text)
    case ApplySpec => F.Apply
    case ResetSpec => F.Reset
    case Param(code, hex) => F.Decoded(code, hex)
  }

  /** What the entries do, given the tokenised message. */
  function ResolveAll(t: string, msg: string, es: seq<Entry>): (r: seq<F.Token>)
    ensures |r| == |es|
  {
    if es == [] then [] else ResolveAll(t, msg, es[..|es| - 1]) + [Resolve(t, msg, es[|es| - 1])]
  }

  lemma {:induction false} ResolveSnoc(t: string, msg: string, es: seq<Entry>, e: Entry)
    ensures ResolveAll(t, msg, es + [e]) == ResolveAll(t, msg, es) + [Resolve(t, msg, e)]
  {
    assert (es + [e])[..|es|] == es;
  }

  lemma {:induction false} ResolveAt(t: string, msg: string, es: seq<Entry>, i: nat)
    requires i < |es|
    ensures ResolveAll(t, msg, es)[i] == Resolve(t, msg, es[i])
    decreases |es|
  {
    if i < |es| - 1 {
      ResolveAt(t, msg, es[..|es| - 1], i);
    }
  }

  /** One formatter of the run. */
  lemma {:induction false} RunStep(toks: seq<F.Token>, i: nat, m: seq<byte>, p: int, styled: bool)
    requires i < |toks|
    ensures F.FormatLength(toks[i..], m, p) ==
      match toks[i]
      case Decoded(code, _) => Width(code, m, p) + F.FormatLength(toks[i + 1..], m, p + Width(code, m, p))
      case _ => F.FormatLength(toks[i + 1..], m, p)
    ensures R.Render(toks[i..], m, p, styled) ==
      match toks[i]
      case Literal(s) => R.Glyphs(s) + R.Render(toks[i + 1..], m, p, styled)
      case Apply => R.Render(toks[i + 1..], m, p, true)
      case Reset => R.Render(toks[i + 1..], m, p, false)
      case Decoded(code, hex) =>
        R.ShowCode(code, hex, styled, m, p) + R.Render(toks[i + 1..], m, p + Width(code, m, p), styled)
  {
    hide Width, R.ShowCode, R.Glyphs;
    assert toks[i..][1..] == toks[i + 1..];
  }

  lemma {:induction false} RunEnd(toks: seq<F.Token>, m: seq<byte>, p: int, styled: bool)
    ensures F.FormatLength(toks[|toks|..], m, p) == 0 && R.Render(toks[|toks|..], m, p, styled) == []
  {
  }

  /** The texts pushed so far end before `limit`. */
  ghost predicate Settled(t: string, es: seq<Entry>, limit: nat) {
    forall i :: 0 <= i < |es| && es[i].From? ==> es[i].start + |CStr(t, es[i].start)| < limit <= |t|
  }

  lemma {:induction false} CStrKept(t: string, t': string, i: nat, limit: nat)
    requires |t| == |t'| && i + |CStr(t, i)| < limit <= |t| && t[..limit] == t'[..limit]
    ensures CStr(t', i) == CStr(t, i)
    decreases |t| - i
  {
    if i < |t| {
      assert t[i] == t[..limit][i] && t'[i] == t'[..limit][i];
      if t[i] != '\0' {
        CStrKept(t, t', i + 1, limit);
      }
    }
  }

  /** Cutting the message further on does not change the texts already pushed. */
  lemma {:induction false} ResolveKept(t: string, t': string, msg: string, es: seq<Entry>, limit: nat)
    requires |t| == |t'| && limit <= |t| && t[..limit] == t'[..limit] && Settled(t, es, limit)
    ensures ResolveAll(t', msg, es) == ResolveAll(t, msg, es) && Settled(t', es, limit)
    decreases |es|
  {
    forall i | 0 <= i < |es| && es[i].From?
      ensures CStr(t', es[i].start) == CStr(t, es[i].start)
    {
      CStrKept(t, t', es[i].start, limit);
    }
    if es != [] {
      ResolveKept(t, t', msg, es[..|es| - 1], limit);
    }
  }

  lemma {:induction false} CStrIs(t: string, i: nat, e: nat)
    requires i <= e < |t| && t[e] == '\0' && '\0' !in t[i..e]
    ensures CStr(t, i) == t[i..e]
    decreases e - i
  {
    if i < e {
      assert t[i] == t[i..e][0] && t[i + 1..e] == t[i..e][1..];
      CStrIs(t, i + 1, e);
    }
  }

  class MessageFormatter {
    var tokenizedMsg: array<char>
    var formatters: seq<Entry>
    var lengths: seq<Code>

    /** The rest of the tokenised message is still the message, up to its NUL. */
    ghost predicate Suffix(msg: string, i: nat)
      reads `tokenizedMsg, tokenizedMsg
    {
      && tokenizedMsg.Length == |msg| + 1 && i <= |msg|
      && tokenizedMsg[i..] == msg[i..] + ['\0']
    }

    ghost predicate Rest(msg: string, i: nat)
      reads `tokenizedMsg, `formatters, tokenizedMsg
    {
      Suffix(msg, i) && Settled(tokenizedMsg[..], formatters, i)
    }

    ghost function Toks(msg: string): seq<F.Token>
      reads `tokenizedMsg, `formatters, tokenizedMsg
    {
      ResolveAll(tokenizedMsg[..], msg, formatters)
    }

    constructor ()
      ensures fresh(tokenizedMsg)
    {
      tokenizedMsg := new char[1](_ => '\0');
      formatters, lengths := [], [];
    }

    method Push(e: Entry, msg: string)
      requires !e.From?
      modifies `formatters
      ensures formatters == old(formatters) + [e]
      ensures Toks(msg) == old(Toks(msg)) + [Resolve("", msg, e)]
      ensures forall i :: old(Rest(msg, i)) ==> Rest(msg, i)
    {
      ResolveSnoc(tokenizedMsg[..], msg, formatters, e);
      formatters := formatters + [e];
    }

    /** Push the text from `start` and cut it at `end`. */
    method PushText(start: nat, end: nat, msg: string)
      requires Rest(msg, start) && start <= end < |msg| && '\0' !in msg
      modifies `formatters, tokenizedMsg
      ensures Toks(msg) == old(Toks(msg)) + [F.Literal(msg[start..end])]
      ensures Rest(msg, end + 1)
    {
      ghost var t := tokenizedMsg[..];
      formatters := formatters + [From(start)];
      tokenizedMsg[end] := '\0';
      ghost var t' := tokenizedMsg[..];
      assert t'[..start] == t[..start];
      ResolveKept(t, t', msg, old(formatters), start);
      ResolveSnoc(t', msg, old(formatters), From(start));
      assert t'[start..end] == t[start..][..end - start] == msg[start..end];
      CStrIs(t', start, end);
      assert tokenizedMsg[end + 1..] == t[start..][end + 1 - start..];
    }

    /** Push the rest of the message from `start`. */
    method PushRest(start: nat, msg: string)
      requires Rest(msg, start) && '\0' !in msg
      modifies `formatters
      ensures Toks(msg) == old(Toks(msg)) + [F.Literal(msg[start..])]
      ensures Suffix(msg, |msg|) && tokenizedMsg == old(tokenizedMsg)
    {
      ghost var t := tokenizedMsg[..];
      ResolveSnoc(t, msg, formatters, From(start));
      formatters := formatters + [From(start)];
      assert t[start..|msg|] == t[start..][..|msg| - start] == msg[start..];
      assert t[|msg|] == t[start..][|msg| - start] == '\0';
      CStrIs(t, start, |msg|);
      assert tokenizedMsg[|msg|..] == t[start..][|msg| - start..] == ['\0'];
    }

    /** `addFormatter`: the next code of the key decides the formatter and the length; returns the key
        position after it. When no formatter supports the code, the source ends the program. */
    method AddFormatter(fmt: string, fmtPtr: nat, hex: bool, msg: string) returns (next: nat, ok: bool)
      requires fmtPtr < |fmt|
      modifies `formatters, `lengths
      ensures var cs := Pieces(fmt[fmtPtr..]);
        && cs != [] && ok == cs[0].Some?
        && (ok ==>
          && Toks(msg) == old(Toks(msg)) + [F.Decoded(cs[0].value, hex)] && lengths == old(lengths) + [cs[0].value]
          && fmtPtr < next <= |fmt| && Pieces(fmt[next..]) == cs[1..])
      ensures forall i :: old(Rest(msg, i)) ==> Rest(msg, i)
    {
      hide ParseCode, Pieces, Toks, Rest, Find;
      var t := fmt[fmtPtr..];
      PiecesStep(t);
      var n := Find(t, ',');
      var code := ParseCode(t[..n]);
      if code.None? {
        return fmtPtr, false;
      }
      Push(Param(code.value, hex), msg);
      lengths := lengths + [code.value];
      next, ok := fmtPtr + n, true;
      if n < |t| {
        next := next + 1;
      }
      assert fmt[next..] == t[next - fmtPtr..];
    }

    /** The search for the next valid specification: `strchr` and `getFormatParamSpec`. */
    method FindParam(msg: string, from: nat) returns (r: F.Next)
      requires from <= |msg|
      ensures r == F.NextSpec(msg, from)
    {
      hide F.ScanSpec;
      var p := from;
      while p < |msg|
        invariant p <= |msg| && F.NextSpec(msg, p) == F.NextSpec(msg, from)
      {
        if msg[p] == '%' {
          var spec := F.ScanSpec(msg, p);
          match spec {
            case CutOff => return F.Cut;
            case Good(len, flagged) => return F.At(p, len, flagged);
            case Bad =>
          }
        }
        p := p + 1;
      }
      r := F.NoSpec;
    }

    /** Everything pushed for one parameter specification; returns the new key position. */
    method PushParam(msgPtr: nat, p: nat, conv: char, flagged: bool, msg: string, fmt: string, fmtPtr: nat)
      returns (next: nat, ok: bool)
      requires Rest(msg, msgPtr) && msgPtr <= p < |msg| && '\0' !in msg && fmtPtr < |fmt|
      modifies `formatters, `lengths, tokenizedMsg
      ensures var cs := Pieces(fmt[fmtPtr..]);
        && cs != [] && ok == cs[0].Some?
        && (ok ==>
          && Toks(msg) == old(Toks(msg)) + F.ArgTokens(msg[msgPtr..p], conv, flagged, cs[0].value)
          && lengths == old(lengths) + [cs[0].value] && Rest(msg, p + 1)
          && next <= |fmt| && Pieces(fmt[next..]) == cs[1..])
    {
      hide Pieces, ResolveAll, CStr, Settled, Suffix, Toks, F.ArgTokens;
      ghost var t0 := Toks(msg);
      ghost var a := if msg[msgPtr..p] == "" then [] else [F.Literal(msg[msgPtr..p])];
      if p > msgPtr {
        PushText(msgPtr, p, msg);
      } else {
        RestNext(msg, p);
      }
      assert Toks(msg) == t0 + a;
      ghost var b := if conv == 'p' then [F.Literal("0x")] else [];
      if conv == 'p' {
        Push(Fixed("0x"), msg);
      }
      assert Toks(msg) == t0 + a + b;
      ghost var c := if flagged then [F.Apply] else [];
      if flagged {
        Push(ApplySpec, msg);
      }
      assert Toks(msg) == t0 + a + b + c;
      next, ok := AddFormatter(fmt, fmtPtr, conv == 'p' || conv == 'x', msg);
      if !ok {
        return;
      }
      ghost var code := Pieces(fmt[fmtPtr..])[0].value;
      ghost var d := [F.Decoded(code, conv == 'p' || conv == 'x')];
      assert Toks(msg) == t0 + a + b + c + d;
      if flagged {
        Push(ResetSpec, msg);
      }
      JoinTokens(t0, msg[msgPtr..p], conv, flagged, code);
    }

    /** One round of the main loop of `init`; `stop` at a specification with no parameter left, `exits` at
        a code that no formatter supports. */
    method OneSpec(msg: string, fmt: string, msgPtr: nat, fmtPtr: nat)
      returns (msgPtr': nat, fmtPtr': nat, stop: bool, exits: bool)
      requires msgPtr < |msg| && Rest(msg, msgPtr) && '\0' !in msg && fmtPtr <= |fmt|
      requires !MeetsCut(msg, msgPtr, |Pieces(fmt[fmtPtr..])|)
      modifies `formatters, `lengths, tokenizedMsg
      ensures exits ==> !Supported(Pieces(fmt[fmtPtr..]))
      ensures !exits ==>
        && msgPtr <= msgPtr' <= |msg| && Suffix(msg, msgPtr') && (msgPtr' < |msg| ==> Rest(msg, msgPtr'))
        && fmtPtr' <= |fmt|
        && (if stop then msgPtr' < |msg| && Pieces(fmt[fmtPtr'..]) == []
            else msgPtr < msgPtr' && !MeetsCut(msg, msgPtr', |Pieces(fmt[fmtPtr'..])|))
        && Continues(msg, old(View(msg, msgPtr, fmt[fmtPtr..])), View(msg, msgPtr', fmt[fmtPtr'..]), stop)
    {
      hide Pieces, ResolveAll, CStr, Settled, Toks, F.ArgTokens;
      hide F.NextSpec, F.Tokenise, Suffix, Rest, Supported, Values;
      ghost var cs := Pieces(fmt[fmtPtr..]);
      CutStep(msg, msgPtr, |cs|);
      StepAll(msg, msgPtr, cs, Toks(msg));
      msgPtr', fmtPtr', stop, exits := msgPtr, fmtPtr, false, false;
      RestSuffix(msg, msgPtr);
      var found := FindParam(msg, msgPtr);
      if found.NoSpec? {
        PushRest(msgPtr, msg);
        msgPtr' := |msg|;
        EndAll(msg, cs, Toks(msg));
        return;
      }
      var p, len := found.p, found.len;
      var conv := msg[p + len - 1];
      if conv == '%' {
        PushText(msgPtr, p + len - 1, msg);
      } else {
        assert fmt[fmtPtr..] == "" <==> fmtPtr == |fmt|;
        if fmtPtr == |fmt| {
          stop := true;
          return;
        }
        SupportedTail(cs);
        var ok;
        fmtPtr', ok := PushParam(msgPtr, p, conv, found.flagged, msg, fmt, fmtPtr);
        if !ok {
          exits := true;
          return;
        }
        Further(msg, p + 1, p + len);
      }
      msgPtr' := p + len;
      RestSuffix(msg, p + len);
    }

    /** Where `init` is: the position in the message, the key text left, and what the vectors hold. */
    ghost function View(msg: string, msgPtr: nat, left: string): Progress
      reads `tokenizedMsg, `formatters, `lengths, tokenizedMsg
    {
      Progress(msgPtr, left, Toks(msg), lengths)
    }

    /** The main loop of `init`, after the wall-clock prefix: stops at the end of the message, or where a
        specification has no parameter left; exits at an unsupported code. */
    method TokeniseMsg(msg: string, fmt: string, fmtPtr0: nat) returns (msgPtr: nat, fmtPtr: nat, exits: bool)
      requires Rest(msg, 0) && '\0' !in msg && fmtPtr0 <= |fmt|
      requires !MeetsCut(msg, 0, |Pieces(fmt[fmtPtr0..])|)
      modifies `formatters, `lengths, tokenizedMsg
      ensures exits ==> !Supported(Pieces(fmt[fmtPtr0..]))
      ensures !exits ==> msgPtr <= |msg| && fmtPtr <= |fmt|
      ensures !exits ==> Ends(msg, old(View(msg, 0, fmt[fmtPtr0..])), View(msg, msgPtr, fmt[fmtPtr..]))
    {
      hide Pieces, ResolveAll, CStr, Settled, Toks, F.Tokenise, Suffix, Rest, Continues, MeetsCut, Ends;
      ghost var first := View(msg, 0, fmt[fmtPtr0..]);
      msgPtr, fmtPtr, exits := 0, fmtPtr0, false;
      RestSuffix(msg, 0);
      AtMsg(msg, 0);
      ContinuesSelf(msg, first);
      while tokenizedMsg[msgPtr] != '\0'
        invariant msgPtr <= |msg| && tokenizedMsg.Length == |msg| + 1
        invariant Suffix(msg, msgPtr) && (msgPtr < |msg| ==> Rest(msg, msgPtr))
        invariant fmtPtr <= |fmt| && !MeetsCut(msg, msgPtr, |Pieces(fmt[fmtPtr..])|)
        invariant Continues(msg, first, View(msg, msgPtr, fmt[fmtPtr..]), false)
        decreases |msg| - msgPtr
      {
        AtMsg(msg, msgPtr);
        var stop;
        ghost var mid := View(msg, msgPtr, fmt[fmtPtr..]);
        ContinuesSupport(msg, first, mid);
        msgPtr, fmtPtr, stop, exits := OneSpec(msg, fmt, msgPtr, fmtPtr);
        if exits {
          return;
        }
        ContinuesOn(msg, first, mid, View(msg, msgPtr, fmt[fmtPtr..]), stop);
        if stop {
          StopEnds(msg, first, View(msg, msgPtr, fmt[fmtPtr..]));
          return;
        }
        AtMsg(msg, msgPtr);
      }
      AtMsg(msg, msgPtr);
      LoopEnds(msg, first, View(msg, msgPtr, fmt[fmtPtr..]));
    }

    lemma {:induction false} RestSuffix(msg: string, i: nat)
      requires Rest(msg, i)
      ensures Suffix(msg, i)
    {
    }

    lemma {:induction false} AtMsg(msg: string, i: nat)
      requires Suffix(msg, i)
      ensures i <= |msg| && tokenizedMsg.Length == |msg| + 1
      ensures i < |msg| && '\0' !in msg ==> tokenizedMsg[i] == msg[i] != '\0'
      ensures i == |msg| ==> tokenizedMsg[i] == '\0'
    {
      assert tokenizedMsg[i] == tokenizedMsg[i..][0];
    }

    lemma {:induction false} Further(msg: string, i: nat, j: nat)
      requires Rest(msg, i) && i <= j <= |msg|
      ensures Rest(msg, j)
    {
      assert tokenizedMsg[j..] == tokenizedMsg[i..][j - i..];
    }

    /** `tokenizedMsg_ = msg()`, with empty vectors. */
    method StartTokens(msg: string)
      modifies this
      ensures fresh(tokenizedMsg) && Rest(msg, 0) && Toks(msg) == [] && lengths == []
    {
      var t := msg + ['\0'];
      tokenizedMsg := new char[|t|](i requires 0 <= i < |t| => t[i]);
      formatters, lengths := [], [];
      assert tokenizedMsg[0..] == t;
    }

    method Clear(msg: string)
      modifies `formatters, `lengths
      ensures Toks(msg) == [] && lengths == []
    {
      formatters, lengths := [], [];
    }

    /** The path for a message with a wrong number of parameters: the message and, in parentheses,
        every parameter of the key. */
    method ListParams(msg: string, fmt: string) returns (exits: bool)
      modifies `formatters, `lengths
      ensures exits <==> !Supported(Pieces(fmt))
      ensures !exits ==> F.Decoder(Toks(msg), lengths) == F.Mismatched(msg, Values(Pieces(fmt)))
    {
      hide Pieces, CStr, Toks, F.ListArgs, Rest, Suffix, Supported, Values;
      exits := false;
      Clear(msg);
      ghost var head := [F.Literal(msg), F.Literal(" % (")];
      Push(Whole, msg);
      Push(Fixed(" % ("), msg);
      assert Toks(msg) == head;
      ghost var all := Pieces(fmt);
      var fmtPtr := 0;
      assert fmt[0..] == fmt;
      ListedNone(all, head);
      while fmtPtr < |fmt|
        invariant fmtPtr <= |fmt| && (Supported(Pieces(fmt[fmtPtr..])) <==> Supported(all))
        invariant Listed(all, Pieces(fmt[fmtPtr..]), head, fmtPtr == 0, Toks(msg), lengths)
      {
        ghost var cs, before, lens, first := Pieces(fmt[fmtPtr..]), Toks(msg), lengths, fmtPtr == 0;
        if fmtPtr != 0 {
          Push(Fixed(","), msg);
        }
        SupportedTail(cs);
        var ok;
        fmtPtr, ok := AddFormatter(fmt, fmtPtr, false, msg);
        if !ok {
          return true;
        }
        ListedNext(all, cs, head, first, before, lens);
      }
      assert fmt[fmtPtr..] == "";
      NoneLeft(all, Pieces(fmt[fmtPtr..]), head, fmtPtr == 0, Toks(msg), lengths);
      Push(Fixed(") "), msg);
      if Supported(all) {
        assert head + F.ListArgs(Values(all), true) + [F.Literal(") ")] == F.Mismatched(msg, Values(all)).toks;
      }
    }

    /** `init` on any key text: it exits if and only if some code of the key is not supported, and otherwise
        fills the two vectors as `InitText` says. */
    method Init(msg: string, fmt: string, lineno: nat) returns (exits: bool)
      requires '\0' !in msg && !MeetsCut(msg, 0, |Pieces(AfterClock(fmt, lineno))|)
      modifies this
      ensures exits <==> !Supported(Pieces(fmt))
      ensures !exits ==> InitText(msg, fmt, lineno) == Some(F.Decoder(Toks(msg), lengths))
    {
      hide Pieces, ResolveAll, CStr, F.Tokenise, Toks, F.Mismatched, Settled, Suffix, Supported, Values, MeetsCut, Ends;
      StartTokens(msg);
      var fmtPtr := 0;
      assert fmt[0..] == fmt;
      if lineno == 0 && "q,q," <= fmt {
        fmtPtr := 4;
        Push(Param(Plain(WallClock), false), msg);
        lengths := [Plain(WallClock)];
        assert Toks(msg) == [F.Decoded(Plain(WallClock), false)];
      }
      ghost var first := View(msg, 0, fmt[fmtPtr..]);
      ClockSupported(fmt, lineno);
      var msgPtr;
      msgPtr, fmtPtr, exits := TokeniseMsg(msg, fmt, fmtPtr);
      if exits {
        return;
      }
      assert fmt[fmtPtr..] == "" <==> fmtPtr == |fmt|;
      EndsInit(msg, fmt, lineno, first, View(msg, msgPtr, fmt[fmtPtr..]));
      if msgPtr < |msg| || fmtPtr < |fmt| {
        exits := ListParams(msg, fmt);
      }
    }

    /** One formatter of `format`, at the parameter bytes at `q`: what it shows, how many bytes it consumes, and
        the stream state it leaves. */
    method FormatOne(i: nat, msg: string, m: seq<byte>, q: int, styled: bool)
      returns (w: nat, shown: seq<R.Item>, styled': bool)
      requires i < |formatters|
      ensures F.FormatLength(Toks(msg)[i..], m, q) == w + F.FormatLength(Toks(msg)[i + 1..], m, q + w)
      ensures R.Render(Toks(msg)[i..], m, q, styled) == shown + R.Render(Toks(msg)[i + 1..], m, q + w, styled')
    {
      hide Width, CStr, R.Render, F.FormatLength, ResolveAll, R.Glyphs, R.ShowCode;
      ResolveAt(tokenizedMsg[..], msg, formatters, i);
      RunStep(Toks(msg), i, m, q, styled);
      w, shown, styled' := 0, [], styled;
      match formatters[i] {
        case From(start) => shown := R.Glyphs(CStr(tokenizedMsg[..], start));
        case Whole => shown := R.Glyphs(msg);
        case Fixed(text) => shown := R.Glyphs(text);
        case ApplySpec => styled' := true;
        case ResetSpec => styled' := false;
        case Param(code, hex) => w, shown := Width(code, m, q), R.ShowCode(code, hex, styled, m, q);
      }
    }

    /** `format` on the parameters at `p`: every formatter in turn; returns how many bytes they consume. */
    method Format(msg: string, m: seq<byte>, p: int) returns (n: nat, out: seq<R.Item>)
      ensures n == F.FormatLength(Toks(msg), m, p) && out == R.Render(Toks(msg), m, p, false)
    {
      hide R.Render, F.FormatLength, Resolve;
      ghost var toks := Toks(msg);
      var styled := false;
      n, out := 0, [];
      assert toks[0..] == toks;
      for i := 0 to |formatters|
        invariant |toks| == |formatters|
        invariant n + F.FormatLength(toks[i..], m, p + n) == F.FormatLength(toks, m, p)
        invariant out + R.Render(toks[i..], m, p + n, styled) == R.Render(toks, m, p, false)
      {
        var w, shown, styled' := FormatOne(i, msg, m, p + n, styled);
        assert out + (shown + R.Render(toks[i + 1..], m, p + n + w, styled'))
          == out + shown + R.Render(toks[i + 1..], m, p + n + w, styled');
        n, out, styled := n + w, out + shown, styled';
      }
      RunEnd(toks, m, p + n, styled);
    }

    /** `length`. */
    method LengthOf(m: seq<byte>, p: int) returns (n: nat)
      ensures n == Length(lengths, m, p)
    {
      hide Width;
      n := 0;
      for i := 0 to |lengths|
        invariant n + Length(lengths[i..], m, p + n) == Length(lengths, m, p)
      {
        assert lengths[i..][1..] == lengths[i + 1..];
        n := n + Width(lengths[i], m, p + n);
      }
    }

    /** A position without text before it needs no cut. */
    lemma {:induction false} RestNext(msg: string, p: nat)
      requires Rest(msg, p) && p < |msg|
      ensures Rest(msg, p + 1)
    {
      assert tokenizedMsg[p + 1..] == tokenizedMsg[p..][1..];
    }
  }

  /** The first code of a key text; an empty one is not supported. */
  lemma {:induction false} PiecesStep(t: string)
    requires t != ""
    ensures var n := Find(t, ',');
      && Pieces(t) == [ParseCode(t[..n])] + Pieces(t[if n < |t| then n + 1 else n..])
      && (ParseCode(t[..n]).Some? ==> n > 0)
  {
    NoCode();
    hide ParseCode, Find;
  }

  lemma {:induction false} NoCode()
    ensures ParseCode("") == None
  {
  }

  // ----------------------------------------------------- the loop as a relation

  /** The tokeniser, with `n` codes left, meets a specification that the end of the message cuts off. */
  predicate MeetsCut(s: string, i: nat, n: nat)
    requires i <= |s|
    decreases |s| - i
  {
    i < |s| &&
    match F.NextSpec(s, i)
    case Cut => true
    case NoSpec => false
    case At(p, len, _) =>
      if s[p + len - 1] == '%' then MeetsCut(s, p + len, n) else n > 0 && MeetsCut(s, p + len, n - 1)
  }

  lemma {:induction false} CutStep(s: string, i: nat, n: nat)
    requires i < |s| && !MeetsCut(s, i, n)
    ensures !F.NextSpec(s, i).Cut?
    ensures var next := F.NextSpec(s, i);
      next.At? ==>
        if s[next.p + next.len - 1] == '%' then !MeetsCut(s, next.p + next.len, n)
        else n > 0 ==> !MeetsCut(s, next.p + next.len, n - 1)
  {
    hide F.NextSpec;
  }

  /** It meets one exactly when the specification function is undefined. */
  lemma {:induction false} CutIff(s: string, i: nat, key: seq<Code>, acc: seq<F.Token>)
    requires i <= |s|
    ensures F.Tokenise(s, i, key, acc).Undefined? <==> MeetsCut(s, i, |key|)
    decreases |s| - i
  {
    hide F.NextSpec, F.ArgTokens;
    if i < |s| {
      match F.NextSpec(s, i) {
        case Cut =>
        case NoSpec =>
        case At(p, len, flagged) =>
          var conv := s[p + len - 1];
          if conv == '%' {
            CutIff(s, p + len, key, acc + [F.Literal(s[i..p + len - 1])]);
          } else if key != [] {
            CutIff(s, p + len, key[1..], acc + F.ArgTokens(s[i..p], conv, flagged, key[0]));
          }
      }
    }
  }

  datatype Progress = Progress(msgPtr: nat, left: string, toks: seq<F.Token>, lengths: seq<Code>)

  /** What the tokeniser will make of a state, if all codes left are supported. */
  ghost function Outcome(msg: string, v: Progress): F.Tokens
    requires v.msgPtr <= |msg| && Supported(Pieces(v.left))
  {
    F.Tokenise(msg, v.msgPtr, Values(Pieces(v.left)), v.toks)
  }

  /** Going from `v` to `w` no unsupported code is passed, and if there is none at all, the outcome is the
      same, or at `w` the tokeniser stops. */
  ghost predicate Continues(msg: string, v: Progress, w: Progress, stop: bool) {
    var cs, cs' := Pieces(v.left), Pieces(w.left);
    && v.msgPtr <= |msg| && w.msgPtr <= |msg|
    && (Supported(cs) <==> Supported(cs'))
    && (Supported(cs) ==>
      && w.lengths + Values(cs') == v.lengths + Values(cs)
      && Outcome(msg, v) == if stop then F.Tokens(w.toks, Values(cs'), false) else Outcome(msg, w))
  }

  /** From `v` the main loop of `init` ends at `w`. */
  ghost predicate Ends(msg: string, v: Progress, w: Progress) {
    var cs, cs' := Pieces(v.left), Pieces(w.left);
    && v.msgPtr <= |msg| && (Supported(cs) <==> Supported(cs'))
    && (Supported(cs) ==>
      && w.lengths + Values(cs') == v.lengths + Values(cs)
      && Outcome(msg, v) == F.Tokens(w.toks, Values(cs'), w.msgPtr == |msg|))
  }

  lemma {:induction false} ContinuesSelf(msg: string, v: Progress)
    requires v.msgPtr <= |msg|
    ensures Continues(msg, v, v, false)
  {
    hide F.Tokenise, Pieces, Supported, Values;
  }

  lemma {:induction false} ContinuesSupport(msg: string, v: Progress, w: Progress)
    requires Continues(msg, v, w, false)
    ensures Supported(Pieces(v.left)) <==> Supported(Pieces(w.left))
  {
    hide F.Tokenise, Pieces, Supported, Values;
  }

  lemma {:induction false} ContinuesOn(msg: string, u: Progress, v: Progress, w: Progress, stop: bool)
    requires Continues(msg, u, v, false) && Continues(msg, v, w, stop)
    ensures Continues(msg, u, w, stop)
  {
    hide F.Tokenise, Pieces, Supported, Values;
  }

  lemma {:induction false} StopEnds(msg: string, v: Progress, w: Progress)
    requires Continues(msg, v, w, true) && w.msgPtr < |msg|
    ensures Ends(msg, v, w)
  {
    hide F.Tokenise, Pieces, Supported, Values;
  }

  lemma {:induction false} LoopEnds(msg: string, v: Progress, w: Progress)
    requires Continues(msg, v, w, false) && w.msgPtr == |msg|
    ensures Ends(msg, v, w)
  {
    hide Pieces, Supported, Values;
  }

  /** One step of the tokeniser on the codes left. */
  lemma {:induction false} StepAll(msg: string, i: nat, cs: seq<Option<Code>>, acc: seq<F.Token>)
    requires i < |msg|
    ensures Supported(cs) ==>
      F.Tokenise(msg, i, Values(cs), acc) ==
        match F.NextSpec(msg, i)
        case Cut => F.Undefined
        case NoSpec => F.Tokens(acc + [F.Literal(msg[i..])], Values(cs), true)
        case At(p, len, flagged) =>
          if msg[p + len - 1] == '%' then F.Tokenise(msg, p + len, Values(cs), acc + [F.Literal(msg[i..p + len - 1])])
          else if cs == [] then F.Tokens(acc, [], false)
          else
            var more := F.ArgTokens(msg[i..p], msg[p + len - 1], flagged, cs[0].value);
            F.Tokenise(msg, p + len, Values(cs)[1..], acc + more)
  {
    hide F.NextSpec, F.ArgTokens, F.Tokenise;
    if Supported(cs) {
      F.TokeniseStep(msg, i, Values(cs), acc);
    }
  }

  lemma {:induction false} EndAll(msg: string, cs: seq<Option<Code>>, acc: seq<F.Token>)
    ensures !MeetsCut(msg, |msg|, |cs|)
    ensures Supported(cs) ==> F.Tokenise(msg, |msg|, Values(cs), acc) == F.Tokens(acc, Values(cs), true)
  {
  }

  // ------------------------------------------------------- listing all parameters

  /** While all parameters are listed: what is pushed and what is left make the whole list. */
  ghost predicate Listed(all: seq<Option<Code>>, cs: seq<Option<Code>>, head: seq<F.Token>, first: bool,
                         toks: seq<F.Token>, lengths: seq<Code>)
  {
    Supported(all) && Supported(cs) ==>
      && lengths + Values(cs) == Values(all)
      && toks + F.ListArgs(Values(cs), first) == head + F.ListArgs(Values(all), true)
  }

  lemma {:induction false} ListedNone(all: seq<Option<Code>>, head: seq<F.Token>)
    ensures Listed(all, all, head, true, head, [])
  {
    hide F.ListArgs, Supported, Values;
  }

  lemma {:induction false} ListedNext(all: seq<Option<Code>>, cs: seq<Option<Code>>, head: seq<F.Token>, first: bool,
                                      toks: seq<F.Token>, lengths: seq<Code>)
    requires cs != [] && cs[0].Some? && Listed(all, cs, head, first, toks, lengths)
    ensures Listed(all, cs[1..], head, false,
      toks + (if first then [] else [F.Literal(",")]) + [F.Decoded(cs[0].value, false)], lengths + [cs[0].value])
  {
    hide F.ListArgs, Supported, Values;
    SupportedTail(cs);
    if Supported(all) && Supported(cs[1..]) {
      var key := Values(cs);
      assert key == [cs[0].value] + Values(cs[1..]) && key[1..] == Values(cs[1..]);
      ListStep(toks, key, first);
    }
  }

  lemma {:induction false} ListStep(before: seq<F.Token>, codes: seq<Code>, first: bool)
    requires codes != []
    ensures before + (if first then [] else [F.Literal(",")]) + [F.Decoded(codes[0], false)]
      + F.ListArgs(codes[1..], false) == before + F.ListArgs(codes, first)
  {
  }

  lemma {:induction false} NoneLeft(all: seq<Option<Code>>, cs: seq<Option<Code>>, head: seq<F.Token>, first: bool,
                                    toks: seq<F.Token>, lengths: seq<Code>)
    requires cs == [] && Listed(all, cs, head, first, toks, lengths) && (Supported(cs) <==> Supported(all))
    ensures Supported(all) && lengths == Values(all) && toks == head + F.ListArgs(Values(all), true)
  {
  }

  // --------------------------------------------------------------- the result

  /** The key text that the main loop starts with. */
  function AfterClock(fmt: string, lineno: nat): string {
    if lineno == 0 && "q,q," <= fmt then fmt[4..] else fmt
  }

  /** `init` as a function of the key text. */
  ghost function InitText(msg: string, fmt: string, lineno: nat): Option<F.Decoder>
    requires Supported(Pieces(fmt))
  {
    ClockSupported(fmt, lineno);
    var clock := lineno == 0 && "q,q," <= fmt;
    var key1 := Values(Pieces(AfterClock(fmt, lineno)));
    match F.Tokenise(msg, 0, key1, if clock then [F.Decoded(Plain(WallClock), false)] else [])
    case Undefined => None
    case Tokens(toks, rest, done) =>
      if done && rest == [] then Some(F.Decoder(toks, (if clock then [Plain(WallClock)] else []) + key1))
      else Some(F.Mismatched(msg, Values(Pieces(fmt))))
  }

  /** The two timestamps are supported codes. */
  lemma {:induction false} ClockSupported(fmt: string, lineno: nat)
    ensures Supported(Pieces(fmt)) <==> Supported(Pieces(AfterClock(fmt, lineno)))
  {
    hide Pieces;
    if lineno == 0 && "q,q," <= fmt {
      ClockPieces(fmt);
      var cs := Pieces(fmt[4..]);
      assert forall i :: 0 <= i < |cs| ==> Pieces(fmt)[i + 2] == cs[i];
    }
  }

  lemma {:induction false} EndsInit(msg: string, fmt: string, lineno: nat, v: Progress, w: Progress)
    requires Ends(msg, v, w) && v.msgPtr == 0 && v.left == AfterClock(fmt, lineno) && w.msgPtr <= |msg|
    requires var clock := lineno == 0 && "q,q," <= fmt;
      && v.toks == (if clock then [F.Decoded(Plain(WallClock), false)] else [])
      && v.lengths == if clock then [Plain(WallClock)] else []
    ensures Supported(Pieces(fmt)) <==> Supported(Pieces(v.left))
    ensures !Supported(Pieces(fmt)) ==> w.left != ""
    ensures Supported(Pieces(fmt)) ==>
      InitText(msg, fmt, lineno) == Some(
        if w.msgPtr == |msg| && w.left == "" then F.Decoder(w.toks, w.lengths)
        else F.Mismatched(msg, Values(Pieces(fmt))))
  {
    hide F.Tokenise, F.Mismatched, Pieces, Supported, Values;
    ClockSupported(fmt, lineno);
    NoneSupported(w.left);
    assert w.lengths + [] == w.lengths;
  }

  lemma {:induction false} NoneSupported(left: string)
    ensures left == "" ==> Supported(Pieces(left))
    ensures Supported(Pieces(left)) ==> (Values(Pieces(left)) == [] <==> left == "")
  {
    hide Pieces;
  }

  /** On a key that `MsgFormatString` has built it is the `Init` that agreement is proved about. */
  lemma {:induction false} InitTextIs(msg: string, key: seq<Code>, lineno: nat)
    ensures Supported(Pieces(KeyText(key)))
    ensures InitText(msg, KeyText(key), lineno) == F.Init(msg, key, lineno)
  {
    hide F.Tokenise, F.Mismatched, KeyText, Pieces, Supported, Values;
    PiecesOfKey(key);
    WallClockPrefix(key);
    if F.WallClockKey(key) {
      ClockLeft(key);
      PiecesOfKey(key[2..]);
    }
    assert [] + key == key;
  }

  lemma {:induction false} ClockLeft(key: seq<Code>)
    requires |key| >= 3 && key[0] == Plain(U64) && key[1] == Plain(U64)
    ensures |KeyText(key)| >= 4 && KeyText(key)[4..] == KeyText(key[2..])
  {
    hide KeyText;
    HeadIsQ(key);
    HeadIsQ(key[1..]);
    assert key[1..][1..] == key[2..];
    assert KeyText(key)[4..] == KeyText(key)[2..][2..];
  }

  lemma {:induction false} JoinTokens(t0: seq<F.Token>, literal: string, conv: char, flagged: bool, code: Code)
    ensures t0 + (if literal == "" then [] else [F.Literal(literal)]) + (if conv == 'p' then [F.Literal("0x")] else [])
      + (if flagged then [F.Apply] else []) + [F.Decoded(code, conv == 'p' || conv == 'x')]
      + (if flagged then [F.Reset] else [])
      == t0 + F.ArgTokens(literal, conv, flagged, code)
  {
  }
}
