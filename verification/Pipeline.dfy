/** From a `{}` template to what is read: `msgDesc` on the writing side and `init` and `format` on the reading
    side agree on the text and on the placeholders. */
module Pipeline {
  import opened Bytes
  import opened Codes
  import opened Wrappers
  import T = Templates
  import opened Formatting
  import opened Rendering

  /** Percent signs in the template stand for themselves: `msgDesc` does not double them. */
  predicate PercentsInert(ps: seq<T.Piece>) {
    forall i :: 0 <= i < |ps| && ps[i] == T.Char('%') ==> i + 1 < |ps| && ps[i + 1].Char? && Inert(ps[i + 1].c)
  }

  function Holes(ps: seq<T.Piece>): nat {
    if ps == [] then 0 else (if ps[0].Param? then 1 else 0) + Holes(ps[1..])
  }

  /** What the author of a template expects to see: its text, and for each placeholder the next parameter,
      hexadecimal where asked for, with stream state for `{:#x}`. */
  function Expected(ps: seq<T.Piece>, key: seq<Code>, m: seq<byte>, p: int): seq<Item>
    requires Holes(ps) == |key|
  {
    if ps == [] then []
    else
      match ps[0]
      case Char(c) => [Glyph(c)] + Expected(ps[1..], key, m, p)
      case Param(k) =>
        ShowCode(key[0], k != T.Plain, k == T.HexAlt, m, p) + Expected(ps[1..], key[1..], m, p + Width(key[0], m, p))
  }

  /** The printf template as parts. */
  function AsParts(ps: seq<T.Piece>): seq<Part> {
    if ps == [] then []
    else
      match ps[0]
      case Param(Plain) => [Spec("", "", None, "", 's')] + AsParts(ps[1..])
      case Param(Hex) => [Spec("", "", None, "", 'x')] + AsParts(ps[1..])
      case Param(HexAlt) => [Spec("#", "", None, "", 'x')] + AsParts(ps[1..])
      case Char(c) =>
        if c == '%' && |ps| > 1 && ps[1].Char? then [Bare(ps[1].c)] + AsParts(ps[2..])
        else [Part.Plain(c)] + AsParts(ps[1..])
  }

  lemma {:induction false} InertRest(ps: seq<T.Piece>, n: nat)
    requires PercentsInert(ps) && n <= |ps|
    ensures PercentsInert(ps[n..])
  {
    forall i | 0 <= i < |ps[n..]| && ps[n..][i] == T.Char('%')
      ensures i + 1 < |ps[n..]| && ps[n..][i + 1].Char? && Inert(ps[n..][i + 1].c)
    {
      assert ps[n + i] == T.Char('%');
    }
  }

  /** The first part stands for one piece, or for a percent sign and the character behind it. */
  lemma {:induction false} FirstPart(ps: seq<T.Piece>)
    requires ps != []
    ensures var n := if ps[0] == T.Char('%') && |ps| > 1 && ps[1].Char? then 2 else 1;
      && n <= |ps| && AsParts(ps) != [] && AsParts(ps)[1..] == AsParts(ps[n..])
      && match ps[0]
         case Param(k) =>
           AsParts(ps)[0] == Spec(if k == T.HexAlt then "#" else "", "", None, "", if k == T.Plain then 's' else 'x')
         case Char(c) => AsParts(ps)[0] == if n == 2 then Bare(ps[1].c) else Part.Plain(c)
  {
  }

  lemma {:induction false} PrintfStep(ps: seq<T.Piece>)
    requires ps != []
    ensures T.Printf(ps) == (match ps[0] case Char(c) => [c] case Param(k) => T.PrintfSpec(k)) + T.Printf(ps[1..])
    ensures Holes(ps) == (if ps[0].Param? then 1 else 0) + Holes(ps[1..])
  {
    hide T.PrintfSpec;
  }

  lemma {:induction false} FirstText(ps: seq<T.Piece>)
    requires ps != []
    ensures var n := if ps[0] == T.Char('%') && |ps| > 1 && ps[1].Char? then 2 else 1;
      && n <= |ps| && AsParts(ps) != [] && T.Printf(ps) == AsParts(ps)[0].Text() + T.Printf(ps[n..])
      && Holes(ps) == (if AsParts(ps)[0].Spec? then 1 else 0) + Holes(ps[n..])
  {
    hide AsParts, T.Printf, Holes;
    FirstPart(ps);
    PrintfStep(ps);
    if ps[0] == T.Char('%') && |ps| > 1 && ps[1].Char? {
      PrintfStep(ps[1..]);
      assert ps[1..][1..] == ps[2..];
    }
  }

  lemma {:induction false} AsPartsIs(ps: seq<T.Piece>)
    ensures TextOf(AsParts(ps)) == T.Printf(ps) && Specs(AsParts(ps)) == Holes(ps)
    decreases |ps|
  {
    hide AsParts, T.Printf, Holes, Part.Text;
    if ps == [] {
      NoParts();
    } else {
      FirstPart(ps);
      FirstText(ps);
      AsPartsIs(ps[if ps[0] == T.Char('%') && |ps| > 1 && ps[1].Char? then 2 else 1..]);
    }
  }

  lemma {:induction false} NoParts()
    ensures AsParts([]) == [] && T.Printf([]) == "" && Holes([]) == 0
    ensures TextOf([]) == "" && Specs([]) == 0
  {
  }

  lemma {:induction false} AsPartsOk(ps: seq<T.Piece>)
    requires PercentsInert(ps)
    ensures AllOk(AsParts(ps))
    decreases |ps|
  {
    hide Inert;
    if ps != [] {
      InertRest(ps, 1);
      AsPartsOk(ps[1..]);
      if ps[0] == T.Char('%') {
        assert ps[1].Char? && Inert(ps[1].c);
        InertRest(ps, 2);
        AsPartsOk(ps[2..]);
      }
      OnePartOk(ps);
    }
  }

  lemma {:induction false} OnePartOk(ps: seq<T.Piece>)
    requires ps != [] && PercentsInert(ps)
    ensures AsParts(ps)[0].Ok()
  {
    hide Inert;
    if ps[0] == T.Char('%') {
      assert ps[1].Char? && Inert(ps[1].c);
    }
  }

  lemma {:induction false} HoleStyle(k: T.Kind)
    ensures Spec(if k == T.HexAlt then "#" else "", "", None, "", 's').Styled() <==> k == T.HexAlt
    ensures Spec(if k == T.HexAlt then "#" else "", "", None, "", 'x').Styled() <==> k == T.HexAlt
  {
    assert k == T.HexAlt ==> "#"[0] in "#+0";
  }

  lemma {:induction false} ExpectedStep(ps: seq<T.Piece>, key: seq<Code>, m: seq<byte>, p: int)
    requires ps != [] && Holes(ps) == |key|
    ensures Expected(ps, key, m, p) ==
      match ps[0]
      case Char(c) => [Glyph(c)] + Expected(ps[1..], key, m, p)
      case Param(k) =>
        ShowCode(key[0], k != T.Plain, k == T.HexAlt, m, p) + Expected(ps[1..], key[1..], m, p + Width(key[0], m, p))
  {
    hide ShowCode, Width;
  }

  lemma {:induction false} PartsMean(ps: seq<T.Piece>, key: seq<Code>, m: seq<byte>, p: int)
    requires Holes(ps) == |key|
    ensures Specs(AsParts(ps)) == |key| && Meant(AsParts(ps), key, m, p) == Expected(ps, key, m, p)
    decreases |ps|
  {
    hide *;
    AsPartsIs(ps);
    if ps == [] {
      NoParts();
      NothingExpected(m, p);
    } else {
      FirstPart(ps);
      FirstText(ps);
      MeantStep(AsParts(ps), key, m, p);
      ExpectedStep(ps, key, m, p);
      match ps[0] {
        case Char(c) =>
          if c == '%' && |ps| > 1 && ps[1].Char? {
            PartsMean(ps[2..], key, m, p);
            HolesOfChar(ps);
            assert ps[1..][1..] == ps[2..];
            ExpectedStep(ps[1..], key, m, p);
          } else {
            PartsMean(ps[1..], key, m, p);
          }
        case Param(k) =>
          HoleStyle(k);
          PartsMean(ps[1..], key[1..], m, p + Width(key[0], m, p));
      }
    }
  }

  lemma {:induction false} HolesOfChar(ps: seq<T.Piece>)
    requires ps != [] && ps[0].Char?
    ensures Holes(ps[1..]) == Holes(ps)
  {
  }

  lemma {:induction false} NothingExpected(m: seq<byte>, p: int)
    ensures Meant([], [], m, p) == [] && Expected([], [], m, p) == []
  {
  }

  /** Text as pieces of a template. */
  function Letters(s: string): (ps: seq<T.Piece>)
    ensures |ps| == |s| && forall i :: 0 <= i < |s| ==> ps[i] == T.Char(s[i])
  {
    seq(|s|, i requires 0 <= i < |s| => T.Char(s[i]))
  }

  lemma {:induction false} HeadStep(head: string, ps: seq<T.Piece>)
    requires head != ""
    ensures (Letters(head) + ps)[1..] == Letters(head[1..]) + ps && (Letters(head) + ps)[0] == T.Char(head[0])
    ensures Glyphs(head) == [Glyph(head[0])] + Glyphs(head[1..])
  {
  }

  lemma {:induction false} NoHead(ps: seq<T.Piece>)
    ensures Letters("") + ps == ps && Glyphs("") == []
  {
  }

  lemma {:induction false} HeadPieces(head: string, ps: seq<T.Piece>)
    ensures T.Printf(Letters(head) + ps) == head + T.Printf(ps) && Holes(Letters(head) + ps) == Holes(ps)
    decreases |head|
  {
    hide T.Printf, Holes, Letters;
    if head == "" {
      NoHead(ps);
    } else {
      HeadStep(head, ps);
      HeadPieces(head[1..], ps);
      PrintfStep(Letters(head) + ps);
      assert head == [head[0]] + head[1..];
    }
  }

  lemma {:induction false} HeadExpected(head: string, ps: seq<T.Piece>, key: seq<Code>, m: seq<byte>, p: int)
    requires Holes(ps) == |key|
    ensures Holes(Letters(head) + ps) == |key|
    ensures Expected(Letters(head) + ps, key, m, p) == Glyphs(head) + Expected(ps, key, m, p)
    decreases |head|
  {
    hide *;
    HeadPieces(head, ps);
    if head == "" {
      NoHead(ps);
    } else {
      HeadStep(head, ps);
      HeadExpected(head[1..], ps, key, m, p);
      ExpectedStep(Letters(head) + ps, key, m, p);
    }
  }

  lemma {:induction false} HeadInert(head: string, ps: seq<T.Piece>)
    requires OnlyText(head) && PercentsInert(ps)
    ensures PercentsInert(Letters(head) + ps)
  {
    hide Inert;
    var all := Letters(head) + ps;
    forall i | 0 <= i < |all| && all[i] == T.Char('%')
      ensures i + 1 < |all| && all[i + 1].Char? && Inert(all[i + 1].c)
    {
      if i < |head| {
        assert head[i] == '%';
      } else {
        assert ps[i - |head|] == T.Char('%');
      }
    }
  }

  /** What a message with the text `text` shows when its parameters are not as many as its placeholders. */
  function Listed(text: string, key: seq<Code>, m: seq<byte>, p: int): seq<Item> {
    Glyphs(text) + Glyphs(" % (") + Joined(Each(key, m, p)) + Glyphs(") ")
  }

  /** The whole way: for every head and every well-formed template, what the reader shows of the descriptor's
      text is the head as it is, and the template with its parameters as the author means them; or, if there
      are not as many parameters as placeholders, the text and the parameters in parentheses. */
  lemma {:induction false} DescriptorShown(head: string, ps: seq<T.Piece>, key: seq<Code>, lineno: nat, m: seq<byte>,
                                           p: int)
    requires OnlyText(head) && PercentsInert(ps)
    ensures var text, own := head + T.Translate(T.Source(ps)), OwnCodes(key, lineno);
      var d := Init(text, key, lineno);
      && d.Some?
      && Render(d.value.toks, m, p, false) ==
         if Holes(ps) == |own| then Glyphs(head) + Expected(ps, own, m, p + if own == key then 0 else 16)
         else Listed(text, key, m, p)
  {
    hide Init, Render, Expected, Meant, Joined, Each, OnlyText, PercentsInert, Inert, Part.Ok, AsParts, Holes, Specs;
    var all, own := Letters(head) + ps, OwnCodes(key, lineno);
    T.TranslateWellFormed(ps);
    HeadPieces(head, ps);
    HeadInert(head, ps);
    AsPartsIs(all);
    AsPartsOk(all);
    MessageShown(AsParts(all), key, lineno, m, p);
    if Holes(ps) == |own| {
      var q := p + if own == key then 0 else 16;
      HeadExpected(head, ps, own, m, q);
      PartsMean(all, own, m, q);
    }
  }

  lemma {:induction false} GlyphsAppend(a: string, b: string)
    ensures Glyphs(a + b) == Glyphs(a) + Glyphs(b)
  {
  }

  /** The prefix of a class's member function is shown as it is, in front of the template. */
  lemma {:induction false} MemberShown(c: string, f: string, ps: seq<T.Piece>, key: seq<Code>, lineno: nat,
                                       m: seq<byte>, p: int)
    requires OnlyText(c + "::" + f + "() ") && PercentsInert(ps) && Holes(ps) == |OwnCodes(key, lineno)|
    ensures var d, own := Init(c + "::" + f + "() " + T.Translate(T.Source(ps)), key, lineno), OwnCodes(key, lineno);
      && d.Some?
      && Render(d.value.toks, m, p, false) ==
         Glyphs(c) + Glyphs("::") + Glyphs(f) + Glyphs("() ")
         + Expected(ps, own, m, p + if own == key then 0 else 16)
  {
    hide *;
    DescriptorShown(c + "::" + f + "() ", ps, key, lineno, m, p);
    GlyphsAppend(c + "::" + f, "() ");
    GlyphsAppend(c + "::", f);
    GlyphsAppend(c, "::");
  }

  /** ... and that of a function outside classes. */
  lemma {:induction false} FunctionShown(f: string, ps: seq<T.Piece>, key: seq<Code>, lineno: nat, m: seq<byte>, p: int)
    requires OnlyText(f + "() ") && PercentsInert(ps) && Holes(ps) == |OwnCodes(key, lineno)|
    ensures var d, own := Init(f + "() " + T.Translate(T.Source(ps)), key, lineno), OwnCodes(key, lineno);
      && d.Some?
      && Render(d.value.toks, m, p, false) ==
         Glyphs(f) + Glyphs("() ") + Expected(ps, own, m, p + if own == key then 0 else 16)
  {
    hide *;
    DescriptorShown(f + "() ", ps, key, lineno, m, p);
    GlyphsAppend(f, "() ");
  }

  /** `msgDesc` does not double percent signs: the template `{}% done` with its one parameter does not show that,
      but the template as it is and the parameter in parentheses. */
  lemma {:induction false} PercentMisread(m: seq<byte>, p: int)
    ensures var ps, key := [T.Param(T.Plain)] + Letters("% done"), [Code.Plain(U32)];
      var d := Init(T.Translate(T.Source(ps)), key, 1);
      && d.Some? && Holes(ps) == |key|
      && Render(d.value.toks, m, p, false) == Listed("%s% done", key, m, p) != Expected(ps, key, m, p)
  {
    var ps, key := [T.Param(T.Plain)] + Letters("% done"), [Code.Plain(U32)];
    var parts := MisreadParts();
    T.TranslateWellFormed(ps);
    MisreadText(ps);
    MessageShown(parts, key, 1, m, p);
    hide Init, Render, Meant, Joined, Each, Part.Ok, Part.Text, ShowCode, Specs, T.Translate, T.Source;
    ExpectedStep(ps, key, m, p);
    hide Expected;
    assert Listed("%s% done", key, m, p)[0] == Glyph('%');
    FirstShown(key[0], m, p);
  }

  lemma {:induction false} FirstShown(code: Code, m: seq<byte>, p: int)
    requires code == Code.Plain(U32)
    ensures |ShowCode(code, false, false, m, p)| == 1 && ShowCode(code, false, false, m, p)[0].Shown?
  {
  }

  lemma {:induction false} MisreadText(ps: seq<T.Piece>)
    requires ps == [T.Param(T.Plain)] + Letters("% done")
    ensures T.Printf(ps) == "%s% done" && Holes(ps) == 1
  {
    assert ps[1..] == Letters("% done") + [];
    HeadPieces("% done", []);
  }

  lemma {:induction false} PlainText(s: string)
    requires OnlyText(s)
    ensures var parts := AsParts(Letters(s)); AllOk(parts) && TextOf(parts) == s && Specs(parts) == 0
  {
    hide *;
    HeadPieces(s, []);
    NoParts();
    NoPercents();
    HeadInert(s, []);
    AddNothing(s);
    AsPartsIs(Letters(s));
    AsPartsOk(Letters(s));
  }

  lemma {:induction false} AddNothing(s: string)
    ensures Letters(s) + [] == Letters(s) && s + "" == s
  {
  }

  lemma {:induction false} NoPercents()
    ensures PercentsInert([])
  {
  }

  lemma {:induction false} OneMorePart(part: Part, rest: seq<Part>)
    requires part.Ok() && AllOk(rest)
    ensures var parts := [part] + rest;
      && AllOk(parts) && TextOf(parts) == part.Text() + TextOf(rest)
      && Specs(parts) == (if part.Spec? then 1 else 0) + Specs(rest)
  {
    hide Part.Ok, Part.Text;
    assert ([part] + rest)[1..] == rest;
  }

  /** How the tokeniser reads it: two specifications. */
  lemma {:induction false} MisreadParts() returns (parts: seq<Part>)
    ensures AllOk(parts) && TextOf(parts) == "%s% done" && Specs(parts) == 2
  {
    var s, d, rest := Spec("", "", None, "", 's'), Spec(" ", "", None, "", 'd'), AsParts(Letters("one"));
    SpecTexts(s, d);
    assert OnlyText("one");
    PlainText("one");
    hide *;
    OneMorePart(d, rest);
    OneMorePart(s, [d] + rest);
    parts := [s] + ([d] + rest);
  }

  lemma {:induction false} SpecTexts(s: Part, d: Part)
    requires s == Spec("", "", None, "", 's') && d == Spec(" ", "", None, "", 'd')
    ensures s.Ok() && s.Text() == "%s" && d.Ok() && d.Text() == "% d"
  {
  }
}
