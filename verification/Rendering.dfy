/** What a reader of the trace sees of one message: the output of `format` for the formatters that `init` has
    chosen, as characters and parameter values. */
module Rendering {
  import opened Bytes
  import opened Codes
  import opened Wrappers
  import opened Formatting

  /** A character, or a parameter's value, perhaps in hexadecimal or under a conversion's stream state. */
  datatype Item = Glyph(c: char) | Shown(v: Param, hex: bool, styled: bool)

  function Glyphs(s: string): (r: seq<Item>)
    ensures |r| == |s| && forall i :: 0 <= i < |s| ==> r[i] == Glyph(s[i])
  {
    seq(|s|, i requires 0 <= i < |s| => Glyph(s[i]))
  }

  /** What the formatter of a code prints for the bytes at `p`; that of the wall clock prints nothing. */
  function ShowCode(code: Code, hex: bool, styled: bool, m: seq<byte>, p: int): seq<Item> {
    var v := Decode(code, m, p);
    if v.Some? && Shows(code.basic) == AsNothing then [] else [Shown(v, hex && HasHex(code.basic), styled)]
  }

  /** By the letter of a code: nothing for the wall clock, and otherwise the value decoded, in hexadecimal
      exactly if that was asked for and the letter has a hexadecimal formatter; an empty optional as such. */
  lemma {:induction false} ShownByLetter(t: string, hex: bool, styled: bool, m: seq<byte>, p: int)
    requires ParseBasic(t).Some?
    ensures var b := ParseBasic(t).value;
      && ShowCode(Code.Plain(b), hex, styled, m, p) ==
         (if t == "w" then [] else [Shown(Some(DecodeBasic(b, m, p)), hex && HexById(t), styled)])
      && ShowCode(Opt(b), hex, styled, m, p) ==
         if Bytes.At(m, p) == 0 then [Shown(None, hex && HexById(t), styled)]
         else ShowCode(Code.Plain(b), hex, styled, m, p + 1)
  {
    LetterTables(t);
    NothingIsClock(t);
    hide ParseBasic, DecodeBasic, HexById;
  }

  lemma {:induction false} NothingIsClock(t: string)
    requires ParseBasic(t).Some?
    ensures Shows(ParseBasic(t).value) == AsNothing <==> t == "w"
  {
  }

  /** `format`: every formatter in turn, with the stream state it finds. */
  function Render(toks: seq<Token>, m: seq<byte>, p: int, styled: bool): seq<Item> {
    if toks == [] then []
    else
      match toks[0]
      case Literal(s) => Glyphs(s) + Render(toks[1..], m, p, styled)
      case Apply => Render(toks[1..], m, p, true)
      case Reset => Render(toks[1..], m, p, false)
      case Decoded(code, hex) =>
        ShowCode(code, hex, styled, m, p) + Render(toks[1..], m, p + Width(code, m, p), styled)
  }

  // ------------------------------------------------------- printf templates

  /** A character that cannot go on a specification: a percent sign in front of it is only text. */
  predicate Inert(c: char) {
    c != '%' && c != '.' && c !in FLAGS && c !in DIGITS && c !in MODIFIERS && !IsAlpha(c)
  }

  /** A printf template as its author means it: characters, a percent sign that stands for itself, `%%`, and
      conversion specifications. */
  datatype Part =
    | Plain(c: char)
    | Bare(c: char)
    | Percent
    | Spec(flags: string, width: string, precision: Option<string>, modifiers: string, conv: char)
  {
    predicate Ok() {
      match this
      case Plain(c) => c != '%'
      case Bare(c) => Inert(c)
      case Percent => true
      case Spec(flags, width, precision, modifiers, conv) =>
        && (forall i :: 0 <= i < |flags| ==> flags[i] in FLAGS)
        && (forall i :: 0 <= i < |width| ==> width[i] in DIGITS) && (width != "" ==> width[0] != '0')
        && (precision.Some? ==> forall i :: 0 <= i < |precision.value| ==> precision.value[i] in DIGITS)
        && (forall i :: 0 <= i < |modifiers| ==> modifiers[i] in MODIFIERS)
        && IsAlpha(conv) && conv !in MODIFIERS
        && (conv == 'I' ==> width != "" || precision.Some? || modifiers != "")
    }

    /** As it stands in the template. */
    function Text(): string {
      match this
      case Plain(c) => [c]
      case Bare(c) => "%" + [c]
      case Percent => "%%"
      case Spec(flags, width, precision, modifiers, conv) =>
        "%" + flags + width + (if precision.Some? then "." + precision.value else "") + modifiers + [conv]
    }

    /** The specification sets some stream state. */
    predicate Styled() {
      && Spec?
      && (width != "" || precision.Some? || exists i :: 0 <= i < |flags| && flags[i] in "#+0")
    }
  }

  predicate AllOk(parts: seq<Part>) {
    forall i :: 0 <= i < |parts| ==> parts[i].Ok()
  }

  function TextOf(parts: seq<Part>): string {
    if parts == [] then "" else parts[0].Text() + TextOf(parts[1..])
  }

  function Specs(parts: seq<Part>): nat {
    if parts == [] then 0 else (if parts[0].Spec? then 1 else 0) + Specs(parts[1..])
  }

  /** What the author expects to see: the text with `%%` as one character, and for each specification the next
      parameter, in hexadecimal for `x` and `p`, with `0x` in front for `p`. */
  function Meant(parts: seq<Part>, key: seq<Code>, m: seq<byte>, p: int): seq<Item>
    requires Specs(parts) == |key|
  {
    if parts == [] then []
    else
      match parts[0]
      case Plain(c) => [Glyph(c)] + Meant(parts[1..], key, m, p)
      case Bare(c) => [Glyph('%'), Glyph(c)] + Meant(parts[1..], key, m, p)
      case Percent => [Glyph('%')] + Meant(parts[1..], key, m, p)
      case Spec(_, _, _, _, conv) =>
        (if conv == 'p' then [Glyph('0'), Glyph('x')] else [])
        + ShowCode(key[0], conv == 'x' || conv == 'p', parts[0].Styled(), m, p)
        + Meant(parts[1..], key[1..], m, p + Width(key[0], m, p))
  }

  // ------------------------------------------------ scanning a specification

  lemma {:induction false} Front(s: string, i: nat, a: string, b: string)
    requires i + |a| + |b| <= |s| && s[i..i + |a| + |b|] == a + b
    ensures s[i..i + |a|] == a && s[i + |a|..i + |a| + |b|] == b
  {
    assert s[i..i + |a|] == s[i..i + |a| + |b|][..|a|];
    assert s[i + |a|..i + |a| + |b|] == s[i..i + |a| + |b|][|a|..];
  }

  /** A run of characters from a set, with one that is not in it behind. */
  lemma {:induction false} RunIs(s: string, i: nat, run: string, set0: string)
    requires i + |run| < |s| && s[i..i + |run|] == run && s[i + |run|] !in set0
    requires forall k :: 0 <= k < |run| ==> run[k] in set0
    ensures MaxRun(s, i, i + |run|, set0)
  {
    forall k | i <= k < i + |run|
      ensures s[k] in set0
    {
      assert s[k] == s[i..i + |run|][k - i];
    }
  }

  /** Where the parts of a specification at `p` end. */
  function DotText(part: Part): string
    requires part.Spec?
  {
    if part.precision.Some? then "." + part.precision.value else ""
  }

  lemma {:induction false} Slices(s: string, p: nat, a: string, b: string, c: string, d: string, e: char)
    requires p + |a| + |b| + |c| + |d| < |s|
    requires s[p..p + |a| + |b| + |c| + |d| + 1] == a + b + c + d + [e]
    ensures s[p..p + |a|] == a
    ensures s[p + |a|..p + |a| + |b|] == b
    ensures s[p + |a| + |b|..p + |a| + |b| + |c|] == c
    ensures s[p + |a| + |b| + |c|..p + |a| + |b| + |c| + |d|] == d
    ensures s[p + |a| + |b| + |c| + |d|] == e
  {
    Front(s, p, a + b + c + d, [e]);
    Front(s, p, a + b + c, d);
    Front(s, p, a + b, c);
    Front(s, p, a, b);
    assert s[p + |a| + |b| + |c| + |d|..p + |a| + |b| + |c| + |d| + 1][0] == e;
  }

  /** A digit, a point, a modifier and a letter are told apart. */
  lemma {:induction false} Classes(c: char)
    ensures c in DIGITS ==> c !in MODIFIERS && !IsAlpha(c) && c != '.' && c != '%' && (c in FLAGS ==> c == '0')
    ensures c in MODIFIERS ==> c !in FLAGS && c !in DIGITS && c != '.' && c != '%'
    ensures IsAlpha(c) ==> c !in DIGITS && c != '.' && c != '%' && (c in FLAGS ==> c == 'I')
    ensures '.' !in FLAGS && '.' !in DIGITS && '%' !in FLAGS
  {
  }

  /** The character behind a part is the first of the next one that is not empty. */
  lemma {:induction false} FirstOf(s: string, i: nat, a: string)
    requires i + |a| <= |s| && s[i..i + |a|] == a
    ensures a != "" ==> s[i] == a[0]
  {
  }

  /** The parts of a specification lie behind each other from `p` on. */
  ghost predicate Lies(s: string, p: nat, part: Part)
    requires part.Spec?
  {
    var f := p + 1 + |part.flags|;
    var w := f + |part.width|;
    var q := w + |DotText(part)|;
    var e := q + |part.modifiers|;
    && e < |s| && s[p] == '%' && s[p + 1..f] == part.flags && s[f..w] == part.width && s[w..q] == DotText(part)
    && s[q..e] == part.modifiers && s[e] == part.conv && |part.Text()| == e + 1 - p
  }

  lemma {:induction false} LiesThere(s: string, p: nat, part: Part)
    requires part.Spec? && p + |part.Text()| <= |s| && s[p..p + |part.Text()|] == part.Text()
    ensures Lies(s, p, part)
  {
    var flags := "%" + part.flags;
    Slices(s, p, flags, part.width, DotText(part), part.modifiers, part.conv);
    Front(s, p, "%", part.flags);
    assert s[p] == s[p..p + 1][0];
  }

  lemma {:induction false} FlagsRun(s: string, p: nat, part: Part)
    requires part.Spec? && part.Ok() && Lies(s, p, part)
    ensures MaxRun(s, p + 1, p + 1 + |part.flags|, FLAGS) && s[p + 1] != '%'
  {
    hide FLAGS, DIGITS, MODIFIERS, IsAlpha, MaxRun;
    var f := p + 1 + |part.flags|;
    FirstOf(s, f, part.width);
    FirstOf(s, f + |part.width|, DotText(part));
    FirstOf(s, f + |part.width| + |DotText(part)|, part.modifiers);
    Classes(s[f]);
    RunIs(s, p + 1, part.flags, FLAGS);
    FirstOf(s, p + 1, part.flags);
    Classes(s[p + 1]);
  }

  lemma {:induction false} WidthRun(s: string, p: nat, part: Part)
    requires part.Spec? && part.Ok() && Lies(s, p, part)
    ensures var f := p + 1 + |part.flags|;
      var w := f + |part.width|;
      MaxRun(s, f, w, DIGITS) && (s[w] == '.' <==> part.precision.Some?)
  {
    hide FLAGS, DIGITS, MODIFIERS, IsAlpha, MaxRun;
    var w := p + 1 + |part.flags| + |part.width|;
    FirstOf(s, w, DotText(part));
    FirstOf(s, w + |DotText(part)|, part.modifiers);
    Classes(s[w]);
    RunIs(s, w - |part.width|, part.width, DIGITS);
  }

  lemma {:induction false} PrecisionRun(s: string, p: nat, part: Part)
    requires part.Spec? && part.Ok() && Lies(s, p, part) && part.precision.Some?
    ensures var w := p + 1 + |part.flags| + |part.width|;
      MaxRun(s, w + 1, w + |DotText(part)|, DIGITS)
  {
    hide FLAGS, DIGITS, MODIFIERS, IsAlpha, MaxRun;
    var w, digits := p + 1 + |part.flags| + |part.width|, part.precision.value;
    PointAndRun(s, w, digits);
    var q := w + 1 + |digits|;
    FirstOf(s, q, part.modifiers);
    Classes(s[q]);
    RunIs(s, w + 1, digits, DIGITS);
  }

  lemma {:induction false} PointAndRun(s: string, w: nat, digits: string)
    requires w + 1 + |digits| <= |s| && s[w..w + 1 + |digits|] == "." + digits
    ensures s[w + 1..w + 1 + |digits|] == digits
  {
    Front(s, w, ".", digits);
  }

  lemma {:induction false} ModifiersRun(s: string, p: nat, part: Part)
    requires part.Spec? && part.Ok() && Lies(s, p, part)
    ensures var q := p + 1 + |part.flags| + |part.width| + |DotText(part)|;
      MaxRun(s, q, q + |part.modifiers|, MODIFIERS)
  {
    hide FLAGS, DIGITS, MODIFIERS, IsAlpha, MaxRun;
    RunIs(s, p + 1 + |part.flags| + |part.width| + |DotText(part)|, part.modifiers, MODIFIERS);
  }

  lemma {:induction false} FlagsSet(s: string, p: nat, part: Part)
    requires part.Spec? && part.Ok() && Lies(s, p, part)
    ensures SetsFlag(s, p + 1, p + 1 + |part.flags|) <==> exists i :: 0 <= i < |part.flags| && part.flags[i] in "#+0"
  {
    var f := p + 1 + |part.flags|;
    forall k | p + 1 <= k < f
      ensures s[k] == part.flags[k - p - 1]
    {
      assert s[k] == s[p + 1..f][k - p - 1];
    }
    forall i | 0 <= i < |part.flags|
      ensures part.flags[i] == s[p + 1 + i]
    {
    }
  }

  /** The parts of a specification in the text are the longest runs. */
  lemma {:induction false} SpecParts(s: string, p: nat, part: Part)
    requires part.Spec? && part.Ok() && Lies(s, p, part)
    ensures var f := p + 1 + |part.flags|;
      var w := f + |part.width|;
      IsSpec(s, p, f, w, w + |DotText(part)|, |part.Text()|, part.Styled())
    ensures p + 1 < |s| && s[p] == '%' && s[p + 1] != '%' && s[p + |part.Text()| - 1] == part.conv != '%'
  {
    hide FLAGS, DIGITS, MODIFIERS, MaxRun, IsAlpha, SetsFlag;
    FlagsRun(s, p, part);
    WidthRun(s, p, part);
    if part.precision.Some? {
      PrecisionRun(s, p, part);
    }
    ModifiersRun(s, p, part);
    FlagsSet(s, p, part);
    Classes(part.conv);
  }

  /** The tokeniser recognises every specification, whatever follows. */
  lemma {:induction false} ScansSpec(s: string, p: nat, part: Part)
    requires part.Spec? && part.Ok() && p + |part.Text()| <= |s| && s[p..p + |part.Text()|] == part.Text()
    ensures NextSpec(s, p) == At(p, |part.Text()|, part.Styled())
    ensures s[p + |part.Text()| - 1] == part.conv != '%'
  {
    hide ScanSpec, IsSpec, Lies, FLAGS, DIGITS, MODIFIERS;
    LiesThere(s, p, part);
    SpecParts(s, p, part);
    SpecIff(s, p, |part.Text()|, part.Styled());
  }

  // ---------------------------------------------------- tokenising a template

  function Flush(literal: string): seq<Token> {
    if literal == "" then [] else [Literal(literal)]
  }

  /** The formatters of a template; `literal` is text not yet flushed. */
  function PartTokens(parts: seq<Part>, key: seq<Code>, literal: string): seq<Token>
    requires Specs(parts) == |key|
  {
    if parts == [] then Flush(literal)
    else
      match parts[0]
      case Plain(_) | Bare(_) => PartTokens(parts[1..], key, literal + parts[0].Text())
      case Percent => [Literal(literal + "%")] + PartTokens(parts[1..], key, "")
      case Spec(_, _, _, _, conv) =>
        ArgTokens(literal, conv, parts[0].Styled(), key[0]) + PartTokens(parts[1..], key[1..], "")
  }

  /** Every percent sign in the text stands for itself. */
  ghost predicate OnlyText(literal: string) {
    forall k :: 0 <= k < |literal| && literal[k] == '%' ==> k + 1 < |literal| && Inert(literal[k + 1])
  }

  lemma {:induction false} NextAfterText(s: string, i: nat, p: nat)
    requires i <= p <= |s| && OnlyText(s[i..p])
    ensures NextSpec(s, i) == NextSpec(s, p)
    decreases p - i
  {
    if i < p {
      var t := s[i..p];
      assert s[i] == t[0] && s[i + 1..p] == t[1..];
      forall k | 0 <= k < |t[1..]| && t[1..][k] == '%'
        ensures k + 1 < |t[1..]| && Inert(t[1..][k + 1])
      {
        assert t[k + 1] == '%';
      }
      if s[i] == '%' {
        assert s[i + 1] == t[1];
        InertIsBad(s, i);
      }
      hide ScanSpec;
      NextAfterText(s, i + 1, p);
    }
  }

  lemma {:induction false} InertIsBad(s: string, p: nat)
    requires p + 1 < |s| && Inert(s[p + 1])
    ensures ScanSpec(s, p) == Bad
  {
  }

  lemma {:induction false} MoreText(literal: string, part: Part)
    requires OnlyText(literal) && part.Ok() && (part.Plain? || part.Bare?)
    ensures OnlyText(literal + part.Text())
  {
    hide FLAGS, DIGITS, MODIFIERS, IsAlpha;
    var t := literal + part.Text();
    forall k | 0 <= k < |t| && t[k] == '%'
      ensures k + 1 < |t| && Inert(t[k + 1])
    {
      if k < |literal| {
        assert literal[k] == '%' && t[k + 1] == literal[k + 1];
      } else {
        assert part.Bare? && k == |literal|;
      }
    }
  }

  lemma {:induction false} SplitAt(s: string, i: nat, a: string, b: string, c: string)
    requires i <= |s| && s[i..] == a + b + c
    ensures i + |a| + |b| <= |s|
    ensures s[i..i + |a|] == a
    ensures s[i + |a|..i + |a| + |b|] == b
    ensures s[i + |a| + |b|..] == c
  {
    var p, q := i + |a|, i + |a| + |b|;
    assert s[i..p] == s[i..][..|a|];
    assert s[p..q] == s[i..][|a|..|a| + |b|];
    assert s[q..] == s[i..][|a| + |b|..];
  }

  lemma {:induction false} TokeniseText(s: string, i: nat, key: seq<Code>, acc: seq<Token>)
    requires i <= |s| && OnlyText(s[i..])
    ensures Tokenise(s, i, key, acc) == Tokens(acc + Flush(s[i..]), key, true)
  {
    hide ScanSpec;
    assert s[i..|s|] == s[i..];
    NextAfterText(s, i, |s|);
  }

  /** Text, then a specification. */
  lemma {:induction false} TokeniseSpec(s: string, i: nat, literal: string, part: Part, rest: string, key: seq<Code>,
                                        acc: seq<Token>)
    requires i <= |s| && s[i..] == literal + part.Text() + rest && key != [] && OnlyText(literal)
    requires part.Spec? && part.Ok()
    ensures var q := i + |literal| + |part.Text()|;
      && q <= |s| && s[q..] == rest
      && Tokenise(s, i, key, acc) ==
         Tokenise(s, q, key[1..], acc + ArgTokens(literal, part.conv, part.Styled(), key[0]))
  {
    hide NextSpec, ScanSpec, ArgTokens, Tokenise, Part.Ok, Part.Styled;
    var p := i + |literal|;
    SplitAt(s, i, literal, part.Text(), rest);
    NextAfterText(s, i, p);
    ScansSpec(s, p, part);
    TokeniseStep(s, i, key, acc);
  }

  /** Text, then `%%`. */
  lemma {:induction false} TokenisePercent(s: string, i: nat, literal: string, rest: string, key: seq<Code>,
                                           acc: seq<Token>)
    requires i <= |s| && s[i..] == literal + "%%" + rest && OnlyText(literal)
    ensures var q := i + |literal| + 2;
      && q <= |s| && s[q..] == rest
      && Tokenise(s, i, key, acc) == Tokenise(s, q, key, acc + [Literal(literal + "%")])
  {
    hide ArgTokens, Tokenise, SkipWhile, SetsFlag, AfterPrecision;
    var p := i + |literal|;
    SplitAt(s, i, literal, "%%", rest);
    NextAfterText(s, i, p);
    assert s[p] == s[p..p + 2][0] && s[p + 1] == s[p..p + 2][1];
    assert NextSpec(s, p) == At(p, 2, false);
    assert s[i..p + 1] == literal + "%";
    TokeniseStep(s, i, key, acc);
  }

  lemma {:induction false} TextStep(parts: seq<Part>)
    ensures parts == [] ==> TextOf(parts) == ""
    ensures parts != [] ==> TextOf(parts) == parts[0].Text() + TextOf(parts[1..])
    ensures parts != [] && parts[0].Percent? ==> parts[0].Text() == "%%"
  {
  }

  lemma {:induction false} TokeniseParts(s: string, i: nat, parts: seq<Part>, key: seq<Code>, literal: string,
                                         acc: seq<Token>)
    requires i <= |s| && s[i..] == literal + TextOf(parts)
    requires AllOk(parts) && Specs(parts) == |key| && OnlyText(literal)
    ensures Tokenise(s, i, key, acc) == Tokens(acc + PartTokens(parts, key, literal), [], true)
    decreases |parts|, 0
  {
    hide Tokenise, ArgTokens, Part.Styled, PartTokens, Part.Text, Part.Ok, TextOf, Flush;
    PartTokensStep(parts, key, literal);
    TextStep(parts);
    if parts == [] {
      assert s[i..] == literal;
      TokeniseText(s, i, key, acc);
    } else {
      assert parts[0].Ok() && AllOk(parts[1..]);
      var rest := TextOf(parts[1..]);
      match parts[0] {
        case Plain(_) | Bare(_) =>
          assert literal + TextOf(parts) == (literal + parts[0].Text()) + rest;
          MoreText(literal, parts[0]);
          TokeniseParts(s, i, parts[1..], key, literal + parts[0].Text(), acc);
        case Percent =>
          assert literal + TextOf(parts) == literal + "%%" + rest;
          TokenisePercent(s, i, literal, rest, key, acc);
          PartsOn(s, i + |literal| + 2, parts[1..], key, acc, [Literal(literal + "%")]);
        case Spec(_, _, _, _, conv) =>
          assert literal + TextOf(parts) == literal + parts[0].Text() + rest;
          TokeniseSpec(s, i, literal, parts[0], rest, key, acc);
          var more := ArgTokens(literal, conv, parts[0].Styled(), key[0]);
          PartsOn(s, i + |literal| + |parts[0].Text()|, parts[1..], key[1..], acc, more);
      }
    }
  }

  lemma {:induction false} PartsOn(s: string, q: nat, parts: seq<Part>, key: seq<Code>, acc: seq<Token>,
                                   more: seq<Token>)
    requires q <= |s| && s[q..] == TextOf(parts) && AllOk(parts) && Specs(parts) == |key|
    ensures Tokenise(s, q, key, acc + more) == Tokens(acc + (more + PartTokens(parts, key, "")), [], true)
    decreases |parts|, 1
  {
    hide Tokenise, PartTokens, TextOf;
    assert s[q..] == "" + TextOf(parts);
    TokeniseParts(s, q, parts, key, "", acc + more);
    assert acc + (more + PartTokens(parts, key, "")) == acc + more + PartTokens(parts, key, "");
  }

  lemma {:induction false} PartTokensStep(parts: seq<Part>, key: seq<Code>, literal: string)
    requires Specs(parts) == |key|
    ensures PartTokens(parts, key, literal) ==
      if parts == [] then Flush(literal)
      else
        match parts[0]
        case Plain(_) | Bare(_) => PartTokens(parts[1..], key, literal + parts[0].Text())
        case Percent => [Literal(literal + "%")] + PartTokens(parts[1..], key, "")
        case Spec(_, _, _, _, conv) =>
          ArgTokens(literal, conv, parts[0].Styled(), key[0]) + PartTokens(parts[1..], key[1..], "")
  {
    hide ArgTokens, Part.Styled;
  }

  // --------------------------------------------------------------- the output

  lemma {:induction false} RenderText(literal: string, rest: seq<Token>, m: seq<byte>, p: int, styled: bool)
    ensures Render(Flush(literal) + rest, m, p, styled) == Glyphs(literal) + Render(rest, m, p, styled)
    ensures Render([Literal(literal)] + rest, m, p, styled) == Glyphs(literal) + Render(rest, m, p, styled)
  {
    hide ShowCode, Width;
    assert ([Literal(literal)] + rest)[1..] == rest;
    if literal == "" {
      assert Flush(literal) + rest == rest && Glyphs("") == [];
    }
  }

  lemma {:induction false} RenderFirst(t: Token, rest: seq<Token>, m: seq<byte>, p: int, styled: bool)
    ensures Render([t] + rest, m, p, styled) ==
      match t
      case Literal(s) => Glyphs(s) + Render(rest, m, p, styled)
      case Apply => Render(rest, m, p, true)
      case Reset => Render(rest, m, p, false)
      case Decoded(code, hex) =>
        ShowCode(code, hex, styled, m, p) + Render(rest, m, p + Width(code, m, p), styled)
  {
    hide ShowCode, Width;
    assert ([t] + rest)[1..] == rest;
  }

  /** A parameter with the stream state of its specification. */
  lemma {:induction false} RenderStyled(code: Code, hex: bool, flagged: bool, rest: seq<Token>, m: seq<byte>, p: int)
    ensures
      Render((if flagged then [Apply] else []) + [Decoded(code, hex)] + (if flagged then [Reset] else []) + rest, m, p,
             false)
      == ShowCode(code, hex, flagged, m, p) + Render(rest, m, p + Width(code, m, p), false)
  {
    hide ShowCode, Width, Render;
    var q, d := p + Width(code, m, p), Decoded(code, hex);
    if flagged {
      assert [Apply] + [d] + [Reset] + rest == [Apply] + ([d] + ([Reset] + rest));
      RenderFirst(Apply, [d] + ([Reset] + rest), m, p, false);
      RenderFirst(d, [Reset] + rest, m, p, true);
      RenderFirst(Reset, rest, m, q, true);
    } else {
      assert [] + [d] + [] + rest == [d] + rest;
      RenderFirst(d, rest, m, p, false);
    }
  }

  /** The formatters of one specification. */
  lemma {:induction false} RenderArg(literal: string, conv: char, flagged: bool, code: Code, rest: seq<Token>,
                                     m: seq<byte>, p: int)
    ensures Render(ArgTokens(literal, conv, flagged, code) + rest, m, p, false) ==
      Glyphs(literal) + (if conv == 'p' then [Glyph('0'), Glyph('x')] else [])
      + ShowCode(code, conv == 'p' || conv == 'x', flagged, m, p) + Render(rest, m, p + Width(code, m, p), false)
  {
    hide ShowCode, Width, Render, Glyphs;
    var hex, q := conv == 'p' || conv == 'x', p + Width(code, m, p);
    var c := (if flagged then [Apply] else []) + [Decoded(code, hex)] + (if flagged then [Reset] else []) + rest;
    var b := (if conv == 'p' then [Literal("0x")] else []) + c;
    Regroup(literal, conv, flagged, code, rest);
    RenderText(literal, b, m, p, false);
    RenderStyled(code, hex, flagged, rest, m, p);
    if conv == 'p' {
      RenderFirst(Literal("0x"), c, m, p, false);
      assert Glyphs("0x") == [Glyph('0'), Glyph('x')];
    } else {
      assert [] + c == c;
    }
  }

  lemma {:induction false} Regroup(literal: string, conv: char, flagged: bool, code: Code, rest: seq<Token>)
    ensures ArgTokens(literal, conv, flagged, code) + rest ==
      Flush(literal) + ((if conv == 'p' then [Literal("0x")] else [])
        + ((if flagged then [Apply] else []) + [Decoded(code, conv == 'p' || conv == 'x')]
          + (if flagged then [Reset] else []) + rest))
  {
  }

  lemma {:induction false} MeantStep(parts: seq<Part>, key: seq<Code>, m: seq<byte>, p: int)
    requires Specs(parts) == |key| && parts != []
    ensures Meant(parts, key, m, p) ==
      match parts[0]
      case Plain(c) => [Glyph(c)] + Meant(parts[1..], key, m, p)
      case Bare(c) => [Glyph('%'), Glyph(c)] + Meant(parts[1..], key, m, p)
      case Percent => [Glyph('%')] + Meant(parts[1..], key, m, p)
      case Spec(_, _, _, _, conv) =>
        (if conv == 'p' then [Glyph('0'), Glyph('x')] else [])
        + ShowCode(key[0], conv == 'x' || conv == 'p', parts[0].Styled(), m, p)
        + Meant(parts[1..], key[1..], m, p + Width(key[0], m, p))
  {
    hide ShowCode, Part.Styled, Width;
  }

  lemma {:induction false} RenderParts(parts: seq<Part>, key: seq<Code>, literal: string, m: seq<byte>, p: int)
    requires Specs(parts) == |key|
    ensures Render(PartTokens(parts, key, literal), m, p, false) == Glyphs(literal) + Meant(parts, key, m, p)
    decreases |parts|
  {
    hide Render, ArgTokens, Part.Styled, PartTokens, ShowCode, Width, Meant, Flush, Glyphs;
    PartTokensStep(parts, key, literal);
    if parts == [] {
      RenderText(literal, [], m, p, false);
      NothingShown(m, p);
      assert Flush(literal) + [] == Flush(literal);
    } else {
      MeantStep(parts, key, m, p);
      match parts[0] {
        case Plain(c) =>
          RenderParts(parts[1..], key, literal + [c], m, p);
          OneMore(literal, c, Meant(parts[1..], key, m, p));
        case Bare(c) =>
          RenderParts(parts[1..], key, literal + ("%" + [c]), m, p);
          TwoMore(literal, c, Meant(parts[1..], key, m, p));
        case Percent =>
          RenderParts(parts[1..], key, "", m, p);
          RenderText(literal + "%", PartTokens(parts[1..], key, ""), m, p, false);
          OneMore(literal, '%', Meant(parts[1..], key, m, p));
        case Spec(_, _, _, _, conv) =>
          RenderParts(parts[1..], key[1..], "", m, p + Width(key[0], m, p));
          RenderArg(literal, conv, parts[0].Styled(), key[0], PartTokens(parts[1..], key[1..], ""), m, p);
          var zero := if conv == 'p' then [Glyph('0'), Glyph('x')] else [];
          var shown := ShowCode(key[0], conv == 'p' || conv == 'x', parts[0].Styled(), m, p);
          OneShown(Glyphs(literal), zero, shown, Meant(parts[1..], key[1..], m, p + Width(key[0], m, p)));
      }
    }
  }

  lemma {:induction false} OneMore(literal: string, c: char, rest: seq<Item>)
    ensures Glyphs(literal + [c]) + (Glyphs("") + rest) == Glyphs(literal) + ([Glyph(c)] + rest)
    ensures Glyphs(literal + [c]) + rest == Glyphs(literal) + ([Glyph(c)] + rest)
  {
  }

  lemma {:induction false} TwoMore(literal: string, c: char, rest: seq<Item>)
    ensures Glyphs(literal + ("%" + [c])) + rest == Glyphs(literal) + ([Glyph('%'), Glyph(c)] + rest)
  {
  }

  lemma {:induction false} OneShown(a: seq<Item>, b: seq<Item>, c: seq<Item>, rest: seq<Item>)
    ensures a + b + c + (Glyphs("") + rest) == a + (b + c + rest)
  {
  }

  lemma {:induction false} NothingShown(m: seq<byte>, p: int)
    ensures Render([], m, p, false) == [] && Meant([], [], m, p) == []
  {
  }

  // ---------------------------------------------------------- whole messages

  /** The codes of the parameters that a message's own specifications are for: not those of a wall-clock time
      in front of them. */
  function OwnCodes(key: seq<Code>, lineno: nat): seq<Code> {
    if lineno == 0 && |key| >= 3 && key[0] == key[1] == Code.Plain(U64) then key[2..] else key
  }

  /** Messages as their authors mean them: for every printf template and every key with one code for each of
      its specifications, the formatters that `init` chooses show exactly the text and the parameters meant. */
  lemma {:induction false} TemplateShown(parts: seq<Part>, key: seq<Code>, lineno: nat, m: seq<byte>, p: int)
    requires AllOk(parts) && Specs(parts) == |OwnCodes(key, lineno)|
    ensures var d := Init(TextOf(parts), key, lineno);
      && d.Some?
      && Render(d.value.toks, m, p, false) ==
         Meant(parts, OwnCodes(key, lineno), m, p + if OwnCodes(key, lineno) == key then 0 else 16)
  {
    hide Render, PartTokens, Meant, Tokenise, Part.Ok, Length;
    var s, own := TextOf(parts), OwnCodes(key, lineno);
    assert s[0..] == "" + s && Glyphs("") == [];
    if own == key {
      TokeniseParts(s, 0, parts, key, "", []);
      RenderParts(parts, key, "", m, p);
      assert [] + PartTokens(parts, key, "") == PartTokens(parts, key, "");
    } else {
      var clock := Decoded(Code.Plain(WallClock), false);
      TokeniseParts(s, 0, parts, own, "", [clock]);
      RenderParts(parts, own, "", m, p + 16);
      RenderFirst(clock, PartTokens(parts, own, ""), m, p, false);
    }
  }

  /** How many parameter specifications a message has, up to one that its end cuts off. */
  function ParamCount(s: string, i: nat): nat
    requires i <= |s|
    decreases |s| - i
  {
    match NextSpec(s, i)
    case NoSpec | Cut => 0
    case At(p, len, _) => (if s[p + len - 1] == '%' then 0 else 1) + ParamCount(s, p + len)
  }

  /** The tokeniser uses up message and key exactly when the message has as many specifications as the key
      has codes. */
  lemma {:induction false} MatchedIff(s: string, i: nat, key: seq<Code>, acc: seq<Token>)
    requires i <= |s|
    ensures var t := Tokenise(s, i, key, acc);
      t.Tokens? ==> (t.done && t.rest == [] <==> ParamCount(s, i) == |key|)
    decreases |s| - i
  {
    hide NextSpec, ArgTokens;
    if i < |s| {
      match NextSpec(s, i) {
        case NoSpec =>
        case Cut =>
        case At(p, len, flagged) =>
          var conv := s[p + len - 1];
          if conv == '%' {
            MatchedIff(s, p + len, key, acc + [Literal(s[i..p + len - 1])]);
          } else if key != [] {
            MatchedIff(s, p + len, key[1..], acc + ArgTokens(s[i..p], conv, flagged, key[0]));
          }
      }
    } else {
      NoSpecAtEnd(s);
    }
  }

  lemma {:induction false} NoSpecAtEnd(s: string)
    ensures NextSpec(s, |s|) == NoSpec
  {
  }

  /** What each parameter shows. */
  function Each(key: seq<Code>, m: seq<byte>, p: int): seq<seq<Item>> {
    if key == [] then [] else [ShowCode(key[0], false, false, m, p)] + Each(key[1..], m, p + Width(key[0], m, p))
  }

  /** With a comma between each two. */
  function Joined(xs: seq<seq<Item>>): seq<Item> {
    if xs == [] then []
    else if |xs| == 1 then xs[0]
    else xs[0] + [Glyph(',')] + Joined(xs[1..])
  }

  lemma {:induction false} RenderList(key: seq<Code>, first: bool, rest: seq<Token>, m: seq<byte>, p: int)
    ensures exists q: int ::
      Render(ListArgs(key, first) + rest, m, p, false) ==
      (if first || key == [] then [] else [Glyph(',')]) + Joined(Each(key, m, p)) + Render(rest, m, q, false)
    decreases |key|
  {
    hide ShowCode, Width, Render, Glyphs;
    if key == [] {
      assert ListArgs(key, first) + rest == rest;
      assert [] + [] + Render(rest, m, p, false) == Render(rest, m, p, false);
    } else {
      var d, q := Decoded(key[0], false), p + Width(key[0], m, p);
      var tail := ListArgs(key[1..], false) + rest;
      RenderList(key[1..], false, rest, m, q);
      var e: int :| Render(tail, m, q, false) ==
        (if key[1..] == [] then [] else [Glyph(',')]) + Joined(Each(key[1..], m, q)) + Render(rest, m, e, false);
      RenderFirst(d, tail, m, p, false);
      RenderComma(key, first, rest, m, p);
      JoinStep(key, m, p, Render(rest, m, e, false));
    }
  }

  /** The comma in front of a parameter that is not the first. */
  lemma {:induction false} RenderComma(key: seq<Code>, first: bool, rest: seq<Token>, m: seq<byte>, p: int)
    requires key != []
    ensures Render(ListArgs(key, first) + rest, m, p, false) ==
      (if first then [] else [Glyph(',')])
      + Render([Decoded(key[0], false)] + (ListArgs(key[1..], false) + rest), m, p, false)
  {
    hide ShowCode, Width, Render;
    var tail := [Decoded(key[0], false)] + (ListArgs(key[1..], false) + rest);
    if first {
      assert ListArgs(key, first) + rest == tail && [] + Render(tail, m, p, false) == Render(tail, m, p, false);
    } else {
      assert ListArgs(key, first) + rest == [Literal(",")] + tail;
      RenderFirst(Literal(","), tail, m, p, false);
      assert Glyphs(",") == [Glyph(',')];
    }
  }

  lemma {:induction false} JoinStep(key: seq<Code>, m: seq<byte>, p: int, rest: seq<Item>)
    requires key != []
    ensures var q := p + Width(key[0], m, p);
      ShowCode(key[0], false, false, m, p)
        + ((if key[1..] == [] then [] else [Glyph(',')]) + Joined(Each(key[1..], m, q)) + rest)
      == Joined(Each(key, m, p)) + rest
  {
    hide ShowCode, Width;
    var first, others := ShowCode(key[0], false, false, m, p), Each(key[1..], m, p + Width(key[0], m, p));
    assert Each(key, m, p)[1..] == others;
    assert key[1..] == [] <==> others == [];
  }

  /** Wrong numbers of parameters: for every message whose number of specifications is not that of its codes,
      `init` chooses formatters that show the whole message as it is, and then all parameters with commas
      between them in `" % ("` and `") "`. */
  lemma {:induction false} MismatchShown(msg: string, key: seq<Code>, lineno: nat, m: seq<byte>, p: int)
    requires ParamCount(msg, 0) != |OwnCodes(key, lineno)| && Init(msg, key, lineno).Some?
    ensures Render(Init(msg, key, lineno).value.toks, m, p, false) ==
      Glyphs(msg) + Glyphs(" % (") + Joined(Each(key, m, p)) + Glyphs(") ")
  {
    hide Render, Tokenise, ParamCount, Glyphs, Joined, Each, ListArgs;
    var own := OwnCodes(key, lineno);
    MatchedIff(msg, 0, own, if own == key then [] else [Decoded(Code.Plain(WallClock), false)]);
    var end := [Literal(") ")];
    var list := ListArgs(key, true) + end;
    assert Init(msg, key, lineno).value.toks == [Literal(msg)] + ([Literal(" % (")] + list);
    RenderText(msg, [Literal(" % (")] + list, m, p, false);
    RenderText(" % (", list, m, p, false);
    RenderList(key, true, end, m, p);
    var q: int :| Render(list, m, p, false) == [] + Joined(Each(key, m, p)) + Render(end, m, q, false);
    assert end == [Literal(") ")] + [];
    RenderText(") ", [], m, q, false);
    NothingShown(m, q);
    assert Render(list, m, p, false) == Joined(Each(key, m, p)) + Glyphs(") ");
  }

  lemma {:induction false} CountStep(s: string, i: nat)
    requires i <= |s|
    ensures ParamCount(s, i) ==
      match NextSpec(s, i)
      case NoSpec | Cut => 0
      case At(p, len, _) => (if s[p + len - 1] == '%' then 0 else 1) + ParamCount(s, p + len)
  {
    hide NextSpec;
  }

  /** A template has as many specifications as its author wrote. */
  lemma {:induction false} CountParts(s: string, i: nat, parts: seq<Part>, literal: string)
    requires i <= |s| && s[i..] == literal + TextOf(parts) && AllOk(parts) && OnlyText(literal)
    ensures ParamCount(s, i) == Specs(parts)
    decreases |parts|
  {
    hide ParamCount, NextSpec, Part.Ok, Part.Text, Part.Styled, TextOf;
    TextStep(parts);
    CountStep(s, i);
    if parts == [] {
      assert s[i..|s|] == literal;
      NextAfterText(s, i, |s|);
      NoSpecAtEnd(s);
    } else {
      assert parts[0].Ok() && AllOk(parts[1..]);
      var rest, text := TextOf(parts[1..]), parts[0].Text();
      if parts[0].Plain? || parts[0].Bare? {
        assert literal + TextOf(parts) == (literal + text) + rest;
        MoreText(literal, parts[0]);
        CountParts(s, i, parts[1..], literal + text);
      } else {
        var p, q := i + |literal|, i + |literal| + |text|;
        assert literal + TextOf(parts) == literal + text + rest;
        SplitAt(s, i, literal, text, rest);
        NextAfterText(s, i, p);
        ScansPart(s, p, parts[0]);
        assert s[q..] == "" + rest;
        CountParts(s, q, parts[1..], "");
      }
    }
  }

  lemma {:induction false} ScansPart(s: string, p: nat, part: Part)
    requires (part.Percent? || part.Spec?) && part.Ok()
    requires p + |part.Text()| <= |s| && s[p..p + |part.Text()|] == part.Text()
    ensures NextSpec(s, p) == At(p, |part.Text()|, part.Styled())
    ensures s[p + |part.Text()| - 1] == '%' <==> part.Percent?
  {
    hide SkipWhile, AfterPrecision, SetsFlag, IsAlpha;
    if part.Spec? {
      ScansSpec(s, p, part);
    } else {
      assert s[p] == s[p..p + 2][0] && s[p + 1] == s[p..p + 2][1];
    }
  }

  /** The end of a template cuts no specification off, whatever the key. */
  lemma {:induction false} PartsDefined(s: string, i: nat, parts: seq<Part>, literal: string, key: seq<Code>,
                                        acc: seq<Token>)
    requires i <= |s| && s[i..] == literal + TextOf(parts) && AllOk(parts) && OnlyText(literal)
    ensures Tokenise(s, i, key, acc).Tokens?
    decreases |parts|
  {
    hide Tokenise, NextSpec, Part.Ok, Part.Text, Part.Styled, TextOf, ArgTokens;
    TextStep(parts);
    if parts == [] {
      assert s[i..] == literal;
      TokeniseText(s, i, key, acc);
    } else {
      assert parts[0].Ok() && AllOk(parts[1..]);
      var rest, text := TextOf(parts[1..]), parts[0].Text();
      if parts[0].Plain? || parts[0].Bare? {
        assert literal + TextOf(parts) == (literal + text) + rest;
        MoreText(literal, parts[0]);
        PartsDefined(s, i, parts[1..], literal + text, key, acc);
      } else {
        var p, q := i + |literal|, i + |literal| + |text|;
        assert literal + TextOf(parts) == literal + text + rest;
        SplitAt(s, i, literal, text, rest);
        NextAfterText(s, i, p);
        ScansPart(s, p, parts[0]);
        TokeniseStep(s, i, key, acc);
        assert s[q..] == "" + rest;
        if parts[0].Percent? {
          PartsDefined(s, q, parts[1..], "", key, acc + [Literal(s[i..q - 1])]);
        } else if key != [] {
          var more := ArgTokens(s[i..p], s[q - 1], parts[0].Styled(), key[0]);
          PartsDefined(s, q, parts[1..], "", key[1..], acc + more);
        }
      }
    }
  }

  /** What is shown of every message that a template and a list of parameters make: the text and the parameters
      meant, or, if their numbers differ, the template as it is and the parameters in parentheses. */
  lemma {:induction false} MessageShown(parts: seq<Part>, key: seq<Code>, lineno: nat, m: seq<byte>, p: int)
    requires AllOk(parts)
    ensures var d, own := Init(TextOf(parts), key, lineno), OwnCodes(key, lineno);
      && d.Some?
      && Render(d.value.toks, m, p, false) ==
         if Specs(parts) == |own| then Meant(parts, own, m, p + if own == key then 0 else 16)
         else Glyphs(TextOf(parts)) + Glyphs(" % (") + Joined(Each(key, m, p)) + Glyphs(") ")
  {
    hide Render, Meant, ParamCount, Glyphs, Joined, Each, Tokenise, Mismatched;
    var msg, own := TextOf(parts), OwnCodes(key, lineno);
    assert msg[0..] == "" + msg;
    CountParts(msg, 0, parts, "");
    PartsDefined(msg, 0, parts, "", own, if own == key then [] else [Decoded(Code.Plain(WallClock), false)]);
    if Specs(parts) == |own| {
      TemplateShown(parts, key, lineno, m, p);
    } else {
      MismatchShown(msg, key, lineno, m, p);
    }
  }
}
