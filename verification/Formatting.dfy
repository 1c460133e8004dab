/** `MessageFormatter::init`: a printf template and a deserialisation key become a list of
    formatters and a list of lengths; the two always consume the same bytes of a record. */
module Formatting {
  import opened Bytes
  import opened Codes
  import opened Wrappers

  // ------------------------------------------- conversion specifications

  /** `getFormatParamSpec` at a `%`: not a specification, one of `len` characters (`flagged` when it
      sets any stream state), or one that the end of the message cuts off. */
  datatype Spec = Bad | Good(len: nat, flagged: bool) | CutOff

  function SkipWhile(s: string, i: nat, set0: string): (r: nat)
    requires i <= |s|
    ensures i <= r <= |s|
    ensures forall j :: i <= j < r ==> s[j] in set0
    ensures r < |s| ==> s[r] !in set0
    decreases |s| - i
  {
    if i < |s| && s[i] in set0 then SkipWhile(s, i + 1, set0) else i
  }

  const FLAGS: string := "#0- +'I"
  const DIGITS: string := "0123456789"
  const MODIFIERS: string := "hlqLjzZt"

  predicate IsAlpha(c: char) {
    'a' <= c <= 'z' || 'A' <= c <= 'Z'
  }

  /** `isalpha` in the C locale, by ASCII codes. */
  lemma {:induction false} AlphaIs(c: char)
    ensures IsAlpha(c) <==> 65 <= c as int <= 90 || 97 <= c as int <= 122
  {
  }

  /** Some flag in `s[i..j]` is one that `CFormatSpec` records. */
  predicate SetsFlag(s: string, i: nat, j: nat)
    requires i <= j <= |s|
  {
    exists k :: i <= k < j && (s[k] == '#' || s[k] == '+' || s[k] == '0')
  }

  function AfterPrecision(s: string, w: nat): (q: nat)
    requires w <= |s|
    ensures w <= q <= |s|
  {
    if w < |s| && s[w] == '.' then SkipWhile(s, w + 1, DIGITS) else w
  }

  function ScanSpec(s: string, p: nat): (r: Spec)
    requires p < |s|
    ensures r.Good? ==> r.len >= 2 && p + r.len <= |s| && (s[p + r.len - 1] == '%' || IsAlpha(s[p + r.len - 1]))
  {
    if p + 1 == |s| then CutOff
    else if s[p + 1] == '%' then Good(2, false)
    else
      var f := SkipWhile(s, p + 1, FLAGS);
      var w := SkipWhile(s, f, DIGITS);
      var q := AfterPrecision(s, w);
      var m := SkipWhile(s, q, MODIFIERS);
      if m == |s| then CutOff
      else if IsAlpha(s[m]) then Good(m + 1 - p, SetsFlag(s, p + 1, f) || f < w || w < q)
      else Bad
  }

  /** `s[i..j]` is the longest run of characters from `set0` at `i`. */
  ghost predicate MaxRun(s: string, i: nat, j: nat, set0: string) {
    && i <= j <= |s|
    && (forall k :: i <= k < j ==> s[k] in set0)
    && (j < |s| ==> s[j] !in set0)
  }

  /** The parts of a specification at `p`: flags up to `f`, a width up to `w`, a precision up to `q`, length
      modifiers, and one letter as the last of `len` characters. */
  ghost predicate IsSpec(s: string, p: nat, f: nat, w: nat, q: nat, len: nat, flagged: bool) {
    && MaxRun(s, p + 1, f, FLAGS) && MaxRun(s, f, w, DIGITS)
    && (if w < |s| && s[w] == '.' then MaxRun(s, w + 1, q, DIGITS) else q == w)
    && len > 0 && MaxRun(s, q, p + len - 1, MODIFIERS)
    && p + len <= |s| && IsAlpha(s[p + len - 1])
    && flagged == (SetsFlag(s, p + 1, f) || f < w || w < q)
  }

  lemma {:induction false} MaxRunIs(s: string, i: nat, j: nat, set0: string)
    requires i <= |s|
    ensures MaxRun(s, i, j, set0) <==> j == SkipWhile(s, i, set0)
  {
    var k := SkipWhile(s, i, set0);
    if MaxRun(s, i, j, set0) {
      assert j >= k && k >= j;
    }
  }

  /** Exactly which specifications are accepted: `%%`, and those made of the longest runs of flags, digits,
      precision and modifiers with a letter behind them. */
  lemma {:induction false} SpecIff(s: string, p: nat, len: nat, flagged: bool)
    requires p < |s|
    ensures ScanSpec(s, p) == Good(len, flagged) <==>
      && p + 1 < |s|
      && if s[p + 1] == '%' then len == 2 && !flagged
         else exists f: nat, w: nat, q: nat :: IsSpec(s, p, f, w, q, len, flagged)
  {
    hide SkipWhile, MaxRun, SetsFlag, IsSpec, AfterPrecision;
    if p + 1 < |s| && s[p + 1] != '%' {
      if ScanSpec(s, p) == Good(len, flagged) {
        SpecFound(s, p, len, flagged);
      }
      forall f: nat, w: nat, q: nat | IsSpec(s, p, f, w, q, len, flagged)
        ensures ScanSpec(s, p) == Good(len, flagged)
      {
        SpecUnique(s, p, f, w, q, len, flagged);
        SpecAlpha(s, p, f, w, q, len, flagged);
      }
    }
  }

  lemma {:induction false} SpecAlpha(s: string, p: nat, f: nat, w: nat, q: nat, len: nat, flagged: bool)
    requires p + 1 < |s| && IsSpec(s, p, f, w, q, len, flagged)
    ensures len > 0 && p + len <= |s| && IsAlpha(s[p + len - 1])
    ensures f <= w <= q <= |s| && p + 1 <= f
    ensures flagged == (SetsFlag(s, p + 1, f) || f < w || w < q)
  {
  }

  lemma {:induction false} SpecFound(s: string, p: nat, len: nat, flagged: bool)
    requires p + 1 < |s| && s[p + 1] != '%' && ScanSpec(s, p) == Good(len, flagged)
    ensures exists f: nat, w: nat, q: nat :: IsSpec(s, p, f, w, q, len, flagged)
  {
    hide SkipWhile, MaxRun, SetsFlag, ScanSpec, AfterPrecision, IsAlpha;
    var f := SkipWhile(s, p + 1, FLAGS);
    var w := SkipWhile(s, f, DIGITS);
    var q := AfterPrecision(s, w);
    ScanParts(s, p, len, flagged);
    MaxRunIs(s, p + 1, f, FLAGS);
    MaxRunIs(s, f, w, DIGITS);
    PrecisionIs(s, w);
    MaxRunIs(s, q, p + len - 1, MODIFIERS);
    assert IsSpec(s, p, f, w, q, len, flagged);
  }

  lemma {:induction false} PrecisionIs(s: string, w: nat)
    requires w <= |s|
    ensures var q := AfterPrecision(s, w);
      if w < |s| && s[w] == '.' then MaxRun(s, w + 1, q, DIGITS) else q == w
  {
    hide SkipWhile, MaxRun;
    if w < |s| {
      MaxRunIs(s, w + 1, AfterPrecision(s, w), DIGITS);
    }
  }

  lemma {:induction false} ScanParts(s: string, p: nat, len: nat, flagged: bool)
    requires p + 1 < |s| && s[p + 1] != '%' && ScanSpec(s, p) == Good(len, flagged)
    ensures var f := SkipWhile(s, p + 1, FLAGS);
      var w := SkipWhile(s, f, DIGITS);
      var q := AfterPrecision(s, w);
      && p + len - 1 == SkipWhile(s, q, MODIFIERS) < |s| && IsAlpha(s[p + len - 1])
      && flagged == (SetsFlag(s, p + 1, f) || f < w || w < q)
  {
    hide SkipWhile, SetsFlag, AfterPrecision, IsAlpha;
  }

  lemma {:induction false} SpecUnique(s: string, p: nat, f: nat, w: nat, q: nat, len: nat, flagged: bool)
    requires p + 1 < |s| && IsSpec(s, p, f, w, q, len, flagged)
    ensures f == SkipWhile(s, p + 1, FLAGS) && w == SkipWhile(s, f, DIGITS) && q == AfterPrecision(s, w)
    ensures p + len - 1 == SkipWhile(s, q, MODIFIERS)
  {
    MaxRunIs(s, p + 1, f, FLAGS);
    MaxRunIs(s, f, w, DIGITS);
    if w < |s| {
      MaxRunIs(s, w + 1, q, DIGITS);
    }
    MaxRunIs(s, q, p + len - 1, MODIFIERS);
  }

  /** The next conversion specification at or after `i`. */
  datatype Next = NoSpec | At(p: nat, len: nat, flagged: bool) | Cut

  function NextSpec(s: string, i: nat): (r: Next)
    requires i <= |s|
    ensures r.At? ==> i <= r.p && r.len >= 2 && r.p + r.len <= |s|
    decreases |s| - i
  {
    if i == |s| then NoSpec
    else if s[i] != '%' then NextSpec(s, i + 1)
    else
      match ScanSpec(s, i)
      case CutOff => Cut
      case Bad => NextSpec(s, i + 1)
      case Good(len, flagged) => At(i, len, flagged)
  }

  // --------------------------------------------------------------- tokens

  /** What one formatter does: write text, set or reset stream state, decode a parameter. */
  datatype Token = Literal(s: string) | Apply | Reset | Decoded(code: Code, hex: bool)

  /** Result of tokenising: the tokens, the codes not used, and whether the message was consumed. */
  datatype Tokens = Tokens(toks: seq<Token>, rest: seq<Code>, done: bool) | Undefined

  /** The formatters pushed for one parameter specification. */
  function ArgTokens(literal: string, conv: char, flagged: bool, code: Code): seq<Token> {
    (if literal == "" then [] else [Literal(literal)])
    + (if conv == 'p' then [Literal("0x")] else [])
    + (if flagged then [Apply] else [])
    + [Decoded(code, conv == 'p' || conv == 'x')]
    + (if flagged then [Reset] else [])
  }

  function Tokenise(s: string, i: nat, key: seq<Code>, acc: seq<Token>): Tokens
    requires i <= |s|
    decreases |s| - i
  {
    if i == |s| then Tokens(acc, key, true)
    else
      match NextSpec(s, i)
      case Cut => Undefined
      case NoSpec => Tokens(acc + [Literal(s[i..])], key, true)
      case At(p, len, flagged) =>
        var conv := s[p + len - 1];
        if conv == '%' then Tokenise(s, p + len, key, acc + [Literal(s[i..p + len - 1])])
        else if key == [] then Tokens(acc, key, false)
        else Tokenise(s, p + len, key[1..], acc + ArgTokens(s[i..p], conv, flagged, key[0]))
  }

  /** One step of the tokeniser. */
  lemma {:induction false} TokeniseStep(s: string, i: nat, key: seq<Code>, acc: seq<Token>)
    requires i < |s|
    ensures Tokenise(s, i, key, acc) ==
      match NextSpec(s, i)
      case Cut => Undefined
      case NoSpec => Tokens(acc + [Literal(s[i..])], key, true)
      case At(p, len, flagged) =>
        if s[p + len - 1] == '%' then Tokenise(s, p + len, key, acc + [Literal(s[i..p + len - 1])])
        else if key == [] then Tokens(acc, key, false)
        else Tokenise(s, p + len, key[1..], acc + ArgTokens(s[i..p], s[p + len - 1], flagged, key[0]))
  {
    hide NextSpec, ArgTokens;
  }

  /** The tokens of the mismatch case: the message, then all parameters. */
  function ListArgs(key: seq<Code>, first: bool): seq<Token> {
    if key == [] then []
    else (if first then [] else [Literal(",")]) + [Decoded(key[0], false)] + ListArgs(key[1..], false)
  }

  /** Does the key start with the two numbers of a wall-clock timestamp and a comma after them? */
  predicate WallClockKey(key: seq<Code>) {
    |key| >= 3 && key[0] == Plain(U64) && key[1] == Plain(U64)
  }

  /** `formatters_` and `lengths_` after `init`. */
  datatype Decoder = Decoder(toks: seq<Token>, lengths: seq<Code>)

  function Mismatched(msg: string, key: seq<Code>): Decoder {
    Decoder([Literal(msg), Literal(" % (")] + ListArgs(key, true) + [Literal(") ")], key)
  }

  function Init(msg: string, key: seq<Code>, lineno: nat): Option<Decoder> {
    var clock := lineno == 0 && WallClockKey(key);
    var key1 := if clock then key[2..] else key;
    var start := if clock then [Decoded(Plain(WallClock), false)] else [];
    match Tokenise(msg, 0, key1, start)
    case Undefined => None
    case Tokens(toks, rest, done) =>
      if done && rest == [] then Some(Decoder(toks, (if clock then [Plain(WallClock)] else []) + key1))
      else Some(Mismatched(msg, key))
  }

  // -------------------------------------------------------------- agreement

  /** `format`: the bytes that the formatters consume. */
  function FormatLength(toks: seq<Token>, m: seq<byte>, p: int): nat {
    if toks == [] then 0
    else
      var w := if toks[0].Decoded? then Width(toks[0].code, m, p) else 0;
      w + FormatLength(toks[1..], m, p + w)
  }

  /** The codes of the parameters, in order. */
  function ArgCodes(toks: seq<Token>): seq<Code> {
    if toks == [] then [] else (if toks[0].Decoded? then [toks[0].code] else []) + ArgCodes(toks[1..])
  }

  lemma {:induction false} FormatIsLength(toks: seq<Token>, m: seq<byte>, p: int)
    ensures FormatLength(toks, m, p) == Length(ArgCodes(toks), m, p)
    decreases |toks|
  {
    if toks != [] {
      var w := if toks[0].Decoded? then Width(toks[0].code, m, p) else 0;
      FormatIsLength(toks[1..], m, p + w);
      if toks[0].Decoded? {
        assert ArgCodes(toks)[1..] == ArgCodes(toks[1..]);
      } else {
        assert ArgCodes(toks) == ArgCodes(toks[1..]);
      }
    }
  }

  lemma {:induction false} ArgCodesStep(a: seq<Token>)
    requires a != []
    ensures ArgCodes(a) == (if a[0].Decoded? then [a[0].code] else []) + ArgCodes(a[1..])
  {
  }

  lemma {:induction false} ArgCodesConcat(a: seq<Token>, b: seq<Token>)
    ensures ArgCodes(a + b) == ArgCodes(a) + ArgCodes(b)
    decreases |a|
  {
    if a == [] {
      assert a + b == b;
    } else {
      ArgCodesStep(a);
      ArgCodesStep(a + b);
      assert (a + b)[1..] == a[1..] + b && (a + b)[0] == a[0];
      ArgCodesConcat(a[1..], b);
      hide ArgCodes;
      var first := if a[0].Decoded? then [a[0].code] else [];
      assert first + ArgCodes(a[1..]) + ArgCodes(b) == first + (ArgCodes(a[1..]) + ArgCodes(b));
    }
  }

  lemma {:induction false} ArgTokensCode(literal: string, conv: char, flagged: bool, code: Code)
    ensures ArgCodes(ArgTokens(literal, conv, flagged, code)) == [code]
  {
    var a := if literal == "" then [] else [Literal(literal)];
    var b := if conv == 'p' then [Literal("0x")] else [];
    var c := if flagged then [Apply] else [];
    var d := [Decoded(code, conv == 'p' || conv == 'x')];
    var e := if flagged then [Reset] else [];
    ArgCodesConcat(a + b + c + d, e);
    ArgCodesConcat(a + b + c, d);
    ArgCodesConcat(a + b, c);
    ArgCodesConcat(a, b);
  }

  /** Tokenising uses the codes in order, one per parameter. */
  lemma {:induction false} TokeniseCodes(s: string, i: nat, key: seq<Code>, acc: seq<Token>)
    requires i <= |s|
    ensures var t := Tokenise(s, i, key, acc);
      t.Tokens? ==> ArgCodes(t.toks) + t.rest == ArgCodes(acc) + key
    decreases |s| - i
  {
    hide ArgCodes, ArgTokens, NextSpec;
    if i < |s| {
      match NextSpec(s, i) {
        case Cut =>
        case NoSpec =>
          TextOnly(acc, s[i..]);
        case At(p, len, flagged) =>
          var conv := s[p + len - 1];
          if conv == '%' {
            TextOnly(acc, s[i..p + len - 1]);
            TokeniseCodes(s, p + len, key, acc + [Literal(s[i..p + len - 1])]);
          } else if key != [] {
            var more := ArgTokens(s[i..p], conv, flagged, key[0]);
            ArgCodesConcat(acc, more);
            ArgTokensCode(s[i..p], conv, flagged, key[0]);
            TokeniseCodes(s, p + len, key[1..], acc + more);
            assert [key[0]] + key[1..] == key;
          }
      }
    }
  }

  lemma {:induction false} TextOnly(acc: seq<Token>, s: string)
    ensures ArgCodes(acc + [Literal(s)]) == ArgCodes(acc)
  {
    ArgCodesConcat(acc, [Literal(s)]);
  }

  lemma {:induction false} ListArgsCodes(key: seq<Code>, first: bool)
    ensures ArgCodes(ListArgs(key, first)) == key
    decreases |key|
  {
    if key != [] {
      ListArgsCodes(key[1..], false);
      var a := if first then [] else [Literal(",")];
      ArgCodesConcat(a + [Decoded(key[0], false)], ListArgs(key[1..], false));
      ArgCodesConcat(a, [Decoded(key[0], false)]);
      assert ArgCodes([Decoded(key[0], false)]) == [key[0]];
    }
  }

  lemma {:induction false} MismatchedCodes(msg: string, key: seq<Code>)
    ensures ArgCodes(Mismatched(msg, key).toks) == key
  {
    var a, b := [Literal(msg), Literal(" % (")], ListArgs(key, true);
    ListArgsCodes(key, true);
    ArgCodesConcat(a + b, [Literal(") ")]);
    ArgCodesConcat(a, b);
    assert ArgCodes(a) == ArgCodes(a[1..]) == ArgCodes(a[1..][1..]) == [];
  }

  /** The formatters decode exactly the parameters whose lengths are listed, whichever path `init`
      took. */
  lemma {:induction false} InitCodes(msg: string, key: seq<Code>, lineno: nat)
    ensures var d := Init(msg, key, lineno);
      d.Some? ==> ArgCodes(d.value.toks) == d.value.lengths
    ensures var d := Init(msg, key, lineno);
      d.Some? ==> d.value.lengths == key || (WallClockKey(key) && d.value.lengths == [Plain(WallClock)] + key[2..])
  {
    var clock := lineno == 0 && WallClockKey(key);
    var key1 := if clock then key[2..] else key;
    var start := if clock then [Decoded(Plain(WallClock), false)] else [];
    assert ArgCodes(start) == if clock then [Plain(WallClock)] else [];
    TokeniseCodes(msg, 0, key1, start);
    MismatchedCodes(msg, key);
  }

  /** Two 64-bit numbers take as many bytes as the wall-clock timestamp that replaces them. */
  lemma {:induction false} WallClockSameLength(key: seq<Code>, m: seq<byte>, p: int)
    requires WallClockKey(key)
    ensures Length([Plain(WallClock)] + key[2..], m, p) == Length(key, m, p)
  {
    assert ([Plain(WallClock)] + key[2..])[1..] == key[2..];
    assert key[1..][1..] == key[2..];
    assert Length(key, m, p) == 8 + Length(key[1..], m, p + 8);
    assert Length(key[1..], m, p + 8) == 8 + Length(key[2..], m, p + 16);
  }

  /** Decoder agreement: for every template whose specifications are complete and every key, on every
      buffer, `format` and `length` return the same value, the sum of the key's code widths. */
  lemma {:induction false} Agreement(msg: string, key: seq<Code>, lineno: nat, m: seq<byte>, p: int)
    ensures var d := Init(msg, key, lineno);
      d.Some? ==>
        && FormatLength(d.value.toks, m, p) == Length(d.value.lengths, m, p)
        && Length(d.value.lengths, m, p) == Length(key, m, p)
  {
    hide Init, Length, FormatLength, WallClockKey;
    InitCodes(msg, key, lineno);
    var d := Init(msg, key, lineno);
    if d.Some? {
      FormatIsLength(d.value.toks, m, p);
      if d.value.lengths != key {
        WallClockSameLength(key, m, p);
      }
    }
  }
}
