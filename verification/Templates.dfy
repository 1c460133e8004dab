/** `msgDesc`: the translation of a `{}` template into a printf template. */
module Templates {
  import opened Wrappers

  /** How a parameter is shown: `{}`, `{:x}` or `{:#x}`. */
  datatype Kind = Plain | Hex | HexAlt

  /** What `QVAR`, `QHEX` and `QHEXA` append to the descriptor. */
  function PrintfSpec(k: Kind): string {
    match k
    case Plain => "%s"
    case Hex => "%x"
    case HexAlt => "%#x"
  }

  function Hole(k: Kind): (s: string)
    ensures |s| >= 2 && s[0] == '{'
  {
    match k
    case Plain => "{}"
    case Hex => "{:x}"
    case HexAlt => "{:#x}"
  }

  /** The placeholder that `s` starts with. */
  function Placeholder(s: string): (k: Option<Kind>)
    ensures k.Some? ==> Hole(k.value) <= s
  {
    if Hole(Plain) <= s then Some(Plain)
    else if Hole(Hex) <= s then Some(Hex)
    else if Hole(HexAlt) <= s then Some(HexAlt)
    else None
  }

  /** Doubled braces stand for one, placeholders become conversion specifications, and from the
      first error on everything is copied as it is. */
  function Translate(s: string): string {
    if s == [] then []
    else if s[0] == '{' then
      if |s| > 1 && s[1] == '{' then "{" + Translate(s[2..])
      else
        match Placeholder(s)
        case None => s
        case Some(k) => PrintfSpec(k) + Translate(s[|Hole(k)|..])
    else if s[0] == '}' then
      if |s| > 1 && s[1] == '}' then "}" + Translate(s[2..]) else s
    else [s[0]] + Translate(s[1..])
  }

  function CharAt(s: string, i: nat): char {
    if i < |s| then s[i] else '\0'
  }

  /** The second inner loop: from the character after an opening brace at `start`, find the closing
      one. Returns its position and what the format specification said, or an error. */
  method FindClosing(fmt: string, start: nat) returns (ok: bool, endPos: nat, isHex: bool, isAlternate: bool)
    requires start < |fmt| && fmt[start] == '{' && CharAt(fmt, start + 1) != '{' && '\0' !in fmt
    ensures ok <==> Placeholder(fmt[start..]).Some?
    ensures ok ==> var k := Placeholder(fmt[start..]).value;
      endPos + 1 == start + |Hole(k)| && k == if !isHex then Plain else if isAlternate then HexAlt else Hex
  {
    var s := fmt[start..];
    isHex, isAlternate, endPos := false, false, start + 1;
    while endPos < |fmt|
      invariant start < endPos <= |fmt|
      invariant isHex ==> endPos == start + if isAlternate then 4 else 3
      invariant isHex ==>
        && CharAt(s, 1) == ':'
        && if isAlternate then CharAt(s, 2) == '#' && CharAt(s, 3) == 'x' else CharAt(s, 2) == 'x'
      invariant !isHex ==> endPos == start + 1 && !isAlternate
    {
      assert fmt[endPos] == s[endPos - start];
      if fmt[endPos] == '{' {
        ok := false;
        return;
      }
      if fmt[endPos] == '}' {
        break;
      } else if fmt[endPos] == ':' && !isHex {
        if CharAt(fmt, endPos + 1) == '#' {
          isAlternate := true;
          endPos := endPos + 1;
        }
        if CharAt(fmt, endPos + 1) == 'x' {
          isHex := true;
          endPos := endPos + 1;
        } else {
          ok := false;
          return;
        }
      } else {
        ok := false;
        return;
      }
      endPos := endPos + 1;
    }
    ok := endPos < |fmt|;
  }

  lemma {:induction false} TranslateBrace(s: string, i: nat)
    requires i < |s| && (s[i] == '{' || s[i] == '}') && CharAt(s, i + 1) == s[i]
    ensures Translate(s[i..]) == [s[i]] + Translate(s[i + 2..])
  {
    assert s[i..][2..] == s[i + 2..];
  }

  lemma {:induction false} TranslateChar(s: string, i: nat)
    requires i < |s| && s[i] != '{' && s[i] != '}'
    ensures Translate(s[i..]) == [s[i]] + Translate(s[i + 1..])
  {
    assert s[i..][1..] == s[i + 1..];
  }

  lemma {:induction false} TranslateStop(s: string, i: nat)
    requires i < |s| && s[i] == '}' && CharAt(s, i + 1) != '}'
    ensures Translate(s[i..]) == s[i..]
  {
  }

  lemma {:induction false} TranslateHole(s: string, i: nat)
    requires i < |s| && s[i] == '{' && CharAt(s, i + 1) != '{'
    ensures var k := Placeholder(s[i..]);
      if k.None? then Translate(s[i..]) == s[i..]
      else i + |Hole(k.value)| <= |s| && Translate(s[i..]) == PrintfSpec(k.value) + Translate(s[i + |Hole(k.value)|..])
  {
    var k := Placeholder(s[i..]);
    if k.Some? {
      assert s[i..][|Hole(k.value)|..] == s[i + |Hole(k.value)|..];
    }
  }

  lemma {:induction false} SliceSnoc(s: string, i: nat, j: nat)
    requires i <= j < |s|
    ensures s[i..j + 1] == s[i..j] + [s[j]]
  {
  }

  lemma {:induction false} Regroup(text: string, a: string, c: char, rest: string)
    ensures text + a + ([c] + rest) == text + (a + [c]) + rest == text + (a + [c]) + [] + rest
  {
  }

  /** The first inner loop: copies literal text up to an opening brace or the end, halving doubled
      braces; `stop` when an unbalanced closing brace has made it copy the rest. */
  method CopyLiteral(fmt: string, pos0: nat) returns (text: string, startPos: nat, stop: bool)
    requires pos0 <= |fmt|
    ensures stop ==> text == Translate(fmt[pos0..])
    ensures !stop ==> pos0 <= startPos <= |fmt| && text + Translate(fmt[startPos..]) == Translate(fmt[pos0..])
    ensures !stop && startPos < |fmt| ==> fmt[startPos] == '{' && CharAt(fmt, startPos + 1) != '{'
  {
    hide Translate, Placeholder;
    ghost var goal := Translate(fmt[pos0..]);
    var pos := pos0;
    text, startPos, stop := "", pos0, false;
    while startPos < |fmt|
      invariant pos0 <= pos <= startPos <= |fmt|
      invariant text + fmt[pos..startPos] + Translate(fmt[startPos..]) == goal
    {
      if fmt[startPos] == '{' || fmt[startPos] == '}' {
        if CharAt(fmt, startPos + 1) != fmt[startPos] {
          if fmt[startPos] == '{' {
            break;
          }
          TranslateStop(fmt, startPos);
          assert fmt[pos..] == fmt[pos..startPos] + fmt[startPos..];
          text, stop := text + fmt[pos..], true;
          return;
        }
        TranslateBrace(fmt, startPos);
        SliceSnoc(fmt, pos, startPos);
        Regroup(text, fmt[pos..startPos], fmt[startPos], Translate(fmt[startPos + 2..]));
        startPos := startPos + 1;
        text := text + fmt[pos..startPos];
        pos := startPos + 1;
        assert fmt[pos..startPos + 1] == [];
      } else {
        TranslateChar(fmt, startPos);
        SliceSnoc(fmt, pos, startPos);
        Regroup(text, fmt[pos..startPos], fmt[startPos], Translate(fmt[startPos + 1..]));
      }
      startPos := startPos + 1;
    }
    text := text + fmt[pos..startPos];
  }

  /** The main loop of `msgDesc`, which appends to the descriptor: its index loops compute the translation. */
  method AppendTemplate(start: string, fmt: string) returns (out: string)
    requires '\0' !in fmt
    ensures out == start + Translate(fmt)
  {
    hide Translate, Placeholder, Hole;
    out := start;
    ghost var all := start + Translate(fmt);
    var pos := 0;
    TranslateEmpty();
    assert fmt[0..] == fmt;
    while pos < |fmt|
      invariant pos <= |fmt| && out + Translate(fmt[pos..]) == all
    {
      var text, startPos, stop := CopyLiteral(fmt, pos);
      out := out + text;
      assert fmt[|fmt|..] == [];
      if stop || startPos == |fmt| {
        return;
      }
      TranslateHole(fmt, startPos);
      var ok, endPos, isHex, isAlternate := FindClosing(fmt, startPos);
      if !ok {
        out := out + fmt[startPos..];
        return;
      }
      if isHex {
        if isAlternate {
          out := out + PrintfSpec(HexAlt);
        } else {
          out := out + PrintfSpec(Hex);
        }
      } else {
        out := out + PrintfSpec(Plain);
      }
      pos := endPos + 1;
    }
    assert fmt[pos..] == [];
  }

  /** `msgDesc`: class and function, unless the class is absent, and then the template. */
  method MsgDesc(className: Option<string>, funcName: string, fmt: string) returns (out: string)
    requires '\0' !in fmt
    ensures className == None ==> out == Translate(fmt)
    ensures className == Some("") ==> out == funcName + "() " + Translate(fmt)
    ensures className.Some? && className.value != "" ==>
      out == className.value + "::" + funcName + "() " + Translate(fmt)
  {
    hide Translate;
    out := "";
    if className.Some? {
      if className.value != "" {
        out := out + className.value + "::";
      }
      out := out + funcName + "() ";
    }
    out := AppendTemplate(out, fmt);
  }

  lemma {:induction false} TranslateEmpty()
    ensures Translate([]) == []
  {
  }

  // ---------------------------------------------------- well-formed templates

  /** A template as its author means it: characters and parameters. */
  datatype Piece = Char(c: char) | Param(k: Kind)

  /** One piece in a template, braces doubled, and in the printf template. */
  function PieceSource(p: Piece): string {
    match p
    case Char(c) => if c == '{' then "{{" else if c == '}' then "}}" else [c]
    case Param(k) => Hole(k)
  }

  function PiecePrintf(p: Piece): string {
    match p
    case Char(c) => [c]
    case Param(k) => PrintfSpec(k)
  }

  /** The template text, braces doubled. */
  function Source(ps: seq<Piece>): string {
    if ps == [] then "" else PieceSource(ps[0]) + Source(ps[1..])
  }

  /** The printf template that says the same. */
  function Printf(ps: seq<Piece>): string {
    if ps == [] then "" else PiecePrintf(ps[0]) + Printf(ps[1..])
  }

  lemma {:induction false} PlaceholderHere(k: Kind, rest: string)
    ensures Placeholder(Hole(k) + rest) == Some(k)
    ensures (Hole(k) + rest)[|Hole(k)|..] == rest
    ensures (Hole(k) + rest)[1] != '{'
  {
    var s := Hole(k) + rest;
    match k {
      case Plain =>
      case Hex =>
        assert s[1] == ':' && s[2] == 'x';
        assert !(Hole(Plain) <= s);
      case HexAlt =>
        assert s[1] == ':' && s[2] == '#';
        assert !(Hole(Plain) <= s);
        assert !(Hole(Hex) <= s);
    }
  }

  lemma {:induction false} TranslatePiece(p: Piece, rest: string)
    ensures Translate(PieceSource(p) + rest) == PiecePrintf(p) + Translate(rest)
  {
    hide Placeholder, Hole, PrintfSpec;
    var s := PieceSource(p) + rest;
    match p {
      case Param(k) => PlaceholderHere(k, rest);
      case Char(c) =>
        if c == '{' || c == '}' {
          assert s == [c, c] + rest && s[2..] == rest;
        } else {
          assert s == [c] + rest && s[1..] == rest;
        }
    }
  }

  lemma {:induction false} PiecesStep(ps: seq<Piece>)
    ensures ps == [] ==> Source(ps) == "" && Printf(ps) == ""
    ensures ps != [] ==>
      Source(ps) == PieceSource(ps[0]) + Source(ps[1..]) && Printf(ps) == PiecePrintf(ps[0]) + Printf(ps[1..])
  {
    hide Hole, PrintfSpec;
  }

  /** Every well-formed template is translated to the printf template with the same literal text and
      the same parameters, in order and kind. */
  lemma {:induction false} TranslateWellFormed(ps: seq<Piece>)
    ensures Translate(Source(ps)) == Printf(ps)
    decreases |ps|
  {
    hide Translate, Source, Printf, PieceSource, PiecePrintf;
    PiecesStep(ps);
    if ps == [] {
      TranslateEmpty();
    } else {
      TranslateWellFormed(ps[1..]);
      TranslatePiece(ps[0], Source(ps[1..]));
    }
  }

  // -------------------------------------------------------- all other templates

  /** `bad` starts with a brace that belongs to nothing: a closing one that is not doubled, or an opening one that
      is not doubled and starts no placeholder. */
  predicate StrayBrace(bad: string) {
    || ("}" <= bad && !("}}" <= bad))
    || ("{" <= bad && !("{{" <= bad) && !("{}" <= bad) && !("{:x}" <= bad) && !("{:#x}" <= bad))
  }

  lemma {:induction false} StrayKept(bad: string)
    requires StrayBrace(bad)
    ensures Translate(bad) == bad
  {
    assert |bad| > 1 ==> bad[1] != bad[0];
  }

  /** A template with an error: what is before the first stray brace is translated, and from there on the text
      stays as it is. */
  lemma {:induction false} TranslateStray(ps: seq<Piece>, bad: string)
    requires StrayBrace(bad)
    ensures Translate(Source(ps) + bad) == Printf(ps) + bad
    decreases |ps|
  {
    hide StrayBrace, Translate, Source, Printf, PieceSource, PiecePrintf;
    PiecesStep(ps);
    if ps == [] {
      assert "" + bad == bad;
      StrayKept(bad);
    } else {
      TranslateStray(ps[1..], bad);
      TranslatePiece(ps[0], Source(ps[1..]) + bad);
      assert Source(ps) + bad == PieceSource(ps[0]) + (Source(ps[1..]) + bad);
      assert Printf(ps) + bad == PiecePrintf(ps[0]) + (Printf(ps[1..]) + bad);
    }
  }

  /** Every text is a well-formed template, or one with an error. */
  lemma {:induction false} TemplateCases(s: string) returns (ps: seq<Piece>, bad: string)
    ensures s == Source(ps) + bad && (bad == "" || StrayBrace(bad))
    decreases |s|
  {
    if s == "" {
      return [], "";
    }
    if StrayBrace(s) {
      ps, bad := [], s;
      return;
    }
    var first, n := FirstPiece(s);
    ps, bad := TemplateCases(s[n..]);
    SourceCons(first, ps);
    assert s == s[..n] + s[n..];
    ps := [first] + ps;
  }

  lemma {:induction false} SourceCons(first: Piece, ps: seq<Piece>)
    ensures Source([first] + ps) == Source([first]) + Source(ps)
  {
    hide Hole;
    assert ([first] + ps)[1..] == ps && [first][1..] == [];
    assert Source([]) == "";
  }

  lemma {:induction false} FirstPiece(s: string) returns (first: Piece, n: nat)
    requires s != "" && !StrayBrace(s)
    ensures 0 < n <= |s| && s[..n] == Source([first])
  {
    assert s[..1] == [s[0]];
    if s[0] == '{' {
      if "{{" <= s {
        first, n := Char('{'), 2;
      } else if "{}" <= s {
        first, n := Param(Plain), 2;
      } else if "{:x}" <= s {
        first, n := Param(Hex), 4;
      } else {
        first, n := Param(HexAlt), 5;
      }
    } else if s[0] == '}' {
      first, n := Char('}'), 2;
    } else {
      first, n := Char(s[0]), 1;
    }
    assert [first][1..] == [] && Source([]) == "";
  }
}
