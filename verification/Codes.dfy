/** Parameter codes: how many bytes a parameter takes in a record, how the `put` overloads
    encode it, how qttail decodes it, and the text of a deserialisation key.

    Integers are modelled by their unsigned images and floating-point numbers by their bits. */
module Codes {
  import opened Bytes
  import opened Wrappers

  datatype Basic = U8 | U16 | U32 | U64 | Char | Str | Bool | Float | Double | WallClock

  /** A code is a basic one or a one-level `OPT` of a basic one. */
  datatype Code = Plain(basic: Basic) | Opt(basic: Basic)

  /** How a value is shown. Integers are shown without sign, whatever their C++ type; the wall-clock time in
      front of a message's own parameters is not shown with them. */
  datatype Kind = AsNumber | AsChar | AsBool | AsFloat | AsDouble | AsString | AsNothing

  /** A parameter value: the bits of a fixed-width code with what they stand for, or the bytes of a string. */
  datatype Value = Number(kind: Kind, n: nat) | Text(s: seq<byte>)

  /** A decoded parameter; `None` is an empty optional. */
  type Param = Option<Value>

  /** How the formatter of a code shows what it reads. */
  function Shows(b: Basic): Kind {
    match b
    case U8 | U16 | U32 | U64 => AsNumber
    case Char => AsChar
    case Str => AsString
    case Bool => AsBool
    case Float => AsFloat
    case Double => AsDouble
    case WallClock => AsNothing
  }

  // ---------------------------------------------------------------- lengths

  function FixedWidth(b: Basic): nat
    requires b != Str
  {
    match b
    case U8 | Char | Bool => 1
    case U16 => 2
    case U32 | Float => 4
    case U64 | Double => 8
    case WallClock => 16
  }

  /** The `length*` functions of MessageFormatter.cpp. */
  function BasicWidth(b: Basic, m: seq<byte>, p: int): nat {
    if b == Str then 1 + At(m, p) else FixedWidth(b)
  }

  function Width(c: Code, m: seq<byte>, p: int): (w: nat)
    ensures w >= 1
  {
    match c
    case Plain(b) => BasicWidth(b, m, p)
    case Opt(b) => 1 + if At(m, p) != 0 then BasicWidth(b, m, p + 1) else 0
  }

  /** What `MessageFormatter::length` adds up: the widths of all the codes of a key. */
  function Length(key: seq<Code>, m: seq<byte>, p: int): nat {
    if key == [] then 0
    else
      var w := Width(key[0], m, p);
      w + Length(key[1..], m, p + w)
  }

  /** `ps` is exactly the parameter area of one record with this key. */
  predicate Fits(key: seq<Code>, ps: seq<byte>) {
    Length(key, ps, 0) == |ps|
  }

  lemma {:induction false} WidthLocal(c: Code, m: seq<byte>, p: int, m': seq<byte>, p': int, room: nat)
    requires Sub(m, p, room) == Sub(m', p', room)
    requires Width(c, m, p) <= room
    ensures Width(c, m', p') == Width(c, m, p)
  {
    assert Sub(m, p, room)[0] == Sub(m', p', room)[0];
    if c.Opt? && At(m, p) != 0 {
      assert Sub(m, p, room)[1] == Sub(m', p', room)[1];
    }
  }

  /** The decoded length depends only on the bytes that it spans. */
  lemma {:induction false} LengthLocal(key: seq<Code>, m: seq<byte>, p: int, m': seq<byte>, p': int, room: nat)
    requires Sub(m, p, room) == Sub(m', p', room)
    requires Length(key, m, p) <= room
    ensures Length(key, m', p') == Length(key, m, p)
    decreases |key|
  {
    if key != [] {
      var w := Width(key[0], m, p);
      WidthLocal(key[0], m, p, m', p', room);
      assert Sub(m, p + w, room - w) == Sub(m, p, room)[w..];
      assert Sub(m', p' + w, room - w) == Sub(m', p', room)[w..];
      LengthLocal(key[1..], m, p + w, m', p' + w, room - w);
    }
  }

  // ------------------------------------------------------- encoding, decoding

  /** An argument of a trace call: its code and its value, `None` for an empty optional. */
  datatype Arg = Arg(code: Code, value: Param)

  predicate BasicOk(b: Basic, v: Value) {
    if b == Str then v.Text? else v.Number? && v.kind == Shows(b) && v.n < Pow256(FixedWidth(b))
  }

  /** The arguments that the `put` overloads accept: the value has the C++ type of its code. */
  predicate ArgOk(a: Arg) {
    match a.value
    case None => a.code.Opt?
    case Some(v) => BasicOk(a.code.basic, v)
  }

  /** What is left of a C string after `putWithMaxLen`: cut at its first NUL and at `maxLen`. */
  function CutString(s: seq<byte>, maxLen: nat): (r: seq<byte>)
    ensures |r| <= maxLen && r <= s && 0 !in r
    ensures |r| == maxLen || |r| == |s| || s[|r|] == 0
  {
    if s == [] || s[0] == 0 || maxLen == 0 then []
    else [s[0]] + CutString(s[1..], maxLen - 1)
  }

  function CutValue(v: Value, maxLen: nat): Value {
    match v
    case Number(_, _) => v
    case Text(s) => Text(CutString(s, maxLen))
  }

  function CutParam(v: Param, maxLen: nat): Param {
    match v
    case None => None
    case Some(x) => Some(CutValue(x, maxLen))
  }

  function CutAll(args: seq<Arg>, maxLen: nat): seq<Param> {
    if args == [] then [] else [CutParam(args[0].value, maxLen)] + CutAll(args[1..], maxLen)
  }

  function EncodeBasic(b: Basic, v: Value, maxLen: nat): seq<byte>
    requires BasicOk(b, v) && maxLen < 256
  {
    match v
    case Number(_, n) => Store(n, FixedWidth(b))
    case Text(s) => var t := CutString(s, maxLen); [|t|] + t
  }

  /** The `put` overloads: a one-byte flag before the value of an optional. */
  function Encode(a: Arg, maxLen: nat): seq<byte>
    requires ArgOk(a) && maxLen < 256
  {
    match a.code
    case Plain(b) => EncodeBasic(b, a.value.value, maxLen)
    case Opt(b) => if a.value.None? then [0] else [1] + EncodeBasic(b, a.value.value, maxLen)
  }

  predicate ArgsOk(args: seq<Arg>) {
    forall i :: 0 <= i < |args| ==> ArgOk(args[i])
  }

  function EncodeAll(args: seq<Arg>, maxLen: nat): seq<byte>
    requires ArgsOk(args) && maxLen < 256
  {
    if args == [] then [] else Encode(args[0], maxLen) + EncodeAll(args[1..], maxLen)
  }

  function KeyOf(args: seq<Arg>): (key: seq<Code>)
    ensures |key| == |args|
  {
    if args == [] then [] else [args[0].code] + KeyOf(args[1..])
  }

  /** What the `format*` functions read. */
  function DecodeBasic(b: Basic, m: seq<byte>, p: int): Value {
    if b == Str then Text(Sub(m, p + 1, At(m, p)))
    else Number(Shows(b), Load(Sub(m, p, FixedWidth(b))))
  }

  function Decode(c: Code, m: seq<byte>, p: int): Param {
    match c
    case Plain(b) => Some(DecodeBasic(b, m, p))
    case Opt(b) => if At(m, p) != 0 then Some(DecodeBasic(b, m, p + 1)) else None
  }

  function DecodeAll(key: seq<Code>, m: seq<byte>, p: int): seq<Param> {
    if key == [] then []
    else [Decode(key[0], m, p)] + DecodeAll(key[1..], m, p + Width(key[0], m, p))
  }

  lemma {:induction false} EncodeBasicDecodes(b: Basic, v: Value, maxLen: nat, m: seq<byte>, p: nat)
    requires BasicOk(b, v) && maxLen < 256
    requires var bs := EncodeBasic(b, v, maxLen); p + |bs| <= |m| && m[p..p + |bs|] == bs
    ensures BasicWidth(b, m, p) == |EncodeBasic(b, v, maxLen)|
    ensures DecodeBasic(b, m, p) == CutValue(v, maxLen)
  {
    var bs := EncodeBasic(b, v, maxLen);
    match v {
      case Number(_, n) =>
        SubIsSlice(m, p, FixedWidth(b));
        LoadStore(n, FixedWidth(b));
      case Text(s) =>
        var t := CutString(s, maxLen);
        assert m[p] == m[p..p + |bs|][0];
        SubIsSlice(m, p + 1, |t|);
        assert m[p + 1..p + 1 + |t|] == m[p..p + |bs|][1..];
    }
  }

  lemma {:induction false} EncodeDecodes(a: Arg, maxLen: nat, m: seq<byte>, p: nat)
    requires ArgOk(a) && maxLen < 256
    requires var bs := Encode(a, maxLen); p + |bs| <= |m| && m[p..p + |bs|] == bs
    ensures Width(a.code, m, p) == |Encode(a, maxLen)|
    ensures Decode(a.code, m, p) == CutParam(a.value, maxLen)
  {
    var bs := Encode(a, maxLen);
    match a.code {
      case Plain(b) => EncodeBasicDecodes(b, a.value.value, maxLen, m, p);
      case Opt(b) =>
        assert m[p] == m[p..p + |bs|][0];
        if a.value.Some? {
          assert m[p + 1..p + |bs|] == m[p..p + |bs|][1..];
          EncodeBasicDecodes(b, a.value.value, maxLen, m, p + 1);
        }
    }
  }

  /** Parameter round trip: the decoder built for the arguments' codes consumes exactly the bytes
      that were written and returns the arguments, strings cut to the maximum length. */
  lemma {:induction false} ParamRoundTrip(args: seq<Arg>, maxLen: nat, m: seq<byte>, p: nat)
    requires ArgsOk(args) && maxLen < 256
    requires var bs := EncodeAll(args, maxLen); p + |bs| <= |m| && m[p..p + |bs|] == bs
    ensures Length(KeyOf(args), m, p) == |EncodeAll(args, maxLen)|
    ensures DecodeAll(KeyOf(args), m, p) == CutAll(args, maxLen)
    decreases |args|
  {
    hide CutParam, Encode, Width, Decode, ArgOk;
    if args != [] {
      var e, rest := Encode(args[0], maxLen), EncodeAll(args[1..], maxLen);
      SliceParts(m, p, e, rest);
      EncodeDecodes(args[0], maxLen, m, p);
      ParamRoundTrip(args[1..], maxLen, m, p + |e|);
    }
  }

  /** So the parameter area of a record written by the `put` overloads fits its key. */
  lemma {:induction false} EncodedFits(args: seq<Arg>, maxLen: nat)
    requires ArgsOk(args) && maxLen < 256
    ensures Fits(KeyOf(args), EncodeAll(args, maxLen))
  {
    var bs := EncodeAll(args, maxLen);
    assert bs[0..|bs|] == bs;
    ParamRoundTrip(args, maxLen, bs, 0);
  }

  // ------------------------------------------------------------ key text

  function BasicText(b: Basic): (t: string)
    ensures |t| == 1 && t[0] != ',' && t[0] != 'O'
  {
    match b
    case U8 => "u"
    case U16 => "s"
    case U32 => "i"
    case U64 => "q"
    case Char => "c"
    case Str => "p"
    case Bool => "b"
    case Float => "f"
    case Double => "d"
    case WallClock => "w"
  }

  const OPT: string := "OPT"

  /** What `formatString` returns for a type. */
  function CodeText(c: Code): (t: string)
    ensures t != [] && ',' !in t
  {
    match c
    case Plain(b) => BasicText(b)
    case Opt(b) => OPT + BasicText(b)
  }

  function KeyText(key: seq<Code>): string {
    if key == [] then ""
    else if |key| == 1 then CodeText(key[0])
    else CodeText(key[0]) + "," + KeyText(key[1..])
  }

  function ParseBasic(t: string): Option<Basic> {
    if t == "u" then Some(U8)
    else if t == "s" then Some(U16)
    else if t == "i" then Some(U32)
    else if t == "q" then Some(U64)
    else if t == "c" then Some(Char)
    else if t == "p" then Some(Str)
    else if t == "b" then Some(Bool)
    else if t == "f" then Some(Float)
    else if t == "d" then Some(Double)
    else if t == "w" then Some(WallClock)
    else None
  }

  /** `selectFormatter` and `selectLength`: a basic code, or a basic code behind the OPT prefix;
      anything else ends the program with "unsupported format". */
  function ParseCode(t: string): Option<Code> {
    if ParseBasic(t).Some? then Some(Plain(ParseBasic(t).value))
    else if OPT <= t && ParseBasic(t[3..]).Some? then Some(Opt(ParseBasic(t[3..]).value))
    else None
  }

  /** `strchr( s, c ) - s`, or the length of `s` when `c` does not occur. */
  function Find(s: string, c: char): (i: nat)
    ensures i <= |s|
    ensures forall j :: 0 <= j < i ==> s[j] != c
    ensures i < |s| ==> s[i] == c
  {
    if s == [] || s[0] == c then 0 else 1 + Find(s[1..], c)
  }

  lemma {:induction false} ParseCodeText(c: Code)
    ensures ParseCode(CodeText(c)) == Some(c)
  {
    match c {
      case Plain(b) =>
      case Opt(b) =>
        assert |CodeText(c)| == 4;
        assert CodeText(c)[3..] == BasicText(b);
    }
  }

  // ------------------------------------------------------ the tables by letter

  /** What a formatter or length function reads: a fixed number of bytes, or as many as its first byte says. */
  datatype Reads = Exactly(n: nat) | Counted

  /** `formattersById_`: what the formatter of each letter shows, and what it reads. */
  function FormatterById(t: string): Option<(Kind, Reads)> {
    if t == "u" then Some((AsNumber, Exactly(1)))
    else if t == "s" then Some((AsNumber, Exactly(2)))
    else if t == "i" then Some((AsNumber, Exactly(4)))
    else if t == "q" then Some((AsNumber, Exactly(8)))
    else if t == "c" then Some((AsChar, Exactly(1)))
    else if t == "p" then Some((AsString, Counted))
    else if t == "b" then Some((AsBool, Exactly(1)))
    else if t == "f" then Some((AsFloat, Exactly(4)))
    else if t == "d" then Some((AsDouble, Exactly(8)))
    else if t == "w" then Some((AsNothing, Exactly(16)))
    else None
  }

  /** `lengthsById_`, written down separately in the source. */
  function LengthById(t: string): Option<Reads> {
    if t in ["u", "c", "b"] then Some(Exactly(1))
    else if t in ["s"] then Some(Exactly(2))
    else if t in ["i", "f"] then Some(Exactly(4))
    else if t in ["q", "d"] then Some(Exactly(8))
    else if t in ["w"] then Some(Exactly(16))
    else if t in ["p"] then Some(Counted)
    else None
  }

  /** The letters of `hexFormattersById_`. */
  predicate HexById(t: string) {
    t in ["u", "s", "i", "q"]
  }

  /** The codes that can be shown in hexadecimal: the numbers. */
  predicate HasHex(b: Basic) {
    Shows(b) == AsNumber
  }

  function ReadsOf(b: Basic): Reads {
    if b == Str then Counted else Exactly(FixedWidth(b))
  }

  /** The tables of formatters, of lengths and of hexadecimal formatters agree with each other and with the
      codes: a text is in both of the first two or in neither, with what its code shows and reads, and in the
      third exactly when it is shown as a number. */
  lemma {:induction false} LetterTables(t: string)
    ensures FormatterById(t).Some? == LengthById(t).Some? == ParseBasic(t).Some?
    ensures ParseBasic(t).Some? ==> var b := ParseBasic(t).value;
      && FormatterById(t).value == (Shows(b), ReadsOf(b)) && LengthById(t).value == ReadsOf(b)
      && (HexById(t) <==> HasHex(b))
  {
    if ParseBasic(t).Some? {
      match ParseBasic(t).value {
        case U8 => assert t == "u";
        case U16 => assert t == "s";
        case U32 => assert t == "i";
        case U64 => assert t == "q";
        case Char => assert t == "c";
        case Str => assert t == "p";
        case Bool => assert t == "b";
        case Float => assert t == "f";
        case Double => assert t == "d";
        case WallClock => assert t == "w";
      }
    }
  }
}
