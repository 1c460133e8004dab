/** Which bytes and which code a C++ argument gets: two independent sets of overloads, `put` on the
    writing side and `formatString` for the key, that have to agree for every type and data model. */
module CppTypes {
  import opened Bytes
  import opened Codes
  import opened Wrappers

  /** The argument types for which both sets have an overload. */
  datatype Scalar =
    | Character
    | SignedChar
    | UnsignedChar
    | Short
    | UnsignedShort
    | Int
    | UnsignedInt
    | Long
    | UnsignedLong
    | LongLong
    | UnsignedLongLong
    | Boolean
    | Single
    | DoublePrecision
    | Pointer
    | CString

  /** `sizeof`, where `long` and pointers have 64 bits (`__LP64__`) or 32. */
  function SizeOf(t: Scalar, lp64: bool): nat
    requires t != CString
  {
    match t
    case Character | SignedChar | UnsignedChar | Boolean => 1
    case Short | UnsignedShort => 2
    case Int | UnsignedInt | Single => 4
    case Long | UnsignedLong | Pointer => if lp64 then 8 else 4
    case LongLong | UnsignedLongLong | DoublePrecision => 8
  }

  /** How many bytes the `put` overload for the type pushes, in the order of the overloads. */
  function PutWidth(t: Scalar, lp64: bool): nat
    requires t != CString
  {
    match t
    case Character => 1
    case SignedChar => 1
    case UnsignedChar => 1
    case UnsignedShort => 2
    case Short => 2
    case UnsignedInt => 4
    case Int => 4
    case UnsignedLongLong => 8
    case LongLong => 8
    case Long => if lp64 then 8 else 4
    // The overload for `uint64_t`, or the one that casts to `uint32_t`.
    case UnsignedLong => if lp64 then 8 else 4
    case Boolean => 1
    case Single => 4
    case DoublePrecision => 8
    case Pointer => if lp64 then 8 else 4
  }

  /** What the `formatString` overload for the type returns. */
  function FormatOf(t: Scalar, lp64: bool): string {
    match t
    case Character => "c"
    case UnsignedChar | SignedChar => "u"
    case UnsignedShort | Short => "s"
    case UnsignedInt | Int => "i"
    case LongLong | UnsignedLongLong => "q"
    // The overloads for `int64_t` and `uint64_t`, or those for 32-bit `long`.
    case Long | UnsignedLong => if lp64 then "q" else "i"
    case Single => "f"
    case DoublePrecision => "d"
    case CString => "p"
    case Boolean => "b"
    case Pointer => if (if lp64 then 8 else 4) == 8 then "q" else "i"
  }

  /** What a value of the type is to the reader of the trace; pointers and signed integers are shown as
      unsigned numbers. */
  function KindOf(t: Scalar): Kind {
    match t
    case Character => AsChar
    case Boolean => AsBool
    case Single => AsFloat
    case DoublePrecision => AsDouble
    case CString => AsString
    case SignedChar | Short | Int | Long | LongLong => AsNumber
    case UnsignedChar | UnsignedShort | UnsignedInt | UnsignedLong | UnsignedLongLong => AsNumber
    case Pointer => AsNumber
  }

  /** The type of an argument: a scalar or a `std::optional` of one. */
  datatype Type = Of(scalar: Scalar) | Optional(scalar: Scalar)

  /** An argument: its type and its value, `None` for an empty optional. */
  datatype Argument = Argument(typ: Type, value: Param)

  predicate ValueOk(t: Scalar, lp64: bool, v: Value) {
    if t == CString then v.Text? else v.Number? && v.kind == KindOf(t) && v.n < Pow256(SizeOf(t, lp64))
  }

  predicate ArgumentOk(a: Argument, lp64: bool) {
    match a.value
    case None => a.typ.Optional?
    case Some(v) => ValueOk(a.typ.scalar, lp64, v)
  }

  function PutValue(t: Scalar, lp64: bool, v: Value, maxLen: nat): seq<byte>
    requires ValueOk(t, lp64, v) && maxLen < 256
  {
    match v
    case Number(_, n) => Store(n, PutWidth(t, lp64))
    case Text(s) => [|CutString(s, maxLen)|] + CutString(s, maxLen)
  }

  /** `put` of one argument. */
  function PutArgument(a: Argument, lp64: bool, maxLen: nat): seq<byte>
    requires ArgumentOk(a, lp64) && maxLen < 256
  {
    match a.typ
    case Of(t) => PutValue(t, lp64, a.value.value, maxLen)
    case Optional(t) => if a.value.None? then [0] else [1] + PutValue(t, lp64, a.value.value, maxLen)
  }

  /** `formatString` of one argument. */
  function Format(t: Type, lp64: bool): string {
    match t
    case Of(s) => FormatOf(s, lp64)
    case Optional(s) => OPT + FormatOf(s, lp64)
  }

  ghost predicate ArgumentsOk(args: seq<Argument>, lp64: bool) {
    forall i :: 0 <= i < |args| ==> ArgumentOk(args[i], lp64)
  }

  function PutAll(args: seq<Argument>, lp64: bool, maxLen: nat): seq<byte>
    requires ArgumentsOk(args, lp64) && maxLen < 256
  {
    if args == [] then [] else PutArgument(args[0], lp64, maxLen) + PutAll(args[1..], lp64, maxLen)
  }

  /** The key text: the format strings with commas between them. */
  function KeyFor(args: seq<Argument>, lp64: bool): string {
    if args == [] then ""
    else Format(args[0].typ, lp64) + (if |args| == 1 then "" else "," + KeyFor(args[1..], lp64))
  }

  // -------------------------------------------------------------- agreement

  /** The tables agree for every type and data model: the code selects a formatter that reads as many bytes as
      `put` pushes, which hold every value of the type, and shows them as what they are. */
  lemma {:induction false} TablesAgree(t: Scalar, lp64: bool)
    ensures ParseBasic(FormatOf(t, lp64)).Some? && Shows(ParseBasic(FormatOf(t, lp64)).value) == KindOf(t)
    ensures ParseBasic(FormatOf(t, lp64)) == Some(Str) <==> t == CString
    ensures t != CString ==>
      FixedWidth(ParseBasic(FormatOf(t, lp64)).value) == PutWidth(t, lp64) == SizeOf(t, lp64)
    ensures BasicText(ParseBasic(FormatOf(t, lp64)).value) == FormatOf(t, lp64)
  {
  }

  /** The argument as the decoder sees it: the code that the key says. */
  function AsArg(a: Argument, lp64: bool): (r: Arg)
    requires ArgumentOk(a, lp64)
    ensures ArgOk(r) && r.value == a.value && CodeText(r.code) == Format(a.typ, lp64)
  {
    TablesAgree(a.typ.scalar, lp64);
    var b := ParseBasic(FormatOf(a.typ.scalar, lp64)).value;
    Arg(if a.typ.Of? then Plain(b) else Opt(b), a.value)
  }

  function AsArgs(args: seq<Argument>, lp64: bool): (r: seq<Arg>)
    requires ArgumentsOk(args, lp64)
    ensures ArgsOk(r) && |r| == |args|
  {
    if args == [] then [] else [AsArg(args[0], lp64)] + AsArgs(args[1..], lp64)
  }

  lemma {:induction false} PutIsEncode(a: Argument, lp64: bool, maxLen: nat)
    requires ArgumentOk(a, lp64) && maxLen < 256
    ensures PutArgument(a, lp64, maxLen) == Encode(AsArg(a, lp64), maxLen)
  {
    TablesAgree(a.typ.scalar, lp64);
  }

  lemma {:induction false} PutAllIsEncode(args: seq<Argument>, lp64: bool, maxLen: nat)
    requires ArgumentsOk(args, lp64) && maxLen < 256
    ensures PutAll(args, lp64, maxLen) == EncodeAll(AsArgs(args, lp64), maxLen)
    ensures KeyFor(args, lp64) == KeyText(KeyOf(AsArgs(args, lp64)))
    decreases |args|
  {
    hide PutArgument, Encode, AsArg, CodeText, Format;
    if args != [] {
      PutIsEncode(args[0], lp64, maxLen);
      PutAllIsEncode(args[1..], lp64, maxLen);
      assert AsArgs(args, lp64)[1..] == AsArgs(args[1..], lp64);
      assert KeyOf(AsArgs(args, lp64))[1..] == KeyOf(AsArgs(args[1..], lp64));
    }
  }

  function Values(args: seq<Argument>, maxLen: nat): seq<Param> {
    if args == [] then [] else [CutParam(args[0].value, maxLen)] + Values(args[1..], maxLen)
  }

  lemma {:induction false} ValuesAre(args: seq<Argument>, lp64: bool, maxLen: nat)
    requires ArgumentsOk(args, lp64)
    ensures CutAll(AsArgs(args, lp64), maxLen) == Values(args, maxLen)
    decreases |args|
  {
    hide AsArg, CutParam;
    if args != [] {
      ValuesAre(args[1..], lp64, maxLen);
      assert AsArgs(args, lp64)[1..] == AsArgs(args[1..], lp64);
    }
  }

  /** The round trip for arguments of C++ types: what the `put` overloads write is decoded, by the codes
      whose text the `formatString` overloads build, to the same values, strings cut to the maximum
      length, and exactly the bytes written are consumed. */
  lemma {:induction false} TypedRoundTrip(args: seq<Argument>, lp64: bool, maxLen: nat, m: seq<byte>, p: nat)
    requires ArgumentsOk(args, lp64) && maxLen < 256
    requires var bs := PutAll(args, lp64, maxLen); p + |bs| <= |m| && m[p..p + |bs|] == bs
    ensures var key := KeyOf(AsArgs(args, lp64));
      && KeyText(key) == KeyFor(args, lp64)
      && Length(key, m, p) == |PutAll(args, lp64, maxLen)|
      && DecodeAll(key, m, p) == Values(args, maxLen)
  {
    hide PutAll, EncodeAll, KeyText, KeyFor, Length, DecodeAll;
    PutAllIsEncode(args, lp64, maxLen);
    ValuesAre(args, lp64, maxLen);
    ParamRoundTrip(AsArgs(args, lp64), maxLen, m, p);
  }
}
