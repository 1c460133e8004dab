/** The dictionary behind the rings: `MsgDesc` writes one descriptor for each message, and
    `MessageParser` reads them back, while the file keeps growing. */
module Descriptors {
  import opened Bytes

  const SPACE: byte := 32
  const MINUS: byte := 45
  const DESC_SIZE: nat := 1024

  predicate IsSpace(b: byte) {
    9 <= b <= 13 || b == SPACE
  }

  /** The static description of a message. `tsc`, `line` and `id` are images of the 64-bit and
      32-bit integers that the writer prints as signed. */
  datatype Desc = Desc(tsc: nat, file: seq<byte>, line: nat, id: nat, msg: seq<byte>, key: seq<byte>)

  predicate DescOk(d: Desc) {
    && d.tsc < U64_BOUND && d.line < U32_BOUND && d.id < U32_BOUND
    && 0 !in d.file
    && |d.msg| + 1 < U32_BOUND && |d.key| + 1 < U32_BOUND
  }

  /** The file names that survive: the parser takes what stands between white space. */
  predicate FileOk(file: seq<byte>) {
    file != [] && forall i :: 0 <= i < |file| ==> !IsSpace(file[i])
  }

  // -------------------------------------------------------- printed numbers

  /** `%d` of a number that is not negative. */
  function Digits(n: nat): (s: seq<byte>)
    ensures |s| > 0
    ensures forall i :: 0 <= i < |s| ==> 48 <= s[i] < 58
  {
    if n < 10 then [48 + n] else Digits(n / 10) + [48 + n % 10]
  }

  /** `%d` of a two's complement image. */
  function Print(v: nat, bound: nat): (s: seq<byte>)
    requires v < bound
    ensures |s| > 0 && s[0] != 0 && !IsSpace(s[0])
  {
    if v < bound / 2 then Digits(v) else [MINUS] + Digits(bound - v)
  }

  function DigitValue(b: byte): nat {
    if 48 <= b < 58 then b - 48
    else if 97 <= b < 123 then b - 87
    else if 65 <= b < 91 then b - 55
    else 99
  }

  function Value(s: seq<byte>, radix: nat): nat {
    if s == [] then 0 else Value(s[..|s| - 1], radix) * radix + DigitValue(s[|s| - 1])
  }

  function SkipSpace(m: seq<byte>, p: nat): (q: nat)
    ensures p <= q && (p <= |m| ==> q <= |m|)
    ensures !IsSpace(At(m, q))
    decreases |m| - p
  {
    if IsSpace(At(m, p)) then SkipSpace(m, p + 1) else p
  }

  /** Where the digits of this radix end. */
  function DigitsEnd(m: seq<byte>, p: nat, radix: nat): (q: nat)
    requires radix < 99
    ensures p <= q && (q == p || q <= |m|)
    decreases |m| - p
  {
    if p < |m| && DigitValue(m[p]) < radix then DigitsEnd(m, p + 1, radix) else p
  }

  /** What `strtoull(p, &end, 0)` returns and where it leaves `end`. */
  datatype Number = Number(value: nat, end: nat)

  function StrToU(m: seq<byte>, p: nat): (r: Number)
    ensures r.end >= p && r.value < U64_BOUND
  {
    var q := SkipSpace(m, p);
    var neg := At(m, q) == MINUS;
    var s := if neg || At(m, q) == 43 then q + 1 else q;
    var hex := At(m, s) == 48 && (At(m, s + 1) == 120 || At(m, s + 1) == 88) && DigitValue(At(m, s + 2)) < 16;
    var radix := if hex then 16 else if At(m, s) == 48 then 8 else 10;
    var start := if hex then s + 2 else s;
    var e := DigitsEnd(m, start, radix);
    if e == start then Number(0, p)
    else
      var v := Value(m[start..e], radix);
      Number(if v >= U64_BOUND then U64_MAX else if neg && v > 0 then U64_BOUND - v else v, e)
  }

  lemma {:induction false} DigitsValue(n: nat)
    ensures Value(Digits(n), 10) == n
    ensures n > 0 ==> Digits(n)[0] != 48
  {
    if n < 10 {
      assert Digits(n)[..0] == [];
    } else {
      DigitsValue(n / 10);
      assert Digits(n)[..|Digits(n)| - 1] == Digits(n / 10);
    }
  }

  lemma {:induction false} DigitsEndAt(m: seq<byte>, p: nat, q: nat, radix: nat)
    requires p <= q < |m| && radix < 99
    requires forall i :: p <= i < q ==> DigitValue(m[i]) < radix
    requires DigitValue(m[q]) >= radix
    ensures DigitsEnd(m, p, radix) == q
    decreases q - p
  {
    if p < q {
      DigitsEndAt(m, p + 1, q, radix);
    }
  }

  /** `strtoull` at a number that starts at `s`, without white space before it. */
  lemma {:induction false} ReadDigits(m: seq<byte>, p: nat, n: nat, neg: bool)
    requires n < U64_BOUND && (neg ==> n > 0)
    requires var t := (if neg then [MINUS] else []) + Digits(n) + [SPACE];
      p + |t| <= |m| && m[p..p + |t|] == t
    ensures StrToU(m, p) == Number(if neg then U64_BOUND - n else n, p + (if neg then 1 else 0) + |Digits(n)|)
  {
    hide Digits, Value;
    var lead := if neg then [MINUS] else [];
    var t := lead + Digits(n) + [SPACE];
    var s, e := p + |lead|, p + |lead| + |Digits(n)|;
    forall i | 0 <= i < |t|
      ensures m[p + i] == t[i]
    {
      assert m[p..p + |t|][i] == t[i];
    }
    DigitsValue(n);
    assert t[0] == m[p] && t[|lead|] == m[s] == Digits(n)[0];
    assert m[e] == SPACE;
    forall i | s <= i < e
      ensures m[i] == Digits(n)[i - s]
    {
      assert t[i - p] == Digits(n)[i - s];
    }
    assert m[s..e] == Digits(n);
    if n == 0 {
      ZeroDigits();
      assert e == s + 1 && m[s] == 48;
      DigitsEndAt(m, s, e, 8);
      OneDigit(Digits(0));
    } else {
      DigitsEndAt(m, s, e, 10);
    }
  }

  lemma {:induction false} ZeroDigits()
    ensures Digits(0) == [48]
  {
  }

  lemma {:induction false} OneDigit(s: seq<byte>)
    requires s == [48]
    ensures Value(s, 8) == 0
  {
    assert s[..0] == [];
  }

  /** Reading a printed number and keeping the width of the target gives the number back. */
  lemma {:induction false} ReadPrinted(m: seq<byte>, p: nat, v: nat, bound: nat)
    requires bound == U32_BOUND || bound == U64_BOUND
    requires v < bound
    requires var t := Print(v, bound) + [SPACE]; p + |t| <= |m| && m[p..p + |t|] == t
    ensures var r := StrToU(m, p); r.value % bound == v && r.end == p + |Print(v, bound)|
  {
    hide Digits, StrToU, Print;
    PrintIs(v, bound);
    if v < bound / 2 {
      assert [] + Digits(v) == Digits(v);
      ReadDigits(m, p, v, false);
    } else {
      ReadDigits(m, p, bound - v, true);
      WrapBack(v, bound);
    }
  }

  lemma {:induction false} PrintIs(v: nat, bound: nat)
    requires v < bound
    ensures Print(v, bound) == if v < bound / 2 then Digits(v) else [MINUS] + Digits(bound - v)
  {
  }

  lemma {:induction false} WrapBack(v: nat, bound: nat)
    requires bound == U32_BOUND || bound == U64_BOUND
    requires v < bound
    ensures (U64_BOUND - (bound - v)) % bound == v
  {
    if bound == U32_BOUND {
      assert U64_BOUND - (bound - v) == v + (U32_BOUND - 1) * U32_BOUND;
    }
  }

  // --------------------------------------------------------------- writing

  /** A string behind its 4-byte length; the length counts the terminating NUL. */
  function PString(s: seq<byte>): (r: seq<byte>)
    ensures |r| == |s| + 5
  {
    Store(|s| + 1, 4) + s + [0]
  }

  /** What `sprintf` prints in the constructor. */
  function Header(d: Desc): seq<byte>
    requires DescOk(d)
  {
    Print(d.tsc, U64_BOUND) + [SPACE] + d.file + [SPACE] + Print(d.line, U32_BOUND) + [SPACE]
      + Print(d.id, U32_BOUND) + [SPACE]
  }

  /** One descriptor in the file. */
  function Written(d: Desc): (s: seq<byte>)
    requires DescOk(d)
    ensures |s| > 0
  {
    Header(d) + PString(d.msg) + PString(d.key)
  }

  /** One descriptor in a file of some version: before version 3 there is no id in it. */
  function Entry(d: Desc, version: nat): (s: seq<byte>)
    requires DescOk(d)
    ensures |s| > 0
  {
    if version >= 3 then Written(d)
    else
      Print(d.tsc, U64_BOUND) + [SPACE] + d.file + [SPACE] + Print(d.line, U32_BOUND) + [SPACE]
        + PString(d.msg) + PString(d.key)
  }

  function Dict(ds: seq<Desc>, version: nat): seq<byte>
    requires forall d :: d in ds ==> DescOk(d)
  {
    if ds == [] then [] else Entry(ds[0], version) + Dict(ds[1..], version)
  }

  /** `MsgDesc`: the header, a gap for the length, then the message text so far. */
  class MsgDesc {
    const buf: array<byte>
    const head: seq<byte>
    var pstr: nat
    var ptr: nat

    ghost predicate Valid()
      reads this, buf
    {
      && buf.Length == DESC_SIZE && pstr == |head| && pstr + 4 <= ptr <= DESC_SIZE
      && buf[..pstr] == head
    }

    ghost function Msg(): seq<byte>
      requires Valid()
      reads this, buf
    {
      buf[pstr + 4..ptr]
    }

    /** The constructor, after the id is known. The header must fit: the source does not check. */
    constructor (tsc: nat, file: seq<byte>, line: nat, id: nat)
      requires DescOk(Desc(tsc, file, line, id, [], [])) && |Header(Desc(tsc, file, line, id, [], []))| + 4 <= DESC_SIZE
      ensures Valid() && Msg() == [] && fresh(buf) && head == Header(Desc(tsc, file, line, id, [], []))
    {
      hide Header;
      var text := Header(Desc(tsc, file, line, id, [], []));
      buf := new byte[DESC_SIZE](i => if 0 <= i < |text| then text[i] else 0);
      head := text;
      pstr := |text|;
      ptr := |text| + 4;
      new;
      assert buf[..pstr] == head;
    }

    /** `operator<<`: append text to the message. */
    method Append(x: seq<byte>)
      requires Valid() && |x| < DESC_SIZE - ptr
      modifies `ptr, buf
      ensures Valid() && Msg() == old(Msg()) + x && ptr == old(ptr) + |x|
    {
      forall i | 0 <= i < |x| {
        buf[ptr + i] := x[i];
      }
      assert buf[pstr + 4..ptr] == old(buf[pstr + 4..ptr]);
      ptr := ptr + |x|;
      assert buf[..pstr] == old(buf[..pstr]);
    }

    /** The first half of `finish`: close the message string and fill in its length. */
    method CloseMessage()
      requires Valid() && ptr + 1 <= DESC_SIZE
      modifies `ptr, buf
      ensures ptr == old(ptr) + 1 && buf[..ptr] == head + PString(old(Msg()))
    {
      hide Store, PString;
      ghost var msg, was := Msg(), buf[..ptr];
      buf[ptr] := 0;
      ptr := ptr + 1;
      assert was == head + was[pstr..pstr + 4] + msg;
      assert buf[..ptr] == was + [0];
      FillLength(pstr, head, msg);
    }

    /** The second half: the key with its length, if it has room (`memccpy`); the length word has to. */
    method AddKey(key: seq<byte>, ghost first: seq<byte>) returns (ok: bool)
      requires ptr + 4 <= buf.Length && buf[..ptr] == first
      modifies `ptr, buf
      ensures ok <==> old(ptr) + 4 + |key| + 1 <= buf.Length
      ensures ok ==> ptr <= buf.Length && buf[..ptr] == first + PString(key)
    {
      hide Store, PString;
      var p := ptr;
      var room := buf.Length - (p + 4);
      if |key| >= room {
        Copy(p + 4, key[..room]);
        return false;
      }
      Copy(p + 4, key);
      assert buf[..p] == first;
      buf[p + 4 + |key|] := 0;
      ptr := p + 4 + |key| + 1;
      assert buf[p + 4..ptr - 1] == key;
      assert buf[..ptr] == first + buf[p..p + 4] + (key + [0]);
      FillLength(p, first, key);
      ok := true;
    }

    /** `finish`: returns what `write` appends to the file; not `ok` where the source's assert fails,
        because the key does not fit. The NUL of the message and the length word of the key are stored
        without a check. */
    method Finish(key: seq<byte>) returns (out: seq<byte>, ok: bool)
      requires Valid() && 0 !in key && ptr + 5 <= DESC_SIZE
      modifies this, buf
      ensures ok <==> old(ptr) + 6 + |key| <= DESC_SIZE
      ensures ok ==> out == head + PString(old(Msg())) + PString(key)
    {
      hide PString;
      ghost var msg := Msg();
      CloseMessage();
      ok := AddKey(key, head + PString(msg));
      out := if ok then buf[..ptr] else [];
    }

    method Copy(at: nat, bs: seq<byte>)
      requires at + |bs| <= buf.Length
      modifies buf
      ensures buf[..at] == old(buf[..at]) && buf[at..at + |bs|] == bs
    {
      forall i | 0 <= i < |bs| {
        buf[at + i] := bs[i];
      }
    }

    /** Write the length of the string that ends at `ptr` in front of it. */
    method FillLength(at: nat, ghost before: seq<byte>, ghost s: seq<byte>)
      requires ptr == at + 4 + |s| + 1 <= buf.Length && |before| == at
      requires buf[..ptr] == before + buf[at..at + 4] + (s + [0])
      modifies buf
      ensures buf[..ptr] == before + PString(s)
    {
      hide Store;
      ghost var was := buf[..ptr];
      ghost var gap := buf[at..at + 4];
      var bs := Store(ptr - (at + 4), 4);
      forall i | 0 <= i < 4 {
        buf[at + i] := bs[i];
      }
      forall i | 0 <= i < ptr
        ensures buf[..ptr][i] == (before + (bs + s + [0]))[i]
      {
        assert was[i] == (before + gap + (s + [0]))[i];
      }
      assert buf[..ptr] == before + PString(s);
    }
  }

  /** What the trace macros do once for each message and file: one whole descriptor, its text in
      pieces. */
  method WriteDesc(d: Desc, pieces: seq<seq<byte>>) returns (out: seq<byte>)
    requires DescOk(d) && 0 !in d.key && |Written(d)| <= DESC_SIZE && Join(pieces) == d.msg
    ensures out == Written(d)
  {
    hide Header;
    assert Header(d) == Header(Desc(d.tsc, d.file, d.line, d.id, [], [])) by {
      SameHeader(d);
    }
    var md := new MsgDesc(d.tsc, d.file, d.line, d.id);
    for i := 0 to |pieces|
      invariant fresh(md.buf) && md.Valid() && md.Msg() == Join(pieces[..i])
    {
      JoinSnoc(pieces, i);
      JoinShorter(pieces, i + 1);
      md.Append(pieces[i]);
    }
    assert pieces[..|pieces|] == pieces;
    var ok;
    out, ok := md.Finish(d.key);
  }

  lemma {:induction false} SameHeader(d: Desc)
    requires DescOk(d)
    ensures Header(d) == Header(Desc(d.tsc, d.file, d.line, d.id, [], []))
  {
  }

  function Join(pieces: seq<seq<byte>>): seq<byte> {
    if pieces == [] then [] else Join(pieces[..|pieces| - 1]) + pieces[|pieces| - 1]
  }

  lemma {:induction false} JoinSnoc(pieces: seq<seq<byte>>, i: nat)
    requires i < |pieces|
    ensures Join(pieces[..i + 1]) == Join(pieces[..i]) + pieces[i]
  {
    assert pieces[..i + 1][..i] == pieces[..i];
  }

  lemma {:induction false} JoinShorter(pieces: seq<seq<byte>>, i: nat)
    requires i <= |pieces|
    ensures |Join(pieces[..i])| <= |Join(pieces)|
    decreases |pieces| - i
  {
    if i == |pieces| {
      assert pieces[..i] == pieces;
    } else {
      JoinShorter(pieces, i + 1);
      JoinSnoc(pieces, i);
    }
  }

  // --------------------------------------------------------------- parsing

  /** Where the next white space is, `|m|` if there is none in the mapping. */
  function UntilSpace(m: seq<byte>, p: nat): (q: nat)
    requires p <= |m|
    ensures p <= q <= |m| && (q < |m| ==> IsSpace(m[q]))
    ensures forall i :: p <= i < q ==> !IsSpace(m[i])
    decreases |m| - p
  {
    if p == |m| || IsSpace(m[p]) then p else UntilSpace(m, p + 1)
  }

  /** A string read, or a read outside the mapping. */
  datatype Text = Outside | Text(s: seq<byte>, next: nat)

  function PStringAt(m: seq<byte>, p: nat): (r: Text)
    ensures r.Text? ==> r.next <= |m|
  {
    var len := WordAt(m, p);
    if p + 4 > |m| || len == 0 || p + 4 + len > |m| then Outside
    else Text(m[p + 4..p + 4 + len - 1], p + 4 + len)
  }

  /** What one `parse` does: nothing to parse, a read outside the mapping, or a message. */
  datatype Parsed = Nothing | Wild | Parsed(d: Desc, next: nat)

  function ParseAt(m: seq<byte>, p: nat, end: nat, version: nat, index: nat): Parsed
  {
    if p >= end || At(m, p) == 0 then Nothing
    else
      var tsc := StrToU(m, p);
      var q1 := SkipSpace(m, tsc.end);
      if q1 > |m| then Wild
      else
        var q2 := UntilSpace(m, q1);
        if q2 == |m| then Wild
        else
          var line := StrToU(m, SkipSpace(m, q2));
          var id := if version >= 3 then StrToU(m, SkipSpace(m, line.end)) else Number(index + 1, line.end);
          var msg := PStringAt(m, id.end + 1);
          if msg.Outside? then Wild
          else
            var key := PStringAt(m, msg.next);
            if key.Outside? then Wild
            else
              var d := Desc(tsc.value, m[q1..q2], line.value % U32_BOUND, id.value % U32_BOUND, msg.s, key.s);
              Parsed(d, key.next)
  }

  ghost predicate Stands(m: seq<byte>, p: nat, s: seq<byte>) {
    p + |s| <= |m| && m[p..p + |s|] == s
  }

  lemma {:induction false} PStringRead(m: seq<byte>, p: nat, s: seq<byte>)
    requires |s| + 1 < U32_BOUND
    requires p + |PString(s)| <= |m| && m[p..p + |PString(s)|] == PString(s)
    ensures PStringAt(m, p) == Text(s, p + |PString(s)|)
  {
    hide Store, Load;
    var n := |s|;
    assert PString(s) == Store(n + 1, 4) + (s + [0]);
    SliceParts(m, p, Store(n + 1, 4), s + [0]);
    SliceParts(m, p + 4, s, [0]);
    SubIsSlice(m, p, 4);
    WordSizes();
    LoadStore(n + 1, 4);
  }

  /** The word of a printed number: up to the next space there is no white space. */
  lemma {:induction false} UntilSpaceAt(m: seq<byte>, p: nat, s: seq<byte>)
    requires p + |s| < |m| && m[p..p + |s|] == s && IsSpace(m[p + |s|])
    requires forall i :: 0 <= i < |s| ==> !IsSpace(s[i])
    ensures UntilSpace(m, p) == p + |s|
    decreases |s|
  {
    if s != [] {
      assert m[p] == s[0];
      assert m[p + 1..p + 1 + |s[1..]|] == m[p..p + |s|][1..] == s[1..];
      UntilSpaceAt(m, p + 1, s[1..]);
    }
  }

  lemma {:induction false} SkipOneSpace(m: seq<byte>, p: nat)
    requires p + 1 < |m| && m[p] == SPACE && !IsSpace(m[p + 1])
    ensures SkipSpace(m, p) == p + 1
  {
  }

  /** One descriptor anywhere in a mapping: `parse` returns it and stops right behind it. */
  lemma {:induction false} ParseWritten(m: seq<byte>, p: nat, d: Desc, end: nat, version: nat, index: nat)
    requires DescOk(d) && FileOk(d.file) && version >= 3
    requires p + |Written(d)| <= end && Stands(m, p, Written(d))
    ensures ParseAt(m, p, end, version, index) == Parsed(d, p + |Written(d)|)
  {
    hide Print, PString, StrToU, SkipSpace, UntilSpace, PStringAt, Written, FileOk, ParseAt, IsSpace, Stands;
    var a, b, c := Print(d.tsc, U64_BOUND), Print(d.line, U32_BOUND), Print(d.id, U32_BOUND);
    var p1 := p + |a| + 1;
    var p2 := p1 + |d.file| + 1;
    var p3 := p2 + |b| + 1;
    var p4 := p3 + |c| + 1;
    WrittenParts(m, p, d);
    ReadField(m, p, d.tsc, U64_BOUND);
    ReadFileName(m, p1, d.file);
    ReadField(m, p2, d.line, U32_BOUND);
    ReadField(m, p3, d.id, U32_BOUND);
    SkipOneSpace(m, p1 - 1);
    SkipOneSpace(m, p2 - 1);
    SkipOneSpace(m, p3 - 1);
    ReadStrings(m, p4, d);
    Assemble(m, p, end, version, index, p1, d, p2, p3, p4);
  }

  /** `parse`, step by step. */
  lemma {:induction false} Assemble(m: seq<byte>, p: nat, end: nat, version: nat, index: nat, p1: nat, d: Desc,
                                    p2: nat, p3: nat, p4: nat)
    requires version >= 3 && p < end && At(m, p) != 0
    requires StrToU(m, p).value % U64_BOUND == d.tsc && SkipSpace(m, StrToU(m, p).end) == p1 <= |m|
    requires UntilSpace(m, p1) == p2 - 1 < |m| && m[p1..p2 - 1] == d.file && SkipSpace(m, p2 - 1) == p2
    requires StrToU(m, p2).value % U32_BOUND == d.line && SkipSpace(m, StrToU(m, p2).end) == p3
    requires StrToU(m, p3).value % U32_BOUND == d.id && StrToU(m, p3).end + 1 == p4
    requires PStringAt(m, p4).Text? && PStringAt(m, p4).s == d.msg
    requires var k := PStringAt(m, PStringAt(m, p4).next); k.Text? && k.s == d.key
    ensures ParseAt(m, p, end, version, index) == Parsed(d, PStringAt(m, PStringAt(m, p4).next).next)
  {
    hide StrToU, SkipSpace, UntilSpace, PStringAt;
  }

  lemma {:induction false} ReadField(m: seq<byte>, p: nat, v: nat, bound: nat)
    requires bound == U32_BOUND || bound == U64_BOUND
    requires v < bound
    requires Stands(m, p, Print(v, bound) + [SPACE])
    ensures var r := StrToU(m, p); r.value % bound == v && r.end == p + |Print(v, bound)|
    ensures p + |Print(v, bound)| < |m|
    ensures At(m, p) != 0 && !IsSpace(m[p]) && m[p + |Print(v, bound)|] == SPACE
  {
    hide Print, StrToU;
    ReadPrinted(m, p, v, bound);
    WordThenSpace(m, p, Print(v, bound));
  }

  lemma {:induction false} ReadFileName(m: seq<byte>, p: nat, file: seq<byte>)
    requires FileOk(file) && Stands(m, p, file + [SPACE])
    ensures p + |file| < |m|
    ensures !IsSpace(m[p]) && m[p + |file|] == SPACE
    ensures UntilSpace(m, p) == p + |file| && m[p..p + |file|] == file
  {
    WordThenSpace(m, p, file);
    UntilSpaceAt(m, p, file);
  }

  lemma {:induction false} ReadStrings(m: seq<byte>, p: nat, d: Desc)
    requires DescOk(d) && Stands(m, p, PString(d.msg)) && Stands(m, p + |PString(d.msg)|, PString(d.key))
    ensures PStringAt(m, p) == Text(d.msg, p + |PString(d.msg)|)
    ensures PStringAt(m, p + |PString(d.msg)|) == Text(d.key, p + |PString(d.msg)| + |PString(d.key)|)
  {
    hide PString;
    PStringRead(m, p, d.msg);
    PStringRead(m, p + |PString(d.msg)|, d.key);
  }

  /** A non-empty word and the space behind it. */
  lemma {:induction false} WordThenSpace(m: seq<byte>, p: nat, w: seq<byte>)
    requires w != [] && p + |w + [SPACE]| <= |m| && m[p..p + |w + [SPACE]|] == w + [SPACE]
    ensures m[p] == w[0] && m[p + |w|] == SPACE && m[p..p + |w|] == w
  {
    assert m[p] == m[p..p + |w + [SPACE]|][0];
    SliceParts(m, p, w, [SPACE]);
    assert m[p + |w|] == m[p + |w|..p + |w| + 1][0];
  }

  lemma {:induction false} WrittenParts(m: seq<byte>, p: nat, d: Desc)
    requires DescOk(d) && Stands(m, p, Written(d))
    ensures var a := Print(d.tsc, U64_BOUND) + [SPACE];
      var b, c := Print(d.line, U32_BOUND) + [SPACE], Print(d.id, U32_BOUND) + [SPACE];
      var f := d.file + [SPACE];
      var p1 := p + |a|;
      var p2 := p1 + |f|;
      var p3 := p2 + |b|;
      var p4 := p3 + |c|;
      var p5 := p4 + |PString(d.msg)|;
      && p5 + |PString(d.key)| == p + |Written(d)|
      && Stands(m, p, a) && Stands(m, p1, f) && Stands(m, p2, b) && Stands(m, p3, c)
      && Stands(m, p4, PString(d.msg)) && Stands(m, p5, PString(d.key))
  {
    hide Print, PString;
    var a, b, c, sp := Print(d.tsc, U64_BOUND), Print(d.line, U32_BOUND), Print(d.id, U32_BOUND), [SPACE];
    assert Header(d) == (a + sp) + (d.file + sp) + (b + sp) + (c + sp);
    SixParts(m, p, a + sp, d.file + sp, b + sp, c + sp, PString(d.msg), PString(d.key));
  }

  lemma {:induction false} SixParts(m: seq<byte>, p: nat, a: seq<byte>, b: seq<byte>, c: seq<byte>, d: seq<byte>,
                                    e: seq<byte>, f: seq<byte>)
    requires p + |a| + |b| + |c| + |d| + |e| + |f| <= |m|
    requires m[p..p + |a| + |b| + |c| + |d| + |e| + |f|] == a + b + c + d + e + f
    ensures m[p..p + |a|] == a
    ensures m[p + |a|..p + |a| + |b|] == b
    ensures m[p + |a| + |b|..p + |a| + |b| + |c|] == c
    ensures m[p + |a| + |b| + |c|..p + |a| + |b| + |c| + |d|] == d
    ensures m[p + |a| + |b| + |c| + |d|..p + |a| + |b| + |c| + |d| + |e|] == e
    ensures m[p + |a| + |b| + |c| + |d| + |e|..p + |a| + |b| + |c| + |d| + |e| + |f|] == f
  {
    SliceParts(m, p, a + b + c + d + e, f);
    SliceParts(m, p, a + b + c + d, e);
    SliceParts(m, p, a + b + c, d);
    SliceParts(m, p, a + b, c);
    SliceParts(m, p, a, b);
  }

  /** A descriptor without an id gets its position. */
  lemma {:induction false} ParseOld(m: seq<byte>, p: nat, d: Desc, end: nat, version: nat, index: nat)
    requires DescOk(d) && FileOk(d.file) && version < 3 && d.id == index + 1
    requires p + |Entry(d, version)| <= end && Stands(m, p, Entry(d, version))
    ensures ParseAt(m, p, end, version, index) == Parsed(d, p + |Entry(d, version)|)
  {
    hide Print, PString, StrToU, SkipSpace, UntilSpace, PStringAt, Entry, FileOk, ParseAt, IsSpace, Stands;
    var a, b := Print(d.tsc, U64_BOUND), Print(d.line, U32_BOUND);
    var p1 := p + |a| + 1;
    var p2 := p1 + |d.file| + 1;
    var p4 := p2 + |b| + 1;
    OldParts(m, p, d, version);
    ReadField(m, p, d.tsc, U64_BOUND);
    ReadFileName(m, p1, d.file);
    ReadField(m, p2, d.line, U32_BOUND);
    SkipOneSpace(m, p1 - 1);
    SkipOneSpace(m, p2 - 1);
    ReadStrings(m, p4, d);
    AssembleOld(m, p, end, version, index, p1, d, p2, p4);
  }

  lemma {:induction false} AssembleOld(m: seq<byte>, p: nat, end: nat, version: nat, index: nat, p1: nat, d: Desc,
                                       p2: nat, p4: nat)
    requires version < 3 && p < end && At(m, p) != 0 && d.id == index + 1 < U32_BOUND
    requires StrToU(m, p).value % U64_BOUND == d.tsc && SkipSpace(m, StrToU(m, p).end) == p1 <= |m|
    requires UntilSpace(m, p1) == p2 - 1 < |m| && m[p1..p2 - 1] == d.file && SkipSpace(m, p2 - 1) == p2
    requires StrToU(m, p2).value % U32_BOUND == d.line && StrToU(m, p2).end + 1 == p4
    requires PStringAt(m, p4).Text? && PStringAt(m, p4).s == d.msg
    requires var k := PStringAt(m, PStringAt(m, p4).next); k.Text? && k.s == d.key
    ensures ParseAt(m, p, end, version, index) == Parsed(d, PStringAt(m, PStringAt(m, p4).next).next)
  {
    hide StrToU, SkipSpace, UntilSpace, PStringAt;
  }

  lemma {:induction false} OldParts(m: seq<byte>, p: nat, d: Desc, version: nat)
    requires DescOk(d) && version < 3 && Stands(m, p, Entry(d, version))
    ensures var a := Print(d.tsc, U64_BOUND) + [SPACE];
      var b := Print(d.line, U32_BOUND) + [SPACE];
      var f := d.file + [SPACE];
      var p1 := p + |a|;
      var p2 := p1 + |f|;
      var p4 := p2 + |b|;
      var p5 := p4 + |PString(d.msg)|;
      && p5 + |PString(d.key)| == p + |Entry(d, version)|
      && Stands(m, p, a) && Stands(m, p1, f) && Stands(m, p2, b)
      && Stands(m, p4, PString(d.msg)) && Stands(m, p5, PString(d.key))
  {
    hide Print, PString;
    var a, b, sp := Print(d.tsc, U64_BOUND), Print(d.line, U32_BOUND), [SPACE];
    assert Entry(d, version) == (a + sp) + (d.file + sp) + (b + sp) + [] + PString(d.msg) + PString(d.key);
    SixParts(m, p, a + sp, d.file + sp, b + sp, [], PString(d.msg), PString(d.key));
  }

  /** In every version `parse` returns the descriptor that stands there; before version 3 its id is its position. */
  lemma {:induction false} ParseEntry(m: seq<byte>, p: nat, d: Desc, end: nat, version: nat, index: nat)
    requires DescOk(d) && FileOk(d.file) && (version < 3 ==> d.id == index + 1)
    requires p + |Entry(d, version)| <= end && Stands(m, p, Entry(d, version))
    ensures ParseAt(m, p, end, version, index) == Parsed(d, p + |Entry(d, version)|)
  {
    hide ParseAt, Written, FileOk, Stands;
    if version >= 3 {
      ParseWritten(m, p, d, end, version, index);
    } else {
      ParseOld(m, p, d, end, version, index);
    }
  }

  /** Exactly the descriptors whose file name is a word come back. */
  lemma {:induction false} RoundTripIff(before: seq<byte>, d: Desc, after: seq<byte>, version: nat, index: nat)
    requires DescOk(d) && version >= 3
    ensures var m := before + Written(d) + after;
      ParseAt(m, |before|, |m|, version, index) == Parsed(d, |before| + |Written(d)|) <==> FileOk(d.file)
  {
    hide Written, StrToU, SkipSpace, PStringAt;
    var m := before + Written(d) + after;
    assert m[|before|..|before| + |Written(d)|] == Written(d);
    if FileOk(d.file) {
      ParseWritten(m, |before|, d, |m|, version, index);
    } else {
      var r := ParseAt(m, |before|, |m|, version, index);
      if r.Parsed? {
        var q1 := SkipSpace(m, StrToU(m, |before|).end);
        assert !IsSpace(At(m, q1));
        assert r.d.file == m[q1..UntilSpace(m, q1)];
      }
    }
  }

  // ------------------------------------------------------------ dictionary

  /** Before version 3 the position of a descriptor is its id. */
  ghost predicate DescsOk(ds: seq<Desc>, version: nat) {
    && (forall d :: d in ds ==> DescOk(d) && FileOk(d.file))
    && (version < 3 ==> forall i {:trigger ds[i]} :: 0 <= i < |ds| ==> ds[i].id == i + 1)
  }

  /** The first descriptor with an id: `try_emplace` keeps the one it has. */
  function FirstWith(ds: seq<Desc>, id: nat): (r: nat)
    ensures r <= |ds| && (r < |ds| ==> ds[r].id == id)
    ensures forall i :: 0 <= i < r ==> ds[i].id != id
  {
    if ds == [] || ds[0].id == id then 0 else 1 + FirstWith(ds[1..], id)
  }

  /** What the map holds after the descriptors `ds`. */
  ghost predicate Knows(known: map<nat, Desc>, ds: seq<Desc>) {
    && (forall d :: d in ds ==> d.id in known)
    && (forall id :: id in known ==> FirstWith(ds, id) < |ds| && known[id] == ds[FirstWith(ds, id)])
  }

  lemma {:induction false} FirstInside(ds: seq<Desc>, id: nat)
    ensures FirstWith(ds, id) < |ds| <==> exists d :: d in ds && d.id == id
  {
    if FirstWith(ds, id) < |ds| {
      assert ds[FirstWith(ds, id)] in ds;
    }
  }

  lemma {:induction false} FirstWithSnoc(ds: seq<Desc>, d: Desc, id: nat)
    ensures FirstWith(ds + [d], id) ==
      if FirstWith(ds, id) < |ds| then FirstWith(ds, id) else if d.id == id then |ds| else |ds| + 1
    decreases |ds|
  {
    if ds != [] {
      assert (ds + [d])[1..] == ds[1..] + [d];
      FirstWithSnoc(ds[1..], d, id);
    }
  }

  lemma {:induction false} FirstWithKept(ds: seq<Desc>, more: seq<Desc>, id: nat)
    requires FirstWith(ds, id) < |ds|
    ensures FirstWith(ds + more, id) == FirstWith(ds, id)
    decreases |ds|
  {
    assert (ds + more)[1..] == ds[1..] + more;
    if ds[0].id != id {
      FirstWithKept(ds[1..], more, id);
    }
  }

  lemma {:induction false} KnowsNext(known: map<nat, Desc>, ds: seq<Desc>, d: Desc)
    requires Knows(known, ds)
    ensures Knows(if d.id in known then known else known[d.id := d], ds + [d])
  {
    hide FirstWith;
    forall id | id in known || id == d.id
      ensures FirstWith(ds + [d], id) < |ds| + 1
      ensures id in known ==> FirstWith(ds + [d], id) == FirstWith(ds, id)
      ensures id !in known ==> FirstWith(ds + [d], id) == |ds|
    {
      FirstWithSnoc(ds, d, id);
      FirstInside(ds, id);
    }
  }

  lemma {:induction false} DictConcat(a: seq<Desc>, b: seq<Desc>, version: nat)
    requires forall d :: d in a + b ==> DescOk(d)
    ensures (forall d :: d in a ==> DescOk(d)) && (forall d :: d in b ==> DescOk(d))
    ensures Dict(a + b, version) == Dict(a, version) + Dict(b, version)
    decreases |a|
  {
    hide Entry;
    assert forall d :: d in a ==> d in a + b;
    assert forall d :: d in b ==> d in a + b;
    if a == [] {
      assert a + b == b;
    } else {
      assert (a + b)[1..] == a[1..] + b;
      forall d | d in a[1..] + b
        ensures DescOk(d)
      {
        assert d in a + b;
      }
      DictConcat(a[1..], b, version);
    }
  }

  /** The file `m` holds the dictionary `ds` from `start` on, and `ds[..k]` have been read. */
  ghost predicate ReadTo(m: seq<byte>, start: nat, p: nat, index: nat, known: map<nat, Desc>, ds: seq<Desc>, k: int,
                         version: nat)
  {
    && DescsOk(ds, version) && 0 <= k <= |ds| && start <= |m|
    && m[start..] == Dict(ds, version)
    && p == start + |Dict(ds[..k], version)|
    && index == k && Knows(known, ds[..k])
  }

  /** Where the descriptor `k` starts. */
  lemma {:induction false} Boundary(m: seq<byte>, start: nat, ds: seq<Desc>, k: nat, version: nat)
    requires DescsOk(ds, version) && k <= |ds| && start <= |m| && m[start..] == Dict(ds, version)
    ensures forall d :: d in ds[..k] ==> DescOk(d)
    ensures start + |Dict(ds[..k], version)| <= |m|
    ensures start + |Dict(ds[..k], version)| == |m| <==> k == |ds|
  {
    hide Entry;
    assert ds == ds[..k] + ds[k..];
    DictConcat(ds[..k], ds[k..], version);
  }

  lemma {:induction false} DictStep(ds: seq<Desc>, version: nat)
    requires ds != [] && forall d :: d in ds ==> DescOk(d)
    ensures DescOk(ds[0]) && (forall d :: d in ds[1..] ==> DescOk(d))
    ensures Dict(ds, version) == Entry(ds[0], version) + Dict(ds[1..], version)
    ensures Dict([ds[0]], version) == Entry(ds[0], version)
  {
    hide Entry;
    assert [ds[0]][1..] == [];
  }

  lemma {:induction false} NextAt(m: seq<byte>, start: nat, ds: seq<Desc>, k: nat, version: nat)
    requires DescsOk(ds, version) && k < |ds| && start <= |m| && m[start..] == Dict(ds, version)
    ensures (forall d :: d in ds[..k] ==> DescOk(d)) && (forall d :: d in ds[..k + 1] ==> DescOk(d)) && DescOk(ds[k])
    ensures var q, w := start + |Dict(ds[..k], version)|, Entry(ds[k], version);
      && Stands(m, q, w)
      && q + |w| == start + |Dict(ds[..k + 1], version)|
  {
    hide Entry, Dict, FileOk, DescOk;
    assert ds[k] in ds;
    assert ds == ds[..k] + ds[k..];
    DictConcat(ds[..k], ds[k..], version);
    assert ds[..k + 1] == ds[..k] + [ds[k]];
    DictConcat(ds[..k], [ds[k]], version);
    DictStep(ds[k..], version);
    var a, w, c := Dict(ds[..k], version), Entry(ds[k], version), Dict(ds[k..][1..], version);
    assert m[start..] == a + (w + c);
    assert m[start..start + |a| + |w + c|] == m[start..];
    SliceParts(m, start, a, w + c);
    SliceParts(m, start + |a|, w, c);
  }

  /** `MessageParser` and the map of `Messages` around it. `m` is the mapped file, whose dictionary
      starts at `start`; the writer may append to the file between calls. */
  class Messages {
    var m: seq<byte>
    var p: nat
    var end: nat
    var index: nat
    const version: nat
    const start: nat
    var known: map<nat, Desc>

    ghost predicate Read(ds: seq<Desc>, k: int)
      reads this
    {
      ReadTo(m, start, p, index, known, ds, k, version)
    }

    /** `initialize`. */
    constructor (mapped: seq<byte>, at: nat, ver: nat)
      requires at <= |mapped|
      ensures m == mapped && start == at && version == ver && p == at && end == |mapped| && index == 0 && known == map[]
    {
      m, p, end, index, version, start, known := mapped, at, |mapped|, 0, ver, at, map[];
    }

    method ReadU64() returns (x: nat)
      modifies `p
      ensures x == StrToU(m, old(p)).value && p == StrToU(m, old(p)).end
    {
      var r := StrToU(m, p);
      x, p := r.value, r.end;
    }

    /** `uint32_t x = strtoul(...)` drops the high bits. */
    method ReadU32() returns (x: nat)
      modifies `p
      ensures x == StrToU(m, old(p)).value % U32_BOUND && p == StrToU(m, old(p)).end
    {
      var r := StrToU(m, p);
      x, p := r.value % U32_BOUND, r.end;
    }

    method SkipWhiteSpace()
      modifies `p
      ensures p == SkipSpace(m, old(p))
    {
      while IsSpace(At(m, p))
        invariant SkipSpace(m, p) == SkipSpace(m, old(p))
        decreases |m| - p
      {
        p := p + 1;
      }
    }

    /** Stops at the end of the mapping, where the source would go on reading. */
    method ReadStringUntilWhitespace() returns (s: seq<byte>)
      requires p <= |m|
      modifies `p
      ensures p == UntilSpace(m, old(p)) && s == m[old(p)..p]
    {
      var pp := p;
      while pp < |m| && !IsSpace(m[pp])
        invariant p <= pp <= |m| && UntilSpace(m, pp) == UntilSpace(m, p)
      {
        pp := pp + 1;
      }
      s := m[p..pp];
      p := pp;
    }

    method ReadPString() returns (s: seq<byte>, ok: bool)
      modifies `p
      ensures ok == PStringAt(m, old(p)).Text?
      ensures ok ==> s == PStringAt(m, old(p)).s && p == PStringAt(m, old(p)).next
    {
      var len := WordAt(m, p);
      if p + 4 > |m| || len == 0 || p + 4 + len > |m| {
        return [], false;
      }
      p := p + 4;
      s, ok := m[p..p + len - 1], true;
      p := p + len;
    }

    /** `parse`: `Nothing` is the empty message. */
    method Parse() returns (r: Parsed)
      modifies `p, `index
      ensures r == ParseAt(m, old(p), end, version, old(index))
      ensures r.Parsed? ==> p == r.next && index == old(index) + 1
      ensures r.Nothing? ==> p == old(p) && index == old(index)
    {
      hide StrToU, SkipSpace, UntilSpace, PStringAt;
      if p >= end || At(m, p) == 0 {
        return Nothing;
      }
      index := index + 1;
      var tsc := ReadU64();
      SkipWhiteSpace();
      if p > |m| {
        return Wild;
      }
      var file := ReadStringUntilWhitespace();
      if p == |m| {
        return Wild;
      }
      SkipWhiteSpace();
      var line := ReadU32();
      var id := index % U32_BOUND;
      if version >= 3 {
        SkipWhiteSpace();
        id := ReadU32();
      }
      p := p + 1;
      var msg, ok := ReadPString();
      if !ok {
        return Wild;
      }
      var key;
      key, ok := ReadPString();
      if !ok {
        return Wild;
      }
      r := Parsed(Desc(tsc, file, line, id, msg, key), p);
    }

    /** `parse()` of `Messages`: everything that the file holds by now. */
    method ParseNew(ghost ds: seq<Desc>, ghost k: int)
      requires Read(ds, k)
      modifies `p, `end, `index, `known
      ensures Read(ds, |ds|) && p == end == |m|
    {
      hide Entry, ParseAt, Knows;
      end := |m|;
      ghost var j := k;
      Boundary(m, start, ds, k, version);
      while p < end
        invariant end == |m| && k <= j <= |ds| && Read(ds, j)
        invariant p <= |m| && (p == |m| <==> j == |ds|)
        decreases |m| - p
      {
        assert ds[j] in ds;
        NextAt(m, start, ds, j, version);
        Boundary(m, start, ds, j + 1, version);
        ParseEntry(m, p, ds[j], end, version, index);
        var r := Parse();
        ghost var before := known;
        if r.d.id !in known {
          known := known[r.d.id := r.d];
        }
        KnowsNext(before, ds[..j], ds[j]);
        assert ds[..j + 1] == ds[..j] + [ds[j]];
        j := j + 1;
      }
      assert ds[..|ds|] == ds;
    }

    /** `get`: the first descriptor with this id anywhere in the dictionary; new descriptors are
        parsed only when it is not known yet. A message without text counts as unknown. */
    method Get(id: nat, ghost ds: seq<Desc>, ghost k: int) returns (r: seq<Desc>, ghost k': int)
      requires Read(ds, k)
      modifies `p, `end, `index, `known
      ensures Read(ds, k') && k <= k'
      ensures var i := FirstWith(ds, id); r == if i < |ds| && ds[i].msg != [] then [ds[i]] else []
    {
      k' := k;
      if id !in known {
        ParseNew(ds, k);
        k' := |ds|;
      }
      Looked(known, ds, k', id);
      if id !in known || known[id].msg == [] {
        return [], k';
      }
      r := [known[id]];
    }
  }

  lemma {:induction false} Looked(known: map<nat, Desc>, ds: seq<Desc>, k: nat, id: nat)
    requires k <= |ds| && Knows(known, ds[..k]) && (id in known || k == |ds|)
    ensures id in known <==> FirstWith(ds, id) < |ds|
    ensures id in known ==> known[id] == ds[FirstWith(ds, id)]
  {
    hide FirstWith;
    if id in known {
      FirstWithKept(ds[..k], ds[k..], id);
      assert ds[..k] + ds[k..] == ds;
    } else {
      assert ds[..k] == ds;
      FirstInside(ds, id);
    }
  }

  /** The writer appends descriptors: what has been read stays read, and the new ones are next. */
  lemma {:induction false} Grown(m: seq<byte>, start: nat, p: nat, index: nat, known: map<nat, Desc>, ds: seq<Desc>,
                                 k: nat, more: seq<Desc>, version: nat)
    requires DescsOk(ds + more, version) && ReadTo(m, start, p, index, known, ds, k, version)
    ensures forall d :: d in more ==> DescOk(d)
    ensures ReadTo(m + Dict(more, version), start, p, index, known, ds + more, k, version)
  {
    hide Dict, Knows;
    forall d | d in more
      ensures d in ds + more
    {
    }
    assert (ds + more)[..k] == ds[..k];
    DictConcat(ds, more, version);
    assert (m + Dict(more, version))[start..] == m[start..] + Dict(more, version);
  }
}
