/** The deserialisation key as text: `MsgFormatString` builds it in a fixed buffer, `addFormatter`
    takes it apart again. */
module KeyStrings {
  import opened Codes
  import opened Wrappers

  const KEY_SIZE: nat := 256

  /** `MsgFormatString`: a key buffer and the position of its terminating NUL, which is lost when a key
      does not fit (`memccpy` then returns a null pointer). */
  class MsgFormatString {
    const key: array<char>
    var ptr: Option<nat>

    ghost predicate Valid()
      reads this, key
    {
      key.Length == KEY_SIZE && ptr.Some? && ptr.value < KEY_SIZE && key[ptr.value] == '\0'
    }

    ghost function Contents(): string
      requires Valid()
      reads this, key
    {
      key[..ptr.value]
    }

    constructor ()
      ensures Valid() && Contents() == "" && fresh(key)
    {
      key := new char[KEY_SIZE](_ => '\0');
      ptr := Some(0);
    }

    /** `put`: a comma unless the key is empty, then `ss` up to its NUL (`memccpy`), as far as there is
        room. The key survives if and only if the text and its NUL fit. */
    method Put(ss: string)
      requires Valid() && '\0' !in ss
      modifies this, key
      ensures var text := (if old(ptr.value) == 0 then "" else old(Contents()) + ",") + ss;
        if |text| < KEY_SIZE then Valid() && Contents() == text else ptr == None
    {
      var p := ptr.value;
      if p != 0 {
        key[p] := ',';
        p := p + 1;
      }
      ghost var lead := key[..p];
      var room := KEY_SIZE - p;
      if |ss| < room {
        forall i | 0 <= i < |ss| {
          key[p + i] := ss[i];
        }
        key[p + |ss|] := '\0';
        ptr := Some(p + |ss|);
        assert key[..p + |ss|] == lead + ss;
      } else {
        forall i | 0 <= i < room {
          key[p + i] := ss[i];
        }
        ptr := None;
      }
    }
  }

  lemma {:induction false} KeySnoc(codes: seq<Code>, c: Code)
    ensures KeyText(codes + [c]) == (if codes == [] then "" else KeyText(codes) + ",") + CodeText(c)
    decreases |codes|
  {
    hide CodeText;
    if codes == [] {
      assert codes + [c] == [c];
    } else {
      assert (codes + [c])[1..] == codes[1..] + [c];
      KeySnoc(codes[1..], c);
      if |codes| == 1 {
        assert codes[1..] == [];
      }
    }
  }

  lemma {:induction false} CodeHasNoNul(c: Code)
    ensures '\0' !in CodeText(c)
  {
  }

  lemma {:induction false} KeyNonEmpty(codes: seq<Code>)
    ensures KeyText(codes) == "" <==> codes == []
  {
    if codes != [] {
      assert |CodeText(codes[0])| > 0;
    }
  }

  /** `formatString() << arg << ...`: one `put` a parameter builds the key's text, if it fits; `ok` tells
      whether it does, where the source would go on with a null pointer. */
  method BuildKey(codes: seq<Code>) returns (k: MsgFormatString, ok: bool)
    ensures ok <==> |KeyText(codes)| < KEY_SIZE
    ensures ok ==> k.Valid() && k.Contents() == KeyText(codes)
  {
    hide CodeText;
    k := new MsgFormatString();
    for i := 0 to |codes|
      invariant fresh(k) && fresh(k.key) && k.Valid() && k.Contents() == KeyText(codes[..i])
    {
      assert codes[..i + 1] == codes[..i] + [codes[i]];
      KeySnoc(codes[..i], codes[i]);
      KeyNonEmpty(codes[..i]);
      KeyPrefixShorter(codes, i + 1);
      CodeHasNoNul(codes[i]);
      k.Put(CodeText(codes[i]));
      if k.ptr == None {
        return k, false;
      }
    }
    assert codes[..|codes|] == codes;
    ok := true;
  }

  lemma {:induction false} KeyPrefixShorter(codes: seq<Code>, n: nat)
    requires n <= |codes|
    ensures |KeyText(codes[..n])| <= |KeyText(codes)|
    decreases |codes| - n
  {
    hide CodeText;
    if n == |codes| {
      assert codes[..n] == codes;
    } else {
      KeyPrefixShorter(codes, n + 1);
      assert codes[..n + 1] == codes[..n] + [codes[n]];
      KeySnoc(codes[..n], codes[n]);
    }
  }

  // ------------------------------------------------------------ taking apart

  lemma {:induction false} FindFirst(a: string, b: string)
    requires ',' !in a && (b == "" || b[0] == ',')
    ensures Find(a + b, ',') == |a|
    decreases |a|
  {
    if a == "" {
      assert a + b == b;
    } else {
      assert (a + b)[1..] == a[1..] + b;
      FindFirst(a[1..], b);
    }
  }

  /** Up to the first comma there is the first code, and after it the rest of the key. */
  lemma {:induction false} KeyHead(codes: seq<Code>)
    requires codes != []
    ensures var t, n := KeyText(codes), Find(KeyText(codes), ',');
      && t[..n] == CodeText(codes[0]) && ParseCode(t[..n]) == Some(codes[0])
      && (n < |t| <==> |codes| > 1)
      && t[if n < |t| then n + 1 else n..] == KeyText(codes[1..])
  {
    hide CodeText, ParseCode;
    var c, t := CodeText(codes[0]), KeyText(codes);
    ParseCodeText(codes[0]);
    var rest := if |codes| == 1 then "" else "," + KeyText(codes[1..]);
    assert t == c + rest;
    FindFirst(c, rest);
    assert t[..|c|] == c;
  }

  /** The test for the wall-clock key: `strncmp` with `"q,q,"`. */
  lemma {:induction false} WallClockPrefix(codes: seq<Code>)
    ensures "q,q," <= KeyText(codes) <==> |codes| >= 3 && codes[0] == Plain(U64) && codes[1] == Plain(U64)
  {
    if |codes| >= 1 {
      HeadIsQ(codes);
    }
    if |codes| >= 2 {
      HeadIsQ(codes[1..]);
    }
  }

  /** A key starts with `q` followed by a comma or its end exactly when its first code is U64. */
  lemma {:induction false} HeadIsQ(codes: seq<Code>)
    requires codes != []
    ensures var t := KeyText(codes);
      && |t| > 0
      && (t[0] == 'q' <==> codes[0] == Plain(U64))
      && (t[0] == 'q' ==> if |codes| == 1 then |t| == 1 else |t| > 1 && t[1] == ',' && t[2..] == KeyText(codes[1..]))
  {
    match codes[0] {
      case Plain(b) =>
      case Opt(b) =>
        assert KeyText(codes)[0] == 'O';
    }
  }

  // -------------------------------------------------------- any text as a key

  /** The codes of a key text, whatever it is: what stands before each comma and at the end, `None`
      where no formatter supports it. */
  function Pieces(t: string): (cs: seq<Option<Code>>)
    ensures cs == [] <==> t == ""
    decreases |t|
  {
    if t == "" then []
    else
      var n := Find(t, ',');
      [ParseCode(t[..n])] + Pieces(t[if n < |t| then n + 1 else n..])
  }

  ghost predicate Supported(cs: seq<Option<Code>>) {
    forall i :: 0 <= i < |cs| ==> cs[i].Some?
  }

  function Values(cs: seq<Option<Code>>): (key: seq<Code>)
    requires Supported(cs)
    ensures |key| == |cs| && forall i :: 0 <= i < |cs| ==> key[i] == cs[i].value
  {
    if cs == [] then [] else [cs[0].value] + Values(cs[1..])
  }

  lemma {:induction false} SupportedTail(cs: seq<Option<Code>>)
    requires cs != []
    ensures Supported(cs) <==> cs[0].Some? && Supported(cs[1..])
    ensures Supported(cs) ==> Values(cs) == [cs[0].value] + Values(cs[1..])
  {
    assert forall i :: 0 < i < |cs| ==> cs[i] == cs[1..][i - 1];
  }

  /** A key that `MsgFormatString` has built: all its codes are supported, and they are its codes. */
  lemma {:induction false} PiecesOfKey(codes: seq<Code>)
    ensures Supported(Pieces(KeyText(codes))) && Values(Pieces(KeyText(codes))) == codes
    decreases |codes|
  {
    hide KeyText, ParseCode, CodeText;
    KeyNonEmpty(codes);
    if codes != [] {
      KeyHead(codes);
      PiecesOfKey(codes[1..]);
      SupportedTail(Pieces(KeyText(codes)));
    }
  }

  lemma {:induction false} QPiece(t: string)
    requires "q," <= t
    ensures Pieces(t) == [Some(Plain(U64))] + Pieces(t[2..])
  {
    assert t == "q" + t[1..] && t[1..][0] == ',';
    FindFirst("q", t[1..]);
    hide Find;
    assert t[..1] == "q" && ParseCode("q") == Some(Plain(U64));
  }

  /** After `"q,q,"` come the codes of the rest. */
  lemma {:induction false} ClockPieces(t: string)
    requires "q,q," <= t
    ensures Pieces(t) == [Some(Plain(U64)), Some(Plain(U64))] + Pieces(t[4..])
  {
    hide Pieces;
    QPiece(t);
    assert "q," <= t[2..] && t[2..][2..] == t[4..];
    QPiece(t[2..]);
  }
}
