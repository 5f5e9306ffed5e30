/** The reader inverts the printer, and never reads a document out of a
    truncated object. */
module JsonRoundTrip {
  import opened Text
  import opened JsonString
  import opened Json

  // ------------------------------------------------------------- round trip

  lemma QuotedRoundTrip(s: string, rest: string)
    ensures ScanString(Quoted(s) + rest) == Ok(s, rest)
  {
    var cs := CodePoints(s);
    var t := Quoted(s) + rest;
    assert t[1..] == Escape(cs) + "\"" + rest;
    ScanBodyEscape(cs, rest);
    FuseIdentityIffNoPair(cs);
    FromCodePointsInverse(s);
  }

  lemma IntTextLen(n: int)
    ensures WholeLen(IntText(n)) == |IntText(n)| > 0
    ensures IntOf(IntText(n)) == n
  {
    var t := IntText(n);
    var m: nat := if n < 0 then -n else n;
    NatTextIsNumeral(m);
    NatTextRoundTrip(m);
    hide NatText, NatValue, DigitsLen;
    assert t[SignLen(t)..] == NatText(m);
    NumeralLen(NatText(m));
    assert t[..|t|] == t;
  }

  lemma IntTextRoundTrip(n: int, rest: string)
    requires Stop(rest)
    ensures ScanNumber(IntText(n) + rest) == Ok(Int(n), rest)
  {
    hide IntText, WholeLen, TailLen, IntValue;
    var t := IntText(n);
    IntTextLen(n);
    NumberLenStop(t, rest);
    EmptyTail();
    assert t[|t|..] == "" && (t + rest)[..|t|] == t == t[..|t|] && (t + rest)[|t|..] == rest;
  }

  lemma EmptyTail()
    ensures TailLen("") == 0
  {
  }

  lemma NumeralLen(s: string)
    requires IsNumeral(s)
    ensures DigitsLen(s) == |s|
  {
    assert forall i :: 0 <= i < |s| ==> IsDigit(s[i]);
  }

  lemma FloatTextRoundTrip(f: FloatText, rest: string)
    requires Stop(rest)
    ensures ScanNumber(f + rest) == Ok(Float(f), rest)
  {
    NumberLenStop(f, rest);
    assert (f + rest)[..|f|] == f && (f + rest)[|f|..] == rest;
  }

  /** Where a printed value starts, and that it is not white space or a bracket. */
  predicate ValueStart(t: string) {
    t != "" && !IsWs(t[0]) && t[0] != ']' && t[0] != '}'
  }

  lemma NumberStart(t: string)
    requires WholeLen(t) > 0
    ensures ValueStart(t) && (IsDigit(t[0]) || t[0] == '-')
  {
    if SignLen(t) == 0 {
      assert t[0..] == t;
      assert IsDigit(t[0..WholeLen(t)][0]);
    }
  }

  lemma PrintStart(d: Doc)
    ensures ValueStart(Print(d))
  {
    match d
    case Int(n) => IntTextLen(n); NumberStart(Print(d));
    case Float(f) => NumberStart(f);
    case _ =>
  }

  lemma WsNone(t: string)
    requires t == "" || !IsWs(t[0])
    ensures Ws(t) == t
  {
  }

  lemma WordRoundTrip(word: string, d: Doc, rest: string)
    requires word != ""
    ensures ScanWord(word + rest, word, d) == Ok(d, rest)
  {
    assert (word + rest)[..|word|] == word && (word + rest)[|word|..] == rest;
  }

  lemma NumberDispatch(t: string)
    requires t != "" && (IsDigit(t[0]) || t[0] == '-')
    ensures ScanValue(t) == ScanNumber(t)
  {
    hide ScanNumber;
  }

  lemma StringDispatch(t: string)
    requires t != "" && t[0] == '"' && ScanString(t).Ok?
    ensures ScanValue(t) == Ok(Str(ScanString(t).value), ScanString(t).rest)
  {
  }

  lemma ScalarRoundTrip(d: Doc, rest: string)
    requires Stop(rest) && !d.Arr? && !d.Obj?
    ensures ScanValue(Print(d) + rest) == Ok(d, rest)
  {
    var t := Print(d) + rest;
    match d
    case Null => WordRoundTrip("null", d, rest);
    case Bool(b) => WordRoundTrip(Print(d), d, rest);
    case Int(n) =>
      IntTextRoundTrip(n, rest);
      IntTextLen(n);
      NumberStart(Print(d));
      NumberDispatch(t);
    case Float(f) =>
      FloatTextRoundTrip(f, rest);
      NumberStart(f);
      NumberDispatch(t);
    case Str(s) =>
      QuotedRoundTrip(s, rest);
      StringDispatch(t);
  }

  /** How an array, or an object, is read from what follows its bracket. */
  lemma ScanArr(t: string, u: string, es: seq<Doc>, rest: string)
    requires t == "[" + u && ValueStart(u) && ScanElems(u) == Ok(es, rest)
    ensures ScanValue(t) == Ok(Arr(es), rest)
  {
    assert t[1..] == u;
    WsNone(u);
  }

  lemma ScanObj(t: string, u: string, ms: seq<Member>, rest: string)
    requires t == "{" + u && ValueStart(u) && ScanMembers(u) == Ok(ms, rest)
    ensures ScanValue(t) == Ok(Obj(ms), rest)
  {
    assert t[1..] == u;
    WsNone(u);
  }

  lemma EmptyRoundTrip(rest: string)
    ensures ScanValue("[]" + rest) == Ok(Arr([]), rest)
    ensures ScanValue("{}" + rest) == Ok(Obj([]), rest)
  {
    assert ("[]" + rest)[1..] == "]" + rest && ("]" + rest)[1..] == rest;
    assert ("{}" + rest)[1..] == "}" + rest && ("}" + rest)[1..] == rest;
  }

  lemma ElemsStart(es: seq<Doc>)
    requires es != []
    ensures ValueStart(PrintElems(es))
  {
    PrintStart(es[0]);
  }

  /** Every document is read back from its printed text, whatever follows. */
  lemma {:induction false} PrintRoundTrip(d: Doc, rest: string)
    requires Stop(rest)
    ensures ScanValue(Print(d) + rest) == Ok(d, rest)
    decreases d, 1
  {
    hide ScanElems, ScanMembers, ScanValue, PrintElems, PrintMembers;
    match d
    case Arr(es) =>
      if es == [] {
        EmptyRoundTrip(rest);
      } else {
        var u := PrintElems(es) + rest;
        ElemsStart(es);
        assert Print(d) + rest == "[" + u;
        ElemsRoundTrip(es, rest);
        ScanArr(Print(d) + rest, u, es, rest);
      }
    case Obj(ms) =>
      if ms == [] {
        EmptyRoundTrip(rest);
      } else {
        var u := PrintMembers(ms) + rest;
        MembersStart(ms);
        assert Print(d) + rest == "{" + u;
        MembersRoundTrip(ms, rest);
        ScanObj(Print(d) + rest, u, ms, rest);
      }
    case _ => ScalarRoundTrip(d, rest);
  }

  lemma {:induction false} ElemsRoundTrip(es: seq<Doc>, rest: string)
    requires es != []
    ensures ScanElems(PrintElems(es) + rest) == Ok(es, rest)
    decreases es, 0
  {
    var t := PrintElems(es) + rest;
    var after := (if |es| == 1 then "]" else "," + PrintElems(es[1..])) + rest;
    assert t == Print(es[0]) + after;
    PrintRoundTrip(es[0], after);
    WsNone(after);
    if |es| == 1 {
      assert after[1..] == rest;
      assert es == [es[0]];
    } else {
      var u := PrintElems(es[1..]) + rest;
      assert after[1..] == u;
      PrintStart(es[1]);
      assert u[0] == Print(es[1])[0];
      WsNone(u);
      ElemsRoundTrip(es[1..], rest);
      assert es == [es[0]] + es[1..];
    }
  }

  lemma KeyRoundTrip(k: string, after: string)
    requires ValueStart(after)
    ensures ScanKey(Quoted(k) + (":" + after)) == Ok(k, after)
  {
    QuotedRoundTrip(k, ":" + after);
    WsNone(":" + after);
    assert (":" + after)[1..] == after;
    WsNone(after);
  }

  lemma MembersStart(ms: seq<Member>)
    requires ms != []
    ensures PrintMembers(ms) != "" && PrintMembers(ms)[0] == '"'
  {
  }

  lemma MembersLast(t: string, m: Member, body: string, after: string, u: string)
    requires ScanKey(t) == Ok(m.key, body) && ScanValue(body) == Ok(m.value, after)
    requires Ws(after) == "}" + u
    ensures ScanMembers(t) == Ok([m], u)
  {
    assert ("}" + u)[1..] == u;
  }

  lemma MembersMore(t: string, m: Member, body: string, after: string, u: string,
                    ms: seq<Member>, rest: string)
    requires ScanKey(t) == Ok(m.key, body) && ScanValue(body) == Ok(m.value, after)
    requires Ws(after) == "," + u && ScanMembers(Ws(u)) == Ok(ms, rest)
    ensures ScanMembers(t) == Ok([m] + ms, rest)
  {
    assert ("," + u)[1..] == u;
  }

  lemma {:induction false} MembersRoundTrip(ms: seq<Member>, rest: string)
    requires ms != []
    ensures ScanMembers(PrintMembers(ms) + rest) == Ok(ms, rest)
    decreases ms, 0
  {
    hide ScanMembers, ScanKey, ScanValue, Quoted, Print;
    var m := ms[0];
    var t := PrintMembers(ms) + rest;
    var after := (if |ms| == 1 then "}" else "," + PrintMembers(ms[1..])) + rest;
    var body := Print(m.value) + after;
    assert t == Quoted(m.key) + (":" + body);
    PrintStart(m.value);
    KeyRoundTrip(m.key, body);
    PrintRoundTrip(m.value, after);
    WsNone(after);
    if |ms| == 1 {
      MembersLast(t, m, body, after, rest);
      assert ms == [m];
    } else {
      var u := PrintMembers(ms[1..]) + rest;
      assert after == "," + u;
      MembersStart(ms[1..]);
      WsNone(u);
      MembersRoundTrip(ms[1..], rest);
      MembersMore(t, m, body, after, u, ms[1..], rest);
      assert ms == [m] + ms[1..];
    }
  }

  /** White space only. */
  predicate Blank(t: string) {
    forall i :: 0 <= i < |t| ==> IsWs(t[i])
  }

  lemma {:induction false} WsBlank(t: string)
    ensures Ws(t) == "" <==> Blank(t)
  {
    if t != "" && IsWs(t[0]) {
      WsBlank(t[1..]);
      assert t == [t[0]] + t[1..];
    }
  }

  /** A printed document parses to itself, with any trailing white space. */
  lemma ParsePrint(d: Doc, tail: string)
    requires Blank(tail)
    ensures Parse(Print(d) + tail) == Some(d)
  {
    var t := Print(d) + tail;
    PrintStart(d);
    assert t[0] == Print(d)[0];
    WsNone(t);
    PrintRoundTrip(d, tail);
    WsBlank(tail);
  }

  /** Printing is injective. */
  lemma PrintInjective(a: Doc, b: Doc)
    requires Print(a) == Print(b)
    ensures a == b
  {
    ParsePrint(a, "");
    ParsePrint(b, "");
  }

  // -------------------------------------------------------------- extension

  lemma {:induction false} WsExtends(t: string, e: string)
    requires Ws(t) != ""
    ensures Ws(t + e) == Ws(t) + e
  {
    if IsWs(t[0]) {
      assert (t + e)[1..] == t[1..] + e;
      WsExtends(t[1..], e);
    }
  }

  /** White space and the closing characters do not continue a number. */
  lemma WsStop(t: string)
    requires Ws(t) != "" && !NumChar(Ws(t)[0])
    ensures t != "" && Stop(t)
  {
  }

  lemma NumberLenExtends(t: string, e: string)
    requires WholeLen(t) > 0
    requires var r := t[WholeLen(t) + TailLen(t[WholeLen(t)..])..]; r != "" && Stop(r)
    ensures WholeLen(t + e) == WholeLen(t)
    ensures TailLen((t + e)[WholeLen(t)..]) == TailLen(t[WholeLen(t)..])
  {
    hide WholeLen, TailLen;
    var w := WholeLen(t);
    var n := TailLen(t[w..]);
    var p := t[..w + n];
    var r := t[w + n..];
    assert t == p + r && t + e == p + (r + e);
    NumberLenStop(p, r);
    NumberLenStop(p, r + e);
  }

  lemma NumberExtends(t: string, e: string)
    requires ScanNumber(t).Ok?
    requires ScanNumber(t).rest != "" && Stop(ScanNumber(t).rest)
    ensures ScanNumber(t + e) == Ok(ScanNumber(t).value, ScanNumber(t).rest + e)
  {
    hide WholeLen, TailLen, IntValue;
    NumberLenExtends(t, e);
    var w := WholeLen(t);
    var n := TailLen(t[w..]);
    assert (t + e)[..w + n] == t[..w + n];
    assert (t + e)[w + n..] == t[w + n..] + e;
  }

  lemma StringExtends(t: string, e: string)
    requires ScanString(t).Ok?
    ensures ScanString(t + e) == Ok(ScanString(t).value, ScanString(t).rest + e)
  {
    assert (t + e)[1..] == t[1..] + e;
    ScanBodyExtends(t[1..], e);
  }

  lemma WordExtends(t: string, word: string, d: Doc, e: string)
    requires word != "" && ScanWord(t, word, d).Ok?
    ensures ScanWord(t + e, word, d) == Ok(d, ScanWord(t, word, d).rest + e)
  {
    assert (t + e)[..|word|] == t[..|word|];
    assert (t + e)[|word|..] == t[|word|..] + e;
  }

  /** A value that was read stays the value read when text is appended, except
      that a number at the very end could be continued. */
  lemma {:induction false} ValueExtends(t: string, e: string)
    requires ScanValue(t).Ok?
    requires (ScanValue(t).rest != "" && Stop(ScanValue(t).rest)) || (t[0] == '{' || t[0] == '[')
    ensures ScanValue(t + e) == Ok(ScanValue(t).value, ScanValue(t).rest + e)
    decreases |t|, 0
  {
    assert (t + e)[0] == t[0];
    if t[0] == '"' {
      StringExtends(t, e);
    } else if t[0] == '[' || t[0] == '{' {
      assert (t + e)[1..] == t[1..] + e;
      var u := Ws(t[1..]);
      WsExtends(t[1..], e);
      if u[0] == ']' || u[0] == '}' {
        assert (u + e)[1..] == u[1..] + e;
      }
      if t[0] == '[' && u[0] != ']' {
        ElemsExtends(u, e);
      } else if t[0] == '{' && u[0] != '}' {
        MembersExtends(u, e);
      }
    } else if t[0] == 'n' {
      WordExtends(t, "null", Null, e);
    } else if t[0] == 't' {
      WordExtends(t, "true", Bool(true), e);
    } else if t[0] == 'f' {
      WordExtends(t, "false", Bool(false), e);
    } else {
      NumberExtends(t, e);
    }
  }

  lemma ElemsLast(t: string, d: Doc, after: string, u: string)
    requires ScanValue(t) == Ok(d, after) && Ws(after) == "]" + u
    ensures ScanElems(t) == Ok([d], u)
  {
    assert ("]" + u)[1..] == u;
  }

  lemma ElemsMore(t: string, d: Doc, after: string, u: string, es: seq<Doc>, rest: string)
    requires ScanValue(t) == Ok(d, after) && Ws(after) == "," + u && ScanElems(Ws(u)) == Ok(es, rest)
    ensures ScanElems(t) == Ok([d] + es, rest)
  {
    assert ("," + u)[1..] == u;
  }

  lemma {:induction false} ElemsExtends(t: string, e: string)
    requires ScanElems(t).Ok?
    ensures ScanElems(t + e) == Ok(ScanElems(t).value, ScanElems(t).rest + e)
    decreases |t|, 1
  {
    hide ScanValue;
    var v := ScanValue(t);
    var u := Ws(v.rest);
    WsStop(v.rest);
    ValueExtends(t, e);
    WsExtends(v.rest, e);
    assert u + e == [u[0]] + (u[1..] + e);
    if u[0] == ',' {
      var w := Ws(u[1..]);
      WsExtends(u[1..], e);
      ElemsExtends(w, e);
      ElemsMore(t + e, v.value, v.rest + e, u[1..] + e, ScanElems(w).value, ScanElems(w).rest + e);
    } else {
      ElemsLast(t + e, v.value, v.rest + e, u[1..] + e);
    }
  }

  lemma KeyExtends(t: string, e: string)
    requires ScanKey(t).Ok? && ScanKey(t).rest != ""
    ensures ScanKey(t + e) == Ok(ScanKey(t).value, ScanKey(t).rest + e)
  {
    var k := ScanString(t);
    StringExtends(t, e);
    var u := Ws(k.rest);
    WsExtends(k.rest, e);
    assert (u + e)[1..] == u[1..] + e;
    WsExtends(u[1..], e);
  }

  lemma {:induction false} MembersExtends(t: string, e: string)
    requires ScanMembers(t).Ok?
    ensures ScanMembers(t + e) == Ok(ScanMembers(t).value, ScanMembers(t).rest + e)
    decreases |t|, 1
  {
    hide ScanValue, ScanKey;
    var k := ScanKey(t);
    var v := ScanValue(k.rest);
    var m := Member(k.value, v.value);
    var u := Ws(v.rest);
    KeyExtends(t, e);
    WsStop(v.rest);
    ValueExtends(k.rest, e);
    WsExtends(v.rest, e);
    assert u + e == [u[0]] + (u[1..] + e);
    if u[0] == ',' {
      var w := Ws(u[1..]);
      WsExtends(u[1..], e);
      MembersExtends(w, e);
      MembersMore(t + e, m, k.rest + e, v.rest + e, u[1..] + e, ScanMembers(w).value, ScanMembers(w).rest + e);
    } else {
      MembersLast(t + e, m, k.rest + e, v.rest + e, u[1..] + e);
    }
  }

  lemma BracketStart(d: Doc)
    requires d.Obj? || d.Arr?
    ensures Print(d) != "" && (Print(d)[0] == '{' || Print(d)[0] == '[')
  {
  }

  /** No proper prefix of a printed object or array is a JSON document. */
  lemma ProperPrefixRejected(d: Doc, n: nat)
    requires d.Obj? || d.Arr?
    requires n < |Print(d)|
    ensures Parse(Print(d)[..n]) == None
  {
    hide ScanValue, Print;
    var t := Print(d);
    var p := t[..n];
    BracketStart(d);
    PrintRoundTrip(d, "");
    assert t + "" == t && p + t[n..] == t;
    if p == "" {
      EmptyRejected();
    } else {
      WsNone(p);
      if ScanValue(p).Ok? {
        ValueExtends(p, t[n..]);
      }
    }
  }

  lemma EmptyRejected()
    ensures ScanValue("") == Fail
  {
  }

  // ---------------------------------------------------------------- alphabet

  predicate Printable(t: string) {
    forall i :: 0 <= i < |t| ==> ' ' <= t[i] <= '~'
  }

  lemma HexCharPrintable(d: nat)
    requires d < 16
    ensures ' ' <= HexChar(d) <= '~'
  {
  }

  lemma UnicodePrintable(n: nat)
    requires n < 0x10000
    ensures Printable(Unicode(n))
  {
    hide HexChar;
    var q := n / 16;
    var p := q / 16;
    HexCharPrintable(p / 16);
    HexCharPrintable(p % 16);
    HexCharPrintable(q % 16);
    HexCharPrintable(n % 16);
  }

  lemma Escape1Printable(c: CodePoint)
    ensures Printable(Escape1(c))
  {
    hide Unicode;
    if ShortOf(c).None? && !(32 <= c <= 126) {
      if c < 0x10000 {
        UnicodePrintable(c);
      } else {
        UnicodePrintable(HighOf(c));
        UnicodePrintable(LowOf(c));
      }
    }
  }

  lemma {:induction false} EscapePrintable(s: seq<CodePoint>)
    ensures Printable(Escape(s))
  {
    if s != [] {
      Escape1Printable(s[0]);
      EscapePrintable(s[1..]);
    }
  }

  lemma WholePrintable(t: string)
    ensures Printable(t[..WholeLen(t)])
  {
    var k, w := SignLen(t), WholeLen(t);
    if w > 0 {
      assert t[..w] == t[..k] + t[k..w];
    }
  }

  lemma FracPrintable(t: string)
    ensures Printable(t[..FracLen(t)])
  {
    var f := FracLen(t);
    if f > 0 {
      assert t[..f] == "." + t[1..][..f - 1];
    }
  }

  lemma ExpPrintable(t: string)
    ensures Printable(t[..ExpLen(t)])
  {
    var n := ExpLen(t);
    if n > 0 {
      var k := if |t| > 1 && (t[1] == '+' || t[1] == '-') then 2 else 1;
      assert t[..n] == t[..k] + t[k..][..n - k];
    }
  }

  lemma TailPrintable(t: string)
    ensures Printable(t[..TailLen(t)])
  {
    var f := FracLen(t);
    var x := ExpLen(t[f..]);
    FracPrintable(t);
    ExpPrintable(t[f..]);
    assert t[..f + x] == t[..f] + t[f..][..x];
  }

  lemma NumberPrintable(t: string)
    requires WholeLen(t) + TailLen(t[WholeLen(t)..]) == |t|
    ensures Printable(t)
  {
    hide WholeLen, TailLen;
    var w := WholeLen(t);
    WholePrintable(t);
    TailPrintable(t[w..]);
    assert t == t[..w] + t[w..][..|t| - w];
  }

  lemma IntPrintable(n: int)
    ensures Printable(IntText(n))
  {
    NatTextIsNumeral(if n < 0 then -n else n);
  }

  /** Printed text is printable ASCII: in particular it holds no line feed. */
  lemma {:induction false} PrintPrintable(d: Doc)
    ensures Printable(Print(d))
    decreases d, 1
  {
    match d
    case Int(n) => IntPrintable(n);
    case Float(f) => NumberPrintable(f);
    case Str(s) => EscapePrintable(CodePoints(s));
    case Arr(es) => if es != [] { ElemsPrintable(es); }
    case Obj(ms) => if ms != [] { MembersPrintable(ms); }
    case _ =>
  }

  lemma {:induction false} ElemsPrintable(es: seq<Doc>)
    requires es != []
    ensures Printable(PrintElems(es))
    decreases es, 0
  {
    PrintPrintable(es[0]);
    if |es| > 1 { ElemsPrintable(es[1..]); }
  }

  lemma {:induction false} MembersPrintable(ms: seq<Member>)
    requires ms != []
    ensures Printable(PrintMembers(ms))
    decreases ms, 0
  {
    hide Print;
    EscapePrintable(CodePoints(ms[0].key));
    PrintPrintable(ms[0].value);
    if |ms| > 1 { MembersPrintable(ms[1..]); }
  }
}
