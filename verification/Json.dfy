/** JSON documents as text: the compact printer of json.dumps and the reader of
    json.loads (RFC 8259, sections 2 to 7).  Members of an object are kept in
    text order here; Canonical turns them into dictionaries. */
module Json {
  import opened Text
  import opened JsonString

  datatype Doc =
    | Null
    | Bool(b: bool)
    | Int(n: int)
    | Float(text: FloatText)
    | Str(s: string)
    | Arr(elems: seq<Doc>)
    | Obj(members: seq<Member>)

  datatype Member = Member(key: string, value: Doc)

  // ---------------------------------------------------------------- numbers

  /** Length of the leading run of digits. */
  function DigitsLen(t: string): (n: nat)
    ensures n <= |t| && AllDigits(t[..n])
    ensures n < |t| ==> !IsDigit(t[n])
  {
    if t == "" || !IsDigit(t[0]) then 0 else
      var n := 1 + DigitsLen(t[1..]);
      assert t[..n] == [t[0]] + t[1..][..n - 1];
      n
  }

  function SignLen(t: string): (n: nat)
    ensures n <= |t|
  {
    if t != "" && t[0] == '-' then 1 else 0
  }

  /** Length of `-?(0|[1-9][0-9]*)`, or zero. */
  function WholeLen(t: string): (n: nat)
    ensures n <= |t|
    ensures n > 0 ==> n > SignLen(t) && IsNumeral(t[SignLen(t)..n])
  {
    var k := SignLen(t);
    var u := t[k..];
    if u != "" && u[0] == '0' then
      assert t[k..k + 1] == ['0'];
      k + 1
    else
      var d := DigitsLen(u);
      assert t[k..k + d] == u[..d];
      if d == 0 then 0 else k + d
  }

  /** Length of `(\.[0-9]+)?`. */
  function FracLen(t: string): (n: nat)
    ensures n <= |t|
  {
    if t != "" && t[0] == '.' && DigitsLen(t[1..]) > 0 then 1 + DigitsLen(t[1..]) else 0
  }

  /** Length of `([eE][-+]?[0-9]+)?`. */
  function ExpLen(t: string): (n: nat)
    ensures n <= |t|
  {
    if t == "" || (t[0] != 'e' && t[0] != 'E') then 0 else
      var k := if |t| > 1 && (t[1] == '+' || t[1] == '-') then 2 else 1;
      if DigitsLen(t[k..]) == 0 then 0 else k + DigitsLen(t[k..])
  }

  function TailLen(t: string): (n: nat)
    ensures n <= |t|
  {
    var f := FracLen(t);
    f + ExpLen(t[f..])
  }

  /** The text of a finite Python float; the value is identified with it. */
  predicate IsFloatText(t: string) {
    var w := WholeLen(t);
    w > 0 && TailLen(t[w..]) > 0 && w + TailLen(t[w..]) == |t|
  }

  lemma ZeroIsFloatText()
    ensures IsFloatText("0.0")
  {
    assert "0.0"[0..] == "0.0" && "0.0"[1..] == ".0";
    assert ".0"[1..] == "0" && "0"[1..] == "";
    assert DigitsLen("0") == 1;
    assert ".0"[2..] == "";
  }

  ghost const ZERO_FLOAT: string := (ZeroIsFloatText(); "0.0")

  type FloatText = t: string | IsFloatText(t) ghost witness ZERO_FLOAT

  function IntText(n: int): string {
    if n < 0 then "-" + NatText(-n) else NatText(n)
  }

  function IntValue(t: string): int
    requires IsNumeral(t[SignLen(t)..])
  {
    if SignLen(t) == 1 then 0 - NatValue(t[1..]) else NatValue(t[0..])
  }

  lemma IntPrefix(t: string)
    requires WholeLen(t) > 0
    ensures var p := t[..WholeLen(t)]; IsNumeral(p[SignLen(p)..])
  {
    hide DigitsLen;
    var w := WholeLen(t);
    assert SignLen(t[..w]) == SignLen(t) && t[..w][SignLen(t)..] == t[SignLen(t)..w];
  }

  function IntOf(t: string): int
    requires WholeLen(t) > 0
  {
    IntPrefix(t);
    IntValue(t[..WholeLen(t)])
  }

  function FloatOf(t: string): FloatText
    requires WholeLen(t) > 0 && TailLen(t[WholeLen(t)..]) > 0
  {
    FloatPrefix(t);
    t[..WholeLen(t) + TailLen(t[WholeLen(t)..])]
  }

  function ScanNumber(t: string): (r: Parsed<Doc>)
    ensures r.Ok? ==> |r.rest| < |t|
  {
    var w := WholeLen(t);
    if w == 0 then Fail else
      var n := TailLen(t[w..]);
      Ok(if n == 0 then Int(IntOf(t)) else Float(FloatOf(t)), t[w + n..])
  }

  /** Characters that could continue a number. */
  predicate NumChar(c: char) {
    IsDigit(c) || c == '.' || c == 'e' || c == 'E' || c == '+' || c == '-'
  }

  /** The text after a value does not continue a number. */
  predicate Stop(e: string) {
    e == "" || !NumChar(e[0])
  }

  lemma {:induction false} DigitsLenStop(t: string, e: string)
    requires e == "" || !IsDigit(e[0])
    ensures DigitsLen(t + e) == DigitsLen(t)
  {
    if t == "" {
      assert t + e == e;
    } else {
      assert (t + e)[1..] == t[1..] + e;
      DigitsLenStop(t[1..], e);
    }
  }

  lemma WholeLenStop(t: string, e: string)
    requires Stop(e)
    ensures WholeLen(t + e) == WholeLen(t)
  {
    var k := SignLen(t);
    assert SignLen(t + e) == k;
    assert (t + e)[k..] == t[k..] + e;
    DigitsLenStop(t[k..], e);
  }

  lemma FracLenStop(t: string, e: string)
    requires Stop(e)
    ensures FracLen(t + e) == FracLen(t)
  {
    if t == "" {
      assert t + e == e;
    } else {
      assert (t + e)[1..] == t[1..] + e;
      DigitsLenStop(t[1..], e);
    }
  }

  lemma ExpLenStop(t: string, e: string)
    requires Stop(e)
    ensures ExpLen(t + e) == ExpLen(t)
  {
    hide DigitsLen;
    if t == "" {
      assert t + e == e;
    } else {
      assert (t + e)[1..] == t[1..] + e;
      DigitsLenStop(t[1..], e);
      if |t| > 1 {
        assert (t + e)[2..] == t[2..] + e;
        DigitsLenStop(t[2..], e);
      }
    }
  }

  lemma TailLenStop(t: string, e: string)
    requires Stop(e)
    ensures TailLen(t + e) == TailLen(t)
  {
    FracLenStop(t, e);
    var f := FracLen(t);
    assert (t + e)[f..] == t[f..] + e;
    ExpLenStop(t[f..], e);
  }

  /** Scanning is unaffected by a following text that stops a number. */
  lemma NumberLenStop(t: string, e: string)
    requires Stop(e)
    ensures WholeLen(t + e) == WholeLen(t)
    ensures TailLen((t + e)[WholeLen(t)..]) == TailLen(t[WholeLen(t)..])
  {
    WholeLenStop(t, e);
    var w := WholeLen(t);
    assert (t + e)[w..] == t[w..] + e;
    TailLenStop(t[w..], e);
  }

  // The scanned prefix alone scans to the same lengths.
  lemma {:induction false} DigitsLenPrefix(t: string, n: nat)
    requires DigitsLen(t) <= n <= |t|
    ensures DigitsLen(t[..n]) == DigitsLen(t)
  {
    if t != "" && IsDigit(t[0]) {
      assert t[..n][1..] == t[1..][..n - 1];
      DigitsLenPrefix(t[1..], n - 1);
    }
  }

  lemma ExpLenPrefix(t: string)
    ensures ExpLen(t[..ExpLen(t)]) == ExpLen(t)
  {
    var n := ExpLen(t);
    if n > 0 {
      var k := if |t| > 1 && (t[1] == '+' || t[1] == '-') then 2 else 1;
      assert t[..n][k..] == t[k..][..n - k];
      DigitsLenPrefix(t[k..], n - k);
      if k == 1 && n > 1 { assert IsDigit(t[1..][0]); }
    }
  }

  lemma FracLenPrefix(t: string, n: nat)
    requires FracLen(t) <= n <= |t|
    requires n > 0 && FracLen(t) == 0 ==> t[0] != '.'
    ensures FracLen(t[..n]) == FracLen(t)
  {
    hide DigitsLen;
    if FracLen(t) > 0 {
      assert t[..n][1..] == t[1..][..n - 1];
      DigitsLenPrefix(t[1..], n - 1);
    }
  }

  lemma TailLenPrefix(t: string)
    ensures TailLen(t[..TailLen(t)]) == TailLen(t)
  {
    var f := FracLen(t);
    var n := TailLen(t);
    assert n > 0 && f == 0 ==> t[f..] == t && t[0] != '.';
    FracLenPrefix(t, n);
    hide FracLen, ExpLen;
    assert t[..n][f..] == t[f..][..n - f];
    ExpLenPrefix(t[f..]);
  }

  lemma WholeLenPrefix(t: string, n: nat)
    requires WholeLen(t) <= n <= |t| && WholeLen(t) > 0
    ensures WholeLen(t[..n]) == WholeLen(t)
  {
    var k := SignLen(t);
    assert SignLen(t[..n]) == k;
    assert t[..n][k..] == t[k..][..n - k];
    if t[k] != '0' {
      DigitsLenPrefix(t[k..], n - k);
    }
  }

  lemma FloatPrefix(t: string)
    requires WholeLen(t) > 0 && TailLen(t[WholeLen(t)..]) > 0
    ensures IsFloatText(t[..WholeLen(t) + TailLen(t[WholeLen(t)..])])
  {
    hide WholeLen, TailLen;
    var w := WholeLen(t);
    var n := TailLen(t[w..]);
    WholeLenPrefix(t, w + n);
    assert t[..w + n][w..] == t[w..][..n];
    TailLenPrefix(t[w..]);
  }

  // ---------------------------------------------------------------- printer

  function Quoted(s: string): (r: string) {
    "\"" + Escape(CodePoints(s)) + "\""
  }

  /** json.dumps with separators (",", ":") and ensure_ascii. */
  function Print(d: Doc): string
    decreases d, 1
  {
    match d
    case Null => "null"
    case Bool(b) => if b then "true" else "false"
    case Int(n) => IntText(n)
    case Float(t) => t
    case Str(s) => Quoted(s)
    case Arr(es) => if es == [] then "[]" else "[" + PrintElems(es)
    case Obj(ms) => if ms == [] then "{}" else "{" + PrintMembers(ms)
  }

  /** The elements of a nonempty array with the closing bracket. */
  function PrintElems(es: seq<Doc>): string
    requires es != []
    decreases es, 0
  {
    Print(es[0]) + (if |es| == 1 then "]" else "," + PrintElems(es[1..]))
  }

  function PrintMembers(ms: seq<Member>): string
    requires ms != []
    decreases ms, 0
  {
    Quoted(ms[0].key) + (":" + (Print(ms[0].value) + (if |ms| == 1 then "}" else "," + PrintMembers(ms[1..]))))
  }

  // ----------------------------------------------------------------- reader

  predicate IsWs(c: char) {
    c == ' ' || c == '\t' || c == '\n' || c == '\r'
  }

  /** Skip leading white space. */
  function Ws(t: string): (r: string)
    ensures |r| <= |t|
    ensures r != "" ==> !IsWs(r[0])
  {
    if t != "" && IsWs(t[0]) then Ws(t[1..]) else t
  }

  /** A string literal without surrogates (see JsonString for those). */
  function ScanString(t: string): (r: Parsed<string>)
    ensures r.Ok? ==> |r.rest| < |t|
  {
    if t == "" || t[0] != '"' then Fail else
      var b := ScanBody(t[1..]);
      if b.Fail? || FromCodePoints(b.value).None? then Fail
      else Ok(FromCodePoints(b.value).value, b.rest)
  }

  function ScanWord(t: string, word: string, d: Doc): (r: Parsed<Doc>)
    requires word != ""
    ensures r.Ok? ==> |r.rest| < |t|
  {
    if |word| <= |t| && t[..|word|] == word then Ok(d, t[|word|..]) else Fail
  }

  function ScanValue(t: string): (r: Parsed<Doc>)
    ensures r.Ok? ==> |r.rest| < |t|
    decreases |t|, 0
  {
    if t == "" then Fail
    else if t[0] == '"' then
      var s := ScanString(t);
      if s.Fail? then Fail else Ok(Str(s.value), s.rest)
    else if t[0] == '[' then
      var u := Ws(t[1..]);
      if u != "" && u[0] == ']' then Ok(Arr([]), u[1..]) else
        var es := ScanElems(u);
        if es.Fail? then Fail else Ok(Arr(es.value), es.rest)
    else if t[0] == '{' then
      var u := Ws(t[1..]);
      if u != "" && u[0] == '}' then Ok(Obj([]), u[1..]) else
        var ms := ScanMembers(u);
        if ms.Fail? then Fail else Ok(Obj(ms.value), ms.rest)
    else if t[0] == 'n' then ScanWord(t, "null", Null)
    else if t[0] == 't' then ScanWord(t, "true", Bool(true))
    else if t[0] == 'f' then ScanWord(t, "false", Bool(false))
    else ScanNumber(t)
  }

  function ScanElems(t: string): (r: Parsed<seq<Doc>>)
    ensures r.Ok? ==> |r.rest| < |t| && r.value != []
    decreases |t|, 1
  {
    var v := ScanValue(t);
    if v.Fail? then Fail else
      var u := Ws(v.rest);
      if u == "" then Fail
      else if u[0] == ']' then Ok([v.value], u[1..])
      else if u[0] == ',' then
        var es := ScanElems(Ws(u[1..]));
        if es.Fail? then Fail else Ok([v.value] + es.value, es.rest)
      else Fail
  }

  /** The key of a member with its colon and the white space around it. */
  function ScanKey(t: string): (r: Parsed<string>)
    ensures r.Ok? ==> |r.rest| < |t|
  {
    var k := ScanString(t);
    if k.Fail? then Fail else
      var u := Ws(k.rest);
      if u == "" || u[0] != ':' then Fail else Ok(k.value, Ws(u[1..]))
  }

  function ScanMembers(t: string): (r: Parsed<seq<Member>>)
    ensures r.Ok? ==> |r.rest| < |t| && r.value != []
    decreases |t|, 1
  {
    var k := ScanKey(t);
    if k.Fail? then Fail else
      var v := ScanValue(k.rest);
      if v.Fail? then Fail else
        var m := Member(k.value, v.value);
        var u := Ws(v.rest);
        if u == "" then Fail
        else if u[0] == '}' then Ok([m], u[1..])
        else if u[0] == ',' then
          var ms := ScanMembers(Ws(u[1..]));
          if ms.Fail? then Fail else Ok([m] + ms.value, ms.rest)
        else Fail
  }

  /** json.loads before dictionaries are built: one value and white space. */
  function Parse(t: string): Option<Doc> {
    var r := ScanValue(Ws(t));
    if r.Ok? && Ws(r.rest) == "" then Some(r.value) else None
  }
}
