/** The reader against the grammar of RFC 8259, sections 2 to 7: it accepts
    exactly the texts of that grammar, with the value the grammar gives them.
    A text is described by a tree of its tokens and white space. */
module JsonGrammar {
  import opened Text
  import opened Patterns
  import opened JsonString
  import opened Json

  // ------------------------------------------------------------------ numbers

  /** sign whole frac exp: [-] int [ "." digits ] [ e [sign] digits ] */
  predicate NumberParts(sign: string, whole: string, frac: string, exp: string) {
    && (sign == "" || sign == "-") && IsNumeral(whole)
    && (frac == "" || (|frac| >= 2 && frac[0] == '.' && AllDigits(frac[1..])))
    && (exp == "" || ExponentParts(exp))
  }

  predicate ExponentParts(exp: string) {
    && |exp| >= 2 && exp[0] in {'e', 'E'}
    && if exp[1] in {'+', '-'} then |exp| >= 3 && AllDigits(exp[2..]) else AllDigits(exp[1..])
  }

  /** An integer without fraction and exponent, otherwise the text of a float. */
  ghost predicate NumberValue(sign: string, whole: string, frac: string, exp: string, d: Doc)
    requires NumberParts(sign, whole, frac, exp)
  {
    if frac == "" && exp == "" then d == Int(if sign == "-" then 0 - NatValue(whole) else NatValue(whole))
    else d.Float? && d.text == sign + whole + frac + exp
  }

  lemma {:induction false} DigitsAll(d: string, rest: string)
    requires AllDigits(d) && (rest == "" || !IsDigit(rest[0]))
    ensures DigitsLen(d + rest) == |d|
  {
    if d == "" {
      assert d + rest == rest;
    } else {
      assert (d + rest)[1..] == d[1..] + rest;
      DigitsAll(d[1..], rest);
    }
  }

  lemma WholeIs(sign: string, whole: string, rest: string)
    requires (sign == "" || sign == "-") && IsNumeral(whole) && (rest == "" || !IsDigit(rest[0]))
    ensures WholeLen(sign + whole + rest) == |sign| + |whole| && SignLen(sign + whole + rest) == |sign|
  {
    var t := sign + whole + rest;
    assert t[|sign|..] == whole + rest;
    assert whole[0] != '-' && t[|sign|] == whole[0];
    DigitsAll(whole, rest);
  }

  lemma FracIs(frac: string, rest: string)
    requires frac == "" || (|frac| >= 2 && frac[0] == '.' && AllDigits(frac[1..]))
    requires rest == "" || (!IsDigit(rest[0]) && rest[0] != '.')
    ensures FracLen(frac + rest) == |frac|
  {
    if frac == "" {
      assert frac + rest == rest;
    } else {
      assert (frac + rest)[1..] == frac[1..] + rest;
      DigitsAll(frac[1..], rest);
    }
  }

  lemma ExpIs(exp: string, rest: string)
    requires (exp == "" || ExponentParts(exp)) && Stop(rest)
    ensures ExpLen(exp + rest) == |exp|
  {
    if exp == "" {
      assert exp + rest == rest;
    } else {
      var t := exp + rest;
      var k := if exp[1] in {'+', '-'} then 2 else 1;
      assert t[k..] == exp[k..] + rest && t[0] == exp[0] && t[1] == exp[1];
      DigitsAll(exp[k..], rest);
      assert k == 1 ==> IsDigit(exp[1..][0]);
    }
  }

  lemma TailIs(frac: string, exp: string, rest: string)
    requires frac == "" || (|frac| >= 2 && frac[0] == '.' && AllDigits(frac[1..]))
    requires (exp == "" || ExponentParts(exp)) && Stop(rest)
    ensures TailLen(frac + exp + rest) == |frac| + |exp|
  {
    var t := frac + exp + rest;
    assert t == frac + (exp + rest) && t[|frac|..] == exp + rest;
    assert exp + rest != "" ==> (exp + rest)[0] == if exp == "" then rest[0] else exp[0];
    FracIs(frac, exp + rest);
    ExpIs(exp, rest);
  }

  /** Every number of the grammar is read, up to the text that stops it. */
  lemma NumberRead(sign: string, whole: string, frac: string, exp: string, d: Doc, rest: string)
    requires NumberParts(sign, whole, frac, exp) && NumberValue(sign, whole, frac, exp, d) && Stop(rest)
    ensures ScanNumber(sign + whole + frac + exp + rest) == Ok(d, rest)
  {
    var t := sign + whole + frac + exp + rest;
    NumberLayout(sign, whole, frac, exp, rest);
    TailHead(frac, exp, rest);
    WholeIs(sign, whole, frac + exp + rest);
    TailIs(frac, exp, rest);
    assert |whole| > 0;
    if frac == "" && exp == "" { IntegerRead(sign, whole, t); }
    ScanNumberIs(t);
    hide *;
  }

  lemma ScanNumberIs(t: string)
    requires WholeLen(t) > 0
    ensures var w := WholeLen(t);
            var n := TailLen(t[w..]);
            && ScanNumber(t).Ok? && ScanNumber(t).rest == t[w + n..]
            && (if n == 0 then ScanNumber(t).value == Int(IntOf(t))
                else ScanNumber(t).value.Float? && ScanNumber(t).value.text == t[..w + n])
  {
    hide WholeLen, TailLen;
  }

  /** What follows an integer part is no digit. */
  lemma TailHead(frac: string, exp: string, rest: string)
    requires frac == "" || frac[0] == '.'
    requires (exp == "" || ExponentParts(exp)) && Stop(rest)
    ensures var tail := frac + exp + rest; tail == "" || !IsDigit(tail[0])
  {
    var tail := frac + exp + rest;
    assert tail != "" ==> tail[0] == if frac != "" then frac[0] else if exp != "" then exp[0] else rest[0];
  }

  lemma NumberLayout(sign: string, whole: string, frac: string, exp: string, rest: string)
    ensures var t := sign + whole + frac + exp + rest;
            var w, n := |sign| + |whole|, |sign| + |whole| + |frac| + |exp|;
            && t == sign + whole + (frac + exp + rest) && t[w..] == frac + exp + rest && t[n..] == rest
            && t[..w] == sign + whole && t[..n] == sign + whole + frac + exp
  {
    var a := sign + whole;
    var b := a + frac;
    var c := b + exp;
    assert c + rest == a + (frac + exp + rest);
  }

  lemma IntegerRead(sign: string, whole: string, t: string)
    requires (sign == "" || sign == "-") && IsNumeral(whole)
    requires WholeLen(t) == |sign| + |whole| && |sign| + |whole| <= |t| && t[..|sign| + |whole|] == sign + whole
    ensures IntOf(t) == if sign == "-" then 0 - NatValue(whole) else NatValue(whole)
  {
    var p := sign + whole;
    IntPrefix(t);
    hide WholeLen, NatValue;
    if sign == "-" {
      assert p[1..] == whole;
    } else {
      assert p == whole && p[0..] == whole && whole[0] != '-';
    }
  }

  /** Everything read as a number is one of the grammar. */
  lemma NumberOf(t: string) returns (sign: string, whole: string, frac: string, exp: string)
    requires ScanNumber(t).Ok?
    ensures NumberParts(sign, whole, frac, exp) && NumberValue(sign, whole, frac, exp, ScanNumber(t).value)
    ensures t == sign + whole + frac + exp + ScanNumber(t).rest
  {
    var k, w := SignLen(t), WholeLen(t);
    var n := TailLen(t[w..]);
    sign, whole := t[..k], t[k..w];
    assert (sign == "" || sign == "-") && IsNumeral(whole);
    frac, exp := TailParts(t[w..]);
    ScanNumberIs(t);
    hide WholeLen, TailLen, ExponentParts, AllDigits, NatValue, IsNumeral, ScanNumber, IntOf, SignLen, FracLen, ExpLen;
    NumberSlices(t, k, w, n, frac, exp);
    if n == 0 {
      IntegerRead(sign, whole, t);
    }
  }

  lemma NumberSlices(t: string, k: nat, w: nat, n: nat, frac: string, exp: string)
    requires k <= w && w + n <= |t| && frac + exp == t[w..][..n]
    ensures t[..k] + t[k..w] == t[..w] && |frac| + |exp| == n
    ensures t[..k] + t[k..w] + frac + exp == t[..w + n]
    ensures t == t[..k] + t[k..w] + frac + exp + t[w + n..]
  {
    assert t[w..][..n] == t[w..w + n];
    assert |frac + exp| == n;
    assert t[..w] + frac + exp == t[..w] + (frac + exp) == t[..w + n];
  }

  lemma TailParts(u: string) returns (frac: string, exp: string)
    ensures frac == "" || (|frac| >= 2 && frac[0] == '.' && AllDigits(frac[1..]))
    ensures exp == "" || ExponentParts(exp)
    ensures frac + exp == u[..TailLen(u)]
  {
    var f := FracLen(u);
    var e := ExpLen(u[f..]);
    frac, exp := u[..f], u[f..][..e];
    assert u[..f + e] == frac + exp;
    if f > 0 {
      assert frac[1..] == u[1..][..f - 1];
    }
    if e > 0 {
      var v := u[f..];
      var k := if |v| > 1 && (v[1] == '+' || v[1] == '-') then 2 else 1;
      assert exp[k..] == v[k..][..e - k];
      assert k == 1 ==> exp[1] == v[1..][0];
    }
  }

  // ------------------------------------------------------------------ strings

  /** A piece of a string literal: a raw character, a two-character escape, or an
      escape with four hexadecimal digits. */
  datatype Unit = Raw(c: char) | Short(letter: char) | Code(digits: string)

  const SHORT_ESCAPES: map<char, CodePoint> :=
    map['"' := 34, '\\' := 92, '/' := 47, 'b' := 8, 'f' := 12, 'n' := 10, 'r' := 13, 't' := 9]

  const HEX_VALUES: map<char, nat> :=
    map['0' := 0, '1' := 1, '2' := 2, '3' := 3, '4' := 4, '5' := 5, '6' := 6, '7' := 7, '8' := 8, '9' := 9,
        'a' := 10, 'b' := 11, 'c' := 12, 'd' := 13, 'e' := 14, 'f' := 15,
        'A' := 10, 'B' := 11, 'C' := 12, 'D' := 13, 'E' := 14, 'F' := 15]

  predicate UnitOk(u: Unit) {
    match u
    case Raw(c) => c != '"' && c != '\\' && c as int >= 32
    case Short(l) => l in SHORT_ESCAPES
    case Code(ds) => |ds| == 4 && Over(ds, HEX_VALUES.Keys)
  }

  function UnitText(u: Unit): string {
    match u
    case Raw(c) => [c]
    case Short(l) => ['\\', l]
    case Code(ds) => "\\u" + ds
  }

  /** The code point of a piece; a surrogate only for an escape with digits. */
  function UnitPoint(u: Unit): CodePoint
    requires UnitOk(u)
  {
    match u
    case Raw(c) => c as int
    case Short(l) => SHORT_ESCAPES[l]
    case Code(ds) => CodeValue(ds)
  }

  function CodeValue(ds: string): (n: nat)
    requires |ds| == 4 && Over(ds, HEX_VALUES.Keys)
    ensures n < 0x10000
  {
    HexValueExactly(ds[0]);
    HexValueExactly(ds[1]);
    HexValueExactly(ds[2]);
    HexValueExactly(ds[3]);
    HEX_VALUES[ds[0]] * 4096 + HEX_VALUES[ds[1]] * 256 + HEX_VALUES[ds[2]] * 16 + HEX_VALUES[ds[3]]
  }

  lemma HexValueExactly(c: char)
    ensures HexValue(c) == (if c in HEX_VALUES then Some(HEX_VALUES[c]) else None)
    ensures c in HEX_VALUES ==> HEX_VALUES[c] < 16
  {
  }

  lemma ShortExactly(c: char)
    ensures ShortEscape(c) == (if c in SHORT_ESCAPES then Some(SHORT_ESCAPES[c]) else None)
  {
  }

  predicate UnitsOk(us: seq<Unit>) {
    forall i :: 0 <= i < |us| ==> UnitOk(us[i])
  }

  function UnitsText(us: seq<Unit>): string {
    if us == [] then "" else UnitText(us[0]) + UnitsText(us[1..])
  }

  function UnitsPoints(us: seq<Unit>): (r: seq<CodePoint>)
    requires UnitsOk(us)
    ensures |r| == |us|
  {
    if us == [] then [] else [UnitPoint(us[0])] + UnitsPoints(us[1..])
  }

  lemma CodeRead(ds: string, rest: string)
    requires |ds| == 4 && Over(ds, HEX_VALUES.Keys)
    ensures Unhex4(ds + rest) == Some(CodeValue(ds))
  {
    HexValueExactly(ds[0]);
    HexValueExactly(ds[1]);
    HexValueExactly(ds[2]);
    HexValueExactly(ds[3]);
    hide HEX_VALUES, HexValue;
    var t := ds + rest;
    assert t[0] == ds[0] && t[1] == ds[1] && t[2] == ds[2] && t[3] == ds[3];
  }

  lemma CodeOf(t: string)
    requires Unhex4(t).Some?
    ensures |t| >= 4 && Over(t[..4], HEX_VALUES.Keys) && CodeValue(t[..4]) == Unhex4(t).value
  {
    HexValueExactly(t[0]);
    HexValueExactly(t[1]);
    HexValueExactly(t[2]);
    HexValueExactly(t[3]);
    hide HEX_VALUES, HexValue;
    var ds := t[..4];
    assert ds[0] == t[0] && ds[1] == t[1] && ds[2] == t[2] && ds[3] == t[3];
  }

  /** The next text is an escape with digits of a low surrogate. */
  predicate LowNext(t: string) {
    StartsUnicode(t) && Low(Unhex4(t[2..]).value)
  }

  /** One piece is read as its code point, unless it is the first half of a pair. */
  lemma UnitRead(u: Unit, rest: string)
    requires UnitOk(u) && !(High(UnitPoint(u)) && LowNext(rest))
    ensures var t := UnitText(u) + rest;
            t != "" && t[0] != '"' && Scan1(t) == Ok(UnitPoint(u), rest)
  {
    var t := UnitText(u) + rest;
    match u
    case Raw(c) => assert t[1..] == rest;
    case Short(l) =>
      ShortExactly(l);
      hide SHORT_ESCAPES, ShortEscape;
      assert t[2..] == rest && t[1] == l;
      ShortIsNotU(l);
    case Code(ds) =>
      CodeRead(ds, rest);
      hide Unhex4, HEX_VALUES, CodeValue;
      assert t[2..] == ds + rest && t[6..] == rest && rest != "" && |rest| >= 2 ==> t[8..] == rest[2..];
  }

  lemma ShortIsNotU(l: char)
    requires l in SHORT_ESCAPES
    ensures l != 'u'
  {
  }

  /** A high and a low escape are read as one code point. */
  lemma PairRead(a: string, b: string, rest: string)
    requires |a| == 4 && Over(a, HEX_VALUES.Keys) && |b| == 4 && Over(b, HEX_VALUES.Keys)
    requires High(CodeValue(a)) && Low(CodeValue(b))
    ensures var t := "\\u" + a + ("\\u" + b + rest);
            t[0] == '\\' && Scan1(t) == Ok(Join(CodeValue(a), CodeValue(b)), rest)
  {
    var u := "\\u" + b + rest;
    var t := "\\u" + a + u;
    CodeRead(a, u);
    CodeRead(b, rest);
    hide Unhex4, HEX_VALUES, CodeValue, Over;
    assert u[2..] == b + rest && u[6..] == rest;
    assert t[2..] == a + u && t[6..] == u && t[8..] == u[2..] && t[12..] == rest;
    assert StartsUnicode(u);
  }

  lemma SurrogateIsCode(u: Unit)
    requires UnitOk(u) && Surrogate(UnitPoint(u))
    ensures u.Code?
  {
    if u.Short? { ShortPoint(u.letter); }
  }

  lemma ShortPoint(l: char)
    requires l in SHORT_ESCAPES
    ensures SHORT_ESCAPES[l] < 128
  {
  }

  lemma UnitsLayout(us: seq<Unit>, rest: string)
    requires us != []
    ensures UnitsText(us) + "\"" + rest == UnitText(us[0]) + (UnitsText(us[1..]) + "\"" + rest)
  {
    hide UnitText;
    var x, y := UnitText(us[0]), UnitsText(us[1..]);
    assert x + y + "\"" + rest == x + (y + "\"" + rest);
  }

  lemma LowUnit(u: Unit, more: string)
    requires UnitOk(u)
    ensures LowNext(UnitText(u) + more) <==> Low(UnitPoint(u))
  {
    match u
    case Raw(c) => RawLow(c, more);
    case Short(l) => ShortLow(l, more);
    case Code(ds) => CodeLow(ds, more);
  }

  lemma RawLow(c: char, more: string)
    requires UnitOk(Raw(c))
    ensures !LowNext([c] + more) && !Low(UnitPoint(Raw(c)))
  {
    hide Unhex4;
  }

  lemma ShortLow(l: char, more: string)
    requires l in SHORT_ESCAPES
    ensures !LowNext(['\\', l] + more) && !Low(SHORT_ESCAPES[l])
  {
    ShortIsNotU(l);
    ShortPoint(l);
    hide Unhex4, SHORT_ESCAPES;
  }

  lemma CodeLow(ds: string, more: string)
    requires |ds| == 4 && Over(ds, HEX_VALUES.Keys)
    ensures LowNext("\\u" + ds + more) <==> Low(CodeValue(ds))
  {
    CodeRead(ds, more);
    hide Unhex4, HEX_VALUES, CodeValue;
    assert ("\\u" + ds + more)[2..] == ds + more;
  }

  /** A low escape comes next exactly when the first piece is one. */
  lemma LowNextUnits(us: seq<Unit>, rest: string)
    requires UnitsOk(us)
    ensures LowNext(UnitsText(us) + "\"" + rest) <==> us != [] && Low(UnitPoint(us[0]))
  {
    if us == [] {
      assert (UnitsText(us) + "\"" + rest)[0] == '"';
    } else {
      UnitsLayout(us, rest);
      LowUnit(us[0], UnitsText(us[1..]) + "\"" + rest);
      hide UnitsText, UnitText, UnitPoint, LowNext;
    }
  }

  /** Every literal of the grammar is read as its code points, with surrogate
      pairs fused. */
  lemma {:induction false} BodyRead(us: seq<Unit>, rest: string)
    requires UnitsOk(us)
    ensures ScanBody(UnitsText(us) + "\"" + rest) == Ok(Fuse(UnitsPoints(us)), rest)
    decreases |us|
  {
    var t := UnitsText(us) + "\"" + rest;
    if us == [] {
      assert t == "\"" + rest && t[1..] == rest;
    } else {
      var v := us[1..];
      var next := UnitsText(v) + "\"" + rest;
      assert t == UnitText(us[0]) + next;
      var ps := UnitsPoints(us);
      assert ps == [UnitPoint(us[0])] + UnitsPoints(v);
      if |us| >= 2 && High(ps[0]) && Low(ps[1]) {
        PairBody(us, rest);
      } else {
        LowNextUnits(v, rest);
        UnitRead(us[0], next);
        BodyRead(v, rest);
        hide UnitText, UnitPoint, Scan1, UnitsText;
        assert ps[1..] == UnitsPoints(v);
      }
    }
  }

  lemma {:induction false} PairBody(us: seq<Unit>, rest: string)
    requires UnitsOk(us) && |us| >= 2 && High(UnitsPoints(us)[0]) && Low(UnitsPoints(us)[1])
    ensures ScanBody(UnitsText(us) + "\"" + rest) == Ok(Fuse(UnitsPoints(us)), rest)
    decreases |us|, 0
  {
    var w := us[2..];
    var last := UnitsText(w) + "\"" + rest;
    PairLayout(us, rest);
    SurrogateIsCode(us[0]);
    SurrogateIsCode(us[1]);
    var a, b := us[0].digits, us[1].digits;
    PairRead(a, b, last);
    BodyRead(w, rest);
    hide Scan1, CodeValue, UnitsText, HEX_VALUES;
  }

  lemma PairLayout(us: seq<Unit>, rest: string)
    requires UnitsOk(us) && |us| >= 2
    ensures var ps := UnitsPoints(us);
            && ps[0] == UnitPoint(us[0]) && ps[1] == UnitPoint(us[1]) && ps[2..] == UnitsPoints(us[2..])
            && UnitsText(us) + "\"" + rest ==
               UnitText(us[0]) + (UnitText(us[1]) + (UnitsText(us[2..]) + "\"" + rest))
  {
    PairPoints(us);
    UnitsLayout(us, rest);
    UnitsLayout(us[1..], rest);
    hide UnitText, UnitPoint, UnitsText, UnitOk, UnitsPoints;
    assert us[1..][0] == us[1] && us[1..][1..] == us[2..];
  }

  lemma PairPoints(us: seq<Unit>)
    requires UnitsOk(us) && |us| >= 2
    ensures UnitsPoints(us) == [UnitPoint(us[0]), UnitPoint(us[1])] + UnitsPoints(us[2..])
  {
    hide UnitPoint, UnitOk, UnitsPoints, UnitsText;
    assert us == [us[0], us[1]] + us[2..];
    TwoUnits(us[0], us[1]);
    UnitsAppend([us[0], us[1]], us[2..]);
  }

  /** Everything read as one code point is one piece, or a pair of them. */
  lemma UnitOf(t: string) returns (us: seq<Unit>)
    requires t != "" && t[0] != '"' && Scan1(t).Ok?
    ensures UnitsOk(us) && t == UnitsText(us) + Scan1(t).rest && 1 <= |us| <= 2
    ensures Fuse(UnitsPoints(us)) == [Scan1(t).value]
    ensures |us| == 1 && High(UnitPoint(us[0])) ==> !LowNext(Scan1(t).rest)
    ensures |us| == 2 ==> High(UnitPoint(us[0])) && Low(UnitPoint(us[1]))
  {
    var rest := Scan1(t).rest;
    if t[0] != '\\' {
      us := [Raw(t[0])];
      OneUnit(us[0]);
      assert t == [t[0]] + t[1..];
    } else if t[1] != 'u' {
      ShortExactly(t[1]);
      us := [Short(t[1])];
      OneUnit(us[0]);
      ShortPoint(t[1]);
      hide SHORT_ESCAPES, ShortEscape;
      assert t == ['\\', t[1]] + t[2..];
    } else {
      us := CodeUnits(t);
    }
  }

  lemma OneUnit(u: Unit)
    requires UnitOk(u)
    ensures UnitsOk([u]) && UnitsText([u]) == UnitText(u) && UnitsPoints([u]) == [UnitPoint(u)]
    ensures Fuse([UnitPoint(u)]) == [UnitPoint(u)]
  {
    hide UnitOk, UnitText, UnitPoint;
    assert [u][1..] == [] && [UnitPoint(u)][1..] == [];
  }

  lemma CodeUnits(t: string) returns (us: seq<Unit>)
    requires |t| >= 2 && t[0] == '\\' && t[1] == 'u' && Scan1(t).Ok?
    ensures UnitsOk(us) && t == UnitsText(us) + Scan1(t).rest && 1 <= |us| <= 2
    ensures Fuse(UnitsPoints(us)) == [Scan1(t).value]
    ensures |us| == 1 && High(UnitPoint(us[0])) ==> !LowNext(Scan1(t).rest)
    ensures |us| == 2 ==> High(UnitPoint(us[0])) && Low(UnitPoint(us[1]))
  {
    if High(Unhex4(t[2..]).value) && LowNext(t[6..]) {
      us := PairUnits(t);
    } else {
      us := SingleUnit(t);
    }
  }

  lemma SingleUnit(t: string) returns (us: seq<Unit>)
    requires |t| >= 2 && t[0] == '\\' && t[1] == 'u' && Unhex4(t[2..]).Some?
    requires !(High(Unhex4(t[2..]).value) && LowNext(t[6..]))
    ensures UnitsOk(us) && |us| == 1 && Scan1(t).Ok? && t == UnitsText(us) + Scan1(t).rest
    ensures Fuse(UnitsPoints(us)) == [Scan1(t).value]
    ensures High(UnitPoint(us[0])) ==> !LowNext(Scan1(t).rest)
  {
    SingleScan(t);
    CodeOf(t[2..]);
    var u := Code(t[2..][..4]);
    us := [u];
    hide Unhex4, HEX_VALUES, CodeValue, StartsUnicode, Scan1, UnitsText, UnitsPoints, Fuse;
    OneUnit(u);
    assert t[..2] == "\\u" && t == t[..2] + t[2..][..4] + t[6..];
  }

  lemma SingleScan(t: string)
    requires |t| >= 2 && t[0] == '\\' && t[1] == 'u' && Unhex4(t[2..]).Some?
    requires !(High(Unhex4(t[2..]).value) && LowNext(t[6..]))
    ensures |t| >= 6 && Scan1(t) == Ok(Unhex4(t[2..]).value, t[6..])
  {
    assert |t[2..]| >= 4;
    hide Unhex4;
    assert |t| >= 12 ==> t[6..][2..] == t[8..];
  }

  lemma PairUnits(t: string) returns (us: seq<Unit>)
    requires |t| >= 6 && t[0] == '\\' && t[1] == 'u' && Unhex4(t[2..]).Some? && High(Unhex4(t[2..]).value)
    requires LowNext(t[6..])
    ensures UnitsOk(us) && |us| == 2 && Scan1(t).Ok? && t == UnitsText(us) + Scan1(t).rest
    ensures Fuse(UnitsPoints(us)) == [Scan1(t).value]
    ensures High(UnitPoint(us[0])) && Low(UnitPoint(us[1]))
  {
    CodeOf(t[2..]);
    var v := t[6..];
    CodeOf(v[2..]);
    var a, b := t[2..][..4], v[2..][..4];
    us := [Code(a), Code(b)];
    TwoUnits(Code(a), Code(b));
    assert v[2..] == t[8..] && v[6..] == t[12..];
    hide Unhex4, HEX_VALUES, CodeValue;
    assert t == "\\u" + a + v && v == "\\u" + b + v[6..];
    assert "\\u" + a + ("\\u" + b + v[6..]) == ("\\u" + a) + ("\\u" + b) + v[6..];
  }

  lemma TwoUnits(u: Unit, v: Unit)
    requires UnitOk(u) && UnitOk(v)
    ensures UnitsOk([u, v]) && UnitsText([u, v]) == UnitText(u) + UnitText(v)
    ensures UnitsPoints([u, v]) == [UnitPoint(u), UnitPoint(v)]
    ensures High(UnitPoint(u)) && Low(UnitPoint(v)) ==>
              Fuse([UnitPoint(u), UnitPoint(v)]) == [Join(UnitPoint(u), UnitPoint(v))]
  {
    hide UnitOk, UnitText, UnitPoint;
    OneUnit(v);
    assert [u, v][1..] == [v] && [UnitPoint(u), UnitPoint(v)][2..] == [];
  }

  lemma UnitsAppend(us: seq<Unit>, vs: seq<Unit>)
    requires UnitsOk(us) && UnitsOk(vs)
    ensures UnitsOk(us + vs) && UnitsText(us + vs) == UnitsText(us) + UnitsText(vs)
    ensures UnitsPoints(us + vs) == UnitsPoints(us) + UnitsPoints(vs)
  {
    hide UnitOk, UnitsText, UnitsPoints;
    TextsAppend(us, vs);
    PointsAppend(us, vs);
  }

  lemma {:induction false} TextsAppend(us: seq<Unit>, vs: seq<Unit>)
    ensures UnitsText(us + vs) == UnitsText(us) + UnitsText(vs)
  {
    hide UnitText;
    if us == [] {
      assert us + vs == vs;
    } else {
      assert (us + vs)[1..] == us[1..] + vs;
      TextsAppend(us[1..], vs);
      Regroup2(UnitText(us[0]), UnitsText(us[1..]), UnitsText(vs));
    }
  }

  lemma {:induction false} PointsAppend(us: seq<Unit>, vs: seq<Unit>)
    requires UnitsOk(us) && UnitsOk(vs)
    ensures UnitsOk(us + vs) && UnitsPoints(us + vs) == UnitsPoints(us) + UnitsPoints(vs)
  {
    hide UnitOk, UnitPoint;
    if us == [] {
      assert us + vs == vs;
    } else {
      assert (us + vs)[1..] == us[1..] + vs && (us + vs)[0] == us[0];
      PointsAppend(us[1..], vs);
      assert [UnitPoint(us[0])] + (UnitsPoints(us[1..]) + UnitsPoints(vs)) ==
             ([UnitPoint(us[0])] + UnitsPoints(us[1..])) + UnitsPoints(vs);
    }
  }

  /** Everything read as a literal body is a sequence of pieces. */
  lemma {:induction false} BodyOf(t: string) returns (us: seq<Unit>)
    requires ScanBody(t).Ok?
    ensures UnitsOk(us) && t == UnitsText(us) + "\"" + ScanBody(t).rest
    ensures Fuse(UnitsPoints(us)) == ScanBody(t).value
    decreases |t|
  {
    if t[0] == '"' {
      us := [];
      assert t == "" + "\"" + t[1..];
    } else {
      var one := UnitOf(t);
      var c := Scan1(t);
      assert ScanBody(t).value == [c.value] + ScanBody(c.rest).value && ScanBody(t).rest == ScanBody(c.rest).rest;
      var more := BodyOf(c.rest);
      us := one + more;
      var rest := ScanBody(c.rest).rest;
      LowNextUnits(more, rest);
      hide Scan1, UnitText, UnitPoint, UnitsText, UnitsPoints, Fuse, ScanBody, LowNext, UnitOk;
      UnitsAppend(one, more);
      BodyText(UnitsText(one), UnitsText(more), rest);
      FuseAppend(one, more);
    }
  }

  lemma BodyText(a: string, b: string, rest: string)
    ensures a + (b + "\"" + rest) == a + b + "\"" + rest
  {
  }

  lemma FuseCons(c: CodePoint, q: seq<CodePoint>)
    requires !(High(c) && q != [] && Low(q[0]))
    ensures Fuse([c] + q) == [c] + Fuse(q)
  {
    assert ([c] + q)[1..] == q;
  }

  lemma FusePair(h: CodePoint, l: CodePoint, q: seq<CodePoint>)
    requires High(h) && Low(l)
    ensures Fuse([h, l] + q) == [Join(h, l)] + Fuse(q)
  {
    assert ([h, l] + q)[2..] == q;
  }

  lemma FuseAppend(one: seq<Unit>, more: seq<Unit>)
    requires UnitsOk(one) && UnitsOk(more) && 1 <= |one| <= 2
    requires |one| == 1 && High(UnitPoint(one[0])) && more != [] ==> !Low(UnitPoint(more[0]))
    requires |one| == 2 ==> High(UnitPoint(one[0])) && Low(UnitPoint(one[1]))
    ensures Fuse(UnitsPoints(one) + UnitsPoints(more)) == Fuse(UnitsPoints(one)) + Fuse(UnitsPoints(more))
  {
    var q := UnitsPoints(more);
    assert more != [] ==> q[0] == UnitPoint(more[0]);
    if |one| == 2 {
      assert one == [one[0], one[1]];
      TwoUnits(one[0], one[1]);
      FusePair(UnitPoint(one[0]), UnitPoint(one[1]), q);
    } else {
      assert one == [one[0]];
      OneUnit(one[0]);
      FuseCons(UnitPoint(one[0]), q);
    }
    hide *;
  }

  // ---------------------------------------------------------------- documents

  /** White space between tokens. */
  predicate AllWs(s: string) {
    Over(s, {' ', '\t', '\n', '\r'})
  }

  /** The tokens of a value, with the white space between them.  An empty list or
      table holds only white space. */
  datatype Tree =
    | Word(doc: Doc)
    | Number(sign: string, whole: string, frac: string, exp: string, doc: Doc)
    | Literal(units: seq<Unit>)
    | List(space: string, entries: seq<Entry>)
    | Table(space: string, rows: seq<Row>)

  datatype Entry = Entry(before: string, tree: Tree, after: string)

  datatype Row = Row(before: string, key: seq<Unit>, colonBefore: string, colonAfter: string, tree: Tree, after: string)

  /** The pieces spell a string of scalar values: after fusing no surrogate is left. */
  ghost predicate Spells(us: seq<Unit>, s: string) {
    UnitsOk(us) && CodePoints(s) == Fuse(UnitsPoints(us))
  }

  ghost predicate Proper(t: Tree) {
    match t
    case Word(d) => d.Null? || d.Bool?
    case Number(sign, whole, frac, exp, d) =>
      NumberParts(sign, whole, frac, exp) && NumberValue(sign, whole, frac, exp, d)
    case Literal(us) => exists s :: Spells(us, s)
    case List(space, es) => AllWs(space) && forall i :: 0 <= i < |es| ==> ProperEntry(es[i])
    case Table(space, rs) => AllWs(space) && forall i :: 0 <= i < |rs| ==> ProperRow(rs[i])
  }

  ghost predicate ProperEntry(e: Entry) {
    AllWs(e.before) && Proper(e.tree) && AllWs(e.after)
  }

  ghost predicate ProperRow(r: Row) {
    && AllWs(r.before) && (exists s :: Spells(r.key, s)) && AllWs(r.colonBefore) && AllWs(r.colonAfter)
    && Proper(r.tree) && AllWs(r.after)
  }

  function Quotes(us: seq<Unit>): string {
    "\"" + (UnitsText(us) + "\"")
  }

  function WordText(d: Doc): string {
    match d
    case Null => "null"
    case Bool(b) => if b then "true" else "false"
    case _ => ""
  }

  function Render(t: Tree): string
    decreases t, 1
  {
    match t
    case Word(d) => WordText(d)
    case Number(sign, whole, frac, exp, _) => sign + whole + frac + exp
    case Literal(us) => Quotes(us)
    case List(space, es) => "[" + (if es == [] then space + "]" else RenderEntries(es))
    case Table(space, rs) => "{" + (if rs == [] then space + "}" else RenderRows(rs))
  }

  function RenderEntries(es: seq<Entry>): string
    requires es != []
    decreases es, 0
  {
    es[0].before + (Render(es[0].tree) + (es[0].after + (if |es| == 1 then "]" else "," + RenderEntries(es[1..]))))
  }

  function RenderRows(rs: seq<Row>): string
    requires rs != []
    decreases rs, 0
  {
    RowLine(rs[0], Render(rs[0].tree), if |rs| == 1 then "}" else "," + RenderRows(rs[1..]))
  }

  /** The key, the colon and the text of the value, and what follows the row. */
  function RowLine(r: Row, value: string, end: string): string {
    r.before + (Quotes(r.key) + (r.colonBefore + (":" + (r.colonAfter + (value + (r.after + end))))))
  }

  /** The value a tree denotes. */
  ghost function SpelledBy(us: seq<Unit>): string {
    if exists s :: Spells(us, s) then
      var s :| Spells(us, s);
      s
    else ""
  }

  ghost function ValueOf(t: Tree): Doc
    decreases t, 1
  {
    match t
    case Word(d) => d
    case Number(_, _, _, _, d) => d
    case Literal(us) => Str(SpelledBy(us))
    case List(_, es) => Arr(EntryValues(es))
    case Table(_, rs) => Obj(RowValues(rs))
  }

  ghost function EntryValues(es: seq<Entry>): seq<Doc>
    decreases es, 0
  {
    if es == [] then [] else [ValueOf(es[0].tree)] + EntryValues(es[1..])
  }

  ghost function RowValues(rs: seq<Row>): seq<Member>
    decreases rs, 0
  {
    if rs == [] then [] else [Member(SpelledBy(rs[0].key), ValueOf(rs[0].tree))] + RowValues(rs[1..])
  }

  // --------------------------------------------- every text of the grammar is read

  lemma SpelledIs(us: seq<Unit>, s: string)
    requires Spells(us, s)
    ensures SpelledBy(us) == s
  {
    var r := SpelledBy(us);
    assert Spells(us, r);
    FromCodePointsInverse(s);
    FromCodePointsInverse(r);
  }

  lemma StringRead(us: seq<Unit>, rest: string)
    requires exists s :: Spells(us, s)
    ensures ScanString(Quotes(us) + rest) == Ok(SpelledBy(us), rest)
  {
    var s :| Spells(us, s);
    SpelledIs(us, s);
    var t := Quotes(us) + rest;
    assert t[0] == '"' && t[1..] == UnitsText(us) + "\"" + rest;
    BodyRead(us, rest);
    FromCodePointsInverse(s);
    hide UnitsText, UnitsPoints, ScanBody, Fuse;
  }

  lemma WsIs(c: char)
    ensures IsWs(c) <==> c in {' ', '\t', '\n', '\r'}
  {
  }

  lemma {:induction false} WsSkip(w: string, t: string)
    requires AllWs(w) && (t == "" || !IsWs(t[0]))
    ensures Ws(w + t) == t
  {
    if w == "" {
      assert w + t == t;
    } else {
      WsIs(w[0]);
      assert (w + t)[1..] == w[1..] + t;
      WsSkip(w[1..], t);
    }
  }

  /** A value starts with a token that is neither white space nor a closer. */
  lemma RenderStart(t: Tree)
    requires Proper(t)
    ensures Render(t) != "" && !IsWs(Render(t)[0]) && Render(t)[0] !in {']', '}', ',', ':'}
  {
    if t.Number? { assert IsDigit(t.whole[0]); }
  }

  lemma StopAfter(w: string, t: string)
    requires AllWs(w) && t != "" && t[0] in {',', ']', '}', ':'}
    ensures Stop(w + t) && !IsWs(t[0])
  {
    if w != "" { WsIs(w[0]); }
  }

  lemma {:induction false} TreeRead(t: Tree, rest: string)
    requires Proper(t) && Stop(rest)
    ensures ScanValue(Render(t) + rest) == Ok(ValueOf(t), rest)
    decreases t, 1
  {
    match t
    case Word(d) => WordRead(d, rest);
    case Number(sign, whole, frac, exp, d) => NumberTree(sign, whole, frac, exp, d, rest);
    case Literal(us) =>
      StringRead(us, rest);
      hide ScanString, UnitsText;
    case List(space, es) => if es == [] { EmptyRead(space, rest); } else { EntriesRead(es, rest); ListRead(es, rest); }
    case Table(space, rs) => if rs == [] { EmptyRead(space, rest); } else { RowsRead(rs, rest); TableRead(rs, rest); }
  }

  lemma WordRead(d: Doc, rest: string)
    requires d.Null? || d.Bool?
    ensures ScanValue(WordText(d) + rest) == Ok(d, rest)
  {
    var w := WordText(d);
    assert (w + rest)[..|w|] == w && (w + rest)[|w|..] == rest;
  }

  lemma NumberTree(sign: string, whole: string, frac: string, exp: string, d: Doc, rest: string)
    requires NumberParts(sign, whole, frac, exp) && NumberValue(sign, whole, frac, exp, d) && Stop(rest)
    ensures ScanValue(sign + whole + frac + exp + rest) == Ok(d, rest)
  {
    var t := sign + whole + frac + exp + rest;
    assert IsDigit(whole[0]) && t[0] == if sign == "" then whole[0] else '-';
    NumberRead(sign, whole, frac, exp, d, rest);
    ScansNumber(t);
    hide *;
  }

  /** Any other first character starts a number. */
  lemma ScansNumber(t: string)
    requires t != "" && (IsDigit(t[0]) || t[0] == '-')
    ensures ScanValue(t) == ScanNumber(t)
  {
    hide Ws, ScanElems, ScanMembers, ScanNumber, ScanString, ScanWord;
  }

  lemma ScansBrace(t: string)
    requires t != "" && t[0] == '{' && Ws(t[1..]) != "" && Ws(t[1..])[0] != '}' && ScanMembers(Ws(t[1..])).Ok?
    ensures ScanValue(t) == Ok(Obj(ScanMembers(Ws(t[1..])).value), ScanMembers(Ws(t[1..])).rest)
  {
    hide Ws, ScanElems, ScanMembers, ScanNumber, ScanString, ScanWord;
  }

  lemma EmptyRead(space: string, rest: string)
    requires AllWs(space)
    ensures ScanValue("[" + (space + "]") + rest) == Ok(Arr([]), rest)
    ensures ScanValue("{" + (space + "}") + rest) == Ok(Obj([]), rest)
  {
    WsSkip(space, "]" + rest);
    WsSkip(space, "}" + rest);
    var t, u := "[" + (space + "]") + rest, "{" + (space + "}") + rest;
    assert t[1..] == space + ("]" + rest) && u[1..] == space + ("}" + rest) && t[0] == '[' && u[0] == '{';
    hide *;
    ScansEmpty(t, rest);
    ScansEmpty(u, rest);
  }

  lemma ScansEmpty(t: string, rest: string)
    requires t != ""
    ensures t[0] == '[' && Ws(t[1..]) == "]" + rest ==> ScanValue(t) == Ok(Arr([]), rest)
    ensures t[0] == '{' && Ws(t[1..]) == "}" + rest ==> ScanValue(t) == Ok(Obj([]), rest)
  {
    hide Ws, ScanElems, ScanMembers, ScanNumber, ScanString, ScanWord;
    assert ("]" + rest)[1..] == rest && ("}" + rest)[1..] == rest;
  }

  lemma ListRead(es: seq<Entry>, rest: string)
    requires es != [] && Ws(RenderEntries(es) + rest) != "" && Ws(RenderEntries(es) + rest)[0] != ']'
    requires ScanElems(Ws(RenderEntries(es) + rest)) == Ok(EntryValues(es), rest)
    ensures ScanValue("[" + RenderEntries(es) + rest) == Ok(Arr(EntryValues(es)), rest)
  {
    hide *;
    Regroup2("[", RenderEntries(es), rest);
    BracketRead(RenderEntries(es) + rest, EntryValues(es), rest);
  }

  lemma BracketRead(x: string, ds: seq<Doc>, rest: string)
    requires Ws(x) != "" && Ws(x)[0] != ']' && ScanElems(Ws(x)) == Ok(ds, rest)
    ensures ScanValue("[" + x) == Ok(Arr(ds), rest)
  {
    assert ("[" + x)[1..] == x;
    hide Ws, ScanElems, ScanMembers, ScanNumber, ScanString, ScanWord;
  }

  lemma BraceRead(x: string, ms: seq<Member>, rest: string)
    requires Ws(x) != "" && Ws(x)[0] != '}' && ScanMembers(Ws(x)) == Ok(ms, rest)
    ensures ScanValue("{" + x) == Ok(Obj(ms), rest)
  {
    assert ("{" + x)[1..] == x && ("{" + x)[0] == '{';
    hide *;
    ScansBrace("{" + x);
  }

  lemma TableRead(rs: seq<Row>, rest: string)
    requires rs != [] && Ws(RenderRows(rs) + rest) != "" && Ws(RenderRows(rs) + rest)[0] != '}'
    requires ScanMembers(Ws(RenderRows(rs) + rest)) == Ok(RowValues(rs), rest)
    ensures ScanValue("{" + RenderRows(rs) + rest) == Ok(Obj(RowValues(rs)), rest)
  {
    hide *;
    Regroup2("{", RenderRows(rs), rest);
    BraceRead(RenderRows(rs) + rest, RowValues(rs), rest);
  }

  /** How the text of some entries begins. */
  lemma EntriesLayout(es: seq<Entry>, rest: string)
    requires es != []
    ensures var more := if |es| == 1 then "]" + rest else "," + (RenderEntries(es[1..]) + rest);
            RenderEntries(es) + rest == es[0].before + (Render(es[0].tree) + (es[0].after + more))
  {
    hide Render;
    var a, b, c := es[0].before, Render(es[0].tree), es[0].after;
    var d := if |es| == 1 then "]" else "," + RenderEntries(es[1..]);
    Regroup4(a, b, c, d, rest);
    if |es| > 1 { Regroup2(",", RenderEntries(es[1..]), rest); }
  }

  lemma Regroup2(a: string, b: string, rest: string)
    ensures (a + b) + rest == a + (b + rest)
  {
  }

  lemma Regroup4(a: string, b: string, c: string, d: string, rest: string)
    ensures (a + (b + (c + d))) + rest == a + (b + (c + (d + rest)))
  {
    Regroup2(a, b + (c + d), rest);
    Regroup2(b, c + d, rest);
    Regroup2(c, d, rest);
  }

  lemma {:induction false} EntriesRead(es: seq<Entry>, rest: string)
    requires es != [] && forall i :: 0 <= i < |es| ==> ProperEntry(es[i])
    ensures var u := Ws(RenderEntries(es) + rest);
            u != "" && u[0] != ']' && ScanElems(u) == Ok(EntryValues(es), rest)
    decreases es, 0
  {
    var e := es[0];
    assert ProperEntry(e);
    var tail := if |es| == 1 then "]" + rest else "," + (RenderEntries(es[1..]) + rest);
    var more := e.after + tail;
    EntriesLayout(es, rest);
    RenderStart(e.tree);
    var u := Render(e.tree) + more;
    assert u[0] == Render(e.tree)[0];
    WsSkip(e.before, u);
    StopAfter(e.after, tail);
    TreeRead(e.tree, more);
    WsSkip(e.after, tail);
    assert tail[1..] == if |es| == 1 then rest else RenderEntries(es[1..]) + rest;
    if |es| > 1 { EntriesRead(es[1..], rest); }
    ElemsStep(u, es, tail, rest);
  }

  lemma ElemsStep(u: string, es: seq<Entry>, tail: string, rest: string)
    requires es != [] && ScanValue(u).Ok? && ScanValue(u).value == ValueOf(es[0].tree) && Ws(ScanValue(u).rest) == tail
    requires tail != "" && tail[0] == (if |es| == 1 then ']' else ',')
    requires |es| == 1 ==> tail[1..] == rest
    requires |es| > 1 ==> ScanElems(Ws(tail[1..])) == Ok(EntryValues(es[1..]), rest)
    ensures ScanElems(u) == Ok(EntryValues(es), rest)
  {
    ElemsUnfold(u);
    hide *;
    if |es| == 1 {
      assert es == [es[0]];
      OneEntry(es[0]);
    } else {
      assert es == [es[0]] + es[1..];
      MoreEntries(es[0], es[1..]);
    }
  }

  lemma ElemsUnfold(u: string)
    requires ScanValue(u).Ok?
    ensures var v := ScanValue(u);
            var tail := Ws(v.rest);
            && (tail != "" && tail[0] == ']' ==> ScanElems(u) == Ok([v.value], tail[1..]))
            && (tail != "" && tail[0] == ',' && ScanElems(Ws(tail[1..])).Ok? ==>
                  var es := ScanElems(Ws(tail[1..]));
                  ScanElems(u) == Ok([v.value] + es.value, es.rest))
  {
    hide ScanValue, Ws;
  }

  /** How the text of some rows begins. */
  lemma RowsLayout(rs: seq<Row>, rest: string)
    requires rs != []
    ensures RenderRows(rs) + rest ==
            RowLine(rs[0], Render(rs[0].tree), if |rs| == 1 then "}" + rest else "," + (RenderRows(rs[1..]) + rest))
  {
    hide Render, RowLine;
    RowText(rs[0], Render(rs[0].tree), if |rs| == 1 then "}" else "," + RenderRows(rs[1..]), rest);
    if |rs| > 1 { Regroup2(",", RenderRows(rs[1..]), rest); }
  }

  lemma KeyRead(us: seq<Unit>, a: string, b: string, t: string)
    requires (exists s :: Spells(us, s)) && AllWs(a) && AllWs(b) && t != "" && !IsWs(t[0])
    ensures ScanKey(Quotes(us) + (a + (":" + (b + t)))) == Ok(SpelledBy(us), t)
  {
    StringRead(us, a + (":" + (b + t)));
    WsSkip(a, ":" + (b + t));
    WsSkip(b, t);
    hide ScanString, Ws, Quotes;
    assert (":" + (b + t))[1..] == b + t;
  }

  lemma {:induction false} RowsRead(rs: seq<Row>, rest: string)
    requires rs != [] && forall i :: 0 <= i < |rs| ==> ProperRow(rs[i])
    ensures var u := Ws(RenderRows(rs) + rest);
            u != "" && u[0] != '}' && ScanMembers(u) == Ok(RowValues(rs), rest)
    decreases rs, 0
  {
    var r := rs[0];
    assert ProperRow(r);
    var tail := if |rs| == 1 then "}" + rest else "," + (RenderRows(rs[1..]) + rest);
    var more := r.after + tail;
    RowsLayout(rs, rest);
    RenderStart(r.tree);
    var v := Render(r.tree) + more;
    assert v[0] == Render(r.tree)[0];
    var u := Quotes(r.key) + (r.colonBefore + (":" + (r.colonAfter + v)));
    assert RenderRows(rs) + rest == r.before + u;
    assert u[0] == '"';
    hide Render, RenderRows, Quotes, Proper, Spells, SpelledBy, RowLine, ValueOf, RowValues;
    WsSkip(r.before, u);
    KeyRead(r.key, r.colonBefore, r.colonAfter, v);
    StopAfter(r.after, tail);
    TreeRead(r.tree, more);
    WsSkip(r.after, tail);
    assert tail[1..] == if |rs| == 1 then rest else RenderRows(rs[1..]) + rest;
    RowValuesCons(rs);
    if |rs| > 1 {
      RowsRead(rs[1..], rest);
      NextRow(u, v, r, tail, RowValues(rs[1..]), rest);
    } else {
      LastRow(u, v, r, tail);
    }
  }

  lemma LastRow(u: string, v: string, r: Row, tail: string)
    requires ScanKey(u) == Ok(SpelledBy(r.key), v)
    requires ScanValue(v).Ok? && ScanValue(v).value == ValueOf(r.tree) && Ws(ScanValue(v).rest) == tail
    requires tail != "" && tail[0] == '}'
    ensures ScanMembers(u) == Ok([Member(SpelledBy(r.key), ValueOf(r.tree))], tail[1..])
  {
    MembersUnfold(u);
    hide *;
  }

  lemma NextRow(u: string, v: string, r: Row, tail: string, ms: seq<Member>, rest: string)
    requires ScanKey(u) == Ok(SpelledBy(r.key), v)
    requires ScanValue(v).Ok? && ScanValue(v).value == ValueOf(r.tree) && Ws(ScanValue(v).rest) == tail
    requires tail != "" && tail[0] == ',' && ScanMembers(Ws(tail[1..])) == Ok(ms, rest)
    ensures ScanMembers(u) == Ok([Member(SpelledBy(r.key), ValueOf(r.tree))] + ms, rest)
  {
    MembersUnfold(u);
    hide *;
  }

  lemma RowValuesCons(rs: seq<Row>)
    requires rs != []
    ensures RowValues(rs) == [Member(SpelledBy(rs[0].key), ValueOf(rs[0].tree))] + RowValues(rs[1..])
    ensures |rs| == 1 ==> RowValues(rs) == [Member(SpelledBy(rs[0].key), ValueOf(rs[0].tree))]
  {
    hide SpelledBy, ValueOf;
    if |rs| == 1 { assert rs[1..] == [] && RowValues([]) == []; }
  }

  lemma MembersUnfold(u: string)
    requires ScanKey(u).Ok? && ScanValue(ScanKey(u).rest).Ok?
    ensures var v := ScanValue(ScanKey(u).rest);
            var m, tail := Member(ScanKey(u).value, v.value), Ws(v.rest);
            && (tail != "" && tail[0] == '}' ==> ScanMembers(u) == Ok([m], tail[1..]))
            && (tail != "" && tail[0] == ',' && ScanMembers(Ws(tail[1..])).Ok? ==>
                  var ms := ScanMembers(Ws(tail[1..]));
                  ScanMembers(u) == Ok([m] + ms.value, ms.rest))
  {
    hide ScanValue, Ws, ScanKey;
  }

  // ------------------------------------------- everything read is in the grammar

  lemma StringOf(t: string) returns (us: seq<Unit>)
    requires ScanString(t).Ok?
    ensures Spells(us, ScanString(t).value) && t == Quotes(us) + ScanString(t).rest
    ensures SpelledBy(us) == ScanString(t).value
  {
    us := BodyOf(t[1..]);
    var rest := ScanString(t).rest;
    assert t == "\"" + t[1..] && "\"" + (UnitsText(us) + "\"" + rest) == Quotes(us) + rest;
    hide UnitsText, ScanBody, Fuse;
    SpelledIs(us, ScanString(t).value);
  }

  lemma {:induction false} WsOf(t: string) returns (w: string)
    ensures AllWs(w) && t == w + Ws(t)
  {
    if t != "" && IsWs(t[0]) {
      w := WsOf(t[1..]);
      WsIs(t[0]);
      assert t == [t[0]] + t[1..];
      w := [t[0]] + w;
    } else {
      w := "";
    }
  }

  lemma {:induction false} TreeOf(t: string) returns (tree: Tree)
    requires ScanValue(t).Ok?
    ensures Proper(tree) && t == Render(tree) + ScanValue(t).rest && ValueOf(tree) == ScanValue(t).value
    decreases |t|, 0
  {
    if t[0] == '"' {
      var us := StringOf(t);
      tree := Literal(us);
    } else if t[0] == '[' {
      tree := ListOf(t);
    } else if t[0] == '{' {
      tree := TableOf(t);
    } else if t[0] in {'n', 't', 'f'} {
      tree := WordOf(t);
    } else {
      var sign, whole, frac, exp := NumberOf(t);
      tree := Number(sign, whole, frac, exp, ScanNumber(t).value);
    }
  }

  lemma WordOf(t: string) returns (tree: Tree)
    requires t != "" && t[0] in {'n', 't', 'f'} && ScanValue(t).Ok?
    ensures Proper(tree) && t == Render(tree) + ScanValue(t).rest && ValueOf(tree) == ScanValue(t).value
  {
    tree := Word(ScanValue(t).value);
    var w := if t[0] == 'n' then "null" else if t[0] == 't' then "true" else "false";
    assert t == t[..|w|] + t[|w|..];
  }

  lemma ListOf(t: string) returns (tree: Tree)
    requires t != "" && t[0] == '[' && ScanValue(t).Ok?
    ensures Proper(tree) && t == Render(tree) + ScanValue(t).rest && ValueOf(tree) == ScanValue(t).value
    decreases |t|, 0, 0
  {
    var x := t[1..];
    var u, rest := Ws(x), ScanValue(t).rest;
    assert t == "[" + x;
    if u != "" && u[0] == ']' {
      var w := WsOf(x);
      tree := List(w, []);
      assert u == "]" + rest && EntryValues([]) == [];
      Regroup2(w, "]", rest);
      Regroup2("[", w + "]", rest);
    } else {
      var es := EntriesOf(x);
      tree := List("", es);
      Regroup2("[", RenderEntries(es), rest);
    }
  }

  lemma TableOf(t: string) returns (tree: Tree)
    requires t != "" && t[0] == '{' && ScanValue(t).Ok?
    ensures Proper(tree) && t == Render(tree) + ScanValue(t).rest && ValueOf(tree) == ScanValue(t).value
    decreases |t|, 0, 0
  {
    var x := t[1..];
    var u, rest := Ws(x), ScanValue(t).rest;
    assert t == "{" + x;
    if u != "" && u[0] == '}' {
      var w := WsOf(x);
      tree := Table(w, []);
      assert u == "}" + rest && RowValues([]) == [];
      Regroup2(w, "}", rest);
      Regroup2("{", w + "}", rest);
    } else {
      var rs := RowsOf(x);
      tree := Table("", rs);
      Regroup2("{", RenderRows(rs), rest);
    }
  }

  lemma {:induction false} EntriesOf(x: string) returns (es: seq<Entry>)
    requires ScanElems(Ws(x)).Ok?
    ensures es != [] && (forall i :: 0 <= i < |es| ==> ProperEntry(es[i]))
    ensures x == RenderEntries(es) + ScanElems(Ws(x)).rest && EntryValues(es) == ScanElems(Ws(x)).value
    decreases |x|, 1
  {
    var w := WsOf(x);
    var t := Ws(x);
    var v := ScanValue(t);
    var tree := TreeOf(t);
    var after := WsOf(v.rest);
    var tail := Ws(v.rest);
    var e := Entry(w, tree, after);
    var rest := ScanElems(t).rest;
    assert x == w + (Render(tree) + (after + tail));
    assert tail == [tail[0]] + tail[1..];
    if tail[0] == ']' {
      es := [e];
      OneEntry(e);
      Regroup4(w, Render(tree), after, "]", rest);
    } else {
      var more := EntriesOf(tail[1..]);
      es := [e] + more;
      MoreEntries(e, more);
      Regroup2(",", RenderEntries(more), rest);
      Regroup4(w, Render(tree), after, "," + RenderEntries(more), rest);
    }
  }

  lemma OneEntry(e: Entry)
    ensures RenderEntries([e]) == e.before + (Render(e.tree) + (e.after + "]"))
    ensures EntryValues([e]) == [ValueOf(e.tree)]
  {
    hide Render, ValueOf;
    assert [e][1..] == [] && EntryValues([]) == [];
  }

  lemma MoreEntries(e: Entry, more: seq<Entry>)
    requires more != []
    ensures RenderEntries([e] + more) == e.before + (Render(e.tree) + (e.after + ("," + RenderEntries(more))))
    ensures EntryValues([e] + more) == [ValueOf(e.tree)] + EntryValues(more)
  {
    hide Render, ValueOf;
    assert ([e] + more)[1..] == more;
  }

  lemma {:induction false} RowsOf(x: string) returns (rs: seq<Row>)
    requires ScanMembers(Ws(x)).Ok?
    ensures rs != [] && (forall i :: 0 <= i < |rs| ==> ProperRow(rs[i]))
    ensures x == RenderRows(rs) + ScanMembers(Ws(x)).rest && RowValues(rs) == ScanMembers(Ws(x)).value
    decreases |x|, 1
  {
    var t := Ws(x);
    MembersParts(t);
    hide ScanMembers, ScanValue, ScanKey, Ws, Proper, Spells, SpelledBy, Render, ValueOf, Quotes, RenderRows, RowValues;
    var w := WsOf(x);
    var us, a, b := KeyOf(t);
    var u := ScanKey(t).rest;
    var v := ScanValue(u);
    var tree := TreeOf(u);
    var after := WsOf(v.rest);
    var tail := Ws(v.rest);
    var r := Row(w, us, a, b, tree, after);
    var rest := ScanMembers(t).rest;
    assert ProperRow(r);
    assert x == RowLine(r, Render(tree), tail);
    hide *;
    assert tail == [tail[0]] + tail[1..];
    if tail[0] == '}' {
      rs := [r];
      OneRow(r);
      RowText(r, Render(tree), "}", rest);
    } else {
      var more := RowsOf(tail[1..]);
      rs := [r] + more;
      MoreRows(r, more);
      Regroup2(",", RenderRows(more), rest);
      RowText(r, Render(tree), "," + RenderRows(more), rest);
    }
  }

  lemma MembersParts(t: string)
    requires ScanMembers(t).Ok?
    ensures ScanKey(t).Ok? && ScanValue(ScanKey(t).rest).Ok?
    ensures var v := ScanValue(ScanKey(t).rest);
            var m, tail, r := Member(ScanKey(t).value, v.value), Ws(v.rest), ScanMembers(t);
            && |ScanKey(t).rest| < |t| && |v.rest| < |t| && |tail| < |t| && tail != ""
            && if tail[0] == '}' then r.value == [m] && r.rest == tail[1..]
               else var ms := ScanMembers(Ws(tail[1..]));
                    tail[0] == ',' && ms.Ok? && r.value == [m] + ms.value && r.rest == ms.rest
  {
    hide ScanKey, ScanValue, Ws;
  }

  lemma KeyOf(t: string) returns (us: seq<Unit>, a: string, b: string)
    requires ScanKey(t).Ok?
    ensures Spells(us, ScanKey(t).value) && SpelledBy(us) == ScanKey(t).value && AllWs(a) && AllWs(b)
    ensures t == Quotes(us) + (a + (":" + (b + ScanKey(t).rest)))
  {
    KeyParts(t);
    hide *;
    var k := ScanString(t);
    var u := Ws(k.rest);
    us := StringOf(t);
    a := WsOf(k.rest);
    b := WsOf(u[1..]);
    ColonFirst(u);
  }

  lemma KeyParts(t: string)
    requires ScanKey(t).Ok?
    ensures ScanString(t).Ok?
    ensures var u := Ws(ScanString(t).rest);
            u != "" && u[0] == ':' && ScanKey(t) == Ok(ScanString(t).value, Ws(u[1..]))
  {
    hide ScanString, Ws;
  }

  lemma ColonFirst(u: string)
    requires u != "" && u[0] == ':'
    ensures u == ":" + u[1..]
  {
  }

  /** What follows a row belongs to its end. */
  lemma RowText(r: Row, value: string, end: string, rest: string)
    ensures RowLine(r, value, end) + rest == RowLine(r, value, end + rest)
  {
    hide Quotes;
    var x := r.colonAfter + (value + (r.after + end));
    Regroup4(r.before, Quotes(r.key), r.colonBefore, ":" + x, rest);
    Regroup2(":", x, rest);
    Regroup4(r.colonAfter, value, r.after, end, rest);
  }

  lemma OneRow(r: Row)
    ensures RenderRows([r]) == RowLine(r, Render(r.tree), "}")
    ensures RowValues([r]) == [Member(SpelledBy(r.key), ValueOf(r.tree))]
  {
    hide Render, ValueOf, RowLine, SpelledBy;
    assert [r][1..] == [] && RowValues([]) == [];
  }

  lemma MoreRows(r: Row, more: seq<Row>)
    requires more != []
    ensures RenderRows([r] + more) == RowLine(r, Render(r.tree), "," + RenderRows(more))
    ensures RowValues([r] + more) == [Member(SpelledBy(r.key), ValueOf(r.tree))] + RowValues(more)
  {
    hide Render, ValueOf, RowLine, SpelledBy;
    assert ([r] + more)[1..] == more;
  }

  // ------------------------------------------------------------- main result

  /** The text is white space, a value of the grammar that denotes d, and white
      space. */
  ghost predicate Denotes(t: string, before: string, tree: Tree, after: string, d: Doc) {
    AllWs(before) && Proper(tree) && AllWs(after) && t == before + (Render(tree) + after) && ValueOf(tree) == d
  }

  /** The reader accepts exactly the texts of the grammar, with their values. */
  lemma ParseExactly(t: string, d: Doc)
    ensures Parse(t) == Some(d) <==> exists before, tree, after :: Denotes(t, before, tree, after, d)
  {
    hide Proper, Render, ValueOf, ScanValue, Ws;
    if Parse(t) == Some(d) {
      var before := WsOf(t);
      var tree := TreeOf(Ws(t));
      var rest := ScanValue(Ws(t)).rest;
      var after := WsOf(rest);
      assert after + "" == after;
      assert Denotes(t, before, tree, after, d);
    }
    forall before, tree, after | Denotes(t, before, tree, after, d) ensures Parse(t) == Some(d) {
      RenderStart(tree);
      WsSkip(before, Render(tree) + after);
      WsStops(after);
      TreeRead(tree, after);
      WsSkip(after, "");
      assert after + "" == after;
    }
  }

  lemma WsStops(w: string)
    requires AllWs(w)
    ensures Stop(w)
  {
    if w != "" { WsIs(w[0]); }
  }
}
