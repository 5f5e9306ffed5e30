/** The string literals of the canonical encoder and of the reader.

    A Python string is a sequence of code points that may contain surrogates.
    The encoder (ensure_ascii) writes a code point above U+FFFF as two escapes;
    the reader joins a high escape followed by a low one.  Both directions are
    modelled on code points, so that the exact condition for a faithful round
    trip can be stated. */
module JsonString {
  import opened Text

  type CodePoint = c: int | 0 <= c <= 0x10FFFF

  datatype Parsed<+T> = Fail | Ok(value: T, rest: string)

  predicate High(c: CodePoint) { 0xD800 <= c <= 0xDBFF }
  predicate Low(c: CodePoint) { 0xDC00 <= c <= 0xDFFF }
  predicate Surrogate(c: CodePoint) { 0xD800 <= c <= 0xDFFF }

  function Join(h: CodePoint, l: CodePoint): CodePoint
    requires High(h) && Low(l)
  {
    0x10000 + (h - 0xD800) * 0x400 + (l - 0xDC00)
  }

  function HexChar(d: nat): char
    requires d < 16
  {
    if d < 10 then ('0' as int + d) as char else ('a' as int + (d - 10)) as char
  }

  function HexValue(c: char): Option<nat> {
    if '0' <= c <= '9' then Some(c as int - '0' as int)
    else if 'a' <= c <= 'f' then Some(c as int - 'a' as int + 10)
    else if 'A' <= c <= 'F' then Some(c as int - 'A' as int + 10)
    else None
  }

  function Hex4(n: nat): (r: string)
    requires n < 0x10000
    ensures |r| == 4
  {
    var q := n / 16;
    var p := q / 16;
    [HexChar(p / 16), HexChar(p % 16), HexChar(q % 16), HexChar(n % 16)]
  }

  function Unhex4(t: string): (r: Option<nat>)
    ensures r.Some? ==> |t| >= 4 && r.value < 0x10000
  {
    if |t| < 4 then None else
      match (HexValue(t[0]), HexValue(t[1]), HexValue(t[2]), HexValue(t[3]))
      case (Some(a), Some(b), Some(c), Some(d)) =>
        assert a < 16 && b < 16 && c < 16 && d < 16;
        Some(((a * 16 + b) * 16 + c) * 16 + d)
      case _ => None
  }

  function Unicode(n: nat): (r: string)
    requires n < 0x10000
    ensures |r| == 6
  {
    "\\u" + Hex4(n)
  }

  /** The letter of a two-character escape, for the code points that have one. */
  function ShortOf(c: CodePoint): (r: Option<char>)
    ensures r.Some? ==> r.value != 'u'
  {
    if c == '"' as int then Some('"')
    else if c == '\\' as int then Some('\\')
    else if c == 8 then Some('b')
    else if c == 12 then Some('f')
    else if c == 10 then Some('n')
    else if c == 13 then Some('r')
    else if c == 9 then Some('t')
    else None
  }

  function HighOf(c: CodePoint): (h: CodePoint)
    requires c >= 0x10000
    ensures High(h)
  {
    0xD800 + (c - 0x10000) / 0x400
  }

  function LowOf(c: CodePoint): (l: CodePoint)
    requires c >= 0x10000
    ensures Low(l)
  {
    0xDC00 + (c - 0x10000) % 0x400
  }

  /** The escape of one code point, as json.dumps(ensure_ascii=True) writes it. */
  function Escape1(c: CodePoint): (r: string)
    ensures r != "" && r[0] != '"'
  {
    if ShortOf(c).Some? then ['\\', ShortOf(c).value]
    else if 32 <= c <= 126 then [c as char]
    else if c < 0x10000 then Unicode(c)
    else Unicode(HighOf(c)) + Unicode(LowOf(c))
  }

  function Escape(s: seq<CodePoint>): string {
    if s == [] then "" else Escape1(s[0]) + Escape(s[1..])
  }

  function ShortEscape(c: char): Option<CodePoint> {
    match c
    case '"' => Some('"' as int)
    case '\\' => Some('\\' as int)
    case '/' => Some('/' as int)
    case 'b' => Some(8)
    case 'f' => Some(12)
    case 'n' => Some(10)
    case 'r' => Some(13)
    case 't' => Some(9)
    case _ => None
  }

  predicate StartsUnicode(t: string) {
    |t| >= 6 && t[0] == '\\' && t[1] == 'u' && Unhex4(t[2..]).Some?
  }

  /** One character of a literal body: a raw character or one escape, with the
      surrogate pair lookahead of the reader. */
  function Scan1(t: string): (r: Parsed<CodePoint>)
    requires t != "" && t[0] != '"'
    ensures r.Ok? ==> |r.rest| < |t|
  {
    if t[0] != '\\' then
      if t[0] as int < 32 then Fail else Ok(t[0] as int, t[1..])
    else if |t| < 2 then Fail
    else if t[1] != 'u' then
      var e := ShortEscape(t[1]);
      if e.None? then Fail else Ok(e.value, t[2..])
    else
      var h := Unhex4(t[2..]);
      if h.None? then Fail
      else if High(h.value) && StartsUnicode(t[6..]) && Low(Unhex4(t[8..]).value) then
        Ok(Join(h.value, Unhex4(t[8..]).value), t[12..])
      else Ok(h.value, t[6..])
  }

  /** The literal body up to and including its closing quote. */
  function ScanBody(t: string): (r: Parsed<seq<CodePoint>>)
    ensures r.Ok? ==> |r.rest| < |t|
  {
    if t == "" then Fail
    else if t[0] == '"' then Ok([], t[1..])
    else
      var c := Scan1(t);
      if c.Fail? then Fail else
        var cs := ScanBody(c.rest);
        if cs.Fail? then Fail else Ok([c.value] + cs.value, cs.rest)
  }

  /** What a string becomes after one trip: an adjacent high/low surrogate pair
      is fused into the code point it denotes. */
  function Fuse(s: seq<CodePoint>): seq<CodePoint> {
    if s == [] then []
    else if |s| >= 2 && High(s[0]) && Low(s[1]) then [Join(s[0], s[1])] + Fuse(s[2..])
    else [s[0]] + Fuse(s[1..])
  }

  predicate HasPair(s: seq<CodePoint>) {
    exists i :: 0 <= i < |s| - 1 && High(s[i]) && Low(s[i + 1])
  }

  lemma HexCharValue(d: nat)
    requires d < 16
    ensures HexValue(HexChar(d)) == Some(d)
  {
  }

  lemma Unhex4Hex4(n: nat, rest: string)
    requires n < 0x10000
    ensures Unhex4(Hex4(n) + rest) == Some(n)
  {
    var q := n / 16;
    var p := q / 16;
    HexCharValue(p / 16);
    HexCharValue(p % 16);
    HexCharValue(q % 16);
    HexCharValue(n % 16);
    var t := Hex4(n) + rest;
    assert t[0] == HexChar(p / 16) && t[1] == HexChar(p % 16) && t[2] == HexChar(q % 16) && t[3] == HexChar(n % 16);
  }

  lemma UnicodeStarts(n: nat, rest: string)
    requires n < 0x10000
    ensures StartsUnicode(Unicode(n) + rest)
    ensures Unhex4((Unicode(n) + rest)[2..]) == Some(n)
    ensures (Unicode(n) + rest)[6..] == rest
  {
    Unhex4Hex4(n, rest);
    assert (Unicode(n) + rest)[2..] == Hex4(n) + rest;
  }

  /** A pair of escapes for a high and a low surrogate is read as one character. */
  lemma ScanPair(h: CodePoint, l: CodePoint, rest: string)
    requires High(h) && Low(l)
    ensures var t := Unicode(h) + (Unicode(l) + rest);
            t[0] != '"' && Scan1(t) == Ok(Join(h, l), rest)
  {
    var u := Unicode(l) + rest;
    var t := Unicode(h) + u;
    UnicodeStarts(h, u);
    UnicodeStarts(l, rest);
    assert t[8..] == u[2..];
    assert t[12..] == u[6..];
  }

  lemma SplitJoin(h: CodePoint, l: CodePoint)
    requires High(h) && Low(l)
    ensures HighOf(Join(h, l)) == h && LowOf(Join(h, l)) == l
  {
  }

  lemma JoinSplit(c: CodePoint)
    requires c >= 0x10000
    ensures Join(HighOf(c), LowOf(c)) == c
  {
  }

  lemma ShortOfInverse(c: CodePoint)
    requires ShortOf(c).Some?
    ensures ShortEscape(ShortOf(c).value) == Some(c)
  {
  }

  /** Only the escape of a low surrogate starts with a low surrogate escape. */
  lemma EscapeStartsLow(c: CodePoint, rest: string)
    ensures var t := Escape1(c) + rest;
            StartsUnicode(t) && Low(Unhex4(t[2..]).value) ==> Low(c)
  {
    var t := Escape1(c) + rest;
    if ShortOf(c).Some? {
      assert t[1] == ShortOf(c).value;
    } else if 32 <= c <= 126 {
      assert t[0] == c as char;
    } else if c < 0x10000 {
      UnicodeStarts(c, rest);
    } else {
      assert t == Unicode(HighOf(c)) + (Unicode(LowOf(c)) + rest);
      UnicodeStarts(HighOf(c), Unicode(LowOf(c)) + rest);
    }
  }

  /** One escape is read back as its code point, unless a high surrogate is
      followed by the escape of a low one. */
  lemma ScanEscape1(c: CodePoint, rest: string)
    requires High(c) ==> !(StartsUnicode(rest) && Low(Unhex4(rest[2..]).value))
    ensures Scan1(Escape1(c) + rest) == Ok(c, rest)
  {
    var t := Escape1(c) + rest;
    if ShortOf(c).Some? {
      ShortOfInverse(c);
      assert t[0] == '\\' && t[1] == ShortOf(c).value && t[2..] == rest;
    } else if 32 <= c <= 126 {
      assert t[0] == c as char && t[1..] == rest;
    } else if c < 0x10000 {
      UnicodeStarts(c, rest);
      assert |rest| >= 2 ==> t[8..] == rest[2..];
    } else {
      assert t == Unicode(HighOf(c)) + (Unicode(LowOf(c)) + rest);
      JoinSplit(c);
      ScanPair(HighOf(c), LowOf(c), rest);
    }
  }

  lemma EscapeSurrogate(c: CodePoint)
    requires High(c) || Low(c)
    ensures Escape1(c) == Unicode(c)
  {
  }

  lemma EscapePair(s: seq<CodePoint>)
    requires |s| >= 2 && High(s[0]) && Low(s[1])
    ensures Escape(s) == Unicode(s[0]) + (Unicode(s[1]) + Escape(s[2..]))
  {
    hide Escape1, Unicode;
    EscapeSurrogate(s[0]);
    EscapeSurrogate(s[1]);
    assert s[1..][1..] == s[2..];
    assert Escape(s[1..]) == Unicode(s[1]) + Escape(s[2..]);
  }

  lemma EscapeCons(c: CodePoint, s: seq<CodePoint>)
    ensures Escape([c] + s) == Escape1(c) + Escape(s)
  {
    assert ([c] + s)[1..] == s;
  }

  /** The text of a literal body with its closing quote. */
  function Literal(s: seq<CodePoint>, rest: string): string {
    Escape(s) + "\"" + rest
  }

  lemma LiteralCons(c: CodePoint, s: seq<CodePoint>, rest: string)
    ensures Literal([c] + s, rest) == Escape1(c) + Literal(s, rest)
  {
    EscapeCons(c, s);
  }

  lemma LiteralNotLow(s: seq<CodePoint>, rest: string)
    requires s == [] || !Low(s[0])
    ensures var u := Literal(s, rest);
            !(StartsUnicode(u) && Low(Unhex4(u[2..]).value))
  {
    if s == [] {
      assert Literal(s, rest)[0] == '"';
    } else {
      assert s == [s[0]] + s[1..];
      LiteralCons(s[0], s[1..], rest);
      EscapeStartsLow(s[0], Literal(s[1..], rest));
    }
  }

  lemma ScanBodyStep(t: string, c: CodePoint, u: string, cs: seq<CodePoint>, rest: string)
    requires t != "" && t[0] != '"' && Scan1(t) == Ok(c, u) && ScanBody(u) == Ok(cs, rest)
    ensures ScanBody(t) == Ok([c] + cs, rest)
  {
  }

  lemma LiteralPair(s: seq<CodePoint>, rest: string)
    requires |s| >= 2 && High(s[0]) && Low(s[1])
    ensures Literal(s, rest) == Unicode(s[0]) + (Unicode(s[1]) + Literal(s[2..], rest))
  {
    EscapePair(s);
  }

  /** The reader inverts the encoder up to fusing surrogate pairs, for every
      string of code points and whatever follows the literal. */
  lemma {:induction false} ScanBodyEscape(s: seq<CodePoint>, rest: string)
    ensures ScanBody(Escape(s) + "\"" + rest) == Ok(Fuse(s), rest)
  {
    var t := Literal(s, rest);
    assert t == Escape(s) + "\"" + rest;
    if s == [] {
      assert t[0] == '"' && t[1..] == rest;
    } else if |s| >= 2 && High(s[0]) && Low(s[1]) {
      LiteralPair(s, rest);
      ScanPair(s[0], s[1], Literal(s[2..], rest));
      ScanBodyEscape(s[2..], rest);
      ScanBodyStep(t, Join(s[0], s[1]), Literal(s[2..], rest), Fuse(s[2..]), rest);
    } else {
      ScanBodySingle(s, rest);
      ScanBodyEscape(s[1..], rest);
      ScanBodyStep(t, s[0], Literal(s[1..], rest), Fuse(s[1..]), rest);
    }
  }

  lemma ScanBodySingle(s: seq<CodePoint>, rest: string)
    requires s != [] && !(|s| >= 2 && High(s[0]) && Low(s[1]))
    ensures var t := Literal(s, rest);
            t != "" && t[0] != '"' && Scan1(t) == Ok(s[0], Literal(s[1..], rest))
  {
    assert s == [s[0]] + s[1..];
    LiteralCons(s[0], s[1..], rest);
    if High(s[0]) {
      LiteralNotLow(s[1..], rest);
    }
    ScanEscape1(s[0], Literal(s[1..], rest));
  }

  lemma {:induction false} EscapeFuse(s: seq<CodePoint>)
    ensures Escape(Fuse(s)) == Escape(s)
  {
    if s == [] {
    } else if |s| >= 2 && High(s[0]) && Low(s[1]) {
      EscapeFuse(s[2..]);
      EscapeCons(Join(s[0], s[1]), Fuse(s[2..]));
      EscapeJoin(s[0], s[1]);
      EscapePair(s);
    } else {
      EscapeFuse(s[1..]);
      EscapeCons(s[0], Fuse(s[1..]));
    }
  }

  lemma EscapeJoin(h: CodePoint, l: CodePoint)
    requires High(h) && Low(l)
    ensures Escape1(Join(h, l)) == Unicode(h) + Unicode(l)
  {
    SplitJoin(h, l);
  }

  /** The encoder identifies exactly the strings that fuse to the same text. */
  lemma EscapeEqualIffFuseEqual(a: seq<CodePoint>, b: seq<CodePoint>)
    ensures Escape(a) == Escape(b) <==> Fuse(a) == Fuse(b)
  {
    ScanBodyEscape(a, "");
    ScanBodyEscape(b, "");
    EscapeFuse(a);
    EscapeFuse(b);
  }

  lemma {:induction false} FuseLength(s: seq<CodePoint>)
    ensures |Fuse(s)| <= |s|
  {
    if s == [] {
    } else if |s| >= 2 && High(s[0]) && Low(s[1]) {
      FuseLength(s[2..]);
    } else {
      FuseLength(s[1..]);
    }
  }

  /** A string survives the round trip if and only if no high surrogate is
      immediately followed by a low one. */
  lemma {:induction false} FuseIdentityIffNoPair(s: seq<CodePoint>)
    ensures Fuse(s) == s <==> !HasPair(s)
  {
    if s == [] {
    } else if |s| >= 2 && High(s[0]) && Low(s[1]) {
      FuseLength(s[2..]);
      assert |Fuse(s)| < |s|;
    } else {
      FuseIdentityIffNoPair(s[1..]);
      assert Fuse(s)[1..] == Fuse(s[1..]);
      if HasPair(s) {
        var i :| 0 <= i < |s| - 1 && High(s[i]) && Low(s[i + 1]);
        assert i > 0;
        assert s[1..][i - 1] == s[i] && s[1..][i] == s[i + 1];
      }
      if HasPair(s[1..]) {
        var i :| 0 <= i < |s[1..]| - 1 && High(s[1..][i]) && Low(s[1..][i + 1]);
        assert s[i + 1] == s[1..][i] && s[i + 2] == s[1..][i + 1];
      }
      assert Fuse(s) == s <==> Fuse(s[1..]) == s[1..];
    }
  }

  lemma {:induction false} FuseIsPairFree(s: seq<CodePoint>)
    ensures !HasPair(Fuse(s))
  {
    if s != [] {
      var paired := |s| >= 2 && High(s[0]) && Low(s[1]);
      var rest := if paired then s[2..] else s[1..];
      FuseIsPairFree(rest);
      var f, g := Fuse(s), Fuse(rest);
      assert f == [f[0]] + g;
      assert g != [] ==> g[0] == rest[0] || g[0] >= 0x10000;
      forall i | 0 <= i < |f| - 1 ensures !(High(f[i]) && Low(f[i + 1])) {
        if i > 0 { assert f[i] == g[i - 1] && f[i + 1] == g[i]; }
      }
    }
  }

  /** Every encoding has exactly one pair-free preimage: the fused string is one,
      and among pair-free strings encoding is injective. */
  lemma PairFreeInjective(a: seq<CodePoint>, b: seq<CodePoint>)
    ensures !HasPair(Fuse(a)) && Escape(Fuse(a)) == Escape(a)
    ensures !HasPair(a) && !HasPair(b) ==> (Escape(a) == Escape(b) <==> a == b)
  {
    FuseIsPairFree(a);
    FuseIdentityIffNoPair(Fuse(a));
    EscapeEqualIffFuseEqual(Fuse(a), a);
    FuseIdentityIffNoPair(a);
    FuseIdentityIffNoPair(b);
    EscapeEqualIffFuseEqual(a, b);
  }

  /** Above U+FFFF, where the encoder writes two escapes. */
  predicate Supplementary(s: seq<CodePoint>) {
    exists i :: 0 <= i < |s| && s[i] >= 0x10000
  }

  lemma {:induction false} PairGivesSupplementary(s: seq<CodePoint>)
    requires HasPair(s)
    ensures Supplementary(Fuse(s))
  {
    if |s| >= 2 && High(s[0]) && Low(s[1]) {
      assert Fuse(s)[0] >= 0x10000;
    } else {
      var i :| 0 <= i < |s| - 1 && High(s[i]) && Low(s[i + 1]);
      assert s[1..][i - 1] == s[i] && s[1..][i] == s[i + 1];
      PairGivesSupplementary(s[1..]);
      var f := Fuse(s[1..]);
      var j :| 0 <= j < |f| && f[j] >= 0x10000;
      assert Fuse(s)[j + 1] == f[j];
    }
  }

  /** Spelling one supplementary code point as its pair fuses to the same text. */
  lemma {:induction false} SpelledOut(p: seq<CodePoint>, h: CodePoint, l: CodePoint, q: seq<CodePoint>)
    requires High(h) && Low(l)
    ensures Fuse(p + [h, l] + q) == Fuse(p + [Join(h, l)] + q)
  {
    var a, b := p + [h, l] + q, p + [Join(h, l)] + q;
    if p == [] {
      assert a[2..] == q && b[1..] == q;
    } else if |p| >= 2 && High(p[0]) && Low(p[1]) {
      assert a[2..] == p[2..] + [h, l] + q && b[2..] == p[2..] + [Join(h, l)] + q;
      SpelledOut(p[2..], h, l, q);
    } else {
      assert a[1..] == p[1..] + [h, l] + q && b[1..] == p[1..] + [Join(h, l)] + q;
      SpelledOut(p[1..], h, l, q);
    }
  }

  /** A supplementary code point has another spelling. */
  lemma OtherSpelling(s: seq<CodePoint>) returns (t: seq<CodePoint>)
    requires Supplementary(s)
    ensures t != s && Escape(t) == Escape(s)
  {
    hide Escape, Fuse;
    var i :| 0 <= i < |s| && s[i] >= 0x10000;
    var c := s[i];
    var p, q := s[..i], s[i + 1..];
    var h, l := HighOf(c), LowOf(c);
    JoinSplit(c);
    t := p + [h, l] + q;
    assert s == p + [c] + q;
    SpelledOut(p, h, l, q);
    EscapeEqualIffFuseEqual(t, s);
    assert |t| == |s| + 1;
  }

  /** The exact condition for an encoding with no other preimage: the string
      holds neither a surrogate pair nor a code point above U+FFFF. */
  lemma EncodingUnique(s: seq<CodePoint>)
    ensures (forall t :: Escape(t) == Escape(s) ==> t == s) <==> !HasPair(s) && !Supplementary(s)
  {
    hide Escape, Fuse, HasPair, Supplementary;
    FuseIdentityIffNoPair(s);
    if HasPair(s) {
      PairFreeInjective(s, s);
      assert Escape(Fuse(s)) == Escape(s) && Fuse(s) != s;
    } else if Supplementary(s) {
      var t := OtherSpelling(s);
    } else {
      forall t | Escape(t) == Escape(s) ensures t == s {
        EscapeEqualIffFuseEqual(t, s);
        if HasPair(t) { PairGivesSupplementary(t); }
        FuseIdentityIffNoPair(t);
      }
    }
  }

  /** Two different Python strings with the same encoding: the emoji U+1F600
      and the surrogate pair that spells it. */
  lemma SurrogatePairCollides()
    ensures var pair: seq<CodePoint> := [0xD83D, 0xDE00];
            var emoji: seq<CodePoint> := [0x1F600];
            pair != emoji && Escape(pair) == Escape(emoji)
  {
    hide Escape;
    var pair: seq<CodePoint> := [0xD83D, 0xDE00];
    var emoji: seq<CodePoint> := [0x1F600];
    assert pair[2..] == [] && emoji[1..] == [];
    assert Fuse(pair) == [Join(0xD83D, 0xDE00)] + Fuse(pair[2..]);
    assert Fuse(emoji) == [0x1F600] + Fuse(emoji[1..]);
    EscapeEqualIffFuseEqual(pair, emoji);
  }

  /** Code points of a string of Unicode scalar values; these hold no surrogate. */
  function CodePoints(s: string): (r: seq<CodePoint>)
    ensures |r| == |s|
    ensures forall i :: 0 <= i < |s| ==> r[i] == s[i] as int
  {
    if s == "" then [] else [s[0] as int] + CodePoints(s[1..])
  }

  /** The scalar-value string with these code points, if there is one. */
  function FromCodePoints(cs: seq<CodePoint>): (r: Option<string>)
    ensures r.Some? ==> CodePoints(r.value) == cs
  {
    if cs == [] then Some("")
    else if Surrogate(cs[0]) then None
    else
      var rest := FromCodePoints(cs[1..]);
      if rest.None? then None else Some([cs[0] as char] + rest.value)
  }

  lemma {:induction false} FromCodePointsInverse(s: string)
    ensures FromCodePoints(CodePoints(s)) == Some(s)
  {
    if s != "" {
      FromCodePointsInverse(s[1..]);
      var cs := CodePoints(s);
      assert cs[1..] == CodePoints(s[1..]);
      assert !Surrogate(cs[0]) && cs[0] as char == s[0];
      assert s == [s[0]] + s[1..];
    }
  }

  lemma Unhex4Extends(t: string, e: string)
    requires |t| >= 4
    ensures Unhex4(t + e) == Unhex4(t)
  {
  }

  lemma StartsUnicodeExtends(t: string, e: string)
    requires |t| >= 6
    ensures StartsUnicode(t + e) == StartsUnicode(t)
    ensures Unhex4((t + e)[2..]) == Unhex4(t[2..])
  {
    assert (t + e)[2..] == t[2..] + e;
    Unhex4Extends(t[2..], e);
  }

  /** Fewer than six characters that close a literal do not start a \u escape. */
  lemma ShortTailStops(r: string, e: string)
    requires |r| < 6 && ScanBody(r).Ok?
    ensures !StartsUnicode(r) && !StartsUnicode(r + e)
  {
    if r[0] == '\\' {
      assert Scan1(r).Ok?;
      assert r[1] != 'u';
    }
  }

  /** The pair lookahead sees the same text because the literal is not over. */
  lemma Scan1Extends(t: string, e: string)
    requires t != "" && t[0] != '"'
    requires Scan1(t).Ok? && ScanBody(Scan1(t).rest).Ok?
    ensures Scan1(t + e) == Ok(Scan1(t).value, Scan1(t).rest + e)
  {
    var u := t + e;
    if t[0] != '\\' {
      assert u[1..] == t[1..] + e;
    } else if t[1] != 'u' {
      assert u[2..] == t[2..] + e;
    } else {
      UnicodeEscapeExtends(t, e);
    }
  }

  lemma UnicodeEscapeExtends(t: string, e: string)
    requires |t| >= 2 && t[0] == '\\' && t[1] == 'u'
    requires Scan1(t).Ok? && ScanBody(Scan1(t).rest).Ok?
    ensures Scan1(t + e) == Ok(Scan1(t).value, Scan1(t).rest + e)
  {
    var u := t + e;
    assert u[2..] == t[2..] + e;
    Unhex4Extends(t[2..], e);
    var r := t[6..];
    assert u[6..] == r + e;
    if |t| >= 12 {
      StartsUnicodeExtends(r, e);
      assert t[8..] == r[2..] && u[8..] == (r + e)[2..];
      assert u[12..] == t[12..] + e;
    } else {
      ShortTailStops(r, e);
    }
  }

  /** A scan that succeeded is not affected by what is appended to the input. */
  lemma {:induction false} ScanBodyExtends(t: string, e: string)
    requires ScanBody(t).Ok?
    ensures ScanBody(t + e) == Ok(ScanBody(t).value, ScanBody(t).rest + e)
  {
    if t[0] == '"' {
      assert (t + e)[1..] == t[1..] + e;
    } else {
      Scan1Extends(t, e);
      ScanBodyExtends(Scan1(t).rest, e);
    }
  }
}
