/** The two assumptions about the TOML parser can be met: a parser that reads
    exactly the files consisting of one bare `concurrent=<digits>`. */
module RunnerAssumptions {
  import opened Text
  import opened Patterns
  import opened RunnerConfig

  const KEY := "concurrent="

  lemma KeyShape()
    ensures |KEY| == 11 && '\n' !in KEY
  {
  }

  /** A parser of files that are one bare assignment: it meets both assumptions. */
  function BareLoader(c: string): Option<Root> {
    if StartsWith(c, KEY) && IsPositive(c[11..]) then Some(map["concurrent" := Integer(NatValue(c[11..]))])
    else None
  }

  lemma {:induction false} FirstLine(c: string, k: nat, n: nat)
    requires k < |Lines(c)| && Offset(Lines(c), k) < n <= |c| && forall i :: 0 <= i < n ==> c[i] != '\n'
    ensures k == 0
  {
    hide Split;
    if '\n' !in c {
      SplitNone(c, '\n');
    } else {
      var head, rest := CutLine(c);
      assert c[|head|] == '\n';
    }
  }

  lemma BareKey(l: string)
    requires KeyEnd(l).Some?
    ensures KeyEnd(l).value >= 11
    ensures StartsWith(l, KEY) && |l| > 11 && !IsBlank(l[11]) ==> KeyEnd(l).value == 11
  {
    if StartsWith(l, KEY) && |l| > 11 && !IsBlank(l[11]) {
      BareKeyEnd(l);
    }
  }

  lemma BareKeyEnd(l: string)
    requires StartsWith(l, KEY) && |l| > 11 && !IsBlank(l[11])
    ensures KeyEnd(l) == Some(11)
  {
    assert forall i :: 0 <= i < 11 ==> l[i] == l[..11][i] == KEY[i];
    SkipBlankStops(l, 0, 0);
    assert l[0..] == l && l[..10] == KEY[..10] == "concurrent";
    SkipBlankStops(l, 10, 10);
    SkipBlankStops(l, 11, 11);
  }

  lemma AssignStart(l: string)
    requires AssignLine(l).Some?
    ensures var s := AssignLine(l).value.start; KeyEnd(l) == Some(s) && 11 <= s < |l|
  {
    BareKey(l);
  }

  /** Digits that start before the first line feed are on the first line. */
  lemma MatchOnFirstLine(c: string, n: nat)
    requires SoleMatch(c).Some? && SoleSpan(c).start < n <= |c| && forall i :: 0 <= i < n ==> c[i] != '\n'
    ensures var l := Lines(c)[0];
            && |l| <= |c| && l == c[..|l|] && AssignLine(l).Some?
            && SoleSpan(c).start == AssignLine(l).value.start
  {
    hide SoleMatch, SoleSpan, Lines, AssignLine, FirstHeader, Matches;
    var k := SoleMatch(c).value;
    SoleMatchIs(c, k);
    LineInText(c, k);
    FirstLine(c, k, n);
  }

  /** If the text up to some point of the digits is a bare key and digits, the
      digits start right behind the key. */
  lemma BareStart(c: string, n: nat)
    requires SoleMatch(c).Some? && SoleSpan(c).start < n <= |c|
    requires StartsWith(c[..n], KEY) && n > 11 && AllDigits(c[11..n])
    ensures SoleSpan(c).start == 11
  {
    KeyShape();
    hide KEY;
    hide SoleMatch, SoleSpan, Lines, AssignLine, KeyEnd;
    var t := c[..n];
    assert t == KEY + c[11..n];
    assert forall i :: 0 <= i < n ==> c[i] == t[i] && t[i] != '\n';
    MatchOnFirstLine(c, n);
    var l := Lines(c)[0];
    AssignStart(l);
    assert l[..11] == t[..11];
    assert l[11] == c[11] == c[11..n][0];
    BareKey(l);
  }

  lemma BareText(x: string)
    ensures BareLoader(x).Some? ==>
              && StartsWith(x, KEY) && IsPositive(x[11..]) && |x| > 11
              && BareLoader(x).value == map["concurrent" := Integer(NatValue(x[11..]))]
    ensures forall d :: IsPositive(d) ==> BareLoader(KEY + d) == Some(map["concurrent" := Integer(NatValue(d))])
  {
    hide NatValue;
    forall d | IsPositive(d)
      ensures BareLoader(KEY + d) == Some(map["concurrent" := Integer(NatValue(d))])
    {
      var c := KEY + d;
      assert c[..11] == KEY && c[11..] == d;
    }
  }

  lemma BareMeetsAssumptions()
    ensures PrefixValue(BareLoader) && NumeralNeutral(BareLoader)
  {
    KeyShape();
    hide KEY;
    hide SoleMatch, SoleSpan, NatValue, SoleDigits, BareLoader;
    forall c | SoleMatch(c).Some? && BareLoader(c[..SoleSpan(c).end]).Some?
      ensures BareLoader(c[..SoleSpan(c).end]).value == map["concurrent" := Integer(NatValue(SoleDigits(c)))]
    {
      var x := c[..SoleSpan(c).end];
      BareText(x);
      assert x[11..] == c[11..SoleSpan(c).end];
      BareStart(c, SoleSpan(c).end);
    }
    forall c, d | SoleMatch(c).Some? && IsPositive(d)
      ensures BareLoader(c[..SoleSpan(c).start] + d).Some? <==> BareLoader(c[..SoleSpan(c).end]).Some?
    {
      BareNeutral(c, d);
    }
  }

  /** The key of the sole assignment is bare and at the start of the file. */
  predicate BareAt(c: string)
    requires SoleMatch(c).Some?
  {
    SoleSpan(c).start == 11 && c[..11] == KEY
  }

  lemma BareBefore(c: string)
    requires SoleMatch(c).Some? && BareLoader(c[..SoleSpan(c).end]).Some?
    ensures BareAt(c)
  {
    KeyShape();
    hide KEY;
    hide SoleMatch, SoleSpan, NatValue, BareLoader;
    var e := SoleSpan(c).end;
    var x := c[..e];
    BareText(x);
    assert x[11..] == c[11..e] && c[..11] == x[..11];
    BareStart(c, e);
  }

  lemma DigitsBefore(a: string, d: string)
    ensures AllDigits(a + d) <==> AllDigits(a) && AllDigits(d)
  {
    if AllDigits(a + d) {
      assert forall i :: 0 <= i < |a| ==> a[i] == (a + d)[i];
      assert forall i :: 0 <= i < |d| ==> d[i] == (a + d)[|a| + i];
    }
  }

  lemma BareInstead(c: string, d: string)
    requires SoleMatch(c).Some? && IsPositive(d) && BareLoader(c[..SoleSpan(c).start] + d).Some?
    ensures BareAt(c)
  {
    KeyShape();
    hide KEY;
    SpanStart(c);
    hide SoleMatch, SoleSpan, NatValue, BareLoader, SoleDigits;
    var s, e := SoleSpan(c).start, SoleSpan(c).end;
    var y, digits := c[..s] + d, SoleDigits(c);
    BareText(y);
    assert c[..11] == y[..11] && y[11..] == c[11..s] + d;
    DigitsBefore(c[11..s], d);
    DigitsBefore(c[11..s], digits);
    assert c[11..e] == c[11..s] + digits;
    assert c[..e][..11] == c[..11];
    BareStart(c, e);
  }

  lemma BareNeutral(c: string, d: string)
    requires SoleMatch(c).Some? && IsPositive(d)
    ensures BareLoader(c[..SoleSpan(c).start] + d).Some? <==> BareLoader(c[..SoleSpan(c).end]).Some?
  {
    KeyShape();
    hide KEY;
    hide SoleMatch, SoleSpan, NatValue, BareLoader, SoleDigits, IsPositive;
    var s, e := SoleSpan(c).start, SoleSpan(c).end;
    var digits := SoleDigits(c);
    assert c[..e] == c[..s] + digits;
    BareText("");
    if BareLoader(c[..e]).Some? { BareBefore(c); }
    if BareLoader(c[..s] + d).Some? { BareInstead(c, d); }
  }

  lemma SpanStart(c: string)
    requires SoleMatch(c).Some?
    ensures SoleSpan(c).start >= 11
  {
    hide SoleMatch, AssignLine, Lines;
    AssignStart(Lines(c)[SoleMatch(c).value]);
  }

  lemma OneEntry(x: int, y: int)
    ensures var m: Root := map["concurrent" := Integer(x)];
            m["concurrent" := Integer(y)] == map["concurrent" := Integer(y)]
  {
  }

  lemma BareEdited(d: string, desired: nat)
    requires IsPositive(d)
    ensures SoleMatch(KEY + d).Some? && Edited(KEY + d, desired) == KEY + NatText(desired)
  {
    KeyShape();
    BareMatch(d);
    hide KEY, SoleMatch, SoleSpan, NatText, IsPositive;
    var c := KEY + d;
    assert c[..11] == KEY && c[|c|..] == "";
  }

  lemma BareEditable(d: string)
    requires IsPositive(d)
    ensures BareLoader(KEY + d) == Some(map["concurrent" := Integer(NatValue(d))]) && Editable(BareLoader, KEY + d)
  {
    KeyShape();
    BareMatch(d);
    BareText("");
    PositiveRoundTrip(d);
    hide KEY, SoleMatch, SoleSpan, NatText, NatValue, IsPositive, BareLoader;
    var c := KEY + d;
    assert c[..|c|] == c;
  }

  /** Both assumptions can be met together with an accepted edit. */
  lemma AssumptionsHaveAParser(d: string, desired: nat)
    requires IsPositive(d) && desired > 0
    ensures PrefixValue(BareLoader) && NumeralNeutral(BareLoader)
    ensures Candidate(BareLoader, KEY + d, desired) == Some(Edit(NatValue(d), KEY + NatText(desired)))
  {
    hide KEY, PrefixValue, NumeralNeutral, SoleMatch, Edited, Editable, BareLoader, NatText, NatValue;
    BareMeetsAssumptions();
    BareEdited(d, desired);
    BareEditable(d);
    PositiveText(desired);
    BareEditable(NatText(desired));
    NatTextRoundTrip(desired);
    OneEntry(NatValue(d), desired);
  }

  lemma BareMatch(d: string)
    requires IsPositive(d)
    ensures var c := KEY + d; SoleMatch(c) == Some(0) && SoleSpan(c) == Span(11, |c|)
  {
    var c := KEY + d;
    assert '\n' !in c;
    SplitNone(c, '\n');
    BareLine(d);
    AssignIsNoHeader(c);
    hide AssignLine, HeaderLine;
    assert Lines(c) == [c];
    SoleMatchUnique(c, 0);
  }

  lemma BareLine(d: string)
    requires IsPositive(d)
    ensures AssignLine(KEY + d) == Some(Span(11, 11 + |d|))
  {
    var c := KEY + d;
    assert c[..11] == KEY && c[11..] == d && c[11 + |d|..] == "";
    BareKeyEnd(c);
    AllDigitsLen(d);
    hide KeyEnd;
  }
}
