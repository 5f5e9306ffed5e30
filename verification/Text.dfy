/** Text helpers shared by every component: decimal integers, the code-point
    order Python uses to compare strings, and sorting a set of strings. */
module Text {

  datatype Option<+T> = None | Some(value: T)

  predicate IsDigit(c: char) {
    '0' <= c <= '9'
  }

  predicate AllDigits(s: string) {
    forall i :: 0 <= i < |s| ==> IsDigit(s[i])
  }

  function DigitChar(d: nat): char
    requires d < 10
  {
    "0123456789"[d]
  }

  function DigitValue(c: char): (d: nat)
    requires IsDigit(c)
    ensures d < 10
  {
    c as int - '0' as int
  }

  /** Decimal text of a natural number, as Python's str() writes it. */
  function NatText(n: nat): string {
    if n < 10 then [DigitChar(n)] else NatText(n / 10) + [DigitChar(n % 10)]
  }

  function NatValue(s: string): nat
    requires AllDigits(s)
  {
    if s == "" then 0 else NatValue(s[..|s| - 1]) * 10 + DigitValue(s[|s| - 1])
  }

  /** No superfluous leading zero: the spelling `0|[1-9][0-9]*`. */
  predicate IsNumeral(s: string) {
    s != "" && AllDigits(s) && (s[0] == '0' ==> |s| == 1)
  }

  lemma {:induction false} NatTextIsNumeral(n: nat)
    ensures IsNumeral(NatText(n))
    ensures NatText(n)[0] == '0' ==> n == 0
  {
    if n >= 10 {
      NatTextIsNumeral(n / 10);
    }
  }

  lemma {:induction false} NatTextRoundTrip(n: nat)
    ensures AllDigits(NatText(n)) && NatValue(NatText(n)) == n
  {
    NatTextIsNumeral(n);
    if n >= 10 {
      NatTextRoundTrip(n / 10);
      assert NatText(n)[..|NatText(n)| - 1] == NatText(n / 10);
    }
  }

  lemma {:induction false} NumeralPositive(s: string)
    requires IsNumeral(s) && s[0] != '0'
    ensures NatValue(s) > 0
  {
    if |s| > 1 {
      NumeralPositive(s[..|s| - 1]);
    } else {
      assert s[..|s| - 1] == "";
    }
  }

  lemma NatTextAppend(q: nat, d: nat)
    requires q > 0 && d < 10
    ensures NatText(q * 10 + d) == NatText(q) + [DigitChar(d)]
  {
    assert (q * 10 + d) / 10 == q && (q * 10 + d) % 10 == d;
  }

  lemma DigitCharValue(c: char)
    requires IsDigit(c)
    ensures DigitChar(DigitValue(c)) == c
  {
  }

  /** A numeral is the only spelling of its value. */
  lemma {:induction false} NumeralRoundTrip(s: string)
    requires IsNumeral(s)
    ensures NatText(NatValue(s)) == s
  {
    hide NatText, DigitChar, DigitValue;
    var m := |s| - 1;
    assert s == s[..m] + [s[m]];
    DigitCharValue(s[m]);
    if m == 0 {
      assert s[..m] == "";
      NatTextDigit(DigitValue(s[0]));
    } else {
      NumeralRoundTrip(s[..m]);
      NumeralPositive(s[..m]);
      NatTextAppend(NatValue(s[..m]), DigitValue(s[m]));
    }
  }

  lemma NatTextDigit(d: nat)
    requires d < 10
    ensures NatText(d) == [DigitChar(d)]
  {
  }

  /** Lexicographic order by code point. */
  predicate Less(a: string, b: string) {
    b != "" && (a == "" || a[0] < b[0] || (a[0] == b[0] && Less(a[1..], b[1..])))
  }

  lemma {:induction false} LessTotal(a: string, b: string)
    ensures Less(a, b) || a == b || Less(b, a)
  {
    if a != "" && b != "" {
      LessTotal(a[1..], b[1..]);
      assert a == [a[0]] + a[1..] && b == [b[0]] + b[1..];
    }
  }

  lemma {:induction false} LessTransitive(a: string, b: string, c: string)
    requires Less(a, b) && Less(b, c)
    ensures Less(a, c)
  {
    if a != "" && a[0] == b[0] == c[0] {
      LessTransitive(a[1..], b[1..], c[1..]);
    }
  }

  lemma {:induction false} LessIrreflexive(a: string)
    ensures !Less(a, a)
  {
    if a != "" {
      LessIrreflexive(a[1..]);
    }
  }

  /** The order, by indices: the strings agree up to position k, where a ends or
      has the smaller code point. */
  predicate Differ(a: string, b: string, k: nat) {
    && k <= |a| && k < |b| && (forall i :: 0 <= i < k ==> a[i] == b[i])
    && (k == |a| || (a[k] as int) < (b[k] as int))
  }

  ghost predicate Before(a: string, b: string) {
    exists k: nat :: k < |b| && Differ(a, b, k)
  }

  /** Less is that order: a is a proper prefix of b, or at the first index where
      they differ it has the smaller code point. */
  lemma {:induction false} LessExactly(a: string, b: string)
    ensures Less(a, b) <==> Before(a, b)
  {
    if a != "" && b != "" && a[0] == b[0] {
      LessExactly(a[1..], b[1..]);
      if Before(a[1..], b[1..]) {
        var k: nat :| k < |b[1..]| && Differ(a[1..], b[1..], k);
        assert forall i :: 1 <= i < k + 1 ==> a[i] == a[1..][i - 1] && b[i] == b[1..][i - 1];
        assert Differ(a, b, k + 1);
      }
      if Before(a, b) {
        var k: nat :| k < |b| && Differ(a, b, k);
        assert Differ(a[1..], b[1..], k - 1);
      }
    } else if b != "" && (a == "" || a[0] != b[0]) {
      if Less(a, b) { assert Differ(a, b, 0); }
    }
  }

  /** sorted(): the elements of the set, each once, in that order. */
  lemma SortedExactly(s: set<string>)
    ensures Elements(Sorted(s)) == s
    ensures forall i, j :: 0 <= i < j < |Sorted(s)| ==> Before(Sorted(s)[i], Sorted(s)[j])
  {
    var r := Sorted(s);
    hide Less, Before, Sorted;
    forall i, j | 0 <= i < j < |r| ensures Before(r[i], r[j]) {
      LessExactly(r[i], r[j]);
    }
  }

  type Order = (string, string) -> bool

  ghost predicate StrictTotal(less: Order) {
    && (forall a :: !less(a, a))
    && (forall a, b :: less(a, b) || a == b || less(b, a))
    && (forall a, b, c :: less(a, b) && less(b, c) ==> less(a, c))
  }

  lemma LessStrictTotal()
    ensures StrictTotal(Less)
  {
    forall a ensures !Less(a, a) { LessIrreflexive(a); }
    forall a, b ensures Less(a, b) || a == b || Less(b, a) { LessTotal(a, b); }
    forall a, b, c | Less(a, b) && Less(b, c) ensures Less(a, c) { LessTransitive(a, b, c); }
  }

  ghost predicate Ascending(s: seq<string>, less: Order) {
    forall i, j :: 0 <= i < j < |s| ==> less(s[i], s[j])
  }

  function Elements<T>(s: seq<T>): set<T> {
    set x | x in s
  }

  predicate IsLeast(m: string, s: set<string>, less: Order) {
    m in s && forall x :: x in s ==> x == m || less(m, x)
  }

  lemma {:induction false} LeastExists(s: set<string>, less: Order) returns (m: string)
    requires StrictTotal(less) && s != {}
    ensures IsLeast(m, s, less)
  {
    var y :| y in s;
    if s == {y} {
      m := y;
    } else {
      var rest := s - {y};
      m := LeastExists(rest, less);
      assert forall x :: x in s ==> x == y || x in rest;
      if less(y, m) {
        assert forall x :: x in rest ==> x == m || less(m, x);
        m := y;
      }
    }
  }

  lemma LeastUnique(a: string, b: string, s: set<string>, less: Order)
    requires StrictTotal(less) && IsLeast(a, s, less) && IsLeast(b, s, less)
    ensures a == b
  {
  }

  function Least(s: set<string>, less: Order): (m: string)
    requires StrictTotal(less) && s != {}
    ensures IsLeast(m, s, less)
  {
    assert exists m :: IsLeast(m, s, less) by { var m := LeastExists(s, less); }
    assert forall a, b :: IsLeast(a, s, less) && IsLeast(b, s, less) ==> a == b by {
      forall a, b | IsLeast(a, s, less) && IsLeast(b, s, less) ensures a == b {
        LeastUnique(a, b, s, less);
      }
    }
    var m :| m in s && IsLeast(m, s, less);
    m
  }

  /** Python's sorted() on distinct strings under the given order. */
  function SortedBy(s: set<string>, less: Order): (r: seq<string>)
    requires StrictTotal(less)
    ensures Elements(r) == s
    ensures Ascending(r, less)
  {
    if s == {} then [] else
      var m := Least(s, less);
      var rest := SortedBy(s - {m}, less);
      assert forall x :: x in rest <==> x in Elements(rest);
      var r := [m] + rest;
      assert forall x :: x in r <==> x == m || x in rest;
      r
  }

  function Sorted(s: set<string>): (r: seq<string>)
    ensures Elements(r) == s
    ensures Ascending(r, Less)
  {
    LessStrictTotal();
    SortedBy(s, Less)
  }

  /** An ascending enumeration of a set is unique, so sorting does not depend
      on the order in which the elements were supplied. */
  lemma {:induction false} AscendingUnique(a: seq<string>, b: seq<string>, less: Order)
    requires StrictTotal(less) && Ascending(a, less) && Ascending(b, less)
    requires Elements(a) == Elements(b)
    ensures a == b
  {
    assert forall x :: x in Elements(a) <==> x in Elements(b);
    assert a == [] || a[0] in Elements(a);
    assert b == [] || b[0] in Elements(b);
    if a != [] && b != [] {
      assert a[0] in b && b[0] in a;
      assert a[0] == b[0];
      forall x ensures x in Elements(a[1..]) <==> x in Elements(b[1..]) {
        assert x in Elements(a[1..]) <==> x in Elements(a) && x != a[0];
        assert x in Elements(b[1..]) <==> x in Elements(b) && x != b[0];
      }
      AscendingUnique(a[1..], b[1..], less);
      assert a == [a[0]] + a[1..] && b == [b[0]] + b[1..];
    }
  }

  /** A list in that order is what sorted() makes of its elements. */
  lemma BeforeIsSorted(r: seq<string>)
    ensures r == Sorted(Elements(r)) <==> forall i, j :: 0 <= i < j < |r| ==> Before(r[i], r[j])
  {
    hide Less, Before, Sorted;
    SortedExactly(Elements(r));
    if forall i, j :: 0 <= i < j < |r| ==> Before(r[i], r[j]) {
      forall i, j | 0 <= i < j < |r| ensures Less(r[i], r[j]) { LessExactly(r[i], r[j]); }
      LessStrictTotal();
      AscendingUnique(r, Sorted(Elements(r)), Less);
    }
  }
}
