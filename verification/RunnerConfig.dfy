/** The one-integer edit of a Runner configuration: `candidate_config` in
    roles/gitlab_runner/library/gitlab_runner_concurrency.py.  A byte is a
    character of the same number.  The TOML parser (with the UTF-8 decoding in
    front of it) is a parameter. */
module RunnerConfig {
  import opened Text
  import opened Patterns
  import J = Json

  datatype TomlValue = Integer(n: int) | Other(repr: string)

  type Root = map<string, TomlValue>

  /** tomllib.loads(content.decode("utf-8")); None when it raises. */
  type Loader = string -> Option<Root>

  // ------------------------------------------------------------------ lines

  /** Lines without their line feeds.  Neither pattern can match a line feed,
      so (?m)^...$ matches within one of these. */
  function Lines(c: string): (r: seq<string>)
    ensures |r| >= 1
  {
    Split(c, '\n')
  }

  function Offset(lines: seq<string>, k: nat): nat
    requires k <= |lines|
  {
    if k == 0 then 0 else |lines[0]| + 1 + Offset(lines[1..], k - 1)
  }

  predicate IsBlank(c: char) { c == ' ' || c == '\t' }

  /** First index from i on that holds no space or tab. */
  function SkipBlank(l: string, i: nat): (r: nat)
    requires i <= |l|
    ensures i <= r <= |l|
    ensures r < |l| ==> !IsBlank(l[r])
    ensures forall k :: i <= k < r ==> IsBlank(l[k])
    decreases |l| - i
  {
    if i < |l| && IsBlank(l[i]) then SkipBlank(l, i + 1) else i
  }

  /** ^[ \t]*\[ */
  predicate HeaderLine(l: string) {
    var j := SkipBlank(l, 0);
    j < |l| && l[j] == '['
  }

  /** [ \t]*(?:#[^\r\n]*)?\r?$ */
  predicate TailOk(t: string) {
    var u := t[SkipBlank(t, 0)..];
    || u == "" || u == "\r"
    || (u[0] == '#' && forall i :: 0 <= i < |u| - 1 ==> u[i] != '\r')
  }

  /** Where the value of `[ \t]*concurrent[ \t]*=[ \t]*` starts, if the line starts so. */
  function KeyEnd(l: string): (r: Option<nat>)
    ensures r.Some? ==> r.value <= |l|
  {
    var a := SkipBlank(l, 0);
    if !StartsWith(l[a..], "concurrent") then None else
      var b := SkipBlank(l, a + 10);
      if b == |l| || l[b] != '=' then None else Some(SkipBlank(l, b + 1))
  }

  datatype Span = Span(start: nat, end: nat)

  /** The digits of a canonical assignment line. */
  function AssignLine(l: string): (r: Option<Span>)
    ensures r.Some? ==> r.value.start < r.value.end <= |l| && IsPositive(l[r.value.start..r.value.end])
  {
    var k := KeyEnd(l);
    if k.None? then None else
      var s := k.value;
      var n := J.DigitsLen(l[s..]);
      assert l[s..][..n] == l[s..s + n];
      if n == 0 || l[s] == '0' || !TailOk(l[s + n..]) then None else Some(Span(s, s + n))
  }

  /** Index of the first table header line, or the number of lines. */
  function FirstHeader(lines: seq<string>): (h: nat)
    ensures h <= |lines|
    ensures h < |lines| ==> HeaderLine(lines[h])
    ensures forall i :: 0 <= i < h ==> !HeaderLine(lines[i])
  {
    if lines == [] || HeaderLine(lines[0]) then 0 else 1 + FirstHeader(lines[1..])
  }

  /** The indices below n of the canonical assignment lines, in order. */
  function Matches(lines: seq<string>, n: nat): (r: seq<nat>)
    requires n <= |lines|
    ensures forall i :: 0 <= i < |r| ==> r[i] < n && AssignLine(lines[r[i]]).Some?
  {
    if n == 0 then [] else
      Matches(lines, n - 1) + (if AssignLine(lines[n - 1]).Some? then [n - 1] else [])
  }

  // ------------------------------------------------------------------- edit

  datatype Edit = Edit(current: int, bytes: string)

  function Splice(c: string, start: nat, end: nat, d: string): string
    requires start <= end <= |c|
  {
    c[..start] + d + c[end..]
  }

  /** The sole canonical assignment before the first table, by line and span. */
  function SoleMatch(c: string): (r: Option<nat>)
    ensures r.Some? ==> r.value < |Lines(c)| && AssignLine(Lines(c)[r.value]).Some?
  {
    var lines := Lines(c);
    var matches := Matches(lines, FirstHeader(lines));
    if |matches| != 1 then None else
      Some(matches[0])
  }

  /** Absolute offsets of the digits of the sole match. */
  function SoleSpan(c: string): (r: Span)
    requires SoleMatch(c).Some?
    ensures r.start < r.end <= |c|
  {
    var lines := Lines(c);
    var k := SoleMatch(c).value;
    var s := AssignLine(lines[k]).value;
    LineInText(c, k);
    Span(Offset(lines, k) + s.start, Offset(lines, k) + s.end)
  }

  /** Every check that does not depend on the desired value. */
  predicate Editable(loads: Loader, content: string) {
    && loads(content).Some? && "concurrent" in loads(content).value
    && var current := loads(content).value["concurrent"];
    && current.Integer? && current.n > 0
    && SoleMatch(content).Some?
    && var prefix := loads(content[..SoleSpan(content).end]);
    && prefix.Some? && "concurrent" in prefix.value && prefix.value["concurrent"] == current
  }

  function Edited(content: string, desired: nat): string
    requires SoleMatch(content).Some?
  {
    Splice(content, SoleSpan(content).start, SoleSpan(content).end, NatText(desired))
  }

  /** candidate_config; None stands for ValueError. */
  function Candidate(loads: Loader, content: string, desired: nat): Option<Edit> {
    if !Editable(loads, content) then None else
      var original := loads(content).value;
      var candidate := Edited(content, desired);
      if loads(candidate) != Some(original["concurrent" := Integer(desired)]) then None
      else Some(Edit(original["concurrent"].n, candidate))
  }

  // ------------------------------------------------------- lines and splices

  /** A text is one line, or a line, a line feed and the remaining lines. */
  lemma {:induction false} CutLine(c: string) returns (head: string, rest: string)
    requires '\n' in c
    ensures c == head + "\n" + rest && '\n' !in head && Lines(c) == [head] + Lines(rest)
  {
    if c[0] == '\n' {
      head, rest := "", c[1..];
    } else {
      head, rest := CutLine(c[1..]);
      head := [c[0]] + head;
      assert c == [c[0]] + c[1..];
    }
    SplitHead(head, rest, '\n');
  }

  lemma {:induction false} LineInText(c: string, k: nat)
    requires k < |Lines(c)|
    ensures Offset(Lines(c), k) + |Lines(c)[k]| <= |c|
    ensures c[Offset(Lines(c), k)..Offset(Lines(c), k) + |Lines(c)[k]|] == Lines(c)[k]
    decreases |c|
  {
    hide Split;
    if '\n' !in c {
      SplitNone(c, '\n');
    } else {
      var head, rest := CutLine(c);
      if k > 0 {
        LineInText(rest, k - 1);
        assert Lines(c)[1..] == Lines(rest);
        var a, n := Offset(Lines(rest), k - 1), |Lines(rest)[k - 1]|;
        assert c[|head| + 1 + a..|head| + 1 + a + n] == rest[a..a + n];
      }
    }
  }

  /** Replacing part of line k by text without line feeds changes line k only. */
  lemma {:induction false} SpliceLine(c: string, k: nat, s: nat, e: nat, d: string)
    requires k < |Lines(c)| && s <= e <= |Lines(c)[k]| && '\n' !in d
    requires Offset(Lines(c), k) + e <= |c|
    ensures var o := Offset(Lines(c), k);
            var l := Lines(c)[k];
            Lines(Splice(c, o + s, o + e, d)) == Lines(c)[k := l[..s] + d + l[e..]]
    decreases |c|
  {
    hide Split;
    if '\n' !in c {
      SplitNone(c, '\n');
      SplitNone(c[..s] + d + c[e..], '\n');
    } else {
      var head, rest := CutLine(c);
      if k == 0 {
        SpliceFirst(head, rest, s, e, d);
      } else {
        var o := Offset(Lines(rest), k - 1);
        assert Lines(c)[1..] == Lines(rest);
        SpliceLine(rest, k - 1, s, e, d);
        SpliceLater(head, rest, o + s, o + e, d);
      }
    }
  }

  lemma SpliceFirst(head: string, rest: string, s: nat, e: nat, d: string)
    requires '\n' !in head && '\n' !in d && s <= e <= |head|
    ensures Lines(Splice(head + "\n" + rest, s, e, d)) == [head[..s] + d + head[e..]] + Lines(rest)
  {
    hide Split;
    var l := head[..s] + d + head[e..];
    assert Splice(head + "\n" + rest, s, e, d) == l + "\n" + rest;
    SplitHead(l, rest, '\n');
  }

  lemma SpliceLater(head: string, rest: string, s: nat, e: nat, d: string)
    requires '\n' !in head && s <= e <= |rest|
    ensures var p := |head| + 1;
            Lines(Splice(head + "\n" + rest, p + s, p + e, d)) == [head] + Lines(Splice(rest, s, e, d))
  {
    hide Split;
    var p := |head| + 1;
    var c := head + "\n" + rest;
    var r := Splice(rest, s, e, d);
    assert c[..p + s] == head + "\n" + rest[..s] && c[p + e..] == rest[e..];
    assert Splice(c, p + s, p + e, d) == head + "\n" + r;
    SplitHead(head, r, '\n');
  }

  lemma {:induction false} OffsetPrefix(a: seq<string>, b: seq<string>, k: nat)
    requires k <= |a| && k <= |b| && a[..k] == b[..k]
    ensures Offset(a, k) == Offset(b, k)
  {
    if k > 0 {
      assert a[0] == a[..k][0] == b[..k][0] == b[0];
      assert a[1..][..k - 1] == a[..k][1..] && b[1..][..k - 1] == b[..k][1..];
      OffsetPrefix(a[1..], b[1..], k - 1);
    }
  }

  // -------------------------------------------------------- pattern on splices

  predicate Agree(l: string, m: string, n: nat) {
    n <= |l| && n <= |m| && forall k :: 0 <= k < n ==> l[k] == m[k]
  }

  lemma AgreeSlice(l: string, m: string, n: nat, a: nat, b: nat)
    requires Agree(l, m, n) && a <= b <= n
    ensures l[a..b] == m[a..b]
  {
  }

  /** A line that agrees up to the start of the value has its value there too. */
  lemma KeyEndSame(l: string, m: string)
    requires KeyEnd(l).Some? && KeyEnd(l).value < |m| && !IsBlank(m[KeyEnd(l).value])
    requires Agree(l, m, KeyEnd(l).value)
    ensures KeyEnd(m) == KeyEnd(l)
  {
    hide SkipBlank;
    var s := KeyEnd(l).value;
    var a := SkipBlank(l, 0);
    var b := SkipBlank(l, a + 10);
    AgreeSlice(l, m, s, a, a + 10);
    assert l[a..][..10] == l[a..a + 10] == "concurrent";
    SkipBlankStops(m, 0, a);
    assert m[a..][..10] == m[a..a + 10];
    SkipBlankStops(m, a + 10, b);
    SkipBlankStops(m, b + 1, s);
  }

  lemma {:induction false} SkipBlankStops(m: string, i: nat, s: nat)
    requires i <= s < |m| && !IsBlank(m[s]) && forall k :: i <= k < s ==> IsBlank(m[k])
    ensures SkipBlank(m, i) == s
    decreases s - i
  {
    if i < s { SkipBlankStops(m, i + 1, s); }
  }

  lemma {:induction false} AllDigitsLen(d: string)
    requires AllDigits(d)
    ensures J.DigitsLen(d) == |d|
  {
    if d != "" { AllDigitsLen(d[1..]); }
  }

  lemma DigitsThenTail(d: string, t: string)
    requires AllDigits(d) && (t == "" || !IsDigit(t[0]))
    ensures J.DigitsLen(d + t) == |d|
  {
    J.DigitsLenStop(d, t);
    AllDigitsLen(d);
  }

  lemma TailNoDigit(t: string)
    requires TailOk(t) && t != ""
    ensures !IsDigit(t[0])
  {
  }

  /** Replacing the digits by another positive numeral keeps the assignment. */
  lemma AssignSplice(l: string, d: string)
    requires AssignLine(l).Some? && IsPositive(d)
    ensures var s := AssignLine(l).value;
            AssignLine(l[..s.start] + d + l[s.end..]) == Some(Span(s.start, s.start + |d|))
  {
    hide TailOk, KeyEnd, J.DigitsLen;
    var s, e := AssignLine(l).value.start, AssignLine(l).value.end;
    assert KeyEnd(l) == Some(s) && TailOk(l[e..]);
    hide AssignLine;
    SpliceAssigns(l, s, d, l[e..]);
  }

  /** A key end, a positive numeral and a proper tail make an assignment. */
  lemma SpliceAssigns(l: string, s: nat, d: string, t: string)
    requires KeyEnd(l) == Some(s) && IsPositive(d) && TailOk(t)
    ensures AssignLine(l[..s] + d + t) == Some(Span(s, s + |d|))
  {
    hide TailOk, KeyEnd, J.DigitsLen;
    var m := l[..s] + d + t;
    assert m[s] == d[0];
    assert Agree(l, m, s);
    KeyEndSame(l, m);
    assert m[s..] == d + t && m[s + |d|..] == t;
    if t != "" { TailNoDigit(t); }
    DigitsThenTail(d, t);
  }

  lemma AssignIsNoHeader(l: string)
    requires AssignLine(l).Some?
    ensures !HeaderLine(l)
  {
    var a := SkipBlank(l, 0);
    assert l[a..][0] == 'c';
  }

  // ------------------------------------------------ the patterns, spelled out

  /** Spaces and tabs only. */
  predicate Blanks(s: string) {
    Over(s, {' ', '\t'})
  }

  /** Nothing, a comment, or either before a CR. */
  predicate LineEnd(t: string, comment: string) {
    && '\r' !in comment && (comment == "" || comment[0] == '#')
    && (t == comment || t == comment + "\r")
  }

  /** The line is blanks, the key, blanks, "=", blanks, a positive numeral,
      blanks, an optional comment and an optional CR. */
  ghost predicate Assignment(l: string, a: string, b: string, c: string, d: string, e: string, end: string) {
    && l == a + "concurrent" + b + "=" + c + d + e + end
    && Blanks(a) && Blanks(b) && Blanks(c) && Blanks(e) && PositiveNumber(d)
    && EndsLine(end)
  }

  lemma BlankOver(s: string, i: nat)
    requires Blanks(s) && i < |s|
    ensures IsBlank(s[i])
  {
  }

  lemma TailExactly(t: string)
    ensures TailOk(t) <==> exists e, end, comment :: Blanks(e) && t == e + end && LineEnd(end, comment)
  {
    if TailOk(t) {
      var n := SkipBlank(t, 0);
      var e, u := t[..n], t[n..];
      assert t == e + u && Blanks(e);
      if u == "" || u == "\r" {
        assert LineEnd(u, "");
      } else {
        TailComment(u);
      }
    }
    forall e, end, comment | Blanks(e) && t == e + end && LineEnd(end, comment) ensures TailOk(t) {
      SkipOver(e, end);
      assert t[|e|..] == end;
      if comment != "" { assert forall i :: 0 <= i < |end| - 1 ==> end[i] in comment; }
    }
  }

  lemma TailComment(u: string)
    requires u != "" && u[0] == '#' && forall i :: 0 <= i < |u| - 1 ==> u[i] != '\r'
    ensures exists comment :: LineEnd(u, comment)
  {
    var m := |u| - 1;
    if u[m] == '\r' {
      assert u == u[..m] + "\r";
      assert LineEnd(u, u[..m]);
    } else {
      assert LineEnd(u, u);
    }
  }

  /** Skipping exactly the blanks in front of something that is not blank. */
  lemma SkipOver(e: string, rest: string)
    requires Blanks(e) && (rest == "" || !IsBlank(rest[0]))
    ensures SkipBlank(e + rest, 0) == |e|
  {
    var t := e + rest;
    forall k | 0 <= k < |e| ensures IsBlank(t[k]) { BlankOver(e, k); }
    if rest == "" {
      SkipBlankAll(t, 0);
    } else {
      SkipBlankStops(t, 0, |e|);
    }
  }

  lemma {:induction false} SkipBlankAll(m: string, i: nat)
    requires i <= |m| && forall k :: i <= k < |m| ==> IsBlank(m[k])
    ensures SkipBlank(m, i) == |m|
    decreases |m| - i
  {
    if i < |m| { SkipBlankAll(m, i + 1); }
  }

  /** Where the pieces of a line are. */
  lemma Layout(a: string, key: string, b: string, eq: string, c: string, rest: string)
    requires |key| == 10 && |eq| == 1
    ensures var l := a + key + b + eq + c + rest;
            var p, q, s := |a|, |a| + 10 + |b|, |a| + 11 + |b| + |c|;
            && l[..p] == a && l[p..p + 10] == key && l[p + 10..q] == b && l[q] == eq[0]
            && l[q + 1..s] == c && l[s..] == rest
  {
    var x := a + key;
    var y := x + b;
    var z := y + eq;
    var w := z + c;
    var l := w + rest;
    assert l[..|w|] == w && w[..|z|] == z && z[..|y|] == y && y[..|x|] == x;
    assert l[..|a|] == x[..|a|] == a;
    assert l[|a|..|a| + 10] == x[|a|..] == key;
    assert l[|x|..|y|] == y[|x|..] == b;
    assert l[|z|..|w|] == w[|z|..] == c;
  }

  lemma Pieces(l: string, p: nat, q: nat, s: nat)
    requires p + 10 <= q < s <= |l|
    ensures l == l[..p] + l[p..p + 10] + l[p + 10..q] + l[q..q + 1] + l[q + 1..s] + l[s..]
  {
    assert l[..p] + l[p..p + 10] == l[..p + 10];
    assert l[..p + 10] + l[p + 10..q] == l[..q];
    assert l[..q] + l[q..q + 1] == l[..q + 1];
    assert l[..q + 1] + l[q + 1..s] == l[..s];
  }

  lemma BlankRange(l: string, i: nat, j: nat)
    requires i <= j <= |l| && Blanks(l[i..j])
    ensures forall k :: i <= k < j ==> IsBlank(l[k])
  {
    forall k | i <= k < j ensures IsBlank(l[k]) {
      assert l[k] == l[i..j][k - i];
      BlankOver(l[i..j], k - i);
    }
  }

  lemma KeyEndIs(a: string, b: string, c: string, rest: string)
    requires Blanks(a) && Blanks(b) && Blanks(c) && rest != "" && !IsBlank(rest[0])
    ensures KeyEnd(a + "concurrent" + b + "=" + c + rest) == Some(|a| + 11 + |b| + |c|)
  {
    var l := a + "concurrent" + b + "=" + c + rest;
    var p, q, s := |a|, |a| + 10 + |b|, |a| + 11 + |b| + |c|;
    Layout(a, "concurrent", b, "=", c, rest);
    hide Blanks;
    assert l[0..p] == a;
    BlankRange(l, 0, p);
    BlankRange(l, p + 10, q);
    BlankRange(l, q + 1, s);
    KeyEndAt(l, p, q, s);
  }

  lemma KeyEndAt(l: string, p: nat, q: nat, s: nat)
    requires p + 10 <= q < s < |l| && l[p..p + 10] == "concurrent" && l[q] == '=' && !IsBlank(l[s])
    requires forall k :: 0 <= k < p || p + 10 <= k < q || q + 1 <= k < s ==> IsBlank(l[k])
    ensures KeyEnd(l) == Some(s)
  {
    assert l[p] == l[p..p + 10][0] == 'c';
    SkipBlankStops(l, 0, p);
    SkipBlankStops(l, p + 10, q);
    SkipBlankStops(l, q + 1, s);
    assert l[p..][..10] == l[p..p + 10];
  }

  lemma KeyEndParts(l: string) returns (a: string, b: string, c: string)
    requires KeyEnd(l).Some?
    ensures Blanks(a) && Blanks(b) && Blanks(c) && KeyEnd(l).value == |a| + 11 + |b| + |c|
    ensures l == a + "concurrent" + b + "=" + c + l[KeyEnd(l).value..]
  {
    var p := SkipBlank(l, 0);
    var q := SkipBlank(l, p + 10);
    var s := KeyEnd(l).value;
    a, b, c := l[..p], l[p + 10..q], l[q + 1..s];
    assert Blanks(a) && Blanks(b) && Blanks(c);
    assert l[p..p + 10] == "concurrent" by { assert l[p..][..10] == l[p..p + 10]; }
    assert l[q..q + 1] == "=";
    hide Blanks, KeyEnd, SkipBlank;
    Pieces(l, p, q, s);
  }

  /** The pattern of the assignment as a grammar, and the span of its digits. */
  lemma AssignExactly(l: string, span: Span)
    ensures AssignLine(l) == Some(span) <==>
            exists a, b, c, d, e, end ::
              Assignment(l, a, b, c, d, e, end) && span == Span(|a| + 11 + |b| + |c|, |a| + 11 + |b| + |c| + |d|)
  {
    hide TailOk, KeyEnd, Blanks, PositiveNumber, LineEnd, J.DigitsLen;
    if AssignLine(l) == Some(span) {
      var a, b, c, d, e, end := AssignGives(l);
    }
    forall a, b, c, d, e, end |
      Assignment(l, a, b, c, d, e, end) && span == Span(|a| + 11 + |b| + |c|, |a| + 11 + |b| + |c| + |d|)
      ensures AssignLine(l) == Some(span)
    {
      GivesAssign(l, a, b, c, d, e, end);
    }
  }

  lemma AssignGives(l: string) returns (a: string, b: string, c: string, d: string, e: string, end: string)
    requires AssignLine(l).Some?
    ensures Assignment(l, a, b, c, d, e, end)
    ensures AssignLine(l).value == Span(|a| + 11 + |b| + |c|, |a| + 11 + |b| + |c| + |d|)
  {
    var Span(s, t) := AssignLine(l).value;
    assert KeyEnd(l) == Some(s) && TailOk(l[t..]) && s < t <= |l| && IsPositive(l[s..t]);
    hide *;
    a, b, c := KeyEndParts(l);
    d, e, end := DigitsAndTail(l, s, t);
    var front := a + "concurrent" + b + "=" + c;
    Regroup(front, d, e, end);
    assert l == front + d + e + end;
    AssignmentIs(l, a, b, c, d, e, end);
  }

  lemma DigitsAndTail(l: string, s: nat, t: nat) returns (d: string, e: string, end: string)
    requires s < t <= |l| && IsPositive(l[s..t]) && TailOk(l[t..])
    ensures |d| == t - s && PositiveNumber(d) && Blanks(e) && EndsLine(end) && l[s..] == d + (e + end)
  {
    d := l[s..t];
    PositiveExactly(d);
    e, end := TailParts(l[t..]);
    hide *;
    SliceSplit(l, s, t);
  }

  lemma SliceSplit(l: string, s: nat, t: nat)
    requires s <= t <= |l|
    ensures l[s..] == l[s..t] + l[t..]
  {
  }

  lemma TailParts(t: string) returns (e: string, end: string)
    requires TailOk(t)
    ensures Blanks(e) && EndsLine(end) && t == e + end
  {
    TailExactly(t);
    hide Blanks, LineEnd, TailOk;
    var comment;
    e, end, comment :| Blanks(e) && t == e + end && LineEnd(end, comment);
  }

  ghost predicate EndsLine(end: string) {
    exists comment :: LineEnd(end, comment)
  }

  lemma AssignmentIs(l: string, a: string, b: string, c: string, d: string, e: string, end: string)
    requires l == a + "concurrent" + b + "=" + c + d + e + end
    requires Blanks(a) && Blanks(b) && Blanks(c) && Blanks(e) && PositiveNumber(d) && EndsLine(end)
    ensures Assignment(l, a, b, c, d, e, end)
  {
    hide Blanks, PositiveNumber, LineEnd;
  }

  lemma Regroup(front: string, d: string, e: string, end: string)
    ensures front + (d + (e + end)) == front + d + e + end
  {
  }

  lemma GivesAssign(l: string, a: string, b: string, c: string, d: string, e: string, end: string)
    requires Assignment(l, a, b, c, d, e, end)
    ensures AssignLine(l) == Some(Span(|a| + 11 + |b| + |c|, |a| + 11 + |b| + |c| + |d|))
  {
    var front, t, s := a + "concurrent" + b + "=" + c, e + end, |a| + 11 + |b| + |c|;
    PositiveExactly(d);
    TailExactly(t);
    hide Blanks, PositiveNumber, LineEnd, TailOk, KeyEnd, AssignLine, J.DigitsLen;
    assert IsDigit(d[0]);
    Regroup(front, d, e, end);
    assert l == front + (d + t);
    KeyEndIs(a, b, c, d + t);
    assert l[..s] == front && front + (d + t) == front + d + t;
    SpliceAssigns(l, s, d, t);
  }

  /** The pattern of a table header: blanks, then "[". */
  lemma HeaderExactly(l: string)
    ensures HeaderLine(l) <==> exists a, rest :: Blanks(a) && l == a + "[" + rest
  {
    if HeaderLine(l) {
      var j := SkipBlank(l, 0);
      assert Blanks(l[..j]) && l == l[..j] + "[" + l[j + 1..];
    }
    forall a, rest | Blanks(a) && l == a + "[" + rest ensures HeaderLine(l) {
      assert l == a + ("[" + rest);
      SkipOver(a, "[" + rest);
    }
  }

  // -------------------------------------------------------------- structure

  lemma {:induction false} FirstHeaderSame(a: seq<string>, b: seq<string>)
    requires |a| == |b| && forall i :: 0 <= i < |a| ==> HeaderLine(a[i]) == HeaderLine(b[i])
    ensures FirstHeader(a) == FirstHeader(b)
  {
    if a != [] && !HeaderLine(a[0]) {
      assert forall i :: 0 <= i < |a[1..]| ==> a[1..][i] == a[i + 1] && b[1..][i] == b[i + 1];
      FirstHeaderSame(a[1..], b[1..]);
    }
  }

  lemma {:induction false} MatchesSame(a: seq<string>, b: seq<string>, n: nat)
    requires n <= |a| == |b| && forall i :: 0 <= i < |a| ==> AssignLine(a[i]).Some? == AssignLine(b[i]).Some?
    ensures Matches(a, n) == Matches(b, n)
  {
    hide AssignLine;
    if n > 0 { MatchesSame(a, b, n - 1); }
  }

  lemma PositiveText(desired: nat)
    requires desired > 0
    ensures IsPositive(NatText(desired)) && '\n' !in NatText(desired)
  {
    NatTextIsNumeral(desired);
    hide NatText;
    assert forall i :: 0 <= i < |NatText(desired)| ==> IsDigit(NatText(desired)[i]);
  }

  lemma {:induction false} MatchesComplete(lines: seq<string>, n: nat, k: nat)
    requires k < n <= |lines| && AssignLine(lines[k]).Some?
    ensures k in Matches(lines, n)
  {
    hide AssignLine, Matches;
    var before := Matches(lines, n - 1);
    MatchesStep(lines, n);
    if k < n - 1 {
      MatchesComplete(lines, n - 1, k);
    } else {
      assert (before + [k])[|before|] == k;
    }
  }

  lemma MatchesStep(lines: seq<string>, n: nat)
    requires 0 < n <= |lines|
    ensures Matches(lines, n) ==
            Matches(lines, n - 1) + (if AssignLine(lines[n - 1]).Some? then [n - 1] else [])
  {
    hide AssignLine;
  }

  lemma {:induction false} MatchesNone(lines: seq<string>, n: nat)
    requires n <= |lines| && forall i :: 0 <= i < n ==> AssignLine(lines[i]).None?
    ensures Matches(lines, n) == []
  {
    hide AssignLine;
    if n > 0 { MatchesNone(lines, n - 1); }
  }

  lemma {:induction false} MatchesOne(lines: seq<string>, n: nat, k: nat)
    requires k < n <= |lines| && AssignLine(lines[k]).Some?
    requires forall i :: 0 <= i < n && AssignLine(lines[i]).Some? ==> i == k
    ensures Matches(lines, n) == [k]
  {
    hide AssignLine;
    if k < n - 1 {
      MatchesOne(lines, n - 1, k);
    } else {
      MatchesNone(lines, n - 1);
    }
  }

  /** A sole match is the only canonical assignment line before the first
      table header, and every such line is found. */
  lemma SoleMatchUnique(c: string, k: nat)
    ensures SoleMatch(c) == Some(k) <==>
            && k < FirstHeader(Lines(c)) && AssignLine(Lines(c)[k]).Some?
            && forall i :: 0 <= i < FirstHeader(Lines(c)) && AssignLine(Lines(c)[i]).Some? ==> i == k
  {
    hide AssignLine, Split, HeaderLine;
    var lines := Lines(c);
    var n := FirstHeader(lines);
    var r := Matches(lines, n);
    if SoleMatch(c) == Some(k) {
      assert r == [k];
      forall i | 0 <= i < n && AssignLine(lines[i]).Some? ensures i == k {
        MatchesComplete(lines, n, i);
      }
    } else if k < n && AssignLine(lines[k]).Some? &&
              forall i :: 0 <= i < n && AssignLine(lines[i]).Some? ==> i == k {
      MatchesOne(lines, n, k);
    }
  }

  function MatchList(c: string): seq<nat> {
    Matches(Lines(c), FirstHeader(Lines(c)))
  }

  lemma SoleMatchIs(c: string, k: nat)
    requires k < |Lines(c)| && AssignLine(Lines(c)[k]).Some?
    ensures SoleMatch(c) == Some(k) <==> MatchList(c) == [k]
    ensures SoleMatch(c) == Some(k) ==>
              SoleSpan(c) == Span(Offset(Lines(c), k) + AssignLine(Lines(c)[k]).value.start,
                                  Offset(Lines(c), k) + AssignLine(Lines(c)[k]).value.end)
  {
    hide AssignLine, Split, FirstHeader, Matches, Offset;
    if SoleMatch(c) == Some(k) {
      assert MatchList(c) == [MatchList(c)[0]];
    }
  }

  /** What a splice of the sole match preserves: the line of the first table
      header, the line of the match, and the offset where its digits start. */
  lemma SpliceKeepsMatch(c: string, d: string)
    requires SoleMatch(c).Some? && IsPositive(d) && '\n' !in d
    ensures var c' := Splice(c, SoleSpan(c).start, SoleSpan(c).end, d);
            && |Lines(c')| == |Lines(c)| && FirstHeader(Lines(c')) == FirstHeader(Lines(c))
            && SoleMatch(c') == SoleMatch(c)
            && SoleSpan(c') == Span(SoleSpan(c).start, SoleSpan(c).start + |d|)
  {
    hide IsPositive, AssignLine, HeaderLine, Lines, SoleMatch, SoleSpan, FirstHeader, Matches, Offset;
    var lines := Lines(c);
    var k := SoleMatch(c).value;
    var l := lines[k];
    var s := AssignLine(l).value;
    var m := l[..s.start] + d + l[s.end..];
    SoleMatchIs(c, k);
    LineInText(c, k);
    var c' := Splice(c, SoleSpan(c).start, SoleSpan(c).end, d);
    SpliceLine(c, k, s.start, s.end, d);
    assert Lines(c') == lines[k := m];
    AssignSplice(l, d);
    AssignIsNoHeader(l);
    AssignIsNoHeader(m);
    FirstHeaderSame(lines, Lines(c'));
    MatchesSame(lines, Lines(c'), FirstHeader(lines));
    OffsetPrefix(lines, Lines(c'), k);
    SoleMatchIs(c', k);
  }

  // -------------------------------------------------------------- lens laws

  lemma SpliceTwice(c: string, start: nat, end: nat, d: string, d': string)
    requires start <= end <= |c|
    ensures Splice(Splice(c, start, end, d), start, start + |d|, d') == Splice(c, start, end, d')
  {
    var m := Splice(c, start, end, d);
    assert m[..start] == c[..start] && m[start + |d|..] == c[end..];
  }

  /** An accepted edit keeps every other value and sets this one (put-get). */
  lemma PutGet(loads: Loader, c: string, desired: nat)
    requires desired > 0 && Candidate(loads, c, desired).Some?
    ensures var c' := Candidate(loads, c, desired).value.bytes;
            && loads(c').Some? && loads(c').value["concurrent"] == Integer(desired)
            && loads(c').value == loads(c).value["concurrent" := Integer(desired)]
            && SoleMatch(c') == SoleMatch(c) && SoleSpan(c').start == SoleSpan(c).start
            && FirstHeader(Lines(c')) == FirstHeader(Lines(c)) && |Lines(c')| == |Lines(c)|
  {
    PositiveText(desired);
    hide IsPositive, NatText, SoleMatch, SoleSpan, FirstHeader, Splice;
    SpliceKeepsMatch(c, NatText(desired));
  }

  /** An accepted second edit gives the bytes of editing the original directly
      (put-put), for every parser. */
  lemma PutPut(loads: Loader, c: string, first: nat, second: nat)
    requires first > 0 && Candidate(loads, c, first).Some?
    requires Candidate(loads, Candidate(loads, c, first).value.bytes, second).Some?
    ensures var direct := Candidate(loads, c, second);
            && direct.Some?
            && direct.value.bytes == Candidate(loads, Candidate(loads, c, first).value.bytes, second).value.bytes
  {
    hide Editable, Edited, SoleMatch, SoleSpan, Splice, NatText;
    EditableParts(loads, c);
    EditedTwice(c, first, second);
    var c1 := Candidate(loads, c, first).value.bytes;
    assert loads(c1).value["concurrent" := Integer(second)] == loads(c).value["concurrent" := Integer(second)];
  }

  /** When an edit is accepted and what it is: the root value is a positive
      integer, the sole canonical assignment stands for it, and putting the new
      digits in place of the old changes that value and no other. */
  lemma CandidateExactly(loads: Loader, c: string, desired: nat, cur: int, c': string)
    ensures Candidate(loads, c, desired) == Some(Edit(cur, c')) <==>
            && cur >= 1 && loads(c).Some? && "concurrent" in loads(c).value
            && loads(c).value["concurrent"] == Integer(cur) && SoleMatch(c).Some?
            && var start, end := SoleSpan(c).start, SoleSpan(c).end;
            && loads(c[..end]).Some? && "concurrent" in loads(c[..end]).value
            && loads(c[..end]).value["concurrent"] == Integer(cur)
            && c' == c[..start] + NatText(desired) + c[end..]
            && loads(c').Some? && loads(c').value.Keys == loads(c).value.Keys
            && forall k :: k in loads(c).value ==>
                 loads(c').value[k] == if k == "concurrent" then Integer(desired) else loads(c).value[k]
  {
    hide SoleMatch, SoleSpan, NatText;
    if Editable(loads, c) {
      var original, d := loads(c).value, Integer(desired);
      var c1 := Edited(c, desired);
      if loads(c1).Some? && loads(c1).value.Keys == original.Keys &&
         forall k :: k in original ==> loads(c1).value[k] == if k == "concurrent" then d else original[k] {
        assert loads(c1).value == original["concurrent" := d];
      }
    }
  }

  lemma EditableParts(loads: Loader, c: string)
    requires Editable(loads, c)
    ensures loads(c).Some? && SoleMatch(c).Some?
  {
  }

  lemma EditedTwice(c: string, first: nat, second: nat)
    requires SoleMatch(c).Some? && first > 0
    ensures SoleMatch(Edited(c, first)).Some? && Edited(Edited(c, first), second) == Edited(c, second)
  {
    hide IsPositive, NatText, SoleMatch, SoleSpan, FirstHeader, Splice, Lines, AssignLine;
    PositiveText(first);
    SpliceKeepsMatch(c, NatText(first));
    SpliceTwice(c, SoleSpan(c).start, SoleSpan(c).end, NatText(first), NatText(second));
  }

  /** Prefix assumption: if the text up to and including the digits of a
      canonical assignment line parses, its root value is those digits. */
  ghost predicate PrefixValue(loads: Loader) {
    forall c :: SoleMatch(c).Some? && loads(c[..SoleSpan(c).end]).Some? ==>
      var p := loads(c[..SoleSpan(c).end]).value;
      && "concurrent" in p
      && p["concurrent"] == Integer(NatValue(SoleDigits(c)))
  }

  function SoleDigits(c: string): (d: string)
    requires SoleMatch(c).Some?
    ensures IsPositive(d)
    ensures d == c[SoleSpan(c).start..SoleSpan(c).end]
  {
    var k := SoleMatch(c).value;
    var l := Lines(c)[k];
    var s := AssignLine(l).value;
    DigitsInText(c);
    l[s.start..s.end]
  }

  lemma DigitsInText(c: string)
    requires SoleMatch(c).Some?
    ensures var l := Lines(c)[SoleMatch(c).value];
            var s := AssignLine(l).value;
            l[s.start..s.end] == c[SoleSpan(c).start..SoleSpan(c).end]
  {
    hide AssignLine, Lines, SoleMatch, SoleSpan, Offset, FirstHeader, Matches;
    var k := SoleMatch(c).value;
    LineInText(c, k);
    SoleMatchIs(c, k);
    var o, l := Offset(Lines(c), k), Lines(c)[k];
    var s := AssignLine(l).value;
    SubSlice(c, o, |l|, s.start, s.end);
  }

  lemma SubSlice(c: string, o: nat, n: nat, a: nat, b: nat)
    requires o + n <= |c| && a <= b <= n
    ensures c[o..o + n][a..b] == c[o + a..o + b]
  {
    var x, y := c[o..o + n][a..b], c[o + a..o + b];
    forall i | 0 <= i < b - a ensures x[i] == y[i] {
      assert x[i] == c[o..o + n][a + i] == c[o + a + i];
    }
  }

  lemma PositiveRoundTrip(d: string)
    requires IsPositive(d)
    ensures NatText(NatValue(d)) == d && NatValue(d) > 0
  {
    NumeralRoundTrip(d);
    NumeralPositive(d);
  }

  /** The value an accepted edit reports is spelled by the digits it replaces. */
  lemma CurrentIsDigits(loads: Loader, c: string, desired: nat)
    requires PrefixValue(loads) && Candidate(loads, c, desired).Some?
    ensures var cur := Candidate(loads, c, desired).value.current;
            cur > 0 && NatText(cur) == SoleDigits(c)
  {
    hide SoleMatch, SoleSpan, NatText, NatValue, IsPositive, Splice, SoleDigits;
    PositiveRoundTrip(SoleDigits(c));
  }

  /** Editing to the current value is accepted without changing a byte (get-put). */
  lemma GetPut(loads: Loader, c: string, desired: nat)
    requires PrefixValue(loads) && Candidate(loads, c, desired).Some?
    ensures var cur := Candidate(loads, c, desired).value.current;
            Candidate(loads, c, cur) == Some(Edit(cur, c))
  {
    CurrentIsDigits(loads, c, desired);
    hide SoleMatch, SoleSpan, NatText, IsPositive, SoleDigits, Splice;
    var cur := Candidate(loads, c, desired).value.current;
    var span := SoleSpan(c);
    SpliceDigits(c, span.start, span.end);
    var original := loads(c).value;
    assert original["concurrent" := Integer(cur)] == original;
  }

  /** Editing back restores the file byte for byte.  It is accepted exactly
      when the edited prefix still parses. */
  lemma EditBack(loads: Loader, c: string, desired: nat)
    requires PrefixValue(loads) && desired > 0 && Candidate(loads, c, desired).Some?
    ensures var Edit(cur, c') := Candidate(loads, c, desired).value;
            && (Candidate(loads, c', cur).Some? <==> loads(c'[..SoleSpan(c).start + |NatText(desired)|]).Some?)
            && (Candidate(loads, c', cur).Some? ==> Candidate(loads, c', cur).value == Edit(desired, c))
  {
    hide SoleMatch, IsPositive, SoleDigits, SoleSpan, NatText, NatValue, Splice, Edited, Lines, FirstHeader;
    CurrentIsDigits(loads, c, desired);
    var Edit(cur, c') := Candidate(loads, c, desired).value;
    EditableAgain(loads, c, desired);
    EditedBack(c, desired, cur);
    hide Editable, PrefixValue;
    assert loads(c').value["concurrent" := Integer(cur)] == loads(c).value;
  }

  /** The edited file can be edited again exactly when its prefix parses. */
  lemma EditableAgain(loads: Loader, c: string, desired: nat)
    requires PrefixValue(loads) && desired > 0 && Candidate(loads, c, desired).Some?
    ensures SoleMatch(c).Some? && SoleMatch(Edited(c, desired)).Some?
    ensures var c' := Edited(c, desired);
            && SoleSpan(c').end == SoleSpan(c).start + |NatText(desired)|
            && (Editable(loads, c') <==> loads(c'[..SoleSpan(c').end]).Some?)
  {
    hide SoleMatch, IsPositive, SoleDigits, SoleSpan, NatText, NatValue, Edited, PrefixValue, Editable;
    EditableParts(loads, c);
    EditThere(c, desired);
    NatTextRoundTrip(desired);
    EditableIff(loads, Edited(c, desired), desired);
  }

  lemma EditableIff(loads: Loader, c: string, n: nat)
    requires PrefixValue(loads) && SoleMatch(c).Some? && n > 0 && NatValue(SoleDigits(c)) == n
    requires loads(c).Some? && "concurrent" in loads(c).value && loads(c).value["concurrent"] == Integer(n)
    ensures Editable(loads, c) <==> loads(c[..SoleSpan(c).end]).Some?
  {
    hide SoleMatch, SoleSpan, NatValue, SoleDigits, PrefixValue;
    PrefixAt(loads, c);
  }

  lemma PrefixAt(loads: Loader, c: string)
    requires PrefixValue(loads) && SoleMatch(c).Some?
    ensures var p := loads(c[..SoleSpan(c).end]);
            p.Some? ==> "concurrent" in p.value && p.value["concurrent"] == Integer(NatValue(SoleDigits(c)))
  {
    hide SoleMatch, SoleSpan, NatValue, SoleDigits;
  }

  /** Where the digits of an edited file are, and what they are. */
  lemma EditThere(c: string, desired: nat)
    requires SoleMatch(c).Some? && desired > 0
    ensures var c' := Edited(c, desired);
            && SoleMatch(c').Some? && SoleSpan(c') == Span(SoleSpan(c).start, SoleSpan(c).start + |NatText(desired)|)
            && SoleDigits(c') == NatText(desired)
  {
    hide IsPositive, NatText, SoleMatch, SoleSpan, SoleDigits, FirstHeader, Lines;
    PositiveText(desired);
    SpliceKeepsMatch(c, NatText(desired));
    EditedDigits(c, SoleSpan(c), desired, Edited(c, desired));
  }

  lemma EditedBack(c: string, desired: nat, cur: nat)
    requires SoleMatch(c).Some? && desired > 0 && NatText(cur) == SoleDigits(c)
    ensures SoleMatch(Edited(c, desired)).Some? && Edited(Edited(c, desired), cur) == c
  {
    hide SoleMatch, SoleSpan, NatText, SoleDigits;
    EditedTwice(c, desired, cur);
    SpliceDigits(c, SoleSpan(c).start, SoleSpan(c).end);
  }

  /** Numeral assumption: whether the text up to the digits of the sole canonical
      assignment parses does not depend on which positive numeral stands there. */
  ghost predicate NumeralNeutral(loads: Loader) {
    forall c, d :: SoleMatch(c).Some? && IsPositive(d) ==>
      (loads(c[..SoleSpan(c).start] + d).Some? <==> loads(c[..SoleSpan(c).end]).Some?)
  }

  /** For a parser that treats all positive numerals alike, as TOML does, editing
      back is always accepted and restores the file byte for byte. */
  lemma EditBackAlways(loads: Loader, c: string, desired: nat)
    requires PrefixValue(loads) && NumeralNeutral(loads) && desired > 0 && Candidate(loads, c, desired).Some?
    ensures var Edit(cur, c') := Candidate(loads, c, desired).value;
            Candidate(loads, c', cur) == Some(Edit(desired, c))
  {
    EditBack(loads, c, desired);
    PositiveText(desired);
    PrefixOfEdit(c, desired);
    hide SoleMatch, SoleSpan, NatText, IsPositive, PrefixValue, Edited;
    var span := SoleSpan(c);
    var c' := Candidate(loads, c, desired).value.bytes;
    assert loads(c[..span.end]).Some?;
    assert loads(c[..span.start] + NatText(desired)).Some?;
  }

  lemma PrefixOfEdit(c: string, desired: nat)
    requires SoleMatch(c).Some?
    ensures Edited(c, desired)[..SoleSpan(c).start + |NatText(desired)|] == c[..SoleSpan(c).start] + NatText(desired)
  {
    hide SoleMatch, SoleSpan, NatText;
  }

  lemma SpliceDigits(c: string, start: nat, end: nat)
    requires start <= end <= |c|
    ensures Splice(c, start, end, c[start..end]) == c
  {
  }

  lemma EditedDigits(c: string, span: Span, desired: nat, c': string)
    requires span.start <= span.end <= |c| && c' == Splice(c, span.start, span.end, NatText(desired))
    requires SoleMatch(c').Some? && SoleSpan(c') == Span(span.start, span.start + |NatText(desired)|)
    ensures SoleDigits(c') == NatText(desired)
  {
    hide SoleMatch, SoleSpan, NatText, SoleDigits;
    assert c'[span.start..span.start + |NatText(desired)|] == NatText(desired);
  }
}
