/** Lines of a hosts file and the managed block in it: `outside_block` of
    roles/common/library/platform_host_aliases_guard.py.  A byte is a character
    of the same number. */
module HostsFile {
  import opened Text

  const MARKER := "ANSIBLE MANAGED PLATFORM HOST ALIASES"
  const BEGIN := "# BEGIN " + MARKER
  const END := "# END " + MARKER

  // ------------------------------------------------------------------ lines

  predicate IsBreak(c: char) { c == '\n' || c == '\r' }

  /** Length of the first line with its terminator: CR, LF or CRLF. */
  function LineLen(d: string): (n: nat)
    requires d != ""
    ensures 1 <= n <= |d|
    ensures n < |d| ==> IsBreak(d[n - 1])
  {
    if d[0] == '\n' then 1
    else if d[0] == '\r' then (if |d| > 1 && d[1] == '\n' then 2 else 1)
    else if |d| == 1 then 1
    else 1 + LineLen(d[1..])
  }

  /** bytes.splitlines(keepends=True) */
  function Lines(d: string): (r: seq<string>)
    ensures forall i :: 0 <= i < |r| ==> r[i] != ""
  {
    if d == "" then [] else [d[..LineLen(d)]] + Lines(d[LineLen(d)..])
  }

  function Concat(ls: seq<string>): string {
    if ls == [] then "" else ls[0] + Concat(ls[1..])
  }

  lemma {:induction false} ConcatLines(d: string)
    ensures Concat(Lines(d)) == d
  {
    if d != "" {
      var n := LineLen(d);
      ConcatLines(d[n..]);
      assert Lines(d)[1..] == Lines(d[n..]);
      assert d == d[..n] + d[n..];
    }
  }

  lemma {:induction false} ConcatAppend(a: seq<string>, b: seq<string>)
    ensures Concat(a + b) == Concat(a) + Concat(b)
  {
    if a == [] {
      assert a + b == b;
    } else {
      assert (a + b)[1..] == a[1..] + b;
      ConcatAppend(a[1..], b);
    }
  }

  predicate Terminated(a: string) {
    a == "" || IsBreak(a[|a| - 1])
  }

  /** No CRLF pair spans the join. */
  predicate SafeJoin(a: string, b: string) {
    Terminated(a) && !(a != "" && b != "" && a[|a| - 1] == '\r' && b[0] == '\n')
  }

  lemma {:induction false} LineLenAppend(a: string, b: string)
    requires a != "" && SafeJoin(a, b)
    ensures LineLen(a + b) == LineLen(a)
  {
    if !IsBreak(a[0]) {
      assert (a + b)[1..] == a[1..] + b;
      LineLenAppend(a[1..], b);
    }
  }

  lemma LinesEmpty()
    ensures Lines("") == []
  {
  }

  lemma LinesUnfold(d: string)
    requires d != ""
    ensures Lines(d) == [d[..LineLen(d)]] + Lines(d[LineLen(d)..])
  {
  }

  /** Splitting distributes over a join at a line boundary. */
  lemma {:induction false} LinesAppend(a: string, b: string)
    requires SafeJoin(a, b)
    ensures Lines(a + b) == Lines(a) + Lines(b)
    decreases |a|
  {
    hide LineLen, Lines;
    if a == "" {
      assert a + b == b;
      LinesEmpty();
    } else {
      var n := LineLen(a);
      LineLenAppend(a, b);
      assert (a + b)[..n] == a[..n] && (a + b)[n..] == a[n..] + b;
      assert SafeJoin(a[n..], b);
      LinesAppend(a[n..], b);
      LinesUnfold(a);
      LinesUnfold(a + b);
    }
  }

  /** One terminated line without earlier breaks. */
  lemma {:induction false} SingleLine(t: string)
    requires forall i :: 0 <= i < |t| ==> !IsBreak(t[i])
    ensures Lines(t + "\n") == [t + "\n"]
  {
    LineLenPlain(t);
    var d := t + "\n";
    hide LineLen;
    assert d[..|d|] == d && d[|d|..] == "";
    assert Lines("") == [];
  }

  lemma {:induction false} LineLenPlain(t: string)
    requires forall i :: 0 <= i < |t| ==> !IsBreak(t[i])
    ensures LineLen(t + "\n") == |t| + 1
  {
    if t != "" {
      assert (t + "\n")[1..] == t[1..] + "\n";
      LineLenPlain(t[1..]);
    }
  }

  /** Neither CR nor LF. */
  predicate OneLine(t: string) {
    '\n' !in t && '\r' !in t
  }

  /** How every text splits: at LF, at CRLF, and at CR that no LF follows. */
  lemma LinesExactly(t: string, rest: string)
    requires OneLine(t)
    ensures Lines(t) == if t == "" then [] else [t]
    ensures Lines(t + "\n" + rest) == [t + "\n"] + Lines(rest)
    ensures Lines(t + "\r\n" + rest) == [t + "\r\n"] + Lines(rest)
    ensures rest == "" || rest[0] != '\n' ==> Lines(t + "\r" + rest) == [t + "\r"] + Lines(rest)
  {
    hide Lines;
    LinesEmpty();
    if t != "" {
      LineLenWhole(t);
      LinesUnfold(t);
      assert t[..|t|] == t && t[|t|..] == "" && [t] + [] == [t];
    }
    FirstLine(t, "\n", rest);
    FirstLine(t, "\r\n", rest);
    if rest == "" || rest[0] != '\n' { FirstLine(t, "\r", rest); }
  }

  lemma {:induction false} LineLenWhole(t: string)
    requires OneLine(t) && t != ""
    ensures LineLen(t) == |t|
  {
    if |t| > 1 { LineLenWhole(t[1..]); }
  }

  lemma {:induction false} LineLenEnds(t: string, end: string, rest: string)
    requires OneLine(t)
    requires end == "\n" || end == "\r\n" || (end == "\r" && (rest == "" || rest[0] != '\n'))
    ensures LineLen(t + end + rest) == |t| + |end|
  {
    var d := t + end + rest;
    if t == "" {
      assert d == end + rest;
    } else {
      assert d[0] == t[0] && d[0] in t && d[1..] == t[1..] + end + rest;
      LineLenEnds(t[1..], end, rest);
    }
  }

  lemma FirstLine(t: string, end: string, rest: string)
    requires OneLine(t)
    requires end == "\n" || end == "\r\n" || (end == "\r" && (rest == "" || rest[0] != '\n'))
    ensures Lines(t + end + rest) == [t + end] + Lines(rest)
  {
    hide Lines;
    LineLenEnds(t, end, rest);
    var d := t + end + rest;
    LinesUnfold(d);
    assert d[..|t| + |end|] == t + end && d[|t| + |end|..] == rest;
  }

  // ----------------------------------------------------------------- markers

  /** The texts of the markers, and what bearing one means. */
  lemma MarkersExactly(line: string)
    ensures Bears(line) <==> exists p, q :: Around(line, p, MARKER, q)
    ensures MARKER == "ANSIBLE MANAGED PLATFORM HOST ALIASES"
    ensures BEGIN == "# BEGIN " + MARKER && END == "# END " + MARKER
  {
    MarkerTexts();
    hide MARKER, BEGIN, END;
    if Bears(line) {
      var i: nat :| i <= |line| && OccursAt(line, MARKER, i);
      assert Around(line, line[..i], MARKER, line[i + |MARKER|..]);
    }
    forall p, q | Around(line, p, MARKER, q) ensures Bears(line) {
      assert line[|p|..|p| + |MARKER|] == MARKER;
      assert OccursAt(line, MARKER, |p|);
    }
  }

  lemma MarkerTexts()
    ensures MARKER == "ANSIBLE MANAGED PLATFORM HOST ALIASES"
    ensures BEGIN == "# BEGIN " + MARKER && END == "# END " + MARKER
  {
  }

  predicate Around(line: string, p: string, m: string, q: string) {
    line == p + m + q
  }

  predicate OccursAt(d: string, m: string, i: nat) {
    i + |m| <= |d| && d[i..i + |m|] == m
  }

  predicate Contains(d: string, m: string) {
    exists i: nat :: i <= |d| && OccursAt(d, m, i)
  }

  predicate Bears(line: string) {
    Contains(line, MARKER)
  }

  lemma ContainsPrefix(a: string, b: string, m: string)
    requires Contains(a, m) || Contains(b, m)
    ensures Contains(a + b, m)
  {
    if Contains(a, m) {
      var i: nat :| i <= |a| && OccursAt(a, m, i);
      assert (a + b)[i..i + |m|] == a[i..i + |m|];
      assert OccursAt(a + b, m, i);
    } else {
      var i: nat :| i <= |b| && OccursAt(b, m, i);
      assert (a + b)[|a| + i..|a| + i + |m|] == b[i..i + |m|];
      assert OccursAt(a + b, m, |a| + i);
    }
  }

  predicate NoBreak(m: string) {
    m != "" && forall i :: 0 <= i < |m| ==> !IsBreak(m[i])
  }

  /** A text without line breaks does not occur across a line boundary. */
  lemma ContainsSplit(a: string, b: string, m: string)
    requires NoBreak(m) && Terminated(a) && Contains(a + b, m)
    ensures Contains(a, m) || Contains(b, m)
  {
    var d := a + b;
    var i: nat :| i <= |d| && OccursAt(d, m, i);
    assert forall k :: 0 <= k < |m| ==> m[k] == d[i..i + |m|][k] == d[i + k];
    assert forall j :: i <= j < i + |m| ==> d[j] == m[j - i];
    assert a != "" ==> IsBreak(d[|a| - 1]);
    if i + |m| <= |a| {
      assert a[i..i + |m|] == d[i..i + |m|];
      assert OccursAt(a, m, i);
    } else if i >= |a| {
      assert b[i - |a|..i - |a| + |m|] == d[i..i + |m|];
      assert OccursAt(b, m, i - |a|);
    }
  }

  lemma MarkerNoBreak()
    ensures NoBreak(MARKER)
  {
  }

  /** Every line but the last is terminated. */
  predicate Chained(ls: seq<string>) {
    forall i :: 0 <= i < |ls| - 1 ==> Terminated(ls[i])
  }

  lemma {:induction false} LinesChained(d: string)
    ensures Chained(Lines(d))
  {
    if d != "" {
      var n := LineLen(d);
      LinesChained(d[n..]);
      assert Lines(d) == [d[..n]] + Lines(d[n..]);
      assert n == |d| ==> Lines(d[n..]) == [];
    }
  }

  /** The marker occurs in a concatenation exactly when a line bears it. */
  lemma {:induction false} ConcatBears(ls: seq<string>)
    requires Chained(ls)
    ensures Bears(Concat(ls)) <==> exists i :: 0 <= i < |ls| && Bears(ls[i])
  {
    MarkerNoBreak();
    hide NoBreak, Contains;
    if ls == [] {
      EmptyBears();
    } else {
      var tail := ls[1..];
      assert forall i :: 0 <= i < |tail| ==> tail[i] == ls[i + 1];
      ConcatBears(tail);
      if |ls| == 1 {
        assert Concat(tail) == "" && ls[0] + "" == ls[0];
        EmptyBears();
      } else if Bears(Concat(ls)) {
        ContainsSplit(ls[0], Concat(tail), MARKER);
      }
      if exists i :: 0 <= i < |ls| && Bears(ls[i]) {
        var i :| 0 <= i < |ls| && Bears(ls[i]);
        assert i > 0 ==> Bears(tail[i - 1]);
        ContainsPrefix(ls[0], Concat(tail), MARKER);
      }
      if exists i :: 0 <= i < |tail| && Bears(tail[i]) {
        var i :| 0 <= i < |tail| && Bears(tail[i]);
        assert Bears(ls[i + 1]);
      }
    }
  }

  lemma EmptyBears()
    ensures !Bears("")
  {
  }

  // --------------------------------------------------------------- automaton

  /** line.rstrip(b"\n"): a line holds at most one line feed. */
  function Stripped(line: string): string {
    if line != "" && line[|line| - 1] == '\n' then line[..|line| - 1] else line
  }

  datatype Scan = Bad | Scan(inside: bool, seen: bool, outside: string)

  function Step(s: Scan, line: string): Scan {
    if s.Bad? then Bad
    else if Bears(line) then
      if Stripped(line) == BEGIN && !s.seen then Scan(true, true, s.outside)
      else if Stripped(line) == END && s.inside then Scan(false, s.seen, s.outside)
      else Bad
    else if s.inside then s
    else Scan(s.inside, s.seen, s.outside + line)
  }

  function Fold(s: Scan, ls: seq<string>): Scan
    decreases |ls|
  {
    if ls == [] then s else Fold(Step(s, ls[0]), ls[1..])
  }

  const START := Scan(false, false, "")

  /** The unmanaged text, or None for malformed markers. */
  function Outside(data: string): Option<string> {
    var s := Fold(START, Lines(data));
    if s.Bad? || s.inside then None else Some(s.outside)
  }

  lemma {:induction false} FoldAppend(s: Scan, a: seq<string>, b: seq<string>)
    ensures Fold(s, a + b) == Fold(Fold(s, a), b)
    decreases |a|
  {
    if a == [] {
      assert a + b == b;
    } else {
      assert (a + b)[1..] == a[1..] + b;
      FoldAppend(Step(s, a[0]), a[1..], b);
    }
  }

  /** The loop of outside_block. */
  method OutsideBlock(data: string) returns (r: Option<string>)
    ensures r == Outside(data)
  {
    var inside, seen, outside := false, false, "";
    var lines := Lines(data);
    for n := 0 to |lines|
      invariant Fold(START, lines[..n]) == Scan(inside, seen, outside)
    {
      var line := lines[n];
      FoldAppend(START, lines[..n], [line]);
      assert lines[..n + 1] == lines[..n] + [line];
      if Bears(line) {
        if Stripped(line) == BEGIN && !seen {
          inside, seen := true, true;
        } else if Stripped(line) == END && inside {
          inside := false;
        } else {
          FoldAppend(START, lines[..n + 1], lines[n + 1..]);
          assert lines == lines[..n + 1] + lines[n + 1..];
          FoldBad(lines[n + 1..]);
          return None;
        }
      } else if !inside {
        outside := outside + line;
      }
    }
    assert lines[..|lines|] == lines;
    r := if inside then None else Some(outside);
  }

  lemma {:induction false} FoldBad(ls: seq<string>)
    ensures Fold(Bad, ls) == Bad
  {
    if ls != [] { FoldBad(ls[1..]); }
  }

  predicate Plain(ls: seq<string>) {
    forall i :: 0 <= i < |ls| ==> !Bears(ls[i])
  }

  lemma {:induction false} FoldPlain(s: Scan, ls: seq<string>)
    requires s.Scan? && Plain(ls)
    ensures Fold(s, ls) == Scan(s.inside, s.seen, if s.inside then s.outside else s.outside + Concat(ls))
    decreases |ls|
  {
    hide Bears;
    if ls == [] {
      assert s.outside + "" == s.outside;
    } else {
      assert Plain(ls[1..]);
      FoldPlain(Step(s, ls[0]), ls[1..]);
      assert s.outside + ls[0] + Concat(ls[1..]) == s.outside + (ls[0] + Concat(ls[1..]));
    }
  }

  /** The line is this text, with or without a final line feed and nothing else. */
  predicate ExactLine(line: string, text: string) {
    line == text || line == text + "\n"
  }

  lemma StrippedExactly(line: string, text: string)
    requires text == "" || text[|text| - 1] != '\n'
    ensures Stripped(line) == text <==> ExactLine(line, text)
  {
    if line != "" && line[|line| - 1] == '\n' {
      assert line == line[..|line| - 1] + "\n";
    }
  }

  lemma MarkersEnd()
    ensures BEGIN[|BEGIN| - 1] != '\n' && END[|END| - 1] != '\n'
  {
  }

  /** One exact BEGIN line i, a later exact END line j, and no other marker. */
  predicate Block(ls: seq<string>, i: nat, j: nat) {
    && i < j < |ls| && ExactLine(ls[i], BEGIN) && ExactLine(ls[j], END)
    && forall k :: 0 <= k < |ls| && k != i && k != j ==> !Bears(ls[k])
  }

  lemma BlockStripped(ls: seq<string>, i: nat, j: nat)
    requires i < j < |ls|
    ensures ExactLine(ls[i], BEGIN) <==> Stripped(ls[i]) == BEGIN
    ensures ExactLine(ls[j], END) <==> Stripped(ls[j]) == END
  {
    MarkersEnd();
    hide BEGIN, END;
    StrippedExactly(ls[i], BEGIN);
    StrippedExactly(ls[j], END);
  }

  lemma MarkedLine(line: string)
    requires Stripped(line) == BEGIN || Stripped(line) == END
    ensures Bears(line)
  {
    var t := Stripped(line);
    var n := if t == BEGIN then 8 else 6;
    assert line[n..n + |MARKER|] == t[n..] == MARKER;
    assert OccursAt(line, MARKER, n);
  }

  lemma BeginIsNotEnd()
    ensures BEGIN != END
  {
    assert BEGIN[2] == 'B' && END[2] == 'E';
  }

  lemma BlockParts(ls: seq<string>, i: nat, j: nat)
    requires Block(ls, i, j)
    ensures i < j < |ls| && Stripped(ls[i]) == BEGIN && Stripped(ls[j]) == END
    ensures Plain(ls[..i]) && Plain(ls[i + 1..j]) && Plain(ls[j + 1..])
  {
    hide Bears, BEGIN, END, Stripped, ExactLine;
    BlockStripped(ls, i, j);
  }

  /** A file with one well-formed block is accepted and loses exactly it. */
  lemma FoldBlock(ls: seq<string>, i: nat, j: nat)
    requires Block(ls, i, j)
    ensures Fold(START, ls) == Scan(false, true, Concat(ls[..i] + ls[j + 1..]))
  {
    BlockParts(ls, i, j);
    hide Bears, BEGIN, END, Stripped, Step, Fold, Block, Plain;
    var a, b, c := ls[..i], ls[i + 1..j], ls[j + 1..];
    assert ls == a + ([ls[i]] + (b + ([ls[j]] + c)));
    var s0, s1, s2 := Scan(false, false, Concat(a)), Scan(true, true, Concat(a)), Scan(false, true, Concat(a));
    FoldAppend(START, a, [ls[i]] + (b + ([ls[j]] + c)));
    FoldPlain(START, a);
    assert "" + Concat(a) == Concat(a);
    FoldCons(s0, ls[i], b + ([ls[j]] + c));
    StepBegin(s0, ls[i]);
    FoldAppend(s1, b, [ls[j]] + c);
    FoldPlain(s1, b);
    FoldCons(s1, ls[j], c);
    StepEnd(s1, ls[j]);
    FoldPlain(s2, c);
    ConcatAppend(a, c);
  }

  lemma StepBegin(s: Scan, line: string)
    requires s.Scan? && !s.seen && Stripped(line) == BEGIN
    ensures Step(s, line) == Scan(true, true, s.outside)
  {
    MarkedLine(line);
  }

  lemma StepEnd(s: Scan, line: string)
    requires s.Scan? && s.inside && s.seen && Stripped(line) == END
    ensures Step(s, line) == Scan(false, true, s.outside)
  {
    MarkedLine(line);
    BeginIsNotEnd();
  }

  lemma FoldCons(s: Scan, x: string, ls: seq<string>)
    ensures Fold(s, [x] + ls) == Fold(Step(s, x), ls)
  {
    assert ([x] + ls)[1..] == ls;
  }

  lemma {:induction false} FirstBearing(ls: seq<string>) returns (i: nat)
    ensures i <= |ls| && Plain(ls[..i]) && (i < |ls| ==> Bears(ls[i]))
  {
    hide Bears;
    if ls == [] || Bears(ls[0]) {
      i := 0;
    } else {
      i := FirstBearing(ls[1..]);
      assert ls[..i + 1] == [ls[0]] + ls[1..][..i];
      i := i + 1;
    }
  }

  /** What follows an accepted END holds no marker. */
  lemma AfterEnd(s: Scan, ls: seq<string>)
    requires s.Scan? && s.seen && !s.inside && Fold(s, ls).Scan?
    ensures Plain(ls)
  {
    var i := FirstBearing(ls);
    if i < |ls| {
      hide Bears;
      assert ls == ls[..i] + ([ls[i]] + ls[i + 1..]);
      FoldAppend(s, ls[..i], [ls[i]] + ls[i + 1..]);
      FoldPlain(s, ls[..i]);
      FoldCons(Fold(s, ls[..i]), ls[i], ls[i + 1..]);
      FoldBad(ls[i + 1..]);
    } else {
      assert ls[..i] == ls;
    }
  }

  /** Inside the block the first marker line must be END. */
  lemma InsideBlock(s: Scan, ls: seq<string>) returns (j: nat)
    requires s.Scan? && s.seen && s.inside && Fold(s, ls).Scan? && !Fold(s, ls).inside
    ensures j < |ls| && Stripped(ls[j]) == END && Plain(ls[..j]) && Plain(ls[j + 1..])
  {
    j := FirstBearing(ls);
    hide Bears, Stripped, BEGIN, END;
    if j == |ls| {
      assert ls[..j] == ls;
      FoldPlain(s, ls);
    } else {
      assert ls == ls[..j] + ([ls[j]] + ls[j + 1..]);
      FoldAppend(s, ls[..j], [ls[j]] + ls[j + 1..]);
      FoldPlain(s, ls[..j]);
      FoldCons(s, ls[j], ls[j + 1..]);
      FoldBad(ls[j + 1..]);
      AfterEnd(Step(s, ls[j]), ls[j + 1..]);
    }
  }

  /** Every accepted list of lines has no marker or one well-formed block. */
  lemma AcceptedForm(ls: seq<string>)
    requires Fold(START, ls).Scan? && !Fold(START, ls).inside
    ensures Plain(ls) || exists i: nat, j: nat :: Block(ls, i, j)
  {
    var i := FirstBearing(ls);
    hide Bears, Stripped, BEGIN, END, ExactLine;
    if i == |ls| {
      assert ls[..i] == ls;
    } else {
      var rest := ls[i + 1..];
      assert ls == ls[..i] + ([ls[i]] + rest);
      FoldAppend(START, ls[..i], [ls[i]] + rest);
      FoldPlain(START, ls[..i]);
      var s := Fold(START, ls[..i]);
      FoldCons(s, ls[i], rest);
      FoldBad(rest);
      var j := InsideBlock(Step(s, ls[i]), rest);
      forall k | 0 <= k < |ls| && k != i && k != i + 1 + j ensures !Bears(ls[k]) {
        if k < i { assert ls[k] == ls[..i][k]; }
        else if k < i + 1 + j { assert ls[k] == rest[..j][k - i - 1]; }
        else { assert ls[k] == rest[j + 1..][k - i - 2 - j]; }
      }
      BlockStripped(ls, i, i + 1 + j);
      assert Block(ls, i, i + 1 + j);
    }
  }

  /** outside_block accepts exactly the files with no marker-bearing line, which
      it returns unchanged, or with one exact BEGIN line before one exact END
      line and no other marker-bearing line, from which it removes exactly the
      lines from BEGIN to END. */
  lemma OutsideExactly(data: string, o: string)
    ensures Outside(data) == Some(o) <==>
            || (Plain(Lines(data)) && o == data)
            || exists i: nat, j: nat :: Block(Lines(data), i, j) && o == Concat(Lines(data)[..i] + Lines(data)[j + 1..])
  {
    var ls := Lines(data);
    hide Lines, Bears, BEGIN, END;
    ConcatLines(data);
    if Plain(ls) {
      FoldPlain(START, ls);
      assert "" + data == data;
      forall i: nat, j: nat | Block(ls, i, j) ensures false {
        BlockStripped(ls, i, j);
        MarkedLine(ls[i]);
      }
    } else if Outside(data).Some? {
      AcceptedForm(ls);
      var i: nat, j: nat :| Block(ls, i, j);
      FoldBlock(ls, i, j);
      forall i': nat, j': nat | Block(ls, i', j') ensures Outside(data) == Some(Concat(ls[..i'] + ls[j' + 1..])) {
        FoldBlock(ls, i', j');
      }
    } else {
      forall i: nat, j: nat | Block(ls, i, j) ensures false { FoldBlock(ls, i, j); }
    }
  }

  /** The unmanaged text holds no marker. */
  lemma OutsideHasNoMarker(data: string)
    requires Outside(data).Some?
    ensures !Bears(Outside(data).value)
  {
    hide Lines, Bears, BEGIN, END, Fold, Stripped, Outside;
    var ls := Lines(data);
    var o := Outside(data).value;
    OutsideExactly(data, o);
    LinesChained(data);
    ConcatLines(data);
    if Plain(ls) && o == data {
      ConcatBears(ls);
    } else {
      var i: nat, j: nat :| Block(ls, i, j) && o == Concat(ls[..i] + ls[j + 1..]);
      WithoutBlock(ls, i, j);
      ConcatBears(ls[..i] + ls[j + 1..]);
    }
  }

  lemma WithoutBlock(ls: seq<string>, i: nat, j: nat)
    requires Block(ls, i, j) && Chained(ls)
    ensures Chained(ls[..i] + ls[j + 1..]) && Plain(ls[..i] + ls[j + 1..])
  {
    hide Bears, BEGIN, END, Stripped, Terminated;
    var rest := ls[..i] + ls[j + 1..];
    forall k | 0 <= k < |rest| ensures !Bears(rest[k]) && (k < |rest| - 1 ==> Terminated(rest[k])) {
      var k' := if k < i then k else j + 1 + k - i;
      assert rest[k] == ls[k'];
    }
  }

  lemma PlainText(d: string)
    ensures !Bears(d) <==> Plain(Lines(d))
  {
    LinesChained(d);
    ConcatLines(d);
    ConcatBears(Lines(d));
  }

  /** Stripping is idempotent. */
  lemma OutsideIdempotent(data: string)
    requires Outside(data).Some?
    ensures Outside(Outside(data).value) == Outside(data)
  {
    var o := Outside(data).value;
    OutsideHasNoMarker(data);
    PlainText(o);
    OutsideExactly(o, o);
  }

  /** The block that is written: markers around a body. */
  function BlockText(body: string): string {
    BEGIN + "\n" + (body + (END + "\n"))
  }

  lemma BlockLines(body: string)
    requires Terminated(body)
    ensures Lines(BlockText(body)) == [BEGIN + "\n"] + (Lines(body) + [END + "\n"])
  {
    SingleLine(BEGIN);
    SingleLine(END);
    var e := END + "\n";
    var b := BEGIN + "\n";
    assert e[0] == '#' && b[|b| - 1] == '\n';
    hide BEGIN, END, Lines;
    LinesAppend(body, e);
    LinesAppend(b, body + e);
  }

  /** Inserting a marker-free, terminated body at any point after a line break
      is undone by stripping, also between CR and LF. */
  lemma InsertThenStrip(data: string, p: nat, body: string)
    requires p <= |data| && Terminated(data[..p]) && Terminated(body)
    requires !Bears(data) && !Bears(body)
    ensures Outside(data[..p] + BlockText(body) + data[p..]) == Some(data)
  {
    hide Lines, Bears, BEGIN, END, BlockText, Stripped, Outside;
    var a, c := data[..p], data[p..];
    assert data == a + c;
    InsertedLines(a, body, c);
    PartPlain(a, c);
    PlainText(a);
    PlainText(c);
    PlainText(body);
    var i, j := |Lines(a)|, |Lines(a)| + 1 + |Lines(body)|;
    var ls := Lines(a) + ([BEGIN + "\n"] + (Lines(body) + [END + "\n"])) + Lines(c);
    InsertedBlock(Lines(a), Lines(body), Lines(c));
    ConcatAppend(Lines(a), Lines(c));
    ConcatLines(a);
    ConcatLines(c);
    OutsideExactly(a + BlockText(body) + c, data);
  }

  lemma InsertedBlock(a: seq<string>, b: seq<string>, c: seq<string>)
    requires Plain(a) && Plain(b) && Plain(c)
    ensures var ls := a + ([BEGIN + "\n"] + (b + [END + "\n"])) + c;
            var i, j := |a|, |a| + 1 + |b|;
            Block(ls, i, j) && ls[..i] == a && ls[j + 1..] == c
  {
    hide Bears, BEGIN, END;
    var ls := a + ([BEGIN + "\n"] + (b + [END + "\n"])) + c;
    var i, j := |a|, |a| + 1 + |b|;
    assert ls[i] == BEGIN + "\n" && ls[j] == END + "\n";
    assert Stripped(ls[i]) == BEGIN && Stripped(ls[j]) == END;
    forall k | 0 <= k < |ls| && k != i && k != j ensures !Bears(ls[k]) {
      if k < i { assert ls[k] == a[k]; }
      else if k < j { assert ls[k] == b[k - i - 1]; }
      else { assert ls[k] == c[k - j - 1]; }
    }
  }

  lemma PartPlain(a: string, c: string)
    requires !Bears(a + c)
    ensures !Bears(a) && !Bears(c)
  {
    if Contains(a, MARKER) || Contains(c, MARKER) {
      ContainsPrefix(a, c, MARKER);
    }
  }

  lemma InsertedLines(a: string, body: string, c: string)
    requires Terminated(a) && Terminated(body)
    ensures Lines(a + BlockText(body) + c) ==
            Lines(a) + ([BEGIN + "\n"] + (Lines(body) + [END + "\n"])) + Lines(c)
  {
    var t := BlockText(body);
    assert t[0] == '#' && t[|t| - 1] == '\n';
    BlockLines(body);
    hide BlockText, BEGIN, END, Lines;
    LinesAppend(a, t);
    assert (a + t)[|a + t| - 1] == '\n';
    LinesAppend(a + t, c);
  }
}
