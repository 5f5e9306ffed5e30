/** The fixed regular expressions of the plan modules, as predicates for
    re.fullmatch, and the few string operations they are used with. */
module Patterns {
  import opened Text

  predicate HexDigit(c: char) {
    IsDigit(c) || 'a' <= c <= 'f'
  }

  /** [0-9a-f]{n} */
  predicate IsHex(s: string, n: nat) {
    |s| == n && forall i :: 0 <= i < |s| ==> HexDigit(s[i])
  }

  predicate Letter(c: char) {
    'A' <= c <= 'Z' || 'a' <= c <= 'z'
  }

  predicate NameChar(c: char) {
    Letter(c) || IsDigit(c) || c == '_' || c == '.' || c == '-'
  }

  predicate NameChars(s: string) {
    forall i :: 0 <= i < |s| ==> NameChar(s[i])
  }

  /** [A-Za-z0-9_.-]{1,n} */
  predicate IsName(s: string, n: nat) {
    1 <= |s| <= n && NameChars(s)
  }

  /** [1-9][0-9]* */
  predicate IsPositive(s: string) {
    s != "" && AllDigits(s) && s[0] != '0'
  }

  /** Python's \s for str. */
  predicate IsSpace(c: char) {
    var n := c as int;
    || 0x09 <= n <= 0x0D || 0x1C <= n <= 0x20 || n == 0x85 || n == 0xA0 || n == 0x1680
    || 0x2000 <= n <= 0x200A || n == 0x2028 || n == 0x2029 || n == 0x202F || n == 0x205F || n == 0x3000
  }

  /** [^\s]+@sha256:[0-9a-f]{64} */
  predicate IsPinnedImage(s: string) {
    && |s| >= 73
    && IsHex(s[|s| - 64..], 64)
    && s[|s| - 72..|s| - 64] == "@sha256:"
    && forall i :: 0 <= i < |s| - 72 ==> !IsSpace(s[i])
  }

  predicate EndsWith(s: string, suffix: string) {
    |s| >= |suffix| && s[|s| - |suffix|..] == suffix
  }

  predicate StartsWith(s: string, prefix: string) {
    |s| >= |prefix| && s[..|prefix|] == prefix
  }

  // ------------------------------------------------ the classes, spelled out

  const HEX_DIGITS: set<char> :=
    {'0', '1', '2', '3', '4', '5', '6', '7', '8', '9', 'a', 'b', 'c', 'd', 'e', 'f'}

  const DIGITS: set<char> := {'0', '1', '2', '3', '4', '5', '6', '7', '8', '9'}
  const CAPITALS: set<char> :=
    {'A', 'B', 'C', 'D', 'E', 'F', 'G', 'H', 'I', 'J', 'K', 'L', 'M',
     'N', 'O', 'P', 'Q', 'R', 'S', 'T', 'U', 'V', 'W', 'X', 'Y', 'Z'}
  const SMALL_LETTERS: set<char> :=
    {'a', 'b', 'c', 'd', 'e', 'f', 'g', 'h', 'i', 'j', 'k', 'l', 'm',
     'n', 'o', 'p', 'q', 'r', 's', 't', 'u', 'v', 'w', 'x', 'y', 'z'}
  const ALPHANUMERIC: set<char> := DIGITS + CAPITALS + SMALL_LETTERS

  const NAME_CHARS: set<char> := ALPHANUMERIC + {'_', '.', '-'}

  /** The code points str.isspace() accepts. */
  const SPACES: set<int> :=
    {9, 10, 11, 12, 13, 28, 29, 30, 31, 32, 133, 160, 5760, 8192, 8193, 8194, 8195, 8196, 8197, 8198, 8199,
     8200, 8201, 8202, 8232, 8233, 8239, 8287, 12288}

  /** Every character of s is in the class. */
  predicate Over(s: string, chars: set<char>) {
    forall i :: 0 <= i < |s| ==> s[i] in chars
  }

  lemma HexDigitExactly(c: char)
    ensures HexDigit(c) <==> c in HEX_DIGITS
  {
  }

  lemma CapitalExactly(c: char)
    ensures 'A' <= c <= 'Z' <==> c in CAPITALS
  {
  }

  lemma SmallExactly(c: char)
    ensures 'a' <= c <= 'z' <==> c in SMALL_LETTERS
  {
  }

  lemma NameCharExactly(c: char)
    ensures Letter(c) || IsDigit(c) <==> c in ALPHANUMERIC
    ensures NameChar(c) <==> c in ALPHANUMERIC || c == '_' || c == '.' || c == '-'
  {
    CapitalExactly(c);
    SmallExactly(c);
    hide CAPITALS, SMALL_LETTERS;
  }

  lemma SpaceExactly(c: char)
    ensures IsSpace(c) <==> c as int in SPACES
  {
  }

  /** [0-9a-f]{n} */
  lemma HexExactly(s: string, n: nat)
    ensures IsHex(s, n) <==> |s| == n && Over(s, HEX_DIGITS)
  {
    hide HEX_DIGITS, HexDigit;
    forall i | 0 <= i < |s| ensures HexDigit(s[i]) <==> s[i] in HEX_DIGITS { HexDigitExactly(s[i]); }
  }

  /** [A-Za-z0-9_.-]{1,n} */
  lemma NameExactly(s: string, n: nat)
    ensures IsName(s, n) <==> 1 <= |s| <= n && Over(s, NAME_CHARS)
    ensures NameChars(s) <==> Over(s, NAME_CHARS)
  {
    hide ALPHANUMERIC, NameChar;
    forall i | 0 <= i < |s| ensures NameChar(s[i]) <==> s[i] in NAME_CHARS { NameCharExactly(s[i]); }
  }

  /** The decimal text of a positive number. */
  ghost predicate PositiveNumber(s: string) {
    exists n: nat :: n > 0 && s == NatText(n)
  }

  /** [1-9][0-9]* */
  lemma PositiveExactly(s: string)
    ensures IsPositive(s) <==> PositiveNumber(s)
  {
    hide NatText, NatValue;
    if IsPositive(s) {
      NumeralRoundTrip(s);
      NumeralPositive(s);
      assert s == NatText(NatValue(s));
    }
    forall n: nat | n > 0 && s == NatText(n) ensures IsPositive(s) { NatTextIsNumeral(n); }
  }

  /** [^\s]+@sha256:[0-9a-f]{64} */
  lemma PinnedImageExactly(s: string)
    ensures IsPinnedImage(s) <==> ImageWithDigest(s)
  {
    hide IsSpace, IsHex, SPACES, HEX_DIGITS;
    if IsPinnedImage(s) {
      var n := |s| - 72;
      var name, digest := s[..n], s[n + 8..];
      assert s == name + s[n..n + 8] + digest;
      HexExactly(digest, 64);
      forall i | 0 <= i < |name| ensures name[i] as int !in SPACES { SpaceExactly(s[i]); }
      assert PinnedImage(s, name, digest);
    }
    forall name, digest | PinnedImage(s, name, digest) ensures IsPinnedImage(s) {
      HexExactly(digest, 64);
      assert s[|s| - 64..] == digest && s[|s| - 72..|s| - 64] == "@sha256:";
      forall i | 0 <= i < |s| - 72 ensures !IsSpace(s[i]) {
        assert s[i] == name[i];
        SpaceExactly(s[i]);
      }
    }
  }

  ghost predicate ImageWithDigest(s: string) {
    exists name, digest :: PinnedImage(s, name, digest)
  }

  /** A name without white space, "@sha256:" and 64 hexadecimal digits. */
  predicate PinnedImage(s: string, name: string, digest: string) {
    && s == name + "@sha256:" + digest && name != ""
    && (forall i :: 0 <= i < |name| ==> name[i] as int !in SPACES)
    && |digest| == 64 && Over(digest, HEX_DIGITS)
  }

  lemma StartsEndsExactly(s: string, x: string)
    ensures StartsWith(s, x) <==> exists rest :: s == x + rest
    ensures EndsWith(s, x) <==> exists front :: s == front + x
  {
    if StartsWith(s, x) { assert s == x + s[|x|..]; }
    if EndsWith(s, x) { assert s == s[..|s| - |x|] + x; }
  }

  lemma EndsWithAppend(p: string, suffix: string)
    ensures EndsWith(p + suffix, suffix)
    ensures (p + suffix)[..|p + suffix| - |suffix|] == p
  {
  }

  lemma NameCharsConcat(a: string, b: string)
    ensures NameChars(a + b) <==> NameChars(a) && NameChars(b)
  {
    if NameChars(a + b) {
      forall i | 0 <= i < |a| ensures NameChar(a[i]) { assert (a + b)[i] == a[i]; }
      forall i | 0 <= i < |b| ensures NameChar(b[i]) { assert (a + b)[|a| + i] == b[i]; }
    }
  }

  /** str.split on one character: never empty, and joined back by it. */
  function Split(s: string, sep: char): (r: seq<string>)
    ensures |r| >= 1
    ensures forall i :: 0 <= i < |r| ==> sep !in r[i]
  {
    if s == "" then [""] else
      var rest := Split(s[1..], sep);
      if s[0] == sep then [""] + rest else [[s[0]] + rest[0]] + rest[1..]
  }

  /** sep.join(parts) */
  function JoinWith(parts: seq<string>, sep: string): string {
    if parts == [] then "" else if |parts| == 1 then parts[0]
    else parts[0] + sep + JoinWith(parts[1..], sep)
  }

  /** Splitting undoes joining of parts that do not hold the separator. */
  lemma {:induction false} SplitJoin(parts: seq<string>, sep: char)
    requires parts != [] && forall i :: 0 <= i < |parts| ==> sep !in parts[i]
    ensures Split(JoinWith(parts, [sep]), sep) == parts
  {
    if |parts| == 1 {
      SplitNone(parts[0], sep);
    } else {
      SplitJoin(parts[1..], sep);
      SplitHead(parts[0], JoinWith(parts[1..], [sep]), sep);
      assert JoinWith(parts, [sep]) == parts[0] + [sep] + JoinWith(parts[1..], [sep]);
      assert parts == [parts[0]] + parts[1..];
    }
  }

  lemma {:induction false} SplitNone(s: string, sep: char)
    requires sep !in s
    ensures Split(s, sep) == [s]
  {
    if s != "" {
      SplitNone(s[1..], sep);
      assert s == [s[0]] + s[1..];
    }
  }

  lemma {:induction false} SplitHead(a: string, b: string, sep: char)
    requires sep !in a
    ensures Split(a + [sep] + b, sep) == [a] + Split(b, sep)
  {
    var t := a + [sep] + b;
    if a == "" {
      assert t[1..] == b;
    } else {
      assert t[1..] == a[1..] + [sep] + b;
      SplitHead(a[1..], b, sep);
      assert a == [a[0]] + a[1..];
    }
  }

  lemma SplitEmpty(sep: char)
    ensures Split("", sep) == [""]
  {
  }

  lemma SplitCons(c: char, s: string, sep: char)
    ensures Split([c] + s, sep) ==
            if c == sep then [""] + Split(s, sep) else [[c] + Split(s, sep)[0]] + Split(s, sep)[1..]
  {
    assert ([c] + s)[1..] == s;
  }

  lemma {:induction false} SplitAppend(a: string, b: string, sep: char)
    ensures Split(a + [sep] + b, sep) == Split(a, sep) + Split(b, sep)
  {
    hide Split;
    if a == "" {
      SplitCons(sep, b, sep);
      SplitEmpty(sep);
      assert a + [sep] + b == [sep] + b;
    } else {
      SplitAppend(a[1..], b, sep);
      var x, y := Split(a[1..], sep), Split(b, sep);
      assert a == [a[0]] + a[1..] && a + [sep] + b == [a[0]] + (a[1..] + [sep] + b);
      SplitCons(a[0], a[1..], sep);
      SplitCons(a[0], a[1..] + [sep] + b, sep);
      assert (x + y)[0] == x[0] && (x + y)[1..] == x[1..] + y;
    }
  }

  /** x stands in s between two separators or ends of s. */
  predicate StandsIn(s: string, x: string, sep: char, p: string, q: string) {
    && s == p + x + q && sep !in x
    && (p == "" || p[|p| - 1] == sep) && (q == "" || q[0] == sep)
  }

  /** The parts of a split are exactly the texts between separators. */
  lemma SplitExactly(s: string, sep: char, x: string)
    ensures x in Split(s, sep) <==> exists p, q :: StandsIn(s, x, sep, p, q)
  {
    hide Split;
    var parts := Split(s, sep);
    if x in parts {
      var i :| 0 <= i < |parts| && parts[i] == x;
      var p, q := PartStands(s, sep, i);
      assert StandsIn(s, x, sep, p, q);
    }
    forall p, q | StandsIn(s, x, sep, p, q) ensures x in parts {
      StandsIsPart(s, sep, x, p, q);
    }
  }

  lemma {:induction false} PartStands(s: string, sep: char, i: nat) returns (p: string, q: string)
    requires i < |Split(s, sep)|
    ensures StandsIn(s, Split(s, sep)[i], sep, p, q)
    ensures i == 0 <==> p == ""
  {
    if s == "" {
      p, q := "", "";
    } else {
      assert s == [s[0]] + s[1..];
      if s[0] == sep && i == 0 {
        p, q := "", s;
      } else if s[0] == sep {
        p, q := PartStands(s[1..], sep, i - 1);
        p := [sep] + p;
      } else {
        p, q := PartStands(s[1..], sep, i);
        if i > 0 { p := [s[0]] + p; }
      }
    }
  }

  lemma StandsIsPart(s: string, sep: char, x: string, p: string, q: string)
    requires StandsIn(s, x, sep, p, q)
    ensures x in Split(s, sep)
  {
    hide Split;
    if q == "" {
      assert x + q == x;
      SplitNone(x, sep);
    } else {
      assert q == [sep] + q[1..] && x + q == x + [sep] + q[1..];
      SplitHead(x, q[1..], sep);
      assert ([x] + Split(q[1..], sep))[0] == x;
    }
    if p == "" {
      assert s == x + q;
    } else {
      var front := p[..|p| - 1];
      assert p == front + [sep] && s == front + [sep] + (x + q);
      SplitAppend(front, x + q, sep);
    }
  }
}
