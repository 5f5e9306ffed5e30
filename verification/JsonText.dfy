/** What the compact printer writes, spelled out: separators, escapes and
    numbers of json.dumps with ensure_ascii and separators (",", ":"). */
module JsonText {
  import opened Text
  import opened Patterns
  import opened JsonString
  import opened Json

  // ------------------------------------------------------------------ escapes

  const HEX: string := "0123456789abcdef"

  /** A backslash, "u" and four small hexadecimal digits. */
  function FourDigits(n: nat): string
    requires n < 0x10000
  {
    "\\u" + [HEX[n / 4096], HEX[n / 256 % 16], HEX[n / 16 % 16], HEX[n % 16]]
  }

  lemma HexCharIs(d: nat)
    requires d < 16
    ensures HexChar(d) == HEX[d]
  {
  }

  lemma UnicodeIs(n: nat)
    requires n < 0x10000
    ensures Unicode(n) == FourDigits(n)
  {
    HexCharIs(n / 4096);
    HexCharIs(n / 256 % 16);
    HexCharIs(n / 16 % 16);
    HexCharIs(n % 16);
    hide HexChar, HEX;
    assert n / 16 / 16 / 16 == n / 4096 && n / 16 / 16 == n / 256;
  }

  /** The escape of every code point: seven short escapes, printable ASCII as it
      is, and otherwise four digits, twice above U+FFFF. */
  lemma EscapeExactly(c: CodePoint)
    ensures Escape1(c) ==
            match c
            case 34 => "\\\""
            case 92 => "\\\\"
            case 8 => "\\b"
            case 9 => "\\t"
            case 10 => "\\n"
            case 12 => "\\f"
            case 13 => "\\r"
            case _ => if 32 <= c <= 126 then [c as char]
                      else if c < 0x10000 then FourDigits(c)
                      else FourDigits(0xD800 + (c - 0x10000) / 1024) + FourDigits(0xDC00 + (c - 0x10000) % 1024)
  {
    hide Unicode, FourDigits;
    if c < 0x10000 {
      UnicodeIs(c);
    } else {
      UnicodeIs(HighOf(c));
      UnicodeIs(LowOf(c));
    }
  }

  // ---------------------------------------------------------------- documents

  function ElemTexts(es: seq<Doc>): (r: seq<string>)
    ensures |r| == |es| && forall i :: 0 <= i < |es| ==> r[i] == Print(es[i])
  {
    seq(|es|, i requires 0 <= i < |es| => Print(es[i]))
  }

  function MemberTexts(ms: seq<Member>): (r: seq<string>)
    ensures |r| == |ms| && forall i :: 0 <= i < |ms| ==> r[i] == Quoted(ms[i].key) + ":" + Print(ms[i].value)
  {
    seq(|ms|, i requires 0 <= i < |ms| => Quoted(ms[i].key) + ":" + Print(ms[i].value))
  }

  lemma {:induction false} ElemsJoined(es: seq<Doc>)
    requires es != []
    ensures PrintElems(es) == JoinWith(ElemTexts(es), ",") + "]"
  {
    hide Print;
    var ts := ElemTexts(es);
    assert ts[0] == Print(es[0]);
    if |es| > 1 {
      ElemsJoined(es[1..]);
      assert ts[1..] == ElemTexts(es[1..]);
      Glue(ts[0], JoinWith(ts[1..], ","), "]");
    }
  }

  lemma {:induction false} MembersJoined(ms: seq<Member>)
    requires ms != []
    ensures PrintMembers(ms) == JoinWith(MemberTexts(ms), ",") + "}"
  {
    hide Print, Quoted;
    var ts := MemberTexts(ms);
    assert ts[0] == Quoted(ms[0].key) + ":" + Print(ms[0].value);
    if |ms| > 1 {
      MembersJoined(ms[1..]);
      assert ts[1..] == MemberTexts(ms[1..]);
      GlueMember(Quoted(ms[0].key), Print(ms[0].value), "," + PrintMembers(ms[1..]));
      Glue(ts[0], JoinWith(ts[1..], ","), "}");
    } else {
      GlueMember(Quoted(ms[0].key), Print(ms[0].value), "}");
    }
  }

  lemma Glue(a: string, b: string, end: string)
    ensures a + ("," + (b + end)) == a + "," + b + end
  {
  }

  lemma GlueMember(k: string, v: string, rest: string)
    ensures k + (":" + (v + rest)) == k + ":" + v + rest
  {
  }

  /** The text of every document: fixed words, decimal integers, quoted strings,
      and comma-separated elements and members without any white space. */
  lemma PrintExactly(d: Doc)
    ensures Print(d) ==
            match d
            case Null => "null"
            case Bool(b) => if b then "true" else "false"
            case Int(n) => if n < 0 then "-" + NatText(0 - n) else NatText(n)
            case Float(t) => t
            case Str(s) => "\"" + Escape(CodePoints(s)) + "\""
            case Arr(es) => "[" + JoinWith(ElemTexts(es), ",") + "]"
            case Obj(ms) => "{" + JoinWith(MemberTexts(ms), ",") + "}"
  {
    match d
    case Arr(es) =>
      if es == [] {
        assert ElemTexts(es) == [] && "[" + "" + "]" == "[]";
      } else {
        ElemsJoined(es);
      }
    case Obj(ms) =>
      if ms == [] {
        assert MemberTexts(ms) == [] && "{" + "" + "}" == "{}";
      } else {
        MembersJoined(ms);
      }
    case _ =>
  }
}
