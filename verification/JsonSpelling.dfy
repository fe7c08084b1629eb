// How characters, numbers and whole values are spelled, by the tables of RFC 8259 and RFC 3629.
module JsonSpelling {
  import opened Common
  import opened JsonText
  import opened JsonSpec
  import opened JsonRoundTrip
  import opened JsonProperties
  import Json

  // ---------------------------------------------------------------- characters

  lemma HexDigitsAre(c: char)
    ensures IsHex(c) <==> c in "0123456789abcdef" || c in "0123456789ABCDEF"
  {
  }

  lemma HexValuesAre(c: char)
    ensures forall n | 0 <= n < 16 :: c == "0123456789abcdef"[n] || c == "0123456789ABCDEF"[n] ==>
              IsHex(c) && HexValue(c) == n
  {
  }

  // The escape of any scalar value of four digits spells that value.
  lemma EscapeParses(u: nat, r: string)
    requires IsScalar(u) && u < 0x1_0000
    ensures ParseCodepoint(Hex4(u) + r) == Done(EncodeUtf8(u), r)
  {
    hide EncodeUtf8, ParseQuadHex, Hex4;
    Hex4Parses(u, r);
  }

  // The digits of an escape, or of a pair of them.
  function EscapeOf(u: nat): string
    requires IsScalar(u)
  {
    "\\u" + if u < 0x1_0000 then Hex4(u) else SurrogateEscapes(u)
  }

  // In a string every scalar value may be escaped.
  lemma EscapeInString(u: nat, r: string)
    requires IsScalar(u)
    ensures ParseString(EscapeOf(u) + r) == Prepend(EncodeUtf8(u), ParseString(r))
  {
    hide EncodeUtf8, ParseCodepoint, Hex4, SurrogateEscapes;
    var digits := if u < 0x1_0000 then Hex4(u) else SurrogateEscapes(u);
    if u < 0x1_0000 {
      EscapeParses(u, r);
    } else {
      SurrogatePairParses(u, r);
    }
    var t := EscapeOf(u) + r;
    assert t[1..] == "u" + (digits + r);
    assert t[1..][1..] == digits + r;
  }

  // The euro sign, and the clef of section 7 of RFC 8259.
  lemma EscapeExamples()
    ensures ParseString("\\u20ac\"") == Done([0xE2 as char, 0x82 as char, 0xAC as char], "")
    ensures ParseString("\\uD834\\uDD1E\"") == Done([0xF0 as char, 0x9D as char, 0x84 as char, 0x9E as char], "")
  {
    EscapedEuro();
    EscapedClef();
  }

  lemma ClosingQuote()
    ensures ParseString("\"") == Done("", "")
  {
  }

  lemma EscapedEuro()
    ensures ParseString("\\u20ac\"") == Done([0xE2 as char, 0x82 as char, 0xAC as char], "")
  {
    hide ParseString;
    EscapeInString(0x20AC, "\"");
    ClosingQuote();
    assert Hex4(0x20AC) == "20ac";
    assert EscapeOf(0x20AC) + "\"" == "\\u20ac\"";
    assert EncodeUtf8(0x20AC) + "" == [0xE2 as char, 0x82 as char, 0xAC as char];
  }

  // Digits in upper case.
  lemma EscapedClef()
    ensures ParseString("\\uD834\\uDD1E\"") == Done([0xF0 as char, 0x9D as char, 0x84 as char, 0x9E as char], "")
  {
    hide ParseString, ParseCodepoint;
    ClosingQuote();
    ClefCodepoint();
    StringEscape("\\uD834\\uDD1E\"", "D834\\uDD1E\"");
    assert EncodeUtf8(0x1D11E) + "" == [0xF0 as char, 0x9D as char, 0x84 as char, 0x9E as char];
  }

  lemma ClefCodepoint()
    ensures ParseCodepoint("D834\\uDD1E\"") == Done(EncodeUtf8(0x1D11E), "\"")
  {
    hide ParseQuadHex, EncodeUtf8;
    var r := "\\uDD1E\"";
    QuadHexOf("D834", r, 0xD834);
    QuadHexOf("DD1E", "\"", 0xDD1E);
    assert "D834" + r == "D834\\uDD1E\"" && r[2..] == "DD1E" + "\"";
  }

  lemma QuadHexOf(digits: string, r: string, n: nat)
    requires |digits| == 4 && forall i | 0 <= i < 4 :: IsHex(digits[i])
    requires n == HexValue(digits[0]) * 0x1000 + HexValue(digits[1]) * 0x100 + HexValue(digits[2]) * 0x10
                  + HexValue(digits[3])
    ensures ParseQuadHex(digits + r) == Done(n, r)
  {
    assert (digits + r)[4..] == r;
  }

  lemma StringEscape(s: string, t: string)
    requires s == "\\u" + t
    ensures ParseString(s) == var e := ParseCodepoint(t); if e.Fail? then e else Prepend(e.value, ParseString(e.rest))
  {
    hide ParseCodepoint;
    assert s[1..] == "u" + t && s[1..][1..] == t;
  }

  // The short escapes, by the number of the character they stand for.
  lemma ShortEscapes(i: nat, r: string)
    requires i < 8
    ensures ParseEscape(["\"\\/bfnrt"[i]] + r) == Done([[34, 92, 47, 8, 12, 10, 13, 9][i] as char], r)
  {
    assert (["\"\\/bfnrt"[i]] + r)[1..] == r;
  }

  // What the serializer makes of a character: a short escape, an escape of its number, or the character.
  lemma EscapedSpelling(c: char)
    ensures forall i | 0 <= i < 8 && c as int == [34, 92, 47, 8, 12, 10, 13, 9][i] ::
              Escaped(c) == ['\\', "\"\\/bfnrt"[i]]
    ensures (c as int < 32 || c as int == 127) && c as int !in [8, 12, 10, 13, 9] ==>
              Escaped(c) == "\\u" + Hex4(c as int)
    ensures 32 <= c as int && c as int != 127 && c as int !in [34, 92, 47] ==> Escaped(c) == [c]
  {
  }

  // The examples of section 7 of RFC 3629, and the clef above.
  lemma Utf8Examples()
    ensures EncodeUtf8(0x41) == [0x41 as char]
    ensures EncodeUtf8(0x391) == [0xCE as char, 0x91 as char]
    ensures EncodeUtf8(0x2262) == [0xE2 as char, 0x89 as char, 0xA2 as char]
    ensures EncodeUtf8(0x233B4) == [0xF0 as char, 0xA3 as char, 0x8E as char, 0xB4 as char]
  {
  }

  // Four characters of space are skipped in front of a value, and no others.
  lemma SpaceIsSkipped(c: char, t: string, depths: nat)
    ensures c as int in {32, 9, 10, 13} ==> ParseValue([c] + t, depths) == ParseValue(t, depths)
    ensures c as int !in {32, 9, 10, 13} ==> SkipSpace([c] + t) == [c] + t
  {
    hide ParseValue;
    assert ([c] + t)[1..] == t;
    OneValueSkips([c] + t, depths);
    OneValueSkips(t, depths);
  }

  // ---------------------------------------------------------------- numbers

  predicate Digits(t: string)
  {
    forall i | 0 <= i < |t| :: IsDigit(t[i])
  }

  // A number text: sign, digits, a point and more digits, and an exponent with a sign and digits. Point
  // and exponent may be missing.
  datatype Spelling = Spelling(sign: string, whole: string, point: bool, fraction: string, exponent: Option<Exponent>)

  datatype Exponent = Exponent(letter: char, sign: string, digits: string)

  predicate IsSign(s: string) { s == "" || s == "+" || s == "-" }

  predicate Proper(n: Spelling)
  {
    && IsSign(n.sign) && Digits(n.whole) && Digits(n.fraction) && n.whole + n.fraction != ""
    && (!n.point ==> n.fraction == "")
    && (n.exponent.Some? ==>
          var e := n.exponent.value;
          (e.letter == 'e' || e.letter == 'E') && IsSign(e.sign) && Digits(e.digits) && e.digits != "")
  }

  function ExponentText(e: Option<Exponent>): string
  {
    if e.None? then "" else [e.value.letter] + (e.value.sign + e.value.digits)
  }

  function NumberText(n: Spelling): string
  {
    n.sign + (n.whole + ((if n.point then "." else "") + (n.fraction + ExponentText(n.exponent))))
  }

  function Negated(sign: string, x: real): real { if sign == "-" then -x else x }

  function ExponentValue(e: Option<Exponent>): int
    requires e.Some? ==> Digits(e.value.digits)
  {
    if e.None? then 0
    else if e.value.sign == "-" then -(DigitsValue(e.value.digits) as int) else DigitsValue(e.value.digits)
  }

  // The number is that of all digits, scaled by the exponent less the number of digits behind the point.
  lemma NumberNotation(n: Spelling)
    requires Proper(n)
    ensures Strtod(NumberText(n))
         == Some(Scale(Negated(n.sign, DigitsValue(n.whole + n.fraction) as real),
                       ExponentValue(n.exponent) - |n.fraction|))
  {
    hide DigitsValue, Scale, Strtod, Digits, NumberText, ExponentText;
    var t := NumberText(n);
    var a := |n.sign|;
    var b := a + |n.whole|;
    var c := b + if n.point then 1 else 0;
    var d := c + |n.fraction|;
    TextPieces(n, t, a, b, c, d);
    Places(n, t, a, b, c, d);
    assert t[a..b] + t[c..d] == n.whole + n.fraction;
    if n.exponent.Some? {
      ExponentPlaces(n.exponent.value, t, d);
    } else {
      NoExponent();
    }
    StrtodAt(t, a, b, c, d);
    FirstOf(n, t);
  }

  lemma NoExponent()
    ensures ExponentText(None) == ""
  {
  }

  // The first character tells the sign.
  lemma FirstOf(n: Spelling, t: string)
    requires Proper(n) && t == NumberText(n)
    ensures t != "" && (t[0] == '-' <==> n.sign == "-")
  {
    hide ExponentText;
    if n.sign == "" && n.whole == "" {
      assert n.point;
    }
  }

  // Where the parts of the text end.
  lemma Places(n: Spelling, t: string, a: nat, b: nat, c: nat, d: nat)
    requires Proper(n) && a <= b <= c <= d <= |t|
    requires t[..a] == n.sign && t[a..b] == n.whole && t[c..d] == n.fraction && t[d..] == ExponentText(n.exponent)
    requires c == b + (if n.point then 1 else 0) && (n.point ==> t[b] == '.')
    ensures SignLength(t, 0) == a && DigitsEnd(t, a) == b && DigitsEnd(t, c) == d
    ensures b < |t| && t[b] == '.' <==> n.point
  {
    forall k | a <= k < b
      ensures IsDigit(t[k])
    {
      assert t[k] == n.whole[k - a];
    }
    forall k | c <= k < d
      ensures IsDigit(t[k])
    {
      assert t[k] == n.fraction[k - c];
    }
    assert d < |t| ==> t[d] == t[d..][0] == n.exponent.value.letter;
    DigitsEndAt(t, c, d);
    if !n.point {
      assert b == c == d;
    }
    DigitsEndAt(t, a, b);
    assert a > 0 ==> t[0] == n.sign[0];
    assert a == 0 && b > 0 ==> t[0] == n.whole[0];
    assert a == b == 0 ==> n.point;
  }

  lemma ExponentPlaces(e: Exponent, t: string, d: nat)
    requires d <= |t| && t[d..] == ExponentText(Some(e))
    requires (e.letter == 'e' || e.letter == 'E') && IsSign(e.sign) && Digits(e.digits) && e.digits != ""
    ensures d < |t| && t[d] == e.letter
    ensures var p := d + 1 + SignLength(t, d + 1);
            && p < |t| && t[p..] == e.digits && DigitsEnd(t, p) == |t|
            && (t[d + 1] == '-' <==> e.sign == "-")
  {
    var x := e.sign + e.digits;
    Parts([e.letter], x);
    Parts(e.sign, e.digits);
    assert t[d..][0] == e.letter && t[d + 1..] == t[d..][1..] == x;
    var p := d + 1 + |e.sign|;
    assert t[p..] == x[|e.sign|..] == e.digits;
    forall k | p <= k < |t|
      ensures IsDigit(t[k])
    {
      assert t[k] == t[p..][k - p];
    }
    assert t[d + 1] == x[0];
    DigitsEndAt(t, p, |t|);
  }

  // strtod, by the places where the parts end.
  lemma StrtodAt(t: string, a: nat, b: nat, c: nat, d: nat)
    requires a <= b <= c <= d <= |t| && SignLength(t, 0) == a && DigitsEnd(t, a) == b && DigitsEnd(t, c) == d
    requires c == (if b < |t| && t[b] == '.' then b + 1 else b) && t[a..b] + t[c..d] != ""
    requires d < |t| ==>
               && (t[d] == 'e' || t[d] == 'E')
               && var p := d + 1 + SignLength(t, d + 1); p < |t| && DigitsEnd(t, p) == |t|
    ensures var x := DigitsValue(t[a..b] + t[c..d]) as real;
            var number := if t[0] == '-' then -x else x;
            Strtod(t)
            == Some(Scale(number, (if d == |t| then 0
                                   else
                                     var e: int := DigitsValue(t[d + 1 + SignLength(t, d + 1)..]);
                                     if t[d + 1] == '-' then -e else e) - (d - c)))
  {
    hide DigitsValue, Scale, DigitsEnd;
    if d < |t| {
      ToTheEnd(t, d + 1 + SignLength(t, d + 1));
    }
  }

  lemma ToTheEnd(t: string, p: nat)
    requires p <= |t|
    ensures t[p..|t|] == t[p..]
  {
  }

  lemma TextPieces(n: Spelling, t: string, a: nat, b: nat, c: nat, d: nat)
    requires Proper(n) && t == NumberText(n) && a == |n.sign| && b == a + |n.whole|
    requires c == b + (if n.point then 1 else 0) && d == c + |n.fraction|
    ensures d <= |t| && t[..a] == n.sign && t[a..b] == n.whole && t[c..d] == n.fraction
    ensures n.point ==> t[b] == '.'
    ensures t[d..] == ExponentText(n.exponent)
  {
    hide Proper, ExponentText;
    var point := if n.point then "." else "";
    FivePieces(t, n.sign, n.whole, point, n.fraction, ExponentText(n.exponent));
    assert n.point ==> t[b] == t[b..c][0];
  }

  lemma FivePieces(t: string, u: string, v: string, w: string, x: string, y: string)
    requires t == u + (v + (w + (x + y)))
    ensures var (a, b, c) := (|u|, |u| + |v|, |u| + |v| + |w|);
            && c + |x| <= |t| && t[..a] == u && t[a..b] == v && t[b..c] == w
            && t[c..c + |x|] == x && t[c + |x|..] == y
  {
    assert t[0..] == t;
    SplitAt(t, 0, u, v + (w + (x + y)));
    SplitAt(t, |u|, v, w + (x + y));
    SplitAt(t, |u| + |v|, w, x + y);
    SplitAt(t, |u| + |v| + |w|, x, y);
  }

  lemma NumberExamples()
    ensures Strtod("-12.5e1") == Some(-125.0) && Strtod("25E-2") == Some(0.25) && Strtod("1.5e+2") == Some(150.0)
  {
    hide Strtod, DigitsValue, Scale;
    SmallNumbers();
    PowersOfTen();
    Example(Spelling("-", "12", true, "5", Some(Exponent('e', "", "1"))), "-12.5e1", "125");
    Example(Spelling("", "25", false, "", Some(Exponent('E', "-", "2"))), "25E-2", "25");
    Example(Spelling("", "1", true, "5", Some(Exponent('e', "+", "2"))), "1.5e+2", "15");
  }

  lemma Example(n: Spelling, t: string, digits: string)
    requires Proper(n) && NumberText(n) == t && n.whole + n.fraction == digits && Digits(digits)
    ensures Strtod(t) == Some(Scale(Negated(n.sign, DigitsValue(digits) as real),
                                    ExponentValue(n.exponent) - |n.fraction|))
  {
    hide NumberText, Scale, DigitsValue;
    NumberNotation(n);
  }

  lemma SmallNumbers()
    ensures DigitsValue("125") == 125 && DigitsValue("25") == 25 && DigitsValue("15") == 15
    ensures DigitsValue("1") == 1 && DigitsValue("2") == 2
  {
    assert "125"[..2] == "12" && "12"[..1] == "1" && "1"[..0] == "" && "25"[..1] == "2" && "2"[..0] == "";
    assert "15"[..1] == "1";
    assert DigitsValue("12") == 12;
  }

  lemma PowersOfTen()
    ensures Scale(-125.0, 0) == -125.0 && Scale(25.0, -2) == 0.25 && Scale(15.0, 1) == 150.0
  {
    assert Power10(2) == 100.0;
  }

  // ---------------------------------------------------------------- a whole value

  const LIST := Array([Null, Boolean(true), Boolean(false), Number(-12.0)])

  const EXAMPLE := Object([Member("a", LIST), Member("b", String("x\n"))])

  lemma ExampleIsPrintable()
    ensures Printable(EXAMPLE) && Ordered(EXAMPLE) && Printable(LIST) && Fits(EXAMPLE, MAX_DEPTHS)
  {
    assert Printable(LIST) && Ordered(LIST) && Fits(LIST, MAX_DEPTHS);
    assert Less("a", "b");
  }

  lemma Item(x: Value, more: seq<Value>, k: int, first: bool)
    requires Printable(x) && forall i | 0 <= i < |more| :: Printable(more[i])
    ensures ItemsText([x] + more, k, first)
         == Separator(first) + (Indentation(k) + (Body(x, k) + ItemsText(more, k, false)))
  {
    hide Body, Indentation;
    assert ([x] + more)[1..] == more;
  }

  lemma NoItem(k: int)
    ensures ItemsText([], k, false) == ""
  {
  }

  lemma ScalarTexts(k: int)
    ensures Body(Null, k) == "null" && Body(Boolean(true), k) == "true" && Body(Boolean(false), k) == "false"
    ensures Body(Number(-12.0), k) == "-12"
  {
  }

  // The list, with s between its items.
  lemma ListItems(k: int, s: string)
    requires Printable(LIST) && s == Indentation(k)
    ensures ItemsText(LIST.items, k, true)
         == s + ("null" + ("," + (s + ("true" + ("," + (s + ("false" + ("," + (s + "-12")))))))))
  {
    hide ItemsText, Body, Indentation;
    var (a, b, c, d) := (Null, Boolean(true), Boolean(false), Number(-12.0));
    ScalarTexts(k);
    NoItem(k);
    Item(d, [], k, false);
    Item(c, [d], k, false);
    Item(b, [c, d], k, false);
    Item(a, [b, c, d], k, true);
    assert [d] + [] == [d] && [c] + [d] == [c, d] && [b] + [c, d] == [b, c, d] && [a] + [b, c, d] == LIST.items;
    assert "-12" + "" == "-12";
    Neutral(s + ("null" + ("," + (s + ("true" + ("," + (s + ("false" + ("," + (s + "-12"))))))))));
  }

  // The members, with s in front of each and gap behind the colon.
  lemma ExampleMembers(k: int, s: string, gap: string, list: string)
    requires Printable(EXAMPLE) && Printable(LIST) && s == Indentation(k) && gap == Gap(k) && list == Body(LIST, k)
    ensures MembersText(EXAMPLE.members, k, true)
         == s + ("\"a\"" + (":" + (gap + (list + ("," + (s + ("\"b\"" + (":" + (gap + "\"x\\n\"")))))))))
  {
    hide MembersText, Body, Indentation, Quoted, Gap;
    var (a, b) := (Member("a", LIST), Member("b", String("x\n")));
    QuotedTexts(k);
    NoMember(k);
    OneMember(b, [], k, false);
    OneMember(a, [b], k, true);
    assert [b] + [] == [b] && [a] + [b] == EXAMPLE.members;
    Neutral("\"x\\n\"");
    Neutral(s + ("\"a\"" + (":" + (gap + (list + ("," + (s + ("\"b\"" + (":" + (gap + "\"x\\n\""))))))))));
  }

  lemma OneMember(m: Member, more: seq<Member>, k: int, first: bool)
    requires Printable(m.value) && forall i | 0 <= i < |more| :: Printable(more[i].value)
    ensures MembersText([m] + more, k, first)
         == Separator(first)
            + (Indentation(k) + (Quoted(m.key) + (":" + (Gap(k) + (Body(m.value, k) + MembersText(more, k, false))))))
  {
    hide Body, Indentation, Quoted, Gap;
    assert ([m] + more)[1..] == more;
  }

  lemma NoMember(k: int)
    ensures MembersText([], k, false) == ""
  {
  }

  lemma QuotedTexts(k: int)
    ensures Quoted("a") == "\"a\"" && Quoted("b") == "\"b\"" && Body(String("x\n"), k) == "\"x\\n\""
  {
    assert "a"[1..] == "" && "b"[1..] == "" && "x\n"[1..] == "\n" && "\n"[1..] == "";
    assert EscapedText("\n") == "\\n";
    assert EscapedText("x\n") == "x\\n";
  }

  lemma CompactExample()
    requires Printable(EXAMPLE) && Printable(LIST)
    ensures Text(EXAMPLE, false) == "{\"a\":[null,true,false,-12]" + ",\"b\":\"x\\n\"}"
  {
    hide ItemsText, MembersText, Body;
    ListItems(-1, "");
    CompactList();
    BodyOfList(-1);
    ExampleMembers(-1, "", "", "[null,true,false,-12]");
    BodyOfExample(-1);
    CompactMembers();
    CompactBraces();
  }

  lemma BodyOfList(indent: int)
    requires Printable(LIST)
    ensures Body(LIST, indent) == "[" + (ItemsText(LIST.items, Deeper(indent), true) + (Indentation(indent) + "]"))
  {
    hide ItemsText, Indentation;
  }

  lemma BodyOfExample(indent: int)
    requires Printable(EXAMPLE)
    ensures Body(EXAMPLE, indent)
         == "{" + (MembersText(EXAMPLE.members, Deeper(indent), true) + (Indentation(indent) + "}"))
  {
    hide MembersText, Indentation;
  }

  lemma CompactList()
    ensures "" + ("null" + ("," + ("" + ("true" + ("," + ("" + ("false" + ("," + ("" + "-12")))))))))
         == "null,true,false,-12"
    ensures "[" + ("null,true,false,-12" + ("" + "]")) == "[null,true,false,-12]"
  {
  }

  lemma CompactMembers()
    ensures "" + ("\"a\"" + (":" + ("" + ("[null,true,false,-12]"
                  + ("," + ("" + ("\"b\"" + (":" + ("" + "\"x\\n\"")))))))))
         == "\"a\":[null,true,false,-12]" + ",\"b\":\"x\\n\""
  {
  }

  lemma CompactBraces()
    ensures "{" + ("\"a\":[null,true,false,-12]" + ",\"b\":\"x\\n\"" + ("" + "}"))
         == "{\"a\":[null,true,false,-12]" + ",\"b\":\"x\\n\"}"
  {
  }

  lemma PrettyExample()
    requires Printable(EXAMPLE) && Printable(LIST)
    ensures Text(EXAMPLE, true)
         == "{\n  \"a\": " + ("[\n    null,\n    true," + "\n    false,\n    -12\n  ]")
            + ",\n  \"b\": \"x\\n\"\n}\n"
  {
    hide ItemsText, MembersText, Body, Indentation;
    Indentations();
    ListItems(2, "\n    ");
    PrettyList();
    BodyOfList(1);
    var list := "[\n    null,\n    true," + "\n    false,\n    -12\n  ]";
    ExampleMembers(1, "\n  ", " ", list);
    BodyOfExample(0);
    PrettyMembers(list);
  }

  lemma PrettyList()
    ensures var s := "\n    ";
            "[" + (s + ("null" + ("," + (s + ("true" + ("," + (s + ("false" + ("," + (s + "-12")))))))))
                   + ("\n  " + "]"))
            == "[\n    null,\n    true," + "\n    false,\n    -12\n  ]"
  {
  }

  lemma PrettyMembers(list: string)
    ensures var s := "\n  ";
            "{" + (s + ("\"a\"" + (":" + (" " + (list + ("," + (s + ("\"b\"" + (":" + (" " + "\"x\\n\"")))))))))
                   + ("\n" + "}")) + "\n"
            == "{\n  \"a\": " + list + ",\n  \"b\": \"x\\n\"\n}\n"
  {
    var s := "\n  ";
    var tail := "," + (s + ("\"b\"" + (":" + (" " + "\"x\\n\""))));
    assert tail + ("\n" + "}") + "\n" == ",\n  \"b\": \"x\\n\"\n}\n";
    PrettyHead(list, tail, "\n" + "}");
  }

  lemma PrettyHead(list: string, tail: string, close: string)
    ensures "{" + ("\n  " + ("\"a\"" + (":" + (" " + (list + tail)))) + close) + "\n"
         == "{\n  \"a\": " + list + (tail + close + "\n")
  {
    assert "{" + "\n  " + "\"a\"" + ":" + " " == "{\n  \"a\": ";
  }

  lemma Indentations()
    ensures Indentation(0) == "\n" && Indentation(1) == "\n  " && Indentation(2) == "\n    "
  {
  }

  // A value with its compact and its prettified text; the compact one is read back to it.
  lemma WholeExample()
    ensures var v := Object([Member("a", Array([Null, Boolean(true), Boolean(false), Number(-12.0)])),
                             Member("b", String("x\n"))]);
            && Printable(v)
            && Text(v, false) == "{\"a\":[null,true,false,-12]" + ",\"b\":\"x\\n\"}"
            && ParseValue("{\"a\":[null,true,false,-12]" + ",\"b\":\"x\\n\"}", 100) == Done(v, "")
            && Text(v, true)
               == "{\n  \"a\": " + ("[\n    null,\n    true," + "\n    false,\n    -12\n  ]")
                  + ",\n  \"b\": \"x\\n\"\n}\n"
  {
    hide Text, ParseValue, Printable, Ordered, Fits;
    ExampleIsPrintable();
    CompactExample();
    PrettyExample();
    ParseInvertsSerialize(EXAMPLE, false, MAX_DEPTHS);
    assert EXAMPLE == Object([Member("a", Array([Null, Boolean(true), Boolean(false), Number(-12.0)])),
                              Member("b", String("x\n"))]);
    assert ParseValue(Text(EXAMPLE, false), 100) == Done(EXAMPLE, "");
  }

  // ---------------------------------------------------------------- errors

  // An error on the second line: the message quotes the printable rest of that line, and the next line is
  // where reading ends.
  lemma ErrorExample()
    ensures ParseValue("\n}\t!\nz", 100) == Fail("}\t!\nz", false)
    ensures Json.Complaint("\n}\t!\nz", 1, "}\t!\nz") == "syntax error at line " + Decimal(2) + " near: " + "}!"
    ensures Json.AfterLine("}\t!\nz") == "z"
  {
    var t := "}\t!\nz";
    assert ["\n"[0]] + t == "\n}\t!\nz";
    BraceFails(t);
    SpaceIsSkipped('\n', t, 100);
    RestOfLine();
    assert "\n}\t!\nz"[..1] == "\n" && "\n"[..0] == "";
    assert Newlines("\n") == 1;
  }

  lemma BraceFails(t: string)
    requires t != "" && t[0] == '}'
    ensures ParseValue(t, 100) == Fail(t, false)
  {
  }

  lemma RestOfLine()
    ensures Json.Near("}\t!\nz") == "}!" && Json.AfterLine("}\t!\nz") == "z"
  {
    var t := "}\t!\nz";
    assert t[1..] == "\t!\nz" && t[1..][1..] == "!\nz" && t[1..][1..][1..] == "\nz" && "\nz"[1..] == "z";
    assert Json.Near("\nz") == "" && Json.Near("!\nz") == "!" && Json.Near("\t!\nz") == "!";
  }
}
