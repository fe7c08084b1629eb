// The grammar of the texts the parser accepts, as trees that keep every octet of the text: space, digits
// and escapes. The parser accepts exactly the texts of well-spelled trees and yields their values.
module JsonGrammar {
  import opened Common
  import opened JsonText
  import opened JsonSpec
  import opened JsonRoundTrip
  import opened JsonProperties
  import opened JsonSpelling

  // ---------------------------------------------------------------- the grammar

  // What a string consists of: characters, short escapes, escapes of one unit and of surrogate pairs.
  datatype Piece = Plain(c: char) | Short(i: nat) | Unit(digits: string) | Pair(high: string, low: string)

  datatype Phrase =
    | NullWord
    | TrueWord
    | FalseWord
    | Numeral(n: Spelling)
    | Quotation(pieces: seq<Piece>)
    | List(items: seq<Item>, gap: string)
    | Record(entries: seq<Entry>, gap: string)

  // A value with the space around it; gap is the space in an empty array or object.
  datatype Item = Item(front: string, phrase: Phrase, back: string)

  datatype Entry = Entry(before: string, key: seq<Piece>, behind: string, item: Item)

  predicate Space(w: string)
  {
    forall i | 0 <= i < |w| :: w[i] as int in {32, 9, 10, 13}
  }

  predicate FourDigits(d: string)
  {
    |d| == 4 && forall i | 0 <= i < 4 :: IsHex(d[i])
  }

  function UnitNumber(d: string): (n: nat)
    requires FourDigits(d)
    ensures n < 0x1_0000
  {
    HexValue(d[0]) * 0x1000 + HexValue(d[1]) * 0x100 + HexValue(d[2]) * 0x10 + HexValue(d[3])
  }

  // No control characters; units are no surrogates, and surrogates come in pairs.
  predicate GoodPiece(p: Piece)
  {
    match p
    case Plain(c) => c as int >= 32 && c != '"' && c != '\\'
    case Short(i) => i < 8
    case Unit(d) => FourDigits(d) && IsScalar(UnitNumber(d))
    case Pair(h, l) =>
      FourDigits(h) && FourDigits(l) && 0xD800 <= UnitNumber(h) < 0xDC00 && 0xDC00 <= UnitNumber(l) < 0xE000
  }

  predicate GoodPieces(ps: seq<Piece>)
  {
    forall i | 0 <= i < |ps| :: GoodPiece(ps[i])
  }

  // A point may stand without digits on one side of it, and zeros may lead; a plus sign may not.
  predicate GoodNumeral(n: Spelling)
  {
    Proper(n) && (n.sign == "-" || (n.sign == "" && n.whole != ""))
  }

  predicate WellSpelled(k: Phrase)
  {
    match k
    case Numeral(n) => GoodNumeral(n)
    case Quotation(ps) => GoodPieces(ps)
    case List(items, gap) =>
      Space(gap) && forall i | 0 <= i < |items| ::
        Space(items[i].front) && WellSpelled(items[i].phrase) && Space(items[i].back)
    case Record(entries, gap) =>
      Space(gap) && forall i | 0 <= i < |entries| ::
        && Space(entries[i].before) && GoodPieces(entries[i].key) && Space(entries[i].behind)
        && Space(entries[i].item.front) && WellSpelled(entries[i].item.phrase) && Space(entries[i].item.back)
    case _ => true
  }

  // An array uses one unit of the budget; an object needs one and uses none.
  predicate Affordable(k: Phrase, depths: nat)
  {
    match k
    case List(items, _) => depths > 0 && forall i | 0 <= i < |items| :: Affordable(items[i].phrase, depths - 1)
    case Record(entries, _) =>
      depths > 0 && forall i | 0 <= i < |entries| :: Affordable(entries[i].item.phrase, depths)
    case _ => true
  }

  // ---------------------------------------------------------------- texts

  // The text of a piece, of a value and so on, in front of r.
  function PieceBefore(p: Piece, r: string): string
    requires GoodPiece(p)
  {
    match p
    case Plain(c) => [c] + r
    case Short(i) => ['\\', "\"\\/bfnrt"[i]] + r
    case Unit(d) => "\\u" + (d + r)
    case Pair(h, l) => "\\u" + (h + ("\\u" + (l + r)))
  }

  function PiecesBefore(ps: seq<Piece>, r: string): string
    requires GoodPieces(ps)
  {
    if ps == [] then "\"" + r else PieceBefore(ps[0], PiecesBefore(ps[1..], r))
  }

  function PhraseBefore(k: Phrase, r: string): string
    requires WellSpelled(k)
    decreases k, 1
  {
    match k
    case NullWord => "null" + r
    case TrueWord => "true" + r
    case FalseWord => "false" + r
    case Numeral(n) => NumberText(n) + r
    case Quotation(ps) => "\"" + PiecesBefore(ps, r)
    case List(items, gap) => "[" + if items == [] then gap + ("]" + r) else ItemsBefore(items, r)
    case Record(entries, gap) => "{" + if entries == [] then gap + ("}" + r) else EntriesBefore(entries, r)
  }

  function ItemsBefore(items: seq<Item>, r: string): string
    requires items != [] && WellSpelled(List(items, ""))
    decreases items, 0
  {
    var more := if |items| == 1 then "]" + r else "," + ItemsBefore(items[1..], r);
    items[0].front + PhraseBefore(items[0].phrase, items[0].back + more)
  }

  function EntriesBefore(entries: seq<Entry>, r: string): string
    requires entries != [] && WellSpelled(Record(entries, ""))
    decreases entries, 0
  {
    var e := entries[0];
    var more := if |entries| == 1 then "}" + r else "," + EntriesBefore(entries[1..], r);
    e.before + ("\"" + PiecesBefore(e.key, e.behind + (":" + (e.item.front
                                                            + PhraseBefore(e.item.phrase, e.item.back + more)))))
  }

  // r stays as it is.
  lemma {:induction false} PiecesThenRest(ps: seq<Piece>, r: string)
    requires GoodPieces(ps)
    ensures PiecesBefore(ps, r) == PiecesBefore(ps, "") + r
    decreases |ps|
  {
    if ps == [] {
      Neutral("\"");
    } else {
      hide GoodPiece;
      PiecesThenRest(ps[1..], r);
      PieceThenRest(ps[0], PiecesBefore(ps[1..], ""), r);
    }
  }

  lemma PieceThenRest(p: Piece, s: string, r: string)
    requires GoodPiece(p)
    ensures PieceBefore(p, s + r) == PieceBefore(p, s) + r
  {
    match p {
      case Plain(c) => Associative([c], s, r);
      case Short(i) => Associative(['\\', "\"\\/bfnrt"[i]], s, r);
      case Unit(d) =>
        Associative(d, s, r);
        Associative("\\u", d + s, r);
      case Pair(h, l) =>
        Associative(l, s, r);
        Associative("\\u", l + s, r);
        Associative(h, "\\u" + (l + s), r);
        Associative("\\u", h + ("\\u" + (l + s)), r);
    }
  }

  lemma {:induction false} PhraseThenRest(k: Phrase, s: string, r: string)
    requires WellSpelled(k)
    ensures PhraseBefore(k, s + r) == PhraseBefore(k, s) + r
    decreases k, 1
  {
    hide PiecesBefore, ItemsBefore, EntriesBefore, NumberText;
    match k {
      case NullWord => Associative("null", s, r);
      case TrueWord => Associative("true", s, r);
      case FalseWord => Associative("false", s, r);
      case Numeral(n) => Associative(NumberText(n), s, r);
      case Quotation(ps) =>
        PiecesThenRest(ps, s + r);
        PiecesThenRest(ps, s);
        Associative(PiecesBefore(ps, ""), s, r);
        Associative("\"", PiecesBefore(ps, s), r);
      case List(items, gap) =>
        if items == [] {
          Associative("]", s, r);
          Associative(gap, "]" + s, r);
          Associative("[", gap + ("]" + s), r);
        } else {
          ItemsThenRest(items, s, r);
          Associative("[", ItemsBefore(items, s), r);
        }
      case Record(entries, gap) =>
        if entries == [] {
          Associative("}", s, r);
          Associative(gap, "}" + s, r);
          Associative("{", gap + ("}" + s), r);
        } else {
          EntriesThenRest(entries, s, r);
          Associative("{", EntriesBefore(entries, s), r);
        }
    }
  }

  lemma {:induction false} ItemsThenRest(items: seq<Item>, s: string, r: string)
    requires items != [] && WellSpelled(List(items, ""))
    ensures ItemsBefore(items, s + r) == ItemsBefore(items, s) + r
    decreases items, 0
  {
    hide PhraseBefore;
    var i := items[0];
    var more := if |items| == 1 then "]" + s else "," + ItemsBefore(items[1..], s);
    if |items| == 1 {
      Associative("]", s, r);
    } else {
      ItemsThenRest(items[1..], s, r);
      Associative(",", ItemsBefore(items[1..], s), r);
    }
    Associative(i.back, more, r);
    PhraseThenRest(i.phrase, i.back + more, r);
    Associative(i.front, PhraseBefore(i.phrase, i.back + more), r);
  }

  lemma {:induction false} EntriesThenRest(entries: seq<Entry>, s: string, r: string)
    requires entries != [] && WellSpelled(Record(entries, ""))
    ensures EntriesBefore(entries, s + r) == EntriesBefore(entries, s) + r
    decreases entries, 0
  {
    hide PhraseBefore, PiecesBefore;
    var e := entries[0];
    var more := if |entries| == 1 then "}" + s else "," + EntriesBefore(entries[1..], s);
    if |entries| == 1 {
      Associative("}", s, r);
    } else {
      EntriesThenRest(entries[1..], s, r);
      Associative(",", EntriesBefore(entries[1..], s), r);
    }
    Associative(e.item.back, more, r);
    var t := PhraseBefore(e.item.phrase, e.item.back + more);
    PhraseThenRest(e.item.phrase, e.item.back + more, r);
    Associative(e.item.front, t, r);
    Associative(":", e.item.front + t, r);
    Associative(e.behind, ":" + (e.item.front + t), r);
    var u := e.behind + (":" + (e.item.front + t));
    PiecesThenRest(e.key, u + r);
    PiecesThenRest(e.key, u);
    Associative(PiecesBefore(e.key, ""), u, r);
    Associative("\"", PiecesBefore(e.key, u), r);
    Associative(e.before, "\"" + PiecesBefore(e.key, u), r);
  }

  // The text of a value, and with what follows.
  function PhraseText(k: Phrase): string
    requires WellSpelled(k)
  {
    PhraseBefore(k, "")
  }

  lemma TextThenRest(k: Phrase, r: string)
    requires WellSpelled(k)
    ensures PhraseBefore(k, r) == PhraseText(k) + r
  {
    hide PhraseBefore, WellSpelled;
    PhraseThenRest(k, "", r);
    Neutral(r);
  }

  // ---------------------------------------------------------------- meanings

  function PieceMeaning(p: Piece): string
    requires GoodPiece(p)
  {
    match p
    case Plain(c) => [c]
    case Short(i) => [[34, 92, 47, 8, 12, 10, 13, 9][i] as char]
    case Unit(d) => EncodeUtf8(UnitNumber(d))
    case Pair(h, l) => EncodeUtf8(0x1_0000 + (UnitNumber(h) - 0xD800) * 0x400 + (UnitNumber(l) - 0xDC00))
  }

  function PiecesMeaning(ps: seq<Piece>): string
    requires GoodPieces(ps)
  {
    if ps == [] then "" else PieceMeaning(ps[0]) + PiecesMeaning(ps[1..])
  }

  function ValueOf(k: Phrase): Value
    requires WellSpelled(k)
    decreases k, 1
  {
    match k
    case NullWord => Null
    case TrueWord => Boolean(true)
    case FalseWord => Boolean(false)
    case Numeral(n) => Number(NumeralValue(n))
    case Quotation(ps) => String(PiecesMeaning(ps))
    case List(items, _) => Array(ValuesOf(items))
    case Record(entries, _) => Object(InsertAll([], MembersOf(entries)))
  }

  function NumeralValue(n: Spelling): real
    requires Proper(n)
  {
    Scale(Negated(n.sign, DigitsValue(n.whole + n.fraction) as real), ExponentValue(n.exponent) - |n.fraction|)
  }

  function ValuesOf(items: seq<Item>): seq<Value>
    requires WellSpelled(List(items, ""))
    decreases items, 0
  {
    if items == [] then [] else [ValueOf(items[0].phrase)] + ValuesOf(items[1..])
  }

  function MembersOf(entries: seq<Entry>): seq<Member>
    requires WellSpelled(Record(entries, ""))
    decreases entries, 0
  {
    if entries == [] then []
    else [Member(PiecesMeaning(entries[0].key), ValueOf(entries[0].item.phrase))] + MembersOf(entries[1..])
  }

  // ---------------------------------------------------------------- space

  lemma SpaceIsBlank(w: string)
    ensures Space(w) <==> Blank(w)
  {
  }

  lemma SpaceSkipped(w: string, c: char, r: string)
    requires Space(w) && !IsSpace(c)
    ensures SkipSpace(w + ([c] + r)) == [c] + r
  {
    SpaceIsBlank(w);
    SkipToChar(w, c, r);
  }

  lemma {:induction false} SpaceInFront(t: string) returns (w: string)
    ensures Space(w) && t == w + SkipSpace(t)
    decreases |t|
  {
    if t != "" && IsSpace(t[0]) {
      var v := SpaceInFront(t[1..]);
      w := [t[0]] + v;
      assert t == [t[0]] + t[1..];
    } else {
      w := "";
    }
  }

  // An expected character and the space in front of it.
  lemma {:induction false} ExpectedInFront(t: string, c: char) returns (w: string)
    requires Expects(t, c)
    ensures Space(w) && t == w + ([c] + AfterExpected(t, c))
  {
    hide SkipSpace;
    w := SpaceInFront(t);
    var s := SkipSpace(t);
    assert s == [c] + s[1..];
  }

  lemma ExpectedAfterSpace(w: string, c: char, r: string)
    requires Space(w) && !IsSpace(c)
    ensures Expects(w + ([c] + r), c) && AfterExpected(w + ([c] + r), c) == r
    ensures forall d | d != c :: !Expects(w + ([c] + r), d) && AfterExpected(w + ([c] + r), d) == [c] + r
  {
    SpaceSkipped(w, c, r);
    assert ([c] + r)[1..] == r;
  }

  // ---------------------------------------------------------------- strings

  lemma UnitParses(d: string, r: string)
    requires FourDigits(d)
    ensures ParseQuadHex(d + r) == Done(UnitNumber(d), r)
  {
    QuadHexOf(d, r, UnitNumber(d));
  }

  lemma CodepointParses(p: Piece, t: string, r: string)
    requires GoodPiece(p) && (p.Unit? || p.Pair?) && PieceBefore(p, r) == "\\u" + t
    ensures ParseCodepoint(t) == Done(PieceMeaning(p), r)
  {
    hide ParseQuadHex, EncodeUtf8, UnitNumber;
    Parts("\\u", t);
    match p {
      case Unit(d) =>
        Parts("\\u", d + r);
        UnitParses(d, r);
      case Pair(h, l) =>
        var tail := "\\u" + (l + r);
        Parts("\\u", h + tail);
        Parts("\\u", l + r);
        UnitParses(h, tail);
        UnitParses(l, r);
    }
  }

  lemma PieceParses(p: Piece, r: string)
    requires GoodPiece(p)
    ensures ParseString(PieceBefore(p, r)) == Prepend(PieceMeaning(p), ParseString(r))
  {
    hide ParseCodepoint, EncodeUtf8;
    var t := PieceBefore(p, r);
    match p {
      case Plain(c) => Parts([c], r);
      case Short(i) =>
        ShortEscapes(i, r);
        assert t[1..] == ["\"\\/bfnrt"[i]] + r;
      case _ =>
        var digits := t[2..];
        assert t == "\\u" + digits;
        CodepointParses(p, digits, r);
        StringEscape(t, digits);
    }
  }

  lemma {:induction false} PiecesParse(ps: seq<Piece>, r: string)
    requires GoodPieces(ps)
    ensures ParseString(PiecesBefore(ps, r)) == Done(PiecesMeaning(ps), r)
    decreases |ps|
  {
    hide PieceBefore, PieceMeaning, GoodPiece;
    if ps == [] {
      Parts("\"", r);
    } else {
      hide ParseString;
      PieceParses(ps[0], PiecesBefore(ps[1..], r));
      PiecesParse(ps[1..], r);
    }
  }

  // The piece an accepted string starts with.
  lemma PieceInFront(t: string) returns (p: Piece, r: string)
    requires ParseString(t).Done? && t[0] != '"'
    ensures GoodPiece(p) && t == PieceBefore(p, r) && |r| < |t| && ParseString(r).Done?
    ensures ParseString(t) == Prepend(PieceMeaning(p), ParseString(r))
  {
    hide ParseCodepoint, EncodeUtf8;
    if t[0] != '\\' {
      p, r := Plain(t[0]), t[1..];
      assert t == [t[0]] + r;
    } else if t[1] == 'u' {
      p, r := CodepointInFront(t[2..]);
      assert t[1..][1..] == t[2..];
      assert t == "\\u" + t[2..];
    } else {
      var i := ShortEscapeInFront(t[1..]);
      p, r := Short(i), t[2..];
      assert t[1..][1..] == r;
      assert t == ['\\', t[1]] + r;
    }
  }

  lemma ShortEscapeInFront(t: string) returns (i: nat)
    requires ParseEscape(t).Done? && t[0] != 'u'
    ensures i < 8 && t[0] == "\"\\/bfnrt"[i] && ParseEscape(t) == Done(PieceMeaning(Short(i)), t[1..])
  {
    i := match t[0]
      case '"' => 0
      case '\\' => 1
      case '/' => 2
      case 'b' => 3
      case 'f' => 4
      case 'n' => 5
      case 'r' => 6
      case _ => 7;
    ShortEscapes(i, t[1..]);
    assert t == [t[0]] + t[1..];
  }

  lemma UnitInFront(t: string) returns (d: string)
    requires ParseQuadHex(t).Done?
    ensures FourDigits(d) && t == d + t[4..] && ParseQuadHex(t) == Done(UnitNumber(d), t[4..])
  {
    d := t[..4];
  }

  lemma CodepointInFront(t: string) returns (p: Piece, r: string)
    requires ParseCodepoint(t).Done?
    ensures GoodPiece(p) && "\\u" + t == PieceBefore(p, r) && |r| < |t|
    ensures ParseCodepoint(t) == Done(PieceMeaning(p), r)
  {
    hide EncodeUtf8, ParseQuadHex, FourDigits, UnitNumber;
    var d := UnitInFront(t);
    if 0xD800 <= UnitNumber(d) < 0xDC00 {
      var s := t[4..];
      var l := UnitInFront(s[2..]);
      r := s[2..][4..];
      assert s == "\\u" + s[2..];
      p := Pair(d, l);
    } else {
      p, r := Unit(d), t[4..];
    }
  }

  // Every accepted string consists of good pieces.
  lemma {:induction false} StringIsSpelled(t: string) returns (ps: seq<Piece>)
    requires ParseString(t).Done?
    ensures GoodPieces(ps) && t == PiecesBefore(ps, ParseString(t).rest) && ParseString(t).value == PiecesMeaning(ps)
    decreases |t|
  {
    hide PieceBefore, PieceMeaning, GoodPiece;
    if t[0] == '"' {
      ps := [];
      assert t == "\"" + t[1..];
    } else {
      var p, r := PieceInFront(t);
      hide ParseString;
      var more := StringIsSpelled(r);
      ps := [p] + more;
    }
  }

  // ---------------------------------------------------------------- numbers

  lemma NumeralOctets(n: Spelling)
    requires Proper(n)
    ensures forall i | 0 <= i < |NumberText(n)| :: IsNumberChar(NumberText(n)[i])
  {
    ExponentOctets(n.exponent);
    hide ExponentText;
    var point := if n.point then "." else "";
    var (u, v) := (n.sign + n.whole, point + n.fraction);
    Associative(n.sign, n.whole, point + (n.fraction + ExponentText(n.exponent)));
    Associative(point, n.fraction, ExponentText(n.exponent));
    assert NumberText(n) == u + (v + ExponentText(n.exponent));
  }

  lemma ExponentOctets(e: Option<Exponent>)
    requires e.Some? ==> (e.value.letter == 'e' || e.value.letter == 'E') && IsSign(e.value.sign)
                         && Digits(e.value.digits)
    ensures forall i | 0 <= i < |ExponentText(e)| :: IsNumberChar(ExponentText(e)[i])
  {
  }

  lemma NumeralStarts(n: Spelling)
    requires GoodNumeral(n)
    ensures NumberText(n) != "" && (IsDigit(NumberText(n)[0]) || NumberText(n)[0] == '-')
  {
    hide ExponentText;
  }

  lemma NumeralParses(n: Spelling, r: string)
    requires GoodNumeral(n) && Stops(r)
    ensures ParseNumber(NumberText(n) + r) == Done(Number(NumeralValue(n)), r)
  {
    hide NumberText, Proper, Strtod, DigitsValue, Scale;
    NumeralOctets(n);
    NumeralStarts(n);
    NumberLengthOf(NumberText(n), r);
    Parts(NumberText(n), r);
    NumberNotation(n);
  }

  // What strtod accepts in full is the text of a number.
  lemma NumberIsSpelled(t: string) returns (n: Spelling)
    requires Strtod(t).Some?
    ensures Proper(n) && t == NumberText(n)
  {
    hide DigitsValue, Scale, Strtod, ExponentText, Proper;
    var a := SignLength(t, 0);
    var b := DigitsEnd(t, a);
    var c := if b < |t| && t[b] == '.' then b + 1 else b;
    var d := DigitsEnd(t, c);
    StrtodGoesOn(t, a, b, c, d);
    var exponent := ExponentIsSpelled(t, d);
    n := Spelling(t[..a], t[a..b], c == b + 1, t[c..d], exponent);
    assert c == b ==> d == b;
    assert t[b..c] == (if n.point then "." else "");
    hide DigitsEnd;
    CutInFive(t, a, b, c, d);
    PartsAreProper(n, t, a, b, c, d);
  }

  lemma PartsAreProper(n: Spelling, t: string, a: nat, b: nat, c: nat, d: nat)
    requires a == SignLength(t, 0) && a <= b <= c <= d <= |t| && t[a..b] + t[c..d] != ""
    requires forall k | a <= k < b || c <= k < d :: IsDigit(t[k])
    requires n.sign == t[..a] && n.whole == t[a..b] && n.fraction == t[c..d] && (!n.point ==> c == d)
    requires n.exponent.Some? ==>
               var e := n.exponent.value;
               (e.letter == 'e' || e.letter == 'E') && IsSign(e.sign) && Digits(e.digits) && e.digits != ""
    ensures Proper(n)
  {
    assert a == 1 ==> t[..1] == [t[0]];
    forall i | 0 <= i < |n.whole|
      ensures IsDigit(n.whole[i])
    {
      assert n.whole[i] == t[a + i];
    }
    forall i | 0 <= i < |n.fraction|
      ensures IsDigit(n.fraction[i])
    {
      assert n.fraction[i] == t[c + i];
    }
  }

  lemma StrtodGoesOn(t: string, a: nat, b: nat, c: nat, d: nat)
    requires Strtod(t).Some? && a <= |t| && a == SignLength(t, 0) && b == DigitsEnd(t, a)
    requires c == (if b < |t| && t[b] == '.' then b + 1 else b) && d == DigitsEnd(t, c)
    ensures t[a..b] + t[c..d] != ""
    ensures d < |t| ==>
              && (t[d] == 'e' || t[d] == 'E')
              && var p := d + 1 + SignLength(t, d + 1); p < |t| && DigitsEnd(t, p) == |t|
  {
    hide DigitsValue, Scale, DigitsEnd;
  }

  lemma CutInFive(t: string, a: nat, b: nat, c: nat, d: nat)
    requires a <= b <= c <= d <= |t|
    ensures t == t[..a] + (t[a..b] + (t[b..c] + (t[c..d] + t[d..])))
  {
  }

  lemma ExponentIsSpelled(t: string, d: nat) returns (e: Option<Exponent>)
    requires d <= |t|
    requires d < |t| ==>
               && (t[d] == 'e' || t[d] == 'E')
               && var p := d + 1 + SignLength(t, d + 1); p < |t| && DigitsEnd(t, p) == |t|
    ensures t[d..] == ExponentText(e)
    ensures e.Some? ==>
              && (e.value.letter == 'e' || e.value.letter == 'E') && IsSign(e.value.sign) && Digits(e.value.digits)
              && e.value.digits != ""
  {
    if d == |t| {
      e := None;
    } else {
      var p := d + 1 + SignLength(t, d + 1);
      e := Some(Exponent(t[d], t[d + 1..p], t[p..]));
      assert t[d..] == [t[d]] + (t[d + 1..p] + t[p..]);
    }
  }

  lemma NumeralInFront(t: string) returns (n: Spelling)
    requires ParseNumber(t).Done? && (IsDigit(t[0]) || t[0] == '-')
    ensures GoodNumeral(n) && Stops(ParseNumber(t).rest) && t == NumberText(n) + ParseNumber(t).rest
    ensures ParseNumber(t).value == Number(NumeralValue(n))
  {
    hide Strtod, DigitsValue, Scale, NumberText, ExponentText;
    var k := NumberLength(t);
    n := NumberIsSpelled(t[..k]);
    NumberNotation(n);
    assert t == t[..k] + t[k..];
    FirstIsKept(n, t[..k]);
  }

  lemma FirstIsKept(n: Spelling, t: string)
    requires Proper(n) && t == NumberText(n) && t != "" && (IsDigit(t[0]) || t[0] == '-')
    ensures GoodNumeral(n)
  {
    hide ExponentText;
  }

  // ---------------------------------------------------------------- well-spelled texts are accepted

  // Behind an item: space, a character that ends it, and more.
  lemma Ending(back: string, c: char, r: string, tail: string)
    requires Space(back) && (c == ',' || c == ']' || c == '}') && tail == back + ([c] + r)
    ensures Stops(tail) && Expects(tail, c) && AfterExpected(tail, c) == r
    ensures c != ',' ==> !Expects(tail, ',') && AfterExpected(tail, ',') == [c] + r
    ensures Expects([c] + r, c) && AfterExpected([c] + r, c) == r
  {
    SpaceIsBlank(back);
    StopsAtChar(back, c, r);
    ExpectedAfterSpace(back, c, r);
    Neutral([c] + r);
    ExpectedAfterSpace("", c, r);
  }

  // The first character of a value is no space and closes nothing.
  lemma PhraseStarts(k: Phrase, r: string)
    requires WellSpelled(k)
    ensures var t := PhraseBefore(k, r);
            t != "" && !IsSpace(t[0]) && t[0] != ']' && SkipSpace(t) == t
  {
    hide PiecesBefore, ItemsBefore, EntriesBefore, NumberText;
    if k.Numeral? {
      NumeralStarts(k.n);
    }
  }

  lemma FrontSkipped(front: string, t: string, depths: nat)
    requires Space(front) && SkipSpace(t) == t
    ensures SkipSpace(front + t) == t && ParseValue(front + t, depths) == ParseValue(t, depths)
  {
    hide ParseValue, ParseItems, ParseMembers;
    SpaceIsBlank(front);
    SkipBlank(front, t);
    ParseValueSkips(front + t, depths);
  }

  lemma LastOne(t: string, x: Value, tail: string, depths: nat, r: string)
    requires ParseValue(t, depths) == Done(x, tail)
    requires !Expects(tail, ',') && AfterExpected(tail, ',') == "]" + r
    requires Expects("]" + r, ']') && AfterExpected("]" + r, ']') == r
    ensures ParseItems(t, depths) == Done([x], r)
  {
    hide ParseValue, Expects, AfterExpected;
  }

  lemma OneMore(t: string, x: Value, tail: string, xs: seq<Value>, depths: nat, r: string)
    requires ParseValue(t, depths) == Done(x, tail) && Expects(tail, ',')
    requires ParseItems(AfterExpected(tail, ','), depths) == Done(xs, r)
    ensures ParseItems(t, depths) == Done([x] + xs, r)
  {
    hide ParseValue, Expects, AfterExpected;
  }

  lemma {:induction false} ItemsAccepted(items: seq<Item>, depths: nat, r: string)
    requires items != [] && WellSpelled(List(items, "")) && Affordable(List(items, ""), depths + 1)
    ensures ParseItems(ItemsBefore(items, r), depths) == Done(ValuesOf(items), r)
    ensures ItemsBefore(items, r) != "" && !Expects(ItemsBefore(items, r), ']')
    decreases items, 0
  {
    hide ParseValue, ParseItems, PhraseBefore, ValueOf, SkipSpace, Expects, AfterExpected, Stops;
    var (i, rest) := (items[0], items[1..]);
    var more := if |items| == 1 then "]" + r else "," + ItemsBefore(rest, r);
    var tail := i.back + more;
    var t := PhraseBefore(i.phrase, tail);
    assert ItemsBefore(items, r) == i.front + t;
    PhraseStarts(i.phrase, tail);
    FrontSkipped(i.front, t, depths);
    ClosesNothing(i.front + t, t);
    if |items| == 1 {
      Ending(i.back, ']', r, tail);
      PhraseAccepted(i.phrase, depths, tail);
      LastOne(i.front + t, ValueOf(i.phrase), tail, depths, r);
      assert rest == [] && ValuesOf(items) == [ValueOf(i.phrase)];
    } else {
      Ending(i.back, ',', ItemsBefore(rest, r), tail);
      PhraseAccepted(i.phrase, depths, tail);
      ItemsAccepted(rest, depths, r);
      OneMore(i.front + t, ValueOf(i.phrase), tail, ValuesOf(rest), depths, r);
      assert ValuesOf(items) == [ValueOf(i.phrase)] + ValuesOf(rest);
    }
  }

  lemma ClosesNothing(s: string, t: string)
    requires SkipSpace(s) == t && t != "" && t[0] != ']'
    ensures s != "" && !Expects(s, ']')
  {
  }

  lemma ArrayAccepted(items: seq<Item>, gap: string, depths: nat, r: string)
    requires WellSpelled(List(items, gap)) && Affordable(List(items, gap), depths)
    ensures ParseValue(PhraseBefore(List(items, gap), r), depths) == Done(Array(ValuesOf(items)), r)
    decreases items, 1
  {
    hide ParseItems, ParseMembers, ItemsBefore, ValueOf, Expects, AfterExpected;
    var t := if items == [] then gap + ("]" + r) else ItemsBefore(items, r);
    Parts("[", t);
    assert PhraseBefore(List(items, gap), r) == "[" + t;
    ArrayOpened("[" + t, t, depths);
    if items == [] {
      ExpectedAfterSpace(gap, ']', r);
    } else {
      ItemsAccepted(items, depths - 1, r);
      ItemsBehindSpace(t, depths - 1);
    }
  }

  lemma ArrayOpened(s: string, t: string, depths: nat)
    requires s == "[" + t
    ensures ParseValue(s, depths) == ParseArray(t, depths)
  {
    hide ParseArray, ParseObject, ParseString, ParseNumber, ParseWord;
    Parts("[", t);
  }

  lemma ItemsBehindSpace(t: string, depths: nat)
    requires !Expects(t, ']')
    ensures ParseItems(AfterExpected(t, ']'), depths) == ParseItems(t, depths)
  {
    hide ParseItems, ParseMembers, ParseValue;
    ParseValueSkips(t, depths);
  }

  lemma ObjectOpened(s: string, t: string, depths: nat)
    requires s == "{" + t
    ensures ParseValue(s, depths) == ParseObject(t, depths)
  {
    hide ParseArray, ParseObject, ParseString, ParseNumber, ParseWord;
    Parts("{", t);
  }

  lemma MembersBehindSpace(t: string, depths: nat)
    requires !Expects(t, '}')
    ensures ParseMembers(AfterExpected(t, '}'), depths) == ParseMembers(t, depths)
  {
    hide ParseItems, ParseMembers, ParseValue;
    ParseValueSkips(t, depths);
  }

  // A member, in front of what follows its value.
  function EntryBefore(e: Entry, tail: string): string
    requires GoodPieces(e.key) && WellSpelled(e.item.phrase)
  {
    e.before + ("\"" + PiecesBefore(e.key, e.behind + (":" + (e.item.front + PhraseBefore(e.item.phrase, tail)))))
  }

  lemma EntryAccepted(e: Entry, tail: string, depths: nat)
    requires Space(e.before) && GoodPieces(e.key) && Space(e.behind) && Space(e.item.front)
    requires WellSpelled(e.item.phrase)
    requires ParseValue(PhraseBefore(e.item.phrase, tail), depths) == Done(ValueOf(e.item.phrase), tail)
    ensures ParseMember(EntryBefore(e, tail), depths)
         == Done(Member(PiecesMeaning(e.key), ValueOf(e.item.phrase)), tail)
    ensures !Expects(EntryBefore(e, tail), '}')
  {
    hide ParseValue, ParseString, PhraseBefore, PiecesBefore, PiecesMeaning, ValueOf, Expects, AfterExpected, SkipSpace;
    var t := PhraseBefore(e.item.phrase, tail);
    var u := e.behind + (":" + (e.item.front + t));
    PhraseStarts(e.item.phrase, tail);
    FrontSkipped(e.item.front, t, depths);
    PiecesParse(e.key, u);
    ExpectedAfterSpace(e.before, '"', PiecesBefore(e.key, u));
    ExpectedAfterSpace(e.behind, ':', e.item.front + t);
  }

  lemma LastMemberRead(t: string, m: Member, tail: string, depths: nat, r: string)
    requires ParseMember(t, depths) == Done(m, tail)
    requires !Expects(tail, ',') && AfterExpected(tail, ',') == "}" + r
    requires Expects("}" + r, '}') && AfterExpected("}" + r, '}') == r
    ensures ParseMembers(t, depths) == Done([m], r)
  {
    hide ParseMember, Expects, AfterExpected;
  }

  lemma OneMoreMember(t: string, m: Member, tail: string, ms: seq<Member>, depths: nat, r: string)
    requires ParseMember(t, depths) == Done(m, tail) && Expects(tail, ',')
    requires ParseMembers(AfterExpected(tail, ','), depths) == Done(ms, r)
    ensures ParseMembers(t, depths) == Done([m] + ms, r)
  {
    hide ParseMember, Expects, AfterExpected;
  }

  lemma {:induction false} EntriesAccepted(entries: seq<Entry>, depths: nat, r: string)
    requires entries != [] && WellSpelled(Record(entries, "")) && Affordable(Record(entries, ""), depths)
    ensures ParseMembers(EntriesBefore(entries, r), depths) == Done(MembersOf(entries), r)
    ensures !Expects(EntriesBefore(entries, r), '}')
    decreases entries, 0
  {
    hide ParseValue, ParseMembers, ParseMember, PhraseBefore, PiecesBefore, ValueOf, PiecesMeaning, SkipSpace, Expects,
      AfterExpected, Stops;
    var (e, rest) := (entries[0], entries[1..]);
    var more := if |entries| == 1 then "}" + r else "," + EntriesBefore(rest, r);
    var tail := e.item.back + more;
    var m := Member(PiecesMeaning(e.key), ValueOf(e.item.phrase));
    assert EntriesBefore(entries, r) == EntryBefore(e, tail);
    if |entries| == 1 {
      Ending(e.item.back, '}', r, tail);
      PhraseAccepted(e.item.phrase, depths, tail);
      EntryAccepted(e, tail, depths);
      LastMemberRead(EntryBefore(e, tail), m, tail, depths, r);
      assert rest == [] && MembersOf(entries) == [m];
    } else {
      Ending(e.item.back, ',', EntriesBefore(rest, r), tail);
      PhraseAccepted(e.item.phrase, depths, tail);
      EntryAccepted(e, tail, depths);
      EntriesAccepted(rest, depths, r);
      OneMoreMember(EntryBefore(e, tail), m, tail, MembersOf(rest), depths, r);
      assert MembersOf(entries) == [m] + MembersOf(rest);
    }
  }

  lemma ObjectAccepted(entries: seq<Entry>, gap: string, depths: nat, r: string)
    requires WellSpelled(Record(entries, gap)) && Affordable(Record(entries, gap), depths)
    ensures ParseValue(PhraseBefore(Record(entries, gap), r), depths)
         == Done(Object(InsertAll([], MembersOf(entries))), r)
    decreases entries, 1
  {
    hide ParseItems, ParseMembers, EntriesBefore, ValueOf, Expects, AfterExpected, InsertAll, PiecesMeaning;
    var t := if entries == [] then gap + ("}" + r) else EntriesBefore(entries, r);
    Parts("{", t);
    assert PhraseBefore(Record(entries, gap), r) == "{" + t;
    ObjectOpened("{" + t, t, depths);
    if entries == [] {
      ExpectedAfterSpace(gap, '}', r);
      assert InsertAll([], []) == [] by { NoInsert(); }
    } else {
      EntriesAccepted(entries, depths, r);
      MembersBehindSpace(t, depths);
    }
  }

  lemma NoInsert()
    ensures InsertAll([], []) == []
  {
  }

  lemma WordAccepted(k: Phrase, depths: nat, r: string)
    requires k.NullWord? || k.TrueWord? || k.FalseWord?
    ensures ParseValue(PhraseBefore(k, r), depths) == Done(ValueOf(k), r)
  {
    hide ParseArray, ParseObject, ParseString, ParseNumber;
    WordParses('n', "ull", Null, r);
    WordParses('t', "rue", Boolean(true), r);
    WordParses('f', "alse", Boolean(false), r);
    assert ['n'] + "ull" == "null" && ['t'] + "rue" == "true" && ['f'] + "alse" == "false";
  }

  lemma ScalarAccepted(k: Phrase, depths: nat, r: string)
    requires WellSpelled(k) && (k.Numeral? || k.Quotation?) && (k.Numeral? ==> Stops(r))
    ensures ParseValue(PhraseBefore(k, r), depths) == Done(ValueOf(k), r)
  {
    hide ParseArray, ParseObject, ParseString, ParseNumber, ParseWord, NumberText, PiecesBefore, PiecesMeaning,
      NumeralValue, GoodNumeral, GoodPieces;
    if k.Numeral? {
      NumeralStarts(k.n);
      NumeralParses(k.n, r);
    } else {
      PiecesParse(k.pieces, r);
      Parts("\"", PiecesBefore(k.pieces, r));
    }
  }

  // The text of a well-spelled value that the budget allows is accepted, whatever follows, unless it
  // continues a number.
  lemma {:induction false} PhraseAccepted(k: Phrase, depths: nat, r: string)
    requires WellSpelled(k) && Affordable(k, depths) && (k.Numeral? ==> Stops(r))
    ensures ParseValue(PhraseBefore(k, r), depths) == Done(ValueOf(k), r)
    decreases k, 2
  {
    hide ParseValue, PhraseBefore, Stops;
    match k {
      case List(items, gap) => ArrayAccepted(items, gap, depths, r);
      case Record(entries, gap) => ObjectAccepted(entries, gap, depths, r);
      case Numeral(_) => ScalarAccepted(k, depths, r);
      case Quotation(_) => ScalarAccepted(k, depths, r);
      case _ => WordAccepted(k, depths, r);
    }
  }

  // ---------------------------------------------------------------- accepted texts are well-spelled

  predicate GoodItem(i: Item) { Space(i.front) && WellSpelled(i.phrase) && Space(i.back) }

  predicate GoodEntry(e: Entry)
  {
    Space(e.before) && GoodPieces(e.key) && Space(e.behind) && GoodItem(e.item)
  }

  lemma ItemInFront(i: Item, more: seq<Item>, depths: nat, r: string)
    requires GoodItem(i) && Affordable(i.phrase, depths)
    requires WellSpelled(List(more, "")) && Affordable(List(more, ""), depths + 1)
    ensures WellSpelled(List([i] + more, "")) && Affordable(List([i] + more, ""), depths + 1)
    ensures ValuesOf([i] + more) == [ValueOf(i.phrase)] + ValuesOf(more)
    ensures ItemsBefore([i] + more, r)
         == i.front + PhraseBefore(i.phrase, i.back + if more == [] then "]" + r else "," + ItemsBefore(more, r))
  {
    hide ValueOf, PhraseBefore;
    assert ([i] + more)[1..] == more;
  }

  lemma EntryInFront(e: Entry, more: seq<Entry>, depths: nat, r: string)
    requires GoodEntry(e) && Affordable(e.item.phrase, depths) && depths > 0
    requires WellSpelled(Record(more, "")) && Affordable(Record(more, ""), depths)
    ensures WellSpelled(Record([e] + more, "")) && Affordable(Record([e] + more, ""), depths)
    ensures MembersOf([e] + more)
         == [Member(PiecesMeaning(e.key), ValueOf(e.item.phrase))] + MembersOf(more)
    ensures EntriesBefore([e] + more, r)
         == EntryBefore(e, e.item.back + if more == [] then "}" + r else "," + EntriesBefore(more, r))
  {
    hide ValueOf, PhraseBefore, PiecesBefore, PiecesMeaning;
    assert ([e] + more)[1..] == more;
  }

  lemma NothingSpelled(depths: nat)
    ensures WellSpelled(List([], "")) && Affordable(List([], ""), depths + 1) && ValuesOf([]) == []
    ensures WellSpelled(Record([], "")) && (depths > 0 ==> Affordable(Record([], ""), depths)) && MembersOf([]) == []
  {
  }

  // The character that closes, behind a value without a comma.
  lemma ClosingInFront(t: string, c: char) returns (w: string)
    requires !Expects(t, ',') && Expects(AfterExpected(t, ','), c)
    ensures Space(w) && t == w + ([c] + AfterExpected(AfterExpected(t, ','), c))
  {
    SkipTwice(t);
    w := ExpectedInFront(t, c);
  }

  lemma {:induction false} ItemsAreSpelled(t: string, depths: nat) returns (items: seq<Item>)
    requires ParseItems(t, depths).Done?
    ensures items != [] && WellSpelled(List(items, "")) && Affordable(List(items, ""), depths + 1)
    ensures t == ItemsBefore(items, ParseItems(t, depths).rest) && ParseItems(t, depths).value == ValuesOf(items)
    decreases |t|, 2
  {
    hide ParseValue, PhraseBefore, ItemsBefore, ValueOf, ValuesOf, WellSpelled, Affordable, Expects, AfterExpected;
    var p := ParseValue(t, depths);
    var front, k := PhraseIsSpelled(t, depths);
    var r := ParseItems(t, depths).rest;
    if Expects(p.rest, ',') {
      var back := ExpectedInFront(p.rest, ',');
      AfterExpectedShorter(p.rest, ',');
      var more := ItemsAreSpelled(AfterExpected(p.rest, ','), depths);
      ItemInFront(Item(front, k, back), more, depths, r);
      items := [Item(front, k, back)] + more;
    } else {
      var back := ClosingInFront(p.rest, ']');
      NothingSpelled(depths);
      ItemInFront(Item(front, k, back), [], depths, r);
      items := [Item(front, k, back)] + [];
      Neutral([p.value]);
    }
  }

  lemma ArrayIsSpelled(t: string, depths: nat) returns (k: Phrase)
    requires ParseArray(t, depths).Done?
    ensures k.List? && WellSpelled(k) && Affordable(k, depths)
    ensures "[" + t == PhraseBefore(k, ParseArray(t, depths).rest) && ParseArray(t, depths).value == ValueOf(k)
    decreases |t|, 4
  {
    hide ParseItems, ItemsBefore, ValuesOf, Expects, AfterExpected;
    if Expects(t, ']') {
      var gap := ExpectedInFront(t, ']');
      k := List([], gap);
      NothingSpelled(depths);
    } else {
      ItemsBehindSpace(t, depths - 1);
      var items := ItemsAreSpelled(t, depths - 1);
      k := List(items, "");
    }
  }

  lemma EntryIsSpelled(t: string, depths: nat) returns (e: Entry)
    requires ParseMember(t, depths).Done? && depths > 0
    ensures e.item.back == "" && GoodEntry(e) && Affordable(e.item.phrase, depths)
    ensures ParseMember(t, depths).value == Member(PiecesMeaning(e.key), ValueOf(e.item.phrase))
    ensures t == EntryBefore(e, ParseMember(t, depths).rest)
    decreases |t|, 2
  {
    hide ParseValue, ParseString, PhraseBefore, PiecesBefore, PiecesMeaning, ValueOf, WellSpelled, Affordable, Expects,
      AfterExpected;
    var before := ExpectedInFront(t, '"');
    AfterExpectedShorter(t, '"');
    var s := AfterExpected(t, '"');
    var key := StringIsSpelled(s);
    var u := ParseString(s).rest;
    var behind := ExpectedInFront(u, ':');
    AfterExpectedShorter(u, ':');
    var front, k := PhraseIsSpelled(AfterExpected(u, ':'), depths);
    e := Entry(before, key, behind, Item(front, k, ""));
  }

  lemma {:induction false} EntriesAreSpelled(t: string, depths: nat) returns (entries: seq<Entry>)
    requires ParseMembers(t, depths).Done? && depths > 0
    ensures entries != [] && WellSpelled(Record(entries, "")) && Affordable(Record(entries, ""), depths)
    ensures t == EntriesBefore(entries, ParseMembers(t, depths).rest)
    ensures ParseMembers(t, depths).value == MembersOf(entries)
    decreases |t|, 3
  {
    hide ParseMember, EntriesBefore, PhraseBefore, PiecesBefore, ValueOf, PiecesMeaning, MembersOf, WellSpelled,
      Affordable, Expects, AfterExpected;
    var p := ParseMember(t, depths);
    var e := EntryIsSpelled(t, depths);
    var r := ParseMembers(t, depths).rest;
    if Expects(p.rest, ',') {
      var back := ExpectedInFront(p.rest, ',');
      AfterExpectedShorter(p.rest, ',');
      var more := EntriesAreSpelled(AfterExpected(p.rest, ','), depths);
      e := e.(item := e.item.(back := back));
      EntryInFront(e, more, depths, r);
      entries := [e] + more;
    } else {
      var back := ClosingInFront(p.rest, '}');
      e := e.(item := e.item.(back := back));
      NothingSpelled(depths);
      EntryInFront(e, [], depths, r);
      entries := [e] + [];
      Neutral([p.value]);
    }
  }

  lemma ObjectIsSpelled(t: string, depths: nat) returns (k: Phrase)
    requires ParseObject(t, depths).Done?
    ensures k.Record? && WellSpelled(k) && Affordable(k, depths)
    ensures "{" + t == PhraseBefore(k, ParseObject(t, depths).rest) && ParseObject(t, depths).value == ValueOf(k)
    decreases |t|, 4
  {
    hide ParseMembers, EntriesBefore, MembersOf, InsertAll, Expects, AfterExpected;
    if Expects(t, '}') {
      var gap := ExpectedInFront(t, '}');
      k := Record([], gap);
      NothingSpelled(depths);
      NoInsert();
    } else {
      MembersBehindSpace(t, depths);
      var entries := EntriesAreSpelled(t, depths);
      k := Record(entries, "");
    }
  }

  lemma WordIsSpelled(s: string, depths: nat) returns (k: Phrase)
    requires SkipSpace(s) == s && ParseValue(s, depths).Done? && (s[0] == 'n' || s[0] == 't' || s[0] == 'f')
    ensures WellSpelled(k) && Affordable(k, depths) && !k.Numeral?
    ensures s == PhraseBefore(k, ParseValue(s, depths).rest) && ParseValue(s, depths).value == ValueOf(k)
  {
    hide ParseArray, ParseObject, ParseString, ParseNumber, SkipSpace;
    k := if s[0] == 'n' then NullWord else if s[0] == 't' then TrueWord else FalseWord;
    var word := if s[0] == 'n' then "ull" else if s[0] == 't' then "rue" else "alse";
    assert s[1..] == word + ParseValue(s, depths).rest;
    assert s == [s[0]] + (word + ParseValue(s, depths).rest);
    assert ['n'] + "ull" == "null" && ['t'] + "rue" == "true" && ['f'] + "alse" == "false";
  }

  // An accepted text is space, the text of a well-spelled value that the budget allows, and the rest.
  lemma {:induction false} PhraseIsSpelled(t: string, depths: nat) returns (front: string, k: Phrase)
    requires ParseValue(t, depths).Done?
    ensures Space(front) && WellSpelled(k) && Affordable(k, depths)
    ensures k.Numeral? ==> Stops(ParseValue(t, depths).rest)
    ensures t == front + PhraseBefore(k, ParseValue(t, depths).rest) && ParseValue(t, depths).value == ValueOf(k)
    decreases |t|, 1
  {
    hide ParseArray, ParseObject, ParseString, ParseNumber, ParseWord, ItemsBefore, EntriesBefore, PiecesBefore, Stops,
      NumberText, ValuesOf, MembersOf, PiecesMeaning, NumeralValue, GoodNumeral, SkipSpace;
    front := SpaceInFront(t);
    var s := SkipSpace(t);
    SkipTwice(t);
    OneValueSkips(t, depths);
    assert s == [s[0]] + s[1..];
    match s[0] {
      case '"' =>
        var ps := StringIsSpelled(s[1..]);
        k := Quotation(ps);
      case '[' => k := ArrayIsSpelled(s[1..], depths);
      case '{' => k := ObjectIsSpelled(s[1..], depths);
      case c =>
        if c == 'n' || c == 't' || c == 'f' {
          k := WordIsSpelled(s, depths);
        } else {
          var n := NumeralInFront(s);
          k := Numeral(n);
        }
    }
  }

  // ---------------------------------------------------------------- exactly

  // Main theorem: the parser accepts a text exactly when it is space, the text of a well-spelled value that the
  // budget allows, and a rest that does not go on with a number; and it yields the value that text spells.
  lemma AcceptedExactly(t: string, depths: nat, v: Value, rest: string)
    ensures ParseValue(t, depths) == Done(v, rest)
       <==> exists front, k ::
              && Space(front) && WellSpelled(k) && Affordable(k, depths) && (k.Numeral? ==> Stops(rest))
              && t == front + (PhraseText(k) + rest) && v == ValueOf(k)
  {
    hide ParseValue, PhraseText, PhraseBefore, WellSpelled, Affordable, ValueOf;
    if ParseValue(t, depths) == Done(v, rest) {
      var front, k := PhraseIsSpelled(t, depths);
      TextThenRest(k, rest);
    }
    forall front, k |
      && Space(front) && WellSpelled(k) && Affordable(k, depths) && (k.Numeral? ==> Stops(rest))
      && t == front + (PhraseText(k) + rest) && v == ValueOf(k)
      ensures ParseValue(t, depths) == Done(v, rest)
    {
      TextThenRest(k, rest);
      PhraseAccepted(k, depths, rest);
      PhraseStarts(k, rest);
      FrontSkipped(front, PhraseBefore(k, rest), depths);
    }
  }
}
