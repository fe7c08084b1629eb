// Parsing inverts serializing, exactly on the values that fit the depth budget.
module JsonRoundTrip {
  import opened Common
  import opened JsonText
  import opened JsonSpec

  predicate Blank(w: string)
  {
    forall i | 0 <= i < |w| :: IsSpace(w[i])
  }

  // The text behind a value does not continue a number.
  predicate Stops(r: string)
  {
    |r| == 0 || !IsNumberChar(r[0])
  }

  lemma {:induction false} SkipBlank(w: string, t: string)
    requires Blank(w)
    ensures SkipSpace(w + t) == SkipSpace(t)
    decreases |w|
  {
    if |w| == 0 {
      assert w + t == t;
    } else {
      assert (w + t)[1..] == w[1..] + t;
      SkipBlank(w[1..], t);
    }
  }

  lemma SkipTwice(t: string)
    ensures SkipSpace(SkipSpace(t)) == SkipSpace(t)
  {
  }

  lemma ParseValueSkips(t: string, depths: nat)
    ensures ParseValue(SkipSpace(t), depths) == ParseValue(t, depths)
    ensures ParseItems(SkipSpace(t), depths) == ParseItems(t, depths)
    ensures ParseMembers(SkipSpace(t), depths) == ParseMembers(t, depths)
  {
    hide ParseValue, ParseMember, SkipSpace;
    OneValueSkips(t, depths);
    MemberSkips(t, depths);
  }

  lemma OneValueSkips(t: string, depths: nat)
    ensures ParseValue(SkipSpace(t), depths) == ParseValue(t, depths)
  {
    hide ParseArray, ParseObject, ParseString, ParseNumber, ParseWord;
    SkipTwice(t);
  }

  lemma MemberSkips(t: string, depths: nat)
    ensures ParseMember(SkipSpace(t), depths) == ParseMember(t, depths)
  {
    hide ParseValue, ParseString;
    SkipTwice(t);
  }

  lemma IndentationIsBlank(indent: int)
    ensures Blank(Indentation(indent))
  {
  }

  // ---------------------------------------------------------------- strings

  lemma EscapedControl(c: char, r: string)
    requires c < ' ' || c == DELETE
    ensures ParseString(['\\', 'u', '0', '0', HexDigit(c as int / 16), HexDigit(c as int % 16)] + r)
         == Prepend([c], ParseString(r))
  {
    hide ParseQuadHex, HexDigit;
    var e := ['\\', 'u', '0', '0', HexDigit(c as int / 16), HexDigit(c as int % 16)];
    assert (e + r)[1..] == e[1..] + r;
    assert (e + r)[1..][1..] == e[2..] + r;
    ControlDigits(c, r);
    assert e[2..] == ['0', '0', HexDigit(c as int / 16), HexDigit(c as int % 16)];
    assert EncodeUtf8(c as int) == [c];
  }

  lemma ControlDigits(c: char, r: string)
    requires c < ' ' || c == DELETE
    ensures ParseQuadHex(['0', '0', HexDigit(c as int / 16), HexDigit(c as int % 16)] + r) == Done(c as int, r)
  {
    var t := ['0', '0', HexDigit(c as int / 16), HexDigit(c as int % 16)] + r;
    assert t[4..] == r;
  }

  lemma EscapedCharParses(c: char, r: string)
    ensures ParseString(Escaped(c) + r) == Prepend([c], ParseString(r))
  {
    var e := Escaped(c);
    if c == '"' || c == '\\' || c == '/' || c == BACKSPACE || c == FORMFEED || c == '\n' || c == '\r' || c == '\t' {
      assert (e + r)[1..] == e[1..] + r;
      assert (e[1..] + r)[1..] == r;
    } else if c < ' ' || c == DELETE {
      EscapedControl(c, r);
    } else {
      assert (e + r)[1..] == r;
    }
  }

  lemma {:induction false} EscapedTextParses(s: string, r: string)
    ensures ParseString(EscapedText(s) + "\"" + r) == Done(s, r)
    decreases |s|
  {
    if |s| == 0 {
      assert EscapedText(s) + "\"" + r == "\"" + r;
      assert ("\"" + r)[1..] == r;
    } else {
      var tail := EscapedText(s[1..]) + "\"" + r;
      assert EscapedText(s) + "\"" + r == Escaped(s[0]) + tail;
      EscapedCharParses(s[0], tail);
      EscapedTextParses(s[1..], r);
      assert [s[0]] + s[1..] == s;
    }
  }

  lemma {:induction false} QuotedParses(s: string, r: string)
    ensures Quoted(s) + r == "\"" + (EscapedText(s) + "\"" + r)
    ensures (Quoted(s) + r)[0] == '"' && ParseString((Quoted(s) + r)[1..]) == Done(s, r)
  {
    hide EscapedText, ParseString;
    EscapedTextParses(s, r);
    assert Quoted(s) + r == "\"" + (EscapedText(s) + "\"" + r);
    assert (Quoted(s) + r)[1..] == EscapedText(s) + "\"" + r;
  }

  // ---------------------------------------------------------------- numbers and words

  lemma {:induction false} NumberLengthOf(t: string, r: string)
    requires forall i | 0 <= i < |t| :: IsNumberChar(t[i])
    requires Stops(r)
    ensures NumberLength(t + r) == |t|
    decreases |t|
  {
    if |t| == 0 {
      assert t + r == r;
    } else {
      assert (t + r)[1..] == t[1..] + r;
      NumberLengthOf(t[1..], r);
    }
  }

  lemma NumberParses(n: int, r: string)
    requires Stops(r)
    ensures ParseNumber(Decimal(n) + r) == Done(Number(n as real), r)
  {
    var t := Decimal(n);
    NumberLengthOf(t, r);
    DecimalRoundTrip(n);
    assert (t + r)[..|t|] == t && (t + r)[|t|..] == r;
  }

  lemma WordParses(c: char, word: string, v: Value, r: string)
    ensures ([c] + word + r)[1..] == word + r
    ensures ParseWord(word + r, word, v) == Done(v, r)
  {
    assert ([c] + word + r)[1..] == word + r;
    assert (word + r)[..|word|] == word && (word + r)[|word|..] == r;
  }

  // ---------------------------------------------------------------- maps

  lemma {:induction false} LessIrreflexive(a: string)
    ensures !Less(a, a)
    decreases |a|
  {
    if |a| > 0 {
      LessIrreflexive(a[1..]);
    }
  }

  lemma {:induction false} LessAsymmetric(a: string, b: string)
    requires Less(a, b)
    ensures !Less(b, a)
    decreases |a|
  {
    if |a| > 0 && a[0] == b[0] {
      LessAsymmetric(a[1..], b[1..]);
    }
  }

  lemma {:induction false} InsertLast(members: seq<Member>, key: string, value: Value)
    requires forall i | 0 <= i < |members| :: Less(members[i].key, key)
    ensures Insert(members, key, value) == members + [Member(key, value)]
    decreases |members|
  {
    if |members| > 0 {
      LessIrreflexive(key);
      LessAsymmetric(members[0].key, key);
      InsertLast(members[1..], key, value);
      assert [members[0]] + (members[1..] + [Member(key, value)]) == members + [Member(key, value)];
    }
  }

  lemma {:induction false} InsertAllOrdered(members: seq<Member>, more: seq<Member>)
    requires KeyOrdered(members + more)
    ensures InsertAll(members, more) == members + more
    decreases |more|
  {
    if |more| == 0 {
      assert members + more == members;
    } else {
      var all := members + more;
      forall i | 0 <= i < |members|
        ensures Less(members[i].key, more[0].key)
      {
        assert all[i] == members[i] && all[|members|] == more[0];
      }
      InsertLast(members, more[0].key, more[0].value);
      assert members + [more[0]] + more[1..] == all;
      assert Member(more[0].key, more[0].value) == more[0];
      InsertAllOrdered(members + [more[0]], more[1..]);
    }
  }

  // ---------------------------------------------------------------- values

  lemma BodyStarts(v: Value, indent: int)
    requires Printable(v)
    ensures |Body(v, indent)| > 0 && !IsSpace(Body(v, indent)[0])
    ensures Body(v, indent)[0] != ']' && Body(v, indent)[0] != '}'
  {
  }

  predicate AllFit(items: seq<Value>, depths: nat)
  {
    forall i | 0 <= i < |items| :: Fits(items[i], depths)
  }

  predicate MembersFit(members: seq<Member>, depths: nat)
  {
    forall i | 0 <= i < |members| :: Fits(members[i].value, depths)
  }

  // Values without parts.
  lemma ScalarParses(v: Value, indent: int, depths: nat, r: string)
    requires !v.Array? && !v.Object? && Printable(v) && Stops(r)
    ensures ParseValue(Body(v, indent) + r, depths) == Done(v, r)
  {
    hide ParseItems, ParseMembers, Decimal, ParseNumber, ParseString, Quoted;
    var t := Body(v, indent) + r;
    BodyStarts(v, indent);
    assert SkipSpace(t) == t;
    match v
    case Null => WordParses('n', "ull", v, r); assert ['n'] + "ull" + r == t;
    case Boolean(b) =>
      if b {
        WordParses('t', "rue", v, r);
        assert ['t'] + "rue" + r == t;
      } else {
        WordParses('f', "alse", v, r);
        assert ['f'] + "alse" + r == t;
      }
    case Number(n) => NumberParses(n.Floor, r);
    case String(s) => QuotedParses(s, r);
  }

  // Parsing the text of v, in front of anything that does not continue a number, gives back v and
  // what follows it when v fits the budget, and fails when it does not.
  lemma {:induction false} BodyParses(v: Value, indent: int, depths: nat, r: string)
    requires Printable(v) && Ordered(v) && Stops(r)
    ensures Gives(ParseValue(Body(v, indent) + r, depths), Fits(v, depths), v, r)
    decreases v, 2
  {
    hide ParseValue, Body;
    match v
    case Array(items) =>
      if |items| == 0 {
        EmptyArrayParses(v, indent, depths, r);
      } else {
        ArrayParses(items, indent, depths, r);
      }
    case Object(members) => ObjectParses(v, indent, depths, r);
    case _ => ScalarParses(v, indent, depths, r);
  }

  lemma ItemsTextSplits(items: seq<Value>, k: int, first: bool, tail: string)
    requires |items| > 0 && forall i | 0 <= i < |items| :: Printable(items[i])
    ensures ItemsText(items, k, first) + tail
         == Separator(first) + (Indentation(k) + (Body(items[0], k) + (ItemsText(items[1..], k, false) + tail)))
  {
    hide Body, Indentation;
    var rest := ItemsText(items[1..], k, false);
    Associative(Body(items[0], k), rest, tail);
    Associative(Indentation(k), Body(items[0], k) + rest, tail);
    Associative(Separator(first), Indentation(k) + (Body(items[0], k) + rest), tail);
  }

  // One item and the end of the array.
  lemma LastItem(x: Value, t: string, rest: string, depths: nat, r: string)
    requires Gives(ParseValue(t, depths), Fits(x, depths), x, rest)
    requires SkipSpace(rest) == [']'] + r
    ensures Gives(ParseItems(t, depths), Fits(x, depths), [x], r)
  {
    hide ParseValue, Fits;
    assert ([']'] + r)[1..] == r;
    SkipTwice(rest);
  }

  // One item, a comma and more items.
  lemma MoreItems(x: Value, xs: seq<Value>, t: string, rest: string, more: string, depths: nat, r: string)
    requires Gives(ParseValue(t, depths), Fits(x, depths), x, rest)
    requires SkipSpace(rest) == [','] + more
    requires Gives(ParseItems(more, depths), AllFit(xs, depths), xs, r)
    ensures Gives(ParseItems(t, depths), Fits(x, depths) && AllFit(xs, depths), [x] + xs, r)
  {
    hide ParseValue, Fits, AllFit;
    assert ([','] + more)[1..] == more;
  }

  lemma {:induction false} ItemsParse(items: seq<Value>, k: int, close: string, depths: nat, r: string)
    requires |items| > 0 && Blank(close)
    requires forall i | 0 <= i < |items| :: Printable(items[i]) && Ordered(items[i])
    ensures Gives(ParseItems(ItemsText(items, k, true) + (close + ([']'] + r)), depths),
                  AllFit(items, depths), items, r)
    decreases items, 0
  {
    hide ParseValue, ParseItems, Body, Indentation, Fits, SkipSpace;
    var tail := close + ([']'] + r);
    var t := ItemsText(items, k, true) + tail;
    var rest := ItemsText(items[1..], k, false) + tail;
    ItemsTextSplits(items, k, true, tail);
    IndentedValue(items[0], k, rest, t, depths);
    if |items| == 1 {
      assert rest == tail;
      SkipToChar(close, ']', r);
      StopsAtChar(close, ']', r);
      BodyParses(items[0], k, depths, rest);
      LastItem(items[0], t, rest, depths, r);
      assert items == [items[0]];
    } else {
      ItemsTextSplits(items[1..], k, true, tail);
      ItemsTextSplits(items[1..], k, false, tail);
      var more := ItemsText(items[1..], k, true) + tail;
      assert rest == "" + ([','] + more);
      SkipToChar("", ',', more);
      StopsAtChar("", ',', more);
      BodyParses(items[0], k, depths, rest);
      ItemsParse(items[1..], k, close, depths, r);
      MoreItems(items[0], items[1..], t, rest, more, depths, r);
      assert items == [items[0]] + items[1..];
      assert AllFit(items, depths) <==> Fits(items[0], depths) && AllFit(items[1..], depths);
    }
  }

  // Space in front of a value makes no difference.
  lemma IndentedValue(v: Value, k: int, rest: string, t: string, depths: nat)
    requires Printable(v)
    requires t == "" + (Indentation(k) + (Body(v, k) + rest))
    ensures ParseValue(t, depths) == ParseValue(Body(v, k) + rest, depths)
    ensures SkipSpace(t) == Body(v, k) + rest
  {
    hide ParseValue, ParseItems, ParseMembers, Body;
    BodyStarts(v, k);
    IndentationIsBlank(k);
    assert t == Indentation(k) + (Body(v, k) + rest);
    SkipBlank(Indentation(k), Body(v, k) + rest);
    ParseValueSkips(t, depths);
  }

  lemma SkipToChar(w: string, c: char, r: string)
    requires Blank(w) && !IsSpace(c)
    ensures SkipSpace(w + ([c] + r)) == [c] + r
  {
    SkipBlank(w, [c] + r);
  }

  lemma StopsAtChar(w: string, c: char, r: string)
    requires Blank(w) && !IsNumberChar(c)
    ensures Stops(w + ([c] + r))
  {
  }

  // An opening bracket and the outcome of reading the items.
  lemma ArrayOpens(items: seq<Value>, t: string, inner: string, depths: nat, r: string)
    requires t == ['['] + inner && !Expects(inner, ']')
    requires depths > 0 ==> Gives(ParseItems(inner, depths - 1), AllFit(items, depths - 1), items, r)
    ensures Gives(ParseValue(t, depths), Fits(Array(items), depths), Array(items), r)
  {
    hide ParseItems, ParseMembers, AllFit;
    assert SkipSpace(t) == t && t[1..] == inner;
    FitsArray(items, depths);
    if depths > 0 {
      ParseValueSkips(inner, depths - 1);
    }
  }

  lemma {:induction false} ArrayParses(items: seq<Value>, indent: int, depths: nat, r: string)
    requires |items| > 0 && Printable(Array(items))
    requires forall i | 0 <= i < |items| :: Printable(items[i]) && Ordered(items[i])
    ensures Gives(ParseValue(Body(Array(items), indent) + r, depths), Fits(Array(items), depths), Array(items), r)
    decreases items, 1
  {
    hide *;
    var close, k := Indentation(indent), Deeper(indent);
    var tail := close + ([']'] + r);
    var inner := ItemsText(items, k, true) + tail;
    IndentationIsBlank(indent);
    ArrayTextSplits(items, indent, r);
    ItemsTextSplits(items, k, true, tail);
    ItemsOpen(items, k, inner, ItemsText(items[1..], k, false) + tail);
    if depths > 0 {
      ItemsParse(items, k, close, depths - 1, r);
    }
    ArrayOpens(items, Body(Array(items), indent) + r, inner, depths, r);
  }

  lemma FitsArray(items: seq<Value>, depths: nat)
    ensures Fits(Array(items), depths) <==> depths > 0 && AllFit(items, depths - 1)
  {
  }

  lemma ArrayTextSplits(items: seq<Value>, indent: int, r: string)
    requires |items| > 0 && Printable(Array(items))
    ensures Body(Array(items), indent) + r
         == ['['] + (ItemsText(items, Deeper(indent), true) + (Indentation(indent) + ([']'] + r)))
  {
    hide ItemsText, Indentation;
    var inner, close := ItemsText(items, Deeper(indent), true), Indentation(indent);
    Associative(close, "]", r);
    Associative(inner, close + "]", r);
    Associative("[", inner + (close + "]"), r);
  }

  // A non-empty list of items does not look like the end of the array.
  lemma ItemsOpen(items: seq<Value>, k: int, inner: string, rest: string)
    requires |items| > 0 && Printable(items[0])
    requires inner == Separator(true) + (Indentation(k) + (Body(items[0], k) + rest))
    ensures !Expects(inner, ']')
  {
    hide Body;
    IndentedValue(items[0], k, rest, inner, 0);
    BodyStarts(items[0], k);
  }

  lemma EmptyArrayParses(v: Value, indent: int, depths: nat, r: string)
    requires v == Array([])
    ensures Gives(ParseValue(Body(v, indent) + r, depths), Fits(v, depths), v, r)
  {
    var t := Body(v, indent) + r;
    assert t[0] == '[' && SkipSpace(t) == t;
    assert t[1..] == "" + ([']'] + r);
    SkipToChar("", ']', r);
    assert ([']'] + r)[1..] == r;
  }

  // ---------------------------------------------------------------- objects

  // The text of a member from its colon on, in front of rest.
  function Behind(m: Member, k: int, rest: string): string
    requires Printable(m.value)
  {
    ":" + (Gap(k) + (Body(m.value, k) + rest))
  }

  lemma MembersTextSplits(members: seq<Member>, k: int, first: bool, tail: string)
    requires |members| > 0 && forall i | 0 <= i < |members| :: Printable(members[i].value)
    ensures MembersText(members, k, first) + tail
         == Separator(first)
            + (Indentation(k) + (Quoted(members[0].key)
              + Behind(members[0], k, MembersText(members[1..], k, false) + tail)))
  {
    hide Body, Indentation, Quoted, Gap, Separator;
    var m, rest := members[0], MembersText(members[1..], k, false);
    var body := Body(m.value, k);
    Associative(body, rest, tail);
    Associative(Gap(k), body + rest, tail);
    Associative(":", Gap(k) + (body + rest), tail);
    Associative(Quoted(m.key), ":" + (Gap(k) + (body + rest)), tail);
    Associative(Indentation(k), Quoted(m.key) + (":" + (Gap(k) + (body + rest))), tail);
    Associative(Separator(first), Indentation(k) + (Quoted(m.key) + (":" + (Gap(k) + (body + rest)))), tail);
  }

  // Everything up to the value of a member.

  lemma KeyParses(key: string, k: int, behind: string, t: string)
    requires t == "" + (Indentation(k) + (Quoted(key) + behind))
    ensures Expects(t, '"') && !Expects(t, '}')
    ensures ParseString(AfterExpected(t, '"')) == Done(key, behind)
  {
    hide EscapedText, ParseString, Indentation;
    QuotedParses(key, behind);
    IndentationIsBlank(k);
    assert t == Indentation(k) + (Quoted(key) + behind);
    SkipBlank(Indentation(k), Quoted(key) + behind);
  }

  lemma MemberOpens(m: Member, k: int, rest: string, depths: nat)
    requires Printable(m.value)
    ensures Expects(Behind(m, k, rest), ':')
    ensures ParseValue(AfterExpected(Behind(m, k, rest), ':'), depths) == ParseValue(Body(m.value, k) + rest, depths)
  {
    hide Body, ParseValue;
    var value := Gap(k) + (Body(m.value, k) + rest);
    assert Behind(m, k, rest) == ":" + value;
    assert (":" + value)[1..] == value;
    SkipBlank(Gap(k), Body(m.value, k) + rest);
    ParseValueSkips(value, depths);
    ParseValueSkips(Body(m.value, k) + rest, depths);
  }

  lemma LastMember(m: Member, t: string, behind: string, rest: string, depths: nat, r: string)
    requires Expects(t, '"') && ParseString(AfterExpected(t, '"')) == Done(m.key, behind) && Expects(behind, ':')
    requires Gives(ParseValue(AfterExpected(behind, ':'), depths), Fits(m.value, depths), m.value, rest)
    requires SkipSpace(rest) == ['}'] + r
    ensures Gives(ParseMembers(t, depths), Fits(m.value, depths), [m], r)
  {
    hide ParseValue, Fits, ParseString;
    assert (['}'] + r)[1..] == r;
    SkipTwice(rest);
  }

  lemma MoreMembers(
    m: Member, ms: seq<Member>, t: string, behind: string, rest: string, more: string, depths: nat, r: string)
    requires Expects(t, '"') && ParseString(AfterExpected(t, '"')) == Done(m.key, behind) && Expects(behind, ':')
    requires Gives(ParseValue(AfterExpected(behind, ':'), depths), Fits(m.value, depths), m.value, rest)
    requires SkipSpace(rest) == [','] + more
    requires Gives(ParseMembers(more, depths), MembersFit(ms, depths), ms, r)
    ensures Gives(ParseMembers(t, depths), Fits(m.value, depths) && MembersFit(ms, depths), [m] + ms, r)
  {
    hide ParseValue, Fits, ParseString, MembersFit;
    assert ([','] + more)[1..] == more;
  }

  lemma {:induction false} MembersParse(members: seq<Member>, k: int, close: string, depths: nat, r: string)
    requires |members| > 0 && Blank(close)
    requires forall i | 0 <= i < |members| :: Printable(members[i].value) && Ordered(members[i].value)
    ensures Gives(ParseMembers(MembersText(members, k, true) + (close + (['}'] + r)), depths),
                  MembersFit(members, depths), members, r)
    decreases members, 0
  {
    hide ParseValue, ParseMembers, ParseString, Body, Behind, Indentation, Quoted, Fits, SkipSpace, Expects,
         AfterExpected;
    var tail := close + (['}'] + r);
    var t := MembersText(members, k, true) + tail;
    var m, rest := members[0], MembersText(members[1..], k, false) + tail;
    MembersTextSplits(members, k, true, tail);
    KeyParses(m.key, k, Behind(m, k, rest), t);
    MemberOpens(m, k, rest, depths);
    if |members| == 1 {
      assert rest == tail;
      SkipToChar(close, '}', r);
      StopsAtChar(close, '}', r);
      BodyParses(m.value, k, depths, rest);
      LastMember(m, t, Behind(m, k, rest), rest, depths, r);
      assert members == [m];
    } else {
      MembersTextSplits(members[1..], k, true, tail);
      MembersTextSplits(members[1..], k, false, tail);
      var more := MembersText(members[1..], k, true) + tail;
      assert rest == "" + ([','] + more);
      SkipToChar("", ',', more);
      StopsAtChar("", ',', more);
      BodyParses(m.value, k, depths, rest);
      MembersParse(members[1..], k, close, depths, r);
      MoreMembers(m, members[1..], t, Behind(m, k, rest), rest, more, depths, r);
      assert members == [m] + members[1..];
      assert MembersFit(members, depths) <==> Fits(m.value, depths) && MembersFit(members[1..], depths);
    }
  }

  lemma ObjectOpens(t: string, inner: string, depths: nat)
    requires t == ['{'] + inner && !Expects(inner, '}')
    ensures var p := ParseMembers(inner, depths);
            if depths == 0 || p.Fail? then ParseValue(t, depths).Fail?
            else ParseValue(t, depths) == Done(Object(InsertAll([], p.value)), p.rest)
  {
    hide ParseItems, ParseMembers, InsertAll;
    assert SkipSpace(t) == t && t[1..] == inner;
    ParseValueSkips(inner, depths);
  }

  lemma {:induction false} ObjectParses(v: Value, indent: int, depths: nat, r: string)
    requires v.Object? && Printable(v) && Ordered(v) && Stops(r)
    ensures Gives(ParseValue(Body(v, indent) + r, depths), Fits(v, depths), v, r)
    decreases v, 1
  {
    var members, k := v.members, Deeper(indent);
    if |members| == 0 {
      EmptyObjectParses(v, indent, depths, r);
    } else {
      hide ParseValue, ParseMembers, ParseString, SkipSpace, Indentation, MembersText, Behind, Quoted, Expects,
           AfterExpected;
      var close := Indentation(indent);
      var tail := close + (['}'] + r);
      var t := Body(v, indent) + r;
      IndentationIsBlank(indent);
      Associative(close, "}", r);
      Associative(MembersText(members, k, true), close + "}", r);
      Associative("{", MembersText(members, k, true) + (close + "}"), r);
      MembersTextSplits(members, k, true, tail);
      KeyParses(members[0].key, k, Behind(members[0], k, MembersText(members[1..], k, false) + tail),
                MembersText(members, k, true) + tail);
      ObjectOpens(t, MembersText(members, k, true) + tail, depths);
      MembersParse(members, k, close, depths, r);
      assert [] + members == members;
      InsertAllOrdered([], members);
    }
  }

  lemma EmptyObjectParses(v: Value, indent: int, depths: nat, r: string)
    requires v == Object([])
    ensures Gives(ParseValue(Body(v, indent) + r, depths), Fits(v, depths), v, r)
  {
    var t := Body(v, indent) + r;
    assert t[0] == '{' && SkipSpace(t) == t;
    assert t[1..] == "" + (['}'] + r);
    SkipToChar("", '}', r);
    assert (['}'] + r)[1..] == r;
  }

  // Main theorem: for every value with integral numbers below 2^53, in compact and in prettified
  // form, parsing the serialized text gives the value back exactly when it fits the depth budget.
  lemma ParseInvertsSerialize(v: Value, prettify: bool, depths: nat)
    requires Printable(v) && Ordered(v)
    ensures var p := ParseValue(Text(v, prettify), depths);
            if Fits(v, depths) then p == Done(v, if prettify then "\n" else "") else p.Fail?
  {
    if prettify {
      BodyParses(v, 0, depths, "\n");
    } else {
      BodyParses(v, -1, depths, "");
      assert Body(v, -1) + "" == Body(v, -1);
    }
  }
}
