// What holds of every text the parser accepts, whoever wrote it.
module JsonProperties {
  import opened Common
  import opened JsonText
  import opened JsonSpec
  import opened JsonRoundTrip

  // ---------------------------------------------------------------- the depth budget and the maps

  lemma {:induction false} LessTransitive(a: string, b: string, c: string)
    requires Less(a, b) && Less(b, c)
    ensures Less(a, c)
    decreases |a|
  {
    if |a| > 0 && a[0] == b[0] && b[0] == c[0] {
      LessTransitive(a[1..], b[1..], c[1..]);
    }
  }

  lemma {:induction false} LessTotal(a: string, b: string)
    ensures Less(a, b) || a == b || Less(b, a)
    decreases |a|
  {
    if |a| > 0 && |b| > 0 && a[0] == b[0] {
      LessTotal(a[1..], b[1..]);
      assert a == [a[0]] + a[1..] && b == [b[0]] + b[1..];
    }
  }

  // The two texts agree up to k and differ there.
  predicate SmallerAt(a: string, b: string, k: int)
  {
    0 <= k < |a| && k < |b| && a[..k] == b[..k] && a[k] < b[k]
  }

  // The order of keys is that of std::string: by the first octet that differs, and a prefix comes first.
  lemma {:induction false} LessIsLexicographic(a: string, b: string)
    ensures Less(a, b) <==> (|a| < |b| && a == b[..|a|]) || exists k :: SmallerAt(a, b, k)
    decreases |a|
  {
    hide SmallerAt;
    if |a| > 0 && |b| > 0 && a[0] == b[0] {
      LessIsLexicographic(a[1..], b[1..]);
      Prefixes(a, b);
      if k :| SmallerAt(a[1..], b[1..], k) {
        SmallerBehind(a, b, k + 1);
      }
      if k :| SmallerAt(a, b, k) {
        SmallerBehind(a, b, k);
      }
    } else if k :| SmallerAt(a, b, k) {
      FirstDecides(a, b, k);
    } else if |a| > 0 && |b| > 0 {
      FirstDecides(a, b, 0);
      assert |a| < |b| ==> b[..|a|][0] == b[0];
    }
  }

  lemma SmallerBehind(a: string, b: string, k: int)
    requires |a| > 0 && |b| > 0 && a[0] == b[0]
    ensures SmallerAt(a, b, k) <==> SmallerAt(a[1..], b[1..], k - 1)
  {
    if 0 < k < |a| && k < |b| {
      assert a[..k] == [a[0]] + a[1..][..k - 1] && b[..k] == [b[0]] + b[1..][..k - 1];
      assert a[..k][1..] == a[1..][..k - 1] && b[..k][1..] == b[1..][..k - 1];
    }
  }

  lemma FirstDecides(a: string, b: string, k: int)
    requires |a| > 0 && |b| > 0 ==> a[0] != b[0]
    ensures SmallerAt(a, b, k) <==> k == 0 && |a| > 0 && |b| > 0 && a[0] < b[0]
  {
    assert k > 0 && k < |a| && k < |b| ==> a[..k][0] == a[0] && b[..k][0] == b[0];
    assert |a| > 0 && |b| > 0 ==> a[..0] == b[..0];
  }

  lemma Prefixes(a: string, b: string)
    requires |a| > 0 && |b| > 0 && a[0] == b[0]
    ensures |a| < |b| && a == b[..|a|] <==> |a[1..]| < |b[1..]| && a[1..] == b[1..][..|a| - 1]
  {
    if |a| < |b| {
      assert a == [a[0]] + a[1..] && b[..|a|] == [b[0]] + b[1..][..|a| - 1];
      assert b[..|a|][1..] == b[1..][..|a| - 1];
    }
  }

  function Lookup(members: seq<Member>, key: string): Option<Value>
  {
    if |members| == 0 then None
    else if members[0].key == key then Some(members[0].value)
    else Lookup(members[1..], key)
  }

  lemma {:induction false} InsertMembers(members: seq<Member>, key: string, value: Value)
    ensures forall m :: m in Insert(members, key, value) ==> m == Member(key, value) || m in members
    decreases |members|
  {
    if |members| > 0 {
      InsertMembers(members[1..], key, value);
    }
  }

  predicate AllAbove(key: string, members: seq<Member>)
  {
    forall j | 0 <= j < |members| :: Less(key, members[j].key)
  }

  lemma OrderedCons(head: Member, tail: seq<Member>)
    requires KeyOrdered(tail) && AllAbove(head.key, tail)
    ensures KeyOrdered([head] + tail)
  {
    var r := [head] + tail;
    forall i, j | 0 <= i < j < |r|
      ensures Less(r[i].key, r[j].key)
    {
      assert r[j] == tail[j - 1];
      if i > 0 { assert r[i] == tail[i - 1]; }
    }
  }

  // Insert keeps the members in key order.
  lemma {:induction false} InsertKeepsOrder(members: seq<Member>, key: string, value: Value)
    requires KeyOrdered(members)
    ensures KeyOrdered(Insert(members, key, value))
    decreases |members|
  {
    hide Less;
    if |members| > 0 {
      var head, tail := members[0], members[1..];
      assert AllAbove(head.key, tail);
      LessTotal(key, head.key);
      if head.key == key {
        OrderedCons(Member(key, value), tail);
      } else if Less(key, head.key) {
        forall j | 0 <= j < |members|
          ensures Less(key, members[j].key)
        {
          if j > 0 { LessTransitive(key, head.key, members[j].key); }
        }
        OrderedCons(Member(key, value), members);
      } else {
        InsertKeepsOrder(tail, key, value);
        var grown := Insert(tail, key, value);
        InsertMembers(tail, key, value);
        forall j | 0 <= j < |grown|
          ensures Less(head.key, grown[j].key)
        {
          assert grown[j] in grown;
        }
        OrderedCons(head, grown);
      }
    }
  }

  // Insert is the update of a map.
  lemma {:induction false} InsertIsMapUpdate(members: seq<Member>, key: string, value: Value, other: string)
    requires KeyOrdered(members)
    ensures Lookup(Insert(members, key, value), other) == if other == key then Some(value) else Lookup(members, other)
    decreases |members|
  {
    if |members| > 0 {
      InsertIsMapUpdate(members[1..], key, value, other);
      assert ([Member(key, value)] + members)[1..] == members;
    }
  }

  lemma {:induction false} InsertAllKeeps(members: seq<Member>, more: seq<Member>)
    requires KeyOrdered(members)
    ensures KeyOrdered(InsertAll(members, more))
    ensures forall m :: m in InsertAll(members, more) ==> m in members || m in more
    decreases |more|
  {
    if |more| > 0 {
      InsertKeepsOrder(members, more[0].key, more[0].value);
      InsertMembers(members, more[0].key, more[0].value);
      InsertAllKeeps(Insert(members, more[0].key, more[0].value), more[1..]);
    }
  }

  // The most arrays on a path from the root to a leaf.
  function ArrayDepth(v: Value): nat
    decreases v, 1
  {
    match v
    case Array(items) => 1 + DeepestItem(items)
    case Object(members) => DeepestMember(members)
    case _ => 0
  }

  function DeepestItem(items: seq<Value>): nat
    decreases items, 0
  {
    if |items| == 0 then 0 else Larger(ArrayDepth(items[0]), DeepestItem(items[1..]))
  }

  function DeepestMember(members: seq<Member>): nat
    decreases members, 0
  {
    if |members| == 0 then 0 else Larger(ArrayDepth(members[0].value), DeepestMember(members[1..]))
  }

  function Larger(m: nat, n: nat): nat { if m < n then n else m }

  lemma {:induction false} FittingDepth(v: Value, depths: nat)
    requires Fits(v, depths)
    ensures ArrayDepth(v) <= depths
    decreases v, 1
  {
    match v
    case Array(items) => FittingItems(items, depths - 1);
    case Object(members) => FittingMembers(members, depths);
    case _ =>
  }

  lemma {:induction false} FittingItems(items: seq<Value>, depths: nat)
    requires AllFit(items, depths)
    ensures DeepestItem(items) <= depths
    decreases items, 0
  {
    if |items| > 0 {
      FittingDepth(items[0], depths);
      FittingItems(items[1..], depths);
    }
  }

  lemma {:induction false} FittingMembers(members: seq<Member>, depths: nat)
    requires MembersFit(members, depths)
    ensures DeepestMember(members) <= depths
    decreases members, 0
  {
    if |members| > 0 {
      FittingDepth(members[0].value, depths);
      FittingMembers(members[1..], depths);
    }
  }

  ghost predicate Sound(v: Value, depths: nat) { Fits(v, depths) && Ordered(v) }

  lemma {:induction false} ParsedItemsSound(t: string, depths: nat)
    requires ParseItems(t, depths).Done?
    ensures forall i | 0 <= i < |ParseItems(t, depths).value| :: Sound(ParseItems(t, depths).value[i], depths)
    decreases |t|, 2
  {
    hide ParseValue, Expects, AfterExpected, Sound;
    ParsedValueSound(t, depths);
    var item := ParseValue(t, depths);
    if Expects(item.rest, ',') {
      AfterExpectedShorter(item.rest, ',');
      ParsedItemsSound(AfterExpected(item.rest, ','), depths);
    }
  }

  lemma AfterExpectedShorter(t: string, c: char)
    requires Expects(t, c)
    ensures |AfterExpected(t, c)| < |t|
  {
  }

  lemma {:induction false} ParsedMembersSound(t: string, depths: nat)
    requires ParseMembers(t, depths).Done?
    ensures forall i | 0 <= i < |ParseMembers(t, depths).value| :: Sound(ParseMembers(t, depths).value[i].value, depths)
    decreases |t|, 2
  {
    hide ParseValue, Expects, AfterExpected, Sound, ParseString;
    var key := ParseString(AfterExpected(t, '"'));
    AfterExpectedShorter(t, '"');
    AfterExpectedShorter(key.rest, ':');
    ParsedValueSound(AfterExpected(key.rest, ':'), depths);
    var member := ParseMember(t, depths);
    if Expects(member.rest, ',') {
      AfterExpectedShorter(member.rest, ',');
      ParsedMembersSound(AfterExpected(member.rest, ','), depths);
    }
  }

  lemma ArraySound(t: string, depths: nat)
    requires ParseArray(t, depths).Done?
    ensures Sound(ParseArray(t, depths).value, depths)
    decreases |t|, 3
  {
    hide ParseItems, Expects, AfterExpected;
    if !Expects(t, ']') {
      ParsedItemsSound(AfterExpected(t, ']'), depths - 1);
    }
  }

  lemma ObjectSound(t: string, depths: nat)
    requires ParseObject(t, depths).Done?
    ensures Sound(ParseObject(t, depths).value, depths)
    decreases |t|, 3
  {
    hide ParseMembers, Expects, AfterExpected, InsertAll;
    if !Expects(t, '}') {
      var p := ParseMembers(AfterExpected(t, '}'), depths);
      ParsedMembersSound(AfterExpected(t, '}'), depths);
      InsertAllKeeps([], p.value);
      var members := InsertAll([], p.value);
      forall i | 0 <= i < |members|
        ensures Sound(members[i].value, depths)
      {
        assert members[i] in p.value;
      }
    }
  }

  // Every accepted value fits the budget and holds real maps.
  lemma {:induction false} ParsedValueSound(t: string, depths: nat)
    ensures ParseValue(t, depths).Done? ==> Sound(ParseValue(t, depths).value, depths)
    decreases |t|, 1
  {
    hide ParseArray, ParseObject, ParseString, ParseNumber;
    var s := SkipSpace(t);
    if ParseValue(t, depths).Done? {
      if s[0] == '[' {
        ArraySound(s[1..], depths);
      } else if s[0] == '{' {
        ObjectSound(s[1..], depths);
      } else {
        NumberIsNumber(s);
      }
    }
  }

  lemma NumberIsNumber(t: string)
    ensures ParseNumber(t).Done? ==> ParseNumber(t).value.Number?
  {
  }

  // With the default budget: at most one hundred arrays on any path of an accepted value.
  lemma AcceptedArrayDepth(t: string)
    requires ParseValue(t, MAX_DEPTHS).Done?
    ensures ArrayDepth(ParseValue(t, MAX_DEPTHS).value) <= MAX_DEPTHS
    ensures Ordered(ParseValue(t, MAX_DEPTHS).value)
  {
    hide ParseValue;
    ParsedValueSound(t, MAX_DEPTHS);
    FittingDepth(ParseValue(t, MAX_DEPTHS).value, MAX_DEPTHS);
  }

  // Objects spend nothing of the budget: with a single unit, objects nested to any depth are accepted.

  function Nested(n: nat): Value
  {
    if n == 0 then Null else Object([Member("", Nested(n - 1))])
  }

  lemma {:induction false} NestedFits(n: nat)
    ensures Printable(Nested(n)) && Ordered(Nested(n)) && Fits(Nested(n), 1)
  {
    if n > 0 {
      NestedFits(n - 1);
    }
  }

  lemma ObjectsAreUnbounded(n: nat)
    ensures Printable(Nested(n)) && ParseValue(Text(Nested(n), false), 1) == Done(Nested(n), "")
  {
    NestedFits(n);
    ParseInvertsSerialize(Nested(n), false, 1);
  }

  // ---------------------------------------------------------------- UTF-8

  // Every string inside v, keys included, is well-formed UTF-8.
  predicate AllUtf8(v: Value)
  {
    match v
    case String(s) => ValidUtf8(s)
    case Array(items) => forall i | 0 <= i < |items| :: AllUtf8(items[i])
    case Object(members) => forall i | 0 <= i < |members| :: MemberUtf8(members[i])
    case _ => true
  }

  predicate MemberUtf8(m: Member)
    decreases m
  {
    ValidUtf8(m.key) && AllUtf8(m.value)
  }

  lemma {:induction false} DropAsciiPrefix(t: string, n: nat)
    requires ValidUtf8(t) && n <= |t| && forall i | 0 <= i < n :: t[i] as int < 0x80
    ensures ValidUtf8(t[n..])
    decreases n
  {
    if n == 0 {
      assert t[0..] == t;
    } else {
      Utf8DropAscii(t);
      DropAsciiPrefix(t[1..], n - 1);
      assert t[1..][n - 1..] == t[n..];
    }
  }

  lemma {:induction false} SkipSpaceUtf8(t: string)
    requires ValidUtf8(t)
    ensures ValidUtf8(SkipSpace(t))
    decreases |t|
  {
    if |t| > 0 && IsSpace(t[0]) {
      Utf8DropAscii(t);
      SkipSpaceUtf8(t[1..]);
    }
  }

  lemma ExpectedUtf8(t: string, c: char)
    requires ValidUtf8(t) && c as int < 0x80
    ensures ValidUtf8(AfterExpected(t, c))
  {
    SkipSpaceUtf8(t);
    if Expects(t, c) {
      Utf8DropAscii(SkipSpace(t));
    }
  }

  // Escapes produce scalar values only, in the encoding of section 3.
  lemma CodepointUtf8(t: string)
    requires ValidUtf8(t) && ParseCodepoint(t).Done?
    ensures ValidUtf8(ParseCodepoint(t).value) && ValidUtf8(ParseCodepoint(t).rest)
    ensures exists u: nat :: IsScalar(u) && ParseCodepoint(t).value == EncodeUtf8(u)
  {
    hide EncodeUtf8, ValidUtf8, CharacterLength, DecodeUtf8;
    var first := ParseQuadHex(t);
    DropAsciiPrefix(t, 4);
    if 0xD800 <= first.value <= 0xDFFF {
      var second := ParseQuadHex(t[4..][2..]);
      DropAsciiPrefix(t[4..], 2);
      DropAsciiPrefix(t[4..][2..], 4);
      EncodeUtf8Decodes(0x10000 + (first.value - 0xD800) * 0x400 + (second.value - 0xDC00));
    } else {
      EncodeUtf8Decodes(first.value);
    }
  }

  lemma EscapeUtf8(t: string)
    requires ValidUtf8(t) && ParseEscape(t).Done?
    ensures ValidUtf8(ParseEscape(t).value) && ValidUtf8(ParseEscape(t).rest)
  {
    hide ParseCodepoint;
    Utf8DropAscii(t);
    if t[0] == 'u' {
      CodepointUtf8(t[1..]);
    }
  }

  // before is what the string has collected; before + t is what a plain copy would give.
  lemma {:induction false} StringUtf8(before: string, t: string)
    requires ValidUtf8(before + t) && ParseString(t).Done?
    ensures ValidUtf8(before + ParseString(t).value) && ValidUtf8(ParseString(t).rest)
    decreases |t|
  {
    hide ParseEscape, ValidUtf8;
    if t[0] == '"' || t[0] == '\\' {
      Utf8Cut(before, t);
      Utf8DropAscii(t);
    }
    if t[0] == '"' {
      assert before + "" == before;
    } else if t[0] == '\\' {
      var e := ParseEscape(t[1..]);
      EscapeUtf8(t[1..]);
      Utf8Concat(before, e.value);
      Utf8Concat(before + e.value, e.rest);
      StringUtf8(before + e.value, e.rest);
      assert before + ParseString(t).value == (before + e.value) + ParseString(e.rest).value;
    } else {
      assert before + t == (before + [t[0]]) + t[1..];
      StringUtf8(before + [t[0]], t[1..]);
      assert before + ParseString(t).value == (before + [t[0]]) + ParseString(t[1..]).value;
    }
  }

  lemma ParsedStringUtf8(t: string)
    requires ValidUtf8(t) && ParseString(t).Done?
    ensures ValidUtf8(ParseString(t).value) && ValidUtf8(ParseString(t).rest)
  {
    hide ParseString, ValidUtf8;
    assert "" + t == t && "" + ParseString(t).value == ParseString(t).value;
    StringUtf8("", t);
  }

  lemma WordUtf8(t: string, word: string, v: Value)
    requires ValidUtf8(t) && ParseWord(t, word, v).Done? && forall i | 0 <= i < |word| :: word[i] as int < 0x80
    ensures ParseWord(t, word, v).value == v && ValidUtf8(ParseWord(t, word, v).rest)
  {
    assert forall i | 0 <= i < |word| :: t[i] == word[i];
    DropAsciiPrefix(t, |word|);
  }

  lemma NumberUtf8(t: string)
    requires ValidUtf8(t) && ParseNumber(t).Done?
    ensures ParseNumber(t).value.Number? && ValidUtf8(ParseNumber(t).rest)
  {
    DropAsciiPrefix(t, NumberLength(t));
  }

  lemma {:induction false} ItemsUtf8(t: string, depths: nat)
    requires ValidUtf8(t) && ParseItems(t, depths).Done?
    ensures forall i | 0 <= i < |ParseItems(t, depths).value| :: AllUtf8(ParseItems(t, depths).value[i])
    ensures ValidUtf8(ParseItems(t, depths).rest)
    decreases |t|, 2
  {
    hide ParseValue, AfterExpected, AllUtf8, ValidUtf8;
    ValueUtf8(t, depths);
    var item := ParseValue(t, depths);
    ExpectedUtf8(item.rest, ',');
    if Expects(item.rest, ',') {
      AfterExpectedShorter(item.rest, ',');
      ItemsUtf8(AfterExpected(item.rest, ','), depths);
    } else {
      ExpectedUtf8(AfterExpected(item.rest, ','), ']');
    }
  }

  lemma {:induction false} MembersUtf8(t: string, depths: nat)
    requires ValidUtf8(t) && ParseMembers(t, depths).Done?
    ensures forall i | 0 <= i < |ParseMembers(t, depths).value| :: MemberUtf8(ParseMembers(t, depths).value[i])
    ensures ValidUtf8(ParseMembers(t, depths).rest)
    decreases |t|, 2
  {
    hide ParseValue, AfterExpected, ValidUtf8, ParseString;
    var key := ParseString(AfterExpected(t, '"'));
    AfterExpectedShorter(t, '"');
    AfterExpectedShorter(key.rest, ':');
    ExpectedUtf8(t, '"');
    ParsedStringUtf8(AfterExpected(t, '"'));
    ExpectedUtf8(key.rest, ':');
    ValueUtf8(AfterExpected(key.rest, ':'), depths);
    var item := ParseValue(AfterExpected(key.rest, ':'), depths);
    ExpectedUtf8(item.rest, ',');
    if Expects(item.rest, ',') {
      AfterExpectedShorter(item.rest, ',');
      MembersUtf8(AfterExpected(item.rest, ','), depths);
    } else {
      ExpectedUtf8(AfterExpected(item.rest, ','), '}');
    }
  }

  lemma ArrayUtf8(t: string, depths: nat)
    requires ValidUtf8(t) && ParseArray(t, depths).Done?
    ensures AllUtf8(ParseArray(t, depths).value) && ValidUtf8(ParseArray(t, depths).rest)
    decreases |t|, 3
  {
    hide ParseItems, Expects, AfterExpected, ValidUtf8;
    ExpectedUtf8(t, ']');
    if !Expects(t, ']') {
      ItemsUtf8(AfterExpected(t, ']'), depths - 1);
    }
  }

  lemma ObjectUtf8(t: string, depths: nat)
    requires ValidUtf8(t) && ParseObject(t, depths).Done?
    ensures AllUtf8(ParseObject(t, depths).value) && ValidUtf8(ParseObject(t, depths).rest)
    decreases |t|, 3
  {
    hide ParseMembers, Expects, AfterExpected, ValidUtf8, InsertAll;
    ExpectedUtf8(t, '}');
    if !Expects(t, '}') {
      var p := ParseMembers(AfterExpected(t, '}'), depths);
      MembersUtf8(AfterExpected(t, '}'), depths);
      InsertAllKeeps([], p.value);
      var members := InsertAll([], p.value);
      forall i | 0 <= i < |members|
        ensures MemberUtf8(members[i])
      {
        assert members[i] in p.value;
      }
    }
  }

  // Main theorem: a well-formed UTF-8 text gives well-formed UTF-8 strings only, whatever mix of
  // raw octets, escapes and surrogate pairs it spells them with, and the text behind the value is
  // well-formed too.
  lemma {:induction false} ValueUtf8(t: string, depths: nat)
    requires ValidUtf8(t)
    ensures ParseValue(t, depths).Done? ==>
              AllUtf8(ParseValue(t, depths).value) && ValidUtf8(ParseValue(t, depths).rest)
    decreases |t|, 1
  {
    hide ParseArray, ParseObject, ParseString, ParseNumber, ParseWord, ValidUtf8;
    var s := SkipSpace(t);
    SkipSpaceUtf8(t);
    if ParseValue(t, depths).Done? {
      if s[0] as int < 0x80 {
        Utf8DropAscii(s);
      }
      match s[0]
      case 'n' => WordUtf8(s[1..], "ull", Null);
      case 'f' => WordUtf8(s[1..], "alse", Boolean(false));
      case 't' => WordUtf8(s[1..], "rue", Boolean(true));
      case '"' => ParsedStringUtf8(s[1..]);
      case '[' => ArrayUtf8(s[1..], depths);
      case '{' => ObjectUtf8(s[1..], depths);
      case _ => NumberUtf8(s);
    }
  }

  // A surrogate pair of escapes spells exactly the scalar value beyond U+FFFF it stands for.

  function Hex4(n: nat): string
    requires n < 0x10000
  {
    [HexDigit(n / 16 / 16 / 16), HexDigit(n / 16 / 16 % 16), HexDigit(n / 16 % 16), HexDigit(n % 16)]
  }

  lemma Hex4Parses(n: nat, r: string)
    requires n < 0x10000
    ensures ParseQuadHex(Hex4(n) + r) == Done(n, r)
  {
    assert (Hex4(n) + r)[4..] == r;
    var a, b, c := n / 16, n / 16 / 16, n / 16 / 16 / 16;
    assert n == 16 * a + n % 16 && a == 16 * b + a % 16 && b == 16 * c + b % 16;
  }

  function SurrogateEscapes(u: nat): string
    requires 0x10000 <= u < 0x110000
  {
    Hex4(0xD800 + (u - 0x10000) / 0x400) + ("\\u" + Hex4(0xDC00 + (u - 0x10000) % 0x400))
  }

  lemma SurrogatePairParses(u: nat, r: string)
    requires 0x10000 <= u < 0x110000
    ensures ParseCodepoint(SurrogateEscapes(u) + r) == Done(EncodeUtf8(u), r)
  {
    hide EncodeUtf8, ParseQuadHex, Hex4;
    var high, low := 0xD800 + (u - 0x10000) / 0x400, 0xDC00 + (u - 0x10000) % 0x400;
    var tail := "\\u" + (Hex4(low) + r);
    assert SurrogateEscapes(u) + r == Hex4(high) + tail;
    Hex4Parses(high, tail);
    assert tail[2..] == Hex4(low) + r;
    Hex4Parses(low, r);
  }

  // Four hexadecimal digits from d800 to dfff, by their spelling; the second digit tells high from low.
  predicate SurrogateDigits(t: string)
  {
    |t| >= 4 && (t[0] == 'd' || t[0] == 'D') && IsHex(t[1]) && HexValue(t[1]) >= 8 && IsHex(t[2]) && IsHex(t[3])
  }

  predicate HighDigits(t: string) { SurrogateDigits(t) && HexValue(t[1]) < 12 }

  predicate LowDigits(t: string) { SurrogateDigits(t) && HexValue(t[1]) >= 12 }

  lemma SurrogateNumbers(t: string)
    ensures SurrogateDigits(t) <==> ParseQuadHex(t).Done? && 0xD800 <= ParseQuadHex(t).value < 0xE000
    ensures LowDigits(t) <==> ParseQuadHex(t).Done? && 0xDC00 <= ParseQuadHex(t).value < 0xE000
  {
    if ParseQuadHex(t).Done? {
      var (a, b, c, d) := (HexValue(t[0]), HexValue(t[1]), HexValue(t[2]), HexValue(t[3]));
      assert a == 13 <==> t[0] == 'd' || t[0] == 'D';
      assert ParseQuadHex(t).value == a * 0x1000 + (b * 0x100 + (c * 0x10 + d));
      assert c * 0x10 + d < 0x100 && b * 0x100 + (c * 0x10 + d) < 0x1000;
    }
  }

  // A surrogate escape is accepted exactly when it is a high one and an escape of a low one follows.
  lemma SurrogateNeedsPartner(t: string)
    requires SurrogateDigits(t)
    ensures ParseCodepoint(t).Done?
       <==> HighDigits(t) && |t| >= 6 && t[4] == '\\' && t[5] == 'u' && LowDigits(t[6..])
  {
    hide ParseQuadHex, SurrogateDigits, EncodeUtf8;
    SurrogateNumbers(t);
    if |t| >= 6 {
      SurrogateNumbers(t[6..]);
      assert t[4..][2..] == t[6..];
    }
  }
}
