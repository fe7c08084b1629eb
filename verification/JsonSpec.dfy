// JSON values, their texts and the grammar the parser of core/include/jericho/picojson.h accepts,
// as functions on the text that is still to be read.
module JsonSpec {
  import opened JsonText

  // picojson::value. An object is a std::map: its members are kept in key order.
  datatype Value =
    | Null
    | Boolean(b: bool)
    | Number(n: real)
    | String(s: string)
    | Array(items: seq<Value>)
    | Object(members: seq<Member>)

  datatype Member = Member(key: string, value: Value)

  const MAX_DEPTHS: nat := 100
  const INDENT_WIDTH: nat := 2

  // ---------------------------------------------------------------- std::map<std::string, value>

  predicate Less(a: string, b: string)
    decreases |a|
  {
    |b| > 0 && (|a| == 0 || a[0] < b[0] || (a[0] == b[0] && Less(a[1..], b[1..])))
  }

  predicate KeyOrdered(members: seq<Member>)
  {
    forall i, j | 0 <= i < j < |members| :: Less(members[i].key, members[j].key)
  }

  // o[key] = value
  function Insert(members: seq<Member>, key: string, value: Value): seq<Member>
  {
    if |members| == 0 then [Member(key, value)]
    else if members[0].key == key then [Member(key, value)] + members[1..]
    else if Less(key, members[0].key) then [Member(key, value)] + members
    else [members[0]] + Insert(members[1..], key, value)
  }

  function InsertAll(members: seq<Member>, more: seq<Member>): seq<Member>
    decreases |more|
  {
    if |more| == 0 then members else InsertAll(Insert(members, more[0].key, more[0].value), more[1..])
  }

  // ---------------------------------------------------------------- serializer

  function Escaped(c: char): string
  {
    if c == '"' then "\\\""
    else if c == '\\' then "\\\\"
    else if c == '/' then "\\/"
    else if c == BACKSPACE then "\\b"
    else if c == FORMFEED then "\\f"
    else if c == '\n' then "\\n"
    else if c == '\r' then "\\r"
    else if c == '\t' then "\\t"
    else if c < ' ' || c == DELETE then ['\\', 'u', '0', '0', HexDigit(c as int / 16), HexDigit(c as int % 16)]
    else [c]
  }

  function EscapedText(s: string): string
  {
    if |s| == 0 then "" else Escaped(s[0]) + EscapedText(s[1..])
  }

  function Quoted(s: string): string
  {
    "\"" + (EscapedText(s) + "\"")
  }

  function Spaces(n: nat): string
  {
    seq(n, _ => ' ')
  }

  function Indentation(indent: int): string
  {
    if indent < 0 then "" else "\n" + Spaces(indent * INDENT_WIDTH)
  }

  // "%.f" is exact on these; other numbers are printed by "%.17g".
  predicate IsPlain(n: real)
  {
    n == n.Floor as real && -0x20_0000_0000_0000 < n.Floor < 0x20_0000_0000_0000
  }

  predicate Printable(v: Value)
  {
    match v
    case Number(n) => IsPlain(n)
    case Array(items) => forall i | 0 <= i < |items| :: Printable(items[i])
    case Object(members) => forall i | 0 <= i < |members| :: Printable(members[i].value)
    case _ => true
  }

  function Deeper(indent: int): int
  {
    if indent == -1 then -1 else indent + 1
  }

  function Separator(first: bool): string
  {
    if first then "" else ","
  }

  function Closing(empty: bool, indent: int, bracket: string): string
  {
    (if empty then "" else Indentation(indent)) + bracket
  }

  // Between a colon and a value.
  function Gap(indent: int): string
  {
    if indent != -1 then " " else ""
  }

  // The text without the newline that ends a top-level prettified value.
  function Body(v: Value, indent: int): string
    requires Printable(v)
    decreases v, 1
  {
    match v
    case Null => "null"
    case Boolean(b) => if b then "true" else "false"
    case Number(n) => Decimal(n.Floor)
    case String(s) => Quoted(s)
    case Array(items) =>
      "[" + (ItemsText(items, Deeper(indent), true) + Closing(|items| == 0, indent, "]"))
    case Object(members) =>
      "{" + (MembersText(members, Deeper(indent), true) + Closing(|members| == 0, indent, "}"))
  }

  function ItemsText(items: seq<Value>, indent: int, first: bool): string
    requires forall i | 0 <= i < |items| :: Printable(items[i])
    decreases items, 0
  {
    if |items| == 0 then ""
    else Separator(first) + (Indentation(indent) + (Body(items[0], indent) + ItemsText(items[1..], indent, false)))
  }

  function MembersText(members: seq<Member>, indent: int, first: bool): string
    requires forall i | 0 <= i < |members| :: Printable(members[i].value)
    decreases members, 0
  {
    if |members| == 0 then ""
    else
      Separator(first) + (Indentation(indent) + (Quoted(members[0].key) + (":" + (Gap(indent)
      + (Body(members[0].value, indent) + MembersText(members[1..], indent, false))))))
  }

  // value::serialize: compact text, or prettified text with a final newline.
  function Text(v: Value, prettify: bool): string
    requires Printable(v)
  {
    if prettify then Body(v, 0) + "\n" else Body(v, -1)
  }

  // ---------------------------------------------------------------- parser

  // in.expect(c): leading space is dropped even when c does not follow.
  predicate Expects(t: string, c: char)
  {
    var r := SkipSpace(t);
    |r| > 0 && r[0] == c
  }

  function AfterExpected(t: string, c: char): (r: string)
    ensures |r| <= |t| && (Expects(t, c) ==> |r| < |t|)
  {
    if Expects(t, c) then SkipSpace(t)[1..] else SkipSpace(t)
  }

  // The hexadecimal digits a text starts with, up to n of them.
  function HexRun(t: string, n: nat): (k: nat)
    ensures k <= n && k <= |t|
  {
    if n == 0 || |t| == 0 || !IsHex(t[0]) then 0 else 1 + HexRun(t[1..], n - 1)
  }

  function ParseQuadHex(t: string): (p: Parsed<int>)
    ensures |p.rest| <= |t| && (p.Done? ==> |t| >= 4 && p.rest == t[4..] && 0 <= p.value < 0x10000)
    ensures p.Fail? ==> !p.held
  {
    if |t| >= 4 && IsHex(t[0]) && IsHex(t[1]) && IsHex(t[2]) && IsHex(t[3]) then
      Done(HexValue(t[0]) * 0x1000 + HexValue(t[1]) * 0x100 + HexValue(t[2]) * 0x10 + HexValue(t[3]), t[4..])
    else Fail(t[HexRun(t, 4)..], false)
  }

  // The second half of a surrogate pair, behind the first.
  function ParseLowSurrogate(t: string): (p: Parsed<int>)
    ensures |p.rest| <= |t| && (p.Done? || p.held ==> |p.rest| < |t|)
    ensures p.Done? ==> 0xDC00 <= p.value <= 0xDFFF
  {
    if |t| == 0 || t[0] != '\\' then Fail(t, false)
    else if |t| == 1 || t[1] != 'u' then Fail(t[1..], false)
    else
      var second := ParseQuadHex(t[2..]);
      if second.Done? && !(0xDC00 <= second.value <= 0xDFFF) then Fail(second.rest, true) else second
  }

  function ParseCodepoint(t: string): (p: Parsed<string>)
    ensures |p.rest| <= |t| && (p.Done? || p.held ==> |p.rest| < |t|)
  {
    var first := ParseQuadHex(t);
    if first.Fail? then Fail(first.rest, false)
    else if 0xDC00 <= first.value <= 0xDFFF then Fail(first.rest, true)
    else if 0xD800 <= first.value <= 0xDFFF then
      var second := ParseLowSurrogate(first.rest);
      if second.Fail? then Fail(second.rest, second.held)
      else Done(EncodeUtf8(0x10000 + (first.value - 0xD800) * 0x400 + (second.value - 0xDC00)), second.rest)
    else Done(EncodeUtf8(first.value), first.rest)
  }

  function ParseEscape(t: string): (p: Parsed<string>)
    ensures |p.rest| <= |t| && (p.Done? || p.held ==> |p.rest| < |t|)
  {
    if |t| == 0 then Fail(t, false)
    else match t[0]
      case '"' => Done("\"", t[1..])
      case '\\' => Done("\\", t[1..])
      case '/' => Done("/", t[1..])
      case 'b' => Done([BACKSPACE], t[1..])
      case 'f' => Done([FORMFEED], t[1..])
      case 'n' => Done("\n", t[1..])
      case 'r' => Done("\r", t[1..])
      case 't' => Done("\t", t[1..])
      case 'u' => ParseCodepoint(t[1..])
      case _ => Fail(t[1..], true)
  }

  // The text behind an opening quote.
  function ParseString(t: string): (p: Parsed<string>)
    ensures |p.rest| <= |t| && (p.Done? || p.held ==> |p.rest| < |t|)
    decreases |t|
  {
    if |t| == 0 || t[0] < ' ' then Fail(t, false)
    else if t[0] == '"' then Done("", t[1..])
    else if t[0] == '\\' then
      var e := ParseEscape(t[1..]);
      if e.Fail? then e else Prepend(e.value, ParseString(e.rest))
    else Prepend([t[0]], ParseString(t[1..]))
  }

  predicate StartsWith(t: string, prefix: string)
  {
    |prefix| <= |t| && t[..|prefix|] == prefix
  }

  // How far two texts agree.
  function Agreement(t: string, p: string): (n: nat)
    ensures n <= |t| && n <= |p|
  {
    if t == "" || p == "" || t[0] != p[0] then 0 else 1 + Agreement(t[1..], p[1..])
  }

  function ParseWord(t: string, word: string, v: Value): (p: Parsed<Value>)
    ensures |p.rest| <= |t| && (p.Fail? ==> !p.held)
  {
    if StartsWith(t, word) then Done(v, t[|word|..]) else Fail(t[Agreement(t, word)..], false)
  }

  function ParseNumber(t: string): (p: Parsed<Value>)
    ensures |p.rest| <= |t| && (if p.Done? then |p.rest| < |t| else !p.held)
  {
    var n := NumberLength(t);
    if n == 0 then Fail(t, false)
    else
      match Strtod(t[..n])
      case None => Fail(t[n..], false)
      case Some(x) => Done(Number(x), t[n..])
  }

  // depths counts the arrays that may still be opened.
  function ParseValue(t: string, depths: nat): (p: Parsed<Value>)
    ensures |p.rest| <= |t| && (p.Done? || p.held ==> |p.rest| < |t|)
    decreases |t|, 1
  {
    var s := SkipSpace(t);
    if |s| == 0 then Fail(s, false)
    else match s[0]
      case 'n' => ParseWord(s[1..], "ull", Null)
      case 'f' => ParseWord(s[1..], "alse", Boolean(false))
      case 't' => ParseWord(s[1..], "rue", Boolean(true))
      case '"' =>
        var p := ParseString(s[1..]);
        if p.Fail? then Fail(p.rest, p.held) else Done(String(p.value), p.rest)
      case '[' => ParseArray(s[1..], depths)
      case '{' => ParseObject(s[1..], depths)
      case _ => if IsDigit(s[0]) || s[0] == '-' then ParseNumber(s) else Fail(s, false)
  }

  // Everything behind an opening bracket, which is held.
  function ParseArray(t: string, depths: nat): (p: Parsed<Value>)
    ensures |p.rest| <= |t| && (p.Done? ==> |p.rest| < |t|)
    decreases |t|, 4
  {
    if depths == 0 then Fail(t, true)
    else if Expects(t, ']') then Done(Array([]), AfterExpected(t, ']'))
    else
      var p := ParseItems(AfterExpected(t, ']'), depths - 1);
      if p.Fail? then Fail(p.rest, p.held) else Done(Array(p.value), p.rest)
  }

  // Everything behind an opening brace, which is held.
  function ParseObject(t: string, depths: nat): (p: Parsed<Value>)
    ensures |p.rest| <= |t| && (p.Done? ==> |p.rest| < |t|)
    decreases |t|, 4
  {
    if depths == 0 then Fail(t, true)
    else if Expects(t, '}') then Done(Object([]), AfterExpected(t, '}'))
    else
      var p := ParseMembers(AfterExpected(t, '}'), depths);
      if p.Fail? then Fail(p.rest, p.held) else Done(Object(InsertAll([], p.value)), p.rest)
  }

  // One or more array items and the closing bracket.
  function ParseItems(t: string, depths: nat): (p: Parsed<seq<Value>>)
    ensures |p.rest| <= |t| && (p.Done? || p.held ==> |p.rest| < |t|)
    decreases |t|, 2
  {
    var item := ParseValue(t, depths);
    if item.Fail? then Fail(item.rest, item.held)
    else if Expects(item.rest, ',') then
      var more := ParseItems(AfterExpected(item.rest, ','), depths);
      if more.Fail? then more else Done([item.value] + more.value, more.rest)
    else
      var r := AfterExpected(item.rest, ',');
      if Expects(r, ']') then Done([item.value], AfterExpected(r, ']')) else Fail(AfterExpected(r, ']'), false)
  }

  function ParseMember(t: string, depths: nat): (p: Parsed<Member>)
    ensures |p.rest| <= |t| && (p.Done? || p.held ==> |p.rest| < |t|)
    decreases |t|, 2
  {
    if !Expects(t, '"') then Fail(AfterExpected(t, '"'), false)
    else
      var key := ParseString(AfterExpected(t, '"'));
      if key.Fail? then Fail(key.rest, key.held)
      else if !Expects(key.rest, ':') then Fail(AfterExpected(key.rest, ':'), false)
      else
        var item := ParseValue(AfterExpected(key.rest, ':'), depths);
        if item.Fail? then Fail(item.rest, item.held) else Done(Member(key.value, item.value), item.rest)
  }

  // One or more object members, in text order, and the closing brace.
  function ParseMembers(t: string, depths: nat): (p: Parsed<seq<Member>>)
    ensures |p.rest| <= |t| && (p.Done? || p.held ==> |p.rest| < |t|)
    decreases |t|, 3
  {
    var member := ParseMember(t, depths);
    if member.Fail? then Fail(member.rest, member.held)
    else if Expects(member.rest, ',') then
      var more := ParseMembers(AfterExpected(member.rest, ','), depths);
      if more.Fail? then more else Done([member.value] + more.value, more.rest)
    else
      var r := AfterExpected(member.rest, ',');
      if Expects(r, '}') then Done([member.value], AfterExpected(r, '}')) else Fail(AfterExpected(r, '}'), false)
  }

  // Arrays on every path from the root, within the budget that the parser enforces: an array uses
  // one unit, an object needs one unit but uses none.
  predicate Fits(v: Value, depths: nat)
  {
    match v
    case Array(items) => depths > 0 && forall i | 0 <= i < |items| :: Fits(items[i], depths - 1)
    case Object(members) => depths > 0 && forall i | 0 <= i < |members| :: Fits(members[i].value, depths)
    case _ => true
  }

  // Every object inside v has its members in key order, as a std::map has.
  predicate Ordered(v: Value)
  {
    match v
    case Array(items) => forall i | 0 <= i < |items| :: Ordered(items[i])
    case Object(members) => KeyOrdered(members) && forall i | 0 <= i < |members| :: Ordered(members[i].value)
    case _ => true
  }
}
