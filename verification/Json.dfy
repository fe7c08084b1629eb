// The lazy cursor, the recursive-descent parser and the serializer of
// core/include/jericho/picojson.h, with the state they update in place.
module Json {
  import opened Common
  import opened JsonText
  import S = JsonSpec

  // picojson::input. The octet last returned is only stepped over by the next call.
  class Input {
    const text: string
    var cur: nat
    var consumed: bool
    var line: nat

    ghost predicate Valid()
      reads this
    {
      cur <= |text| && (consumed ==> cur < |text|) && line == 1 + Newlines(text[..cur])
    }

    // The plain position behind the lazy representation, and the text from there on.

    ghost function Position(): nat
      reads this
    {
      if consumed then cur + 1 else cur
    }

    ghost function Rest(): string
      requires Valid()
      reads this
    {
      text[Position()..]
    }

    constructor (text: string)
      ensures Valid() && this.text == text && Rest() == text
    {
      this.text := text;
      cur, consumed, line := 0, false, 1;
      new;
      assert text[..0] == "" && text[0..] == text;
    }

    method Getc() returns (c: int)
      requires Valid()
      modifies this
      ensures Valid() && cur == old(Position())
      ensures consumed == (|old(Rest())| > 0)
      ensures |old(Rest())| == 0 ==> c == -1 && Rest() == old(Rest())
      ensures |old(Rest())| > 0 ==> c == old(Rest())[0] as int && Rest() == old(Rest())[1..]
    {
      hide Newlines;
      if consumed {
        NewlinesStep(text, cur);
        if text[cur] == '\n' {
          line := line + 1;
        }
        cur := cur + 1;
      }
      assert text[cur..] == old(Rest());
      assert cur < |text| ==> text[cur..][0] == text[cur] && text[cur..][1..] == text[cur + 1..];
      if cur == |text| {
        consumed := false;
        return -1;
      }
      consumed := true;
      c := text[cur] as int;
    }

    method Ungetc()
      requires Valid()
      modifies this
      ensures Valid() && !consumed && cur == old(cur) && Rest() == text[cur..]
    {
      consumed := false;
    }

    // input::cur: the plain position; steps without counting lines, so it ends the use of the cursor.
    method Finish() returns (position: nat)
      requires Valid()
      modifies this
      ensures position == old(Position())
    {
      if consumed {
        consumed := false;
        cur := cur + 1;
      }
      position := cur;
    }

    method SkipWs()
      requires Valid()
      modifies this
      ensures Valid() && !consumed && Rest() == SkipSpace(old(Rest()))
    {
      while true
        invariant Valid() && SkipSpace(Rest()) == SkipSpace(old(Rest()))
        decreases |Rest()|
      {
        var ch := Getc();
        if !(ch == ' ' as int || ch == '\t' as int || ch == '\n' as int || ch == '\r' as int) {
          Ungetc();
          break;
        }
      }
    }

    method Expect(expected: char) returns (ok: bool)
      requires Valid()
      modifies this
      ensures Valid() && ok == S.Expects(old(Rest()), expected)
      ensures Rest() == S.AfterExpected(old(Rest()), expected) && consumed == ok
    {
      SkipWs();
      var ch := Getc();
      if ch != expected as int {
        Ungetc();
        return false;
      }
      ok := true;
    }

    method Match(pattern: string) returns (ok: bool)
      requires Valid()
      modifies this
      ensures Valid() && ok == S.StartsWith(old(Rest()), pattern)
      ensures Rest() == old(Rest())[S.Agreement(old(Rest()), pattern)..]
      ensures if ok then Rest() == old(Rest())[|pattern|..] else !consumed
    {
      ghost var start := Rest();
      var i := 0;
      while i < |pattern|
        invariant 0 <= i <= |pattern| && i <= |start| && Valid()
        invariant start[..i] == pattern[..i] && Rest() == start[i..]
      {
        var ch := Getc();
        if ch != pattern[i] as int {
          Ungetc();
          assert i < |start| ==> start[i] != pattern[i];
          AgreementIs(start, pattern, i);
          return false;
        }
        assert start[i..][0] == start[i] && start[i..][1..] == start[i + 1..];
        assert start[..i + 1] == start[..i] + [start[i]] && pattern[..i + 1] == pattern[..i] + [pattern[i]];
        i := i + 1;
      }
      assert start[..|pattern|] == pattern[..|pattern|] == pattern;
      AgreementIs(start, pattern, i);
      ok := true;
    }
  }

  lemma NewlinesStep(t: string, i: nat)
    requires i < |t|
    ensures Newlines(t[..i + 1]) == Newlines(t[..i]) + if t[i] == '\n' then 1 else 0
  {
    assert t[..i + 1][..i] == t[..i] && t[..i + 1][i] == t[i];
  }

  lemma {:induction false} AgreementIs(t: string, p: string, i: nat)
    requires i <= |t| && i <= |p| && t[..i] == p[..i] && (i == |t| || i == |p| || t[i] != p[i])
    ensures S.Agreement(t, p) == i
    decreases i
  {
    if i > 0 {
      assert t[0] == t[..i][0] == p[..i][0] == p[0];
      assert t[1..][..i - 1] == t[..i][1..] && p[1..][..i - 1] == p[..i][1..];
      AgreementIs(t[1..], p[1..], i - 1);
    }
  }

  ghost function HexPrefix(t: string, n: nat): nat
    requires n <= |t| && forall i | 0 <= i < n :: IsHex(t[i])
  {
    if n == 0 then 0 else HexPrefix(t, n - 1) * 16 + HexValue(t[n - 1])
  }

  lemma HexPrefix4(t: string)
    requires |t| >= 4 && forall i | 0 <= i < 4 :: IsHex(t[i])
    ensures S.ParseQuadHex(t) == Done(HexPrefix(t, 4), t[4..])
  {
    hide HexValue;
    assert HexPrefix(t, 4) == HexPrefix(t, 3) * 16 + HexValue(t[3]);
    assert HexPrefix(t, 3) == HexPrefix(t, 2) * 16 + HexValue(t[2]);
    assert HexPrefix(t, 2) == HexPrefix(t, 1) * 16 + HexValue(t[1]);
    assert HexPrefix(t, 1) == HexPrefix(t, 0) * 16 + HexValue(t[0]);
  }

  lemma {:induction false} HexRunIs(t: string, i: nat, n: nat)
    requires i <= |t| && i <= n && forall k | 0 <= k < i :: IsHex(t[k])
    ensures i == |t| || i == n || !IsHex(t[i]) ==> S.HexRun(t, n) == i
    decreases i
  {
    if i > 0 {
      assert i < |t| ==> t[1..][i - 1] == t[i];
      HexRunIs(t[1..], i - 1, n - 1);
    }
  }

  // Where four digits end early.
  lemma HexStops(t: string, i: nat)
    requires i < 4 && i <= |t| && forall k | 0 <= k < i :: IsHex(t[k])
    requires i == |t| || !IsHex(t[i])
    ensures S.ParseQuadHex(t) == Fail(t[i..], false)
  {
    HexRunIs(t, i, 4);
  }

  lemma HexNone(t: string)
    ensures HexPrefix(t, 0) == 0
  {
  }

  lemma HexStep(t: string, i: nat)
    requires i < |t| && forall k | 0 <= k <= i :: IsHex(t[k])
    ensures HexPrefix(t, i + 1) == HexPrefix(t, i) * 16 + HexValue(t[i])
  {
  }

  method ParseQuadHex(input: Input) returns (r: int)
    requires input.Valid()
    modifies input
    ensures input.Valid()
    ensures var p := S.ParseQuadHex(old(input.Rest()));
            input.Rest() == p.rest && input.consumed == p.Done? && r == if p.Done? then p.value else -1
  {
    hide S.ParseQuadHex, HexPrefix;
    ghost var start := input.Rest();
    var uniCh: int := 0;
    assert start[0..] == start;
    HexNone(start);
    for i := 0 to 4
      invariant input.Valid() && i <= |start| && input.Rest() == start[i..]
      invariant forall k | 0 <= k < i :: IsHex(start[k])
      invariant uniCh == HexPrefix(start, i) && (i > 0 ==> input.consumed)
    {
      var hex := input.Getc();
      if hex == -1 {
        HexStops(start, i);
        return -1;
      }
      assert hex == start[i] as int && start[i..][1..] == start[i + 1..];
      if '0' as int <= hex <= '9' as int {
        hex := hex - '0' as int;
      } else if 'A' as int <= hex <= 'F' as int {
        hex := hex - ('A' as int - 0xa);
      } else if 'a' as int <= hex <= 'f' as int {
        hex := hex - ('a' as int - 0xa);
      } else {
        HexStops(start, i);
        input.Ungetc();
        return -1;
      }
      HexStep(start, i);
      uniCh := uniCh * 16 + hex;
    }
    HexPrefix4(start);
    r := uniCh;
  }

  // The octets _parse_codepoint appends for a code point.
  method PushUtf8(uniCh: int) returns (out: string)
    requires 0 <= uniCh < 0x110000
    ensures out == EncodeUtf8(uniCh)
  {
    out := "";
    if uniCh < 0x80 {
      out := out + [uniCh as char];
    } else {
      if uniCh < 0x800 {
        out := out + [(0xc0 + uniCh / 0x40) as char];
      } else {
        if uniCh < 0x10000 {
          out := out + [(0xe0 + uniCh / 0x1000) as char];
        } else {
          out := out + [(0xf0 + uniCh / 0x40000) as char];
          out := out + [(0x80 + uniCh / 0x1000 % 0x40) as char];
        }
        out := out + [(0x80 + uniCh / 0x40 % 0x40) as char];
      }
      out := out + [(0x80 + uniCh % 0x40) as char];
    }
  }

  // The second half of a surrogate pair, or -1.
  method ParseLowSurrogate(input: Input) returns (second: int)
    requires input.Valid()
    modifies input
    ensures input.Valid()
    ensures var p := S.ParseLowSurrogate(old(input.Rest()));
            && input.Rest() == p.rest && second == (if p.Done? then p.value else -1)
            && (p.Fail? ==> input.consumed == p.held)
  {
    hide S.ParseQuadHex;
    ghost var start := input.Rest();
    var ch := input.Getc();
    if ch == '\\' as int {
      ch := input.Getc();
      if ch != 'u' as int {
        input.Ungetc();
        return -1;
      }
    } else {
      input.Ungetc();
      return -1;
    }
    assert input.Rest() == start[2..];
    second := ParseQuadHex(input);
    if !(0xdc00 <= second <= 0xdfff) {
      return -1;
    }
  }

  // out is what _parse_codepoint appends to the string being read.
  method ParseCodepoint(input: Input) returns (ok: bool, out: string)
    requires input.Valid()
    modifies input
    ensures input.Valid()
    ensures var p := S.ParseCodepoint(old(input.Rest()));
            ok == p.Done? && input.Rest() == p.rest && (if ok then out == p.value else input.consumed == p.held)
  {
    hide EncodeUtf8, S.ParseQuadHex, S.ParseLowSurrogate;
    var uniCh := ParseQuadHex(input);
    if uniCh == -1 {
      return false, "";
    }
    if 0xd800 <= uniCh <= 0xdfff {
      if 0xdc00 <= uniCh {
        return false, "";
      }
      var second := ParseLowSurrogate(input);
      if second == -1 {
        return false, "";
      }
      uniCh := (uniCh - 0xd800) * 0x400 + (second - 0xdc00) % 0x400;
      uniCh := uniCh + 0x10000;
    }
    out := PushUtf8(uniCh);
    ok := true;
  }

  // The octets that stand behind a backslash.
  method ParseEscape(input: Input) returns (ok: bool, out: string)
    requires input.Valid()
    modifies input
    ensures input.Valid()
    ensures var p := S.ParseEscape(old(input.Rest()));
            ok == p.Done? && input.Rest() == p.rest && (if ok then out == p.value else input.consumed == p.held)
  {
    hide S.ParseCodepoint;
    var ch := input.Getc();
    if ch == -1 {
      return false, "";
    }
    if ch == '"' as int {
      out := "\"";
    } else if ch == '\\' as int {
      out := "\\";
    } else if ch == '/' as int {
      out := "/";
    } else if ch == 'b' as int {
      out := [BACKSPACE];
    } else if ch == 'f' as int {
      out := [FORMFEED];
    } else if ch == 'n' as int {
      out := "\n";
    } else if ch == 'r' as int {
      out := "\r";
    } else if ch == 't' as int {
      out := "\t";
    } else if ch == 'u' as int {
      ok, out := ParseCodepoint(input);
      return;
    } else {
      return false, "";
    }
    ok := true;
  }

  lemma PrependPrepend(a: string, b: string, p: Parsed<string>)
    ensures Prepend(a, Prepend(b, p)) == Prepend(a + b, p)
    ensures Prepend("", p) == p
  {
    if p.Done? {
      assert a + (b + p.value) == (a + b) + p.value;
      assert "" + p.value == p.value;
    }
  }

  method ParseString(input: Input) returns (ok: bool, out: string)
    requires input.Valid()
    modifies input
    ensures input.Valid()
    ensures var p := S.ParseString(old(input.Rest()));
            ok == p.Done? && input.Rest() == p.rest && (if ok then out == p.value else input.consumed == p.held)
  {
    hide S.ParseEscape;
    out := "";
    ghost var whole := S.ParseString(input.Rest());
    PrependPrepend("", "", whole);
    while true
      invariant input.Valid()
      invariant whole == Prepend(out, S.ParseString(input.Rest()))
      decreases |input.Rest()|
    {
      ghost var before, t := out, input.Rest();
      var ch := input.Getc();
      if ch < ' ' as int {
        input.Ungetc();
        return false, out;
      } else if ch == '"' as int {
        assert out + "" == out;
        return true, out;
      } else if ch == '\\' as int {
        var more;
        ok, more := ParseEscape(input);
        if !ok {
          return;
        }
        out := out + more;
        PrependPrepend(before, more, S.ParseString(input.Rest()));
      } else {
        out := out + [ch as char];
        PrependPrepend(before, [ch as char], S.ParseString(input.Rest()));
      }
    }
  }

  lemma NumberStep(t: string, n: nat)
    requires n <= |t|
    ensures n < |t| ==> t[..n + 1] == t[..n] + [t[n]] && t[n..][0] == t[n] && t[n..][1..] == t[n + 1..]
    ensures n < |t| && IsNumberChar(t[n]) ==> NumberLength(t[n..]) == 1 + NumberLength(t[n + 1..])
    ensures n == |t| || !IsNumberChar(t[n]) ==> NumberLength(t[n..]) == 0
  {
    assert n < |t| ==> t[n..][1..] == t[n + 1..];
  }

  // One turn of the loop of _parse_number.
  method ParseNumberChar(input: Input) returns (more: bool, c: char)
    requires input.Valid()
    modifies input
    ensures input.Valid()
    ensures var t := old(input.Rest());
            && more == (|t| > 0 && IsNumberChar(t[0]))
            && (if more then c == t[0] && input.Rest() == t[1..] else input.Rest() == t && !input.consumed)
  {
    var ch := input.Getc();
    if '0' as int <= ch <= '9' as int || ch == '+' as int || ch == '-' as int || ch == 'e' as int || ch == 'E' as int {
      return true, ch as char;
    } else if ch == '.' as int {
      return true, '.';
    } else {
      input.Ungetc();
      return false, ' ';
    }
  }

  method ParseNumberText(input: Input) returns (numStr: string)
    requires input.Valid()
    modifies input
    ensures input.Valid()
    ensures var n := NumberLength(old(input.Rest()));
            numStr == old(input.Rest())[..n] && input.Rest() == old(input.Rest())[n..] && !input.consumed
  {
    hide NumberLength, IsNumberChar;
    numStr := "";
    ghost var start, n: nat := input.Rest(), 0;
    assert start[0..] == start;
    while true
      invariant input.Valid() && n <= |start|
      invariant numStr == start[..n]
      invariant input.Rest() == start[n..]
      invariant NumberLength(start) == n + NumberLength(start[n..])
      decreases |start| - n
    {
      NumberStep(start, n);
      var more, c := ParseNumberChar(input);
      if !more {
        break;
      }
      numStr := numStr + [c];
      n := n + 1;
    }
  }

  // default_parse_context: where the value goes, and how many arrays may still be opened.
  class ParseContext {
    var out: S.Value
    var depths: nat

    constructor (depths: nat)
      ensures this.depths == depths
    {
      out := S.Null;
      this.depths := depths;
    }

    method ParseArrayStart() returns (ok: bool)
      modifies this
      ensures ok == (old(depths) != 0)
      ensures if ok then depths == old(depths) - 1 && out == S.Array([]) else depths == old(depths) && out == old(out)
    {
      if depths == 0 {
        return false;
      }
      depths := depths - 1;
      out := S.Array([]);
      ok := true;
    }

    method ParseArrayItem(input: Input) returns (ok: bool)
      requires input.Valid() && out.Array?
      modifies this, input
      ensures input.Valid() && depths == old(depths)
      ensures var p := S.ParseValue(old(input.Rest()), depths);
              && ok == p.Done? && input.Rest() == p.rest
              && (if ok then out == S.Array(old(out).items + [p.value]) else input.consumed == p.held)
      decreases |input.Rest()|, 2
    {
      var child := new ParseContext(depths);
      ok := Parse(child, input);
      out := S.Array(out.items + [child.out]);
    }

    method ParseArrayStop() returns (ok: bool)
      modifies this`depths
      ensures ok && depths == old(depths) + 1
    {
      depths := depths + 1;
      ok := true;
    }

    method ParseObjectStart() returns (ok: bool)
      modifies this
      ensures depths == old(depths) && ok == (depths != 0)
      ensures out == if ok then S.Object([]) else old(out)
    {
      if depths == 0 {
        return false;
      }
      out := S.Object([]);
      ok := true;
    }

    method ParseObjectItem(input: Input, key: string) returns (ok: bool)
      requires input.Valid() && out.Object?
      modifies this, input
      ensures input.Valid() && depths == old(depths)
      ensures var p := S.ParseValue(old(input.Rest()), depths);
              && ok == p.Done? && input.Rest() == p.rest
              && (if ok then out == S.Object(S.Insert(old(out).members, key, p.value)) else input.consumed == p.held)
      decreases |input.Rest()|, 2
    {
      var child := new ParseContext(depths);
      ok := Parse(child, input);
      out := S.Object(S.Insert(out.members, key, child.out));
    }

    method ParseObjectStop() returns (ok: bool)
      modifies this`depths
      ensures ok && depths == old(depths) + 1
    {
      depths := depths + 1;
      ok := true;
    }
  }

  // Everything behind the opening bracket.
  method ParseArray(ctx: ParseContext, input: Input) returns (ok: bool)
    requires input.Valid()
    modifies ctx, input
    ensures input.Valid()
    ensures var p := S.ParseArray(old(input.Rest()), old(ctx.depths));
            && ok == p.Done? && input.Rest() == p.rest
            && (ok ==> ctx.out == p.value && ctx.depths == old(ctx.depths))
            && (!ok ==> input.consumed == if old(ctx.depths) == 0 then old(input.consumed) else p.held)
    decreases |input.Rest()|, 4
  {
    hide S.ParseItems, S.AfterExpected, S.Expects;
    ok := ctx.ParseArrayStart();
    if !ok {
      return;
    }
    ok := input.Expect(']');
    if ok {
      ok := ctx.ParseArrayStop();
      return;
    }
    ok := ParseItems(ctx, input);
    if !ok {
      return;
    }
    ok := ctx.ParseArrayStop();
  }

  // The loop over the items, up to and including the closing bracket.
  method ParseItems(ctx: ParseContext, input: Input) returns (ok: bool)
    requires input.Valid() && ctx.out == S.Array([])
    modifies ctx, input
    ensures input.Valid()
    ensures var p := S.ParseItems(old(input.Rest()), old(ctx.depths));
            && ok == p.Done? && input.Rest() == p.rest
            && (if ok then ctx.out == S.Array(p.value) && ctx.depths == old(ctx.depths) else input.consumed == p.held)
    decreases |input.Rest()|, 3
  {
    hide S.ParseValue, S.Expects, S.AfterExpected;
    ghost var whole, depths := S.ParseItems(input.Rest(), ctx.depths), ctx.depths;
    var again := true;
    PrependItems([], whole);
    while again
      invariant input.Valid() && ctx.depths == depths && ctx.out.Array?
      invariant again ==> |input.Rest()| <= |old(input.Rest())|
      invariant again ==> whole == ItemsThen(ctx.out.items, S.ParseItems(input.Rest(), depths))
      invariant !again ==>
                  whole == if S.Expects(input.Rest(), ']')
                           then Done(ctx.out.items, S.AfterExpected(input.Rest(), ']'))
                           else Fail(S.AfterExpected(input.Rest(), ']'), false)
      decreases again, |input.Rest()|
    {
      ghost var before, t := ctx.out.items, input.Rest();
      ghost var item := S.ParseValue(t, depths);
      ok := ctx.ParseArrayItem(input);
      if !ok {
        return;
      }
      again := input.Expect(',');
      if again {
        PrependMore(before, item.value, S.ParseItems(input.Rest(), depths));
      }
    }
    ok := input.Expect(']');
  }

  // Items already stored, followed by the outcome of reading the others.
  ghost function ItemsThen<T>(items: seq<T>, p: Parsed<seq<T>>): Parsed<seq<T>>
  {
    if p.Fail? then p else Done(items + p.value, p.rest)
  }

  lemma PrependItems<T>(items: seq<T>, p: Parsed<seq<T>>)
    requires items == []
    ensures ItemsThen(items, p) == p
  {
    if p.Done? {
      assert [] + p.value == p.value;
    }
  }

  lemma PrependMore<T>(items: seq<T>, x: T, p: Parsed<seq<T>>)
    ensures ItemsThen(items + [x], p) == ItemsThen(items, ItemsThen([x], p))
  {
    if p.Done? {
      assert items + [x] + p.value == items + ([x] + p.value);
    }
  }

  // Everything behind the opening brace. The end of an object adds a unit that its start did not spend; the
  // context is not used any more.
  method ParseObject(ctx: ParseContext, input: Input) returns (ok: bool)
    requires input.Valid()
    modifies ctx, input
    ensures input.Valid()
    ensures var p := S.ParseObject(old(input.Rest()), old(ctx.depths));
            && ok == p.Done? && input.Rest() == p.rest
            && (ok ==> ctx.out == p.value && ctx.depths == old(ctx.depths) + 1)
            && (!ok ==> input.consumed == if old(ctx.depths) == 0 then old(input.consumed) else p.held)
    decreases |input.Rest()|, 5
  {
    hide S.ParseMembers, S.AfterExpected, S.Expects;
    ok := ctx.ParseObjectStart();
    if !ok {
      return;
    }
    ok := input.Expect('}');
    if ok {
      ok := ctx.ParseObjectStop();
      return;
    }
    ok := ParseMembers(ctx, input);
    if !ok {
      return;
    }
    ok := ctx.ParseObjectStop();
  }

  // One turn of the loop over the members.
  method ParseMember(ctx: ParseContext, input: Input) returns (ok: bool)
    requires input.Valid() && ctx.out.Object?
    modifies ctx, input
    ensures input.Valid() && ctx.depths == old(ctx.depths)
    ensures var p := S.ParseMember(old(input.Rest()), ctx.depths);
            && ok == p.Done? && input.Rest() == p.rest
            && (if ok then ctx.out == S.Object(S.Insert(old(ctx.out).members, p.value.key, p.value.value))
                else input.consumed == p.held)
    decreases |input.Rest()|, 3
  {
    hide S.ParseValue, S.ParseString, S.Expects, S.Insert;
    ok := input.Expect('"');
    if !ok {
      return;
    }
    var key;
    ok, key := ParseString(input);
    if !ok {
      return;
    }
    ok := input.Expect(':');
    if !ok {
      return;
    }
    ok := ctx.ParseObjectItem(input, key);
  }

  // The loop over the members, up to and including the closing brace.
  method ParseMembers(ctx: ParseContext, input: Input) returns (ok: bool)
    requires input.Valid() && ctx.out == S.Object([])
    modifies ctx, input
    ensures input.Valid()
    ensures var p := S.ParseMembers(old(input.Rest()), old(ctx.depths));
            && ok == p.Done? && input.Rest() == p.rest
            && (if ok then ctx.out == S.Object(S.InsertAll([], p.value)) && ctx.depths == old(ctx.depths)
                else input.consumed == p.held)
    decreases |input.Rest()|, 4
  {
    hide S.ParseMember, S.Expects, S.AfterExpected, S.Insert, S.InsertAll;
    ghost var whole, depths := S.ParseMembers(input.Rest(), ctx.depths), ctx.depths;
    var again := true;
    while again
      invariant input.Valid() && ctx.depths == depths && ctx.out.Object?
      invariant again ==> |input.Rest()| <= |old(input.Rest())|
      invariant again ==>
                  var p := S.ParseMembers(input.Rest(), depths);
                  && whole.Done? == p.Done? && whole.rest == p.rest
                  && (if p.Done? then S.InsertAll([], whole.value) == S.InsertAll(ctx.out.members, p.value)
                      else whole.held == p.held)
      invariant !again ==>
                  && whole.Done? == S.Expects(input.Rest(), '}') && whole.rest == S.AfterExpected(input.Rest(), '}')
                  && (if whole.Done? then S.InsertAll([], whole.value) == ctx.out.members else !whole.held)
      decreases again, |input.Rest()|
    {
      ghost var before := ctx.out.members;
      ghost var member := S.ParseMember(input.Rest(), depths);
      ok := ParseMember(ctx, input);
      if !ok {
        return;
      }
      again := input.Expect(',');
      InsertAllStep(before, member.value, if again then S.ParseMembers(input.Rest(), depths) else Done([], ""));
    }
    ok := input.Expect('}');
  }

  lemma InsertAllStep(members: seq<S.Member>, m: S.Member, p: Parsed<seq<S.Member>>)
    ensures S.InsertAll(members, [m]) == S.Insert(members, m.key, m.value)
    ensures p.Done? ==> S.InsertAll(members, [m] + p.value) == S.InsertAll(S.Insert(members, m.key, m.value), p.value)
  {
    if p.Done? {
      assert ([m] + p.value)[1..] == p.value;
    }
  }

  // The branches for the three words.
  method ParseWord(ctx: ParseContext, input: Input, word: string, v: S.Value) returns (ok: bool)
    requires input.Valid()
    modifies ctx, input
    ensures input.Valid()
    ensures var p := S.ParseWord(old(input.Rest()), word, v);
            ok == p.Done? && input.Rest() == p.rest && (if ok then ctx.out == p.value else input.consumed == p.held)
  {
    ok := input.Match(word);
    if ok {
      ctx.out := v;
    }
  }

  // The branch for numbers.
  method ParseNumber(ctx: ParseContext, input: Input) returns (ok: bool)
    requires input.Valid()
    modifies ctx, input
    ensures input.Valid()
    ensures var p := S.ParseNumber(old(input.Rest()));
            ok == p.Done? && input.Rest() == p.rest && (if ok then ctx.out == p.value else input.consumed == p.held)
  {
    hide Strtod;
    var numStr := ParseNumberText(input);
    if |numStr| == 0 {
      return false;
    }
    var f := Strtod(numStr);
    if f.Some? {
      ctx.out := S.Number(f.value);
      return true;
    }
    return false;
  }

  lemma NoUnitLeft(t: string)
    ensures S.ParseArray(t, 0) == S.ParseObject(t, 0) == Fail(t, true)
  {
  }

  // The cases of the grammar.
  lemma ValueIs(t: string, depths: nat)
    ensures var (s, p) := (SkipSpace(t), S.ParseValue(t, depths));
            && (s == "" ==> p == Fail(s, false))
            && (s != "" ==>
                  var (c, r) := (s[0], s[1..]);
                  && (c == 'n' ==> p == S.ParseWord(r, "ull", S.Null))
                  && (c == 'f' ==> p == S.ParseWord(r, "alse", S.Boolean(false)))
                  && (c == 't' ==> p == S.ParseWord(r, "rue", S.Boolean(true)))
                  && (c == '"' ==>
                        var q := S.ParseString(r);
                        p == if q.Fail? then Fail(q.rest, q.held) else Done(S.String(q.value), q.rest))
                  && (c == '[' ==> p == S.ParseArray(r, depths))
                  && (c == '{' ==> p == S.ParseObject(r, depths))
                  && (IsDigit(c) || c == '-' ==> p == S.ParseNumber(s))
                  && (!IsDigit(c) && c !in "nft\"[{-" ==> p == Fail(s, false)))
  {
    hide S.ParseArray, S.ParseObject, S.ParseString, S.ParseNumber, S.ParseWord, SkipSpace;
  }

  method Parse(ctx: ParseContext, input: Input) returns (ok: bool)
    requires input.Valid()
    modifies ctx, input
    ensures input.Valid()
    ensures var p := S.ParseValue(old(input.Rest()), old(ctx.depths));
            ok == p.Done? && input.Rest() == p.rest && (if ok then ctx.out == p.value else input.consumed == p.held)
    decreases |input.Rest()|, 1
  {
    hide S.ParseValue, S.ParseArray, S.ParseObject, S.ParseString, S.ParseNumber, S.ParseWord, SkipSpace;
    ValueIs(input.Rest(), ctx.depths);
    input.SkipWs();
    ghost var s := input.Rest();
    var ch := input.Getc();
    NoUnitLeft(input.Rest());
    if ch == 'n' as int {
      ok := ParseWord(ctx, input, "ull", S.Null);
    } else if ch == 'f' as int {
      ok := ParseWord(ctx, input, "alse", S.Boolean(false));
    } else if ch == 't' as int {
      ok := ParseWord(ctx, input, "rue", S.Boolean(true));
    } else if ch == '"' as int {
      var text;
      ok, text := ParseString(input);
      ctx.out := S.String(text);
    } else if ch == '[' as int {
      ok := ParseArray(ctx, input);
    } else if ch == '{' as int {
      ok := ParseObject(ctx, input);
    } else {
      ok := ParseDefault(ctx, input, ch, s);
    }
  }

  // The default branch: a number, or nothing that is known. The octet that has been read goes back.
  method ParseDefault(ctx: ParseContext, input: Input, ch: int, ghost s: string) returns (ok: bool)
    requires input.Valid() && input.cur <= |input.text| && s == input.text[input.cur..]
    requires ch == if s == "" then -1 else s[0] as int
    modifies ctx, input
    ensures input.Valid()
    ensures var p := if s != "" && (IsDigit(s[0]) || s[0] == '-') then S.ParseNumber(s) else Fail(s, false);
            ok == p.Done? && input.Rest() == p.rest && (if ok then ctx.out == p.value else input.consumed == p.held)
  {
    hide S.ParseNumber;
    input.Ungetc();
    if '0' as int <= ch <= '9' as int || ch == '-' as int {
      ok := ParseNumber(ctx, input);
    } else {
      ok := false;
    }
  }

  // The rest of the line an error message quotes, without control octets.
  function Near(t: string): string
  {
    if |t| == 0 || t[0] == '\n' then ""
    else (if t[0] >= ' ' then [t[0]] else "") + Near(t[1..])
  }

  // What follows the first line of a text.
  function AfterLine(t: string): string
  {
    if |t| == 0 then "" else if t[0] == '\n' then t[1..] else AfterLine(t[1..])
  }

  ghost function Complaint(text: string, cur: nat, rest: string): string
    requires cur <= |text|
  {
    "syntax error at line " + Decimal(1 + Newlines(text[..cur])) + " near: " + Near(rest)
  }

  method ErrorMessage(input: Input) returns (err: string)
    requires input.Valid()
    modifies input
    ensures input.Valid()
    ensures err != "" && err == Complaint(input.text, old(input.cur), old(input.Rest()))
    ensures input.Rest() == AfterLine(old(input.Rest()))
  {
    hide Decimal, Newlines;
    ghost var from := input.Rest();
    err := "syntax error at line " + Decimal(input.line) + " near: ";
    ghost var head := err;
    while true
      invariant input.Valid()
      invariant |err| >= |head| && err + Near(input.Rest()) == head + Near(from)
      invariant AfterLine(input.Rest()) == AfterLine(from)
      decreases |input.Rest()|
    {
      ghost var t := input.Rest();
      var ch := input.Getc();
      if ch == -1 || ch == '\n' as int {
        assert Near(t) == "" && err + "" == err;
        break;
      } else if ch >= ' ' as int {
        Associative(err, [t[0]], Near(t[1..]));
        err := err + [ch as char];
      } else {
        assert "" + Near(t[1..]) == Near(t[1..]);
      }
    }
  }

  // picojson::parse: the value, an error message that is empty on success, and the end position. The
  // message names the line of the octet the parser looked at last and quotes what it has not read of that
  // line, which is read to its end.
  method ParseText(text: string) returns (value: S.Value, err: string, position: nat)
    ensures position <= |text|
    ensures var p := S.ParseValue(text, S.MAX_DEPTHS);
            if p.Done? then err == "" && value == p.value && text[position..] == p.rest
            else
              var cur := |text| - |p.rest| - if p.held then 1 else 0;
              err != "" && err == Complaint(text, cur, p.rest) && text[position..] == AfterLine(p.rest)
  {
    hide S.ParseValue, Complaint, AfterLine, Newlines;
    var ctx := new ParseContext(S.MAX_DEPTHS);
    var input := new Input(text);
    err := "";
    var ok := Parse(ctx, input);
    if !ok {
      ghost var p := S.ParseValue(text, S.MAX_DEPTHS);
      assert |input.Rest()| == |text| - input.Position();
      assert input.cur == |text| - |p.rest| - if p.held then 1 else 0;
      err := ErrorMessage(input);
    }
    value := ctx.out;
    position := input.Finish();
  }

  // The output iterator of the serializer.
  class Output {
    var text: string

    constructor ()
      ensures text == ""
    {
      text := "";
    }

    method Put(more: string)
      modifies this
      ensures text == old(text) + more
    {
      text := text + more;
    }
  }

  method SerializeString(s: string, oi: Output)
    modifies oi
    ensures oi.text == old(oi.text) + S.Quoted(s)
  {
    hide S.Escaped;
    oi.Put("\"");
    ghost var start := oi.text;
    var i := 0;
    assert s[0..] == s;
    while i < |s|
      invariant 0 <= i <= |s|
      invariant oi.text + S.EscapedText(s[i..]) == start + S.EscapedText(s)
    {
      assert s[i..][1..] == s[i + 1..];
      Associative(oi.text, S.Escaped(s[i]), S.EscapedText(s[i + 1..]));
      oi.Put(S.Escaped(s[i]));
      i := i + 1;
    }
    assert s[i..] == "" && oi.text + "" == oi.text;
    oi.Put("\"");
    Associative(start, S.EscapedText(s), "\"");
    Associative(old(oi.text), "\"", S.EscapedText(s) + "\"");
  }

  method Indent(oi: Output, indent: int)
    requires indent >= 0
    modifies oi
    ensures oi.text == old(oi.text) + S.Indentation(indent)
  {
    oi.Put("\n");
    var i := 0;
    while i < indent * S.INDENT_WIDTH
      invariant 0 <= i <= indent * S.INDENT_WIDTH
      invariant oi.text == old(oi.text) + "\n" + S.Spaces(i)
    {
      oi.Put(" ");
      i := i + 1;
    }
  }

  method SerializeItems(items: seq<S.Value>, indent: int, oi: Output)
    requires indent >= -1 && indent != 0 && forall i | 0 <= i < |items| :: S.Printable(items[i])
    modifies oi
    ensures oi.text == old(oi.text) + S.ItemsText(items, indent, true)
    decreases items, 0
  {
    hide S.Body, S.Indentation;
    var i := 0;
    assert items[0..] == items;
    while i < |items|
      invariant 0 <= i <= |items|
      invariant oi.text + S.ItemsText(items[i..], indent, i == 0) == old(oi.text) + S.ItemsText(items, indent, true)
    {
      ghost var before, separator, gap := oi.text, S.Separator(i == 0), S.Indentation(indent);
      ghost var body, rest := S.Body(items[i], indent), S.ItemsText(items[i + 1..], indent, false);
      assert items[i..][1..] == items[i + 1..];
      PutSeparator(i == 0, indent, oi);
      Serialize(items[i], indent, oi);
      Associative(before, separator, gap + (body + rest));
      Associative(before + separator, gap, body + rest);
      Associative(before + separator + gap, body, rest);
      assert S.Body(items[i], indent) + "" == S.Body(items[i], indent);
      i := i + 1;
    }
    assert items[i..] == [] && oi.text + "" == oi.text;
  }

  // The comma and the line break in front of an item or a member.
  method PutSeparator(first: bool, indent: int, oi: Output)
    requires indent >= -1
    modifies oi
    ensures oi.text == old(oi.text) + S.Separator(first) + S.Indentation(indent)
  {
    if !first {
      oi.Put(",");
    }
    if indent != -1 {
      Indent(oi, indent);
    }
  }

  lemma MemberPieces(
    before: string, separator: string, gap: string, key: string, space: string, body: string, rest: string)
    ensures before + separator + gap + key + ":" + space + body + rest
         == before + (separator + (gap + (key + (":" + (space + (body + rest))))))
  {
    Associative(before, separator, gap + (key + (":" + (space + (body + rest)))));
    Associative(before + separator, gap, key + (":" + (space + (body + rest))));
    Associative(before + separator + gap, key, ":" + (space + (body + rest)));
    Associative(before + separator + gap + key, ":", space + (body + rest));
    Associative(before + separator + gap + key + ":", space, body + rest);
    Associative(before + separator + gap + key + ":" + space, body, rest);
  }

  // The first member of what is left, and the others.
  lemma MembersTextFrom(members: seq<S.Member>, i: nat, indent: int, first: bool)
    requires i < |members| && forall k | 0 <= k < |members| :: S.Printable(members[k].value)
    ensures S.MembersText(members[i..], indent, first)
         == S.Separator(first) + (S.Indentation(indent) + (S.Quoted(members[i].key) + (":" + (S.Gap(indent)
            + (S.Body(members[i].value, indent) + S.MembersText(members[i + 1..], indent, false))))))
  {
    hide S.Body, S.Indentation, S.Quoted, S.Separator, S.Gap;
    assert members[i..][1..] == members[i + 1..];
  }

  method SerializeMembers(members: seq<S.Member>, indent: int, oi: Output)
    requires indent >= -1 && indent != 0 && forall i | 0 <= i < |members| :: S.Printable(members[i].value)
    modifies oi
    ensures oi.text == old(oi.text) + S.MembersText(members, indent, true)
    decreases members, 0
  {
    hide S.Body, S.Indentation, S.Quoted, S.Separator, S.Gap, S.MembersText;
    var i := 0;
    assert members[0..] == members;
    while i < |members|
      invariant 0 <= i <= |members|
      invariant oi.text + S.MembersText(members[i..], indent, i == 0)
                == old(oi.text) + S.MembersText(members, indent, true)
    {
      ghost var before, separator, gap := oi.text, S.Separator(i == 0), S.Indentation(indent);
      ghost var key, space, body := S.Quoted(members[i].key), S.Gap(indent), S.Body(members[i].value, indent);
      ghost var rest := S.MembersText(members[i + 1..], indent, false);
      MembersTextFrom(members, i, indent, i == 0);
      PutSeparator(i == 0, indent, oi);
      SerializeString(members[i].key, oi);
      oi.Put(":");
      PutGap(indent, oi);
      Serialize(members[i].value, indent, oi);
      Neutral(before + separator + gap + key + ":" + space + body);
      MemberPieces(before, separator, gap, key, space, body, rest);
      i := i + 1;
    }
    assert members[i..] == [];
    NoMembersText(indent);
    Neutral(oi.text);
  }

  lemma NoMembersText(indent: int)
    ensures S.MembersText([], indent, true) == S.MembersText([], indent, false) == ""
  {
  }

  method PutGap(indent: int, oi: Output)
    modifies oi
    ensures oi.text == old(oi.text) + S.Gap(indent)
  {
    if indent != -1 {
      oi.Put(" ");
    }
  }

  // value::_serialize. indent is -1 in compact mode.
  method Serialize(v: S.Value, indent: int, oi: Output)
    requires S.Printable(v) && indent >= -1
    modifies oi
    ensures oi.text == old(oi.text) + S.Body(v, indent) + (if indent == 0 then "\n" else "")
    decreases v, 1
  {
    hide S.ItemsText, S.MembersText, S.Indentation;
    match v {
      case String(s) => SerializeString(s, oi);
      case Array(items) =>
        oi.Put("[");
        SerializeItems(items, S.Deeper(indent), oi);
        PutClose(|items| == 0, indent, "]", oi);
        Associative(old(oi.text) + "[", S.ItemsText(items, S.Deeper(indent), true),
                    S.Closing(|items| == 0, indent, "]"));
        Associative(old(oi.text), "[", S.ItemsText(items, S.Deeper(indent), true)
                                   + S.Closing(|items| == 0, indent, "]"));
      case Object(members) =>
        oi.Put("{");
        SerializeMembers(members, S.Deeper(indent), oi);
        PutClose(|members| == 0, indent, "}", oi);
        Associative(old(oi.text) + "{", S.MembersText(members, S.Deeper(indent), true),
                    S.Closing(|members| == 0, indent, "}"));
        Associative(old(oi.text), "{", S.MembersText(members, S.Deeper(indent), true)
                                   + S.Closing(|members| == 0, indent, "}"));
      case Null => oi.Put("null");
      case Boolean(b) => oi.Put(if b then "true" else "false");
      case Number(n) => oi.Put(Decimal(n.Floor));
    }
    assert oi.text == old(oi.text) + S.Body(v, indent);
    if indent == 0 {
      oi.Put("\n");
    } else {
      assert oi.text + "" == oi.text;
    }
  }

  // The last line break and the closing bracket.
  method PutClose(empty: bool, indent: int, bracket: string, oi: Output)
    requires indent >= -1
    modifies oi
    ensures oi.text == old(oi.text) + S.Closing(empty, indent, bracket)
  {
    if indent != -1 && !empty {
      Indent(oi, indent);
    }
    oi.Put(bracket);
  }
}
