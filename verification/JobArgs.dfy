// What Request::eval reads from any request in good form: the words of its first line, the arguments of
// its path and of a form, its headers and its content.
module JobArgs {
  import opened Common
  import opened JsonText
  import B = BifrostSpec
  import opened CallbackSpec
  import opened JobSpec
  import opened JobProofs
  import opened JobRoundTrip

  // ---------------------------------------------------------------- searching

  // No occurrence is passed over.
  lemma {:induction false} FirstIsFound(s: string, t: string, k: nat)
    requires k + |t| <= |s| && s[k..k + |t|] == t
    ensures 0 <= IndexOf(s, t) <= k
    decreases k
  {
    if k > 0 {
      assert s[1..][k - 1..k - 1 + |t|] == s[k..k + |t|];
      FirstIsFound(s[1..], t, k - 1);
    }
  }

  // ---------------------------------------------------------------- arguments

  // key=value, with ampersands between.
  function ArgText(args: seq<Header>): string
    decreases |args|
  {
    if args == [] then ""
    else if |args| == 1 then args[0].key + ("=" + args[0].value)
    else args[0].key + ("=" + args[0].value) + ("&" + ArgText(args[1..]))
  }

  predicate Argument(a: Header) { Free(a.key, '&') && Free(a.key, '=') && Free(a.value, '&') }

  predicate Arguments(args: seq<Header>)
  {
    forall i | 0 <= i < |args| :: Argument(args[i])
  }

  lemma ArgTaken(m: map<string, string>, a: Header)
    requires Argument(a)
    ensures TakeArg(m, a.key + ("=" + a.value)) == m + map[a.key := a.value]
    ensures Free(a.key + ("=" + a.value), '&')
  {
    hide IndexOf;
    FoundAfter(a.key, "=", a.value);
    Parts(a.key, "=" + a.value);
    Associative(a.key, "=", a.value);
    Parts(a.key + "=", a.value);
  }

  // One token and the ampersand behind it.
  lemma TokenTaken(m: map<string, string>, token: string, s: string)
    requires Free(token, '&')
    ensures TakeArgs(m, token) == TakeArg(m, token)
    ensures TakeArgs(m, token + ("&" + s)) == TakeArgs(TakeArg(m, token), s)
  {
    hide TakeArg, IndexOf;
    FreeOf(token, "&");
    FoundAfter(token, "&", s);
    Parts(token, "&" + s);
    Associative(token, "&", s);
    Parts(token + "&", s);
  }

  // The arguments come back, later ones overriding earlier ones and all overriding those before.
  lemma {:induction false} ArgsTaken(m: map<string, string>, args: seq<Header>)
    requires Arguments(args)
    ensures TakeArgs(m, ArgText(args)) == m + AsMap(args)
    decreases |args|
  {
    hide TakeArg, TakeArgs, IndexOf, Argument;
    if args == [] {
      TokenTaken(m, "", "");
      NoArgument(m, "", "");
    } else {
      var (a, rest) := (args[0], args[1..]);
      var token := a.key + ("=" + a.value);
      ArgTaken(m, a);
      TokenTaken(m, token, ArgText(rest));
      if |args| == 1 {
        assert AsMap(args) == map[a.key := a.value];
      } else {
        ArgsTaken(m + map[a.key := a.value], rest);
        MapsAssociate(m, map[a.key := a.value], AsMap(rest));
      }
    }
  }

  // What holds no '=' is no argument.
  lemma NoArgument(m: map<string, string>, token: string, s: string)
    requires Free(token, '&') && Free(token, '=')
    ensures TakeArgs(m, token) == m && TakeArgs(m, token + ("&" + s)) == TakeArgs(m, s)
  {
    hide TakeArgs, IndexOf;
    TokenTaken(m, token, s);
    FreeOf(token, "=");
  }

  lemma AmpersandBetween(args: seq<Header>)
    requires Arguments(args)
    ensures IndexOf(ArgText(args), "&") >= 0 <==> |args| >= 2
  {
    hide IndexOf;
    if |args| == 0 {
      FreeOf("", "&");
    } else {
      var token := args[0].key + ("=" + args[0].value);
      ArgTaken(map[], args[0]);
      if |args| == 1 {
        FreeOf(token, "&");
      } else {
        FoundAfter(token, "&", ArgText(args[1..]));
      }
    }
  }

  // ---------------------------------------------------------------- the first line

  lemma EraseFirst(c: char, s: string, d: char)
    ensures Erase([c] + s, d) == if c == d then Erase(s, d) else [c] + Erase(s, d)
  {
    assert ([c] + s)[1..] == s;
    Neutral(Erase(s, d));
  }

  // Tabs and carriage returns are dropped.
  lemma {:induction false} TabsAreDropped(w: Words, s: string)
    ensures TakeWords(w, s) == TakeWords(w, Erase(Erase(s, '\t'), '\r'))
    decreases |s|
  {
    if s != "" {
      hide TakeChar, TakeWords, Erase;
      var (c, rest) := (s[0], s[1..]);
      assert s == [c] + rest;
      EraseFirst(c, rest, '\t');
      EraseFirst(c, Erase(rest, '\t'), '\r');
      OneTaken(w, c, rest);
      TabsAreDropped(TakeChar(w, c), rest);
      if c == '\t' || c == '\r' {
        Dropped(w, c);
      } else {
        OneTaken(w, c, Erase(Erase(rest, '\t'), '\r'));
      }
    }
  }

  lemma Dropped(w: Words, c: char)
    requires c == '\t' || c == '\r'
    ensures TakeChar(w, c) == w
  {
  }

  // What follows the third word is passed over.
  lemma {:induction false} RestIsIgnored(w: Words, s: string)
    requires w.gate > 2
    ensures TakeWords(w, s) == w.(gate := TakeWords(w, s).gate)
    decreases |s|
  {
    if s != "" {
      RestIsIgnored(TakeChar(w, s[0]), s[1..]);
    }
  }

  // ---------------------------------------------------------------- whole requests

  datatype Message = Message(verb: string, path: string, query: seq<Header>, protocol: string,
                             headers: seq<Header>, body: string)

  function Target(m: Message): string
  {
    if m.query == [] then m.path else m.path + ("?" + ArgText(m.query))
  }

  function Line(m: Message): string { WordsLine(m.verb, Target(m), m.protocol) }

  function TextOf(m: Message): string { RequestText(Line(m), m.headers, m.body) }

  // No character in a part that ends it.
  predicate Formed(m: Message)
  {
    && Plain(Line(m)) && Word(m.verb) && Word(Target(m)) && Word(m.protocol)
    && Free(m.path, '?') && Arguments(m.query)
    && m.headers != [] && PlainHeaders(m.headers)
    && Free(m.body, NUL) && !Holds(m.body, END)
  }

  // The sizes are numbers, and so are the counters of the callback.
  predicate InGoodForm(m: Message, callback: Option<B.Callback>)
  {
    && Formed(m) && SizesReadable(m.headers)
    && CallbackMap(AsMap(m.headers)) == CallbackPart(callback)
    && (callback.Some? ==> IsInt(callback.value.count) && IsInt(callback.value.limit))
  }

  // The request as read, with the given arguments and content.
  function ReadAs(m: Message, callback: Option<B.Callback>, args: map<string, string>, content: string): Request
  {
    var headers := AsMap(m.headers);
    Request(true, m.verb, m.path, m.protocol,
            if "Host" in headers then headers["Host"] else "",
            if "Content-Size" in headers then SizeOf(headers["Content-Size"]) else None,
            exists i | 0 <= i < |m.headers| ::
              m.headers[i].key == "Content-Type" && m.headers[i].value == "application/octet-stream",
            exists i | 0 <= i < |m.headers| ::
              m.headers[i].key == "Content-Encoding" && m.headers[i].value == "base64",
            headers, args, callback, content)
  }

  // A target is cut at the question mark.
  lemma TargetIsCut(m: Message)
    requires Free(m.path, '?') && Arguments(m.query)
    ensures PathOnly(Target(m)) == m.path && TakeArgs(map[], Query(Target(m))) == AsMap(m.query)
  {
    hide IndexOf, TakeArgs, ArgText, Argument, AsMap;
    if m.query == [] {
      FreeOf(m.path, "?");
      NoArgument(map[], "", "");
      assert AsMap(m.query) == map[] by { NoHeaders(); }
    } else {
      var text := ArgText(m.query);
      FoundAfter(m.path, "?", text);
      Parts(m.path, "?" + text);
      Associative(m.path, "?", text);
      Parts(m.path + "?", text);
      ArgsTaken(map[], m.query);
      assert map[] + AsMap(m.query) == AsMap(m.query);
    }
  }

  lemma NoHeaders()
    ensures AsMap([]) == map[]
  {
  }

  lemma CallbackRead(m: map<string, string>, callback: Option<B.Callback>)
    requires CallbackMap(m) == CallbackPart(callback)
    requires callback.Some? ==> IsInt(callback.value.count) && IsInt(callback.value.limit)
    ensures CallbackMap(m) == map[] <==> callback.None?
    ensures callback.Some? ==> ReadCallback(CallbackMap(m)) == callback
  {
    hide IsCallbackKey, Decimal, FlagText, Stoi, ReadCallback;
    if callback.Some? {
      CallbackRoundTrip(callback.value, map[]);
      assert map[] + CallbackHeaders(callback.value) == CallbackHeaders(callback.value);
      assert "Callback-Url" in CallbackHeaders(callback.value);
    }
  }

  // Everything but what Finished does.
  lemma MessageIsAssembled(m: Message, callback: Option<B.Callback>, blank: bool)
    requires InGoodForm(m, callback)
    ensures Assemble(TextOf(m), TakeLines(NO_HEADS, Head(Line(m), m.headers) + (if blank then END else "")))
         == ReadAs(m, callback, AsMap(m.query), m.body)
  {
    hide AsMap, Head, Line, TakeLines, TakeWords, ContentIn, SizeOf, RequestText, PathOnly, Query, TakeArgs,
      CallbackMap, ReadCallback, CallbackHeaders, CallbackPart, PlainHeaders, IndexOf, Arguments, SizesReadable, Plain,
      Free, Word;
    HeadsOfText(Line(m), m.headers, blank);
    CallbackRead(AsMap(m.headers), callback);
    LineTaken(m);
    TargetIsCut(m);
    BlankInText(Line(m), m.headers, m.body);
    ContentOfText(Line(m), m.headers, m.body);
  }

  lemma LineTaken(m: Message)
    requires Word(m.verb) && Word(Target(m)) && Word(m.protocol)
    ensures TakeWords(NO_WORDS, Line(m) + "\r") == Words(2, m.verb, Target(m), m.protocol)
  {
    WordsTaken(m.verb, Target(m), m.protocol);
  }

  lemma MessageIsRead(m: Message, callback: Option<B.Callback>, decoded: string)
    requires InGoodForm(m, callback)
    ensures Eval(TextOf(m), decoded) == Finished(ReadAs(m, callback, AsMap(m.query), m.body), decoded)
  {
    hide *;
    assert Formed(m) by { IsFormed(m, callback); }
    MessageIsSplit(m, decoded);
    MessageIsAssembled(m, callback, m.body == "");
  }

  lemma IsFormed(m: Message, callback: Option<B.Callback>)
    requires InGoodForm(m, callback)
    ensures Formed(m)
  {
    hide Formed;
  }

  // What is left to do once the text is split.
  lemma MessageIsSplit(m: Message, decoded: string)
    requires Formed(m)
    ensures var h := TakeLines(NO_HEADS, Head(Line(m), m.headers) + (if m.body == "" then END else ""));
            Eval(TextOf(m), decoded) == Finished(Assemble(TextOf(m), h), decoded)
  {
    hide Plain, Line, PlainHeaders, Free, Holds, TextOf, Head, Eval, TakeLines, Finished, Assemble, Target, Word;
    MessageText(m);
    MessageHeads(m);
    EvalIs(TextOf(m), decoded);
  }

  lemma MessageText(m: Message)
    requires Plain(Line(m)) && PlainHeaders(m.headers) && Free(m.body, NUL)
    ensures CString(TextOf(m)) == TextOf(m)
  {
    hide Line, PlainHeaders, CString, RequestText;
    TextFree(Line(m), m.headers, m.body);
  }

  lemma MessageHeads(m: Message)
    requires Plain(Line(m)) && m.headers != [] && PlainHeaders(m.headers) && !Holds(m.body, END)
    ensures HeadersIn(TextOf(m)) == Head(Line(m), m.headers) + (if m.body == "" then END else "")
  {
    hide Plain, Line, PlainHeaders, HeadersIn, RequestText, Head, Holds, ContentIn, Blocks;
    ContentOfText(Line(m), m.headers, m.body);
    Neutral(Head(Line(m), m.headers));
  }

  lemma EvalIs(s: string, decoded: string)
    requires CString(s) == s
    ensures Eval(s, decoded) == Finished(Assemble(s, TakeLines(NO_HEADS, HeadersIn(s))), decoded)
  {
    hide CString, Finished, Assemble, TakeLines, HeadersIn;
  }

  // A request is given up, by an exception of std::stoi, exactly when a size or a number of the callback
  // cannot be read.
  lemma FailsExactly(m: Message, decoded: string)
    requires Formed(m)
    ensures var callback := CallbackMap(AsMap(m.headers));
            Eval(TextOf(m), decoded).Failed?
            <==> || (exists i | 0 <= i < |m.headers| ::
                       m.headers[i].key == "Content-Size" && SizeOf(m.headers[i].value).None?)
                 || (callback != map[]
                     && (Stoi(Get(callback, "Callback-Satellite")) == None
                         || Stoi(Get(callback, "Callback-Count")) == None
                         || Stoi(Get(callback, "Callback-Limit")) == None))
  {
    hide Line, Target, Word, Free, Plain, PlainHeaders, Eval, TextOf, Head, TakeLines, SizeOf, AsMap, CallbackMap, Stoi,
      Taken, TakeWords, ContentIn, PathOnly, Query, TakeArgs, FormArgs, FinalContent, Holds, Coherent, SaysOctets,
      SaysBase64;
    MessageIsSplit(m, decoded);
    HeadsTaken(Line(m), m.headers, m.body == "");
    if SizesReadable(m.headers) {
      HeadsOfText(Line(m), m.headers, m.body == "");
    } else {
      UnreadableThrows(Heads(Some(Line(m) + "\r"), "", None, false, false, map[]), m.headers);
    }
  }

  lemma {:induction false} UnreadableThrows(h: Heads, hs: seq<Header>)
    requires h.Threw? || !SizesReadable(hs)
    ensures Taken(h, hs).Threw?
    decreases |hs|
  {
    hide SizeOf;
    if hs != [] {
      var g := AddHeader(h, hs[0].key, hs[0].value);
      if !g.Threw? {
        var i :| 0 <= i < |hs| && hs[i].key == "Content-Size" && SizeOf(hs[i].value).None?;
        assert hs[1..][i - 1] == hs[i];
      }
      UnreadableThrows(g, hs[1..]);
    }
  }

  // Any request but a POST, with a query or without.
  lemma QueryIsRead(m: Message, callback: Option<B.Callback>, decoded: string)
    requires InGoodForm(m, callback) && m.verb != "POST"
    ensures Eval(TextOf(m), decoded) == ReadAs(m, callback, AsMap(m.query), m.body)
  {
    hide Eval, InGoodForm, TextOf, AsMap, FormArgs, FinalContent;
    MessageIsRead(m, callback, decoded);
    NothingPosted(ReadAs(m, callback, AsMap(m.query), m.body), decoded);
  }

  lemma NothingPosted(r: Request, decoded: string)
    requires r.Request? && r.verb != "POST"
    ensures FormArgs(r) == r.args && FinalContent(r, decoded) == r.content
  {
  }

  // A form overrides the arguments of the path. A form of one argument has no ampersand and adds nothing.
  lemma FormIsRead(m: Message, callback: Option<B.Callback>, form: seq<Header>, decoded: string)
    requires InGoodForm(m, callback) && m.verb == "POST"
    requires !ReadAs(m, callback, map[], "").octets
    requires Arguments(form) && m.body == ArgText(form)
    ensures Eval(TextOf(m), decoded)
         == ReadAs(m, callback, if |form| >= 2 then AsMap(m.query) + AsMap(form) else AsMap(m.query), m.body)
  {
    hide Eval, InGoodForm, TextOf, AsMap, IndexOf, ArgText, TakeArgs;
    MessageIsRead(m, callback, decoded);
    AmpersandBetween(form);
    ArgsTaken(AsMap(m.query), form);
    assert |form| >= 2 ==> m.body != "" by {
      if m.body == "" {
        FreeOf("", "&");
      }
    }
  }

  // Binary content is replaced by what the decoder makes of it, or dropped.
  lemma BinaryIsRead(m: Message, callback: Option<B.Callback>, decoded: string)
    requires InGoodForm(m, callback) && m.verb == "POST"
    requires ReadAs(m, callback, map[], "").octets
    ensures var content := if m.body == "" || !ReadAs(m, callback, map[], "").base64 then "" else decoded;
            Eval(TextOf(m), decoded) == ReadAs(m, callback, AsMap(m.query), content)
  {
    hide Eval, InGoodForm, TextOf, AsMap, IndexOf, TakeArgs;
    MessageIsRead(m, callback, decoded);
  }

  // Without a blank line a text is not a valid request. Nothing is read from it unless it is three octets long.
  lemma NotARequest(s: string, decoded: string)
    requires Free(s, NUL) && IndexOf(s, "\r\n\r\n") < 0
    ensures Eval(s, decoded).Request? ==> !Eval(s, decoded).valid
    ensures |s| != 3 ==>
              Eval(s, decoded) == Request(false, "", "", "", "", None, false, false, map[], map[], None, "")
  {
    hide IndexOf, CString;
    CStringWhole(s);
    if |s| != 3 {
      hide Blocks;
      if s != "" {
        OneBlock(s);
      } else {
        NoBlock();
      }
      TooShort("", "\n");
      TooShort("", "?");
      assert CallbackMap(map[]) == map[];
      NoArgument(map[], "", "");
      hide TakeArgs;
    }
  }

  lemma NoBlock()
    ensures Blocks("") == []
  {
    TooShort("", END);
  }

  // Digits say the size, unless it is no int; anything else is read as zero, and nothing at all throws.
  lemma SizeIs(value: string)
    ensures SizeOf(value)
         == if value == "" then None
            else if exists i | 0 <= i < |value| :: !('0' <= value[i] <= '9') then Some(0)
            else if DigitsValue(value) < 0x8000_0000 then Some(DigitsValue(value))
            else None
  {
    hide Stoi, DigitsValue;
    if value == "" {
      StoiRefuses("", "", "");
      assert "" + ("" + "") == "";
    } else if AllDigits(value) {
      StoiReads("", "", value, "");
      assert "" + ("" + (value + "")) == value;
    }
  }

  const EXAMPLE := Message("GET", "/x", [Header("user", "ann")], "HTTP/1.1", [Header("Host", "h")], "")

  // A request with one argument.
  lemma QueryExample(decoded: string)
    ensures Eval("GET /x?user=ann HTTP/1.1\r\nHost: h\r\n\r\n", decoded)
         == Request(true, "GET", "/x", "HTTP/1.1", "h", None, false, false, map["Host" := "h"],
                    map["user" := "ann"], None, "")
  {
    ExampleText();
    ExampleInGoodForm();
    ExampleRead();
    assert "GET"[0] == 'G' && "POST"[0] == 'P';
    hide Eval, TextOf, InGoodForm, ReadAs, AsMap;
    QueryIsRead(EXAMPLE, None, decoded);
  }

  lemma ExampleTarget()
    ensures Target(EXAMPLE) == "/x?user=ann"
  {
    assert ArgText(EXAMPLE.query) == "user=ann";
  }

  lemma ExampleLine()
    ensures Line(EXAMPLE) == "GET /x?user=ann HTTP/1.1"
  {
    ExampleTarget();
    hide Target;
  }

  lemma ExampleText()
    ensures TextOf(EXAMPLE) == "GET /x?user=ann HTTP/1.1\r\nHost: h\r\n\r\n"
  {
    ExampleLine();
    hide Line;
    assert HeaderText(EXAMPLE.headers) == "Host: h\r\n" by {
      assert EXAMPLE.headers[1..] == [];
    }
    hide HeaderText;
    assert "\r\n" + ("Host: h\r\n" + ("\r\n" + "")) == "\r\nHost: h\r\n\r\n";
  }

  lemma ExampleMaps()
    ensures AsMap(EXAMPLE.query) == map["user" := "ann"] && AsMap(EXAMPLE.headers) == map["Host" := "h"]
  {
    assert EXAMPLE.query[1..] == [] && EXAMPLE.headers[1..] == [];
  }

  lemma ExampleLinePlain()
    ensures Plain("GET /x?user=ann HTTP/1.1")
  {
  }

  lemma ExampleWords()
    ensures Word("GET") && Word("/x?user=ann") && Word("HTTP/1.1")
  {
  }

  lemma ExampleHeader()
    ensures PlainHeaders(EXAMPLE.headers)
  {
    FreeOf("Host", ": ");
  }

  lemma ExampleKeys()
    ensures SizesReadable(EXAMPLE.headers) && CallbackMap(AsMap(EXAMPLE.headers)) == map[]
  {
    ExampleMaps();
    NotCallbackKeys();
    hide IsCallbackKey, AsMap, SizeOf;
    assert |"Host"| < |"Content-Size"|;
  }

  lemma ExampleInGoodForm()
    ensures InGoodForm(EXAMPLE, None)
  {
    ExampleTarget();
    ExampleLine();
    ExampleLinePlain();
    ExampleWords();
    ExampleHeader();
    ExampleKeys();
    EmptyHasNoBlank();
    hide Plain, Word, Line, Target, PlainHeaders, SizesReadable, CallbackMap, AsMap, Holds;
  }

  lemma ExampleRead()
    ensures ReadAs(EXAMPLE, None, AsMap(EXAMPLE.query), EXAMPLE.body)
         == Request(true, "GET", "/x", "HTTP/1.1", "h", None, false, false, map["Host" := "h"],
                    map["user" := "ann"], None, "")
  {
    ExampleMaps();
    hide AsMap, SizeOf;
    assert |"Host"| == 4 && |"Content-Type"| == 12 && |"Content-Encoding"| == 16 && |"Content-Size"| == 12;
  }
}
