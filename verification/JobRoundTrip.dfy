// The main theorem on job requests: printing and parsing invert each other.
module JobRoundTrip {
  import opened Common
  import opened JsonText
  import B = BifrostSpec
  import opened CallbackSpec
  import opened JobSpec
  import opened JobProofs

  // ---------------------------------------------------------------- header lines

  // The key ends at the first separator.
  lemma {:induction false} SeparatorAfterKey(key: string, s: string)
    requires IndexOf(key, ": ") < 0
    ensures IndexOf(key + (": " + s), ": ") == |key|
    decreases |key|
  {
    var t := key + (": " + s);
    if key == "" {
      assert t == ": " + s && t[..2] == ": ";
    } else {
      assert t[1..] == key[1..] + (": " + s);
      if |key| >= 2 {
        assert key[..2] == t[..2];
      } else {
        assert t[..2][1] == ':';
        TooShort(key[1..], ": ");
      }
      SeparatorAfterKey(key[1..], s);
    }
  }

  lemma {:induction false} EraseNothing(s: string, c: char)
    requires Free(s, c)
    ensures Erase(s, c) == s
    decreases |s|
  {
    if s != "" {
      EraseNothing(s[1..], c);
    }
  }

  lemma {:induction false} EraseLast(s: string, c: char)
    requires Free(s, c)
    ensures Erase(s + [c], c) == s
    decreases |s|
  {
    if s == "" {
      assert s + [c] == [c] && [c][1..] == "";
    } else {
      assert (s + [c])[1..] == s[1..] + [c];
      EraseLast(s[1..], c);
    }
  }

  predicate Begun(h: Heads) { h.Threw? || h.first.Some? }

  // A header line, with the carriage return that std::getline leaves or without.
  lemma TakeHeader(h: Heads, hd: Header, cr: bool)
    requires Begun(h) && PlainHeader(hd)
    ensures TakeLine(h, JobSpec.Content(hd) + (if cr then "\r" else "")) == AddHeader(h, hd.key, hd.value)
    ensures Begun(AddHeader(h, hd.key, hd.value))
  {
    hide IndexOf, Erase, SizeOf;
    var end := if cr then "\r" else "";
    var line := JobSpec.Content(hd) + end;
    Associative(hd.key, ": " + hd.value, end);
    Associative(": ", hd.value, end);
    SeparatorAfterKey(hd.key, hd.value + end);
    assert line[..|hd.key|] == hd.key;
    assert line[|hd.key| + 2..] == hd.value + end;
    if cr {
      EraseLast(hd.value, '\r');
    } else {
      EraseNothing(hd.value, '\r');
      assert hd.value + end == hd.value;
    }
  }

  // The line up to a line break is taken first.
  lemma TakeFirst(h: Heads, line: string, s: string)
    requires Plain(line)
    ensures TakeLines(h, line + ("\r\n" + s)) == TakeLines(TakeLine(h, line + "\r"), s)
  {
    hide TakeLine;
    var t := line + ("\r\n" + s);
    assert t == (line + "\r") + ("\n" + s);
    FoundAfter(line + "\r", "\n", s);
    assert t[..|line| + 1] == line + "\r" && t[|line| + 2..] == s;
  }

  function Taken(h: Heads, hs: seq<Header>): Heads
    decreases |hs|
  {
    if hs == [] then h else Taken(AddHeader(h, hs[0].key, hs[0].value), hs[1..])
  }

  lemma LastLine(h: Heads, hd: Header, blank: bool)
    requires Begun(h) && PlainHeader(hd)
    ensures TakeLines(h, JobSpec.Content(hd) + (if blank then END else "")) == AddHeader(h, hd.key, hd.value)
  {
    hide JobSpec.Content, TakeLine;
    ContentPlain(hd);
    TakeHeader(h, hd, blank);
    var line := JobSpec.Content(hd);
    if blank {
      assert END == "\r\n" + "\r\n";
      TakeFirst(h, line, "\r\n");
      OnlyBreak(AddHeader(h, hd.key, hd.value));
    } else {
      assert line + "" == line;
      FreeOf(line, "\n");
    }
  }

  lemma OnlyBreak(h: Heads)
    requires Begun(h)
    ensures TakeLines(h, "\r\n") == h
  {
    FoundAfter("\r", "\n", "");
    assert "\r" + ("\n" + "") == "\r\n" && "\r\n"[..1] == "\r" && "\r\n"[2..] == "";
    TooShort("\r", ": ");
    TooShort("", "\n");
    assert TakeLine(h, "\r") == h;
    assert TakeLines(h, "") == h;
  }

  // All header lines, with a blank line behind them or nothing.
  lemma {:induction false} TakeHeaders(h: Heads, hs: seq<Header>, blank: bool)
    requires Begun(h) && hs != [] && PlainHeaders(hs)
    ensures TakeLines(h, Trimmed(hs) + (if blank then END else "")) == Taken(h, hs)
    decreases |hs|
  {
    hide JobSpec.Content, TakeLine, AddHeader, PlainHeader, TakeLines;
    var end := if blank then END else "";
    if |hs| == 1 {
      LastLine(h, hs[0], blank);
      assert hs[1..] == [];
    } else {
      ContentOf(hs[0]);
      TakeHeader(h, hs[0], true);
      Associative(JobSpec.Content(hs[0]), "\r\n" + Trimmed(hs[1..]), end);
      Associative("\r\n", Trimmed(hs[1..]), end);
      TakeFirst(h, JobSpec.Content(hs[0]), Trimmed(hs[1..]) + end);
      TakeHeaders(AddHeader(h, hs[0].key, hs[0].value), hs[1..], blank);
    }
  }

  lemma ContentOf(h: Header)
    requires PlainHeader(h)
    ensures Plain(JobSpec.Content(h))
  {
    ContentPlain(h);
  }

  // ---------------------------------------------------------------- what the headers come to

  // Later headers override earlier ones.
  function AsMap(hs: seq<Header>): map<string, string>
  {
    if hs == [] then map[] else map[hs[0].key := hs[0].value] + AsMap(hs[1..])
  }

  lemma {:induction false} AsMapAppends(a: seq<Header>, b: seq<Header>)
    ensures AsMap(a + b) == AsMap(a) + AsMap(b)
    decreases |a|
  {
    if a == [] {
      assert a + b == b;
    } else {
      assert (a + b)[1..] == a[1..] + b;
      AsMapAppends(a[1..], b);
      MapsAssociate(map[a[0].key := a[0].value], AsMap(a[1..]), AsMap(b));
    }
  }

  lemma MapsAssociate(a: map<string, string>, b: map<string, string>, c: map<string, string>)
    ensures (a + b) + c == a + (b + c)
  {
  }

  lemma {:induction false} AsMapFinds(hs: seq<Header>, i: nat)
    requires i < |hs| && forall k | i < k < |hs| :: hs[k].key != hs[i].key
    ensures hs[i].key in AsMap(hs) && AsMap(hs)[hs[i].key] == hs[i].value
    decreases |hs|
  {
    if i > 0 {
      AsMapFinds(hs[1..], i - 1);
    } else {
      AsMapMisses(hs[1..], hs[0].key);
    }
  }

  lemma {:induction false} AsMapMisses(hs: seq<Header>, key: string)
    requires forall k | 0 <= k < |hs| :: hs[k].key != key
    ensures key !in AsMap(hs)
    decreases |hs|
  {
    if hs != [] {
      AsMapMisses(hs[1..], key);
    }
  }

  // Host and size agree with the headers.
  predicate Coherent(h: Heads)
  {
    h.Heads? ==>
      && h.host == (if "Host" in h.headers then h.headers["Host"] else "")
      && h.size == (if "Content-Size" in h.headers then SizeOf(h.headers["Content-Size"]) else None)
  }

  predicate SaysOctets(hs: seq<Header>) { exists i | 0 <= i < |hs| :: IsOctets(hs[i].key, hs[i].value) }

  predicate SaysBase64(hs: seq<Header>) { exists i | 0 <= i < |hs| :: IsBase64(hs[i].key, hs[i].value) }

  lemma SaysCons(hs: seq<Header>)
    requires hs != []
    ensures SaysOctets(hs) <==> IsOctets(hs[0].key, hs[0].value) || SaysOctets(hs[1..])
    ensures SaysBase64(hs) <==> IsBase64(hs[0].key, hs[0].value) || SaysBase64(hs[1..])
  {
    if SaysOctets(hs[1..]) {
      var i :| 0 <= i < |hs[1..]| && IsOctets(hs[1..][i].key, hs[1..][i].value);
      assert hs[i + 1] == hs[1..][i];
    }
    if SaysBase64(hs[1..]) {
      var i :| 0 <= i < |hs[1..]| && IsBase64(hs[1..][i].key, hs[1..][i].value);
      assert hs[i + 1] == hs[1..][i];
    }
  }

  lemma SaysNothing()
    ensures !SaysOctets([]) && !SaysBase64([])
  {
  }

  predicate SizesReadable(hs: seq<Header>)
  {
    forall i | 0 <= i < |hs| :: hs[i].key == "Content-Size" ==> SizeOf(hs[i].value).Some?
  }

  lemma AddedIs(h: Heads, key: string, value: string)
    requires Coherent(h) && h.Heads? && (key == "Content-Size" ==> SizeOf(value).Some?)
    ensures var g := AddHeader(h, key, value);
            && g.Heads? && g.first == h.first && Coherent(g) && g.headers == h.headers + map[key := value]
            && g.octets == (h.octets || IsOctets(key, value)) && g.base64 == (h.base64 || IsBase64(key, value))
  {
    hide SizeOf, IsOctets, IsBase64;
  }

  lemma {:induction false} TakenIs(h: Heads, hs: seq<Header>)
    requires Coherent(h) && h.Heads? && SizesReadable(hs)
    ensures var r := Taken(h, hs);
            && r.Heads? && r.first == h.first && Coherent(r) && r.headers == h.headers + AsMap(hs)
            && r.octets == (h.octets || SaysOctets(hs)) && r.base64 == (h.base64 || SaysBase64(hs))
    decreases |hs|
  {
    hide SizeOf, IsOctets, IsBase64, SaysOctets, SaysBase64, AddHeader, Coherent;
    if hs == [] {
      SaysNothing();
      assert h.headers + map[] == h.headers;
    } else {
      SaysCons(hs);
      var g := AddHeader(h, hs[0].key, hs[0].value);
      AddedIs(h, hs[0].key, hs[0].value);
      TakenIs(g, hs[1..]);
      MapsAssociate(h.headers, map[hs[0].key := hs[0].value], AsMap(hs[1..]));
    }
  }

  // ---------------------------------------------------------------- the request line

  lemma {:induction false} WordsAppend(w: Words, a: string, b: string)
    ensures TakeWords(w, a + b) == TakeWords(TakeWords(w, a), b)
    decreases |a|
  {
    if a == "" {
      assert a + b == b;
    } else {
      assert (a + b)[1..] == a[1..] + b;
      WordsAppend(TakeChar(w, a[0]), a[1..], b);
    }
  }

  // One of the three words of a request line.
  predicate Word(s: string) { Free(s, ' ') && Free(s, '\t') && Free(s, '\r') }

  lemma {:induction false} WordTaken(w: Words, s: string)
    requires w.gate <= 2 && Word(s)
    ensures TakeWords(w, s) == if w.gate == 0 then w.(verb := w.verb + s)
                               else if w.gate == 1 then w.(path := w.path + s)
                               else w.(protocol := w.protocol + s)
    decreases |s|
  {
    if s == "" {
      Neutral(w.verb);
      Neutral(w.path);
      Neutral(w.protocol);
    } else {
      var v := TakeChar(w, s[0]);
      WordTaken(v, s[1..]);
      assert [s[0]] + s[1..] == s;
      Associative(w.verb, [s[0]], s[1..]);
      Associative(w.path, [s[0]], s[1..]);
      Associative(w.protocol, [s[0]], s[1..]);
    }
  }

  lemma {:induction false} OneTaken(w: Words, c: char, s: string)
    ensures TakeWords(w, [c] + s) == TakeWords(TakeChar(w, c), s)
  {
    hide TakeChar;
    assert ([c] + s)[0] == c && ([c] + s)[1..] == s;
  }

  // A space opens the next gate.
  lemma {:induction false} SpaceTaken(w: Words, s: string)
    ensures TakeWords(w, " " + s) == TakeWords(w.(gate := w.gate + 1), s)
  {
    hide TakeWords;
    OneTaken(w, ' ', s);
  }

  lemma LastTaken(w: Words)
    ensures TakeWords(w, "\r") == w
  {
    hide TakeWords;
    OneTaken(w, '\r', "");
    Neutral("\r");
    NoneTaken(w);
  }

  lemma NoneTaken(w: Words)
    ensures TakeWords(w, "") == w
  {
  }

  // Verb, target and protocol.
  function WordsLine(verb: string, target: string, protocol: string): string
  {
    verb + (" " + (target + (" " + protocol)))
  }

  lemma WordsTaken(verb: string, target: string, protocol: string)
    requires Word(verb) && Word(target) && Word(protocol)
    ensures TakeWords(NO_WORDS, WordsLine(verb, target, protocol) + "\r") == Words(2, verb, target, protocol)
  {
    hide TakeWords;
    var c := protocol + "\r";
    var b := target + (" " + c);
    assert WordsLine(verb, target, protocol) + "\r" == verb + (" " + b) by {
      Associative(verb, " " + (target + (" " + protocol)), "\r");
      Associative(" ", target + (" " + protocol), "\r");
      Associative(target, " " + protocol, "\r");
      Associative(" ", protocol, "\r");
    }
    var (w1, w2, w3) := (Words(0, verb, "", ""), Words(1, verb, target, ""), Words(2, verb, target, protocol));
    Neutral(verb);
    Neutral(target);
    Neutral(protocol);
    WordsAppend(NO_WORDS, verb, " " + b);
    WordTaken(NO_WORDS, verb);
    SpaceTaken(w1, b);
    WordsAppend(w1.(gate := 1), target, " " + c);
    WordTaken(w1.(gate := 1), target);
    SpaceTaken(w2, c);
    WordsAppend(w2.(gate := 2), protocol, "\r");
    WordTaken(w2.(gate := 2), protocol);
    LastTaken(w3);
  }

  lemma RequestLineTaken(j: Job)
    requires Sendable(j)
    ensures TakeWords(NO_WORDS, RequestLine(j) + "\r") == Words(2, "GET", j.path, "JOB")
  {
    hide PlainHeaders;
    assert RequestLine(j) == WordsLine("GET", j.path, "JOB") by {
      assert "GET" + " " == "GET " && " " + "JOB" == " JOB";
      Associative("GET", " ", j.path + " JOB");
    }
    WordsTaken("GET", j.path, "JOB");
  }

  // ---------------------------------------------------------------- the terminator

  lemma {:induction false} CStringWhole(s: string)
    requires Free(s, 0 as char)
    ensures CString(s) == s
    decreases |s|
  {
    if s != "" {
      CStringWhole(s[1..]);
    }
  }

  lemma {:induction false} HeaderTextFree(hs: seq<Header>)
    requires PlainHeaders(hs)
    ensures Free(HeaderText(hs), 0 as char)
    decreases |hs|
  {
    hide JobSpec.Content;
    if hs != [] {
      ContentOf(hs[0]);
      HeaderTextFree(hs[1..]);
    }
  }

  lemma TextFree(line: string, hs: seq<Header>, body: string)
    requires Free(line, NUL) && PlainHeaders(hs) && Free(body, NUL)
    ensures CString(RequestText(line, hs, body)) == RequestText(line, hs, body)
  {
    hide HeaderText, PlainHeader, CString;
    HeaderTextFree(hs);
    CStringWhole(RequestText(line, hs, body));
  }

  lemma PrintFree(j: Job)
    requires Sendable(j)
    ensures CString(Print(j)) == Print(j)
  {
    hide RequestText, FixedHeaders, PlainHeader, CString;
    SendableHeaders(j);
    RequestLinePlain(j);
    TextFree(RequestLine(j), FixedHeaders(j) + j.headers, j.body);
  }

  // ---------------------------------------------------------------- the headers of a job

  lemma FixedReadable(j: Job)
    requires |j.body| < BUFFER
    ensures SizesReadable(FixedHeaders(j))
    ensures SizeOf(Decimal(|j.body|)) == Some(|j.body|)
  {
    DecimalPlain(|j.body|);
    StoiDecimal(|j.body|);
    var hs := FixedHeaders(j);
    assert hs[0].key[0] == 'H' && hs[2].key[0] == 'U' && hs[3].key[0] == 'J' && hs[1].key[3] == 'n'
           && "Content-Size"[3] == 't';
  }

  lemma FixedSaysNothing(j: Job)
    ensures SaysOctets(FixedHeaders(j) + j.headers) == SaysOctets(j.headers)
    ensures SaysBase64(FixedHeaders(j) + j.headers) == SaysBase64(j.headers)
  {
    var f, hs := FixedHeaders(j), FixedHeaders(j) + j.headers;
    assert f[0].key[0] == 'H' && f[1].key[3] == 'n' && f[2].key[0] == 'U' && f[3].key[0] == 'J' && |f[4].key| == 12;
    assert "Content-Type"[8] == 'T' && "Content-Size"[8] == 'S' && |"Content-Encoding"| == 16 && |"Content-Type"| == 12;
    assert "Content-Type"[0] == 'C' && "Content-Encoding"[0] == 'C' && "Content-Type"[3] == 't'
           && "Content-Encoding"[3] == 't';
    assert forall i | 0 <= i < 5 :: f[i].key != "Content-Type" && f[i].key != "Content-Encoding";
    assert forall i | 0 <= i < |j.headers| :: hs[5 + i] == j.headers[i];
    assert forall i | 5 <= i < |hs| :: hs[i] == j.headers[i - 5];
  }

  // The first line and the headers of a request are taken one by one.
  lemma HeadsTaken(line: string, hs: seq<Header>, blank: bool)
    requires Plain(line) && hs != [] && PlainHeaders(hs)
    ensures TakeLines(NO_HEADS, Head(line, hs) + (if blank then END else ""))
         == Taken(Heads(Some(line + "\r"), "", None, false, false, map[]), hs)
  {
    hide Trimmed, PlainHeader, SizeOf, TakeLines, Taken;
    var end := if blank then END else "";
    Associative(line, "\r\n" + Trimmed(hs), end);
    Associative("\r\n", Trimmed(hs), end);
    TakeFirst(NO_HEADS, line, Trimmed(hs) + end);
    var h := Heads(Some(line + "\r"), "", None, false, false, map[]);
    assert TakeLine(NO_HEADS, line + "\r") == h;
    TakeHeaders(h, hs, blank);
  }

  // What they come to.
  lemma HeadsOfText(line: string, hs: seq<Header>, blank: bool)
    requires Plain(line) && hs != [] && PlainHeaders(hs) && SizesReadable(hs)
    ensures var h := TakeLines(NO_HEADS, Head(line, hs) + (if blank then END else ""));
            && h.Heads? && h.first == Some(line + "\r") && Coherent(h) && h.headers == AsMap(hs)
            && h.octets == SaysOctets(hs) && h.base64 == SaysBase64(hs)
  {
    hide Head, PlainHeader, SizeOf, AsMap, TakeLines, Taken, SaysOctets, SaysBase64;
    HeadsTaken(line, hs, blank);
    TakenIs(Heads(Some(line + "\r"), "", None, false, false, map[]), hs);
    assert map[] + AsMap(hs) == AsMap(hs);
  }

  lemma HeadsOfPrint(j: Job, blank: bool)
    requires Sendable(j) && SizesReadable(j.headers)
    ensures var h := TakeLines(NO_HEADS, HeadOf(j) + (if blank then END else ""));
            && h.Heads? && h.first == Some(RequestLine(j) + "\r") && Coherent(h)
            && h.headers == AsMap(FixedHeaders(j)) + AsMap(j.headers)
            && h.octets == SaysOctets(j.headers) && h.base64 == SaysBase64(j.headers)
  {
    hide Head, RequestLine, PlainHeader, FixedHeaders, SizeOf, AsMap, TakeLines, SaysOctets, SaysBase64;
    var hs := FixedHeaders(j) + j.headers;
    SendableHeaders(j);
    RequestLinePlain(j);
    BodyFits(j);
    FixedReadable(j);
    assert SizesReadable(hs);
    HeadsOfText(RequestLine(j), hs, blank);
    FixedSaysNothing(j);
    AsMapAppends(FixedHeaders(j), j.headers);
  }

  // ---------------------------------------------------------------- the callback

  // One character that does not start a text is dropped, the rest holds no such character.
  lemma OnlyFirstCould(s: string, t: string)
    requires |s| > 0 && |t| > 1 && Free(s[1..], t[0]) && |s| >= |t| && s[1] != t[1]
    ensures !Holds(s, t)
  {
    FreeOf(s[1..], t);
    assert s[..|t|][1] == s[1];
  }

  lemma NotCallbackKeys()
    ensures !IsCallbackKey("Host") && !IsCallbackKey("Connection") && !IsCallbackKey("User-Agent")
    ensures !IsCallbackKey("Jericho") && !IsCallbackKey("Content-Size")
  {
    hide IndexOf;
    FreeOf("User-Agent", "Callback-");
    TooShort("Jericho", "Callback-");
    OnlyFirstCould("Connection", "Callback-");
    OnlyFirstCould("Content-Size", "Callback-");
  }

  lemma StartsWithCallback(rest: string)
    ensures IsCallbackKey("Callback-" + rest)
  {
    var key := "Callback-" + rest;
    assert key[..9] == "Callback-" && key[0] != "Host"[0];
  }

  lemma CallbackKeys(cb: B.Callback)
    ensures forall key | key in CallbackHeaders(cb) :: IsCallbackKey(key)
  {
    hide IsCallbackKey;
    StartsWithCallback("Url");
    StartsWithCallback("Endpoint");
    StartsWithCallback("Type");
    StartsWithCallback("Satellite");
    StartsWithCallback("Fn");
    StartsWithCallback("Count");
    StartsWithCallback("Limit");
    StartsWithCallback("Resolved");
    assert "Callback-" + "Url" == "Callback-Url" && "Callback-" + "Endpoint" == "Callback-Endpoint";
    assert "Callback-" + "Type" == "Callback-Type" && "Callback-" + "Satellite" == "Callback-Satellite";
    assert "Callback-" + "Fn" == "Callback-Fn" && "Callback-" + "Count" == "Callback-Count";
    assert "Callback-" + "Limit" == "Callback-Limit" && "Callback-" + "Resolved" == "Callback-Resolved";
  }

  function CallbackPart(callback: Option<B.Callback>): map<string, string>
  {
    if callback.None? then map[] else CallbackHeaders(callback.value)
  }

  // The headers of the message are those of the callback attached to it, if any, and others without
  // such a key. The counters are ints.
  predicate Carries(j: Job, callback: Option<B.Callback>)
  {
    && CallbackMap(AsMap(j.headers)) == CallbackPart(callback)
    && (callback.Some? ==> IsInt(callback.value.count) && IsInt(callback.value.limit))
  }

  // Attaching a callback to headers without such keys is how a message comes to carry it.
  lemma Attached(others: map<string, string>, cb: B.Callback)
    requires forall key | key in others :: !IsCallbackKey(key)
    ensures CallbackMap(others + CallbackHeaders(cb)) == CallbackHeaders(cb)
  {
    hide IsCallbackKey, CallbackHeaders;
    CallbackKeys(cb);
  }

  lemma {:induction false} AsMapKeys(hs: seq<Header>, key: string)
    requires key in AsMap(hs)
    ensures exists i | 0 <= i < |hs| :: hs[i].key == key
    decreases |hs|
  {
    if hs[0].key != key {
      AsMapKeys(hs[1..], key);
      var i :| 0 <= i < |hs[1..]| && hs[1..][i].key == key;
      assert hs[i + 1] == hs[1..][i];
    }
  }

  lemma FixedKeys(j: Job)
    ensures forall key | key in AsMap(FixedHeaders(j)) ::
              key == "Host" || key == "Connection" || key == "User-Agent" || key == "Jericho" || key == "Content-Size"
    ensures "Host" in AsMap(FixedHeaders(j)) && AsMap(FixedHeaders(j))["Host"] == j.hostname + (":" + j.port)
    ensures "Content-Size" in AsMap(FixedHeaders(j)) && AsMap(FixedHeaders(j))["Content-Size"] == Decimal(|j.body|)
  {
    hide Decimal, AsMap;
    var hs := FixedHeaders(j);
    FixedNamesDiffer();
    AsMapFinds(hs, 0);
    AsMapFinds(hs, 4);
    forall key | key in AsMap(hs)
      ensures key == "Host" || key == "Connection" || key == "User-Agent" || key == "Jericho" || key == "Content-Size"
    {
      AsMapKeys(hs, key);
    }
  }

  lemma FixedNamesDiffer()
    ensures "Host" != "Connection" && "Host" != "User-Agent" && "Host" != "Jericho" && "Host" != "Content-Size"
  {
    assert "Host"[0] != "Connection"[0] && "Host"[0] != "User-Agent"[0] && "Host"[0] != "Jericho"[0]
           && "Host"[0] != "Content-Size"[0];
  }

  lemma CallbackOfPrint(j: Job, callback: Option<B.Callback>)
    requires Carries(j, callback)
    ensures var m := CallbackMap(AsMap(FixedHeaders(j)) + AsMap(j.headers));
            m == CallbackPart(callback)
            && (callback.Some? ==> m != map[] && ReadCallback(m) == callback)
  {
    hide IsCallbackKey, AsMap, FixedHeaders, Decimal, FlagText, Stoi, ReadCallback;
    FixedKeys(j);
    NotCallbackKeys();
    assert CallbackMap(AsMap(FixedHeaders(j)) + AsMap(j.headers)) == CallbackMap(AsMap(j.headers));
    if callback.Some? {
      CallbackRoundTrip(callback.value, map[]);
      assert map[] + CallbackHeaders(callback.value) == CallbackHeaders(callback.value);
      assert "Callback-Url" in CallbackHeaders(callback.value);
    }
  }

  // ---------------------------------------------------------------- main theorems

  // What comes back when headers and request line do, with some content.
  function Recovered(j: Job, callback: Option<B.Callback>, content: string): Request
  {
    var headers := AsMap(FixedHeaders(j)) + AsMap(j.headers);
    Request(true, "GET", j.path, "JOB", Get(headers, "Host"), SizeOf(Get(headers, "Content-Size")),
            SaysOctets(j.headers), SaysBase64(j.headers), headers, map[], callback, content)
  }

  const NOTHING := Request(true, "", "", "", "", None, false, false, map[], map[], None, "")

  lemma HeadRecovered(j: Job, callback: Option<B.Callback>, blank: bool)
    requires Sendable(j) && SizesReadable(j.headers) && Carries(j, callback)
    ensures Assemble(Print(j), TakeLines(NO_HEADS, HeadOf(j) + (if blank then END else "")))
         == Recovered(j, callback, ContentIn(Print(j)))
  {
    hide AsMap, FixedHeaders, HeadOf, RequestLine, TakeLines, TakeWords, ContentIn, SizeOf, Decimal,
      CallbackMap, ReadCallback, CallbackHeaders, CallbackPart, PlainHeaders, IndexOf;
    HeadsOfPrint(j, blank);
    CallbackOfPrint(j, callback);
    NoCallbackPart();
    RequestLineTaken(j);
    FreeOf(j.path, "?");
    BlankInPrint(j);
    FixedKeys(j);
  }

  // Parsing the text of a job, for every body. Without a blank line in the body, everything comes back;
  // headers of the message override the fixed ones. With one, a single remaining block is taken for
  // the body, and otherwise nothing comes back at all.
  lemma {:induction false} EvalOfPrint(j: Job, callback: Option<B.Callback>, decoded: string)
    requires Sendable(j) && SizesReadable(j.headers) && Carries(j, callback)
    ensures Eval(Print(j), decoded)
         == if !Holds(j.body, END) then Recovered(j, callback, j.body)
            else if |Blocks(j.body)| == 1 then Recovered(j, callback, Blocks(j.body)[0])
            else NOTHING
  {
    hide Recovered, HeadOf, TakeLines, CString, ContentIn, HeadersIn, Assemble, Finished, Blocks, Holds,
         SizesReadable, Carries;
    PrintFree(j);
    ContentOfPrint(j);
    Neutral(HeadOf(j));
    HeadRecovered(j, callback, j.body == "");
    RecoveredIsGet(j, callback, ContentIn(Print(j)));
    NotPosted(Recovered(j, callback, ContentIn(Print(j))), decoded);
    NotPosted(NOTHING, decoded);
    if Holds(j.body, END) && |Blocks(j.body)| != 1 {
      NothingTaken(j);
    }
  }

  lemma NotPosted(r: Request, decoded: string)
    requires r.Request?
    ensures r.verb == "GET" || r.verb == "" ==> Finished(r, decoded) == r
  {
    assert "GET" != "POST";
  }

  lemma RecoveredIsGet(j: Job, callback: Option<B.Callback>, content: string)
    ensures Recovered(j, callback, content).Request? && Recovered(j, callback, content).verb == "GET"
  {
  }

  lemma NothingTaken(j: Job)
    requires Sendable(j) && ContentIn(Print(j)) == ""
    ensures Assemble(Print(j), TakeLines(NO_HEADS, "")) == NOTHING
  {
    hide Print, ContentIn;
    BlankInPrint(j);
    TooShort("", "\n");
    TooShort("", "?");
    assert CallbackMap(map[]) == map[];
  }

  // Parsing inverts printing for every body without a blank line.
  lemma EvalInvertsPrint(j: Job, callback: Option<B.Callback>, decoded: string)
    requires Sendable(j) && !Holds(j.body, END) && SizesReadable(j.headers) && Carries(j, callback)
    ensures var headers := AsMap(FixedHeaders(j)) + AsMap(j.headers);
            Eval(Print(j), decoded)
            == Request(true, "GET", j.path, "JOB", Get(headers, "Host"), SizeOf(Get(headers, "Content-Size")),
                       SaysOctets(j.headers), SaysBase64(j.headers), headers, map[], callback, j.body)
  {
    hide Eval, Print;
    EvalOfPrint(j, callback, decoded);
  }

  lemma NoCallbackPart()
    ensures CallbackPart(None) == map[]
  {
  }

  // Without a header of the same name from the message, host and size are those of the request.
  lemma HostAndSizeRecovered(j: Job, callback: Option<B.Callback>, decoded: string)
    requires Sendable(j) && !Holds(j.body, END) && Carries(j, callback)
    requires "Host" !in AsMap(j.headers) && forall i | 0 <= i < |j.headers| :: j.headers[i].key != "Content-Size"
    ensures Eval(Print(j), decoded).Request? && Eval(Print(j), decoded).host == j.hostname + (":" + j.port)
    ensures Eval(Print(j), decoded).size == Some(|j.body|) && Eval(Print(j), decoded).callback == callback
    ensures forall i | 0 <= i < |j.headers| ::
              && j.headers[i].key in Eval(Print(j), decoded).headers
              && Eval(Print(j), decoded).headers[j.headers[i].key] == j.headers[i].value
  {
    hide AsMap, FixedHeaders, Eval, Print, SizeOf, Decimal, CallbackMap;
    EvalInvertsPrint(j, callback, decoded);
    FixedKeys(j);
    AsMapMisses(j.headers, "Content-Size");
    BodyFits(j);
    FixedReadable(j);
    forall i | 0 <= i < |j.headers|
      ensures j.headers[i].key in AsMap(j.headers) && AsMap(j.headers)[j.headers[i].key] == j.headers[i].value
    {
      AsMapFinds(j.headers, i);
    }
  }

  // The body comes back exactly when it holds no blank line; path and headers come back exactly when
  // it holds none or leaves one block.
  lemma {:induction false} BodyRecoveredExactly(j: Job, callback: Option<B.Callback>, decoded: string)
    requires Sendable(j) && SizesReadable(j.headers) && Carries(j, callback)
    ensures Eval(Print(j), decoded).Request?
    ensures Eval(Print(j), decoded).content == j.body <==> !Holds(j.body, END)
    ensures Eval(Print(j), decoded).verb == "GET" <==> !Holds(j.body, END) || |Blocks(j.body)| == 1
    ensures Eval(Print(j), decoded).headers == map[] <==> Holds(j.body, END) && |Blocks(j.body)| != 1
  {
    hide Eval, Print, Sendable, SizesReadable, Carries, Holds, AsMap, FixedHeaders, SizeOf, Blocks;
    EvalOfPrint(j, callback, decoded);
    FixedKeys(j);
    if Holds(j.body, END) {
      EmptyHasNoBlank();
      if |Blocks(j.body)| == 1 {
        BlockHasNoBlank(j.body, 0);
      }
    }
  }

  lemma EmptyHasNoBlank()
    ensures !Holds("", END)
  {
  }

  // A job whose body has a blank line in it: nothing comes back.
  lemma {:induction false} BlankLineLosesTheJob(decoded: string)
    ensures var j := Job("/x", "h", "1", [], "a\r\n\r\nb");
            Sendable(j) && Eval(Print(j), decoded) == NOTHING
  {
    var j := Job("/x", "h", "1", [], "a\r\n\r\nb");
    SmallJob(j);
    assert CallbackMap(AsMap([])) == map[];
    TwoBlocks();
    hide Eval, Print, Sendable;
    EvalOfPrint(j, None, decoded);
  }

  lemma TwoBlocks()
    ensures Holds("a\r\n\r\nb", END) && Blocks("a\r\n\r\nb") == ["a", "b"]
  {
    FoundAfter("a", END, "b");
    assert "a" + (END + "b") == "a\r\n\r\nb";
    assert "a\r\n\r\nb"[..1] == "a" && "a\r\n\r\nb"[5..] == "b";
    TooShort("b", END);
    assert Blocks("b") == ["b"];
  }

  lemma SmallJob(j: Job)
    requires j == Job("/x", "h", "1", [], "a\r\n\r\nb")
    ensures Sendable(j)
  {
    SmallText(j);
    hide Print;
  }

  lemma SmallText(j: Job)
    requires j == Job("/x", "h", "1", [], "a\r\n\r\nb")
    ensures |Print(j)| < BUFFER
  {
    var hs := FixedHeaders(j);
    assert Decimal(6) == "6";
    Neutral(hs);
    HeaderTextLength(hs, 40);
    hide HeaderText;
  }

  lemma {:induction false} HeaderTextLength(hs: seq<Header>, n: nat)
    requires forall i | 0 <= i < |hs| :: |JobSpec.Content(hs[i])| + 2 <= n
    ensures |HeaderText(hs)| <= |hs| * n
    decreases |hs|
  {
    hide JobSpec.Content;
    if hs != [] {
      HeaderTextLength(hs[1..], n);
    }
  }
}
