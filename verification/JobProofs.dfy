// Request::eval reads back what send_request has written.
module JobProofs {
  import opened Common
  import opened JsonText
  import opened JobSpec

  // ---------------------------------------------------------------- searching

  predicate Free(s: string, c: char)
  {
    forall i | 0 <= i < |s| :: s[i] != c
  }

  // A text without the first character of t is passed over.
  lemma {:induction false} SearchSkips(a: string, s: string, t: string)
    requires |t| > 0 && Free(a, t[0])
    ensures IndexOf(a + s, t) == if IndexOf(s, t) < 0 then -1 else |a| + IndexOf(s, t)
    decreases |a|
  {
    if a == "" {
      assert a + s == s;
    } else {
      assert (a + s)[1..] == a[1..] + s && (a + s)[0] == a[0];
      SearchSkips(a[1..], s, t);
      if |a + s| >= |t| {
        assert (a + s)[..|t|][0] == a[0];
      } else {
        TooShort(s, t);
      }
    }
  }

  lemma TooShort(s: string, t: string)
    requires |s| < |t|
    ensures IndexOf(s, t) == -1
  {
  }

  lemma FreeOf(s: string, t: string)
    requires |t| > 0 && Free(s, t[0])
    ensures IndexOf(s, t) == -1
  {
    SearchSkips(s, "", t);
    assert s + "" == s;
    TooShort("", t);
  }

  // t is found where it first stands: nothing before it starts with its first character.
  lemma FoundAfter(a: string, t: string, s: string)
    requires |t| > 0 && Free(a, t[0])
    ensures IndexOf(a + (t + s), t) == |a|
  {
    SearchSkips(a, t + s, t);
    assert (t + s)[..|t|] == t;
  }

  // ---------------------------------------------------------------- lines and the blank line

  // No line break and no terminator.
  predicate Plain(s: string)
  {
    Free(s, '\r') && Free(s, '\n') && Free(s, 0 as char)
  }

  // A line break is passed over unless another one follows.
  lemma LineBreakSkipped(s: string)
    requires s == "" || s[0] != '\r'
    ensures IndexOf("\r\n" + s, END) == if IndexOf(s, END) < 0 then -1 else 2 + IndexOf(s, END)
  {
    var t := "\r\n" + s;
    assert t[1..] == "\n" + s;
    SearchSkips("\n", s, END);
    if |t| < 4 {
      TooShort(s, END);
    } else {
      assert t[..4][2] == s[0];
    }
  }

  // A line is passed over unless a blank line follows it.
  lemma BlankAfterLine(line: string, s: string)
    requires Plain(line) && (s == "" || s[0] != '\r')
    ensures IndexOf(line + ("\r\n" + s), END) == if IndexOf(s, END) < 0 then -1 else |line| + 2 + IndexOf(s, END)
  {
    hide IndexOf;
    SearchSkips(line, "\r\n" + s, END);
    LineBreakSkipped(s);
  }

  lemma BlankFound(line: string, body: string)
    requires Plain(line)
    ensures IndexOf(line + ("\r\n" + ("\r\n" + body)), END) == |line|
  {
    assert "\r\n" + ("\r\n" + body) == END + body;
    FoundAfter(line, END, body);
  }

  // The header lines without the line break at the end.
  function Trimmed(hs: seq<Header>): string
    requires hs != []
  {
    if |hs| == 1 then JobSpec.Content(hs[0]) else JobSpec.Content(hs[0]) + ("\r\n" + Trimmed(hs[1..]))
  }

  predicate PlainHeader(h: Header)
  {
    Plain(h.key) && Plain(h.value) && IndexOf(h.key, ": ") < 0
  }

  predicate PlainHeaders(hs: seq<Header>)
  {
    forall i | 0 <= i < |hs| :: PlainHeader(hs[i])
  }

  lemma ContentPlain(h: Header)
    requires Plain(h.key) && Plain(h.value)
    ensures Plain(JobSpec.Content(h)) && |JobSpec.Content(h)| > 0 && JobSpec.Content(h)[0] != '\r'
  {
  }

  lemma {:induction false} HeaderTextAppends(a: seq<Header>, b: seq<Header>)
    ensures HeaderText(a + b) == HeaderText(a) + HeaderText(b)
    decreases |a|
  {
    hide JobSpec.Content;
    if a == [] {
      assert a + b == b;
    } else {
      assert (a + b)[1..] == a[1..] + b;
      HeaderTextAppends(a[1..], b);
      Associative("\r\n", HeaderText(a[1..]), HeaderText(b));
      Associative(JobSpec.Content(a[0]), "\r\n" + HeaderText(a[1..]), HeaderText(b));
    }
  }

  lemma {:induction false} HeaderTextTrimmed(hs: seq<Header>)
    requires hs != []
    ensures HeaderText(hs) == Trimmed(hs) + "\r\n"
    decreases |hs|
  {
    hide JobSpec.Content;
    if |hs| == 1 {
      assert HeaderText(hs[1..]) == "";
    } else {
      HeaderTextTrimmed(hs[1..]);
      Associative(JobSpec.Content(hs[0]), "\r\n" + Trimmed(hs[1..]), "\r\n");
      Associative("\r\n", Trimmed(hs[1..]), "\r\n");
    }
  }

  // The blank line is found at the end of the headers.
  lemma {:induction false} BlankAfterHeaders(hs: seq<Header>, body: string)
    requires hs != [] && PlainHeaders(hs)
    ensures IndexOf(Trimmed(hs) + ("\r\n" + ("\r\n" + body)), END) == |Trimmed(hs)|
    ensures Trimmed(hs) != "" && Trimmed(hs)[0] != '\r'
    decreases |hs|
  {
    hide JobSpec.Content, IndexOf;
    ContentPlain(hs[0]);
    var behind := "\r\n" + ("\r\n" + body);
    if |hs| == 1 {
      BlankFound(JobSpec.Content(hs[0]), body);
    } else {
      var more := Trimmed(hs[1..]) + behind;
      BlankAfterHeaders(hs[1..], body);
      BlankAfterLine(JobSpec.Content(hs[0]), more);
      Associative(JobSpec.Content(hs[0]), "\r\n" + Trimmed(hs[1..]), behind);
      Associative("\r\n", Trimmed(hs[1..]), behind);
    }
  }

  // ---------------------------------------------------------------- splitting the text

  // What stands in front of the blank line.
  function Head(line: string, hs: seq<Header>): string
    requires hs != []
  {
    line + ("\r\n" + Trimmed(hs))
  }

  lemma TextSplits(line: string, hs: seq<Header>, body: string)
    requires hs != []
    ensures RequestText(line, hs, body) == Head(line, hs) + (END + body)
  {
    hide Trimmed, HeaderText;
    HeaderTextTrimmed(hs);
    Associative(Trimmed(hs), "\r\n", "\r\n" + body);
    assert "\r\n" + ("\r\n" + body) == END + body;
    Associative(line, "\r\n" + Trimmed(hs), END + body);
    Associative("\r\n", Trimmed(hs), END + body);
  }

  function HeadOf(j: Job): string
  {
    Head(RequestLine(j), FixedHeaders(j) + j.headers)
  }

  lemma FixedIsSome(j: Job)
    ensures |FixedHeaders(j)| == 5
  {
  }

  // What a caller has to see to: no character in a part of the text that ends that part. The body has
  // no conversion for sprintf.
  predicate Sendable(j: Job)
  {
    && Plain(j.path) && Free(j.path, ' ') && Free(j.path, '\t') && Free(j.path, '?')
    && Plain(j.hostname) && Plain(j.port)
    && PlainHeaders(j.headers)
    && (forall i, k | 0 <= i < k < |j.headers| :: j.headers[i].key != j.headers[k].key)
    && Free(j.body, 0 as char) && Free(j.body, '%')
    && |Print(j)| < BUFFER
  }

  // The buffer of send_request.
  const BUFFER: nat := 490000

  lemma BodyFits(j: Job)
    requires |Print(j)| < BUFFER
    ensures |j.body| < BUFFER
  {
    hide HeaderText, FixedHeaders;
  }

  lemma DecimalPlain(n: nat)
    ensures Plain(Decimal(n)) && AllDigits(Decimal(n))
  {
  }

  // A name without a colon, and a plain value.
  lemma PlainPair(key: string, value: string)
    requires Plain(key) && Free(key, ':') && Plain(value)
    ensures PlainHeader(Header(key, value))
  {
    FreeOf(key, ": ");
  }

  lemma FixedTexts()
    ensures Plain("Host") && Plain("Connection") && Plain("User-Agent") && Plain("Jericho") && Plain("Content-Size")
    ensures Free("Host", ':') && Free("Connection", ':') && Free("User-Agent", ':') && Free("Jericho", ':')
            && Free("Content-Size", ':')
  {
  }

  lemma FixedValues()
    ensures Plain("keep-alive") && Plain("honpwc https_get 1.0") && Plain("true")
  {
  }

  lemma FixedPlain(j: Job)
    requires Plain(j.hostname) && Plain(j.port)
    ensures PlainHeaders(FixedHeaders(j))
  {
    FixedTexts();
    FixedValues();
    DecimalPlain(|j.body|);
    HostPlain(j);
    hide Plain, Free, PlainHeader, Decimal;
    PlainPair("Host", j.hostname + (":" + j.port));
    PlainPair("Connection", "keep-alive");
    PlainPair("User-Agent", "honpwc https_get 1.0");
    PlainPair("Jericho", "true");
    PlainPair("Content-Size", Decimal(|j.body|));
    FivePlain(Header("Host", j.hostname + (":" + j.port)), Header("Connection", "keep-alive"),
              Header("User-Agent", "honpwc https_get 1.0"), Header("Jericho", "true"),
              Header("Content-Size", Decimal(|j.body|)));
  }

  lemma FivePlain(a: Header, b: Header, c: Header, d: Header, e: Header)
    requires PlainHeader(a) && PlainHeader(b) && PlainHeader(c) && PlainHeader(d) && PlainHeader(e)
    ensures PlainHeaders([a, b, c, d, e])
  {
    hide PlainHeader;
  }

  lemma HostPlain(j: Job)
    requires Plain(j.hostname) && Plain(j.port)
    ensures Plain(j.hostname + (":" + j.port))
  {
  }

  lemma SendableHeaders(j: Job)
    requires Sendable(j)
    ensures PlainHeaders(FixedHeaders(j) + j.headers) && FixedHeaders(j) + j.headers != []
  {
    hide PlainHeader;
    FixedPlain(j);
    FixedIsSome(j);
  }

  // The blank line behind the headers is the first one.
  lemma BlankInText(line: string, hs: seq<Header>, body: string)
    requires Plain(line) && hs != [] && PlainHeaders(hs)
    ensures IndexOf(RequestText(line, hs, body), END) == |Head(line, hs)|
    ensures Head(line, hs) != ""
  {
    hide Trimmed, IndexOf, Plain, HeaderText;
    var behind := "\r\n" + ("\r\n" + body);
    BlankAfterHeaders(hs, body);
    BlankAfterLine(line, Trimmed(hs) + behind);
    TextSplits(line, hs, body);
    assert END + body == behind;
    Associative(line, "\r\n" + Trimmed(hs), behind);
    Associative("\r\n", Trimmed(hs), behind);
  }

  lemma BlankInPrint(j: Job)
    requires Sendable(j)
    ensures IndexOf(Print(j), END) == |HeadOf(j)|
    ensures HeadOf(j) != ""
  {
    hide IndexOf, FixedHeaders, RequestText, Head;
    SendableHeaders(j);
    RequestLinePlain(j);
    BlankInText(RequestLine(j), FixedHeaders(j) + j.headers, j.body);
  }

  lemma RequestLinePlain(j: Job)
    requires Plain(j.path)
    ensures Plain(RequestLine(j))
  {
  }

  // A text without a blank line is one block.
  lemma {:induction false} BlockHasNoBlank(s: string, k: nat)
    requires k < |Blocks(s)|
    ensures !Holds(Blocks(s)[k], END)
    decreases |s|
  {
    var i := IndexOf(s, END);
    if i > 0 {
      BeforeFirst(s, END);
      if k > 0 {
        BlockHasNoBlank(s[i + |END|..], k - 1);
      }
    } else if i == 0 {
      BlockHasNoBlank(s[|END|..], k);
    }
  }

  // Nothing is found before the first place.
  lemma {:induction false} BeforeFirst(s: string, t: string)
    requires Holds(s, t) && |t| > 0
    ensures !Holds(s[..IndexOf(s, t)], t)
    decreases |s|
  {
    var i := IndexOf(s, t);
    var a := s[..i];
    if |a| < |t| {
      TooShort(a, t);
    } else {
      assert a[..|t|] == s[..|t|] != t;
      assert IndexOf(s[1..], t) == i - 1;
      BeforeFirst(s[1..], t);
      assert a[1..] == s[1..][..i - 1];
    }
  }

  lemma BlocksOfText(line: string, hs: seq<Header>, body: string)
    requires Plain(line) && hs != [] && PlainHeaders(hs)
    ensures Blocks(RequestText(line, hs, body)) == [Head(line, hs)] + Blocks(body)
  {
    hide Head, IndexOf, RequestText;
    BlankInText(line, hs, body);
    TextSplits(line, hs, body);
    var s, h := RequestText(line, hs, body), Head(line, hs);
    assert s[..|h|] == h;
    assert s[|h| + |END|..] == body;
  }

  // A body without a blank line is the content. A blank line in the body splits it: one remaining block
  // is the content, and with any other number of blocks headers and content are lost.
  lemma ContentOfText(line: string, hs: seq<Header>, body: string)
    requires Plain(line) && hs != [] && PlainHeaders(hs)
    ensures var (s, h) := (RequestText(line, hs, body), Head(line, hs));
            && (ContentIn(s) == body <==> !Holds(body, END))
            && (body == "" ==> HeadersIn(s) == h + END)
            && (body != "" && !Holds(body, END) ==> HeadersIn(s) == h)
            && (Holds(body, END) && |Blocks(body)| == 1 ==> HeadersIn(s) == h && ContentIn(s) == Blocks(body)[0])
            && (Holds(body, END) && |Blocks(body)| != 1 ==> HeadersIn(s) == "" && ContentIn(s) == "")
  {
    hide Head, IndexOf, Blocks, RequestText;
    BlankInText(line, hs, body);
    TextSplits(line, hs, body);
    BlocksOfText(line, hs, body);
    var s, b := RequestText(line, hs, body), Blocks(body);
    assert |s| == |Head(line, hs)| + 4 + |body|;
    if body == "" {
      TooShort("", END);
      assert END + body == END;
    } else if Holds(body, END) {
      if |b| == 1 {
        BlockHasNoBlank(body, 0);
      }
    } else {
      assert b == [body] by { OneBlock(body); }
    }
  }

  lemma ContentOfPrint(j: Job)
    requires Sendable(j)
    ensures ContentIn(Print(j)) == j.body <==> !Holds(j.body, END)
    ensures j.body == "" ==> HeadersIn(Print(j)) == HeadOf(j) + END
    ensures j.body != "" && !Holds(j.body, END) ==> HeadersIn(Print(j)) == HeadOf(j)
    ensures Holds(j.body, END) && |Blocks(j.body)| == 1 ==>
              HeadersIn(Print(j)) == HeadOf(j) && ContentIn(Print(j)) == Blocks(j.body)[0]
    ensures Holds(j.body, END) && |Blocks(j.body)| != 1 ==> HeadersIn(Print(j)) == "" && ContentIn(Print(j)) == ""
  {
    hide IndexOf, FixedHeaders, RequestText, Head, Blocks, ContentIn, HeadersIn, Holds;
    SendableHeaders(j);
    RequestLinePlain(j);
    ContentOfText(RequestLine(j), FixedHeaders(j) + j.headers, j.body);
  }

  lemma OneBlock(s: string)
    requires !Holds(s, END) && s != ""
    ensures Blocks(s) == [s]
  {
  }
}
