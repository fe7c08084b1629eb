// What sprintf does to the parts of a job: when the text that is sent is the one that was meant.
module JobSent {
  import opened Common
  import opened JsonText
  import B = BifrostSpec
  import opened JobSpec
  import opened JobProofs
  import opened JobRoundTrip

  // A string is cut exactly when it holds a terminator.
  lemma {:induction false} CutLength(s: string)
    ensures |CString(s)| <= |s| && (|CString(s)| == |s| <==> Free(s, NUL))
    decreases |s|
  {
    if s != "" && s[0] != NUL {
      CutLength(s[1..]);
      FreeCons(s, NUL);
    }
  }

  lemma FreeCons(s: string, c: char)
    requires s != ""
    ensures Free(s, c) <==> s[0] != c && Free(s[1..], c)
  {
    if Free(s[1..], c) && s[0] != c {
      forall i | 0 <= i < |s|
        ensures s[i] != c
      {
        assert i > 0 ==> s[i] == s[1..][i - 1];
      }
    }
  }

  // A format is printed as it stands exactly when it holds neither a terminator nor a percent sign.
  lemma {:induction false} FormattedLength(s: string)
    requires NoConversion(s)
    ensures |Formatted(s)| <= |s|
    ensures |Formatted(s)| == |s| <==> Free(s, NUL) && Free(s, '%')
    decreases |s|
  {
    if s != "" && s[0] != NUL {
      FreeCons(s, NUL);
      FreeCons(s, '%');
      FormattedLength(if s[0] == '%' then s[2..] else s[1..]);
    }
  }

  lemma {:induction false} FormattedWhole(s: string)
    requires NoConversion(s) && Free(s, NUL) && Free(s, '%')
    ensures Formatted(s) == s
    decreases |s|
  {
    if s != "" {
      FormattedWhole(s[1..]);
    }
  }

  lemma {:induction false} NoConversionIn(s: string)
    requires Free(s, '%')
    ensures NoConversion(s)
    decreases |s|
  {
    if s != "" {
      NoConversionIn(s[1..]);
    }
  }

  // Nothing behind a terminator is seen.
  lemma {:induction false} CStringStops(a: string, b: string)
    requires Free(a, NUL)
    ensures CString(a + ([NUL] + b)) == a
    decreases |a|
  {
    if a != "" {
      assert (a + ([NUL] + b))[1..] == a[1..] + ([NUL] + b);
      CStringStops(a[1..], b);
    }
  }

  // Each percent sign twice.
  function Doubled(s: string): string
  {
    if s == "" then "" else (if s[0] == '%' then "%%" else [s[0]]) + Doubled(s[1..])
  }

  // A body with doubled percent signs is sent with single ones.
  lemma {:induction false} DoubledIsSent(s: string)
    requires Free(s, NUL)
    ensures NoConversion(Doubled(s)) && Formatted(Doubled(s)) == s
    decreases |s|
  {
    if s != "" {
      var t := Doubled(s);
      DoubledIsSent(s[1..]);
      assert s == [s[0]] + s[1..];
      if s[0] == '%' {
        assert t[2..] == Doubled(s[1..]);
      } else {
        assert t[1..] == Doubled(s[1..]);
      }
    }
  }

  // ---------------------------------------------------------------- headers

  predicate AllWhole(hs: seq<Header>)
  {
    forall i | 0 <= i < |hs| :: Free(hs[i].key, NUL) && Free(hs[i].value, NUL)
  }

  lemma {:induction false} CutHeadersLength(hs: seq<Header>)
    ensures |HeaderText(CutAll(hs))| <= |HeaderText(hs)|
    ensures |HeaderText(CutAll(hs))| == |HeaderText(hs)| <==> AllWhole(hs)
    decreases |hs|
  {
    hide CString, Free;
    if hs != [] {
      CutLength(hs[0].key);
      CutLength(hs[0].value);
      CutHeadersLength(hs[1..]);
      assert CutAll(hs)[1..] == CutAll(hs[1..]);
      assert AllWhole(hs) <==> Free(hs[0].key, NUL) && Free(hs[0].value, NUL) && AllWhole(hs[1..]);
    }
  }

  // Only the first of the fixed headers has a part that may be cut.
  lemma FixedLength(j: Job)
    ensures |HeaderText(FixedHeaders(j))| == |HeaderText(FixedHeaders(j)[1..])| + |j.hostname| + |j.port| + 9
    ensures FixedHeaders(Cut(j))[1..] == FixedHeaders(j)[1..]
  {
    hide CString, Decimal;
    assert "Host" + (": " + (j.hostname + (":" + j.port))) == JobSpec.Content(FixedHeaders(j)[0]);
  }

  // ---------------------------------------------------------------- the whole text

  predicate Whole(j: Job)
  {
    && Free(j.path, NUL) && Free(j.hostname, NUL) && Free(j.port, NUL) && AllWhole(j.headers)
    && Free(j.body, NUL) && Free(j.body, '%')
  }

  lemma PartsLength(j: Job)
    ensures |Print(j)| == |j.path| + 12 + |HeaderText(FixedHeaders(j))| + |HeaderText(j.headers)| + |j.body|
  {
    hide HeaderText, FixedHeaders;
    HeaderTextAppends(FixedHeaders(j), j.headers);
  }

  // The text that is sent is the text of the job exactly when no part holds a terminator and the body no
  // percent sign; otherwise it is shorter, and the size in its headers is that of the whole body.
  lemma ComposedExactly(j: Job)
    requires NoConversion(j.body)
    ensures Composed(j) == Print(j) <==> Whole(j)
    ensures !Whole(j) ==> |Composed(j)| < |Print(j)|
  {
    hide HeaderText, FixedHeaders, CString, Formatted, CutAll, AllWhole, Free, NoConversion;
    var c := Cut(j);
    CutLength(j.path);
    CutLength(j.hostname);
    CutLength(j.port);
    CutHeadersLength(j.headers);
    FormattedLength(j.body);
    PartsLength(j);
    FixedLength(j);
    FixedLength(c);
    ComposedLength(j);
    if Whole(j) {
      WholeIsUncut(j);
    }
  }

  lemma ComposedLength(j: Job)
    requires NoConversion(j.body)
    ensures var c := Cut(j);
            |Composed(j)|
            == |c.path| + 12 + |HeaderText(FixedHeaders(c))| + |HeaderText(c.headers)| + |Formatted(j.body)|
  {
    hide HeaderText, FixedHeaders, CString, Formatted, CutAll;
    HeaderTextAppends(FixedHeaders(Cut(j)), Cut(j).headers);
  }

  lemma WholeIsUncut(j: Job)
    requires Whole(j) && NoConversion(j.body)
    ensures Cut(j) == j && Formatted(j.body) == j.body
  {
    hide CString, Formatted, NoConversion;
    CStringWhole(j.path);
    CStringWhole(j.hostname);
    CStringWhole(j.port);
    FormattedWhole(j.body);
    forall i | 0 <= i < |j.headers|
      ensures CutAll(j.headers)[i] == j.headers[i]
    {
      CStringWhole(j.headers[i].key);
      CStringWhole(j.headers[i].value);
    }
  }

  // A job in full.
  lemma SentText()
    ensures Print(Job("/x", "h", "1", [Header("K", "v")], "b"))
         == "GET /x JOB\r\n"
            + ("Host: h:1\r\n" + ("Connection: keep-alive\r\n" + ("User-Agent: honpwc https_get 1.0\r\n"
            + ("Jericho: true\r\n" + ("Content-Size: 1\r\n" + ("K: v\r\n" + "\r\nb"))))))
  {
    var j := Job("/x", "h", "1", [Header("K", "v")], "b");
    assert Decimal(1) == "1";
    assert "h" + (":" + "1") == "h:1";
    assert FixedHeaders(j) == [Header("Host", "h:1"), Header("Connection", "keep-alive"),
                               Header("User-Agent", "honpwc https_get 1.0"), Header("Jericho", "true"),
                               Header("Content-Size", "1")];
    hide Decimal, HeaderText, FixedHeaders, JobSpec.Content;
    var t6 := "\r\nb";
    assert "\r\n" + "b" == t6;
    SentLine("K", "v", [], "K: v\r\n", t6);
    NoLineSent(t6);
    var h5 := [Header("K", "v")];
    assert h5 + [] == h5;
    SentFixed(h5, t6);
    assert RequestLine(j) == "GET /x JOB" && "GET /x JOB" + "\r\n" == "GET /x JOB\r\n";
    Associative("GET /x JOB", "\r\n", HeaderText(FixedHeaders(j) + h5) + t6);
  }

  lemma SentFixed(hs: seq<Header>, tail: string)
    ensures HeaderText([Header("Host", "h:1"), Header("Connection", "keep-alive"),
                        Header("User-Agent", "honpwc https_get 1.0"), Header("Jericho", "true"),
                        Header("Content-Size", "1")] + hs) + tail
         == "Host: h:1\r\n" + ("Connection: keep-alive\r\n" + ("User-Agent: honpwc https_get 1.0\r\n"
            + ("Jericho: true\r\n" + ("Content-Size: 1\r\n" + (HeaderText(hs) + tail)))))
  {
    hide HeaderText, JobSpec.Content;
    var h4 := [Header("Content-Size", "1")] + hs;
    var h3 := [Header("Jericho", "true")] + h4;
    var h2 := [Header("User-Agent", "honpwc https_get 1.0")] + h3;
    var h1 := [Header("Connection", "keep-alive")] + h2;
    SentLines();
    SentAgent();
    SentLine("Content-Size", "1", hs, "Content-Size: 1\r\n", tail);
    SentLine("Jericho", "true", h4, "Jericho: true\r\n", tail);
    SentLine("User-Agent", "honpwc https_get 1.0", h3, "User-Agent: honpwc https_get 1.0\r\n", tail);
    SentLine("Connection", "keep-alive", h2, "Connection: keep-alive\r\n", tail);
    SentLine("Host", "h:1", h1, "Host: h:1\r\n", tail);
    FiveInFront(Header("Host", "h:1"), Header("Connection", "keep-alive"),
                Header("User-Agent", "honpwc https_get 1.0"), Header("Jericho", "true"),
                Header("Content-Size", "1"), hs);
  }

  lemma FiveInFront<T>(a: T, b: T, c: T, d: T, e: T, s: seq<T>)
    ensures [a, b, c, d, e] + s == [a] + ([b] + ([c] + ([d] + ([e] + s))))
  {
  }

  lemma SentAgent()
    ensures "User-Agent" + ": " + "honpwc https_get 1.0" + "\r\n" == "User-Agent: honpwc https_get 1.0\r\n"
  {
  }

  lemma SentLines()
    ensures "Content-Size" + ": " + "1" + "\r\n" == "Content-Size: 1\r\n"
    ensures "Jericho" + ": " + "true" + "\r\n" == "Jericho: true\r\n"
    ensures "Connection" + ": " + "keep-alive" + "\r\n" == "Connection: keep-alive\r\n"
    ensures "Host" + ": " + "h:1" + "\r\n" == "Host: h:1\r\n"
  {
  }

  lemma SentLine(key: string, value: string, hs: seq<Header>, line: string, tail: string)
    requires line == key + ": " + value + "\r\n"
    ensures HeaderText([Header(key, value)] + hs) + tail == line + (HeaderText(hs) + tail)
  {
    assert ([Header(key, value)] + hs)[1..] == hs;
    assert line == JobSpec.Content(Header(key, value)) + "\r\n";
    Associative(JobSpec.Content(Header(key, value)), "\r\n", HeaderText(hs));
    Associative(line, HeaderText(hs), tail);
  }

  lemma NoLineSent(tail: string)
    ensures HeaderText([]) + tail == tail
  {
  }

  // End to end: of a job whose callers keep to Sendable, everything comes back from the text that
  // sprintf composes.
  lemma SentIsRead(j: Job, callback: Option<B.Callback>, decoded: string)
    requires Sendable(j) && !Holds(j.body, END) && SizesReadable(j.headers) && Carries(j, callback)
    ensures NoConversion(j.body)
    ensures Eval(Composed(j), decoded) == Recovered(j, callback, j.body)
  {
    hide Eval, Composed, Print, Recovered, Carries, SizesReadable;
    NoConversionIn(j.body);
    ComposedExactly(j);
    EvalOfPrint(j, callback, decoded);
  }
}
