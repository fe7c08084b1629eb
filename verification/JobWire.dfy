// send_request (core/src/server/fetch.cc) and Request (core/src/server/request.cc), as they run.
module JobWire {
  import opened Common
  import opened JsonText
  import B = BifrostSpec
  import C = CallbackSpec
  import S = JobSpec
  import JobProofs
  import JobRoundTrip

  // ---------------------------------------------------------------- send_request

  // The headers of a map, each once.
  ghost predicate InSomeOrder(hs: seq<S.Header>, headers: map<string, string>)
  {
    JobRoundTrip.AsMap(hs) == headers && forall i, k | 0 <= i < k < |hs| :: hs[i].key != hs[k].key
  }

  // The text of a job: headers are visited in any order.
  method SendRequest(path: string, hostname: string, port: string, headers: map<string, string>, message: string)
    returns (buffer: string)
    requires S.NoConversion(message)
    ensures exists hs | InSomeOrder(hs, headers) :: buffer == S.Composed(S.Job(path, hostname, port, hs, message))
  {
    hide S.HeaderText, S.CString, S.Formatted, JobRoundTrip.AsMap;
    buffer := "GET " + S.CString(path) + " JOB\r\n";
    ghost var line := buffer;
    buffer := buffer + "Host: " + S.CString(hostname) + ":" + S.CString(port) + "\r\n";
    buffer := buffer + "Connection: keep-alive\r\n";
    buffer := buffer + "User-Agent: honpwc https_get 1.0\r\n";
    buffer := buffer + "Jericho: true\r\n";
    buffer := buffer + "Content-Size: " + Decimal(|message|) + "\r\n";
    ghost var cut := S.Cut(S.Job(path, hostname, port, [], message));
    ghost var fixed := S.FixedHeaders(cut);
    FixedText(cut, line, buffer);
    ghost var hs: seq<S.Header> := [];
    ghost var done: map<string, string> := map[];
    var left := headers.Keys;
    NoHeaders(fixed);
    while left != {}
      invariant left <= headers.Keys && done == map key | key in headers && key !in left :: headers[key]
      invariant JobRoundTrip.AsMap(hs) == done
      invariant forall i | 0 <= i < |hs| :: hs[i].key in done
      invariant forall i, k | 0 <= i < k < |hs| :: hs[i].key != hs[k].key
      invariant buffer == line + S.HeaderText(fixed + S.CutAll(hs))
      decreases |left|
    {
      var key :| key in left;
      ghost var h := S.Header(key, headers[key]);
      Appended(line, fixed + S.CutAll(hs), S.Header(S.CString(key), S.CString(headers[key])), buffer);
      buffer := buffer + (S.CString(key) + ": ") + S.CString(headers[key]) + "\r\n";
      CutSnoc(fixed, hs, h);
      AsMapSnoc(hs, h);
      hs := hs + [h];
      done := done[key := headers[key]];
      left := left - {key};
    }
    buffer := buffer + "\r\n";
    buffer := buffer + S.Formatted(message);
    assert done == headers;
    WholeText(S.Job(path, hostname, port, hs, message), line, buffer);
    assert InSomeOrder(hs, headers);
  }

  lemma NoHeaders(fixed: seq<S.Header>)
    ensures fixed + S.CutAll([]) == fixed && JobRoundTrip.AsMap([]) == map[]
  {
  }

  lemma CutSnoc(fixed: seq<S.Header>, hs: seq<S.Header>, h: S.Header)
    ensures fixed + S.CutAll(hs) + [S.Header(S.CString(h.key), S.CString(h.value))] == fixed + S.CutAll(hs + [h])
  {
  }

  lemma HeaderTextSnoc(hs: seq<S.Header>, h: S.Header)
    ensures S.HeaderText(hs + [h]) == S.HeaderText(hs) + h.key + ": " + h.value + "\r\n"
  {
    hide S.HeaderText;
    var t := S.HeaderText(hs);
    JobProofs.HeaderTextAppends(hs, [h]);
    HeaderTextOne(h);
    Associative(t, h.key, ": " + (h.value + "\r\n"));
    Associative(t + h.key, ": ", h.value + "\r\n");
    Associative(t + h.key + ": ", h.value, "\r\n");
  }

  lemma HeaderTextOne(h: S.Header)
    ensures S.HeaderText([h]) == h.key + (": " + (h.value + "\r\n"))
  {
    assert S.HeaderText([h][1..]) == "" && "\r\n" + "" == "\r\n";
    Associative(h.key, ": " + h.value, "\r\n");
    Associative(": ", h.value, "\r\n");
  }

  lemma {:induction false} AsMapSnoc(hs: seq<S.Header>, h: S.Header)
    ensures JobRoundTrip.AsMap(hs + [h]) == JobRoundTrip.AsMap(hs)[h.key := h.value]
  {
    hide JobRoundTrip.AsMap;
    JobRoundTrip.AsMapAppends(hs, [h]);
    AsMapOne(h);
  }

  lemma AsMapOne(h: S.Header)
    ensures JobRoundTrip.AsMap([h]) == map[h.key := h.value]
  {
    assert JobRoundTrip.AsMap([h][1..]) == map[];
  }

  lemma Appended(line: string, hs: seq<S.Header>, h: S.Header, text: string)
    requires text == line + S.HeaderText(hs)
    ensures text + (h.key + ": ") + h.value + "\r\n" == line + S.HeaderText(hs + [h])
  {
    hide S.HeaderText;
    HeaderTextSnoc(hs, h);
    var t := S.HeaderText(hs);
    Associative(t, h.key, ": ");
    Associative(line, t, h.key + ": ");
    Associative(line, t + (h.key + ": "), h.value);
    Associative(line, t + (h.key + ": ") + h.value, "\r\n");
  }

  lemma FixedText(j: S.Job, line: string, buffer: string)
    requires buffer == line + "Host: " + j.hostname + ":" + j.port + "\r\n" + "Connection: keep-alive\r\n"
                       + "User-Agent: honpwc https_get 1.0\r\n" + "Jericho: true\r\n"
                       + "Content-Size: " + Decimal(|j.body|) + "\r\n"
    ensures buffer == line + S.HeaderText(S.FixedHeaders(j))
  {
    var hs := S.FixedHeaders(j);
    var (a, b, c, d, e) := (hs[0], hs[1], hs[2], hs[3], hs[4]);
    assert [] + [a] == [a] && [a] + [b] == [a, b] && [a, b] + [c] == [a, b, c] && [a, b, c] + [d] == [a, b, c, d];
    assert [a, b, c, d] + [e] == hs;
    assert line + S.HeaderText([]) == line;
    hide S.HeaderText;
    FixedLines();
    FixedValues();
    var t1 := line + "Host: " + j.hostname + ":" + j.port + "\r\n";
    HostLine(line, j);
    Appended(line, [], a, line);
    var t2 := t1 + "Connection: keep-alive\r\n";
    ThreeParts(t1, "Connection: ", "keep-alive", "\r\n");
    Appended(line, [a], b, t1);
    var t3 := t2 + "User-Agent: honpwc https_get 1.0\r\n";
    ThreeParts(t2, "User-Agent: ", "honpwc https_get 1.0", "\r\n");
    Appended(line, [a, b], c, t2);
    var t4 := t3 + "Jericho: true\r\n";
    ThreeParts(t3, "Jericho: ", "true", "\r\n");
    Appended(line, [a, b, c], d, t3);
    Appended(line, [a, b, c, d], e, t4);
  }

  lemma ThreeParts(t: string, a: string, b: string, c: string)
    ensures t + (a + b + c) == t + a + b + c
  {
  }

  lemma HostLine(line: string, j: S.Job)
    ensures line + "Host: " + j.hostname + ":" + j.port + "\r\n"
            == line + "Host: " + (j.hostname + (":" + j.port)) + "\r\n"
  {
    Associative(line + "Host: ", j.hostname, ":" + j.port);
    Associative(line + "Host: " + j.hostname, ":", j.port);
  }

  lemma FixedLines()
    ensures "Host" + ": " == "Host: " && "Connection" + ": " == "Connection: " && "User-Agent" + ": " == "User-Agent: "
    ensures "Jericho" + ": " == "Jericho: " && "Content-Size" + ": " == "Content-Size: "
  {
  }

  lemma FixedValues()
    ensures "Connection: " + "keep-alive" + "\r\n" == "Connection: keep-alive\r\n"
    ensures "User-Agent: " + "honpwc https_get 1.0" + "\r\n" == "User-Agent: honpwc https_get 1.0\r\n"
    ensures "Jericho: " + "true" + "\r\n" == "Jericho: true\r\n"
  {
  }

  lemma WholeText(j: S.Job, line: string, buffer: string)
    requires S.NoConversion(j.body)
    requires line == "GET " + S.CString(j.path) + " JOB\r\n"
    requires buffer == line + S.HeaderText(S.FixedHeaders(S.Cut(j)) + S.CutAll(j.headers)) + "\r\n"
             + S.Formatted(j.body)
    ensures buffer == S.Composed(j)
  {
    hide S.HeaderText, S.FixedHeaders, S.CString, S.Formatted;
    var c, body := S.Cut(j), S.Formatted(j.body);
    var t := S.HeaderText(S.FixedHeaders(c) + c.headers);
    assert line == S.RequestLine(c) + "\r\n";
    Associative(S.RequestLine(c), "\r\n", t + ("\r\n" + body));
    Associative(line, t, "\r\n" + body);
    Associative(line + t, "\r\n", body);
  }

  // ---------------------------------------------------------------- Request

  class Request {
    var valid: bool
    var verb: string
    var path: string
    var protocol: string
    var host: string
    var size: Option<int>
    var octets: bool
    var base64: bool
    var headers: map<string, string>
    var args: map<string, string>
    var callback: Option<B.Callback>
    var content: string

    constructor ()
      ensures Blank()
    {
      valid, verb, path, protocol, host, size := true, "", "", "", "", None;
      octets, base64, headers, args, callback, content := false, false, map[], map[], None, "";
    }

    predicate Blank()
      reads this
    {
      valid && content == "" && NoHeaderRead() && args == map[] && callback == None
    }

    predicate NoHeaderRead()
      reads this
    {
      host == "" && size == None && !octets && !base64
    }

    function View(): S.Request
      reads this
    {
      S.Request(valid, verb, path, protocol, host, size, octets, base64, headers, args, callback, content)
    }

    // false when std::stoi throws. decoded is what the decoder of OpenSSL makes of binary content.
    method Eval(buffer: string, decoded: string) returns (ok: bool)
      requires Blank()
      modifies this
      ensures ok == S.Eval(buffer, decoded).Request?
      ensures ok ==> View() == S.Eval(buffer, decoded)
    {
      hide S.IndexOf, S.Blocks, S.TakeLines, S.Assemble, S.Finished;
      var bytes := S.CString(buffer);
      var p := S.IndexOf(bytes, S.END);
      if p < 0 {
        valid := false;
      }
      var headersStr := "";
      if (if p < 0 then |bytes| == 3 else p == |bytes| - 4) {
        headersStr := bytes;
      } else {
        var result := Split(bytes);
        if |result| == 2 {
          headersStr := result[0];
          content := result[1];
        }
      }
      ok := ParseHeaders(headersStr, bytes, decoded);
    }

    // The pieces between blank lines.
    method Split(bytes: string) returns (result: seq<string>)
      ensures result == S.Blocks(bytes)
    {
      hide S.IndexOf, S.Blocks;
      result := [];
      var last := 0;
      var next := S.IndexOf(bytes, S.END);
      assert bytes[0..] == bytes;
      Neutral(S.Blocks(bytes));
      while next >= 0
        invariant 0 <= last <= |bytes| && -1 <= next
        invariant next >= 0 ==> last <= next && next + 4 <= |bytes| && S.IndexOf(bytes[last..], S.END) == next - last
        invariant next < 0 ==> S.IndexOf(bytes[last..], S.END) < 0
        invariant result + S.Blocks(bytes[last..]) == S.Blocks(bytes)
        decreases if next < 0 then 0 else |bytes| - last + 1
      {
        BlocksFrom(bytes, last, next);
        Associative(result, [bytes[last..next]], S.Blocks(bytes[next + 4..]));
        if bytes[last..next] != "" {
          result := result + [bytes[last..next]];
        }
        last := next + 4;
        var i := S.IndexOf(bytes[last..], S.END);
        next := if i < 0 then -1 else last + i;
      }
      NoBlockFrom(bytes[last..]);
      if bytes[last..] != "" {
        result := result + [bytes[last..]];
      }
      Neutral(result);
    }

    // parseHeaders; bytes is the text the headers are from.
    method ParseHeaders(headerStr: string, ghost bytes: string, decoded: string) returns (ok: bool)
      requires NoHeaderRead() && args == map[] && callback == None
      requires valid == S.Holds(bytes, S.END) && content == S.ContentIn(bytes)
      modifies this`host, this`size, this`octets, this`base64, this`headers, this`args, this`callback, this`verb,
               this`path, this`protocol, this`content
      ensures var r := S.Finished(S.Assemble(bytes, S.TakeLines(S.NO_HEADS, headerStr)), decoded);
              ok == r.Request? && (ok ==> View() == r)
    {
      hide S.Assemble, S.TakeLines, S.ContentIn, S.Holds, S.FormArgs, S.FinalContent;
      ok := ReadHeaders(headerStr, bytes);
      if ok {
        Posted(decoded);
      }
    }

    // All but the last part of parseHeaders.
    method ReadHeaders(headerStr: string, ghost bytes: string) returns (ok: bool)
      requires NoHeaderRead() && args == map[] && callback == None
      requires valid == S.Holds(bytes, S.END) && content == S.ContentIn(bytes)
      modifies this`host, this`size, this`octets, this`base64, this`headers, this`args, this`callback, this`verb,
               this`path, this`protocol
      ensures var r := S.Assemble(bytes, S.TakeLines(S.NO_HEADS, headerStr));
              ok == r.Request? && (ok ==> View() == r)
    {
      hide S.IndexOf, S.Holds, S.Assemble, S.TakeLines, S.TakeWords, S.TakeArgs, S.PathOnly, S.Query, C.ReadCallback,
        S.ContentIn, S.CallbackMap;
      ghost var h := S.TakeLines(S.NO_HEADS, headerStr);
      var protoHead;
      ok, protoHead := ReadFields(headerStr);
      if !ok {
        NotAssembled(bytes, h);
        return;
      }
      ReadRequestLine(protoHead);
      Assembled(bytes, h, callback);
    }

    // The header fields and the callback among them.
    method ReadFields(headerStr: string) returns (ok: bool, protoHead: string)
      requires NoHeaderRead() && callback == None
      modifies this`host, this`size, this`octets, this`base64, this`headers, this`callback
      ensures var h := S.TakeLines(S.NO_HEADS, headerStr);
              && ok == (h.Heads?
                        && (S.CallbackMap(h.headers) != map[] ==> C.ReadCallback(S.CallbackMap(h.headers)).Some?))
              && (ok ==>
                    && h == S.Heads(h.first, host, size, octets, base64, headers)
                    && protoHead == (if h.first.None? then "" else h.first.value)
                    && callback == if S.CallbackMap(h.headers) == map[] then None
                                   else C.ReadCallback(S.CallbackMap(h.headers)))
    {
      hide S.IndexOf, S.TakeLines, C.ReadCallback, S.CallbackMap;
      var fields, callbackMap, threw;
      protoHead, fields, callbackMap, threw := ReadLines(headerStr);
      if threw {
        return false, protoHead;
      }
      if callbackMap != map[] {
        callback := C.ReadCallback(callbackMap);
        if callback == None {
          return false, protoHead;
        }
      }
      headers := fields;
      ok := true;
    }

    method ReadRequestLine(protoHead: string)
      requires args == map[]
      modifies this`verb, this`path, this`protocol, this`args
      ensures var w := S.TakeWords(S.NO_WORDS, protoHead);
              && verb == w.verb && path == S.PathOnly(w.path) && protocol == w.protocol
              && args == S.TakeArgs(map[], S.Query(w.path))
    {
      hide S.IndexOf, S.TakeWords, S.TakeArgs, S.PathOnly, S.Query;
      ReadWords(protoHead);
      ReadQuery();
    }

    // The path and the arguments behind a question mark.
    method ReadQuery()
      requires args == map[]
      modifies this`path, this`args
      ensures path == S.PathOnly(old(path)) && args == S.TakeArgs(map[], S.Query(old(path)))
    {
      hide S.IndexOf;
      var pathp := S.IndexOf(path, "?");
      if pathp >= 0 {
        var npath := path[pathp + 1..];
        path := path[..pathp];
        AddArgs(npath);
      } else {
        NoArgs();
      }
    }

    // The content of a POST request: a form, or binary.
    method Posted(decoded: string)
      modifies this`args, this`content
      ensures args == S.FormArgs(old(View())) && content == S.FinalContent(old(View()), decoded)
    {
      hide S.IndexOf, S.TakeArgs;
      if verb == "POST" && content != "" {
        if octets {
          content := if base64 then decoded else "";
        } else if S.Holds(content, "&") {
          AddArgs(content);
        }
      }
    }

    // The loop over the tokens between ampersands.
    method AddArgs(s: string)
      modifies this`args
      ensures args == S.TakeArgs(old(args), s)
    {
      hide S.IndexOf;
      var pos, more := 0, true;
      assert s[0..] == s;
      while more
        invariant 0 <= pos <= |s|
        invariant (if more then S.TakeArgs(args, s[pos..]) else args) == S.TakeArgs(old(args), s)
        decreases more, |s| - pos
      {
        var i := S.IndexOf(s[pos..], "&");
        var token := if i < 0 then s[pos..] else s[pos..pos + i];
        assert i >= 0 ==> s[pos..][..i] == token && s[pos..][i + 1..] == s[pos + i + 1..];
        var p := S.IndexOf(token, "=");
        if p >= 0 {
          args := args[token[..p] := token[p + 1..]];
        }
        more := i >= 0;
        pos := if i < 0 then |s| else pos + i + 1;
      }
    }

    // The loop of parseHeaders over the lines.
    method ReadLines(s: string)
      returns (protoHead: string, fields: map<string, string>, callbackMap: map<string, string>, threw: bool)
      requires NoHeaderRead()
      modifies this`host, this`size, this`octets, this`base64
      ensures var h := S.TakeLines(S.NO_HEADS, s);
              threw == h.Threw?
              && (!threw ==>
                    h == S.Heads(h.first, host, size, octets, base64, fields) && callbackMap == S.CallbackMap(fields)
                    && protoHead == if h.first.None? then "" else h.first.value)
    {
      hide S.IndexOf, S.TakeLine, S.TakeLines, S.CallbackMap;
      var first := true;
      protoHead, fields, callbackMap, threw := "", map[], map[], false;
      NothingYet(s);
      var pos := 0;
      while pos < |s|
        invariant 0 <= pos <= |s|
        invariant S.TakeLines(State(first, protoHead, fields), s[pos..]) == S.TakeLines(S.NO_HEADS, s)
        invariant callbackMap == S.CallbackMap(fields) && (first ==> protoHead == "")
      {
        ghost var h := State(first, protoHead, fields);
        var i := S.IndexOf(s[pos..], "\n");
        var word := if i < 0 then s[pos..] else s[pos..pos + i];
        LineStep(h, s[pos..]);
        assert i >= 0 ==> s[pos..][..i] == s[pos..pos + i] && s[pos..][i + 1..] == s[pos + i + 1..];
        first, protoHead, fields, callbackMap, threw := ReadLine(word, first, protoHead, fields, callbackMap);
        if threw {
          ThrewStays(if i < 0 then "" else s[pos + i + 1..]);
          return;
        }
        pos := if i < 0 then |s| else pos + i + 1;
        assert i < 0 ==> s[pos..] == "";
      }
      assert s[pos..] == "";
      NoLine(State(first, protoHead, fields));
    }

    ghost function State(first: bool, protoHead: string, fields: map<string, string>): S.Heads
      reads this
    {
      S.Heads(if first then None else Some(protoHead), host, size, octets, base64, fields)
    }

    // One line.
    method ReadLine(
      word: string, first0: bool, protoHead0: string, fields0: map<string, string>, callbackMap0: map<string, string>)
      returns (
        first: bool, protoHead: string, fields: map<string, string>, callbackMap: map<string, string>, threw: bool)
      requires callbackMap0 == S.CallbackMap(fields0) && (first0 ==> protoHead0 == "")
      modifies this`host, this`size, this`octets, this`base64
      ensures var h := S.TakeLine(old(State(first0, protoHead0, fields0)), word);
              if threw then h.Threw?
              else
                && h == State(first, protoHead, fields) && callbackMap == S.CallbackMap(fields)
                && (first ==> protoHead == "")
    {
      hide S.IndexOf, S.Erase, S.SizeOf, S.Holds, S.CallbackMap, S.IsBase64, S.IsOctets;
      first, protoHead, fields, callbackMap, threw := first0, protoHead0, fields0, callbackMap0, false;
      if word != "" {
        var sep := S.IndexOf(word, ": ");
        if sep >= 0 && !first {
          var key := word[..sep];
          var val := S.Erase(word[sep + 2..], '\r');
          HostIsNoCallback();
          if key == "Host" {
            host := val;
          } else if S.Holds(key, "Callback-") {
            callbackMap := callbackMap[key := val];
          }
          if S.IsBase64(key, val) {
            base64 := true;
          }
          if S.IsOctets(key, val) {
            octets := true;
          }
          if key == "Content-Size" {
            var n := S.SizeOf(val);
            if n == None {
              threw := true;
              return;
            }
            size := n;
          }
          CallbackMapAdds(fields, key, val);
          fields := fields[key := val];
        } else if first {
          protoHead := word;
          first := false;
        }
      }
    }

    // The loop of parseHeaders over the request line.
    method ReadWords(protoHead: string)
      modifies this`verb, this`path, this`protocol
      ensures var w := S.TakeWords(S.NO_WORDS, protoHead);
              verb == w.verb && path == w.path && protocol == w.protocol
    {
      var sepGate, method2, path2, protocol2 := 0, "", "", "";
      var i := 0;
      assert protoHead[0..] == protoHead;
      while i < |protoHead|
        invariant 0 <= i <= |protoHead| && 0 <= sepGate
        invariant S.TakeWords(S.Words(sepGate, method2, path2, protocol2), protoHead[i..])
                  == S.TakeWords(S.NO_WORDS, protoHead)
      {
        var c := protoHead[i];
        assert protoHead[i..][1..] == protoHead[i + 1..];
        i := i + 1;
        if c == ' ' {
          sepGate := sepGate + 1;
          continue;
        }
        if c == '\t' {
          continue;
        }
        if c == '\r' {
          continue;
        }
        if sepGate == 0 {
          method2 := method2 + [c];
        } else if sepGate == 1 {
          path2 := path2 + [c];
        } else if sepGate == 2 {
          protocol2 := protocol2 + [c];
        }
      }
      verb, path, protocol := method2, path2, protocol2;
    }
  }

  lemma BlocksFrom(s: string, last: nat, next: nat)
    requires last <= next && next + 4 <= |s| && S.IndexOf(s[last..], S.END) == next - last
    ensures S.Blocks(s[last..])
         == if s[last..next] == "" then S.Blocks(s[next + 4..]) else [s[last..next]] + S.Blocks(s[next + 4..])
  {
    hide S.IndexOf;
    assert s[last..][..next - last] == s[last..next];
    assert s[last..][next - last + 4..] == s[next + 4..];
    Neutral(S.Blocks(s[next + 4..]));
  }

  lemma NoBlockFrom(t: string)
    requires S.IndexOf(t, S.END) < 0
    ensures S.Blocks(t) == if t == "" then [] else [t]
  {
    hide S.IndexOf;
  }

  // What an exception leaves.
  lemma NotAssembled(bytes: string, h: S.Heads)
    requires h.Heads? ==> S.CallbackMap(h.headers) != map[] && C.ReadCallback(S.CallbackMap(h.headers)).None?
    ensures S.Assemble(bytes, h).Failed?
  {
    hide S.CallbackMap, C.ReadCallback;
  }

  // And what a request is made of otherwise.
  lemma Assembled(bytes: string, h: S.Heads, callback: Option<B.Callback>)
    requires h.Heads?
    requires if S.CallbackMap(h.headers) == map[] then callback == None
             else callback == C.ReadCallback(S.CallbackMap(h.headers)) && callback.Some?
    ensures var w := S.TakeWords(S.NO_WORDS, if h.first.None? then "" else h.first.value);
            S.Assemble(bytes, h)
            == S.Request(S.Holds(bytes, S.END), w.verb, S.PathOnly(w.path), w.protocol, h.host, h.size, h.octets,
                         h.base64, h.headers, S.TakeArgs(map[], S.Query(w.path)), callback, S.ContentIn(bytes))
  {
    hide S.CallbackMap, C.ReadCallback;
  }

  lemma NoArgs()
    ensures S.TakeArgs(map[], "") == map[]
  {
    JobProofs.TooShort("", "&");
    JobProofs.TooShort("", "=");
  }

  lemma NothingYet(s: string)
    ensures s[0..] == s && S.CallbackMap(map[]) == map[]
  {
  }

  lemma NoLine(h: S.Heads)
    ensures S.TakeLines(h, "") == h
  {
    JobProofs.TooShort("", "\n");
  }

  lemma LineStep(h: S.Heads, t: string)
    requires t != ""
    ensures var i := S.IndexOf(t, "\n");
            S.TakeLines(h, t)
            == if i < 0 then S.TakeLines(S.TakeLine(h, t), "") else S.TakeLines(S.TakeLine(h, t[..i]), t[i + 1..])
  {
    hide S.TakeLine, S.IndexOf;
    NoLine(S.TakeLine(h, t));
  }

  lemma {:induction false} ThrewStays(t: string)
    ensures S.TakeLines(S.Threw, t) == S.Threw
    decreases |t|
  {
    hide S.IndexOf;
    var i := S.IndexOf(t, "\n");
    if i >= 0 {
      ThrewStays(t[i + 1..]);
    }
  }

  lemma HostIsNoCallback()
    ensures !S.IsCallbackKey("Host")
  {
  }

  lemma CallbackMapAdds(args: map<string, string>, key: string, val: string)
    ensures S.CallbackMap(args[key := val])
         == if S.IsCallbackKey(key) then S.CallbackMap(args)[key := val] else S.CallbackMap(args) - {key}
    ensures !S.IsCallbackKey(key) ==> S.CallbackMap(args) - {key} == S.CallbackMap(args)
  {
  }
}
