// The text of a job request (send_request in core/src/server/fetch.cc) and what Request::eval of
// core/src/server/request.cc reads from a text. A char stands for one octet.
module JobSpec {
  import opened Common
  import opened JsonText
  import B = BifrostSpec
  import opened CallbackSpec

  // ---------------------------------------------------------------- the printer

  datatype Header = Header(key: string, value: string)

  // headers are the headers of the message, in the order the source happens to visit them.
  datatype Job = Job(path: string, hostname: string, port: string, headers: seq<Header>, body: string)

  const END := "\r\n\r\n"

  function Content(h: Header): string { h.key + (": " + h.value) }

  function HeaderText(hs: seq<Header>): string
  {
    if hs == [] then "" else Content(hs[0]) + ("\r\n" + HeaderText(hs[1..]))
  }

  function FixedHeaders(j: Job): seq<Header>
  {
    [Header("Host", j.hostname + (":" + j.port)), Header("Connection", "keep-alive"),
     Header("User-Agent", "honpwc https_get 1.0"), Header("Jericho", "true"),
     Header("Content-Size", Decimal(|j.body|))]
  }

  function RequestLine(j: Job): string { "GET " + (j.path + " JOB") }

  // A request: its first line, headers and a body behind a blank line.
  function RequestText(line: string, hs: seq<Header>, body: string): string
  {
    line + ("\r\n" + (HeaderText(hs) + ("\r\n" + body)))
  }

  // The text of a job. Composed is what sprintf makes of it.
  function Print(j: Job): string
  {
    RequestText(RequestLine(j), FixedHeaders(j) + j.headers, j.body)
  }

  const NUL: char := 0 as char

  // The text of a buffer, up to its terminator.
  function CString(s: string): string
  {
    if s == "" || s[0] == NUL then "" else [s[0]] + CString(s[1..])
  }

  // Two percent signs are the one conversion that takes no argument; sprintf leaves the others undefined.
  predicate NoConversion(s: string)
    decreases |s|
  {
    if s == "" || s[0] == NUL then true
    else if s[0] == '%' then |s| >= 2 && s[1] == '%' && NoConversion(s[2..])
    else NoConversion(s[1..])
  }

  // What sprintf makes of a format without arguments.
  function Formatted(s: string): string
    requires NoConversion(s)
    decreases |s|
  {
    if s == "" || s[0] == NUL then ""
    else if s[0] == '%' then "%" + Formatted(s[2..])
    else [s[0]] + Formatted(s[1..])
  }

  function CutAll(hs: seq<Header>): (r: seq<Header>)
    ensures |r| == |hs|
  {
    seq(|hs|, i requires 0 <= i < |hs| => Header(CString(hs[i].key), CString(hs[i].value)))
  }

  // What "%s" makes of the parts of a job. The size is still that of the body.
  function Cut(j: Job): Job
  {
    Job(CString(j.path), CString(j.hostname), CString(j.port), CutAll(j.headers), j.body)
  }

  function Composed(j: Job): string
    requires NoConversion(j.body)
  {
    var c := Cut(j);
    RequestLine(c) + ("\r\n" + (HeaderText(FixedHeaders(c) + c.headers) + ("\r\n" + Formatted(j.body))))
  }

  // ---------------------------------------------------------------- the parser

  // The first place of t in s, or -1.
  function IndexOf(s: string, t: string): (i: int)
    ensures -1 <= i && (i >= 0 ==> i + |t| <= |s| && s[i..i + |t|] == t)
  {
    if |s| < |t| then -1
    else if s[..|t|] == t then 0
    else if s == "" then -1
    else
      var i := IndexOf(s[1..], t);
      if i < 0 then -1 else i + 1
  }

  predicate Holds(s: string, t: string) { IndexOf(s, t) >= 0 }

  // The pieces between blank lines, without the empty ones.
  function Blocks(s: string): seq<string>
    decreases |s|
  {
    var i := IndexOf(s, END);
    if i < 0 then (if s == "" then [] else [s])
    else (if i == 0 then [] else [s[..i]]) + Blocks(s[i + |END|..])
  }

  // Nothing follows the blank line. Sizes are without sign, and a text of three octets is taken for
  // such a one.
  predicate Bodyless(s: string)
  {
    var p := IndexOf(s, END);
    if p >= 0 then p == |s| - |END| else |s| == 3
  }

  function HeadersIn(s: string): string
  {
    if Bodyless(s) then s else if |Blocks(s)| == 2 then Blocks(s)[0] else ""
  }

  function ContentIn(s: string): string
  {
    if !Bodyless(s) && |Blocks(s)| == 2 then Blocks(s)[1] else ""
  }

  // first is the first line that is not empty, size the last Content-Size; octets and base64 are set by
  // the one value of Content-Type and of Content-Encoding that is known.
  datatype Heads =
    | Threw
    | Heads(first: Option<string>, host: string, size: Option<int>, octets: bool, base64: bool,
            headers: map<string, string>)

  function Erase(s: string, c: char): string
  {
    if s == "" then "" else (if s[0] == c then "" else [s[0]]) + Erase(s[1..], c)
  }

  predicate AllDigits(s: string)
  {
    forall i | 0 <= i < |s| :: IsDigit(s[i])
  }

  // None when std::stoi throws.
  function SizeOf(value: string): Option<int>
  {
    if AllDigits(value) then Stoi(value) else Some(0)
  }

  predicate IsOctets(key: string, value: string) { key == "Content-Type" && value == "application/octet-stream" }

  predicate IsBase64(key: string, value: string) { key == "Content-Encoding" && value == "base64" }

  function AddHeader(h: Heads, key: string, value: string): Heads
  {
    match h
    case Threw => Threw
    case Heads(first, host, size, octets, base64, headers) =>
      if key == "Content-Size" && SizeOf(value).None? then Threw
      else Heads(first, if key == "Host" then value else host,
                 if key == "Content-Size" then SizeOf(value) else size,
                 octets || IsOctets(key, value), base64 || IsBase64(key, value), headers[key := value])
  }

  function TakeLine(h: Heads, line: string): Heads
  {
    if h.Threw? || line == "" then h
    else if h.first.None? then h.(first := Some(line))
    else
      var sep := IndexOf(line, ": ");
      if sep < 0 then h else AddHeader(h, line[..sep], Erase(line[sep + 2..], '\r'))
  }

  // The lines of a text, as std::getline delivers them.
  function TakeLines(h: Heads, s: string): Heads
    decreases |s|
  {
    var i := IndexOf(s, "\n");
    if i < 0 then (if s == "" then h else TakeLine(h, s)) else TakeLines(TakeLine(h, s[..i]), s[i + 1..])
  }

  // The words of the request line.
  datatype Words = Words(gate: nat, verb: string, path: string, protocol: string)

  function TakeChar(w: Words, c: char): Words
  {
    if c == ' ' then w.(gate := w.gate + 1)
    else if c == '\t' || c == '\r' then w
    else if w.gate == 0 then w.(verb := w.verb + [c])
    else if w.gate == 1 then w.(path := w.path + [c])
    else if w.gate == 2 then w.(protocol := w.protocol + [c])
    else w
  }

  function TakeWords(w: Words, s: string): Words
    decreases |s|
  {
    if s == "" then w else TakeWords(TakeChar(w, s[0]), s[1..])
  }

  function PathOnly(path: string): string
  {
    var p := IndexOf(path, "?");
    if p < 0 then path else path[..p]
  }

  // The arguments behind a question mark.
  function Query(path: string): string
  {
    var p := IndexOf(path, "?");
    if p < 0 then "" else path[p + 1..]
  }

  // key=value, or nothing.
  function TakeArg(args: map<string, string>, token: string): map<string, string>
  {
    var p := IndexOf(token, "=");
    if p < 0 then args else args[token[..p] := token[p + 1..]]
  }

  // The arguments between ampersands.
  function TakeArgs(args: map<string, string>, s: string): map<string, string>
    decreases |s|
  {
    var i := IndexOf(s, "&");
    if i < 0 then TakeArg(args, s) else TakeArgs(TakeArg(args, s[..i]), s[i + 1..])
  }

  predicate IsCallbackKey(key: string) { key != "Host" && Holds(key, "Callback-") }

  function CallbackMap(headers: map<string, string>): map<string, string>
  {
    map key | key in headers && IsCallbackKey(key) :: headers[key]
  }

  // Failed stands for an exception of std::stoi.
  datatype Request =
    | Failed
    | Request(valid: bool, verb: string, path: string, protocol: string, host: string, size: Option<int>,
              octets: bool, base64: bool, headers: map<string, string>, args: map<string, string>,
              callback: Option<B.Callback>, content: string)

  const NO_HEADS := Heads(None, "", None, false, false, map[])
  const NO_WORDS := Words(0, "", "", "")

  // What becomes of the content of a POST request. decoded stands for what the decoder of OpenSSL makes
  // of the request; without it binary content is dropped.
  function FormArgs(r: Request): map<string, string>
    requires r.Request?
  {
    if r.verb == "POST" && r.content != "" && !r.octets && Holds(r.content, "&") then TakeArgs(r.args, r.content)
    else r.args
  }

  function FinalContent(r: Request, decoded: string): string
    requires r.Request?
  {
    if r.verb == "POST" && r.content != "" && r.octets then (if r.base64 then decoded else "") else r.content
  }

  function Assemble(s: string, h: Heads): Request
  {
    if h.Threw? then Failed
    else
      var callback := CallbackMap(h.headers);
      var w := TakeWords(NO_WORDS, if h.first.None? then "" else h.first.value);
      if callback != map[] && ReadCallback(callback).None? then Failed
      else
        Request(Holds(s, END), w.verb, PathOnly(w.path), w.protocol, h.host, h.size, h.octets, h.base64, h.headers,
                TakeArgs(map[], Query(w.path)), if callback == map[] then None else ReadCallback(callback),
                ContentIn(s))
  }

  function Finished(r: Request, decoded: string): Request
  {
    if r.Failed? then Failed else r.(args := FormArgs(r), content := FinalContent(r, decoded))
  }

  function Eval(buffer: string, decoded: string): Request
  {
    var s := CString(buffer);
    Finished(Assemble(s, TakeLines(NO_HEADS, HeadersIn(s))), decoded)
  }
}
