// core/src/crypt/base64_c.cc: the loops over the buffers.
module Base64 {
  import opened Common
  import opened Octets
  import opened Base64Spec

  // ---------------------------------------------------------------- the text written so far

  // Full lines are ended, a last line that is not full is still open.
  function Open(s: seq<Byte>): seq<Byte>
  {
    if |s| < WIDTH then s else s[..WIDTH] + [NEWLINE] + Open(s[WIDTH..])
  }

  lemma {:induction false} OpenLength(s: seq<Byte>)
    ensures |Open(s)| == |s| + |s| / WIDTH
    decreases |s|
  {
    if |s| >= WIDTH {
      OpenLength(s[WIDTH..]);
    }
  }

  lemma FullLine(n: nat)
    requires n >= WIDTH
    ensures (n - WIDTH) % WIDTH == n % WIDTH
  {
  }

  lemma {:induction false} WrappedFromOpen(s: seq<Byte>)
    ensures Wrapped(s) == Open(s) + (if |s| % WIDTH == 0 then [] else [NEWLINE])
    decreases |s|
  {
    if |s| > WIDTH {
      WrappedFromOpen(s[WIDTH..]);
      FullLine(|s|);
      Associative(s[..WIDTH] + [NEWLINE], Open(s[WIDTH..]), if |s| % WIDTH == 0 then [] else [NEWLINE]);
    } else if |s| == WIDTH {
      assert s[..WIDTH] == s && Open(s[WIDTH..]) == [];
    }
  }

  lemma {:induction false} OpenQuad(s: seq<Byte>, q: seq<Byte>)
    requires |s| % 4 == 0 && |q| == 4
    ensures Open(s + q) == Open(s) + q + (if (|s| + 4) % WIDTH == 0 then [NEWLINE] else [])
    decreases |s|
  {
    if |s| >= WIDTH {
      var line, more := s[..WIDTH], s[WIDTH..];
      assert (s + q)[..WIDTH] == line && (s + q)[WIDTH..] == more + q;
      OpenQuad(more, q);
      FullLine(|s| + 4);
      var nl := if (|s| + 4) % WIDTH == 0 then [NEWLINE] else [];
      Associative(line + [NEWLINE], Open(more), q);
      Associative(line + [NEWLINE], Open(more) + q, nl);
    } else if |s| + 4 == WIDTH {
      assert (s + q)[..WIDTH] == s + q && Open((s + q)[WIDTH..]) == [];
    }
  }

  lemma {:induction false} SymbolsAppend(u: seq<Byte>, v: seq<Byte>)
    requires |u| % 3 == 0
    ensures Symbols(u + v) == Symbols(u) + Symbols(v)
    decreases |u|
  {
    hide Quad, LastQuad;
    if |u| == 0 {
      assert u + v == v;
    } else {
      assert (u + v)[3..] == u[3..] + v;
      SymbolsAppend(u[3..], v);
      Associative(Quad(u[0], u[1], u[2]), Symbols(u[3..]), Symbols(v));
    }
  }

  lemma NextQuad(x: seq<Byte>, i: nat)
    requires i % 3 == 0 && i + 3 <= |x|
    ensures Symbols(x[..i + 3]) == Symbols(x[..i]) + Quad(x[i], x[i + 1], x[i + 2])
  {
    hide Quad;
    assert x[..i + 3] == x[..i] + x[i..i + 3];
    SymbolsAppend(x[..i], x[i..i + 3]);
    assert x[i..i + 3][3..] == [];
  }

  lemma FinalQuad(x: seq<Byte>, i: nat)
    requires i % 3 == 0 && i < |x| < i + 3
    ensures Symbols(x) == Symbols(x[..i]) + LastQuad(x[i..])
  {
    hide LastQuad;
    assert x == x[..i] + x[i..];
    SymbolsAppend(x[..i], x[i..]);
  }

  // Room for what has been written after n symbols out of all, a newline and the terminator.
  lemma RoomFor(len: nat, n: nat)
    requires len * 4 < WORD && n <= (len + 2) / 3 * 4
    ensures n + n / WIDTH < Allocated(len)
    ensures n % WIDTH != 0 ==> n + n / WIDTH + 1 < Allocated(len)
  {
    hide Allocated;
    AllocationIsTight(len);
    var all := (len + 2) / 3 * 4;
    assert n / WIDTH <= Lines(n) <= Lines(all);
    assert n % WIDTH != 0 ==> Lines(n) == n / WIDTH + 1;
  }

  // ---------------------------------------------------------------- base64_encode

  method PutTriple(out: array<Byte>, pos: nat, a: Byte, b: Byte, c: Byte)
    requires pos + 4 <= out.Length
    modifies out
    ensures out[..pos + 4] == old(out[..pos]) + Quad(a, b, c)
  {
    hide Symbol;
    ghost var before := out[..pos];
    out[pos] := Symbol(a as nat / 4);
    out[pos + 1] := Symbol(a as nat % 4 * 16 + b as nat / 16);
    out[pos + 2] := Symbol(b as nat % 16 * 4 + c as nat / 64);
    out[pos + 3] := Symbol(c as nat % 64);
    assert out[..pos] == before;
    assert out[pos..pos + 4] == [out[pos], out[pos + 1], out[pos + 2], out[pos + 3]];
    assert out[..pos + 4] == out[..pos] + out[pos..pos + 4];
  }

  method PutLast(out: array<Byte>, pos: nat, src: array<Byte>, i: nat)
    requires pos + 4 <= out.Length && 1 <= src.Length - i <= 2 && src != out
    modifies out
    ensures out[..pos + 4] == old(out[..pos]) + LastQuad(src[i..])
  {
    ghost var before := out[..pos];
    out[pos] := Symbol(src[i] as nat / 4);
    if src.Length - i == 1 {
      out[pos + 1] := Symbol(src[i] as nat % 4 * 16);
      out[pos + 2] := PAD;
    } else {
      out[pos + 1] := Symbol(src[i] as nat % 4 * 16 + src[i + 1] as nat / 16);
      out[pos + 2] := Symbol(src[i + 1] as nat % 16 * 4);
    }
    out[pos + 3] := PAD;
    assert out[..pos] == before;
    assert src[i..][0] == src[i] && (src.Length - i == 2 ==> src[i..][1] == src[i + 1]);
    assert out[pos..pos + 4] == [out[pos], out[pos + 1], out[pos + 2], out[pos + 3]];
    assert out[pos..pos + 4] == LastQuad(src[i..]);
    assert out[..pos + 4] == out[..pos] + out[pos..pos + 4];
  }

  method PutNewline(out: array<Byte>, pos: nat)
    requires pos < out.Length
    modifies out
    ensures out[..pos + 1] == old(out[..pos]) + [NEWLINE]
  {
    ghost var before := out[..pos];
    out[pos] := NEWLINE;
    assert out[..pos] == before;
  }

  method OutputSize(len: nat) returns (olen: nat)
    requires len < WORD
    ensures olen == Allocated(len)
  {
    olen := (len * 4 % WORD / 3 + 4) % WORD;
    olen := (olen + olen / 72) % WORD;
    olen := (olen + 1) % WORD;
  }

  lemma NothingWritten(x: seq<Byte>)
    ensures Symbols(x[..0]) == [] && Open([]) == []
  {
  }

  lemma LineStep(n: nat)
    requires n % 4 == 0
    ensures (n + 4) % WIDTH == if n % WIDTH + 4 >= 72 then 0 else n % WIDTH + 4
  {
    var u, v := n / 4 / 18, n / 4 % 18;
    assert n == 72 * u + 4 * v && n + 4 == 72 * u + (4 * v + 4);
    Column(n, u, 4 * v);
    if v < 17 {
      Column(n + 4, u, 4 * v + 4);
    } else {
      Column(n + 4, u + 1, 0);
    }
  }

  lemma Column(n: nat, lines: nat, column: nat)
    requires n == WIDTH * lines + column && column < WIDTH
    ensures n % WIDTH == column
  {
  }

  // One round of the loop over whole triples.
  lemma TripleWritten(x: seq<Byte>, i: nat)
    requires i % 3 == 0 && i + 3 <= |x| && |x| * 4 < WORD
    ensures var n, q := i / 3 * 4, Quad(x[i], x[i + 1], x[i + 2]);
            var nl := if n % WIDTH + 4 >= 72 then [NEWLINE] else [];
            && Open(Symbols(x[..i + 3])) == Open(Symbols(x[..i])) + q + nl
            && |Open(Symbols(x[..i + 3]))| < Allocated(|x|)
            && (n + 4) % WIDTH == (if n % WIDTH + 4 >= 72 then 0 else n % WIDTH + 4)
  {
    hide Allocated, Symbols, Open, Quad;
    NextQuad(x, i);
    OpenQuad(Symbols(x[..i]), Quad(x[i], x[i + 1], x[i + 2]));
    OpenLength(Symbols(x[..i + 3]));
    RoomFor(|x|, i / 3 * 4 + 4);
    LineStep(i / 3 * 4);
  }

  // What follows the whole triples: the padded quad, the last newline, the terminator.
  method Finish(src: array<Byte>, out: array<Byte>, i: nat, start: nat, line: nat) returns (outLen: nat)
    requires src != out && i % 3 == 0 && i <= src.Length < i + 3 && src.Length * 4 < WORD
    requires out.Length == Allocated(src.Length)
    requires start <= out.Length && out[..start] == Open(Symbols(src[..i]))
    requires line == i / 3 * 4 % WIDTH
    modifies out
    ensures outLen < out.Length && out[..outLen] == Encode(src[..]) && out[outLen] == 0
  {
    hide Allocated, Symbols, Open, LastQuad, Encode;
    var pos, lineLen := start, line;
    ghost var x := src[..];
    assert x[..i] == src[..i] && x[i..] == src[i..];
    AllWritten(x, i);
    if src.Length - i > 0 {
      PutLast(out, pos, src, i);
      pos := pos + 4;
      lineLen := lineLen + 4;
    }
    if lineLen > 0 {
      PutNewline(out, pos);
      pos := pos + 1;
    }
    assert out[..pos] == Encode(x);
    out[pos] := 0;
    assert out[..pos] == Encode(x);
    outLen := pos;
  }

  lemma AllWritten(x: seq<Byte>, i: nat)
    requires i % 3 == 0 && i <= |x| < i + 3 && |x| * 4 < WORD
    ensures var column := i / 3 * 4 % WIDTH + if i < |x| then 4 else 0;
            Encode(x) == Open(Symbols(x[..i])) + (if i < |x| then LastQuad(x[i..]) else [])
                         + (if column > 0 then [NEWLINE] else [])
    ensures |Encode(x)| < Allocated(|x|)
  {
    hide Allocated, Symbols, Open, LastQuad, Wrapped;
    var s, all := Symbols(x[..i]), Symbols(x);
    WrappedLength(all);
    AllocationIsTight(|x|);
    WrappedFromOpen(all);
    if i < |x| {
      FinalQuad(x, i);
      OpenQuad(s, LastQuad(x[i..]));
      LineStep(i / 3 * 4);
      Neutral(Open(s) + LastQuad(x[i..]));
    } else {
      assert x[..i] == x;
      Neutral(Open(s));
    }
  }

  // null when the size does not fit a word; malloc succeeds.
  method Base64Encode(src: array<Byte>) returns (out: array?<Byte>, outLen: nat)
    requires src.Length < WORD
    ensures out == null <==> src.Length * 4 >= WORD
    ensures out != null ==>
              && fresh(out) && out.Length == Allocated(src.Length) && outLen < out.Length
              && out[..outLen] == Encode(src[..]) && out[outLen] == 0
  {
    hide Allocated, Symbols, Open, Quad, LastQuad, Symbol, Wrapped;
    var len := src.Length;
    var olen := OutputSize(len);
    OverflowIsCaught(len);
    if olen < len {
      return null, 0;
    }
    var buffer := new Byte[olen];
    ghost var x := src[..];
    var i, pos, lineLen := 0, 0, 0;
    NothingWritten(x);
    while len - i >= 3
      invariant 0 <= i <= len && i % 3 == 0
      invariant lineLen == i / 3 * 4 % WIDTH
      invariant pos <= buffer.Length && buffer[..pos] == Open(Symbols(x[..i]))
    {
      TripleWritten(x, i);
      PutTriple(buffer, pos, src[i], src[i + 1], src[i + 2]);
      pos := pos + 4;
      i := i + 3;
      lineLen := lineLen + 4;
      if lineLen >= 72 {
        PutNewline(buffer, pos);
        pos := pos + 1;
        lineLen := 0;
      }
    }
    assert x[..i] == src[..i];
    outLen := Finish(src, buffer, i, pos, lineLen);
    out := buffer;
  }

  // ---------------------------------------------------------------- base64_decode

  // The table is filled from the alphabet; every other entry marks an octet to skip.
  method BuildTable() returns (dtable: array<nat>)
    ensures fresh(dtable) && dtable.Length == 256 && forall c: Byte :: dtable[c] == Value(c)
  {
    hide Symbol, Value;
    dtable := new nat[256](_ => SKIP);
    var i := 0;
    while i < 64
      invariant i <= 64
      invariant forall c: Byte :: dtable[c] == if InAlphabet(c) && Value(c) < i then Value(c) else SKIP
    {
      ValueOfSymbol(i);
      EntryOf(i);
      dtable[Symbol(i)] := i;
      i := i + 1;
    }
    OutsideAlphabet();
    dtable[PAD] := 0;
  }

  predicate InAlphabet(c: Byte) { Value(c) != SKIP && c != PAD }

  lemma EntryOf(i: nat)
    requires i < 64
    ensures forall c: Byte :: InAlphabet(c) && Value(c) == i ==> c == Symbol(i)
  {
    hide Symbol, Value;
    forall c: Byte | InAlphabet(c) && Value(c) == i
      ensures c == Symbol(i)
    {
      SymbolOfValue(c);
    }
  }

  lemma OutsideAlphabet()
    ensures forall c: Byte :: !InAlphabet(c) && c != PAD ==> Value(c) == SKIP
    ensures Value(PAD) == 0
  {
  }

  // The next octet is skipped or is the next symbol.
  lemma NextKept(s: seq<Byte>, i: nat)
    requires i < |s|
    ensures var k := |Kept(s[..i])|;
            if Value(s[i]) == SKIP then |Kept(s[..i + 1])| == k
            else |Kept(s[..i + 1])| == k + 1 && k < |Kept(s)| && Kept(s)[k] == s[i]
  {
    hide Value;
    assert s[..i + 1] == s[..i] + [s[i]];
    KeptAppends(s[..i], [s[i]]);
    assert [s[i]][1..] == [];
    assert s == s[..i + 1] + s[i + 1..];
    KeptAppends(s[..i + 1], s[i + 1..]);
  }

  method CountKept(src: array<Byte>, dtable: array<nat>) returns (count: nat)
    requires dtable.Length == 256 && forall c: Byte :: dtable[c] == Value(c)
    ensures count == |Kept(src[..])|
  {
    hide Value;
    count := 0;
    var i := 0;
    while i < src.Length
      invariant i <= src.Length && count == |Kept(src[..i])|
    {
      NextKept(src[..], i);
      assert src[..][..i] == src[..i] && src[..][..i + 1] == src[..i + 1];
      if dtable[src[i]] != SKIP {
        count := count + 1;
      }
      i := i + 1;
    }
    assert src[..i] == src[..];
  }

  function Prepend(t: seq<Byte>, r: Option<seq<Byte>>): Option<seq<Byte>>
  {
    match r
    case None => None
    case Some(more) => Some(t + more)
  }

  lemma FirstQuad(r: seq<Byte>)
    requires |r| % 4 == 0 && |r| > 0 && AllKept(r)
    ensures FromQuads(r) == if Pads(r[..4]) > 2 then None
                            else if Pads(r[..4]) > 0 then Some(Triple(r[..4])[..3 - Pads(r[..4])])
                            else Prepend(Triple(r[..4]), FromQuads(r[4..]))
  {
    hide Value, Triple, Pads;
  }

  lemma PrependTwice(s: seq<Byte>, t: seq<Byte>, r: Option<seq<Byte>>)
    ensures Prepend(s, Prepend(t, r)) == Prepend(s + t, r)
  {
    if r.Some? {
      Associative(s, t, r.value);
    }
  }

  // The first quad of what is still to be decoded.
  lemma QuadStep(done: seq<Byte>, r: seq<Byte>)
    requires |r| % 4 == 0 && |r| > 0 && AllKept(r)
    ensures AllKept(r[..4]) && AllKept(r[4..])
    ensures Prepend(done, FromQuads(r))
         == if Pads(r[..4]) > 2 then None
            else if Pads(r[..4]) > 0 then Some(done + Triple(r[..4])[..3 - Pads(r[..4])])
            else Prepend(done + Triple(r[..4]), FromQuads(r[4..]))
  {
    hide Value, Triple, Pads, FromQuads;
    FirstQuad(r);
    PrependTwice(done, Triple(r[..4]), FromQuads(r[4..]));
  }

  // Three octets from four table entries, as the source shifts and truncates them.
  method PutBlock(out: array<Byte>, pos: nat, block: array<nat>, ghost q: seq<Byte>)
    requires pos + 3 <= out.Length && block.Length == 4
    requires |q| == 4 && AllKept(q) && forall i | 0 <= i < 4 :: block[i] == Value(q[i])
    modifies out
    ensures out[..pos + 3] == old(out[..pos]) + Triple(q)
  {
    hide Value, Triple;
    ghost var before := out[..pos];
    TripleOfValues(q, block[0], block[1], block[2], block[3]);
    out[pos] := (block[0] * 4 % 256 + block[1] / 16) as Byte;
    out[pos + 1] := (block[1] * 16 % 256 + block[2] / 4) as Byte;
    out[pos + 2] := (block[2] * 64 % 256 + block[3]) as Byte;
    assert out[..pos] == before;
    assert out[pos..pos + 3] == [out[pos], out[pos + 1], out[pos + 2]];
    assert out[..pos + 3] == out[..pos] + out[pos..pos + 3];
  }

  lemma TripleOfValues(q: seq<Byte>, v: nat, w: nat, x: nat, y: nat)
    requires |q| == 4 && AllKept(q)
    requires v == Value(q[0]) && w == Value(q[1]) && x == Value(q[2]) && y == Value(q[3])
    ensures v < 64 && w < 64 && x < 64 && y < 64
    ensures v * 4 % 256 + w / 16 < 256 && w * 16 % 256 + x / 4 < 256 && x * 64 % 256 + y < 256
    ensures Triple(q)
         == [(v * 4 % 256 + w / 16) as Byte, (w * 16 % 256 + x / 4) as Byte, (x * 64 % 256 + y) as Byte]
  {
    hide Value;
    FirstTruncated(v);
    SecondTruncated(w);
    ThirdTruncated(x);
  }

  // What the conversion to an octet cuts off.

  lemma FirstTruncated(v: nat)
    requires v < 64
    ensures v * 4 % 256 == v * 4 <= 252
  {
  }

  lemma SecondTruncated(w: nat)
    requires w < 64
    ensures w * 16 % 256 == w % 16 * 16 <= 240 && w / 16 <= 3
  {
    assert w * 16 == w / 16 * 256 + w % 16 * 16;
  }

  lemma ThirdTruncated(x: nat)
    requires x < 64
    ensures x * 64 % 256 == x % 4 * 64 <= 192 && x / 4 <= 15
  {
    assert x * 64 == x / 4 * 256 + x % 4 * 64;
  }

  // A full block: three octets, less one or two for the padding; more when the data goes on.
  method PutQuad(out: array<Byte>, start: nat, block: array<nat>, pad: nat, ghost q: seq<Byte>, ghost r: seq<Byte>)
    returns (pos: nat, more: bool)
    requires |r| % 4 == 0 && |r| > 0 && AllKept(r)
    requires start + 3 <= out.Length && block.Length == 4
    requires q == r[..4] && forall k | 0 <= k < 4 :: block[k] == Value(q[k])
    requires pad == Pads(q)
    modifies out
    ensures pos <= out.Length && more == (pad == 0) && AllKept(r[4..])
    ensures more ==>
              && pos == start + 3
              && Prepend(old(out[..start]), FromQuads(r)) == Prepend(out[..pos], FromQuads(r[4..]))
    ensures !more ==> Prepend(old(out[..start]), FromQuads(r)) == if pad > 2 then None else Some(out[..pos])
  {
    hide Value, FromQuads, Triple, Pads;
    ghost var done := out[..start];
    QuadStep(done, r);
    PutBlock(out, start, block, q);
    pos := start + 3;
    more := pad == 0;
    if pad > 0 {
      if pad == 1 {
        pos := pos - 1;
      } else if pad == 2 {
        pos := pos - 2;
      } else {
        return;
      }
      assert out[..pos] == done + Triple(q)[..3 - pad];
    }
  }

  method Base64Decode(src: array<Byte>) returns (out: array?<Byte>, outLen: nat)
    ensures out == null <==> Decode(src[..]).None?
    ensures out != null ==>
              && out.Length == |Kept(src[..])| / 4 * 3 && outLen <= out.Length
              && Decode(src[..]) == Some(out[..outLen])
  {
    hide Value, Kept, FromQuads, Triple, Pads, AllKept, EndsWith;
    ghost var s := src[..];
    ghost var all := Kept(s);
    KeptIsKept(s);
    var dtable := BuildTable();
    var count := CountKept(src, dtable);
    if count == 0 || count % 4 != 0 {
      return null, 0;
    }
    var buffer := new Byte[count / 4 * 3];
    var block := new nat[4];
    var pos, pad, i := 0, 0, 0;
    count := 0;
    ghost var rest, quad := all, [];
    NothingDecoded(s);
    while i < src.Length
      invariant i <= src.Length && count < 4
      invariant EndsWith(all, rest) && |rest| % 4 == 0 && AllKept(rest)
      invariant |rest| <= |all| && |Kept(s[..i])| == |all| - |rest| + count <= |all|
      invariant pos + |rest| / 4 * 3 == buffer.Length
      invariant FromQuads(all) == Prepend(buffer[..pos], FromQuads(rest))
      invariant count <= |rest| && rest[..count] == quad && pad == Pads(quad)
      invariant forall k | 0 <= k < count :: block[k] == Value(quad[k])
      modifies buffer, block
    {
      NextKept(s, i);
      var tmp := dtable[src[i]];
      i := i + 1;
      if tmp == SKIP {
        continue;
      }
      SuffixAt(all, rest, count);
      assert rest[..count + 1] == quad + [src[i - 1]];
      PadsSnoc(quad, src[i - 1]);
      quad := quad + [src[i - 1]];
      if src[i - 1] == PAD {
        pad := pad + 1;
      }
      block[count] := tmp;
      count := count + 1;
      if count == 4 {
        var more;
        pos, more := PutQuad(buffer, pos, block, pad, quad, rest);
        if !more {
          if pad > 2 {
            return null, 0;
          }
          return buffer, pos;
        }
        count := 0;
        SuffixStep(all, rest);
        rest, quad := rest[4..], [];
      }
    }
    assert s[..i] == s && rest == [];
    NoQuads();
    Neutral(buffer[..pos]);
    out, outLen := buffer, pos;
  }

  predicate EndsWith(all: seq<Byte>, r: seq<Byte>)
  {
    |r| <= |all| && r == all[|all| - |r|..]
  }

  lemma SuffixAt(all: seq<Byte>, r: seq<Byte>, k: nat)
    requires EndsWith(all, r) && k < |r| <= |all|
    ensures all[|all| - |r| + k] == r[k]
  {
  }

  lemma SuffixStep(all: seq<Byte>, r: seq<Byte>)
    requires EndsWith(all, r) && 4 <= |r| && |r| % 4 == 0
    ensures EndsWith(all, r[4..]) && |r| <= |all| && |r[4..]| % 4 == 0 && |r[4..]| / 4 * 3 == |r| / 4 * 3 - 3
  {
  }

  lemma NothingDecoded(s: seq<Byte>)
    requires |Kept(s)| % 4 == 0 && AllKept(Kept(s))
    ensures |Kept(s[..0])| == 0 && EndsWith(Kept(s), Kept(s)) && Pads([]) == 0
    ensures FromQuads(Kept(s)) == Prepend([], FromQuads(Kept(s)))
  {
    hide FromQuads;
    if FromQuads(Kept(s)).Some? {
      Neutral(FromQuads(Kept(s)).value);
    }
  }

  lemma PadsSnoc(q: seq<Byte>, c: Byte)
    ensures Pads(q + [c]) == Pads(q) + if c == PAD then 1 else 0
  {
    assert (q + [c])[..|q|] == q;
  }
}
