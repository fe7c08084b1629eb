// Base64 (section 6.8 of RFC 2045) as core/src/crypt/base64_c.cc writes and reads it.
module Base64Spec {
  import opened Common
  import opened Octets

  const NEWLINE: Byte := 10
  const PAD: Byte := 61

  // What the decoding table holds for an octet outside the alphabet.
  const SKIP: nat := 0x80

  // Characters on a line.
  const WIDTH: nat := 72

  // The alphabet: A-Z, a-z, 0-9, + and /.
  function Symbol(v: nat): Byte
    requires v < 64
  {
    if v < 26 then (65 + v) as Byte
    else if v < 52 then (97 + (v - 26)) as Byte
    else if v < 62 then (48 + (v - 52)) as Byte
    else if v == 62 then 43
    else 47
  }

  // The decoding table; the padding character counts as a zero.
  function Value(c: Byte): (v: nat)
    ensures v < 64 || v == SKIP
  {
    if 65 <= c <= 90 then c as nat - 65
    else if 97 <= c <= 122 then c as nat - 97 + 26
    else if 48 <= c <= 57 then c as nat - 48 + 52
    else if c == 43 then 62
    else if c == 47 then 63
    else if c == PAD then 0
    else SKIP
  }

  // ---------------------------------------------------------------- encoding

  // Three octets as four symbols.
  function Quad(a: Byte, b: Byte, c: Byte): (q: seq<Byte>)
    ensures |q| == 4
  {
    [Symbol(a as nat / 4), Symbol(a as nat % 4 * 16 + b as nat / 16), Symbol(b as nat % 16 * 4 + c as nat / 64),
     Symbol(c as nat % 64)]
  }

  // One or two octets, padded.
  function LastQuad(x: seq<Byte>): (q: seq<Byte>)
    requires 1 <= |x| <= 2
    ensures |q| == 4
  {
    if |x| == 1 then [Symbol(x[0] as nat / 4), Symbol(x[0] as nat % 4 * 16), PAD, PAD]
    else [Symbol(x[0] as nat / 4), Symbol(x[0] as nat % 4 * 16 + x[1] as nat / 16), Symbol(x[1] as nat % 16 * 4), PAD]
  }

  // The symbols without line breaks.
  function Symbols(x: seq<Byte>): (s: seq<Byte>)
    ensures |s| == (|x| + 2) / 3 * 4
  {
    if |x| == 0 then []
    else if |x| < 3 then LastQuad(x)
    else Quad(x[0], x[1], x[2]) + Symbols(x[3..])
  }

  // Lines of 72 characters, the last one possibly shorter, each ended by a newline.
  function Wrapped(s: seq<Byte>): seq<Byte>
  {
    if |s| == 0 then []
    else if |s| <= WIDTH then s + [NEWLINE]
    else s[..WIDTH] + [NEWLINE] + Wrapped(s[WIDTH..])
  }

  function Encode(x: seq<Byte>): seq<Byte>
  {
    Wrapped(Symbols(x))
  }

  // ---------------------------------------------------------------- decoding

  // What is left when octets outside the alphabet are skipped.
  function Kept(s: seq<Byte>): seq<Byte>
  {
    if |s| == 0 then [] else (if Value(s[0]) == SKIP then [] else [s[0]]) + Kept(s[1..])
  }

  function Triple(q: seq<Byte>): (t: seq<Byte>)
    requires |q| == 4 && forall i | 0 <= i < 4 :: Value(q[i]) < 64
    ensures |t| == 3
  {
    var (v, w, x, y) := (Value(q[0]), Value(q[1]), Value(q[2]), Value(q[3]));
    [(v * 4 + w / 16) as Byte, (w % 16 * 16 + x / 4) as Byte, (x % 4 * 64 + y) as Byte]
  }

  function Pads(q: seq<Byte>): nat
  {
    if |q| == 0 then 0 else Pads(q[..|q| - 1]) + (if q[|q| - 1] == PAD then 1 else 0)
  }

  predicate AllKept(s: seq<Byte>)
  {
    forall i | 0 <= i < |s| :: Value(s[i]) < 64
  }

  // The first padded quad ends the data, whatever follows; one or two of its characters may be padding.
  function FromQuads(s: seq<Byte>): (r: Option<seq<Byte>>)
    requires |s| % 4 == 0 && AllKept(s)
    ensures r.Some? ==> |r.value| <= |s| / 4 * 3
  {
    if |s| == 0 then Some([])
    else
      var pad, t := Pads(s[..4]), Triple(s[..4]);
      if pad > 2 then None
      else if pad > 0 then Some(t[..3 - pad])
      else
        match FromQuads(s[4..])
        case None => None
        case Some(more) => Some(t + more)
  }

  function Decode(s: seq<Byte>): Option<seq<Byte>>
  {
    KeptIsKept(s);
    var k := Kept(s);
    if |k| == 0 || |k| % 4 != 0 then None else FromQuads(k)
  }

  lemma {:induction false} KeptIsKept(s: seq<Byte>)
    ensures AllKept(Kept(s))
    decreases |s|
  {
    if |s| > 0 {
      KeptIsKept(s[1..]);
    }
  }

  // ---------------------------------------------------------------- the round trip

  lemma ValueOfSymbol(v: nat)
    requires v < 64
    ensures Value(Symbol(v)) == v && Symbol(v) != PAD && Symbol(v) != NEWLINE
  {
  }

  lemma SymbolOfValue(c: Byte)
    requires Value(c) < 64 && c != PAD
    ensures Symbol(Value(c)) == c
  {
  }

  lemma SixBits(a: nat, b: nat, c: nat)
    requires b < 0x100 && c < 0x100
    ensures var (v, w, x, y) := (a / 4, a % 4 * 16 + b / 16, b % 16 * 4 + c / 64, c % 64);
            v * 4 + w / 16 == a && w % 16 * 16 + x / 4 == b && x % 4 * 64 + y == c
  {
    var (w, x) := (a % 4 * 16 + b / 16, b % 16 * 4 + c / 64);
    assert w / 16 == a % 4 && w % 16 == b / 16;
    assert x / 4 == b % 16 && x % 4 == c / 64;
  }

  lemma QuadDecodes(a: Byte, b: Byte, c: Byte)
    ensures AllKept(Quad(a, b, c)) && Pads(Quad(a, b, c)) == 0 && Triple(Quad(a, b, c)) == [a, b, c]
  {
    hide Symbol, Value;
    var (v, w, x, y) := (a as nat / 4, a as nat % 4 * 16 + b as nat / 16,
                         b as nat % 16 * 4 + c as nat / 64, c as nat % 64);
    SixBits(a as nat, b as nat, c as nat);
    QuadPads(Quad(a, b, c));
    ValueOfSymbol(v);
    ValueOfSymbol(w);
    ValueOfSymbol(x);
    ValueOfSymbol(y);
  }

  lemma QuadPads(q: seq<Byte>)
    requires |q| == 4
    ensures Pads(q) == (if q[0] == PAD then 1 else 0) + (if q[1] == PAD then 1 else 0)
                       + (if q[2] == PAD then 1 else 0) + (if q[3] == PAD then 1 else 0)
  {
    assert q[..3][..2] == [q[0], q[1]] && q[..3][..2][..1] == [q[0]] && q[..3][..2][..1][..0] == [];
    assert Pads(q[..3][..2][..1]) == if q[0] == PAD then 1 else 0;
    assert Pads(q[..3][..2]) == Pads(q[..3][..2][..1]) + if q[1] == PAD then 1 else 0;
    assert Pads(q[..3]) == Pads(q[..3][..2]) + if q[2] == PAD then 1 else 0;
  }

  lemma LastQuadDecodes(x: seq<Byte>)
    requires 1 <= |x| <= 2
    ensures AllKept(LastQuad(x)) && Pads(LastQuad(x)) == 3 - |x| && Triple(LastQuad(x))[..|x|] == x
  {
    hide Symbol, Value, Pads;
    QuadPads(LastQuad(x));
    ValueOfPad();
    ValueOfSymbol(x[0] as nat / 4);
    if |x| == 1 {
      SixBits(x[0] as nat, 0, 0);
      ValueOfSymbol(x[0] as nat % 4 * 16);
    } else {
      SixBits(x[0] as nat, x[1] as nat, 0);
      ValueOfSymbol(x[0] as nat % 4 * 16 + x[1] as nat / 16);
      ValueOfSymbol(x[1] as nat % 16 * 4);
    }
  }

  lemma ValueOfPad()
    ensures Value(PAD) == 0
  {
  }

  lemma {:induction false} SymbolsDecode(x: seq<Byte>)
    ensures AllKept(Symbols(x)) && |Symbols(x)| % 4 == 0 && FromQuads(Symbols(x)) == Some(x)
    decreases |x|
  {
    hide Symbol, Value, Triple, Quad, LastQuad, Pads, FromQuads;
    if |x| == 0 {
      assert FromQuads([]) == Some([]) by { NoQuads(); }
    } else if |x| < 3 {
      LastQuadDecodes(x);
      OneQuad(LastQuad(x));
    } else {
      QuadDecodes(x[0], x[1], x[2]);
      SymbolsDecode(x[3..]);
      MoreQuads(Quad(x[0], x[1], x[2]), Symbols(x[3..]));
      assert x == [x[0], x[1], x[2]] + x[3..];
    }
  }

  lemma NoQuads()
    ensures FromQuads([]) == Some([])
  {
  }

  lemma OneQuad(q: seq<Byte>)
    requires |q| == 4 && AllKept(q) && 1 <= Pads(q) <= 2
    ensures FromQuads(q) == Some(Triple(q)[..3 - Pads(q)])
  {
    hide Value, Triple, Pads;
    assert q[..4] == q;
  }

  lemma MoreQuads(q: seq<Byte>, s: seq<Byte>)
    requires |q| == 4 && AllKept(q) && Pads(q) == 0 && |s| % 4 == 0 && AllKept(s) && FromQuads(s).Some?
    ensures AllKept(q + s) && FromQuads(q + s) == Some(Triple(q) + FromQuads(s).value)
  {
    hide Value, Triple, Pads;
    assert (q + s)[..4] == q && (q + s)[4..] == s;
  }

  lemma {:induction false} KeptAppends(s: seq<Byte>, t: seq<Byte>)
    ensures Kept(s + t) == Kept(s) + Kept(t)
    decreases |s|
  {
    hide Value;
    if |s| == 0 {
      assert s + t == t;
    } else {
      KeptAppends(s[1..], t);
      assert (s + t)[1..] == s[1..] + t;
      Associative(if Value(s[0]) == SKIP then [] else [s[0]], Kept(s[1..]), Kept(t));
    }
  }

  lemma {:induction false} KeptAll(s: seq<Byte>)
    requires AllKept(s)
    ensures Kept(s) == s
    decreases |s|
  {
    if |s| > 0 {
      KeptAll(s[1..]);
      assert s == [s[0]] + s[1..];
    }
  }

  lemma {:induction false} WrappedKept(s: seq<Byte>)
    requires AllKept(s)
    ensures Kept(Wrapped(s)) == s
    decreases |s|
  {
    hide Kept;
    assert Kept([NEWLINE]) == [] by { NewlineSkipped(); }
    if |s| == 0 {
      KeptAll(s);
    } else if |s| <= WIDTH {
      KeptAppends(s, [NEWLINE]);
      KeptAll(s);
    } else {
      var line, more := s[..WIDTH], s[WIDTH..];
      KeptAppends(line + [NEWLINE], Wrapped(more));
      KeptAppends(line, [NEWLINE]);
      KeptAll(line);
      WrappedKept(more);
      assert s == line + more;
    }
  }

  lemma NewlineSkipped()
    ensures Kept([NEWLINE]) == []
  {
    assert [NEWLINE][1..] == [];
  }

  // Decoding undoes encoding exactly for non-empty data; no symbols at all are refused.
  lemma DecodeEncode(x: seq<Byte>)
    ensures Decode(Encode(x)) == if |x| == 0 then None else Some(x)
  {
    SymbolsDecode(x);
    WrappedKept(Symbols(x));
  }

  // What the decoder skips makes no difference, wherever it stands.
  lemma SkippedMakesNoDifference(s: seq<Byte>, junk: seq<Byte>, t: seq<Byte>)
    requires forall i | 0 <= i < |junk| :: Value(junk[i]) == SKIP
    ensures Decode(s + junk + t) == Decode(s + t)
  {
    KeptNothing(junk);
    KeptAppends(s + junk, t);
    KeptAppends(s, junk);
    KeptAppends(s, t);
    Neutral(Kept(s));
  }

  lemma {:induction false} KeptNothing(junk: seq<Byte>)
    requires forall i | 0 <= i < |junk| :: Value(junk[i]) == SKIP
    ensures Kept(junk) == []
    decreases |junk|
  {
    if |junk| > 0 {
      KeptNothing(junk[1..]);
    }
  }

  // ---------------------------------------------------------------- lines

  // Every line ends in a newline and all but the last have exactly 72 characters.
  lemma {:induction false} LinesAreFull(x: seq<Byte>, i: nat)
    requires i < |Encode(x)|
    ensures Encode(x)[i] == 10 <==> i % 73 == 72 || i == |Encode(x)| - 1
  {
    SymbolsDecode(x);
    WrappedLines(Symbols(x), i);
  }

  lemma {:induction false} WrappedLines(s: seq<Byte>, i: nat)
    requires AllKept(s) && i < |Wrapped(s)|
    ensures Wrapped(s)[i] == NEWLINE <==> i % (WIDTH + 1) == WIDTH || i == |Wrapped(s)| - 1
    decreases |s|
  {
    WrappedLength(s);
    NewlineSkipped();
    if |s| == 0 {
    } else if |s| <= WIDTH {
      assert Wrapped(s)[|s|] == NEWLINE;
      assert i < |s| ==> Value(s[i]) < 64 && Wrapped(s)[i] == s[i];
    } else if i <= WIDTH {
      assert Wrapped(s)[WIDTH] == NEWLINE && |Wrapped(s)| > WIDTH + 1;
      assert i < WIDTH ==> Value(s[i]) < 64 && Wrapped(s)[i] == s[i];
    } else {
      assert Wrapped(s) == (s[..WIDTH] + [NEWLINE]) + Wrapped(s[WIDTH..]);
      LineOn(s[..WIDTH] + [NEWLINE], Wrapped(s[WIDTH..]), i);
      WrappedLines(s[WIDTH..], i - WIDTH - 1);
    }
  }

  lemma LineOn(line: seq<Byte>, more: seq<Byte>, i: nat)
    requires |line| == WIDTH + 1 && WIDTH < i < |line| + |more|
    ensures (line + more)[i] == more[i - WIDTH - 1] && i % (WIDTH + 1) == (i - WIDTH - 1) % (WIDTH + 1)
  {
  }

  function Lines(symbols: nat): nat { (symbols + WIDTH - 1) / WIDTH }

  lemma {:induction false} WrappedLength(s: seq<Byte>)
    ensures |Wrapped(s)| == |s| + Lines(|s|)
    decreases |s|
  {
    if |s| > WIDTH {
      WrappedLength(s[WIDTH..]);
    }
  }

  // ---------------------------------------------------------------- the size of the output buffer

  const WORD: nat := 0x1_0000_0000_0000_0000

  // olen of base64_encode, in 64-bit arithmetic.
  function Allocated(len: nat): nat
  {
    var a := (len * 4 % WORD / 3 + 4) % WORD;
    var b := (a + a / 72) % WORD;
    (b + 1) % WORD
  }

  // The symbols, the newlines and the terminator.
  function Needed(len: nat): nat
  {
    var symbols := (len + 2) / 3 * 4;
    symbols + Lines(symbols) + 1
  }

  // Only the product wraps.
  lemma AllocatedIs(len: nat)
    ensures var a := len * 4 % WORD / 3 + 4; Allocated(len) == a + a / 72 + 1
  {
    var m := len * 4 % WORD;
    var a := m / 3 + 4;
    Sizes(m);
    NoWrap(a);
    NoWrap(a + a / 72);
    NoWrap(a + a / 72 + 1);
  }

  lemma NoWrap(n: nat)
    requires n < WORD
    ensures n % WORD == n
  {
  }

  lemma Sizes(m: nat)
    requires m < WORD
    ensures m / 3 + 4 + (m / 3 + 4) / 72 + 1 < WORD
  {
  }

  lemma WrappedProductIsSmall(len: nat, m: nat, third: nat, lines: nat, k: nat)
    requires 3 * third <= m < WORD && 72 * lines <= third + 4 && m == 4 * len - k * WORD && 1 <= k <= 3
    ensures third + 4 + lines + 1 < len
  {
  }

  // The test of olen against len catches exactly the lengths whose fourfold does not fit a word.
  lemma OverflowIsCaught(len: nat)
    requires len < WORD
    ensures Allocated(len) < len <==> len * 4 >= WORD
  {
    hide Allocated;
    AllocatedIs(len);
    if len * 4 >= WORD {
      var k := if len * 4 < 2 * WORD then 1 else if len * 4 < 3 * WORD then 2 else 3;
      var m := len * 4 - k * WORD;
      assert len * 4 % WORD == m;
      WrappedProductIsSmall(len, m, m / 3, (m / 3 + 4) / 72, k);
    } else {
      assert len * 4 % WORD == len * 4;
    }
  }

  // The buffer is never too small, and has not one octet to spare exactly when a single octet is left
  // over from the triples and the last line is not full.
  lemma AllocationIsTight(len: nat)
    requires len * 4 < WORD
    ensures Needed(len) <= Allocated(len)
    ensures Needed(len) == Allocated(len) <==> len % 3 == 1 && (len + 2) / 3 % 18 != 0
  {
    hide Allocated, Lines;
    AllocatedIs(len);
    assert len * 4 % WORD == len * 4;
    var quads := (len + 2) / 3;
    LinesOfQuads(quads);
    ThirdOf(len, quads);
    var a := len * 4 / 3 + 4;
    if len % 3 == 0 {
      QuadLines(quads + 1, 0);
    } else {
      QuadLines(quads, len % 3);
    }
  }

  lemma ThirdOf(len: nat, quads: nat)
    requires quads == (len + 2) / 3
    ensures len * 4 / 3 + 4 == 4 * quads + (if len % 3 == 0 then 4 else len % 3)
  {
    if len % 3 == 0 {
      assert len == 3 * quads;
    } else if len % 3 == 1 {
      assert len == 3 * quads - 2;
    } else {
      assert len == 3 * quads - 1;
    }
  }

  lemma QuadLines(quads: nat, e: nat)
    requires e < 4
    ensures (4 * quads + e) / 72 == quads / 18
  {
    var u, v := quads / 18, quads % 18;
    assert 4 * quads + e == 72 * u + (4 * v + e) && 4 * v + e < 72;
  }

  lemma LinesOfQuads(quads: nat)
    ensures Lines(4 * quads) == quads / 18 + if quads % 18 == 0 then 0 else 1
  {
    var u, v := quads / 18, quads % 18;
    assert 4 * quads + 71 == 72 * u + (4 * v + 71);
  }
}
