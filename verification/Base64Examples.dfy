// Base64 in numbers and characters: the alphabet, groups of 24 bits, and the test vectors of section 10 of
// RFC 4648.
module Base64Examples {
  import opened Common
  import opened Octets
  import opened Base64Spec

  // The alphabet of table 1: A to Z, a to z, 0 to 9, the plus sign and the slash.
  lemma AlphabetIs(v: nat)
    requires v < 64
    ensures v < 26 ==> Symbol(v) as int == 'A' as int + v
    ensures 26 <= v < 52 ==> Symbol(v) as int == 'a' as int + (v - 26)
    ensures 52 <= v < 62 ==> Symbol(v) as int == '0' as int + (v - 52)
    ensures v == 62 ==> Symbol(v) as int == '+' as int
    ensures v == 63 ==> Symbol(v) as int == '/' as int
    ensures Value(Symbol(v)) == v && Value(61) == 0
  {
  }

  // Other octets are skipped; the equals sign pads.
  lemma OthersAreSkipped(c: Byte)
    ensures Kept([c]) == [] <==>
              !('A' as int <= c as int <= 'Z' as int) && !('a' as int <= c as int <= 'z' as int)
              && !('0' as int <= c as int <= '9' as int) && c as int !in {'+' as int, '/' as int, '=' as int}
  {
    assert [c][1..] == [];
  }

  // Three octets are a number of 24 bits, and so are four symbols: the same one.
  function ThreeOctets(a: nat, b: nat, c: nat): nat { a * 0x1_0000 + b * 0x100 + c }

  function FourSymbols(v: nat, w: nat, x: nat, y: nat): nat { v * 0x4_0000 + w * 0x1000 + x * 0x40 + y }

  lemma QuadKeepsBits(a: Byte, b: Byte, c: Byte)
    ensures var q := Quad(a, b, c);
            FourSymbols(Value(q[0]), Value(q[1]), Value(q[2]), Value(q[3])) == ThreeOctets(a as nat, b as nat, c as nat)
  {
    hide Symbol, Value;
    ValueOfSymbol(a as nat / 4);
    ValueOfSymbol(a as nat % 4 * 16 + b as nat / 16);
    ValueOfSymbol(b as nat % 16 * 4 + c as nat / 64);
    ValueOfSymbol(c as nat % 64);
  }

  lemma TripleKeepsBits(q: seq<Byte>)
    requires |q| == 4 && AllKept(q)
    ensures var t := Triple(q);
            FourSymbols(Value(q[0]), Value(q[1]), Value(q[2]), Value(q[3]))
            == ThreeOctets(t[0] as nat, t[1] as nat, t[2] as nat)
  {
    hide Value;
    SixToEight(Value(q[0]), Value(q[1]), Value(q[2]), Value(q[3]));
  }

  lemma SixToEight(v: nat, w: nat, x: nat, y: nat)
    requires v < 64 && w < 64 && x < 64 && y < 64
    ensures FourSymbols(v, w, x, y) == ThreeOctets(v * 4 + w / 16, w % 16 * 16 + x / 4, x % 4 * 64 + y)
  {
    assert w == w / 16 * 16 + w % 16 && x == x / 4 * 4 + x % 4;
  }

  // A quad without equals sign gives its three octets and goes on. One or two equals signs, wherever they
  // stand, end the data with two octets or one, whatever follows; three or four are refused.
  lemma QuadByQuad(q: seq<Byte>, s: seq<Byte>)
    requires |q| == 4 && AllKept(q) && |s| % 4 == 0 && AllKept(s)
    ensures AllKept(q + s)
    ensures var (pads, t) := (multiset(q)[61], Triple(q));
            FromQuads(q + s)
            == if pads == 0 then (if FromQuads(s).Some? then Some(t + FromQuads(s).value) else None)
               else if pads <= 2 then Some(t[..3 - pads])
               else None
  {
    hide Value, Triple, Pads;
    Parts(q, s);
    PadsAreCounted(q);
  }

  lemma {:induction false} PadsAreCounted(q: seq<Byte>)
    ensures Pads(q) == multiset(q)[61]
    decreases |q|
  {
    if q != [] {
      var n := |q| - 1;
      PadsAreCounted(q[..n]);
      assert q == q[..n] + [q[n]];
    }
  }

  // Without a symbol, or with a number of them that four does not divide, nothing is decoded.
  lemma OddLengthsAreRefused(s: seq<Byte>)
    requires Kept(s) == [] || |Kept(s)| % 4 != 0
    ensures Decode(s) == None
  {
  }

  lemma ShortIsWhole(x: seq<Byte>)
    requires 0 < |Symbols(x)| <= 72
    ensures Encode(x) == Symbols(x) + [10]
  {
    hide Symbols;
  }

  lemma SymbolsOf(x: seq<Byte>)
    ensures |x| == 0 ==> Symbols(x) == []
    ensures 0 < |x| < 3 ==> Symbols(x) == LastQuad(x)
    ensures |x| >= 3 ==> Symbols(x) == Quad(x[0], x[1], x[2]) + Symbols(x[3..])
  {
    hide Quad, LastQuad;
  }

  // "f", "fo", "foo" and "foobar", and two octets that need the last two symbols.
  lemma TestVectors()
    ensures Encode([0x66]) == [0x5A, 0x67, 0x3D, 0x3D, 10]
    ensures Encode([0x66, 0x6F]) == [0x5A, 0x6D, 0x38, 0x3D, 10]
    ensures Encode([0x66, 0x6F, 0x6F]) == [0x5A, 0x6D, 0x39, 0x76, 10]
    ensures Encode([0x66, 0x6F, 0x6F, 0x62, 0x61, 0x72]) == [0x5A, 0x6D, 0x39, 0x76, 0x59, 0x6D, 0x46, 0x79, 10]
    ensures Encode([0xFB, 0xFF]) == [0x2B, 0x2F, 0x38, 0x3D, 10]
  {
    QuadVectors();
    hide Encode, Symbols, Quad, LastQuad;
    var (f, fo, foo, foobar, last) :=
      ([0x66 as Byte], [0x66 as Byte, 0x6F], [0x66 as Byte, 0x6F, 0x6F], [0x66 as Byte, 0x6F, 0x6F, 0x62, 0x61, 0x72],
       [0xFB as Byte, 0xFF]);
    SymbolsOf(f);
    SymbolsOf(fo);
    SymbolsOf(foo);
    SymbolsOf(foobar);
    SymbolsOf(last);
    assert foo[3..] == [] && foobar[3..] == [0x62, 0x61, 0x72] && foobar[3..][3..] == [];
    SymbolsOf([]);
    SymbolsOf([0x62, 0x61, 0x72]);
    ShortIsWhole(f);
    ShortIsWhole(fo);
    ShortIsWhole(foo);
    ShortIsWhole(foobar);
    ShortIsWhole(last);
  }

  lemma QuadVectors()
    ensures LastQuad([0x66]) == [0x5A, 0x67, 0x3D, 0x3D] && LastQuad([0x66, 0x6F]) == [0x5A, 0x6D, 0x38, 0x3D]
    ensures Quad(0x66, 0x6F, 0x6F) == [0x5A, 0x6D, 0x39, 0x76] && Quad(0x62, 0x61, 0x72) == [0x59, 0x6D, 0x46, 0x79]
    ensures LastQuad([0xFB, 0xFF]) == [0x2B, 0x2F, 0x38, 0x3D]
  {
  }
}
