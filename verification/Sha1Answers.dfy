// Known answers of SHA-1: the constants behind its rounds, the first test of section 7.3 of RFC 3174, and a
// message of two blocks, sixteen rounds at a time.
module Sha1Answers {
  import opened Octets
  import opened Sha1Spec
  import opened Sha1Runs

  // The round constants are the square roots of 2, 3, 5 and 10, with 30 binary places.
  lemma ConstantsAreRoots(t: nat)
    requires t < 80
    ensures var n := if t < 20 then 2 else if t < 40 then 3 else if t < 60 then 5 else 10;
            var k := RoundConstant(t) as int;
            k * k <= n * 0x1000_0000_0000_0000 < (k + 1) * (k + 1)
  {
  }

  function Joined(a: Byte, b: Byte, c: Byte, d: Byte): Word
  {
    Placed(a, 24) | Placed(b, 16) | Placed(c, 8) | Placed(d, 0)
  }

  lemma WordIs(block: seq<Byte>, t: nat, a: Byte, b: Byte, c: Byte, d: Byte)
    requires |block| == 64 && t < 16 && block[4 * t..4 * t + 4] == [a, b, c, d]
    ensures Schedule(block, t) == Joined(a, b, c, d)
  {
    hide Placed;
    var o := block[4 * t..4 * t + 4];
    assert o[0] == block[4 * t] && o[1] == block[4 * t + 1] && o[2] == block[4 * t + 2] && o[3] == block[4 * t + 3];
  }

  lemma NoRound(start: Hash, block: seq<Byte>)
    requires |block| == 64
    ensures Rounds(start, block, 0) == start
  {
  }

  // ---------------------------------------------------------------- "abc"

  predicate AbcBlock(block: seq<Byte>)
  {
    && |block| == 64
    && block[0..4] == [0x61, 0x62, 0x63, 0x80] && block[4..8] == [0x00, 0x00, 0x00, 0x00]
    && block[8..12] == [0x00, 0x00, 0x00, 0x00] && block[12..16] == [0x00, 0x00, 0x00, 0x00]
    && block[16..20] == [0x00, 0x00, 0x00, 0x00] && block[20..24] == [0x00, 0x00, 0x00, 0x00]
    && block[24..28] == [0x00, 0x00, 0x00, 0x00] && block[28..32] == [0x00, 0x00, 0x00, 0x00]
    && block[32..36] == [0x00, 0x00, 0x00, 0x00] && block[36..40] == [0x00, 0x00, 0x00, 0x00]
    && block[40..44] == [0x00, 0x00, 0x00, 0x00] && block[44..48] == [0x00, 0x00, 0x00, 0x00]
    && block[48..52] == [0x00, 0x00, 0x00, 0x00] && block[52..56] == [0x00, 0x00, 0x00, 0x00]
    && block[56..60] == [0x00, 0x00, 0x00, 0x00] && block[60..64] == [0x00, 0x00, 0x00, 0x18]
  }

  lemma AbcWords0(block: seq<Byte>)
    requires AbcBlock(block)
    ensures Schedule(block, 0) == 0x61626380 && Schedule(block, 1) == 0x00000000 && Schedule(block, 2) == 0x00000000
    ensures Schedule(block, 3) == 0x00000000 && Schedule(block, 4) == 0x00000000 && Schedule(block, 5) == 0x00000000
    ensures Schedule(block, 6) == 0x00000000 && Schedule(block, 7) == 0x00000000 && Schedule(block, 8) == 0x00000000
    ensures Schedule(block, 9) == 0x00000000 && Schedule(block, 10) == 0x00000000 && Schedule(block, 11) == 0x00000000
    ensures Schedule(block, 12) == 0x00000000 && Schedule(block, 13) == 0x00000000 && Schedule(block, 14) == 0x00000000
    ensures Schedule(block, 15) == 0x00000018
  {
    WordIs(block, 0, 0x61, 0x62, 0x63, 0x80);
    WordIs(block, 1, 0x00, 0x00, 0x00, 0x00);
    WordIs(block, 2, 0x00, 0x00, 0x00, 0x00);
    WordIs(block, 3, 0x00, 0x00, 0x00, 0x00);
    WordIs(block, 4, 0x00, 0x00, 0x00, 0x00);
    WordIs(block, 5, 0x00, 0x00, 0x00, 0x00);
    WordIs(block, 6, 0x00, 0x00, 0x00, 0x00);
    WordIs(block, 7, 0x00, 0x00, 0x00, 0x00);
    WordIs(block, 8, 0x00, 0x00, 0x00, 0x00);
    WordIs(block, 9, 0x00, 0x00, 0x00, 0x00);
    WordIs(block, 10, 0x00, 0x00, 0x00, 0x00);
    WordIs(block, 11, 0x00, 0x00, 0x00, 0x00);
    WordIs(block, 12, 0x00, 0x00, 0x00, 0x00);
    WordIs(block, 13, 0x00, 0x00, 0x00, 0x00);
    WordIs(block, 14, 0x00, 0x00, 0x00, 0x00);
    WordIs(block, 15, 0x00, 0x00, 0x00, 0x18);
  }

  lemma AbcWords16(block: seq<Byte>)
    requires |block| == 64
    requires Schedule(block, 0) == 0x61626380 && Schedule(block, 1) == 0x00000000 && Schedule(block, 2) == 0x00000000
    requires Schedule(block, 3) == 0x00000000 && Schedule(block, 4) == 0x00000000 && Schedule(block, 5) == 0x00000000
    requires Schedule(block, 6) == 0x00000000 && Schedule(block, 7) == 0x00000000 && Schedule(block, 8) == 0x00000000
    requires Schedule(block, 9) == 0x00000000 && Schedule(block, 10) == 0x00000000 && Schedule(block, 11) == 0x00000000
    requires Schedule(block, 12) == 0x00000000 && Schedule(block, 13) == 0x00000000 && Schedule(block, 14) == 0x00000000
    requires Schedule(block, 15) == 0x00000018
    ensures Schedule(block, 16) == 0xC2C4C700 && Schedule(block, 17) == 0x00000000 && Schedule(block, 18) == 0x00000030
    ensures Schedule(block, 19) == 0x85898E01 && Schedule(block, 20) == 0x00000000 && Schedule(block, 21) == 0x00000060
    ensures Schedule(block, 22) == 0x0B131C03 && Schedule(block, 23) == 0x00000030 && Schedule(block, 24) == 0x85898EC1
    ensures Schedule(block, 25) == 0x16263806 && Schedule(block, 26) == 0x00000000 && Schedule(block, 27) == 0x00000180
    ensures Schedule(block, 28) == 0x2C4C700C && Schedule(block, 29) == 0x000000F0 && Schedule(block, 30) == 0x93AFB507
    ensures Schedule(block, 31) == 0x5898E048
  {
  }

  lemma AbcWords32(block: seq<Byte>)
    requires |block| == 64
    requires Schedule(block, 16) == 0xC2C4C700 && Schedule(block, 17) == 0x00000000 && Schedule(block, 18) == 0x00000030
    requires Schedule(block, 19) == 0x85898E01 && Schedule(block, 20) == 0x00000000 && Schedule(block, 21) == 0x00000060
    requires Schedule(block, 22) == 0x0B131C03 && Schedule(block, 23) == 0x00000030 && Schedule(block, 24) == 0x85898EC1
    requires Schedule(block, 25) == 0x16263806 && Schedule(block, 26) == 0x00000000 && Schedule(block, 27) == 0x00000180
    requires Schedule(block, 28) == 0x2C4C700C && Schedule(block, 29) == 0x000000F0 && Schedule(block, 30) == 0x93AFB507
    requires Schedule(block, 31) == 0x5898E048
    ensures Schedule(block, 32) == 0x8E9A9202 && Schedule(block, 33) == 0x00000600 && Schedule(block, 34) == 0xB131C0F0
    ensures Schedule(block, 35) == 0x16263BC6 && Schedule(block, 36) == 0x4EBED41E && Schedule(block, 37) == 0x626380A1
    ensures Schedule(block, 38) == 0x16263806 && Schedule(block, 39) == 0x000018C0 && Schedule(block, 40) == 0xD2E138C4
    ensures Schedule(block, 41) == 0x00000F00 && Schedule(block, 42) == 0x3AFB5079 && Schedule(block, 43) == 0x898E04E5
    ensures Schedule(block, 44) == 0xE2BA3C2B && Schedule(block, 45) == 0x000060C0 && Schedule(block, 46) == 0x053A37CD
    ensures Schedule(block, 47) == 0x74458547
  {
  }

  lemma AbcWords48(block: seq<Byte>)
    requires |block| == 64
    requires Schedule(block, 32) == 0x8E9A9202 && Schedule(block, 33) == 0x00000600 && Schedule(block, 34) == 0xB131C0F0
    requires Schedule(block, 35) == 0x16263BC6 && Schedule(block, 36) == 0x4EBED41E && Schedule(block, 37) == 0x626380A1
    requires Schedule(block, 38) == 0x16263806 && Schedule(block, 39) == 0x000018C0 && Schedule(block, 40) == 0xD2E138C4
    requires Schedule(block, 41) == 0x00000F00 && Schedule(block, 42) == 0x3AFB5079 && Schedule(block, 43) == 0x898E04E5
    requires Schedule(block, 44) == 0xE2BA3C2B && Schedule(block, 45) == 0x000060C0 && Schedule(block, 46) == 0x053A37CD
    requires Schedule(block, 47) == 0x74458547
    ensures Schedule(block, 48) == 0xDA9415ED && Schedule(block, 49) == 0x26380A16 && Schedule(block, 50) == 0x626383A1
    ensures Schedule(block, 51) == 0x4EBF54DE && Schedule(block, 52) == 0x3835B44B && Schedule(block, 53) == 0x0000F600
    ensures Schedule(block, 54) == 0x1E84C7A3 && Schedule(block, 55) == 0x98E04D98 && Schedule(block, 56) == 0x651D16A0
    ensures Schedule(block, 57) == 0x62658CA1 && Schedule(block, 58) == 0x458544D6 && Schedule(block, 59) == 0x44584CB7
    ensures Schedule(block, 60) == 0x7BA06619 && Schedule(block, 61) == 0x6380AEA2 && Schedule(block, 62) == 0x0AE55269
    ensures Schedule(block, 63) == 0x627B49A1
  {
  }

  lemma AbcWords64(block: seq<Byte>)
    requires |block| == 64
    requires Schedule(block, 48) == 0xDA9415ED && Schedule(block, 49) == 0x26380A16 && Schedule(block, 50) == 0x626383A1
    requires Schedule(block, 51) == 0x4EBF54DE && Schedule(block, 52) == 0x3835B44B && Schedule(block, 53) == 0x0000F600
    requires Schedule(block, 54) == 0x1E84C7A3 && Schedule(block, 55) == 0x98E04D98 && Schedule(block, 56) == 0x651D16A0
    requires Schedule(block, 57) == 0x62658CA1 && Schedule(block, 58) == 0x458544D6 && Schedule(block, 59) == 0x44584CB7
    requires Schedule(block, 60) == 0x7BA06619 && Schedule(block, 61) == 0x6380AEA2 && Schedule(block, 62) == 0x0AE55269
    requires Schedule(block, 63) == 0x627B49A1
    ensures Schedule(block, 64) == 0x7CD45C9D && Schedule(block, 65) == 0x000F0000 && Schedule(block, 66) == 0xFB50753A
    ensures Schedule(block, 67) == 0xEC6765E8 && Schedule(block, 68) == 0xBA3C2BE2 && Schedule(block, 69) == 0x0060C000
    ensures Schedule(block, 70) == 0x3A37CD05 && Schedule(block, 71) == 0x458546F4 && Schedule(block, 72) == 0xB8599DD6
    ensures Schedule(block, 73) == 0x380A1A26 && Schedule(block, 74) == 0x01E02203 && Schedule(block, 75) == 0xE7CC3456
    ensures Schedule(block, 76) == 0xE6E60B69 && Schedule(block, 77) == 0x00F60A00 && Schedule(block, 78) == 0x5795EF4F
    ensures Schedule(block, 79) == 0x822E0879
  {
  }

  lemma AbcRounds10(start: Hash, block: seq<Byte>)
    requires |block| == 64
    requires Schedule(block, 0) == 0x61626380 && Schedule(block, 1) == 0x00000000 && Schedule(block, 2) == 0x00000000
    requires Schedule(block, 3) == 0x00000000 && Schedule(block, 4) == 0x00000000 && Schedule(block, 5) == 0x00000000
    requires Schedule(block, 6) == 0x00000000 && Schedule(block, 7) == 0x00000000 && Schedule(block, 8) == 0x00000000
    requires Schedule(block, 9) == 0x00000000
    requires Rounds(start, block, 0) == Hash(0x67452301, 0xEFCDAB89, 0x98BADCFE, 0x10325476, 0xC3D2E1F0)
    ensures Rounds(start, block, 10) == Hash(0x8351F929, 0x4B6AE328, 0x27A301F5, 0x664F8C30, 0x0FF1F290)
  {
    assert Rounds(start, block, 1) == Hash(0x0116FC33, 0x67452301, 0x7BF36AE2, 0x98BADCFE, 0x10325476);
    assert Rounds(start, block, 2) == Hash(0x8990536D, 0x0116FC33, 0x59D148C0, 0x7BF36AE2, 0x98BADCFE);
    assert Rounds(start, block, 3) == Hash(0xA1390F08, 0x8990536D, 0xC045BF0C, 0x59D148C0, 0x7BF36AE2);
    assert Rounds(start, block, 4) == Hash(0xCDD8E11B, 0xA1390F08, 0x626414DB, 0xC045BF0C, 0x59D148C0);
    assert Rounds(start, block, 5) == Hash(0xCFD499DE, 0xCDD8E11B, 0x284E43C2, 0x626414DB, 0xC045BF0C);
    assert Rounds(start, block, 6) == Hash(0x3FC7CA40, 0xCFD499DE, 0xF3763846, 0x284E43C2, 0x626414DB);
    assert Rounds(start, block, 7) == Hash(0x993E30C1, 0x3FC7CA40, 0xB3F52677, 0xF3763846, 0x284E43C2);
    assert Rounds(start, block, 8) == Hash(0x9E8C07D4, 0x993E30C1, 0x0FF1F290, 0xB3F52677, 0xF3763846);
    assert Rounds(start, block, 9) == Hash(0x4B6AE328, 0x9E8C07D4, 0x664F8C30, 0x0FF1F290, 0xB3F52677);
    assert Rounds(start, block, 10) == Hash(0x8351F929, 0x4B6AE328, 0x27A301F5, 0x664F8C30, 0x0FF1F290);
  }

  lemma AbcRounds20(start: Hash, block: seq<Byte>)
    requires |block| == 64
    requires Schedule(block, 10) == 0x00000000 && Schedule(block, 11) == 0x00000000 && Schedule(block, 12) == 0x00000000
    requires Schedule(block, 13) == 0x00000000 && Schedule(block, 14) == 0x00000000 && Schedule(block, 15) == 0x00000018
    requires Schedule(block, 16) == 0xC2C4C700 && Schedule(block, 17) == 0x00000000 && Schedule(block, 18) == 0x00000030
    requires Schedule(block, 19) == 0x85898E01
    requires Rounds(start, block, 10) == Hash(0x8351F929, 0x4B6AE328, 0x27A301F5, 0x664F8C30, 0x0FF1F290)
    ensures Rounds(start, block, 20) == Hash(0xFD9E1D7D, 0xDC64901D, 0x20AA99CA, 0xD3A49608, 0xC82F758B)
  {
    assert Rounds(start, block, 11) == Hash(0xFBDA9E89, 0x8351F929, 0x12DAB8CA, 0x27A301F5, 0x664F8C30);
    assert Rounds(start, block, 12) == Hash(0x63188FE4, 0xFBDA9E89, 0x60D47E4A, 0x12DAB8CA, 0x27A301F5);
    assert Rounds(start, block, 13) == Hash(0x4607B664, 0x63188FE4, 0x7EF6A7A2, 0x60D47E4A, 0x12DAB8CA);
    assert Rounds(start, block, 14) == Hash(0x9128F695, 0x4607B664, 0x18C623F9, 0x7EF6A7A2, 0x60D47E4A);
    assert Rounds(start, block, 15) == Hash(0x196BEE77, 0x9128F695, 0x1181ED99, 0x18C623F9, 0x7EF6A7A2);
    assert Rounds(start, block, 16) == Hash(0x20BDD62F, 0x196BEE77, 0x644A3DA5, 0x1181ED99, 0x18C623F9);
    assert Rounds(start, block, 17) == Hash(0x4E925823, 0x20BDD62F, 0xC65AFB9D, 0x644A3DA5, 0x1181ED99);
    assert Rounds(start, block, 18) == Hash(0x82AA6728, 0x4E925823, 0xC82F758B, 0xC65AFB9D, 0x644A3DA5);
    assert Rounds(start, block, 19) == Hash(0xDC64901D, 0x82AA6728, 0xD3A49608, 0xC82F758B, 0xC65AFB9D);
    assert Rounds(start, block, 20) == Hash(0xFD9E1D7D, 0xDC64901D, 0x20AA99CA, 0xD3A49608, 0xC82F758B);
  }

  lemma AbcRounds30(start: Hash, block: seq<Byte>)
    requires |block| == 64
    requires Schedule(block, 20) == 0x00000000 && Schedule(block, 21) == 0x00000060 && Schedule(block, 22) == 0x0B131C03
    requires Schedule(block, 23) == 0x00000030 && Schedule(block, 24) == 0x85898EC1 && Schedule(block, 25) == 0x16263806
    requires Schedule(block, 26) == 0x00000000 && Schedule(block, 27) == 0x00000180 && Schedule(block, 28) == 0x2C4C700C
    requires Schedule(block, 29) == 0x000000F0
    requires Rounds(start, block, 20) == Hash(0xFD9E1D7D, 0xDC64901D, 0x20AA99CA, 0xD3A49608, 0xC82F758B)
    ensures Rounds(start, block, 30) == Hash(0xC5FBAF5D, 0x8370B52E, 0xD2AA1365, 0x6F8D7EF5, 0x12104EE9)
  {
    assert Rounds(start, block, 21) == Hash(0x1A37B0CA, 0xFD9E1D7D, 0x77192407, 0x20AA99CA, 0xD3A49608);
    assert Rounds(start, block, 22) == Hash(0x33A23BFC, 0x1A37B0CA, 0x7F67875F, 0x77192407, 0x20AA99CA);
    assert Rounds(start, block, 23) == Hash(0x21283486, 0x33A23BFC, 0x868DEC32, 0x7F67875F, 0x77192407);
    assert Rounds(start, block, 24) == Hash(0xD541F12D, 0x21283486, 0x0CE88EFF, 0x868DEC32, 0x7F67875F);
    assert Rounds(start, block, 25) == Hash(0xC7567DC6, 0xD541F12D, 0x884A0D21, 0x0CE88EFF, 0x868DEC32);
    assert Rounds(start, block, 26) == Hash(0x48413BA4, 0xC7567DC6, 0x75507C4B, 0x884A0D21, 0x0CE88EFF);
    assert Rounds(start, block, 27) == Hash(0xBE35FBD5, 0x48413BA4, 0xB1D59F71, 0x75507C4B, 0x884A0D21);
    assert Rounds(start, block, 28) == Hash(0x4AA84D97, 0xBE35FBD5, 0x12104EE9, 0xB1D59F71, 0x75507C4B);
    assert Rounds(start, block, 29) == Hash(0x8370B52E, 0x4AA84D97, 0x6F8D7EF5, 0x12104EE9, 0xB1D59F71);
    assert Rounds(start, block, 30) == Hash(0xC5FBAF5D, 0x8370B52E, 0xD2AA1365, 0x6F8D7EF5, 0x12104EE9);
  }

  lemma AbcRounds40(start: Hash, block: seq<Byte>)
    requires |block| == 64
    requires Schedule(block, 30) == 0x93AFB507 && Schedule(block, 31) == 0x5898E048 && Schedule(block, 32) == 0x8E9A9202
    requires Schedule(block, 33) == 0x00000600 && Schedule(block, 34) == 0xB131C0F0 && Schedule(block, 35) == 0x16263BC6
    requires Schedule(block, 36) == 0x4EBED41E && Schedule(block, 37) == 0x626380A1 && Schedule(block, 38) == 0x16263806
    requires Schedule(block, 39) == 0x000018C0
    requires Rounds(start, block, 30) == Hash(0xC5FBAF5D, 0x8370B52E, 0xD2AA1365, 0x6F8D7EF5, 0x12104EE9)
    ensures Rounds(start, block, 40) == Hash(0x32DE1CBA, 0x4C986405, 0xF718E5CF, 0x03D447F6, 0xF72EEC32)
  {
    assert Rounds(start, block, 31) == Hash(0x1267B407, 0xC5FBAF5D, 0xA0DC2D4B, 0xD2AA1365, 0x6F8D7EF5);
    assert Rounds(start, block, 32) == Hash(0x3B845D33, 0x1267B407, 0x717EEBD7, 0xA0DC2D4B, 0xD2AA1365);
    assert Rounds(start, block, 33) == Hash(0x046FAA0A, 0x3B845D33, 0xC499ED01, 0x717EEBD7, 0xA0DC2D4B);
    assert Rounds(start, block, 34) == Hash(0x2C0EBC11, 0x046FAA0A, 0xCEE1174C, 0xC499ED01, 0x717EEBD7);
    assert Rounds(start, block, 35) == Hash(0x21796AD4, 0x2C0EBC11, 0x811BEA82, 0xCEE1174C, 0xC499ED01);
    assert Rounds(start, block, 36) == Hash(0xDCBBB0CB, 0x21796AD4, 0x4B03AF04, 0x811BEA82, 0xCEE1174C);
    assert Rounds(start, block, 37) == Hash(0x0F511FD8, 0xDCBBB0CB, 0x085E5AB5, 0x4B03AF04, 0x811BEA82);
    assert Rounds(start, block, 38) == Hash(0xDC63973F, 0x0F511FD8, 0xF72EEC32, 0x085E5AB5, 0x4B03AF04);
    assert Rounds(start, block, 39) == Hash(0x4C986405, 0xDC63973F, 0x03D447F6, 0xF72EEC32, 0x085E5AB5);
    assert Rounds(start, block, 40) == Hash(0x32DE1CBA, 0x4C986405, 0xF718E5CF, 0x03D447F6, 0xF72EEC32);
  }

  lemma AbcRounds50(start: Hash, block: seq<Byte>)
    requires |block| == 64
    requires Schedule(block, 40) == 0xD2E138C4 && Schedule(block, 41) == 0x00000F00 && Schedule(block, 42) == 0x3AFB5079
    requires Schedule(block, 43) == 0x898E04E5 && Schedule(block, 44) == 0xE2BA3C2B && Schedule(block, 45) == 0x000060C0
    requires Schedule(block, 46) == 0x053A37CD && Schedule(block, 47) == 0x74458547 && Schedule(block, 48) == 0xDA9415ED
    requires Schedule(block, 49) == 0x26380A16
    requires Rounds(start, block, 40) == Hash(0x32DE1CBA, 0x4C986405, 0xF718E5CF, 0x03D447F6, 0xF72EEC32)
    ensures Rounds(start, block, 50) == Hash(0x120731C5, 0xBAF39337, 0xAFAB40B2, 0x2806E11B, 0x8714787C)
  {
    assert Rounds(start, block, 41) == Hash(0xFC87DEDF, 0x32DE1CBA, 0x53261901, 0xF718E5CF, 0x03D447F6);
    assert Rounds(start, block, 42) == Hash(0x970A0D5C, 0xFC87DEDF, 0x8CB7872E, 0x53261901, 0xF718E5CF);
    assert Rounds(start, block, 43) == Hash(0x7F193DC5, 0x970A0D5C, 0xFF21F7B7, 0x8CB7872E, 0x53261901);
    assert Rounds(start, block, 44) == Hash(0xEE1B1AAF, 0x7F193DC5, 0x25C28357, 0xFF21F7B7, 0x8CB7872E);
    assert Rounds(start, block, 45) == Hash(0x40F28E09, 0xEE1B1AAF, 0x5FC64F71, 0x25C28357, 0xFF21F7B7);
    assert Rounds(start, block, 46) == Hash(0x1C51E1F2, 0x40F28E09, 0xFB86C6AB, 0x5FC64F71, 0x25C28357);
    assert Rounds(start, block, 47) == Hash(0xA01B846C, 0x1C51E1F2, 0x503CA382, 0xFB86C6AB, 0x5FC64F71);
    assert Rounds(start, block, 48) == Hash(0xBEAD02CA, 0xA01B846C, 0x8714787C, 0x503CA382, 0xFB86C6AB);
    assert Rounds(start, block, 49) == Hash(0xBAF39337, 0xBEAD02CA, 0x2806E11B, 0x8714787C, 0x503CA382);
    assert Rounds(start, block, 50) == Hash(0x120731C5, 0xBAF39337, 0xAFAB40B2, 0x2806E11B, 0x8714787C);
  }

  lemma AbcRounds60(start: Hash, block: seq<Byte>)
    requires |block| == 64
    requires Schedule(block, 50) == 0x626383A1 && Schedule(block, 51) == 0x4EBF54DE && Schedule(block, 52) == 0x3835B44B
    requires Schedule(block, 53) == 0x0000F600 && Schedule(block, 54) == 0x1E84C7A3 && Schedule(block, 55) == 0x98E04D98
    requires Schedule(block, 56) == 0x651D16A0 && Schedule(block, 57) == 0x62658CA1 && Schedule(block, 58) == 0x458544D6
    requires Schedule(block, 59) == 0x44584CB7
    requires Rounds(start, block, 50) == Hash(0x120731C5, 0xBAF39337, 0xAFAB40B2, 0x2806E11B, 0x8714787C)
    ensures Rounds(start, block, 60) == Hash(0x3F52DE5A, 0x09D785FD, 0x3498BFD4, 0xF211824F, 0xD79915AB)
  {
    assert Rounds(start, block, 51) == Hash(0x641DB2CE, 0x120731C5, 0xEEBCE4CD, 0xAFAB40B2, 0x2806E11B);
    assert Rounds(start, block, 52) == Hash(0x3847AD66, 0x641DB2CE, 0x4481CC71, 0xEEBCE4CD, 0xAFAB40B2);
    assert Rounds(start, block, 53) == Hash(0xE490436D, 0x3847AD66, 0x99076CB3, 0x4481CC71, 0xEEBCE4CD);
    assert Rounds(start, block, 54) == Hash(0x27E9F1D8, 0xE490436D, 0x8E11EB59, 0x99076CB3, 0x4481CC71);
    assert Rounds(start, block, 55) == Hash(0x7B71F76D, 0x27E9F1D8, 0x792410DB, 0x8E11EB59, 0x99076CB3);
    assert Rounds(start, block, 56) == Hash(0x5E6456AF, 0x7B71F76D, 0x09FA7C76, 0x792410DB, 0x8E11EB59);
    assert Rounds(start, block, 57) == Hash(0xC846093F, 0x5E6456AF, 0x5EDC7DDB, 0x09FA7C76, 0x792410DB);
    assert Rounds(start, block, 58) == Hash(0xD262FF50, 0xC846093F, 0xD79915AB, 0x5EDC7DDB, 0x09FA7C76);
    assert Rounds(start, block, 59) == Hash(0x09D785FD, 0xD262FF50, 0xF211824F, 0xD79915AB, 0x5EDC7DDB);
    assert Rounds(start, block, 60) == Hash(0x3F52DE5A, 0x09D785FD, 0x3498BFD4, 0xF211824F, 0xD79915AB);
  }

  lemma AbcRounds70(start: Hash, block: seq<Byte>)
    requires |block| == 64
    requires Schedule(block, 60) == 0x7BA06619 && Schedule(block, 61) == 0x6380AEA2 && Schedule(block, 62) == 0x0AE55269
    requires Schedule(block, 63) == 0x627B49A1 && Schedule(block, 64) == 0x7CD45C9D && Schedule(block, 65) == 0x000F0000
    requires Schedule(block, 66) == 0xFB50753A && Schedule(block, 67) == 0xEC6765E8 && Schedule(block, 68) == 0xBA3C2BE2
    requires Schedule(block, 69) == 0x0060C000
    requires Rounds(start, block, 60) == Hash(0x3F52DE5A, 0x09D785FD, 0x3498BFD4, 0xF211824F, 0xD79915AB)
    ensures Rounds(start, block, 70) == Hash(0x3F2588C2, 0x497093C0, 0xDE37534A, 0x030F7CAD, 0x4405957E)
  {
    assert Rounds(start, block, 61) == Hash(0xD756C147, 0x3F52DE5A, 0x4275E17F, 0x3498BFD4, 0xF211824F);
    assert Rounds(start, block, 62) == Hash(0x548C9CB2, 0xD756C147, 0x8FD4B796, 0x4275E17F, 0x3498BFD4);
    assert Rounds(start, block, 63) == Hash(0xB66C020B, 0x548C9CB2, 0xF5D5B051, 0x8FD4B796, 0x4275E17F);
    assert Rounds(start, block, 64) == Hash(0x6B61C9E1, 0xB66C020B, 0x9523272C, 0xF5D5B051, 0x8FD4B796);
    assert Rounds(start, block, 65) == Hash(0x19DFA7AC, 0x6B61C9E1, 0xED9B0082, 0x9523272C, 0xF5D5B051);
    assert Rounds(start, block, 66) == Hash(0x101655F9, 0x19DFA7AC, 0x5AD87278, 0xED9B0082, 0x9523272C);
    assert Rounds(start, block, 67) == Hash(0x0C3DF2B4, 0x101655F9, 0x0677E9EB, 0x5AD87278, 0xED9B0082);
    assert Rounds(start, block, 68) == Hash(0x78DD4D2B, 0x0C3DF2B4, 0x4405957E, 0x0677E9EB, 0x5AD87278);
    assert Rounds(start, block, 69) == Hash(0x497093C0, 0x78DD4D2B, 0x030F7CAD, 0x4405957E, 0x0677E9EB);
    assert Rounds(start, block, 70) == Hash(0x3F2588C2, 0x497093C0, 0xDE37534A, 0x030F7CAD, 0x4405957E);
  }

  lemma AbcRounds80(start: Hash, block: seq<Byte>)
    requires |block| == 64
    requires Schedule(block, 70) == 0x3A37CD05 && Schedule(block, 71) == 0x458546F4 && Schedule(block, 72) == 0xB8599DD6
    requires Schedule(block, 73) == 0x380A1A26 && Schedule(block, 74) == 0x01E02203 && Schedule(block, 75) == 0xE7CC3456
    requires Schedule(block, 76) == 0xE6E60B69 && Schedule(block, 77) == 0x00F60A00 && Schedule(block, 78) == 0x5795EF4F
    requires Schedule(block, 79) == 0x822E0879
    requires Rounds(start, block, 70) == Hash(0x3F2588C2, 0x497093C0, 0xDE37534A, 0x030F7CAD, 0x4405957E)
    ensures Rounds(start, block, 80) == Hash(0x42541B35, 0x5738D5E1, 0x21834873, 0x681E6DF6, 0xD8FDF6AD)
  {
    assert Rounds(start, block, 71) == Hash(0xC199F8C7, 0x3F2588C2, 0x125C24F0, 0xDE37534A, 0x030F7CAD);
    assert Rounds(start, block, 72) == Hash(0x39859DE7, 0xC199F8C7, 0x8FC96230, 0x125C24F0, 0xDE37534A);
    assert Rounds(start, block, 73) == Hash(0xEDB42DE4, 0x39859DE7, 0xF0667E31, 0x8FC96230, 0x125C24F0);
    assert Rounds(start, block, 74) == Hash(0x11793F6F, 0xEDB42DE4, 0xCE616779, 0xF0667E31, 0x8FC96230);
    assert Rounds(start, block, 75) == Hash(0x5EE76897, 0x11793F6F, 0x3B6D0B79, 0xCE616779, 0xF0667E31);
    assert Rounds(start, block, 76) == Hash(0x63F7DAB7, 0x5EE76897, 0xC45E4FDB, 0x3B6D0B79, 0xCE616779);
    assert Rounds(start, block, 77) == Hash(0xA079B7D9, 0x63F7DAB7, 0xD7B9DA25, 0xC45E4FDB, 0x3B6D0B79);
    assert Rounds(start, block, 78) == Hash(0x860D21CC, 0xA079B7D9, 0xD8FDF6AD, 0xD7B9DA25, 0xC45E4FDB);
    assert Rounds(start, block, 79) == Hash(0x5738D5E1, 0x860D21CC, 0x681E6DF6, 0xD8FDF6AD, 0xD7B9DA25);
    assert Rounds(start, block, 80) == Hash(0x42541B35, 0x5738D5E1, 0x21834873, 0x681E6DF6, 0xD8FDF6AD);
  }

  lemma AbcCompresses(start: Hash, block: seq<Byte>)
    requires AbcBlock(block) && start == Hash(0x67452301, 0xEFCDAB89, 0x98BADCFE, 0x10325476, 0xC3D2E1F0)
    ensures Compress(start, block) == Hash(0xA9993E36, 0x4706816A, 0xBA3E2571, 0x7850C26C, 0x9CD0D89D)
  {
    hide Rounds, Schedule;
    NoRound(start, block);
    AbcWords0(block);
    AbcWords16(block);
    AbcWords32(block);
    AbcWords48(block);
    AbcWords64(block);
    AbcRounds10(start, block);
    AbcRounds20(start, block);
    AbcRounds30(start, block);
    AbcRounds40(start, block);
    AbcRounds50(start, block);
    AbcRounds60(start, block);
    AbcRounds70(start, block);
    AbcRounds80(start, block);
  }

  const ABC: seq<Byte> := [0x61, 0x62, 0x63]

  lemma AbcPadded()
    ensures AbcBlock(Pad(ABC))
  {
    hide Pad;
    AbcOctets();
  }

  lemma AbcOctets()
    ensures var block := Pad(ABC);
            && |block| == 64 && block[0..4] == [0x61, 0x62, 0x63, 0x80]
            && (forall i | 4 <= i < 63 :: block[i] == 0) && block[63] == 24
  {
    hide ToBigEndian;
    SmallLength(24);
    assert Pad(ABC)[56..] == ToBigEndian(24, 8);
  }

  // A length below 2^16 bits.
  lemma SmallLength(n: nat)
    requires n < 0x1_0000
    ensures ToBigEndian(n, 8) == [0, 0, 0, 0, 0, 0, (n / 0x100) as Byte, (n % 0x100) as Byte]
  {
    BigEndianStep(n, 8);
    BigEndianStep(n / 0x100, 7);
    assert ToBigEndian(0, 6) == [0, 0, 0, 0, 0, 0];
  }

  // "abc", the answer of the standard.
  lemma AnswerToAbc()
    ensures Sha1(ABC)
         == [0xA9, 0x99, 0x3E, 0x36] + [0x47, 0x06, 0x81, 0x6A] + [0xBA, 0x3E, 0x25, 0x71]
            + [0x78, 0x50, 0xC2, 0x6C] + [0x9C, 0xD0, 0xD8, 0x9D]
  {
    hide Pad, Compress, HashBlocks;
    AbcPadded();
    AbcCompresses(INITIAL, Pad(ABC));
    HashOfOne(INITIAL, Pad(ABC));
  }

  // ---------------------------------------------------------------- two blocks

  predicate NextBlock(block: seq<Byte>)
  {
    && |block| == 64
    && block[0..4] == [0x80, 0x00, 0x00, 0x00] && block[4..8] == [0x00, 0x00, 0x00, 0x00]
    && block[8..12] == [0x00, 0x00, 0x00, 0x00] && block[12..16] == [0x00, 0x00, 0x00, 0x00]
    && block[16..20] == [0x00, 0x00, 0x00, 0x00] && block[20..24] == [0x00, 0x00, 0x00, 0x00]
    && block[24..28] == [0x00, 0x00, 0x00, 0x00] && block[28..32] == [0x00, 0x00, 0x00, 0x00]
    && block[32..36] == [0x00, 0x00, 0x00, 0x00] && block[36..40] == [0x00, 0x00, 0x00, 0x00]
    && block[40..44] == [0x00, 0x00, 0x00, 0x00] && block[44..48] == [0x00, 0x00, 0x00, 0x00]
    && block[48..52] == [0x00, 0x00, 0x00, 0x00] && block[52..56] == [0x00, 0x00, 0x00, 0x00]
    && block[56..60] == [0x00, 0x00, 0x00, 0x00] && block[60..64] == [0x00, 0x00, 0x02, 0x00]
  }

  lemma NextWords0(block: seq<Byte>)
    requires NextBlock(block)
    ensures Schedule(block, 0) == 0x80000000 && Schedule(block, 1) == 0x00000000 && Schedule(block, 2) == 0x00000000
    ensures Schedule(block, 3) == 0x00000000 && Schedule(block, 4) == 0x00000000 && Schedule(block, 5) == 0x00000000
    ensures Schedule(block, 6) == 0x00000000 && Schedule(block, 7) == 0x00000000 && Schedule(block, 8) == 0x00000000
    ensures Schedule(block, 9) == 0x00000000 && Schedule(block, 10) == 0x00000000 && Schedule(block, 11) == 0x00000000
    ensures Schedule(block, 12) == 0x00000000 && Schedule(block, 13) == 0x00000000 && Schedule(block, 14) == 0x00000000
    ensures Schedule(block, 15) == 0x00000200
  {
    WordIs(block, 0, 0x80, 0x00, 0x00, 0x00);
    WordIs(block, 1, 0x00, 0x00, 0x00, 0x00);
    WordIs(block, 2, 0x00, 0x00, 0x00, 0x00);
    WordIs(block, 3, 0x00, 0x00, 0x00, 0x00);
    WordIs(block, 4, 0x00, 0x00, 0x00, 0x00);
    WordIs(block, 5, 0x00, 0x00, 0x00, 0x00);
    WordIs(block, 6, 0x00, 0x00, 0x00, 0x00);
    WordIs(block, 7, 0x00, 0x00, 0x00, 0x00);
    WordIs(block, 8, 0x00, 0x00, 0x00, 0x00);
    WordIs(block, 9, 0x00, 0x00, 0x00, 0x00);
    WordIs(block, 10, 0x00, 0x00, 0x00, 0x00);
    WordIs(block, 11, 0x00, 0x00, 0x00, 0x00);
    WordIs(block, 12, 0x00, 0x00, 0x00, 0x00);
    WordIs(block, 13, 0x00, 0x00, 0x00, 0x00);
    WordIs(block, 14, 0x00, 0x00, 0x00, 0x00);
    WordIs(block, 15, 0x00, 0x00, 0x02, 0x00);
  }

  lemma NextWords16(block: seq<Byte>)
    requires |block| == 64
    requires Schedule(block, 0) == 0x80000000 && Schedule(block, 1) == 0x00000000 && Schedule(block, 2) == 0x00000000
    requires Schedule(block, 3) == 0x00000000 && Schedule(block, 4) == 0x00000000 && Schedule(block, 5) == 0x00000000
    requires Schedule(block, 6) == 0x00000000 && Schedule(block, 7) == 0x00000000 && Schedule(block, 8) == 0x00000000
    requires Schedule(block, 9) == 0x00000000 && Schedule(block, 10) == 0x00000000 && Schedule(block, 11) == 0x00000000
    requires Schedule(block, 12) == 0x00000000 && Schedule(block, 13) == 0x00000000 && Schedule(block, 14) == 0x00000000
    requires Schedule(block, 15) == 0x00000200
    ensures Schedule(block, 16) == 0x00000001 && Schedule(block, 17) == 0x00000000 && Schedule(block, 18) == 0x00000400
    ensures Schedule(block, 19) == 0x00000002 && Schedule(block, 20) == 0x00000000 && Schedule(block, 21) == 0x00000800
    ensures Schedule(block, 22) == 0x00000004 && Schedule(block, 23) == 0x00000400 && Schedule(block, 24) == 0x00001002
    ensures Schedule(block, 25) == 0x00000008 && Schedule(block, 26) == 0x00000000 && Schedule(block, 27) == 0x00002000
    ensures Schedule(block, 28) == 0x00000010 && Schedule(block, 29) == 0x00001400 && Schedule(block, 30) == 0x0000400A
    ensures Schedule(block, 31) == 0x00000C20
  {
  }

  lemma NextWords32(block: seq<Byte>)
    requires |block| == 64
    requires Schedule(block, 16) == 0x00000001 && Schedule(block, 17) == 0x00000000 && Schedule(block, 18) == 0x00000400
    requires Schedule(block, 19) == 0x00000002 && Schedule(block, 20) == 0x00000000 && Schedule(block, 21) == 0x00000800
    requires Schedule(block, 22) == 0x00000004 && Schedule(block, 23) == 0x00000400 && Schedule(block, 24) == 0x00001002
    requires Schedule(block, 25) == 0x00000008 && Schedule(block, 26) == 0x00000000 && Schedule(block, 27) == 0x00002000
    requires Schedule(block, 28) == 0x00000010 && Schedule(block, 29) == 0x00001400 && Schedule(block, 30) == 0x0000400A
    requires Schedule(block, 31) == 0x00000C20
    ensures Schedule(block, 32) == 0x00000006 && Schedule(block, 33) == 0x00008000 && Schedule(block, 34) == 0x00001040
    ensures Schedule(block, 35) == 0x00005008 && Schedule(block, 36) == 0x00010028 && Schedule(block, 37) == 0x00001080
    ensures Schedule(block, 38) == 0x00000008 && Schedule(block, 39) == 0x00021000 && Schedule(block, 40) == 0x00000108
    ensures Schedule(block, 41) == 0x00014000 && Schedule(block, 42) == 0x000400A0 && Schedule(block, 43) == 0x0000CA00
    ensures Schedule(block, 44) == 0x00000064 && Schedule(block, 45) == 0x00081000 && Schedule(block, 46) == 0x00011408
    ensures Schedule(block, 47) == 0x00053888
  {
  }

  lemma NextWords48(block: seq<Byte>)
    requires |block| == 64
    requires Schedule(block, 32) == 0x00000006 && Schedule(block, 33) == 0x00008000 && Schedule(block, 34) == 0x00001040
    requires Schedule(block, 35) == 0x00005008 && Schedule(block, 36) == 0x00010028 && Schedule(block, 37) == 0x00001080
    requires Schedule(block, 38) == 0x00000008 && Schedule(block, 39) == 0x00021000 && Schedule(block, 40) == 0x00000108
    requires Schedule(block, 41) == 0x00014000 && Schedule(block, 42) == 0x000400A0 && Schedule(block, 43) == 0x0000CA00
    requires Schedule(block, 44) == 0x00000064 && Schedule(block, 45) == 0x00081000 && Schedule(block, 46) == 0x00011408
    requires Schedule(block, 47) == 0x00053888
    ensures Schedule(block, 48) == 0x0010029C && Schedule(block, 49) == 0x00010800 && Schedule(block, 50) == 0x00005080
    ensures Schedule(block, 51) == 0x00211028 && Schedule(block, 52) == 0x00001088 && Schedule(block, 53) == 0x00148000
    ensures Schedule(block, 54) == 0x00400A40 && Schedule(block, 55) == 0x000CF000 && Schedule(block, 56) == 0x00010668
    ensures Schedule(block, 57) == 0x00811080 && Schedule(block, 58) == 0x00114088 && Schedule(block, 59) == 0x00519880
    ensures Schedule(block, 60) == 0x010028C8 && Schedule(block, 61) == 0x0011D000 && Schedule(block, 62) == 0x000108A8
    ensures Schedule(block, 63) == 0x0211D080
  {
  }

  lemma NextWords64(block: seq<Byte>)
    requires |block| == 64
    requires Schedule(block, 48) == 0x0010029C && Schedule(block, 49) == 0x00010800 && Schedule(block, 50) == 0x00005080
    requires Schedule(block, 51) == 0x00211028 && Schedule(block, 52) == 0x00001088 && Schedule(block, 53) == 0x00148000
    requires Schedule(block, 54) == 0x00400A40 && Schedule(block, 55) == 0x000CF000 && Schedule(block, 56) == 0x00010668
    requires Schedule(block, 57) == 0x00811080 && Schedule(block, 58) == 0x00114088 && Schedule(block, 59) == 0x00519880
    requires Schedule(block, 60) == 0x010028C8 && Schedule(block, 61) == 0x0011D000 && Schedule(block, 62) == 0x000108A8
    requires Schedule(block, 63) == 0x0211D080
    ensures Schedule(block, 64) == 0x000108E8 && Schedule(block, 65) == 0x01400000 && Schedule(block, 66) == 0x0401A000
    ensures Schedule(block, 67) == 0x00CA0080 && Schedule(block, 68) == 0x00006400 && Schedule(block, 69) == 0x08100000
    ensures Schedule(block, 70) == 0x01140800 && Schedule(block, 71) == 0x0538A800 && Schedule(block, 72) == 0x10029C10
    ensures Schedule(block, 73) == 0x01090000 && Schedule(block, 74) == 0x0050C080 && Schedule(block, 75) == 0x2111A820
    ensures Schedule(block, 76) == 0x001088C0 && Schedule(block, 77) == 0x14818000 && Schedule(block, 78) == 0x400B40C0
    ensures Schedule(block, 79) == 0x0CF3E080
  {
  }

  lemma NextRounds10(start: Hash, block: seq<Byte>)
    requires |block| == 64
    requires Schedule(block, 0) == 0x80000000 && Schedule(block, 1) == 0x00000000 && Schedule(block, 2) == 0x00000000
    requires Schedule(block, 3) == 0x00000000 && Schedule(block, 4) == 0x00000000 && Schedule(block, 5) == 0x00000000
    requires Schedule(block, 6) == 0x00000000 && Schedule(block, 7) == 0x00000000 && Schedule(block, 8) == 0x00000000
    requires Schedule(block, 9) == 0x00000000
    requires Rounds(start, block, 0) == Hash(0xA9993E36, 0x4706816A, 0xBA3E2571, 0x7850C26C, 0x9CD0D89D)
    ensures Rounds(start, block, 10) == Hash(0xDE563CCB, 0xA35F0A75, 0xE7DFC203, 0xDAA5139E, 0xC8387948)
  {
    assert Rounds(start, block, 1) == Hash(0xE4D15C6F, 0xA9993E36, 0x91C1A05A, 0xBA3E2571, 0x7850C26C);
    assert Rounds(start, block, 2) == Hash(0x00A5EB54, 0xE4D15C6F, 0xAA664F8D, 0x91C1A05A, 0xBA3E2571);
    assert Rounds(start, block, 3) == Hash(0xDABEF5A7, 0x00A5EB54, 0xF934571B, 0xAA664F8D, 0x91C1A05A);
    assert Rounds(start, block, 4) == Hash(0xEE891687, 0xDABEF5A7, 0x00297AD5, 0xF934571B, 0xAA664F8D);
    assert Rounds(start, block, 5) == Hash(0xF7340CC0, 0xEE891687, 0xF6AFBD69, 0x00297AD5, 0xF934571B);
    assert Rounds(start, block, 6) == Hash(0x20E1E523, 0xF7340CC0, 0xFBA245A1, 0xF6AFBD69, 0x00297AD5);
    assert Rounds(start, block, 7) == Hash(0x6A944E7B, 0x20E1E523, 0x3DCD0330, 0xFBA245A1, 0xF6AFBD69);
    assert Rounds(start, block, 8) == Hash(0x9F7F080F, 0x6A944E7B, 0xC8387948, 0x3DCD0330, 0xFBA245A1);
    assert Rounds(start, block, 9) == Hash(0xA35F0A75, 0x9F7F080F, 0xDAA5139E, 0xC8387948, 0x3DCD0330);
    assert Rounds(start, block, 10) == Hash(0xDE563CCB, 0xA35F0A75, 0xE7DFC203, 0xDAA5139E, 0xC8387948);
  }

  lemma NextRounds20(start: Hash, block: seq<Byte>)
    requires |block| == 64
    requires Schedule(block, 10) == 0x00000000 && Schedule(block, 11) == 0x00000000 && Schedule(block, 12) == 0x00000000
    requires Schedule(block, 13) == 0x00000000 && Schedule(block, 14) == 0x00000000 && Schedule(block, 15) == 0x00000200
    requires Schedule(block, 16) == 0x00000001 && Schedule(block, 17) == 0x00000000 && Schedule(block, 18) == 0x00000400
    requires Schedule(block, 19) == 0x00000002
    requires Rounds(start, block, 10) == Hash(0xDE563CCB, 0xA35F0A75, 0xE7DFC203, 0xDAA5139E, 0xC8387948)
    ensures Rounds(start, block, 20) == Hash(0xBEA0FD6C, 0x8CF6389E, 0x1B8BACDE, 0x31474DD8, 0xC8603E14)
  {
    assert Rounds(start, block, 11) == Hash(0xE9819FE7, 0xDE563CCB, 0x68D7C29D, 0xE7DFC203, 0xDAA5139E);
    assert Rounds(start, block, 12) == Hash(0xCF3B4CBD, 0xE9819FE7, 0xF7958F32, 0x68D7C29D, 0xE7DFC203);
    assert Rounds(start, block, 13) == Hash(0x0BA3A28F, 0xCF3B4CBD, 0xFA6067F9, 0xF7958F32, 0x68D7C29D);
    assert Rounds(start, block, 14) == Hash(0x327355D2, 0x0BA3A28F, 0x73CED32F, 0xFA6067F9, 0xF7958F32);
    assert Rounds(start, block, 15) == Hash(0x94458A90, 0x327355D2, 0xC2E8E8A3, 0x73CED32F, 0xFA6067F9);
    assert Rounds(start, block, 16) == Hash(0x2180F853, 0x94458A90, 0x8C9CD574, 0xC2E8E8A3, 0x73CED32F);
    assert Rounds(start, block, 17) == Hash(0xC51D3760, 0x2180F853, 0x251162A4, 0x8C9CD574, 0xC2E8E8A3);
    assert Rounds(start, block, 18) == Hash(0x6E2EB378, 0xC51D3760, 0xC8603E14, 0x251162A4, 0x8C9CD574);
    assert Rounds(start, block, 19) == Hash(0x8CF6389E, 0x6E2EB378, 0x31474DD8, 0xC8603E14, 0x251162A4);
    assert Rounds(start, block, 20) == Hash(0xBEA0FD6C, 0x8CF6389E, 0x1B8BACDE, 0x31474DD8, 0xC8603E14);
  }

  lemma NextRounds30(start: Hash, block: seq<Byte>)
    requires |block| == 64
    requires Schedule(block, 20) == 0x00000000 && Schedule(block, 21) == 0x00000800 && Schedule(block, 22) == 0x00000004
    requires Schedule(block, 23) == 0x00000400 && Schedule(block, 24) == 0x00001002 && Schedule(block, 25) == 0x00000008
    requires Schedule(block, 26) == 0x00000000 && Schedule(block, 27) == 0x00002000 && Schedule(block, 28) == 0x00000010
    requires Schedule(block, 29) == 0x00001400
    requires Rounds(start, block, 20) == Hash(0xBEA0FD6C, 0x8CF6389E, 0x1B8BACDE, 0x31474DD8, 0xC8603E14)
    ensures Rounds(start, block, 30) == Hash(0x9E808AE8, 0xE25DE4E9, 0xA0904707, 0x26558B87, 0x82539F1B)
  {
    assert Rounds(start, block, 21) == Hash(0xB194B0E4, 0xBEA0FD6C, 0xA33D8E27, 0x1B8BACDE, 0x31474DD8);
    assert Rounds(start, block, 22) == Hash(0xD8CE3DA4, 0xB194B0E4, 0x2FA83F5B, 0xA33D8E27, 0x1B8BACDE);
    assert Rounds(start, block, 23) == Hash(0xE12E4EB6, 0xD8CE3DA4, 0x2C652C39, 0x2FA83F5B, 0xA33D8E27);
    assert Rounds(start, block, 24) == Hash(0x12E4836A, 0xE12E4EB6, 0x36338F69, 0x2C652C39, 0x2FA83F5B);
    assert Rounds(start, block, 25) == Hash(0xF68B9626, 0x12E4836A, 0xB84B93AD, 0x36338F69, 0x2C652C39);
    assert Rounds(start, block, 26) == Hash(0x094E7C6E, 0xF68B9626, 0x84B920DA, 0xB84B93AD, 0x36338F69);
    assert Rounds(start, block, 27) == Hash(0x99562E1C, 0x094E7C6E, 0xBDA2E589, 0x84B920DA, 0xB84B93AD);
    assert Rounds(start, block, 28) == Hash(0x82411C1E, 0x99562E1C, 0x82539F1B, 0xBDA2E589, 0x84B920DA);
    assert Rounds(start, block, 29) == Hash(0xE25DE4E9, 0x82411C1E, 0x26558B87, 0x82539F1B, 0xBDA2E589);
    assert Rounds(start, block, 30) == Hash(0x9E808AE8, 0xE25DE4E9, 0xA0904707, 0x26558B87, 0x82539F1B);
  }

  lemma NextRounds40(start: Hash, block: seq<Byte>)
    requires |block| == 64
    requires Schedule(block, 30) == 0x0000400A && Schedule(block, 31) == 0x00000C20 && Schedule(block, 32) == 0x00000006
    requires Schedule(block, 33) == 0x00008000 && Schedule(block, 34) == 0x00001040 && Schedule(block, 35) == 0x00005008
    requires Schedule(block, 36) == 0x00010028 && Schedule(block, 37) == 0x00001080 && Schedule(block, 38) == 0x00000008
    requires Schedule(block, 39) == 0x00021000
    requires Rounds(start, block, 30) == Hash(0x9E808AE8, 0xE25DE4E9, 0xA0904707, 0x26558B87, 0x82539F1B)
    ensures Rounds(start, block, 40) == Hash(0x8A6783C3, 0x9D80D8D1, 0x28338073, 0xB932598D, 0xFE5A2B4E)
  {
    assert Rounds(start, block, 31) == Hash(0x25D75042, 0x9E808AE8, 0x7897793A, 0xA0904707, 0x26558B87);
    assert Rounds(start, block, 32) == Hash(0x96A14061, 0x25D75042, 0x27A022BA, 0x7897793A, 0xA0904707);
    assert Rounds(start, block, 33) == Hash(0x5E724AA2, 0x96A14061, 0x8975D410, 0x27A022BA, 0x7897793A);
    assert Rounds(start, block, 34) == Hash(0xEE2FEFF1, 0x5E724AA2, 0x65A85018, 0x8975D410, 0x27A022BA);
    assert Rounds(start, block, 35) == Hash(0x0F27EB82, 0xEE2FEFF1, 0x979C92A8, 0x65A85018, 0x8975D410);
    assert Rounds(start, block, 36) == Hash(0xF968AD3B, 0x0F27EB82, 0x7B8BFBFC, 0x979C92A8, 0x65A85018);
    assert Rounds(start, block, 37) == Hash(0xE4C96636, 0xF968AD3B, 0x83C9FAE0, 0x7B8BFBFC, 0x979C92A8);
    assert Rounds(start, block, 38) == Hash(0xA0CE01CC, 0xE4C96636, 0xFE5A2B4E, 0x83C9FAE0, 0x7B8BFBFC);
    assert Rounds(start, block, 39) == Hash(0x9D80D8D1, 0xA0CE01CC, 0xB932598D, 0xFE5A2B4E, 0x83C9FAE0);
    assert Rounds(start, block, 40) == Hash(0x8A6783C3, 0x9D80D8D1, 0x28338073, 0xB932598D, 0xFE5A2B4E);
  }

  lemma NextRounds50(start: Hash, block: seq<Byte>)
    requires |block| == 64
    requires Schedule(block, 40) == 0x00000108 && Schedule(block, 41) == 0x00014000 && Schedule(block, 42) == 0x000400A0
    requires Schedule(block, 43) == 0x0000CA00 && Schedule(block, 44) == 0x00000064 && Schedule(block, 45) == 0x00081000
    requires Schedule(block, 46) == 0x00011408 && Schedule(block, 47) == 0x00053888 && Schedule(block, 48) == 0x0010029C
    requires Schedule(block, 49) == 0x00010800
    requires Rounds(start, block, 40) == Hash(0x8A6783C3, 0x9D80D8D1, 0x28338073, 0xB932598D, 0xFE5A2B4E)
    ensures Rounds(start, block, 50) == Hash(0xCF6C8A6F, 0xF46B9E9F, 0x6D8E6FA2, 0x3D39D42D, 0x8DAF96F4)
  {
    assert Rounds(start, block, 41) == Hash(0x93993A74, 0x8A6783C3, 0x67603634, 0x28338073, 0xB932598D);
    assert Rounds(start, block, 42) == Hash(0xE5DA276E, 0x93993A74, 0xE299E0F0, 0x67603634, 0x28338073);
    assert Rounds(start, block, 43) == Hash(0x56315E3F, 0xE5DA276E, 0x24E64E9D, 0xE299E0F0, 0x67603634);
    assert Rounds(start, block, 44) == Hash(0xA182EBF6, 0x56315E3F, 0xB97689DB, 0x24E64E9D, 0xE299E0F0);
    assert Rounds(start, block, 45) == Hash(0xD6896BA3, 0xA182EBF6, 0xD58C578F, 0xB97689DB, 0x24E64E9D);
    assert Rounds(start, block, 46) == Hash(0x36BE5BD2, 0xD6896BA3, 0xA860BAFD, 0xD58C578F, 0xB97689DB);
    assert Rounds(start, block, 47) == Hash(0xF4E750B4, 0x36BE5BD2, 0xF5A25AE8, 0xA860BAFD, 0xD58C578F);
    assert Rounds(start, block, 48) == Hash(0xB639BE89, 0xF4E750B4, 0x8DAF96F4, 0xF5A25AE8, 0xA860BAFD);
    assert Rounds(start, block, 49) == Hash(0xF46B9E9F, 0xB639BE89, 0x3D39D42D, 0x8DAF96F4, 0xF5A25AE8);
    assert Rounds(start, block, 50) == Hash(0xCF6C8A6F, 0xF46B9E9F, 0x6D8E6FA2, 0x3D39D42D, 0x8DAF96F4);
  }

  lemma NextRounds60(start: Hash, block: seq<Byte>)
    requires |block| == 64
    requires Schedule(block, 50) == 0x00005080 && Schedule(block, 51) == 0x00211028 && Schedule(block, 52) == 0x00001088
    requires Schedule(block, 53) == 0x00148000 && Schedule(block, 54) == 0x00400A40 && Schedule(block, 55) == 0x000CF000
    requires Schedule(block, 56) == 0x00010668 && Schedule(block, 57) == 0x00811080 && Schedule(block, 58) == 0x00114088
    requires Schedule(block, 59) == 0x00519880
    requires Rounds(start, block, 50) == Hash(0xCF6C8A6F, 0xF46B9E9F, 0x6D8E6FA2, 0x3D39D42D, 0x8DAF96F4)
    ensures Rounds(start, block, 60) == Hash(0x477634CF, 0x2F7A6BCF, 0x18594A8E, 0xC970A3B7, 0xE19DEDF0)
  {
    assert Rounds(start, block, 51) == Hash(0x8788D0F8, 0xCF6C8A6F, 0xFD1AE7A7, 0x6D8E6FA2, 0x3D39D42D);
    assert Rounds(start, block, 52) == Hash(0xAA9FAFE8, 0x8788D0F8, 0xF3DB229B, 0xFD1AE7A7, 0x6D8E6FA2);
    assert Rounds(start, block, 53) == Hash(0x483B1CD6, 0xAA9FAFE8, 0x21E2343E, 0xF3DB229B, 0xFD1AE7A7);
    assert Rounds(start, block, 54) == Hash(0x3789E606, 0x483B1CD6, 0x2AA7EBFA, 0x21E2343E, 0xF3DB229B);
    assert Rounds(start, block, 55) == Hash(0x9D16E77B, 0x3789E606, 0x920EC735, 0x2AA7EBFA, 0x21E2343E);
    assert Rounds(start, block, 56) == Hash(0x8677B7C3, 0x9D16E77B, 0x8DE27981, 0x920EC735, 0x2AA7EBFA);
    assert Rounds(start, block, 57) == Hash(0x25C28EDF, 0x8677B7C3, 0xE745B9DE, 0x8DE27981, 0x920EC735);
    assert Rounds(start, block, 58) == Hash(0x61652A38, 0x25C28EDF, 0xE19DEDF0, 0xE745B9DE, 0x8DE27981);
    assert Rounds(start, block, 59) == Hash(0x2F7A6BCF, 0x61652A38, 0xC970A3B7, 0xE19DEDF0, 0xE745B9DE);
    assert Rounds(start, block, 60) == Hash(0x477634CF, 0x2F7A6BCF, 0x18594A8E, 0xC970A3B7, 0xE19DEDF0);
  }

  lemma NextRounds70(start: Hash, block: seq<Byte>)
    requires |block| == 64
    requires Schedule(block, 60) == 0x010028C8 && Schedule(block, 61) == 0x0011D000 && Schedule(block, 62) == 0x000108A8
    requires Schedule(block, 63) == 0x0211D080 && Schedule(block, 64) == 0x000108E8 && Schedule(block, 65) == 0x01400000
    requires Schedule(block, 66) == 0x0401A000 && Schedule(block, 67) == 0x00CA0080 && Schedule(block, 68) == 0x00006400
    requires Schedule(block, 69) == 0x08100000
    requires Rounds(start, block, 60) == Hash(0x477634CF, 0x2F7A6BCF, 0x18594A8E, 0xC970A3B7, 0xE19DEDF0)
    ensures Rounds(start, block, 70) == Hash(0x983822D8, 0x1DD321EF, 0x35CEB1B9, 0x163EC6A4, 0xE0488F36)
  {
    assert Rounds(start, block, 61) == Hash(0x9A1AF56C, 0x477634CF, 0xCBDE9AF3, 0x18594A8E, 0xC970A3B7);
    assert Rounds(start, block, 62) == Hash(0x6C35C7D2, 0x9A1AF56C, 0xD1DD8D33, 0xCBDE9AF3, 0x18594A8E);
    assert Rounds(start, block, 63) == Hash(0xE98FF205, 0x6C35C7D2, 0x2686BD5B, 0xD1DD8D33, 0xCBDE9AF3);
    assert Rounds(start, block, 64) == Hash(0x65C065C0, 0xE98FF205, 0x9B0D71F4, 0x2686BD5B, 0xD1DD8D33);
    assert Rounds(start, block, 65) == Hash(0xA8524EA7, 0x65C065C0, 0x7A63FC81, 0x9B0D71F4, 0x2686BD5B);
    assert Rounds(start, block, 66) == Hash(0x81223CDB, 0xA8524EA7, 0x19701970, 0x7A63FC81, 0x9B0D71F4);
    assert Rounds(start, block, 67) == Hash(0x58FB1A90, 0x81223CDB, 0xEA1493A9, 0x19701970, 0x7A63FC81);
    assert Rounds(start, block, 68) == Hash(0xD73AC6E4, 0x58FB1A90, 0xE0488F36, 0xEA1493A9, 0x19701970);
    assert Rounds(start, block, 69) == Hash(0x1DD321EF, 0xD73AC6E4, 0x163EC6A4, 0xE0488F36, 0xEA1493A9);
    assert Rounds(start, block, 70) == Hash(0x983822D8, 0x1DD321EF, 0x35CEB1B9, 0x163EC6A4, 0xE0488F36);
  }

  lemma NextRounds80(start: Hash, block: seq<Byte>)
    requires |block| == 64
    requires Schedule(block, 70) == 0x01140800 && Schedule(block, 71) == 0x0538A800 && Schedule(block, 72) == 0x10029C10
    requires Schedule(block, 73) == 0x01090000 && Schedule(block, 74) == 0x0050C080 && Schedule(block, 75) == 0x2111A820
    requires Schedule(block, 76) == 0x001088C0 && Schedule(block, 77) == 0x14818000 && Schedule(block, 78) == 0x400B40C0
    requires Schedule(block, 79) == 0x0CF3E080
    requires Rounds(start, block, 70) == Hash(0x983822D8, 0x1DD321EF, 0x35CEB1B9, 0x163EC6A4, 0xE0488F36)
    ensures Rounds(start, block, 80) == Hash(0x42E0FA50, 0x5E1EA1C9, 0x756F468E, 0x5C89CD20, 0x49E8CF8E)
  {
    assert Rounds(start, block, 71) == Hash(0xF0E70B11, 0x983822D8, 0xC774C87B, 0x35CEB1B9, 0x163EC6A4);
    assert Rounds(start, block, 72) == Hash(0x6D3DEDD2, 0xF0E70B11, 0x260E08B6, 0xC774C87B, 0x35CEB1B9);
    assert Rounds(start, block, 73) == Hash(0xC98F95C8, 0x6D3DEDD2, 0x7C39C2C4, 0x260E08B6, 0xC774C87B);
    assert Rounds(start, block, 74) == Hash(0xFBDD6B0A, 0xC98F95C8, 0x9B4F7B74, 0x7C39C2C4, 0x260E08B6);
    assert Rounds(start, block, 75) == Hash(0x9B6818E3, 0xFBDD6B0A, 0x3263E572, 0x9B4F7B74, 0x7C39C2C4);
    assert Rounds(start, block, 76) == Hash(0x27A33E39, 0x9B6818E3, 0xBEF75AC2, 0x3263E572, 0x9B4F7B74);
    assert Rounds(start, block, 77) == Hash(0x72273481, 0x27A33E39, 0xE6DA0638, 0xBEF75AC2, 0x3263E572);
    assert Rounds(start, block, 78) == Hash(0xD5BD1A39, 0x72273481, 0x49E8CF8E, 0xE6DA0638, 0xBEF75AC2);
    assert Rounds(start, block, 79) == Hash(0x5E1EA1C9, 0xD5BD1A39, 0x5C89CD20, 0x49E8CF8E, 0xE6DA0638);
    assert Rounds(start, block, 80) == Hash(0x42E0FA50, 0x5E1EA1C9, 0x756F468E, 0x5C89CD20, 0x49E8CF8E);
  }

  lemma NextCompresses(start: Hash, block: seq<Byte>)
    requires NextBlock(block) && start == Hash(0xA9993E36, 0x4706816A, 0xBA3E2571, 0x7850C26C, 0x9CD0D89D)
    ensures Compress(start, block) == Hash(0xEC7A3886, 0xA5252333, 0x2FAD6BFF, 0xD4DA8F8C, 0xE6B9A82B)
  {
    hide Rounds, Schedule;
    NoRound(start, block);
    NextWords0(block);
    NextWords16(block);
    NextWords32(block);
    NextWords48(block);
    NextWords64(block);
    NextRounds10(start, block);
    NextRounds20(start, block);
    NextRounds30(start, block);
    NextRounds40(start, block);
    NextRounds50(start, block);
    NextRounds60(start, block);
    NextRounds70(start, block);
    NextRounds80(start, block);
  }

  lemma NextPadded(message: seq<Byte>)
    requires |message| == 64
    ensures Pad(message)[..64] == message && NextBlock(Pad(message)[64..])
  {
    hide Pad;
    NextOctets(message);
  }

  lemma NextOctets(message: seq<Byte>)
    requires |message| == 64
    ensures var block := Pad(message)[64..];
            && Pad(message)[..64] == message && |block| == 64 && block[0] == 0x80
            && (forall i | 1 <= i < 62 :: block[i] == 0) && block[62] == 2 && block[63] == 0
  {
    hide ToBigEndian;
    SmallLength(512);
    assert Pad(message)[64..][56..] == ToBigEndian(512, 8);
  }

  // The padded "abc", as a message of its own.
  lemma AnswerToTwoBlocks()
    ensures Sha1(Pad(ABC))
         == [0xEC, 0x7A, 0x38, 0x86] + [0xA5, 0x25, 0x23, 0x33] + [0x2F, 0xAD, 0x6B, 0xFF]
            + [0xD4, 0xDA, 0x8F, 0x8C] + [0xE6, 0xB9, 0xA8, 0x2B]
  {
    hide Pad, Compress, HashBlocks;
    var first := Pad(ABC);
    AbcPadded();
    AbcCompresses(INITIAL, first);
    HashOfOne(INITIAL, first);
    NextPadded(first);
    NextCompresses(HashBlocks(INITIAL, first), Pad(first)[64..]);
    HashOfNext(first, Pad(first)[64..]);
    assert Pad(first) == first + Pad(first)[64..];
  }
}
