// Frames octet by octet: the layout of section 5.2 of RFC 6455, its limits in numbers, and the examples of
// section 5.7.
module FrameExamples {
  import opened Common
  import opened Octets
  import opened FrameSpec
  import opened FrameProofs
  import Frames

  // ---------------------------------------------------------------- numbers

  lemma TwoOctets(n: nat)
    requires n < 0x1_0000
    ensures ToBigEndian(n, 2) == [(n / 0x100) as Byte, (n % 0x100) as Byte]
  {
    BigEndianStep(n, 2);
    BigEndianStep(n / 0x100, 1);
    assert ToBigEndian(0, 0) == [];
  }

  lemma EightOctets(n: nat)
    requires n < 0x1_0000_0000_0000_0000
    ensures var o := ToBigEndian(n, 8);
            o[0] as nat * 0x100_0000_0000_0000 + o[1] as nat * 0x1_0000_0000_0000 + o[2] as nat * 0x100_0000_0000
            + o[3] as nat * 0x1_0000_0000 + o[4] as nat * 0x100_0000 + o[5] as nat * 0x1_0000 + o[6] as nat * 0x100
            + o[7] as nat == n
  {
    hide ToBigEndian;
    var (a, b) := (n / 0x1_0000_0000, n % 0x1_0000_0000);
    PowersOf256(4);
    ToBigEndianSplits(a, b, 4, 4);
    FourOctets(a);
    FourOctets(b);
    FourDigits(a);
    FourDigits(b);
    assert n == a * 0x1_0000_0000 + b;
  }

  lemma FourDigits(v: nat)
    requires v < 0x1_0000_0000
    ensures v / 0x100_0000 % 256 * 0x100_0000 + v / 0x1_0000 % 256 * 0x1_0000 + v / 0x100 % 256 * 0x100 + v % 256 == v
  {
    var (a, b, c) := (v / 0x100, v / 0x1_0000, v / 0x100_0000);
    assert v == 0x100 * a + v % 256 && a == 0x100 * b + a % 256 && b == 0x100 * c + b % 256;
  }

  // ---------------------------------------------------------------- layout

  // A frame as a client writes it. The length takes seven bits, or two or eight octets, the most
  // significant one first; the key and the payload follow.
  lemma FrameLayout(f: Frame)
    requires f.WellFormed()
    ensures var (s, n) := (Encode(f), |f.payload|);
            && s[0] as nat == (if f.fin then 128 else 0) + f.rsv * 16 + f.opcode
            && s[1] as nat == (if f.maskBit then 128 else 0)
                              + (match f.form case Short => n case Medium => 126 case Long => 127)
            && (f.form.Short? ==> s[2..] == f.mask + f.payload)
            && (f.form.Medium? ==> s[2] as nat * 0x100 + s[3] as nat == n && s[4..] == f.mask + f.payload)
            && (f.form.Long? ==>
                  && s[2] as nat * 0x100_0000_0000_0000 + s[3] as nat * 0x1_0000_0000_0000
                     + s[4] as nat * 0x100_0000_0000 + s[5] as nat * 0x1_0000_0000 + s[6] as nat * 0x100_0000
                     + s[7] as nat * 0x1_0000 + s[8] as nat * 0x100 + s[9] as nat == n
                  && s[10..] == f.mask + f.payload)
  {
    hide Encode, ToBigEndian;
    PowersOf256(8);
    var n := |f.payload|;
    var extra := ToBigEndian(n, ExtraOctets(LengthCode(f)));
    FrameParts(f);
    Parts(extra, f.mask + f.payload);
    match f.form {
      case Short => Neutral(f.mask + f.payload);
      case Medium =>
        TwoOctets(n);
        Behind(Encode(f), extra);
      case Long =>
        EightOctets(n);
        Behind(Encode(f), extra);
    }
  }

  lemma FrameParts(f: Frame)
    requires f.WellFormed()
    ensures var s := Encode(f);
            && |s| >= 2 && s[0] as nat == (if f.fin then 128 else 0) + f.rsv * 16 + f.opcode
            && s[1] as nat == (if f.maskBit then 128 else 0) + LengthCode(f)
            && s[2..] == ToBigEndian(|f.payload|, ExtraOctets(LengthCode(f))) + (f.mask + f.payload)
  {
    hide ToBigEndian;
  }

  lemma Behind(s: seq<Byte>, extra: seq<Byte>)
    requires |s| >= 2 + |extra| && s[2..][..|extra|] == extra
    ensures forall i | 0 <= i < |extra| :: s[2 + i] == extra[i]
    ensures s[2 + |extra|..] == s[2..][|extra|..]
  {
    assert forall i | 0 <= i < |extra| :: s[2 + i] == s[2..][..|extra|][i];
  }

  // A frame as the server writes it, without key, and its length in the shortest form.
  lemma ServerLayout(opcode: nat, data: seq<Byte>)
    requires opcode < 16 && |data| < 0x1_0000_0000_0000_0000
    ensures var (s, n) := (ServerFrame(opcode, data), |data|);
            && s[0] as nat == 128 + opcode
            && (n <= 125 ==> s[1] as nat == n && s[2..] == data)
            && (125 < n < 0x1_0000 ==> s[1] == 126 && s[2] as nat * 0x100 + s[3] as nat == n && s[4..] == data)
            && (n >= 0x1_0000 ==>
                  && s[1] == 127
                  && s[2] as nat * 0x100_0000_0000_0000 + s[3] as nat * 0x1_0000_0000_0000
                     + s[4] as nat * 0x100_0000_0000 + s[5] as nat * 0x1_0000_0000 + s[6] as nat * 0x100_0000
                     + s[7] as nat * 0x1_0000 + s[8] as nat * 0x100 + s[9] as nat == n
                  && s[10..] == data)
  {
    hide ToBigEndian;
    PowersOf256(8);
    var n := |data|;
    var head := [(128 + opcode) as Byte] + ServerLength(n);
    Parts(head, data);
    if n <= 125 {
    } else if n < 0x1_0000 {
      TwoOctets(n);
    } else {
      EightOctets(n);
      assert forall i | 0 <= i < 8 :: ServerFrame(opcode, data)[2 + i] == ToBigEndian(n, 8)[i];
    }
  }

  // A PING is answered by a PONG with the same data.
  lemma PingIsAnswered(pings: seq<seq<Byte>>)
    ensures |Frames.Answers(pings)| == |pings|
    ensures forall i | 0 <= i < |pings| :: Frames.Answers(pings)[i] == ServerFrame(10, pings[i])
  {
  }

  // ---------------------------------------------------------------- limits

  lemma {:induction false} DataLengthIs(frames: seq<Frame>)
    requires AllWellFormed(frames)
    ensures DataLength(frames) == |DataOf(frames)|
    decreases |frames|
  {
    hide ApplyMask;
    if frames != [] {
      DataLengthIs(frames[1..]);
      assert frames == [frames[0]] + frames[1..];
      DataLengthCons(frames[0], frames[1..]);
    }
  }

  lemma OpcodesInNumbers(f: Frame)
    ensures IsKnown(f.opcode) <==> f.opcode in {0, 1, 2, 8, 9, 10}
    ensures IsKnown(f.opcode) ==> (IsControl(f.opcode) <==> f.opcode >= 8) && (IsData(f) <==> f.opcode < 8)
  {
  }

  // What next_frame accepts, in the numbers of sections 5.2, 5.4 and 5.5.
  lemma LegalInNumbers(frames: seq<Frame>, closing: bool)
    requires AllWellFormed(frames)
    ensures Legal(frames, closing)
       <==> && |frames| > 0
            && (forall i | 0 <= i < |frames| ::
                  var f := frames[i];
                  && f.rsv == 0 && f.opcode in {0, 1, 2, 8, 9, 10} && (closing ==> f.opcode == 8)
                  && (f.opcode >= 8 ==> f.fin && f.form.Short?)
                  && (f.opcode < 8 ==> (f.opcode == 0 <==> exists j | 0 <= j < i :: frames[j].opcode < 8))
                  && (f.opcode == 8 || (f.opcode < 8 && f.fin) <==> i == |frames| - 1))
            && |DataOf(frames)| <= 16 * 1024 * 1024
  {
    hide DataLength, DataOf, IsKnown, IsControl, IsData;
    DataLengthIs(frames);
    forall i | 0 <= i < |frames|
      ensures IsKnown(frames[i].opcode) <==> frames[i].opcode in {0, 1, 2, 8, 9, 10}
      ensures IsKnown(frames[i].opcode) ==>
                && (IsControl(frames[i].opcode) <==> frames[i].opcode >= 8)
                && (IsData(frames[i]) <==> frames[i].opcode < 8)
    {
      OpcodesInNumbers(frames[i]);
    }
  }

  // The overrun is that of a control frame with 125 octets, the longest there is.
  lemma OverrunInNumbers(frames: seq<Frame>, closing: bool)
    requires AllWellFormed(frames) && Legal(frames, closing)
    ensures Overruns(frames) <==> exists i | 0 <= i < |frames| :: frames[i].opcode >= 8 && |frames[i].payload| == 125
  {
    hide DataLength, IsData, DataBefore;
  }

  // The kind of a message is the opcode of its first data frame.
  lemma {:induction false} KindIs(frames: seq<Frame>, i: nat)
    requires i < |frames| && frames[i].opcode in {1, 2}
    requires forall k | 0 <= k < i :: frames[k].opcode in {0, 8, 9, 10}
    ensures KindOf(frames) == frames[i].opcode
    decreases i
  {
    if i > 0 {
      KindIs(frames[1..], i - 1);
    }
  }

  // The payload of a ping: its number in 32 bits, the most significant octet first.
  lemma PingLayout(id: int)
    requires -0x8000_0000 <= id < 0x8000_0000
    ensures var o := PingMessage(id);
            o[0] as int * 0x100_0000 + o[1] as int * 0x1_0000 + o[2] as int * 0x100 + o[3] as int
            == if id < 0 then 0x1_0000_0000 + id else id
  {
    var n := if id < 0 then 0x1_0000_0000 + id else id;
    FourOctets(n);
    FourDigits(n);
    hide ToBigEndian;
  }

  // ---------------------------------------------------------------- examples

  const HELLO: seq<Byte> := [0x48, 0x65, 0x6C, 0x6C, 0x6F]
  const KEY: seq<Byte> := [0x37, 0xFA, 0x21, 0x3D]

  // The octets of "Hello", masked.
  lemma HelloMasked()
    ensures ApplyMask([0x7F, 0x9F, 0x4D, 0x51, 0x58], KEY) == HELLO
    ensures ApplyMask([0x7F, 0x9F, 0x4D], KEY) == HELLO[..3] && ApplyMask([0x5B, 0x95], KEY) == HELLO[3..]
  {
    MaskedOctets();
    hide XorByte;
  }

  lemma MaskedOctets()
    ensures XorByte(0x7F, 0x37) == 0x48 && XorByte(0x9F, 0xFA) == 0x65 && XorByte(0x4D, 0x21) == 0x6C
    ensures XorByte(0x51, 0x3D) == 0x6C && XorByte(0x58, 0x37) == 0x6F
    ensures XorByte(0x5B, 0x37) == 0x6C && XorByte(0x95, 0xFA) == 0x6F
  {
  }

  lemma ShortFrame(f: Frame)
    requires f.WellFormed() && f.form.Short?
    ensures Encode(f)
         == [(Bit(f.fin) * 128 + f.rsv * 16 + f.opcode) as Byte, (Bit(f.maskBit) * 128 + |f.payload|) as Byte]
            + (f.mask + f.payload)
  {
    assert ToBigEndian(|f.payload|, 0) == [];
    Neutral(f.mask + f.payload);
  }

  // A single-frame masked text message.
  lemma MaskedText(rest: seq<Byte>)
    ensures NextFrame([0x81, 0x85, 0x37, 0xFA, 0x21, 0x3D, 0x7F, 0x9F, 0x4D, 0x51, 0x58] + rest,
                      Begin(-1), Peer(false, 0))
         == Complete(Progress(1, [0x48, 0x65, 0x6C, 0x6C, 0x6F], [], -1, false), rest)
  {
    HelloMasked();
    hide ApplyMask;
    var f := Frame(true, 0, TXT, true, Short, KEY, [0x7F, 0x9F, 0x4D, 0x51, 0x58]);
    ShortFrame(f);
    assert Encode(f) == [0x81, 0x85, 0x37, 0xFA, 0x21, 0x3D, 0x7F, 0x9F, 0x4D, 0x51, 0x58];
    ScanEncode(f, rest);
    Neutral(HELLO);
  }

  lemma GoesOn(f: Frame, s: seq<Byte>, p: Progress, peer: Peer)
    requires f.WellFormed() && Admits(p, f, peer) && !Ends(f)
    ensures NextFrame(Encode(f) + s, p, peer) == NextFrame(s, Advance(p, f, peer), peer)
  {
    hide ApplyMask, Encode, PongSeen;
    ScanEncode(f, s);
  }

  // A fragmented text message, with a PING and a PONG between its fragments: the PONG echoes ping number 7.
  lemma FragmentedText(rest: seq<Byte>)
    ensures var ping := [0x89, 0x85, 0x37, 0xFA, 0x21, 0x3D, 0x7F, 0x9F, 0x4D, 0x51, 0x58];
            var pong := [0x8A, 0x84, 0x37, 0xFA, 0x21, 0x3D, 0x37, 0xFA, 0x21, 0x3A];
            NextFrame([0x01, 0x83, 0x37, 0xFA, 0x21, 0x3D, 0x7F, 0x9F, 0x4D]
                      + (ping + (pong + ([0x80, 0x82, 0x37, 0xFA, 0x21, 0x3D, 0x5B, 0x95] + rest))),
                      Begin(-1), Peer(false, 9))
            == Complete(Progress(1, [0x48, 0x65, 0x6C, 0x6C, 0x6F], [[0x48, 0x65, 0x6C, 0x6C, 0x6F]], 7, false), rest)
  {
    HelloMasked();
    SevenMasked();
    hide ApplyMask, NextFrame, PongSeen, Encode;
    var peer := Peer(false, 9);
    var first := Frame(false, 0, TXT, true, Short, KEY, [0x7F, 0x9F, 0x4D]);
    var ping := Frame(true, 0, PING, true, Short, KEY, [0x7F, 0x9F, 0x4D, 0x51, 0x58]);
    var pong := Frame(true, 0, PONG, true, Short, KEY, [0x37, 0xFA, 0x21, 0x3A]);
    var last := Frame(true, 0, CONT, true, Short, KEY, [0x5B, 0x95]);
    ShortFrame(first);
    ShortFrame(ping);
    ShortFrame(pong);
    ShortFrame(last);
    var (p1, p2, p3) := (Progress(TXT, HELLO[..3], [], -1, false), Progress(TXT, HELLO[..3], [HELLO], -1, false),
                         Progress(TXT, HELLO[..3], [HELLO], 7, false));
    assert Encode(first) == [0x01, 0x83, 0x37, 0xFA, 0x21, 0x3D, 0x7F, 0x9F, 0x4D];
    assert Encode(ping) == [0x89, 0x85, 0x37, 0xFA, 0x21, 0x3D, 0x7F, 0x9F, 0x4D, 0x51, 0x58];
    assert Encode(pong) == [0x8A, 0x84, 0x37, 0xFA, 0x21, 0x3D, 0x37, 0xFA, 0x21, 0x3A];
    assert Encode(last) == [0x80, 0x82, 0x37, 0xFA, 0x21, 0x3D, 0x5B, 0x95];
    var s4 := Encode(last) + rest;
    var s3 := Encode(pong) + s4;
    GoesOn(first, Encode(ping) + s3, Begin(-1), peer);
    GoesOn(ping, s3, p1, peer);
    GoesOn(pong, s4, p2, peer);
    assert [] + HELLO[..3] == HELLO[..3] && [] + [HELLO] == [HELLO];
    assert Advance(Begin(-1), first, peer) == p1 && Advance(p1, ping, peer) == p2 && Advance(p2, pong, peer) == p3;
    LastFragment(last, rest, p3, peer);
    assert HELLO[..3] + HELLO[3..] == HELLO;
  }

  lemma LastFragment(f: Frame, rest: seq<Byte>, p: Progress, peer: Peer)
    requires f.WellFormed() && Admits(p, f, peer) && IsData(f) && f.fin
    ensures NextFrame(Encode(f) + rest, p, peer) == Complete(Advance(p, f, peer), rest)
  {
    hide ApplyMask, Encode;
    ScanEncode(f, rest);
  }

  lemma SevenMasked()
    ensures ApplyMask([0x37, 0xFA, 0x21, 0x3A], KEY) == [0, 0, 0, 7] && PongSeen(-1, 9, [0, 0, 0, 7]) == 7
  {
    SevenOctets();
    FourNumbers();
    hide XorByte, BigEndian;
  }

  lemma SevenOctets()
    ensures XorByte(0x37, 0x37) == 0 && XorByte(0xFA, 0xFA) == 0 && XorByte(0x21, 0x21) == 0 && XorByte(0x3A, 0x3D) == 7
  {
  }

  lemma FourNumbers()
    ensures PongId([0, 0, 0, 7]) == 7
  {
    var o: seq<Byte> := [0, 0, 0, 7];
    assert o[..3][..2][..1] == [0] && o[..3][..2] == [0, 0] && o[..3] == [0, 0, 0];
    assert BigEndian([0 as Byte][..0]) == 0;
    assert BigEndian([0 as Byte]) == 0 && BigEndian([0 as Byte, 0]) == 0 && BigEndian([0 as Byte, 0, 0]) == 0;
  }

  // A CLOSE frame with two octets.
  lemma CloseFrame(rest: seq<Byte>)
    ensures NextFrame([0x88, 0x82, 0x37, 0xFA, 0x21, 0x3D, 0x7F, 0x9F] + rest, Begin(-1), Peer(true, 0))
         == Closed(Begin(-1), [0x48, 0x65], rest)
  {
    CodeMasked();
    hide ApplyMask;
    var f := Frame(true, 0, CLOSE, true, Short, KEY, [0x7F, 0x9F]);
    ShortFrame(f);
    assert Encode(f) == [0x88, 0x82, 0x37, 0xFA, 0x21, 0x3D, 0x7F, 0x9F];
    ScanEncode(f, rest);
  }

  lemma CodeMasked()
    ensures ApplyMask([0x7F, 0x9F], KEY) == [0x48, 0x65]
  {
    MaskedOctets();
    hide XorByte;
  }
}
