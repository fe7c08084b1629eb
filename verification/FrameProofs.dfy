// next_frame accepts exactly the streams that start with a legal sequence of frames, and returns
// what that sequence carries.
module FrameProofs {
  import opened Common
  import opened Octets
  import opened FrameSpec

  // ---------------------------------------------------------------- encoding and scanning

  lemma ScanTailOf(code: nat, length: nat, mask: seq<Byte>, payload: seq<Byte>, r: seq<Byte>)
    requires code < 128 && |mask| == 4 && |payload| == length
    requires if code == 126 then length < Pow256(2) else if code == 127 then length < Pow256(8) else length == code
    ensures var extra := ToBigEndian(length, ExtraOctets(code));
            ScanTail(code, extra + (mask + payload) + r) == Tail(length, mask, payload, r)
  {
    hide ToBigEndian, BigEndian;
    var n := ExtraOctets(code);
    var extra := ToBigEndian(length, n);
    var s := extra + (mask + payload) + r;
    assert s[..n] == extra;
    if n > 0 {
      BigEndianOf(length, n);
    }
    assert s[n..] == mask + payload + r;
    assert (mask + payload + r)[..4] == mask;
    assert (mask + payload + r)[4..4 + length] == payload;
    assert (mask + payload + r)[4 + length..] == r;
  }

  // Scanning inverts encoding, whatever follows.
  lemma ScanEncode(f: Frame, r: seq<Byte>)
    requires f.WellFormed()
    ensures ScanFrame(Encode(f) + r) == Scanned(f, r)
  {
    hide ToBigEndian, ScanTail;
    var s := Encode(f) + r;
    var body := ToBigEndian(|f.payload|, ExtraOctets(LengthCode(f))) + (f.mask + f.payload);
    assert s[2..] == body + r;
    HeaderDigits(f);
    ScanTailOf(LengthCode(f), |f.payload|, f.mask, f.payload, r);
  }

  lemma HeaderDigits(f: Frame)
    requires f.WellFormed()
    ensures var (a, b) := (Encode(f)[0], Encode(f)[1]);
            (a >= 128) == f.fin && a as nat / 16 % 8 == f.rsv && a as nat % 16 == f.opcode
            && (b >= 128) == f.maskBit && b as nat % 128 == LengthCode(f) && FormOf(LengthCode(f)) == f.form
  {
    hide ToBigEndian, Pow256;
  }

  lemma ScannedWellFormed(s: seq<Byte>)
    requires ScanFrame(s).Scanned?
    ensures var (f, code) := (ScanFrame(s).frame, s[1] as nat % 128);
            f.WellFormed() && LengthCode(f) == code && |f.payload| == Length(code, s[2..])
            && Encode(f)[0] == s[0] && Encode(f)[1] == s[1]
  {
    hide ToBigEndian, BigEndian;
    var code := s[1] as nat % 128;
    if ExtraOctets(code) > 0 {
      ToBigEndianOf(s[2..][..ExtraOctets(code)]);
    }
    FirstOctet(s[0]);
    FirstOctet(s[1]);
  }

  // An octet and its fields.
  lemma FirstOctet(o: Byte)
    ensures Bit(o >= 128) * 128 + o as nat / 16 % 8 * 16 + o as nat % 16 == o as nat
    ensures Bit(o >= 128) * 128 + o as nat % 128 == o as nat
  {
  }

  lemma TailPieces(code: nat, t: seq<Byte>)
    requires ScanTail(code, t).Tail?
    ensures var Tail(length, mask, payload, rest) := ScanTail(code, t);
            t == t[..ExtraOctets(code)] + (mask + payload) + rest && |rest| <= |t|
  {
    hide BigEndian;
    var n := ExtraOctets(code);
    var r, length := t[n..], Length(code, t);
    ThreePieces(r, 4, 4 + length);
    assert t == t[..n] + r;
    Associative(t[..n], r[..4] + r[4..4 + length], r[4 + length..]);
  }

  lemma ThreePieces(r: seq<Byte>, i: nat, j: nat)
    requires i <= j <= |r|
    ensures r == r[..i] + r[i..j] + r[j..]
  {
  }

  // Every frame scanned from a stream is the encoding of that frame.
  lemma EncodeScan(s: seq<Byte>)
    requires ScanFrame(s).Scanned?
    ensures var (f, r) := (ScanFrame(s).frame, ScanFrame(s).rest);
            f.WellFormed() && s == Encode(f) + r && |r| < |s|
  {
    hide ToBigEndian, Encode;
    ScannedWellFormed(s);
    var code, t := s[1] as nat % 128, s[2..];
    var (f, r) := (ScanFrame(s).frame, ScanFrame(s).rest);
    ExtensionMatches(code, t);
    TailPieces(code, t);
    var body := t[..ExtraOctets(code)] + (f.mask + f.payload);
    EncodedPieces(f, body);
    HeadAndTail(s);
    Associative([s[0], s[1]], body, r);
  }

  lemma HeadAndTail(s: seq<Byte>)
    requires |s| >= 2
    ensures s == [s[0], s[1]] + s[2..]
  {
  }

  lemma EncodedPieces(f: Frame, body: seq<Byte>)
    requires f.WellFormed() && body == ToBigEndian(|f.payload|, ExtraOctets(LengthCode(f))) + (f.mask + f.payload)
    ensures Encode(f) == [Encode(f)[0], Encode(f)[1]] + body
  {
  }

  lemma ExtensionMatches(code: nat, t: seq<Byte>)
    requires HasLength(code, t)
    ensures ToBigEndian(Length(code, t), ExtraOctets(code)) == t[..ExtraOctets(code)]
  {
    if ExtraOctets(code) == 0 {
      assert t[..0] == [];
    } else {
      ToBigEndianOf(t[..ExtraOctets(code)]);
    }
  }

  // ---------------------------------------------------------------- legal sequences, section 5.4

  predicate IsData(f: Frame) { !IsControl(f.opcode) }

  predicate Ends(f: Frame) { f.opcode == CLOSE || (IsData(f) && f.fin) }

  function DataLength(frames: seq<Frame>): nat
  {
    if |frames| == 0 then 0
    else
      DataLength(frames[..|frames| - 1])
      + (if IsData(frames[|frames| - 1]) then |frames[|frames| - 1].payload| else 0)
  }

  predicate DataBefore(frames: seq<Frame>, i: nat)
    requires i <= |frames|
  {
    exists j | 0 <= j < i :: IsData(frames[j])
  }

  // A legal continuation, when data frames have begun or not and size octets have been sent: no
  // reserved bits, known opcodes, control frames final and short, the first data frame TXT or BIN and
  // the others CONT, the size within the limit, one end and that in the last place; CLOSE frames only
  // when the client is closing already.
  predicate LegalAfter(frames: seq<Frame>, begun: bool, size: nat, closing: bool)
  {
    && |frames| > 0
    && (forall i | 0 <= i < |frames| ::
          && frames[i].WellFormed()
          && frames[i].rsv == 0
          && IsKnown(frames[i].opcode)
          && (closing ==> frames[i].opcode == CLOSE)
          && (IsControl(frames[i].opcode) ==> frames[i].fin && frames[i].form == Short)
          && (IsData(frames[i]) ==> (frames[i].opcode == CONT <==> begun || DataBefore(frames, i)))
          && (Ends(frames[i]) <==> i == |frames| - 1))
    && size + DataLength(frames) <= MAX_FRAME_LENGTH
  }

  predicate Legal(frames: seq<Frame>, closing: bool) { LegalAfter(frames, false, 0, closing) }

  // ---------------------------------------------------------------- what a sequence carries

  function Advance(p: Progress, f: Frame, peer: Peer): Progress
    requires |f.mask| == 4
  {
    if IsControl(f.opcode) then AfterControl(p, f.opcode, Plain(f), peer) else AfterData(p, f.opcode, Plain(f))
  }

  function Gather(frames: seq<Frame>, p: Progress, peer: Peer): Progress
    requires AllWellFormed(frames)
  {
    if |frames| == 0 then p else Gather(frames[1..], Advance(p, frames[0], peer), peer)
  }

  // The outcome of a sequence whose last frame ends it.
  function OutcomeOf(frames: seq<Frame>, p: Progress, peer: Peer, rest: seq<Byte>): Outcome
    requires |frames| > 0 && AllWellFormed(frames)
  {
    var last := frames[|frames| - 1];
    if last.opcode == CLOSE then Closed(Gather(frames, p, peer), Plain(last), rest)
    else Complete(Gather(frames, p, peer), rest)
  }

  // Legality from the middle of a sequence on.
  predicate LegalFrom(frames: seq<Frame>, begun: bool, size: nat, closing: bool)
    decreases |frames|
  {
    |frames| > 0 &&
    var f := frames[0];
    && f.WellFormed() && f.rsv == 0 && IsKnown(f.opcode)
    && (closing ==> f.opcode == CLOSE)
    && (IsControl(f.opcode) ==> f.fin && f.form == Short)
    && (IsData(f) ==> (f.opcode == CONT <==> begun) && size + |f.payload| <= MAX_FRAME_LENGTH)
    && if Ends(f) then |frames| == 1
       else LegalFrom(frames[1..], begun || IsData(f), if IsData(f) then size + |f.payload| else size, closing)
  }

  lemma {:induction false} LegalFromWellFormed(frames: seq<Frame>, begun: bool, size: nat, closing: bool)
    requires LegalFrom(frames, begun, size, closing)
    ensures AllWellFormed(frames)
    decreases |frames|
  {
    if !Ends(frames[0]) {
      LegalFromWellFormed(frames[1..], begun || IsData(frames[0]),
                          if IsData(frames[0]) then size + |frames[0].payload| else size, closing);
    }
  }

  // A legal sequence in front of anything is accepted, with its contents as the result.
  lemma {:induction false} LegalIsAccepted(frames: seq<Frame>, p: Progress, peer: Peer, rest: seq<Byte>)
    requires LegalFrom(frames, p.kind != 0, |p.data|, peer.closing)
    requires AllWellFormed(frames)
    ensures NextFrame(EncodeAll(frames) + rest, p, peer) == OutcomeOf(frames, p, peer, rest)
    decreases |frames|
  {
    hide Encode, ScanFrame, ApplyMask, PongSeen, NoLengthWraps;
    var f, more := frames[0], frames[1..];
    var tail := EncodeAll(more) + rest;
    assert EncodeAll(frames) + rest == Encode(f) + tail;
    ScanEncode(f, tail);
    var q := Advance(p, f, peer);
    if Ends(f) {
      assert tail == rest && frames == [f] && more == [];
      assert Gather(frames, p, peer) == Gather(more, q, peer) == q;
    } else {
      LegalIsAccepted(more, q, peer, rest);
    }
  }

  // The frames next_frame takes from a stream, up to the end of the sequence or the first refusal.
  function FramesTaken(s: seq<Byte>, p: Progress, peer: Peer): (frames: seq<Frame>)
    ensures AllWellFormed(frames)
    decreases |s|
  {
    match ScanFrame(s)
    case Truncated => []
    case Scanned(f, rest) =>
      ScannedWellFormed(s);
      if !Admits(p, f, peer) then []
      else if Ends(f) then [f]
      else [f] + FramesTaken(rest, Advance(p, f, peer), peer)
  }

  // An accepted stream starts with a legal sequence, and the result is what it carries.
  lemma {:induction false} AcceptedIsLegal(s: seq<Byte>, p: Progress, peer: Peer)
    requires !NextFrame(s, p, peer).Rejected?
    ensures var frames := FramesTaken(s, p, peer);
            && LegalFrom(frames, p.kind != 0, |p.data|, peer.closing)
            && AllWellFormed(frames)
            && s == EncodeAll(frames) + NextFrame(s, p, peer).rest
    decreases |s|
  {
    hide Encode, ScanFrame, ApplyMask;
    EncodeScan(s);
    var f, rest := ScanFrame(s).frame, ScanFrame(s).rest;
    var frames := FramesTaken(s, p, peer);
    if Ends(f) {
      assert frames == [f];
      assert EncodeAll([f]) == Encode(f) + EncodeAll([]);
    } else {
      AcceptedIsLegal(rest, Advance(p, f, peer), peer);
      assert frames[1..] == FramesTaken(rest, Advance(p, f, peer), peer);
      Associative(Encode(f), EncodeAll(frames[1..]), NextFrame(s, p, peer).rest);
    }
  }

  // ---------------------------------------------------------------- the two forms of legality

  lemma {:induction false} DataLengthCons(f: Frame, more: seq<Frame>)
    ensures DataLength([f] + more) == (if IsData(f) then |f.payload| else 0) + DataLength(more)
    decreases |more|
  {
    if |more| > 0 {
      var front := more[..|more| - 1];
      assert ([f] + more)[..|more|] == [f] + front;
      DataLengthCons(f, front);
    } else {
      assert ([f] + more)[..0] == [];
    }
  }

  lemma DataBeforeCons(frames: seq<Frame>, i: nat)
    requires 0 < i <= |frames|
    ensures DataBefore(frames, i) <==> IsData(frames[0]) || DataBefore(frames[1..], i - 1)
  {
    if DataBefore(frames, i) && !IsData(frames[0]) {
      var j :| 0 <= j < i && IsData(frames[j]);
      assert IsData(frames[1..][j - 1]);
    }
    if DataBefore(frames[1..], i - 1) {
      var j :| 0 <= j < i - 1 && IsData(frames[1..][j]);
      assert IsData(frames[j + 1]);
    }
  }

  lemma {:induction false} LegalFormsAgree(frames: seq<Frame>, begun: bool, size: nat, closing: bool)
    requires size <= MAX_FRAME_LENGTH
    ensures LegalFrom(frames, begun, size, closing) <==> LegalAfter(frames, begun, size, closing)
    decreases |frames|
  {
    hide LegalFrom, LegalAfter;
    if |frames| == 0 {
      NothingIsLegal(begun, size, closing);
    } else {
      var f, more := frames[0], frames[1..];
      var size' := if IsData(f) then size + |f.payload| else size;
      if size' <= MAX_FRAME_LENGTH {
        LegalFormsAgree(more, begun || IsData(f), size', closing);
      }
      if LegalFrom(frames, begun, size, closing) {
        FromToAfter(frames, begun, size, closing);
      }
      if LegalAfter(frames, begun, size, closing) {
        AfterToFrom(frames, begun, size, closing);
      }
    }
  }

  lemma NothingIsLegal(begun: bool, size: nat, closing: bool)
    ensures !LegalFrom([], begun, size, closing) && !LegalAfter([], begun, size, closing)
  {
  }

  lemma FromToAfter(frames: seq<Frame>, begun: bool, size: nat, closing: bool)
    requires size <= MAX_FRAME_LENGTH && LegalFrom(frames, begun, size, closing)
    requires var f, more := frames[0], frames[1..];
             var size' := if IsData(f) then size + |f.payload| else size;
             size' <= MAX_FRAME_LENGTH ==>
               (LegalFrom(more, begun || IsData(f), size', closing)
                <==> LegalAfter(more, begun || IsData(f), size', closing))
    ensures LegalAfter(frames, begun, size, closing)
  {
    var f, more := frames[0], frames[1..];
    assert frames == [f] + more;
    DataLengthCons(f, more);
    if Ends(f) {
      assert DataLength(more) == 0;
    }
    forall i | 0 <= i < |frames|
      ensures frames[i].WellFormed() && frames[i].rsv == 0 && IsKnown(frames[i].opcode)
      ensures closing ==> frames[i].opcode == CLOSE
      ensures IsControl(frames[i].opcode) ==> frames[i].fin && frames[i].form == Short
      ensures IsData(frames[i]) ==> (frames[i].opcode == CONT <==> begun || DataBefore(frames, i))
      ensures Ends(frames[i]) <==> i == |frames| - 1
    {
      if i > 0 {
        assert frames[i] == more[i - 1];
        DataBeforeCons(frames, i);
      }
    }
  }

  lemma AfterToFrom(frames: seq<Frame>, begun: bool, size: nat, closing: bool)
    requires size <= MAX_FRAME_LENGTH && LegalAfter(frames, begun, size, closing)
    requires var f, more := frames[0], frames[1..];
             var size' := if IsData(f) then size + |f.payload| else size;
             size' <= MAX_FRAME_LENGTH ==>
               (LegalFrom(more, begun || IsData(f), size', closing)
                <==> LegalAfter(more, begun || IsData(f), size', closing))
    ensures LegalFrom(frames, begun, size, closing)
  {
    var f, more := frames[0], frames[1..];
    assert frames == [f] + more;
    DataLengthCons(f, more);
    if !Ends(f) {
      assert !closing;
      var size' := if IsData(f) then size + |f.payload| else size;
      forall i | 0 <= i < |more|
        ensures more[i].WellFormed() && more[i].rsv == 0 && IsKnown(more[i].opcode)
        ensures IsControl(more[i].opcode) ==> more[i].fin && more[i].form == Short
        ensures IsData(more[i]) ==> (more[i].opcode == CONT <==> begun || IsData(f) || DataBefore(more, i))
        ensures Ends(more[i]) <==> i == |more| - 1
      {
        assert more[i] == frames[i + 1];
        DataBeforeCons(frames, i + 1);
      }
      assert LegalAfter(more, begun || IsData(f), size', closing);
    }
  }

  // ---------------------------------------------------------------- main theorems

  function Begin(lastPong: int): Progress
  {
    Progress(0, [], [], lastPong, false)
  }

  // next_frame accepts a stream exactly when it starts with a legal sequence of frames.
  lemma AcceptedExactlyWhenLegal(s: seq<Byte>, lastPong: int, peer: Peer)
    ensures !NextFrame(s, Begin(lastPong), peer).Rejected?
       <==> exists frames: seq<Frame>, rest: seq<Byte> ::
              Legal(frames, peer.closing) && AllWellFormed(frames) && s == EncodeAll(frames) + rest
  {
    var p := Begin(lastPong);
    if !NextFrame(s, p, peer).Rejected? {
      AcceptedIsLegal(s, p, peer);
      var frames := FramesTaken(s, p, peer);
      LegalFormsAgree(frames, false, 0, peer.closing);
      assert Legal(frames, peer.closing);
    }
    forall frames: seq<Frame>, rest: seq<Byte> |
      Legal(frames, peer.closing) && AllWellFormed(frames) && s == EncodeAll(frames) + rest
      ensures !NextFrame(s, p, peer).Rejected?
    {
      LegalFormsAgree(frames, false, 0, peer.closing);
      LegalIsAccepted(frames, p, peer, rest);
    }
  }

  // The unmasked data, in order, and the answers to pings.

  function DataOf(frames: seq<Frame>): seq<Byte>
    requires AllWellFormed(frames)
  {
    if |frames| == 0 then [] else (if IsData(frames[0]) then Plain(frames[0]) else []) + DataOf(frames[1..])
  }

  function PingsOf(frames: seq<Frame>): seq<seq<Byte>>
    requires AllWellFormed(frames)
  {
    if |frames| == 0 then [] else (if frames[0].opcode == PING then [Plain(frames[0])] else []) + PingsOf(frames[1..])
  }

  function KindOf(frames: seq<Frame>): nat
  {
    if |frames| == 0 then 0
    else if IsData(frames[0]) && frames[0].opcode != CONT then frames[0].opcode else KindOf(frames[1..])
  }

  // The terminator behind a control payload leaves the buffer exactly for 125 octets.
  predicate Overruns(frames: seq<Frame>)
  {
    exists i | 0 <= i < |frames| :: IsControl(frames[i].opcode) && |frames[i].payload| >= PAYLOAD_ROOM
  }

  lemma OverrunsCons(frames: seq<Frame>)
    requires |frames| > 0
    ensures Overruns(frames)
            <==> (IsControl(frames[0].opcode) && |frames[0].payload| >= PAYLOAD_ROOM) || Overruns(frames[1..])
  {
    if Overruns(frames[1..]) {
      var i :| 0 <= i < |frames[1..]| && IsControl(frames[1..][i].opcode) && |frames[1..][i].payload| >= PAYLOAD_ROOM;
      assert frames[i + 1] == frames[1..][i];
    }
  }

  lemma AdvanceAdds(p: Progress, f: Frame, peer: Peer)
    requires |f.mask| == 4
    ensures Advance(p, f, peer).data == p.data + (if IsData(f) then Plain(f) else [])
    ensures Advance(p, f, peer).pongs == p.pongs + (if f.opcode == PING then [Plain(f)] else [])
  {
    hide ApplyMask, PongSeen;
    Neutral(p.data);
    Neutral(p.pongs);
  }

  lemma {:induction false} GatherData(frames: seq<Frame>, p: Progress, peer: Peer)
    requires AllWellFormed(frames)
    ensures Gather(frames, p, peer).data == p.data + DataOf(frames)
    decreases |frames|
  {
    hide ApplyMask, PongSeen, Advance;
    if |frames| == 0 {
      Neutral(p.data);
    } else {
      var q := Advance(p, frames[0], peer);
      AdvanceAdds(p, frames[0], peer);
      GatherData(frames[1..], q, peer);
      Associative(p.data, if IsData(frames[0]) then Plain(frames[0]) else [], DataOf(frames[1..]));
    }
  }

  lemma {:induction false} GatherPongs(frames: seq<Frame>, p: Progress, peer: Peer)
    requires AllWellFormed(frames)
    ensures Gather(frames, p, peer).pongs == p.pongs + PingsOf(frames)
    decreases |frames|
  {
    hide ApplyMask, PongSeen, Advance;
    if |frames| == 0 {
      Neutral(p.pongs);
    } else {
      var q := Advance(p, frames[0], peer);
      AdvanceAdds(p, frames[0], peer);
      GatherPongs(frames[1..], q, peer);
      Associative(p.pongs, if frames[0].opcode == PING then [Plain(frames[0])] else [], PingsOf(frames[1..]));
    }
  }

  lemma {:induction false} GatherOverruns(frames: seq<Frame>, p: Progress, peer: Peer)
    requires AllWellFormed(frames)
    ensures Gather(frames, p, peer).overrun <==> p.overrun || Overruns(frames)
    decreases |frames|
  {
    hide ApplyMask, PongSeen;
    if |frames| > 0 {
      GatherOverruns(frames[1..], Advance(p, frames[0], peer), peer);
      OverrunsCons(frames);
    }
  }

  lemma GatherCollects(frames: seq<Frame>, p: Progress, peer: Peer)
    requires AllWellFormed(frames)
    ensures Gather(frames, p, peer).data == p.data + DataOf(frames)
    ensures Gather(frames, p, peer).pongs == p.pongs + PingsOf(frames)
    ensures Gather(frames, p, peer).overrun <==> p.overrun || Overruns(frames)
  {
    hide *;
    GatherData(frames, p, peer);
    GatherPongs(frames, p, peer);
    GatherOverruns(frames, p, peer);
  }

  lemma {:induction false} GatherKind(frames: seq<Frame>, p: Progress, peer: Peer)
    requires LegalFrom(frames, p.kind != 0, |p.data|, peer.closing)
    requires AllWellFormed(frames)
    ensures Gather(frames, p, peer).kind == if p.kind != 0 then p.kind else KindOf(frames)
    decreases |frames|
  {
    hide ApplyMask;
    var f, more := frames[0], frames[1..];
    var q := Advance(p, f, peer);
    if Ends(f) {
      assert more == [];
    } else {
      GatherKind(more, q, peer);
    }
  }

  // Reassembly. For every legal sequence of frames that a final data frame ends, with control frames
  // anywhere between the fragments and whatever follows in the stream: the message is the unmasked
  // concatenation of the fragments, its type is the first opcode, and every PING is answered with its
  // own payload, in order.
  lemma {:induction false} MessageIsReassembled(frames: seq<Frame>, lastPong: int, peer: Peer, rest: seq<Byte>)
    requires Legal(frames, peer.closing) && AllWellFormed(frames)
    requires frames[|frames| - 1].opcode != CLOSE
    ensures var outcome := NextFrame(EncodeAll(frames) + rest, Begin(lastPong), peer);
            && outcome.Complete?
            && outcome.rest == rest
            && outcome.done.data == DataOf(frames)
            && outcome.done.kind == KindOf(frames)
            && outcome.done.pongs == PingsOf(frames)
            && (outcome.done.overrun <==> Overruns(frames))
  {
    hide NextFrame, EncodeAll, LegalFrom, LegalAfter, Gather, DataOf, PingsOf, KindOf, Overruns, Plain;
    var p := Begin(lastPong);
    LegalFormsAgree(frames, false, 0, peer.closing);
    LegalIsAccepted(frames, p, peer, rest);
    GatherCollects(frames, p, peer);
    GatherKind(frames, p, peer);
    assert [] + DataOf(frames) == DataOf(frames) && [] + PingsOf(frames) == PingsOf(frames);
  }

  // A CLOSE frame ends the sequence at any point and yields its own payload, not the data so far.
  lemma {:induction false} CloseInterrupts(frames: seq<Frame>, lastPong: int, peer: Peer, rest: seq<Byte>)
    requires Legal(frames, peer.closing) && AllWellFormed(frames)
    requires frames[|frames| - 1].opcode == CLOSE
    ensures var outcome := NextFrame(EncodeAll(frames) + rest, Begin(lastPong), peer);
            && outcome.Closed? && outcome.rest == rest && outcome.reason == Plain(frames[|frames| - 1])
            && outcome.done == Gather(frames, Begin(lastPong), peer)
            && outcome.done.pongs == PingsOf(frames)
            && (outcome.done.overrun <==> Overruns(frames))
  {
    var p := Begin(lastPong);
    LegalFormsAgree(frames, false, 0, peer.closing);
    LegalIsAccepted(frames, p, peer, rest);
    GatherCollects(frames, p, peer);
    Neutral(PingsOf(frames));
  }

  // ---------------------------------------------------------------- every stream

  lemma {:induction false} DoneIsGathered(s: seq<Byte>, p: Progress, peer: Peer)
    ensures NextFrame(s, p, peer).done == Gather(FramesTaken(s, p, peer), p, peer)
    decreases |s|
  {
    hide ApplyMask, PongSeen, Encode;
    match ScanFrame(s) {
      case Truncated =>
      case Scanned(f, rest) =>
        ScannedWellFormed(s);
        if Admits(p, f, peer) {
          var q := Advance(p, f, peer);
          if Ends(f) {
            assert [f][1..] == [] && Gather([f], p, peer) == Gather([], q, peer);
          } else {
            EncodeScan(s);
            DoneIsGathered(rest, q, peer);
            assert FramesTaken(s, p, peer)[1..] == FramesTaken(rest, q, peer);
          }
        }
    }
  }

  // Whatever a stream holds, and however it ends: what has been gathered, answered and overrun by then
  // comes from the frames taken. The terminator leaves the control payload exactly for 125 octets.
  lemma EveryStreamIsGathered(s: seq<Byte>, p: Progress, peer: Peer)
    ensures var (done, frames) := (NextFrame(s, p, peer).done, FramesTaken(s, p, peer));
            && done.data == p.data + DataOf(frames)
            && done.pongs == p.pongs + PingsOf(frames)
            && (done.overrun <==> p.overrun || Overruns(frames))
  {
    DoneIsGathered(s, p, peer);
    GatherCollects(FramesTaken(s, p, peer), p, peer);
  }

  // A CLOSE with the longest payload overruns, and so does a PING in front of a refused frame.
  lemma LongestPayloadOverruns(f: Frame, rest: seq<Byte>, peer: Peer)
    requires f.WellFormed() && f.fin && f.rsv == 0 && f.form == Short && |f.payload| == 125
    requires f.opcode == CLOSE || (f.opcode == PING && !peer.closing)
    ensures var outcome := NextFrame(Encode(f) + rest, Begin(-1), peer);
            && outcome.done.overrun && (f.opcode == CLOSE ==> outcome.Closed?)
            && (rest == [] && f.opcode == PING ==> outcome.Rejected?)
  {
    hide Encode, ApplyMask;
    ScanEncode(f, rest);
    EveryStreamIsGathered(Encode(f) + rest, Begin(-1), peer);
    assert FramesTaken(Encode(f) + rest, Begin(-1), peer)[0] == f;
  }

  // A client that echoes a ping has that ping recorded, whatever frames surround its PONG.

  lemma PongOfPing(id: int)
    requires IsInt32(id)
    ensures PongId(PingMessage(id)) == id
  {
    PowersOf256(4);
    BigEndianOf(if id < 0 then id + 0x1_0000_0000 else id, 4);
  }

  // A PONG of four octets that carries the number of a ping that was sent.
  predicate Echoes(f: Frame, peer: Peer)
    requires |f.mask| == 4
  {
    f.opcode == PONG && |f.payload| == 4 && 0 <= PongId(Plain(f)) <= peer.currentPing
  }

  predicate LastEchoAt(frames: seq<Frame>, i: nat, peer: Peer)
    requires AllWellFormed(frames)
  {
    i < |frames| && Echoes(frames[i], peer) && forall j | i < j < |frames| :: !Echoes(frames[j], peer)
  }

  lemma {:induction false} GatherLastEcho(frames: seq<Frame>, p: Progress, peer: Peer, i: nat)
    requires AllWellFormed(frames) && LastEchoAt(frames, i, peer)
    ensures Gather(frames, p, peer).lastPong == PongId(Plain(frames[i]))
    decreases i
  {
    hide ApplyMask, BigEndian, PongId;
    var q := Advance(p, frames[0], peer);
    if i > 0 {
      GatherLastEcho(frames[1..], q, peer, i - 1);
    } else {
      NoEchoGathered(frames[1..], q, peer);
    }
  }

  lemma {:induction false} NoEchoGathered(frames: seq<Frame>, p: Progress, peer: Peer)
    requires AllWellFormed(frames) && forall j | 0 <= j < |frames| :: !Echoes(frames[j], peer)
    ensures Gather(frames, p, peer).lastPong == p.lastPong
    decreases |frames|
  {
    hide ApplyMask, BigEndian, PongId;
    if |frames| > 0 {
      NoEchoGathered(frames[1..], Advance(p, frames[0], peer), peer);
    }
  }

  // Whatever a stream holds: the number recorded is that of the last frame taken that echoes a ping, and
  // the one before if there is none.
  lemma LastEchoIsRecorded(s: seq<Byte>, p: Progress, peer: Peer)
    ensures var (done, frames) := (NextFrame(s, p, peer).done, FramesTaken(s, p, peer));
            && (forall i: nat | LastEchoAt(frames, i, peer) :: done.lastPong == PongId(Plain(frames[i])))
            && ((forall j | 0 <= j < |frames| :: !Echoes(frames[j], peer)) ==> done.lastPong == p.lastPong)
  {
    hide NextFrame, FramesTaken, Gather, ApplyMask, PongId;
    DoneIsGathered(s, p, peer);
    var frames := FramesTaken(s, p, peer);
    forall i: nat | LastEchoAt(frames, i, peer)
      ensures Gather(frames, p, peer).lastPong == PongId(Plain(frames[i]))
    {
      GatherLastEcho(frames, p, peer, i);
    }
    if forall j | 0 <= j < |frames| :: !Echoes(frames[j], peer) {
      NoEchoGathered(frames, p, peer);
    }
  }

  lemma {:induction false} EchoedPingIsRecorded(
    frames: seq<Frame>, i: nat, id: int, lastPong: int, peer: Peer, rest: seq<Byte>)
    requires Legal(frames, peer.closing) && AllWellFormed(frames) && LastEchoAt(frames, i, peer)
    requires IsInt32(id) && 0 <= id <= peer.currentPing && Plain(frames[i]) == PingMessage(id)
    ensures var outcome := NextFrame(EncodeAll(frames) + rest, Begin(lastPong), peer);
            !outcome.Rejected? && outcome.done.lastPong == id
  {
    var p := Begin(lastPong);
    LegalFormsAgree(frames, false, 0, peer.closing);
    LegalIsAccepted(frames, p, peer, rest);
    PongOfPing(id);
    GatherLastEcho(frames, p, peer, i);
  }

  // A client that masks its fragments gets exactly the fragments through.

  function Masked(fin: bool, opcode: nat, data: seq<Byte>, mask: seq<Byte>): Frame
    requires |mask| == 4
  {
    Frame(fin, 0, opcode, true, if |data| <= 125 then Short else if |data| < Pow256(2) then Medium else Long,
          mask, ApplyMask(data, mask))
  }

  lemma MaskedIsTransparent(fin: bool, opcode: nat, data: seq<Byte>, mask: seq<Byte>)
    requires |mask| == 4 && opcode < 16 && |data| < Pow256(8)
    ensures Masked(fin, opcode, data, mask).WellFormed() && Plain(Masked(fin, opcode, data, mask)) == data
  {
    MaskTwice(data, mask);
  }

  // Section 5.1 wants unmasked client frames refused; the mask bit is not looked at.

  function WithMaskBits(frames: seq<Frame>, bits: seq<bool>): (r: seq<Frame>)
    requires |bits| == |frames|
    ensures |r| == |frames| && forall i | 0 <= i < |r| :: r[i] == frames[i].(maskBit := bits[i])
  {
    seq(|frames|, i requires 0 <= i < |frames| => frames[i].(maskBit := bits[i]))
  }

  // Equal but for what is left of the stream.
  predicate Alike(a: Outcome, b: Outcome)
  {
    match a
    case Complete(done, _) => b.Complete? && b.done == done
    case Closed(done, reason, _) => b.Closed? && b.done == done && b.reason == reason
    case Rejected(done) => b == a
  }

  // Changing mask bits changes nothing about what next_frame returns, answers and records, and nothing
  // about the rest of the stream unless the sequence ends before the changed frames do.
  lemma {:induction false} MaskBitIsIgnored(
    frames: seq<Frame>, bits: seq<bool>, p: Progress, peer: Peer, rest: seq<Byte>)
    requires |bits| == |frames| && AllWellFormed(frames)
    ensures AllWellFormed(WithMaskBits(frames, bits))
    ensures var a := NextFrame(EncodeAll(frames) + rest, p, peer);
            var b := NextFrame(EncodeAll(WithMaskBits(frames, bits)) + rest, p, peer);
            Alike(a, b) && ((forall i | 0 <= i < |frames| - 1 :: !Ends(frames[i])) ==> a == b)
    decreases |frames|
  {
    hide Encode, ScanFrame, ApplyMask, PongSeen;
    if |frames| > 0 {
      var other := WithMaskBits(frames, bits);
      var f, g := frames[0], other[0];
      assert other[1..] == WithMaskBits(frames[1..], bits[1..]);
      var q := Advance(p, f, peer);
      MaskBitIsIgnored(frames[1..], bits[1..], q, peer, rest);
      var s, t := EncodeAll(frames[1..]) + rest, EncodeAll(other[1..]) + rest;
      Associative(Encode(f), EncodeAll(frames[1..]), rest);
      Associative(Encode(g), EncodeAll(other[1..]), rest);
      ScanEncode(f, s);
      ScanEncode(g, t);
    }
  }

  lemma PlainKey()
    ensures ApplyMask([0x41], [0, 0, 0, 0]) == [0x41]
  {
    Power2Of8();
    XorBitsZero(0x41, 8);
    assert XorByte(0x41, 0) == 0x41;
  }

  // An unmasked text frame of one octet, accepted; the four octets after its length are the key.
  lemma UnmaskedFrameIsAccepted(rest: seq<Byte>)
    ensures NextFrame([0x81, 0x01, 0, 0, 0, 0, 0x41] + rest, Begin(-1), Peer(false, 0))
         == Complete(Progress(TXT, [0x41], [], -1, false), rest)
  {
    PlainKey();
    hide ApplyMask;
    var f := Frame(true, 0, TXT, false, Short, [0, 0, 0, 0], [0x41]);
    assert ToBigEndian(1, 0) == [];
    assert Encode(f) == [0x81, 0x01, 0, 0, 0, 0, 0x41];
    ScanEncode(f, rest);
    Neutral(Plain(f));
  }

  // ---------------------------------------------------------------- frames the server sends

  lemma ServerLengthForm(size: nat)
    requires size < Pow256(8)
    ensures var code: nat := if size <= 125 then size else if size < 0x1_0000 then 126 else 127;
            ServerLength(size) == [code as Byte] + ToBigEndian(size, ExtraOctets(code))
            && (ExtraOctets(code) > 0 ==> BigEndian(ToBigEndian(size, ExtraOctets(code))) == size)
  {
    PowersOf256(8);
    if size > 125 {
      BigEndianOf(size, if size < 0x1_0000 then 2 else 8);
    }
  }

  lemma HeadCut(a: Byte, b: Byte, extra: seq<Byte>, data: seq<Byte>, rest: seq<Byte>)
    ensures var s := [a] + ([b] + extra) + data + rest;
            |s| >= 2 && s[0] == a && s[1] == b && s[2..] == extra + (data + rest)
  {
  }

  lemma Cut(x: seq<Byte>, y: seq<Byte>)
    ensures (x + y)[..|x|] == x && (x + y)[|x|..] == y
  {
  }

  // Every frame the server sends decodes to its opcode and data, final, and its length is written
  // in the shortest form.
  lemma ServerFrameDecodes(opcode: nat, data: seq<Byte>, rest: seq<Byte>)
    requires opcode < 16 && |data| < Pow256(8)
    ensures ScanUnmasked(ServerFrame(opcode, data) + rest)
         == Unmasked(true, opcode, if |data| <= 125 then Short else if |data| < 0x1_0000 then Medium else Long,
                     data, rest)
  {
    hide ToBigEndian, BigEndian, ServerLength, Pow256, Length, HasLength;
    var code: nat := if |data| <= 125 then |data| else if |data| < 0x1_0000 then 126 else 127;
    var extra := ToBigEndian(|data|, ExtraOctets(code));
    ServerLengthForm(|data|);
    HeadCut((128 + opcode) as Byte, code as Byte, extra, data, rest);
    Cut(extra, data + rest);
    LengthRead(code, extra + (data + rest), extra, |data|);
    Cut(data, rest);
  }

  lemma LengthRead(code: nat, s: seq<Byte>, extra: seq<Byte>, size: nat)
    requires |extra| == ExtraOctets(code) <= |s| && s[..|extra|] == extra
    requires if ExtraOctets(code) == 0 then code == size else BigEndian(extra) == size
    ensures HasLength(code, s) && Length(code, s) == size
  {
    hide BigEndian;
  }
}
