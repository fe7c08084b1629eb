// WebSocket frames (section 5 of RFC 6455): their octets, which sequences of frames a message may
// consist of, and the function of the octet stream that next_frame computes.
module FrameSpec {
  import opened Octets

  // ---------------------------------------------------------------- one frame, section 5.2

  // How the payload length is written: in seven bits, or behind 126 or 127 in two or eight octets.
  datatype LengthForm = Short | Medium | Long

  datatype Frame = Frame(
    fin: bool, rsv: nat, opcode: nat, maskBit: bool, form: LengthForm, mask: seq<Byte>, payload: seq<Byte>)
  {
    predicate WellFormed()
    {
      rsv < 8 && opcode < 16 && |mask| == 4
      && match form
         case Short => |payload| <= 125
         case Medium => |payload| < Pow256(2)
         case Long => |payload| < Pow256(8)
    }
  }

  const CONT: nat := 0
  const TXT: nat := 1
  const BIN: nat := 2
  const CLOSE: nat := 8
  const PING: nat := 9
  const PONG: nat := 10

  const MAX_FRAME_LENGTH: nat := 16 * 1024 * 1024

  // The control payload buffer of the source.
  const PAYLOAD_ROOM: nat := 125

  predicate IsControl(opcode: nat) { opcode == CLOSE || opcode == PING || opcode == PONG }

  predicate IsKnown(opcode: nat) { IsControl(opcode) || opcode == CONT || opcode == TXT || opcode == BIN }

  function ExtraOctets(code: nat): nat
  {
    if code == 126 then 2 else if code == 127 then 8 else 0
  }

  function LengthCode(f: Frame): nat
  {
    match f.form
    case Short => |f.payload|
    case Medium => 126
    case Long => 127
  }

  function Bit(b: bool): nat { if b then 1 else 0 }

  function Encode(f: Frame): seq<Byte>
    requires f.WellFormed()
  {
    [(Bit(f.fin) * 128 + f.rsv * 16 + f.opcode) as Byte, (Bit(f.maskBit) * 128 + LengthCode(f)) as Byte]
    + (ToBigEndian(|f.payload|, ExtraOctets(LengthCode(f))) + (f.mask + f.payload))
  }

  predicate AllWellFormed(frames: seq<Frame>)
  {
    forall i | 0 <= i < |frames| :: frames[i].WellFormed()
  }

  function EncodeAll(frames: seq<Frame>): seq<Byte>
    requires AllWellFormed(frames)
  {
    if |frames| == 0 then [] else Encode(frames[0]) + EncodeAll(frames[1..])
  }

  // What follows the first two octets: extended length, mask and payload.
  datatype Tail = NoTail | Tail(length: nat, mask: seq<Byte>, payload: seq<Byte>, rest: seq<Byte>)

  predicate HasLength(code: nat, s: seq<Byte>) { ExtraOctets(code) <= |s| }

  function Length(code: nat, s: seq<Byte>): nat
    requires HasLength(code, s)
  {
    if ExtraOctets(code) == 0 then code else BigEndian(s[..ExtraOctets(code)])
  }

  function ScanTail(code: nat, s: seq<Byte>): Tail
  {
    if !HasLength(code, s) then NoTail
    else
      var r := s[ExtraOctets(code)..];
      var length := Length(code, s);
      if |r| < 4 + length then NoTail else Tail(length, r[..4], r[4..4 + length], r[4 + length..])
  }

  datatype Scan = Truncated | Scanned(frame: Frame, rest: seq<Byte>)

  function FormOf(code: nat): LengthForm
  {
    if code == 126 then Medium else if code == 127 then Long else Short
  }

  function ScanFrame(s: seq<Byte>): Scan
  {
    if |s| < 2 then Truncated
    else
      var code := s[1] as nat % 128;
      match ScanTail(code, s[2..])
      case NoTail => Truncated
      case Tail(length, mask, payload, rest) =>
        Scanned(Frame(s[0] >= 128, s[0] as nat / 16 % 8, s[0] as nat % 16, s[1] >= 128, FormOf(code), mask, payload),
                rest)
  }

  // ---------------------------------------------------------------- masking, section 5.3

  // Masking and unmasking are the same operation.
  function ApplyMask(data: seq<Byte>, mask: seq<Byte>): (r: seq<Byte>)
    requires |mask| == 4
    ensures |r| == |data|
  {
    seq(|data|, i requires 0 <= i < |data| => XorByte(data[i], mask[i % 4]))
  }

  lemma MaskTwice(data: seq<Byte>, mask: seq<Byte>)
    requires |mask| == 4
    ensures ApplyMask(ApplyMask(data, mask), mask) == data
  {
    forall i | 0 <= i < |data|
      ensures ApplyMask(ApplyMask(data, mask), mask)[i] == data[i]
    {
      XorTwice(data[i], mask[i % 4]);
    }
  }

  function Plain(f: Frame): (r: seq<Byte>)
    requires |f.mask| == 4
    ensures |r| == |f.payload|
  {
    ApplyMask(f.payload, f.mask)
  }

  // ---------------------------------------------------------------- ping and pong

  function PongId(data: seq<Byte>): int
    requires |data| == 4
  {
    var n := BigEndian(data);
    if n < 0x8000_0000 then n else n - 0x1_0000_0000
  }

  predicate IsInt32(n: int) { -0x8000_0000 <= n < 0x8000_0000 }

  // The payload of the ping with number id.
  function PingMessage(id: int): (data: seq<Byte>)
    requires IsInt32(id)
    ensures |data| == 4
  {
    ToBigEndian(if id < 0 then id + 0x1_0000_0000 else id, 4)
  }

  // A PONG counts when it carries the number of a ping that was sent.
  function PongSeen(last: int, current: int, data: seq<Byte>): int
  {
    if |data| == 4 && 0 <= PongId(data) <= current then PongId(data) else last
  }

  // ---------------------------------------------------------------- next_frame

  // What the loop of next_frame has gathered. kind is 0 until the first data frame.
  datatype Progress = Progress(
    kind: nat, data: seq<Byte>, pongs: seq<seq<Byte>>, lastPong: int, overrun: bool)

  // The client: whether it is closing, and the number of the last ping sent to it.
  datatype Peer = Peer(closing: bool, currentPing: int)

  datatype Outcome =
    | Complete(done: Progress, rest: seq<Byte>)
    | Closed(done: Progress, reason: seq<Byte>, rest: seq<Byte>)
    | Rejected(done: Progress)

  // content is the unmasked payload.
  function AfterControl(p: Progress, opcode: nat, content: seq<Byte>, peer: Peer): Progress
  {
    p.(pongs := if opcode == PING then p.pongs + [content] else p.pongs,
       lastPong := if opcode == PONG then PongSeen(p.lastPong, peer.currentPing, content) else p.lastPong,
       overrun := p.overrun || |content| >= PAYLOAD_ROOM)
  }

  function AfterData(p: Progress, opcode: nat, content: seq<Byte>): Progress
  {
    p.(kind := if opcode == CONT then p.kind else opcode, data := p.data + content)
  }

  // The checks of next_frame on a single frame.
  predicate Admits(p: Progress, f: Frame, peer: Peer)
  {
    && f.rsv == 0
    && !(p.kind == 0 && f.opcode == CONT)
    && !(p.kind != 0 && !IsControl(f.opcode) && f.opcode != CONT)
    && IsKnown(f.opcode)
    && (peer.closing ==> f.opcode == CLOSE)
    && (IsControl(f.opcode) ==> f.fin && f.form == Short)
    && (!IsControl(f.opcode) ==> |p.data| + |f.payload| <= MAX_FRAME_LENGTH)
  }

  function NextFrame(s: seq<Byte>, p: Progress, peer: Peer): Outcome
    decreases |s|
  {
    match ScanFrame(s)
    case Truncated => Rejected(p)
    case Scanned(f, rest) =>
      if !Admits(p, f, peer) then Rejected(p)
      else if IsControl(f.opcode) then
        var q := AfterControl(p, f.opcode, Plain(f), peer);
        if f.opcode == CLOSE then Closed(q, Plain(f), rest) else NextFrame(rest, q, peer)
      else
        var q := AfterData(p, f.opcode, Plain(f));
        if f.fin then Complete(q, rest) else NextFrame(rest, q, peer)
  }

  // No length is so large that adding it to the size of a message wraps a 64-bit word. Every stream is
  // such a one that obeys section 5.2, by which the most significant bit of a 64-bit length is zero.
  predicate NoLengthWraps(s: seq<Byte>)
    decreases |s|
  {
    |s| < 2 ||
    var code := s[1] as nat % 128;
    && (HasLength(code, s[2..]) ==> LengthFits(Length(code, s[2..])))
    && match ScanFrame(s)
       case Truncated => true
       case Scanned(_, rest) => NoLengthWraps(rest)
  }

  predicate LengthFits(length: nat) { MAX_FRAME_LENGTH + length < 0x1_0000_0000_0000_0000 }

  // ---------------------------------------------------------------- frames the server sends

  // The length field of a frame from the server: the shortest form.
  function ServerLength(size: nat): seq<Byte>
  {
    if size <= 125 then [size as Byte]
    else if size < Pow256(2) then [126 as Byte] + ToBigEndian(size, 2)
    else [127 as Byte] + ToBigEndian(size, 8)
  }

  // ws_sendframe: final and unmasked.
  function ServerFrame(opcode: nat, data: seq<Byte>): seq<Byte>
    requires opcode < 16
  {
    [(128 + opcode) as Byte] + ServerLength(|data|) + data
  }

  datatype Unmasked = Garbled | Unmasked(fin: bool, opcode: nat, form: LengthForm, data: seq<Byte>, rest: seq<Byte>)

  // What a client reads: a frame without mask.
  function ScanUnmasked(s: seq<Byte>): Unmasked
  {
    if |s| < 2 || s[1] >= 128 || !HasLength(s[1] as nat, s[2..]) then Garbled
    else
      var code := s[1] as nat;
      var r, length := s[2..][ExtraOctets(code)..], Length(code, s[2..]);
      if |r| < length then Garbled
      else Unmasked(s[0] >= 128, s[0] as nat % 16, FormOf(code), r[..length], r[length..])
  }
}
