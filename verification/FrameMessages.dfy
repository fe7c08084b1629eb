// From a client to the server: a message cut into fragments, each masked with a key of its own, with
// pings and pongs between them.
module FrameMessages {
  import opened Octets
  import opened FrameSpec
  import opened FrameProofs

  datatype Part =
    | Fragment(data: seq<Byte>, mask: seq<Byte>)
    | Ping(data: seq<Byte>, mask: seq<Byte>)
    | Pong(data: seq<Byte>, mask: seq<Byte>)

  // Keys have four octets, pings and pongs are short, and the last part is a fragment.
  predicate Sound(parts: seq<Part>)
  {
    && |parts| > 0 && parts[|parts| - 1].Fragment?
    && (forall i | 0 <= i < |parts| :: |parts[i].mask| == 4 && (!parts[i].Fragment? ==> |parts[i].data| <= 125))
    && |MessageOf(parts)| <= MAX_FRAME_LENGTH
  }

  function MessageOf(parts: seq<Part>): seq<Byte>
  {
    if parts == [] then [] else (if parts[0].Fragment? then parts[0].data else []) + MessageOf(parts[1..])
  }

  function PingsIn(parts: seq<Part>): seq<seq<Byte>>
  {
    if parts == [] then [] else (if parts[0].Ping? then [parts[0].data] else []) + PingsIn(parts[1..])
  }

  // The first fragment carries the kind of the message, the last one is final.
  function FrameOf(part: Part, kind: nat, begun: bool, last: bool): Frame
    requires |part.mask| == 4
  {
    match part
    case Fragment(data, mask) => Masked(last, if begun then CONT else kind, data, mask)
    case Ping(data, mask) => Masked(true, PING, data, mask)
    case Pong(data, mask) => Masked(true, PONG, data, mask)
  }

  function Sent(parts: seq<Part>, kind: nat, begun: bool): (frames: seq<Frame>)
    requires forall i | 0 <= i < |parts| :: |parts[i].mask| == 4
    ensures |frames| == |parts|
  {
    if parts == [] then []
    else [FrameOf(parts[0], kind, begun, |parts| == 1)] + Sent(parts[1..], kind, begun || parts[0].Fragment?)
  }

  // The frame of a part.
  lemma FrameIs(part: Part, kind: nat, begun: bool, last: bool)
    requires |part.mask| == 4 && |part.data| <= MAX_FRAME_LENGTH && (kind == TXT || kind == BIN)
    ensures var f := FrameOf(part, kind, begun, last);
            && f.WellFormed() && Plain(f) == part.data && |f.payload| == |part.data|
            && f.rsv == 0 && (|part.data| <= 125 ==> f.form == Short)
            && (if part.Fragment? then f.fin == last && f.opcode == if begun then CONT else kind
                else f.fin && f.opcode == if part.Ping? then PING else PONG)
  {
    PowersOf256(8);
    MaskTwice(part.data, part.mask);
  }

  // The parts behind the first one.
  lemma SoundTail(parts: seq<Part>)
    requires Sound(parts)
    ensures |MessageOf(parts)| == (if parts[0].Fragment? then |parts[0].data| else 0) + |MessageOf(parts[1..])|
    ensures |parts[0].data| <= MAX_FRAME_LENGTH
    ensures if |parts| > 1 then Sound(parts[1..]) else parts[1..] == [] && parts[0].Fragment?
  {
  }

  lemma SentCons(parts: seq<Part>, kind: nat, begun: bool)
    requires Sound(parts)
    ensures var frames := Sent(parts, kind, begun);
            && frames[0] == FrameOf(parts[0], kind, begun, |parts| == 1)
            && frames[1..] == Sent(parts[1..], kind, begun || parts[0].Fragment?)
  {
    hide MessageOf, FrameOf;
  }

  lemma {:induction false} SentIsLegal(parts: seq<Part>, kind: nat, begun: bool, size: nat)
    requires Sound(parts) && (kind == TXT || kind == BIN) && size + |MessageOf(parts)| <= MAX_FRAME_LENGTH
    ensures LegalFrom(Sent(parts, kind, begun), begun, size, false)
    decreases |parts|
  {
    hide Plain, FrameOf, MessageOf, Sent;
    var part, more := parts[0], parts[1..];
    SoundTail(parts);
    FrameIs(part, kind, begun, |parts| == 1);
    SentCons(parts, kind, begun);
    if |parts| > 1 {
      SentIsLegal(more, kind, begun || part.Fragment?, if part.Fragment? then size + |part.data| else size);
    }
  }

  lemma {:induction false} SentCarries(parts: seq<Part>, kind: nat, begun: bool)
    requires Sound(parts) && (kind == TXT || kind == BIN)
    ensures var frames := Sent(parts, kind, begun);
            && AllWellFormed(frames)
            && DataOf(frames) == MessageOf(parts)
            && PingsOf(frames) == PingsIn(parts)
            && (begun || KindOf(frames) == kind)
    decreases |parts|
  {
    hide Plain, FrameOf, Sent;
    var part, more := parts[0], parts[1..];
    SoundTail(parts);
    FrameIs(part, kind, begun, |parts| == 1);
    SentCons(parts, kind, begun);
    if |parts| > 1 {
      SentCarries(more, kind, begun || part.Fragment?);
    }
  }

  // End to end: whatever the fragments, their keys and the pings and pongs between them, the server
  // gets the concatenation of the fragments, and answers every ping with its data.
  lemma {:induction false} MaskedMessageArrives(
    parts: seq<Part>, kind: nat, lastPong: int, currentPing: int, rest: seq<Byte>)
    requires Sound(parts) && (kind == TXT || kind == BIN)
    ensures AllWellFormed(Sent(parts, kind, false))
    ensures var s := EncodeAll(Sent(parts, kind, false)) + rest;
            var outcome := NextFrame(s, Begin(lastPong), Peer(false, currentPing));
            && outcome.Complete? && outcome.rest == rest
            && outcome.done.data == MessageOf(parts)
            && outcome.done.kind == kind
            && outcome.done.pongs == PingsIn(parts)
  {
    hide NextFrame, EncodeAll, Sent, MessageOf, LegalFrom, LegalAfter;
    var frames := Sent(parts, kind, false);
    SentCarries(parts, kind, false);
    SentIsLegal(parts, kind, false, 0);
    LegalFormsAgree(frames, false, 0, false);
    LastIsData(parts, kind, false);
    MessageIsReassembled(frames, lastPong, Peer(false, currentPing), rest);
  }

  lemma {:induction false} LastIsData(parts: seq<Part>, kind: nat, begun: bool)
    requires Sound(parts) && (kind == TXT || kind == BIN)
    ensures Sent(parts, kind, begun)[|parts| - 1].opcode != CLOSE
    decreases |parts|
  {
    hide MessageOf, FrameOf;
    SoundTail(parts);
    FrameIs(parts[0], kind, begun, |parts| == 1);
    if |parts| > 1 {
      LastIsData(parts[1..], kind, begun || parts[0].Fragment?);
    }
  }
}
