// core/src/server/frame.cc and core/src/server/ping_pong.cc: reading frames from the buffer of a
// client, answering pings, and building the frames that are sent.
module Frames {
  import opened Common
  import opened Octets
  import S = FrameSpec

  const WORD: nat := 0x1_0000_0000_0000_0000
  const ALL_ONES: nat := WORD - 1

  // What next_frame uses of a client. sent records the frames handed to the socket.
  class Client {
    var closing: bool
    var lastPongId: int
    var currentPingId: int
    var sent: seq<seq<Byte>>

    constructor (closing: bool, lastPongId: int, currentPingId: int)
      ensures this.closing == closing && this.lastPongId == lastPongId && this.currentPingId == currentPingId
      ensures sent == []
    {
      this.closing, this.lastPongId, this.currentPingId, this.sent := closing, lastPongId, currentPingId, [];
    }
  }

  // The first octets of a frame: type, length code and length.
  method FrameHeader(size: nat, opcode: nat) returns (frame: array<Byte>, first: nat)
    requires opcode < 16 && size < WORD
    ensures fresh(frame) && frame.Length == 10 && first <= 10
    ensures frame[..first] == [(128 + opcode) as Byte] + S.ServerLength(size)
  {
    hide ToBigEndian, BigEndian, Pow256;
    PowersOf256(2);
    frame := new Byte[10];
    frame[0] := (128 + opcode) as Byte;
    if size <= 125 {
      frame[1] := size as Byte;
      first := 2;
      Joined(frame[0], frame[1], []);
      assert frame[..2] == [frame[0], frame[1]];
    } else if size <= 65535 {
      frame[1] := 126;
      frame[2] := (size / 0x100 % 256) as Byte;
      frame[3] := (size % 256) as Byte;
      first := 4;
      TwoOctets(size);
      Joined(frame[0], frame[1], [frame[2], frame[3]]);
      assert frame[..4] == [frame[0], frame[1]] + [frame[2], frame[3]];
    } else {
      FillLength(frame, size);
      first := 10;
      Joined(frame[0], frame[1], frame[2..10]);
      assert frame[..10] == [frame[0], frame[1]] + frame[2..10];
    }
  }

  lemma Joined(a: Byte, b: Byte, more: seq<Byte>)
    ensures [a] + ([b] + more) == [a, b] + more
    ensures [a] + [b] == [a, b]
  {
  }

  // ws_sendframe; sending succeeds.
  method WsSendFrame(client: Client, message: array<Byte>, size: nat, opcode: nat) returns (output: nat)
    requires size <= message.Length && opcode < 16 && size < WORD
    modifies client`sent
    ensures client.sent == old(client.sent) + [S.ServerFrame(opcode, message[..size])]
  {
    hide S.ServerLength;
    var frame, first := FrameHeader(size, opcode);
    ghost var header := frame[..first];
    var response := new Byte[first + size + 1];
    var i := 0;
    while i < first
      invariant 0 <= i <= first
      invariant forall k :: 0 <= k < i ==> response[k] == header[k]
      modifies response
    {
      response[i] := frame[i];
      i := i + 1;
    }
    i := 0;
    while i < size
      invariant 0 <= i <= size
      invariant forall k :: 0 <= k < first ==> response[k] == header[k]
      invariant forall k :: 0 <= k < i ==> response[first + k] == message[k]
      modifies response
    {
      response[first + i] := message[i];
      i := i + 1;
    }
    response[first + size] := 0;
    assert response[..first + size] == header + message[..size];
    assert S.ServerFrame(opcode, message[..size]) == header + message[..size];
    client.sent := client.sent + [response[..first + size]];
    output := first + size;
  }

  lemma TwoOctets(n: nat)
    ensures ToBigEndian(n, 2) == [(n / 0x100 % 256) as Byte, (n % 256) as Byte]
  {
    assert ToBigEndian(n / 0x100, 1) == [(n / 0x100 % 256) as Byte];
  }

  // The eight length octets of a long frame.
  method FillLength(frame: array<Byte>, size: nat)
    requires frame.Length == 10
    modifies frame
    ensures frame[0] == old(frame[0]) && frame[1] == 127 && frame[2..10] == ToBigEndian(size, 8)
  {
    EightOctets(size);
    frame[1] := 127;
    frame[2] := (size / 0x100_0000_0000_0000 % 256) as Byte;
    frame[3] := (size / 0x1_0000_0000_0000 % 256) as Byte;
    frame[4] := (size / 0x100_0000_0000 % 256) as Byte;
    frame[5] := (size / 0x1_0000_0000 % 256) as Byte;
    frame[6] := (size / 0x100_0000 % 256) as Byte;
    frame[7] := (size / 0x1_0000 % 256) as Byte;
    frame[8] := (size / 0x100 % 256) as Byte;
    frame[9] := (size % 256) as Byte;
    assert frame[2..10] == [frame[2], frame[3], frame[4], frame[5], frame[6], frame[7], frame[8], frame[9]];
  }

  lemma EightOctets(n: nat)
    ensures ToBigEndian(n, 8)
         == [(n / 0x100_0000_0000_0000 % 256) as Byte, (n / 0x1_0000_0000_0000 % 256) as Byte,
             (n / 0x100_0000_0000 % 256) as Byte, (n / 0x1_0000_0000 % 256) as Byte,
             (n / 0x100_0000 % 256) as Byte, (n / 0x1_0000 % 256) as Byte,
             (n / 0x100 % 256) as Byte, (n % 256) as Byte]
  {
    var a, b, c, d, e, f, g := n / 0x100, n / 0x1_0000, n / 0x100_0000, n / 0x1_0000_0000,
      n / 0x100_0000_0000, n / 0x1_0000_0000_0000, n / 0x100_0000_0000_0000;
    assert a / 0x100 == b && b / 0x100 == c && c / 0x100 == d && d / 0x100 == e && e / 0x100 == f && f / 0x100 == g;
    OctetStep(n, 7);
    OctetStep(a, 6);
    OctetStep(b, 5);
    OctetStep(c, 4);
    OctetStep(d, 3);
    OctetStep(e, 2);
    OctetStep(f, 1);
    assert ToBigEndian(g, 1) == [(g % 256) as Byte];
  }

  lemma OctetStep(n: nat, k: nat)
    ensures ToBigEndian(n, k + 1) == ToBigEndian(n / 0x100, k) + [(n % 256) as Byte]
  {
  }

  // realloc; memory suffices.
  method Realloc(buf: array?<Byte>, length: nat, ghost used: nat) returns (r: array<Byte>)
    requires used <= length && (buf != null ==> used <= buf.Length)
    requires buf == null ==> used == 0
    ensures fresh(r) && r.Length == length
    ensures r[..used] == Contents(buf, used)
  {
    r := new Byte[length];
    if buf != null {
      var n := if buf.Length < length then buf.Length else length;
      var i := 0;
      while i < n
        invariant 0 <= i <= n
        invariant forall k :: 0 <= k < i ==> r[k] == buf[k]
      {
        r[i] := buf[i];
        i := i + 1;
      }
    }
  }

  ghost function Contents(buf: array?<Byte>, used: nat): (c: seq<Byte>)
    requires buf == null ==> used == 0
    requires buf != null ==> used <= buf.Length
    reads buf
    ensures |c| == used
  {
    if buf == null then [] else buf[..used]
  }

  // The frames that answer pings.
  ghost function Answers(pongs: seq<seq<Byte>>): seq<seq<Byte>>
  {
    seq(|pongs|, i requires 0 <= i < |pongs| => S.ServerFrame(S.PONG, pongs[i]))
  }

  lemma AnswersSnoc(pongs: seq<seq<Byte>>, data: seq<Byte>)
    ensures Answers(pongs + [data]) == Answers(pongs) + [S.ServerFrame(S.PONG, data)]
  {
  }

  method PongMessageToInt32(message: array<Byte>) returns (pongId: int)
    requires message.Length >= 4
    ensures pongId == S.PongId(message[..4])
  {
    var n := message[3] as int + message[2] as int * 0x100 + message[1] as int * 0x1_0000
      + message[0] as int * 0x100_0000;
    pongId := if n < 0x8000_0000 then n else n - 0x1_0000_0000;
    var o := message[..4];
    assert o[..3][..2][..1] == [o[0]] && o[..3][..2] == [o[0], o[1]] && o[..3] == [o[0], o[1], o[2]];
    assert BigEndian([o[0]]) == o[0] as nat by { assert [o[0]][..0] == []; }
    assert BigEndian([o[0], o[1]]) == 0x100 * BigEndian([o[0]]) + o[1] as nat by { assert [o[0], o[1]][..1] == [o[0]]; }
    assert BigEndian([o[0], o[1], o[2]]) == 0x100 * BigEndian([o[0], o[1]]) + o[2] as nat
    by { assert [o[0], o[1], o[2]][..2] == [o[0], o[1]]; }
  }

  lemma ShiftTwice(n: int)
    ensures n / 0x1_0000 == n / 0x100 / 0x100
  {
  }

  // Adding 2^32 shows in no octet.
  lemma OctetsWrap(n: int, m: int)
    requires m == n + 0x1_0000_0000
    ensures m / 0x100_0000 % 256 == n / 0x100_0000 % 256 && m / 0x1_0000 % 256 == n / 0x1_0000 % 256
    ensures m / 0x100 % 256 == n / 0x100 % 256 && m % 256 == n % 256
  {
    var a := n / 0x100;
    var b := a / 0x100;
    Carry(0x100_0000, n);
    Carry(0x1_0000, a);
    Carry(0x100, b);
    Carry(1, b / 0x100);
    ShiftTwice(n);
    ShiftTwice(m);
    ShiftThrice(n);
    ShiftThrice(m);
  }

  lemma ShiftThrice(n: int)
    ensures n / 0x100_0000 == n / 0x100 / 0x100 / 0x100
  {
    ShiftTwice(n);
    ShiftTwice(n / 0x100);
  }

  // A shift of a negative number keeps its sign, as Euclidean division does.
  method Int32ToPingMessage(pingId: int, message: array<Byte>)
    requires S.IsInt32(pingId) && message.Length == 4
    modifies message
    ensures message[..] == S.PingMessage(pingId)
  {
    message[0] := (pingId / 0x100_0000 % 256) as Byte;
    message[1] := (pingId / 0x1_0000 % 256) as Byte;
    message[2] := (pingId / 0x100 % 256) as Byte;
    message[3] := (pingId % 256) as Byte;
    hide ToBigEndian;
    ghost var n := if pingId < 0 then pingId + 0x1_0000_0000 else pingId;
    if pingId < 0 {
      OctetsWrap(pingId, n);
    }
    FourOctets(n);
    assert S.PingMessage(pingId) == ToBigEndian(n, 4);
    assert message[..] == [message[0], message[1], message[2], message[3]];
  }

  // send_ping_close, for a client whose socket may not be open; pings are numbered from one.
  method SendPing(client: Client, open: bool)
    requires S.IsInt32(client.currentPingId) && S.IsInt32(client.currentPingId + 1)
    modifies client`currentPingId, client`sent
    ensures client.currentPingId == old(client.currentPingId) + (if open then 1 else 0)
    ensures client.sent == old(client.sent)
              + (if open then [S.ServerFrame(S.PING, S.PingMessage(client.currentPingId))] else [])
  {
    if !open {
      return;
    }
    var pingMessage := new Byte[4];
    client.currentPingId := client.currentPingId + 1;
    Int32ToPingMessage(client.currentPingId, pingMessage);
    var _ := WsSendFrame(client, pingMessage, 4, S.PING);
    assert pingMessage[..4] == pingMessage[..];
  }

  class FrameReader {
    const stream: seq<Byte>
    const client: Client
    const payload: array<Byte>
    var curPos: nat
    var kind: int
    var size: nat
    var message: array?<Byte>
    var error: bool

    // Set when a terminator would be written behind the end of payload.
    var overrun: bool

    ghost predicate Valid()
      reads this
    {
      curPos <= |stream| && payload.Length == S.PAYLOAD_ROOM
    }

    ghost function Rest(): seq<Byte>
      requires Valid()
      reads this
    {
      stream[curPos..]
    }

    constructor (stream: seq<Byte>, client: Client)
      ensures Valid() && Rest() == stream && !error && !overrun && this.client == client && fresh(payload)
    {
      this.stream, this.client := stream, client;
      payload := new Byte[S.PAYLOAD_ROOM];
      curPos, kind, size, message, error, overrun := 0, -1, 0, null, false, false;
      new;
      assert stream[0..] == stream;
    }

    // -1 marks the end of the buffer and sets the error flag.
    method NextByte() returns (b: int)
      requires Valid()
      modifies this`curPos, this`error
      ensures Valid()
      ensures |old(Rest())| == 0 ==> b == -1 && error && Rest() == old(Rest())
      ensures |old(Rest())| > 0 ==> b == old(Rest())[0] as int && error == old(error) && Rest() == old(Rest())[1..]
    {
      if curPos == |stream| {
        error := true;
        return -1;
      }
      b := stream[curPos] as int;
      curPos := curPos + 1;
    }

    // Shifts octet k of a length field into a 64-bit number; -1 sets every bit.
    method ShiftIn(v: nat, ghost field: seq<Byte>, ghost k: nat) returns (r: nat)
      requires Valid() && v < WORD && k < 8
      requires !error ==> k <= |field| && Rest() == field[k..] && v == BigEndian(field[..k])
      requires error ==> |field| < k + 1 && Rest() == []
      modifies this`curPos, this`error
      ensures Valid() && r < WORD
      ensures !error ==> k + 1 <= |field| && Rest() == field[k + 1..] && r == BigEndian(field[..k + 1])
      ensures error ==> |field| < k + 1 && Rest() == []
    {
      var b := NextByte();
      r := if b == -1 then ALL_ONES else (v * 0x100 + b) % WORD;
      if b != -1 {
        PrefixStep(field, k + 1);
        PrefixBound(field, k + 1);
      }
    }

    // The length field; evaluated from left to right.
    method ReadLength(code: nat) returns (length: nat)
      requires Valid() && !error && code < 128
      modifies this`curPos, this`error
      ensures Valid() && length < WORD
      ensures error <==> !S.HasLength(code, old(Rest()))
      ensures !error ==> length == S.Length(code, old(Rest())) && Rest() == old(Rest())[S.ExtraOctets(code)..]
    {
      hide BigEndian, Pow256;
      length := code;
      ghost var s := Rest();
      NothingRead(s);
      if code == 126 {
        length := ShiftIn(0, s, 0);
        length := ShiftIn(length, s, 1);
      } else if code == 127 {
        length := ShiftIn(0, s, 0);
        length := ShiftIn(length, s, 1);
        length := ShiftIn(length, s, 2);
        length := ShiftIn(length, s, 3);
        length := ShiftIn(length, s, 4);
        length := ShiftIn(length, s, 5);
        length := ShiftIn(length, s, 6);
        length := ShiftIn(length, s, 7);
      }
    }

    // Copies length octets, unmasked, to buf[start..].
    method CopyPayload(buf: array<Byte>, start: nat, length: nat, mask: seq<Byte>) returns (ok: bool)
      requires Valid() && !error && |mask| == 4 && start + length <= buf.Length
      modifies this`curPos, this`error, buf
      ensures Valid()
      ensures ok == (length <= |old(Rest())|) && error == !ok
      ensures ok ==> Rest() == old(Rest())[length..]
                     && buf[..start + length] == old(buf[..start]) + S.ApplyMask(old(Rest())[..length], mask)
    {
      hide XorByte, BigEndian, S.ApplyMask;
      ghost var s, front := Rest(), buf[..start];
      var i := 0;
      while i < length
        invariant 0 <= i <= length && i <= |s| && Valid() && !error
        invariant Rest() == s[i..]
        invariant buf[..start] == front
        invariant forall k :: 0 <= k < i ==> buf[start + k] == XorByte(s[k], mask[k % 4])
      {
        var cur := NextByte();
        if cur == -1 {
          return false;
        }
        buf[start + i] := XorByte(cur as Byte, mask[i % 4]);
        i := i + 1;
      }
      UnmaskedBehind(buf[..start + length], front, s, length, mask);
      ok := true;
    }

    method ReadMask() returns (mask: seq<Byte>)
      requires Valid()
      modifies this`curPos, this`error
      ensures Valid() && |mask| == 4
      ensures |old(Rest())| < 4 ==> error
      ensures |old(Rest())| >= 4 ==> mask == old(Rest())[..4] && error == old(error) && Rest() == old(Rest())[4..]
    {
      ghost var s := Rest();
      var a := NextByte();
      var b := NextByte();
      var c := NextByte();
      var d := NextByte();
      mask := [AsOctet(a), AsOctet(b), AsOctet(c), AsOctet(d)];
    }

    // read_frame for control frames: the data goes to the payload buffer.
    method ReadControl(code: nat) returns (ok: bool, frameSize: nat)
      requires Valid() && !error && code <= 125
      modifies this`curPos, this`error, this`overrun, payload
      ensures Valid()
      ensures var t := S.ScanTail(code, old(Rest()));
              if t.NoTail? then !ok && error && overrun == old(overrun)
              else ok && !error && Rest() == t.rest && frameSize == t.length == |t.payload| <= S.PAYLOAD_ROOM
                   && payload[..frameSize] == S.ApplyMask(t.payload, t.mask)
                   && overrun == (old(overrun) || frameSize >= S.PAYLOAD_ROOM)
    {
      hide S.ApplyMask, S.ScanTail, XorByte, BigEndian;
      ghost var s := Rest();
      ShortTail(code, s);
      frameSize := code;
      var mask := ReadMask();
      if error {
        return false, frameSize;
      }
      ok := CopyPayload(payload, 0, code, mask);
      if !ok {
        return;
      }
      ghost var data := payload[..code];
      assert data == S.ApplyMask(s[4..][..code], mask);
      if code > 0 {
        if code < payload.Length {
          payload[code] := 0;
          assert payload[..code] == data;
        } else {
          overrun := true;
        }
      }
    }

    // The terminator behind the last fragment; an empty one has not made room for it.
    method Terminate(buf: array?<Byte>, total: nat, more: bool) returns (grown: array<Byte>)
      requires buf == null ==> total == 0 && more
      requires buf != null ==> buf != payload && (if more then total <= buf.Length else total < buf.Length)
      modifies buf
      ensures (grown == buf || fresh(grown)) && grown != payload && total < grown.Length && grown[total] == 0
      ensures Contents(grown, total) == old(Contents(buf, total))
    {
      ghost var before := Contents(buf, total);
      if more {
        grown := Realloc(buf, total + 1, total);
      } else {
        grown := buf;
      }
      grown[total] := 0;
      assert Contents(grown, total) == before;
    }

    // read_frame for data frames: the message grows by the unmasked payload.
    method ReadData(code: nat, buf: array?<Byte>, used: nat, isFin: bool)
      returns (ok: bool, grown: array?<Byte>, total: nat)
      requires Valid() && !error && code < 128 && used <= S.MAX_FRAME_LENGTH
      requires (buf == null ==> used == 0) && (buf != null ==> used <= buf.Length && buf != payload)
      requires S.HasLength(code, Rest()) ==> S.LengthFits(S.Length(code, Rest()))
      modifies this`curPos, this`error, buf
      ensures Valid() && (grown == buf || fresh(grown))
      ensures var t := S.ScanTail(code, old(Rest()));
              if t.NoTail? || used + t.length > S.MAX_FRAME_LENGTH then !ok && error
              else
                && ok && !error && Rest() == t.rest && total == used + t.length
                && (grown == null ==> total == 0) && (grown != null ==> total <= grown.Length && grown != payload)
                && Contents(grown, total) == old(Contents(buf, used)) + S.ApplyMask(t.payload, t.mask)
                && (isFin && total > 0 ==> grown != null && total < grown.Length && grown[total] == 0)
    {
      hide S.ScanTail, S.Length, S.HasLength, S.LengthFits, S.ApplyMask, BigEndian, Contents;
      ghost var s := Rest();
      grown, total := buf, used;
      var length := ReadLength(code);
      if error {
        NoLength(code, s);
      } else {
        TailFrom(code, s);
        NoWrap(used, length);
      }
      var frameSize := (used + length) % WORD;
      if frameSize > S.MAX_FRAME_LENGTH {
        error := true;
        return false, grown, total;
      }
      var mask := ReadMask();
      if error {
        return false, grown, total;
      }
      ok, grown, total := Append(buf, used, length, mask, isFin);
    }

    // The payload goes behind what is there, with a terminator behind the last fragment.
    method Append(buf: array?<Byte>, used: nat, length: nat, mask: seq<Byte>, isFin: bool)
      returns (ok: bool, grown: array?<Byte>, total: nat)
      requires Valid() && !error && |mask| == 4
      requires (buf == null ==> used == 0) && (buf != null ==> used <= buf.Length && buf != payload)
      modifies this`curPos, this`error, buf
      ensures Valid() && (grown == buf || fresh(grown))
      ensures ok == (length <= |old(Rest())|) && error == !ok
      ensures ok ==>
                && Rest() == old(Rest())[length..] && total == used + length
                && (grown == null ==> total == 0) && (grown != null ==> total <= grown.Length && grown != payload)
                && Contents(grown, total) == old(Contents(buf, used)) + S.ApplyMask(old(Rest())[..length], mask)
                && (isFin && total > 0 ==> grown != null && total < grown.Length && grown[total] == 0)
    {
      hide S.ApplyMask;
      ghost var before := Contents(buf, used);
      grown, total := buf, used;
      if length > 0 {
        var bigger := Realloc(buf, used + length + (if isFin then 1 else 0), used);
        grown := bigger;
        ok := CopyPayload(bigger, used, length, mask);
        if !ok {
          return;
        }
        total := used + length;
      } else {
        assert before + S.ApplyMask(Rest()[..length], mask) == before;
      }
      if isFin && total > 0 {
        grown := Terminate(grown, total, length == 0);
      }
      ok := true;
    }

    // What the loop of next_frame has gathered in data, in size and kind, and in the client.
    ghost predicate Gathered(data: array?<Byte>, p: S.Progress, sent: seq<seq<Byte>>)
      reads this, client, data
    {
      && kind == (if p.kind == 0 then -1 else p.kind) && p.kind in {0, S.TXT, S.BIN}
      && size == |p.data| <= S.MAX_FRAME_LENGTH
      && (data == null ==> size == 0) && (data != null ==> size <= data.Length && data != payload)
      && Contents(data, size) == p.data
      && Noted(p, sent)
    }

    // The frames sent and the PONG recorded.
    ghost predicate Noted(p: S.Progress, sent: seq<seq<Byte>>)
      reads this, client
    {
      client.sent == sent + Answers(p.pongs) && client.lastPongId == p.lastPong && overrun == p.overrun
    }

    // The control branches of next_frame: read the frame, then record a PONG or answer a PING.
    method Control(opcode: nat, code: nat, ghost p: S.Progress, ghost sent: seq<seq<Byte>>)
      returns (ok: bool, frameSize: nat, ghost q: S.Progress)
      requires Valid() && !error && code <= 125 && S.IsControl(opcode) && Noted(p, sent)
      modifies this`curPos, this`error, this`overrun, payload, client`sent, client`lastPongId
      ensures Valid()
      ensures var t := S.ScanTail(code, old(Rest()));
              if t.NoTail? then !ok && error && Noted(p, sent)
              else
                var data := S.ApplyMask(t.payload, t.mask);
                && ok && !error && Rest() == t.rest && frameSize == |data| <= S.PAYLOAD_ROOM
                && payload[..frameSize] == data
                && q == S.AfterControl(p, opcode, data, S.Peer(client.closing, client.currentPingId))
                && Noted(q, sent)
    {
      hide S.ScanTail, S.ApplyMask, S.ServerFrame, BigEndian, Answers;
      q := p;
      ok, frameSize := ReadControl(code);
      if !ok {
        return;
      }
      q := q.(overrun := overrun);
      if opcode == S.PONG {
        if frameSize != 4 {
          return;
        }
        var pongId := PongMessageToInt32(payload);
        if pongId < 0 || pongId > client.currentPingId {
          return;
        }
        client.lastPongId := pongId;
        q := q.(lastPong := pongId);
      } else if opcode == S.PING {
        var _ := WsSendFrame(client, payload, frameSize, S.PONG);
        AnswersNext(sent, p.pongs, payload[..frameSize]);
        q := q.(pongs := p.pongs + [payload[..frameSize]]);
      }
    }

    // The first two octets of a frame, and the checks of next_frame on them.
    method Header() returns (ok: bool, isFin: bool, opcode: nat, code: nat)
      requires Valid() && !error && kind != 0
      modifies this`curPos, this`error, this`kind
      ensures Valid()
      ensures ok == (|old(Rest())| >= 2
                     && AdmitsHead(old(kind) != -1, old(Rest())[0], old(Rest())[1] as nat % 128, client.closing))
      ensures ok ==> !error && Rest() == old(Rest())[2..] && isFin == (old(Rest())[0] >= 128)
                     && opcode == old(Rest())[0] as nat % 16 && code == old(Rest())[1] as nat % 128
                     && kind == if opcode == S.CONT || S.IsControl(opcode) then old(kind) else opcode
    {
      ok, isFin, opcode, code := false, false, 0, 0;
      var curByte := NextByte();
      if curByte == -1 {
        return;
      }
      isFin := curByte / 128 % 2 == 1;
      opcode := curByte % 16;
      if curByte / 16 % 8 != 0 {
        error := true;
        return;
      }
      if (kind == -1 && opcode == S.CONT) || (kind != -1 && !S.IsControl(opcode) && opcode != S.CONT) {
        error := true;
        return;
      }
      if opcode == S.TXT || opcode == S.BIN || opcode == S.CONT
         || opcode == S.PING || opcode == S.PONG || opcode == S.CLOSE {
        if client.closing && opcode != S.CLOSE {
          error := true;
          return;
        }
        if opcode != S.CONT && !S.IsControl(opcode) {
          kind := opcode;
        }
        var mask := NextByte();
        code := AsOctet(mask) as nat % 128;
        if S.IsControl(opcode) && (!isFin || code > 125) {
          error := true;
          return;
        }
        ok := !error;
      } else {
        kind := opcode;
        error := true;
      }
    }

    // The branches of next_frame for data: read the frame behind the fragments before.
    method Data(
      opcode: nat, code: nat, data: array?<Byte>, isFin: bool, ghost p: S.Progress, ghost sent: seq<seq<Byte>>)
      returns (ok: bool, grown: array?<Byte>, ghost q: S.Progress)
      requires Valid() && !error && code < 128 && opcode in {S.TXT, S.BIN, S.CONT}
      requires kind in {S.TXT, S.BIN} && kind == (if opcode == S.CONT then p.kind else opcode)
      requires size == |p.data| <= S.MAX_FRAME_LENGTH && Noted(p, sent)
      requires (data == null ==> size == 0) && (data != null ==> size <= data.Length && data != payload)
      requires Contents(data, size) == p.data
      requires S.HasLength(code, Rest()) ==> S.LengthFits(S.Length(code, Rest()))
      modifies this`curPos, this`error, this`size, data
      ensures Valid() && (grown == data || fresh(grown)) && (!ok ==> Noted(p, sent))
      ensures var t := S.ScanTail(code, old(Rest()));
              && ok == (t.Tail? && |p.data| + t.length <= S.MAX_FRAME_LENGTH)
              && (ok ==>
                    && !error && Rest() == t.rest
                    && q == S.AfterData(p, opcode, S.ApplyMask(t.payload, t.mask)) && Gathered(grown, q, sent)
                    && (isFin && size > 0 ==> size < grown.Length && grown[size] == 0))
    {
      hide S.HasLength, S.Length, S.ApplyMask, BigEndian, Answers, Contents;
      ghost var t := S.ScanTail(code, Rest());
      q := p;
      ok, grown, size := ReadData(code, data, size, isFin);
      if ok {
        q := S.AfterData(p, opcode, S.ApplyMask(t.payload, t.mask));
      }
    }

    // One round of the loop of next_frame.
    method Round(data: array?<Byte>, ghost p: S.Progress, ghost sent: seq<seq<Byte>>)
      returns (ok: bool, isFin: bool, grown: array?<Byte>, ghost q: S.Progress)
      requires Valid() && !error && S.NoLengthWraps(Rest()) && Gathered(data, p, sent)
      modifies this`curPos, this`error, this`kind, this`size, this`overrun, payload, data, client`sent,
               client`lastPongId
      ensures Valid()
      ensures grown == data || fresh(grown)
      ensures var outcome := S.NextFrame(old(Rest()), p, S.Peer(client.closing, client.currentPingId));
              if !ok then outcome == S.Rejected(p) && Noted(p, sent)
              else if !isFin then
                && !error && S.NoLengthWraps(Rest()) && |Rest()| < |old(Rest())| && Gathered(grown, q, sent)
                && outcome == S.NextFrame(Rest(), q, S.Peer(client.closing, client.currentPingId))
              else if kind == S.CLOSE then
                && Noted(q, sent) && size <= payload.Length && outcome == S.Closed(q, payload[..size], Rest())
              else
                && Gathered(grown, q, sent) && outcome == S.Complete(q, Rest()) && q.kind == kind
                && (size > 0 ==> size < grown.Length && grown[size] == 0)
    {
      hide S.NextFrame, S.ScanTail, S.ScanFrame, S.HasLength, S.Length, S.ApplyMask, S.ServerFrame, S.PongSeen,
        S.NoLengthWraps, BigEndian, Answers, Contents;
      ghost var s := Rest();
      ghost var peer := S.Peer(client.closing, client.currentPingId);
      grown, q := data, p;
      var opcode, code;
      ok, isFin, opcode, code := Header();
      if !ok {
        HeadRefused(s, p, peer);
        return;
      }
      StillFits(s);
      ghost var t := S.ScanTail(code, s[2..]);
      if opcode == S.TXT || opcode == S.BIN || opcode == S.CONT {
        DataStep(s, p, peer);
        ok, grown, q := Data(opcode, code, data, isFin, p, sent);
      } else {
        ControlStep(s, p, peer);
        var frameSize;
        ok, frameSize, q := Control(opcode, code, p, sent);
        if !ok {
          return;
        }
        isFin := opcode == S.CLOSE;
        if opcode == S.CLOSE {
          size := frameSize;
          kind := S.CLOSE;
        }
      }
    }

    // next_frame: 0 with a message or a CLOSE frame, -1 otherwise. A length that wraps would let the
    // copy run out of the buffer; section 5.2 forbids such lengths.
    method NextFrame() returns (status: int)
      requires Valid() && !error && S.NoLengthWraps(Rest())
      modifies this, payload, client`sent, client`lastPongId
      ensures Valid()
      ensures var start := S.Progress(0, [], [], old(client.lastPongId), old(overrun));
              var outcome := S.NextFrame(old(Rest()), start, S.Peer(client.closing, client.currentPingId));
              && Noted(outcome.done, old(client.sent))
              && match outcome
                 case Rejected(_) => status == -1 && message == null
                 case Closed(_, reason, rest) =>
                   status == 0 && message == null && kind == S.CLOSE && Rest() == rest
                   && size <= payload.Length && payload[..size] == reason
                 case Complete(done, rest) =>
                   status == 0 && kind == done.kind && Rest() == rest && size == |done.data|
                   && (message == null ==> size == 0) && (message != null ==> size <= message.Length)
                   && Contents(message, size) == done.data
                   && (size > 0 ==> size < message.Length && message[size] == 0)
    {
      hide S.NextFrame, S.NoLengthWraps, Answers;
      var data: array?<Byte> := null;
      size := 0;
      kind := -1;
      message := null;
      ghost var p := S.Progress(0, [], [], client.lastPongId, overrun);
      ghost var outcome := S.NextFrame(Rest(), p, S.Peer(client.closing, client.currentPingId));
      NoAnswers(client.sent);
      var ok, isFin := true, false;
      while !isFin
        invariant Valid() && !error && message == null
        invariant S.NoLengthWraps(Rest()) && Gathered(data, p, old(client.sent)) && (data == null || fresh(data))
        invariant outcome == S.NextFrame(Rest(), p, S.Peer(client.closing, client.currentPingId))
        decreases |Rest()|
      {
        ok, isFin, data, p := Round(data, p, old(client.sent));
        if !ok {
          return -1;
        }
        if isFin {
          break;
        }
      }
      if kind == S.CLOSE {
        return 0;
      }
      message := data;
      return 0;
    }
  }

  lemma NoAnswers(sent: seq<seq<Byte>>)
    ensures sent == sent + Answers([])
  {
  }

  lemma AnswersNext(sent: seq<seq<Byte>>, pongs: seq<seq<Byte>>, data: seq<Byte>)
    ensures sent + Answers(pongs + [data]) == sent + Answers(pongs) + [S.ServerFrame(S.PONG, data)]
  {
    AnswersSnoc(pongs, data);
    Associative(sent, Answers(pongs), [S.ServerFrame(S.PONG, data)]);
  }

  // The checks of next_frame on the first two octets of a frame.
  predicate AdmitsHead(begun: bool, first: Byte, code: nat, closing: bool)
  {
    var opcode := first as nat % 16;
    && first as nat / 16 % 8 == 0
    && !(!begun && opcode == S.CONT)
    && !(begun && !S.IsControl(opcode) && opcode != S.CONT)
    && S.IsKnown(opcode)
    && (closing ==> opcode == S.CLOSE)
    && (S.IsControl(opcode) ==> first >= 128 && code <= 125)
  }

  // One round of the loop of next_frame, on the octets.

  predicate HeadAdmitted(s: seq<Byte>, p: S.Progress, peer: S.Peer)
  {
    |s| >= 2 && AdmitsHead(p.kind != 0, s[0], s[1] as nat % 128, peer.closing)
  }

  lemma HeadRefused(s: seq<Byte>, p: S.Progress, peer: S.Peer)
    requires !HeadAdmitted(s, p, peer)
    ensures S.NextFrame(s, p, peer) == S.Rejected(p)
  {
  }

  lemma StillFits(s: seq<Byte>)
    requires S.NoLengthWraps(s) && |s| >= 2
    ensures var code, t := s[1] as nat % 128, S.ScanTail(s[1] as nat % 128, s[2..]);
            && (S.HasLength(code, s[2..]) ==> S.LengthFits(S.Length(code, s[2..])))
            && (t.Tail? ==> S.NoLengthWraps(t.rest) && |t.rest| < |s| && |t.payload| == t.length && |t.mask| == 4)
  {
    hide BigEndian;
  }

  lemma ControlStep(s: seq<Byte>, p: S.Progress, peer: S.Peer)
    requires HeadAdmitted(s, p, peer) && S.IsControl(s[0] as nat % 16)
    ensures var opcode, t := s[0] as nat % 16, S.ScanTail(s[1] as nat % 128, s[2..]);
            if t.NoTail? then S.NextFrame(s, p, peer) == S.Rejected(p)
            else
              var content := S.ApplyMask(t.payload, t.mask);
              var q := S.AfterControl(p, opcode, content, peer);
              S.NextFrame(s, p, peer)
              == if opcode == S.CLOSE then S.Closed(q, content, t.rest) else S.NextFrame(t.rest, q, peer)
  {
    hide S.ApplyMask, S.PongSeen, BigEndian;
  }

  lemma DataStep(s: seq<Byte>, p: S.Progress, peer: S.Peer)
    requires HeadAdmitted(s, p, peer) && !S.IsControl(s[0] as nat % 16)
    ensures var opcode, t := s[0] as nat % 16, S.ScanTail(s[1] as nat % 128, s[2..]);
            if t.NoTail? || |p.data| + t.length > S.MAX_FRAME_LENGTH then S.NextFrame(s, p, peer) == S.Rejected(p)
            else
              var q := S.AfterData(p, opcode, S.ApplyMask(t.payload, t.mask));
              S.NextFrame(s, p, peer) == if s[0] >= 128 then S.Complete(q, t.rest) else S.NextFrame(t.rest, q, peer)
  {
    hide S.ApplyMask, S.PongSeen, BigEndian;
  }

  lemma NoLength(code: nat, s: seq<Byte>)
    requires !S.HasLength(code, s)
    ensures S.ScanTail(code, s).NoTail?
  {
  }

  lemma NoWrap(used: nat, length: nat)
    requires used <= S.MAX_FRAME_LENGTH && S.LengthFits(length)
    ensures (used + length) % WORD == used + length
  {
  }

  // What stands behind the length.
  lemma TailFrom(code: nat, s: seq<Byte>)
    requires S.HasLength(code, s)
    ensures var r, length := s[S.ExtraOctets(code)..], S.Length(code, s);
            S.ScanTail(code, s)
            == if |r| < 4 + length then S.NoTail else S.Tail(length, r[..4], r[4..][..length], r[4..][length..])
  {
    hide S.Length;
    var r, length := s[S.ExtraOctets(code)..], S.Length(code, s);
    assert |r| >= 4 + length ==> r[4..4 + length] == r[4..][..length] && r[4 + length..] == r[4..][length..];
  }

  lemma ShortTail(code: nat, s: seq<Byte>)
    requires code <= 125
    ensures S.ScanTail(code, s)
         == if |s| < 4 + code then S.NoTail else S.Tail(code, s[..4], s[4..][..code], s[4..][code..])
  {
    assert s[0..] == s;
    if |s| >= 4 + code {
      assert s[4..4 + code] == s[4..][..code];
    }
  }

  lemma UnmaskedBehind(whole: seq<Byte>, front: seq<Byte>, s: seq<Byte>, length: nat, mask: seq<Byte>)
    requires |mask| == 4 && length <= |s| && |whole| == |front| + length && whole[..|front|] == front
    requires forall k :: 0 <= k < length ==> whole[|front| + k] == XorByte(s[k], mask[k % 4])
    ensures whole == front + S.ApplyMask(s[..length], mask)
  {
    hide XorByte;
    var content := S.ApplyMask(s[..length], mask);
    forall i | 0 <= i < |whole|
      ensures whole[i] == (front + content)[i]
    {
      if i < |front| {
        assert whole[i] == whole[..|front|][i];
      } else {
        assert whole[|front| + (i - |front|)] == content[i - |front|];
      }
    }
  }

  function AsOctet(b: int): Byte
    requires -1 <= b < 256
  {
    if b == -1 then 255 else b as Byte
  }

  lemma NothingRead(s: seq<Byte>)
    ensures BigEndian(s[..0]) == 0 && s[0..] == s
  {
  }

  lemma PrefixStep(s: seq<Byte>, k: nat)
    requires 0 < k <= |s|
    ensures BigEndian(s[..k]) == 0x100 * BigEndian(s[..k - 1]) + s[k - 1] as nat
  {
    assert s[..k][..k - 1] == s[..k - 1];
  }

  lemma PrefixBound(s: seq<Byte>, k: nat)
    requires k <= |s| && k <= 8
    ensures BigEndian(s[..k]) < WORD
  {
    ToBigEndianOf(s[..k]);
    PowersOf256(k);
  }
}
