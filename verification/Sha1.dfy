// The incremental SHA-1 of core/src/crypt/sha1.cc: a context that is filled octet by octet.
// Context is its value; every operation of the class Sha1Context is proved equal to the
// function of the same name here, and Sha1Runs proves what these functions promise.
module Sha1Stream {
  import opened Octets
  import opened Sha1Spec

  const SUCCESS := 0
  const NULL_ARGUMENT := 1
  const STATE_ERROR := 3

  // The value assigned to Corrupted when the length counter wraps.
  const TOO_LONG := 1

  datatype Context = Context(
    hash: Hash, low: int, high: int, index: int, block: seq<Byte>, computed: bool, corrupted: int)
  {
    ghost predicate WellFormed()
    {
      0 <= low < 0x1_0000_0000 && 0 <= high < 0x1_0000_0000 && 0 <= index < 64 && |block| == 64
    }
  }

  // SHA1Reset: the block buffer keeps whatever it held.
  function Reset(block: seq<Byte>): Context
  {
    Context(INITIAL, 0, 0, 0, block, false, 0)
  }

  function ProcessBlock(c: Context): Context
    requires |c.block| == 64
  {
    c.(hash := Compress(c.hash, c.block), index := 0)
  }

  // One turn of SHA1Input's loop.
  function InputOctet(c: Context, octet: Byte): (r: Context)
    requires c.WellFormed()
    ensures r.WellFormed()
  {
    var low := (c.low + 8) % 0x1_0000_0000;
    var high := if low == 0 then (c.high + 1) % 0x1_0000_0000 else c.high;
    var stored := c.(block := c.block[c.index := octet], index := c.index + 1, low := low, high := high,
                     corrupted := if low == 0 && high == 0 then TOO_LONG else c.corrupted);
    if stored.index == 64 then ProcessBlock(stored) else stored
  }

  function InputOctets(c: Context, octets: seq<Byte>): (r: Context)
    requires c.WellFormed()
    ensures r.WellFormed()
    decreases |octets|
  {
    if |octets| == 0 || c.corrupted != 0 then c else InputOctets(InputOctet(c, octets[0]), octets[1..])
  }

  lemma InputOctetsStep(c: Context, octets: seq<Byte>)
    requires c.WellFormed() && octets != [] && c.corrupted == 0
    ensures InputOctets(c, octets) == InputOctets(InputOctet(c, octets[0]), octets[1..])
  {
    hide InputOctet;
  }

  lemma NothingLeft(c: Context, octets: seq<Byte>)
    requires c.WellFormed() && (octets == [] || c.corrupted != 0)
    ensures InputOctets(c, octets) == c
  {
    hide InputOctet;
  }

  function Input(c: Context, octets: seq<Byte>): (Context, int)
    requires c.WellFormed()
  {
    if |octets| == 0 then (c, SUCCESS)
    else if c.computed then (c.(corrupted := STATE_ERROR), STATE_ERROR)
    else if c.corrupted != 0 then (c, c.corrupted)
    else (InputOctets(c, octets), SUCCESS)
  }

  function LengthOctets(high: int, low: int): (o: seq<Byte>)
    requires 0 <= low && 0 <= high
    ensures |o| == 8
  {
    [(high / 0x100_0000 % 256) as Byte, (high / 0x1_0000 % 256) as Byte,
     (high / 0x100 % 256) as Byte, (high % 256) as Byte,
     (low / 0x100_0000 % 256) as Byte, (low / 0x1_0000 % 256) as Byte,
     (low / 0x100 % 256) as Byte, (low % 256) as Byte]
  }

  // SHA1PadMessage: the length fits the current block, or a second block is needed.
  function PadMessage(c: Context): Context
    requires c.WellFormed()
  {
    var marked := c.block[..c.index] + [0x80];
    if c.index > 55 then
      var first := ProcessBlock(c.(block := marked + Zeros(63 - c.index)));
      ProcessBlock(first.(block := Zeros(56) + LengthOctets(c.high, c.low)))
    else
      ProcessBlock(c.(block := marked + Zeros(55 - c.index) + LengthOctets(c.high, c.low)))
  }

  datatype Outcome = Outcome(code: int, digest: seq<Byte>)

  function Result(c: Context): (Context, Outcome)
    requires c.WellFormed()
  {
    if c.corrupted != 0 then (c, Outcome(c.corrupted, []))
    else
      var done := if c.computed then c
                  else PadMessage(c).(block := Zeros(64), low := 0, high := 0, computed := true);
      (done, Outcome(SUCCESS, DigestOctets(done.hash)))
  }
}

// The mutable context itself.
module Sha1Imperative {
  import opened Octets
  import opened Sha1Spec
  import opened Sha1Stream

  class Sha1Context {
    const intermediateHash: array<Word>
    const messageBlock: array<Byte>
    var lengthLow: int
    var lengthHigh: int
    var messageBlockIndex: int
    var computed: bool
    var corrupted: int

    ghost predicate Shape()
      reads this
    {
      intermediateHash.Length == 5 && messageBlock.Length == 64
      && 0 <= lengthLow < 0x1_0000_0000 && 0 <= lengthHigh < 0x1_0000_0000
      && 0 <= messageBlockIndex <= 64
    }

    ghost predicate Valid()
      reads this
    {
      Shape() && messageBlockIndex < 64
    }

    ghost function HashValue(): Hash
      requires Shape()
      reads this, intermediateHash
    {
      Hash(intermediateHash[0], intermediateHash[1], intermediateHash[2], intermediateHash[3], intermediateHash[4])
    }

    ghost function Value(): (c: Context)
      requires Shape()
      reads this, intermediateHash, messageBlock
      ensures Valid() ==> c.WellFormed()
    {
      Context(HashValue(), lengthLow, lengthHigh, messageBlockIndex, messageBlock[..], computed, corrupted)
    }

    constructor ()
      ensures Shape() && fresh(intermediateHash) && fresh(messageBlock)
    {
      intermediateHash := new Word[5];
      messageBlock := new Byte[64];
      lengthLow, lengthHigh, messageBlockIndex, computed, corrupted := 0, 0, 0, false, 0;
    }

    method Reset() returns (code: int)
      requires Shape()
      modifies this, intermediateHash
      ensures Valid() && Value() == Sha1Stream.Reset(messageBlock[..])
      ensures code == SUCCESS
    {
      lengthLow := 0;
      lengthHigh := 0;
      messageBlockIndex := 0;
      intermediateHash[0] := 0x67452301;
      intermediateHash[1] := 0xEFCDAB89;
      intermediateHash[2] := 0x98BADCFE;
      intermediateHash[3] := 0x10325476;
      intermediateHash[4] := 0xC3D2E1F0;
      computed := false;
      corrupted := 0;
      code := SUCCESS;
    }

    // Assembles one of the first sixteen words, octet by octet.
    method ReadWord(w: array<Word>, t: nat)
      requires Shape() && w.Length == 80 && t < 16 && w != intermediateHash
      modifies w
      ensures w[t] == WordAt(messageBlock[..], t)
      ensures forall i :: 0 <= i < 80 && i != t ==> w[i] == old(w[i])
    {
      hide Placed;
      w[t] := Placed(messageBlock[t * 4], 24);
      w[t] := w[t] | Placed(messageBlock[t * 4 + 1], 16);
      w[t] := w[t] | Placed(messageBlock[t * 4 + 2], 8);
      w[t] := w[t] | Placed(messageBlock[t * 4 + 3], 0);
    }

    // The schedule W of the block in the buffer.
    method FillSchedule() returns (w: array<Word>)
      requires Shape()
      ensures fresh(w) && w.Length == 80
      ensures forall t :: 0 <= t < 80 ==> w[t] == Schedule(messageBlock[..], t)
    {
      hide Expand, WordAt;
      w := new Word[80];
      var t := 0;
      while t < 16
        invariant 0 <= t <= 16
        invariant forall i :: 0 <= i < t ==> w[i] == Schedule(messageBlock[..], i)
      {
        ReadWord(w, t);
        t := t + 1;
      }
      while t < 80
        invariant 16 <= t <= 80
        invariant forall i :: 0 <= i < t ==> w[i] == Schedule(messageBlock[..], i)
      {
        w[t] := Expand(w[t - 3], w[t - 8], w[t - 14], w[t - 16]);
        t := t + 1;
      }
    }

    // The four loops of SHA1ProcessMessageBlock: the working variables after eighty rounds.
    method RunRounds() returns (h: Hash)
      requires Shape()
      ensures h == Rounds(HashValue(), messageBlock[..], 80)
    {
      hide Rotate5, Rotate30, Schedule, Choose, Parity, Majority, Sum;
      var w := FillSchedule();
      ghost var start, block := HashValue(), messageBlock[..];
      var a, b, c, d, e := intermediateHash[0], intermediateHash[1], intermediateHash[2], intermediateHash[3],
        intermediateHash[4];
      var t := 0;
      while t < 20
        invariant 0 <= t <= 20
        invariant Hash(a, b, c, d, e) == Rounds(start, block, t)
      {
        var temp := Sum(Rotate5(a), Choose(b, c, d), e, w[t], 0x5A827999);
        e := d;
        d := c;
        c := Rotate30(b);
        b := a;
        a := temp;
        t := t + 1;
      }
      while t < 40
        invariant 20 <= t <= 40
        invariant Hash(a, b, c, d, e) == Rounds(start, block, t)
      {
        var temp := Sum(Rotate5(a), Parity(b, c, d), e, w[t], 0x6ED9EBA1);
        e := d;
        d := c;
        c := Rotate30(b);
        b := a;
        a := temp;
        t := t + 1;
      }
      while t < 60
        invariant 40 <= t <= 60
        invariant Hash(a, b, c, d, e) == Rounds(start, block, t)
      {
        var temp := Sum(Rotate5(a), Majority(b, c, d), e, w[t], 0x8F1BBCDC);
        e := d;
        d := c;
        c := Rotate30(b);
        b := a;
        a := temp;
        t := t + 1;
      }
      while t < 80
        invariant 60 <= t <= 80
        invariant Hash(a, b, c, d, e) == Rounds(start, block, t)
      {
        var temp := Sum(Rotate5(a), Parity(b, c, d), e, w[t], 0xCA62C1D6);
        e := d;
        d := c;
        c := Rotate30(b);
        b := a;
        a := temp;
        t := t + 1;
      }
      h := Hash(a, b, c, d, e);
    }

    method ProcessMessageBlock()
      requires Shape()
      modifies this`messageBlockIndex, intermediateHash
      ensures Valid() && Value() == ProcessBlock(old(Value()))
    {
      hide Rounds, Plus;
      var h := RunRounds();
      intermediateHash[0] := Plus(intermediateHash[0], h.a);
      intermediateHash[1] := Plus(intermediateHash[1], h.b);
      intermediateHash[2] := Plus(intermediateHash[2], h.c);
      intermediateHash[3] := Plus(intermediateHash[3], h.d);
      intermediateHash[4] := Plus(intermediateHash[4], h.e);
      messageBlockIndex := 0;
    }

    // The body of SHA1Input's loop.
    method InputOneOctet(octet: Byte)
      requires Valid()
      modifies this, intermediateHash, messageBlock
      ensures Valid() && Value() == InputOctet(old(Value()), octet)
    {
      hide Compress;
      messageBlock[messageBlockIndex] := octet;
      messageBlockIndex := messageBlockIndex + 1;
      lengthLow := (lengthLow + 8) % 0x1_0000_0000;
      if lengthLow == 0 {
        lengthHigh := (lengthHigh + 1) % 0x1_0000_0000;
        if lengthHigh == 0 {
          corrupted := TOO_LONG;
        }
      }
      if messageBlockIndex == 64 {
        ProcessMessageBlock();
      }
    }

    // message == null stands for the null pointer the source tests for.
    method Input(message: array?<Byte>, length: nat) returns (code: int)
      requires Valid()
      requires message != null ==> length <= message.Length && message != messageBlock
      modifies this, intermediateHash, messageBlock
      ensures Valid()
      ensures length == 0 || message != null ==>
                (Value(), code) == Sha1Stream.Input(old(Value()), if length == 0 then [] else old(message[..length]))
      ensures length != 0 && message == null ==> Value() == old(Value()) && code == 1
    {
      hide Compress, InputOctet, InputOctets;
      if length == 0 {
        return SUCCESS;
      }
      if message == null {
        return NULL_ARGUMENT;
      }
      if computed {
        corrupted := STATE_ERROR;
        return STATE_ERROR;
      }
      if corrupted != 0 {
        return corrupted;
      }
      var k := 0;
      while k < length && corrupted == 0
        invariant 0 <= k <= length && Valid()
        invariant message[..length] == old(message[..length])
        invariant InputOctets(old(Value()), message[..length]) == InputOctets(Value(), message[k..length])
      {
        assert message[k..length][1..] == message[k + 1..length];
        InputOctetsStep(Value(), message[k..length]);
        InputOneOctet(message[k]);
        k := k + 1;
      }
      NothingLeft(Value(), message[k..length]);
      code := SUCCESS;
    }

    // Writes zeros from the current index up to limit.
    method ZeroFill(limit: int)
      requires Shape() && messageBlockIndex <= limit <= 64
      modifies this`messageBlockIndex, messageBlock
      ensures Shape() && messageBlockIndex == limit
      ensures messageBlock[..limit] == old(messageBlock[..messageBlockIndex]) + Zeros(limit - old(messageBlockIndex))
    {
      while messageBlockIndex < limit
        invariant Shape() && old(messageBlockIndex) <= messageBlockIndex <= limit
        invariant messageBlock[..messageBlockIndex]
               == old(messageBlock[..messageBlockIndex]) + Zeros(messageBlockIndex - old(messageBlockIndex))
      {
        messageBlock[messageBlockIndex] := 0;
        messageBlockIndex := messageBlockIndex + 1;
      }
    }

    // The mark behind the message, and zeros up to limit.
    method MarkEnd(limit: int)
      requires Valid() && messageBlockIndex < limit <= 64
      modifies this`messageBlockIndex, messageBlock
      ensures Shape() && messageBlockIndex == limit
      ensures messageBlock[..limit]
           == old(messageBlock[..messageBlockIndex]) + [0x80] + Zeros(limit - 1 - old(messageBlockIndex))
    {
      ghost var marked := messageBlock[..messageBlockIndex] + [0x80];
      messageBlock[messageBlockIndex] := 0x80;
      messageBlockIndex := messageBlockIndex + 1;
      assert messageBlock[..messageBlockIndex] == marked;
      ZeroFill(limit);
    }

    method PadMessage()
      requires Valid()
      modifies this`messageBlockIndex, intermediateHash, messageBlock
      ensures Valid() && Value() == Sha1Stream.PadMessage(old(Value()))
    {
      hide Compress, LengthOctets;
      ghost var start := Value();
      ghost var marked := messageBlock[..messageBlockIndex] + [0x80];
      if messageBlockIndex > 55 {
        MarkEnd(64);
        assert messageBlock[..] == marked + Zeros(63 - start.index);
        ProcessMessageBlock();
        ZeroFill(56);
        assert messageBlock[..56] == Zeros(56);
      } else {
        MarkEnd(56);
      }
      ghost var front := messageBlock[..56];
      StoreLength();
      assert messageBlock[..] == front + LengthOctets(start.high, start.low);
      ProcessMessageBlock();
    }

    // The length, as the last eight octets of the block.
    method StoreLength()
      requires Shape()
      modifies messageBlock
      ensures messageBlock[..] == old(messageBlock[..56]) + LengthOctets(lengthHigh, lengthLow)
    {
      ghost var front, octets := messageBlock[..56], LengthOctets(lengthHigh, lengthLow);
      messageBlock[56] := (lengthHigh / 0x100_0000 % 256) as Byte;
      messageBlock[57] := (lengthHigh / 0x1_0000 % 256) as Byte;
      messageBlock[58] := (lengthHigh / 0x100 % 256) as Byte;
      messageBlock[59] := (lengthHigh % 256) as Byte;
      messageBlock[60] := (lengthLow / 0x100_0000 % 256) as Byte;
      messageBlock[61] := (lengthLow / 0x1_0000 % 256) as Byte;
      messageBlock[62] := (lengthLow / 0x100 % 256) as Byte;
      messageBlock[63] := (lengthLow % 256) as Byte;
      assert messageBlock[..56] == front;
      assert messageBlock[56..] == octets;
      assert messageBlock[..] == messageBlock[..56] + messageBlock[56..];
    }

    lemma NumberOfWord(k: nat)
      requires Shape() && k < 5
      ensures WordNumber(HashValue(), k) == intermediateHash[k]
    {
    }

    // The copy loop of SHA1Result.
    method WriteDigest(digest: array<Byte>)
      requires Shape() && digest.Length == 20 && digest != messageBlock
      modifies digest
      ensures digest[..] == DigestOctets(HashValue())
    {
      hide DigestOctets, OctetOf, WordNumber;
      var i := 0;
      while i < 20
        invariant 0 <= i <= 20
        invariant forall k :: 0 <= k < i ==> digest[k] == DigestOctets(HashValue())[k]
      {
        DigestOctetsAt(HashValue(), i);
        NumberOfWord(i / 4);
        digest[i] := OctetOf(intermediateHash[i / 4], i % 4);
        i := i + 1;
      }
    }

    // Clears the block, which may hold the end of the message.
    method ClearBlock()
      requires Shape()
      modifies messageBlock
      ensures messageBlock[..] == Zeros(64)
    {
      var i := 0;
      while i < 64
        invariant 0 <= i <= 64
        invariant forall j :: 0 <= j < i ==> messageBlock[j] == 0
      {
        messageBlock[i] := 0;
        i := i + 1;
      }
    }

    method Result(digest: array?<Byte>) returns (code: int)
      requires Valid()
      requires digest != null ==> digest.Length == 20 && digest != messageBlock
      modifies this, intermediateHash, messageBlock, digest
      ensures Valid()
      ensures digest == null ==> Value() == old(Value()) && code == 1
      ensures digest != null ==>
                var (after, outcome) := Sha1Stream.Result(old(Value()));
                Value() == after && code == outcome.code
                && digest[..] == (if code == SUCCESS then outcome.digest else old(digest[..]))
    {
      hide Compress, Sha1Stream.PadMessage;
      if digest == null {
        return NULL_ARGUMENT;
      }
      if corrupted != 0 {
        return corrupted;
      }
      if !computed {
        PadMessage();
        ClearBlock();
        lengthLow := 0;
        lengthHigh := 0;
        computed := true;
      }
      WriteDigest(digest);
      code := SUCCESS;
    }
  }
}
