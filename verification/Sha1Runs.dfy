// What the streaming functions promise: every run of Reset, Input and Result answers exactly like
// a machine that only remembers the octets supplied so far and hashes them in one shot.
module Sha1Runs {
  import opened Common
  import opened Octets
  import opened Sha1Spec
  import opened Sha1Stream

  datatype Operation = OpReset | OpInput(octets: seq<Byte>) | OpResult

  function Step(c: Context, op: Operation): (r: (Context, Outcome))
    requires c.WellFormed()
    ensures r.0.WellFormed()
  {
    match op
    case OpReset => (Reset(c.block), Outcome(SUCCESS, []))
    case OpInput(octets) => var (d, code) := Input(c, octets); (d, Outcome(code, []))
    case OpResult => Result(c)
  }

  function Run(c: Context, ops: seq<Operation>): (r: (Context, seq<Outcome>))
    requires c.WellFormed()
    ensures r.0.WellFormed() && |r.1| == |ops|
    decreases |ops|
  {
    if |ops| == 0 then (c, [])
    else
      var (d, outcome) := Step(c, ops[0]);
      var (e, rest) := Run(d, ops[1..]);
      (e, [outcome] + rest)
  }

  // The one-shot machine: the message so far, whether Result has answered, and the error.
  datatype OneShot = OneShot(message: seq<Byte>, finished: bool, error: int)

  function OneShotStep(s: OneShot, op: Operation): (OneShot, Outcome)
  {
    match op
    case OpReset => (OneShot([], false, 0), Outcome(SUCCESS, []))
    case OpInput(octets) =>
      if |octets| == 0 then (s, Outcome(SUCCESS, []))
      else if s.finished then (s.(error := STATE_ERROR), Outcome(STATE_ERROR, []))
      else if s.error != 0 then (s, Outcome(s.error, []))
      else (Supply(s, octets), Outcome(SUCCESS, []))
    case OpResult =>
      if s.error != 0 then (s, Outcome(s.error, []))
      else (s.(finished := true), Outcome(SUCCESS, Sha1(s.message)))
  }

  // The call that reaches 2^61 octets still reports success; later calls report the error.
  function Supply(s: OneShot, octets: seq<Byte>): OneShot
  {
    s.(message := s.message + octets, error := if |s.message| + |octets| < LENGTH_LIMIT then 0 else TOO_LONG)
  }

  function OneShotRun(s: OneShot, ops: seq<Operation>): (OneShot, seq<Outcome>)
    decreases |ops|
  {
    if |ops| == 0 then (s, [])
    else
      var (t, outcome) := OneShotStep(s, ops[0]);
      var (u, rest) := OneShotRun(t, ops[1..]);
      (u, [outcome] + rest)
  }

  // The context holds exactly the message supplied so far.
  ghost predicate Holds(c: Context, message: seq<Byte>)
    requires c.WellFormed()
  {
    && |message| < LENGTH_LIMIT
    && c.high * 0x1_0000_0000 + c.low == 8 * |message|
    && c.index == |message| % 64
    && c.block[..c.index] == message[|message| - c.index..]
    && c.hash == HashBlocks(INITIAL, message)
  }

  ghost predicate Simulates(c: Context, s: OneShot)
    requires c.WellFormed()
  {
    && c.computed == s.finished
    && c.corrupted == s.error
    && (s.error == 0 && !s.finished ==> Holds(c, s.message))
    && (s.error == 0 && s.finished ==> c.hash == HashBlocks(INITIAL, Pad(s.message)))
  }

  // A context that has been reset holds the empty message.
  lemma ResetHolds(block: seq<Byte>)
    requires |block| == 64
    ensures Holds(Reset(block), [])
  {
    hide Compress;
  }

  // A final incomplete block does not contribute yet.
  lemma HashOfPartial(h: Hash, data: seq<Byte>, k: nat)
    requires k <= |data| && (|data| - k) % 64 == 0 && k < 64
    ensures HashBlocks(h, data) == HashBlocks(h, data[..|data| - k])
  {
    hide Compress;
    assert data == data[..|data| - k] + data[|data| - k..];
    HashBlocksConcat(h, data[..|data| - k], data[|data| - k..]);
  }

  lemma HashOfOne(h: Hash, block: seq<Byte>)
    requires |block| == 64
    ensures HashBlocks(h, block) == Compress(h, block)
  {
    hide Compress;
    assert block[..64] == block;
    assert HashBlocks(Compress(h, block), block[64..]) == Compress(h, block);
  }

  lemma HashOfExtended(h: Hash, data: seq<Byte>, k: nat, block: seq<Byte>)
    requires k <= |data| && (|data| - k) % 64 == 0 && k < 64 && |block| == 64
    requires data[|data| - k..] == block[..k]
    ensures HashBlocks(h, data + block[k..]) == Compress(HashBlocks(h, data), block)
  {
    hide Compress, HashBlocks;
    HashOfPartial(h, data, k);
    var whole := data[..|data| - k];
    assert data == whole + block[..k] && block == block[..k] + block[k..];
    assert data + block[k..] == whole + block;
    HashBlocksConcat(h, whole, block);
    HashOfOne(HashBlocks(h, whole), block);
  }

  lemma AddEight(high: int, low: int, n: nat)
    requires 0 <= low < 0x1_0000_0000 && 0 <= high < 0x1_0000_0000 && high * 0x1_0000_0000 + low == 8 * n
    ensures var l := (low + 8) % 0x1_0000_0000;
            var h := if l == 0 then (high + 1) % 0x1_0000_0000 else high;
            if n + 1 < LENGTH_LIMIT then (l != 0 || h != 0) && h * 0x1_0000_0000 + l == 8 * (n + 1)
            else l == 0 && h == 0
  {
    var k := n - 0x2000_0000 * high;
    assert low == 8 * k && k < 0x2000_0000;
    if k + 1 == 0x2000_0000 {
      assert (low + 8) % 0x1_0000_0000 == 0;
    } else {
      assert (low + 8) % 0x1_0000_0000 == low + 8;
    }
  }

  // Adding eight to the 64-bit length, as two words, wraps exactly at 2^61 octets.
  lemma LengthCounts(c: Context, message: seq<Byte>, octet: Byte)
    requires c.WellFormed() && c.corrupted == 0 && Holds(c, message)
    ensures var d := InputOctet(c, octet);
            if |message| + 1 < LENGTH_LIMIT then
              d.corrupted == 0 && d.high * 0x1_0000_0000 + d.low == 8 * (|message| + 1)
            else d.corrupted == TOO_LONG
  {
    hide Compress, HashBlocks;
    AddEight(c.high, c.low, |message|);
  }

  lemma BlockCompletes(c: Context, message: seq<Byte>, octet: Byte)
    requires c.WellFormed() && Holds(c, message) && c.index == 63
    ensures var d := InputOctet(c, octet);
            d.hash == HashBlocks(INITIAL, message + [octet]) && d.index == 0
  {
    hide Compress;
    var block := c.block[63 := octet];
    assert block[63..] == [octet];
    HashOfExtended(INITIAL, message, 63, block);
  }

  lemma BlockGrows(c: Context, message: seq<Byte>, octet: Byte)
    requires c.WellFormed() && Holds(c, message) && c.index < 63
    ensures var d := InputOctet(c, octet);
            d.hash == HashBlocks(INITIAL, message + [octet]) && d.index == c.index + 1
            && d.block[..d.index] == c.block[..c.index] + [octet]
  {
    hide Compress, HashBlocks;
    var extended := message + [octet];
    HashOfPartial(INITIAL, message, c.index);
    HashOfPartial(INITIAL, extended, c.index + 1);
    assert extended[..|extended| - (c.index + 1)] == message[..|message| - c.index];
  }

  lemma NextIndex(n: nat)
    ensures (n + 1) % 64 == if n % 64 == 63 then 0 else n % 64 + 1
  {
  }

  lemma TailGrows(message: seq<Byte>, octet: Byte, k: nat)
    requires k <= |message|
    ensures (message + [octet])[|message| - k..] == message[|message| - k..] + [octet]
    ensures (message + [octet])[|message| + 1..] == []
  {
  }

  lemma InputOctetHolds(c: Context, message: seq<Byte>, octet: Byte)
    requires c.WellFormed() && c.corrupted == 0 && !c.computed && Holds(c, message)
    ensures var d := InputOctet(c, octet);
            !d.computed
            && if |message| + 1 < LENGTH_LIMIT then d.corrupted == 0 && Holds(d, message + [octet])
               else d.corrupted == TOO_LONG
  {
    hide InputOctet, HashBlocks;
    InputOctetKeepsFlag(c, octet);
    LengthCounts(c, message, octet);
    NextIndex(|message|);
    TailGrows(message, octet, c.index);
    if c.index == 63 {
      BlockCompletes(c, message, octet);
    } else {
      BlockGrows(c, message, octet);
    }
  }

  lemma InputOctetKeepsFlag(c: Context, octet: Byte)
    requires c.WellFormed()
    ensures InputOctet(c, octet).computed == c.computed
  {
    hide Compress;
  }

  lemma {:induction false} InputOctetsHolds(c: Context, message: seq<Byte>, octets: seq<Byte>)
    requires c.WellFormed() && c.corrupted == 0 && !c.computed && Holds(c, message)
    ensures var d := InputOctets(c, octets);
            !d.computed
            && if |message| + |octets| < LENGTH_LIMIT then d.corrupted == 0 && Holds(d, message + octets)
               else d.corrupted == TOO_LONG
    decreases |octets|
  {
    hide Compress, InputOctet;
    if |octets| == 0 {
      assert message + octets == message;
    } else {
      var d := InputOctet(c, octets[0]);
      InputOctetHolds(c, message, octets[0]);
      if |message| + 1 < LENGTH_LIMIT {
        assert message + [octets[0]] + octets[1..] == message + octets;
        InputOctetsHolds(d, message + [octets[0]], octets[1..]);
      }
    }
  }

  lemma LengthOctetsAreBigEndian(high: nat, low: nat)
    requires low < 0x1_0000_0000
    ensures LengthOctets(high, low) == ToBigEndian(high * 0x1_0000_0000 + low, 8)
  {
    hide ToBigEndian;
    PowersOf256(4);
    ToBigEndianSplits(high, low, 4, 4);
    FourOctets(high);
    FourOctets(low);
  }

  // Padding the buffered block hashes the padded message, in one extra block or in two.

  lemma PadInOneBlock(c: Context, message: seq<Byte>)
    requires c.WellFormed() && Holds(c, message) && c.index <= 55
    ensures PadMessage(c).hash == HashBlocks(INITIAL, Pad(message))
  {
    hide *;
    PaddedOnce(c, message);
    HoldsIndex(c, message);
    PadShort(message, c.index);
    HashOfBuffered(c, message, [0x80] + Zeros(55 - c.index) + ToBigEndian(8 * |message|, 8));
  }

  // The buffered octets and the rest of a block.
  lemma HashOfBuffered(c: Context, message: seq<Byte>, rest: seq<Byte>)
    requires c.WellFormed() && Holds(c, message) && |rest| == 64 - c.index
    ensures HashBlocks(INITIAL, message + rest) == Compress(c.hash, c.block[..c.index] + rest)
    ensures |message + rest| % 64 == 0
  {
    hide Compress, HashBlocks;
    var front := c.block[..c.index];
    WholeBlocks(|message|);
    assert (front + rest)[..|front|] == front && (front + rest)[|front|..] == rest;
    HashOfExtended(INITIAL, message, c.index, front + rest);
  }

  lemma WholeBlocks(n: nat)
    ensures (n - n % 64) % 64 == 0 && (n - n % 64 + 64) % 64 == 0
  {
  }

  lemma PadShort(message: seq<Byte>, index: nat)
    requires index <= 55 && index == |message| % 64
    ensures Pad(message) == message + ([0x80] + Zeros(55 - index) + ToBigEndian(8 * |message|, 8))
  {
    hide ToBigEndian, Zeros;
  }

  lemma PaddedOnce(c: Context, message: seq<Byte>)
    requires c.WellFormed() && Holds(c, message) && c.index <= 55
    ensures PadMessage(c).hash
         == Compress(c.hash, c.block[..c.index] + ([0x80] + Zeros(55 - c.index) + ToBigEndian(8 * |message|, 8)))
  {
    hide Compress, LengthOctets, ToBigEndian, HashBlocks, Zeros;
    LengthOctetsAreBigEndian(c.high, c.low);
    var front, zeros, length := c.block[..c.index], Zeros(55 - c.index), ToBigEndian(8 * |message|, 8);
    assert front + [0x80] + zeros + length == front + ([0x80] + zeros + length);
  }

  lemma PadInTwoBlocks(c: Context, message: seq<Byte>)
    requires c.WellFormed() && Holds(c, message) && c.index > 55
    ensures PadMessage(c).hash == HashBlocks(INITIAL, Pad(message))
  {
    hide Holds, Pad, PadMessage, Compress, HashBlocks, ToBigEndian, Zeros;
    var ending := [0x80] + Zeros(63 - c.index);
    var second := Zeros(56) + ToBigEndian(8 * |message|, 8);
    PaddedTwice(c, message);
    HashOfBuffered(c, message, ending);
    HashOfNext(message + ending, second);
    HoldsIndex(c, message);
    PadLong(message, c.index);
  }

  lemma HoldsIndex(c: Context, message: seq<Byte>)
    requires c.WellFormed() && Holds(c, message)
    ensures c.index == |message| % 64
  {
    hide HashBlocks;
  }

  lemma PadLong(message: seq<Byte>, index: nat)
    requires 55 < index < 64 && index == |message| % 64
    ensures Pad(message) == message + ([0x80] + Zeros(63 - index)) + (Zeros(56) + ToBigEndian(8 * |message|, 8))
  {
    hide ToBigEndian, Zeros;
    ZerosAdd(63 - index, 56);
    Regrouped(message, [0x80], Zeros(63 - index), Zeros(56), ToBigEndian(8 * |message|, 8));
  }

  lemma ZerosAdd(m: nat, n: nat)
    ensures Zeros(m + n) == Zeros(m) + Zeros(n)
  {
  }

  lemma Regrouped(m: seq<Byte>, a: seq<Byte>, b: seq<Byte>, c: seq<Byte>, d: seq<Byte>)
    ensures m + (a + (b + c) + d) == m + (a + b) + (c + d)
  {
    Associative(a, b, c);
    Associative(a + b, c, d);
    Associative(m, a + b, c + d);
  }

  lemma PaddedTwice(c: Context, message: seq<Byte>)
    requires c.WellFormed() && Holds(c, message) && c.index > 55
    ensures PadMessage(c).hash
         == Compress(Compress(c.hash, c.block[..c.index] + ([0x80] + Zeros(63 - c.index))),
                     Zeros(56) + ToBigEndian(8 * |message|, 8))
  {
    hide Compress, LengthOctets, ToBigEndian, HashBlocks, Zeros;
    LengthOctetsAreBigEndian(c.high, c.low);
    var front, zeros := c.block[..c.index], Zeros(63 - c.index);
    assert front + [0x80] + zeros == front + ([0x80] + zeros);
  }

  lemma HashOfNext(data: seq<Byte>, block: seq<Byte>)
    requires |data| % 64 == 0 && |block| == 64
    ensures HashBlocks(INITIAL, data + block) == Compress(HashBlocks(INITIAL, data), block)
  {
    hide Compress, HashBlocks;
    assert block[0..] == block && data[|data|..] == block[..0];
    HashOfExtended(INITIAL, data, 0, block);
  }

  lemma PadMessageHashes(c: Context, message: seq<Byte>)
    requires c.WellFormed() && Holds(c, message)
    ensures PadMessage(c).hash == HashBlocks(INITIAL, Pad(message))
    ensures PadMessage(c).corrupted == c.corrupted
  {
    hide Compress, LengthOctets, ToBigEndian, Holds;
    if c.index <= 55 {
      PadInOneBlock(c, message);
    } else {
      PadInTwoBlocks(c, message);
    }
  }

  // One operation: same answer, and the simulation goes on.
  lemma {:induction false} StepSimulates(c: Context, s: OneShot, op: Operation)
    requires c.WellFormed() && Simulates(c, s)
    ensures var (d, outcome) := Step(c, op);
            var (t, expected) := OneShotStep(s, op);
            Simulates(d, t) && outcome == expected
  {
    hide Compress, Pad, PadMessage, InputOctets, DigestOctets;
    match op
    case OpReset =>
    case OpInput(octets) =>
      if |octets| != 0 && !c.computed && c.corrupted == 0 {
        InputOctetsHolds(c, s.message, octets);
      }
    case OpResult =>
      if c.corrupted == 0 && !c.computed {
        PadMessageHashes(c, s.message);
      }
  }

  // Every run answers like the one-shot machine.
  lemma {:induction false} RunsAgree(c: Context, s: OneShot, ops: seq<Operation>)
    requires c.WellFormed() && Simulates(c, s)
    ensures Run(c, ops).1 == OneShotRun(s, ops).1
    ensures Simulates(Run(c, ops).0, OneShotRun(s, ops).0)
    decreases |ops|
  {
    hide Simulates, Step, OneShotStep;
    if |ops| != 0 {
      StepSimulates(c, s, ops[0]);
      RunsAgree(Step(c, ops[0]).0, OneShotStep(s, ops[0]).0, ops[1..]);
    }
  }

  // After a Reset, whatever the context held before: for every run, the context stays in step with
  // the octets supplied since the last Reset. In particular, while there is no error and no Result,
  // the block index is the message length modulo 64 and the length words hold its bit length.
  lemma RunsAfterReset(c: Context, ops: seq<Operation>)
    requires c.WellFormed()
    ensures Run(Reset(c.block), ops).1 == OneShotRun(OneShot([], false, 0), ops).1
    ensures var (d, s) := (Run(Reset(c.block), ops).0, OneShotRun(OneShot([], false, 0), ops).0);
            && d.computed == s.finished && d.corrupted == s.error
            && (s.error == 0 && !s.finished ==>
                  |s.message| < LENGTH_LIMIT
                  && d.index == |s.message| % 64
                  && d.high * 0x1_0000_0000 + d.low == 8 * |s.message|)
  {
    hide Compress, HashBlocks;
    ResetHolds(c.block);
    RunsAgree(Reset(c.block), OneShot([], false, 0), ops);
  }

  // The splits of a message into Input calls.

  function Flatten(chunks: seq<seq<Byte>>): seq<Byte>
  {
    if |chunks| == 0 then [] else chunks[0] + Flatten(chunks[1..])
  }

  function Inputs(chunks: seq<seq<Byte>>): seq<Operation>
  {
    seq(|chunks|, i requires 0 <= i < |chunks| => OpInput(chunks[i]))
  }

  lemma {:induction false} InputsSupply(s: OneShot, chunks: seq<seq<Byte>>)
    requires !s.finished && s.error == 0 && |s.message| < LENGTH_LIMIT
    ensures var t := OneShotRun(s, Inputs(chunks)).0;
            !t.finished
            && if |s.message + Flatten(chunks)| < LENGTH_LIMIT
               then t == OneShot(s.message + Flatten(chunks), false, 0)
               else t.error == TOO_LONG
    decreases |chunks|
  {
    if |chunks| == 0 {
      assert s.message + Flatten(chunks) == s.message;
    } else {
      var ops := Inputs(chunks);
      assert ops[1..] == Inputs(chunks[1..]);
      var t := OneShotStep(s, ops[0]).0;
      assert s.message + chunks[0] + Flatten(chunks[1..]) == s.message + Flatten(chunks);
      assert |chunks[0]| == 0 ==> s.message + chunks[0] == s.message;
      if t.error == 0 {
        InputsSupply(t, chunks[1..]);
      } else {
        TooLongStays(t, chunks[1..]);
      }
    }
  }

  lemma {:induction false} TooLongStays(s: OneShot, chunks: seq<seq<Byte>>)
    requires !s.finished && s.error == TOO_LONG
    ensures OneShotRun(s, Inputs(chunks)).0 == s
    decreases |chunks|
  {
    if |chunks| != 0 {
      assert Inputs(chunks)[1..] == Inputs(chunks[1..]);
      TooLongStays(s, chunks[1..]);
    }
  }

  // Main theorem. However a message is cut into Input calls, Result gives the digest of section 6.1
  // exactly when the message is shorter than 2^61 octets, and the error value 1 otherwise.
  lemma {:induction false} StreamingIsOneShot(c: Context, chunks: seq<seq<Byte>>)
    requires c.WellFormed()
    ensures Result(Run(Reset(c.block), Inputs(chunks)).0).1
         == if |Flatten(chunks)| < 0x2000_0000_0000_0000 then Outcome(0, Sha1(Flatten(chunks))) else Outcome(1, [])
  {
    hide Compress, Sha1, PadMessage;
    var start := OneShot([], false, 0);
    var d, s := Run(Reset(c.block), Inputs(chunks)).0, OneShotRun(start, Inputs(chunks)).0;
    RunsAgree(Reset(c.block), start, Inputs(chunks));
    InputsSupply(start, chunks);
    assert [] + Flatten(chunks) == Flatten(chunks);
    StepSimulates(d, s, OpResult);
  }

  lemma StateAfterInputs(c: Context, chunks: seq<seq<Byte>>)
    requires c.WellFormed() && |Flatten(chunks)| < 0x2000_0000_0000_0000
    ensures Simulates(Run(Reset(c.block), Inputs(chunks)).0, OneShot(Flatten(chunks), false, 0))
  {
    hide Compress, Simulates;
    ResetSimulates(c);
    RunsAgree(Reset(c.block), OneShot([], false, 0), Inputs(chunks));
    InputsSupply(OneShot([], false, 0), chunks);
    assert [] + Flatten(chunks) == Flatten(chunks);
  }

  lemma ResetSimulates(c: Context)
    requires c.WellFormed()
    ensures Simulates(Reset(c.block), OneShot([], false, 0))
  {
    ResetHolds(c.block);
    hide HashBlocks;
  }

  lemma ResultAnswers(c: Context, s: OneShot)
    requires c.WellFormed() && Simulates(c, s) && s.error == 0
    ensures Result(c).0.WellFormed() && Simulates(Result(c).0, s.(finished := true))
    ensures Result(c).1 == Outcome(0, Sha1(s.message))
  {
    hide Compress, Sha1, Simulates, Result;
    StepSimulates(c, s, OpResult);
    assert Step(c, OpResult) == Result(c);
  }

  lemma LateInput(c: Context, s: OneShot, octets: seq<Byte>)
    requires c.WellFormed() && Simulates(c, s) && s.finished && s.error == 0 && octets != []
    ensures Input(c, octets).1 == 3 && Result(Input(c, octets).0).1 == Outcome(3, [])
  {
    hide Compress, HashBlocks;
  }

  // A second Result gives the same digest. Octets behind a Result are refused with the error value 3,
  // which every later Result gives too.
  lemma {:induction false} LateOctetsAreRefused(c: Context, chunks: seq<seq<Byte>>, octets: seq<Byte>)
    requires c.WellFormed() && |Flatten(chunks)| < 0x2000_0000_0000_0000 && octets != []
    ensures var d := Result(Run(Reset(c.block), Inputs(chunks)).0).0;
            && Result(d).1 == Outcome(0, Sha1(Flatten(chunks)))
            && Input(d, octets).1 == 3 && Result(Input(d, octets).0).1 == Outcome(3, [])
  {
    hide Compress, Sha1, Result, Input, Simulates, Flatten, Inputs, Run, PadMessage;
    var (c1, s1) := (Run(Reset(c.block), Inputs(chunks)).0, OneShot(Flatten(chunks), false, 0));
    var (c2, s2) := (Result(c1).0, s1.(finished := true));
    StateAfterInputs(c, chunks);
    ResultAnswers(c1, s1);
    ResultAnswers(c2, s2);
    LateInput(c2, s2, octets);
  }
}
