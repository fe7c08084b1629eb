// SHA-1 as section 4 and section 6.1 of RFC 3174 define it: padding, the message schedule,
// the round function and the fold over 512-bit blocks. Nothing here knows about contexts,
// partial blocks or length words.
module Sha1Spec {

  import opened Octets

  // The words of section 2; addition wraps. A type of its own, so that no array of words is one of octets.
  type Word = w: bv32 | true

  // The five chaining words.
  datatype Hash = Hash(a: Word, b: Word, c: Word, d: Word, e: Word)

  const INITIAL := Hash(0x67452301, 0xEFCDAB89, 0x98BADCFE, 0x10325476, 0xC3D2E1F0)

  // Exclusive upper bound on message lengths, in octets: 2^61 octets are 2^64 bits.
  const LENGTH_LIMIT: nat := 0x2000_0000_0000_0000

  // Section 4: the word before padding, the 0x80 octet, the zeros and the 64-bit length.

  function Zeros(n: nat): (z: seq<Byte>)
    ensures |z| == n
  {
    seq(n, _ => 0)
  }

  // The least number of zeros that leaves exactly eight octets of the last block for the length.
  function ZeroCount(length: nat): (k: nat)
    ensures k < 64 && (length % 64 + 1 + k) % 64 == 56
  {
    if length % 64 <= 55 then 55 - length % 64 else 119 - length % 64
  }

  function Pad(message: seq<Byte>): (p: seq<Byte>)
    ensures |p| == |message| + 9 + ZeroCount(|message|)
  {
    message + ([0x80] + Zeros(ZeroCount(|message|)) + ToBigEndian(8 * |message|, 8))
  }

  // Section 6.1: schedule, round function, block function.

  function Rotate1(w: Word): Word { (w << 1) | (w >> 31) }
  function Rotate5(w: Word): Word { (w << 5) | (w >> 27) }
  function Rotate30(w: Word): Word { (w << 30) | (w >> 2) }
  function Plus(x: Word, y: Word): Word { x + y }

  // A word of the schedule from the four words it depends on.
  function Expand(w3: Word, w8: Word, w14: Word, w16: Word): Word { Rotate1(w3 ^ w8 ^ w14 ^ w16) }

  // An octet, shifted to its place in a word.
  function Placed(octet: Byte, shift: Word): Word
    requires shift < 32
  {
    (octet as Word) << shift
  }

  function WordAt(block: seq<Byte>, t: nat): Word
    requires 4 * t + 3 < |block|
  {
    Placed(block[4 * t], 24) | Placed(block[4 * t + 1], 16) | Placed(block[4 * t + 2], 8) | Placed(block[4 * t + 3], 0)
  }

  function Schedule(block: seq<Byte>, t: nat): Word
    requires |block| == 64
  {
    if t < 16 then WordAt(block, t)
    else Expand(Schedule(block, t - 3), Schedule(block, t - 8), Schedule(block, t - 14), Schedule(block, t - 16))
  }

  function Choose(b: Word, c: Word, d: Word): Word { (b & c) | (!b & d) }
  function Parity(b: Word, c: Word, d: Word): Word { b ^ c ^ d }
  function Majority(b: Word, c: Word, d: Word): Word { (b & c) | (b & d) | (c & d) }

  // f(t; B, C, D) of section 5.
  function Mix(t: nat, b: Word, c: Word, d: Word): Word
  {
    if t < 20 then Choose(b, c, d)
    else if t < 40 then Parity(b, c, d)
    else if t < 60 then Majority(b, c, d)
    else Parity(b, c, d)
  }

  function RoundConstant(t: nat): Word
  {
    if t < 20 then 0x5A827999
    else if t < 40 then 0x6ED9EBA1
    else if t < 60 then 0x8F1BBCDC
    else 0xCA62C1D6
  }

  function Sum(rotated: Word, mixed: Word, e: Word, w: Word, k: Word): Word
  {
    rotated + mixed + e + w + k
  }

  function Round(t: nat, h: Hash, w: Word): Hash
  {
    Hash(Sum(Rotate5(h.a), Mix(t, h.b, h.c, h.d), h.e, w, RoundConstant(t)), h.a, Rotate30(h.b), h.c, h.d)
  }

  // The working variables after the first t rounds.
  function Rounds(h: Hash, block: seq<Byte>, t: nat): Hash
    requires |block| == 64
  {
    if t == 0 then h else Round(t - 1, Rounds(h, block, t - 1), Schedule(block, t - 1))
  }

  function Add(g: Hash, h: Hash): Hash
  {
    Hash(Plus(g.a, h.a), Plus(g.b, h.b), Plus(g.c, h.c), Plus(g.d, h.d), Plus(g.e, h.e))
  }

  function Compress(h: Hash, block: seq<Byte>): Hash
    requires |block| == 64
  {
    Add(h, Rounds(h, block, 80))
  }

  // Folds the complete blocks of data; Sha1 applies it to whole blocks only.
  function HashBlocks(h: Hash, data: seq<Byte>): Hash
    decreases |data|
  {
    if |data| < 64 then h else HashBlocks(Compress(h, data[..64]), data[64..])
  }

  // The 160-bit digest, most significant octet of each word first.
  function OctetOf(w: Word, k: nat): Byte
    requires k < 4
  {
    ((w >> (8 * (3 - k))) & 0xFF) as Byte
  }

  function WordOctets(w: Word): (o: seq<Byte>)
    ensures |o| == 4
  {
    [OctetOf(w, 0), OctetOf(w, 1), OctetOf(w, 2), OctetOf(w, 3)]
  }

  function DigestOctets(h: Hash): (d: seq<Byte>)
    ensures |d| == 20
  {
    WordOctets(h.a) + WordOctets(h.b) + WordOctets(h.c) + WordOctets(h.d) + WordOctets(h.e)
  }

  function WordNumber(h: Hash, k: nat): Word
    requires k < 5
  {
    if k == 0 then h.a else if k == 1 then h.b else if k == 2 then h.c else if k == 3 then h.d else h.e
  }

  lemma DigestOctetsAt(h: Hash, i: nat)
    requires i < 20
    ensures DigestOctets(h)[i] == OctetOf(WordNumber(h, i / 4), i % 4)
  {
    hide WordOctets;
    WordOctetsAt(WordNumber(h, i / 4), i % 4);
    assert |WordOctets(h.a)| == |WordOctets(h.b)| == |WordOctets(h.c)| == |WordOctets(h.d)| == |WordOctets(h.e)| == 4;
  }

  lemma WordOctetsAt(w: Word, k: nat)
    requires k < 4
    ensures WordOctets(w)[k] == OctetOf(w, k)
  {
    hide OctetOf;
  }

  function Sha1(message: seq<Byte>): seq<Byte>
  {
    DigestOctets(HashBlocks(INITIAL, Pad(message)))
  }

  // Padding fills one extra block, or two when fewer than nine octets are left in the last one.
  lemma PadLength(message: seq<Byte>)
    ensures |Pad(message)| == 64 * (|message| / 64 + (if |message| % 64 > 55 then 2 else 1))
  {
    hide Pad;
    var n := |message|;
    assert n == 64 * (n / 64) + n % 64;
  }

  lemma {:induction false} HashBlocksConcat(h: Hash, x: seq<Byte>, y: seq<Byte>)
    requires |x| % 64 == 0
    ensures HashBlocks(h, x + y) == HashBlocks(HashBlocks(h, x), y)
    decreases |x|
  {
    hide Compress;
    if |x| < 64 {
      assert x + y == y;
    } else {
      assert (x + y)[..64] == x[..64];
      assert (x + y)[64..] == x[64..] + y;
      HashBlocksConcat(Compress(h, x[..64]), x[64..], y);
    }
  }
}
