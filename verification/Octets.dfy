// Octets, shared by the modules that work on binary data.
module Octets {
  import opened Common

  newtype Byte = x: int | 0 <= x < 0x100

  function Power2(k: nat): (p: nat)
    ensures p > 0
  {
    if k == 0 then 1 else 2 * Power2(k - 1)
  }

  // Exclusive or of the lowest k bits.
  function XorBits(x: nat, y: nat, k: nat): (r: nat)
    ensures r < Power2(k)
  {
    if k == 0 then 0 else 2 * XorBits(x / 2, y / 2, k - 1) + (if x % 2 == y % 2 then 0 else 1)
  }

  lemma {:induction false} XorBitsTwice(x: nat, y: nat, k: nat)
    requires x < Power2(k)
    ensures XorBits(XorBits(x, y, k), y, k) == x
  {
    if k > 0 {
      XorBitsTwice(x / 2, y / 2, k - 1);
      assert XorBits(x, y, k) / 2 == XorBits(x / 2, y / 2, k - 1);
    }
  }

  lemma {:induction false} XorBitsZero(x: nat, k: nat)
    requires x < Power2(k)
    ensures XorBits(x, 0, k) == x
  {
    if k > 0 {
      XorBitsZero(x / 2, k - 1);
    }
  }

  lemma HalfFirst(n: nat, p: nat)
    requires p > 0
    ensures n / (2 * p) == n / 2 / p
  {
    var q := n / (2 * p);
    var r := n % (2 * p);
    assert n == 2 * p * q + r == 2 * (p * q) + r;
    assert n / 2 == p * q + r / 2 && r / 2 < p;
    Division(n / 2, p, q);
  }

  // Each bit is set exactly when the bits at its place differ.
  lemma {:induction false} XorBitsAt(x: nat, y: nat, k: nat, i: nat)
    requires i < k
    ensures XorBits(x, y, k) / Power2(i) % 2 == 1 <==> x / Power2(i) % 2 != y / Power2(i) % 2
    decreases i
  {
    if i == 0 {
      LowBitOfXor(x, y, k);
    } else {
      hide XorBits, Power2;
      TwicePower(i);
      HalfOfXor(x, y, k);
      XorBitsAt(x / 2, y / 2, k - 1, i - 1);
      HalfFirst(XorBits(x, y, k), Power2(i - 1));
      HalfFirst(x, Power2(i - 1));
      HalfFirst(y, Power2(i - 1));
    }
  }

  lemma TwicePower(i: nat)
    requires i > 0
    ensures Power2(i) == 2 * Power2(i - 1)
  {
  }

  lemma LowBitOfXor(x: nat, y: nat, k: nat)
    requires k > 0
    ensures XorBits(x, y, k) % 2 == 1 <==> x % 2 != y % 2
  {
  }

  lemma HalfOfXor(x: nat, y: nat, k: nat)
    requires k > 0
    ensures XorBits(x, y, k) / 2 == XorBits(x / 2, y / 2, k - 1)
  {
  }

  lemma Power2Of8()
    ensures Power2(8) == 0x100
  {
    assert Power2(4) == 16;
    assert Power2(8) == 16 * Power2(4);
  }

  function XorByte(x: Byte, y: Byte): Byte
  {
    Power2Of8();
    XorBits(x as nat, y as nat, 8) as Byte
  }

  // Exclusive or, bit by bit.
  lemma XorByteBits(x: Byte, y: Byte, i: nat)
    requires i < 8
    ensures XorByte(x, y) as nat / Power2(i) % 2 == 1 <==> x as nat / Power2(i) % 2 != y as nat / Power2(i) % 2
  {
    Power2Of8();
    XorBitsAt(x as nat, y as nat, 8, i);
  }

  lemma XorTwice(x: Byte, y: Byte)
    ensures XorByte(XorByte(x, y), y) == x
  {
    Power2Of8();
    XorBitsTwice(x as nat, y as nat, 8);
  }

  // The number a sequence of octets spells, most significant octet first.
  function BigEndian(o: seq<Byte>): nat
  {
    if |o| == 0 then 0 else 0x100 * BigEndian(o[..|o| - 1]) + o[|o| - 1] as nat
  }

  // The octets of a number, most significant octet first.
  function ToBigEndian(value: nat, count: nat): (o: seq<Byte>)
    ensures |o| == count
  {
    if count == 0 then [] else ToBigEndian(value / 0x100, count - 1) + [(value % 0x100) as Byte]
  }

  function Pow256(k: nat): (p: nat)
    ensures p > 0
  {
    if k == 0 then 1 else 0x100 * Pow256(k - 1)
  }

  lemma {:induction false} BigEndianOf(value: nat, count: nat)
    requires value < Pow256(count)
    ensures BigEndian(ToBigEndian(value, count)) == value
  {
    if count > 0 {
      BigEndianOf(value / 0x100, count - 1);
      var o := ToBigEndian(value, count);
      assert o[..count - 1] == ToBigEndian(value / 0x100, count - 1);
    }
  }

  lemma {:induction false} ToBigEndianOf(o: seq<Byte>)
    ensures BigEndian(o) < Pow256(|o|)
    ensures ToBigEndian(BigEndian(o), |o|) == o
  {
    if |o| > 0 {
      var front := o[..|o| - 1];
      ToBigEndianOf(front);
      assert BigEndian(o) / 0x100 == BigEndian(front) && BigEndian(o) % 0x100 == o[|o| - 1] as nat;
      assert o == front + [o[|o| - 1]];
    }
  }

  lemma {:induction false} ToBigEndianSplits(high: nat, low: nat, m: nat, n: nat)
    requires low < Pow256(n)
    ensures ToBigEndian(high * Pow256(n) + low, m + n) == ToBigEndian(high, m) + ToBigEndian(low, n)
    decreases n
  {
    if n > 0 {
      hide Pow256, ToBigEndian;
      var p := Pow256(n - 1);
      PowerStep(n);
      Scaled(high, p);
      Carry(high * p, low);
      ToBigEndianSplits(high, low / 0x100, m, n - 1);
      BigEndianStep(high * Pow256(n) + low, m + n);
      BigEndianStep(low, n);
    }
  }

  lemma PowerStep(n: nat)
    requires n > 0
    ensures Pow256(n) == 0x100 * Pow256(n - 1)
  {
  }

  lemma BigEndianStep(v: nat, n: nat)
    requires n > 0
    ensures ToBigEndian(v, n) == ToBigEndian(v / 0x100, n - 1) + [(v % 0x100) as Byte]
  {
  }

  lemma Scaled(x: int, p: int)
    ensures x * (0x100 * p) == 0x100 * (x * p)
  {
  }

  lemma Carry(x: int, low: int)
    ensures (0x100 * x + low) / 0x100 == x + low / 0x100
    ensures (0x100 * x + low) % 0x100 == low % 0x100
  {
  }

  lemma FourOctets(v: nat)
    ensures ToBigEndian(v, 4)
         == [(v / 0x100_0000 % 256) as Byte, (v / 0x1_0000 % 256) as Byte, (v / 0x100 % 256) as Byte, (v % 256) as Byte]
  {
    assert v / 0x100 / 0x100 == v / 0x1_0000 && v / 0x1_0000 / 0x100 == v / 0x100_0000;
    assert ToBigEndian(v / 0x100_0000, 1) == [(v / 0x100_0000 % 256) as Byte];
    assert ToBigEndian(v / 0x1_0000, 2) == ToBigEndian(v / 0x100_0000, 1) + [(v / 0x1_0000 % 256) as Byte];
    assert ToBigEndian(v / 0x100, 3) == ToBigEndian(v / 0x1_0000, 2) + [(v / 0x100 % 256) as Byte];
  }

  lemma PowersOf256(k: nat)
    requires k <= 8
    ensures Pow256(2) == 0x1_0000 && Pow256(4) == 0x1_0000_0000 && Pow256(8) == 0x1_0000_0000_0000_0000
    ensures Pow256(k) <= 0x1_0000_0000_0000_0000
  {
    assert Pow256(2) == 0x1_0000;
    assert Pow256(4) == 0x1_0000 * Pow256(2);
    assert Pow256(6) == 0x1_0000 * Pow256(4);
    assert Pow256(8) == 0x1_0000 * Pow256(6);
    assert Pow256(7) == 0x100_0000_0000_0000 && Pow256(5) == 0x100_0000_0000 && Pow256(3) == 0x100_0000;
    assert k == 0 || k == 1 || k == 2 || k == 3 || k == 4 || k == 5 || k == 6 || k == 7 || k == 8;
  }
}
