/** Machine words as strings of bits, least significant first, and what shifting and xoring a 32-bit
    word does to its bits. */
module Words {
  type Bits = seq<bool>

  /** A byte as the machine holds it. */
  type RawByte = bv8

  function Odd(w: bv32): bool { w & 1 != 0 }

  function Half(w: bv32): bv32 { w >> 1 }

  function XorWord(x: bv32, y: bv32): bv32 { x ^ y }

  /** The `n` low bits of a word. */
  function LowBits(w: bv32, n: nat): (r: Bits)
    ensures |r| == n
    decreases n
  {
    if n == 0 then [] else [Odd(w)] + LowBits(Half(w), n - 1)
  }

  function BitsOfWord(w: bv32): (r: Bits)
    ensures |r| == 32
  {
    LowBits(w, 32)
  }

  function BitsOfByte(b: RawByte): (r: Bits)
    ensures |r| == 8
  {
    LowBits(b as bv32, 8)
  }

  /** The bits of a byte string in transmission order. It is also the word that loading the bytes as a
      little-endian integer gives. */
  function BitsOf(data: seq<RawByte>): (r: Bits)
    ensures |r| == 8 * |data|
  {
    if data == [] then [] else BitsOfByte(data[0]) + BitsOf(data[1..])
  }

  function Zeros(n: nat): (r: Bits)
    ensures |r| == n && forall i :: 0 <= i < n ==> !r[i]
  {
    seq(n, _ => false)
  }

  function Xor(a: Bits, b: Bits): (r: Bits)
    requires |a| == |b|
    ensures |r| == |a| && forall i :: 0 <= i < |r| ==> r[i] == (a[i] != b[i])
  {
    seq(|a|, i requires 0 <= i < |a| => a[i] != b[i])
  }

  /** Zero-extension to `n` bits. */
  function Pad(a: Bits, n: nat): (r: Bits)
    requires |a| <= n
    ensures |r| == n && forall i :: 0 <= i < n ==> r[i] == (i < |a| && a[i])
  {
    a + Zeros(n - |a|)
  }

  function ShiftRight(a: Bits): (r: Bits)
    requires a != []
    ensures |r| == |a| && forall i :: 0 <= i < |r| ==> r[i] == (i + 1 < |a| && a[i + 1])
  {
    a[1..] + [false]
  }

  lemma {:induction false} BitsOfConcat(a: seq<RawByte>, b: seq<RawByte>)
    ensures BitsOf(a + b) == BitsOf(a) + BitsOf(b)
  {
    if a == [] {
      assert a + b == b;
    } else {
      assert (a + b)[1..] == a[1..] + b;
      BitsOfConcat(a[1..], b);
    }
  }

  // ---------- Repeated halving ----------

  function ShiftN(w: bv32, n: nat): bv32
    decreases n
  {
    if n == 0 then w else ShiftN(Half(w), n - 1)
  }

  lemma {:induction false} LowBitsSplit(w: bv32, n: nat, m: nat)
    ensures LowBits(w, n + m) == LowBits(w, n) + LowBits(ShiftN(w, n), m)
    decreases n
  {
    if n != 0 {
      LowBitsSplit(Half(w), n - 1, m);
    }
  }

  lemma XorRaw(x: bv32, y: bv32)
    ensures ((x ^ y) & 1 != 0) == ((x & 1 != 0) != (y & 1 != 0))
    ensures (x ^ y) >> 1 == (x >> 1) ^ (y >> 1)
  {
  }

  lemma XorOdd(x: bv32, y: bv32)
    ensures Odd(XorWord(x, y)) == (Odd(x) != Odd(y))
  {
    XorRaw(x, y);
  }

  lemma XorHalf(x: bv32, y: bv32)
    ensures Half(XorWord(x, y)) == XorWord(Half(x), Half(y))
  {
    XorRaw(x, y);
  }

  lemma ConsXor(a: bool, b: bool, s: Bits, t: Bits)
    requires |s| == |t|
    ensures [a != b] + Xor(s, t) == Xor([a] + s, [b] + t)
  {
  }

  lemma {:induction false} LowBitsXor(x: bv32, y: bv32, n: nat)
    ensures LowBits(XorWord(x, y), n) == Xor(LowBits(x, n), LowBits(y, n))
    decreases n
  {
    hide Odd, Half, Xor, XorWord;
    if n == 0 {
      NoBits();
    } else {
      XorOdd(x, y);
      XorHalf(x, y);
      LowBitsXor(Half(x), Half(y), n - 1);
      ConsXor(Odd(x), Odd(y), LowBits(Half(x), n - 1), LowBits(Half(y), n - 1));
    }
  }

  lemma NoBits()
    ensures Xor([], []) == []
  {
  }

  lemma {:induction false} ShiftSplit(w: bv32, n: nat, m: nat)
    ensures ShiftN(w, n + m) == ShiftN(ShiftN(w, n), m)
    decreases n
  {
    if n != 0 {
      ShiftSplit(Half(w), n - 1, m);
    }
  }

  lemma ShiftRaw(w: bv32)
    ensures w >> 1 >> 1 == w >> 2 && w >> 2 >> 2 == w >> 4 && w >> 4 >> 4 == w >> 8
    ensures w >> 8 >> 8 == w >> 16 && w >> 16 >> 16 == 0
  {
  }

  lemma ShiftTwo(w: bv32)
    ensures ShiftN(w, 2) == w >> 2
  {
  }

  lemma ShiftFour(w: bv32)
    ensures ShiftN(w, 4) == w >> 4
  {
    calc {
      ShiftN(w, 4);
      { ShiftSplit(w, 2, 2); }
      ShiftN(ShiftN(w, 2), 2);
      { ShiftTwo(w); }
      ShiftN(w >> 2, 2);
      { ShiftTwo(w >> 2); }
      w >> 2 >> 2;
      { ShiftRaw(w); }
      w >> 4;
    }
  }

  lemma ShiftEight(w: bv32)
    ensures ShiftN(w, 8) == w >> 8
  {
    calc {
      ShiftN(w, 8);
      { ShiftSplit(w, 4, 4); }
      ShiftN(ShiftN(w, 4), 4);
      { ShiftFour(w); }
      ShiftN(w >> 4, 4);
      { ShiftFour(w >> 4); }
      w >> 4 >> 4;
      { ShiftRaw(w); }
      w >> 8;
    }
  }

  lemma ShiftOut(w: bv32)
    ensures ShiftN(w, 32) == 0
  {
    calc {
      ShiftN(w, 32);
      { ShiftSplit(w, 8, 24); ShiftEight(w); }
      ShiftN(w >> 8, 24);
      { ShiftSplit(w >> 8, 8, 16); ShiftEight(w >> 8); }
      ShiftN(w >> 8 >> 8, 16);
      { ShiftSplit(w >> 8 >> 8, 8, 8); ShiftEight(w >> 8 >> 8); }
      ShiftN(w >> 8 >> 8 >> 8, 8);
      { ShiftEight(w >> 8 >> 8 >> 8); }
      w >> 8 >> 8 >> 8 >> 8;
      0;
    }
  }

  lemma {:induction false} LowBitsZero(n: nat)
    ensures LowBits(0, n) == Zeros(n)
    decreases n
  {
    if n != 0 {
      LowBitsZero(n - 1);
    }
  }

  // ---------- Word operations on bits ----------

  lemma XorBits(x: bv32, y: bv32)
    ensures BitsOfWord(XorWord(x, y)) == Xor(BitsOfWord(x), BitsOfWord(y))
  {
    LowBitsXor(x, y, 32);
  }

  lemma HalfBits(w: bv32)
    ensures BitsOfWord(Half(w)) == ShiftRight(BitsOfWord(w))
  {
    LowBitsSplit(w, 32, 1);
    ShiftOut(w);
    LowBitsZero(1);
    calc {
      LowBits(w, 32) + [false];
      { assert LowBits(0, 1) == [false]; }
      LowBits(w, 33);
      [Odd(w)] + LowBits(Half(w), 32);
    }
    assert LowBits(Half(w), 32) == (LowBits(w, 32) + [false])[1..];
  }

  lemma ByteFits(b: RawByte)
    ensures (b as bv32) >> 8 == 0
  {
  }

  lemma ByteBits(b: RawByte)
    ensures BitsOfWord(b as bv32) == Pad(BitsOfByte(b), 32)
  {
    var w := b as bv32;
    LowBitsSplit(w, 8, 24);
    ShiftEight(w);
    ByteFits(b);
    LowBitsZero(24);
  }

  lemma HalvesRaw(x: bv32, y: bv32)
    requires x >> 1 == y >> 1 && (x & 1 != 0) == (y & 1 != 0)
    ensures x == y
  {
  }

  lemma HalvesInjective(x: bv32, y: bv32)
    requires Half(x) == Half(y) && Odd(x) == Odd(y)
    ensures x == y
  {
    HalvesRaw(x, y);
  }

  lemma {:induction false} LowBitsInjective(x: bv32, y: bv32, n: nat)
    requires LowBits(x, n) == LowBits(y, n) && ShiftN(x, n) == ShiftN(y, n)
    ensures x == y
    decreases n
  {
    if n != 0 {
      var p, q := LowBits(x, n), LowBits(y, n);
      assert p[0] == Odd(x) && q[0] == Odd(y);
      assert p[1..] == LowBits(Half(x), n - 1) && q[1..] == LowBits(Half(y), n - 1);
      LowBitsInjective(Half(x), Half(y), n - 1);
      HalvesInjective(x, y);
    }
  }

  lemma WidenRaw(a: RawByte, b: RawByte)
    requires a as bv32 == b as bv32
    ensures a == b
  {
  }

  lemma ByteInjective(a: RawByte, b: RawByte)
    requires BitsOfByte(a) == BitsOfByte(b)
    ensures a == b
  {
    var x, y := a as bv32, b as bv32;
    ShiftEight(x);
    ShiftEight(y);
    ByteFits(a);
    ByteFits(b);
    LowBitsInjective(x, y, 8);
    WidenRaw(a, b);
  }

  /** Different byte strings have different bits. */
  lemma {:induction false} BitsOfInjective(a: seq<RawByte>, b: seq<RawByte>)
    requires BitsOf(a) == BitsOf(b)
    ensures a == b
  {
    if a != [] && b != [] {
      assert BitsOf(a)[..8] == BitsOfByte(a[0]) && BitsOf(b)[..8] == BitsOfByte(b[0]);
      assert BitsOf(a)[8..] == BitsOf(a[1..]) && BitsOf(b)[8..] == BitsOf(b[1..]);
      BitsOfInjective(a[1..], b[1..]);
      ByteInjective(a[0], b[0]);
    }
  }
}
