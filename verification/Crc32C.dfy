/** CRC32C (Castagnoli, section 12.1 of RFC 3720), as computed by the compile-time variants of
    `Crc32C`: 64/32/8-bit hardware words (x86-64), 32/8-bit hardware words (i386 and ARM), and bit at a time.
    Hardware registers are modelled by their bits; a hardware word step xors the message word onto the
    register and does one reflected polynomial division step per bit of the word. */
module Crc32C {
  import opened Words

  const POLY: bv32 := 0x82F63B78

  /** The initial register, also xored onto the final one. */
  function Seed(): (r: Bits)
    ensures |r| == 32
  {
    BitsOfWord(0xFFFFFFFF)
  }

  function PolyBits(): (r: Bits)
    ensures |r| == 32
  {
    BitsOfWord(POLY)
  }

  /** The exponents below 32 of the Castagnoli polynomial. */
  predicate IsExponent(e: int) {
    e in {28, 27, 26, 25, 23, 22, 20, 19, 18, 14, 13, 11, 10, 9, 8, 6, 0}
  }

  lemma PolyShifts()
    ensures POLY >> 8 == 0x82F63B && 0x82F63B as bv32 >> 8 == 0x82F6 && 0x82F6 as bv32 >> 8 == 0x82
  {
  }

  lemma HighestExponents()
    ensures forall i :: 0 <= i < 8 ==> (LowBits(POLY, 8)[i] <==> IsExponent(31 - i))
  {
    assert LowBits(POLY, 8) == [false, false, false, true, true, true, true, false];
  }

  lemma HighExponents()
    ensures forall i :: 0 <= i < 8 ==> (LowBits(0x82F63B, 8)[i] <==> IsExponent(23 - i))
  {
    assert LowBits(0x82F63B, 8) == [true, true, false, true, true, true, false, false];
  }

  lemma LowExponents()
    ensures forall i :: 0 <= i < 8 ==> (LowBits(0x82F6, 8)[i] <==> IsExponent(15 - i))
  {
    assert LowBits(0x82F6, 8) == [false, true, true, false, true, true, true, true];
  }

  lemma LowestExponents()
    ensures forall i :: 0 <= i < 8 ==> (LowBits(0x82, 8)[i] <==> IsExponent(7 - i))
  {
    assert LowBits(0x82, 8) == [false, true, false, false, false, false, false, true];
  }

  /** The polynomial is the Castagnoli polynomial, reflected: bit `i` is the coefficient of exponent `31 - i`. Its top
      bit, the constant coefficient, makes division invertible. */
  lemma PolyExponents()
    ensures forall i :: 0 <= i < 32 ==> (PolyBits()[i] <==> IsExponent(31 - i))
  {
    PolyShifts();
    hide LowBits, ShiftN, IsExponent, Half, Odd;
    LowBitsSplit(POLY, 8, 24);
    ShiftEight(POLY);
    LowBitsSplit(0x82F63B, 8, 16);
    ShiftEight(0x82F63B);
    LowBitsSplit(0x82F6, 8, 8);
    ShiftEight(0x82F6);
    HighestExponents();
    HighExponents();
    LowExponents();
    LowestExponents();
  }

  // ---------- Serial form: the register takes one message bit at a time ----------

  function FeedBit(crc: Bits, bit: bool): (r: Bits)
    requires |crc| == 32
    ensures |r| == 32
  {
    if crc[0] != bit then Xor(ShiftRight(crc), PolyBits()) else ShiftRight(crc)
  }

  function Feed(crc: Bits, bits: Bits): (r: Bits)
    requires |crc| == 32
    ensures |r| == 32
    decreases |bits|
  {
    if bits == [] then crc else Feed(FeedBit(crc, bits[0]), bits[1..])
  }

  /** The checksum of a byte string, by the serial form. */
  function Checksum(data: seq<RawByte>): (r: Bits)
    ensures |r| == 32
  {
    Xor(Feed(Seed(), BitsOf(data)), Seed())
  }

  lemma {:induction false} FeedConcat(crc: Bits, a: Bits, b: Bits)
    requires |crc| == 32
    ensures Feed(crc, a + b) == Feed(Feed(crc, a), b)
    decreases |a|
  {
    if a == [] {
      assert a + b == b;
    } else {
      assert (a + b)[1..] == a[1..] + b;
      FeedConcat(FeedBit(crc, a[0]), a[1..], b);
    }
  }

  // ---------- Parallel form: xor a whole word onto the register, then divide ----------

  /** One reflected division step of a register of 32 or more bits. */
  function Divide(state: Bits): (r: Bits)
    requires |state| >= 32
    ensures |r| == |state|
  {
    if state[0] then Xor(ShiftRight(state), Pad(PolyBits(), |state|)) else ShiftRight(state)
  }

  function DivideN(state: Bits, n: nat): (r: Bits)
    requires |state| >= 32
    ensures |r| == |state|
    decreases n
  {
    if n == 0 then state else Divide(DivideN(state, n - 1))
  }

  /** A message word and a register, both zero-extended and xored. */
  function Mix(word: Bits, crc: Bits, width: nat): (r: Bits)
    requires |crc| == 32 <= width && |word| <= width
    ensures |r| == width
  {
    Xor(Pad(word, width), Pad(crc, width))
  }

  /** The hardware word step: `_mm_crc32_u64`, `_mm_crc32_u32` and `__crc32cw`, `_mm_crc32_u8` and
      `__crc32cb` for words of 64, 32 and 8 bits. */
  function WordStep(crc: Bits, word: Bits): (r: Bits)
    requires |crc| == 32
    ensures |r| == 32
  {
    var width := if |word| > 32 then |word| else 32;
    DivideN(Mix(word, crc, width), |word|)[..32]
  }

  lemma DivideMix(word: Bits, crc: Bits, width: nat)
    requires |crc| == 32 <= width && 0 < |word| <= width
    ensures Divide(Mix(word, crc, width)) == Mix(word[1..], FeedBit(crc, word[0]), width)
  {
    var left := Divide(Mix(word, crc, width));
    var right := Mix(word[1..], FeedBit(crc, word[0]), width);
    forall i | 0 <= i < width ensures left[i] == right[i] {
      assert Pad(word, width)[0] == word[0] && Pad(crc, width)[0] == crc[0];
      assert Mix(word, crc, width)[0] == (word[0] != crc[0]);
    }
  }

  /** Every division step moves one bit of the word into the serial register. */
  lemma {:induction false} DivideIsFeed(word: Bits, crc: Bits, width: nat, n: nat)
    requires |crc| == 32 <= width && n <= |word| <= width
    ensures DivideN(Mix(word, crc, width), n) == Mix(word[n..], Feed(crc, word[..n]), width)
    decreases n
  {
    hide Mix, Divide, FeedBit;
    if n == 0 {
      assert word[0..] == word && word[..0] == [];
    } else {
      var mid := Feed(crc, word[..n - 1]);
      DivideIsFeed(word, crc, width, n - 1);
      DivideMix(word[n - 1..], mid, width);
      assert word[n - 1..][1..] == word[n..];
      assert word[..n] == word[..n - 1] + [word[n - 1]];
      FeedConcat(crc, word[..n - 1], [word[n - 1]]);
      FeedOne(mid, word[n - 1]);
    }
  }

  lemma FeedOne(crc: Bits, bit: bool)
    requires |crc| == 32
    ensures Feed(crc, [bit]) == FeedBit(crc, bit)
  {
    assert [bit][1..] == [];
  }

  lemma DivideAll(word: Bits, crc: Bits, width: nat)
    requires |crc| == 32 <= width && |word| <= width
    ensures DivideN(Mix(word, crc, width), |word|) == Pad(Feed(crc, word), width)
  {
    DivideIsFeed(word, crc, width, |word|);
    assert word[..|word|] == word && word[|word|..] == [];
    assert Mix([], Feed(crc, word), width) == Pad(Feed(crc, word), width);
  }

  /** A word step of any width is the serial register fed the word's bits. */
  lemma WordStepIsFeed(crc: Bits, word: Bits)
    requires |crc| == 32
    ensures WordStep(crc, word) == Feed(crc, word)
  {
    var width := if |word| > 32 then |word| else 32;
    DivideAll(word, crc, width);
    assert Pad(Feed(crc, word), width)[..32] == Feed(crc, word);
  }

  // ---------- Invertibility ----------

  lemma DivideInjective(a: Bits, b: Bits)
    requires |a| == |b| == 32
    requires Divide(a) == Divide(b)
    ensures a == b
  {
    PolyExponents();
    assert PolyBits()[31];
    assert Divide(a)[31] == a[0] && Divide(b)[31] == b[0];
    forall i | 0 <= i < 32 ensures a[i] == b[i] {
      assert i == 0 || Divide(a)[i - 1] == Divide(b)[i - 1];
    }
  }

  lemma {:induction false} DivideNInjective(a: Bits, b: Bits, n: nat)
    requires |a| == |b| == 32
    requires DivideN(a, n) == DivideN(b, n)
    ensures a == b
    decreases n
  {
    if n != 0 {
      var p, q := DivideN(a, n - 1), DivideN(b, n - 1);
      DivideInjective(p, q);
      DivideNInjective(a, b, n - 1);
    }
  }

  /** Up to 32 message bits can be read back from the register they lead to. */
  lemma WindowInjective(crc: Bits, a: Bits, b: Bits)
    requires |crc| == 32 && |a| == |b| <= 32
    requires Feed(crc, a) == Feed(crc, b)
    ensures a == b
  {
    DivideAll(a, crc, 32);
    DivideAll(b, crc, 32);
    DivideNInjective(Mix(a, crc, 32), Mix(b, crc, 32), |a|);
    forall i | 0 <= i < |a| ensures a[i] == b[i] {
      assert Mix(a, crc, 32)[i] == Mix(b, crc, 32)[i];
      assert Pad(a, 32)[i] == a[i] && Pad(b, 32)[i] == b[i];
    }
  }

  /** Distinct registers stay distinct under the same message bits. */
  lemma {:induction false} FeedInjective(a: Bits, b: Bits, bits: Bits)
    requires |a| == |b| == 32
    requires Feed(a, bits) == Feed(b, bits)
    ensures a == b
    decreases |bits|
  {
    if bits != [] {
      FeedInjective(FeedBit(a, bits[0]), FeedBit(b, bits[0]), bits[1..]);
      DivideMix(bits[..1], a, 32);
      DivideMix(bits[..1], b, 32);
      assert Mix([], FeedBit(a, bits[0]), 32) == Mix([], FeedBit(b, bits[0]), 32);
      DivideInjective(Mix(bits[..1], a, 32), Mix(bits[..1], b, 32));
      forall i | 0 <= i < 32 ensures a[i] == b[i] {
        assert Mix(bits[..1], a, 32)[i] == Mix(bits[..1], b, 32)[i];
        assert Pad(a, 32)[i] == a[i] && Pad(b, 32)[i] == b[i];
      }
    }
  }

  lemma FeedSplit(crc: Bits, before: Bits, window: Bits, after: Bits)
    requires |crc| == 32
    ensures Feed(crc, before + window + after) == Feed(Feed(Feed(crc, before), window), after)
  {
    FeedConcat(crc, before + window, after);
    FeedConcat(crc, before, window);
  }

  lemma WindowDetected(before: Bits, a: Bits, b: Bits, after: Bits)
    requires |a| == |b| <= 32
    requires Feed(Seed(), before + a + after) == Feed(Seed(), before + b + after)
    ensures a == b
  {
    FeedSplit(Seed(), before, a, after);
    FeedSplit(Seed(), before, b, after);
    var crc := Feed(Seed(), before);
    FeedInjective(Feed(crc, a), Feed(crc, b), after);
    WindowInjective(crc, a, b);
  }

  lemma BurstSplit(x: Bits, y: Bits, lo: nat, hi: nat)
    requires |x| == |y| && lo <= hi <= |x|
    requires forall i :: 0 <= i < |x| && !(lo <= i < hi) ==> x[i] == y[i]
    ensures x == x[..lo] + x[lo..hi] + x[hi..]
    ensures y == x[..lo] + y[lo..hi] + x[hi..]
  {
    assert x[..lo] == y[..lo] && x[hi..] == y[hi..];
  }

  /** Burst detection: distinct byte strings of equal length that differ only inside some 32 consecutive
      bits have different checksums. */
  lemma BurstDetected(a: seq<RawByte>, b: seq<RawByte>, start: nat)
    requires |a| == |b| && a != b
    requires forall i :: 0 <= i < 8 * |a| && !(start <= i < start + 32) ==> BitsOf(a)[i] == BitsOf(b)[i]
    ensures Checksum(a) != Checksum(b) && Crc32C(a) != Crc32C(b)
  {
    var x, y := BitsOf(a), BitsOf(b);
    var lo := if start < |x| then start else |x|;
    var hi := if start + 32 < |x| then start + 32 else |x|;
    BurstSplit(x, y, lo, hi);
    PortableIsChecksum(a);
    PortableIsChecksum(b);
    if Checksum(a) == Checksum(b) {
      XorInjective(Feed(Seed(), x), Feed(Seed(), y), Seed());
      WindowDetected(x[..lo], x[lo..hi], y[lo..hi], x[hi..]);
      BitsOfInjective(a, b);
      assert false;
    }
  }

  lemma XorInjective(a: Bits, b: Bits, mask: Bits)
    requires |a| == |b| == |mask|
    requires Xor(a, mask) == Xor(b, mask)
    ensures a == b
  {
    forall i | 0 <= i < |a| ensures a[i] == b[i] {
      assert Xor(a, mask)[i] == Xor(b, mask)[i];
    }
  }

  // ---------- The three forms of the loop ----------

  /** Consuming `k` bytes with one word step leaves the final register unchanged. */
  lemma FeedWord(crc: Bits, data: seq<RawByte>, k: nat)
    requires |crc| == 32 && k <= |data|
    ensures Feed(crc, BitsOf(data)) == Feed(WordStep(crc, BitsOf(data[..k])), BitsOf(data[k..]))
  {
    assert data == data[..k] + data[k..];
    BitsOfConcat(data[..k], data[k..]);
    FeedConcat(crc, BitsOf(data[..k]), BitsOf(data[k..]));
    WordStepIsFeed(crc, BitsOf(data[..k]));
  }

  /** The SSE 4.2 form; the ARM form is this one without the 64-bit loop. `wide` says whether that loop is
      compiled in (x86-64) or not (i386). */
  method Crc32CHardware(bytes: seq<RawByte>, wide: bool) returns (r: Bits)
    ensures r == Checksum(bytes) == BitsOfWord(Crc32C(bytes))
  {
    PortableIsChecksum(bytes);
    var crc, data := Seed(), bytes;
    if wide {
      while |data| >= 8
        invariant |crc| == 32 && Feed(crc, BitsOf(data)) == Feed(Seed(), BitsOf(bytes))
      {
        FeedWord(crc, data, 8);
        crc, data := WordStep(crc, BitsOf(data[..8])), data[8..];
      }
    }
    while |data| >= 4
      invariant |crc| == 32 && Feed(crc, BitsOf(data)) == Feed(Seed(), BitsOf(bytes))
    {
      FeedWord(crc, data, 4);
      crc, data := WordStep(crc, BitsOf(data[..4])), data[4..];
    }
    while |data| > 0
      invariant |crc| == 32 && Feed(crc, BitsOf(data)) == Feed(Seed(), BitsOf(bytes))
    {
      FeedWord(crc, data, 1);
      crc, data := WordStep(crc, BitsOf(data[..1])), data[1..];
    }
    r := Xor(crc, Seed());
  }

  /** What the portable inner loop does to the register, with its branch-free mask. */
  function DivideWord(crc: bv32): bv32 {
    XorWord(Half(crc), Masked(crc))
  }

  function Masked(crc: bv32): bv32 {
    POLY & (0 - (crc & 1))
  }

  function DivideWordN(crc: bv32, n: nat): bv32 {
    if n == 0 then crc else DivideWord(DivideWordN(crc, n - 1))
  }

  function Register(crc: bv32, data: seq<RawByte>): bv32
    decreases |data|
  {
    if data == [] then crc else Register(DivideWordN(XorWord(crc, data[0] as bv32), 8), data[1..])
  }

  /** The checksum as the machine word the header carries. */
  function Crc32C(data: seq<RawByte>): bv32 {
    XorWord(Register(0xFFFFFFFF, data), 0xFFFFFFFF)
  }

  /** The portable form, on machine words. */
  method Crc32CBitwise(bytes: seq<RawByte>) returns (r: bv32)
    ensures r == Crc32C(bytes)
  {
    var crc: bv32, data := 0xFFFFFFFF, bytes;
    while |data| > 0
      invariant Register(crc, data) == Register(0xFFFFFFFF, bytes)
    {
      crc := crc ^ (data[0] as bv32);
      ghost var mixed := crc;
      for i := 0 to 8
        invariant crc == DivideWordN(mixed, i)
      {
        var mask := 0 - (crc & 1);
        crc := (crc >> 1) ^ (POLY & mask);
      }
      data := data[1..];
    }
    r := crc ^ 0xFFFFFFFF;
  }

  lemma {:induction false} DivideWordNBits(crc: bv32, n: nat)
    ensures BitsOfWord(DivideWordN(crc, n)) == DivideN(BitsOfWord(crc), n)
    decreases n
  {
    hide BitsOfWord, Divide, DivideWord;
    if n != 0 {
      var before := DivideWordN(crc, n - 1);
      calc {
        BitsOfWord(DivideWordN(crc, n));
        BitsOfWord(DivideWord(before));
        { DivideWordBits(before); }
        Divide(BitsOfWord(before));
        { DivideWordNBits(crc, n - 1); }
        Divide(DivideN(BitsOfWord(crc), n - 1));
      }
    }
  }

  lemma ByteStepBits(crc: bv32, b: RawByte)
    ensures BitsOfWord(DivideWordN(XorWord(crc, b as bv32), 8)) == WordStep(BitsOfWord(crc), BitsOfByte(b))
  {
    XorByteBits(crc, b);
    DivideWordNBits(XorWord(crc, b as bv32), 8);
  }

  lemma {:induction false} RegisterBits(crc: bv32, data: seq<RawByte>)
    ensures BitsOfWord(Register(crc, data)) == Feed(BitsOfWord(crc), BitsOf(data))
    decreases |data|
  {
    hide LowBits, BitsOfByte, BitsOfWord, Odd, DivideWordN;
    if data != [] {
      ByteStepBits(crc, data[0]);
      RegisterBits(DivideWordN(XorWord(crc, data[0] as bv32), 8), data[1..]);
      FeedWord(BitsOfWord(crc), data, 1);
      assert BitsOf(data[..1]) == BitsOfByte(data[0]);
    }
  }

  /** The portable form and the serial reference agree on every byte string. */
  lemma PortableIsChecksum(data: seq<RawByte>)
    ensures BitsOfWord(Crc32C(data)) == Checksum(data)
  {
    RegisterBits(0xFFFFFFFF, data);
    ComplementBits(Register(0xFFFFFFFF, data));
  }

  lemma XorSwap(x: bv32, y: bv32)
    ensures XorWord(x, y) == XorWord(y, x)
  {
  }

  lemma XorByteBits(crc: bv32, b: RawByte)
    ensures BitsOfWord(XorWord(crc, b as bv32)) == Mix(BitsOfByte(b), BitsOfWord(crc), 32)
  {
    hide XorWord, BitsOfWord, BitsOfByte;
    XorSwap(crc, b as bv32);
    XorBits(b as bv32, crc);
    ByteBits(b);
    assert Pad(BitsOfWord(crc), 32) == BitsOfWord(crc);
  }

  lemma LowBit(crc: bv32)
    ensures crc & 1 == if crc & 1 != 0 then 1 else 0
  {
  }

  lemma Masks()
    ensures POLY & (0 - 1) == POLY && POLY & (0 - 0) == 0
  {
  }

  lemma MaskRaw(crc: bv32)
    ensures Masked(crc) == if Odd(crc) then POLY else 0
  {
    LowBit(crc);
    Masks();
  }

  lemma XorZeros(a: Bits)
    ensures Xor(a, Zeros(|a|)) == a
  {
  }

  lemma DivideWordBits(crc: bv32)
    ensures BitsOfWord(DivideWord(crc)) == Divide(BitsOfWord(crc))
  {
    hide Half, Odd, XorWord, Masked;
    var bits := BitsOfWord(crc);
    MaskRaw(crc);
    HalfBits(crc);
    if Odd(crc) {
      XorBits(Half(crc), POLY);
      assert Pad(PolyBits(), 32) == PolyBits();
    } else {
      XorBits(Half(crc), 0);
      LowBitsZero(32);
      XorZeros(ShiftRight(bits));
    }
  }

  lemma ComplementBits(crc: bv32)
    ensures BitsOfWord(XorWord(crc, 0xFFFFFFFF)) == Xor(BitsOfWord(crc), Seed())
  {
    XorBits(crc, 0xFFFFFFFF);
  }
}
