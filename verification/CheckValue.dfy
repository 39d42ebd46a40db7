/** The check value of the checksum in appendix B.4 of RFC 3720 for the bytes 0 to 31. */
module CheckValue {
  import opened Bytes
  import opened Codec
  import opened Words
  import Crc = Crc32C

  /** `DivideWord` without its names. */
  function Next(crc: bv32): bv32 {
    (crc >> 1) ^ Crc.Masked(crc)
  }

  function NextEight(crc: bv32): bv32 {
    Next(Next(Next(Next(Next(Next(Next(Next(crc))))))))
  }

  lemma NextIs(crc: bv32)
    ensures Crc.DivideWord(crc) == Next(crc)
  {
    hide Crc.Masked;
  }

  lemma NextEightIs(crc: bv32)
    ensures Crc.DivideWordN(crc, 8) == NextEight(crc)
  {
    hide Crc.DivideWord, Next;
    forall x ensures Crc.DivideWord(x) == Next(x) {
      NextIs(x);
    }
    assert Crc.DivideWordN(crc, 2) == Next(Next(Crc.DivideWordN(crc, 0)));
    assert Crc.DivideWordN(crc, 4) == Next(Next(Crc.DivideWordN(crc, 2)));
    assert Crc.DivideWordN(crc, 6) == Next(Next(Crc.DivideWordN(crc, 4)));
  }

  /** The register byte by byte. */
  lemma {:induction false} Trace(crcs: seq<bv32>, data: seq<RawByte>)
    requires |crcs| == |data| + 1
    requires forall i :: 0 <= i < |data| ==> NextEight(XorWord(crcs[i], data[i] as bv32)) == crcs[i + 1]
    ensures Crc.Register(crcs[0], data) == crcs[|data|]
  {
    hide NextEight, XorWord;
    if data != [] {
      NextEightIs(XorWord(crcs[0], data[0] as bv32));
      Trace(crcs[1..], data[1..]);
    }
  }

  lemma {:induction false} RegisterAppend(crc: bv32, a: seq<RawByte>, b: seq<RawByte>)
    ensures Crc.Register(crc, a + b) == Crc.Register(Crc.Register(crc, a), b)
    decreases |a|
  {
    if a == [] {
      assert a + b == b;
    } else {
      assert (a + b)[1..] == a[1..] + b;
      hide Crc.DivideWordN, XorWord;
      RegisterAppend(Crc.DivideWordN(XorWord(crc, a[0] as bv32), 8), a[1..], b);
    }
  }

  lemma FirstEight()
    ensures Crc.Register(0xFFFFFFFF, [0, 1, 2, 3, 4, 5, 6, 7]) == 0x75D343C4
  {
    assert NextEight(XorWord(0xFFFFFFFF, 0)) == 0xAD82ACAE;
    assert NextEight(XorWord(0xAD82ACAE, 1)) == 0xFCF50B2E;
    assert NextEight(XorWord(0xFCF50B2E, 2)) == 0x6D02B405;
    assert NextEight(XorWord(0x6D02B405, 3)) == 0x26CCE55C;
    assert NextEight(XorWord(0x26CCE55C, 4)) == 0xDBDA4EF9;
    assert NextEight(XorWord(0xDBDA4EF9, 5)) == 0xBEF67AEB;
    assert NextEight(XorWord(0xBEF67AEB, 6)) == 0x5CA612B3;
    assert NextEight(XorWord(0x5CA612B3, 7)) == 0x75D343C4;
    hide NextEight, XorWord, Next;
    var crcs := [0xFFFFFFFF, 0xAD82ACAE, 0xFCF50B2E, 0x6D02B405, 0x26CCE55C,
                 0xDBDA4EF9, 0xBEF67AEB, 0x5CA612B3, 0x75D343C4];
    Trace(crcs, [0, 1, 2, 3, 4, 5, 6, 7]);
  }

  lemma SecondEight()
    ensures Crc.Register(0x75D343C4, [8, 9, 10, 11, 12, 13, 14, 15]) == 0x2636F714
  {
    assert NextEight(XorWord(0x75D343C4, 8)) == 0x8EBB3A57;
    assert NextEight(XorWord(0x8EBB3A57, 9)) == 0xFDD3DECE;
    assert NextEight(XorWord(0xFDD3DECE, 10)) == 0x04EA6205;
    assert NextEight(XorWord(0x04EA6205, 11)) == 0xAC7C5545;
    assert NextEight(XorWord(0xAC7C5545, 12)) == 0x3965BA25;
    assert NextEight(XorWord(0x3965BA25, 13)) == 0xAA5DB3AB;
    assert NextEight(XorWord(0xAA5DB3AB, 14)) == 0x9710FC09;
    assert NextEight(XorWord(0x9710FC09, 15)) == 0x2636F714;
    hide NextEight, XorWord, Next;
    var crcs := [0x75D343C4, 0x8EBB3A57, 0xFDD3DECE, 0x04EA6205, 0xAC7C5545,
                 0x3965BA25, 0xAA5DB3AB, 0x9710FC09, 0x2636F714];
    Trace(crcs, [8, 9, 10, 11, 12, 13, 14, 15]);
  }

  lemma ThirdEight()
    ensures Crc.Register(0x2636F714, [16, 17, 18, 19, 20, 21, 22, 23]) == 0xD643786A
  {
    assert NextEight(XorWord(0x2636F714, 16)) == 0xC7BCA1E8;
    assert NextEight(XorWord(0xC7BCA1E8, 17)) == 0x8B1B0818;
    assert NextEight(XorWord(0x8B1B0818, 18)) == 0x6B693330;
    assert NextEight(XorWord(0x6B693330, 19)) == 0x33861419;
    assert NextEight(XorWord(0x33861419, 20)) == 0xBF1BCAC7;
    assert NextEight(XorWord(0xBF1BCAC7, 21)) == 0x32578A96;
    assert NextEight(XorWord(0x32578A96, 22)) == 0x82C46CF2;
    assert NextEight(XorWord(0x82C46CF2, 23)) == 0xD643786A;
    hide NextEight, XorWord, Next;
    var crcs := [0x2636F714, 0xC7BCA1E8, 0x8B1B0818, 0x6B693330, 0x33861419,
                 0xBF1BCAC7, 0x32578A96, 0x82C46CF2, 0xD643786A];
    Trace(crcs, [16, 17, 18, 19, 20, 21, 22, 23]);
  }

  lemma FourthEight()
    ensures Crc.Register(0xD643786A, [24, 25, 26, 27, 28, 29, 30, 31]) == 0xB92286B1
  {
    assert NextEight(XorWord(0xD643786A, 24)) == 0x90756782;
    assert NextEight(XorWord(0x90756782, 25)) == 0x0BB1224B;
    assert NextEight(XorWord(0x0BB1224B, 26)) == 0xA345E8F2;
    assert NextEight(XorWord(0xA345E8F2, 27)) == 0x9B21363E;
    assert NextEight(XorWord(0x9B21363E, 28)) == 0xC11DDF1F;
    assert NextEight(XorWord(0xC11DDF1F, 29)) == 0xE1FA6D28;
    assert NextEight(XorWord(0xE1FA6D28, 30)) == 0x16A35434;
    assert NextEight(XorWord(0x16A35434, 31)) == 0xB92286B1;
    hide NextEight, XorWord, Next;
    var crcs := [0xD643786A, 0x90756782, 0x0BB1224B, 0xA345E8F2, 0x9B21363E,
                 0xC11DDF1F, 0xE1FA6D28, 0x16A35434, 0xB92286B1];
    Trace(crcs, [24, 25, 26, 27, 28, 29, 30, 31]);
  }

  /** The bytes 0 to 31. */
  function Counting(): seq<RawByte> {
    [0, 1, 2, 3, 4, 5, 6, 7] + [8, 9, 10, 11, 12, 13, 14, 15]
    + [16, 17, 18, 19, 20, 21, 22, 23] + [24, 25, 26, 27, 28, 29, 30, 31]
  }

  /** The checksum of the bytes 0 to 31 is the one in RFC 3720. */
  lemma CountingChecked()
    ensures Crc.Crc32C(Counting()) == 0x46DD794E
  {
    FirstEight();
    SecondEight();
    ThirdEight();
    FourthEight();
    hide Crc.Register;
    var a, b, c, d := [0, 1, 2, 3, 4, 5, 6, 7], [8, 9, 10, 11, 12, 13, 14, 15],
      [16, 17, 18, 19, 20, 21, 22, 23], [24, 25, 26, 27, 28, 29, 30, 31];
    RegisterAppend(0xFFFFFFFF, a + b + c, d);
    RegisterAppend(0xFFFFFFFF, a + b, c);
    RegisterAppend(0xFFFFFFFF, a, b);
  }

  /** So is the number the codec puts in a header for these bytes. */
  lemma CountingInHeader()
    ensures ChecksumOf([0, 1, 2, 3, 4, 5, 6, 7] + [8, 9, 10, 11, 12, 13, 14, 15]
                       + [16, 17, 18, 19, 20, 21, 22, 23]
                       + [24, 25, 26, 27, 28, 29, 30, 31]) == 0x46DD794E
  {
    var a, b, c, d: seq<Byte> := [0, 1, 2, 3, 4, 5, 6, 7], [8, 9, 10, 11, 12, 13, 14, 15],
      [16, 17, 18, 19, 20, 21, 22, 23], [24, 25, 26, 27, 28, 29, 30, 31];
    CountingChecked();
    RawAppend(a + b + c, d);
    RawAppend(a + b, c);
    RawAppend(a, b);
    FirstRaw();
    SecondRaw();
    ThirdRaw();
    FourthRaw();
    hide Crc.Crc32C, RawBytes;
  }

  lemma RawAppend(a: seq<Byte>, b: seq<Byte>)
    ensures RawBytes(a + b) == RawBytes(a) + RawBytes(b)
  {
  }

  lemma FirstRaw()
    ensures RawBytes([0, 1, 2, 3, 4, 5, 6, 7]) == [0, 1, 2, 3, 4, 5, 6, 7]
  {
  }

  lemma SecondRaw()
    ensures RawBytes([8, 9, 10, 11, 12, 13, 14, 15]) == [8, 9, 10, 11, 12, 13, 14, 15]
  {
  }

  lemma ThirdRaw()
    ensures RawBytes([16, 17, 18, 19, 20, 21, 22, 23]) == [16, 17, 18, 19, 20, 21, 22, 23]
  {
  }

  lemma FourthRaw()
    ensures RawBytes([24, 25, 26, 27, 28, 29, 30, 31]) == [24, 25, 26, 27, 28, 29, 30, 31]
  {
  }
}
