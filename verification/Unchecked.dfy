/** What the decoder does not look at: version, flags, position and checksum. */
module Unchecked {
  import opened Bytes
  import opened Codec
  import opened RoundTrip
  import opened Stream
  import Crc = Crc32C
  import Words

  /** The bytes of a frame that `DecodeSync` reads: magic, type, length, identifier, and what follows the header. */
  predicate Read(i: nat) {
    i < 4 || 5 <= i < 8 || 10 <= i < 18 || HEADER_SIZE <= i
  }

  ghost predicate Alike(f: seq<Byte>, g: seq<Byte>) {
    |f| == |g| && forall i: nat :: i < |f| && Read(i) ==> f[i] == g[i]
  }

  /** Magic, type and length agree. */
  predicate SameKind(f: seq<Byte>, g: seq<Byte>) {
    |f| == |g| >= HEADER_SIZE && f[..4] == g[..4] && f[5..8] == g[5..8]
  }

  /** Whether bytes are a frame depends on magic, type and length alone. */
  lemma SameKindIsFrame(f: seq<Byte>, g: seq<Byte>)
    requires IsFrame(f) && SameKind(f, g)
    ensures IsFrame(g) && IsHeartbeat(g) == IsHeartbeat(f)
  {
    assert forall i :: 0 <= i < 4 ==> f[i] == f[..4][i] && g[i] == g[..4][i];
    assert forall i :: 0 <= i < 3 ==> f[5 + i] == f[5..8][i] && g[5 + i] == g[5..8][i];
    assert g[5] == f[5 + 0] && g[6] == f[5 + 1] && g[7] == f[5 + 2];
  }

  /** Frames that differ in version, flags, position and checksum only decode alike. */
  lemma DecodesAlike(f: seq<Byte>, g: seq<Byte>)
    requires IsFrame(f) && Alike(f, g)
    ensures IsFrame(g) && FrameMessage(g) == FrameMessage(f)
  {
    assert Read(0) && Read(1) && Read(2) && Read(3) && Read(5) && Read(6) && Read(7);
    assert f[..4] == g[..4] && f[5..8] == g[5..8];
    SameKindIsFrame(f, g);
    assert f[10..14] == g[10..14] && f[14..18] == g[14..18];
    assert f[HEADER_SIZE..] == g[HEADER_SIZE..];
    if !IsHeartbeat(f) {
      assert f[26] == g[26] && f[27] == g[27];
      assert f[HEADER_SIZE + PREFIX_SIZE..|f|] == g[HEADER_SIZE + PREFIX_SIZE..|g|];
    }
  }

  /** Streams of such frames decode alike: nothing the sender writes into those fields reaches the receiver. */
  lemma {:induction false} StreamsAlike(fs: seq<seq<Byte>>, gs: seq<seq<Byte>>)
    requires AllFrames(fs) && |gs| == |fs| && forall i :: 0 <= i < |fs| ==> Alike(fs[i], gs[i])
    ensures AllFrames(gs) && FrameMessages(gs) == FrameMessages(fs)
  {
    hide Alike, FrameMessage, IsFrame;
    if fs != [] {
      DecodesAlike(fs[0], gs[0]);
      StreamsAlike(fs[1..], gs[1..]);
    }
  }

  // ---------- Corruption ----------

  function Number(x: bv32): (n: nat)
    ensures n < 0x1_0000_0000
  {
    x as nat
  }

  function Word(n: nat): bv32
    requires n < 0x1_0000_0000
  {
    n as bv32
  }

  lemma WordNumber(x: bv32)
    ensures Word(Number(x)) == x
  {
  }

  lemma WordsEqual(x: bv32, y: bv32)
    requires Number(x) == Number(y)
    ensures x == y
  {
    hide Number, Word;
    WordNumber(x);
    WordNumber(y);
  }

  lemma ChecksumNumber(s: seq<Byte>)
    ensures ChecksumOf(s) == Number(Crc.Crc32C(RawBytes(s)))
  {
    hide Crc.Crc32C, RawBytes;
  }

  function BitsOf(s: seq<Byte>): (r: Words.Bits)
    ensures |r| == 8 * |s|
  {
    Words.BitsOf(RawBytes(s))
  }

  /** The bytes differ, and their bits only inside some 32 consecutive ones. */
  ghost predicate Burst(a: seq<Byte>, b: seq<Byte>, start: nat) {
    && |a| == |b| && BitsOf(a) != BitsOf(b)
    && forall i :: 0 <= i < 8 * |a| && !(start <= i < start + 32) ==> BitsOf(a)[i] == BitsOf(b)[i]
  }

  lemma BurstChangesChecksum(a: seq<Byte>, b: seq<Byte>, start: nat)
    requires Burst(a, b, start)
    ensures ChecksumOf(a) != ChecksumOf(b)
  {
    Crc.BurstDetected(RawBytes(a), RawBytes(b), start);
    hide Crc.Crc32C, Crc.Checksum, RawBytes, ChecksumOf, Number;
    ChecksumNumber(a);
    ChecksumNumber(b);
    if ChecksumOf(a) == ChecksumOf(b) {
      WordsEqual(Crc.Crc32C(RawBytes(a)), Crc.Crc32C(RawBytes(b)));
    }
  }

  /** A burst of up to 32 bits behind the header of a sent frame always contradicts the checksum in its header, and is
      always accepted: the decoder hands over the corrupted bytes. */
  lemma BurstAccepted(msg: EncodeMessage, i: nat, g: seq<Byte>, start: nat)
    requires Accepted(msg) && i < TotalFrames(|msg.payload|)
    requires |g| == |DataFrame(msg, i)| && g[..HEADER_SIZE] == DataFrame(msg, i)[..HEADER_SIZE]
    requires Burst(Body(msg, i), g[HEADER_SIZE..], start)
    ensures IsFrame(g) && ReadHeader(g).checksum != ChecksumOf(g[HEADER_SIZE..])
    ensures FrameMessage(g) == DecodedMessage(msg.msgId, 0, g[26], g[27], g[HEADER_SIZE + PREFIX_SIZE..])
  {
    var f := DataFrame(msg, i);
    FrameCorrect(msg, i);
    hide DataFrame, Chunk, Fragment;
    BurstChangesChecksum(Body(msg, i), g[HEADER_SIZE..], start);
    hide ChecksumOf, Body;
    SameHeader(f, g);
    hide ReadHeader;
  }

  /** Frames with equal headers. */
  lemma SameHeader(f: seq<Byte>, g: seq<Byte>)
    requires IsFrame(f) && !IsHeartbeat(f) && |g| == |f| && g[..HEADER_SIZE] == f[..HEADER_SIZE]
    ensures IsFrame(g) && ReadHeader(g) == ReadHeader(f)
    ensures FrameMessage(g)
            == DecodedMessage(FrameMessage(f).msgId, 0, g[26], g[27], g[HEADER_SIZE + PREFIX_SIZE..])
  {
    assert forall k :: 0 <= k < HEADER_SIZE ==> f[k] == f[..HEADER_SIZE][k] && g[k] == g[..HEADER_SIZE][k];
    assert f[..4] == g[..4] && f[5..8] == g[5..8];
    SameKindIsFrame(f, g);
    assert g[6..8] == f[6..8] && g[8..10] == f[8..10] && g[10..14] == f[10..14] && g[14..18] == f[14..18];
    assert g[18..20] == f[18..20] && g[20..22] == f[20..22] && g[22..26] == f[22..26];
    assert g[HEADER_SIZE + PREFIX_SIZE..|g|] == g[HEADER_SIZE + PREFIX_SIZE..];
  }
}
