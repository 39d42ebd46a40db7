/** The framing protocol of `mTcpCodec`: encoder, decoder and heartbeat frames. */
module Codec {
  import opened Bytes
  import Crc = Crc32C

  const HEADER_SIZE: nat := 26
  const PREFIX_SIZE: nat := 2
  const CHUNK_SIZE: nat := 4096
  const MAX_DATA_SIZE: nat := 10 * 1024 * 1024

  const VERSION: Byte := 1
  const HEARTBEAT: Byte := 0
  const DATA: Byte := 2

  const FULLMSG := 0x0
  const FRAGMENTED := 0x1
  const CHECKSUM := 0x2
  const ENDPART := 0x4

  datatype EncodeMessage =
    EncodeMessage(msgId: nat, protoType: Byte, mainType: Byte, subType: Byte, payload: seq<Byte>)

  datatype EncodeError = BadSize | TooManyFragments | HeartbeatWithPayload

  datatype EncodeResult = Encoded(bytes: seq<Byte>) | Rejected(error: EncodeError)

  datatype DecodedMessage =
    DecodedMessage(msgId: nat, protoType: Byte, mainType: Byte, subType: Byte, payload: seq<Byte>)

  datatype DecodeError = NoError | InputTooShort | InvalidMagic | TooShortForPayload

  datatype DecodeResult =
    DecodeResult(success: bool, error: DecodeError, messages: seq<DecodedMessage>, costOffset: nat)

  // ---------- Header ----------

  datatype Header =
    Header(protoType: Byte, payloadLen: nat, flags: nat, msgId: nat, seqNo: nat, total: nat, checksum: nat)

  /** The packed header: magic at 0, version at 4, type at 5, then the fields in network order at
      6, 8, 10, 14, 18, 20 and 22. */
  function PackHeader(h: Header): (r: seq<Byte>)
    ensures |r| == HEADER_SIZE
  {
    [0x48, 0x12, 0x31, 0x23, VERSION, h.protoType]
    + Big(h.payloadLen, 2) + Big(h.flags, 2)
    + Big(h.msgId / 0x1_0000_0000, 4) + Big(h.msgId % 0x1_0000_0000, 4)
    + Big(h.seqNo, 2) + Big(h.total, 2) + Big(h.checksum, 4)
  }

  predicate MagicAt(s: seq<Byte>, i: nat) {
    i + 4 <= |s| && s[i] == 0x48 && s[i + 1] == 0x12 && s[i + 2] == 0x31 && s[i + 3] == 0x23
  }

  function PayloadLen(s: seq<Byte>): nat
    requires |s| >= HEADER_SIZE
  {
    Count16(s[6], s[7])
  }

  function FrameLen(s: seq<Byte>): nat
    requires |s| >= HEADER_SIZE
  {
    HEADER_SIZE + PayloadLen(s)
  }

  predicate IsHeartbeat(s: seq<Byte>)
    requires |s| >= HEADER_SIZE
  {
    s[5] == HEARTBEAT
  }

  function MsgIdOf(s: seq<Byte>): nat
    requires |s| >= HEADER_SIZE
  {
    JoinWords(s[10..14], s[14..18])
  }

  /** `(high << 32) | low` of two words in network order. */
  function JoinWords(high: seq<Byte>, low: seq<Byte>): nat
  {
    Value(high) * 0x1_0000_0000 + Value(low)
  }

  function ReadHeader(s: seq<Byte>): Header
    requires |s| >= HEADER_SIZE
  {
    Header(s[5], PayloadLen(s), Value(s[8..10]), MsgIdOf(s), Value(s[18..20]), Value(s[20..22]), Value(s[22..26]))
  }

  lemma Slices(m: seq<Byte>, a: seq<Byte>, b: seq<Byte>, c: seq<Byte>, d: seq<Byte>, e: seq<Byte>, f: seq<Byte>,
               g: seq<Byte>, tail: seq<Byte>)
    requires |m| == 6 && |a| == |b| == |e| == |f| == 2 && |c| == |d| == |g| == 4
    ensures var s := m + a + b + c + d + e + f + g + tail;
            && s[..6] == m && s[6..8] == a && s[8..10] == b && s[10..14] == c && s[14..18] == d
            && s[18..20] == e && s[20..22] == f && s[22..26] == g
  {
  }

  lemma PackedFields(h: Header, tail: seq<Byte>)
    ensures var s := PackHeader(h) + tail;
            && s[..6] == [0x48, 0x12, 0x31, 0x23, 1, h.protoType]
            && s[6..8] == Big(h.payloadLen, 2) && s[8..10] == Big(h.flags, 2)
            && s[10..14] == Big(h.msgId / 0x1_0000_0000, 4) && s[14..18] == Big(h.msgId % 0x1_0000_0000, 4)
            && s[18..20] == Big(h.seqNo, 2) && s[20..22] == Big(h.total, 2) && s[22..26] == Big(h.checksum, 4)
  {
    var m := [0x48, 0x12, 0x31, 0x23, VERSION, h.protoType];
    var s := PackHeader(h) + tail;
    Slices(m, Big(h.payloadLen, 2), Big(h.flags, 2), Big(h.msgId / 0x1_0000_0000, 4), Big(h.msgId % 0x1_0000_0000, 4),
           Big(h.seqNo, 2), Big(h.total, 2), Big(h.checksum, 4), tail);
  }

  lemma FirstSix(s: seq<Byte>, protoType: Byte)
    requires |s| >= 6 && s[..6] == [0x48, 0x12, 0x31, 0x23, 1, protoType]
    ensures MagicAt(s, 0) && s[4] == 1 && s[5] == protoType
  {
    var m := s[..6];
    assert s[0] == m[0] && s[1] == m[1] && s[2] == m[2] && s[3] == m[3] && s[4] == m[4] && s[5] == m[5];
  }

  /** The packed header reads back, provided its counts fit in 16 bits. */
  lemma HeaderRoundTrip(h: Header, tail: seq<Byte>)
    requires h.payloadLen < 0x1_0000 && h.flags < 0x1_0000 && h.seqNo < 0x1_0000 && h.total < 0x1_0000
    requires h.checksum < 0x1_0000_0000 && h.msgId < 0x1_0000_0000_0000_0000
    ensures ReadHeader(PackHeader(h) + tail) == h
    ensures MagicAt(PackHeader(h) + tail, 0)
  {
    PackedFields(h, tail);
    assert Pow256(2) == 0x1_0000 && Pow256(4) == 0x1_0000_0000;
    ValueBig(h.payloadLen, 2);
    ValueBig(h.flags, 2);
    ValueBig(h.msgId / 0x1_0000_0000, 4);
    ValueBig(h.msgId % 0x1_0000_0000, 4);
    ValueBig(h.seqNo, 2);
    ValueBig(h.total, 2);
    ValueBig(h.checksum, 4);
    var s := PackHeader(h) + tail;
    FirstSix(s, h.protoType);
    CountValue(s[6..8]);
    assert s[6..8][0] == s[6] && s[6..8][1] == s[7];
  }

  /** The layout of a packed header, byte by byte, most significant bytes first. */
  lemma HeaderBytes(h: Header, tail: seq<Byte>)
    requires h.payloadLen < 0x1_0000 && h.flags < 0x1_0000 && h.seqNo < 0x1_0000 && h.total < 0x1_0000
    requires h.checksum < 0x1_0000_0000 && h.msgId < 0x1_0000_0000_0000_0000
    ensures var s := PackHeader(h) + tail;
            && s[0] == 0x48 && s[1] == 0x12 && s[2] == 0x31 && s[3] == 0x23 && s[4] == 1 && s[5] == h.protoType
            && h.payloadLen == s[6] as nat * 256 + s[7] as nat && h.flags == s[8] as nat * 256 + s[9] as nat
            && h.msgId / 0x1_0000_0000
               == s[10] as nat * 0x100_0000 + s[11] as nat * 0x1_0000 + s[12] as nat * 0x100 + s[13] as nat
            && h.msgId % 0x1_0000_0000
               == s[14] as nat * 0x100_0000 + s[15] as nat * 0x1_0000 + s[16] as nat * 0x100 + s[17] as nat
            && h.seqNo == s[18] as nat * 256 + s[19] as nat && h.total == s[20] as nat * 256 + s[21] as nat
            && h.checksum
               == s[22] as nat * 0x100_0000 + s[23] as nat * 0x1_0000 + s[24] as nat * 0x100 + s[25] as nat
  {
    var s := PackHeader(h) + tail;
    PackedFields(h, tail);
    FirstSix(s, h.protoType);
    HeaderRoundTrip(h, tail);
    hide PackHeader, Value, Big, MagicAt;
    CountValue(s[8..10]);
    CountValue(s[18..20]);
    CountValue(s[20..22]);
    WordValue(s, 10);
    WordValue(s, 14);
    WordValue(s, 22);
    WordsApart(Value(s[10..14]), Value(s[14..18]));
  }

  lemma WordValue(s: seq<Byte>, i: nat)
    requires i + 4 <= |s|
    ensures Value(s[i..i + 4])
            == s[i] as nat * 0x100_0000 + s[i + 1] as nat * 0x1_0000 + s[i + 2] as nat * 0x100 + s[i + 3] as nat
    ensures Value(s[i..i + 4]) < 0x1_0000_0000
  {
    var w := s[i..i + 4];
    assert w[..3][..2] == w[..2] && w[..3][..2][..1] == w[..1] && w[..1][..0] == [];
    CountValue(w[..2]);
  }

  lemma WordsApart(high: nat, low: nat)
    requires low < 0x1_0000_0000
    ensures (high * 0x1_0000_0000 + low) / 0x1_0000_0000 == high && (high * 0x1_0000_0000 + low) % 0x1_0000_0000 == low
  {
  }

  // ---------- Decoding ----------

  /** A whole frame stands at the front of the input. */
  predicate FrameReady(s: seq<Byte>) {
    |s| >= HEADER_SIZE && MagicAt(s, 0) && FrameLen(s) <= |s|
  }

  /** The decoder reads the two type bytes of a data frame whatever its payload length says. Every such
      read that decoding `s` makes lies inside `s`. */
  predicate ReadsInside(s: seq<Byte>)
    decreases |s|
  {
    FrameReady(s) ==> (IsHeartbeat(s) || HEADER_SIZE + PREFIX_SIZE <= |s|) && ReadsInside(s[FrameLen(s)..])
  }

  /** The message of the frame at the front of the input. Data frames leave the protocol type at zero. */
  function MessageAt(s: seq<Byte>): DecodedMessage
    requires FrameReady(s) && (IsHeartbeat(s) || HEADER_SIZE + PREFIX_SIZE <= |s|)
  {
    if IsHeartbeat(s) then
      DecodedMessage(MsgIdOf(s), HEARTBEAT, 0, 0, [])
    else
      DecodedMessage(MsgIdOf(s), 0, s[26], s[27],
                     if PayloadLen(s) > PREFIX_SIZE then s[HEADER_SIZE + PREFIX_SIZE..FrameLen(s)] else [])
  }

  /** The messages of the whole frames the scan passes. */
  function Messages(s: seq<Byte>): seq<DecodedMessage>
    requires ReadsInside(s)
    decreases |s|
  {
    if FrameReady(s) then [MessageAt(s)] + Messages(s[FrameLen(s)..]) else []
  }

  /** What the scan stops in front of. */
  function Rest(s: seq<Byte>): (r: seq<Byte>)
    ensures |r| <= |s| && r == s[|s| - |r|..] && !FrameReady(r)
    decreases |s|
  {
    if FrameReady(s) then Rest(s[FrameLen(s)..]) else s
  }

  /** The first place at or after `start` where the magic stands, or the end of the input. */
  function NextMagic(s: seq<Byte>, start: nat): (i: nat)
    requires start <= |s|
    ensures start <= i <= |s|
    decreases |s| - start
  {
    if |s| < start + 4 then |s| else if MagicAt(s, start) then start else NextMagic(s, start + 1)
  }

  /** The result when the scan stops in front of `rest`, after `used` bytes that gave `messages`. */
  function Stop(rest: seq<Byte>, used: nat, messages: seq<DecodedMessage>): DecodeResult
    requires !FrameReady(rest)
  {
    if |rest| < HEADER_SIZE then DecodeResult(true, NoError, messages, used)
    else if !MagicAt(rest, 0) then DecodeResult(false, InvalidMagic, messages, used + NextMagic(rest, 1))
    else DecodeResult(false, TooShortForPayload, messages, used)
  }

  /** The scan of what is left of the input after `used` bytes that gave `messages`. */
  function Scan(here: seq<Byte>, used: nat, messages: seq<DecodedMessage>): DecodeResult
    requires ReadsInside(here)
    decreases |here|
  {
    if FrameReady(here) then
      Scan(here[FrameLen(here)..], used + FrameLen(here), messages + [MessageAt(here)])
    else
      Stop(here, used, messages)
  }

  /** The result `DecodeSync` gives. */
  function Decode(s: seq<Byte>): DecodeResult
    requires ReadsInside(s)
  {
    if |s| < HEADER_SIZE then DecodeResult(false, InputTooShort, [], 0) else Scan(s, 0, [])
  }

  /** One round of the scan. */
  lemma ScanOne(here: seq<Byte>, used: nat, messages: seq<DecodedMessage>)
    requires ReadsInside(here)
    ensures FrameReady(here) ==>
              var next := here[FrameLen(here)..];
              && (IsHeartbeat(here) || HEADER_SIZE + PREFIX_SIZE <= |here|)
              && ReadsInside(next) && Rest(here) == Rest(next)
              && Messages(here) == [MessageAt(here)] + Messages(next)
              && Scan(here, used, messages) == Scan(next, used + FrameLen(here), messages + [MessageAt(here)])
    ensures !FrameReady(here) ==>
              && Rest(here) == here && Messages(here) == []
              && Scan(here, used, messages) == Stop(here, used, messages)
  {
    hide MagicAt, PayloadLen, MessageAt, Stop, NextMagic;
  }

  method FindNextMagic(input: seq<Byte>, start: nat) returns (r: nat)
    requires start <= |input|
    ensures r == NextMagic(input, start)
  {
    if |input| < 4 || start >= |input| {
      return |input|;
    }
    var i := start;
    while i + 4 <= |input|
      invariant start <= i <= |input|
      invariant NextMagic(input, start) == NextMagic(input, i)
    {
      if MagicAt(input, i) {
        return i;
      }
      i := i + 1;
    }
    return |input|;
  }

  lemma MagicShift(s: seq<Byte>, i: nat)
    requires i <= |s|
    ensures MagicAt(s[i..], 0) == MagicAt(s, i)
  {
  }

  lemma LenShift(s: seq<Byte>, i: nat)
    requires i + HEADER_SIZE <= |s|
    ensures PayloadLen(s[i..]) == Count16(s[i + 6], s[i + 7])
  {
  }

  lemma {:induction false} NextMagicShift(s: seq<Byte>, i: nat, j: nat)
    requires i + j <= |s|
    ensures NextMagic(s, i + j) == i + NextMagic(s[i..], j)
    decreases |s| - i - j
  {
    if i + j + 4 <= |s| && !MagicAt(s, i + j) {
      NextMagicShift(s, i, j + 1);
    }
  }

  /** The scan can go on from `offset` without reading past the input, and what it gives. */
  ghost predicate ReadsFrom(input: seq<Byte>, offset: nat) {
    offset <= |input| && ReadsInside(input[offset..])
  }

  ghost function ScanFrom(input: seq<Byte>, offset: nat, messages: seq<DecodedMessage>): DecodeResult
    requires ReadsFrom(input, offset)
  {
    Scan(input[offset..], offset, messages)
  }

  /** A whole frame with this payload length stands at `offset`, with its type bytes if it is a data frame. */
  ghost predicate FrameAt(input: seq<Byte>, offset: nat, payloadLen: nat) {
    && offset + HEADER_SIZE <= |input|
    && FrameReady(input[offset..]) && payloadLen == PayloadLen(input[offset..])
    && (IsHeartbeat(input[offset..]) || offset + HEADER_SIZE + PREFIX_SIZE <= |input|)
  }

  ghost function MessageFrom(input: seq<Byte>, offset: nat, payloadLen: nat): DecodedMessage
    requires FrameAt(input, offset, payloadLen)
  {
    MessageAt(input[offset..])
  }

  /** The loop body once a whole frame is known to stand at `offset`. */
  method ReadFrame(input: seq<Byte>, offset: nat, payloadLen: nat) returns (msg: DecodedMessage)
    requires FrameAt(input, offset, payloadLen)
    ensures msg == MessageFrom(input, offset, payloadLen)
  {
    ghost var here := input[offset..];
    assert here[10..14] == input[offset + 10..offset + 14] && here[14..18] == input[offset + 14..offset + 18];
    var msgId := JoinWords(input[offset + 10..offset + 14], input[offset + 14..offset + 18]);
    if input[offset + 5] == HEARTBEAT {
      return DecodedMessage(msgId, HEARTBEAT, 0, 0, []);
    }
    msg := DecodedMessage(msgId, 0, input[offset + 26], input[offset + 27], []);
    if payloadLen > PREFIX_SIZE {
      msg := msg.(payload := input[offset + HEADER_SIZE + PREFIX_SIZE..offset + HEADER_SIZE + payloadLen]);
      assert msg.payload == here[HEADER_SIZE + PREFIX_SIZE..FrameLen(here)];
    }
  }

  /** One round of the scan, in terms of the whole input. */
  lemma ScanAt(input: seq<Byte>, offset: nat, messages: seq<DecodedMessage>)
    requires ReadsFrom(input, offset)
    ensures var scan := ScanFrom(input, offset, messages);
            if offset + HEADER_SIZE > |input| then scan == DecodeResult(true, NoError, messages, offset)
            else if !MagicAt(input, offset) then
              scan == DecodeResult(false, InvalidMagic, messages, NextMagic(input, offset + 1))
            else
              var payloadLen := Count16(input[offset + 6], input[offset + 7]);
              var next := offset + HEADER_SIZE + payloadLen;
              if next > |input| then scan == DecodeResult(false, TooShortForPayload, messages, offset)
              else
                && FrameAt(input, offset, payloadLen) && ReadsFrom(input, next)
                && scan == ScanFrom(input, next, messages + [MessageFrom(input, offset, payloadLen)])
  {
    hide Scan, ReadsInside, MagicAt, NextMagic, MessageAt, Messages, Rest, PayloadLen, IsHeartbeat;
    var here := input[offset..];
    ScanOne(here, offset, messages);
    if |here| >= HEADER_SIZE {
      MagicShift(input, offset);
      LenShift(input, offset);
      if !MagicAt(input, offset) {
        NextMagicShift(input, offset, 1);
      } else if FrameLen(here) <= |here| {
        DropBoth(input, offset, FrameLen(here));
      }
    }
  }

  method DecodeSync(input: seq<Byte>) returns (result: DecodeResult)
    requires ReadsInside(input)
    ensures result == Decode(input)
  {
    if |input| < HEADER_SIZE {
      return DecodeResult(false, InputTooShort, [], 0);
    }
    TakeDropNone(input);
    assert ReadsFrom(input, 0) && ScanFrom(input, 0, []) == Decode(input);
    hide Decode, ReadsInside, ReadsFrom, ScanFrom, MagicAt, NextMagic, FrameAt, MessageFrom;
    var offset, messages := 0, [];
    while offset + HEADER_SIZE <= |input|
      invariant ReadsFrom(input, offset) && ScanFrom(input, offset, messages) == Decode(input)
      decreases |input| - offset
    {
      ScanAt(input, offset, messages);
      if !MagicAt(input, offset) {
        var magicOffset := FindNextMagic(input, offset + 1);
        return DecodeResult(false, InvalidMagic, messages, magicOffset);
      }
      var payloadLen := Count16(input[offset + 6], input[offset + 7]);
      var frameLen := HEADER_SIZE + payloadLen;
      if offset + frameLen > |input| {
        return DecodeResult(false, TooShortForPayload, messages, offset);
      }
      var msg := ReadFrame(input, offset, payloadLen);
      messages, offset := messages + [msg], offset + frameLen;
    }
    ScanAt(input, offset, messages);
    result := DecodeResult(true, NoError, messages, offset);
  }

  // ---------- Encoding ----------

  function TotalFrames(n: nat): nat {
    (n + CHUNK_SIZE - 1) / CHUNK_SIZE
  }

  /** The `i`-th piece of a payload: 4096 bytes, or what is left. */
  function Chunk(payload: seq<Byte>, i: nat): (r: seq<Byte>)
    requires i < TotalFrames(|payload|)
    ensures 0 < |r| <= CHUNK_SIZE
  {
    var offset := i * CHUNK_SIZE;
    payload[offset..if |payload| - offset < CHUNK_SIZE then |payload| else offset + CHUNK_SIZE]
  }

  function FrameFlags(i: nat, total: nat): nat {
    CHECKSUM + if total == 1 then FULLMSG else FRAGMENTED + if i + 1 == total then ENDPART else 0
  }

  function RawBytes(s: seq<Byte>): seq<bv8> {
    seq(|s|, i requires 0 <= i < |s| => s[i] as bv8)
  }

  /** The word `Crc32C` returns. */
  function ChecksumOf(s: seq<Byte>): (n: nat)
    ensures n < 0x1_0000_0000
  {
    Crc.Crc32C(RawBytes(s)) as nat
  }

  lemma ChecksumIs(s: seq<Byte>, crc: bv32)
    requires crc == Crc.Crc32C(RawBytes(s))
    ensures ChecksumOf(s) == crc as nat
  {
  }

  /** What follows the header of a data frame. */
  function Body(msg: EncodeMessage, i: nat): (r: seq<Byte>)
    requires i < TotalFrames(|msg.payload|)
    ensures PREFIX_SIZE < |r| <= PREFIX_SIZE + CHUNK_SIZE
  {
    [msg.mainType, msg.subType] + Chunk(msg.payload, i)
  }

  function DataHeader(msg: EncodeMessage, i: nat, total: nat): Header
    requires i < TotalFrames(|msg.payload|)
  {
    Header(DATA, |Body(msg, i)|, FrameFlags(i, total), msg.msgId, i, total, ChecksumOf(Body(msg, i)))
  }

  function DataFrame(msg: EncodeMessage, i: nat): seq<Byte>
    requires i < TotalFrames(|msg.payload|)
  {
    PackHeader(DataHeader(msg, i, TotalFrames(|msg.payload|))) + Body(msg, i)
  }

  /** The first `k` frames of a message. */
  function DataFrames(msg: EncodeMessage, k: nat): (r: seq<seq<Byte>>)
    requires k <= TotalFrames(|msg.payload|)
    ensures |r| == k
  {
    seq(k, i requires 0 <= i < k => DataFrame(msg, i))
  }

  function HeartbeatFrame(msgId: nat): seq<Byte> {
    PackHeader(Header(HEARTBEAT, 0, 0, msgId, 0, 0, 0))
  }

  /** The result `EncodeSync` gives. */
  function Encode(msg: EncodeMessage): EncodeResult {
    if msg.payload == [] || |msg.payload| > MAX_DATA_SIZE then Rejected(BadSize)
    else if TotalFrames(|msg.payload|) > 0xFFFF then Rejected(TooManyFragments)
    else if msg.protoType == HEARTBEAT then
      if msg.payload != [] then Rejected(HeartbeatWithPayload) else Encoded(HeartbeatFrame(msg.msgId))
    else Encoded(Concat(DataFrames(msg, TotalFrames(|msg.payload|))))
  }

  /** The loop body: one frame. */
  method EncodeChunk(msg: EncodeMessage, seqNo: nat, totalFrames: nat) returns (frame: seq<Byte>)
    requires totalFrames == TotalFrames(|msg.payload|) && seqNo < totalFrames
    ensures frame == DataFrame(msg, seqNo)
  {
    hide PackHeader, ChecksumOf;
    var offset := seqNo * CHUNK_SIZE;
    var remain := |msg.payload| - offset;
    var chunkLen := if remain < CHUNK_SIZE then remain else CHUNK_SIZE;
    var flags := CHECKSUM;
    if totalFrames == 1 {
      flags := flags + FULLMSG;
    } else {
      flags := flags + FRAGMENTED;
      if seqNo + 1 == totalFrames {
        flags := flags + ENDPART;
      }
    }
    var body := [msg.mainType, msg.subType] + msg.payload[offset..offset + chunkLen];
    assert body == Body(msg, seqNo);
    var crc := Crc.Crc32CBitwise(RawBytes(body));
    ChecksumIs(body, crc);
    frame := PackHeader(Header(DATA, |body|, flags, msg.msgId, seqNo, totalFrames, crc as nat)) + body;
  }

  lemma DataFramesSnoc(msg: EncodeMessage, k: nat)
    requires k < TotalFrames(|msg.payload|)
    ensures DataFrames(msg, k + 1) == DataFrames(msg, k) + [DataFrame(msg, k)]
    ensures Concat(DataFrames(msg, k + 1)) == Concat(DataFrames(msg, k)) + DataFrame(msg, k)
  {
    hide DataFrame;
    assert DataFrames(msg, k + 1) == DataFrames(msg, k) + [DataFrame(msg, k)];
    ConcatSnoc(DataFrames(msg, k), DataFrame(msg, k));
  }

  method EncodeSync(msg: EncodeMessage) returns (result: EncodeResult)
    ensures result == Encode(msg)
  {
    if msg.payload == [] || |msg.payload| > MAX_DATA_SIZE {
      return Rejected(BadSize);
    }
    var totalFrames := (|msg.payload| + CHUNK_SIZE - 1) / CHUNK_SIZE;
    if totalFrames > 0xFFFF {
      return Rejected(TooManyFragments);
    }
    if msg.protoType == HEARTBEAT {
      if msg.payload != [] {
        return Rejected(HeartbeatWithPayload);
      }
      return Encoded(HeartbeatFrame(msg.msgId));
    }
    var encoded := [];
    assert Concat(DataFrames(msg, 0)) == [];
    hide DataFrames, DataFrame, Concat;
    for seqNo := 0 to totalFrames
      invariant encoded == Concat(DataFrames(msg, seqNo))
    {
      var frame := EncodeChunk(msg, seqNo, totalFrames);
      DataFramesSnoc(msg, seqNo);
      encoded := encoded + frame;
    }
    result := Encoded(encoded);
  }
}
