/** What the encoder's output looks like, and that the decoder undoes it. */
module RoundTrip {
  import opened Bytes
  import opened Codec
  import opened Stream

  /** The messages a peer decodes from an encoded message: one per chunk. */
  function Fragment(msg: EncodeMessage, i: nat): DecodedMessage
    requires i < TotalFrames(|msg.payload|)
  {
    DecodedMessage(msg.msgId, 0, msg.mainType, msg.subType, Chunk(msg.payload, i))
  }

  function Fragments(msg: EncodeMessage, k: nat): (r: seq<DecodedMessage>)
    requires k <= TotalFrames(|msg.payload|)
    ensures |r| == k && forall i :: 0 <= i < k ==> r[i] == Fragment(msg, i)
  {
    seq(k, i requires 0 <= i < k => Fragment(msg, i))
  }

  /** A message the encoder cuts into data frames. */
  predicate Accepted(msg: EncodeMessage) {
    0 < |msg.payload| <= MAX_DATA_SIZE && msg.protoType != HEARTBEAT && msg.msgId < 0x1_0000_0000_0000_0000
  }

  /** 10 MB is 2560 chunks, so the fragment guard never fires, and no count is cut to 16 bits. */
  lemma CountsFit(msg: EncodeMessage, i: nat)
    requires Accepted(msg) && i < TotalFrames(|msg.payload|)
    ensures TotalFrames(|msg.payload|) <= 2560
    ensures var h := DataHeader(msg, i, TotalFrames(|msg.payload|));
            && h.payloadLen <= 4098 && h.flags < 8 && h.seqNo < 0x1_0000 && h.total < 0x1_0000
            && h.checksum < 0x1_0000_0000
  {
  }

  lemma BehindHeader(header: seq<Byte>, body: seq<Byte>)
    requires |header| == HEADER_SIZE && |body| >= PREFIX_SIZE
    ensures var f := header + body;
            && f[HEADER_SIZE..] == body && f[26] == body[0] && f[27] == body[1]
            && f[HEADER_SIZE + PREFIX_SIZE..|f|] == body[PREFIX_SIZE..]
  {
  }

  /** A packed header in front of a body with the two type bytes is a frame that decodes to the body's parts, whatever
      type it names but that of a heartbeat, and whether or not there is a payload. */
  lemma PackedFrame(h: Header, body: seq<Byte>)
    requires h.payloadLen == |body| < 0x1_0000 && h.flags < 0x1_0000 && h.seqNo < 0x1_0000 && h.total < 0x1_0000
    requires h.checksum < 0x1_0000_0000 && h.msgId < 0x1_0000_0000_0000_0000
    requires h.protoType != 0 && |body| >= 2
    ensures var f := PackHeader(h) + body;
            && IsFrame(f) && ReadHeader(f) == h && f[HEADER_SIZE..] == body
            && FrameMessage(f) == DecodedMessage(h.msgId, 0, body[0], body[1], body[2..])
  {
    hide PackHeader;
    var f := PackHeader(h) + body;
    HeaderRoundTrip(h, body);
    BehindHeader(PackHeader(h), body);
    hide MagicAt, PayloadLen, MsgIdOf;
    assert PayloadLen(f) == h.payloadLen && MsgIdOf(f) == h.msgId && f[5] == h.protoType;
  }

  /** A packed heartbeat header in front of any payload is a frame that decodes to a heartbeat without one. */
  lemma PackedHeartbeat(h: Header, body: seq<Byte>)
    requires h.payloadLen == |body| < 0x1_0000 && h.flags < 0x1_0000 && h.seqNo < 0x1_0000 && h.total < 0x1_0000
    requires h.checksum < 0x1_0000_0000 && h.msgId < 0x1_0000_0000_0000_0000
    requires h.protoType == 0
    ensures var f := PackHeader(h) + body;
            IsFrame(f) && FrameMessage(f) == DecodedMessage(h.msgId, 0, 0, 0, [])
  {
    hide PackHeader;
    var f := PackHeader(h) + body;
    HeaderRoundTrip(h, body);
    hide MagicAt, PayloadLen, MsgIdOf;
    assert PayloadLen(f) == h.payloadLen && MsgIdOf(f) == h.msgId && f[5] == h.protoType;
  }

  /** A request without parameters: the two type bytes and no payload. */
  lemma RequestWithoutPayload(msgId: nat, mainType: Byte, subType: Byte)
    requires msgId < 0x1_0000_0000_0000_0000
    ensures var f := PackHeader(Header(DATA, 2, 2, msgId, 0, 1, 0)) + [mainType, subType];
            IsFrame(f) && |f| == 28 && FrameMessage(f) == DecodedMessage(msgId, 0, mainType, subType, [])
  {
    hide PackHeader, IsFrame, FrameMessage;
    PackedFrame(Header(DATA, 2, 2, msgId, 0, 1, 0), [mainType, subType]);
  }

  /** Every frame the encoder makes is well-formed, carries its header's fields, and decodes to its fragment. */
  lemma FrameCorrect(msg: EncodeMessage, i: nat)
    requires Accepted(msg) && i < TotalFrames(|msg.payload|)
    ensures var f := DataFrame(msg, i);
            && IsFrame(f) && |f| == HEADER_SIZE + PREFIX_SIZE + |Chunk(msg.payload, i)|
            && ReadHeader(f) == DataHeader(msg, i, TotalFrames(|msg.payload|))
            && f[HEADER_SIZE..] == Body(msg, i)
            && FrameMessage(f) == Fragment(msg, i)
  {
    var h := DataHeader(msg, i, TotalFrames(|msg.payload|));
    CountsFit(msg, i);
    hide PackHeader, ChecksumOf, Chunk, IsFrame, ReadHeader, FrameMessage, TotalFrames, FrameFlags;
    PackedFrame(h, Body(msg, i));
    assert Body(msg, i)[PREFIX_SIZE..] == Chunk(msg.payload, i);
  }

  /** The bytes of the payload in the first `k` chunks. */
  function Covered(n: nat, k: nat): nat {
    if k * CHUNK_SIZE < n then k * CHUNK_SIZE else n
  }

  lemma FragmentsSnoc(msg: EncodeMessage, k: nat)
    requires k < TotalFrames(|msg.payload|)
    ensures Fragments(msg, k + 1) == Fragments(msg, k) + [Fragment(msg, k)]
  {
    hide Fragment;
  }

  lemma NoFrames(msg: EncodeMessage)
    ensures DataFrames(msg, 0) == [] && Fragments(msg, 0) == []
  {
  }

  lemma {:induction false} FramesCorrect(msg: EncodeMessage, k: nat)
    requires Accepted(msg) && k <= TotalFrames(|msg.payload|)
    ensures AllFrames(DataFrames(msg, k))
    ensures FrameMessages(DataFrames(msg, k)) == Fragments(msg, k)
    decreases k
  {
    hide DataFrames, DataFrame, Fragments, Fragment, IsFrame, FrameMessage, ReadHeader, TotalFrames, Accepted, AllFrames,
      FrameMessages;
    NoFrames(msg);
    if k == 0 {
      NoFrameMessages();
    } else {
      var init, last := DataFrames(msg, k - 1), DataFrame(msg, k - 1);
      FramesCorrect(msg, k - 1);
      FrameCorrect(msg, k - 1);
      DataFramesSnoc(msg, k - 1);
      FragmentsSnoc(msg, k - 1);
      FrameMessagesSnoc(init, last);
    }
  }

  lemma {:induction false} EncodedLength(msg: EncodeMessage, k: nat)
    requires Accepted(msg) && k <= TotalFrames(|msg.payload|)
    ensures |Concat(DataFrames(msg, k))| == 28 * k + Covered(|msg.payload|, k)
    decreases k
  {
    if k == 0 {
      assert DataFrames(msg, 0) == [];
    } else {
      EncodedLength(msg, k - 1);
      FrameCorrect(msg, k - 1);
      DataFramesSnoc(msg, k - 1);
      ChunkLength(msg.payload, k - 1);
      hide DataFrames, DataFrame, Fragment, IsFrame, FrameMessage, ReadHeader, Chunk, Body, DataHeader, Concat;
    }
  }

  function Payloads(messages: seq<DecodedMessage>): (r: seq<seq<Byte>>)
    ensures |r| == |messages| && forall i :: 0 <= i < |r| ==> r[i] == messages[i].payload
  {
    seq(|messages|, i requires 0 <= i < |messages| => messages[i].payload)
  }

  lemma ChunkLength(payload: seq<Byte>, i: nat)
    requires i < TotalFrames(|payload|)
    ensures |Chunk(payload, i)| == if (i + 1) * CHUNK_SIZE <= |payload| then CHUNK_SIZE else |payload| - i * CHUNK_SIZE
    ensures i + 1 < TotalFrames(|payload|) ==> |Chunk(payload, i)| == 4096
  {
  }

  /** The chunks put together are the payload. */
  lemma {:induction false} ChunksConcat(msg: EncodeMessage, k: nat)
    requires k <= TotalFrames(|msg.payload|)
    ensures Concat(Payloads(Fragments(msg, k))) ==
              msg.payload[..Covered(|msg.payload|, k)]
    decreases k
  {
    if k != 0 {
      ChunksConcat(msg, k - 1);
      var init := Payloads(Fragments(msg, k - 1));
      assert Payloads(Fragments(msg, k)) == init + [Chunk(msg.payload, k - 1)];
      ConcatSnoc(init, Chunk(msg.payload, k - 1));
    }
  }

  /** What the header of the `i`-th frame of a message says: the magic and version 1, its type and position, its flags
      (FRAGMENTED on several frames only, ENDPART on the last of several) and the checksum of the bytes behind it. */
  predicate FrameShape(msg: EncodeMessage, i: nat, f: seq<Byte>) {
    && IsFrame(f)
    && f[..6] == [0x48, 0x12, 0x31, 0x23, 1, 2]
    && var h := ReadHeader(f); var total := TotalFrames(|msg.payload|);
       && h.protoType == 2 && h.msgId == msg.msgId && h.seqNo == i && h.total == total
       && h.checksum == ChecksumOf(f[HEADER_SIZE..])
       && h.flags == (if total == 1 then 2 else if i + 1 == total then 7 else 3)
  }

  lemma FrameBegins(msg: EncodeMessage, i: nat)
    requires i < TotalFrames(|msg.payload|)
    ensures DataFrame(msg, i)[..6] == [0x48, 0x12, 0x31, 0x23, 1, 2]
  {
    hide PackHeader, ChecksumOf, Body, FrameFlags;
    PackedFields(DataHeader(msg, i, TotalFrames(|msg.payload|)), Body(msg, i));
  }

  lemma FrameHasShape(msg: EncodeMessage, i: nat)
    requires Accepted(msg) && i < TotalFrames(|msg.payload|)
    ensures FrameShape(msg, i, DataFrame(msg, i))
  {
    FrameBegins(msg, i);
    hide IsFrame, ReadHeader, DataFrame, ChecksumOf, Chunk, FrameMessage, Fragment, Body;
    FrameCorrect(msg, i);
  }

  /** Encoder shape: the encoding has exactly the reserved size, is cut into at most 2560 frames, and every frame
      has the shape of its place. */
  lemma EncodedShape(msg: EncodeMessage)
    requires Accepted(msg)
    ensures var total := TotalFrames(|msg.payload|); var frames := DataFrames(msg, total);
            && Encode(msg) == Encoded(Concat(frames)) && 1 <= total <= 2560
            && 4096 * (total - 1) < |msg.payload| <= 4096 * total
            && |Concat(frames)| == |msg.payload| + 28 * total
            && forall i :: 0 <= i < total ==> FrameShape(msg, i, frames[i])
  {
    var total := TotalFrames(|msg.payload|);
    EncodesFrames(msg);
    EncodedLength(msg, total);
    hide FrameShape, Concat, Encode, TotalFrames;
    forall i | 0 <= i < total ensures FrameShape(msg, i, DataFrames(msg, total)[i]) {
      FrameHasShape(msg, i);
    }
  }

  lemma EncodesFrames(msg: EncodeMessage)
    requires Accepted(msg)
    ensures Encode(msg) == Encoded(Concat(DataFrames(msg, TotalFrames(|msg.payload|))))
    ensures var total := TotalFrames(|msg.payload|);
            1 <= total <= 2560 && 4096 * (total - 1) < |msg.payload| <= 4096 * total
    ensures Covered(|msg.payload|, TotalFrames(|msg.payload|)) == |msg.payload|
  {
    hide DataFrames, Concat;
  }

  /** The decoded pieces of a message: its identifiers on each, 4096 bytes on all but the last, and payloads
      that concatenate to the original. */
  predicate PiecesOf(msg: EncodeMessage, pieces: seq<DecodedMessage>) {
    && |pieces| == TotalFrames(|msg.payload|)
    && Concat(Payloads(pieces)) == msg.payload
    && forall i :: 0 <= i < |pieces| ==>
         && pieces[i].msgId == msg.msgId && pieces[i].mainType == msg.mainType && pieces[i].subType == msg.subType
         && (i + 1 < |pieces| ==> |pieces[i].payload| == 4096)
  }

  lemma FragmentsArePieces(msg: EncodeMessage)
    requires Accepted(msg)
    ensures PiecesOf(msg, Fragments(msg, TotalFrames(|msg.payload|)))
  {
    var total := TotalFrames(|msg.payload|);
    ChunksConcat(msg, total);
    hide Chunk, Concat, Payloads;
    forall i | 0 <= i < total ensures i + 1 < total ==> |Fragment(msg, i).payload| == 4096 {
      ChunkLength(msg.payload, i);
    }
  }

  /** Round trip: decoding an encoded message succeeds, consumes every byte, and gives its pieces. */
  lemma EncodeDecode(msg: EncodeMessage)
    requires Accepted(msg)
    ensures Encode(msg).Encoded?
    ensures var bytes := Encode(msg).bytes;
            && ReadsInside(bytes)
            && var d := Decode(bytes);
               d.success && d.costOffset == |bytes| && PiecesOf(msg, d.messages)
  {
    var total := TotalFrames(|msg.payload|);
    var frames := DataFrames(msg, total);
    assert Encode(msg) == Encoded(Concat(frames));
    FramesCorrect(msg, total);
    FragmentsArePieces(msg);
    hide DataFrames, Decode, Concat, FrameMessages, IsFrame, ReadsInside, PiecesOf, Fragments, Encode;
    DecodeWhole(frames);
  }

  /** What the encoder refuses, and why: empty payloads and those of more than 10 MB, and otherwise every heartbeat;
      nothing else. */
  lemma EncodeRefuses(msg: EncodeMessage)
    ensures var n := |msg.payload|;
            && (Encode(msg) == Rejected(BadSize) <==> n == 0 || n > 10_485_760)
            && (Encode(msg) == Rejected(HeartbeatWithPayload) <==> 0 < n <= 10_485_760 && msg.protoType == 0)
            && (Encode(msg).Encoded? <==> 0 < n <= 10_485_760 && msg.protoType != 0)
            && (0 < n <= 10_485_760 && msg.protoType != 0 && msg.msgId < 0x1_0000_0000_0000_0000 <==> Accepted(msg))
  {
  }

  /** A heartbeat frame is a well-formed frame of 26 bytes, version 1 and type 0, that says nothing but its identifier
      and decodes to a heartbeat with it. */
  lemma HeartbeatRoundTrip(msgId: nat)
    requires msgId < 0x1_0000_0000_0000_0000
    ensures var f := HeartbeatFrame(msgId);
            && IsFrame(f) && |f| == 26 && FrameMessage(f) == DecodedMessage(msgId, 0, 0, 0, [])
            && f[..6] == [0x48, 0x12, 0x31, 0x23, 1, 0]
            && ReadHeader(f) == Header(0, 0, 0, msgId, 0, 0, 0)
  {
    hide PackHeader, IsFrame, FrameMessage, ReadHeader;
    var h := Header(HEARTBEAT, 0, 0, msgId, 0, 0, 0);
    NothingMore(PackHeader(h));
    HeaderRoundTrip(h, []);
    PackedFields(h, []);
    PackedHeartbeat(h, []);
  }
}
