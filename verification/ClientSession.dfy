/** The session's receive buffer and its send path. */
module Session {
  import opened Bytes
  import opened Codec
  import opened Collections
  import opened Stream
  import opened RoundTrip
  import opened WriteQueue

  const BUFFER_SIZE: nat := 64 * 1024
  const READ_SIZE: nat := 4096

  // ---------- Receiving ----------

  /** The kept bytes, the messages handed to the gateway, and whether a read has been copied past the end of the
      buffer. */
  datatype Inbox = Inbox(kept: seq<Byte>, delivered: seq<DecodedMessage>, overflowed: bool)

  /** `onSocketRecv`: the buffer moves on as the decoder says, but messages are delivered only when the call
      succeeded. Nothing checks that the read fits behind the kept bytes; after a read that does not, nothing more
      is modelled. Where the decoder would read outside the buffer nothing is modelled either. */
  function OnRecv(s: Inbox, data: seq<Byte>): Inbox {
    var buffer := s.kept + data;
    if s.overflowed || data == [] then s
    else if |buffer| > BUFFER_SIZE then s.(overflowed := true)
    else if !ReadsInside(buffer) then s
    else
      CostBound(buffer);
      var d := Decode(buffer);
      Inbox(buffer[d.costOffset..], s.delivered + if d.success then d.messages else [], false)
  }

  function OnRecvAll(pieces: seq<seq<Byte>>): Inbox {
    if pieces == [] then Inbox([], [], false) else OnRecv(OnRecvAll(pieces[..|pieces| - 1]), pieces[|pieces| - 1])
  }

  /** How many bytes of an unfinished frame the first `n` bytes of the stream end with. */
  function Unfinished(fs: seq<seq<Byte>>, n: nat): int {
    n - |Concat(fs[..Completed(fs, n)])|
  }

  /** A read that takes the stream from `before` to `after` bytes completes frames, but ends a header or more into
      the next one. */
  predicate LossyRead(fs: seq<seq<Byte>>, before: nat, after: nat) {
    Completed(fs, before) < Completed(fs, after) && Unfinished(fs, after) >= HEADER_SIZE
  }

  /** No read of the list is lossy. */
  predicate Lossless(fs: seq<seq<Byte>>, pieces: seq<seq<Byte>>)
    decreases |pieces|
  {
    pieces == [] ||
    (Lossless(fs, pieces[..|pieces| - 1]) && !LossyRead(fs, |Concat(pieces[..|pieces| - 1])|, |Concat(pieces)|))
  }

  /** Every read fits into the buffer behind the unfinished frame that the reads before it ended with. */
  predicate Fits(fs: seq<seq<Byte>>, pieces: seq<seq<Byte>>)
    decreases |pieces|
  {
    pieces == [] ||
    var init, last := pieces[..|pieces| - 1], pieces[|pieces| - 1];
    Fits(fs, init) && Unfinished(fs, |Concat(init)|) + |last| <= 65536
  }

  /** One read of a stream of frames: if it fits into the buffer, the kept bytes are those of the whole stream so far,
      and what is delivered is what the read completes, unless the read is lossy; if not, the buffer overflows. */
  lemma OnRecvCut(fs: seq<seq<Byte>>, p: seq<Byte>, read: seq<Byte>, delivered: seq<DecodedMessage>)
      returns (m: seq<DecodedMessage>)
    requires AllFrames(fs) && p + read <= Concat(fs)
    ensures ReadsInside(p) && ReadsInside(p + read) && |Rest(p)| == Unfinished(fs, |p|)
    ensures Messages(p + read) == Messages(p) + m && (LossyRead(fs, |p|, |p + read|) ==> m != [])
    ensures Unfinished(fs, |p|) + |read| <= BUFFER_SIZE ==>
              OnRecv(Inbox(Rest(p), delivered, false), read)
              == Inbox(Rest(p + read), delivered + if LossyRead(fs, |p|, |p + read|) then [] else m, false)
    ensures Unfinished(fs, |p|) + |read| > BUFFER_SIZE && read != [] ==>
              OnRecv(Inbox(Rest(p), delivered, false), read) == Inbox(Rest(p), delivered, true)
  {
    hide FrameReady, ReadsInside, Messages, Rest, Decode, IsFrame, AllFrames, Completed, Concat, FrameMessages, LossyRead;
    hide MagicAt, ProperPrefix, Receive, OnRecv;
    RestLength(fs, p, read);
    hide Unfinished;
    ReceiveCut(fs, p, read);
    m := Messages(Rest(p) + read);
    LossyMeans(fs, p, read, m);
    DecodeCut(fs, p + read);
    if read == [] {
      NothingMore(p);
      NothingMore(Rest(p));
      NothingMore(delivered);
      NoData(Inbox(Rest(p), delivered, false));
    } else if |Rest(p)| + |read| <= BUFFER_SIZE {
      DataRead(Rest(p), delivered, read);
    } else {
      NoRoom(Rest(p), delivered, read);
    }
  }

  /** On any input, not only on frames: a read that fits moves the buffer on as it moves any reader on, and delivers what
      was decoded exactly when less than a header is left in front of which the decoder stopped. */
  lemma OnRecvReads(s: Inbox, data: seq<Byte>)
    requires !s.overflowed && data != [] && |s.kept + data| <= 65536 && ReadsInside(s.kept + data)
    ensures var t, r := OnRecv(s, data), Receive(Receiver(s.kept, []), data);
            && t.kept == r.kept && !t.overflowed
            && t.delivered == s.delivered + if |Rest(s.kept + data)| < HEADER_SIZE then r.decoded else []
  {
    hide FrameReady, ReadsInside, Messages, Decode, MagicAt, NextMagic, Rest;
    var buffer := s.kept + data;
    DecodeShape(buffer);
    NothingMore(Messages(buffer));
    if |buffer| < HEADER_SIZE {
      ShortDecodesToNothing(buffer);
    }
  }

  lemma NoRoom(kept: seq<Byte>, delivered: seq<DecodedMessage>, read: seq<Byte>)
    requires read != [] && |kept| + |read| > BUFFER_SIZE
    ensures OnRecv(Inbox(kept, delivered, false), read) == Inbox(kept, delivered, true)
  {
    hide ReadsInside, Decode;
  }

  lemma RestLength(fs: seq<seq<Byte>>, p: seq<Byte>, read: seq<Byte>)
    requires AllFrames(fs) && p + read <= Concat(fs)
    ensures |Rest(p)| == Unfinished(fs, |p|)
  {
    hide AllFrames, Rest, ReadsInside, Messages, FrameMessages, Completed, Concat, ProperPrefix, MagicAt;
    PrefixTake(p, read, Concat(fs));
    DecodeCut(fs, p);
  }

  lemma NoData(s: Inbox)
    ensures OnRecv(s, []) == s
  {
  }

  /** A read after which the buffer is whole frames and a piece of one. */
  lemma DataRead(kept: seq<Byte>, delivered: seq<DecodedMessage>, read: seq<Byte>)
    requires read != [] && ReadsInside(kept + read) && |kept + read| <= BUFFER_SIZE
    requires |Rest(kept + read)| >= HEADER_SIZE ==> MagicAt(Rest(kept + read), 0)
    ensures var lost := |Rest(kept + read)| >= HEADER_SIZE || Messages(kept + read) == [];
            OnRecv(Inbox(kept, delivered, false), read)
            == Inbox(Rest(kept + read), delivered + if lost then [] else Messages(kept + read), false)
  {
    hide FrameReady, ReadsInside, Messages, Decode, MagicAt, NextMagic, Rest;
    var buffer := kept + read;
    DataTaken(kept, delivered, read);
    hide OnRecv;
    if |buffer| < HEADER_SIZE {
      ShortDecodesToNothing(buffer);
    }
  }

  lemma DataTaken(kept: seq<Byte>, delivered: seq<DecodedMessage>, read: seq<Byte>)
    requires read != [] && ReadsInside(kept + read) && |kept + read| <= BUFFER_SIZE
    requires |Rest(kept + read)| >= HEADER_SIZE ==> MagicAt(Rest(kept + read), 0)
    ensures OnRecv(Inbox(kept, delivered, false), read)
            == Inbox(Rest(kept + read), delivered + if |kept + read| >= HEADER_SIZE && |Rest(kept + read)| < HEADER_SIZE
                                                    then Messages(kept + read) else [], false)
  {
    hide FrameReady, ReadsInside, Messages, Decode, MagicAt, NextMagic, Rest;
    DecodeShape(kept + read);
    DropToRest(kept + read);
  }

  /** Lossiness in terms of what the decoder finds. */
  lemma LossyMeans(fs: seq<seq<Byte>>, p: seq<Byte>, read: seq<Byte>, m: seq<DecodedMessage>)
    requires AllFrames(fs) && p + read <= Concat(fs)
    requires ReadsInside(p) && ReadsInside(p + read) && Messages(p + read) == Messages(p) + m
    ensures LossyRead(fs, |p|, |p + read|) <==> m != [] && |Rest(p + read)| >= HEADER_SIZE
  {
    hide FrameReady, ReadsInside, Messages, Rest, IsFrame, Completed, Concat, FrameMessages, MagicAt, ProperPrefix;
    PrefixTake(p, read, Concat(fs));
    DecodeCut(fs, p);
    DecodeCut(fs, p + read);
    var k, n := Completed(fs, |p|), Completed(fs, |p + read|);
    FramesSplit(fs, k);
    FramesSplit(fs, n);
    hide AllFrames;
    assert |FrameMessages(fs[..k])| == k && |FrameMessages(fs[..n])| == n;
  }

  /** What an inbox holds after the first bytes `p` of a stream of frames. */
  ghost predicate Holds(fs: seq<seq<Byte>>, p: seq<Byte>, s: Inbox, all: bool)
    requires AllFrames(fs)
  {
    && ReadsInside(p) && s.kept == Rest(p) && |s.kept| == Unfinished(fs, |p|) <= BUFFER_SIZE && !s.overflowed
    && Messages(p) == FrameMessages(fs[..Completed(fs, |p|)])
    && Sublist(s.delivered, Messages(p))
    && (s.delivered == Messages(p) <==> all)
  }

  /** Delivery: on a stream of frames cut anywhere, the buffer overflows if and only if some read does not fit behind
      the unfinished frame before it. If all reads fit, the messages handed to the gateway are an in-order,
      duplicate-free selection of the completed frames' messages, and they are all of them exactly when no read is
      lossy. */
  lemma {:induction false} Delivery(fs: seq<seq<Byte>>, pieces: seq<seq<Byte>>)
    requires AllFrames(fs) && Concat(pieces) <= Concat(fs)
    ensures OnRecvAll(pieces).overflowed <==> !Fits(fs, pieces)
    ensures Fits(fs, pieces) ==> Holds(fs, Concat(pieces), OnRecvAll(pieces), Lossless(fs, pieces))
    decreases |pieces|
  {
    hide AllFrames, LossyRead, OnRecv, Concat, Unfinished, Holds;
    if pieces == [] {
      NothingReceived(fs);
      HoldsInside(fs, [], Inbox([], [], false), true);
    } else {
      var init, last := pieces[..|pieces| - 1], pieces[|pieces| - 1];
      assert pieces == init + [last];
      ConcatSnoc(init, last);
      PrefixTake(Concat(init), last, Concat(fs));
      Delivery(fs, init);
      DeliveryRead(fs, Concat(init), last, OnRecvAll(init), Lossless(fs, init));
    }
  }

  lemma HoldsInside(fs: seq<seq<Byte>>, p: seq<Byte>, s: Inbox, all: bool)
    requires AllFrames(fs) && Holds(fs, p, s, all)
    ensures !s.overflowed && |s.kept| == Unfinished(fs, |p|) <= BUFFER_SIZE
  {
    hide Unfinished;
  }

  lemma DeliveryRead(fs: seq<seq<Byte>>, p: seq<Byte>, read: seq<Byte>, s: Inbox, all: bool)
    requires AllFrames(fs) && p + read <= Concat(fs)
    ensures s.overflowed ==> OnRecv(s, read).overflowed
    ensures Holds(fs, p, s, all) ==>
              if Unfinished(fs, |p|) + |read| > BUFFER_SIZE then OnRecv(s, read).overflowed
              else
                && Holds(fs, p + read, OnRecv(s, read), all && !LossyRead(fs, |p|, |p + read|))
                && !OnRecv(s, read).overflowed
  {
    if Holds(fs, p, s, all) {
      HoldsInside(fs, p, s, all);
      if Unfinished(fs, |p|) + |read| <= BUFFER_SIZE {
        FittingRead(fs, p, read, s, all);
        HoldsInside(fs, p + read, OnRecv(s, read), all && !LossyRead(fs, |p|, |p + read|));
      }
    }
    hide Holds, LossyRead, Unfinished, ReadsInside, Decode;
  }

  lemma FittingRead(fs: seq<seq<Byte>>, p: seq<Byte>, read: seq<Byte>, s: Inbox, all: bool)
    requires AllFrames(fs) && p + read <= Concat(fs) && Holds(fs, p, s, all)
    requires Unfinished(fs, |p|) + |read| <= BUFFER_SIZE
    ensures Holds(fs, p + read, OnRecv(s, read), all && !LossyRead(fs, |p|, |p + read|))
  {
    hide FrameReady, ReadsInside, Messages, Rest, IsFrame, AllFrames, Completed, FrameMessages, LossyRead, OnRecv;
    hide Sublist, Concat, MagicAt, ProperPrefix, Unfinished;
    DecodeCut(fs, p + read);
    NothingMore(p + read);
    RestLength(fs, p + read, []);
    KeptBound(fs, p, read);
    var m := OnRecvCut(fs, p, read, s.delivered);
    DeliveryStep(s.delivered, Messages(p), m, LossyRead(fs, |p|, |p + read|), all);
  }

  /** A read never leaves more behind than it found. */
  lemma KeptBound(fs: seq<seq<Byte>>, p: seq<Byte>, read: seq<Byte>)
    requires AllFrames(fs) && p + read <= Concat(fs)
    ensures Unfinished(fs, |p + read|) <= Unfinished(fs, |p|) + |read|
  {
    hide FrameReady, ReadsInside, Messages, Rest, AllFrames, Concat, MagicAt, ProperPrefix, Receive, Unfinished;
    RestLength(fs, p, read);
    NothingMore(p + read);
    RestLength(fs, p + read, []);
    ReceiveCut(fs, p, read);
  }

  lemma NothingReceived(fs: seq<seq<Byte>>)
    requires AllFrames(fs)
    ensures Concat<Byte>([]) == [] && Holds(fs, [], Inbox([], [], false), true)
  {
    NothingWaits();
    NoFrameMessages();
    assert Completed(fs, 0) == 0 && fs[..0] == [];
  }

  /** One read that ends 26 bytes into a data frame: the heartbeat in front of it is decoded and dropped. */
  lemma HeartbeatDropped(msgId: nat, msg: EncodeMessage)
    requires msgId < 0x1_0000_0000_0000_0000 && Accepted(msg)
    ensures var fs := [HeartbeatFrame(msgId), DataFrame(msg, 0)];
            var read := HeartbeatFrame(msgId) + DataFrame(msg, 0)[..HEADER_SIZE];
            && AllFrames(fs) && read <= Concat(fs) && Completed(fs, |read|) == 1
            && OnRecvAll([read]) == Inbox(DataFrame(msg, 0)[..HEADER_SIZE], [], false)
  {
    HeartbeatRoundTrip(msgId);
    FrameCorrect(msg, 0);
    hide HeartbeatFrame, DataFrame, IsFrame, OnRecv, FrameMessage, Fragment, MessageAt;
    HeartbeatLost(HeartbeatFrame(msgId), DataFrame(msg, 0));
  }

  lemma HeartbeatLost(h: seq<Byte>, f: seq<Byte>)
    requires IsFrame(h) && IsFrame(f) && |f| > HEADER_SIZE && |h| + HEADER_SIZE <= BUFFER_SIZE
    ensures var read := h + f[..HEADER_SIZE];
            && AllFrames([h, f]) && read <= Concat([h, f]) && Completed([h, f], |read|) == 1
            && OnRecvAll([read]) == Inbox(f[..HEADER_SIZE], [], false)
  {
    FrameIsLong(h);
    TwoFrames(h, f);
    hide AllFrames, IsFrame, Completed, LossyRead, Concat, OnRecvAll;
    FirstReadLost([h, f], h + f[..HEADER_SIZE]);
    hide Rest;
    SamePiece(h, Rest(h + f[..HEADER_SIZE]), f[..HEADER_SIZE]);
  }

  /** A first read that is lossy delivers nothing. */
  lemma FirstReadLost(fs: seq<seq<Byte>>, read: seq<Byte>)
    requires AllFrames(fs) && read <= Concat(fs) && LossyRead(fs, 0, |read|) && |read| <= BUFFER_SIZE
    ensures OnRecvAll([read]) == Inbox(Rest(read), [], false)
    ensures read == Concat(fs[..Completed(fs, |read|)]) + Rest(read)
  {
    hide AllFrames, IsFrame, Completed, LossyRead, Concat, Rest, ReadsInside, Messages, FrameMessages, OnRecv;
    hide ProperPrefix, MagicAt;
    NothingMore(read);
    NothingWaits();
    NothingMore<DecodedMessage>([]);
    NoneUnfinished(fs);
    var m := OnRecvCut(fs, [], read, []);
    DecodeCut(fs, read);
    OneRead(read);
  }

  lemma NoneUnfinished(fs: seq<seq<Byte>>)
    requires AllFrames(fs)
    ensures Unfinished(fs, 0) == 0
  {
    assert fs[..0] == [];
  }

  lemma OneRead(read: seq<Byte>)
    ensures OnRecvAll([read]) == OnRecv(Inbox([], [], false), read)
  {
    assert [read][..0] == [];
    hide OnRecv;
  }

  lemma TwoFrames(h: seq<Byte>, f: seq<Byte>)
    requires IsFrame(h) && IsFrame(f) && |f| > HEADER_SIZE && |h| >= HEADER_SIZE
    ensures var read := h + f[..HEADER_SIZE];
            && AllFrames([h, f]) && read <= Concat([h, f])
            && Completed([h, f], |read|) == 1 && Concat([h, f][..1]) == h && LossyRead([h, f], 0, |read|)
  {
    hide IsFrame;
    var fs := [h, f];
    TwoParts(h, f);
    assert fs[1..] == [f] && fs[..1] == [h];
    PrefixInside(h, f, HEADER_SIZE, []);
    NothingMore(f);
    hide Concat;
  }

  lemma TwoParts(h: seq<Byte>, f: seq<Byte>)
    ensures Concat([h, f]) == h + f && Concat([h]) == h
  {
    ConcatSnoc([], h);
    ConcatSnoc([h], f);
    assert [] + [h] == [h] && [h] + [f] == [h, f];
    assert Concat<Byte>([]) == [] && [] + h == h;
  }

  lemma SamePiece(h: seq<Byte>, a: seq<Byte>, b: seq<Byte>)
    requires h + a == h + b
    ensures a == b
  {
    assert (h + a)[|h|..] == a && (h + b)[|h|..] == b;
  }

  lemma DeliveryStep<T>(before: seq<T>, all: seq<T>, m: seq<T>, lossy: bool, lossless: bool)
    requires Sublist(before, all) && (before == all <==> lossless)
    ensures var after := before + if lossy then [] else m;
            && Sublist(after, all + m)
            && (lossy && m != [] ==> after != all + m)
            && (!lossy ==> (after == all + m <==> lossless))
  {
    SublistMore(before, all, m);
    SublistShorter(before, all);
    assert before + [] == before;
    if !lossless {
      assert |before| < |all|;
    }
  }

  /** A class of reads that lose nothing: those that never end a header or more into an unfinished frame. */
  lemma {:induction false} ShallowReadsLossless(fs: seq<seq<Byte>>, pieces: seq<seq<Byte>>)
    requires forall k :: 0 <= k <= |pieces| ==> Unfinished(fs, |Concat(pieces[..k])|) < HEADER_SIZE
    ensures Lossless(fs, pieces)
    decreases |pieces|
  {
    hide Unfinished, Concat;
    if pieces != [] {
      var init := pieces[..|pieces| - 1];
      assert pieces[..|pieces|] == pieces;
      forall k | 0 <= k <= |init| ensures Unfinished(fs, |Concat(init[..k])|) < HEADER_SIZE {
        assert init[..k] == pieces[..k];
      }
      ShallowReadsLossless(fs, init);
    }
  }

  // ---------- Sending ----------

  /** The message as it goes to the encoder: a zero identifier is replaced by the next generated one. */
  function WithId(msg: EncodeMessage, generatedId: nat): EncodeMessage {
    if msg.msgId == 0 then msg.(msgId := generatedId) else msg
  }

  /** The bytes a send puts on the connection, if it puts any. */
  function Outgoing(msg: EncodeMessage, generatedId: nat): seq<Byte> {
    match Encode(WithId(msg, generatedId))
    case Encoded(bytes) => bytes
    case Rejected(_) => []
  }

  /** The decoded messages are those of `msg` under the identifier `id`: as many as there are pieces of 4096 bytes, all
      with that identifier and the message's types, and with its payload. */
  predicate SentUnder(msg: EncodeMessage, id: nat, pieces: seq<DecodedMessage>) {
    && 4096 * (|pieces| - 1) < |msg.payload| <= 4096 * |pieces|
    && Concat(Payloads(pieces)) == msg.payload
    && forall i :: 0 <= i < |pieces| ==>
         pieces[i].msgId == id && pieces[i].mainType == msg.mainType && pieces[i].subType == msg.subType
  }

  /** Under which identifier a message goes out: its own, so that a reply keeps that of its request, or the generated
      one if it has none; every piece of it that a peer decodes carries that identifier. What cannot be sent is what
      the encoder refuses. */
  lemma SendsUnder(msg: EncodeMessage, generatedId: nat)
    requires msg.msgId < 0x1_0000_0000_0000_0000 && generatedId < 0x1_0000_0000_0000_0000
    ensures var id := if msg.msgId != 0 then msg.msgId else generatedId;
            if 0 < |msg.payload| <= 10_485_760 && msg.protoType != 0 then
              && WithId(msg, generatedId).msgId == id
              && Outgoing(msg, generatedId) != [] && ReadsInside(Outgoing(msg, generatedId))
              && Rest(Outgoing(msg, generatedId)) == []
              && SentUnder(msg, id, Messages(Outgoing(msg, generatedId)))
            else Outgoing(msg, generatedId) == []
  {
    hide Encode, ReadsInside, Messages, Rest, SentUnder, Accepted, Fragments, TotalFrames;
    var m := WithId(msg, generatedId);
    EncodeRefuses(m);
    if 0 < |msg.payload| <= 10_485_760 && msg.protoType != 0 {
      EncodedPieces(m);
      SameMessage(msg, m, Messages(Encode(m).bytes));
    }
  }

  /** The identifier apart, the two messages are the same. */
  lemma SameMessage(msg: EncodeMessage, m: EncodeMessage, pieces: seq<DecodedMessage>)
    requires m == msg.(msgId := m.msgId)
    ensures SentUnder(m, m.msgId, pieces) == SentUnder(msg, m.msgId, pieces)
  {
  }

  lemma EncodedPieces(m: EncodeMessage)
    requires Accepted(m)
    ensures Encode(m).Encoded?
    ensures var bytes := Encode(m).bytes;
            && bytes != [] && ReadsInside(bytes) && Rest(bytes) == []
            && Messages(bytes) == Fragments(m, TotalFrames(|m.payload|)) && SentUnder(m, m.msgId, Messages(bytes))
  {
    var total := TotalFrames(|m.payload|);
    var frames := DataFrames(m, total);
    EncodesFrames(m);
    EncodedLength(m, total);
    FramesCorrect(m, total);
    FragmentsUnder(m);
    hide DataFrames, Concat, FrameMessages, IsFrame, ReadsInside, Fragments, Encode, Messages, Rest, TotalFrames, SentUnder;
    NothingWaits();
    FramesFirst(frames, []);
    NothingMore(Concat(frames));
    NothingMore(FrameMessages(frames));
  }

  lemma FragmentsUnder(m: EncodeMessage)
    requires Accepted(m)
    ensures SentUnder(m, m.msgId, Fragments(m, TotalFrames(|m.payload|)))
  {
    EncodesFrames(m);
    FragmentsArePieces(m);
    hide Concat, Payloads, Encode, TotalFrames, Fragments;
  }

  class ClientSession {
    const sessionId: nat
    var readBuffer: array<Byte>
    var bufferUsed: nat
    var connection: TcpConnection?
    var delivered: seq<DecodedMessage>

    ghost predicate Valid()
      reads this, readBuffer
    {
      readBuffer.Length == BUFFER_SIZE && bufferUsed <= BUFFER_SIZE
    }

    ghost function State(): Inbox
      reads this, readBuffer
      requires Valid()
    {
      Inbox(readBuffer[..bufferUsed], delivered, false)
    }

    constructor (sessionId: nat)
      ensures Valid() && State() == Inbox([], [], false) && this.sessionId == sessionId && connection == null
      ensures fresh(readBuffer)
    {
      this.sessionId := sessionId;
      readBuffer := new Byte[BUFFER_SIZE];
      bufferUsed := 0;
      connection := null;
      delivered := [];
    }

    /** Copies `data` behind the used part of the buffer. */
    method Append(data: seq<Byte>)
      requires Valid() && bufferUsed + |data| <= BUFFER_SIZE
      modifies this`bufferUsed, readBuffer
      ensures Valid() && readBuffer[..bufferUsed] == old(readBuffer[..bufferUsed]) + data
    {
      var start := bufferUsed;
      for i := 0 to |data|
        invariant readBuffer[..start + i] == old(readBuffer[..bufferUsed]) + data[..i]
      {
        readBuffer[start + i] := data[i];
      }
      bufferUsed := start + |data|;
    }

    /** Moves the bytes behind `cost` to the front of the buffer. */
    method Drop(cost: nat)
      requires Valid() && cost <= bufferUsed
      modifies this`bufferUsed, readBuffer
      ensures Valid() && readBuffer[..bufferUsed] == old(readBuffer[cost..bufferUsed])
    {
      var left := bufferUsed - cost;
      for i := 0 to left
        invariant readBuffer[..i] == old(readBuffer[cost..cost + i])
        invariant readBuffer[i..] == old(readBuffer[i..])
      {
        readBuffer[i] := readBuffer[cost + i];
      }
      bufferUsed := left;
    }

    method OnSocketRecv(data: seq<Byte>)
      requires Valid() && bufferUsed + |data| <= BUFFER_SIZE
      requires ReadsInside(readBuffer[..bufferUsed] + data)
      modifies this`bufferUsed, this`delivered, readBuffer
      ensures Valid() && State() == OnRecv(old(State()), data)
    {
      if data == [] {
        return;
      }
      Append(data);
      var decodeResult := DecodeSync(readBuffer[..bufferUsed]);
      CostBound(readBuffer[..bufferUsed]);
      if decodeResult.costOffset > 0 {
        Drop(decodeResult.costOffset);
      }
      if !decodeResult.success {
        return;
      }
      delivered := delivered + decodeResult.messages;
    }

    /** `stamped` is the caller's message afterwards: it keeps the generated identifier even if it is refused. */
    method SendMessage(msg: EncodeMessage, generatedId: nat) returns (sent: bool, stamped: EncodeMessage)
      requires connection != null ==> connection.Valid()
      modifies connection
      ensures stamped == WithId(msg, generatedId)
      ensures sent == (connection != null && Outgoing(msg, generatedId) != [])
      ensures connection != null ==>
                && connection.Valid()
                && connection.State()
                   == if sent then Step(old(connection.State()), SendTask(Outgoing(msg, generatedId)))
                      else old(connection.State())
    {
      stamped := WithId(msg, generatedId);
      var result := EncodeSync(stamped);
      if result.Rejected? || connection == null || result.bytes == [] {
        return false, stamped;
      }
      connection.Send(result.bytes);
      return true, stamped;
    }

    method Close()
      requires connection != null ==> connection.Valid()
      modifies connection
      ensures connection != null ==> connection.Valid() && connection.State() == DoClose(old(connection.State()))
    {
      if connection != null {
        connection.Close();
      }
    }
  }
}
