/** What decoding does on streams of well-formed frames: one-shot decoding, arbitrary cuts into reads,
    garbage in front, and progress on any input. */
module Stream {
  import opened Bytes
  import opened Codec

  // ---------- Shape of a decoding result ----------

  lemma ShortDecodesToNothing(s: seq<Byte>)
    requires |s| < HEADER_SIZE
    ensures ReadsInside(s) && Messages(s) == [] && Rest(s) == s
  {
  }

  lemma {:induction false} ScanShape(here: seq<Byte>, used: nat, messages: seq<DecodedMessage>)
    requires ReadsInside(here)
    ensures Scan(here, used, messages) == Stop(Rest(here), used + (|here| - |Rest(here)|), messages + Messages(here))
    decreases |here|
  {
    hide MagicAt, FrameLen, MessageAt, Stop, Scan, Messages, Rest, ReadsInside;
    ScanOne(here, used, messages);
    if FrameReady(here) {
      var next := here[FrameLen(here)..];
      ScanShape(next, used + FrameLen(here), messages + [MessageAt(here)]);
      Regroup(messages, [MessageAt(here)], Messages(next));
    } else {
      NothingMore(messages);
    }
  }

  /** A decoding returns the messages of the frames it passes and says where it stopped: after the last
      frame, or, when no frame can start there, at the next magic. */
  lemma DecodeShape(s: seq<Byte>)
    requires ReadsInside(s)
    ensures var d := Decode(s); var rest := Rest(s);
            && d.messages == Messages(s)
            && (d.success <==> |s| >= HEADER_SIZE && |rest| < HEADER_SIZE)
            && (d.success <==> d.error == NoError) && (d.error == InputTooShort <==> |s| < HEADER_SIZE)
            && (d.error == InvalidMagic <==> |rest| >= HEADER_SIZE && !MagicAt(rest, 0))
            && (d.error == TooShortForPayload <==> |rest| >= HEADER_SIZE && MagicAt(rest, 0))
            && d.costOffset == |s| - |rest| + if d.error == InvalidMagic then NextMagic(rest, 1) else 0
  {
    hide MagicAt, PayloadLen, Messages, Scan, ReadsInside, NextMagic;
    if |s| < HEADER_SIZE {
      ShortDecodesToNothing(s);
    } else {
      ScanShape(s, 0, []);
      NothingMore(Messages(s));
    }
  }

  // ---------- Well-formed frames ----------

  /** A complete frame: a heartbeat, or a data frame with its two type bytes. */
  predicate IsFrame(f: seq<Byte>) {
    && |f| >= HEADER_SIZE && MagicAt(f, 0) && |f| == FrameLen(f)
    && (IsHeartbeat(f) || PayloadLen(f) >= PREFIX_SIZE)
  }

  ghost predicate AllFrames(fs: seq<seq<Byte>>) {
    forall i :: 0 <= i < |fs| ==> IsFrame(fs[i])
  }

  function FrameMessage(f: seq<Byte>): DecodedMessage
    requires IsFrame(f)
  {
    MessageAt(f)
  }

  function FrameMessages(fs: seq<seq<Byte>>): (r: seq<DecodedMessage>)
    requires AllFrames(fs)
    ensures |r| == |fs|
  {
    if fs == [] then [] else [FrameMessage(fs[0])] + FrameMessages(fs[1..])
  }

  lemma {:induction false} FrameMessagesAppend(a: seq<seq<Byte>>, b: seq<seq<Byte>>)
    requires AllFrames(a) && AllFrames(b)
    ensures AllFrames(a + b) && FrameMessages(a + b) == FrameMessages(a) + FrameMessages(b)
  {
    hide IsFrame, FrameMessage;
    if a == [] {
      assert a + b == b;
    } else {
      assert (a + b)[1..] == a[1..] + b;
      FrameMessagesAppend(a[1..], b);
    }
  }

  lemma FrameMessagesSnoc(fs: seq<seq<Byte>>, f: seq<Byte>)
    requires AllFrames(fs) && IsFrame(f)
    ensures AllFrames(fs + [f]) && FrameMessages(fs + [f]) == FrameMessages(fs) + [FrameMessage(f)]
  {
    hide FrameMessage;
    FrameMessagesAppend(fs, [f]);
  }

  lemma NoFrameMessages()
    ensures AllFrames([]) && FrameMessages([]) == []
  {
  }

  /** A piece of a frame that is not all of it. */
  ghost predicate ProperPrefix(t: seq<Byte>, f: seq<Byte>) {
    |t| < |f| && t == f[..|t|]
  }

  lemma FrameFields(f: seq<Byte>, t: seq<Byte>)
    requires IsFrame(f)
    ensures FrameReady(f + t) && FrameLen(f + t) == |f|
    ensures IsHeartbeat(f + t) == IsHeartbeat(f) && MsgIdOf(f + t) == MsgIdOf(f)
  {
    assert (f + t)[10..14] == f[10..14] && (f + t)[14..18] == f[14..18];
  }

  /** A frame followed by anything gives the frame's message, then what follows decodes. */
  lemma FrameFirst(f: seq<Byte>, t: seq<Byte>)
    requires IsFrame(f) && ReadsInside(t)
    ensures ReadsInside(f + t)
    ensures Messages(f + t) == [FrameMessage(f)] + Messages(t)
    ensures Rest(f + t) == Rest(t)
  {
    var s := f + t;
    FrameFields(f, t);
    assert s[|f|..] == t;
    if !IsHeartbeat(f) {
      assert s[HEADER_SIZE + PREFIX_SIZE..|f|] == f[HEADER_SIZE + PREFIX_SIZE..|f|];
    }
    assert MessageAt(s) == FrameMessage(f);
  }

  /** Decoding frames followed by anything gives the frames' messages, then decodes what follows. */
  lemma {:induction false} FramesFirst(fs: seq<seq<Byte>>, t: seq<Byte>)
    requires AllFrames(fs) && ReadsInside(t)
    ensures ReadsInside(Concat(fs) + t)
    ensures Messages(Concat(fs) + t) == FrameMessages(fs) + Messages(t)
    ensures Rest(Concat(fs) + t) == Rest(t)
    decreases |fs|
  {
    if fs == [] {
      assert Concat(fs) + t == t;
    } else {
      var more := Concat(fs[1..]) + t;
      FramesFirst(fs[1..], t);
      FrameFirst(fs[0], more);
      Regroup(fs[0], Concat(fs[1..]), t);
      Regroup([FrameMessage(fs[0])], FrameMessages(fs[1..]), Messages(t));
    }
  }

  /** A piece of a frame decodes to nothing and is kept whole. */
  lemma PieceWaits(t: seq<Byte>, f: seq<Byte>)
    requires IsFrame(f) && ProperPrefix(t, f)
    ensures ReadsInside(t) && Messages(t) == [] && Rest(t) == t
    ensures |t| >= HEADER_SIZE ==> MagicAt(t, 0)
  {
    assert forall i :: 0 <= i < |t| ==> t[i] == f[i];
    assert !FrameReady(t);
  }

  lemma NothingWaits()
    ensures ReadsInside([]) && Messages([]) == [] && Rest([]) == []
  {
  }

  lemma DropToRest(s: seq<Byte>)
    ensures s[|s| - |Rest(s)|..] == Rest(s)
  {
  }

  lemma RestDecodesToNothing(s: seq<Byte>)
    ensures ReadsInside(Rest(s)) && Messages(Rest(s)) == []
  {
  }

  // ---------- Cutting a stream anywhere ----------

  /** How many whole frames the first `n` bytes of the stream hold. */
  function Completed(fs: seq<seq<Byte>>, n: nat): (k: nat)
    ensures k <= |fs|
  {
    if fs == [] || n < |fs[0]| then 0 else 1 + Completed(fs[1..], n - |fs[0]|)
  }

  /** Any beginning of a stream of frames is some whole frames and a piece of the next. */
  lemma {:induction false} CutAnywhere(fs: seq<seq<Byte>>, p: seq<Byte>)
    requires AllFrames(fs) && p <= Concat(fs)
    ensures var k := Completed(fs, |p|);
            var whole := Concat(fs[..k]);
            && |whole| <= |p| && p == whole + p[|whole|..]
            && (if k < |fs| then ProperPrefix(p[|whole|..], fs[k]) else p[|whole|..] == [])
    decreases |fs|
  {
    hide IsFrame, ProperPrefix;
    NothingWhole(fs);
    if fs == [] {
      NothingMore(p);
      assert p == [];
    } else {
      ConcatFirst(fs, 0);
      hide Concat;
      if |p| < |fs[0]| {
        ShortPrefix(p, fs[0], Concat(fs[1..]));
      } else {
        PrefixBehind(p, fs[0], Concat(fs[1..]));
        var q := p[|fs[0]|..];
        CutAnywhere(fs[1..], q);
        var k := Completed(fs[1..], |q|);
        ConcatFirst(fs, k);
        DropTwice(p, fs[0], Concat(fs[1..][..k]));
      }
    }
  }

  lemma NothingWhole(fs: seq<seq<Byte>>)
    ensures Concat(fs[..0]) == []
  {
  }

  lemma ShortPrefix(p: seq<Byte>, f: seq<Byte>, rest: seq<Byte>)
    requires |p| < |f| && p <= f + rest
    ensures ProperPrefix(p, f) && p[0..] == p && [] + p == p
  {
    assert f[..|p|] == (f + rest)[..|p|];
  }

  /** Decoding any beginning of a stream in one go. */
  lemma DecodeCut(fs: seq<seq<Byte>>, p: seq<Byte>)
    requires AllFrames(fs) && p <= Concat(fs)
    ensures ReadsInside(p)
    ensures var k := Completed(fs, |p|);
            && Messages(p) == FrameMessages(fs[..k])
            && p == Concat(fs[..k]) + Rest(p)
            && (if k < |fs| then ProperPrefix(Rest(p), fs[k]) else Rest(p) == [])
            && (|Rest(p)| >= HEADER_SIZE ==> MagicAt(Rest(p), 0))
  {
    hide FrameReady, MagicAt, PayloadLen, IsFrame, Messages, Rest;
    CutAnywhere(fs, p);
    var k := Completed(fs, |p|);
    var t := p[|Concat(fs[..k])|..];
    if k < |fs| {
      PieceWaits(t, fs[k]);
    } else {
      NothingWaits();
    }
    FramesFirst(fs[..k], t);
  }

  // ---------- Progress on any input ----------

  /** The offset never passes the end of the input. */
  lemma CostBound(s: seq<Byte>)
    requires ReadsInside(s)
    ensures Decode(s).costOffset <= |s|
  {
    hide FrameReady, MagicAt, PayloadLen, MessageAt, Messages, Decode;
    DecodeShape(s);
  }

  /** The search gives the first magic at or after `start`, or the end of the input when there is none. */
  lemma {:induction false} NextMagicFirst(s: seq<Byte>, start: nat, i: nat)
    requires start <= i <= |s|
    ensures NextMagic(s, start) == i <==>
              (i < |s| ==> MagicAt(s, i)) && forall j :: start <= j < i ==> !MagicAt(s, j)
    decreases |s| - start
  {
    if |s| < start + 4 {
    } else if MagicAt(s, start) {
    } else if start < i {
      NextMagicFirst(s, start + 1, i);
    } else {
      assert NextMagic(s, start) == NextMagic(s, start + 1) >= start + 1;
    }
  }

  /** A call that consumes nothing has too little input for a header or for one frame; a call that rejects a
      header skips no complete magic behind it. */
  lemma Progress(s: seq<Byte>)
    requires ReadsInside(s)
    ensures var d := Decode(s); var at := |s| - |Rest(s)|;
            && at <= d.costOffset <= |s|
            && (d.costOffset == 0 ==> |s| < HEADER_SIZE || (MagicAt(s, 0) && |s| < FrameLen(s)))
            && (d.error == InvalidMagic ==>
                  && at < d.costOffset
                  && (d.costOffset < |s| ==> MagicAt(s, d.costOffset))
                  && forall j :: at < j < d.costOffset ==> !MagicAt(s, j))
  {
    hide MagicAt, PayloadLen, MessageAt, Messages, Decode, Rest, ReadsInside;
    DecodeShape(s);
    if Decode(s).error == InvalidMagic {
      RejectSkips(s, |s| - |Rest(s)|, Decode(s).costOffset);
    } else if Decode(s).costOffset == 0 {
      assert Rest(s) == s;
    }
  }

  lemma RejectSkips(s: seq<Byte>, at: nat, next: nat)
    requires at < |s| && next == at + NextMagic(s[at..], 1)
    ensures at < next <= |s| && (next < |s| ==> MagicAt(s, next))
    ensures forall j :: at < j < next ==> !MagicAt(s, j)
  {
    hide MagicAt;
    NextMagicShift(s, at, 1);
    NextMagicFirst(s, at + 1, next);
  }

  /** Along the scan, also behind headers it rejects, every data frame has its two type bytes. */
  predicate Typed(s: seq<Byte>)
    decreases |s|
  {
    if FrameReady(s) then (IsHeartbeat(s) || PayloadLen(s) >= PREFIX_SIZE) && Typed(s[FrameLen(s)..])
    else |s| >= HEADER_SIZE && !MagicAt(s, 0) ==> Typed(s[NextMagic(s, 1)..])
  }

  /** Such an input is not read past its end, and what the scan leaves is such an input again. */
  lemma {:induction false} TypedReads(s: seq<Byte>)
    requires Typed(s)
    ensures ReadsInside(s) && Typed(Rest(s))
    decreases |s|
  {
    hide MagicAt, PayloadLen;
    if FrameReady(s) {
      TypedReads(s[FrameLen(s)..]);
    }
  }

  /** Whatever starts with well-formed frames, and with a piece of one, is such an input. */
  lemma {:induction false} TypedFrames(fs: seq<seq<Byte>>, t: seq<Byte>)
    requires AllFrames(fs) && Typed(t)
    ensures Typed(Concat(fs) + t)
    decreases |fs|
  {
    if fs == [] {
      NothingMore(t);
    } else {
      var more := Concat(fs[1..]) + t;
      TypedFrames(fs[1..], t);
      FrameFields(fs[0], more);
      Regroup(fs[0], Concat(fs[1..]), t);
      FrameBehind(fs[0], more);
      hide MagicAt, NextMagic;
    }
  }

  lemma FrameBehind(f: seq<Byte>, t: seq<Byte>)
    requires IsFrame(f)
    ensures (f + t)[|f|..] == t && PayloadLen(f + t) == PayloadLen(f)
  {
  }

  lemma PieceTyped(t: seq<Byte>, f: seq<Byte>)
    requires IsFrame(f) && ProperPrefix(t, f)
    ensures Typed(t)
  {
    PieceWaits(t, f);
    hide MagicAt, PayloadLen;
  }

  /** Every beginning of a stream of well-formed frames, whatever their payloads hold. */
  lemma TypedStream(fs: seq<seq<Byte>>, p: seq<Byte>)
    requires AllFrames(fs) && p <= Concat(fs)
    ensures Typed(p)
  {
    hide IsFrame, Typed, Concat, ProperPrefix;
    CutAnywhere(fs, p);
    var k := Completed(fs, |p|);
    var t := p[|Concat(fs[..k])|..];
    if k < |fs| {
      PieceTyped(t, fs[k]);
    } else {
      NothingTyped();
    }
    FramesSplit(fs, k);
    TypedFrames(fs[..k], t);
  }

  lemma NothingTyped()
    ensures Typed([])
  {
  }

  /** The scan comes to `at`: every frame before it is whole. */
  predicate ScanReaches(s: seq<Byte>, at: nat)
    decreases |s|
  {
    at == 0 || (FrameReady(s) && FrameLen(s) <= at && ScanReaches(s[FrameLen(s)..], at - FrameLen(s)))
  }

  /** At `at` a whole data frame stands, with a payload length below 2 and too little behind it for two bytes. */
  predicate BareAt(s: seq<Byte>, at: nat) {
    && at + HEADER_SIZE <= |s| < at + HEADER_SIZE + PREFIX_SIZE
    && MagicAt(s[at..], 0) && !IsHeartbeat(s[at..]) && at + FrameLen(s[at..]) <= |s|
  }

  /** The decoder reads past the input exactly when its scan comes to such a frame. */
  lemma ReadsOutsideIff(s: seq<Byte>)
    ensures !ReadsInside(s) <==> exists at :: ScanReaches(s, at) && BareAt(s, at)
  {
    hide ReadsInside, ScanReaches, BareAt;
    if !ReadsInside(s) {
      var at := BareFrame(s);
    } else {
      forall at | ScanReaches(s, at) && BareAt(s, at) ensures false {
        BareReadsOutside(s, at);
      }
    }
  }

  lemma {:induction false} BareFrame(s: seq<Byte>) returns (at: nat)
    requires !ReadsInside(s)
    ensures ScanReaches(s, at) && BareAt(s, at)
    decreases |s|
  {
    hide MagicAt, PayloadLen;
    if !IsHeartbeat(s) && |s| < HEADER_SIZE + PREFIX_SIZE {
      at := 0;
      assert s[0..] == s;
    } else {
      var next := s[FrameLen(s)..];
      var k := BareFrame(next);
      at := FrameLen(s) + k;
      assert next[k..] == s[at..];
    }
  }

  lemma {:induction false} BareReadsOutside(s: seq<Byte>, at: nat)
    requires ScanReaches(s, at) && BareAt(s, at)
    ensures !ReadsInside(s)
    decreases |s|
  {
    hide MagicAt, PayloadLen;
    if at == 0 {
      assert s[0..] == s;
    } else {
      var next := s[FrameLen(s)..];
      assert next[at - FrameLen(s)..] == s[at..];
      BareReadsOutside(next, at - FrameLen(s));
    }
  }

  /** A data header with payload length 0 and nothing behind it. */
  lemma BareHeader()
    ensures !ReadsInside(PackHeader(Header(DATA, 0, 0, 1, 0, 1, 0)))
  {
    var h := Header(DATA, 0, 0, 1, 0, 1, 0);
    var s := PackHeader(h);
    HeaderRoundTrip(h, []);
    NothingMore(s);
    hide PackHeader, MagicAt;
    assert PayloadLen(s) == 0 && s[5] == DATA;
  }

  ghost predicate Waiting(s: seq<Byte>) {
    |s| < HEADER_SIZE || (MagicAt(s, 0) && |s| < FrameLen(s))
  }

  lemma SettleStep(s: seq<Byte>)
    requires Typed(s)
    ensures ReadsInside(s)
    ensures var cost := Decode(s).costOffset;
            cost <= |s| && Typed(s[cost..]) && (cost == 0 ==> Waiting(s))
  {
    hide FrameReady, MagicAt, Decode, Messages, Rest, Waiting, ReadsInside, NextMagic, Typed;
    TypedReads(s);
    NoneTaken(s);
    BehindCost(s);
    if Decode(s).error == InvalidMagic {
      TypedRejected(Rest(s));
    }
  }

  /** What a call leaves: what its scan stopped in front of, from the next magic on if that was no frame. */
  lemma BehindCost(s: seq<Byte>)
    requires ReadsInside(s)
    ensures var d := Decode(s); var rest := Rest(s);
            && (d.error == InvalidMagic ==> |rest| >= HEADER_SIZE && !MagicAt(rest, 0))
            && d.costOffset <= |s|
            && s[d.costOffset..] == if d.error == InvalidMagic then rest[NextMagic(rest, 1)..] else rest
  {
    hide FrameReady, MagicAt, Decode, Messages, Rest, ReadsInside, NextMagic;
    DecodeShape(s);
    DropToRest(s);
    if Decode(s).error == InvalidMagic {
      DropMore(s, Rest(s), NextMagic(Rest(s), 1));
    }
  }

  lemma TypedRejected(s: seq<Byte>)
    requires Typed(s) && |s| >= HEADER_SIZE && !MagicAt(s, 0)
    ensures Typed(s[NextMagic(s, 1)..])
  {
    hide PayloadLen, NextMagic;
  }

  lemma NoneTaken(s: seq<Byte>)
    requires ReadsInside(s)
    ensures Decode(s).costOffset <= |s| && (Decode(s).costOffset == 0 ==> Waiting(s))
  {
    hide MagicAt, PayloadLen, Decode, Rest, ReadsInside;
    Progress(s);
  }

  lemma DropMore(s: seq<Byte>, rest: seq<Byte>, k: nat)
    requires |rest| <= |s| && rest == s[|s| - |rest|..] && k <= |rest|
    ensures s[|s| - |rest| + k..] == rest[k..]
  {
  }

  /** `n` calls that each consume something lead from buffer `s` to `r`, on which a call consumes nothing. */
  ghost predicate SettlesIn(s: seq<Byte>, r: seq<Byte>, n: nat)
    decreases n
  {
    && ReadsInside(s)
    && var cost := Decode(s).costOffset;
       if n == 0 then cost == 0 && r == s else 0 < cost <= |s| && SettlesIn(s[cost..], r, n - 1)
  }

  /** Decoding and dropping a fixed buffer over and over ends, after at most one call per byte, in front of
      less than a header or of one incomplete frame. */
  lemma {:induction false} Settle(s: seq<Byte>) returns (r: seq<Byte>, n: nat)
    requires Typed(s)
    ensures SettlesIn(s, r, n) && Waiting(r) && n + |r| <= |s|
    decreases |s|
  {
    hide FrameReady, MagicAt, PayloadLen, Decode, Typed, Waiting;
    SettleStep(s);
    var cost := Decode(s).costOffset;
    if cost == 0 {
      r, n := s, 0;
    } else {
      r, n := Settle(s[cost..]);
      n := n + 1;
    }
  }

  // ---------- Whole frames ----------

  /** Decoding whole frames in one call returns them all and consumes every byte. */
  lemma DecodeWhole(fs: seq<seq<Byte>>)
    requires AllFrames(fs)
    ensures ReadsInside(Concat(fs))
    ensures Decode(Concat(fs)).messages == FrameMessages(fs) && Decode(Concat(fs)).costOffset == |Concat(fs)|
    ensures fs != [] ==> Decode(Concat(fs)).success
  {
    hide MagicAt, PayloadLen, MessageAt, Messages, Decode, ReadsInside, IsFrame, FrameMessages;
    if fs != [] {
      ConcatFirst(fs, 0);
      FrameIsLong(fs[0]);
    }
    hide Concat;
    NothingWaits();
    FramesFirst(fs, []);
    NothingMore(Concat(fs));
    NothingMore(FrameMessages(fs));
    DecodeShape(Concat(fs));
  }

  lemma FrameIsLong(f: seq<Byte>)
    requires IsFrame(f)
    ensures |f| >= HEADER_SIZE
  {
  }

  // ---------- Receiving a stream piece by piece ----------

  /** A reader that keeps what `DecodeSync` did not consume and collects the messages it returned. */
  datatype Receiver = Receiver(kept: seq<Byte>, decoded: seq<DecodedMessage>)

  /** One read: decode the kept bytes and the new ones, drop `costOffset` bytes. Where the decoder would
      read outside the buffer nothing is modelled, and the reader stays as it is. */
  function Receive(r: Receiver, read: seq<Byte>): Receiver {
    var buffer := r.kept + read;
    if !ReadsInside(buffer) then r
    else
      CostBound(buffer);
      Receiver(buffer[Decode(buffer).costOffset..], r.decoded + Decode(buffer).messages)
  }

  function ReceiveAll(pieces: seq<seq<Byte>>): Receiver {
    if pieces == [] then Receiver([], []) else Receive(ReceiveAll(pieces[..|pieces| - 1]), pieces[|pieces| - 1])
  }

  /** One more read of a stream: the receiver's state depends only on how much of the stream has come in. */
  lemma ReceiveCut(fs: seq<seq<Byte>>, p: seq<Byte>, read: seq<Byte>)
    requires AllFrames(fs) && p + read <= Concat(fs)
    ensures ReadsInside(p) && ReadsInside(p + read) && ReadsInside(Rest(p) + read)
    ensures Messages(p + read) == Messages(p) + Messages(Rest(p) + read)
    ensures Rest(p + read) == Rest(Rest(p) + read)
    ensures Receive(Receiver(Rest(p), Messages(p)), read) == Receiver(Rest(p + read), Messages(p + read))
  {
    hide FrameReady, ReadsInside, Messages, Rest, Decode, IsFrame, Completed, Concat, FrameMessages, Receive, MagicAt,
      ProperPrefix;
    PrefixTake(p, read, Concat(fs));
    DecodeCut(fs, p);
    DecodeCut(fs, p + read);
    var k := Completed(fs, |p|);
    var whole, kept := Concat(fs[..k]), Rest(p);
    SplitAt(fs, k);
    ConcatAppend(fs[..k], fs[k..]);
    PrefixRest(p, whole, kept, read, Concat(fs), Concat(fs[k..]));
    FramesSplit(fs, k);
    hide AllFrames;
    DecodeCut(fs[k..], kept + read);
    FramesFirst(fs[..k], kept + read);
    ReceiveStep(kept, Messages(p), read);
  }

  lemma FramesSplit(fs: seq<seq<Byte>>, k: nat)
    requires AllFrames(fs) && k <= |fs|
    ensures AllFrames(fs[..k]) && AllFrames(fs[k..])
  {
  }

  /** A read after which the buffer is only whole frames and a piece of one. */
  lemma ReceiveStep(kept: seq<Byte>, decoded: seq<DecodedMessage>, read: seq<Byte>)
    requires ReadsInside(kept + read) && (|Rest(kept + read)| >= HEADER_SIZE ==> MagicAt(Rest(kept + read), 0))
    ensures Receive(Receiver(kept, decoded), read)
            == Receiver(Rest(kept + read), decoded + Messages(kept + read))
  {
    hide FrameReady, ReadsInside, Messages, Decode, MagicAt, Rest, NextMagic;
    DecodeShape(kept + read);
    DropToRest(kept + read);
  }

  /** Chunk independence: however a stream of frames (or a beginning of one) is cut into reads, the messages
      and the kept bytes are those of one decoding of everything received: the messages of the completed
      frames, and a piece of the next frame. */
  lemma {:induction false} ChunkIndependence(fs: seq<seq<Byte>>, pieces: seq<seq<Byte>>)
    requires AllFrames(fs) && Concat(pieces) <= Concat(fs)
    ensures var p := Concat(pieces); var r := ReceiveAll(pieces); var k := Completed(fs, |p|);
            && ReadsInside(p) && r.decoded == Decode(p).messages == FrameMessages(fs[..k])
            && p == Concat(fs[..k]) + r.kept
            && (if k < |fs| then ProperPrefix(r.kept, fs[k]) else r.kept == [])
    decreases |pieces|
  {
    hide FrameReady, ReadsInside, Messages, Rest, Decode, IsFrame, Completed, Concat, FrameMessages, ReceiveAll;
    var p := Concat(pieces);
    DecodeCut(fs, p);
    DecodeShape(p);
    ReceiveState(fs, pieces);
  }

  lemma {:induction false} ReceiveState(fs: seq<seq<Byte>>, pieces: seq<seq<Byte>>)
    requires AllFrames(fs) && Concat(pieces) <= Concat(fs)
    ensures var p := Concat(pieces);
            ReadsInside(p) && ReceiveAll(pieces) == Receiver(Rest(p), Messages(p))
    decreases |pieces|
  {
    hide MagicAt, PayloadLen, MessageAt;
    if pieces == [] {
      NothingWaits();
    } else {
      var init, last := pieces[..|pieces| - 1], pieces[|pieces| - 1];
      assert pieces == init + [last];
      ConcatSnoc(init, last);
      ReceiveState(fs, init);
      ReceiveCut(fs, Concat(init), last);
    }
  }
}
