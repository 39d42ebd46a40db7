/** Streams of frames behind garbage: which reads find the first frame. */
module Garbage {
  import opened Bytes
  import opened Codec
  import opened Stream

  ghost predicate MagicFree(garbage: seq<Byte>) {
    forall j :: 0 <= j < |garbage| ==> !MagicAt(garbage, j)
  }

  /** No magic stands across the boundary: its first byte occurs nowhere else in it. */
  lemma NoStraddle(garbage: seq<Byte>, fs: seq<seq<Byte>>, i: nat)
    requires AllFrames(fs) && i < |garbage|
    requires MagicFree(garbage)
    ensures !MagicAt(garbage + Concat(fs), i)
  {
    var s := garbage + Concat(fs);
    if fs == [] {
      assert s == garbage;
    } else if i + 4 > |garbage| {
      assert s[|garbage|] == fs[0][0];
    }
  }

  /** Resynchronisation: garbage without a magic in front of whole frames is dropped by the first call, all of
      it and nothing more, and the second call returns every frame. */
  lemma Resync(garbage: seq<Byte>, fs: seq<seq<Byte>>)
    requires AllFrames(fs) && garbage != []
    requires MagicFree(garbage)
    requires |garbage| + |Concat(fs)| >= HEADER_SIZE
    ensures var s := garbage + Concat(fs);
            && ReadsInside(s) && Decode(s) == DecodeResult(false, InvalidMagic, [], |garbage|)
            && s[|garbage|..] == Concat(fs)
    ensures ReadsInside(Concat(fs))
    ensures Decode(Concat(fs)).messages == FrameMessages(fs) && Decode(Concat(fs)).costOffset == |Concat(fs)|
  {
    var s := garbage + Concat(fs);
    forall i | 0 <= i < |garbage| ensures !MagicAt(s, i) {
      NoStraddle(garbage, fs, i);
    }
    FrameStarts(fs, garbage);
    NextMagicFirst(s, 1, |garbage|);
    DecodeWhole(fs);
    hide MagicAt, PayloadLen, MessageAt;
  }

  /** When the garbage and the first `n` bytes of the stream come in one read, what is left lines up with the
      first frame unless the read ends inside that frame's magic: then the search drops the piece of the magic
      with the garbage, and the frame is lost. */
  lemma ResyncCut(garbage: seq<Byte>, fs: seq<seq<Byte>>, n: nat)
    requires AllFrames(fs) && garbage != []
    requires MagicFree(garbage)
    requires n <= |Concat(fs)| && |garbage| + n >= HEADER_SIZE
    ensures var s := garbage + Concat(fs)[..n];
            && ReadsInside(s)
            && Decode(s).messages == []
            && (Decode(s).costOffset == |garbage| <==> n == 0 || n >= 4)
            && (0 < n < 4 ==> Decode(s).costOffset == |s|)
  {
    var whole := garbage + Concat(fs);
    var s := garbage + Concat(fs)[..n];
    forall i | 0 <= i < |garbage| ensures !MagicAt(s, i) {
      NoStraddle(garbage, fs, i);
      assert MagicAt(s, i) ==> MagicAt(whole, i);
    }
    FrameStarts(fs, garbage);
    if n >= 4 {
      assert s[|garbage|..] == Concat(fs)[..n];
      assert MagicAt(s, |garbage|) by {
        assert forall k :: |garbage| <= k < |s| ==> s[k] == whole[k];
      }
    }
    NextMagicFirst(s, 1, if n >= 4 then |garbage| else |s|);
  }

  lemma FrameStarts(fs: seq<seq<Byte>>, garbage: seq<Byte>)
    requires AllFrames(fs)
    ensures fs != [] ==> MagicAt(garbage + Concat(fs), |garbage|)
    ensures fs == [] ==> |garbage + Concat(fs)| == |garbage|
  {
    if fs != [] {
      var s := garbage + Concat(fs);
      assert s[|garbage|] == fs[0][0] && s[|garbage| + 1] == fs[0][1];
      assert s[|garbage| + 2] == fs[0][2] && s[|garbage| + 3] == fs[0][3];
    }
  }

  // ---------- Garbage and frames in any reads ----------

  /** How much of the stream behind the garbage has come in after `n` bytes. */
  function Behind(garbage: seq<Byte>, n: nat): nat {
    if n < |garbage| then 0 else n - |garbage|
  }

  /** A decoding of 26 or more bytes ends one to three bytes into the first frame. */
  predicate LosesFrame(garbage: seq<Byte>, pieces: seq<seq<Byte>>)
    decreases |pieces|
  {
    pieces != [] && (
      || LosesFrame(garbage, pieces[..|pieces| - 1])
      || (&& |ReceiveAll(pieces[..|pieces| - 1]).kept + pieces[|pieces| - 1]| >= HEADER_SIZE
          && 0 < Behind(garbage, |Concat(pieces)|) < 4))
  }

  /** What has been dropped is garbage only, or all the garbage and exactly the frames that have been decoded. */
  predicate InStep(garbage: seq<Byte>, fs: seq<seq<Byte>>, pieces: seq<seq<Byte>>)
    requires AllFrames(fs)
  {
    var r := ReceiveAll(pieces);
    var dropped := |Concat(pieces)| - |r.kept|;
    && |r.decoded| <= |fs| && r.decoded == FrameMessages(fs[..|r.decoded|])
    && (if r.decoded == [] then dropped <= |garbage|
        else dropped == |garbage| + |Concat(fs[..|r.decoded|])|)
  }

  /** The receiver while no frame has been lost: before the end of the garbage has been found, with what came in
      behind the last drop; then with the stream not decoded yet, or decoded as far as it goes. */
  ghost predicate Tracking(garbage: seq<Byte>, fs: seq<seq<Byte>>, input: seq<Byte>, r: Receiver) {
    || (r.decoded == [] && exists c :: SearchingAt(garbage, input, r, c))
    || (&& |garbage| <= |input| && r.decoded == [] && r.kept == input[|garbage|..])
    || (&& |garbage| <= |input| && ReadsInside(input[|garbage|..])
        && r == Receiver(Rest(input[|garbage|..]), Messages(input[|garbage|..])))
  }

  ghost predicate SearchingAt(garbage: seq<Byte>, input: seq<Byte>, r: Receiver, c: nat) {
    c < |garbage| && c <= |input| && r.kept == input[c..] && |r.kept| < HEADER_SIZE
  }

  lemma BehindGarbage(g: seq<Byte>, stream: seq<Byte>, p: seq<Byte>, read: seq<Byte>)
    requires |g| <= |p| && p + read <= g + stream
    ensures (p + read)[|g|..] == p[|g|..] + read && p[|g|..] + read <= stream
  {
    PrefixBehind(p + read, g, stream);
  }

  /** A read that decodes 26 or more bytes while the end of the garbage has not been found. */
  lemma SearchStep(garbage: seq<Byte>, fs: seq<seq<Byte>>, p: seq<Byte>, read: seq<Byte>, r: Receiver, c: nat)
    requires AllFrames(fs) && MagicFree(garbage) && p + read <= garbage + Concat(fs)
    requires r.decoded == [] && SearchingAt(garbage, p, r, c) && |r.kept + read| >= HEADER_SIZE
    ensures var m := Behind(garbage, |p + read|);
            Receive(r, read) == Receiver(if m >= 4 then (p + read)[|garbage|..] else [], [])
  {
    var input := p + read;
    assert r.kept + read == input[c..];
    hide MagicAt, Decode, ReadsInside, MagicFree, AllFrames, Concat, Receive;
    if |input| <= |garbage| {
      SearchGarbage(garbage, Concat(fs), input, c);
      ReceiveDrop(r, read, |input| - c);
      DropBoth(input, c, |input| - c);
    } else {
      SearchStream(garbage, fs, input, c);
      var cost := if |input| - |garbage| >= 4 then |garbage| - c else |input| - c;
      ReceiveDrop(r, read, cost);
      DropBoth(input, c, cost);
    }
  }

  lemma SearchGarbage(garbage: seq<Byte>, stream: seq<Byte>, input: seq<Byte>, c: nat)
    requires MagicFree(garbage) && input <= garbage + stream && c < |garbage| && c + HEADER_SIZE <= |input| <= |garbage|
    ensures ReadsInside(input[c..]) && Decode(input[c..]).messages == []
    ensures Decode(input[c..]).costOffset == |input| - c
  {
    hide MagicAt, Decode, ReadsInside;
    var buffer := input[c..];
    GarbagePart(garbage, stream, input, c);
    NothingFramed();
    ResyncCut(buffer, [], 0);
    NothingMore(buffer);
  }

  lemma SearchStream(garbage: seq<Byte>, fs: seq<seq<Byte>>, input: seq<Byte>, c: nat)
    requires AllFrames(fs) && MagicFree(garbage) && input <= garbage + Concat(fs) && c < |garbage| < |input|
    requires c + HEADER_SIZE <= |input|
    ensures ReadsInside(input[c..]) && Decode(input[c..]).messages == []
    ensures Decode(input[c..]).costOffset == if |input| - |garbage| >= 4 then |garbage| - c else |input| - c
  {
    hide MagicAt, Decode, ReadsInside, AllFrames, Concat, MagicFree;
    StreamPart(garbage, Concat(fs), input, c);
    ResyncCut(garbage[c..], fs, |input| - |garbage|);
  }

  lemma NothingFramed()
    ensures AllFrames([]) && Concat<Byte>([]) == [] && Concat<Byte>([])[..0] == []
  {
  }

  lemma ReceiveDrop(r: Receiver, read: seq<Byte>, cost: nat)
    requires ReadsInside(r.kept + read) && Decode(r.kept + read).messages == []
    requires Decode(r.kept + read).costOffset == cost <= |r.kept + read|
    ensures Receive(r, read) == Receiver((r.kept + read)[cost..], r.decoded)
  {
    hide Decode, ReadsInside;
    NothingMore(r.decoded);
  }

  lemma GarbagePart(garbage: seq<Byte>, stream: seq<Byte>, input: seq<Byte>, c: nat)
    requires MagicFree(garbage) && input <= garbage + stream && c < |garbage| && c <= |input| <= |garbage|
    ensures MagicFree(input[c..])
  {
    var part := input[c..];
    forall j | 0 <= j < |part| ensures !MagicAt(part, j) {
      assert MagicAt(part, j) ==> MagicAt(garbage, c + j);
    }
  }

  lemma StreamPart(garbage: seq<Byte>, stream: seq<Byte>, input: seq<Byte>, c: nat)
    requires MagicFree(garbage) && input <= garbage + stream && c < |garbage| < |input|
    ensures MagicFree(garbage[c..]) && |input| - |garbage| <= |stream|
    ensures input[c..] == garbage[c..] + stream[..|input| - |garbage|]
  {
    var part := garbage[c..];
    forall j | 0 <= j < |part| ensures !MagicAt(part, j) {
      assert MagicAt(part, j) ==> MagicAt(garbage, c + j);
    }
    PrefixBehind(input, garbage, stream);
    assert stream[..|input| - |garbage|] == input[|garbage|..];
  }

  lemma ShortBuffer(r: Receiver, read: seq<Byte>)
    requires |r.kept + read| < HEADER_SIZE
    ensures Receive(r, read) == Receiver(r.kept + read, r.decoded)
  {
    NothingMore(r.decoded);
  }

  /** One read that is not the one that loses the first frame. */
  lemma TrackStep(garbage: seq<Byte>, fs: seq<seq<Byte>>, p: seq<Byte>, read: seq<Byte>, r: Receiver)
    requires AllFrames(fs) && MagicFree(garbage) && p + read <= garbage + Concat(fs)
    requires Tracking(garbage, fs, p, r)
    requires !(|r.kept + read| >= HEADER_SIZE && 0 < Behind(garbage, |p + read|) < 4)
    ensures Tracking(garbage, fs, p + read, Receive(r, read))
  {
    hide ReadsInside, Rest, Messages, Receive, MagicFree, AllFrames, Concat, ProperPrefix, MagicAt;
    if r.decoded == [] && exists c :: SearchingAt(garbage, p, r, c) {
      var c :| SearchingAt(garbage, p, r, c);
      SearchOn(garbage, fs, p, read, r, c);
    } else {
      BehindGarbage(garbage, Concat(fs), p, read);
      var q := p[|garbage|..];
      if r.decoded == [] && r.kept == q {
        DecodeCut(fs, q + read);
        ReceiveStep(q, [], read);
        NothingMore(Messages(q + read));
      } else {
        ReceiveCut(fs, q, read);
      }
    }
  }

  lemma SearchOn(garbage: seq<Byte>, fs: seq<seq<Byte>>, p: seq<Byte>, read: seq<Byte>, r: Receiver, c: nat)
    requires AllFrames(fs) && MagicFree(garbage) && p + read <= garbage + Concat(fs)
    requires r.decoded == [] && SearchingAt(garbage, p, r, c)
    requires !(|r.kept + read| >= HEADER_SIZE && 0 < Behind(garbage, |p + read|) < 4)
    ensures Tracking(garbage, fs, p + read, Receive(r, read))
  {
    hide ReadsInside, Rest, Messages, Receive, MagicFree, AllFrames, Concat;
    var input, next := p + read, Receive(r, read);
    if |r.kept + read| < HEADER_SIZE {
      ShortBuffer(r, read);
      assert input[c..] == r.kept + read;
      assert SearchingAt(garbage, input, next, c);
    } else {
      SearchStep(garbage, fs, p, read, r, c);
      if |input| < |garbage| {
        assert SearchingAt(garbage, input, next, |input|);
      }
    }
  }

  /** The read that loses the first frame drops the beginning of its magic with the garbage. */
  lemma LossStep(garbage: seq<Byte>, fs: seq<seq<Byte>>, p: seq<Byte>, read: seq<Byte>, r: Receiver)
    requires AllFrames(fs) && MagicFree(garbage) && p + read <= garbage + Concat(fs)
    requires Tracking(garbage, fs, p, r)
    requires |r.kept + read| >= HEADER_SIZE && 0 < Behind(garbage, |p + read|) < 4
    ensures Receive(r, read) == Receiver([], [])
  {
    hide ReadsInside, Rest, Messages, Receive, MagicFree, AllFrames, Concat;
    if r.decoded == [] && exists c :: SearchingAt(garbage, p, r, c) {
      var c :| SearchingAt(garbage, p, r, c);
      SearchStep(garbage, fs, p, read, r, c);
    } else {
      KeptPart(p, garbage, r);
      assert false;
    }
  }

  lemma KeptPart(p: seq<Byte>, garbage: seq<Byte>, r: Receiver)
    requires |garbage| <= |p|
    requires r.kept == p[|garbage|..] || r.kept == Rest(p[|garbage|..])
    ensures |garbage| + |r.kept| <= |p|
  {
  }

  /** The dropped bytes are accounted for, and what has been decoded and what the kept bytes would give are the
      messages of all completed frames. */
  ghost predicate Accounts(fs: seq<seq<Byte>>, behind: nat, ahead: int, r: Receiver)
    requires AllFrames(fs)
  {
    && ReadsInside(r.kept)
    && r.decoded + Messages(r.kept) == FrameMessages(fs[..Completed(fs, behind)])
    && |r.decoded| <= |fs| && r.decoded == FrameMessages(fs[..|r.decoded|])
    && (if r.decoded == [] then ahead <= 0 else ahead == |Concat(fs[..|r.decoded|])|)
  }

  lemma TrackingMeans(garbage: seq<Byte>, fs: seq<seq<Byte>>, input: seq<Byte>, r: Receiver)
    requires AllFrames(fs) && input <= garbage + Concat(fs) && Tracking(garbage, fs, input, r)
    ensures Accounts(fs, Behind(garbage, |input|), |input| - |r.kept| - |garbage|, r)
  {
    hide Rest, Messages, FrameMessages, AllFrames, ReadsInside, Concat, Accounts;
    if r.decoded == [] && exists c :: SearchingAt(garbage, input, r, c) {
      var c :| SearchingAt(garbage, input, r, c);
      SearchingMeans(fs, Behind(garbage, |input|), |input| - |r.kept| - |garbage|, r);
    } else {
      var q := input[|garbage|..];
      PrefixBehind(input, garbage, Concat(fs));
      if r.decoded == [] && r.kept == q {
        AlignedMeans(fs, q);
      } else {
        DecodedMeans(fs, q);
      }
    }
  }

  lemma SearchingMeans(fs: seq<seq<Byte>>, behind: nat, ahead: int, r: Receiver)
    requires AllFrames(fs) && behind < HEADER_SIZE && |r.kept| < HEADER_SIZE && r.decoded == [] && ahead <= 0
    ensures Accounts(fs, behind, ahead, r)
  {
    ShortDecodesToNothing(r.kept);
    NoneCompleted(fs, behind);
    NoFrameMessages();
    assert fs[..0] == [];
    hide Messages, ReadsInside, Completed, Concat, IsFrame, FrameMessages;
  }

  lemma AlignedMeans(fs: seq<seq<Byte>>, q: seq<Byte>)
    requires AllFrames(fs) && q <= Concat(fs)
    ensures Accounts(fs, |q|, 0, Receiver(q, []))
  {
    DecodeCut(fs, q);
    NoFrameMessages();
    assert fs[..0] == [];
    NothingMore(Messages(q));
    hide Messages, ReadsInside, Completed, Concat, IsFrame, FrameMessages, AllFrames;
  }

  lemma DecodedMeans(fs: seq<seq<Byte>>, q: seq<Byte>)
    requires AllFrames(fs) && q <= Concat(fs) && ReadsInside(q)
    ensures Accounts(fs, |q|, |q| - |Rest(q)|, Receiver(Rest(q), Messages(q)))
  {
    hide Messages, ReadsInside, Completed, Concat, IsFrame, FrameMessages, Rest, ProperPrefix, MagicAt;
    NoneWhole();
    DecodeCut(fs, q);
    RestDecodesToNothing(q);
    NothingMore(Messages(q));
    var k := Completed(fs, |q|);
    FramesSplit(fs, k);
    hide AllFrames;
    assert |FrameMessages(fs[..k])| == k;
    if k == 0 {
      assert fs[..0] == [];
    }
  }

  lemma NoneWhole()
    ensures Concat<Byte>([]) == []
  {
  }

  lemma NoneCompleted(fs: seq<seq<Byte>>, n: nat)
    requires AllFrames(fs) && n < HEADER_SIZE
    ensures Completed(fs, n) == 0
  {
  }

  lemma {:induction false} TrackAll(garbage: seq<Byte>, fs: seq<seq<Byte>>, pieces: seq<seq<Byte>>)
    requires AllFrames(fs) && MagicFree(garbage) && Concat(pieces) <= garbage + Concat(fs)
    requires !LosesFrame(garbage, pieces)
    ensures Tracking(garbage, fs, Concat(pieces), ReceiveAll(pieces))
    decreases |pieces|
  {
    if pieces == [] {
      TrackStart(garbage, fs);
    } else {
      var init, last := pieces[..|pieces| - 1], pieces[|pieces| - 1];
      hide Receive, MagicFree, AllFrames, Tracking, Behind;
      assert pieces == init + [last];
      ConcatSnoc(init, last);
      hide Concat;
      PrefixTake(Concat(init), last, garbage + Concat(fs));
      TrackAll(garbage, fs, init);
      TrackStep(garbage, fs, Concat(init), last, ReceiveAll(init));
    }
  }

  lemma TrackStart(garbage: seq<Byte>, fs: seq<seq<Byte>>)
    ensures Tracking(garbage, fs, [], Receiver([], []))
  {
    if garbage != [] {
      assert SearchingAt(garbage, [], Receiver([], []), 0);
    }
  }

  lemma NotLost(garbage: seq<Byte>, fs: seq<seq<Byte>>, pieces: seq<seq<Byte>>)
    requires AllFrames(fs) && MagicFree(garbage) && Concat(pieces) <= garbage + Concat(fs)
    requires !LosesFrame(garbage, pieces)
    ensures InStep(garbage, fs, pieces)
    ensures var r := ReceiveAll(pieces); var k := Completed(fs, Behind(garbage, |Concat(pieces)|));
            ReadsInside(r.kept) && r.decoded + Messages(r.kept) == FrameMessages(fs[..k])
  {
    hide ReadsInside, Messages, FrameMessages, AllFrames, Tracking, Concat, ReceiveAll, MagicFree, LosesFrame;
    TrackAll(garbage, fs, pieces);
    TrackingMeans(garbage, fs, Concat(pieces), ReceiveAll(pieces));
  }

  /** The shortest list of reads that loses the frame ends with the read that does. */
  lemma {:induction false} Lost(garbage: seq<Byte>, fs: seq<seq<Byte>>, pieces: seq<seq<Byte>>) returns (k: nat)
    requires AllFrames(fs) && MagicFree(garbage) && Concat(pieces) <= garbage + Concat(fs)
    requires LosesFrame(garbage, pieces)
    ensures k <= |pieces| && !InStep(garbage, fs, pieces[..k])
    decreases |pieces|
  {
    var init, last := pieces[..|pieces| - 1], pieces[|pieces| - 1];
    assert pieces == init + [last] && pieces[..|pieces|] == pieces;
    ConcatSnoc(init, last);
    hide Concat, Receive, MagicFree, AllFrames, Tracking;
    PrefixTake(Concat(init), last, garbage + Concat(fs));
    if LosesFrame(garbage, init) {
      k := Lost(garbage, fs, init);
      assert pieces[..k] == init[..k];
    } else {
      TrackAll(garbage, fs, init);
      LossStep(garbage, fs, Concat(init), last, ReceiveAll(init));
      k := |pieces|;
    }
  }

  /** Garbage without a magic and then frames, cut into any reads: the reads stay in step with the frames if and
      only if none of them decodes 26 or more bytes that end one to three bytes into the first frame; and then
      everything decoded so far, and what the next call finds in the kept bytes, are the messages of every frame
      that has come in. */
  lemma ResyncReads(garbage: seq<Byte>, fs: seq<seq<Byte>>, pieces: seq<seq<Byte>>)
    requires AllFrames(fs) && MagicFree(garbage) && Concat(pieces) <= garbage + Concat(fs)
    ensures (forall k :: 0 <= k <= |pieces| ==> InStep(garbage, fs, pieces[..k])) <==> !LosesFrame(garbage, pieces)
    ensures !LosesFrame(garbage, pieces) ==>
              var r := ReceiveAll(pieces); var k := Completed(fs, Behind(garbage, |Concat(pieces)|));
              ReadsInside(r.kept) && r.decoded + Messages(r.kept) == FrameMessages(fs[..k])
  {
    hide ReadsInside, Messages, FrameMessages, AllFrames, Behind, Concat, ReceiveAll, MagicFree, LosesFrame, InStep;
    if LosesFrame(garbage, pieces) {
      var k := Lost(garbage, fs, pieces);
    } else {
      NotLost(garbage, fs, pieces);
      forall k | 0 <= k <= |pieces| ensures InStep(garbage, fs, pieces[..k]) {
        EarlierReads(garbage, garbage + Concat(fs), pieces, k);
        NotLost(garbage, fs, pieces[..k]);
      }
    }
  }

  lemma {:induction false} EarlierReads(garbage: seq<Byte>, input: seq<Byte>, pieces: seq<seq<Byte>>, k: nat)
    requires !LosesFrame(garbage, pieces) && k <= |pieces| && Concat(pieces) <= input
    ensures !LosesFrame(garbage, pieces[..k]) && Concat(pieces[..k]) <= input
    decreases |pieces|
  {
    if k == |pieces| {
      assert pieces[..k] == pieces;
    } else {
      var init, last := pieces[..|pieces| - 1], pieces[|pieces| - 1];
      assert pieces == init + [last] && init[..k] == pieces[..k];
      ConcatSnoc(init, last);
      hide Concat;
      PrefixTake(Concat(init), last, input);
      EarlierReads(garbage, input, init, k);
    }
  }

  // ---------- After the first frame is lost ----------

  /** The losing read is the last one, and nothing is kept of it: reading starts over inside the first frame. */
  ghost predicate LostAt(garbage: seq<Byte>, fs: seq<seq<Byte>>, before: seq<seq<Byte>>) {
    && AllFrames(fs) && MagicFree(garbage) && Concat(before) <= garbage + Concat(fs)
    && LosesFrame(garbage, before) && !LosesFrame(garbage, before[..|before| - 1])
  }

  /** The part of the first frame that has not come in with the losing read. */
  ghost function LostRest(garbage: seq<Byte>, fs: seq<seq<Byte>>, before: seq<seq<Byte>>): seq<Byte>
    requires LostAt(garbage, fs, before)
  {
    FirstLoss(garbage, fs, before);
    fs[0][Behind(garbage, |Concat(before)|)..]
  }

  lemma FirstLoss(garbage: seq<Byte>, fs: seq<seq<Byte>>, before: seq<seq<Byte>>)
    requires LostAt(garbage, fs, before)
    ensures ReceiveAll(before) == Receiver([], [])
    ensures fs != [] && 0 < Behind(garbage, |Concat(before)|) < 4 <= |fs[0]|
  {
    var init, last := before[..|before| - 1], before[|before| - 1];
    assert before == init + [last];
    ConcatSnoc(init, last);
    SomeFrame(garbage, fs, Concat(before));
    hide Concat, Receive, MagicFree, AllFrames, Tracking;
    PrefixTake(Concat(init), last, garbage + Concat(fs));
    TrackAll(garbage, fs, init);
    LossStep(garbage, fs, Concat(init), last, ReceiveAll(init));
  }

  lemma SomeFrame(garbage: seq<Byte>, fs: seq<seq<Byte>>, input: seq<Byte>)
    requires AllFrames(fs) && input <= garbage + Concat(fs) && Behind(garbage, |input|) > 0
    ensures fs != [] && |fs[0]| >= HEADER_SIZE
  {
    hide MagicAt;
  }

  lemma {:induction false} Restart(before: seq<seq<Byte>>, later: seq<seq<Byte>>)
    requires ReceiveAll(before) == Receiver([], [])
    ensures ReceiveAll(before + later) == ReceiveAll(later)
    decreases |later|
  {
    hide Receive;
    if later == [] {
      NothingMore(before);
    } else {
      var init := later[..|later| - 1];
      Restart(before, init);
      assert (before + later)[..|before + later| - 1] == before + init;
    }
  }

  /** What comes after the losing read is the rest of the first frame and the frames behind it. */
  lemma RestFollows(garbage: seq<Byte>, fs: seq<seq<Byte>>, input: seq<Byte>, later: seq<Byte>)
    requires fs != [] && 0 < Behind(garbage, |input|) <= |fs[0]|
    requires input + later <= garbage + Concat(fs)
    ensures later <= fs[0][Behind(garbage, |input|)..] + Concat(fs[1..])
  {
    hide Concat;
    var m := Behind(garbage, |input|);
    ConcatFirst(fs, 0);
    SplitAt(fs[0], m);
    var start, rest := garbage + fs[0][..m], fs[0][m..] + Concat(fs[1..]);
    Regroup(garbage, fs[0][..m], rest);
    Regroup(fs[0][..m], fs[0][m..], Concat(fs[1..]));
    PrefixTake(input, later, start + rest);
    PrefixWhole(input, start, rest);
    PrefixDrop(start, [], later, rest);
    NothingMore(start);
    NothingMore(later);
  }

  /** After the losing read the receiver is as new, with the rest of the first frame as the garbage in front of the
      second. If that rest holds no magic, the reads that follow are in step with the second and later frames if
      and only if none of them loses the second frame in the same way; and then no later frame is lost. */
  lemma AfterLoss(garbage: seq<Byte>, fs: seq<seq<Byte>>, before: seq<seq<Byte>>, later: seq<seq<Byte>>)
    requires LostAt(garbage, fs, before)
    requires Concat(before) + Concat(later) <= garbage + Concat(fs)
    ensures ReceiveAll(before + later) == ReceiveAll(later)
    ensures var rest := LostRest(garbage, fs, before);
            fs != [] && AllFrames(fs[1..]) && Concat(later) <= rest + Concat(fs[1..])
    ensures var rest := LostRest(garbage, fs, before);
            MagicFree(rest) ==>
              ((forall k :: 0 <= k <= |later| ==> InStep(rest, fs[1..], later[..k])) <==> !LosesFrame(rest, later))
    ensures var rest := LostRest(garbage, fs, before);
            MagicFree(rest) && !LosesFrame(rest, later) ==>
              var r := ReceiveAll(before + later); var k := Completed(fs[1..], Behind(rest, |Concat(later)|));
              ReadsInside(r.kept) && r.decoded + Messages(r.kept) == FrameMessages(fs[1..][..k])
  {
    FirstLoss(garbage, fs, before);
    Restart(before, later);
    RestFollows(garbage, fs, Concat(before), Concat(later));
    var rest := LostRest(garbage, fs, before);
    hide LosesFrame, InStep, ReceiveAll, ReadsInside, Messages, Completed, Behind, MagicFree, IsFrame, Concat,
         FrameMessages;
    if MagicFree(rest) {
      ResyncReads(rest, fs[1..], later);
    }
  }

  /** The condition on the rest is needed: if bytes of the first frame read as a frame, then after the loss that
      message is delivered, though the stream has no such frame. */
  lemma FalseFrame(garbage: seq<Byte>, fs: seq<seq<Byte>>, before: seq<seq<Byte>>, later: seq<seq<Byte>>,
                   front: seq<Byte>, inner: seq<Byte>, behind: seq<Byte>)
    requires LostAt(garbage, fs, before)
    requires LostRest(garbage, fs, before) == front + inner + behind && MagicFree(front) && IsFrame(inner)
    requires Concat(later) == front + inner && !LosesFrame(front, later)
    ensures var r := ReceiveAll(before + later);
            ReadsInside(r.kept) && r.decoded + Messages(r.kept) == [FrameMessage(inner)]
  {
    hide LosesFrame, InStep, ReceiveAll, ReadsInside, Messages, Completed, MagicFree, IsFrame, Concat,
         FrameMessages, LostAt, LostRest, MagicAt, MessageAt;
    FirstLoss(garbage, fs, before);
    Restart(before, later);
    OneMessage(inner);
    ResyncReads(front, [inner], later);
    assert [inner][..1] == [inner];
  }

  lemma OneMessage(f: seq<Byte>)
    requires IsFrame(f)
    ensures AllFrames([f]) && FrameMessages([f]) == [FrameMessage(f)]
    ensures Concat([f]) == f && Completed([f], |f|) == 1
  {
    assert [f][1..] == [];
    assert FrameMessages([f][1..]) == [];
    hide MagicAt, MessageAt;
  }
}
