/** Which frames and reads the 64 KB receive buffer of a session has room for. */
module ReceiveBuffer {
  import opened Bytes
  import opened Codec
  import opened RoundTrip
  import opened Session
  import opened Stream

  // ---------- Frames that always fit ----------

  /** The longest frame that any reads of at most 4096 bytes leave room for. */
  const SAFE_FRAME: nat := BUFFER_SIZE - READ_SIZE + 1

  /** The longest frame either encoder makes. */
  const MAX_FRAME: nat := HEADER_SIZE + PREFIX_SIZE + CHUNK_SIZE

  ghost predicate FramesUpTo(fs: seq<seq<Byte>>, size: nat) {
    AllFrames(fs) && forall i :: 0 <= i < |fs| ==> |fs[i]| <= size
  }

  ghost predicate SmallFrames(fs: seq<seq<Byte>>) {
    FramesUpTo(fs, 4124)
  }

  predicate SmallReads(pieces: seq<seq<Byte>>) {
    forall i :: 0 <= i < |pieces| ==> |pieces[i]| <= 4096
  }

  lemma EncoderFramesSmall(msg: EncodeMessage)
    requires Accepted(msg)
    ensures SmallFrames(DataFrames(msg, TotalFrames(|msg.payload|)))
  {
    var total := TotalFrames(|msg.payload|);
    FramesCorrect(msg, total);
    hide IsFrame, FrameMessage, Fragment, ReadHeader, DataFrame, Body;
    forall i | 0 <= i < total ensures |DataFrames(msg, total)[i]| <= MAX_FRAME {
      FrameCorrect(msg, i);
    }
  }

  /** What is unfinished is less than a frame. */
  lemma UnfinishedBound(fs: seq<seq<Byte>>, p: seq<Byte>, size: nat)
    requires FramesUpTo(fs, size) && p <= Concat(fs)
    ensures 0 <= Unfinished(fs, |p|) && (Unfinished(fs, |p|) < size || Unfinished(fs, |p|) == 0)
  {
    hide IsFrame, Concat;
    CutAnywhere(fs, p);
  }

  /** Frames of up to 61441 bytes fit however they are cut into reads of at most 4096 bytes. */
  lemma {:induction false} SafeFramesFit(fs: seq<seq<Byte>>, pieces: seq<seq<Byte>>)
    requires FramesUpTo(fs, 61441) && SmallReads(pieces) && Concat(pieces) <= Concat(fs)
    ensures Fits(fs, pieces)
    decreases |pieces|
  {
    hide FramesUpTo, Concat, Unfinished;
    if pieces != [] {
      var init, last := pieces[..|pieces| - 1], pieces[|pieces| - 1];
      assert pieces == init + [last];
      ConcatSnoc(init, last);
      PrefixTake(Concat(init), last, Concat(fs));
      UnfinishedBound(fs, Concat(init), SAFE_FRAME);
      SafeFramesFit(fs, init);
    }
  }

  /** For frames the encoders make and reads of at most 4096 bytes the buffer never holds more than 8219 bytes, so
      the copy into the 64 KB buffer stays inside it, and the decoder reads nothing outside it. */
  lemma BufferBound(fs: seq<seq<Byte>>, pieces: seq<seq<Byte>>, read: seq<Byte>)
    requires SmallFrames(fs) && SmallReads(pieces) && Concat(pieces) + read <= Concat(fs) && |read| <= 4096
    ensures var s := OnRecvAll(pieces);
            !s.overflowed && |s.kept| + |read| <= 8219 <= BUFFER_SIZE && ReadsInside(s.kept + read)
  {
    var p := Concat(pieces);
    PrefixTake(p, read, Concat(fs));
    SmallAreSafe(fs);
    SafeFramesFit(fs, pieces);
    Delivery(fs, pieces);
    UnfinishedBound(fs, p, MAX_FRAME);
    KeptIs(fs, p, OnRecvAll(pieces), Lossless(fs, pieces));
    hide AllFrames, OnRecvAll, Concat, Unfinished, Holds, Rest, ReadsInside, Messages, Receive;
    ReceiveCut(fs, p, read);
  }

  lemma SmallAreSafe(fs: seq<seq<Byte>>)
    requires SmallFrames(fs)
    ensures FramesUpTo(fs, SAFE_FRAME) && AllFrames(fs)
  {
  }

  lemma KeptIs(fs: seq<seq<Byte>>, p: seq<Byte>, s: Inbox, all: bool)
    requires AllFrames(fs) && Holds(fs, p, s, all)
    ensures s.kept == Rest(p) && |s.kept| == Unfinished(fs, |p|) && !s.overflowed
  {
    hide Unfinished, Rest;
  }

  // ---------- Frames that never fit ----------

  lemma {:induction false} PrefixLength(fs: seq<seq<Byte>>, k: nat, i: nat)
    requires k <= i <= |fs|
    ensures |Concat(fs[..k])| <= |Concat(fs[..i])|
  {
    assert fs[..i] == fs[..k] + fs[k..i];
    ConcatAppend(fs[..k], fs[k..i]);
  }

  lemma {:induction false} CompletedBound(fs: seq<seq<Byte>>, n: nat, i: nat)
    requires i < |fs|
    ensures n < |Concat(fs[..i + 1])| ==> Completed(fs, n) <= i
    ensures |Concat(fs[..i])| <= n ==> i <= Completed(fs, n)
    decreases i
  {
    ConcatFirst(fs, i);
    if i > 0 {
      ConcatFirst(fs, i - 1);
      if n >= |fs[0]| {
        CompletedBound(fs[1..], n - |fs[0]|, i - 1);
      }
    } else {
      assert fs[..0] == [] && fs[1..][..0] == [];
    }
  }

  lemma FrameEnd(fs: seq<seq<Byte>>, i: nat)
    requires i < |fs|
    ensures |Concat(fs[..i + 1])| == |Concat(fs[..i])| + |fs[i]|
  {
    assert fs[..i + 1] == fs[..i] + [fs[i]];
    ConcatSnoc(fs[..i], fs[i]);
  }

  /** Before a frame is complete at least what has come in of it is unfinished. */
  lemma UnfinishedAtLeast(fs: seq<seq<Byte>>, n: nat, i: nat)
    requires i < |fs| && n < |Concat(fs[..i + 1])|
    ensures Unfinished(fs, n) >= n - |Concat(fs[..i])|
  {
    CompletedBound(fs, n, i);
    PrefixLength(fs, Completed(fs, n), i);
  }

  /** A frame longer than the buffer overflows it, however it is cut into reads of any size. */
  lemma {:induction false} LongFrameOverflows(fs: seq<seq<Byte>>, pieces: seq<seq<Byte>>, i: nat)
    requires AllFrames(fs) && Concat(pieces) <= Concat(fs)
    requires i < |fs| && |fs[i]| > 65536 && |Concat(fs[..i + 1])| <= |Concat(pieces)|
    ensures !Fits(fs, pieces)
    decreases |pieces|
  {
    FrameEnd(fs, i);
    if pieces != [] {
      var init, last := pieces[..|pieces| - 1], pieces[|pieces| - 1];
      assert pieces == init + [last];
      ConcatSnoc(init, last);
      hide Concat, AllFrames, Unfinished;
      PrefixTake(Concat(init), last, Concat(fs));
      if |Concat(fs[..i + 1])| <= |Concat(init)| {
        LongFrameOverflows(fs, init, i);
      } else if Fits(fs, pieces) {
        UnfinishedAtLeast(fs, |Concat(init)|, i);
        assert false;
      }
    }
  }

  /** The longest frame the header can describe, 65561 bytes, is well formed and longer than the buffer. */
  lemma LongestFrame() returns (f: seq<Byte>)
    ensures IsFrame(f) && |f| == 65561 > 65536
    ensures forall pieces :: Concat(pieces) == f ==> OnRecvAll(pieces).overflowed
  {
    var h := Header(DATA, 65535, 0, 1, 0, 1, 0);
    var body := Repeated(0, 65535);
    hide Repeated;
    PackedFrame(h, body);
    f := PackHeader(h) + body;
    hide PackHeader, IsFrame;
    AlwaysOverflows(f);
  }

  function Repeated(b: Byte, n: nat): (r: seq<Byte>)
    ensures |r| == n
  {
    seq(n, _ => b)
  }

  lemma AlwaysOverflows(f: seq<Byte>)
    requires IsFrame(f) && |f| > 65536
    ensures forall pieces :: Concat(pieces) == f ==> OnRecvAll(pieces).overflowed
  {
    hide IsFrame;
    var fs := [f];
    assert fs[..1] == fs && fs[..0] == [];
    FrameEnd(fs, 0);
    NothingMore(f);
    ConcatFirst(fs, 0);
    forall pieces | Concat(pieces) == f ensures OnRecvAll(pieces).overflowed {
      LongFrameOverflows(fs, pieces, 0);
      Delivery(fs, pieces);
    }
  }

  // ---------- The bound is exact ----------

  /** The bytes one by one. */
  function Singles(s: seq<Byte>): (pieces: seq<seq<Byte>>)
    ensures SmallReads(pieces)
    ensures Concat(pieces) == s
    decreases |s|
  {
    if s == [] then []
    else
      var init := Singles(s[..|s| - 1]);
      ConcatSnoc(init, [s[|s| - 1]]);
      init + [[s[|s| - 1]]]
  }

  /** A longer frame, with enough bytes behind its beginning, can be cut into reads of at most 4096 bytes that do not
      fit: a read of 4096 bytes after its first 61441. */
  lemma UnsafeFrameOverflows(fs: seq<seq<Byte>>, i: nat) returns (pieces: seq<seq<Byte>>)
    requires AllFrames(fs) && i < |fs| && |fs[i]| > 61441
    requires |Concat(fs[..i])| + 65536 < |Concat(fs)|
    ensures SmallReads(pieces) && Concat(pieces) <= Concat(fs) && !Fits(fs, pieces)
  {
    hide AllFrames, Singles;
    var stream, start := Concat(fs), |Concat(fs[..i])|;
    var init, last := Singles(stream[..start + SAFE_FRAME]), stream[start + SAFE_FRAME..start + BUFFER_SIZE + 1];
    pieces := init + [last];
    ConcatSnoc(init, last);
    TakeMore(stream, start + SAFE_FRAME, READ_SIZE);
    FrameEnd(fs, i);
    UnfinishedAtLeast(fs, start + SAFE_FRAME, i);
    hide Concat, Unfinished;
    assert pieces[..|pieces| - 1] == init;
  }
}
