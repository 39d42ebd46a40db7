/** A sending session, its connection and a decoding peer: what arrives is what was sent. */
module EndToEnd {
  import opened Bytes
  import opened Codec
  import opened Collections
  import opened Stream
  import opened ReceiveBuffer
  import opened RoundTrip
  import Q = WriteQueue
  import Session

  /** `sent` lists the messages whose encoding the connection accepted, in strand order; the peer has taken
      `taken` bytes off the wire. */
  datatype Link = Link(conn: Q.Conn, sent: seq<EncodeMessage>, taken: nat, peer: Receiver)

  datatype Event =
    | SendMessage(msg: EncodeMessage, generatedId: nat)
    | Network(e: Q.Event)
    | PeerRead(n: nat)

  function Start(hasCallback: bool): Link {
    Link(Q.Fresh(hasCallback), [], 0, Receiver([], []))
  }

  /** One step. Sends reach the connection only through the session, identifiers are 64-bit, and the peer reads
      bytes that are on the wire. */
  function Step(s: Link, e: Event): Link {
    match e
    case SendMessage(msg, generatedId) =>
      var m := Session.WithId(msg, generatedId);
      if Encode(m).Rejected? || m.msgId >= 0x1_0000_0000_0000_0000 then s
      else
        s.(conn := Q.Step(s.conn, Q.SendTask(Encode(m).bytes)), sent := if s.conn.closed then s.sent else s.sent + [m])
    case Network(e) => if e.SendTask? then s else s.(conn := Q.Step(s.conn, e))
    case PeerRead(n) =>
      if s.taken + n > |s.conn.wire| then s
      else s.(taken := s.taken + n, peer := Receive(s.peer, s.conn.wire[s.taken..s.taken + n]))
  }

  function Run(hasCallback: bool, events: seq<Event>): Link {
    if events == [] then Start(hasCallback)
    else Step(Run(hasCallback, events[..|events| - 1]), events[|events| - 1])
  }

  ghost predicate AllAccepted(msgs: seq<EncodeMessage>) {
    forall i :: 0 <= i < |msgs| ==> Accepted(msgs[i])
  }

  /** All frames of a list of messages, message after message. */
  function Frames(msgs: seq<EncodeMessage>): seq<seq<Byte>> {
    if msgs == [] then []
    else
      var last := msgs[|msgs| - 1];
      Frames(msgs[..|msgs| - 1]) + DataFrames(last, TotalFrames(|last.payload|))
  }

  /** All fragments of a list of messages, message after message. */
  function AllFragments(msgs: seq<EncodeMessage>): seq<DecodedMessage> {
    if msgs == [] then []
    else
      var last := msgs[|msgs| - 1];
      AllFragments(msgs[..|msgs| - 1]) + Fragments(last, TotalFrames(|last.payload|))
  }

  lemma {:induction false} FramesOfMessages(msgs: seq<EncodeMessage>)
    requires AllAccepted(msgs)
    ensures AllFrames(Frames(msgs)) && FrameMessages(Frames(msgs)) == AllFragments(msgs)
    decreases |msgs|
  {
    hide IsFrame, FrameMessages, DataFrames, Fragments, AllFrames, Accepted, TotalFrames;
    if msgs == [] {
      NoFrameMessages();
    } else {
      var init, last := msgs[..|msgs| - 1], msgs[|msgs| - 1];
      var total := TotalFrames(|last.payload|);
      FramesOfMessages(init);
      FramesCorrect(last, total);
      FrameMessagesAppend(Frames(init), DataFrames(last, total));
    }
  }

  /** What a peer holds that has read `p`. */
  ghost predicate PeerHolds(p: seq<Byte>, peer: Receiver) {
    ReadsInside(p) && peer == Receiver(Rest(p), Messages(p))
  }

  /** What ties the peer to the sender in every reachable state. */
  ghost predicate Inv(s: Link) {
    && Q.Inv(s.conn)
    && AllAccepted(s.sent)
    && Concat(s.conn.accepted) == Concat(Frames(s.sent))
    && s.taken <= |s.conn.wire|
    && PeerHolds(s.conn.wire[..s.taken], s.peer)
  }

  lemma SendInv(s: Link, msg: EncodeMessage, generatedId: nat)
    requires Inv(s)
    ensures Inv(Step(s, SendMessage(msg, generatedId)))
  {
    hide ReadsInside, Rest, Messages, Q.Inv, Q.Step, Frames, Concat, Encode, Session.WithId, Accepted;
    var m := Session.WithId(msg, generatedId);
    var t := Step(s, SendMessage(msg, generatedId));
    if t != s {
      var bytes := Encode(m).bytes;
      SendKeepsWire(s.conn, bytes);
      Q.StepInv(s.conn, Q.SendTask(bytes));
      if !s.conn.closed {
        EncodedIsFrames(m);
        SentFrames(s.conn.accepted, s.sent, m);
      }
    }
  }

  /** Accepting a message adds its frames to those sent. */
  lemma SentFrames(accepted: seq<seq<Byte>>, sent: seq<EncodeMessage>, m: EncodeMessage)
    requires Concat(accepted) == Concat(Frames(sent))
    requires Encode(m).Encoded? && Encode(m).bytes == Concat(DataFrames(m, TotalFrames(|m.payload|)))
    ensures Concat(accepted + [Encode(m).bytes]) == Concat(Frames(sent + [m]))
  {
    assert (sent + [m])[..|sent + [m]| - 1] == sent;
    ConcatSnoc(accepted, Encode(m).bytes);
    ConcatAppend(Frames(sent), DataFrames(m, TotalFrames(|m.payload|)));
    hide Concat, Encode, DataFrames;
  }

  lemma EncodedIsFrames(m: EncodeMessage)
    requires Encode(m).Encoded? && m.msgId < 0x1_0000_0000_0000_0000
    ensures Accepted(m) && Encode(m).bytes == Concat(DataFrames(m, TotalFrames(|m.payload|)))
  {
  }

  lemma SendKeepsWire(c: Q.Conn, payload: seq<Byte>)
    ensures var d := Q.Step(c, Q.SendTask(payload));
            d.wire == c.wire && d.accepted == if c.closed then c.accepted else c.accepted + [payload]
  {
  }

  lemma NetworkKeeps(c: Q.Conn, e: Q.Event)
    requires !e.SendTask?
    ensures var d := Q.Step(c, e); d.accepted == c.accepted && c.wire <= d.wire
  {
  }

  lemma NetworkInv(s: Link, e: Q.Event)
    requires Inv(s)
    ensures Inv(Step(s, Network(e)))
  {
    hide ReadsInside, Rest, Messages, Q.Inv, Concat, Frames, Q.Step;
    if !e.SendTask? {
      Q.StepInv(s.conn, e);
      NetworkKeeps(s.conn, e);
      assert Q.Step(s.conn, e).wire[..s.taken] == s.conn.wire[..s.taken];
    }
  }

  lemma WirePrefix(c: Q.Conn, fs: seq<seq<Byte>>, n: nat)
    requires Q.Inv(c) && Concat(c.accepted) == Concat(fs) && n <= |c.wire|
    ensures c.wire[..n] <= Concat(fs)
  {
    assert c.wire <= Concat(fs);
    assert c.wire == Concat(fs)[..|c.wire|];
  }

  lemma ReadInv(s: Link, n: nat)
    requires Inv(s)
    ensures Inv(Step(s, PeerRead(n)))
  {
    hide PeerHolds, Q.Inv, Concat, Frames, Receive, AllFrames, AllFragments, AllAccepted;
    if s.taken + n <= |s.conn.wire| {
      var fs := Frames(s.sent);
      FramesOfMessages(s.sent);
      WirePrefix(s.conn, fs, s.taken + n);
      TakeMore(s.conn.wire, s.taken, n);
      PeerReads(fs, s.conn.wire[..s.taken], s.conn.wire[s.taken..s.taken + n], s.peer);
    }
  }

  lemma PeerReads(fs: seq<seq<Byte>>, p: seq<Byte>, read: seq<Byte>, peer: Receiver)
    requires AllFrames(fs) && p + read <= Concat(fs)
    ensures PeerHolds(p, peer) ==> PeerHolds(p + read, Receive(peer, read))
  {
    hide ReadsInside, Rest, Messages, Concat, AllFrames, Receive;
    ReceiveCut(fs, p, read);
  }

  lemma {:induction false} RunInv(hasCallback: bool, events: seq<Event>)
    ensures Inv(Run(hasCallback, events))
    decreases |events|
  {
    hide Inv, Step;
    if events == [] {
      StartInv(hasCallback);
    } else {
      var s, e := Run(hasCallback, events[..|events| - 1]), events[|events| - 1];
      RunInv(hasCallback, events[..|events| - 1]);
      match e
      case SendMessage(msg, generatedId) => SendInv(s, msg, generatedId);
      case Network(e) => NetworkInv(s, e);
      case PeerRead(n) => ReadInv(s, n);
    }
  }

  lemma StartInv(hasCallback: bool)
    ensures Inv(Start(hasCallback))
  {
    Q.FreshInv(hasCallback);
    NothingWaits();
    hide Q.Inv, ReadsInside, Messages, Rest, Concat, DataFrames, Accepted;
  }

  /** End to end, in every run of sends, partial transmissions, completions, failures, closes and peer reads of any
      size: what the peer has decoded is a beginning of the fragments of the accepted messages, in send order and
      never interleaved; and on an open connection with nothing left to write or read it is all of them. */
  lemma Delivered(hasCallback: bool, events: seq<Event>)
    ensures var s := Run(hasCallback, events);
            && s.peer.decoded <= AllFragments(s.sent)
            && (!s.conn.closed && s.conn.queue == [] && s.taken == |s.conn.wire| ==>
                  s.peer == Receiver([], AllFragments(s.sent)))
  {
    hide ReadsInside, Rest, Messages, Concat, Frames, AllFragments, FrameMessages, AllFrames, AllAccepted, Run, Q.Inv;
    var s := Run(hasCallback, events);
    var fs := Frames(s.sent);
    RunInv(hasCallback, events);
    FramesOfMessages(s.sent);
    WirePrefix(s.conn, fs, s.taken);
    DecodedPart(fs, s.conn.wire[..s.taken]);
    if !s.conn.closed && s.conn.queue == [] && s.taken == |s.conn.wire| {
      Q.AllWritten(s.conn);
      assert s.conn.wire[..s.taken] == s.conn.wire;
    }
  }

  /** What a send adds to the fragments the peer is to get: on an open connection, those of the message as the caller
      passed it, under its own identifier or, if it has none, the generated one; nothing for a message that is empty,
      larger than 10 MB or a heartbeat. No other step adds any. */
  lemma SendAdds(s: Link, msg: EncodeMessage, generatedId: nat)
    requires msg.msgId < 0x1_0000_0000_0000_0000 && generatedId < 0x1_0000_0000_0000_0000
    ensures var t := Step(s, SendMessage(msg, generatedId));
            if 0 < |msg.payload| <= 10_485_760 && msg.protoType != 0 && !s.conn.closed then
              exists added :: AllFragments(t.sent) == AllFragments(s.sent) + added
                && Session.SentUnder(msg, if msg.msgId != 0 then msg.msgId else generatedId, added)
            else AllFragments(t.sent) == AllFragments(s.sent)
  {
    hide Encode, Q.Step, Session.SentUnder, Fragments;
    var m, t := Session.WithId(msg, generatedId), Step(s, SendMessage(msg, generatedId));
    EncodeRefuses(m);
    if Accepted(m) && !s.conn.closed {
      var added := Fragments(m, TotalFrames(|m.payload|));
      Session.FragmentsUnder(m);
      Session.SameMessage(msg, m, added);
      assert t.sent == s.sent + [m] && t.sent[..|t.sent| - 1] == s.sent;
      assert AllFragments(t.sent) == AllFragments(s.sent) + added;
    }
  }

  lemma OthersAdd(s: Link, e: Event)
    requires !e.SendMessage?
    ensures Step(s, e).sent == s.sent
  {
    hide Q.Step, Receive;
  }

  /** Identifiers are 64 bits wide. */
  ghost predicate IdsFit(events: seq<Event>) {
    forall k :: 0 <= k < |events| && events[k].SendMessage? ==>
      events[k].msg.msgId < 0x1_0000_0000_0000_0000 && events[k].generatedId < 0x1_0000_0000_0000_0000
  }

  /** The decoded message is a piece of what the event sends: its types, and its identifier or the generated one. */
  predicate PieceOfSend(d: DecodedMessage, e: Event) {
    && e.SendMessage? && d.mainType == e.msg.mainType && d.subType == e.msg.subType
    && d.msgId == if e.msg.msgId != 0 then e.msg.msgId else e.generatedId
  }

  /** Whatever the peer decodes is a piece of some message a caller sent, under the identifier it was sent under. */
  lemma DecodedWasSent(hasCallback: bool, events: seq<Event>, i: nat) returns (k: nat)
    requires IdsFit(events) && i < |Run(hasCallback, events).peer.decoded|
    ensures k < |events| && PieceOfSend(Run(hasCallback, events).peer.decoded[i], events[k])
  {
    hide Run, AllFragments, PieceOfSend, IdsFit;
    Delivered(hasCallback, events);
    k := FragmentWasSent(hasCallback, events, i);
  }

  lemma {:induction false} FragmentWasSent(hasCallback: bool, events: seq<Event>, i: nat) returns (k: nat)
    requires IdsFit(events) && i < |AllFragments(Run(hasCallback, events).sent)|
    ensures k < |events| && PieceOfSend(AllFragments(Run(hasCallback, events).sent)[i], events[k])
    decreases |events|
  {
    hide Step, AllFragments, Fragments;
    if events == [] {
      NothingSent(hasCallback);
      assert false;
    } else {
      var init, last := events[..|events| - 1], events[|events| - 1];
      var s, t := Run(hasCallback, init), Run(hasCallback, events);
      if i < |AllFragments(s.sent)| && AllFragments(t.sent)[i] == AllFragments(s.sent)[i] {
        k := FragmentWasSent(hasCallback, init, i);
      } else {
        k := |init|;
        LastSent(s, last, i);
      }
    }
  }

  lemma NothingSent(hasCallback: bool)
    ensures AllFragments(Start(hasCallback).sent) == []
  {
  }

  /** A fragment that was not there before a step is one of the message it sends. */
  lemma LastSent(s: Link, e: Event, i: nat)
    requires IdsFit([e])
    requires i < |AllFragments(Step(s, e).sent)|
    requires i < |AllFragments(s.sent)| ==> AllFragments(Step(s, e).sent)[i] != AllFragments(s.sent)[i]
    ensures PieceOfSend(AllFragments(Step(s, e).sent)[i], e)
  {
    hide Step, AllFragments, Concat, Payloads;
    assert [e][0] == e;
    if e.SendMessage? {
      SendAdds(s, e.msg, e.generatedId);
    } else {
      OthersAdd(s, e);
      assert false;
    }
  }

  /** Steps of the socket as steps of the whole. */
  function OnNetwork(events: seq<Q.Event>): (r: seq<Event>)
    ensures |r| == |events| && forall i :: 0 <= i < |r| ==> r[i] == Network(events[i])
  {
    seq(|events|, i requires 0 <= i < |events| => Network(events[i]))
  }

  lemma {:induction false} OnNetworkRun(hasCallback: bool, before: seq<Event>, events: seq<Q.Event>)
    requires forall i :: 0 <= i < |events| ==> Q.WriteStep(events[i])
    ensures Run(hasCallback, before + OnNetwork(events))
            == Run(hasCallback, before).(conn := Q.Run(Run(hasCallback, before).conn, events))
    decreases |events|
  {
    hide Step, Q.Step;
    var all := before + OnNetwork(events);
    if events == [] {
      assert all == before;
    } else {
      var init, last := events[..|events| - 1], events[|events| - 1];
      OnNetworkRun(hasCallback, before, init);
      assert all[..|all| - 1] == before + OnNetwork(init) && all[|all| - 1] == Network(last);
      hide OnNetwork;
      NetworkStep(Run(hasCallback, before + OnNetwork(init)), last);
    }
  }

  lemma NetworkStep(s: Link, e: Q.Event)
    requires Q.WriteStep(e)
    ensures Step(s, Network(e)) == s.(conn := Q.Step(s.conn, e))
  {
    hide Q.Step;
  }

  lemma {:induction false} UsefulAreWrites(c: Q.Conn, events: seq<Q.Event>)
    requires Q.UsefulWrites(c, events)
    ensures forall i :: 0 <= i < |events| ==> Q.WriteStep(events[i])
    decreases |events|
  {
    hide Q.Step, Q.Run, Q.WriteStep;
    if events != [] {
      UsefulAreWrites(c, events[..|events| - 1]);
    }
  }

  /** Everything accepted can arrive: from every reachable state with an open connection, steps of the socket and one
      read of the peer alone lead to a state in which the peer has decoded every fragment of every accepted message. */
  lemma CanArrive(hasCallback: bool, events: seq<Event>) returns (more: seq<Event>)
    requires !Run(hasCallback, events).conn.closed
    ensures forall i :: 0 <= i < |more| ==> more[i].PeerRead? || (more[i].Network? && Q.WriteStep(more[i].e))
    ensures var s, t := Run(hasCallback, events), Run(hasCallback, events + more);
            t.sent == s.sent && !t.conn.closed && t.peer == Receiver([], AllFragments(s.sent))
  {
    hide Inv, Step, Q.Step, Q.Inv, Q.WriteStep, AllFragments;
    var s := Run(hasCallback, events);
    RunInv(hasCallback, events);
    ConnInv(s);
    var writes := Q.Drain(s.conn, []);
    Q.Drains(s.conn, writes);
    UsefulAreWrites(s.conn, writes);
    OnNetworkRun(hasCallback, events, writes);
    var written := events + OnNetwork(writes);
    var w := Run(hasCallback, written);
    RunInv(hasCallback, written);
    ConnInv(w);
    var read := PeerRead(|w.conn.wire| - w.taken);
    more := OnNetwork(writes) + [read];
    assert (events + more)[..|events + more| - 1] == written && (events + more)[|written|] == read;
    ReadRest(w);
    Delivered(hasCallback, events + more);
  }

  lemma ConnInv(s: Link)
    requires Inv(s)
    ensures Q.Inv(s.conn) && s.taken <= |s.conn.wire|
  {
    hide Q.Inv;
  }

  lemma ReadRest(s: Link)
    requires s.taken <= |s.conn.wire|
    ensures var t := Step(s, PeerRead(|s.conn.wire| - s.taken));
            t.conn == s.conn && t.sent == s.sent && t.taken == |t.conn.wire|
  {
    hide Receive;
  }

  /** The same with a client session as the peer: however what is on the wire is cut into reads, unless one of them
      does not fit the buffer the session hands its gateway some of the fragments of the accepted messages, in send
      order and none twice, and a beginning of them all if no read is lossy. */
  lemma DeliveredToGateway(hasCallback: bool, events: seq<Event>, pieces: seq<seq<Byte>>)
    requires Concat(pieces) <= Run(hasCallback, events).conn.wire
    ensures var s := Run(hasCallback, events); var inbox := Session.OnRecvAll(pieces);
            && (inbox.overflowed <==> !Session.Fits(Frames(s.sent), pieces))
            && (!inbox.overflowed ==> Sublist(inbox.delivered, AllFragments(s.sent)))
            && (!inbox.overflowed && Session.Lossless(Frames(s.sent), pieces) ==>
                  inbox.delivered <= AllFragments(s.sent))
  {
    hide ReadsInside, Rest, Messages, Concat, Frames, AllFragments, FrameMessages, AllFrames, AllAccepted, Run, Q.Inv;
    hide Session.OnRecvAll, Session.Lossless, Session.Fits, Sublist;
    var s := Run(hasCallback, events);
    var fs, p := Frames(s.sent), Concat(pieces);
    RunInv(hasCallback, events);
    FramesOfMessages(s.sent);
    assert s.conn.wire[..|p|] == p;
    WirePrefix(s.conn, fs, |p|);
    Session.Delivery(fs, pieces);
    DecodedPart(fs, p);
    if Session.Fits(fs, pieces) {
      SublistOfPrefix(Session.OnRecvAll(pieces).delivered, Messages(p), AllFragments(s.sent));
    }
  }

  /** On every run, reads of at most 4096 bytes of what is on the wire fit the buffer, and the next such read meets
      what `OnSocketRecv` requires: room in the buffer, and a decoder that stays inside it. */
  lemma ReadsFit(hasCallback: bool, events: seq<Event>, pieces: seq<seq<Byte>>, read: seq<Byte>)
    requires Concat(pieces) + read <= Run(hasCallback, events).conn.wire
    requires SmallReads(pieces) && |read| <= Session.READ_SIZE
    ensures Session.Fits(Frames(Run(hasCallback, events).sent), pieces)
    ensures var inbox := Session.OnRecvAll(pieces);
            && !inbox.overflowed && |inbox.kept| + |read| <= Session.BUFFER_SIZE
            && ReadsInside(inbox.kept + read)
  {
    hide ReadsInside, Concat, Frames, AllFrames, AllAccepted, Run, Q.Inv, SmallFrames, SmallReads, FramesUpTo;
    hide Session.OnRecvAll, Session.Fits, PeerHolds;
    var s := Run(hasCallback, events);
    var fs, p := Frames(s.sent), Concat(pieces);
    RunInv(hasCallback, events);
    FramesSmall(s.sent);
    FramesOfMessages(s.sent);
    assert s.conn.wire[..|p + read|] == p + read;
    WirePrefix(s.conn, fs, |p + read|);
    BufferBound(fs, pieces, read);
    PrefixTake(p, read, Concat(fs));
    SmallAreSafe(fs);
    SafeFramesFit(fs, pieces);
  }

  lemma {:induction false} FramesSmall(msgs: seq<EncodeMessage>)
    requires AllAccepted(msgs)
    ensures SmallFrames(Frames(msgs))
    decreases |msgs|
  {
    hide IsFrame, DataFrames, Accepted, TotalFrames;
    if msgs != [] {
      var init, last := msgs[..|msgs| - 1], msgs[|msgs| - 1];
      FramesSmall(init);
      EncoderFramesSmall(last);
      FramesOfMessages(msgs);
    }
  }

  lemma SublistOfPrefix<T>(a: seq<T>, b: seq<T>, c: seq<T>)
    requires Sublist(a, b) && b <= c
    ensures Sublist(a, c)
  {
    SublistMore(a, b, c[|b|..]);
    assert b + c[|b|..] == c;
  }

  /** Decoding a beginning of a stream gives a beginning of its messages; decoding all of it gives them all. */
  lemma DecodedPart(fs: seq<seq<Byte>>, p: seq<Byte>)
    requires AllFrames(fs) && p <= Concat(fs)
    ensures ReadsInside(p) && Messages(p) <= FrameMessages(fs)
    ensures p == Concat(fs) ==> Messages(p) == FrameMessages(fs) && Rest(p) == []
  {
    hide ReadsInside, Rest, Messages, Concat, IsFrame, Completed, FrameMessages, ProperPrefix;
    DecodeCut(fs, p);
    var k := Completed(fs, |p|);
    SplitAt(fs, k);
    FramesSplit(fs, k);
    hide AllFrames;
    FrameMessagesAppend(fs[..k], fs[k..]);
    Q.PrefixExtends(FrameMessages(fs[..k]), FrameMessages(fs[..k]), FrameMessages(fs[k..]));
    if p == Concat(fs) {
      NothingWaits();
      FramesFirst(fs, []);
      NothingMore(Concat(fs));
      NothingMore(FrameMessages(fs));
    }
  }
}
