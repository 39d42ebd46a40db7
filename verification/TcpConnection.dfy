/** The strand-serialised write queue of `TcpConnection`. Strand tasks and completion handlers are atomic
    steps; the socket takes the bytes of the outstanding write a few at a time. */
module WriteQueue {
  import opened Bytes

  /** A write handed to the socket and how many of its bytes are on the wire. */
  datatype Write = Write(data: seq<Byte>, sent: nat)

  /** `outstanding` lists the writes handed to the socket that have not completed; nothing in the socket keeps it
      from being several, whose bytes then mix on the wire. `accepted` and `done` record the payloads queued and the
      payloads whose write completed; `wire` is what the socket has sent; `notified` counts the calls of the close
      callback. */
  datatype Conn = Conn(
    started: bool, closed: bool, queue: seq<seq<Byte>>, outstanding: seq<Write>, hasCallback: bool,
    accepted: seq<seq<Byte>>, done: seq<seq<Byte>>, wire: seq<Byte>, notified: nat)

  datatype Event =
    | Start
    | SendTask(payload: seq<Byte>)
    | Transmit(i: nat, n: nat)
    | WriteDone(i: nat)
    | WriteFailed(i: nat)
    | ReadFailed
    | CloseTask

  function Fresh(hasCallback: bool): Conn {
    Conn(false, false, [], [], hasCallback, [], [], [], 0)
  }

  /** `DoWrite` hands the front payload to the socket, whether or not a write is outstanding. */
  function DoWrite(c: Conn): Conn {
    if c.closed || c.queue == [] then c else c.(outstanding := c.outstanding + [Write(c.queue[0], 0)])
  }

  /** The writes without the `i`-th. */
  function Others(writes: seq<Write>, i: nat): seq<Write>
    requires i < |writes|
  {
    writes[..i] + writes[i + 1..]
  }

  function DoClose(c: Conn): Conn {
    if c.closed then c
    else c.(closed := true, queue := [], hasCallback := false, notified := c.notified + if c.hasCallback then 1 else 0)
  }

  /** One step. An event that cannot happen changes nothing: the socket sends only bytes of an outstanding write
      while it is open, and a write completes once all its bytes are sent. A write that outlives `DoClose`
      completes with an error, as its socket is closed. */
  function Step(c: Conn, e: Event): Conn {
    match e
    case Start => if c.started || c.closed then c else c.(started := true)
    case SendTask(payload) =>
      if c.closed then c
      else
        var queued := c.(queue := c.queue + [payload], accepted := c.accepted + [payload]);
        if c.queue == [] then DoWrite(queued) else queued
    case Transmit(i, n) =>
      if c.closed || i >= |c.outstanding| || c.outstanding[i].sent + n > |c.outstanding[i].data| then c
      else
        var Write(data, sent) := c.outstanding[i];
        c.(wire := c.wire + data[sent..sent + n], outstanding := c.outstanding[i := Write(data, sent + n)])
    case WriteDone(i) =>
      if c.closed || i >= |c.outstanding| || c.outstanding[i].sent != |c.outstanding[i].data| || c.queue == [] then c
      else
        var popped := c.(queue := c.queue[1..], outstanding := Others(c.outstanding, i),
                         done := c.done + [c.outstanding[i].data]);
        if popped.queue == [] then popped else DoWrite(popped)
    case WriteFailed(i) =>
      if i >= |c.outstanding| then c else DoClose(c.(outstanding := Others(c.outstanding, i)))
    case ReadFailed => DoClose(c)
    case CloseTask => DoClose(c)
  }

  function Run(c: Conn, events: seq<Event>): Conn {
    if events == [] then c else Step(Run(c, events[..|events| - 1]), events[|events| - 1])
  }

  /** What every reachable state satisfies. */
  ghost predicate Inv(c: Conn) {
    && c.wire <= Concat(c.accepted)
    && c.notified + (if c.hasCallback then 1 else 0) <= 1
    && |c.outstanding| <= 1
    && (c.closed ==> c.queue == [] && !c.hasCallback)
    && (!c.closed ==>
          && |c.outstanding| == (if c.queue == [] then 0 else 1)
          && (c.queue != [] ==> c.outstanding[0].data == c.queue[0] && c.outstanding[0].sent <= |c.queue[0]|)
          && c.accepted == c.done + c.queue
          && c.wire == Concat(c.done) + if c.queue == [] then [] else c.queue[0][..c.outstanding[0].sent])
  }

  lemma PrefixExtends<T>(a: seq<T>, b: seq<T>, c: seq<T>)
    requires a <= b
    ensures a <= b + c
  {
  }

  lemma SentPart(done: seq<seq<Byte>>, queue: seq<seq<Byte>>, n: nat)
    requires queue != [] && n <= |queue[0]|
    ensures Concat(done) + queue[0][..n] <= Concat(done + queue)
  {
    ConcatAppend(done, queue);
    ConcatFirst(queue, 0);
    hide Concat;
    PrefixInside(Concat(done), queue[0], n, Concat(queue[1..]));
  }

  lemma FreshInv(hasCallback: bool)
    ensures Inv(Fresh(hasCallback))
  {
    NothingMore<seq<Byte>>([]);
    assert Concat<Byte>([]) == [];
  }

  lemma TakeNone<T>(s: seq<T>)
    ensures s[..0] == []
  {
  }

  lemma SendInv(c: Conn, payload: seq<Byte>)
    requires Inv(c) && !c.closed
    ensures Inv(Step(c, SendTask(payload)))
  {
    hide Concat;
    ConcatSnoc(c.accepted, payload);
    PrefixExtends(c.wire, Concat(c.accepted), payload);
    if c.queue == [] {
      NothingMore([payload]);
      NothingMore(c.done);
      TakeNone(payload);
      NothingMore(Concat(c.done));
    } else {
      Regroup(c.done, c.queue, [payload]);
      assert (c.queue + [payload])[0] == c.queue[0];
    }
  }

  lemma TransmitInv(c: Conn, i: nat, n: nat)
    requires Inv(c)
    ensures Inv(Step(c, Transmit(i, n)))
  {
    hide Concat;
    if Step(c, Transmit(i, n)) != c {
      var Write(data, sent) := c.outstanding[i];
      TakeMore(data, sent, n);
      Regroup(Concat(c.done), data[..sent], data[sent..sent + n]);
      SentPart(c.done, c.queue, sent + n);
    }
  }

  lemma WriteDoneInv(c: Conn, i: nat)
    requires Inv(c)
    ensures Inv(Step(c, WriteDone(i)))
  {
    hide Concat;
    var d := Step(c, WriteDone(i));
    if d != c {
      var front := c.queue[0];
      assert Others(c.outstanding, i) == [];
      assert c.queue == [front] + c.queue[1..];
      Regroup(c.done, [front], c.queue[1..]);
      ConcatSnoc(c.done, front);
      assert front[..|front|] == front;
      if d.queue != [] {
        assert d.queue[0][..0] == [];
      }
    }
  }

  lemma StepInv(c: Conn, e: Event)
    requires Inv(c)
    ensures Inv(Step(c, e))
  {
    match e
    case Start =>
    case SendTask(payload) => if !c.closed { SendInv(c, payload); }
    case Transmit(i, n) => TransmitInv(c, i, n);
    case WriteDone(i) => WriteDoneInv(c, i);
    case WriteFailed(_) =>
    case ReadFailed =>
    case CloseTask =>
  }

  /** The write queue in every reachable state: while the connection is open the number of outstanding writes is 1
      if the queue is non-empty and 0 if it is empty, the one write is that of the front payload, and completed
      payloads followed by queued ones are the accepted ones in order; open or closed, there is at most one
      outstanding write, the wire carries a beginning of the accepted bytes, and the close callback has been called
      at most once. */
  lemma {:induction false} RunInv(hasCallback: bool, events: seq<Event>)
    ensures Inv(Run(Fresh(hasCallback), events))
    decreases |events|
  {
    hide Inv, Step;
    if events == [] {
      FreshInv(hasCallback);
    } else {
      RunInv(hasCallback, events[..|events| - 1]);
      StepInv(Run(Fresh(hasCallback), events[..|events| - 1]), events[|events| - 1]);
    }
  }

  /** A close, however it comes, is final, empties the queue and calls a callback that was set exactly once. */
  lemma ClosedOnce(hasCallback: bool, before: seq<Event>, e: Event, after: seq<Event>)
    requires e.ReadFailed? || e.CloseTask? || (e.WriteFailed? && e.i < |Run(Fresh(hasCallback), before).outstanding|)
    ensures var c := Run(Run(Fresh(hasCallback), before + [e]), after);
            && c.closed && c.queue == [] && c.notified == (if hasCallback then 1 else 0)
            && c.wire == Run(Fresh(hasCallback), before + [e]).wire
  {
    var c := Run(Fresh(hasCallback), before);
    assert (before + [e])[..|before|] == before;
    NotifiedCount(hasCallback, before);
    RunInv(hasCallback, before + [e]);
    StaysClosed(Step(c, e), after);
  }

  /** A write whose bytes are all sent would pop an empty queue, if it completed without an error, exactly when the
      connection has been closed in the meantime. */
  lemma PopsEmptyIff(hasCallback: bool, events: seq<Event>, i: nat)
    requires var c := Run(Fresh(hasCallback), events);
             i < |c.outstanding| && c.outstanding[i].sent == |c.outstanding[i].data|
    ensures var c := Run(Fresh(hasCallback), events); c.queue == [] <==> c.closed
  {
    RunInv(hasCallback, events);
    hide Run;
  }

  /** A payload is sent, and the connection closed before the completion of its write. */
  lemma SentThenClosed()
    ensures var c := Run(Fresh(true), [SendTask([0]), Transmit(0, 1), CloseTask]);
            c.outstanding == [Write([0], 1)] && c.queue == [] && c.closed && c.wire == [0]
  {
    var one, two := [SendTask([0])], [SendTask([0]), Transmit(0, 1)];
    var three := [SendTask([0]), Transmit(0, 1), CloseTask];
    assert one[..0] == [] && two[..1] == one && three[..2] == two;
    var c := Run(Fresh(true), one);
    assert c.outstanding == [Write([0], 0)] && !c.closed;
    var d := Run(Fresh(true), two);
    assert d.outstanding == [Write([0], 1)] && d.wire == [0] && !d.closed;
  }

  lemma {:induction false} NotifiedCount(hasCallback: bool, events: seq<Event>)
    ensures var c := Run(Fresh(hasCallback), events);
            && c.hasCallback == (hasCallback && !c.closed)
            && c.notified == if hasCallback && c.closed then 1 else 0
    decreases |events|
  {
    if events != [] {
      var init := events[..|events| - 1];
      NotifiedCount(hasCallback, init);
      NotifiedStep(Run(Fresh(hasCallback), init), events[|events| - 1]);
      hide Step;
    }
  }

  /** A step calls the callback exactly when it closes a connection that has one. */
  lemma NotifiedStep(c: Conn, e: Event)
    ensures var d := Step(c, e);
            && (c.closed ==> d.closed)
            && d.hasCallback == (c.hasCallback && (d.closed ==> c.closed))
            && d.notified == c.notified + if d.closed && !c.closed && c.hasCallback then 1 else 0
  {
  }

  lemma {:induction false} StaysClosed(c: Conn, events: seq<Event>)
    requires c.closed && c.queue == []
    ensures var d := Run(c, events);
            d.closed && d.queue == [] && d.notified == c.notified && d.wire == c.wire && d.accepted == c.accepted
    decreases |events|
  {
    if events != [] {
      StaysClosed(c, events[..|events| - 1]);
    }
  }

  // ---------- What the steps change ----------

  /** Starting sets the flag unless the connection is closed, and nothing else; a second start does nothing. */
  lemma StartOnce(c: Conn)
    ensures var d := Step(c, Start);
            d.started == (c.started || !c.closed) && d.(started := c.started) == c && Step(d, Start) == d
  {
  }

  /** A send on an open connection is accepted behind everything accepted before; it starts a write only if none is
      outstanding. On a closed connection it does nothing. */
  lemma SendQueues(c: Conn, payload: seq<Byte>)
    requires Inv(c)
    ensures var d := Step(c, SendTask(payload));
            if c.closed then d == c
            else
              && d.accepted == c.accepted + [payload] && d.queue == c.queue + [payload]
              && d.outstanding == (if c.outstanding == [] then [Write(payload, 0)] else c.outstanding)
              && d.wire == c.wire && d.done == c.done && d.notified == c.notified && !d.closed
  {
  }

  /** The completion of a write that has been sent in full takes its payload off the queue and starts the write of
      the next one, if there is one. */
  lemma WriteDonePops(c: Conn, i: nat)
    requires Inv(c) && !c.closed && i < |c.outstanding| && c.outstanding[i].sent == |c.outstanding[i].data|
    ensures c.queue != []
    ensures var d := Step(c, WriteDone(i));
            && d.done == c.done + [c.queue[0]] && d.queue == c.queue[1..]
            && d.outstanding == (if |c.queue| == 1 then [] else [Write(c.queue[1], 0)])
            && d.wire == c.wire && d.accepted == c.accepted && d.notified == c.notified && !d.closed
  {
    assert Others(c.outstanding, i) == [];
  }

  /** The failure of an outstanding write takes it from the socket and closes the connection; a failure of no
      outstanding write does nothing. */
  lemma WriteFailedCloses(c: Conn, i: nat)
    requires Inv(c)
    ensures var d := Step(c, WriteFailed(i));
            if c.outstanding == [] || i > 0 then d == c
            else
              && d.closed && d.queue == [] && d.outstanding == []
              && d.wire == c.wire && d.accepted == c.accepted && d.done == c.done
  {
  }

  // ---------- Everything accepted can be written ----------

  /** The socket sends at least a byte, or a write completes. */
  predicate WriteStep(e: Event) {
    (e.Transmit? && e.n > 0) || e.WriteDone?
  }

  /** The bytes not sent yet and the completions still due. */
  function Work(c: Conn): int {
    |Concat(c.accepted)| - |c.wire| + |c.queue|
  }

  lemma WorkLeft(c: Conn)
    requires Inv(c)
    ensures Work(c) >= 0
  {
  }

  /** A step of the socket that changes the connection uses up work and loses nothing. */
  lemma WriteWorks(c: Conn, e: Event)
    requires Inv(c) && !c.closed && WriteStep(e) && Step(c, e) != c
    ensures var d := Step(c, e); Inv(d) && !d.closed && d.accepted == c.accepted && Work(d) < Work(c)
  {
    StepInv(c, e);
    hide Inv, Concat;
  }

  /** As long as a payload is queued the socket can take a step. */
  lemma SomeWriteRuns(c: Conn) returns (e: Event)
    requires Inv(c) && !c.closed && c.queue != []
    ensures WriteStep(e) && Step(c, e) != c
  {
    var Write(data, sent) := c.outstanding[0];
    if sent < |data| {
      e := Transmit(0, 1);
      assert |Step(c, e).wire| == |c.wire| + 1;
    } else {
      e := WriteDone(0);
      WriteDonePops(c, 0);
    }
  }

  /** Every event is a step of the socket that changes the connection. */
  predicate UsefulWrites(c: Conn, events: seq<Event>)
    decreases |events|
  {
    events == [] ||
    var init, last := events[..|events| - 1], events[|events| - 1];
    UsefulWrites(c, init) && WriteStep(last) && Step(Run(c, init), last) != Run(c, init)
  }

  /** Left to the socket, in any order and in parts of any size, an open connection cannot take more steps than there
      is work, and cannot stop before every accepted payload is on the wire and completed. */
  lemma {:induction false} Drains(c: Conn, events: seq<Event>)
    requires Inv(c) && !c.closed && UsefulWrites(c, events)
    ensures var d := Run(c, events);
            && Inv(d) && !d.closed && d.accepted == c.accepted && |events| <= Work(c) - Work(d)
            && (if d.queue == [] then d.wire == Concat(c.accepted) && d.done == c.accepted && d.outstanding == []
                else exists e :: WriteStep(e) && Step(d, e) != d)
    decreases |events|
  {
    hide Step, Work, Inv, Concat;
    if events != [] {
      var init, last := events[..|events| - 1], events[|events| - 1];
      Drains(c, init);
      WriteWorks(Run(c, init), last);
    }
    var d := Run(c, events);
    if d.queue == [] {
      AllWritten(d);
    } else {
      var e := SomeWriteRuns(d);
    }
  }

  lemma AllWritten(c: Conn)
    requires Inv(c) && !c.closed && c.queue == []
    ensures c.wire == Concat(c.accepted) && c.done == c.accepted && c.outstanding == []
  {
    NothingMore(c.done);
    NothingMore(Concat(c.done));
    hide Concat;
  }

  /** So from every open state the socket alone can write everything. */
  lemma {:induction false} Drain(c: Conn, before: seq<Event>) returns (events: seq<Event>)
    requires Inv(c) && !c.closed && UsefulWrites(c, before)
    ensures UsefulWrites(c, events) && Run(c, events).queue == []
    decreases Work(Run(c, before))
  {
    hide Step, Work, Inv, WriteStep;
    Drains(c, before);
    var d := Run(c, before);
    if d.queue == [] {
      events := before;
    } else {
      var e := SomeWriteRuns(d);
      WorkLeft(d);
      WriteWorks(d, e);
      assert (before + [e])[..|before|] == before;
      events := Drain(c, before + [e]);
    }
  }

  /** The connection object. Its socket is modelled by `outstanding` and `wire`. */
  class TcpConnection {
    var started: bool
    var closed: bool
    var writeQ: seq<seq<Byte>>
    var closeCallback: bool
    var outstanding: seq<Write>
    var wire: seq<Byte>
    ghost var accepted: seq<seq<Byte>>
    ghost var done: seq<seq<Byte>>
    ghost var notified: nat

    ghost function State(): Conn
      reads this
    {
      Conn(started, closed, writeQ, outstanding, closeCallback, accepted, done, wire, notified)
    }

    ghost predicate Valid()
      reads this
    {
      Inv(State())
    }

    constructor (withCallback: bool)
      ensures State() == Fresh(withCallback) && Valid()
    {
      started, closed, writeQ, closeCallback, outstanding, wire := false, false, [], withCallback, [], [];
      accepted, done, notified := [], [], 0;
    }

    method StartTask()
      requires Valid()
      modifies this
      ensures State() == Step(old(State()), Start) && Valid()
    {
      if started || closed {
        return;
      }
      started := true;
    }

    method Send(payload: seq<Byte>)
      requires Valid()
      modifies this
      ensures State() == Step(old(State()), SendTask(payload)) && Valid()
    {
      StepInv(State(), SendTask(payload));
      if closed {
        return;
      }
      var writeInProgress := writeQ != [];
      writeQ := writeQ + [payload];
      accepted := accepted + [payload];
      if !writeInProgress {
        StartWrite();
      }
    }

    /** `DoWrite`. There is only one `async_write` at a time: none is outstanding when it is called. */
    method StartWrite()
      requires outstanding == []
      modifies this`outstanding
      ensures State() == DoWrite(old(State()))
    {
      if closed || writeQ == [] {
        return;
      }
      outstanding := outstanding + [Write(writeQ[0], 0)];
    }

    /** The handler of a write that completed without an error, while the connection is open. */
    method OnWriteDone(i: nat)
      requires Valid() && !closed && i < |outstanding| && outstanding[i].sent == |outstanding[i].data|
      modifies this
      ensures State() == Step(old(State()), WriteDone(i)) && Valid()
    {
      StepInv(State(), WriteDone(i));
      done := done + [outstanding[i].data];
      outstanding := Others(outstanding, i);
      writeQ := writeQ[1..];
      if writeQ != [] {
        StartWrite();
      }
    }

    method OnWriteFailed(i: nat)
      requires Valid() && i < |outstanding|
      modifies this
      ensures State() == Step(old(State()), WriteFailed(i)) && Valid()
    {
      StepInv(State(), WriteFailed(i));
      outstanding := Others(outstanding, i);
      CloseNow();
    }

    /** `Close` on the strand. */
    method Close()
      requires Valid()
      modifies this
      ensures State() == DoClose(old(State())) && Valid()
    {
      StepInv(State(), CloseTask);
      CloseNow();
    }

    /** `DoClose(true)` */
    method CloseNow()
      modifies this
      ensures State() == DoClose(old(State()))
    {
      if closed {
        return;
      }
      closed := true;
      writeQ := [];
      if closeCallback {
        closeCallback := false;
        notified := notified + 1;
      }
    }
  }
}
