/** The session table and the close handshake under every interleaving. Locked sections, strand tasks and the
    pieces of a `CloseSession` call between them are the atomic steps. */
module SessionProtocol {
  import opened Collections

  const MAX_CONNECTIONS: nat := 1000
  const HEARTBEAT_TIMEOUT := 30
  const ID_LIMIT: nat := 0x1_0000_0000

  /** What a connection's strand is in the middle of: nothing; `DoClose` about to call `CloseSession` through the
      close callback; a `CloseSession` on the strand that has erased the session and is about to close the
      connection; or one that is about to run the session-close handler it copied, if there was one. */
  datatype Phase = Idle | Notifying | Erased(handler: bool) | CallingBack(handler: bool)

  /** A `CloseSession` call on another thread that has erased the session: about to close the connection, or
      about to run the handler. */
  datatype Call = NoCall | Closing(handler: bool) | Calling(handler: bool)

  /** One session identifier ever allocated to a session: whether it is a key of each of the two maps, its last
      heartbeat, its connection, and the call that erased it. `closeTasks` counts close tasks posted to the
      strand, `notified` the calls of the close callback, `closeRuns` the runs of the session-close handler.
      `finished` records that the `CloseSession` that erased the session is over, `armed` whether a handler was
      set when it erased it. */
  datatype Entry = Entry(
    inSessions: bool, inHeartbeats: bool, heartbeat: int,
    closed: bool, hasCallback: bool, strand: Phase, closeTasks: nat, call: Call,
    notified: nat, closeRuns: nat, finished: bool, armed: bool)

  /** `pending` are the identifiers allocated by a `CreateSession` that has not come to its locked section yet;
      `expired` is the part of a heartbeat sweep's list that it has not closed yet. */
  datatype State = State(
    nextId: nat, pending: set<nat>, entries: map<nat, Entry>, handlerSet: bool, expired: seq<nat>)

  /** Steps of one session. */
  datatype Local =
    | Heartbeat(now: int)
    | PostClose
    | RunClose(queued: bool)
    | NotifyLock
    | StrandLock
    | StrandClose
    | StrandCallback
    | ThreadLock
    | ThreadClose
    | ThreadCallback

  datatype Event =
    | Allocate
    | Insert(sid: nat, now: int)
    | SetHandler(on: bool)
    | At(sid: nat, local: Local)
    | SweepTake(order: seq<nat>, now: int)
    | SweepClose

  const Init := State(1, {}, map[], false, [])

  function NewEntry(now: int): Entry {
    Entry(true, true, now, false, true, Idle, 0, NoCall, 0, 0, false, false)
  }

  /** `DoClose` up to the call of the close callback, which the strand is left about to make. */
  function DoClose(e: Entry): Entry {
    if e.closed then e
    else if e.hasCallback then e.(closed := true, hasCallback := false, notified := e.notified + 1, strand := Notifying)
    else e.(closed := true)
  }

  /** The locked section of `CloseSession` for a session in the table. */
  function Erase(e: Entry, handlerSet: bool): Entry {
    e.(inSessions := false, inHeartbeats := false, armed := handlerSet)
  }

  /** The session-close handler, if the call has one, and the end of the call. */
  function Finish(e: Entry, handler: bool): Entry {
    e.(closeRuns := e.closeRuns + if handler then 1 else 0, finished := true)
  }

  /** One step of a session; a step that cannot happen changes nothing. */
  function LocalStep(e: Entry, step: Local, handlerSet: bool): Entry {
    match step
    case Heartbeat(now) => if e.inSessions then e.(heartbeat := now, inHeartbeats := true) else e
    case PostClose => e.(closeTasks := e.closeTasks + 1)
    case RunClose(queued) =>
      if !e.strand.Idle? || (queued && e.closeTasks == 0) then e
      else DoClose(if queued then e.(closeTasks := e.closeTasks - 1) else e)
    case NotifyLock =>
      if !e.strand.Notifying? then e
      else if !e.inSessions then e.(strand := Idle)
      // `removed->Close()` runs `DoClose` at once, which returns because the connection is closed.
      else Erase(e, handlerSet).(strand := CallingBack(handlerSet))
    case StrandLock =>
      if !e.strand.Idle? || !e.inSessions then e else Erase(e, handlerSet).(strand := Erased(handlerSet))
    case StrandClose =>
      // The close callback calls `CloseSession` again, which finds the session gone and returns.
      if !e.strand.Erased? then e else DoClose(e).(strand := CallingBack(e.strand.handler))
    case StrandCallback =>
      if !e.strand.CallingBack? then e else Finish(e, e.strand.handler).(strand := Idle)
    case ThreadLock => if !e.inSessions then e else Erase(e, handlerSet).(call := Closing(handlerSet))
    case ThreadClose =>
      if !e.call.Closing? then e else e.(closeTasks := e.closeTasks + 1, call := Calling(e.call.handler))
    case ThreadCallback => if !e.call.Calling? then e else Finish(e, e.call.handler).(call := NoCall)
  }

  /** The keys of `sessions_`. */
  function Sessions(s: State): set<nat> {
    set sid | sid in s.entries && s.entries[sid].inSessions
  }

  /** `last_heartbeat_at_` */
  function Heartbeats(s: State): map<nat, int> {
    map sid | sid in s.entries && s.entries[sid].inHeartbeats :: s.entries[sid].heartbeat
  }

  function Expired(s: State, now: int): set<nat> {
    set sid | sid in Sessions(s) && sid in Heartbeats(s) && now - Heartbeats(s)[sid] > HEARTBEAT_TIMEOUT
  }

  function Apply(s: State, sid: nat, step: Local): State {
    if sid in s.entries then s.(entries := s.entries[sid := LocalStep(s.entries[sid], step, s.handlerSet)]) else s
  }

  /** One step of the system. Runs end where identifiers would wrap around. */
  function Step(s: State, e: Event): State {
    match e
    case Allocate =>
      if s.nextId >= ID_LIMIT then s else s.(nextId := s.nextId + 1, pending := s.pending + {s.nextId})
    case Insert(sid, now) =>
      if sid !in s.pending then s
      else if |Sessions(s)| >= MAX_CONNECTIONS || sid in Sessions(s) then s.(pending := s.pending - {sid})
      else s.(pending := s.pending - {sid}, entries := s.entries[sid := NewEntry(now)])
    case SetHandler(on) => s.(handlerSet := on)
    case At(sid, step) => Apply(s, sid, step)
    case SweepTake(order, now) =>
      if s.expired == [] && (set sid | sid in order) == Expired(s, now) then s.(expired := order) else s
    case SweepClose =>
      if s.expired == [] then s
      else Apply(s.(expired := s.expired[1..]), s.expired[0], ThreadLock)
  }

  function Run(s: State, events: seq<Event>): State {
    if events == [] then s else Step(Run(s, events[..|events| - 1]), events[|events| - 1])
  }

  // ---------- Invariant ----------

  /** A session is in both maps or in neither. One in the table has no call and closes only through its own
      strand; one out of it was erased by exactly one call, which is on the strand, on another thread, or over;
      and unless the connection is closed someone is about to close it. */
  predicate EntryInv(e: Entry) {
    && e.inSessions == e.inHeartbeats
    && e.notified == (if e.closed then 1 else 0)
    && e.hasCallback == !e.closed
    && e.closeRuns == (if e.finished && e.armed then 1 else 0)
    && (e.strand.Notifying? ==> e.closed)
    && (e.inSessions ==>
          e.call.NoCall? && !e.finished && (e.strand.Idle? || e.strand.Notifying?) && e.closed == e.strand.Notifying?)
    && (!e.inSessions ==>
          && (e.finished || !e.call.NoCall? ==> e.strand.Idle? || e.strand.Notifying?)
          && (e.finished ==> e.call.NoCall?)
          && (!e.call.NoCall? ==> e.call.handler == e.armed)
          && (!e.finished && e.call.NoCall? ==> (e.strand.Erased? || e.strand.CallingBack?) && e.strand.handler == e.armed)
          && (!e.closed ==> e.closeTasks > 0 || e.strand.Erased? || e.call.Closing?))
  }

  ghost predicate Inv(s: State) {
    && 1 <= s.nextId <= ID_LIMIT
    && |Sessions(s)| <= MAX_CONNECTIONS
    && (forall sid :: sid in s.pending ==> 1 <= sid < s.nextId && sid !in s.entries)
    && (forall sid :: sid in s.entries ==> 1 <= sid < s.nextId && EntryInv(s.entries[sid]))
  }

  lemma LocalInv(e: Entry, step: Local, handlerSet: bool)
    requires EntryInv(e)
    ensures EntryInv(LocalStep(e, step, handlerSet))
    ensures LocalStep(e, step, handlerSet).inSessions ==> e.inSessions
  {
  }

  lemma ApplyInv(s: State, sid: nat, step: Local)
    requires Inv(s)
    ensures Inv(Apply(s, sid, step)) && Sessions(Apply(s, sid, step)) <= Sessions(s)
  {
    hide EntryInv, LocalStep;
    if sid in s.entries {
      LocalInv(s.entries[sid], step, s.handlerSet);
      SubsetSize(Sessions(Apply(s, sid, step)), Sessions(s));
    }
  }

  lemma StepInv(s: State, e: Event)
    requires Inv(s)
    ensures Inv(Step(s, e))
  {
    hide EntryInv, LocalStep;
    match e
    case Allocate =>
      assert Sessions(Step(s, e)) == Sessions(s);
    case Insert(sid, now) => InsertInv(s, sid, now);
    case SetHandler(on) =>
      assert Sessions(Step(s, e)) == Sessions(s);
    case At(sid, step) => ApplyInv(s, sid, step);
    case SweepTake(order, now) =>
    case SweepClose =>
      if s.expired != [] {
        var t := s.(expired := s.expired[1..]);
        OtherList(s, t);
        ApplyInv(t, s.expired[0], ThreadLock);
      }
  }

  lemma InsertInv(s: State, sid: nat, now: int)
    requires Inv(s)
    ensures Inv(Step(s, Insert(sid, now)))
  {
    InsertSessions(s, sid, now);
    if sid in s.pending && |Sessions(s)| < MAX_CONNECTIONS {
      InsertEntry(s, sid, now);
    } else {
      hide EntryInv, Sessions, NewEntry;
    }
  }

  lemma InsertEntry(s: State, sid: nat, now: int)
    requires Inv(s) && sid in s.pending && |Sessions(s)| < MAX_CONNECTIONS
    ensures Inv(Step(s, Insert(sid, now)))
  {
    assert EntryInv(NewEntry(now)) && sid !in Sessions(s);
    InsertSessions(s, sid, now);
    hide EntryInv, Sessions, NewEntry;
    var t := Step(s, Insert(sid, now));
    assert t.entries == s.entries[sid := NewEntry(now)] && t.pending == s.pending - {sid};
    hide Step;
    assert |Sessions(t)| == |Sessions(s)| + 1;
  }

  lemma InsertSessions(s: State, sid: nat, now: int)
    requires Inv(s)
    ensures Sessions(Step(s, Insert(sid, now)))
            == if sid in s.pending && |Sessions(s)| < MAX_CONNECTIONS then Sessions(s) + {sid} else Sessions(s)
  {
    hide EntryInv;
  }

  lemma {:induction false} RunInv(events: seq<Event>)
    ensures Inv(Run(Init, events))
    decreases |events|
  {
    hide Inv, Step;
    if events == [] {
      InitInv();
    } else {
      RunInv(events[..|events| - 1]);
      StepInv(Run(Init, events[..|events| - 1]), events[|events| - 1]);
    }
  }

  lemma InitInv()
    ensures Inv(Init)
  {
    assert Sessions(Init) == {};
  }

  // ---------- What the steps change ----------

  /** Creates, heartbeats, posted closes and the handler: what each adds to the table, when it is refused, and that it
      leaves everything else alone. */
  lemma StepChanges(s: State, e: Event)
    requires Inv(s)
    ensures var t := Step(s, e);
            match e
            case Allocate =>
              t == if s.nextId <= 0xFFFF_FFFF then s.(nextId := s.nextId + 1, pending := s.pending + {s.nextId}) else s
            case Insert(sid, now) =>
              if sid in s.pending && |Sessions(s)| < 1000 then
                && Sessions(t) == Sessions(s) + {sid} && Heartbeats(t) == Heartbeats(s)[sid := now]
                && Quiet(t.entries[sid]) && !t.entries[sid].closed && t.entries[sid].hasCallback
                && t == s.(pending := s.pending - {sid}, entries := s.entries[sid := t.entries[sid]])
              else t == s.(pending := s.pending - {sid})
            case SetHandler(on) => t == s.(handlerSet := on)
            case At(sid, Heartbeat(now)) =>
              if sid in Sessions(s) then
                && Sessions(t) == Sessions(s) && Heartbeats(t) == Heartbeats(s)[sid := now]
                && t == s.(entries := s.entries[sid := s.entries[sid].(heartbeat := now)])
              else t == s
            case At(sid, PostClose) =>
              if sid in s.entries then
                t == s.(entries := s.entries[sid := s.entries[sid].(closeTasks := s.entries[sid].closeTasks + 1)])
              else t == s
            case SweepTake(order, now) =>
              if s.expired == [] && forall sid :: sid in order <==> sid in Expired(s, now) then t == s.(expired := order)
              else t == s
            case _ => true
  {
    match e
    case Insert(sid, now) => InsertChanges(s, sid, now);
    case At(sid, step) =>
      hide Inv;
      if step.Heartbeat? {
        HeartbeatChanges(s, sid, step.now);
      }
    case SweepTake(order, now) =>
      assert forall sid :: sid in order <==> sid in (set x | x in order);
      hide Expired, Inv;
    case _ =>
  }

  lemma InsertChanges(s: State, sid: nat, now: int)
    requires Inv(s)
    ensures var t := Step(s, Insert(sid, now));
            if sid in s.pending && |Sessions(s)| < 1000 then
              && Sessions(t) == Sessions(s) + {sid} && Heartbeats(t) == Heartbeats(s)[sid := now]
              && Quiet(t.entries[sid]) && !t.entries[sid].closed && t.entries[sid].hasCallback
              && t == s.(pending := s.pending - {sid}, entries := s.entries[sid := t.entries[sid]])
            else t == s.(pending := s.pending - {sid})
  {
    InsertSessions(s, sid, now);
    assert sid in s.pending ==> sid !in Sessions(s);
    hide EntryInv, Inv, NewEntry, Quiet, Heartbeats, Sessions;
    NewHeartbeat(s.(pending := s.pending - {sid}), sid, now);
    NewHeartbeat(s, sid, now);
  }

  lemma NewHeartbeat(s: State, sid: nat, now: int)
    ensures Heartbeats(s.(entries := s.entries[sid := NewEntry(now)])) == Heartbeats(s)[sid := now]
    ensures forall pending :: Heartbeats(s.(pending := pending)) == Heartbeats(s)
    ensures var e := NewEntry(now); Quiet(e) && !e.closed && e.hasCallback
  {
  }

  lemma HeartbeatChanges(s: State, sid: nat, now: int)
    requires Inv(s)
    ensures var t := Step(s, At(sid, Heartbeat(now)));
            if sid in Sessions(s) then
              && Sessions(t) == Sessions(s) && Heartbeats(t) == Heartbeats(s)[sid := now]
              && t == s.(entries := s.entries[sid := s.entries[sid].(heartbeat := now)])
            else t == s
  {
  }

  /** One round of a sweep's closing loop: the first session of the list is erased, if it still is in the table, and
      its call goes on outside the lock; no other session changes. */
  lemma SweepCloseChanges(s: State)
    requires Inv(s) && s.expired != []
    ensures var t := Step(s, SweepClose); var sid := s.expired[0];
            && Inv(t) && t.expired == s.expired[1..] && Sessions(t) == Sessions(s) - {sid}
            && t.entries.Keys == s.entries.Keys && (forall x :: x in s.entries && x != sid ==> t.entries[x] == s.entries[x])
            && (sid in Sessions(s) ==>
                  t.entries[sid] == s.entries[sid].(inSessions := false, inHeartbeats := false, armed := s.handlerSet,
                                                    call := Closing(s.handlerSet)))
            && t.nextId == s.nextId && t.pending == s.pending && t.handlerSet == s.handlerSet
  {
    StepInv(s, SweepClose);
    var rest := s.(expired := s.expired[1..]);
    OtherList(s, rest);
    ThreadLockErases(rest, s.expired[0]);
    hide EntryInv, Inv, Apply, Sessions;
  }

  lemma ThreadLockErases(s: State, sid: nat)
    requires Inv(s)
    ensures var t := Apply(s, sid, ThreadLock);
            && Sessions(t) == Sessions(s) - {sid} && t == s.(entries := t.entries)
            && t.entries.Keys == s.entries.Keys && (forall x :: x in s.entries && x != sid ==> t.entries[x] == s.entries[x])
            && (sid in Sessions(s) ==>
                  t.entries[sid] == s.entries[sid].(inSessions := false, inHeartbeats := false, armed := s.handlerSet,
                                                    call := Closing(s.handlerSet)))
  {
    hide EntryInv;
  }

  function Closes(n: nat): (r: seq<Event>)
    ensures |r| == n && forall i :: 0 <= i < n ==> r[i] == SweepClose
  {
    seq(n, _ => SweepClose)
  }

  lemma {:induction false} SweepRuns(s: State, n: nat)
    requires Inv(s) && n <= |s.expired|
    ensures var t := Run(s, Closes(n));
            && Inv(t) && t.expired == s.expired[n..]
            && forall sid :: sid in Sessions(t) <==> sid in Sessions(s) && sid !in s.expired[..n]
    decreases n
  {
    hide Inv, Step, Sessions;
    if n == 0 {
      assert s.expired[0..] == s.expired;
    } else {
      SweepRuns(s, n - 1);
      assert Closes(n)[..n - 1] == Closes(n - 1);
      SweepCloseChanges(Run(s, Closes(n - 1)));
      assert s.expired[n - 1..][1..] == s.expired[n..] && s.expired[n - 1..][0] == s.expired[n - 1];
      assert s.expired[..n] == s.expired[..n - 1] + [s.expired[n - 1]];
    }
  }

  /** An undisturbed sweep leaves exactly the sessions heard from within 30 seconds, whatever the order of its list. */
  lemma Sweep(s: State, order: seq<nat>, now: int)
    requires Inv(s) && s.expired == [] && forall sid :: sid in order <==> sid in Expired(s, now)
    ensures var t := Run(Step(s, SweepTake(order, now)), Closes(|order|));
            && t.expired == []
            && forall sid :: sid in Sessions(t) <==> sid in Sessions(s) && now - Heartbeats(s)[sid] <= 30
  {
    var taken := Step(s, SweepTake(order, now));
    StepChanges(s, SweepTake(order, now));
    SweepNow(s, now);
    OtherList(s, taken);
    hide Inv, Step, Sessions, Heartbeats, Expired;
    SweepRuns(taken, |order|);
    assert taken.expired[..|order|] == order;
  }

  lemma OtherList(s: State, t: State)
    requires Inv(s) && t == s.(expired := t.expired)
    ensures Inv(t) && Sessions(t) == Sessions(s)
  {
    hide EntryInv;
    assert Sessions(t) == Sessions(s);
  }

  lemma SweepNow(s: State, now: int)
    requires Inv(s)
    ensures Sessions(s) == Heartbeats(s).Keys
    ensures forall sid :: sid in Expired(s, now) <==> sid in Sessions(s) && now - Heartbeats(s)[sid] > 30
  {
  }

  // ---------- Main results ----------

  /** The two maps have the same keys, at most 1000 of them, in every reachable state. */
  lemma TableAgrees(events: seq<Event>)
    ensures var s := Run(Init, events);
            Sessions(s) == Heartbeats(s).Keys && |Sessions(s)| <= 1000
  {
    RunInv(events);
  }

  /** Nothing of the handshake is left to run for a session: no strand work, no posted close, no call. */
  predicate Quiet(e: Entry) {
    e.strand.Idle? && e.closeTasks == 0 && e.call.NoCall?
  }

  /** The close handshake, whichever side starts it and however its steps interleave: the close callback is called
      at most once, the session-close handler at most once, and when nothing is left to run the session is either
      untouched, or closed, out of both maps, its callback called once, and the handler run exactly once if it was
      set when the session was erased. */
  lemma Handshake(events: seq<Event>, sid: nat)
    requires sid in Run(Init, events).entries
    ensures var e := Run(Init, events).entries[sid];
            && e.notified <= 1 && e.closeRuns <= 1
            && (Quiet(e) ==>
                  if e.inSessions then !e.closed && e.inHeartbeats && e.notified == 0 && e.closeRuns == 0
                  else e.closed && !e.inHeartbeats && e.notified == 1 && e.closeRuns == if e.armed then 1 else 0)
  {
    RunInv(events);
  }

  /** The steps that finish what has been started. */
  predicate Internal(step: Local) {
    || step == RunClose(true) || step.NotifyLock? || step.StrandClose? || step.StrandCallback?
    || step.ThreadClose? || step.ThreadCallback?
  }

  /** How much handshake work a session can still cause. */
  function Work(e: Entry): nat {
    (if e.closed then 0 else 4) + e.closeTasks
    + (match e.strand case Idle => 0 case Notifying => 2 case Erased(_) => 2 case CallingBack(_) => 1)
    + (match e.call case NoCall => 0 case Closing(_) => 3 case Calling(_) => 1)
  }

  /** The mutual calls terminate: every step that changes the session uses up work. */
  lemma InternalStepWorks(e: Entry, step: Local, handlerSet: bool)
    requires Internal(step) && LocalStep(e, step, handlerSet) != e
    ensures Work(LocalStep(e, step, handlerSet)) < Work(e)
  {
  }

  /** As long as the session is not quiet some step can be taken. */
  lemma SomeStepRuns(e: Entry, handlerSet: bool) returns (step: Local)
    requires EntryInv(e) && !Quiet(e)
    ensures Internal(step) && LocalStep(e, step, handlerSet) != e
  {
    if e.strand.Notifying? {
      step := NotifyLock;
    } else if e.strand.Erased? {
      step := StrandClose;
    } else if e.strand.CallingBack? {
      step := StrandCallback;
    } else if e.closeTasks > 0 {
      step := RunClose(true);
    } else if e.call.Closing? {
      step := ThreadClose;
    } else {
      step := ThreadCallback;
    }
  }

  function LocalRun(e: Entry, steps: seq<Local>, handlerSet: bool): Entry
    decreases |steps|
  {
    if steps == [] then e else LocalRun(LocalStep(e, steps[0], handlerSet), steps[1..], handlerSet)
  }

  /** Every step is one of those that finish a close, and changes the session. */
  predicate Useful(e: Entry, steps: seq<Local>, handlerSet: bool)
    decreases |steps|
  {
    steps == [] || (
      && Internal(steps[0]) && LocalStep(e, steps[0], handlerSet) != e
      && Useful(LocalStep(e, steps[0], handlerSet), steps[1..], handlerSet))
  }

  /** A close has begun: a task was posted, the connection closed itself, or a `CloseSession` erased the session. */
  predicate Begun(e: Entry) {
    e.closed || !e.inSessions || e.closeTasks > 0
  }

  /** Once a close has begun, running what is left in any order takes at most `Work` steps and cannot get stuck
      before it is done; when it is done the connection is closed and the session out of both maps. */
  lemma {:induction false} CloseCompletes(e: Entry, steps: seq<Local>, handlerSet: bool)
    requires EntryInv(e) && Begun(e) && Useful(e, steps, handlerSet)
    ensures var f := LocalRun(e, steps, handlerSet);
            && |steps| <= Work(e) - Work(f)
            && (if Quiet(f) then f.closed && !f.inSessions && !f.inHeartbeats
                else exists step :: Internal(step) && LocalStep(f, step, handlerSet) != f)
    decreases |steps|
  {
    if steps == [] {
      if !Quiet(e) {
        var step := SomeStepRuns(e, handlerSet);
      }
    } else {
      InternalStepWorks(e, steps[0], handlerSet);
      LocalInv(e, steps[0], handlerSet);
      BegunStays(e, steps[0], handlerSet);
      hide EntryInv, LocalStep, Work, Quiet, Begun;
      CloseCompletes(LocalStep(e, steps[0], handlerSet), steps[1..], handlerSet);
    }
  }

  lemma BegunStays(e: Entry, step: Local, handlerSet: bool)
    requires EntryInv(e) && Begun(e)
    ensures Begun(LocalStep(e, step, handlerSet))
  {
  }

  /** What a completed close leaves of a session that was quiet in the table. */
  function ClosedEntry(e: Entry, handlerSet: bool): Entry {
    e.(inSessions := false, inHeartbeats := false, closed := true, hasCallback := false, finished := true,
       armed := handlerSet, notified := 1, closeRuns := if handlerSet then 1 else 0)
  }

  /** Left alone, the three ways to close a session end in the same state: the connection closing itself,
      `CloseSession` on its strand, and `CloseSession` on another thread with the close task it posts. */
  lemma SameEnd(e: Entry, handlerSet: bool)
    requires EntryInv(e) && Quiet(e) && e.inSessions
    ensures LocalRun(e, [RunClose(false), NotifyLock, StrandCallback], handlerSet) == ClosedEntry(e, handlerSet)
    ensures LocalRun(e, [StrandLock, StrandClose, StrandCallback], handlerSet) == ClosedEntry(e, handlerSet)
    ensures LocalRun(e, [ThreadLock, ThreadClose, RunClose(true), NotifyLock, ThreadCallback], handlerSet)
            == ClosedEntry(e, handlerSet)
  {
    RunThree(e, RunClose(false), NotifyLock, StrandCallback, handlerSet);
    RunThree(e, StrandLock, StrandClose, StrandCallback, handlerSet);
    ThreadEnd(e, handlerSet);
    hide LocalRun;
  }

  lemma ThreadEnd(e: Entry, handlerSet: bool)
    requires EntryInv(e) && Quiet(e) && e.inSessions
    ensures LocalRun(e, [ThreadLock, ThreadClose, RunClose(true), NotifyLock, ThreadCallback], handlerSet)
            == ClosedEntry(e, handlerSet)
  {
    var f := LocalStep(e, ThreadLock, handlerSet);
    var g := LocalStep(f, ThreadClose, handlerSet);
    var last := [RunClose(true), NotifyLock, ThreadCallback];
    RunOne(e, ThreadLock, [ThreadClose] + last, handlerSet);
    RunOne(f, ThreadClose, last, handlerSet);
    assert [ThreadLock, ThreadClose, RunClose(true), NotifyLock, ThreadCallback] == [ThreadLock] + ([ThreadClose] + last);
    RunThree(g, RunClose(true), NotifyLock, ThreadCallback, handlerSet);
    hide LocalRun;
  }

  lemma RunOne(e: Entry, a: Local, rest: seq<Local>, handlerSet: bool)
    ensures LocalRun(e, [a] + rest, handlerSet) == LocalRun(LocalStep(e, a, handlerSet), rest, handlerSet)
  {
    assert ([a] + rest)[1..] == rest;
  }

  lemma RunThree(e: Entry, a: Local, b: Local, c: Local, handlerSet: bool)
    ensures LocalRun(e, [a, b, c], handlerSet)
            == LocalStep(LocalStep(LocalStep(e, a, handlerSet), b, handlerSet), c, handlerSet)
  {
    hide LocalStep;
    var f := LocalStep(e, a, handlerSet);
    RunOne(e, a, [b, c], handlerSet);
    RunOne(f, b, [c], handlerSet);
    RunOne(LocalStep(f, b, handlerSet), c, [], handlerSet);
    assert [a, b, c] == [a] + [b, c] && [b, c] == [b] + [c] && [c] == [c] + [];
  }

  /** Identifiers are never reused: a session that is gone stays gone, however creates that allocated their
      identifiers earlier or later are delayed. */
  lemma {:induction false} NeverReused(before: seq<Event>, after: seq<Event>, sid: nat)
    requires sid in Run(Init, before).entries && sid !in Sessions(Run(Init, before))
    ensures sid in Run(Init, before + after).entries && sid !in Sessions(Run(Init, before + after))
    decreases |after|
  {
    hide Inv, Step, Sessions;
    if after == [] {
      assert before + after == before;
    } else {
      var init, last := after[..|after| - 1], after[|after| - 1];
      assert (before + after)[..|before + after| - 1] == before + init;
      NeverReused(before, init, sid);
      RunInv(before + init);
      StaysGone(Run(Init, before + init), last, sid);
    }
  }

  lemma StaysGone(s: State, e: Event, sid: nat)
    requires Inv(s) && sid in s.entries && sid !in Sessions(s)
    ensures sid in Step(s, e).entries && sid !in Sessions(Step(s, e))
  {
    hide EntryInv, LocalStep;
    match e
    case Allocate =>
    case Insert(_, _) =>
    case SetHandler(on) =>
    case At(x, step) => ApplyInv(s, x, step);
    case SweepTake(order, now) =>
    case SweepClose =>
      if s.expired != [] {
        var t := s.(expired := s.expired[1..]);
        OtherList(s, t);
        ApplyInv(t, s.expired[0], ThreadLock);
      }
  }

  /** The `k`-th event took the sweep's list, and all that is left of it to close was expired at that moment. */
  ghost predicate TakenAfter(events: seq<Event>, k: nat) {
    && k < |events| && events[k].SweepTake?
    && forall sid :: sid in Run(Init, events).expired ==> sid in Expired(Run(Init, events[..k]), events[k].now)
  }

  lemma {:induction false} ListTaken(events: seq<Event>) returns (k: nat)
    requires Run(Init, events).expired != []
    ensures TakenAfter(events, k)
    decreases |events|
  {
    var init, last := events[..|events| - 1], events[|events| - 1];
    var s := Run(Init, init);
    ExpiredStep(s, last);
    if s.expired == [] {
      k := |init|;
      assert events[..k] == init;
    } else {
      k := ListTaken(init);
      assert events[..k] == init[..k];
    }
    hide Step, Expired;
  }

  /** A list that is being closed only gets shorter, and a new one holds the sessions expired when it is taken. */
  lemma ExpiredStep(s: State, e: Event)
    ensures var t := Step(s, e);
            if s.expired == [] then
              t.expired != [] ==> e.SweepTake? && forall sid :: sid in t.expired ==> sid in Expired(s, e.now)
            else forall sid :: sid in t.expired ==> sid in s.expired
  {
    hide LocalStep, Expired;
    if e.SweepTake? {
      assert forall sid :: sid in e.order ==> sid in (set x | x in e.order);
    }
  }

  /** A sweep interleaved with anything closes only sessions that were in the table, with a heartbeat older than
      the timeout, in the state of the run in which it took its list, whatever has happened since. */
  lemma SweepClosesExpired(events: seq<Event>, sid: nat) returns (k: nat)
    requires sid in Sessions(Run(Init, events)) && sid !in Sessions(Run(Init, events + [SweepClose]))
    ensures k < |events| && events[k].SweepTake?
    ensures var taken := Run(Init, events[..k]);
            && sid in Sessions(taken) && sid in Heartbeats(taken)
            && events[k].now - Heartbeats(taken)[sid] > 30
  {
    assert (events + [SweepClose])[..|events|] == events;
    ClosedFront(Run(Init, events), sid);
    k := ListTaken(events);
    hide Run, Step;
    assert sid in Expired(Run(Init, events[..k]), events[k].now);
  }

  lemma ClosedFront(s: State, sid: nat)
    requires sid in Sessions(s) && sid !in Sessions(Step(s, SweepClose))
    ensures s.expired != [] && sid == s.expired[0]
  {
    hide LocalStep;
  }
}
