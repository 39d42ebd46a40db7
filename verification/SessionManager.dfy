/** The session manager object and the connections it closes, as one thread runs them: `CloseSession` closes the
    connection, whose close callback calls `CloseSession` again, and either may be called first. The interleavings
    of these calls with other threads are in `SessionProtocol`. */
module SessionTable {
  import opened Collections
  import opened SessionProtocol

  /** What the manager holds, with the identifiers of the sessions its close handler ran for, in order. */
  datatype Table = Table(
    nextId: nat, sessions: map<nat, Session>, heartbeats: map<nat, int>, handlerSet: bool, handled: seq<nat>)

  /** Whether `CreateSession` runs into an exception, and where: while it makes the session and its connection, or
      when it starts the connection. */
  datatype Exception = None | WhenConstructed | WhenStarted

  /** A table after `CloseSession(sid)`. */
  ghost function Without(t: Table, sid: nat): Table {
    if sid !in t.sessions then t
    else t.(sessions := t.sessions - {sid}, heartbeats := t.heartbeats - {sid},
            handled := t.handled + if t.handlerSet then [sid] else [])
  }

  ghost function WithoutAll(t: Table, sids: seq<nat>): Table {
    if sids == [] then t else Without(WithoutAll(t, sids[..|sids| - 1]), sids[|sids| - 1])
  }

  /** The sessions a sweep at `now` has to close. */
  ghost function Stale(t: Table, now: int): set<nat> {
    set sid | sid in t.heartbeats && sid in t.sessions && now - t.heartbeats[sid] > HEARTBEAT_TIMEOUT
  }

  function Elements(sids: seq<nat>): set<nat> {
    set sid | sid in sids
  }

  /** Closing a list of different sessions of the table removes exactly those, and the handler, if set, runs once
      for each of them in that order. */
  lemma {:induction false} WithoutAllRemoves(t: Table, sids: seq<nat>)
    requires t.sessions.Keys == t.heartbeats.Keys && Elements(sids) <= t.sessions.Keys && Distinct(sids)
    ensures var u := WithoutAll(t, sids);
            && u.sessions == t.sessions - Elements(sids) && u.heartbeats == t.heartbeats - Elements(sids)
            && u.handled == t.handled + (if t.handlerSet then sids else [])
            && u.nextId == t.nextId && u.handlerSet == t.handlerSet
    decreases |sids|
  {
    if sids == [] {
      assert Elements(sids) == {};
    } else {
      var init, last := sids[..|sids| - 1], sids[|sids| - 1];
      ElementsSnoc(sids);
      hide Elements;
      WithoutAllRemoves(t, init);
      RemoveBoth(t.sessions, Elements(init), last);
      RemoveBoth(t.heartbeats, Elements(init), last);
      assert sids == init + [last];
    }
  }

  lemma RemoveBoth<T>(m: map<nat, T>, a: set<nat>, b: nat)
    ensures m - a - {b} == m - (a + {b})
  {
  }

  lemma ElementsSnoc(sids: seq<nat>)
    requires sids != [] && Distinct(sids)
    ensures var init, last := sids[..|sids| - 1], sids[|sids| - 1];
            Elements(sids) == Elements(init) + {last} && last !in Elements(init) && Distinct(init)
  {
    assert sids == sids[..|sids| - 1] + [sids[|sids| - 1]];
  }

  /** After a sweep the table holds exactly the sessions heard from within the timeout. */
  lemma SweepKeepsFresh(t: Table, now: int, expired: seq<nat>)
    requires t.sessions.Keys == t.heartbeats.Keys && Elements(expired) == Stale(t, now) && Distinct(expired)
    ensures var u := WithoutAll(t, expired);
            && (forall sid :: sid in u.sessions.Keys <==>
                  sid in t.sessions.Keys && now - t.heartbeats[sid] <= 30)
            && u.sessions.Keys == u.heartbeats.Keys
            && u.handled == t.handled + if t.handlerSet then expired else []
  {
    WithoutAllRemoves(t, expired);
    hide Elements, WithoutAll;
  }

  lemma TakenOut<T>(m: map<nat, T>, id: nat, value: T)
    requires id !in m
    ensures m[id := value] - {id} == m
  {
  }

  lemma WithoutAllNext(t: Table, sids: seq<nat>, i: nat)
    requires i < |sids|
    ensures WithoutAll(t, sids[..i + 1]) == Without(WithoutAll(t, sids[..i]), sids[i])
  {
    assert sids[..i + 1][..i] == sids[..i];
  }

  lemma WithoutAllEnds(t: Table, sids: seq<nat>)
    ensures WithoutAll(t, sids[..0]) == t && sids[..|sids|] == sids
  {
  }

  /** A client session with its connection. */
  class Session {
    const sessionId: nat
    const manager: SessionManager
    var closed: bool
    var closeCallback: bool
    ghost var notified: nat
    /** How often the close handler had run for this identifier before. */
    ghost const runsBefore: nat

    constructor (sessionId: nat, manager: SessionManager)
      ensures this.sessionId == sessionId && this.manager == manager && runsBefore == multiset(manager.handled)[sessionId]
      ensures !closed && closeCallback && notified == 0
    {
      this.sessionId, this.manager, runsBefore := sessionId, manager, multiset(manager.handled)[sessionId];
      closed, closeCallback, notified := false, true, 0;
    }

    /** `DoClose(true)`. The callback, if it is still set, is called after it has been cleared. */
    method DoClose()
      requires manager.Valid()
      modifies this`closed, this`closeCallback, this`notified, manager`sessions, manager`lastHeartbeatAt, manager`handled
      modifies (if sessionId in manager.sessions then {manager.sessions[sessionId]} else {})
      ensures manager.Valid() && closed
      ensures var called := !old(closed) && old(closeCallback);
              && manager.State() == (if called then Without(old(manager.State()), sessionId) else old(manager.State()))
              && notified == old(notified) + (if called then 1 else 0)
              && closeCallback == (old(closed) && old(closeCallback))
              && (called && sessionId in old(manager.sessions) ==> old(manager.sessions)[sessionId].closed)
      decreases |manager.sessions|, 1
    {
      hide SessionManager.Valid, Without;
      if closed {
        return;
      }
      closed := true;
      if closeCallback {
        closeCallback := false;
        notified := notified + 1;
        var _ := manager.CloseSession(sessionId);
      }
    }

    /** `DoClose` as a run of the interleaving model: a session no close has touched closes itself, and through its
        callback leaves the table. */
    method DoCloseUntouched()
      requires manager.Valid() && manager.Untouched(this)
      modifies this, manager`sessions, manager`lastHeartbeatAt, manager`handled
      ensures manager.Valid() && manager.State() == Without(old(manager.State()), sessionId)
      ensures var heartbeat := old(manager.lastHeartbeatAt)[sessionId];
              manager.EntryOf(this, heartbeat)
              == LocalRun(old(manager.EntryOf(this, manager.lastHeartbeatAt[sessionId])),
                          [RunClose(false), NotifyLock, StrandCallback], manager.onSessionClose)
    {
      ghost var before := manager.EntryOf(this, manager.lastHeartbeatAt[sessionId]);
      assert EntryInv(before) && Quiet(before);
      SameEnd(before, manager.onSessionClose);
      ghost var runs := multiset(manager.handled)[sessionId];
      hide LocalRun, EntryInv, Quiet;
      DoClose();
      assert multiset(manager.handled)[sessionId] == runs + if manager.onSessionClose then 1 else 0;
    }
  }

  class SessionManager {
    var sessions: map<nat, Session>
    var lastHeartbeatAt: map<nat, int>
    var nextSessionId: nat
    var onSessionClose: bool
    var heartbeatSweepRunning: bool
    var timerArmed: bool
    ghost var handled: seq<nat>

    /** At every release of the lock: the two maps have the same keys, at most 1000 of them, and a session is
        stored under its own identifier. */
    ghost predicate Valid()
      reads this`sessions, this`lastHeartbeatAt, this`nextSessionId
    {
      && sessions.Keys == lastHeartbeatAt.Keys
      && |sessions| <= MAX_CONNECTIONS
      && nextSessionId < ID_LIMIT
      && forall sid :: sid in sessions ==> sessions[sid].sessionId == sid && sessions[sid].manager == this
    }

    ghost function State(): Table
      reads this`sessions, this`lastHeartbeatAt, this`nextSessionId, this`onSessionClose, this`handled
    {
      Table(nextSessionId, sessions, lastHeartbeatAt, onSessionClose, handled)
    }

    /** The sessions of the table whose connection is closed. */
    ghost function Closed(): set<nat>
      reads this`sessions, sessions.Values
    {
      set sid | sid in sessions && sessions[sid].closed
    }

    /** The session as the interleaving model sees it, with `heartbeat` the last one it recorded. */
    ghost function EntryOf(s: Session, heartbeat: int): Entry
      reads this`sessions, this`lastHeartbeatAt, this`handled, s
    {
      var here := s.sessionId in sessions && sessions[s.sessionId] == s;
      var runs := multiset(handled)[s.sessionId] - s.runsBefore;
      Entry(here, here && s.sessionId in lastHeartbeatAt, heartbeat, s.closed, s.closeCallback, Idle, 0, NoCall,
            s.notified, if runs < 0 then 0 else runs, !here, runs > 0)
    }

    /** A session of the table that no close has touched. */
    ghost predicate Untouched(s: Session)
      reads this`sessions, this`handled, s
    {
      && s.sessionId in sessions && sessions[s.sessionId] == s
      && !s.closed && s.closeCallback && s.notified == 0 && multiset(handled)[s.sessionId] == s.runsBefore
    }

    constructor ()
      ensures Valid() && State() == Table(1, map[], map[], false, [])
      ensures !heartbeatSweepRunning && !timerArmed
    {
      sessions, lastHeartbeatAt, nextSessionId, onSessionClose := map[], map[], 1, false;
      heartbeatSweepRunning, timerArmed, handled := false, false, [];
    }

    /** The counter is 32 bits wide and wraps around. */
    method AllocateSessionId() returns (sid: nat)
      requires Valid()
      modifies this`nextSessionId
      ensures Valid() && sid == old(nextSessionId) && nextSessionId == (sid + 1) % 0x1_0000_0000
    {
      sid := nextSessionId;
      nextSessionId := (nextSessionId + 1) % ID_LIMIT;
    }

    /** `ready`: the gateway and the codec exist and the socket is open. Returns 0 when no session was added; an
        identifier is used up even then, unless the arguments were refused. An exception after the insertion takes
        the session out again. */
    method CreateSession(ready: bool, now: int, thrown: Exception) returns (sid: nat)
      requires Valid()
      modifies this`sessions, this`lastHeartbeatAt, this`nextSessionId
      ensures Valid()
      ensures nextSessionId == if ready then (old(nextSessionId) + 1) % ID_LIMIT else old(nextSessionId)
      ensures var id := old(nextSessionId);
              sid == if ready && thrown.None? && |old(sessions)| < 1000 && id !in old(sessions) then id else 0
      ensures sid == 0 ==> sessions == old(sessions) && lastHeartbeatAt == old(lastHeartbeatAt)
      ensures sid != 0 ==>
                && sid in sessions && fresh(sessions[sid]) && Untouched(sessions[sid])
                && sessions == old(sessions)[sid := sessions[sid]]
                && lastHeartbeatAt == old(lastHeartbeatAt)[sid := now]
    {
      if !ready {
        return 0;
      }
      var id := AllocateSessionId();
      if id == 0 || thrown.WhenConstructed? {
        return 0;
      }
      var session := new Session(id, this);
      if |sessions| >= MAX_CONNECTIONS {
        return 0;
      }
      if id in sessions {
        return 0;
      }
      sessions := sessions[id := session];
      lastHeartbeatAt := lastHeartbeatAt[id := now];
      if thrown.WhenStarted? {
        TakenOut(old(sessions), id, session);
        TakenOut(old(lastHeartbeatAt), id, now);
        sessions := sessions - {id};
        lastHeartbeatAt := lastHeartbeatAt - {id};
        return 0;
      }
      return id;
    }

    method CloseSession(sid: nat) returns (found: bool)
      requires Valid()
      modifies this`sessions, this`lastHeartbeatAt, this`handled
      modifies (if sid in sessions then {sessions[sid]} else {})
      ensures Valid() && found == (sid in old(sessions))
      ensures State() == Without(old(State()), sid) && sessions == old(sessions) - {sid}
      ensures found ==>
                var s := old(sessions)[sid];
                && s.closed
                && s.notified == old(s.notified) + (if !old(s.closed) && old(s.closeCallback) then 1 else 0)
                && s.closeCallback == (old(s.closed) && old(s.closeCallback))
      decreases |sessions|, 0
    {
      if sid !in sessions {
        return false;
      }
      var removed := sessions[sid];
      sessions := sessions - {sid};
      lastHeartbeatAt := lastHeartbeatAt - {sid};
      var callback := onSessionClose;
      removed.DoClose();
      if callback {
        handled := handled + [sid];
      }
      return true;
    }

    /** `CloseSession` as a run of the interleaving model: closing a session no close has touched is what the strand
        does on its own, from the lock to the handler. */
    method CloseUntouched(sid: nat)
      requires Valid() && sid in sessions && Untouched(sessions[sid])
      modifies this`sessions, this`lastHeartbeatAt, this`handled, sessions[sid]
      ensures Valid() && State() == Without(old(State()), sid)
      ensures var s := old(sessions)[sid];
              EntryOf(s, old(lastHeartbeatAt)[sid])
              == LocalRun(old(EntryOf(sessions[sid], lastHeartbeatAt[sid])), [StrandLock, StrandClose, StrandCallback],
                          onSessionClose)
    {
      ghost var s, heartbeat := sessions[sid], lastHeartbeatAt[sid];
      ghost var before := EntryOf(s, heartbeat);
      assert EntryInv(before) && Quiet(before);
      SameEnd(before, onSessionClose);
      ghost var runs := multiset(handled)[sid];
      hide LocalRun, EntryInv, Quiet;
      var _ := CloseSession(sid);
      assert multiset(handled)[sid] == runs + if onSessionClose then 1 else 0;
    }

    method OnSessionHeartbeat(sid: nat, now: int)
      requires Valid()
      modifies this`lastHeartbeatAt
      ensures Valid()
      ensures lastHeartbeatAt == if sid in sessions then old(lastHeartbeatAt)[sid := now] else old(lastHeartbeatAt)
    {
      if sid !in sessions {
        return;
      }
      lastHeartbeatAt := lastHeartbeatAt[sid := now];
    }

    method EnsureHeartbeatSweepStarted()
      modifies this`heartbeatSweepRunning, this`timerArmed
      ensures heartbeatSweepRunning && timerArmed == (!old(heartbeatSweepRunning) || old(timerArmed))
    {
      if !heartbeatSweepRunning {
        heartbeatSweepRunning := true;
        timerArmed := true;
      }
    }

    /** Collects the sessions whose last heartbeat is too old, in the order the map is iterated. */
    method CollectExpired(now: int) returns (expired: seq<nat>)
      requires Valid()
      ensures Elements(expired) == Stale(State(), now) && Distinct(expired)
    {
      expired := [];
      var rest := lastHeartbeatAt.Keys;
      while rest != {}
        invariant rest <= lastHeartbeatAt.Keys
        invariant forall sid :: sid in expired <==> sid in Stale(State(), now) && sid !in rest
        invariant Distinct(expired)
        decreases |rest|
      {
        var sid :| sid in rest;
        rest := rest - {sid};
        if sid in sessions && now - lastHeartbeatAt[sid] > HEARTBEAT_TIMEOUT {
          expired := expired + [sid];
        }
      }
    }

    /** How far a sweep that found the table `t` has come: the sessions `done` are gone and closed, and a session
        still in the table is open or closed as `wasClosed` says. */
    ghost predicate Swept(t: Table, wasClosed: set<nat>, done: seq<nat>)
      reads this`sessions, this`lastHeartbeatAt, this`nextSessionId, this`onSessionClose, this`handled, t.sessions.Values
    {
      && State() == WithoutAll(t, done)
      && Subtable(t)
      && forall sid :: sid in t.sessions ==> t.sessions[sid].closed == (sid in wasClosed || sid !in sessions)
    }

    /** The sessions of the table are among those of `t`, which are stored under their identifiers. */
    ghost predicate Subtable(t: Table)
      reads this`sessions
    {
      && (forall sid :: sid in sessions ==> sid in t.sessions && sessions[sid] == t.sessions[sid])
      && (forall sid :: sid in t.sessions ==> t.sessions[sid].sessionId == sid)
    }

    /** One round of the closing loop of a sweep: no session but the one closed is touched. */
    method CloseNext(sid: nat, ghost t: Table)
      requires Valid() && Subtable(t)
      modifies this`sessions, this`lastHeartbeatAt, this`handled, t.sessions.Values
      ensures Valid() && Subtable(t)
      ensures State() == Without(old(State()), sid) && sessions.Keys == old(sessions).Keys - {sid}
      ensures forall x :: x in t.sessions ==>
                t.sessions[x].closed == (old(t.sessions[x].closed) || (x == sid && x in old(sessions)))
    {
      hide Valid, Without;
      var _ := CloseSession(sid);
    }

    /** The closing loop of a sweep. */
    method CloseAll(list: seq<nat>)
      requires Valid()
      modifies this`sessions, this`lastHeartbeatAt, this`handled, sessions.Values
      ensures Valid() && Swept(old(State()), old(Closed()), list)
    {
      ghost var t, wasClosed := State(), Closed();
      assert Subtable(t);
      WithoutAllEnds(t, list);
      hide Valid, Without, WithoutAll, Subtable;
      for i := 0 to |list|
        invariant Valid() && State() == WithoutAll(t, list[..i]) && Subtable(t)
        invariant forall sid :: sid in t.sessions ==> t.sessions[sid].closed == (sid in wasClosed || sid !in sessions)
      {
        WithoutAllNext(t, list, i);
        CloseNext(list[i], t);
      }
    }

    /** The sweep closes exactly the expired sessions, once each, and goes on iff a session is left. */
    method HandleHeartbeatSweep(aborted: bool, now: int) returns (ghost expired: seq<nat>)
      requires Valid()
      modifies this`sessions, this`lastHeartbeatAt, this`handled, this`heartbeatSweepRunning, this`timerArmed
      modifies sessions.Values
      ensures Valid()
      ensures aborted ==>
                && State() == old(State()) && expired == []
                && !timerArmed && heartbeatSweepRunning == old(heartbeatSweepRunning)
      ensures !aborted ==>
                && Elements(expired) == Stale(old(State()), now) && Distinct(expired)
                && Swept(old(State()), old(Closed()), expired)
                && timerArmed == (|sessions| != 0)
                && heartbeatSweepRunning == (old(heartbeatSweepRunning) && |sessions| != 0)
    {
      hide Valid, WithoutAll, Stale, Elements, Distinct, Swept;
      timerArmed := false;
      if aborted {
        return [];
      }
      var list := CollectExpired(now);
      expired := list;
      CloseAll(list);
      if |sessions| == 0 {
        heartbeatSweepRunning := false;
        return;
      }
      timerArmed := true;
    }
  }
}
