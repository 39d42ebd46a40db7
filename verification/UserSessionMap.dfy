/** The two maps between users and sessions, kept by login and logout. */
module UserSessions {
  import opened Collections

  datatype Maps = Maps(userToSession: map<nat, nat>, sessionToUser: map<nat, nat>)

  datatype Event =
    | Login(success: bool, userId: nat, sessionId: nat)
    | Logout(userId: nat, sessionId: nat)
    | Register(userId: nat, sessionId: nat)
    | Unregister(userId: nat)
    | UnregisterSession(sessionId: nat)

  const Empty := Maps(map[], map[])

  function Bind(m: Maps, user: nat, session: nat): Maps {
    var sessions := if user in m.userToSession then m.sessionToUser - {m.userToSession[user]} else m.sessionToUser;
    Maps(m.userToSession[user := session], sessions[session := user])
  }

  function Unbind(m: Maps, user: nat): Maps {
    if user !in m.userToSession then m
    else Maps(m.userToSession - {user}, m.sessionToUser - {m.userToSession[user]})
  }

  function UnbindBySessionId(m: Maps, session: nat): Maps {
    if session !in m.sessionToUser then m
    else Maps(m.userToSession - {m.sessionToUser[session]}, m.sessionToUser - {session})
  }

  /** The session of a user, 0 if there is none. */
  function SessionOf(m: Maps, user: nat): nat {
    if user in m.userToSession then m.userToSession[user] else 0
  }

  /** The user of a session, 0 if there is none. */
  function UserOf(m: Maps, session: nat): nat {
    if session in m.sessionToUser then m.sessionToUser[session] else 0
  }

  function Step(m: Maps, e: Event): Maps {
    match e
    case Login(success, user, session) => if !success || user == 0 || session == 0 then m else Bind(m, user, session)
    case Logout(user, session) =>
      if user != 0 then Unbind(m, user) else if session != 0 then UnbindBySessionId(m, session) else m
    case Register(user, session) => Bind(m, user, session)
    case Unregister(user) => Unbind(m, user)
    case UnregisterSession(session) => UnbindBySessionId(m, session)
  }

  function Run(m: Maps, events: seq<Event>): Maps {
    if events == [] then m else Step(Run(m, events[..|events| - 1]), events[|events| - 1])
  }

  // ---------- What the steps change ----------

  /** The two maps agree outside `keys`. */
  ghost predicate AgreeOutside(a: map<nat, nat>, b: map<nat, nat>, keys: set<nat>) {
    forall k :: k !in keys ==> (k in a <==> k in b) && (k in a ==> a[k] == b[k])
  }

  /** User and session are bound to each other, the session the user had before knows nobody, and every other user
      and session is as it was. */
  ghost predicate Bound(m: Maps, n: Maps, user: nat, session: nat) {
    && user in n.userToSession && n.userToSession[user] == session
    && session in n.sessionToUser && n.sessionToUser[session] == user
    && AgreeOutside(m.userToSession, n.userToSession, {user})
    && (if user in m.userToSession then
          && (m.userToSession[user] != session ==> m.userToSession[user] !in n.sessionToUser)
          && AgreeOutside(m.sessionToUser, n.sessionToUser, {session, m.userToSession[user]})
        else AgreeOutside(m.sessionToUser, n.sessionToUser, {session}))
  }

  /** Neither the user nor the session is bound any more, and every other user and session is as it was. */
  ghost predicate Unbound(m: Maps, n: Maps, user: nat, session: nat) {
    && user !in n.userToSession && session !in n.sessionToUser
    && AgreeOutside(m.userToSession, n.userToSession, {user})
    && AgreeOutside(m.sessionToUser, n.sessionToUser, {session})
  }

  /** A login counts if it succeeded and names a user and a session; a logout names the user or, failing that, the
      session. Whoever is named is bound, or is unbound with the entry found, and nobody else is touched. */
  lemma StepChanges(m: Maps, e: Event)
    ensures var n := Step(m, e);
            match e
            case Login(success, user, session) =>
              if success && user > 0 && session > 0 then Bound(m, n, user, session) else n == m
            case Register(user, session) => Bound(m, n, user, session)
            case Logout(user, session) =>
              if user > 0 && user in m.userToSession then Unbound(m, n, user, m.userToSession[user])
              else if user == 0 && session > 0 && session in m.sessionToUser then
                Unbound(m, n, m.sessionToUser[session], session)
              else n == m
            case Unregister(user) =>
              if user in m.userToSession then Unbound(m, n, user, m.userToSession[user]) else n == m
            case UnregisterSession(session) =>
              if session in m.sessionToUser then Unbound(m, n, m.sessionToUser[session], session) else n == m
  {
  }

  /** The logout of a user undoes the login, if user and session were free. */
  lemma LogoutUndoes(m: Maps, user: nat, session: nat)
    requires user > 0 && session > 0 && user !in m.userToSession && session !in m.sessionToUser
    ensures Step(Step(m, Login(true, user, session)), Logout(user, 0)) == m
  {
    var n := Step(m, Login(true, user, session));
    assert n == Maps(m.userToSession[user := session], m.sessionToUser[session := user]);
    assert m.userToSession[user := session] - {user} == m.userToSession;
    assert m.sessionToUser[session := user] - {session} == m.sessionToUser;
  }

  // ---------- The direction that always holds ----------

  /** A session's user is bound to that session. */
  ghost predicate Inv(m: Maps) {
    forall s :: s in m.sessionToUser ==>
      m.sessionToUser[s] in m.userToSession && m.userToSession[m.sessionToUser[s]] == s
  }

  lemma StepInv(m: Maps, e: Event)
    requires Inv(m)
    ensures Inv(Step(m, e))
  {
  }

  lemma {:induction false} RunInv(events: seq<Event>)
    ensures Inv(Run(Empty, events))
    decreases |events|
  {
    hide Inv, Step;
    if events == [] {
      assert Inv(Empty) by { EmptyInv(); }
    } else {
      RunInv(events[..|events| - 1]);
      StepInv(Run(Empty, events[..|events| - 1]), events[|events| - 1]);
    }
  }

  lemma EmptyInv()
    ensures Inv(Empty) && Full(Empty)
  {
  }

  /** In every run of logins, logouts and registrations, a reply to the user recorded when a message came in goes
      to the session it came from, as long as the maps have not changed since. */
  lemma ReplyReachesSender(events: seq<Event>, session: nat)
    requires session in Run(Empty, events).sessionToUser
    ensures var m := Run(Empty, events); SessionOf(m, UserOf(m, session)) == session
  {
    RunInv(events);
  }

  // ---------- When the maps are inverses ----------

  /** Both directions hold: the maps are inverses. */
  ghost predicate Full(m: Maps) {
    && Inv(m)
    && forall u :: u in m.userToSession ==>
         m.userToSession[u] in m.sessionToUser && m.sessionToUser[m.userToSession[u]] == u
  }

  /** No other user holds the session. */
  predicate Available(m: Maps, user: nat, session: nat) {
    session in m.sessionToUser ==> m.sessionToUser[session] == user
  }

  /** The login or registration leaves alone a session that another user holds. */
  predicate TakesNoSession(m: Maps, e: Event) {
    match e
    case Login(success, user, session) => success && user != 0 && session != 0 ==> Available(m, user, session)
    case Register(user, session) => Available(m, user, session)
    case _ => true
  }

  /** Exactly the steps that take no session held by another user keep the maps inverse. */
  lemma FullIff(m: Maps, e: Event)
    requires Full(m)
    ensures Full(Step(m, e)) <==> TakesNoSession(m, e)
  {
    if e.Login? && e.success && e.userId != 0 && e.sessionId != 0 {
      BindFullIff(m, e.userId, e.sessionId);
    }
    if e.Register? {
      BindFullIff(m, e.userId, e.sessionId);
    }
  }

  lemma BindFullIff(m: Maps, user: nat, session: nat)
    requires Full(m)
    ensures Full(Bind(m, user, session)) <==> Available(m, user, session)
  {
    if !Available(m, user, session) {
      var other, n := m.sessionToUser[session], Bind(m, user, session);
      assert n.userToSession[other] == session && n.sessionToUser[session] == user;
    }
  }

  /** The maps are inverses on every run whose logins take no session held by another user. */
  lemma {:induction false} RunFull(events: seq<Event>)
    requires forall i :: 0 <= i < |events| ==> TakesNoSession(Run(Empty, events[..i]), events[i])
    ensures Full(Run(Empty, events))
    decreases |events|
  {
    hide Full, TakesNoSession, Step;
    if events == [] {
      EmptyInv();
    } else {
      var init := events[..|events| - 1];
      forall i | 0 <= i < |init| ensures TakesNoSession(Run(Empty, init[..i]), init[i]) {
        assert init[..i] == events[..i];
      }
      RunFull(init);
      FullIff(Run(Empty, init), events[|events| - 1]);
    }
  }

  // ---------- Sizes ----------

  /** The users a session names. */
  ghost function Named(m: Maps): set<nat> {
    set s | s in m.sessionToUser :: m.sessionToUser[s]
  }

  /** Different sessions name different users. */
  lemma {:induction false} NamedSize(m: Maps)
    requires Inv(m)
    ensures |Named(m)| == |m.sessionToUser|
    decreases |m.sessionToUser|
  {
    if m.sessionToUser == map[] {
      assert Named(m) == {};
    } else {
      var s :| s in m.sessionToUser;
      var n := m.(sessionToUser := m.sessionToUser - {s});
      NamedSize(n);
      NamedOneMore(m, s);
      assert m.sessionToUser.Keys == n.sessionToUser.Keys + {s};
    }
  }

  lemma NamedOneMore(m: Maps, s: nat)
    requires Inv(m) && s in m.sessionToUser
    ensures var n := m.(sessionToUser := m.sessionToUser - {s});
            Named(m) == Named(n) + {m.sessionToUser[s]} && m.sessionToUser[s] !in Named(n)
  {
    var n := m.(sessionToUser := m.sessionToUser - {s});
    forall u | u in Named(m) ensures u in Named(n) + {m.sessionToUser[s]} {
      var r :| r in m.sessionToUser && m.sessionToUser[r] == u;
      assert r == s || n.sessionToUser[r] == u;
    }
  }

  /** Never more sessions than users, and equally many exactly when the maps are inverses; a surplus user is one
      whose session has been taken. */
  lemma SizesEqualIffFull(events: seq<Event>)
    ensures var m := Run(Empty, events);
            && |m.sessionToUser| <= |m.userToSession|
            && (|m.sessionToUser| == |m.userToSession| <==> Full(m))
  {
    RunInv(events);
    hide Run;
    SizeOf(Run(Empty, events));
  }

  lemma SizeOf(m: Maps)
    requires Inv(m)
    ensures |m.sessionToUser| <= |m.userToSession| && (|m.sessionToUser| == |m.userToSession| <==> Full(m))
  {
    NamedSize(m);
    var users := m.userToSession.Keys;
    assert Named(m) <= users;
    SubsetSize(Named(m), users);
    if Named(m) == users {
      forall u | u in m.userToSession
        ensures m.userToSession[u] in m.sessionToUser && m.sessionToUser[m.userToSession[u]] == u
      {
        assert u in Named(m);
      }
    } else {
      var u :| u in users && u !in Named(m);
      assert !(m.userToSession[u] in m.sessionToUser && m.sessionToUser[m.userToSession[u]] == u);
    }
  }

  // ---------- After a takeover ----------

  /** What an event does to the maps, if anything. */
  datatype Effect = Binds(userId: nat, sessionId: nat) | Unbinds(userId: nat) | UnbindsSession(sessionId: nat) | Nothing

  function EffectOf(e: Event): Effect {
    match e
    case Login(success, user, session) =>
      if !success || user == 0 || session == 0 then Nothing else Binds(user, session)
    case Logout(user, session) =>
      if user != 0 then Unbinds(user) else if session != 0 then UnbindsSession(session) else Nothing
    case Register(user, session) => Binds(user, session)
    case Unregister(user) => Unbinds(user)
    case UnregisterSession(session) => UnbindsSession(session)
  }

  predicate Holds(m: Maps, user: nat, session: nat) {
    session in m.sessionToUser && m.sessionToUser[session] == user
  }

  /** The user is bound to a session that is not bound to the user. */
  predicate Stale(m: Maps, user: nat) {
    user in m.userToSession && !Holds(m, user, m.userToSession[user])
  }

  /** The event takes the session of `user` although it is about another user: it binds that session to the other
      user, or ends the other user's own, stale, binding to it. */
  predicate Displaces(m: Maps, e: Event, user: nat) {
    match EffectOf(e)
    case Binds(other, session) =>
      user != other
      && (Holds(m, user, session) || (other in m.userToSession && Holds(m, user, m.userToSession[other])))
    case Unbinds(other) =>
      user != other && other in m.userToSession && Holds(m, user, m.userToSession[other])
    case _ => false
  }

  /** The event binds or unbinds the user. */
  predicate ActsOn(e: Event, user: nat) {
    match EffectOf(e)
    case Binds(other, _) => user == other
    case Unbinds(other) => user == other
    case _ => false
  }

  /** The user has lost the session to an event about another user and has not been bound or unbound since. */
  predicate Dispossessed(events: seq<Event>, user: nat)
    decreases |events|
  {
    events != [] &&
    var init, last := events[..|events| - 1], events[|events| - 1];
    !ActsOn(last, user) && (Dispossessed(init, user) || Displaces(Run(Empty, init), last, user))
  }

  lemma StaleStep(m: Maps, e: Event, user: nat)
    requires Inv(m)
    ensures Stale(Step(m, e), user) <==> !ActsOn(e, user) && (Stale(m, user) || Displaces(m, e, user))
  {
  }

  /** In every run the users whose session does not know them are exactly those dispossessed and not logged in or
      out since. */
  lemma {:induction false} StaleIff(events: seq<Event>, user: nat)
    ensures Stale(Run(Empty, events), user) <==> Dispossessed(events, user)
    decreases |events|
  {
    hide Step, Stale, Displaces, ActsOn, Inv;
    if events == [] {
      NobodyStale(user);
    } else {
      var init, last := events[..|events| - 1], events[|events| - 1];
      StaleIff(init, user);
      RunInv(init);
      StaleStep(Run(Empty, init), last, user);
    }
  }

  lemma NobodyStale(user: nat)
    ensures !Stale(Empty, user)
  {
  }

  function StaleUsers(m: Maps): set<nat> {
    set u | u in m.userToSession && Stale(m, u)
  }

  /** The users of the final maps who have been dispossessed and not logged in or out since. */
  function DispossessedUsers(events: seq<Event>): set<nat> {
    var m := Run(Empty, events);
    set u | u in m.userToSession && Dispossessed(events, u)
  }

  /** The surplus of users over sessions is, in every run, the number of dispossessed users. */
  lemma Surplus(events: seq<Event>)
    ensures var m := Run(Empty, events);
            |m.userToSession| == |m.sessionToUser| + |DispossessedUsers(events)|
  {
    hide Run, Dispossessed, Stale, Inv;
    var m := Run(Empty, events);
    RunInv(events);
    StaleCount(m);
    forall u | u in m.userToSession ensures Stale(m, u) <==> Dispossessed(events, u) {
      StaleIff(events, u);
    }
    assert DispossessedUsers(events) == StaleUsers(m);
  }

  lemma StaleCount(m: Maps)
    requires Inv(m)
    ensures |m.userToSession| == |m.sessionToUser| + |StaleUsers(m)|
  {
    NamedSize(m);
    forall u ensures Named(m) <= m.userToSession.Keys
      ensures Stale(m, u) <==> u in m.userToSession && u !in Named(m)
    {
      StaleUnnamed(m, u);
    }
    hide Named, Inv, Stale;
    assert StaleUsers(m) == m.userToSession.Keys - Named(m);
    Disjoint(m.userToSession.Keys, Named(m), StaleUsers(m));
  }

  lemma StaleUnnamed(m: Maps, user: nat)
    requires Inv(m)
    ensures Named(m) <= m.userToSession.Keys
    ensures Stale(m, user) <==> user in m.userToSession && user !in Named(m)
  {
  }

  lemma Disjoint(all: set<nat>, a: set<nat>, b: set<nat>)
    requires a <= all && b == all - a
    ensures |all| == |a| + |b|
  {
    assert all == a + b;
  }

  /** A second login on a session takes it over; when the first user then logs out, the second is left bound to a
      session that no longer knows any user, and messages that come in on it have no sender. */
  lemma Takeover()
    ensures var m := Run(Empty, [Login(true, 1, 7), Login(true, 2, 7)]);
            !Full(m) && SessionOf(m, 1) == 7 && UserOf(m, 7) == 2
    ensures var m := Run(Empty, [Login(true, 1, 7), Login(true, 2, 7), Logout(1, 0)]);
            SessionOf(m, 2) == 7 && UserOf(m, 7) == 0 && Stale(m, 2)
  {
    var one, two := [Login(true, 1, 7)], [Login(true, 1, 7), Login(true, 2, 7)];
    var three := [Login(true, 1, 7), Login(true, 2, 7), Logout(1, 0)];
    assert one[..0] == [] && two[..1] == one && three[..2] == two;
    assert Run(Empty, one) == Maps(map[1 := 7], map[7 := 1]);
    assert Run(Empty, two) == Maps(map[1 := 7, 2 := 7], map[7 := 2]);
    assert Run(Empty, three) == Maps(map[2 := 7], map[]);
  }

  // ---------- The object ----------

  class UserSessionMap {
    var userToSession: map<nat, nat>
    var sessionToUser: map<nat, nat>

    ghost function State(): Maps
      reads this
    {
      Maps(userToSession, sessionToUser)
    }

    constructor ()
      ensures State() == Empty
    {
      userToSession, sessionToUser := map[], map[];
    }

    method BindUser(userId: nat, sessionId: nat)
      modifies this
      ensures State() == Bind(old(State()), userId, sessionId)
    {
      if userId in userToSession {
        sessionToUser := sessionToUser - {userToSession[userId]};
      }
      userToSession := userToSession[userId := sessionId];
      sessionToUser := sessionToUser[sessionId := userId];
    }

    method UnbindUser(userId: nat) returns (found: bool)
      modifies this
      ensures State() == Unbind(old(State()), userId) && found == (userId in old(userToSession))
    {
      if userId !in userToSession {
        return false;
      }
      sessionToUser := sessionToUser - {userToSession[userId]};
      userToSession := userToSession - {userId};
      return true;
    }

    method UnbindSession(sessionId: nat) returns (found: bool)
      modifies this
      ensures State() == UnbindBySessionId(old(State()), sessionId) && found == (sessionId in old(sessionToUser))
    {
      if sessionId !in sessionToUser {
        return false;
      }
      var uid := sessionToUser[sessionId];
      sessionToUser := sessionToUser - {sessionId};
      userToSession := userToSession - {uid};
      return true;
    }

    method GetSessionId(userId: nat) returns (sessionId: nat)
      ensures sessionId == SessionOf(State(), userId)
      ensures sessionId == if userId in userToSession then userToSession[userId] else 0
    {
      return if userId in userToSession then userToSession[userId] else 0;
    }

    method GetUserId(sessionId: nat) returns (userId: nat)
      ensures userId == UserOf(State(), sessionId)
      ensures userId == if sessionId in sessionToUser then sessionToUser[sessionId] else 0
    {
      return if sessionId in sessionToUser then sessionToUser[sessionId] else 0;
    }

    method OnUserLogin(success: bool, userId: nat, sessionId: nat)
      modifies this
      ensures State() == Step(old(State()), Login(success, userId, sessionId))
    {
      if !success || userId == 0 || sessionId == 0 {
        return;
      }
      BindUser(userId, sessionId);
    }

    method OnUserLogout(userId: nat, sessionId: nat)
      modifies this
      ensures State() == Step(old(State()), Logout(userId, sessionId))
    {
      if userId != 0 {
        var _ := UnbindUser(userId);
        return;
      }
      if sessionId != 0 {
        var _ := UnbindSession(sessionId);
      }
    }
  }
}
