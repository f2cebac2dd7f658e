/** The manager that keeps the two session indexes, over session objects that it also changes. */
module SessionManager {
  import opened Wrappers
  import opened SessionIndex
  import opened Session

  class SessionManager {
    var sessionsByUserId: map<int, Session>
    var sessionsByUsername: map<string, Session>
    ghost var connected: set<Session>   // sessions that have not been removed

    ghost predicate AllValid(known: set<Session>)
      reads known
    {
      forall s :: s in known ==> s.Valid()
    }

    /** The indexes beside what the given sessions say of themselves. */
    ghost function View(known: set<Session>): Directory<Session>
      requires AllValid(known)
      reads this, known
    {
      Directory(connected,
                map s | s in known && s.authenticated :: s.Identity(),
                sessionsByUserId, sessionsByUsername)
    }

    /** Sending to sessions changes neither what they are nor where they are indexed. */
    twostate lemma SendingKeepsView(known: set<Session>)
      requires old(AllValid(known)) && unchanged(this)
      requires forall s :: s in known ==>
                 unchanged(s`authenticated) && unchanged(s`userId) && unchanged(s`username)
      ensures AllValid(known) && View(known) == old(View(known))
    {
      forall s | s in known ensures s.Valid() && (s.authenticated ==> s.Identity() == old(s.Identity())) {
        assert old(s.Valid());
      }
    }

    constructor ()
      ensures sessionsByUserId == map[] && sessionsByUsername == map[] && connected == {}
    {
      sessionsByUserId, sessionsByUsername, connected := map[], map[], {};
    }

    method RegisterAuthenticatedSession(s: Session, userId: int, username: string, ghost known: set<Session>)
      requires s in known && AllValid(known)
      modifies this`sessionsByUserId, this`sessionsByUsername, s`authenticated, s`userId, s`username
      ensures AllValid(known)
      ensures View(known) == Next(old(View(known)), Register(s, userId, username))
      ensures s.authenticated && s.userId == Some(userId) && s.username == Some(username)
      ensures sessionsByUserId == old(sessionsByUserId)[userId := s]
      ensures sessionsByUsername == old(sessionsByUsername)[username := s]
    {
      sessionsByUserId := sessionsByUserId[userId := s];
      sessionsByUsername := sessionsByUsername[username := s];
      s.SetAuthenticated(userId, username);
    }

    /** Moves an authenticated session to its new name; only such a session has a name to move from. */
    method UpdateUsername(s: Session, newUsername: string, ghost known: set<Session>)
      requires s in known && AllValid(known) && s.authenticated
      modifies this`sessionsByUsername, s`username
      ensures AllValid(known)
      ensures View(known) == Next(old(View(known)), Rename(s, newUsername))
      ensures s.username == Some(newUsername)
      ensures newUsername in sessionsByUsername && sessionsByUsername[newUsername] == s
      ensures old(s.username.value) != newUsername ==> old(s.username.value) !in sessionsByUsername
      ensures forall name :: name != newUsername && name != old(s.username.value) ==>
                && (name in sessionsByUsername <==> name in old(sessionsByUsername))
                && (name in sessionsByUsername ==> sessionsByUsername[name] == old(sessionsByUsername)[name])
    {
      ghost var before := View(known);
      sessionsByUsername := sessionsByUsername - {s.username.value};
      s.SetUsername(newUsername);
      sessionsByUsername := sessionsByUsername[newUsername := s];
      assert forall q :: q in known ==> q.Valid();
      assert View(known).identity == before.identity[s := Identity(s.userId.value, newUsername)];
    }

    method Remove(s: Session, ghost known: set<Session>)
      requires s in known && AllValid(known)
      modifies this
      ensures View(known) == Next(old(View(known)), Op.Remove(s))
      ensures s !in connected
      ensures s.authenticated ==> sessionsByUserId == old(sessionsByUserId) - {s.userId.value}
                                  && sessionsByUsername == old(sessionsByUsername) - {s.username.value}
      ensures !s.authenticated ==> sessionsByUserId == old(sessionsByUserId) && sessionsByUsername == old(sessionsByUsername)
    {
      if s.authenticated {
        sessionsByUserId := sessionsByUserId - {s.userId.value};
        sessionsByUsername := sessionsByUsername - {s.username.value};
      }
      connected := connected - {s};
    }

    /** The live session under the name: what a scan of all sessions would find, while the indexes agree. */
    method FindByUsername(username: string, ghost known: set<Session>) returns (s: Option<Session>)
      requires AllValid(known)
      ensures s == SessionIndex.FindByUsername(View(known), username)
      ensures Agrees(View(known)) ==>
                (s.Some? ==> s.value in connected && s.value.authenticated && s.value.username == Some(username))
      ensures Agrees(View(known)) ==>
                (s.None? ==> forall q :: q in connected && q in known && q.authenticated ==> q.username != Some(username))
    {
      s := if username in sessionsByUsername then Some(sessionsByUsername[username]) else None;
    }

    method FindByUserId(userId: int, ghost known: set<Session>) returns (s: Option<Session>)
      requires AllValid(known)
      ensures s == SessionIndex.FindByUserId(View(known), userId)
      ensures Agrees(View(known)) ==>
                (s.Some? ==> s.value in connected && s.value.authenticated && s.value.userId == Some(userId))
      ensures Agrees(View(known)) ==>
                (s.None? ==> forall q :: q in connected && q in known && q.authenticated ==> q.userId != Some(userId))
    {
      s := if userId in sessionsByUserId then Some(sessionsByUserId[userId]) else None;
    }
  }
}
