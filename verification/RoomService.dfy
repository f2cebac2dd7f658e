/** The room service object: the two maps, the handlers of room requests and disconnects, and broadcasting. */
module RoomService {
  import opened Wrappers
  import opened RoomState
  import opened RoomTable
  import opened RoomProtocol
  import opened RoomRepository
  import opened Session
  import opened Broadcast

  /** What a request does to the live rooms; `inserted` is the row that a create managed to add. */
  function Handled<S>(st: Rooms<S>, operation: RoomOperation, user: int, session: S, room: string,
                      found: Option<Row>, inserted: Option<Row>): Rooms<S> {
    match operation
    case JOIN => if found.Some? then Join(st, user, session, room, found.value) else st
    case LEAVE => Leave(st, user, room)
    case CREATE => if found.None? && inserted.Some? then Create(st, user, session, room, inserted.value) else st
    case UnknownOperation(_) => st
  }

  /** Whether a request is answered with success: a leave always is, even one of a room the user is not in. */
  predicate Succeeds(operation: RoomOperation, found: Option<Row>, inserted: Option<Row>) {
    match operation
    case JOIN => found.Some?
    case LEAVE => true
    case CREATE => found.None? && inserted.Some?
    case UnknownOperation(_) => false
  }

  /** The notice that goes to the other members of the named room, if any. */
  function Notice(operation: RoomOperation, user: int, username: string, found: Option<Row>): Option<Envelope> {
    match operation
    case JOIN => if found.Some? then Some(ServerNotification(USER_JOINED, user, username)) else None
    case LEAVE => Some(ServerNotification(USER_LEFT, user, username))
    case _ => None
  }

  class RoomService {
    const roomRepository: RoomRepository
    var activeRooms: map<string, ActiveRoom<Session>>
    var userToRoomMap: map<int, string>

    function State(): Rooms<Session>
      reads this
    {
      Rooms(userToRoomMap, activeRooms)
    }

    function Members(room: string): map<int, Session>
      reads this`activeRooms
    {
      if room in activeRooms then activeRooms[room].members else map[]
    }

    constructor (roomRepository: RoomRepository)
      ensures this.roomRepository == roomRepository && State() == NoRooms()
    {
      this.roomRepository, activeRooms, userToRoomMap := roomRepository, map[], map[];
    }

    method GetUserCurrentRoomName(userId: int) returns (name: string)
      ensures name == CurrentRoomName(State(), userId)
    {
      name := if userId in userToRoomMap then userToRoomMap[userId] else "";
    }

    method GetUserCurrentRoomId(userId: int) returns (id: int)
      ensures id == CurrentRoomId(State(), userId)
    {
      if userId in userToRoomMap {
        var roomName := userToRoomMap[userId];
        if roomName in activeRooms {
          return activeRooms[roomName].id;
        }
      }
      id := 0;
    }

    /** Each session of the room gets the envelope once for every member other than the excluded one that it serves. */
    method BroadcastToRoom(room: string, envelope: Envelope, excludeUserId: int)
      modifies Members(room).Values`outbox
      ensures forall s :: s in Members(room).Values ==>
                s.outbox == old(s.outbox) + Repeat(envelope, Copies(Members(room), excludeUserId, s))
    {
      if room !in activeRooms {
        return;
      }
      var recipients := Snapshot(activeRooms[room].members, excludeUserId);
      Deliver(recipients, envelope);
    }

    /** Takes a member out of an active room, and the room out of the active ones when that was the last. */
    method EraseMember(roomname: string, userId: int)
      modifies this`activeRooms
      ensures activeRooms == Evict(old(activeRooms), roomname, userId)
    {
      if roomname in activeRooms {
        var room := activeRooms[roomname];
        activeRooms := activeRooms[roomname := room.(members := room.members - {userId})];
        if activeRooms[roomname].members == map[] {
          activeRooms := activeRooms - {roomname};
        }
      }
    }

    /** Puts a member into a room, which becomes active with the row's data if it was not. */
    method InsertMember(roomname: string, row: Row, userId: int, session: Session)
      modifies this`activeRooms
      ensures activeRooms == Admit(old(activeRooms), roomname, row, userId, session)
    {
      if roomname !in activeRooms {
        activeRooms := activeRooms[roomname := ActiveRoom(row.id, row.creator, row.name, map[])];
      }
      var room := activeRooms[roomname];
      activeRooms := activeRooms[roomname := room.(members := room.members[userId := session])];
    }

    /** The critical section of a join. */
    method CommitJoin(userId: int, session: Session, roomname: string, row: Row)
      modifies this`activeRooms, this`userToRoomMap
      ensures State() == Join(old(State()), userId, session, roomname, row)
    {
      if userId in userToRoomMap {
        EraseMember(userToRoomMap[userId], userId);
        userToRoomMap := userToRoomMap - {userId};
      }
      userToRoomMap := userToRoomMap[userId := roomname];
      InsertMember(roomname, row, userId, session);
    }

    method CommitLeave(userId: int, roomname: string)
      modifies this`activeRooms, this`userToRoomMap
      ensures State() == Leave(old(State()), userId, roomname)
    {
      if userId in userToRoomMap && userToRoomMap[userId] == roomname {
        userToRoomMap := userToRoomMap - {userId};
        EraseMember(roomname, userId);
      }
    }

    /** The critical section of a create: the creator is not taken out of the room before. */
    method CommitCreate(userId: int, session: Session, roomname: string, row: Row)
      modifies this`activeRooms, this`userToRoomMap
      ensures State() == Create(old(State()), userId, session, roomname, row)
    {
      userToRoomMap := userToRoomMap[userId := roomname];
      var members: map<int, Session> := if roomname in activeRooms then activeRooms[roomname].members else map[];
      activeRooms := activeRooms[roomname := ActiveRoom(row.id, userId, row.name, members)];
      activeRooms := activeRooms[roomname := activeRooms[roomname].(members := members[userId := session])];
    }

    /** The sessions that a request of the session may be answered or announced to. */
    ghost function Audience(roomname: string, session: Session): set<Session>
      reads this`activeRooms
    {
      Members(roomname).Values + {session}
    }

    /** A request changes the sessions of its room only by those of its own user. */
    lemma AudienceAfter(st: Rooms<Session>, operation: RoomOperation, user: int, session: Session, room: string,
                        found: Option<Row>, inserted: Option<Row>)
      requires st == State()
      ensures var after := Handled(st, operation, user, session, room, found, inserted).active;
              room in after ==> after[room].members.Values <= Audience(room, session)
    {
      var after := Handled(st, operation, user, session, room, found, inserted).active;
      if room in after {
        forall s | s in after[room].members.Values ensures s in Audience(room, session) {
          var u := KeyOf(after[room].members, s);
          assert s == session || (room in st.active && u in st.active[room].members && st.active[room].members[u] == s);
        }
      }
    }

    /**
     Since the old state, each session of the audience was sent the notice once for every member other than the
     user that it serves, and then, if it is the requester, the answer.
     */
    twostate predicate Told(audience: set<Session>, user: int, notice: Option<Envelope>,
                            session: Session, roomname: string, answer: Envelope)
      reads this, audience
    {
      forall s :: s in audience ==>
        s.outbox == old(s.outbox)
          + ((if notice.Some? then Repeat(notice.value, Copies(Members(roomname), user, s)) else [])
             + (if s == session then [answer] else []))
    }

    /** Announces a change to the room, then answers the requester. */
    method Tell(ghost audience: set<Session>, userId: int, notice: Envelope,
                session: Session, roomname: string, answer: Envelope)
      requires Members(roomname).Values <= audience && session in audience
      modifies audience`outbox
      ensures Told(audience, userId, Some(notice), session, roomname, answer)
    {
      BroadcastToRoom(roomname, notice, userId);
      session.Send(answer);
    }

    method HandleJoin(session: Session, roomname: string, row: Row)
      requires session.Valid() && session.authenticated
      modifies this`activeRooms, this`userToRoomMap, Audience(roomname, session)`outbox
      ensures State() == Join(old(State()), session.userId.value, session, roomname, row)
      ensures Told(old(Audience(roomname, session)), session.userId.value,
                   Some(ServerNotification(USER_JOINED, session.userId.value, session.username.value)),
                   session, roomname, RoomAnswer(JOIN, roomname, true))
    {
      var userId := session.userId.value;
      ghost var audience := Audience(roomname, session);
      AudienceAfter(State(), JOIN, userId, session, roomname, Some(row), None);
      CommitJoin(userId, session, roomname, row);
      Tell(audience, userId, ServerNotification(USER_JOINED, userId, session.username.value),
           session, roomname, RoomAnswer(JOIN, roomname, true));
    }

    method HandleLeave(session: Session, roomname: string)
      requires session.Valid() && session.authenticated
      modifies this`activeRooms, this`userToRoomMap, Audience(roomname, session)`outbox
      ensures State() == Leave(old(State()), session.userId.value, roomname)
      ensures Told(old(Audience(roomname, session)), session.userId.value,
                   Some(ServerNotification(USER_LEFT, session.userId.value, session.username.value)),
                   session, roomname, RoomAnswer(LEAVE, roomname, true))
    {
      var userId := session.userId.value;
      ghost var audience := Audience(roomname, session);
      AudienceAfter(State(), LEAVE, userId, session, roomname, None, None);
      CommitLeave(userId, roomname);
      Tell(audience, userId, ServerNotification(USER_LEFT, userId, session.username.value),
           session, roomname, RoomAnswer(LEAVE, roomname, true));
    }

    /** Creates the room unless the name is taken; nobody is notified. */
    method HandleCreate(session: Session, roomname: string, db: Database) returns (success: bool)
      requires session.Valid() && session.authenticated && roomRepository.Valid()
      modifies this`activeRooms, this`userToRoomMap, roomRepository`rows
      ensures roomRepository.Valid()
      ensures var user := session.userId.value;
              var canon, table := roomRepository.canon, old(roomRepository.rows);
              var row := Row(db.newId, roomname, user);
              var found, added := Query(canon, table, roomname, db.answered), Added(canon, table, row, db);
              && State() == Handled(old(State()), CREATE, user, session, roomname, found, added)
              && roomRepository.rows == (if found.None? && Stored(canon, table, row, db) then table + [row] else table)
              && success == Succeeds(CREATE, found, added)
    {
      var found := roomRepository.FindByRoomName(roomname, db);
      if found.Some? {
        return false;
      }
      var room := roomRepository.AddRoom(roomname, session.userId.value, db);
      if room.Some? {
        CommitCreate(session.userId.value, session, roomname, room.value);
      }
      success := room.Some?;
    }

    /**
     A room request. The live rooms and the table change as the operation says; the members of the
     room after it get the notice, the requester excepted, and the requester then gets the answer.
     */
    method HandleRoomOperation(session: Session, operation: RoomOperation, roomname: string, db: Database)
      requires session.Valid() && roomRepository.Valid()
      modifies this`activeRooms, this`userToRoomMap, roomRepository`rows, Audience(roomname, session)`outbox
      ensures roomRepository.Valid()
      ensures !session.authenticated ==>
                && State() == old(State()) && roomRepository.rows == old(roomRepository.rows)
                && forall s :: s in old(Audience(roomname, session)) ==> s.outbox == old(s.outbox)
      ensures session.authenticated ==>
                var user := session.userId.value;
                var canon, table := roomRepository.canon, old(roomRepository.rows);
                var row := Row(db.newId, roomname, user);
                var found, added := Query(canon, table, roomname, db.answered), Added(canon, table, row, db);
                && State() == Handled(old(State()), operation, user, session, roomname, found, added)
                && roomRepository.rows ==
                     (if operation.CREATE? && found.None? && Stored(canon, table, row, db) then table + [row] else table)
                && Told(old(Audience(roomname, session)), user, Notice(operation, user, session.username.value, found),
                        session, roomname, RoomAnswer(operation, roomname, Succeeds(operation, found, added)))
    {
      if !session.authenticated {
        return;
      }
      match operation {
        case JOIN =>
          var found := roomRepository.FindByRoomName(roomname, db);
          if found.None? {
            session.Send(RoomAnswer(JOIN, roomname, false));
          } else {
            HandleJoin(session, roomname, found.value);
          }
        case LEAVE =>
          HandleLeave(session, roomname);
        case CREATE =>
          var success := HandleCreate(session, roomname, db);
          session.Send(RoomAnswer(CREATE, roomname, success));
        case UnknownOperation(_) =>
          session.Send(RoomAnswer(operation, roomname, false));
      }
    }

    /** Tells the room, then takes the user out of it; the sessions told are the members before. */
    method HandleDisconnect(session: Session)
      requires session.Valid()
      modifies this`activeRooms, this`userToRoomMap
      modifies (if session.authenticated then Members(CurrentRoomName(State(), session.userId.value)).Values else {})`outbox
      ensures !session.authenticated ==> State() == old(State())
      ensures session.authenticated ==> State() == Disconnect(old(State()), session.userId.value)
      ensures session.authenticated && session.userId.value !in old(userToRoomMap) ==>
                forall s :: s in old(Members("").Values) ==> s.outbox == old(s.outbox)
      ensures session.authenticated && session.userId.value in old(userToRoomMap) ==>
                var user := session.userId.value;
                var members := old(Members(userToRoomMap[user]));
                forall s :: s in members.Values ==>
                  s.outbox == old(s.outbox) + Repeat(ServerNotification(USER_LEFT, user, session.username.value),
                                                     Copies(members, user, s))
    {
      if !session.authenticated {
        return;
      }
      var userId := session.userId.value;
      if userId in userToRoomMap {
        var roomName := userToRoomMap[userId];
        BroadcastToRoom(roomName, ServerNotification(USER_LEFT, userId, session.username.value), userId);
        EraseMember(roomName, userId);
        userToRoomMap := userToRoomMap - {userId};
      }
    }
  }
}
