/** What the server sends to which session in answer to a payload, and who gets it how often. */
module ServerMail {
  import opened Wrappers
  import opened RoomState
  import opened RoomTable
  import opened RoomProtocol
  import opened RoomRepository
  import opened RoomService
  import opened SessionIndex
  import opened ServerState
  import opened Session
  import Broadcast
  import MessageRepository
  import MessageService
  import History

  datatype Registration = NameTaken | Registered | NotStored

  datatype Payload =
    | LoginRequest(account: Option<Identity>)                    // the account whose password matches, if any
    | RegistrationRequest(outcome: Registration)                 // what becomes of it in the user table
    | ChangePasswordRequest(changed: bool)                       // whether the user table has the new one
    | ChangeUsernameRequest(newUsername: Option<string>)         // the new name once stored, if it was admitted
    | PublicMessage(content: string)
    | PrivateMessageRequest(toUsername: string, message: string)
    | RoomOperationRequest(operation: RoomOperation, room: string)
    | HistoryMessageRequest(historyRoom: string, limit: int)
    | UnknownPayload

  /** What a message or history request gets from outside the server. */
  datatype Outside = Outside(
    now: int,                                    // the time
    id: int,                                     // the id of a new message
    stored: bool,                                // whether a message can be stored
    answer: seq<MessageRepository.MessageRow>,   // the answer to the history query
    failed: bool,                                // whether that query fails
    clock: nat -> int,                           // the time when the i-th row of the answer is fetched
    names: int -> Option<string>                 // the stored usernames
  )

  /** What one session alone is sent. */
  ghost function Only<S>(s: S, envelope: Envelope, to: S): seq<Envelope> {
    if to == s then [envelope] else []
  }

  function Members<S>(rooms: Rooms<S>, room: string): map<int, S> {
    if room in rooms.active then rooms.active[room].members else map[]
  }

  ghost function PublicMail<S>(srv: Server<S>, s: S, content: string, to: S): seq<Envelope>
    requires s in srv.dir.identity
  {
    var id := srv.dir.identity[s];
    var room := CurrentRoomName(srv.rooms, id.userId);
    if room == "" then Only(s, ErrorResponse(MessageService.FORBIDDEN), to)
    else Broadcast.Repeat(MessageBroadcast(id.userId, id.username, content, room),
                          Broadcast.Copies(Members(srv.rooms, room), 0, to))
  }

  ghost function PrivateMail<S>(srv: Server<S>, s: S, toUsername: string, content: string, to: S): seq<Envelope>
    requires s in srv.dir.identity
  {
    var id := srv.dir.identity[s];
    var room := CurrentRoomName(srv.rooms, id.userId);
    var found := FindByUsername(srv.dir, toUsername);
    if room == "" then Only(s, ErrorResponse(MessageService.FORBIDDEN), to)
    else if found.None? || found.value !in srv.dir.identity then Only(s, ErrorResponse(MessageService.NOT_FOUND), to)
    else if srv.dir.identity[found.value].userId == id.userId then Only(s, ErrorResponse(MessageService.BAD_REQUEST), to)
    else
      var message := MessageBroadcast(id.userId, id.username, content, room);
      Only(found.value, message, to) + Only(s, message, to)
  }

  /** The notice to the other members of the room, as they are after the request, and the answer. */
  ghost function RoomMail<S>(after: Rooms<S>, id: Identity, s: S, operation: RoomOperation, room: string,
                             canon: Collation, table: seq<Row>, db: Database, to: S): seq<Envelope>
  {
    var found := Query(canon, table, room, db.answered);
    var added := Added(canon, table, Row(db.newId, room, id.userId), db);
    var notice := Notice(operation, id.userId, id.username, found);
    (if notice.Some? then Broadcast.Repeat(notice.value, Broadcast.Copies(Members(after, room), id.userId, to)) else [])
    + Only(s, RoomAnswer(operation, room, Succeeds(operation, found, added)), to)
  }

  ghost function HistoryMail<S>(srv: Server<S>, s: S, room: string, outside: Outside, to: S): seq<Envelope>
    requires s in srv.dir.identity
  {
    var user := srv.dir.identity[s].userId;
    if user !in srv.rooms.current || srv.rooms.current[user] != room then []
    else Only(s, HistoryMessageResponse(room, if outside.failed then []
                                              else History.Reply(outside.answer, outside.clock, outside.names)), to)
  }

  /** What is sent when a session disconnects: the other members of its user's room are told. */
  ghost function DisconnectMail<S>(srv: Server<S>, s: S, to: S): seq<Envelope> {
    if s !in srv.dir.identity || srv.dir.identity[s].userId !in srv.rooms.current then [] else
    var id := srv.dir.identity[s];
    Broadcast.Repeat(ServerNotification(USER_LEFT, id.userId, id.username),
                     Broadcast.Copies(Members(srv.rooms, srv.rooms.current[id.userId]), id.userId, to))
  }

  /** The answer to an account request; the user table is not part of the model. */
  function AccountAnswer(payload: Payload): Envelope
    requires payload.LoginRequest? || payload.RegistrationRequest? || payload.ChangePasswordRequest? || payload.ChangeUsernameRequest?
  {
    match payload
    case LoginRequest(account) => if account.Some? then LoginResponse(true) else ErrorResponse(0)
    case RegistrationRequest(outcome) => if outcome.NameTaken? then ErrorResponse(0) else RegistrationResponse(outcome.Registered?)
    case ChangePasswordRequest(changed) => if changed then ChangePasswordResponse(true) else ErrorResponse(0)
    case ChangeUsernameRequest(newUsername) => if newUsername.Some? then ChangeUsernameResponse(true) else ErrorResponse(0)
  }

  /** What a session is sent when a payload is dispatched: an error for anything that needs a login before. */
  ghost function Mail<S>(srv: Server<S>, after: Server<S>, canon: Collation, table: seq<Row>, db: Database,
                         outside: Outside, s: S, payload: Payload, to: S): seq<Envelope>
  {
    if payload.LoginRequest? || payload.RegistrationRequest? then Only(s, AccountAnswer(payload), to)
    else if s !in srv.dir.identity then Only(s, ErrorResponse(0), to)
    else
      match payload
      case PublicMessage(content) => PublicMail(srv, s, content, to)
      case PrivateMessageRequest(toUsername, content) => PrivateMail(srv, s, toUsername, content, to)
      case RoomOperationRequest(operation, room) =>
        RoomMail(after.rooms, srv.dir.identity[s], s, operation, room, canon, table, db, to)
      case HistoryMessageRequest(room, _) => HistoryMail(srv, s, room, outside, to)
      case ChangePasswordRequest(_) => Only(s, AccountAnswer(payload), to)
      case ChangeUsernameRequest(_) => Only(s, AccountAnswer(payload), to)
      case _ => []
  }

  ghost function ServedRoom<S>(id: Identity, s: S, operation: RoomOperation, room: string,
                               canon: Collation, table: seq<Row>, db: Database): Option<Request<S>>
  {
    var found := Query(canon, table, room, db.answered);
    var added := Added(canon, table, Row(db.newId, room, id.userId), db);
    match operation
    case JOIN => if found.Some? then Some(JoinRoom(s, room, found.value)) else None
    case LEAVE => Some(LeaveRoom(s, room))
    case CREATE => if found.None? && added.Some? then Some(CreateRoom(s, room, added.value)) else None
    case UnknownOperation(_) => None
  }

  /** What a dispatched payload is to the sessions and rooms: nothing for messages, history and passwords. */
  ghost function Served<S>(srv: Server<S>, canon: Collation, table: seq<Row>, db: Database,
                           s: S, payload: Payload): Option<Request<S>>
  {
    if payload.LoginRequest? && payload.account.Some? then
      Some(Account(Register(s, payload.account.value.userId, payload.account.value.username)))
    else if s !in srv.dir.identity then None
    else if payload.ChangeUsernameRequest? && payload.newUsername.Some? then Some(Account(Rename(s, payload.newUsername.value)))
    else if payload.RoomOperationRequest? then
      ServedRoom(srv.dir.identity[s], s, payload.operation, payload.room, canon, table, db)
    else None
  }

  /** The rooms table after a room request. */
  ghost function TableAfter(id: Identity, operation: RoomOperation, room: string, canon: Collation, table: seq<Row>,
                            db: Database): seq<Row>
  {
    var row := Row(db.newId, room, id.userId);
    if operation.CREATE? && Query(canon, table, room, db.answered).None? && Stored(canon, table, row, db)
    then table + [row] else table
  }

  /** The messages table after a public message. */
  function MessagesAfter<S>(srv: Server<S>, id: Identity, content: string, messages: seq<MessageRepository.MessageRow>,
                            outside: Outside): seq<MessageRepository.MessageRow>
  {
    if CurrentRoomName(srv.rooms, id.userId) == "" || !outside.stored then messages
    else messages + [MessageRepository.MessageRow(outside.id, CurrentRoomId(srv.rooms, id.userId), id.userId, content, Some(outside.now))]
  }

  ghost function Effect<S>(srv: Server<S>, request: Option<Request<S>>): Server<S> {
    if request.Some? then Serve(srv, request.value) else srv
  }

  /** The handler of a room request does to the rooms what the request it stands for does. */
  lemma HandledIsServed<S>(srv: Server<S>, s: S, operation: RoomOperation, room: string,
                           canon: Collation, table: seq<Row>, db: Database)
    requires s in srv.dir.identity
    ensures var id := srv.dir.identity[s];
            var found, added := Query(canon, table, room, db.answered), Added(canon, table, Row(db.newId, room, id.userId), db);
            Effect(srv, ServedRoom(id, s, operation, room, canon, table, db))
            == srv.(rooms := Handled(srv.rooms, operation, id.userId, s, room, found, added))
  {
  }

  // ----- exactly once -----

  lemma SeatedInRoom<S>(srv: Server<S>, s: S)
    requires ServerState.Inv(srv) && Live(srv.dir, s) && srv.dir.identity[s].userId in srv.rooms.current
    ensures var user := srv.dir.identity[s].userId;
            var members := Members(srv.rooms, srv.rooms.current[user]);
            user in members && members[user] == s
  {
    var user := srv.dir.identity[s].userId;
    var seat := Seat(user, srv.rooms.current[user]);
    assert seat in Seats(srv.rooms.active);
    assert Occupied(srv.rooms.active, seat);
  }

  /**
   In an orderly server a public message goes exactly once to the session of each member of the sender's room, the
   sender's own session among them, and to nobody else; a user with the id 0 would get none.
   */
  lemma PublicExactlyOnce<S>(srv: Server<S>, s: S, content: string, member: int, other: S)
    requires ServerState.Inv(srv) && Live(srv.dir, s)
    requires srv.dir.identity[s].userId in srv.rooms.current && srv.rooms.current[srv.dir.identity[s].userId] != ""
    ensures var id := srv.dir.identity[s];
            var room := srv.rooms.current[id.userId];
            var members := Members(srv.rooms, room);
            && id.userId in members && members[id.userId] == s
            && (member in members ==>
                  PublicMail(srv, s, content, members[member])
                  == if member == 0 then [] else [MessageBroadcast(id.userId, id.username, content, room)])
            && (other !in members.Values ==> PublicMail(srv, s, content, other) == [])
  {
    var id := srv.dir.identity[s];
    var room := srv.rooms.current[id.userId];
    var members := Members(srv.rooms, room);
    SeatedInRoom(srv, s);
    if member in members {
      BroadcastExactlyOnce(srv, room, member, 0);
      RepeatOnce(MessageBroadcast(id.userId, id.username, content, room));
    }
    if other !in members.Values {
      Broadcast.NoCopyOutside(members, 0, other);
    }
  }

  lemma RepeatOnce<T>(x: T)
    ensures Broadcast.Repeat(x, 1) == [x] && Broadcast.Repeat(x, 0) == []
  {
    assert Broadcast.Repeat(x, 0) + [x] == [x];
  }

  /**
   In an orderly server a successful join sends the notice exactly once to the session of each other member of the
   room, only the answer to the joiner, and nothing to anybody else, the room left included.
   */
  lemma JoinExactlyOnce<S>(srv: Server<S>, s: S, room: string, canon: Collation, table: seq<Row>, db: Database,
                           member: int, other: S)
    requires ServerState.Inv(srv) && Live(srv.dir, s) && Query(canon, table, room, db.answered).Some?
    ensures var id, row := srv.dir.identity[s], Query(canon, table, room, db.answered).value;
            var after := Serve(srv, JoinRoom(s, room, row));
            var members := Members(after.rooms, room);
            && id.userId in members && members[id.userId] == s
            && (member in members ==>
                  RoomMail(after.rooms, id, s, JOIN, room, canon, table, db, members[member])
                  == [if member == id.userId then RoomOperationResponse(true, JOIN, room)
                      else ServerNotification(USER_JOINED, id.userId, id.username)])
            && (other !in members.Values ==> RoomMail(after.rooms, id, s, JOIN, room, canon, table, db, other) == [])
  {
    var id, row := srv.dir.identity[s], Query(canon, table, room, db.answered).value;
    var after := Serve(srv, JoinRoom(s, room, row));
    ServeKeepsInv(srv, JoinRoom(s, room, row));
    SeatedInRoom(after, s);
    var members := Members(after.rooms, room);
    var notice := ServerNotification(USER_JOINED, id.userId, id.username);
    RepeatOnce(notice);
    if member in members {
      BroadcastExactlyOnce(after, room, member, id.userId);
      OneSeatEach(after, room, member, id.userId);
    }
    if other !in members.Values {
      Broadcast.NoCopyOutside(members, id.userId, other);
    }
  }

  lemma OneSeatEach<S>(srv: Server<S>, room: string, user: int, other: int)
    requires ServerState.Inv(srv) && user in Members(srv.rooms, room) && other in Members(srv.rooms, room)
    ensures Members(srv.rooms, room)[user] == Members(srv.rooms, room)[other] ==> user == other
  {
    var members := Members(srv.rooms, room);
    assert Occupied(srv.rooms.active, Seat(user, room)) && Occupied(srv.rooms.active, Seat(other, room));
    assert Seats(srv.rooms.active)[Seat(user, room)] == members[user];
    assert Seats(srv.rooms.active)[Seat(other, room)] == members[other];
  }

  /**
   In an orderly server a leave, also of a room the user is not in, sends the notice exactly once to the session of
   each other member of the room after it, only the answer to the requester, and nothing to anybody else.
   */
  lemma LeaveExactlyOnce<S>(srv: Server<S>, s: S, room: string, canon: Collation, table: seq<Row>, db: Database,
                            member: int, other: S)
    requires ServerState.Inv(srv) && s in srv.dir.identity
    ensures var id, after := srv.dir.identity[s], Serve(srv, LeaveRoom(s, room));
            var members := Members(after.rooms, room);
            && RoomMail(after.rooms, id, s, LEAVE, room, canon, table, db, s) == [RoomOperationResponse(true, LEAVE, room)]
            && (member in members && member != id.userId ==>
                  RoomMail(after.rooms, id, s, LEAVE, room, canon, table, db, members[member])
                  == [ServerNotification(USER_LEFT, id.userId, id.username)])
            && (other != s && other !in members.Values ==>
                  RoomMail(after.rooms, id, s, LEAVE, room, canon, table, db, other) == [])
  {
    var id, after := srv.dir.identity[s], Serve(srv, LeaveRoom(s, room));
    ServeKeepsInv(srv, LeaveRoom(s, room));
    var members := Members(after.rooms, room);
    RepeatOnce(ServerNotification(USER_LEFT, id.userId, id.username));
    NoCopyToOwnUser(after, room, s);
    if member in members && member != id.userId {
      BroadcastExactlyOnce(after, room, member, id.userId);
      MembersIdentified(after, room, member);
    }
    if other !in members.Values {
      Broadcast.NoCopyOutside(members, id.userId, other);
    }
  }

  lemma MembersIdentified<S>(srv: Server<S>, room: string, user: int)
    requires ServerState.Inv(srv) && user in Members(srv.rooms, room)
    ensures var s := Members(srv.rooms, room)[user]; s in srv.dir.identity && srv.dir.identity[s].userId == user
  {
    assert Occupied(srv.rooms.active, Seat(user, room));
    assert Seats(srv.rooms.active)[Seat(user, room)] == Members(srv.rooms, room)[user];
  }

  lemma NoCopyToOwnUser<S>(srv: Server<S>, room: string, s: S)
    requires ServerState.Inv(srv) && s in srv.dir.identity
    ensures Broadcast.Copies(Members(srv.rooms, room), srv.dir.identity[s].userId, s) == 0
  {
    var members, user := Members(srv.rooms, room), srv.dir.identity[s].userId;
    forall u | u in Broadcast.Through(members, user, s) ensures false {
      MembersIdentified(srv, room, u);
    }
    assert Broadcast.Through(members, user, s) == {};
  }

  /** A create is answered to the requester alone: with success exactly if neither name nor id is taken and the insert is acknowledged. */
  lemma CreateAnswersRequester<S>(after: Rooms<S>, id: Identity, s: S, room: string, canon: Collation, table: seq<Row>,
                                  db: Database, to: S)
    ensures var created := db.outcome.Acknowledged? && forall r :: r in table ==> canon(r.name) != canon(room) && r.id != db.newId;
            RoomMail(after, id, s, CREATE, room, canon, table, db, to)
            == if to == s then [RoomOperationResponse(created, CREATE, room)] else []
  {
    assert [] + Only(s, RoomAnswer(CREATE, room, true), to) == Only(s, RoomAnswer(CREATE, room, true), to);
  }

  /** A join without a row for the name is answered to the requester alone; the answer names neither operation nor room. */
  lemma RefusedJoinAnswersRequester<S>(after: Rooms<S>, id: Identity, s: S, room: string, canon: Collation,
                                       table: seq<Row>, db: Database, to: S)
    requires !db.answered || forall r :: r in table ==> canon(r.name) != canon(room)
    ensures RoomMail(after, id, s, JOIN, room, canon, table, db, to)
         == if to == s then [RoomOperationResponse(false, JOIN, "")] else []
  {
    assert Query(canon, table, room, db.answered).None?;
  }

  /** An unknown operation is answered to the requester alone. */
  lemma UnknownAnswersRequester<S>(after: Rooms<S>, id: Identity, s: S, code: int, room: string, canon: Collation,
                                   table: seq<Row>, db: Database, to: S)
    ensures RoomMail(after, id, s, UnknownOperation(code), room, canon, table, db, to)
         == if to == s then [RoomOperationResponse(false, UnknownOperation(code), room)] else []
  {
  }

  /** A disconnect sends the notice once to the session of each other member of the user's room and nothing to anybody else. */
  lemma DisconnectExactlyOnce<S>(srv: Server<S>, s: S, member: int, other: S)
    requires ServerState.Inv(srv) && s in srv.dir.identity && srv.dir.identity[s].userId in srv.rooms.current
    ensures var id := srv.dir.identity[s];
            var members := Members(srv.rooms, srv.rooms.current[id.userId]);
            && (member in members && member != id.userId ==>
                  DisconnectMail(srv, s, members[member]) == [ServerNotification(USER_LEFT, id.userId, id.username)])
            && DisconnectMail(srv, s, s) == []
            && (other !in members.Values ==> DisconnectMail(srv, s, other) == [])
  {
    var id := srv.dir.identity[s];
    var room := srv.rooms.current[id.userId];
    var members := Members(srv.rooms, room);
    RepeatOnce(ServerNotification(USER_LEFT, id.userId, id.username));
    NoCopyToOwnUser(srv, room, s);
    if member in members && member != id.userId {
      BroadcastExactlyOnce(srv, room, member, id.userId);
    }
    if other !in members.Values {
      Broadcast.NoCopyOutside(members, id.userId, other);
    }
  }

  // ----- answers to one session -----

  /** The user is in a room that counts as one. */
  predicate InRoom<S>(srv: Server<S>, user: int) {
    user in srv.rooms.current && srv.rooms.current[user] != ""
  }

  /** Without a room, a message gets the sender the error 403 and goes nowhere. */
  lemma RoomlessMail<S>(srv: Server<S>, s: S, toUsername: string, content: string, to: S)
    requires s in srv.dir.identity && !InRoom(srv, srv.dir.identity[s].userId)
    ensures PublicMail(srv, s, content, to) == PrivateMail(srv, s, toUsername, content, to)
         == if to == s then [ErrorResponse(403)] else []
  {
  }

  /**
   In an orderly server a private message from somebody in a room goes once to the live session of the named user and
   once back, with the sender's room; without such a session the sender gets the error 404, and 400 for the own name.
   */
  lemma PrivateExactlyOnce<S>(srv: Server<S>, s: S, toUsername: string, content: string, addressee: S, to: S)
    requires ServerState.Inv(srv) && Live(srv.dir, s) && InRoom(srv, srv.dir.identity[s].userId)
    ensures var id := srv.dir.identity[s];
            var message := MessageBroadcast(id.userId, id.username, content, srv.rooms.current[id.userId]);
            && (Live(srv.dir, addressee) && srv.dir.identity[addressee].username == toUsername && addressee != s ==>
                  PrivateMail(srv, s, toUsername, content, to) == if to == addressee || to == s then [message] else [])
            && (toUsername == id.username ==>
                  PrivateMail(srv, s, toUsername, content, to) == if to == s then [ErrorResponse(400)] else [])
            && ((forall q :: q in srv.dir.connected && Live(srv.dir, q) ==> srv.dir.identity[q].username != toUsername) ==>
                  PrivateMail(srv, s, toUsername, content, to) == if to == s then [ErrorResponse(404)] else [])
  {
    FindIsScan(srv.dir, s, srv.dir.identity[s].userId, toUsername);
    if Live(srv.dir, addressee) {
      FindIsScan(srv.dir, addressee, srv.dir.identity[addressee].userId, toUsername);
    }
  }

  /** The answers to logins, registrations, renames and password changes go to the requester alone. */
  lemma AccountMail<S>(srv: Server<S>, after: Server<S>, canon: Collation, table: seq<Row>, db: Database,
                       outside: Outside, s: S, payload: Payload, to: S)
    ensures to != s && (payload.LoginRequest? || payload.RegistrationRequest? || payload.ChangeUsernameRequest? || payload.ChangePasswordRequest?) ==>
              Mail(srv, after, canon, table, db, outside, s, payload, to) == []
    ensures payload.LoginRequest? ==>
              Mail(srv, after, canon, table, db, outside, s, payload, s)
              == [if payload.account.Some? then LoginResponse(true) else ErrorResponse(0)]
    ensures payload.RegistrationRequest? ==>
              Mail(srv, after, canon, table, db, outside, s, payload, s)
              == [match payload.outcome
                  case NameTaken => ErrorResponse(0)
                  case Registered => RegistrationResponse(true)
                  case NotStored => RegistrationResponse(false)]
    ensures payload.ChangeUsernameRequest? && s in srv.dir.identity ==>
              Mail(srv, after, canon, table, db, outside, s, payload, s)
              == [if payload.newUsername.Some? then ChangeUsernameResponse(true) else ErrorResponse(0)]
    ensures payload.ChangePasswordRequest? && s in srv.dir.identity ==>
              Mail(srv, after, canon, table, db, outside, s, payload, s)
              == [if payload.changed then ChangePasswordResponse(true) else ErrorResponse(0)]
  {
  }

  /** What the other payloads of an authenticated session send. */
  lemma MailOfPayload<S>(srv: Server<S>, after: Server<S>, canon: Collation, table: seq<Row>, db: Database,
                         outside: Outside, s: S, content: string, name: string, operation: RoomOperation, limit: int, to: S)
    requires s in srv.dir.identity
    ensures Mail(srv, after, canon, table, db, outside, s, PublicMessage(content), to) == PublicMail(srv, s, content, to)
    ensures Mail(srv, after, canon, table, db, outside, s, PrivateMessageRequest(name, content), to)
         == PrivateMail(srv, s, name, content, to)
    ensures Mail(srv, after, canon, table, db, outside, s, RoomOperationRequest(operation, name), to)
         == RoomMail(after.rooms, srv.dir.identity[s], s, operation, name, canon, table, db, to)
    ensures Mail(srv, after, canon, table, db, outside, s, HistoryMessageRequest(name, limit), to)
         == HistoryMail(srv, s, name, outside, to)
    ensures Mail(srv, after, canon, table, db, outside, s, UnknownPayload, to) == []
  {
  }

  /** What a public message leaves in the messages table, under the id of the sender's room. */
  lemma MessageStored<S>(srv: Server<S>, id: Identity, content: string, messages: seq<MessageRepository.MessageRow>, outside: Outside)
    requires id.userId in srv.rooms.current && srv.rooms.current[id.userId] in srv.rooms.active
    ensures var room := srv.rooms.current[id.userId];
            MessagesAfter(srv, id, content, messages, outside) ==
            if room != "" && outside.stored
            then messages + [MessageRepository.MessageRow(outside.id, srv.rooms.active[room].id, id.userId, content, Some(outside.now))]
            else messages
  {
  }

  /** Before a login, everything but a login or a registration gets the requester one error and has no effect. */
  lemma GateMail<S>(srv: Server<S>, after: Server<S>, canon: Collation, table: seq<Row>, db: Database,
                    outside: Outside, s: S, payload: Payload, to: S)
    requires s !in srv.dir.identity && !payload.LoginRequest? && !payload.RegistrationRequest?
    ensures Mail(srv, after, canon, table, db, outside, s, payload, to) == if to == s then [ErrorResponse(0)] else []
    ensures Served(srv, canon, table, db, s, payload).None?
  {
  }

  /** A history request of a member for the own room is answered with one reply, and any other with nothing. */
  lemma HistoryAnswered<S>(srv: Server<S>, s: S, room: string, outside: Outside, to: S)
    requires s in srv.dir.identity
    ensures HistoryMail(srv, s, room, outside, to)
         == if to == s && srv.dir.identity[s].userId in srv.rooms.current && srv.rooms.current[srv.dir.identity[s].userId] == room
            then [HistoryMessageResponse(room, if outside.failed then [] else History.Reply(outside.answer, outside.clock, outside.names))]
            else []
  {
  }

  /** What is served: every login and admitted rename, and every room request that can have an effect. */
  lemma ServedRequests<S>(srv: Server<S>, canon: Collation, table: seq<Row>, db: Database, s: S, room: string,
                          userId: int, username: string)
    ensures Served(srv, canon, table, db, s, LoginRequest(Some(Identity(userId, username))))
         == Some(Account(Register(s, userId, username)))
    ensures s in srv.dir.identity ==>
              && Served(srv, canon, table, db, s, ChangeUsernameRequest(Some(username))) == Some(Account(Rename(s, username)))
              && Served(srv, canon, table, db, s, RoomOperationRequest(LEAVE, room)) == Some(LeaveRoom(s, room))
    ensures s in srv.dir.identity && db.answered && (exists r :: r in table && canon(r.name) == canon(room)) ==>
              var request := Served(srv, canon, table, db, s, RoomOperationRequest(JOIN, room));
              && request.Some? && request.value.JoinRoom? && request.value.s == s && request.value.room == room
              && request.value.row in table && canon(request.value.row.name) == canon(room)
    ensures s in srv.dir.identity && db.outcome.Acknowledged?
            && (forall r :: r in table ==> canon(r.name) != canon(room) && r.id != db.newId) ==>
              Served(srv, canon, table, db, s, RoomOperationRequest(CREATE, room))
              == Some(CreateRoom(s, room, Row(db.newId, room, srv.dir.identity[s].userId)))
  {
  }
}
