/** The server: the authentication gate in front of the services, and the disconnect task across both of them. */
module Server {
  import opened Wrappers
  import opened RoomState
  import opened RoomTable
  import opened RoomProtocol
  import opened RoomRepository
  import opened RoomService
  import opened Session
  import SessionIndex
  import ServerState
  import SessionManager
  import opened ServerMail
  import MessageRepository
  import MessageService
  import History
  import Broadcast

  class Server {
    const sessionManager: SessionManager.SessionManager
    const roomService: RoomService
    const messageService: MessageService.MessageService
    const roomRepository: RoomRepository
    const messageRepository: MessageRepository.MessageRepository

    constructor (roomRepository: RoomRepository, messageRepository: MessageRepository.MessageRepository)
      requires roomRepository.Valid()
      ensures this.roomRepository == roomRepository && this.messageRepository == messageRepository
      ensures fresh(sessionManager) && fresh(roomService)
      ensures Consistent({}) && View({}) == ServerState.Start()
    {
      this.roomRepository, this.messageRepository := roomRepository, messageRepository;
      var sessions := new SessionManager.SessionManager();
      var rooms := new RoomService(roomRepository);
      sessionManager, roomService := sessions, rooms;
      messageService := new MessageService.MessageService(messageRepository, sessions, rooms);
    }

    /** The services share their parts; the known sessions are well-formed and no others are indexed or in a room. */
    ghost predicate Consistent(known: set<Session>)
      reads this, sessionManager, roomService, roomRepository, known
    {
      && roomService.roomRepository == roomRepository && roomRepository.Valid()
      && messageService.messageRepository == messageRepository
      && messageService.sessionManager == sessionManager && messageService.roomService == roomService
      && sessionManager.AllValid(known)
      && ServerState.Within(View(known), known)
    }

    ghost function View(known: set<Session>): ServerState.Server<Session>
      requires sessionManager.AllValid(known)
      reads sessionManager, roomService, known
    {
      ServerState.Server(sessionManager.View(known), roomService.State())
    }

    /** The disconnect task: first the rooms, which need the identity, then the indexes. */
    method RunDisconnectTask(session: Session, ghost known: set<Session>)
      requires Consistent(known) && session in known
      modifies sessionManager, roomService, known`outbox
      ensures Consistent(known)
      ensures View(known) == ServerState.Serve(old(View(known)), ServerState.Closed(session))
      ensures forall to :: to in known ==> to.outbox == old(to.outbox) + DisconnectMail(old(View(known)), session, to)
    {
      ghost var before := View(known);
      LeaveRooms(session, known);
      sessionManager.Remove(session, known);
      ServerState.ServeWithin(before, ServerState.Closed(session), known);
    }

    method LeaveRooms(session: Session, ghost known: set<Session>)
      requires Consistent(known) && session in known
      modifies roomService, known`outbox
      ensures sessionManager.AllValid(known) && sessionManager.View(known) == old(sessionManager.View(known))
      ensures roomService.State() == if !session.authenticated then old(roomService.State())
                                     else Disconnect(old(roomService.State()), session.userId.value)
      ensures forall to :: to in known ==> to.outbox == old(to.outbox) + DisconnectMail(old(View(known)), session, to)
    {
      if session.authenticated {
        ghost var user := session.userId.value;
        ghost var members := roomService.Members(CurrentRoomName(roomService.State(), user));
        roomService.HandleDisconnect(session);
        sessionManager.SendingKeepsView(known);
        forall to | to in known && to !in members.Values ensures Broadcast.Copies(members, user, to) == 0 {
          Broadcast.NoCopyOutside(members, user, to);
        }
      }
    }

    /** The answer to a history request is one that the query allows. */
    ghost predicate Answerable(session: Session, payload: Payload, outside: Outside)
      requires session.Valid()
      reads session, roomService, messageRepository
    {
      payload.HistoryMessageRequest? && History.MaySee(roomService, session, payload.historyRoom) ==>
        MessageRepository.AnswersLatest(messageRepository.rows, CurrentRoomId(roomService.State(), session.userId.value),
                                        History.Limit(payload.limit), outside.answer)
    }

    /** An accepted connection: a session that is connected and not authenticated. */
    method HandleAccept(ghost known: set<Session>) returns (session: Session)
      requires Consistent(known)
      modifies sessionManager`connected
      ensures fresh(session) && !session.authenticated && session.outbox == []
      ensures sessionManager.connected == old(sessionManager.connected) + {session}
      ensures Consistent(known + {session})
      ensures ServerState.Orderly(old(View(known)), ServerState.Account(SessionIndex.Connect(session)))
      ensures View(known + {session}) == ServerState.Serve(old(View(known)), ServerState.Account(SessionIndex.Connect(session)))
    {
      session := new Session();
      sessionManager.connected := sessionManager.connected + {session};
    }

    /**
     Dispatches a payload. Sessions and rooms move as by the request that the payload stands for, or not at all;
     every session is sent its mail, which for anything but a login or a registration of an unauthenticated session is one error.
     */
    method DispatchMessage(session: Session, payload: Payload, db: Database, outside: Outside, ghost known: set<Session>)
      requires Consistent(known) && session in known && Answerable(session, payload, outside)
      modifies sessionManager, roomService, roomRepository, messageRepository, known
      ensures Consistent(known)
      ensures View(known) == Effect(old(View(known)), Served(old(View(known)), roomRepository.canon, old(roomRepository.rows),
                                                             db, session, payload))
      ensures forall to :: to in known ==>
                to.outbox == old(to.outbox) + Mail(old(View(known)), View(known), roomRepository.canon, old(roomRepository.rows),
                                                   db, outside, session, payload, to)
      ensures roomRepository.rows ==
                if old(session.authenticated) && payload.RoomOperationRequest?
                then TableAfter(old(session.Identity()), payload.operation, payload.room, roomRepository.canon, old(roomRepository.rows), db)
                else old(roomRepository.rows)
      ensures messageRepository.rows ==
                if old(session.authenticated) && payload.PublicMessage?
                then MessagesAfter(old(View(known)), old(session.Identity()), payload.content, old(messageRepository.rows), outside)
                else old(messageRepository.rows)
    {
      if payload.LoginRequest? {
        HandleLogin(session, payload.account, known);
      } else if payload.RegistrationRequest? {
        Answer(session, AccountAnswer(payload), known);
      } else if !session.authenticated {
        Answer(session, ErrorResponse(0), known);
      } else if payload.RoomOperationRequest? {
        HandleRoom(session, payload.operation, payload.room, db, known);
      } else {
        HandleAuthenticated(session, payload, outside, known);
      }
    }

    /** The authenticated requests that concern no live room; they get on without the rooms table. */
    method HandleAuthenticated(session: Session, payload: Payload, outside: Outside, ghost known: set<Session>)
      requires Consistent(known) && session in known && session.authenticated && Answerable(session, payload, outside)
      requires !payload.LoginRequest? && !payload.RegistrationRequest? && !payload.RoomOperationRequest?
      modifies sessionManager, messageRepository, known
      ensures Consistent(known)
      ensures forall canon, table, db ::
                View(known) == Effect(old(View(known)), Served(old(View(known)), canon, table, db, session, payload))
      ensures forall to, after, canon, table, db :: to in known ==>
                to.outbox == old(to.outbox) + Mail(old(View(known)), after, canon, table, db, outside, session, payload, to)
      ensures messageRepository.rows ==
                if payload.PublicMessage?
                then MessagesAfter(old(View(known)), old(session.Identity()), payload.content, old(messageRepository.rows), outside)
                else old(messageRepository.rows)
    {
      match payload {
        case ChangePasswordRequest(_) => Answer(session, AccountAnswer(payload), known);
        case ChangeUsernameRequest(newUsername) => HandleRename(session, newUsername, known);
        case PublicMessage(content) => HandlePublic(session, content, outside, known);
        case PrivateMessageRequest(toUsername, content) => HandlePrivate(session, toUsername, content, known);
        case HistoryMessageRequest(room, limit) => HandleHistory(session, payload, outside, known);
        case UnknownPayload =>
      }
    }

    /** Sends to one session alone. */
    method Answer(session: Session, envelope: Envelope, ghost known: set<Session>)
      requires Consistent(known) && session in known
      modifies session`outbox
      ensures Consistent(known) && View(known) == old(View(known))
      ensures forall to :: to in known ==> to.outbox == old(to.outbox) + Only(session, envelope, to)
    {
      session.Send(envelope);
      sessionManager.SendingKeepsView(known);
    }

    /** A public message goes to the members of the sender's room. */
    method HandlePublic(session: Session, content: string, outside: Outside, ghost known: set<Session>)
      requires Consistent(known) && session in known && session.authenticated
      modifies messageRepository, known`outbox
      ensures Consistent(known) && View(known) == old(View(known))
      ensures forall to :: to in known ==>
                to.outbox == old(to.outbox) + PublicMail(View(known), session, content, to)
      ensures messageRepository.rows == MessagesAfter(View(known), session.Identity(), content, old(messageRepository.rows), outside)
    {
      ghost var room := messageService.RoomOf(session);
      ghost var members := roomService.Members(room);
      messageService.HandlePublicMessage(session, content, outside.id, outside.now, outside.stored);
      sessionManager.SendingKeepsView(known);
      assert session.Identity() == View(known).dir.identity[session];
      forall to | to in known
        ensures to.outbox == old(to.outbox) + PublicMail(View(known), session, content, to)
      {
        if to !in members.Values {
          Broadcast.NoCopyOutside(members, 0, to);
        }
      }
    }

    method HandlePrivate(session: Session, toUsername: string, content: string, ghost known: set<Session>)
      requires Consistent(known) && session in known && session.authenticated
      modifies known`outbox
      ensures Consistent(known) && View(known) == old(View(known))
      ensures forall to :: to in known ==>
                to.outbox == old(to.outbox) + PrivateMail(View(known), session, toUsername, content, to)
    {
      messageService.HandlePrivateMessage(session, toUsername, content);
      sessionManager.SendingKeepsView(known);
    }

    method HandleHistory(session: Session, payload: Payload, outside: Outside, ghost known: set<Session>)
      requires Consistent(known) && session in known && session.authenticated
      requires payload.HistoryMessageRequest? && Answerable(session, payload, outside)
      modifies session`outbox
      ensures Consistent(known) && View(known) == old(View(known))
      ensures forall to :: to in known ==>
                to.outbox == old(to.outbox) + HistoryMail(View(known), session, payload.historyRoom, outside, to)
    {
      History.HandleHistoryRequest(roomService, session, payload.historyRoom, payload.limit, messageRepository.rows,
                                   outside.answer, outside.names, outside.clock, outside.failed);
      sessionManager.SendingKeepsView(known);
    }

    /** A room request of an authenticated session; it changes no identity and no index. */
    method HandleRoom(session: Session, operation: RoomOperation, room: string, db: Database, ghost known: set<Session>)
      requires Consistent(known) && session in known && session.authenticated
      modifies roomService, roomRepository, known`outbox
      ensures Consistent(known)
      ensures View(known) == Effect(old(View(known)), ServedRoom(session.Identity(), session, operation, room,
                                                                 roomRepository.canon, old(roomRepository.rows), db))
      ensures forall to :: to in known ==>
                to.outbox == old(to.outbox) + RoomMail(roomService.State(), session.Identity(), session, operation, room,
                                                       roomRepository.canon, old(roomRepository.rows), db, to)
      ensures roomRepository.rows == TableAfter(session.Identity(), operation, room, roomRepository.canon, old(roomRepository.rows), db)
    {
      ghost var before, canon, table := View(known), roomRepository.canon, roomRepository.rows;
      ghost var request := ServedRoom(session.Identity(), session, operation, room, canon, table, db);
      HandledIsServed(before, session, operation, room, canon, table, db);
      HandleRoomOperation(session, operation, room, db, known);
      if request.Some? {
        ServerState.ServeWithin(before, request.value, known);
      }
    }

    method HandleRoomOperation(session: Session, operation: RoomOperation, room: string, db: Database, ghost known: set<Session>)
      requires Consistent(known) && session in known && session.authenticated
      modifies roomService, roomRepository, known`outbox
      ensures roomRepository.Valid() && sessionManager.AllValid(known) && sessionManager.View(known) == old(sessionManager.View(known))
      ensures var user, canon, table := session.userId.value, roomRepository.canon, old(roomRepository.rows);
              var found, added := Query(canon, table, room, db.answered), Added(canon, table, Row(db.newId, room, user), db);
              roomService.State() == Handled(old(roomService.State()), operation, user, session, room, found, added)
      ensures forall to :: to in known ==>
                to.outbox == old(to.outbox) + RoomMail(roomService.State(), session.Identity(), session, operation, room,
                                                       roomRepository.canon, old(roomRepository.rows), db, to)
      ensures roomRepository.rows == TableAfter(session.Identity(), operation, room, roomRepository.canon, old(roomRepository.rows), db)
    {
      ghost var audience := roomService.Audience(room, session);
      ghost var st, id, canon, table := roomService.State(), session.Identity(), roomRepository.canon, roomRepository.rows;
      ghost var found, added := Query(canon, table, room, db.answered), Added(canon, table, Row(db.newId, room, id.userId), db);
      roomService.AudienceAfter(st, operation, id.userId, session, room, found, added);
      roomService.HandleRoomOperation(session, operation, room, db);
      sessionManager.SendingKeepsView(known);
      forall to | to in known && to !in audience
        ensures Broadcast.Copies(roomService.Members(room), id.userId, to) == 0
      {
        Broadcast.NoCopyOutside(roomService.Members(room), id.userId, to);
      }
    }

    /** A login registers the session, whoever else is registered under the account. */
    method HandleLogin(session: Session, account: Option<SessionIndex.Identity>, ghost known: set<Session>)
      requires Consistent(known) && session in known
      modifies sessionManager, session
      ensures Consistent(known)
      ensures View(known) == if account.None? then old(View(known)) else
                ServerState.Serve(old(View(known)),
                  ServerState.Account(SessionIndex.Register(session, account.value.userId, account.value.username)))
      ensures forall to :: to in known ==>
                to.outbox == old(to.outbox) + Only(session, AccountAnswer(LoginRequest(account)), to)
    {
      if account.Some? {
        ghost var op := SessionIndex.Register(session, account.value.userId, account.value.username);
        ServerState.ServeWithin(View(known), ServerState.Account(op), known);
        sessionManager.RegisterAuthenticatedSession(session, account.value.userId, account.value.username, known);
      }
      Answer(session, AccountAnswer(LoginRequest(account)), known);
    }

    /** A rename that the user table has admitted. */
    method HandleRename(session: Session, newUsername: Option<string>, ghost known: set<Session>)
      requires Consistent(known) && session in known && session.authenticated
      modifies sessionManager, session
      ensures Consistent(known)
      ensures View(known) == if newUsername.None? then old(View(known)) else
                ServerState.Serve(old(View(known)), ServerState.Account(SessionIndex.Rename(session, newUsername.value)))
      ensures forall to :: to in known ==>
                to.outbox == old(to.outbox) + Only(session, AccountAnswer(ChangeUsernameRequest(newUsername)), to)
    {
      if newUsername.Some? {
        ghost var op := SessionIndex.Rename(session, newUsername.value);
        ServerState.ServeWithin(View(known), ServerState.Account(op), known);
        sessionManager.UpdateUsername(session, newUsername.value, known);
      }
      Answer(session, AccountAnswer(ChangeUsernameRequest(newUsername)), known);
    }
  }
}
