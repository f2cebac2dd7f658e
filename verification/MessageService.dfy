/** Public and private messages; each reads the sender's current room from the room service. */
module MessageService {
  import opened Wrappers
  import opened RoomProtocol
  import opened Session
  import opened Broadcast
  import opened RoomService
  import opened MessageRepository
  import SessionManager

  const FORBIDDEN := 403
  const NOT_FOUND := 404
  const BAD_REQUEST := 400

  class MessageService {
    const messageRepository: MessageRepository
    const sessionManager: SessionManager.SessionManager
    const roomService: RoomService

    constructor (messageRepository: MessageRepository, sessionManager: SessionManager.SessionManager, roomService: RoomService)
      ensures this.messageRepository == messageRepository
      ensures this.sessionManager == sessionManager && this.roomService == roomService
    {
      this.messageRepository, this.sessionManager, this.roomService := messageRepository, sessionManager, roomService;
    }

    /** The room a session's user is in, "" for none. */
    ghost function RoomOf(session: Session): string
      requires session.Valid()
      reads session, roomService
    {
      if session.authenticated then CurrentRoomName(roomService.State(), session.userId.value) else ""
    }

    /** The sessions that a message of the session may reach. */
    ghost function Reach(session: Session): set<Session>
      requires session.Valid()
      reads session, roomService
    {
      {session} + roomService.Members(RoomOf(session)).Values
    }

    /**
     A public message, with no other handler in between: it is stored under the sender's room and goes once for
     each member, the sender included, to the members' sessions; without a room the sender gets an error.
     Nobody but a user with the id 0 is left out.
     */
    method HandlePublicMessage(session: Session, content: string, id: int, now: int, stored: bool)
      requires session.Valid()
      modifies messageRepository, Reach(session)`outbox
      ensures !session.authenticated ==>
                messageRepository.rows == old(messageRepository.rows)
                && forall s :: s in Reach(session) ==> s.outbox == old(s.outbox)
      ensures session.authenticated && RoomOf(session) == "" ==>
                && messageRepository.rows == old(messageRepository.rows)
                && session.outbox == old(session.outbox) + [ErrorResponse(FORBIDDEN)]
                && forall s :: s in Reach(session) && s != session ==> s.outbox == old(s.outbox)
      ensures session.authenticated && RoomOf(session) != "" ==>
                var user, room := session.userId.value, RoomOf(session);
                var roomId := CurrentRoomId(roomService.State(), user);
                var members := roomService.Members(room);
                && messageRepository.rows ==
                     (if stored then old(messageRepository.rows) + [MessageRow(id, roomId, user, content, Some(now))]
                      else old(messageRepository.rows))
                && forall s :: s in Reach(session) ==>
                     s.outbox == old(s.outbox)
                       + Repeat(MessageBroadcast(user, session.username.value, content, room), Copies(members, 0, s))
    {
      if !session.authenticated {
        return;
      }
      var senderId := session.userId.value;
      var roomName := roomService.GetUserCurrentRoomName(senderId);
      if roomName == "" {
        session.Send(ErrorResponse(FORBIDDEN));
        return;
      }
      var roomId := roomService.GetUserCurrentRoomId(senderId);
      var _ := messageRepository.AddMessage(MessageRow(id, roomId, senderId, content, Some(now)), stored);
      var broadcast := MessageBroadcast(senderId, session.username.value, content, roomName);
      var target := roomService.GetUserCurrentRoomName(session.userId.value);
      roomService.BroadcastToRoom(target, broadcast, 0);
      if session !in roomService.Members(target).Values {
        NoCopyOutside(roomService.Members(target), 0, session);
      }
    }

    /** The session that a private message is for, if it may be delivered. */
    ghost function Addressee(session: Session, toUsername: string): Option<Session>
      requires session.Valid()
      reads session, sessionManager, sessionManager.sessionsByUsername.Values
    {
      if toUsername in sessionManager.sessionsByUsername then
        var to := sessionManager.sessionsByUsername[toUsername];
        if to.authenticated && to.userId != session.userId then Some(to) else None
      else None
    }

    /** A private message goes to the addressee and back to the sender, labelled with the sender's room; else the sender gets one error. */
    method HandlePrivateMessage(session: Session, toUsername: string, content: string)
      requires session.Valid()
      requires toUsername in sessionManager.sessionsByUsername ==> sessionManager.sessionsByUsername[toUsername].Valid()
      modifies session`outbox, sessionManager.sessionsByUsername.Values`outbox
      ensures !session.authenticated ==> session.outbox == old(session.outbox)
      ensures forall s :: s in sessionManager.sessionsByUsername.Values && s != session ==>
                Addressee(session, toUsername) == Some(s) || s.outbox == old(s.outbox)
      ensures session.authenticated ==>
                var user, room, to := session.userId.value, RoomOf(session), Addressee(session, toUsername);
                var message := MessageBroadcast(user, session.username.value, content, room);
                if room == "" then session.outbox == old(session.outbox) + [ErrorResponse(FORBIDDEN)]
                                   && (to.Some? ==> to.value.outbox == old(to.value.outbox))
                else if to.Some? then session.outbox == old(session.outbox) + [message]
                                   && to.value.outbox == old(to.value.outbox) + [message]
                else session.outbox == old(session.outbox) + [ErrorResponse(
                       if toUsername in sessionManager.sessionsByUsername
                          && sessionManager.sessionsByUsername[toUsername].authenticated then BAD_REQUEST else NOT_FOUND)]
    {
      if !session.authenticated {
        return;
      }
      var senderId, senderName := session.userId.value, session.username.value;
      var roomName := roomService.GetUserCurrentRoomName(senderId);
      if roomName == "" {
        session.Send(ErrorResponse(FORBIDDEN));
        return;
      }
      if toUsername !in sessionManager.sessionsByUsername
         || !sessionManager.sessionsByUsername[toUsername].authenticated {
        session.Send(ErrorResponse(NOT_FOUND));
        return;
      }
      var accept := sessionManager.sessionsByUsername[toUsername];
      if accept.userId.value == senderId {
        session.Send(ErrorResponse(BAD_REQUEST));
        return;
      }
      var message := MessageBroadcast(senderId, senderName, content, roomName);
      accept.Send(message);
      session.Send(message);
    }
  }
}
