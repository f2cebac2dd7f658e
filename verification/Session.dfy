/** Sessions and what the server sends to them; message texts, timestamps and serialization are left out. */
module Session {
  import opened Wrappers
  import SessionIndex

  datatype RoomOperation = JOIN | LEAVE | CREATE | UnknownOperation(code: int)

  datatype UserEvent = USER_JOINED | USER_LEFT

  datatype Envelope =
    | RoomOperationResponse(success: bool, operation: RoomOperation, roomName: string)
    | ServerNotification(event: UserEvent, userId: int, username: string)
    | MessageBroadcast(fromUserId: int, fromUsername: string, content: string, room: string)
    | HistoryMessageResponse(historyRoom: string, messages: seq<HistoryMessage>)
    | LoginResponse(success: bool)
    | RegistrationResponse(success: bool)
    | ChangePasswordResponse(success: bool)
    | ChangeUsernameResponse(success: bool)
    | ErrorResponse(code: int)

  /** The answer to a room request. A failed join is answered without operation and name, which reads as JOIN and "". */
  function RoomAnswer(operation: RoomOperation, room: string, success: bool): Envelope {
    if operation == JOIN && !success then RoomOperationResponse(false, JOIN, "")
    else RoomOperationResponse(success, operation, room)
  }

  datatype HistoryMessage = HistoryMessage(senderId: int, senderName: string, text: string, createdAt: int)

  /** The session of one connection: its identity once authenticated, and all it was asked to send. */
  class Session {
    var authenticated: bool
    var userId: Option<int>
    var username: Option<string>
    var outbox: seq<Envelope>

    /** An authenticated session has an identity. */
    ghost predicate Valid()
      reads this
    {
      authenticated ==> userId.Some? && username.Some?
    }

    ghost function Identity(): SessionIndex.Identity
      requires Valid() && authenticated
      reads this
    {
      SessionIndex.Identity(userId.value, username.value)
    }

    constructor ()
      ensures Valid() && !authenticated && outbox == []
    {
      authenticated, userId, username, outbox := false, None, None, [];
    }

    method SetAuthenticated(id: int, name: string)
      modifies this`authenticated, this`userId, this`username
      ensures authenticated && userId == Some(id) && username == Some(name)
    {
      userId, username, authenticated := Some(id), Some(name), true;
    }

    method SetUsername(name: string)
      modifies this`username
      ensures username == Some(name)
    {
      username := Some(name);
    }

    method Send(envelope: Envelope)
      modifies this`outbox
      ensures outbox == old(outbox) + [envelope]
    {
      outbox := outbox + [envelope];
    }
  }
}
