/** The client's idea of its current room: which request a command sends, and what a response changes. */
module ChatClient {
  import opened Wrappers
  import opened Session

  datatype Command = CreateCommand(name: string) | JoinCommand(name: string) | LeaveCommand

  datatype Request = RoomRequest(operation: RoomOperation, room: string) | HistoryRequest(historyRoom: string, limit: int)

  const HISTORY_LIMIT := 20

  /** Leaving names the room the client takes for its current one, and is refused without one. */
  function RequestFor(current: string, command: Command): Option<Request> {
    match command
    case CreateCommand(name) => Some(RoomRequest(CREATE, name))
    case JoinCommand(name) => Some(RoomRequest(JOIN, name))
    case LeaveCommand => if current == "" then None else Some(RoomRequest(LEAVE, current))
  }

  /** The current room after an envelope; any answer to a create sets it, a refusal too. */
  function RoomAfter(current: string, envelope: Envelope): string {
    match envelope
    case RoomOperationResponse(success, operation, room) =>
      if success && operation == JOIN then room
      else if operation == CREATE then room
      else if success && operation == LEAVE then ""
      else current
    case _ => current
  }

  /** What the client sends by itself on an envelope: a joined room's history is asked for at once. */
  function FollowUp(envelope: Envelope): seq<Request> {
    match envelope
    case RoomOperationResponse(success, operation, room) =>
      if success && operation == JOIN then [HistoryRequest(room, HISTORY_LIMIT)] else []
    case _ => []
  }

  /** The current room after a sequence of envelopes. */
  function RoomAfterAll(current: string, envelopes: seq<Envelope>): string
    decreases |envelopes|
  {
    if envelopes == [] then current else RoomAfterAll(RoomAfter(current, envelopes[0]), envelopes[1..])
  }

  lemma {:induction false} RoomAfterOneMore(current: string, envelopes: seq<Envelope>, envelope: Envelope)
    ensures RoomAfterAll(current, envelopes + [envelope]) == RoomAfter(RoomAfterAll(current, envelopes), envelope)
    decreases |envelopes|
  {
    if envelopes == [] {
      assert RoomAfterAll(RoomAfter(current, envelope), (envelopes + [envelope])[1..]) == RoomAfter(current, envelope);
    } else {
      RoomAfterOneMore(RoomAfter(current, envelopes[0]), envelopes[1..], envelope);
      assert (envelopes + [envelope])[1..] == envelopes[1..] + [envelope];
    }
  }

  class ChatClient {
    var currentRoom: string
    var sent: seq<Request>

    constructor ()
      ensures currentRoom == "" && sent == []
    {
      currentRoom, sent := "", [];
    }

    /** A room command from the keyboard. */
    method HandleUserInput(command: Command)
      modifies this`sent
      ensures var request := RequestFor(currentRoom, command);
              sent == if request.Some? then old(sent) + [request.value] else old(sent)
      ensures command.CreateCommand? ==> sent == old(sent) + [RoomRequest(CREATE, command.name)]
      ensures command.JoinCommand? ==> sent == old(sent) + [RoomRequest(JOIN, command.name)]
      ensures command.LeaveCommand? ==> sent == if currentRoom == "" then old(sent) else old(sent) + [RoomRequest(LEAVE, currentRoom)]
    {
      match command {
        case CreateCommand(name) => sent := sent + [RoomRequest(CREATE, name)];
        case JoinCommand(name) => sent := sent + [RoomRequest(JOIN, name)];
        case LeaveCommand =>
          if currentRoom != "" {
            sent := sent + [RoomRequest(LEAVE, currentRoom)];
          }
      }
    }

    /** A message from the server. */
    method HandleServerMessage(envelope: Envelope)
      modifies this
      ensures currentRoom == RoomAfter(old(currentRoom), envelope)
      ensures sent == old(sent) + FollowUp(envelope)
      ensures var joined := envelope.RoomOperationResponse? && envelope.success && envelope.operation == JOIN;
              var created := envelope.RoomOperationResponse? && envelope.operation == CREATE;
              var left := envelope.RoomOperationResponse? && envelope.success && envelope.operation == LEAVE;
              && currentRoom == (if joined || created then envelope.roomName else if left then "" else old(currentRoom))
              && sent == (if joined then old(sent) + [HistoryRequest(envelope.roomName, 20)] else old(sent))
    {
      match envelope {
        case RoomOperationResponse(success, operation, room) =>
          if success && operation == JOIN {
            currentRoom := room;
            sent := sent + [HistoryRequest(room, HISTORY_LIMIT)];
          } else if operation == CREATE {
            currentRoom := room;
          } else if success && operation == LEAVE {
            currentRoom := "";
          }
        case _ =>
      }
    }
  }
}
