# Verification model of the chat server and client

This project models the stateful cores of the chat server and its client in Dafny and proves what they
guarantee, and exactly when they do not. `dafny verify dfyconfig.toml` checks all of it.

Each core comes at two levels: classes with the fields of the source, whose methods are proved against
functions on values, and step relations over these functions, for which properties of whole runs are proved.
A run is any sequence of steps; a step that is not possible changes nothing, so every run is covered.

| file | what it models |
|---|---|
| Framing, FrameReader, WriteQueue, Transport | length-prefixed framing, the incremental reader, the write queue, and one direction of a connection end to end; client/src/client.cpp and server/src/session/Session.cpp have the same code for both |
| RoomState, RoomTable, RoomProtocol | the two room maps, the rooms table, and room requests of many users interleaved between their critical sections |
| MessageReads | the separate readings of the sender's room while a public message is handled |
| RoomRepository, Session, Broadcast, RoomService, MessageService | the service objects, with session objects that record what they are sent |
| RoomHandlers, RoomCounterexamples | the three views of a room handler agree; runs in which the live rooms surprise |
| SessionIndex, SessionManager, ServerState, ServerMail, Server | the two session indexes, sessions and rooms together across login and disconnect, and what each session is sent for a payload |
| ChatClient, RoomAgreement, AgreementCounterexamples | the client's current room, and its agreement with the server over two FIFO channels while any number of the user's requests are handled at once |
| PoolProtocol, ConnectionPool | the connection pool as a monitor, and the pool and wrapper objects |
| MessageRepository, History | the two message queries and the history reply |
| Wrappers | Option, picking elements of sets, taking elements out of sequences |

## Conventions

- Protobuf is a pair of functions with `parse(serialize(e)) == Some(e)` and sizes below 2^32 (`Codec.Faithful`).
- Database calls have their outcome as a parameter: whether a query is answered, and whether an insert is
  stored and acknowledged. Names are compared under an arbitrary collation, given by a canonical form.
- Session identities are arbitrary values in the step relations and session objects in the classes.

## Where the code does not do what one would expect

- A message whose body is empty or has 8192 bytes or more is sent without a check and makes the reader stop for
  good, so nothing behind it is ever delivered (`SilencedBehind`). After a write error nothing is written
  any more, although sends still fill the queue (`DeadAfterWriteError`).
- Creating a room does not take the creator out of the room before. `ExactMembership` says which memberships are
  left over, `PartitionAfterRun` that the two maps agree if and only if none is, and `TwoCreates` gives a run.
- The table compares room names case-insensitively, the live rooms do not (`SharedRowIff`, `SplitLiveRoom`).
- A public message reads the sender's room three times before the members are listed. What is stored, labelled and
  sent is about one room if and only if the sender's own commits in between allow it, those of others do not matter
  (`ConsistentIff`); `MislabelledMessage` and `MisdirectedMessage` are runs in which it is not.
- Logins check the password only (lines 22 to 24 of server/src/service/AuthService.cpp). The session indexes agree with the sessions at every moment if and only if
  each call meets a guard that no caller checks (`AgreesThroughoutIff`, `SecondLoginUnreachable`, `StaleAfterRelogin`);
  `OrderlyThroughoutIff` says the same of sessions, indexes and rooms together.
- A removed session stays authenticated, and after a write error the server still reads from the connection
  (lines 103 to 116 of server/src/session/Session.cpp), so one more join of it brings its user back (`JoinAfterDisconnect`).
- The client enters a room also when its create is refused (`RefusedCreateDisagrees`); `PatientAgreement` says exactly
  when a user who waits for each answer is out of step. Requests sent ahead may be handled at once and answered in
  another order (`OverlappingJoinsDisagree`); `Agreement` has the exact condition for any of it.
- A failed replacement shrinks the pool for good (`LostForever`, `Exhausted`).
- A message without a time is shown with the time when its row is fetched, although it sorts first, and the clock is
  read again for each such row (`ShownTimesAscendIff`, `UndatedMessagesGoBack`). The column admits such rows, but the
  server writes none: they come from outside, such as an import.

## Model

| member | source | states |
|---|---|---|
| Framing.MostSignificantFirst | client/src/client.cpp:117-121 | The four header bytes carry the length most significant byte first (network byte order, Appendix B of RFC 791) |
| Framing.LengthRoundTrip | client/src/client.cpp:70 | Every 32-bit length is read back from its header |
| Framing.HeaderRoundTrip | client/src/client.cpp:70 | Every four bytes are the header of the length they are read as, so headers and lengths correspond one to one |
| Framing.DecodeCut | client/src/client.cpp:65-113 | A stream of frames cut anywhere decodes to exactly the messages whose whole frame is before the cut, up to the first unacceptable length, and stops there if and only if that header has arrived |
| Framing.DecodeUnparsable | client/src/client.cpp:98-107 | A body that does not parse ends the decoding, whatever is behind it |
| Framing.FramesInjective | client/src/client.cpp:114-121 | Different lists of acceptable bodies have different byte streams |
| Framing.FramesPrefixFree | client/src/client.cpp:114-121 | If one stream of acceptable frames extends another, its list of bodies extends the other's, and the rest is the frames of the further bodies |
| Framing.FramePrefixFree | client/src/client.cpp:114-121 | No frame is a proper prefix of another |
| FrameReader.FeedSplit | client/src/client.cpp:65-113 | In every state of the reader, the split of arriving bytes into reads does not matter |
| FrameReader.FeedIsDecode | client/src/client.cpp:65-113 | The incremental reader ends with the messages, the stop point and the pending bytes of the whole-stream decoder |
| FrameReader.ChunksAreDecoded | client/src/client.cpp:65-113 | Any chunking of a byte string ends as the whole-stream decoder does |
| FrameReader.RefusedLengths | client/src/client.cpp:71-75 | A header stops the reader exactly if it announces no byte or 8192 and more |
| FrameReader.FrameReader.constructor | client/src/client.h:39-44 | A new reader waits for a header and has delivered nothing |
| FrameReader.FrameReader.OnHeader | client/src/client.cpp:69-75 | A complete header starts a body read of its length, or stops the reader |
| FrameReader.FrameReader.OnBody | client/src/client.cpp:98-107 | A complete body is handed on and the next header read, or stops the reader if it does not parse |
| FrameReader.FrameReader.OnBytes | client/src/client.cpp:65-113 | The buffers, filled in place by arriving chunks of any size, hold what the value-level reader holds |
| WriteQueue.PushKeeps | client/src/client.cpp:124-128 | Queueing a frame puts exactly it behind everything unsent, and starts a write if and only if none is in flight and none has failed |
| WriteQueue.CompleteKeeps | client/src/client.cpp:137-140 | A completed write loses nothing unsent and the next one starts exactly if something is queued |
| WriteQueue.WriteQueue.Enqueue | client/src/client.cpp:123-128 | The posted task keeps a write in flight exactly while the queue is not empty and no write has failed |
| WriteQueue.WriteQueue.DoWrite | client/src/client.cpp:130-136 | A write starts only when none is in flight |
| WriteQueue.WriteQueue.HandleWrite | client/src/client.cpp:137-145 | A success pops the front and goes on, an error leaves the queue as it is with no write in flight |
| Transport.NextKeepsInv | client/src/client.cpp:65-145 | Every step keeps: bytes on the wire and unsent bytes are the frames of all messages enqueued, and the reader has been fed the first bytes of the wire |
| Transport.Reachable | client/src/client.cpp:114-145 | In every reachable state the above holds, and enqueued and posted messages are those sent, in order |
| Transport.Delivery | client/src/client.cpp:65-145 | Under any interleaving of sends, partial writes, errors and reads, the delivered messages are exactly the leading sent ones whose whole frame was fed, up to the first unacceptable length, where the reader stops |
| Transport.SilencedBehind | client/src/client.cpp:114-121 | A message of unacceptable length and all messages behind it are never delivered |
| Transport.Completeness | client/src/client.cpp:65-145 | With nothing left to move, everything sent before the first message of an unacceptable length is delivered |
| Transport.Deliverability | client/src/client.cpp:65-145 | After any run without an error, the connection can go on without another send until all of that is delivered, which is everything sent if all lengths are acceptable |
| Transport.SentByOne | client/src/client.cpp:114-122 | What is sent is what send is given |
| Transport.NoStall | client/src/client.cpp:123-145 | Before an error, a non-empty queue can always move on, and its write can fail at any moment |
| Transport.DeadAfterWriteError | client/src/client.cpp:137-145 | After a write error the wire never changes and no frame leaves the queue, whatever is sent |
| Transport.DeafAfterReadError | client/src/client.cpp:65-113 | After a read error nothing more is delivered, whatever arrives |
| RoomState.JoinRefines | server/src/service/RoomService.cpp:20-46 | The join section moves the user's seat from the current room to the new one and touches no other seat |
| RoomState.LeaveRefines | server/src/service/RoomService.cpp:60-73 | The leave section gives up the seat in the named room only if it is the user's current one |
| RoomState.CreateRefines | server/src/service/RoomService.cpp:96-103 | The create section adds a seat and takes none away |
| RoomState.DisconnectRefines | server/src/service/RoomService.cpp:161-182 | The disconnect section gives up the seat in the current room only |
| RoomState.JoinMoves | server/src/service/RoomService.cpp:20-46 | After a join, exactly the user is in the room in addition, and exactly the user is out of the room that was the current one |
| RoomState.JoinCaches | server/src/service/RoomService.cpp:34-44 | A joined room keeps its data, unless it was not active or the joiner was its only member and leaves it for a moment; then it has that of the row |
| RoomState.LeaveMoves | server/src/service/RoomService.cpp:60-73 | A leave of the current room takes exactly the user out of it, and any other leave does nothing |
| RoomState.CreateMoves | server/src/service/RoomService.cpp:96-103 | A create puts exactly the user into the new room, with its data and the user as creator, and takes nobody out of any room |
| RoomState.DisconnectMoves | server/src/service/RoomService.cpp:161-182 | A disconnect takes exactly the user out of exactly the current room |
| RoomState.StaleLaw | server/src/service/RoomService.cpp:20-46 | Members are the current seats and, apart from them, the stale ones; only a create adds a stale seat, the one in the creator's room before, and only sitting down again removes one |
| RoomState.PartitionIff | server/src/service/RoomService.h:36-37 | The two maps agree on every room if and only if there is no stale seat |
| RoomState.Counting | server/src/service/RoomService.h:36-37 | The member counts of all active rooms add up to the users in a room and the stale seats |
| RoomTable.LookupAfterInsert | server/src/data/MySQLRoomRepository.cpp:69-107 | Adding a row changes no query that had an answer, and answers those for its own name |
| RoomTable.InsertKeepsKeys | schema.sql:47-56 | An insert that the keys admit keeps ids and names unique up to the collation |
| RoomTable.InsertableIff | schema.sql:47-56 | A row can be added if and only if neither its id nor, up to the collation, its name is taken |
| RoomProtocol.StepRefines | server/src/service/RoomService.cpp:10-111 | Every step of every handler has the flat effect of at most one event, that of its critical section |
| RoomProtocol.RunRefines | server/src/service/RoomService.cpp:10-183 | However handlers interleave, the two maps hold exactly the seating plan of the critical sections in their order |
| RoomProtocol.JoinFinishes | server/src/service/RoomService.cpp:20-46 | Whatever has happened since its lookup, a join can go on and brings the user into the room |
| RoomProtocol.CreateFinishes | server/src/service/RoomService.cpp:85-111 | Whatever has happened since its check, a create brings the user into the new room if name and id are free by the insert, and changes nothing otherwise |
| RoomProtocol.RunKeepsInv | server/src/service/RoomService.cpp:10-183 | Unique keys, agreement of caches and found rows with the table, seated users and non-empty rooms hold in every reachable state |
| RoomProtocol.StaleIff | server/src/service/RoomService.cpp:96-103 | A seat is stale exactly if its user created another room while in this one and has not sat down in it since |
| RoomProtocol.ExactMembership | server/src/service/RoomService.cpp:20-46 | After any interleaving, someone is a member of an active room exactly if it is their current room, or else the history shows the seat to be stale |
| RoomProtocol.ExactCount | server/src/service/RoomService.cpp:22-44 | The counting law holds in every reachable state |
| RoomProtocol.PartitionAfterRun | server/src/service/RoomService.cpp:10-183 | The rooms partition the users after a run if and only if its history leaves no seat stale |
| RoomProtocol.RoomlessCreatorsPartition | server/src/service/RoomService.cpp:85-111 | If users create rooms only while in none, the rooms partition the users in every reachable state |
| RoomProtocol.LiveRoomsAgree | server/src/service/RoomService.cpp:34-44 | In every reachable state each mapped user is a member of an active room of that name, no active room is empty, and each caches id, creator and name of a stored row of that name up to the collation, the one that the table answers |
| RoomProtocol.SharedRowIff | server/src/service/RoomService.h:36 | Two live rooms stand for one row of the table if and only if the collation takes their names for the same |
| RoomProtocol.NonInterference | server/src/service/RoomService.cpp:184-203 | No sequence of steps of other users changes a user's room, the id of it, or the rooms the user is a member of |
| MessageReads.ConsistentIff | server/src/service/MessageService.cpp:9-34 | Whatever happens between the readings, label, stored id, target and members with the sender are about one room if and only if the sender's own commits left the sender in a room of that name up to the collation at the store, in that very room at the target, and still seated in it at the listing |
| MessageReads.PublicMessageIsConsistent | server/src/service/MessageService.cpp:9-34 | If only others act between the readings, all of them are about one room, with the sender in it |
| RoomProtocol.StoredUnderLabelIff | server/src/service/MessageService.cpp:9-23 | For the first two readings alone: the stored id is that of the label's row if and only if the collation takes the sender's room at the store for the label; it is 0 if the sender is in none |
| RoomCounterexamples.TwoCreates | server/src/service/RoomService.cpp:96-103 | A user who creates two rooms is a member of both, and of the first one even after disconnecting |
| RoomCounterexamples.SplitLiveRoom | server/src/service/RoomService.cpp:34-44 | Two users in the same row of the table can be in different live rooms |
| RoomCounterexamples.MislabelledMessage | server/src/service/MessageService.cpp:9-23 | With the sender's own join between label and store, a message is labelled with one room and stored in another |
| RoomCounterexamples.MisdirectedMessage | server/src/service/MessageService.cpp:23-34 | With it between store and broadcast, a message is labelled with and stored in one room and sent to another |
| RoomHandlers.StepsAreHandler | server/src/service/RoomService.cpp:10-116 | The steps of a handler, uninterrupted, do to rooms and table what the handler method does |
| RoomHandlers.ServedAsHandled | server/src/service/RoomService.cpp:10-120 | A request of a connection, served uninterrupted, is handled and answered as by the handler method |
| RoomRepository.RoomRepository.FindByRoomName | server/src/data/MySQLRoomRepository.cpp:69-131 | Finds the row of that name under the collation, or nothing when there is none or the database fails |
| RoomRepository.RoomRepository.AddRoom | server/src/data/MySQLRoomRepository.cpp:321-385 | Stores the row if the keys admit it and the database does not refuse, and reports it only if acknowledged |
| Broadcast.Snapshot | server/src/service/RoomService.cpp:205-219 | For any iteration order, each session is a recipient once for every member it serves, the excluded user aside |
| Broadcast.Deliver | server/src/service/RoomService.cpp:220-224 | Each recipient's session is sent the envelope once for each time it is listed |
| Broadcast.ExactlyOnce | server/src/service/RoomService.cpp:204-225 | If no two users share a session, every member gets one copy and the excluded user none |
| RoomService.RoomService.BroadcastToRoom | server/src/service/RoomService.cpp:204-225 | The members' sessions get one copy for every member they serve other than the excluded one, and nobody else gets any |
| RoomService.RoomService.CommitJoin | server/src/service/RoomService.cpp:22-44 | The statements on the two maps have the effect of the join section |
| RoomService.RoomService.CommitCreate | server/src/service/RoomService.cpp:98-102 | The statements on the two maps have the effect of the create section |
| RoomService.RoomService.HandleJoin | server/src/service/RoomService.cpp:20-57 | A join with a found row changes the rooms, tells the other members of the room and then answers; the room left is told nothing |
| RoomService.RoomService.HandleLeave | server/src/service/RoomService.cpp:58-84 | A leave is announced and answered with success even if the user is not in the room |
| RoomService.RoomService.HandleCreate | server/src/service/RoomService.cpp:85-111 | A create changes rooms and table only if the name is free and the insert acknowledged; a stored but unacknowledged row stays |
| RoomService.RoomService.HandleRoomOperation | server/src/service/RoomService.cpp:2-120 | All branches of a room request: new rooms, new rows, who is told what and in which order, and nothing for an unauthenticated session |
| RoomService.RoomService.HandleDisconnect | server/src/service/RoomService.cpp:156-183 | The members other than the user are told, then the user is out of the current room; nothing for an unauthenticated session |
| MessageService.MessageService.HandlePublicMessage | server/src/service/MessageService.cpp:2-35 | Stored under the room's id and sent once for each member, the sender included; without a room the sender gets error 403 and nothing is stored |
| MessageService.MessageService.HandlePrivateMessage | server/src/service/MessageService.cpp:37-88 | Goes to the addressee and back to the sender only, or the sender alone gets the error 403, 404 or 400 |
| SessionIndex.FindIsScan | server/src/core/SessionManager.cpp:30-47 | While the indexes agree, a find is what a scan of all live sessions would find, and finds nothing exactly if there is none |
| SessionIndex.InverseBijections | server/src/core/SessionManager.h:28-29 | While they agree, the indexes are inverse bijections between user ids and usernames |
| SessionIndex.RegisterEffect | server/src/core/SessionManager.cpp:23-29 | After a login the session has that identity and is found under both parts of it; all other entries and sessions are as before |
| SessionIndex.RenameEffect | server/src/core/SessionManager.cpp:17-22 | After a rename the session has the new name and is found under it, nobody is found under the old one, and all other entries and sessions are as before |
| SessionIndex.RemoveEffect | server/src/core/SessionManager.cpp:9-16 | After a removal nobody is found under the identity of the session, which keeps it; all other entries are as before |
| SessionIndex.GuardSuffices | server/src/core/SessionManager.cpp:9-29 | A call that meets its guard keeps the agreement, renaming to the same name included |
| SessionIndex.GuardNeeded | server/src/core/SessionManager.cpp:9-29 | A call that keeps the agreement met its guard, which a login does not check |
| SessionIndex.AgreesThroughoutIff | server/src/core/SessionManager.cpp:9-29 | The indexes agree with the sessions at every moment of a run if and only if every call meets its guard |
| SessionIndex.SecondLoginUnreachable | server/src/core/SessionManager.cpp:9-29 | After two logins of one user and the end of the first session, the second one is live and in no index |
| SessionIndex.StaleAfterRelogin | server/src/core/SessionManager.cpp:9-29 | A session that logs in as another user stays behind in the indexes as the first one after its end |
| SessionManager.SessionManager.RegisterAuthenticatedSession | server/src/core/SessionManager.cpp:23-29 | Maps and session fields change together as the value-level call says |
| SessionManager.SessionManager.UpdateUsername | server/src/core/SessionManager.cpp:17-22 | The session has the new name and is indexed under it, the old name is not indexed if it differs, and all other entries are as before |
| SessionManager.SessionManager.Remove | server/src/core/SessionManager.cpp:9-16 | Both entries under the session's fields go, whoever they belong to; the session keeps its fields |
| SessionManager.SessionManager.FindByUsername | server/src/core/SessionManager.cpp:30-38 | While the indexes agree, the result is the live session of that name, or there is none |
| SessionManager.SessionManager.FindByUserId | server/src/core/SessionManager.cpp:39-47 | While the indexes agree, the result is the live session of that user, or there is none |
| ServerState.ServeKeepsInv | server/src/core/Server.cpp:74-132 | Handlers one after the other keep: indexes agree, seats belong to sessions of their user, and whoever is in a room is online there with the indexed session |
| ServerState.OrderlyRun | server/src/core/Server.cpp:56-132 | This holds after every run of requests that meet the guards |
| ServerState.OrderlyNeeded | server/src/core/Server.cpp:56-132 | A request that leaves all this in agreement met its guard, which nothing checks |
| ServerState.OrderlyThroughoutIff | server/src/core/Server.cpp:56-132 | Sessions, indexes and rooms agree at every moment of a run if and only if every request meets its guard |
| ServerState.DisconnectForgetsIff | server/src/core/Server.cpp:120-132 | After the disconnect task no index and no room refers to the session if and only if it sat in no stale seat; its user is in no room and all others keep entries and seats |
| ServerState.ServeWithin | server/src/core/Server.cpp:74-132 | A request brings no session but its own into an index or a room |
| ServerState.ServeMoves | server/src/core/Server.cpp:109-132 | A room request or disconnect of an authenticated session moves its user as it says, and only the disconnect task changes an index |
| ServerState.UnauthenticatedChangesNothing | server/src/core/Server.cpp:85-93 | Whatever a session that never logs in requests in a run, rooms, indexes and identities end as in the run without its requests |
| ServerState.JoinAfterDisconnect | server/src/core/SessionManager.cpp:9-16 | One more join of a removed session puts its user back into a room without any index finding it |
| ServerState.BroadcastExactlyOnce | server/src/service/RoomService.cpp:204-225 | In an orderly server each member's session gets exactly one copy, and the excluded user none |
| Server.Server.RunDisconnectTask | server/src/core/Server.cpp:120-132 | Rooms first, then indexes: the effect of the disconnect task on both managers, and one notice for each other member of the room to its session |
| ServerMail.PublicExactlyOnce | server/src/service/MessageService.cpp:27-34 | In an orderly server a public message goes exactly once to each member's session, the sender's own among them, and to nobody else |
| ServerMail.JoinExactlyOnce | server/src/service/RoomService.cpp:45-57 | In an orderly server a successful join sends one notice to each other member's session, the answer alone to the joiner, and nothing to anybody else |
| ServerMail.LeaveExactlyOnce | server/src/service/RoomService.cpp:74-84 | In an orderly server a leave, also of a room the user is not in, sends one USER_LEFT to each other member's session, one success to the requester, and nothing to anybody else |
| ServerMail.CreateAnswersRequester | server/src/service/RoomService.cpp:85-119 | A create is answered to the requester alone, with success if and only if name and id are free and the insert is acknowledged |
| ServerMail.RefusedJoinAnswersRequester | server/src/service/RoomService.cpp:13-19 | A join without a row is answered to the requester alone, naming neither operation nor room |
| ServerMail.UnknownAnswersRequester | server/src/service/RoomService.cpp:112-119 | An unknown operation is refused to the requester alone |
| ServerMail.DisconnectExactlyOnce | server/src/service/RoomService.cpp:161-172 | In an orderly server a disconnect sends one USER_LEFT to each other member's session of the room and nothing to anybody else |
| ServerMail.RoomlessMail | server/src/service/MessageService.cpp:11-20 | A public or private message of a user in no room gets the sender error 403 and goes nowhere |
| ServerMail.PrivateExactlyOnce | server/src/service/MessageService.cpp:58-87 | In an orderly server a private message goes once to the live session of that name and once back; without one the sender gets error 404, and 400 for the own name |
| ServerMail.HistoryAnswered | server/src/service/RoomService.cpp:121-155 | A history request for the own room gets one reply, and any other nothing |
| ServerMail.AccountMail | server/src/core/Server.cpp:75-84 | Logins, registrations, renames and password changes are answered to the requester alone, with success exactly if the user table has it so |
| ServerMail.GateMail | server/src/core/Server.cpp:85-93 | Before a login, anything but a login or a registration gets the requester one error and is not served |
| ServerMail.ServedRequests | server/src/core/Server.cpp:74-119 | Logins, admitted renames, leaves, joins of stored rooms and creates of free names are all served, under the user of the session |
| Server.Server.HandleAccept | server/src/core/Server.cpp:36-55 | An accepted connection gives a connected session that is not authenticated, which is an orderly request |
| Server.Server.DispatchMessage | server/src/core/Server.cpp:74-119 | Behind the authentication gate, sessions and rooms move as by the request that the payload stands for, the rooms and messages tables get the rows it adds, and every session is sent exactly what the payload means for it; an unauthenticated session gets one error for anything but a login or a registration, and nobody else anything |
| Server.Server.HandleAuthenticated | server/src/core/Server.cpp:95-118 | Messages, history, renames and password changes have these effects whatever the rooms table says |
| Server.Server.HandleRoom | server/src/core/Server.cpp:109-111 | A room request sends its notice to the members after it and its answer to the requester, and moves rooms and table |
| ChatClient.ChatClient.HandleUserInput | client/src/main.cpp:69-92 | Create and join send the typed name, leave sends the client's current room and nothing without one |
| ChatClient.ChatClient.HandleServerMessage | client/src/client.cpp:181-198 | The current room is set by a successful join and by any answer to a create, cleared by a successful leave; only a successful join asks for history, for 20 messages of that room |
| RoomAgreement.RunLinkKeepsInv | server/src/service/RoomService.cpp:10-119 | Whatever is sent ahead, however many handlers of the user and of others run at once, the server's room is that of the decided requests in their order, and the client's is that of the answers in theirs once received |
| RoomAgreement.Agreement | client/src/client.cpp:181-198 | With all decided requests answered and received, client and server agree if and only if the last decision to move the user and the last answer to move the client put them in the same room |
| RoomAgreement.SuccessRestoresAgreement | client/src/client.cpp:183-192 | A successful join or create restores agreement if it is both decided and answered last |
| RoomAgreement.InSyncIff | client/src/client.cpp:181-198 | For requests answered in the order of their decisions, the rooms agree if and only if the last changes were in sync: a success, a refused create of the server's own room, or a leave that named it or found none |
| RoomAgreement.SerialAgreement | server/src/service/RoomService.cpp:10-119 | With one handler of the user at a time, as without extra threads, this decides agreement however much is sent ahead, and each successful join or create restores it |
| RoomAgreement.PatientAgreement | client/src/main.cpp:69-92 | A user who waits for each answer agrees with the server if and only if every refused create has been followed by a success, or the last answer to move the client was a refusal naming the server's room or a leave while the server had none |
| RoomAgreement.QuietReachable | server/src/service/RoomService.cpp:10-119 | However much is under way, the connection can go on with nothing new typed until all of it is handled, answered and received |
| RoomAgreement.ChannelSteps | client/src/main.cpp:69-92 | Each command sends its request, and the client takes up the envelopes one after the other |
| AgreementCounterexamples.RefusedCreateDisagrees | client/src/client.cpp:190-192 | A refused create puts the client into a room that the server does not have it in |
| AgreementCounterexamples.LeaveSentAheadDisagrees | client/src/main.cpp:81-92 | In this run, a leave is sent before the join ahead of it is answered: the client ends in no room and the server has it in the joined one |
| AgreementCounterexamples.OverlappingJoinsDisagree | server/src/core/Server.cpp:56-68 | In this run, two joins are handled at once, decided in one order and answered in the other: both succeed and the rooms differ |
| PoolProtocol.NextKeepsInv | server/src/data/ConnectionPool.cpp:31-55 | Every step keeps one owner for each connection, their number, and a wake-up under way for every idle connection while someone is blocked |
| PoolProtocol.Reachable | server/src/data/ConnectionPool.cpp:18-55 | From init on, idle, held, being replaced and lost connections add up to the pool size, none is in two places, and while someone is blocked there are no more idle connections than wake-ups under way, despite barging, spurious wake-ups and notifying outside the mutex |
| PoolProtocol.BlockedMeansEmpty | server/src/data/ConnectionPool.cpp:31-43 | A thread that stays blocked with no wake-up under way means an empty pool |
| PoolProtocol.WakeupUnderWay | server/src/data/ConnectionPool.cpp:31-43 | With someone blocked and a connection idle, a wake-up is under way and hands that connection out |
| PoolProtocol.NotifyWakesOne | server/src/data/ConnectionPool.cpp:38-43 | A notification wakes exactly one blocked thread, and is spent if there is none |
| PoolProtocol.BargingTakes | server/src/data/ConnectionPool.cpp:31-37 | A thread that comes along takes an idle connection even ahead of woken ones |
| PoolProtocol.ComesBack | server/src/data/ConnectionPool.cpp:38-55 | A connection given up valid and a replacement that succeeds are idle and announced |
| PoolProtocol.InvalidNeverReturns | server/src/data/ConnectionPool.h:33-49 | A connection once marked invalid is never idle again, so it is never handed out again |
| PoolProtocol.Exhausted | server/src/data/ConnectionPool.cpp:44-55 | Once all replacements have failed, no connection is ever idle or held again |
| ConnectionPool.ConnectionPool.Init | server/src/data/ConnectionPool.cpp:18-30 | Opens as many different connections as asked for, none for a negative number, and does nothing if there are some |
| ConnectionPool.ConnectionPool.SizeConserved | server/src/data/ConnectionPool.h:36-46 | At all times the connections idle, held, being replaced and lost add up to the pool size asked for |
| ConnectionPool.ConnectionPool.TestAndTake | server/src/data/ConnectionPool.cpp:31-37 | Takes the last idle connection, or waits if there is none |
| ConnectionPool.ConnectionPool.ReturnConnection | server/src/data/ConnectionPool.cpp:38-43 | Puts the connection at the end, with a notification to follow |
| ConnectionPool.ConnectionWrapper.Destroy | server/src/data/ConnectionPool.h:36-46 | Puts a valid connection back at the end with a notification to follow, closes an invalid one and posts its replacement, and does nothing without one |
| MessageRepository.Fetch | server/src/data/MySQLMessageRepository.cpp:413-466 | The result loop yields one message for each row in order, one without a time with that of its own fetch, and nothing at all after an error |
| MessageRepository.InRoomIsSelection | server/src/data/MySQLMessageRepository.cpp:401-411 | The rows of a room are exactly the stored rows with its id, each as often as it is stored |
| History.NewestSuffix | server/src/service/RoomService.cpp:136-152 | The reversed latest messages are as many as asked for or there are, have the times of the last rows of the full query, and are these rows if times differ |
| History.NothingNewerOmitted | server/src/data/MySQLMessageRepository.cpp:401-411 | The messages are stored rows of the room, and no stored row of the room left out is later than one included |
| History.SameTimes | server/src/data/MySQLMessageRepository.cpp:251-260 | However the database orders ties, two answers for a room have the same times place by place |
| History.ShownTimesAscendIff | server/src/data/MySQLMessageRepository.cpp:422-433 | The shown times never go back if and only if all rows have a time, or the clock stood still over the rows without one and no row with a time is older than that fetch |
| History.UndatedMessagesGoBack | server/src/data/MySQLMessageRepository.cpp:422-433 | Two rows without a time are shown out of order whenever the clock ticks between their fetches |
| History.ReplyIsNewestEnd | server/src/service/RoomService.cpp:136-152 | The reply has as many lines as asked for, 50 by default, or as there are, with the times of the newest end of the full query, and with different times the lines of these very messages |
| History.ReplyLineAt | server/src/service/RoomService.cpp:137-151 | Each line shows sender id, stored name of that sender or "Unknown", text, and time of its row, or the time of its fetch |
| History.ReplyAscends | server/src/service/RoomService.cpp:136-152 | If all messages of the room have a time, the lines never go back |
| History.HandleHistoryRequest | server/src/service/RoomService.cpp:121-155 | Only an authenticated user in the named room gets a reply, the latest messages oldest first, 50 unless a positive number is asked for |

## Left out

- Sockets, strands, the accept loop, signals, logging and console output: they are replaced by steps and parameters.
- The format of envelopes, message texts, message ids and timestamps of broadcasts.
- Database errors that are thrown on through a handler; they end the thread that runs it.
- The user table: the password check, registrations and password changes are given by their outcome; a login is modelled from the matching account on, and a rename from the new name on.
- `SessionManager::sessions`, `add` and `broadcast`: nothing calls them.
- The room repository's queries by id and creator, its update and removal: no service calls them.
- Parsing of typed lines, and the client's register, login and private-message commands.
- Two threads changing one C++ object without a lock, such as the client's current room: reads and writes are atomic here.
- Liveness: that a posted task runs, a notified thread gets the mutex or a replacement succeeds.
- HandlePublicMessage: no other handler acts within the method; what others and the sender can do in between is stated by ConsistentIff and PublicMessageIsConsistent.
- DisconnectForgetsIff: is about handlers that run one after the other, as without extra threads.
- AddMessage: a message that cannot be stored is sent all the same, as the result is ignored; its table keys are not modelled.
