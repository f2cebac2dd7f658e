/**
 One client and the server, connected by two FIFO channels, while any other handlers run. The requests of the
 client are handled at the same time and in any order: each is a task of its own, which any thread may take up.
 When do the client's current room and the server's room for the user agree?
 */
module RoomAgreement {
  import opened Wrappers
  import opened RoomState
  import opened RoomTable
  import opened RoomProtocol
  import opened Session
  import opened ChatClient

  /** A request of the user that has taken effect or failed. */
  datatype Entry = Entry(operation: RoomOperation, room: string, success: bool)

  datatype Link<+S> = Link(
    world: World<S>,
    clientRoom: string,
    requests: seq<Request>,       // from the client, with no step of a handler yet
    handlers: set<int>,           // the handlers between two of their steps
    unanswered: seq<Entry>,       // the decided requests that are still to be answered
    responses: seq<Envelope>,     // to the client, not yet received
    commits: seq<Entry>,          // all requests decided, in the order of the decisions
    answers: seq<Entry>           // all requests answered, in the order of the answers
  )

  datatype LinkStep<+S> =
    | Type(command: Command)                                     // the user types a room command
    | Begin(i: nat, task: int, answered: bool)                   // a handler starts on one of the requests
    | Continue(task: int, id: int, outcome: InsertOutcome)       // a handler takes its next step
    | Answer(i: nat)                                             // a decided request is answered
    | Other(step: Step<S>)                                       // a step of another user's handler
    | Notify(envelope: Envelope)                                 // anything but an answer is sent to the client
    | Receive                                                    // the client receives the next envelope

  function AnswerTo(entry: Entry): Envelope {
    RoomAnswer(entry.operation, entry.room, entry.success)
  }

  /** A request is decided: it has changed the rooms or failed. */
  function Decided<S>(l: Link<S>, world: World<S>, entry: Entry): Link<S> {
    l.(world := world, unanswered := l.unanswered + [entry], commits := l.commits + [entry])
  }

  /** The first step of a request's handler. */
  ghost function Started<S>(canon: Collation, l: Link<S>, user: int, session: S, request: Request,
                            task: int, answered: bool): Link<S>
  {
    match request
    case HistoryRequest(_, _) => l
    case RoomRequest(operation, room) =>
      match operation
      case JOIN =>
        var w := Next(canon, l.world, JoinLookup(task, user, session, room, answered));
        if task in w.tasks then l.(world := w, handlers := l.handlers + {task})
        else Decided(l, w, Entry(JOIN, room, false))
      case LEAVE => Decided(l, Next(canon, l.world, LeaveCommit(user, room)), Entry(LEAVE, room, true))
      case CREATE =>
        var w := Next(canon, l.world, CreateCheck(task, user, session, room, answered));
        if task in w.tasks then l.(world := w, handlers := l.handlers + {task})
        else Decided(l, w, Entry(CREATE, room, false))
      case UnknownOperation(_) => Decided(l, l.world, Entry(operation, room, false))
  }

  /** The next step of a running handler. */
  ghost function Continued<S>(canon: Collation, l: Link<S>, task: int, id: int, outcome: InsertOutcome): Link<S>
    requires task in l.world.tasks
  {
    var room, rest := l.world.tasks[task].room, l.(handlers := l.handlers - {task});
    match l.world.tasks[task]
    case JoinFound(_, _, _, _) => Decided(rest, Next(canon, l.world, JoinCommit(task)), Entry(JOIN, room, true))
    case CreateAbsent(_, _, _) =>
      var w := Next(canon, l.world, CreateInsert(task, id, outcome));
      if task in w.tasks then l.(world := w) else Decided(rest, w, Entry(CREATE, room, false))
    case CreateInserted(_, _, _, _) => Decided(rest, Next(canon, l.world, CreateCommit(task)), Entry(CREATE, room, true))
  }

  /** The effect of a step; one that is not possible changes nothing. */
  ghost function NextLink<S>(canon: Collation, l: Link<S>, user: int, session: S, step: LinkStep<S>): Link<S> {
    match step
    case Type(command) =>
      var request := RequestFor(l.clientRoom, command);
      if request.None? then l else l.(requests := l.requests + [request.value])
    case Begin(i, task, answered) =>
      if i >= |l.requests| || task in l.world.tasks then l
      else Started(canon, l.(requests := Without(l.requests, i)), user, session, l.requests[i], task, answered)
    case Continue(task, id, outcome) =>
      if task !in l.handlers || task !in l.world.tasks then l else Continued(canon, l, task, id, outcome)
    case Answer(i) =>
      if i >= |l.unanswered| then l
      else l.(unanswered := Without(l.unanswered, i), answers := l.answers + [l.unanswered[i]],
              responses := l.responses + [AnswerTo(l.unanswered[i])])
    case Other(step) =>
      if Actor(l.world, step) == Some(user) then l else l.(world := Next(canon, l.world, step))
    case Notify(envelope) =>
      if envelope.RoomOperationResponse? then l else l.(responses := l.responses + [envelope])
    case Receive =>
      if l.responses == [] then l
      else l.(clientRoom := RoomAfter(l.clientRoom, l.responses[0]), responses := l.responses[1..],
              requests := l.requests + FollowUp(l.responses[0]))
  }

  ghost function RunLink<S>(canon: Collation, l: Link<S>, user: int, session: S, steps: seq<LinkStep<S>>): Link<S>
    decreases |steps|
  {
    if steps == [] then l else
    var n := |steps| - 1;
    NextLink(canon, RunLink(canon, l, user, session, steps[..n]), user, session, steps[n])
  }

  /** A connection of a user who is in no room yet, to a server in any state. */
  function Fresh<S>(world: World<S>): Link<S> {
    Link(world, "", [], {}, [], [], [], [])
  }

  /** What typing, sending and receiving do: commands send their requests, and the client takes up one envelope after the other. */
  lemma ChannelSteps<S>(canon: Collation, l: Link<S>, user: int, session: S, name: string, step: Step<S>, envelope: Envelope)
    ensures NextLink(canon, l, user, session, Type(JoinCommand(name))) == l.(requests := l.requests + [RoomRequest(JOIN, name)])
    ensures NextLink(canon, l, user, session, Type(CreateCommand(name))) == l.(requests := l.requests + [RoomRequest(CREATE, name)])
    ensures NextLink(canon, l, user, session, Type(LeaveCommand))
         == if l.clientRoom == "" then l else l.(requests := l.requests + [RoomRequest(LEAVE, l.clientRoom)])
    ensures Actor(l.world, step) != Some(user) ==>
              NextLink(canon, l, user, session, Other(step)) == l.(world := Next(canon, l.world, step))
    ensures !envelope.RoomOperationResponse? ==>
              NextLink(canon, l, user, session, Notify(envelope)) == l.(responses := l.responses + [envelope])
    ensures l.responses != [] ==>
              var t := NextLink(canon, l, user, session, Receive);
              && t.responses == l.responses[1..] && t.world == l.world
              && t.clientRoom == RoomAfterAll(l.clientRoom, l.responses[..1])
  {
    if l.responses != [] {
      assert l.responses[..1][1..] == [];
    }
  }

  predicate NoAnswer(envelopes: seq<Envelope>) {
    forall i :: 0 <= i < |envelopes| ==> !envelopes[i].RoomOperationResponse?
  }

  /** Every decided request has been answered, and the client has received the answers. */
  predicate AllAnswered<S>(l: Link<S>) {
    l.unanswered == [] && NoAnswer(l.responses)
  }

  // ----- what the requests say about the two sides -----

  /** The server's room after the decided requests. */
  function ServerRoom(commits: seq<Entry>): string {
    if commits == [] then "" else
    var before, last := ServerRoom(commits[..|commits| - 1]), commits[|commits| - 1];
    match last.operation
    case JOIN => if last.success then last.room else before
    case CREATE => if last.success then last.room else before
    case LEAVE => if before == last.room then "" else before
    case UnknownOperation(_) => before
  }

  /** The client's room after the answers. */
  function ClientRoom(answers: seq<Entry>): string {
    if answers == [] then "" else RoomAfter(ClientRoom(answers[..|answers| - 1]), AnswerTo(answers[|answers| - 1]))
  }

  /** Where a request puts the user. */
  function Target(entry: Option<Entry>): string {
    if entry.None? || entry.value.operation == LEAVE then "" else entry.value.room
  }

  /** The last request that moved the user at the server: a success, but a leave only from the room it named. */
  function LastMove(commits: seq<Entry>): Option<Entry> {
    if commits == [] then None else
    var before, last := LastMove(commits[..|commits| - 1]), commits[|commits| - 1];
    var moves := match last.operation
      case JOIN => last.success
      case CREATE => last.success
      case LEAVE => Target(before) == last.room
      case UnknownOperation(_) => false;
    if moves then Some(last) else before
  }

  /** The last request whose answer moved the client: also a refused create, and any leave. */
  function LastAnswer(answers: seq<Entry>): Option<Entry> {
    if answers == [] then None else
    var last := answers[|answers| - 1];
    var moves := match last.operation
      case JOIN => last.success
      case CREATE => true
      case LEAVE => last.success
      case UnknownOperation(_) => false;
    if moves then Some(last) else LastAnswer(answers[..|answers| - 1])
  }

  lemma {:induction false} LastMoveDecides(commits: seq<Entry>)
    ensures ServerRoom(commits) == Target(LastMove(commits))
  {
    if commits != [] {
      LastMoveDecides(commits[..|commits| - 1]);
    }
  }

  lemma {:induction false} LastAnswerDecides(answers: seq<Entry>)
    ensures ClientRoom(answers) == Target(LastAnswer(answers))
  {
    if answers != [] {
      LastAnswerDecides(answers[..|answers| - 1]);
    }
  }

  /**
   The two rooms agree after requests that are answered in the order of the decisions. A success agrees; a refused
   create agrees only if it named the server's room; a leave agrees only if it named the server's room or there
   was none; anything else leaves it as it was.
   */
  predicate InSync(log: seq<Entry>) {
    if log == [] then true else
    var before, last := log[..|log| - 1], log[|log| - 1];
    match last.operation
    case JOIN => last.success || InSync(before)
    case CREATE => last.success || last.room == ServerRoom(before)
    case LEAVE => ServerRoom(before) == last.room || ServerRoom(before) == ""
    case UnknownOperation(_) => InSync(before)
  }

  ghost predicate LeavesSucceed(log: seq<Entry>) {
    forall i :: 0 <= i < |log| ==> (log[i].operation == LEAVE ==> log[i].success)
  }

  lemma {:induction false} InSyncIff(log: seq<Entry>)
    requires LeavesSucceed(log)
    ensures ClientRoom(log) == ServerRoom(log) <==> InSync(log)
    decreases |log|
  {
    if log != [] {
      var n := |log| - 1;
      forall i | 0 <= i < n ensures log[..n][i].operation == LEAVE ==> log[..n][i].success {
        assert log[..n][i] == log[i];
      }
      InSyncIff(log[..n]);
    }
  }

  // ----- what every step keeps -----

  ghost predicate Inv<S>(l: Link<S>, user: int) {
    && CurrentRoomName(l.world.rooms, user) == ServerRoom(l.commits)
    && RoomAfterAll(l.clientRoom, l.responses) == ClientRoom(l.answers)
    && multiset(l.commits) == multiset(l.answers) + multiset(l.unanswered)
    && LeavesSucceed(l.commits)
    && forall task :: task in l.handlers ==> task in l.world.tasks && l.world.tasks[task].user == user
  }

  /** A decision keeps the invariant, if the server's room and the handlers have moved as it says. */
  lemma DecidedKeepsInv<S>(l: Link<S>, user: int, world: World<S>, entry: Entry)
    requires RoomAfterAll(l.clientRoom, l.responses) == ClientRoom(l.answers) && LeavesSucceed(l.commits)
    requires multiset(l.commits) == multiset(l.answers) + multiset(l.unanswered)
    requires entry.operation == LEAVE ==> entry.success
    requires CurrentRoomName(world.rooms, user) == ServerRoom(l.commits + [entry])
    requires forall task :: task in l.handlers ==> task in world.tasks && world.tasks[task].user == user
    ensures Inv(Decided(l, world, entry), user)
  {
    assert (l.commits + [entry])[..|l.commits|] == l.commits;
  }

  lemma ServerRoomMore(log: seq<Entry>, entry: Entry)
    ensures ServerRoom(log + [entry]) ==
              match entry.operation
              case JOIN => if entry.success then entry.room else ServerRoom(log)
              case CREATE => if entry.success then entry.room else ServerRoom(log)
              case LEAVE => if ServerRoom(log) == entry.room then "" else ServerRoom(log)
              case UnknownOperation(_) => ServerRoom(log)
  {
    assert (log + [entry])[..|log|] == log;
  }

  lemma JoinBeginKeepsInv<S>(canon: Collation, l: Link<S>, user: int, session: S, room: string, task: int, answered: bool)
    requires Inv(l, user) && task !in l.world.tasks
    ensures Inv(Started(canon, l, user, session, RoomRequest(JOIN, room), task, answered), user)
  {
    var w := Next(canon, l.world, JoinLookup(task, user, session, room, answered));
    ServerRoomMore(l.commits, Entry(JOIN, room, false));
    if task !in w.tasks {
      DecidedKeepsInv(l, user, w, Entry(JOIN, room, false));
    }
  }

  lemma CreateBeginKeepsInv<S>(canon: Collation, l: Link<S>, user: int, session: S, room: string, task: int, answered: bool)
    requires Inv(l, user) && task !in l.world.tasks
    ensures Inv(Started(canon, l, user, session, RoomRequest(CREATE, room), task, answered), user)
  {
    var w := Next(canon, l.world, CreateCheck(task, user, session, room, answered));
    ServerRoomMore(l.commits, Entry(CREATE, room, false));
    if task !in w.tasks {
      DecidedKeepsInv(l, user, w, Entry(CREATE, room, false));
    }
  }

  lemma LeaveKeepsInv<S>(canon: Collation, l: Link<S>, user: int, session: S, room: string, task: int, answered: bool)
    requires Inv(l, user)
    ensures Inv(Started(canon, l, user, session, RoomRequest(LEAVE, room), task, answered), user)
  {
    ServerRoomMore(l.commits, Entry(LEAVE, room, true));
    DecidedKeepsInv(l, user, Next(canon, l.world, LeaveCommit(user, room)), Entry(LEAVE, room, true));
  }

  lemma BeginKeepsInv<S>(canon: Collation, l: Link<S>, user: int, session: S, i: nat, task: int, answered: bool)
    requires Inv(l, user)
    ensures Inv(NextLink(canon, l, user, session, Begin(i, task, answered)), user)
  {
    if i < |l.requests| && task !in l.world.tasks && l.requests[i].RoomRequest? {
      var operation, room := l.requests[i].operation, l.requests[i].room;
      var taken := l.(requests := Without(l.requests, i));
      match operation {
        case JOIN => JoinBeginKeepsInv(canon, taken, user, session, room, task, answered);
        case LEAVE => LeaveKeepsInv(canon, taken, user, session, room, task, answered);
        case CREATE => CreateBeginKeepsInv(canon, taken, user, session, room, task, answered);
        case UnknownOperation(_) =>
          ServerRoomMore(l.commits, Entry(operation, room, false));
          DecidedKeepsInv(taken, user, l.world, Entry(operation, room, false));
      }
    }
  }

  lemma ContinueKeepsInv<S>(canon: Collation, l: Link<S>, user: int, session: S, task: int, id: int, outcome: InsertOutcome)
    requires Inv(l, user)
    ensures Inv(NextLink(canon, l, user, session, Continue(task, id, outcome)), user)
  {
    if task in l.handlers {
      var room, rest := l.world.tasks[task].room, l.(handlers := l.handlers - {task});
      match l.world.tasks[task] {
        case JoinFound(_, _, _, _) =>
          ServerRoomMore(l.commits, Entry(JOIN, room, true));
          DecidedKeepsInv(rest, user, Next(canon, l.world, JoinCommit(task)), Entry(JOIN, room, true));
        case CreateAbsent(_, _, _) =>
          InsertKeepsInv(canon, l, user, session, task, id, outcome);
        case CreateInserted(_, _, _, _) =>
          ServerRoomMore(l.commits, Entry(CREATE, room, true));
          DecidedKeepsInv(rest, user, Next(canon, l.world, CreateCommit(task)), Entry(CREATE, room, true));
      }
    }
  }

  lemma InsertKeepsInv<S>(canon: Collation, l: Link<S>, user: int, session: S, task: int, id: int, outcome: InsertOutcome)
    requires Inv(l, user) && task in l.handlers && l.world.tasks[task].CreateAbsent?
    ensures Inv(NextLink(canon, l, user, session, Continue(task, id, outcome)), user)
  {
    var room, rest := l.world.tasks[task].room, l.(handlers := l.handlers - {task});
    var w := Next(canon, l.world, CreateInsert(task, id, outcome));
    ServerRoomMore(l.commits, Entry(CREATE, room, false));
    if task !in w.tasks {
      DecidedKeepsInv(rest, user, w, Entry(CREATE, room, false));
    }
  }

  lemma ClientRoomMore(log: seq<Entry>, entry: Entry)
    ensures ClientRoom(log + [entry]) == RoomAfter(ClientRoom(log), AnswerTo(entry))
  {
    assert (log + [entry])[..|log|] == log;
  }

  lemma AnswerKeepsInv<S>(canon: Collation, l: Link<S>, user: int, session: S, i: nat)
    requires Inv(l, user)
    ensures Inv(NextLink(canon, l, user, session, Answer(i)), user)
  {
    if i < |l.unanswered| {
      var entry := l.unanswered[i];
      WithoutOne(l.unanswered, i);
      RoomAfterOneMore(l.clientRoom, l.responses, AnswerTo(entry));
      ClientRoomMore(l.answers, entry);
      assert multiset(l.answers + [entry]) == multiset(l.answers) + multiset{entry};
    }
  }

  /** Handlers of others change neither the user's room nor the user's running handlers. */
  lemma OtherKeepsInv<S>(canon: Collation, l: Link<S>, user: int, session: S, step: Step<S>)
    requires Inv(l, user)
    ensures Inv(NextLink(canon, l, user, session, Other(step)), user)
  {
    if Actor(l.world, step) != Some(user) {
      StepSparesSeats(canon, l.world, step, user);
      CurrentSeatIsName(l.world.rooms, Next(canon, l.world, step).rooms, user);
    }
  }

  lemma NextLinkKeepsInv<S>(canon: Collation, l: Link<S>, user: int, session: S, step: LinkStep<S>)
    requires Inv(l, user)
    ensures Inv(NextLink(canon, l, user, session, step), user)
  {
    match step {
      case Begin(i, task, answered) => BeginKeepsInv(canon, l, user, session, i, task, answered);
      case Continue(task, id, outcome) => ContinueKeepsInv(canon, l, user, session, task, id, outcome);
      case Answer(i) => AnswerKeepsInv(canon, l, user, session, i);
      case Other(other) => OtherKeepsInv(canon, l, user, session, other);
      case Notify(envelope) =>
        RoomAfterOneMore(l.clientRoom, l.responses, envelope);
      case _ =>
    }
  }

  lemma {:induction false} RunLinkKeepsInv<S>(canon: Collation, world: World<S>, user: int, session: S,
                                              steps: seq<LinkStep<S>>)
    requires user !in world.rooms.current
    ensures Inv(RunLink(canon, Fresh(world), user, session, steps), user)
    decreases |steps|
  {
    if steps != [] {
      var n := |steps| - 1;
      RunLinkKeepsInv(canon, world, user, session, steps[..n]);
      NextLinkKeepsInv(canon, RunLink(canon, Fresh(world), user, session, steps[..n]), user, session, steps[n]);
    }
  }

  lemma {:induction false} NoAnswerNoMove(current: string, envelopes: seq<Envelope>)
    requires NoAnswer(envelopes)
    ensures RoomAfterAll(current, envelopes) == current
    decreases |envelopes|
  {
    if envelopes != [] {
      NoAnswerNoMove(current, envelopes[1..]);
    }
  }

  // ----- agreement, however many handlers of the user run at once -----

  /**
   Whenever all decided requests are answered, the client's room is the server's room for the user if and only if
   the last decision that moved the user and the last answer that moved the client put them in the same room;
   every request decided has then been answered once, but perhaps in another order.
   */
  lemma Agreement<S>(canon: Collation, world: World<S>, user: int, session: S, steps: seq<LinkStep<S>>)
    requires user !in world.rooms.current
    ensures var l := RunLink(canon, Fresh(world), user, session, steps);
            AllAnswered(l) ==>
              && multiset(l.commits) == multiset(l.answers)
              && (l.clientRoom == CurrentRoomName(l.world.rooms, user)
                  <==> Target(LastMove(l.commits)) == Target(LastAnswer(l.answers)))
  {
    var l := RunLink(canon, Fresh(world), user, session, steps);
    RunLinkKeepsInv(canon, world, user, session, steps);
    LastMoveDecides(l.commits);
    LastAnswerDecides(l.answers);
    if AllAnswered(l) {
      NoAnswerNoMove(l.clientRoom, l.responses);
    }
  }

  predicate IsEntrance(entry: Entry) {
    entry.success && entry.operation in {JOIN, CREATE}
  }

  /** A successful join or create that is both decided last and answered last restores agreement. */
  lemma SuccessRestoresAgreement<S>(canon: Collation, world: World<S>, user: int, session: S, steps: seq<LinkStep<S>>,
                                    entry: Entry)
    requires user !in world.rooms.current && IsEntrance(entry)
    ensures var l := RunLink(canon, Fresh(world), user, session, steps);
            AllAnswered(l) && l.commits != [] && l.answers != []
            && l.commits[|l.commits| - 1] == entry == l.answers[|l.answers| - 1] ==>
              l.clientRoom == CurrentRoomName(l.world.rooms, user) == entry.room
  {
    Agreement(canon, world, user, session, steps);
    var l := RunLink(canon, Fresh(world), user, session, steps);
    RunLinkKeepsInv(canon, world, user, session, steps);
    LastMoveDecides(l.commits);
  }

  // ----- one handler of the user at a time -----

  /** A handler starts only when the one before has answered, as without extra threads. */
  ghost predicate Serial<S>(canon: Collation, world: World<S>, user: int, session: S, steps: seq<LinkStep<S>>) {
    forall i :: 0 <= i < |steps| && steps[i].Begin? ==>
      var l := RunLink(canon, Fresh(world), user, session, steps[..i]);
      l.handlers == {} && l.unanswered == []
  }

  /** The requests are answered in the order of the decisions. */
  ghost predicate InOrder<S>(l: Link<S>) {
    && l.commits == l.answers + l.unanswered && |l.unanswered| <= 1
    && (forall a, b :: a in l.handlers && b in l.handlers ==> a == b)
    && (l.handlers == {} || l.unanswered == [])
  }

  lemma BeginKeepsOrder<S>(canon: Collation, l: Link<S>, user: int, session: S, i: nat, task: int, answered: bool)
    requires InOrder(l) && l.handlers == {} && l.unanswered == []
    ensures InOrder(NextLink(canon, l, user, session, Begin(i, task, answered)))
  {
  }

  lemma ContinueKeepsOrder<S>(canon: Collation, l: Link<S>, user: int, session: S, task: int, id: int, outcome: InsertOutcome)
    requires InOrder(l)
    ensures InOrder(NextLink(canon, l, user, session, Continue(task, id, outcome)))
  {
    if task in l.handlers {
      assert forall t :: t in l.handlers ==> t == task;
      assert l.handlers - {task} == {};
    }
  }

  lemma AnswerKeepsOrder<S>(canon: Collation, l: Link<S>, user: int, session: S, i: nat)
    requires InOrder(l)
    ensures InOrder(NextLink(canon, l, user, session, Answer(i)))
  {
    if l.unanswered != [] {
      assert l.answers + l.unanswered == l.answers + [l.unanswered[0]] + [];
    }
  }

  lemma NextLinkKeepsOrder<S>(canon: Collation, l: Link<S>, user: int, session: S, step: LinkStep<S>)
    requires InOrder(l) && (step.Begin? ==> l.handlers == {} && l.unanswered == [])
    ensures InOrder(NextLink(canon, l, user, session, step))
  {
    match step {
      case Begin(i, task, answered) => BeginKeepsOrder(canon, l, user, session, i, task, answered);
      case Continue(task, id, outcome) => ContinueKeepsOrder(canon, l, user, session, task, id, outcome);
      case Answer(i) => AnswerKeepsOrder(canon, l, user, session, i);
      case _ =>
    }
  }

  lemma {:induction false} SerialInOrder<S>(canon: Collation, world: World<S>, user: int, session: S,
                                            steps: seq<LinkStep<S>>)
    requires Serial(canon, world, user, session, steps)
    ensures InOrder(RunLink(canon, Fresh(world), user, session, steps))
    decreases |steps|
  {
    if steps != [] {
      var n := |steps| - 1;
      forall i | 0 <= i < n && steps[..n][i].Begin?
        ensures var l := RunLink(canon, Fresh(world), user, session, steps[..n][..i]);
                l.handlers == {} && l.unanswered == []
      {
        assert steps[..n][..i] == steps[..i];
      }
      SerialInOrder(canon, world, user, session, steps[..n]);
      NextLinkKeepsOrder(canon, RunLink(canon, Fresh(world), user, session, steps[..n]), user, session, steps[n]);
    }
  }

  /**
   If the user's requests are handled one at a time, however many are sent ahead, the rooms agree if and only if the
   requests are in sync; in particular after each successful join or create.
   */
  lemma SerialAgreement<S>(canon: Collation, world: World<S>, user: int, session: S, steps: seq<LinkStep<S>>)
    requires user !in world.rooms.current && Serial(canon, world, user, session, steps)
    ensures var l := RunLink(canon, Fresh(world), user, session, steps);
            AllAnswered(l) ==>
              && (l.clientRoom == CurrentRoomName(l.world.rooms, user) <==> InSync(l.commits))
              && (l.commits != [] && IsEntrance(l.commits[|l.commits| - 1]) ==> InSync(l.commits))
  {
    var l := RunLink(canon, Fresh(world), user, session, steps);
    RunLinkKeepsInv(canon, world, user, session, steps);
    SerialInOrder(canon, world, user, session, steps);
    InSyncIff(l.commits);
    if AllAnswered(l) {
      assert l.answers + l.unanswered == l.answers;
      NoAnswerNoMove(l.clientRoom, l.responses);
    }
  }

  // ----- users who wait for the answer -----

  predicate NoRoomRequest(requests: seq<Request>) {
    forall i :: 0 <= i < |requests| ==> !requests[i].RoomRequest?
  }

  /** The only room request among the requests. */
  predicate OnlyRoomRequest(requests: seq<Request>, k: int) {
    && 0 <= k < |requests| && requests[k].RoomRequest?
    && forall i :: 0 <= i < |requests| && i != k ==> !requests[i].RoomRequest?
  }

  lemma TakeOnlyRoomRequest(requests: seq<Request>, k: nat)
    requires OnlyRoomRequest(requests, k)
    ensures NoRoomRequest(Without(requests, k))
  {
  }

  /** Taking another request leaves the only room request where it was or one place ahead. */
  lemma TakeOtherRequest(requests: seq<Request>, i: nat, k: nat)
    requires i < |requests| && !requests[i].RoomRequest? && OnlyRoomRequest(requests, k)
    ensures OnlyRoomRequest(Without(requests, i), if k < i then k else k - 1)
  {
    var less := Without(requests, i);
    assert forall j :: 0 <= j < |less| ==> less[j] == requests[if j < i then j else j + 1];
  }

  lemma OtherRequestTaken(requests: seq<Request>, i: nat, k: nat)
    requires i < |requests| && !requests[i].RoomRequest? && OnlyRoomRequest(Without(requests, i), k)
    ensures var k' := if k < i then k else k + 1;
            OnlyRoomRequest(requests, k') && Without(requests, i)[k] == requests[k']
  {
    var less := Without(requests, i);
    forall j | 0 <= j < |requests| && j != (if k < i then k else k + 1) ensures !requests[j].RoomRequest? {
      if j != i {
        assert requests[j] == less[if j < i then j else j - 1];
      }
    }
  }

  /** No room request of the user is under way. */
  predicate Idle<S>(l: Link<S>) {
    NoRoomRequest(l.requests) && l.handlers == {} && l.unanswered == [] && NoAnswer(l.responses)
  }

  /** Every room command is typed only when the one before has been answered. */
  ghost predicate Patient<S>(canon: Collation, world: World<S>, user: int, session: S, steps: seq<LinkStep<S>>) {
    forall i :: 0 <= i < |steps| && steps[i].Type? ==> Idle(RunLink(canon, Fresh(world), user, session, steps[..i]))
  }

  /** Each leave named the room that the client was in. */
  ghost predicate LeavesNameRoom(log: seq<Entry>) {
    forall i :: 0 <= i < |log| && log[i].operation == LEAVE ==> log[i].room == ClientRoom(log[..i])
  }

  /** At most one room request is under way, and a leave among it names the client's room. */
  ghost predicate OneUnderWay<S>(l: Link<S>) {
    && InOrder(l) && LeavesNameRoom(l.commits)
    && (NoRoomRequest(l.requests) || exists k :: OnlyRoomRequest(l.requests, k))
    && (forall k :: OnlyRoomRequest(l.requests, k) ==> Waiting(l, l.requests[k]))
    && (l.handlers != {} || l.unanswered != [] ==> NoAnswer(l.responses))
  }

  /** The request is the one under way. */
  ghost predicate Waiting<S>(l: Link<S>, request: Request)
    requires request.RoomRequest?
  {
    && l.handlers == {} && l.unanswered == [] && NoAnswer(l.responses)
    && (request.operation == LEAVE ==> request.room == ClientRoom(l.commits))
  }

  lemma LeavesNameRoomMore(log: seq<Entry>, entry: Entry)
    requires LeavesNameRoom(log) && (entry.operation == LEAVE ==> entry.room == ClientRoom(log))
    ensures LeavesNameRoom(log + [entry])
  {
    var more := log + [entry];
    forall i | 0 <= i < |more| && more[i].operation == LEAVE ensures more[i].room == ClientRoom(more[..i]) {
      if i < |log| {
        assert more[..i] == log[..i];
      } else {
        assert more[..i] == log;
      }
    }
  }

  lemma TypeKeepsOne<S>(canon: Collation, l: Link<S>, user: int, session: S, command: Command)
    requires Inv(l, user) && OneUnderWay(l) && Idle(l)
    ensures OneUnderWay(NextLink(canon, l, user, session, Type(command)))
  {
    var request := RequestFor(l.clientRoom, command);
    if request.Some? {
      NoAnswerNoMove(l.clientRoom, l.responses);
      assert l.answers + l.unanswered == l.answers;
      assert OnlyRoomRequest(l.requests + [request.value], |l.requests|);
    }
  }

  lemma BeginKeepsOne<S>(canon: Collation, l: Link<S>, user: int, session: S, i: nat, task: int, answered: bool)
    requires OneUnderWay(l)
    ensures OneUnderWay(NextLink(canon, l, user, session, Begin(i, task, answered)))
  {
    if i < |l.requests| && task !in l.world.tasks {
      if l.requests[i].RoomRequest? {
        TheOnlyRoomRequest(l.requests, i);
        TakeOnlyRoomRequest(l.requests, i);
        BeginsRoomRequest(canon, l, user, session, i, task, answered);
      } else {
        TakesOtherRequest(l, i);
      }
    }
  }

  lemma TheOnlyRoomRequest(requests: seq<Request>, i: nat)
    requires i < |requests| && requests[i].RoomRequest?
    requires NoRoomRequest(requests) || exists k :: OnlyRoomRequest(requests, k)
    ensures OnlyRoomRequest(requests, i)
  {
  }

  lemma TakesOtherRequest<S>(l: Link<S>, i: nat)
    requires OneUnderWay(l) && i < |l.requests| && !l.requests[i].RoomRequest?
    ensures OneUnderWay(l.(requests := Without(l.requests, i)))
  {
    var less := Without(l.requests, i);
    if k: nat :| OnlyRoomRequest(l.requests, k) {
      TakeOtherRequest(l.requests, i, k);
    } else {
      assert NoRoomRequest(less);
    }
    forall k | OnlyRoomRequest(less, k) ensures Waiting(l.(requests := less), less[k]) {
      OtherRequestTaken(l.requests, i, k);
      assert Waiting(l, l.requests[if k < i then k else k + 1]);
    }
  }

  lemma BeginsRoomRequest<S>(canon: Collation, l: Link<S>, user: int, session: S, i: nat, task: int, answered: bool)
    requires OneUnderWay(l) && OnlyRoomRequest(l.requests, i) && task !in l.world.tasks
    requires NoRoomRequest(Without(l.requests, i))
    ensures OneUnderWay(NextLink(canon, l, user, session, Begin(i, task, answered)))
  {
    var after := NextLink(canon, l, user, session, Begin(i, task, answered));
    BeginKeepsOrder(canon, l, user, session, i, task, answered);
    BeginNamesRoom(canon, l, user, session, i, task, answered);
    assert after.requests == Without(l.requests, i) && after.responses == l.responses;
  }

  lemma BeginNamesRoom<S>(canon: Collation, l: Link<S>, user: int, session: S, i: nat, task: int, answered: bool)
    requires LeavesNameRoom(l.commits) && i < |l.requests| && l.requests[i].RoomRequest?
    requires l.requests[i].operation == LEAVE ==> l.requests[i].room == ClientRoom(l.commits)
    ensures LeavesNameRoom(NextLink(canon, l, user, session, Begin(i, task, answered)).commits)
  {
    var operation, room := l.requests[i].operation, l.requests[i].room;
    LeavesNameRoomMore(l.commits, Entry(operation, room, operation == LEAVE));
  }

  lemma ContinueKeepsOne<S>(canon: Collation, l: Link<S>, user: int, session: S, task: int, id: int, outcome: InsertOutcome)
    requires OneUnderWay(l)
    ensures OneUnderWay(NextLink(canon, l, user, session, Continue(task, id, outcome)))
  {
    ContinueKeepsOrder(canon, l, user, session, task, id, outcome);
    if task in l.handlers && task in l.world.tasks {
      var room := l.world.tasks[task].room;
      LeavesNameRoomMore(l.commits, Entry(JOIN, room, true));
      LeavesNameRoomMore(l.commits, Entry(CREATE, room, true));
      LeavesNameRoomMore(l.commits, Entry(CREATE, room, false));
    }
  }

  lemma ReceiveKeepsOne<S>(canon: Collation, l: Link<S>, user: int, session: S)
    requires OneUnderWay(l)
    ensures OneUnderWay(NextLink(canon, l, user, session, Receive))
  {
    if l.responses != [] {
      var more := l.requests + FollowUp(l.responses[0]);
      forall k ensures OnlyRoomRequest(more, k) <==> OnlyRoomRequest(l.requests, k) {
        if OnlyRoomRequest(more, k) {
          assert forall i :: 0 <= i < |l.requests| ==> more[i] == l.requests[i];
        }
      }
    }
  }

  lemma SilentKeepsOne<S>(canon: Collation, l: Link<S>, user: int, session: S, step: LinkStep<S>)
    requires OneUnderWay(l) && (step.Other? || step.Notify?)
    ensures OneUnderWay(NextLink(canon, l, user, session, step))
  {
  }

  lemma AnswerKeepsOne<S>(canon: Collation, l: Link<S>, user: int, session: S, i: nat)
    requires OneUnderWay(l)
    ensures OneUnderWay(NextLink(canon, l, user, session, Answer(i)))
  {
    AnswerKeepsOrder(canon, l, user, session, i);
  }

  lemma NextLinkKeepsOne<S>(canon: Collation, l: Link<S>, user: int, session: S, step: LinkStep<S>)
    requires Inv(l, user) && OneUnderWay(l) && (step.Type? ==> Idle(l))
    ensures OneUnderWay(NextLink(canon, l, user, session, step))
  {
    match step {
      case Type(command) => TypeKeepsOne(canon, l, user, session, command);
      case Begin(i, task, answered) => BeginKeepsOne(canon, l, user, session, i, task, answered);
      case Continue(task, id, outcome) => ContinueKeepsOne(canon, l, user, session, task, id, outcome);
      case Answer(i) => AnswerKeepsOne(canon, l, user, session, i);
      case Receive => ReceiveKeepsOne(canon, l, user, session);
      case Other(_) => SilentKeepsOne(canon, l, user, session, step);
      case Notify(_) => SilentKeepsOne(canon, l, user, session, step);
    }
  }

  lemma {:induction false} PatientKeepsOne<S>(canon: Collation, world: World<S>, user: int, session: S,
                                              steps: seq<LinkStep<S>>)
    requires user !in world.rooms.current && Patient(canon, world, user, session, steps)
    ensures OneUnderWay(RunLink(canon, Fresh(world), user, session, steps))
    decreases |steps|
  {
    if steps != [] {
      var n := |steps| - 1;
      forall i | 0 <= i < n && steps[..n][i].Type?
        ensures Idle(RunLink(canon, Fresh(world), user, session, steps[..n][..i]))
      {
        assert steps[..n][..i] == steps[..i];
      }
      PatientKeepsOne(canon, world, user, session, steps[..n]);
      RunLinkKeepsInv(canon, world, user, session, steps[..n]);
      NextLinkKeepsOne(canon, RunLink(canon, Fresh(world), user, session, steps[..n]), user, session, steps[n]);
    }
  }

  predicate IsRefusedCreate(entry: Entry) {
    entry.operation == CREATE && !entry.success
  }

  /** Every refused create has been followed by a success. */
  predicate Repaired(log: seq<Entry>) {
    forall i :: 0 <= i < |log| && IsRefusedCreate(log[i]) ==> exists j :: i < j < |log| && IsEntrance(log[j])
  }

  /** The last answer that moved the client happened to put it where the server has the user. */
  predicate Harmless(log: seq<Entry>) {
    var last := LastAnswer(log);
    last.Some? &&
    if IsRefusedCreate(last.value) then last.value.room == ServerRoom(log)           // refused for the user's own room
    else last.value.operation == LEAVE && ServerRoom(log) == ""                      // left when the server had none
  }

  lemma {:induction false} RepairedInSync(log: seq<Entry>)
    requires LeavesNameRoom(log) && LeavesSucceed(log) && Repaired(log)
    ensures InSync(log)
    decreases |log|
  {
    if log != [] && !IsEntrance(log[|log| - 1]) {
      var n := |log| - 1;
      var before := log[..n];
      forall i | 0 <= i < n ensures before[i] == log[i] && before[..i] == log[..i] {
      }
      assert !IsRefusedCreate(log[n]);
      forall i | 0 <= i < n && IsRefusedCreate(before[i]) ensures exists j :: i < j < n && IsEntrance(before[j]) {
        var j :| i < j < |log| && IsEntrance(log[j]);
        assert IsEntrance(before[j]);
      }
      RepairedInSync(before);
      InSyncIff(before);
    }
  }

  /** After a refused create without a later success, the last answer to move the client is a refusal or a leave. */
  lemma {:induction false} UnrepairedLastAnswer(log: seq<Entry>, i: nat)
    requires LeavesSucceed(log) && i < |log| && IsRefusedCreate(log[i])
    requires forall j :: i < j < |log| ==> !IsEntrance(log[j])
    ensures LastAnswer(log).Some?
    ensures IsRefusedCreate(LastAnswer(log).value) || LastAnswer(log).value.operation == LEAVE
    decreases |log|
  {
    var n := |log| - 1;
    if i < n {
      assert !IsEntrance(log[n]);
      forall j | 0 <= j < n ensures log[..n][j] == log[j] {
      }
      UnrepairedLastAnswer(log[..n], i);
    }
  }

  lemma RepairedOrHarmless(log: seq<Entry>)
    requires LeavesNameRoom(log) && LeavesSucceed(log)
    ensures InSync(log) <==> Repaired(log) || Harmless(log)
  {
    InSyncIff(log);
    LastAnswerDecides(log);
    if Repaired(log) {
      RepairedInSync(log);
    } else {
      var i: nat :| i < |log| && IsRefusedCreate(log[i]) && !exists j :: i < j < |log| && IsEntrance(log[j]);
      UnrepairedLastAnswer(log, i);
    }
  }

  /**
   A user who waits for each answer is in agreement with the server if and only if every refused create has been
   followed by a success, or the last answer happens to fit the server all the same.
   */
  lemma PatientAgreement<S>(canon: Collation, world: World<S>, user: int, session: S, steps: seq<LinkStep<S>>)
    requires user !in world.rooms.current && Patient(canon, world, user, session, steps)
    ensures var l := RunLink(canon, Fresh(world), user, session, steps);
            AllAnswered(l) ==>
              (l.clientRoom == CurrentRoomName(l.world.rooms, user) <==> Repaired(l.commits) || Harmless(l.commits))
  {
    var l := RunLink(canon, Fresh(world), user, session, steps);
    RunLinkKeepsInv(canon, world, user, session, steps);
    PatientKeepsOne(canon, world, user, session, steps);
    RepairedOrHarmless(l.commits);
    InSyncIff(l.commits);
    if AllAnswered(l) {
      assert l.answers + l.unanswered == l.answers;
      NoAnswerNoMove(l.clientRoom, l.responses);
    }
  }

  // ----- putting runs together -----

  lemma RunLinkMore<S>(canon: Collation, l: Link<S>, user: int, session: S, steps: seq<LinkStep<S>>, step: LinkStep<S>)
    ensures RunLink(canon, l, user, session, steps + [step])
         == NextLink(canon, RunLink(canon, l, user, session, steps), user, session, step)
  {
    assert (steps + [step])[..|steps|] == steps;
  }

  lemma {:induction false} RunLinkFirst<S>(canon: Collation, l: Link<S>, user: int, session: S,
                                           step: LinkStep<S>, steps: seq<LinkStep<S>>)
    ensures RunLink(canon, l, user, session, [step] + steps)
         == RunLink(canon, NextLink(canon, l, user, session, step), user, session, steps)
    decreases |steps|
  {
    if steps == [] {
      RunLinkMore(canon, l, user, session, [], step);
      assert [step] + [] == [] + [step];
    } else {
      var n := |steps| - 1;
      RunLinkFirst(canon, l, user, session, step, steps[..n]);
      RunLinkMore(canon, l, user, session, [step] + steps[..n], steps[n]);
      assert [step] + steps[..n] + [steps[n]] == [step] + steps;
    }
  }

  lemma {:induction false} RunLinkSplit<S>(canon: Collation, l: Link<S>, user: int, session: S,
                                           a: seq<LinkStep<S>>, b: seq<LinkStep<S>>)
    ensures RunLink(canon, l, user, session, a + b) == RunLink(canon, RunLink(canon, l, user, session, a), user, session, b)
    decreases |b|
  {
    if b == [] {
      assert a + b == a;
    } else {
      var front, last := b[..|b| - 1], b[|b| - 1];
      RunLinkSplit(canon, l, user, session, a, front);
      RunLinkMore(canon, l, user, session, a + front, last);
      RunLinkMore(canon, RunLink(canon, l, user, session, a), user, session, front, last);
      assert b == front + [last] && a + b == (a + front) + [last];
    }
  }

  // ----- nothing stays under way for good -----

  predicate Quiet<S>(l: Link<S>) {
    l.requests == [] && l.handlers == {} && l.unanswered == [] && l.responses == []
  }

  /** How many room requests have not been taken up. */
  function Pending(requests: seq<Request>): nat {
    if requests == [] then 0 else (if requests[0].RoomRequest? then 1 else 0) + Pending(requests[1..])
  }

  lemma {:induction false} FollowUpIsNoRoomRequest(requests: seq<Request>, envelope: Envelope)
    ensures Pending(requests + FollowUp(envelope)) == Pending(requests)
    decreases |requests|
  {
    var more := FollowUp(envelope);
    if requests == [] {
      assert requests + more == more;
      assert more != [] ==> more[1..] == [];
    } else {
      FollowUpIsNoRoomRequest(requests[1..], envelope);
      assert (requests + more)[1..] == requests[1..] + more;
    }
  }

  /** A number above all of a set. */
  ghost function Bound(s: set<int>): (b: int)
    ensures forall x :: x in s ==> x < b
  {
    if s == {} then 0 else
    var x := Pick(s);
    var b := Bound(s - {x});
    assert forall y :: y in s ==> y == x || y in s - {x};
    if b <= x then x + 1 else b
  }

  /** The next step towards quiet: of a handler, an answer, a receipt, or taking up a request. */
  ghost function SettlingStep<S>(l: Link<S>): LinkStep<S>
    requires !Quiet(l)
  {
    if l.handlers != {} then Continue(Pick(l.handlers), 0, Refused)
    else if l.unanswered != [] then Answer(0)
    else if l.responses != [] then Receive
    else Begin(0, Bound(l.world.tasks.Keys), true)
  }

  /** Closer to quiet, as handlers follow requests, answers follow handlers, and history requests follow answers. */
  ghost predicate Closer<S>(t: Link<S>, l: Link<S>) {
    || Pending(t.requests) < Pending(l.requests)
    || (Pending(t.requests) == Pending(l.requests) &&
        (|| |t.handlers| < |l.handlers|
         || (|t.handlers| == |l.handlers| &&
             (|| |t.unanswered| < |l.unanswered|
              || (|t.unanswered| == |l.unanswered| &&
                  (|| |t.responses| < |l.responses|
                   || (|t.responses| == |l.responses| && |t.requests| < |l.requests|)))))))
  }

  lemma ContinueSettles<S>(canon: Collation, l: Link<S>, user: int, session: S, task: int)
    requires Inv(l, user) && task in l.handlers
    ensures Closer(NextLink(canon, l, user, session, Continue(task, 0, Refused)), l)
  {
    assert |l.handlers - {task}| == |l.handlers| - 1;
  }

  lemma ReceiveSettles<S>(canon: Collation, l: Link<S>, user: int, session: S)
    requires l.responses != []
    ensures Closer(NextLink(canon, l, user, session, Receive), l)
  {
    FollowUpIsNoRoomRequest(l.requests, l.responses[0]);
  }

  lemma BeginSettles<S>(canon: Collation, l: Link<S>, user: int, session: S, task: int)
    requires l.requests != [] && task !in l.world.tasks
    ensures Closer(NextLink(canon, l, user, session, Begin(0, task, true)), l)
  {
    assert Without(l.requests, 0) == l.requests[1..];
  }

  lemma SettlingProgress<S>(canon: Collation, l: Link<S>, user: int, session: S)
    requires Inv(l, user) && !Quiet(l)
    ensures Closer(NextLink(canon, l, user, session, SettlingStep(l)), l)
  {
    if l.handlers != {} {
      ContinueSettles(canon, l, user, session, Pick(l.handlers));
    } else if l.unanswered != [] {
    } else if l.responses != [] {
      ReceiveSettles(canon, l, user, session);
    } else {
      BeginSettles(canon, l, user, session, Bound(l.world.tasks.Keys));
    }
  }

  /** Steps of the server for this user and of the client, with nothing new typed. */
  predicate Settling<S>(steps: seq<LinkStep<S>>) {
    forall i :: 0 <= i < |steps| ==> steps[i].Begin? || steps[i].Continue? || steps[i].Answer? || steps[i].Receive?
  }

  lemma {:induction false} Settle<S>(canon: Collation, l: Link<S>, user: int, session: S) returns (more: seq<LinkStep<S>>)
    requires Inv(l, user)
    ensures Settling(more) && Quiet(RunLink(canon, l, user, session, more))
    decreases Pending(l.requests), |l.handlers|, |l.unanswered|, |l.responses|, |l.requests|
  {
    more := [];
    if !Quiet(l) {
      var step := SettlingStep(l);
      SettlingProgress(canon, l, user, session);
      NextLinkKeepsInv(canon, l, user, session, step);
      var rest := Settle(canon, NextLink(canon, l, user, session, step), user, session);
      RunLinkFirst(canon, l, user, session, step, rest);
      more := [step] + rest;
    }
  }

  /** However much is under way, the connection can go on, with nothing new typed, until all of it is handled, answered and received. */
  lemma QuietReachable<S>(canon: Collation, world: World<S>, user: int, session: S, steps: seq<LinkStep<S>>)
    requires user !in world.rooms.current
    ensures exists more :: Settling(more) && Quiet(RunLink(canon, Fresh(world), user, session, steps + more))
  {
    RunLinkKeepsInv(canon, world, user, session, steps);
    var more := Settle(canon, RunLink(canon, Fresh(world), user, session, steps), user, session);
    RunLinkSplit(canon, Fresh(world), user, session, steps, more);
    assert Quiet(RunLink(canon, Fresh(world), user, session, steps + more));
  }
}
