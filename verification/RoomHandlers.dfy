/**
 The handlers of the room service, the steps of the interleaving and the requests of a connection are
 three views of the same handlers: without interruption they come to the same end.
 */
module RoomHandlers {
  import opened Wrappers
  import opened RoomState
  import opened RoomTable
  import opened RoomProtocol
  import opened RoomRepository
  import opened RoomService
  import opened Session
  import opened ChatClient
  import opened RoomAgreement

  /** The steps of a whole handler; those it does not get to have no effect. */
  function HandlerSteps<S>(operation: RoomOperation, task: int, user: int, session: S, room: string, db: Database): seq<Step<S>> {
    match operation
    case JOIN => [JoinLookup(task, user, session, room, db.answered)] + [JoinCommit(task)]
    case LEAVE => [LeaveCommit(user, room)]
    case CREATE => [CreateCheck(task, user, session, room, db.answered)] + [CreateInsert(task, db.newId, db.outcome)]
                 + [CreateCommit(task)]
    case UnknownOperation(_) => []
  }

  /** The world after a handler that nobody interrupts. */
  ghost function Uninterrupted<S>(canon: Collation, w: World<S>, operation: RoomOperation,
                                  user: int, session: S, room: string, db: Database): World<S>
  {
    var row := Row(db.newId, room, user);
    var found, added := Query(canon, w.table, room, db.answered), Added(canon, w.table, row, db);
    World(Handled(w.rooms, operation, user, session, room, found, added),
          if operation.CREATE? && found.None? && Stored(canon, w.table, row, db) then w.table + [row] else w.table,
          w.tasks)
  }

  lemma CreateUninterrupted<S>(canon: Collation, w: World<S>, task: int, user: int, session: S, room: string, db: Database)
    requires task !in w.tasks
    ensures var checked := Next(canon, w, CreateCheck(task, user, session, room, db.answered));
            var inserted := Next(canon, checked, CreateInsert(task, db.newId, db.outcome));
            Next(canon, inserted, CreateCommit(task)) == Uninterrupted(canon, w, CREATE, user, session, room, db)
  {
    var row := Row(db.newId, room, user);
    var checked := Next(canon, w, CreateCheck(task, user, session, room, db.answered));
    var inserted := Next(canon, checked, CreateInsert(task, db.newId, db.outcome));
    if Query(canon, w.table, room, db.answered).Some? {
      assert checked == w && inserted == w;
    } else {
      assert checked == w.(tasks := w.tasks[task := CreateAbsent(user, session, room)]);
      assert Inserting(canon, checked, CreateInsert(task, db.newId, db.outcome))
          == if Stored(canon, w.table, row, db) then Some(row) else None;
      if Added(canon, w.table, row, db).Some? {
        assert inserted.tasks == w.tasks[task := CreateInserted(user, session, room, row)];
      } else {
        assert inserted.tasks == w.tasks;
      }
    }
  }

  lemma JoinUninterrupted<S>(canon: Collation, w: World<S>, task: int, user: int, session: S, room: string, db: Database)
    requires task !in w.tasks
    ensures var found := Next(canon, w, JoinLookup(task, user, session, room, db.answered));
            Next(canon, found, JoinCommit(task)) == Uninterrupted(canon, w, JOIN, user, session, room, db)
  {
    var row := Query(canon, w.table, room, db.answered);
    var found := Next(canon, w, JoinLookup(task, user, session, room, db.answered));
    assert found == if row.None? then w else w.(tasks := w.tasks[task := JoinFound(user, session, room, row.value)]);
  }

  /** Running the steps of a handler without interruption does what the handler method does. */
  lemma StepsAreHandler<S>(canon: Collation, w: World<S>, operation: RoomOperation,
                           task: int, user: int, session: S, room: string, db: Database)
    requires task !in w.tasks
    ensures Run(canon, w, HandlerSteps(operation, task, user, session, room, db))
         == Uninterrupted(canon, w, operation, user, session, room, db)
  {
    match operation {
      case JOIN =>
        var look, commit := JoinLookup(task, user, session, room, db.answered), Step<S>.JoinCommit(task);
        RunMore(canon, w, [], look);
        assert [] + [look] == [look];
        RunMore(canon, w, [look], commit);
        JoinUninterrupted(canon, w, task, user, session, room, db);
      case LEAVE =>
        var leave := Step<S>.LeaveCommit(user, room);
        RunMore(canon, w, [], leave);
        assert [] + [leave] == [leave];
      case CREATE =>
        var check := CreateCheck(task, user, session, room, db.answered);
        var insert, commit := Step<S>.CreateInsert(task, db.newId, db.outcome), Step<S>.CreateCommit(task);
        RunMore(canon, w, [], check);
        assert [] + [check] == [check];
        RunMore(canon, w, [check], insert);
        RunMore(canon, w, [check] + [insert], commit);
        CreateUninterrupted(canon, w, task, user, session, room, db);
      case UnknownOperation(_) =>
    }
  }

  /** A request of a connection, begun, continued to its end and answered. */
  ghost function Served<S>(canon: Collation, l: Link<S>, user: int, session: S, i: nat, task: int, db: Database): Link<S> {
    var begun := NextLink(canon, l, user, session, Begin(i, task, db.answered));
    var inserted := NextLink(canon, begun, user, session, Continue(task, db.newId, db.outcome));
    var decided := NextLink(canon, inserted, user, session, Continue(task, db.newId, db.outcome));
    NextLink(canon, decided, user, session, Answer(0))
  }

  /** No other decided request is waiting for its answer, and the handler is a new one. */
  predicate Servable<S>(l: Link<S>, i: nat, task: int) {
    && i < |l.requests| && l.requests[i].RoomRequest?
    && l.unanswered == [] && task !in l.handlers && task !in l.world.tasks
  }

  /** What the connection is after the request, as the handler method says. */
  ghost function Expected<S>(canon: Collation, l: Link<S>, user: int, session: S, i: nat, db: Database): Link<S>
    requires i < |l.requests| && l.requests[i].RoomRequest?
  {
    var operation, room := l.requests[i].operation, l.requests[i].room;
    var success := Succeeds(operation, Query(canon, l.world.table, room, db.answered),
                            Added(canon, l.world.table, Row(db.newId, room, user), db));
    l.(world := Uninterrupted(canon, l.world, operation, user, session, room, db),
       requests := Without(l.requests, i),
       responses := l.responses + [RoomAnswer(operation, room, success)],
       commits := l.commits + [Entry(operation, room, success)],
       answers := l.answers + [Entry(operation, room, success)])
  }

  lemma JoinServed<S>(canon: Collation, l: Link<S>, user: int, session: S, i: nat, task: int, db: Database)
    requires Servable(l, i, task) && l.requests[i].operation == JOIN
    ensures Served(canon, l, user, session, i, task, db) == Expected(canon, l, user, session, i, db)
  {
    JoinUninterrupted(canon, l.world, task, user, session, l.requests[i].room, db);
    assert l.handlers + {task} - {task} == l.handlers;
  }

  lemma CreateServed<S>(canon: Collation, l: Link<S>, user: int, session: S, i: nat, task: int, db: Database)
    requires Servable(l, i, task) && l.requests[i].operation == CREATE
    ensures Served(canon, l, user, session, i, task, db) == Expected(canon, l, user, session, i, db)
  {
    var room, taken := l.requests[i].room, l.(requests := Without(l.requests, i));
    CreateUninterrupted(canon, l.world, task, user, session, room, db);
    var checked := Next(canon, l.world, CreateCheck(task, user, session, room, db.answered));
    if task in checked.tasks {
      AbsentServed(canon, taken.(world := checked, handlers := l.handlers + {task}), user, session, task, db, l.world);
    } else {
      assert NextLink(canon, l, user, session, Begin(i, task, db.answered))
          == Decided(taken, l.world, Entry(CREATE, room, false));
    }
  }

  /** A create that has found the name free, continued to its end and answered. */
  lemma AbsentServed<S>(canon: Collation, l: Link<S>, user: int, session: S, task: int, db: Database, before: World<S>)
    requires task in l.handlers && l.unanswered == [] && task !in before.tasks
    requires l.world == before.(tasks := l.world.tasks) && task in l.world.tasks
    requires l.world.tasks == before.tasks[task := l.world.tasks[task]] && l.world.tasks[task].CreateAbsent?
    ensures var t := l.world.tasks[task];
            var row := Row(db.newId, t.room, t.user);
            var added := Added(canon, before.table, row, db);
            var inserted := NextLink(canon, l, user, session, Continue(task, db.newId, db.outcome));
            var decided := NextLink(canon, inserted, user, session, Continue(task, db.newId, db.outcome));
            NextLink(canon, decided, user, session, Answer(0)) ==
            l.(world := World(if added.Some? then Create(before.rooms, t.user, t.session, t.room, row) else before.rooms,
                              if Stored(canon, before.table, row, db) then before.table + [row] else before.table,
                              before.tasks),
               handlers := l.handlers - {task},
               responses := l.responses + [RoomAnswer(CREATE, t.room, added.Some?)],
               commits := l.commits + [Entry(CREATE, t.room, added.Some?)],
               answers := l.answers + [Entry(CREATE, t.room, added.Some?)])
  {
    var t := l.world.tasks[task];
    var row := Row(db.newId, t.room, t.user);
    var w := Next(canon, l.world, CreateInsert(task, db.newId, db.outcome));
    assert Inserting(canon, l.world, CreateInsert(task, db.newId, db.outcome))
        == if Stored(canon, before.table, row, db) then Some(row) else None;
    if Added(canon, before.table, row, db).Some? {
      assert w.tasks == before.tasks[task := CreateInserted(t.user, t.session, t.room, row)];
    } else {
      assert w.tasks == before.tasks;
    }
  }

  /** A request of a connection, served without interruption, is handled and answered as the handler method does. */
  lemma ServedAsHandled<S>(canon: Collation, l: Link<S>, user: int, session: S, i: nat, task: int, db: Database)
    requires Servable(l, i, task)
    ensures Served(canon, l, user, session, i, task, db) == Expected(canon, l, user, session, i, db)
  {
    match l.requests[i].operation {
      case JOIN => JoinServed(canon, l, user, session, i, task, db);
      case LEAVE =>
      case CREATE => CreateServed(canon, l, user, session, i, task, db);
      case UnknownOperation(_) =>
    }
  }
}
