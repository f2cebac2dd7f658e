/**
 Room requests of many users at once. A handler queries the database outside the lock and changes the
 live rooms inside it, so between its steps any other handler may take any number of its own.
 */
module RoomProtocol {
  import opened Wrappers
  import opened RoomState
  import opened RoomTable

  /** A handler between two of its steps. */
  datatype Task<+S> =
    | JoinFound(user: int, session: S, room: string, row: Row)       // row found, not yet in the room
    | CreateAbsent(user: int, session: S, room: string)              // name free, not yet inserted
    | CreateInserted(user: int, session: S, room: string, row: Row)  // inserted, not yet in the room

  datatype World<+S> = World(rooms: Rooms<S>, table: seq<Row>, tasks: map<int, Task<S>>)

  /** An insert may be stored and acknowledged, stored with the acknowledgement lost, or not stored. */
  datatype InsertOutcome = Acknowledged | Unacknowledged | Refused

  datatype Step<+S> =
    | JoinLookup(task: int, user: int, session: S, room: string, answered: bool)
    | JoinCommit(task: int)
    | LeaveCommit(user: int, room: string)
    | CreateCheck(task: int, user: int, session: S, room: string, answered: bool)
    | CreateInsert(task: int, id: int, outcome: InsertOutcome)
    | CreateCommit(task: int)
    | DisconnectCommit(user: int)

  function Initial<S>(table: seq<Row>): World<S> {
    World(NoRooms(), table, map[])
  }

  /** What a query answers; a failing database answers like an absent row. */
  function Query(canon: Collation, table: seq<Row>, name: string, answered: bool): Option<Row> {
    if answered then Lookup(canon, table, name) else None
  }

  /** The row that a create handler asks to insert, when the keys of the table admit it. */
  ghost function Inserting<S>(canon: Collation, w: World<S>, step: Step<S>): Option<Row> {
    if step.CreateInsert? && !step.outcome.Refused? && step.task in w.tasks && w.tasks[step.task].CreateAbsent? then
      var t := w.tasks[step.task];
      var row := Row(step.id, t.room, t.user);
      if Insertable(canon, w.table, row) then Some(row) else None
    else None
  }

  /** The effect of a step on the handlers; one that is not possible changes nothing. */
  ghost function NextTasks<S>(canon: Collation, w: World<S>, step: Step<S>): map<int, Task<S>> {
    match step
    case JoinLookup(task, user, session, room, answered) =>
      var row := Query(canon, w.table, room, answered);
      if task in w.tasks || row.None? then w.tasks
      else w.tasks[task := JoinFound(user, session, room, row.value)]
    case CreateCheck(task, user, session, room, answered) =>
      if task in w.tasks || Query(canon, w.table, room, answered).Some? then w.tasks
      else w.tasks[task := CreateAbsent(user, session, room)]
    case CreateInsert(task, _, outcome) =>
      if task !in w.tasks || !w.tasks[task].CreateAbsent? then w.tasks else (
        var t := w.tasks[task];
        match Inserting(canon, w, step)
        case Some(row) =>
          if outcome.Acknowledged? then w.tasks[task := CreateInserted(t.user, t.session, t.room, row)]
          else w.tasks - {task}
        case None => w.tasks - {task}
      )
    case JoinCommit(task) => if task in w.tasks && w.tasks[task].JoinFound? then w.tasks - {task} else w.tasks
    case CreateCommit(task) => if task in w.tasks && w.tasks[task].CreateInserted? then w.tasks - {task} else w.tasks
    case _ => w.tasks
  }

  /** The effect of a step on the live rooms: the critical section of the handler, if it is one. */
  function NextRooms<S>(w: World<S>, step: Step<S>): Rooms<S> {
    match step
    case JoinCommit(task) =>
      if task in w.tasks && w.tasks[task].JoinFound? then
        var t := w.tasks[task];
        Join(w.rooms, t.user, t.session, t.room, t.row)
      else w.rooms
    case LeaveCommit(user, room) => Leave(w.rooms, user, room)
    case CreateCommit(task) =>
      if task in w.tasks && w.tasks[task].CreateInserted? then
        var t := w.tasks[task];
        Create(w.rooms, t.user, t.session, t.room, t.row)
      else w.rooms
    case DisconnectCommit(user) => Disconnect(w.rooms, user)
    case _ => w.rooms
  }

  ghost function Next<S>(canon: Collation, w: World<S>, step: Step<S>): World<S> {
    var table := match Inserting(canon, w, step) case Some(row) => w.table + [row] case None => w.table;
    World(NextRooms(w, step), table, NextTasks(canon, w, step))
  }

  ghost function Run<S>(canon: Collation, w: World<S>, steps: seq<Step<S>>): World<S>
    decreases |steps|
  {
    if steps == [] then w else
    var n := |steps| - 1;
    Next(canon, Run(canon, w, steps[..n]), steps[n])
  }

  lemma RunMore<S>(canon: Collation, w: World<S>, steps: seq<Step<S>>, step: Step<S>)
    ensures Run(canon, w, steps + [step]) == Next(canon, Run(canon, w, steps), step)
  {
    assert (steps + [step])[..|steps|] == steps;
  }

  // ----- handlers can always go on -----

  /** Whatever has happened since the lookup, the next step of a join brings the user into the room and ends it. */
  lemma JoinFinishes<S>(canon: Collation, w: World<S>, task: int)
    requires task in w.tasks && w.tasks[task].JoinFound?
    ensures var t := w.tasks[task];
            Next(canon, w, JoinCommit(task)) == World(Join(w.rooms, t.user, t.session, t.room, t.row), w.table, w.tasks - {task})
  {
  }

  /**
   Whatever has happened since the check, a create whose name and id are still free by the insert brings the user into
   the new room, and one that has lost the race changes nothing; either way it ends.
   */
  lemma CreateFinishes<S>(canon: Collation, w: World<S>, task: int, id: int)
    requires task in w.tasks && w.tasks[task].CreateAbsent?
    ensures var t := w.tasks[task];
            var inserted := Next(canon, w, CreateInsert(task, id, Acknowledged));
            if forall r :: r in w.table ==> r.id != id && canon(r.name) != canon(t.room) then
              var row := Row(id, t.room, t.user);
              Next(canon, inserted, CreateCommit(task))
              == World(Create(w.rooms, t.user, t.session, t.room, row), w.table + [row], w.tasks - {task})
            else inserted == w.(tasks := w.tasks - {task})
  {
    var t := w.tasks[task];
    InsertableIff(canon, w.table, Row(id, t.room, t.user));
    var inserted := Next(canon, w, CreateInsert(task, id, Acknowledged));
    if Insertable(canon, w.table, Row(id, t.room, t.user)) {
      assert inserted.tasks == w.tasks[task := CreateInserted(t.user, t.session, t.room, Row(id, t.room, t.user))];
    }
  }

  /** Leaves and disconnects take effect in one step, whatever else is under way. */
  lemma LeavesAndDisconnects<S>(canon: Collation, w: World<S>, user: int, room: string)
    ensures Next(canon, w, LeaveCommit(user, room)) == World(Leave(w.rooms, user, room), w.table, w.tasks)
    ensures Next(canon, w, DisconnectCommit(user)) == World(Disconnect(w.rooms, user), w.table, w.tasks)
  {
  }

  /** An insert that is refused, or not acknowledged, ends the create without any change to the live rooms. */
  lemma CreateFails<S>(canon: Collation, w: World<S>, task: int, id: int, outcome: InsertOutcome)
    requires task in w.tasks && w.tasks[task].CreateAbsent? && !outcome.Acknowledged?
    ensures var t, v := w.tasks[task], Next(canon, w, CreateInsert(task, id, outcome));
            && v.rooms == w.rooms && v.tasks == w.tasks - {task}
            && v.table == if outcome.Unacknowledged? && forall r :: r in w.table ==> r.id != id && canon(r.name) != canon(t.room)
                          then w.table + [Row(id, t.room, t.user)] else w.table
  {
    InsertableIff(canon, w.table, Row(id, w.tasks[task].room, w.tasks[task].user));
  }

  // ----- what every step keeps -----

  /** What an active room caches is what the table answers for its name. */
  ghost predicate CacheAgrees<S>(canon: Collation, table: seq<Row>, active: Active<S>) {
    forall room :: room in active ==>
      Lookup(canon, table, room) == Some(Row(active[room].id, active[room].name, active[room].creatorId))
  }

  ghost predicate TaskAgrees<S>(canon: Collation, table: seq<Row>, t: Task<S>) {
    match t
    case JoinFound(_, _, room, row) => Lookup(canon, table, room) == Some(row)
    case CreateAbsent(_, _, _) => true
    case CreateInserted(user, _, room, row) =>
      Lookup(canon, table, room) == Some(row) && row.name == room && row.creator == user
  }

  ghost predicate Inv<S>(canon: Collation, w: World<S>) {
    && UniqueKeys(canon, w.table)
    && CacheAgrees(canon, w.table, w.rooms.active)
    && (forall task :: task in w.tasks ==> TaskAgrees(canon, w.table, w.tasks[task]))
    && Seated(PlanOf(w.rooms))
    && NoneEmpty(w.rooms.active)
  }

  /** The event that a step adds to the history of the live rooms. */
  function Events<S>(w: World<S>, step: Step<S>): seq<Event<S>> {
    match step
    case JoinCommit(task) =>
      if task in w.tasks && w.tasks[task].JoinFound?
      then [Joined(w.tasks[task].user, w.tasks[task].session, w.tasks[task].room)] else []
    case LeaveCommit(user, room) => [Left(user, room)]
    case CreateCommit(task) =>
      if task in w.tasks && w.tasks[task].CreateInserted?
      then [Created(w.tasks[task].user, w.tasks[task].session, w.tasks[task].room)] else []
    case DisconnectCommit(user) => [Disconnected(user)]
    case _ => []
  }

  /** The flat effect of at most one event. */
  function ApplyAll<S>(plan: Plan<S>, events: seq<Event<S>>): Plan<S> {
    if events == [] then plan else
    var n := |events| - 1;
    Apply(ApplyAll(plan, events[..n]), events[n])
  }

  lemma StepRefines<S>(canon: Collation, w: World<S>, step: Step<S>)
    ensures PlanOf(Next(canon, w, step).rooms) == ApplyAll(PlanOf(w.rooms), Events(w, step))
  {
    match step {
      case JoinCommit(task) =>
        if task in w.tasks && w.tasks[task].JoinFound? {
          var t := w.tasks[task];
          JoinRefines(w.rooms, t.user, t.session, t.room, t.row);
        }
      case LeaveCommit(user, room) => LeaveRefines(w.rooms, user, room);
      case CreateCommit(task) =>
        if task in w.tasks && w.tasks[task].CreateInserted? {
          var t := w.tasks[task];
          CreateRefines(w.rooms, t.user, t.session, t.room, t.row);
        }
      case DisconnectCommit(user) => DisconnectRefines(w.rooms, user);
      case _ =>
    }
  }

  lemma NextKeepsSeated<S>(canon: Collation, w: World<S>, step: Step<S>)
    requires Seated(PlanOf(w.rooms))
    ensures Seated(PlanOf(Next(canon, w, step).rooms))
  {
    StepRefines(canon, w, step);
    EventsKeepSeated(PlanOf(w.rooms), Events(w, step));
  }

  lemma EventsKeepSeated<S>(plan: Plan<S>, events: seq<Event<S>>)
    requires Seated(plan) && |events| <= 1
    ensures Seated(ApplyAll(plan, events))
  {
    if events != [] {
      assert events[..0] == [];
      StaleLaw(plan, events[0]);
    }
  }

  /** Inserting a row leaves every answered query as it was. */
  lemma NextKeepsAnswers<S>(canon: Collation, w: World<S>, step: Step<S>)
    requires UniqueKeys(canon, w.table)
    ensures UniqueKeys(canon, Next(canon, w, step).table)
    ensures forall name :: Lookup(canon, w.table, name).Some? ==>
              Lookup(canon, Next(canon, w, step).table, name) == Lookup(canon, w.table, name)
  {
    match Inserting(canon, w, step) {
      case None =>
      case Some(row) =>
        InsertKeepsKeys(canon, w.table, row);
        forall name | Lookup(canon, w.table, name).Some?
          ensures Lookup(canon, w.table + [row], name) == Lookup(canon, w.table, name)
        {
          LookupAfterInsert(canon, w.table, row, name);
        }
    }
  }

  lemma NextKeepsTasks<S>(canon: Collation, w: World<S>, step: Step<S>)
    requires Inv(canon, w)
    ensures var v := Next(canon, w, step);
            forall task :: task in v.tasks ==> TaskAgrees(canon, v.table, v.tasks[task])
  {
    var v := Next(canon, w, step);
    NextKeepsAnswers(canon, w, step);
    forall task | task in v.tasks ensures TaskAgrees(canon, v.table, v.tasks[task]) {
      if task in w.tasks && v.tasks[task] == w.tasks[task] {
        assert TaskAgrees(canon, w.table, w.tasks[task]);
      } else if step.CreateInsert? {
        LookupAfterInsert(canon, w.table, Inserting(canon, w, step).value, w.tasks[task].room);
      }
    }
  }

  /** Taking a user out of a room drops rooms but changes no cache, and leaves no empty room. */
  lemma EvictKeepsCache<S>(canon: Collation, table: seq<Row>, active: Active<S>, room: string, user: int)
    requires CacheAgrees(canon, table, active) && NoneEmpty(active)
    ensures CacheAgrees(canon, table, Evict(active, room, user)) && NoneEmpty(Evict(active, room, user))
  {
  }

  /** A room that becomes active caches the row that the join found. */
  lemma JoinKeepsCache<S>(canon: Collation, table: seq<Row>, st: Rooms<S>, user: int, session: S, room: string, row: Row)
    requires CacheAgrees(canon, table, st.active) && NoneEmpty(st.active)
    requires Lookup(canon, table, room) == Some(row)
    ensures var after := Join(st, user, session, room, row).active;
            CacheAgrees(canon, table, after) && NoneEmpty(after)
  {
    if user in st.current {
      EvictKeepsCache(canon, table, st.active, st.current[user], user);
    }
    var left := if user in st.current then Evict(st.active, st.current[user], user) else st.active;
    var after := Admit(left, room, row, user, session);
    forall r | r in after ensures after[r].members != map[] {
      assert user in after[room].members;
    }
  }

  /** A create overwrites the cache of its room with its own row, which is what the table answers for it. */
  lemma CreateKeepsCache<S>(canon: Collation, table: seq<Row>, st: Rooms<S>, user: int, session: S, room: string, row: Row)
    requires CacheAgrees(canon, table, st.active) && NoneEmpty(st.active)
    requires Lookup(canon, table, room) == Some(row) && row.creator == user
    ensures var after := Create(st, user, session, room, row).active;
            CacheAgrees(canon, table, after) && NoneEmpty(after)
  {
    var after := Create(st, user, session, room, row).active;
    forall r | r in after ensures after[r].members != map[] {
      assert user in after[room].members;
    }
  }

  lemma NextKeepsCache<S>(canon: Collation, w: World<S>, step: Step<S>)
    requires Inv(canon, w)
    ensures var v := Next(canon, w, step);
            CacheAgrees(canon, v.table, v.rooms.active) && NoneEmpty(v.rooms.active)
  {
    NextKeepsAnswers(canon, w, step);
    var table := Next(canon, w, step).table;
    match step {
      case JoinCommit(task) =>
        if task in w.tasks && w.tasks[task].JoinFound? {
          var t := w.tasks[task];
          assert TaskAgrees(canon, w.table, t);
          JoinKeepsCache(canon, table, w.rooms, t.user, t.session, t.room, t.row);
        }
      case CreateCommit(task) =>
        if task in w.tasks && w.tasks[task].CreateInserted? {
          var t := w.tasks[task];
          assert TaskAgrees(canon, w.table, t);
          CreateKeepsCache(canon, table, w.rooms, t.user, t.session, t.room, t.row);
        }
      case LeaveCommit(user, room) =>
        EvictKeepsCache(canon, table, w.rooms.active, room, user);
      case DisconnectCommit(user) =>
        if user in w.rooms.current {
          EvictKeepsCache(canon, table, w.rooms.active, w.rooms.current[user], user);
        }
      case _ =>
    }
  }

  lemma {:induction false} RunKeepsInv<S>(canon: Collation, w: World<S>, steps: seq<Step<S>>)
    requires Inv(canon, w)
    ensures Inv(canon, Run(canon, w, steps))
    decreases |steps|
  {
    if steps != [] {
      var n := |steps| - 1;
      RunKeepsInv(canon, w, steps[..n]);
      var v := Run(canon, w, steps[..n]);
      NextKeepsAnswers(canon, v, steps[n]);
      NextKeepsTasks(canon, v, steps[n]);
      NextKeepsCache(canon, v, steps[n]);
      NextKeepsSeated(canon, v, steps[n]);
    }
  }

  lemma InitialInv<S>(canon: Collation, table: seq<Row>)
    requires UniqueKeys(canon, table)
    ensures Inv<S>(canon, Initial(table))
  {
    assert PlanOf<S>(NoRooms()).current == map[];
  }

  // ----- what whole runs guarantee -----

  /** The critical sections that a run goes through, in order. */
  ghost function Log<S>(canon: Collation, w: World<S>, steps: seq<Step<S>>): seq<Event<S>>
    decreases |steps|
  {
    if steps == [] then [] else
    var n := |steps| - 1;
    Log(canon, w, steps[..n]) + Events(Run(canon, w, steps[..n]), steps[n])
  }

  lemma ApplyMore<S>(plan: Plan<S>, events: seq<Event<S>>, more: seq<Event<S>>)
    requires |more| <= 1
    ensures ApplyAll(plan, events + more) == ApplyAll(ApplyAll(plan, events), more)
  {
    if more == [] {
      assert events + more == events;
    } else {
      assert (events + more)[..|events|] == events && more[..0] == [];
    }
  }

  /** A history that accounts for the live rooms accounts for them after one more step. */
  lemma OneMoreStep<S>(canon: Collation, plan: Plan<S>, log: seq<Event<S>>, v: World<S>, step: Step<S>)
    requires PlanOf(v.rooms) == ApplyAll(plan, log)
    ensures PlanOf(Next(canon, v, step).rooms) == ApplyAll(plan, log + Events(v, step))
  {
    StepRefines(canon, v, step);
    ApplyMore(plan, log, Events(v, step));
  }

  /** However handlers interleave, the two maps hold exactly the flat seating plan of the critical sections. */
  lemma {:induction false} RunRefines<S>(canon: Collation, w: World<S>, steps: seq<Step<S>>)
    ensures PlanOf(Run(canon, w, steps).rooms) == ApplyAll(PlanOf(w.rooms), Log(canon, w, steps))
    decreases |steps|
  {
    if steps != [] {
      var n := |steps| - 1;
      RunRefines(canon, w, steps[..n]);
      OneMoreStep(canon, PlanOf(w.rooms), Log(canon, w, steps[..n]), Run(canon, w, steps[..n]), steps[n]);
    }
  }

  /** The users' rooms after a history. */
  function CurrentOf<S>(log: seq<Event<S>>): map<int, string> {
    if log == [] then map[] else
    var n := |log| - 1;
    CurrentAfter(CurrentOf(log[..n]), log[n])
  }

  /**
   The history shows that a seat is stale: its user, then in that room, created another one at event i,
   and has not sat down in the room again.
   */
  ghost predicate StaleSince<S>(log: seq<Event<S>>, seat: Seat, i: nat) {
    && i < |log|
    && log[i].Created? && log[i].user == seat.user && log[i].room != seat.room
    && seat in CurrentSeat(CurrentOf(log[..i]), seat.user)
    && forall j :: i < j < |log| ==> !SitsDown(log[j], seat)
  }

  predicate SitsDown<S>(event: Event<S>, seat: Seat) {
    (event.Joined? || event.Created?) && event.user == seat.user && event.room == seat.room
  }

  ghost function EmptyPlan<S>(): Plan<S> {
    Plan(map[], map[])
  }

  /** A history with one event more has the same stale witnesses, cut by sitting down, and possibly a new one. */
  lemma StaleSinceStep<S>(log: seq<Event<S>>, seat: Seat, i: nat)
    requires log != []
    ensures var n := |log| - 1;
            StaleSince(log, seat, i) <==>
              if i < n then StaleSince(log[..n], seat, i) && !SitsDown(log[n], seat)
              else i == n && log[n].Created? && log[n].user == seat.user && log[n].room != seat.room
                   && seat in CurrentSeat(CurrentOf(log[..n]), seat.user)
  {
    var n := |log| - 1;
    if i < n {
      assert log[..n][..i] == log[..i];
      if StaleSince(log[..n], seat, i) && !SitsDown(log[n], seat) {
        forall j | i < j < |log| ensures !SitsDown(log[j], seat) {
          assert j < n ==> log[..n][j] == log[j];
        }
      }
      if StaleSince(log, seat, i) {
        forall j | i < j < n ensures !SitsDown(log[..n][j], seat) {
        }
      }
    }
  }

  lemma {:induction false} HistoryIsSeated<S>(log: seq<Event<S>>)
    ensures Seated(ApplyAll(EmptyPlan(), log))
    ensures ApplyAll(EmptyPlan(), log).current == CurrentOf(log)
    decreases |log|
  {
    if log != [] {
      var n := |log| - 1;
      HistoryIsSeated(log[..n]);
      StaleLaw(ApplyAll(EmptyPlan(), log[..n]), log[n]);
    }
  }

  /** A seat is stale after a history exactly when the history shows why. */
  lemma {:induction false} StaleIff<S>(log: seq<Event<S>>, seat: Seat)
    ensures Seated(ApplyAll(EmptyPlan(), log))
    ensures seat in Stale(ApplyAll(EmptyPlan(), log)) <==> exists i :: StaleSince(log, seat, i)
    decreases |log|
  {
    if log != [] {
      var n := |log| - 1;
      var before := ApplyAll(EmptyPlan(), log[..n]);
      HistoryIsSeated(log[..n]);
      StaleIff(log[..n], seat);
      StaleLaw(before, log[n]);
      forall i: nat
        ensures StaleSince(log, seat, i) <==>
          if i < n then StaleSince(log[..n], seat, i) && !SitsDown(log[n], seat) else StaleSince(log, seat, i) && i == n
      {
        StaleSinceStep(log, seat, i);
      }
      StaleSinceStep(log, seat, n);
      if seat in StaleAfter(Stale(before), before.current, log[n]) && seat !in Stale(before) {
        assert StaleSince(log, seat, n);
      }
    }
  }

  lemma PlanAfterRun<S>(canon: Collation, table: seq<Row>, steps: seq<Step<S>>)
    ensures var log := Log(canon, Initial(table), steps);
            PlanOf(Run(canon, Initial(table), steps).rooms) == ApplyAll(EmptyPlan(), log)
  {
    RunRefines(canon, Initial(table), steps);
    assert OccupiedSeats<S>(map[]) == {};
    assert PlanOf<S>(NoRooms()) == EmptyPlan();
  }

  lemma MembersAreCurrentOrStale<S>(st: Rooms<S>, seat: Seat)
    requires Seated(PlanOf(st))
    ensures Occupied(st.active, seat) <==> seat in CurrentSeat(st.current, seat.user) || seat in Stale(PlanOf(st))
    ensures !(seat in CurrentSeat(st.current, seat.user) && seat in Stale(PlanOf(st)))
  {
    assert seat in CurrentSeats(st.current) <==> seat in CurrentSeat(st.current, seat.user);
    assert PlanOf(st).seats.Keys == OccupiedSeats(st.active);
  }

  /**
   Exact membership over whole runs: after any interleaving, a session is a member of an active room
   exactly if the room is its user's current one, or else the history shows its seat to be stale.
   */
  lemma ExactMembership<S>(canon: Collation, table: seq<Row>, steps: seq<Step<S>>, seat: Seat)
    ensures var rooms := Run(canon, Initial(table), steps).rooms;
            var stale := exists i :: StaleSince(Log(canon, Initial(table), steps), seat, i);
            && (Occupied(rooms.active, seat) <==> seat in CurrentSeat(rooms.current, seat.user) || stale)
            && !(seat in CurrentSeat(rooms.current, seat.user) && stale)
  {
    PlanAfterRun(canon, table, steps);
    StaleIff(Log(canon, Initial(table), steps), seat);
    MembersAreCurrentOrStale(Run(canon, Initial(table), steps).rooms, seat);
  }

  /** Counting over whole runs: the member counts of the active rooms add up to the users in a room and the stale seats. */
  lemma ExactCount<S>(canon: Collation, table: seq<Row>, steps: seq<Step<S>>)
    requires UniqueKeys(canon, table)
    ensures var rooms := Run(canon, Initial(table), steps).rooms;
            TotalMembers(rooms.active) == |rooms.current| + |Stale(PlanOf(rooms))|
  {
    InitialInv<S>(canon, table);
    RunKeepsInv(canon, Initial(table), steps);
    Counting(Run(canon, Initial(table), steps).rooms);
  }

  /** The two maps agree on every room after a run if and only if its history leaves no seat stale. */
  lemma PartitionAfterRun<S>(canon: Collation, table: seq<Row>, steps: seq<Step<S>>)
    ensures var rooms := Run(canon, Initial(table), steps).rooms;
            var log := Log(canon, Initial(table), steps);
            (forall room :: MembersOf(rooms, room) == UsersIn(rooms, room))
            <==> !exists seat, i :: StaleSince(log, seat, i)
  {
    var rooms := Run(canon, Initial(table), steps).rooms;
    var log := Log(canon, Initial(table), steps);
    PlanAfterRun(canon, table, steps);
    forall seat ensures seat in Stale(PlanOf(rooms)) <==> exists i :: StaleSince(log, seat, i) {
      StaleIff(log, seat);
    }
    HistoryIsSeated(log);
    PartitionIff(rooms);
  }

  /** No create of the history is by a user who is in another room. */
  ghost predicate CreatesOnlyRoomless<S>(log: seq<Event<S>>) {
    forall i :: 0 <= i < |log| && log[i].Created? ==>
      CurrentSeat(CurrentOf(log[..i]), log[i].user) <= {Seat(log[i].user, log[i].room)}
  }

  lemma RoomlessCreatorsLeaveNoStale<S>(log: seq<Event<S>>, seat: Seat, i: nat)
    requires CreatesOnlyRoomless(log)
    ensures !StaleSince(log, seat, i)
  {
  }

  /** If users create rooms only while in none, the rooms partition the users in every reachable state. */
  lemma RoomlessCreatorsPartition<S>(canon: Collation, table: seq<Row>, steps: seq<Step<S>>, room: string)
    requires CreatesOnlyRoomless(Log(canon, Initial(table), steps))
    ensures var rooms := Run(canon, Initial(table), steps).rooms;
            MembersOf(rooms, room) == UsersIn(rooms, room)
  {
    var log := Log(canon, Initial(table), steps);
    forall seat, i ensures !StaleSince(log, seat, i) {
      RoomlessCreatorsLeaveNoStale(log, seat, i);
    }
    PartitionAfterRun(canon, table, steps);
  }

  /** In every reachable state the live rooms agree with each other and with the table. */
  lemma LiveRoomsAgree<S>(canon: Collation, table: seq<Row>, steps: seq<Step<S>>)
    requires UniqueKeys(canon, table)
    ensures var w := Run(canon, Initial(table), steps);
            && (forall user :: user in w.rooms.current ==>
                  w.rooms.current[user] in w.rooms.active && user in w.rooms.active[w.rooms.current[user]].members)
            && (forall room :: room in w.rooms.active ==> w.rooms.active[room].members != map[])
            && CacheAgrees(canon, w.table, w.rooms.active)
    ensures var w := Run(canon, Initial(table), steps);
            forall room :: room in w.rooms.active ==>
              var row := Row(w.rooms.active[room].id, w.rooms.active[room].name, w.rooms.active[room].creatorId);
              row in w.table && canon(row.name) == canon(room)
  {
    InitialInv<S>(canon, table);
    RunKeepsInv(canon, Initial(table), steps);
    var rooms := Run(canon, Initial(table), steps).rooms;
    forall user | user in rooms.current ensures Occupied(rooms.active, Seat(user, rooms.current[user])) {
      assert Seat(user, rooms.current[user]) in CurrentSeats(rooms.current);
    }
  }

  /** Two live rooms stand for the same row if and only if the database takes their names for the same. */
  lemma SharedRowIff<S>(canon: Collation, w: World<S>, room: string, other: string)
    requires Inv(canon, w) && room in w.rooms.active && other in w.rooms.active
    ensures w.rooms.active[room].id == w.rooms.active[other].id <==> canon(room) == canon(other)
  {
    var a, b := Lookup(canon, w.table, room).value, Lookup(canon, w.table, other).value;
    assert a.id == b.id || canon(a.name) == canon(b.name) ==> a == b;
  }

  // ----- non-interference -----

  /** The user whose handler a step belongs to. */
  function Actor<S>(w: World<S>, step: Step<S>): Option<int> {
    match step
    case JoinLookup(_, user, _, _, _) => Some(user)
    case CreateCheck(_, user, _, _, _) => Some(user)
    case LeaveCommit(user, _) => Some(user)
    case DisconnectCommit(user) => Some(user)
    case JoinCommit(task) => if task in w.tasks then Some(w.tasks[task].user) else None
    case CreateCommit(task) => if task in w.tasks then Some(w.tasks[task].user) else None
    case CreateInsert(task, _, _) => if task in w.tasks then Some(w.tasks[task].user) else None
  }

  /** No step of the run belongs to the user. */
  ghost predicate OnlyOthers<S>(canon: Collation, w: World<S>, steps: seq<Step<S>>, user: int) {
    forall i :: 0 <= i < |steps| ==> Actor(Run(canon, w, steps[..i]), steps[i]) != Some(user)
  }

  /** The answers to `getUserCurrentRoomName` and `getUserCurrentRoomId`. */
  function CurrentRoomName<S>(st: Rooms<S>, user: int): string {
    if user in st.current then st.current[user] else ""
  }

  function CurrentRoomId<S>(st: Rooms<S>, user: int): int {
    if user in st.current && st.current[user] in st.active then st.active[st.current[user]].id else 0
  }

  /** What one user can observe of the own room. */
  ghost predicate SameView<S>(before: Rooms<S>, after: Rooms<S>, user: int) {
    && CurrentSeat(before.current, user) == CurrentSeat(after.current, user)
    && CurrentRoomId(before, user) == CurrentRoomId(after, user)
    && forall room :: user in MembersOf(before, room) <==> user in MembersOf(after, room)
  }

  lemma EventSparesOthers<S>(plan: Plan<S>, event: Event<S>, user: int)
    requires event.user != user
    ensures CurrentSeat(Apply(plan, event).current, user) == CurrentSeat(plan.current, user)
    ensures forall room :: Seat(user, room) in Apply(plan, event).seats <==> Seat(user, room) in plan.seats
  {
  }

  lemma StepSparesSeats<S>(canon: Collation, w: World<S>, step: Step<S>, user: int)
    requires Actor(w, step) != Some(user)
    ensures var v := Next(canon, w, step);
            && CurrentSeat(w.rooms.current, user) == CurrentSeat(v.rooms.current, user)
            && forall room :: user in MembersOf(w.rooms, room) <==> user in MembersOf(v.rooms, room)
  {
    var v := Next(canon, w, step);
    StepRefines(canon, w, step);
    var events := Events(w, step);
    if events != [] {
      EventSparesOthers(PlanOf(w.rooms), events[0], user);
    }
    forall room ensures user in MembersOf(w.rooms, room) <==> user in MembersOf(v.rooms, room) {
      assert Seat(user, room) in PlanOf(w.rooms).seats <==> Occupied(w.rooms.active, Seat(user, room));
      assert Seat(user, room) in PlanOf(v.rooms).seats <==> Occupied(v.rooms.active, Seat(user, room));
    }
  }

  /** The id that a user in a room is told is the id of the table's row for it. */
  lemma CurrentIdIsRowId<S>(canon: Collation, w: World<S>, user: int)
    requires Inv(canon, w) && user in w.rooms.current
    ensures var row := Lookup(canon, w.table, w.rooms.current[user]);
            row.Some? && CurrentRoomId(w.rooms, user) == row.value.id
  {
    assert Seat(user, w.rooms.current[user]) in CurrentSeats(w.rooms.current);
    assert Occupied(w.rooms.active, Seat(user, w.rooms.current[user]));
  }

  lemma StepSparesOthers<S>(canon: Collation, w: World<S>, step: Step<S>, user: int)
    requires Inv(canon, w) && Inv(canon, Next(canon, w, step)) && Actor(w, step) != Some(user)
    ensures SameView(w.rooms, Next(canon, w, step).rooms, user)
  {
    var v := Next(canon, w, step);
    StepSparesSeats(canon, w, step, user);
    CurrentSeatIsName(w.rooms, v.rooms, user);
    if user in w.rooms.current {
      NextKeepsAnswers(canon, w, step);
      CurrentIdIsRowId(canon, w, user);
      CurrentIdIsRowId(canon, v, user);
    }
  }

  /** However the handlers of others interleave, they change nothing that a user can observe of the own room. */
  lemma {:induction false} NonInterference<S>(canon: Collation, w: World<S>, steps: seq<Step<S>>, user: int)
    requires Inv(canon, w) && OnlyOthers(canon, w, steps, user)
    ensures SameView(w.rooms, Run(canon, w, steps).rooms, user)
    decreases |steps|
  {
    if steps != [] {
      var n := |steps| - 1;
      forall i | 0 <= i < n ensures Actor(Run(canon, w, steps[..n][..i]), steps[..n][i]) != Some(user) {
        assert steps[..n][..i] == steps[..i];
      }
      NonInterference(canon, w, steps[..n], user);
      RunKeepsInv(canon, w, steps[..n]);
      RunKeepsInv(canon, w, steps);
      StepSparesOthers(canon, Run(canon, w, steps[..n]), steps[n], user);
    }
  }

  /** An answered query is answered the same ever after. */
  lemma {:induction false} RunKeepsAnswers<S>(canon: Collation, w: World<S>, steps: seq<Step<S>>, name: string)
    requires UniqueKeys(canon, w.table) && Lookup(canon, w.table, name).Some?
    ensures UniqueKeys(canon, Run(canon, w, steps).table)
    ensures Lookup(canon, Run(canon, w, steps).table, name) == Lookup(canon, w.table, name)
    decreases |steps|
  {
    if steps != [] {
      var n := |steps| - 1;
      RunKeepsAnswers(canon, w, steps[..n], name);
      NextKeepsAnswers(canon, Run(canon, w, steps[..n]), steps[n]);
    }
  }

  /**
   Whatever happens between reading the label of a public message and the id it is stored under, the sender's
   own requests included: a sender still in some room stores it under the label's row if and only if the
   database takes that room's name for the label; a sender in no room stores it under the id 0.
   */
  lemma StoredUnderLabelIff<S>(canon: Collation, w: World<S>, steps: seq<Step<S>>, user: int)
    requires Inv(canon, w) && user in w.rooms.current
    ensures var v, name := Run(canon, w, steps), CurrentRoomName(w.rooms, user);
            var labelled := Lookup(canon, v.table, name);
            && labelled.Some?
            && if user in v.rooms.current
               then CurrentRoomId(v.rooms, user) == labelled.value.id <==> canon(v.rooms.current[user]) == canon(name)
               else CurrentRoomId(v.rooms, user) == 0
  {
    var v, name := Run(canon, w, steps), CurrentRoomName(w.rooms, user);
    CurrentIdIsRowId(canon, w, user);
    RunKeepsAnswers(canon, w, steps, name);
    RunKeepsInv(canon, w, steps);
    if user in v.rooms.current {
      CurrentIdIsRowId(canon, v, user);
      var a, b := Lookup(canon, v.table, name).value, Lookup(canon, v.table, v.rooms.current[user]).value;
      assert a.id == b.id || canon(a.name) == canon(b.name) ==> a == b;
    }
  }

  lemma CurrentSeatIsName<S>(a: Rooms<S>, b: Rooms<S>, user: int)
    requires CurrentSeat(a.current, user) == CurrentSeat(b.current, user)
    ensures user in a.current <==> user in b.current
    ensures user in a.current ==> a.current[user] == b.current[user]
  {
    assert user in a.current ==> Seat(user, a.current[user]) in CurrentSeat(b.current, user);
    assert user in b.current ==> Seat(user, b.current[user]) in CurrentSeat(a.current, user);
  }
}
