/** Runs in which the live rooms do not do what one would expect of them. */
module RoomCounterexamples {
  import opened Wrappers
  import opened RoomState
  import opened RoomTable
  import opened RoomProtocol

  /** A whole create handler with nothing in between. */
  function CreateSteps<S>(task: int, user: int, session: S, room: string, id: int): seq<Step<S>> {
    [CreateCheck(task, user, session, room, true), CreateInsert(task, id, Acknowledged), CreateCommit(task)]
  }

  lemma ThreeCreateSteps<S>(canon: Collation, v: World<S>, task: int, user: int, session: S, room: string, id: int)
    requires task !in v.tasks && Insertable(canon, v.table, Row(id, room, user))
    ensures var row := Row(id, room, user);
            var checked := Next(canon, v, CreateCheck(task, user, session, room, true));
            var inserted := Next(canon, checked, CreateInsert(task, id, Acknowledged));
            Next(canon, inserted, CreateCommit(task))
            == World(Create(v.rooms, user, session, room, row), v.table + [row], v.tasks)
  {
    var row := Row(id, room, user);
    var checked := Next(canon, v, CreateCheck(task, user, session, room, true));
    assert checked == v.(tasks := v.tasks[task := CreateAbsent(user, session, room)]);
    var inserted := Next(canon, checked, CreateInsert(task, id, Acknowledged));
    assert inserted.tasks == v.tasks[task := CreateInserted(user, session, room, row)];
  }

  lemma RunCreate<S>(canon: Collation, w: World<S>, steps: seq<Step<S>>,
                     task: int, user: int, session: S, room: string, id: int)
    requires var v := Run(canon, w, steps);
             task !in v.tasks && Insertable(canon, v.table, Row(id, room, user))
    ensures var v := Run(canon, w, steps);
            var row := Row(id, room, user);
            Run(canon, w, steps + CreateSteps(task, user, session, room, id))
            == World(Create(v.rooms, user, session, room, row), v.table + [row], v.tasks)
  {
    var check := CreateCheck(task, user, session, room, true);
    var insert, commit := Step<S>.CreateInsert(task, id, Acknowledged), Step<S>.CreateCommit(task);
    RunMore(canon, w, steps, check);
    RunMore(canon, w, steps + [check], insert);
    RunMore(canon, w, steps + [check] + [insert], commit);
    assert steps + CreateSteps(task, user, session, room, id) == steps + [check] + [insert] + [commit];
    ThreeCreateSteps(canon, Run(canon, w, steps), task, user, session, room, id);
  }

  lemma TwoJoinSteps<S>(canon: Collation, v: World<S>, task: int, user: int, session: S, room: string)
    requires task !in v.tasks && Lookup(canon, v.table, room).Some?
    ensures var found := Next(canon, v, JoinLookup(task, user, session, room, true));
            Next(canon, found, JoinCommit(task))
            == World(Join(v.rooms, user, session, room, Lookup(canon, v.table, room).value), v.table, v.tasks)
  {
    var found := Next(canon, v, JoinLookup(task, user, session, room, true));
    assert found == v.(tasks := v.tasks[task := JoinFound(user, session, room, Lookup(canon, v.table, room).value)]);
  }

  lemma RunJoin<S>(canon: Collation, w: World<S>, steps: seq<Step<S>>, task: int, user: int, session: S, room: string)
    requires var v := Run(canon, w, steps);
             task !in v.tasks && Lookup(canon, v.table, room).Some?
    ensures var v := Run(canon, w, steps);
            Run(canon, w, steps + [JoinLookup(task, user, session, room, true), JoinCommit(task)])
            == World(Join(v.rooms, user, session, room, Lookup(canon, v.table, room).value), v.table, v.tasks)
  {
    var look, commit := JoinLookup(task, user, session, room, true), Step<S>.JoinCommit(task);
    RunMore(canon, w, steps, look);
    RunMore(canon, w, steps + [look], commit);
    assert steps + [look, commit] == steps + [look] + [commit];
    TwoJoinSteps(canon, Run(canon, w, steps), task, user, session, room);
  }

  lemma TwoRoomsOneUser<S>(session: S, a: string, b: string)
    requires a != b
    ensures var first := Create(NoRooms(), 1, session, a, Row(1, a, 1));
            var twice := Create(first, 1, session, b, Row(2, b, 1));
            var gone := Disconnect(twice, 1);
            && 1 in MembersOf(twice, a) && 1 in MembersOf(twice, b) && UsersIn(twice, a) == {}
            && gone.current == map[] && 1 in MembersOf(gone, a)
  {
    var twice := Create(Create(NoRooms(), 1, session, a, Row(1, a, 1)), 1, session, b, Row(2, b, 1));
    assert twice.current == map[1 := b];
  }

  /** A user who creates two rooms is a member of both, and stays in the first one even after disconnecting. */
  lemma TwoCreates<S>(session: S)
    ensures var steps := CreateSteps(0, 1, session, "a", 1) + CreateSteps(0, 1, session, "b", 2);
            var twice := Run(name => name, Initial([]), steps).rooms;
            var gone := Run(name => name, Initial([]), steps + [DisconnectCommit(1)]).rooms;
            && 1 in MembersOf(twice, "a") && 1 in MembersOf(twice, "b") && UsersIn(twice, "a") == {}
            && gone.current == map[] && 1 in MembersOf(gone, "a")
  {
    var canon: Collation := name => name;
    var w := Initial<S>([]);
    var first, second := CreateSteps(0, 1, session, "a", 1), CreateSteps(0, 1, session, "b", 2);
    RunCreate(canon, w, [], 0, 1, session, "a", 1);
    assert [] + first == first;
    assert Run(canon, w, first).table == [Row(1, "a", 1)];
    RunCreate(canon, w, first, 0, 1, session, "b", 2);
    RunMore(canon, w, first + second, DisconnectCommit(1));
    assert "a" != "b";
    TwoRoomsOneUser(session, "a", "b");
  }

  /** Two users can be in the same room of the table without being in the same live room. */
  lemma SplitLiveRoom<S>(one: S, two: S)
    ensures var canon: Collation := name => if name == "A" then "a" else name;
            var steps := [JoinLookup(0, 1, one, "a", true), JoinCommit(0)]
                       + [JoinLookup(0, 2, two, "A", true), JoinCommit(0)];
            var rooms := Run(canon, Initial([Row(7, "a", 9)]), steps).rooms;
            && CurrentRoomId(rooms, 1) == 7 == CurrentRoomId(rooms, 2)
            && MembersOf(rooms, "a") == {1} && MembersOf(rooms, "A") == {2}
  {
    var canon: Collation := name => if name == "A" then "a" else name;
    var w := Initial<S>([Row(7, "a", 9)]);
    var first := [JoinLookup(0, 1, one, "a", true), JoinCommit(0)];
    RunJoin(canon, w, [], 0, 1, one, "a");
    assert [] + first == first;
    assert Lookup(canon, w.table, "A") == Some(Row(7, "a", 9));
    RunJoin(canon, w, first, 0, 2, two, "A");
  }

  function JoinSteps<S>(user: int, session: S, room: string): seq<Step<S>> {
    [JoinLookup(0, user, session, room, true), JoinCommit(0)]
  }

  lemma JoinTwice<S>(session: S)
    ensures var w := Initial([Row(7, "a", 9), Row(8, "b", 9)]);
            var inA := Run(name => name, w, JoinSteps(1, session, "a"));
            var inB := Run(name => name, w, JoinSteps(1, session, "a") + JoinSteps(1, session, "b"));
            && CurrentRoomName(inA.rooms, 1) == "a" && CurrentRoomId(inA.rooms, 1) == 7
            && CurrentRoomName(inB.rooms, 1) == "b" && CurrentRoomId(inB.rooms, 1) == 8
            && MembersOf(inB.rooms, "a") == {}
  {
    var canon: Collation := name => name;
    var w := Initial<S>([Row(7, "a", 9), Row(8, "b", 9)]);
    var first := JoinSteps(1, session, "a");
    RunJoin(canon, w, [], 0, 1, session, "a");
    assert [] + first == first;
    assert "a" != "b";
    assert Lookup(canon, w.table, "b") == Some(Row(8, "b", 9)) by {
      assert canon(w.table[0].name) != canon("b");
      assert w.table[1..] == [Row(8, "b", 9)];
    }
    RunJoin(canon, w, first, 0, 1, session, "b");
  }

  /** If the sender's own join comes between the label and the store, a public message is labelled with one room and stored in another. */
  lemma MislabelledMessage<S>(session: S)
    ensures var canon: Collation := name => name;
            var first, second := JoinSteps(1, session, "a"), JoinSteps(1, session, "b");
            var atLabel := Run(canon, Initial([Row(7, "a", 9), Row(8, "b", 9)]), first);
            var atStore := Run(canon, Initial([Row(7, "a", 9), Row(8, "b", 9)]), first + second);
            CurrentRoomName(atLabel.rooms, 1) == "a" && CurrentRoomId(atStore.rooms, 1) == 8
  {
    JoinTwice(session);
  }

  /** If it comes after the store, the message is labelled with and stored in one room and sent to another, with the sender not in the first. */
  lemma MisdirectedMessage<S>(session: S)
    ensures var canon: Collation := name => name;
            var first, second := JoinSteps(1, session, "a"), JoinSteps(1, session, "b");
            var atStore := Run(canon, Initial([Row(7, "a", 9), Row(8, "b", 9)]), first);
            var atTarget := Run(canon, Initial([Row(7, "a", 9), Row(8, "b", 9)]), first + second);
            && CurrentRoomName(atStore.rooms, 1) == "a" && CurrentRoomId(atStore.rooms, 1) == 7
            && CurrentRoomName(atTarget.rooms, 1) == "b" && 1 !in MembersOf(atTarget.rooms, "a")
  {
    JoinTwice(session);
  }
}
