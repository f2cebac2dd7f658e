/** Runs after which the client and the server disagree about the room of the user. */
module AgreementCounterexamples {
  import opened Wrappers
  import opened RoomState
  import opened RoomTable
  import opened RoomProtocol
  import opened Session
  import opened ChatClient
  import opened RoomAgreement

  lemma TwoSteps<S>(canon: Collation, l: Link<S>, user: int, session: S,
                    a: LinkStep<S>, b: LinkStep<S>, steps: seq<LinkStep<S>>)
    ensures var l1 := NextLink(canon, l, user, session, a);
            RunLink(canon, l, user, session, [a] + ([b] + steps)) ==
            RunLink(canon, NextLink(canon, l1, user, session, b), user, session, steps)
  {
    RunLinkFirst(canon, l, user, session, a, [b] + steps);
    RunLinkFirst(canon, NextLink(canon, l, user, session, a), user, session, b, steps);
  }

  lemma FourSteps<S>(canon: Collation, l: Link<S>, user: int, session: S,
                     a: LinkStep<S>, b: LinkStep<S>, c: LinkStep<S>, d: LinkStep<S>, steps: seq<LinkStep<S>>)
    ensures var l1 := NextLink(canon, l, user, session, a);
            var l2 := NextLink(canon, l1, user, session, b);
            var l3 := NextLink(canon, l2, user, session, c);
            RunLink(canon, l, user, session, [a] + ([b] + ([c] + ([d] + steps)))) ==
            RunLink(canon, NextLink(canon, l3, user, session, d), user, session, steps)
  {
    TwoSteps(canon, l, user, session, a, b, [c] + ([d] + steps));
    TwoSteps(canon, NextLink(canon, NextLink(canon, l, user, session, a), user, session, b), user, session, c, d, steps);
  }

  // ----- a refused create -----

  function RefusedSteps<S>(): seq<LinkStep<S>> {
    [Type(CreateCommand("a"))] + ([Begin(0, 0, true)] + ([Answer(0)] + ([Receive] + [])))
  }

  lemma RefusedEffect<S>(canon: Collation, world: World<S>, session: S)
    requires world.tasks == map[] && Lookup(canon, world.table, "a").Some?
    ensures var asked := NextLink(canon, Fresh(world), 1, session, Type(CreateCommand("a")));
            var decided := NextLink(canon, asked, 1, session, Begin(0, 0, true));
            var answered := NextLink(canon, decided, 1, session, Answer(0));
            answered.responses == [RoomAnswer(CREATE, "a", false)] && answered.unanswered == [] && answered.world == world
  {
    var asked := NextLink(canon, Fresh(world), 1, session, Type(CreateCommand("a")));
    var decided := NextLink(canon, asked, 1, session, Begin(0, 0, true));
    assert decided.unanswered == [Entry(CREATE, "a", false)] && decided.world == world;
  }

  lemma RefusedCreate<S>(canon: Collation, world: World<S>, session: S)
    requires world.tasks == map[] && Lookup(canon, world.table, "a").Some?
    ensures var l := RunLink(canon, Fresh(world), 1, session, RefusedSteps());
            AllAnswered(l) && l.clientRoom == "a" && l.world == world
  {
    RefusedEffect(canon, world, session);
    LastFourSteps(canon, Fresh(world), 1, session, Type(CreateCommand("a")), Begin(0, 0, true), Answer(0), Receive);
  }

  /** A refused create alone puts the client into a room that the server does not have it in. */
  lemma RefusedCreateDisagrees<S>(session: S)
    ensures var world := Initial([Row(7, "a", 9)]);
            var l := RunLink(name => name, Fresh(world), 1, session, RefusedSteps());
            AllAnswered(l) && l.clientRoom == "a" && CurrentRoomName(l.world.rooms, 1) == ""
  {
    RefusedCreate(name => name, Initial([Row(7, "a", 9)]), session);
  }

  // ----- a leave sent ahead -----

  /** The i-th request, a join, is handled from start to end and the client receives the answer, before all further steps. */
  function ServeJoin<S>(i: nat, steps: seq<LinkStep<S>>): seq<LinkStep<S>> {
    [Begin(i, 0, true)] + ([Continue(0, 0, Refused)] + ([Answer(0)] + ([Receive] + steps)))
  }

  /** The link after the user has joined a room. */
  function AfterJoin<S>(l: Link<S>, i: nat, user: int, session: S, room: string, row: Row): Link<S>
    requires i < |l.requests|
  {
    l.(world := l.world.(rooms := Join(l.world.rooms, user, session, room, row)),
       clientRoom := room, requests := Without(l.requests, i) + [HistoryRequest(room, HISTORY_LIMIT)],
       commits := l.commits + [Entry(JOIN, room, true)], answers := l.answers + [Entry(JOIN, room, true)])
  }

  /** Nothing but requests is under way, the i-th one a join of the room. */
  ghost predicate Joinable<S>(canon: Collation, l: Link<S>, i: nat, room: string, row: Row) {
    && i < |l.requests| && l.requests[i] == RoomRequest(JOIN, room)
    && l.handlers == {} && l.unanswered == [] && l.responses == [] && l.world.tasks == map[]
    && Lookup(canon, l.world.table, room) == Some(row)
  }

  lemma JoinSteps<S>(canon: Collation, l: Link<S>, i: nat, user: int, session: S, room: string, row: Row)
    requires Joinable(canon, l, i, room, row)
    ensures var found := NextLink(canon, l, user, session, Begin(i, 0, true));
            var joined := NextLink(canon, found, user, session, Continue(0, 0, Refused));
            var answered := NextLink(canon, joined, user, session, Answer(0));
            NextLink(canon, answered, user, session, Receive) ==
            AfterJoin(l, i, user, session, room, row)
  {
    var taken := l.(requests := Without(l.requests, i));
    var found := NextLink(canon, l, user, session, Begin(i, 0, true));
    assert found == taken.(world := l.world.(tasks := map[0 := JoinFound(user, session, room, row)]), handlers := {0});
    var joined := NextLink(canon, found, user, session, Continue(0, 0, Refused));
    assert joined.world == l.world.(rooms := Join(l.world.rooms, user, session, room, row));
    assert joined.handlers == {} && joined.unanswered == [Entry(JOIN, room, true)];
    var answered := NextLink(canon, joined, user, session, Answer(0));
    assert answered.unanswered == [] && answered.responses == [RoomAnswer(JOIN, room, true)];
  }

  lemma JoinServed<S>(canon: Collation, l: Link<S>, i: nat, user: int, session: S, room: string, row: Row,
                      steps: seq<LinkStep<S>>)
    requires Joinable(canon, l, i, room, row)
    ensures RunLink(canon, l, user, session, ServeJoin(i, steps))
         == RunLink(canon, AfterJoin(l, i, user, session, room, row), user, session, steps)
  {
    JoinSteps(canon, l, i, user, session, room, row);
    FourSteps(canon, l, user, session, Begin(i, 0, true), Continue(0, 0, Refused), Answer(0), Receive, steps);
  }

  /** The steps of a user who, in room a, types a join of b and at once a leave, which still names a. */
  function LeaveAhead<S>(steps: seq<LinkStep<S>>): seq<LinkStep<S>> {
    [Type(JoinCommand("b"))] + ([Type(LeaveCommand)] + ServeJoin(1, steps))
  }

  function LeaveSteps<S>(): seq<LinkStep<S>> {
    [Begin(1, 0, true)] + ([Answer(0)] + ([Receive] + []))
  }

  lemma LeaveAheadServed<S>(canon: Collation, l: Link<S>, session: S, row: Row, steps: seq<LinkStep<S>>)
    requires l.requests == [HistoryRequest("a", HISTORY_LIMIT)] && l.clientRoom == "a"
    requires l.handlers == {} && l.unanswered == [] && l.responses == [] && l.world.tasks == map[]
    requires Lookup(canon, l.world.table, "b") == Some(row)
    ensures var both := l.(requests := l.requests + [RoomRequest(JOIN, "b"), RoomRequest(LEAVE, "a")]);
            RunLink(canon, l, 1, session, LeaveAhead(steps)) ==
            RunLink(canon, AfterJoin(both, 1, 1, session, "b", row), 1, session, steps)
  {
    var both := l.(requests := l.requests + [RoomRequest(JOIN, "b"), RoomRequest(LEAVE, "a")]);
    BothTyped(canon, l, session, ServeJoin(1, steps));
    JoinServed(canon, both, 1, 1, session, "b", row, steps);
  }

  lemma BothTyped<S>(canon: Collation, l: Link<S>, session: S, steps: seq<LinkStep<S>>)
    requires l.clientRoom == "a"
    ensures RunLink(canon, l, 1, session, [Type(JoinCommand("b"))] + ([Type(LeaveCommand)] + steps)) ==
            RunLink(canon, l.(requests := l.requests + [RoomRequest(JOIN, "b"), RoomRequest(LEAVE, "a")]), 1, session, steps)
  {
    var typed := NextLink(canon, l, 1, session, Type(JoinCommand("b")));
    TwoSteps(canon, l, 1, session, Type(JoinCommand("b")), Type(LeaveCommand), steps);
    assert typed.requests + [RoomRequest(LEAVE, "a")] == l.requests + [RoomRequest(JOIN, "b"), RoomRequest(LEAVE, "a")];
  }

  lemma LastLeave<S>(canon: Collation, l: Link<S>, session: S)
    requires |l.requests| > 1 && l.requests[1] == RoomRequest(LEAVE, "a")
    requires l.unanswered == [] && l.responses == [] && l.world.tasks == map[]
    requires CurrentRoomName(l.world.rooms, 1) == "b"
    ensures var left := RunLink(canon, l, 1, session, LeaveSteps());
            AllAnswered(left) && left.clientRoom == "" && CurrentRoomName(left.world.rooms, 1) == "b"
  {
    LeaveServed(canon, l, session);
    ThreeSteps(canon, l, 1, session, Begin(1, 0, true), Answer(0), Receive);
  }

  lemma ThreeSteps<S>(canon: Collation, l: Link<S>, user: int, session: S, a: LinkStep<S>, b: LinkStep<S>, c: LinkStep<S>)
    ensures var l1 := NextLink(canon, l, user, session, a);
            var l2 := NextLink(canon, l1, user, session, b);
            RunLink(canon, l, user, session, [a] + ([b] + ([c] + []))) == NextLink(canon, l2, user, session, c)
  {
    var l1 := NextLink(canon, l, user, session, a);
    TwoSteps(canon, l, user, session, a, b, [c] + []);
    RunLinkFirst(canon, NextLink(canon, l1, user, session, b), user, session, c, []);
  }

  lemma LeaveServed<S>(canon: Collation, l: Link<S>, session: S)
    requires |l.requests| > 1 && l.requests[1] == RoomRequest(LEAVE, "a")
    requires l.unanswered == [] && l.responses == [] && l.world.tasks == map[]
    requires CurrentRoomName(l.world.rooms, 1) == "b"
    ensures var decided := NextLink(canon, l, 1, session, Begin(1, 0, true));
            var left := NextLink(canon, NextLink(canon, decided, 1, session, Answer(0)), 1, session, Receive);
            && left.unanswered == [] && left.responses == [] && left.clientRoom == ""
            && left.world.rooms == l.world.rooms
  {
    var decided := NextLink(canon, l, 1, session, Begin(1, 0, true));
    assert decided.unanswered == [Entry(LEAVE, "a", true)] && decided.responses == [];
    assert Leave(l.world.rooms, 1, "a") == l.world.rooms;
    assert NextLink(canon, decided, 1, session, Answer(0)).responses == [RoomAnswer(LEAVE, "a", true)];
  }

  /** A fresh client joins a room before all further steps. */
  lemma FirstJoin<S>(canon: Collation, world: World<S>, user: int, session: S, room: string, row: Row,
                     steps: seq<LinkStep<S>>)
    requires world.tasks == map[] && Lookup(canon, world.table, room) == Some(row)
    ensures RunLink(canon, Fresh(world), user, session, [Type(JoinCommand(room))] + ServeJoin(0, steps)) ==
            RunLink(canon, AfterJoin(Fresh(world).(requests := [RoomRequest(JOIN, room)]), 0, user, session, room, row),
                    user, session, steps)
  {
    var asked := Fresh(world).(requests := [RoomRequest(JOIN, room)]);
    assert NextLink(canon, Fresh(world), user, session, Type(JoinCommand(room))) == asked;
    RunLinkFirst(canon, Fresh(world), user, session, Type(JoinCommand(room)), ServeJoin(0, steps));
    JoinServed(canon, asked, 0, user, session, room, row, steps);
  }

  lemma TwoRows(a: Row, b: Row)
    requires a == Row(7, "a", 9) && b == Row(8, "b", 9)
    ensures Lookup(name => name, [a, b], "a") == Some(a) && Lookup(name => name, [a, b], "b") == Some(b)
  {
    assert [a, b][1..] == [b];
  }

  /** A leave sent before the join ahead of it is answered leaves the client in no room and the server in the joined one. */
  lemma LeaveSentAheadDisagrees<S>(session: S)
    ensures var world := Initial([Row(7, "a", 9), Row(8, "b", 9)]);
            var steps := [Type(JoinCommand("a"))] + ServeJoin(0, LeaveAhead(LeaveSteps()));
            var l := RunLink(name => name, Fresh(world), 1, session, steps);
            AllAnswered(l) && l.clientRoom == "" && CurrentRoomName(l.world.rooms, 1) == "b"
  {
    var canon: Collation := name => name;
    var a, b := Row(7, "a", 9), Row(8, "b", 9);
    var asked := Fresh(Initial<S>([a, b])).(requests := [RoomRequest(JOIN, "a")]);
    TwoRows(a, b);
    FirstJoin(canon, Initial([a, b]), 1, session, "a", a, LeaveAhead(LeaveSteps()));
    var inA := AfterJoin(asked, 0, 1, session, "a", a);
    assert inA.requests == [HistoryRequest("a", HISTORY_LIMIT)];
    LeaveAheadServed(canon, inA, session, b, LeaveSteps());
    var both := inA.(requests := inA.requests + [RoomRequest(JOIN, "b"), RoomRequest(LEAVE, "a")]);
    LastLeave(canon, AfterJoin(both, 1, 1, session, "b", b), session);
  }

  // ----- two handlers of one user at once -----

  /** The handlers of two joins: both look up their room, the second is decided first. */
  function OverlapSteps<S>(steps: seq<LinkStep<S>>): seq<LinkStep<S>> {
    [Begin(0, 0, true)] + ([Begin(0, 1, true)] + ([Continue(1, 0, Refused)] + ([Continue(0, 0, Refused)] + steps)))
  }

  /** But the first is answered first. */
  function AnswerSteps<S>(): seq<LinkStep<S>> {
    [Answer(1)] + ([Answer(0)] + ([Receive] + ([Receive] + [])))
  }

  /** The two joins decided, not answered. */
  function BothDecided<S>(world: World<S>, session: S, a: Row, b: Row): Link<S> {
    var entries := [Entry(JOIN, "b", true), Entry(JOIN, "a", true)];
    var rooms := Join(Join(world.rooms, 1, session, "b", b), 1, session, "a", a);
    Fresh(world).(world := world.(rooms := rooms), unanswered := entries, commits := entries)
  }

  lemma OverlapDecided<S>(canon: Collation, world: World<S>, session: S, a: Row, b: Row, steps: seq<LinkStep<S>>)
    requires world.tasks == map[] && Lookup(canon, world.table, "a") == Some(a) && Lookup(canon, world.table, "b") == Some(b)
    ensures var asked := Fresh(world).(requests := [RoomRequest(JOIN, "a"), RoomRequest(JOIN, "b")]);
            RunLink(canon, asked, 1, session, OverlapSteps(steps)) ==
            RunLink(canon, BothDecided(world, session, a, b), 1, session, steps)
  {
    var asked := Fresh(world).(requests := [RoomRequest(JOIN, "a"), RoomRequest(JOIN, "b")]);
    FourSteps(canon, asked, 1, session, Begin(0, 0, true), Begin(0, 1, true),
              Continue(1, 0, Refused), Continue(0, 0, Refused), steps);
    OverlapLookups(canon, world, session, a, b);
    OverlapCommits(canon, world, session, a, b);
  }

  lemma OverlapLookups<S>(canon: Collation, world: World<S>, session: S, a: Row, b: Row)
    requires world.tasks == map[] && Lookup(canon, world.table, "a") == Some(a) && Lookup(canon, world.table, "b") == Some(b)
    ensures var asked := Fresh(world).(requests := [RoomRequest(JOIN, "a"), RoomRequest(JOIN, "b")]);
            var foundA, foundB := JoinFound(1, session, "a", a), JoinFound(1, session, "b", b);
            var one := NextLink(canon, asked, 1, session, Begin(0, 0, true));
            NextLink(canon, one, 1, session, Begin(0, 1, true)) ==
            Fresh(world).(handlers := {0, 1}, world := world.(tasks := map[0 := foundA, 1 := foundB]))
  {
    var asked := Fresh(world).(requests := [RoomRequest(JOIN, "a"), RoomRequest(JOIN, "b")]);
    var one := NextLink(canon, asked, 1, session, Begin(0, 0, true));
    assert one == Fresh(world).(requests := [RoomRequest(JOIN, "b")], handlers := {0},
                                world := world.(tasks := map[0 := JoinFound(1, session, "a", a)]));
  }

  lemma OverlapCommits<S>(canon: Collation, world: World<S>, session: S, a: Row, b: Row)
    requires world.tasks == map[]
    ensures var foundA, foundB := JoinFound(1, session, "a", a), JoinFound(1, session, "b", b);
            var two := Fresh(world).(handlers := {0, 1}, world := world.(tasks := map[0 := foundA, 1 := foundB]));
            var three := NextLink(canon, two, 1, session, Continue(1, 0, Refused));
            NextLink(canon, three, 1, session, Continue(0, 0, Refused)) == BothDecided(world, session, a, b)
  {
    var foundA, foundB := JoinFound(1, session, "a", a), JoinFound(1, session, "b", b);
    var two := Fresh(world).(handlers := {0, 1}, world := world.(tasks := map[0 := foundA, 1 := foundB]));
    var three := NextLink(canon, two, 1, session, Continue(1, 0, Refused));
    assert three.handlers == {0} && three.unanswered == [Entry(JOIN, "b", true)] == three.commits;
    assert three.world == world.(rooms := Join(world.rooms, 1, session, "b", b), tasks := map[0 := foundA]);
  }

  lemma OverlapAnswers<S>(canon: Collation, l: Link<S>, session: S)
    requires l.unanswered == [Entry(JOIN, "b", true), Entry(JOIN, "a", true)] && l.responses == []
    ensures var one := NextLink(canon, l, 1, session, Answer(1));
            var two := NextLink(canon, one, 1, session, Answer(0));
            && two.unanswered == [] && two.world == l.world
            && two.responses == [RoomAnswer(JOIN, "a", true), RoomAnswer(JOIN, "b", true)]
  {
    var one := NextLink(canon, l, 1, session, Answer(1));
    assert one.unanswered == [Entry(JOIN, "b", true)] && one.responses == [RoomAnswer(JOIN, "a", true)];
  }

  lemma OverlapReceived<S>(canon: Collation, l: Link<S>, session: S)
    requires l.responses == [RoomAnswer(JOIN, "a", true), RoomAnswer(JOIN, "b", true)]
    ensures var end := NextLink(canon, NextLink(canon, l, 1, session, Receive), 1, session, Receive);
            end.responses == [] && end.clientRoom == "b" && end.world == l.world && end.unanswered == l.unanswered
  {
    assert l.responses[1..] == [RoomAnswer(JOIN, "b", true)];
  }

  lemma OverlapAnswered<S>(canon: Collation, l: Link<S>, session: S)
    requires l.unanswered == [Entry(JOIN, "b", true), Entry(JOIN, "a", true)] && l.responses == []
    ensures var end := RunLink(canon, l, 1, session, AnswerSteps());
            AllAnswered(end) && end.clientRoom == "b" && end.world == l.world
  {
    var two := NextLink(canon, NextLink(canon, l, 1, session, Answer(1)), 1, session, Answer(0));
    OverlapAnswers(canon, l, session);
    OverlapReceived(canon, two, session);
    LastFourSteps(canon, l, 1, session, Answer(1), Answer(0), Receive, Receive);
  }

  lemma LastFourSteps<S>(canon: Collation, l: Link<S>, user: int, session: S,
                         a: LinkStep<S>, b: LinkStep<S>, c: LinkStep<S>, d: LinkStep<S>)
    ensures var l1 := NextLink(canon, l, user, session, a);
            var l2 := NextLink(canon, l1, user, session, b);
            var l3 := NextLink(canon, l2, user, session, c);
            RunLink(canon, l, user, session, [a] + ([b] + ([c] + ([d] + [])))) == NextLink(canon, l3, user, session, d)
  {
    FourSteps(canon, l, user, session, a, b, c, d, []);
  }

  lemma OverlapRun<S>(canon: Collation, world: World<S>, session: S, a: Row, b: Row)
    requires world.tasks == map[] && Lookup(canon, world.table, "a") == Some(a) && Lookup(canon, world.table, "b") == Some(b)
    ensures var steps := [Type(JoinCommand("a"))] + ([Type(JoinCommand("b"))] + OverlapSteps(AnswerSteps()));
            RunLink(canon, Fresh(world), 1, session, steps) ==
            RunLink(canon, BothDecided(world, session, a, b), 1, session, AnswerSteps())
  {
    var typed := NextLink(canon, Fresh(world), 1, session, Type(JoinCommand("a")));
    RunLinkFirst(canon, Fresh(world), 1, session, Type(JoinCommand("a")),
                 [Type(JoinCommand("b"))] + OverlapSteps(AnswerSteps()));
    RunLinkFirst(canon, typed, 1, session, Type(JoinCommand("b")), OverlapSteps(AnswerSteps()));
    assert NextLink(canon, typed, 1, session, Type(JoinCommand("b")))
        == Fresh(world).(requests := [RoomRequest(JOIN, "a"), RoomRequest(JOIN, "b")]);
    OverlapDecided(canon, world, session, a, b, AnswerSteps());
  }

  /**
   Two joins sent at once and handled at the same time can be decided in one order and answered in the other: both
   succeed, and the client ends in the one room and the server has the user in the other.
   */
  lemma OverlappingJoinsDisagree<S>(session: S)
    ensures var world := Initial([Row(7, "a", 9), Row(8, "b", 9)]);
            var steps := [Type(JoinCommand("a"))] + ([Type(JoinCommand("b"))] + OverlapSteps(AnswerSteps()));
            var l := RunLink(name => name, Fresh(world), 1, session, steps);
            AllAnswered(l) && l.clientRoom == "b" && CurrentRoomName(l.world.rooms, 1) == "a"
  {
    var canon: Collation := name => name;
    var a, b := Row(7, "a", 9), Row(8, "b", 9);
    TwoRows(a, b);
    OverlapRun(canon, Initial([a, b]), session, a, b);
    OverlapAnswered(canon, BothDecided(Initial([a, b]), session, a, b), session);
  }
}
