/**
 The session indexes and the live rooms together, as the handlers change them one after the other
 in the order of posting, which is how a server without extra threads runs them.
 */
module ServerState {
  import opened Wrappers
  import opened RoomState
  import opened SessionIndex
  import Broadcast

  datatype Server<!S> = Server(dir: Directory<S>, rooms: Rooms<S>)

  datatype Request<+S> =
    | Account(op: Op<S>)                          // a session connects, logs in or is renamed
    | JoinRoom(s: S, room: string, row: Row)      // with the row that the table has for the name
    | LeaveRoom(s: S, room: string)
    | CreateRoom(s: S, room: string, row: Row)    // with the row that was inserted
    | Closed(s: S)                                // the disconnect task

  /** The effect of a request; nothing but a login is served to an unauthenticated session. */
  function Serve<S>(srv: Server<S>, req: Request<S>): Server<S> {
    match req
    case Account(op) => if op.Remove? then srv else srv.(dir := Next(srv.dir, op))
    case JoinRoom(s, room, row) =>
      if s !in srv.dir.identity then srv
      else srv.(rooms := Join(srv.rooms, srv.dir.identity[s].userId, s, room, row))
    case LeaveRoom(s, room) =>
      if s !in srv.dir.identity then srv
      else srv.(rooms := Leave(srv.rooms, srv.dir.identity[s].userId, room))
    case CreateRoom(s, room, row) =>
      if s !in srv.dir.identity then srv
      else srv.(rooms := Create(srv.rooms, srv.dir.identity[s].userId, s, room, row))
    case Closed(s) =>
      Server(Next(srv.dir, Remove(s)),
             if s !in srv.dir.identity then srv.rooms else Disconnect(srv.rooms, srv.dir.identity[s].userId))
  }

  function ServeAll<S>(srv: Server<S>, reqs: seq<Request<S>>): Server<S>
    decreases |reqs|
  {
    if reqs == [] then srv else
    var n := |reqs| - 1;
    Serve(ServeAll(srv, reqs[..n]), reqs[n])
  }

  function Start<S>(): Server<S> {
    Server(Empty(), NoRooms())
  }

  /** The session behind each seat is authenticated as the user of the seat. */
  ghost predicate SeatsIdentified<S>(srv: Server<S>) {
    forall seat :: seat in Seats(srv.rooms.active) ==>
      var s := Seats(srv.rooms.active)[seat];
      s in srv.dir.identity && srv.dir.identity[s].userId == seat.user
  }

  /** Whoever has a current room is online, and sits there with the session that the index has. */
  ghost predicate RoomsOnline<S>(srv: Server<S>) {
    forall user :: user in srv.rooms.current ==>
      var seat := Seat(user, srv.rooms.current[user]);
      && seat in Seats(srv.rooms.active)
      && FindByUserId(srv.dir, user) == Some(Seats(srv.rooms.active)[seat])
  }

  ghost predicate Inv<S>(srv: Server<S>) {
    Agrees(srv.dir) && SeatsIdentified(srv) && RoomsOnline(srv)
  }

  /** What the code does not check: logins and renames that collide, and room requests of sessions already removed. */
  ghost predicate Orderly<S>(srv: Server<S>, req: Request<S>) {
    match req
    case Account(op) => op.Remove? || Guard(srv.dir, op)
    case JoinRoom(s, _, _) => s in srv.dir.identity ==> s in srv.dir.connected
    case CreateRoom(s, _, _) => s in srv.dir.identity ==> s in srv.dir.connected
    case LeaveRoom(_, _) => true
    case Closed(s) => Guard(srv.dir, Remove(s))
  }

  /** Only the given sessions are indexed or in a room. */
  ghost predicate Within<S>(srv: Server<S>, known: set<S>) {
    && (forall room :: room in srv.rooms.active ==> srv.rooms.active[room].members.Values <= known)
    && srv.dir.byUserId.Values <= known && srv.dir.byUsername.Values <= known
  }

  /** The session that makes a request. */
  function Requester<S>(req: Request<S>): S {
    match req
    case Account(Connect(s)) => s
    case Account(Register(s, _, _)) => s
    case Account(Rename(s, _)) => s
    case Account(Remove(s)) => s
    case JoinRoom(s, _, _) => s
    case LeaveRoom(s, _) => s
    case CreateRoom(s, _, _) => s
    case Closed(s) => s
  }

  /** What a room request of an authenticated session means for the rooms. */
  function EventOf<S>(req: Request<S>, user: int): Event<S>
    requires !req.Account?
  {
    match req
    case JoinRoom(s, room, _) => Joined(user, s, room)
    case CreateRoom(s, room, _) => Created(user, s, room)
    case LeaveRoom(_, room) => Left(user, room)
    case Closed(_) => Disconnected(user)
  }

  /** A room request moves the user of its session as it says, and changes no index unless it is the disconnect task. */
  lemma ServeMoves<S>(srv: Server<S>, req: Request<S>)
    requires !req.Account? && req.s in srv.dir.identity
    ensures PlanOf(Serve(srv, req).rooms) == Apply(PlanOf(srv.rooms), EventOf(req, srv.dir.identity[req.s].userId))
    ensures Serve(srv, req).dir == if req.Closed? then Next(srv.dir, Remove(req.s)) else srv.dir
  {
    var user := srv.dir.identity[req.s].userId;
    match req {
      case JoinRoom(s, room, row) => JoinRefines(srv.rooms, user, s, room, row);
      case CreateRoom(s, room, row) => CreateRefines(srv.rooms, user, s, room, row);
      case LeaveRoom(_, room) => LeaveRefines(srv.rooms, user, room);
      case Closed(_) => DisconnectRefines(srv.rooms, user);
    }
  }

  /** Connecting, logging in and renaming do to the sessions what they are, and nothing to the rooms. */
  lemma ServeAccounts<S>(srv: Server<S>, op: Op<S>)
    requires !op.Remove?
    ensures Serve(srv, Account(op)) == Server(Next(srv.dir, op), srv.rooms)
  {
  }

  /** A request brings only its own session in. */
  lemma ServeWithin<S>(srv: Server<S>, req: Request<S>, known: set<S>)
    requires Within(srv, known) && Requester(req) in known
    ensures Within(Serve(srv, req), known)
  {
  }

  lemma AccountKeepsInv<S>(srv: Server<S>, op: Op<S>)
    requires Inv(srv) && Guard(srv.dir, op) && !op.Remove?
    ensures Inv(Serve(srv, Account(op)))
  {
    GuardSuffices(srv.dir, op);
    var after := Next(srv.dir, op);
    forall s | s in srv.dir.identity ensures s in after.identity && after.identity[s].userId == srv.dir.identity[s].userId {
    }
  }

  /** Entering a room, by join or by create, with a live session. */
  lemma EnterKeepsInv<S>(srv: Server<S>, user: int, s: S, rooms: Rooms<S>, event: Event<S>)
    requires Inv(srv) && Live(srv.dir, s) && srv.dir.identity[s].userId == user
    requires PlanOf(rooms) == Apply(PlanOf(srv.rooms), event)
    requires (event.Joined? || event.Created?) && event.user == user && event.session == s
    ensures Inv(srv.(rooms := rooms))
  {
    EnterSeats(srv.rooms, rooms, event);
    var seats, after := Seats(srv.rooms.active), Seats(rooms.active);
    forall v | v in rooms.current
      ensures var seat := Seat(v, rooms.current[v]);
              seat in after && FindByUserId(srv.dir, v) == Some(after[seat])
    {
      if v != user {
        assert v in srv.rooms.current && rooms.current[v] == srv.rooms.current[v];
      }
    }
  }

  /** Entering seats the session in the room, and changes no seat of another user. */
  lemma EnterSeats<S>(before: Rooms<S>, after: Rooms<S>, event: Event<S>)
    requires PlanOf(after) == Apply(PlanOf(before), event) && (event.Joined? || event.Created?)
    ensures after.current == before.current[event.user := event.room]
    ensures var s, t := Seats(before.active), Seats(after.active);
            && Seat(event.user, event.room) in t && t[Seat(event.user, event.room)] == event.session
            && (forall seat :: seat in t ==> seat == Seat(event.user, event.room) || (seat in s && t[seat] == s[seat]))
            && (forall seat :: seat in s && seat.user != event.user ==> seat in t && t[seat] == s[seat])
  {
    assert Seats(after.active) == SeatsAfter(Seats(before.active), before.current, event);
  }

  /** Going out of a room, by leaving or by disconnecting. */
  lemma ExitKeepsInv<S>(srv: Server<S>, rooms: Rooms<S>, event: Event<S>)
    requires Inv(srv) && (event.Left? || event.Disconnected?)
    requires PlanOf(rooms) == Apply(PlanOf(srv.rooms), event)
    ensures Inv(srv.(rooms := rooms))
  {
    var seats, after := Seats(srv.rooms.active), Seats(rooms.active);
    assert after == SeatsAfter(seats, srv.rooms.current, event);
    forall seat | seat in after ensures seat in seats && after[seat] == seats[seat] {
    }
    forall v | v in rooms.current
      ensures v in srv.rooms.current && rooms.current[v] == srv.rooms.current[v]
      ensures Seat(v, rooms.current[v]) in after
    {
    }
  }

  /** The disconnect task of a session whose user has no current room any more takes nothing else along. */
  lemma RemoveKeepsInv<S>(srv: Server<S>, s: S)
    requires Inv(srv) && Guard(srv.dir, Remove(s))
    requires s in srv.dir.identity ==> srv.dir.identity[s].userId !in srv.rooms.current
    ensures Inv(srv.(dir := Next(srv.dir, Remove(s))))
  {
    GuardSuffices(srv.dir, Remove(s));
  }

  lemma ServeKeepsInv<S>(srv: Server<S>, req: Request<S>)
    requires Inv(srv) && Orderly(srv, req)
    ensures Inv(Serve(srv, req))
  {
    match req {
      case Account(op) =>
        if !op.Remove? {
          AccountKeepsInv(srv, op);
        }
      case JoinRoom(s, room, row) =>
        if s in srv.dir.identity {
          var user := srv.dir.identity[s].userId;
          JoinRefines(srv.rooms, user, s, room, row);
          EnterKeepsInv(srv, user, s, Join(srv.rooms, user, s, room, row), Joined(user, s, room));
        }
      case CreateRoom(s, room, row) =>
        if s in srv.dir.identity {
          var user := srv.dir.identity[s].userId;
          CreateRefines(srv.rooms, user, s, room, row);
          EnterKeepsInv(srv, user, s, Create(srv.rooms, user, s, room, row), Created(user, s, room));
        }
      case LeaveRoom(s, room) =>
        if s in srv.dir.identity {
          var user := srv.dir.identity[s].userId;
          LeaveRefines(srv.rooms, user, room);
          ExitKeepsInv(srv, Leave(srv.rooms, user, room), Left(user, room));
        }
      case Closed(s) =>
        if s in srv.dir.identity {
          var user := srv.dir.identity[s].userId;
          DisconnectRefines(srv.rooms, user);
          var out := srv.(rooms := Disconnect(srv.rooms, user));
          ExitKeepsInv(srv, out.rooms, Disconnected(user));
          RemoveKeepsInv(out, s);
        } else {
          RemoveKeepsInv(srv, s);
        }
    }
  }

  ghost predicate AllOrderly<S>(reqs: seq<Request<S>>) {
    forall i :: 0 <= i < |reqs| ==> Orderly(ServeAll(Start(), reqs[..i]), reqs[i])
  }

  /** Over orderly runs, whoever is in a room is online there with the session that the indexes find. */
  lemma {:induction false} OrderlyRun<S>(reqs: seq<Request<S>>)
    requires AllOrderly(reqs)
    ensures Inv(ServeAll(Start(), reqs))
    decreases |reqs|
  {
    if reqs == [] {
      assert OccupiedSeats<S>(map[]) == {};
      assert Seats<S>(map[]) == map[];
    } else {
      var n := |reqs| - 1;
      forall i | 0 <= i < n ensures Orderly(ServeAll(Start(), reqs[..n][..i]), reqs[..n][i]) {
        assert reqs[..n][..i] == reqs[..i];
      }
      OrderlyRun(reqs[..n]);
      ServeKeepsInv(ServeAll(Start(), reqs[..n]), reqs[n]);
    }
  }

  lemma EnterNeedsLive<S>(srv: Server<S>, user: int, s: S, rooms: Rooms<S>, event: Event<S>)
    requires PlanOf(rooms) == Apply(PlanOf(srv.rooms), event)
    requires (event.Joined? || event.Created?) && event.user == user && event.session == s
    requires Inv(srv.(rooms := rooms))
    ensures s in srv.dir.connected
  {
    EnterSeats(srv.rooms, rooms, event);
    assert FindByUserId(srv.dir, user) == Some(Seats(rooms.active)[Seat(user, event.room)]);
  }

  /** A request that leaves the server in agreement met its guard, which nothing checks. */
  lemma OrderlyNeeded<S>(srv: Server<S>, req: Request<S>)
    requires Inv(srv) && Inv(Serve(srv, req))
    ensures Orderly(srv, req)
  {
    match req {
      case Account(op) =>
        if !op.Remove? {
          GuardNeeded(srv.dir, op);
        }
      case JoinRoom(s, room, row) =>
        if s in srv.dir.identity {
          var user := srv.dir.identity[s].userId;
          JoinRefines(srv.rooms, user, s, room, row);
          EnterNeedsLive(srv, user, s, Join(srv.rooms, user, s, room, row), Joined(user, s, room));
        }
      case CreateRoom(s, room, row) =>
        if s in srv.dir.identity {
          var user := srv.dir.identity[s].userId;
          CreateRefines(srv.rooms, user, s, room, row);
          EnterNeedsLive(srv, user, s, Create(srv.rooms, user, s, room, row), Created(user, s, room));
        }
      case LeaveRoom(_, _) =>
      case Closed(s) => GuardNeeded(srv.dir, Remove(s));
    }
  }

  lemma ServeMore<S>(srv: Server<S>, reqs: seq<Request<S>>, req: Request<S>)
    ensures ServeAll(srv, reqs + [req]) == Serve(ServeAll(srv, reqs), req)
  {
    assert (reqs + [req])[..|reqs|] == reqs;
  }

  ghost predicate InvThroughout<S>(reqs: seq<Request<S>>) {
    forall i :: 0 <= i <= |reqs| ==> Inv(ServeAll(Start(), reqs[..i]))
  }

  lemma OrderlyPrefix<S>(reqs: seq<Request<S>>, i: nat)
    requires i <= |reqs| && AllOrderly(reqs)
    ensures Inv(ServeAll(Start(), reqs[..i]))
  {
    forall j | 0 <= j < i ensures Orderly(ServeAll(Start(), reqs[..i][..j]), reqs[..i][j]) {
      assert reqs[..i][..j] == reqs[..j];
    }
    OrderlyRun(reqs[..i]);
  }

  lemma OrderlyAt<S>(reqs: seq<Request<S>>, i: nat)
    requires i < |reqs| && InvThroughout(reqs)
    ensures Orderly(ServeAll(Start(), reqs[..i]), reqs[i])
  {
    assert reqs[..i + 1] == reqs[..i] + [reqs[i]];
    ServeMore(Start(), reqs[..i], reqs[i]);
    assert Inv(ServeAll(Start(), reqs[..i])) && Inv(ServeAll(Start(), reqs[..i + 1]));
    OrderlyNeeded(ServeAll(Start(), reqs[..i]), reqs[i]);
  }

  /** Sessions, indexes and rooms agree at every moment of a run if and only if every request meets its guard. */
  lemma OrderlyThroughoutIff<S>(reqs: seq<Request<S>>)
    ensures InvThroughout(reqs) <==> AllOrderly(reqs)
  {
    if AllOrderly(reqs) {
      forall i | 0 <= i <= |reqs| ensures Inv(ServeAll(Start(), reqs[..i])) {
        OrderlyPrefix(reqs, i);
      }
    } else if InvThroughout(reqs) {
      forall i | 0 <= i < |reqs| ensures Orderly(ServeAll(Start(), reqs[..i]), reqs[i]) {
        OrderlyAt(reqs, i);
      }
    }
  }

  /** No index and no room refers to the session. */
  ghost predicate Forgotten<S>(srv: Server<S>, s: S) {
    && s !in srv.dir.byUserId.Values && s !in srv.dir.byUsername.Values
    && (forall seat :: seat in Seats(srv.rooms.active) ==> Seats(srv.rooms.active)[seat] != s)
  }

  /**
   After its disconnect task, a session is forgotten everywhere if and only if it sat in no stale seat;
   in any case its user is in no room, and the index entries and seats of all others are as before.
   */
  lemma DisconnectForgetsIff<S>(srv: Server<S>, s: S)
    requires Inv(srv) && Live(srv.dir, s)
    ensures var user := srv.dir.identity[s].userId;
            var after := Serve(srv, Closed(s));
            var seats := Seats(srv.rooms.active);
            && (Forgotten(after, s) <==> forall seat :: seat in Stale(PlanOf(srv.rooms)) ==> seats[seat] != s)
            && after.rooms.current == srv.rooms.current - {user}
            && Seats(after.rooms.active) == seats - CurrentSeat(srv.rooms.current, user)
            && (forall q :: q in srv.dir.connected && q != s && q in srv.dir.identity ==>
                  FindByUserId(after.dir, srv.dir.identity[q].userId) == Some(q)
                  && FindByUsername(after.dir, srv.dir.identity[q].username) == Some(q))
  {
    ServeKeepsInv(srv, Closed(s));
    NotIndexed(Serve(srv, Closed(s)).dir, s);
    DisconnectRefines(srv.rooms, srv.dir.identity[s].userId);
    SeatsLeft(srv, s);
  }

  /** The session is left in a seat exactly if one of its seats was stale. */
  lemma SeatsLeft<S>(srv: Server<S>, s: S)
    requires Inv(srv) && Live(srv.dir, s)
    ensures var left := Seats(Disconnect(srv.rooms, srv.dir.identity[s].userId).active);
            (forall seat :: seat in left ==> left[seat] != s)
            <==> (forall seat :: seat in Stale(PlanOf(srv.rooms)) ==> Seats(srv.rooms.active)[seat] != s)
  {
    var user := srv.dir.identity[s].userId;
    var seats, left := Seats(srv.rooms.active), Seats(Disconnect(srv.rooms, user).active);
    DisconnectRefines(srv.rooms, user);
    assert left == seats - CurrentSeat(srv.rooms.current, user);
    forall seat | seat in seats && seats[seat] == s
      ensures seat in left <==> seat in Stale(PlanOf(srv.rooms))
    {
      assert seat.user == user;
      assert seat in CurrentSeats(srv.rooms.current) <==> seat in CurrentSeat(srv.rooms.current, user);
    }
    if forall seat :: seat in left ==> left[seat] != s {
      forall seat | seat in Stale(PlanOf(srv.rooms)) ensures seats[seat] != s {
        assert seat in left ==> left[seat] == seats[seat];
      }
    } else {
      var seat :| seat in left && left[seat] == s;
      assert seat in seats && seats[seat] == s;
    }
  }

  lemma NotIndexed<S>(d: Directory<S>, s: S)
    requires Agrees(d) && s !in d.connected
    ensures s !in d.byUserId.Values && s !in d.byUsername.Values
  {
    if s in d.byUserId.Values {
      var userId := KeyOf(d.byUserId, s);
    }
    if s in d.byUsername.Values {
      var username := KeyOf(d.byUsername, s);
    }
  }

  // ----- sessions that never log in -----

  /** The requests of all other sessions. */
  ghost function WithoutRequestsOf<S>(reqs: seq<Request<S>>, s: S): seq<Request<S>>
    decreases |reqs|
  {
    if reqs == [] then [] else
    var n := |reqs| - 1;
    WithoutRequestsOf(reqs[..n], s) + if Requester(reqs[n]) == s then [] else [reqs[n]]
  }

  ghost predicate NeverLogsIn<S>(reqs: seq<Request<S>>, s: S) {
    forall i :: 0 <= i < |reqs| && reqs[i].Account? && reqs[i].op.Register? ==> reqs[i].op.s != s
  }

  /** The servers differ in nothing but whether a session that is not authenticated is connected. */
  ghost predicate SameBut<S>(a: Server<S>, b: Server<S>, s: S) {
    && a.rooms == b.rooms && s !in a.dir.identity && a.dir.identity == b.dir.identity
    && a.dir.byUserId == b.dir.byUserId && a.dir.byUsername == b.dir.byUsername
    && (forall q :: q in a.dir.connected && q != s ==> q in b.dir.connected)
    && (forall q :: q in b.dir.connected && q != s ==> q in a.dir.connected)
  }

  lemma ServeKeepsSame<S>(a: Server<S>, b: Server<S>, s: S, req: Request<S>)
    requires SameBut(a, b, s) && (req.Account? && req.op.Register? ==> req.op.s != s)
    ensures SameBut(Serve(a, req), if Requester(req) == s then b else Serve(b, req), s)
  {
  }

  /**
   Whatever a session that never logs in requests, and however it comes and goes, the server serves all others
   as if there had been none of it: rooms, indexes and identities are those of the run without its requests.
   */
  lemma {:induction false} UnauthenticatedChangesNothing<S>(reqs: seq<Request<S>>, s: S)
    requires NeverLogsIn(reqs, s)
    ensures SameBut(ServeAll(Start(), reqs), ServeAll(Start(), WithoutRequestsOf(reqs, s)), s)
    decreases |reqs|
  {
    if reqs != [] {
      var n := |reqs| - 1;
      UnauthenticatedChangesNothing(reqs[..n], s);
      var others := WithoutRequestsOf(reqs[..n], s);
      ServeKeepsSame(ServeAll(Start(), reqs[..n]), ServeAll(Start(), others), s, reqs[n]);
      if Requester(reqs[n]) == s {
        assert others + [] == others;
      } else {
        ServeMore(Start(), others, reqs[n]);
      }
    }
  }

  lemma JoinSeats<S>(st: Rooms<S>, user: int, s: S, room: string, row: Row)
    ensures user in Join(st, user, s, room, row).current && user in MembersOf(Join(st, user, s, room, row), room)
  {
  }

  /**
   A removed session keeps its authentication. If one more join of it is served, its user is back in a
   room, as a member that no index finds.
   */
  lemma JoinAfterDisconnect<S>(srv: Server<S>, s: S, room: string, row: Row)
    requires Inv(srv) && Live(srv.dir, s)
    ensures var after := Serve(Serve(srv, Closed(s)), JoinRoom(s, room, row));
            var user := srv.dir.identity[s].userId;
            && user in after.rooms.current && user in MembersOf(after.rooms, room)
            && FindByUserId(after.dir, user).None? && s !in after.dir.connected
  {
    JoinSeats(Serve(srv, Closed(s)).rooms, srv.dir.identity[s].userId, s, room, row);
  }

  /** In an orderly server a broadcast reaches each member's session exactly once, and the excluded user not at all. */
  lemma BroadcastExactlyOnce<S>(srv: Server<S>, room: string, user: int, excluded: int)
    requires Inv(srv) && room in srv.rooms.active && user in srv.rooms.active[room].members
    ensures var members := srv.rooms.active[room].members;
            Broadcast.Copies(members, excluded, members[user]) == if user == excluded then 0 else 1
  {
    var members := srv.rooms.active[room].members;
    forall u | u in members
      ensures members[u] in srv.dir.identity && srv.dir.identity[members[u]].userId == u
    {
      assert Occupied(srv.rooms.active, Seat(u, room));
      assert Seats(srv.rooms.active)[Seat(u, room)] == members[u];
    }
    Broadcast.ExactlyOnce(members, excluded, user);
  }
}
