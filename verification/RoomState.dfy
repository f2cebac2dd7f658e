/**
 The live rooms of the server: which room each user is in, and which sessions each active room
 holds. The two maps are changed only under one lock; the functions here are what the critical
 sections do to them, and each is related to a flat seating plan.
 */
module RoomState {
  import opened Wrappers

  /** A row of the rooms table. */
  datatype Row = Row(id: int, name: string, creator: int)

  datatype ActiveRoom<+S> = ActiveRoom(id: int, creatorId: int, name: string, members: map<int, S>)

  datatype Rooms<+S> = Rooms(current: map<int, string>, active: map<string, ActiveRoom<S>>)

  type Active<+S> = map<string, ActiveRoom<S>>

  function NoRooms<S>(): Rooms<S> {
    Rooms(map[], map[])
  }

  // ----- the critical sections -----

  /** Takes a user out of an active room; an active room without members is dropped. */
  function Evict<S>(active: Active<S>, room: string, user: int): Active<S> {
    if room !in active then active else
    var members := active[room].members - {user};
    if members == map[] then active - {room} else active[room := active[room].(members := members)]
  }

  /** Puts a session into a room, which becomes active with the data of the given row if it was not. */
  function Admit<S>(active: Active<S>, room: string, row: Row, user: int, session: S): Active<S> {
    var entry := if room in active then active[room] else ActiveRoom(row.id, row.creator, row.name, map[]);
    active[room := entry.(members := entry.members[user := session])]
  }

  function Join<S>(st: Rooms<S>, user: int, session: S, room: string, row: Row): Rooms<S> {
    var left := if user in st.current then Evict(st.active, st.current[user], user) else st.active;
    Rooms(st.current[user := room], Admit(left, room, row, user, session))
  }

  function Leave<S>(st: Rooms<S>, user: int, room: string): Rooms<S> {
    if user in st.current && st.current[user] == room
    then Rooms(st.current - {user}, Evict(st.active, room, user))
    else st
  }

  /** The creator enters the new room without being taken out of the old one. */
  function Create<S>(st: Rooms<S>, user: int, session: S, room: string, row: Row): Rooms<S> {
    var others := if room in st.active then st.active[room].members else map[];
    Rooms(st.current[user := room],
          st.active[room := ActiveRoom(row.id, user, row.name, others[user := session])])
  }

  function Disconnect<S>(st: Rooms<S>, user: int): Rooms<S> {
    if user in st.current
    then Rooms(st.current - {user}, Evict(st.active, st.current[user], user))
    else st
  }

  // ----- the flat seating plan -----

  datatype Seat = Seat(user: int, room: string)

  /** Who is in which room, and which session sits in which room for which user. */
  datatype Plan<+S> = Plan(current: map<int, string>, seats: map<Seat, S>)

  predicate Occupied<S>(active: Active<S>, seat: Seat) {
    seat.room in active && seat.user in active[seat.room].members
  }

  ghost function OccupiedSeats<S>(active: Active<S>): (seats: set<Seat>)
    ensures forall seat :: seat in seats <==> Occupied(active, seat)
  {
    var seats: set<Seat> := set room, user | room in active && user in active[room].members :: Seat(user, room);
    seats
  }

  /** Every membership of every active room. */
  ghost function Seats<S>(active: Active<S>): map<Seat, S> {
    map seat | seat in OccupiedSeats(active) :: active[seat.room].members[seat.user]
  }

  ghost function PlanOf<S>(st: Rooms<S>): Plan<S> {
    Plan(st.current, Seats(st.active))
  }

  /** What the two maps have gone through, one critical section after the other. */
  datatype Event<+S> =
    | Joined(user: int, session: S, room: string)
    | Left(user: int, room: string)
    | Created(user: int, session: S, room: string)
    | Disconnected(user: int)

  /** The seats of users in their current room. */
  ghost function CurrentSeats(current: map<int, string>): (seats: set<Seat>)
    ensures forall seat :: seat in seats <==> seat.user in current && current[seat.user] == seat.room
  {
    set user | user in current :: Seat(user, current[user])
  }

  function CurrentSeat(current: map<int, string>, user: int): set<Seat> {
    if user in current then {Seat(user, current[user])} else {}
  }

  /** What an event does to the users' rooms. */
  function CurrentAfter<S>(current: map<int, string>, event: Event<S>): map<int, string> {
    match event
    case Joined(user, _, room) => current[user := room]
    case Left(user, room) => if Seat(user, room) in CurrentSeat(current, user) then current - {user} else current
    case Created(user, _, room) => current[user := room]
    case Disconnected(user) => current - {user}
  }

  /** What an event does to the seats, given the users' rooms before it. */
  function SeatsAfter<S>(seats: map<Seat, S>, current: map<int, string>, event: Event<S>): map<Seat, S> {
    match event
    case Joined(user, session, room) => (seats - CurrentSeat(current, user))[Seat(user, room) := session]
    case Left(user, room) => seats - (CurrentSeat(current, user) * {Seat(user, room)})
    case Created(user, session, room) => seats[Seat(user, room) := session]
    case Disconnected(user) => seats - CurrentSeat(current, user)
  }

  /** The flat meaning of an event. */
  function Apply<S>(plan: Plan<S>, event: Event<S>): Plan<S> {
    Plan(CurrentAfter(plan.current, event), SeatsAfter(plan.seats, plan.current, event))
  }

  lemma EvictSeats<S>(active: Active<S>, room: string, user: int)
    ensures Seats(Evict(active, room, user)) == Seats(active) - {Seat(user, room)}
  {
    var after := Evict(active, room, user);
    forall seat ensures Occupied(after, seat) <==> Occupied(active, seat) && seat != Seat(user, room) {
      if room in active {
        assert seat.user in active[room].members - {user} <==> seat.user in active[room].members && seat.user != user;
      }
    }
  }

  lemma AdmitSeats<S>(active: Active<S>, room: string, row: Row, user: int, session: S)
    ensures Seats(Admit(active, room, row, user, session)) == Seats(active)[Seat(user, room) := session]
  {
    var after := Admit(active, room, row, user, session);
    forall seat ensures Occupied(after, seat) <==> Occupied(active, seat) || seat == Seat(user, room) {
      if seat.room == room {
        assert seat.user in after[room].members <==> seat.user == user || Occupied(active, seat);
      }
    }
    var seats, t := Seats(active)[Seat(user, room) := session], Seats(after);
    assert t.Keys == seats.Keys;
    forall seat | seat in t ensures t[seat] == seats[seat] {
      if seat != Seat(user, room) {
        assert Occupied(active, seat) && after[seat.room].members[seat.user] == active[seat.room].members[seat.user];
      }
    }
  }

  /** Each critical section has exactly the flat effect of its event. */
  lemma JoinRefines<S>(st: Rooms<S>, user: int, session: S, room: string, row: Row)
    ensures PlanOf(Join(st, user, session, room, row)) == Apply(PlanOf(st), Joined(user, session, room))
  {
    var left := if user in st.current then Evict(st.active, st.current[user], user) else st.active;
    if user in st.current {
      EvictSeats(st.active, st.current[user], user);
    } else {
      assert Seats(st.active) - {} == Seats(st.active);
    }
    AdmitSeats(left, room, row, user, session);
  }

  lemma LeaveRefines<S>(st: Rooms<S>, user: int, room: string)
    ensures PlanOf(Leave(st, user, room)) == Apply(PlanOf(st), Left(user, room))
  {
    var current, seats := st.current, Seats(st.active);
    if user in current && current[user] == room {
      EvictSeats(st.active, room, user);
      assert CurrentSeat(current, user) * {Seat(user, room)} == {Seat(user, room)};
    } else {
      assert CurrentSeat(current, user) * {Seat(user, room)} == {};
      assert seats - {} == seats;
    }
  }

  /** Creating seats the creator in the room, as any admission does, and refreshes what the room caches. */
  lemma CreateRefines<S>(st: Rooms<S>, user: int, session: S, room: string, row: Row)
    ensures PlanOf(Create(st, user, session, room, row)) == Apply(PlanOf(st), Created(user, session, room))
  {
    var after, admitted := Create(st, user, session, room, row).active, Admit(st.active, room, row, user, session);
    AdmitSeats(st.active, room, row, user, session);
    SameMembersSameSeats(after, admitted);
  }

  lemma SameMembersSameSeats<S>(a: Active<S>, b: Active<S>)
    requires a.Keys == b.Keys && forall room :: room in a ==> a[room].members == b[room].members
    ensures Seats(a) == Seats(b)
  {
    forall seat ensures Occupied(a, seat) <==> Occupied(b, seat) {
    }
  }

  lemma DisconnectRefines<S>(st: Rooms<S>, user: int)
    ensures PlanOf(Disconnect(st, user)) == Apply(PlanOf(st), Disconnected(user))
  {
    if user in st.current {
      EvictSeats(st.active, st.current[user], user);
    } else {
      assert Seats(st.active) - {} == Seats(st.active);
      assert st.current - {user} == st.current;
    }
  }

  // ----- what the critical sections do to a single membership -----

  /** Taking a user out of a room takes away that membership only. */
  lemma EvictMoves<S>(active: Active<S>, room: string, user: int, u: int, r: string)
    ensures var after := Evict(active, room, user);
            && (Occupied(after, Seat(u, r)) <==> Occupied(active, Seat(u, r)) && !(u == user && r == room))
            && (Occupied(after, Seat(u, r)) ==> after[r].members[u] == active[r].members[u])
  {
    if Occupied(active, Seat(u, r)) && r == room && u != user {
      assert u in active[room].members - {user};
    }
  }

  /** A join puts the user into the room and takes nobody but the user out, of nothing but the current room. */
  lemma JoinMoves<S>(st: Rooms<S>, user: int, session: S, room: string, row: Row, u: int, r: string)
    ensures var after := Join(st, user, session, room, row);
            && after.current.Keys == st.current.Keys + {user} && after.current[user] == room
            && (u in st.current && u != user ==> after.current[u] == st.current[u])
            && (u in MembersOf(after, r) <==>
                  (u == user && r == room) || (u in MembersOf(st, r) && !(u == user && user in st.current && st.current[user] == r)))
            && room in after.active && after.active[room].members[user] == session
            && (u in MembersOf(after, r) && !(u == user && r == room) ==> after.active[r].members[u] == st.active[r].members[u])
  {
    if user in st.current {
      EvictMoves(st.active, st.current[user], user, u, r);
    }
  }

  /** A leave takes the user out of the current room if that is the one named, and otherwise does nothing. */
  lemma LeaveMoves<S>(st: Rooms<S>, user: int, room: string, u: int, r: string)
    ensures var after := Leave(st, user, room);
            if user in st.current && st.current[user] == room then
              && user !in after.current && after.current.Keys + {user} == st.current.Keys
              && (u in after.current ==> after.current[u] == st.current[u])
              && (u in MembersOf(after, r) <==> u in MembersOf(st, r) && !(u == user && r == room))
              && (u in MembersOf(after, r) ==> after.active[r].members[u] == st.active[r].members[u])
            else after == st
  {
    EvictMoves(st.active, room, user, u, r);
  }

  /** A create puts the user into the new room and takes nobody out of any. */
  lemma CreateMoves<S>(st: Rooms<S>, user: int, session: S, room: string, row: Row, u: int, r: string)
    ensures var after := Create(st, user, session, room, row);
            && after.current.Keys == st.current.Keys + {user} && after.current[user] == room
            && (u in st.current && u != user ==> after.current[u] == st.current[u])
            && (u in MembersOf(after, r) <==> (u == user && r == room) || u in MembersOf(st, r))
            && room in after.active && after.active[room].members[user] == session
            && after.active[room].id == row.id && after.active[room].name == row.name && after.active[room].creatorId == user
            && (u in MembersOf(st, r) && !(u == user && r == room) ==> after.active[r].members[u] == st.active[r].members[u])
  {
  }

  /** A disconnect takes the user out of the current room, if any. */
  lemma DisconnectMoves<S>(st: Rooms<S>, user: int, u: int, r: string)
    ensures var after := Disconnect(st, user);
            && user !in after.current && after.current.Keys == st.current.Keys - {user}
            && (u in after.current ==> after.current[u] == st.current[u])
            && (u in MembersOf(after, r) <==> u in MembersOf(st, r) && !(u == user && user in st.current && st.current[user] == r))
            && (u in MembersOf(after, r) ==> after.active[r].members[u] == st.active[r].members[u])
  {
    if user in st.current {
      EvictMoves(st.active, st.current[user], user, u, r);
    }
  }

  /** A joined room keeps its data unless it was not active or the joiner left it empty for a moment; then it has that of the row. */
  lemma JoinCaches<S>(st: Rooms<S>, user: int, session: S, room: string, row: Row)
    ensures var entry := Join(st, user, session, room, row).active[room];
            var kept := && room in st.active
                        && (st.active[room].members.Keys - {user} != {} || !(user in st.current && st.current[user] == room));
            && entry.id == (if kept then st.active[room].id else row.id)
            && entry.name == (if kept then st.active[room].name else row.name)
            && entry.creatorId == (if kept then st.active[room].creatorId else row.creator)
  {
    if room in st.active {
      assert (st.active[room].members - {user}).Keys == st.active[room].members.Keys - {user};
    }
  }

  // ----- current and stale seats -----

  /** Every user with a current room has a seat in it. */
  ghost predicate Seated<S>(plan: Plan<S>) {
    CurrentSeats(plan.current) <= plan.seats.Keys
  }

  /** The seats that are left over: their user is in another room, or in none. */
  ghost function Stale<S>(plan: Plan<S>): set<Seat> {
    plan.seats.Keys - CurrentSeats(plan.current)
  }

  /** How an event moves the set of stale seats: only creating adds one, only sitting down again removes one. */
  function StaleAfter<S>(stale: set<Seat>, current: map<int, string>, event: Event<S>): set<Seat> {
    match event
    case Joined(user, _, room) => stale - {Seat(user, room)}
    case Left(_, _) => stale
    case Created(user, _, room) => stale + CurrentSeat(current, user) - {Seat(user, room)}
    case Disconnected(_) => stale
  }

  /**
   The members of the active rooms are at all times the current seats and, disjoint from them, the stale
   ones; the stale ones change by StaleAfter.
   */
  lemma StaleLaw<S>(plan: Plan<S>, event: Event<S>)
    requires Seated(plan)
    ensures Seated(Apply(plan, event))
    ensures Stale(Apply(plan, event)) == StaleAfter(Stale(plan), plan.current, event)
  {
    var after := Apply(plan, event);
    forall seat: Seat
      ensures seat in CurrentSeats(after.current) ==> seat in after.seats
      ensures seat in Stale(after) <==> seat in StaleAfter(Stale(plan), plan.current, event)
    {
      assert seat in CurrentSeats(plan.current) <==> seat.user in plan.current && plan.current[seat.user] == seat.room;
      assert seat in CurrentSeats(after.current) <==> seat.user in after.current && after.current[seat.user] == seat.room;
    }
  }

  /** The sitting users of a room, from the active rooms. */
  ghost function MembersOf<S>(st: Rooms<S>, room: string): set<int> {
    if room in st.active then st.active[room].members.Keys else {}
  }

  /** The users whose current room it is, from the users' map. */
  ghost function UsersIn<S>(st: Rooms<S>, room: string): set<int> {
    set user | user in st.current && st.current[user] == room
  }

  /** The two maps agree on every room if and only if there is no stale seat. */
  lemma PartitionIff<S>(st: Rooms<S>)
    requires Seated(PlanOf(st))
    ensures (forall room :: MembersOf(st, room) == UsersIn(st, room)) <==> Stale(PlanOf(st)) == {}
  {
    forall user: int, room: string
      ensures user in MembersOf(st, room) <==> Seat(user, room) in Seats(st.active)
      ensures user in UsersIn(st, room) <==> Seat(user, room) in CurrentSeats(st.current)
    {
    }
    if Stale(PlanOf(st)) == {} {
      forall room ensures MembersOf(st, room) == UsersIn(st, room) {
        forall user ensures user in MembersOf(st, room) <==> user in UsersIn(st, room) {
          assert Seat(user, room) !in Stale(PlanOf(st));
        }
      }
    } else {
      var seat :| seat in Stale(PlanOf(st));
      assert seat.user in MembersOf(st, seat.room) && seat.user !in UsersIn(st, seat.room);
    }
  }

  // ----- counting -----

  /** The members of all active rooms, room by room. */
  ghost function TotalMembers<S>(active: Active<S>): nat
    decreases |active|
  {
    if active.Keys == {} then 0 else
    var room := Pick(active.Keys);
    |active[room].members| + TotalMembers(active - {room})
  }

  lemma {:induction false} SeatsOfRoom(room: string, users: set<int>)
    ensures |set user | user in users :: Seat(user, room)| == |users|
    decreases |users|
  {
    if users != {} {
      var user := Pick(users);
      SeatsOfRoom(room, users - {user});
      assert (set u | u in users :: Seat(u, room)) == (set u | u in users - {user} :: Seat(u, room)) + {Seat(user, room)};
    }
  }

  /** The seats of one room, apart from those of all others. */
  lemma SplitRoom<S>(active: Active<S>, room: string)
    requires room in active
    ensures |OccupiedSeats(active)| == |active[room].members| + |OccupiedSeats(active - {room})|
  {
    var users := active[room].members.Keys;
    var here := set user | user in users :: Seat(user, room);
    var elsewhere := OccupiedSeats(active - {room});
    SeatsOfRoom(room, users);
    forall seat ensures seat in here <==> seat.room == room && seat.user in users {
      assert seat == Seat(seat.user, seat.room);
    }
    assert OccupiedSeats(active) == elsewhere + here && elsewhere !! here;
  }

  lemma {:induction false} SeatsCount<S>(active: Active<S>)
    ensures TotalMembers(active) == |OccupiedSeats(active)|
    decreases |active|
  {
    if active.Keys == {} {
      assert OccupiedSeats(active) == {};
    } else {
      var room := Pick(active.Keys);
      SeatsCount(active - {room});
      SplitRoom(active, room);
    }
  }

  lemma {:induction false} CurrentSeatsCount(current: map<int, string>)
    ensures |CurrentSeats(current)| == |current|
    decreases |current|
  {
    if current.Keys == {} {
      assert CurrentSeats(current) == {};
    } else {
      var user := Pick(current.Keys);
      var rest := current - {user};
      CurrentSeatsCount(rest);
      assert current.Keys == rest.Keys + {user};
      assert CurrentSeats(current) == CurrentSeats(rest) + {Seat(user, current[user])};
    }
  }

  /** The member counts of all active rooms add up to the users in a room and the stale seats. */
  lemma Counting<S>(st: Rooms<S>)
    requires Seated(PlanOf(st))
    ensures TotalMembers(st.active) == |st.current| + |Stale(PlanOf(st))|
  {
    SeatsCount(st.active);
    CurrentSeatsCount(st.current);
    SeatedSplit(st);
  }

  lemma SeatedSplit<S>(st: Rooms<S>)
    requires Seated(PlanOf(st))
    ensures |OccupiedSeats(st.active)| == |CurrentSeats(st.current)| + |Stale(PlanOf(st))|
  {
    assert PlanOf(st).seats.Keys == OccupiedSeats(st.active);
    assert OccupiedSeats(st.active) == CurrentSeats(st.current) + Stale(PlanOf(st));
  }

  // ----- no room is kept without members -----

  ghost predicate NoneEmpty<S>(active: Active<S>) {
    forall room :: room in active ==> active[room].members != map[]
  }
}
