/**
 The reads of a public message. Its handler asks for the sender's room name for the label, for the room id under
 which the message is stored, for the room name to broadcast to, and for the members of that room, each under a
 lock of its own. Any handlers take steps in between, other ones of the sender included.
 */
module MessageReads {
  import opened Wrappers
  import opened RoomState
  import opened RoomTable
  import opened RoomProtocol

  /** The rooms at the four reads. */
  ghost predicate Consistent<S>(canon: Collation, atLabel: World<S>, atStore: World<S>, atTarget: World<S>,
                                atSnapshot: World<S>, user: int)
  {
    var name := CurrentRoomName(atLabel.rooms, user);
    var row := Lookup(canon, atStore.table, name);
    && row.Some? && CurrentRoomId(atStore.rooms, user) == row.value.id   // stored in the room of the label,
    && CurrentRoomName(atTarget.rooms, user) == name                    // sent to the room of the label,
    && user in MembersOf(atSnapshot.rooms, name)                        // and the sender is among its members
  }

  // ----- what the sender's own commits say -----

  /** The sender's room, and whether the sender has a seat in the labelled room, current or stale. */
  datatype Sender = Sender(room: Option<string>, seated: bool)

  function SenderAfter<S>(sender: Sender, event: Event<S>, user: int, name: string): Sender {
    if event.user != user then sender else
    match event
    case Joined(_, _, room) => Sender(Some(room), room == name || (sender.seated && sender.room != Some(name)))
    case Left(_, room) => if sender.room == Some(room) then Sender(None, sender.seated && room != name) else sender
    case Created(_, _, room) => Sender(Some(room), room == name || sender.seated)
    case Disconnected(_) => Sender(None, sender.seated && sender.room != Some(name))
  }

  function SenderAfterAll<S>(sender: Sender, events: seq<Event<S>>, user: int, name: string): Sender {
    if events == [] then sender else
    var n := |events| - 1;
    SenderAfter(SenderAfterAll(sender, events[..n], user, name), events[n], user, name)
  }

  ghost predicate Tracks<S>(sender: Sender, plan: Plan<S>, user: int, name: string) {
    && sender.room == (if user in plan.current then Some(plan.current[user]) else None)
    && (sender.seated <==> Seat(user, name) in plan.seats)
  }

  lemma EventTracks<S>(sender: Sender, plan: Plan<S>, event: Event<S>, user: int, name: string)
    requires Tracks(sender, plan, user, name)
    ensures Tracks(SenderAfter(sender, event, user, name), Apply(plan, event), user, name)
  {
  }

  lemma {:induction false} EventsTrack<S>(sender: Sender, plan: Plan<S>, events: seq<Event<S>>, user: int, name: string)
    requires Tracks(sender, plan, user, name)
    ensures Tracks(SenderAfterAll(sender, events, user, name), ApplyAll(plan, events), user, name)
    decreases |events|
  {
    if events != [] {
      var n := |events| - 1;
      EventsTrack(sender, plan, events[..n], user, name);
      EventTracks(SenderAfterAll(sender, events[..n], user, name), ApplyAll(plan, events[..n]), events[n], user, name);
    }
  }

  /** The sender after the commits of a run. */
  ghost function SenderAfterRun<S>(canon: Collation, sender: Sender, w: World<S>, steps: seq<Step<S>>,
                                   user: int, name: string): Sender
  {
    SenderAfterAll(sender, Log(canon, w, steps), user, name)
  }

  lemma RunTracks<S>(canon: Collation, sender: Sender, w: World<S>, steps: seq<Step<S>>, user: int, name: string)
    requires Tracks(sender, PlanOf(w.rooms), user, name)
    ensures Tracks(SenderAfterRun(canon, sender, w, steps, user, name), PlanOf(Run(canon, w, steps).rooms), user, name)
  {
    RunRefines(canon, w, steps);
    EventsTrack(sender, PlanOf(w.rooms), Log(canon, w, steps), user, name);
  }

  lemma SeatIsMember<S>(st: Rooms<S>, user: int, room: string)
    ensures Seat(user, room) in PlanOf(st).seats <==> user in MembersOf(st, room)
  {
    assert Seat(user, room) in PlanOf(st).seats <==> Occupied(st.active, Seat(user, room));
  }

  lemma StartTracks<S>(st: Rooms<S>, user: int)
    requires Seated(PlanOf(st)) && user in st.current
    ensures Tracks(Sender(Some(st.current[user]), true), PlanOf(st), user, st.current[user])
  {
    assert Seat(user, st.current[user]) in CurrentSeats(st.current);
  }

  /** The keys that the database gives out are not 0. */
  ghost predicate NonzeroKeys(table: seq<Row>) {
    forall row :: row in table ==> row.id != 0
  }

  /**
   Whatever happens between its reads, a public message is consistent if and only if the sender's own commits left
   the sender, at the store, in a room that the database takes for the labelled one, at the second reading of the
   name in the labelled room itself, and at the snapshot still with a seat in it. Commits of others do not matter.
   */
  lemma ConsistentIff<S>(canon: Collation, w: World<S>, first: seq<Step<S>>, second: seq<Step<S>>, third: seq<Step<S>>,
                         user: int)
    requires Inv(canon, w) && NonzeroKeys(w.table)
    requires user in w.rooms.current && w.rooms.current[user] != ""
    ensures var name := w.rooms.current[user];
            var atStore := Run(canon, w, first);
            var atTarget := Run(canon, atStore, second);
            var stored := SenderAfterRun(canon, Sender(Some(name), true), w, first, user, name);
            var sent := SenderAfterRun(canon, stored, atStore, second, user, name);
            var counted := SenderAfterRun(canon, sent, atTarget, third, user, name);
            Consistent(canon, w, atStore, atTarget, Run(canon, atTarget, third), user)
            <==> && stored.room.Some? && canon(stored.room.value) == canon(name)
                 && sent.room == Some(name)
                 && counted.seated
  {
    var name := w.rooms.current[user];
    var atStore := Run(canon, w, first);
    var atTarget := Run(canon, atStore, second);
    var atSnapshot := Run(canon, atTarget, third);
    var start := Sender(Some(name), true);
    StartTracks(w.rooms, user);
    RunTracks(canon, start, w, first, user, name);
    var stored := SenderAfterRun(canon, start, w, first, user, name);
    RunTracks(canon, stored, atStore, second, user, name);
    var sent := SenderAfterRun(canon, stored, atStore, second, user, name);
    RunTracks(canon, sent, atTarget, third, user, name);
    SeatIsMember(atSnapshot.rooms, user, name);
    StoredUnderLabelIff(canon, w, first, user);
    CurrentIdIsRowId(canon, w, user);
    RunKeepsAnswers(canon, w, first, name);
  }

  lemma EventsOfOthers<S>(sender: Sender, log: seq<Event<S>>, w: World<S>, step: Step<S>, user: int, name: string)
    requires Actor(w, step) != Some(user)
    ensures SenderAfterAll(sender, log + Events(w, step), user, name) == SenderAfterAll(sender, log, user, name)
  {
    var more := Events(w, step);
    if more == [] {
      assert log + more == log;
    } else {
      assert (log + more)[..|log|] == log;
    }
  }

  lemma {:induction false} OthersCommitNothing<S>(canon: Collation, sender: Sender, w: World<S>, steps: seq<Step<S>>,
                                                  user: int, name: string)
    requires OnlyOthers(canon, w, steps, user)
    ensures SenderAfterRun(canon, sender, w, steps, user, name) == sender
    decreases |steps|
  {
    if steps != [] {
      var n := |steps| - 1;
      forall i | 0 <= i < n ensures Actor(Run(canon, w, steps[..n][..i]), steps[..n][i]) != Some(user) {
        assert steps[..n][..i] == steps[..i];
      }
      OthersCommitNothing(canon, sender, w, steps[..n], user, name);
      assert Actor(Run(canon, w, steps[..n]), steps[n]) != Some(user);
      EventsOfOthers(sender, Log(canon, w, steps[..n]), Run(canon, w, steps[..n]), steps[n], user, name);
    }
  }

  /** If only others take steps between the reads, a public message is consistent. */
  lemma PublicMessageIsConsistent<S>(canon: Collation, w: World<S>, first: seq<Step<S>>, second: seq<Step<S>>,
                                     third: seq<Step<S>>, user: int)
    requires Inv(canon, w) && user in w.rooms.current
    requires OnlyOthers(canon, w, first, user)
    requires OnlyOthers(canon, Run(canon, w, first), second, user)
    requires OnlyOthers(canon, Run(canon, Run(canon, w, first), second), third, user)
    ensures var atStore := Run(canon, w, first);
            var atTarget := Run(canon, atStore, second);
            Consistent(canon, w, atStore, atTarget, Run(canon, atTarget, third), user)
  {
    var name := w.rooms.current[user];
    var atStore := Run(canon, w, first);
    var atTarget := Run(canon, atStore, second);
    var sender := Sender(Some(name), true);
    StartTracks(w.rooms, user);
    OthersCommitNothing(canon, sender, w, first, user, name);
    RunTracks(canon, sender, w, first, user, name);
    OthersCommitNothing(canon, sender, atStore, second, user, name);
    RunTracks(canon, sender, atStore, second, user, name);
    OthersCommitNothing(canon, sender, atTarget, third, user, name);
    RunTracks(canon, sender, atTarget, third, user, name);
    SeatIsMember(Run(canon, atTarget, third).rooms, user, name);
    StoredUnderLabelIff(canon, w, first, user);
  }
}
