/** The history of a room: the latest messages, put into the order of their times. */
module History {
  import opened Wrappers
  import opened MessageRepository
  import opened RoomProtocol
  import opened RoomService
  import opened Session

  function Reverse<T>(s: seq<T>): (r: seq<T>)
    ensures |r| == |s|
  {
    if s == [] then [] else Reverse(s[1..]) + [s[0]]
  }

  lemma {:induction false} ReverseAt<T>(s: seq<T>, i: nat)
    requires i < |s|
    ensures Reverse(s)[i] == s[|s| - 1 - i]
  {
    if i < |s| - 1 {
      ReverseAt(s[1..], i);
    }
  }

  lemma {:induction false} ReverseConcat<T>(a: seq<T>, b: seq<T>)
    ensures Reverse(a + b) == Reverse(b) + Reverse(a)
  {
    if a == [] {
      assert a + b == b;
    } else {
      ReverseConcat(a[1..], b);
      assert (a + b)[1..] == a[1..] + b;
    }
  }

  function Times(rows: seq<MessageRow>): (times: seq<Time>)
    ensures |times| == |rows|
  {
    if rows == [] then [] else [rows[0].createdAt] + Times(rows[1..])
  }

  lemma {:induction false} TimesAt(rows: seq<MessageRow>, i: nat)
    requires i < |rows|
    ensures Times(rows)[i] == rows[i].createdAt
  {
    if i > 0 {
      TimesAt(rows[1..], i - 1);
    }
  }

  lemma {:induction false} ReverseKeepsRows<T>(s: seq<T>)
    ensures multiset(Reverse(s)) == multiset(s)
  {
    if s != [] {
      ReverseKeepsRows(s[1..]);
      assert s == [s[0]] + s[1..];
    }
  }

  /** Rearranging rows rearranges their times. */
  lemma {:induction false} TimesOfPermutation(a: seq<MessageRow>, b: seq<MessageRow>)
    requires multiset(a) == multiset(b)
    ensures multiset(Times(a)) == multiset(Times(b))
    decreases |a|
  {
    if a == [] {
      assert |multiset(b)| == 0;
    } else {
      assert a[0] in multiset(b);
      var k :| 0 <= k < |b| && b[k] == a[0];
      assert Without(a, 0) == a[1..];
      WithoutOne(a, 0);
      WithoutOne(b, k);
      TimesOfPermutation(a[1..], Without(b, k));
      TimesSplit(a, 0);
      TimesSplit(b, k);
    }
  }

  lemma TimesConcat(a: seq<MessageRow>, b: seq<MessageRow>)
    ensures Times(a + b) == Times(a) + Times(b)
  {
    forall i | 0 <= i < |a + b| ensures Times(a + b)[i] == (Times(a) + Times(b))[i] {
      TimesAt(a + b, i);
      if i < |a| {
        TimesAt(a, i);
      } else {
        TimesAt(b, i - |a|);
      }
    }
  }

  /** Taking one row out takes its time out. */
  lemma TimesSplit(b: seq<MessageRow>, k: nat)
    requires k < |b|
    ensures multiset(Times(b)) == multiset(Times(Without(b, k))) + multiset{b[k].createdAt}
  {
    TimesConcat(b[..k], b[k..]);
    assert b == b[..k] + b[k..];
    TimesConcat(b[..k], b[k + 1..]);
    assert Times(b[k..]) == [b[k].createdAt] + Times(b[k + 1..]) by {
      assert b[k..][1..] == b[k + 1..];
    }
  }

  ghost predicate Sorted(times: seq<Time>) {
    forall i, j :: 0 <= i < j < |times| ==> NotLater(times[i], times[j])
  }

  lemma LastOff<T>(s: seq<T>)
    requires s != []
    ensures var n := |s| - 1; multiset(s[..n]) == multiset(s) - multiset{s[n]} && s == s[..n] + [s[n]]
  {
    assert s == s[..|s| - 1] + [s[|s| - 1]];
  }

  lemma SameLast(a: seq<Time>, b: seq<Time>)
    requires Sorted(a) && Sorted(b) && multiset(a) == multiset(b) && a != []
    ensures |a| == |b| && a[|a| - 1] == b[|b| - 1]
  {
    assert |multiset(a)| == |multiset(b)|;
    assert a[|a| - 1] in multiset(b) && b[|b| - 1] in multiset(a);
  }

  /** There is only one way to sort times. */
  lemma {:induction false} SortedUnique(a: seq<Time>, b: seq<Time>)
    requires Sorted(a) && Sorted(b) && multiset(a) == multiset(b)
    ensures a == b
    decreases |a|
  {
    if a == [] {
      assert |multiset(b)| == 0;
    } else {
      SameLast(a, b);
      LastOff(a);
      LastOff(b);
      SortedUnique(a[..|a| - 1], b[..|b| - 1]);
    }
  }

  /** The reversed answer is the end of the reversed whole order. */
  lemma ReverseOfPrefix<T>(answer: seq<T>, rest: seq<T>)
    ensures Reverse(answer) == Reverse(answer + rest)[|rest|..]
  {
    ReverseConcat(answer, rest);
  }

  lemma ReverseAscends(order: seq<MessageRow>)
    requires Descending(order)
    ensures Ascending(Reverse(order))
  {
    var r := Reverse(order);
    forall i, j | 0 <= i < j < |r| ensures NotLater(r[i].createdAt, r[j].createdAt) {
      ReverseAt(order, i);
      ReverseAt(order, j);
    }
  }

  lemma TimesSorted(rows: seq<MessageRow>)
    requires Ascending(rows)
    ensures Sorted(Times(rows))
  {
    forall i, j | 0 <= i < j < |rows| ensures NotLater(Times(rows)[i], Times(rows)[j]) {
      TimesAt(rows, i);
      TimesAt(rows, j);
    }
  }

  /** All rows of a room in the order of their times have, place by place, the same times, however the database orders ties. */
  lemma SameTimes(a: seq<MessageRow>, b: seq<MessageRow>)
    requires multiset(a) == multiset(b) && Ascending(a) && Ascending(b)
    ensures Times(a) == Times(b)
  {
    TimesOfPermutation(a, b);
    TimesSorted(a);
    TimesSorted(b);
    SortedUnique(Times(a), Times(b));
  }

  ghost predicate DistinctTimes(rows: seq<MessageRow>) {
    forall r, q :: r in rows && q in rows && r.createdAt == q.createdAt ==> r == q
  }

  /** With different times, the order is unique. */
  lemma SameRows(a: seq<MessageRow>, b: seq<MessageRow>)
    requires multiset(a) == multiset(b) && Times(a) == Times(b) && DistinctTimes(a)
    ensures a == b
  {
    assert |Times(a)| == |Times(b)|;
    forall i | 0 <= i < |a| ensures a[i] == b[i] {
      assert b[i] in multiset(a);
      TimesAt(a, i);
      TimesAt(b, i);
    }
  }

  /** A whole descending order, reversed, is what the full query answers, up to ties. */
  lemma ReversedOrder(rows: seq<MessageRow>, order: seq<MessageRow>, all: seq<MessageRow>)
    requires multiset(order) == multiset(rows) == multiset(all) && Descending(order) && Ascending(all)
    ensures |order| == |rows| == |all|
    ensures Times(Reverse(order)) == Times(all)
    ensures DistinctTimes(rows) ==> Reverse(order) == all
  {
    assert |multiset(order)| == |multiset(rows)| == |multiset(all)|;
    ReverseKeepsRows(order);
    ReverseAscends(order);
    SameTimes(Reverse(order), all);
    if DistinctTimes(rows) {
      forall r | r in Reverse(order) ensures r in rows {
        assert r in multiset(Reverse(order));
      }
      SameRows(Reverse(order), all);
    }
  }

  lemma TimesOfSuffix(rows: seq<MessageRow>, k: nat)
    requires k <= |rows|
    ensures Times(rows[k..]) == Times(rows)[k..]
  {
    TimesConcat(rows[..k], rows[k..]);
    assert rows == rows[..k] + rows[k..];
  }

  lemma SuffixOfOrder(rows: seq<MessageRow>, latest: seq<MessageRow>, rest: seq<MessageRow>, all: seq<MessageRow>)
    requires multiset(latest + rest) == multiset(rows) == multiset(all)
    requires Descending(latest + rest) && Ascending(all)
    ensures |all| == |rows| == |latest| + |rest|
    ensures Times(Reverse(latest)) == Times(all)[|rest|..]
    ensures DistinctTimes(rows) ==> Reverse(latest) == all[|rest|..]
  {
    ReversedOrder(rows, latest + rest, all);
    ReverseOfPrefix(latest, rest);
    TimesOfSuffix(Reverse(latest + rest), |rest|);
  }

  /**
   The reversed latest messages are the newest end of the room: as many as asked for or as there are, with
   the times of the last rows of the full query, and with different times these very rows.
   */
  lemma NewestSuffix(table: seq<MessageRow>, room: int, limit: nat, latest: seq<MessageRow>, all: seq<MessageRow>)
    requires AnswersLatest(table, room, limit, latest) && AnswersAll(table, room, all)
    ensures var count := |InRoom(table, room)|; |latest| == if limit <= count then limit else count
    ensures |latest| <= |all| && Times(Reverse(latest)) == Times(all)[|all| - |latest|..]
    ensures DistinctTimes(InRoom(table, room)) ==> Reverse(latest) == all[|all| - |latest|..]
  {
    var order :| AnswersLatestFrom(table, room, limit, latest, order);
    var m := Min(limit, |order|);
    assert order[..m] + order[m..] == order;
    SuffixOfOrder(InRoom(table, room), order[..m], order[m..], all);
  }

  /**
   The answer is stored rows of the room, none more often than it is stored, and no stored row of the room that it
   leaves out is later than one included.
   */
  lemma NothingNewerOmitted(table: seq<MessageRow>, room: int, limit: nat, latest: seq<MessageRow>)
    requires AnswersLatest(table, room, limit, latest)
    ensures forall r :: r in latest ==> r in table && r.roomId == room
    ensures multiset(latest) <= multiset(InRoom(table, room)) && multiset(latest) <= multiset(table)
    ensures forall left: MessageRow, kept: MessageRow ::
              left in multiset(table) - multiset(latest) && left.roomId == room && kept in latest ==>
              left.createdAt.None? || (kept.createdAt.Some? && left.createdAt.value <= kept.createdAt.value)
  {
    var order :| AnswersLatestFrom(table, room, limit, latest, order);
    var rest := order[|latest|..];
    assert order == latest + rest;
    assert multiset(InRoom(table, room)) == multiset(latest) + multiset(rest);
    forall r: MessageRow
      ensures multiset(InRoom(table, room))[r] == if r.roomId == room then multiset(table)[r] else 0
    {
      InRoomIsSelection(table, room, r);
    }
    forall r | r in latest ensures r in table && r.roomId == room {
      assert r in multiset(InRoom(table, room));
    }
    forall left: MessageRow, kept: MessageRow | left in multiset(table) - multiset(latest) && left.roomId == room && kept in latest
      ensures NotLater(left.createdAt, kept.createdAt)
    {
      assert left in multiset(rest);
      RestIsEarlier(order, |latest|, left, kept);
    }
  }

  lemma RestIsEarlier(order: seq<MessageRow>, m: nat, left: MessageRow, kept: MessageRow)
    requires m <= |order| && Descending(order)
    requires left in order[m..] && kept in order[..m]
    ensures NotLater(left.createdAt, kept.createdAt)
  {
  }

  // ----- what the reply shows -----

  /** The messages of a reply: the fetched rows, oldest first. */
  function Shown(answer: seq<MessageRow>, clock: nat -> int): (messages: seq<Message>)
    ensures |messages| == |answer|
  {
    Reverse(FetchedAll(answer, clock))
  }

  lemma ShownAt(answer: seq<MessageRow>, clock: nat -> int, i: nat)
    requires i < |answer|
    ensures var k := |answer| - 1 - i; Shown(answer, clock)[i] == Fetched(answer[k], clock(k))
  {
    ReverseAt(FetchedAll(answer, clock), i);
    FetchedAt(answer, clock, |answer| - 1 - i);
  }

  ghost predicate TimesAscend(messages: seq<Message>) {
    forall i, j :: 0 <= i < j < |messages| ==> messages[i].createdAt <= messages[j].createdAt
  }

  /** Time does not go back while the rows are fetched. */
  ghost predicate ClockAscends(clock: nat -> int) {
    forall i: nat, j: nat :: i <= j ==> clock(i) <= clock(j)
  }

  /** How many rows come before the last ones, those without a time. */
  function Dated(answer: seq<MessageRow>): (k: nat)
    ensures k <= |answer|
  {
    if answer == [] then 0
    else if answer[|answer| - 1].createdAt.Some? then |answer|
    else Dated(answer[..|answer| - 1])
  }

  lemma {:induction false} DatedSplits(answer: seq<MessageRow>)
    requires Descending(answer)
    ensures forall i :: 0 <= i < |answer| ==> (answer[i].createdAt.Some? <==> i < Dated(answer))
  {
    if answer != [] {
      var n := |answer| - 1;
      if answer[n].createdAt.None? {
        DatedSplits(answer[..n]);
        assert forall i :: 0 <= i < n ==> answer[..n][i] == answer[i];
      } else {
        forall i | 0 <= i < n ensures answer[i].createdAt.Some? {
          assert NotLater(answer[n].createdAt, answer[i].createdAt);
        }
      }
    }
  }

  /**
   Rows without a time do not disturb the order of the reply: there is none, or the clock stood still while they
   were fetched and no message with a time is older than that fetch.
   */
  predicate UndatedFit(answer: seq<MessageRow>, clock: nat -> int) {
    var n, k := |answer|, Dated(answer);
    k < n ==>
      && clock(k) == clock(n - 1)
      && (k > 0 ==> answer[k - 1].createdAt.Some? && clock(k) <= answer[k - 1].createdAt.value)
  }

  lemma FittingAscend(answer: seq<MessageRow>, clock: nat -> int)
    requires Descending(answer) && ClockAscends(clock) && UndatedFit(answer, clock)
    ensures TimesAscend(Shown(answer, clock))
  {
    var n, k := |answer|, Dated(answer);
    DatedSplits(answer);
    forall i, j | 0 <= i < j < n ensures Shown(answer, clock)[i].createdAt <= Shown(answer, clock)[j].createdAt {
      ShownAt(answer, clock, i);
      ShownAt(answer, clock, j);
      var early, late := n - 1 - i, n - 1 - j;
      assert NotLater(answer[early].createdAt, answer[late].createdAt);
      if early >= k {
        assert clock(k) <= clock(early) <= clock(n - 1);
        if late + 1 < k {
          assert NotLater(answer[k - 1].createdAt, answer[late].createdAt);
        }
      }
    }
  }

  lemma AscendingFit(answer: seq<MessageRow>, clock: nat -> int)
    requires Descending(answer) && ClockAscends(clock) && TimesAscend(Shown(answer, clock))
    ensures UndatedFit(answer, clock)
  {
    var n, k := |answer|, Dated(answer);
    DatedSplits(answer);
    if k < n {
      ShownAt(answer, clock, 0);
      ShownAt(answer, clock, n - 1 - k);
      assert clock(k) <= clock(n - 1);
      if k > 0 {
        ShownAt(answer, clock, n - k);
      }
    }
  }

  /** When the times that a reply shows never go back. */
  lemma ShownTimesAscendIff(answer: seq<MessageRow>, clock: nat -> int)
    requires Descending(answer) && ClockAscends(clock)
    ensures TimesAscend(Shown(answer, clock)) <==> UndatedFit(answer, clock)
  {
    if UndatedFit(answer, clock) {
      FittingAscend(answer, clock);
    }
    if TimesAscend(Shown(answer, clock)) {
      AscendingFit(answer, clock);
    }
  }

  /** Two messages without a time are shown with times that go back whenever the clock ticks between their fetches. */
  lemma UndatedMessagesGoBack(a: MessageRow, b: MessageRow, clock: nat -> int)
    requires a.createdAt.None? && b.createdAt.None? && clock(0) < clock(1)
    ensures Descending([a, b]) && !TimesAscend(Shown([a, b], clock))
  {
    ShownAt([a, b], clock, 0);
    ShownAt([a, b], clock, 1);
    assert Shown([a, b], clock)[0].createdAt > Shown([a, b], clock)[1].createdAt;
  }

  ghost predicate AllDated(rows: seq<MessageRow>) {
    forall r :: r in rows ==> r.createdAt.Some?
  }

  /** The shown line of a message; an unknown sender has no name. */
  function Line(message: Message, names: int -> Option<string>): HistoryMessage {
    var name := names(message.senderId);
    HistoryMessage(message.senderId, if name.Some? then name.value else "Unknown", message.content, message.createdAt)
  }

  function Lines(messages: seq<Message>, names: int -> Option<string>): (lines: seq<HistoryMessage>)
    ensures |lines| == |messages|
  {
    if messages == [] then [] else
    var n := |messages| - 1;
    Lines(messages[..n], names) + [Line(messages[n], names)]
  }

  lemma {:induction false} LinesAt(messages: seq<Message>, names: int -> Option<string>, i: nat)
    requires i < |messages|
    ensures Lines(messages, names)[i] == Line(messages[i], names)
  {
    if i < |messages| - 1 {
      LinesAt(messages[..|messages| - 1], names, i);
    }
  }

  method BuildLines(messages: seq<Message>, names: int -> Option<string>) returns (lines: seq<HistoryMessage>)
    ensures lines == Lines(messages, names)
  {
    lines := [];
    for i := 0 to |messages|
      invariant lines == Lines(messages[..i], names)
    {
      assert messages[..i + 1][..i] == messages[..i];
      lines := lines + [Line(messages[i], names)];
    }
    assert messages[..|messages|] == messages;
  }

  const DEFAULT_LIMIT := 50

  function Limit(requested: int): nat {
    if requested > 0 then requested else DEFAULT_LIMIT
  }

  /** Only a user whose current room it is may see the history of a room. */
  predicate MaySee(service: RoomService, session: Session, room: string)
    requires session.Valid()
    reads service, session
  {
    && session.authenticated
    && session.userId.value in service.userToRoomMap
    && service.userToRoomMap[session.userId.value] == room
  }

  /** The lines of a reply. */
  function Reply(answer: seq<MessageRow>, clock: nat -> int, names: int -> Option<string>): (lines: seq<HistoryMessage>)
    ensures |lines| == |answer|
  {
    Lines(Shown(answer, clock), names)
  }

  /** The lines show the times of the rows, and are their lines. */
  ghost predicate SameTimesShown(lines: seq<HistoryMessage>, rows: seq<MessageRow>) {
    |lines| == |rows| && forall i :: 0 <= i < |rows| ==> Some(lines[i].createdAt) == rows[i].createdAt
  }

  /** The lines show sender, text and time of the rows; a sender without a stored name is "Unknown". */
  ghost predicate LinesOf(lines: seq<HistoryMessage>, rows: seq<MessageRow>, names: int -> Option<string>) {
    && |lines| == |rows|
    && forall i :: 0 <= i < |rows| ==>
         && lines[i].senderId == rows[i].senderId && lines[i].text == rows[i].content
         && lines[i].senderName == (match names(rows[i].senderId) case Some(name) => name case None => "Unknown")
         && Some(lines[i].createdAt) == rows[i].createdAt
  }

  /**
   The reply has as many lines as asked for, 50 by default, or as the room has messages. If these all have a time,
   the lines have, in their order, the times of the newest end of the full query, whatever the clock says; and with
   different times they are the lines of these very messages.
   */
  lemma ReplyIsNewestEnd(table: seq<MessageRow>, room: int, requested: int, answer: seq<MessageRow>,
                         all: seq<MessageRow>, clock: nat -> int, names: int -> Option<string>)
    requires AnswersLatest(table, room, Limit(requested), answer) && AnswersAll(table, room, all)
    ensures var wanted, count := if requested > 0 then requested else 50, |InRoom(table, room)|;
            |Reply(answer, clock, names)| == (if wanted <= count then wanted else count) <= |all|
    ensures AllDated(all) ==>
              var lines := Reply(answer, clock, names);
              var end := all[|all| - |lines|..];
              SameTimesShown(lines, end) && (DistinctTimes(InRoom(table, room)) ==> LinesOf(lines, end, names))
  {
    NewestSuffix(table, room, Limit(requested), answer, all);
    if AllDated(all) {
      var off := |all| - |answer|;
      TimesOfSuffix(all, off);
      LinesOfEnd(answer, all[off..], clock, names);
    }
  }

  /** The lines of an answer whose reverse has the times of the given rows, or is these rows. */
  lemma LinesOfEnd(answer: seq<MessageRow>, end: seq<MessageRow>, clock: nat -> int, names: int -> Option<string>)
    requires |answer| == |end| && Times(Reverse(answer)) == Times(end) && AllDated(end)
    ensures SameTimesShown(Reply(answer, clock, names), end)
    ensures Reverse(answer) == end ==> LinesOf(Reply(answer, clock, names), end, names)
  {
    forall i | 0 <= i < |end|
      ensures Some(Reply(answer, clock, names)[i].createdAt) == end[i].createdAt
    {
      TimesAt(Reverse(answer), i);
      TimesAt(end, i);
      ReplyLineAt(answer, clock, names, i);
    }
    if Reverse(answer) == end {
      forall i | 0 <= i < |end|
        ensures var line := Reply(answer, clock, names)[i];
                && line.senderId == end[i].senderId && line.text == end[i].content
                && line.senderName == (match names(end[i].senderId) case Some(name) => name case None => "Unknown")
      {
        ReplyLineAt(answer, clock, names, i);
      }
    }
  }

  /** What the line for a row shows: its sender, the stored name of that sender, its text, and its time or that of its fetch. */
  lemma ReplyLineAt(answer: seq<MessageRow>, clock: nat -> int, names: int -> Option<string>, i: nat)
    requires i < |answer|
    ensures var k := |answer| - 1 - i;
            var line, row := Reply(answer, clock, names)[i], answer[k];
            && row == Reverse(answer)[i]
            && line.senderId == row.senderId && line.text == row.content
            && line.senderName == (match names(row.senderId) case Some(name) => name case None => "Unknown")
            && line.createdAt == (match row.createdAt case Some(time) => time case None => clock(k))
  {
    LinesAt(Shown(answer, clock), names, i);
    ShownAt(answer, clock, i);
    ReverseAt(answer, i);
  }

  /** The lines of a reply about messages that all have a time never go back in time. */
  lemma ReplyAscends(table: seq<MessageRow>, room: int, requested: int, answer: seq<MessageRow>,
                     clock: nat -> int, names: int -> Option<string>)
    requires AnswersLatest(table, room, Limit(requested), answer) && AllDated(InRoom(table, room))
    ensures var lines := Reply(answer, clock, names);
            forall i, j :: 0 <= i < j < |lines| ==> lines[i].createdAt <= lines[j].createdAt
  {
    NothingNewerOmitted(table, room, Limit(requested), answer);
    forall r | r in answer ensures r.createdAt.Some? {
      assert r in multiset(InRoom(table, room));
    }
    forall i, j | 0 <= i < j < |answer|
      ensures Reply(answer, clock, names)[i].createdAt <= Reply(answer, clock, names)[j].createdAt
    {
      LinesAt(Shown(answer, clock), names, i);
      LinesAt(Shown(answer, clock), names, j);
      ShownAt(answer, clock, i);
      ShownAt(answer, clock, j);
    }
  }

  /**
   A history request: the rows that the database answers for the latest messages of the user's room, oldest
   first. Anybody else gets no reply at all.
   */
  method HandleHistoryRequest(service: RoomService, session: Session, room: string, requested: int,
                              table: seq<MessageRow>, answer: seq<MessageRow>, names: int -> Option<string>,
                              clock: nat -> int, failed: bool)
    requires session.Valid()
    requires MaySee(service, session, room) ==>
               AnswersLatest(table, CurrentRoomId(service.State(), session.userId.value), Limit(requested), answer)
    modifies session`outbox
    ensures !old(MaySee(service, session, room)) ==> session.outbox == old(session.outbox)
    ensures old(MaySee(service, session, room)) ==>
              session.outbox == old(session.outbox)
                + [HistoryMessageResponse(room, if failed then [] else Reply(answer, clock, names))]
  {
    if !session.authenticated {
      return;
    }
    var userId := session.userId.value;
    if userId !in service.userToRoomMap || service.userToRoomMap[userId] != room {
      return;
    }
    var fetched := Fetch(answer, clock, failed);
    var messages := Reverse(fetched);
    var lines := BuildLines(messages, names);
    session.Send(HistoryMessageResponse(room, lines));
  }
}
