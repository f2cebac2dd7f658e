/**
 The messages table and the two queries for a room's messages. The database answers a query with any
 sequence that the query admits: rows of equal times may come in any order, and a missing time counts
 as earlier than every other.
 */
module MessageRepository {
  import opened Wrappers

  datatype MessageRow = MessageRow(id: int, roomId: int, senderId: int, content: string, createdAt: Option<int>)

  datatype Message = Message(id: int, roomId: int, senderId: int, content: string, createdAt: int)

  type Time = Option<int>

  predicate NotLater(a: Time, b: Time) {
    a.None? || (b.Some? && a.value <= b.value)
  }

  function InRoom(table: seq<MessageRow>, room: int): seq<MessageRow> {
    if table == [] then []
    else (if table[0].roomId == room then [table[0]] else []) + InRoom(table[1..], room)
  }

  /** The rows of the room are exactly the stored rows with its id, each as often as it is stored. */
  lemma {:induction false} InRoomIsSelection(table: seq<MessageRow>, room: int, row: MessageRow)
    ensures multiset(InRoom(table, room))[row] == if row.roomId == room then multiset(table)[row] else 0
    decreases |table|
  {
    if table != [] {
      InRoomIsSelection(table[1..], room, row);
      assert table == [table[0]] + table[1..];
    }
  }

  ghost predicate Ascending(rows: seq<MessageRow>) {
    forall i, j :: 0 <= i < j < |rows| ==> NotLater(rows[i].createdAt, rows[j].createdAt)
  }

  ghost predicate Descending(rows: seq<MessageRow>) {
    forall i, j :: 0 <= i < j < |rows| ==> NotLater(rows[j].createdAt, rows[i].createdAt)
  }

  /** SELECT ... WHERE room_id = room ORDER BY created_at ASC */
  ghost predicate AnswersAll(table: seq<MessageRow>, room: int, answer: seq<MessageRow>) {
    multiset(answer) == multiset(InRoom(table, room)) && Ascending(answer)
  }

  function Min(a: nat, b: nat): nat {
    if a < b then a else b
  }

  /** SELECT ... WHERE room_id = room ORDER BY created_at DESC LIMIT limit, cut off from the given whole order */
  ghost predicate AnswersLatestFrom(table: seq<MessageRow>, room: int, limit: nat,
                                    answer: seq<MessageRow>, order: seq<MessageRow>) {
    && multiset(order) == multiset(InRoom(table, room)) && Descending(order)
    && answer == order[..Min(limit, |order|)]
  }

  ghost predicate AnswersLatest(table: seq<MessageRow>, room: int, limit: nat, answer: seq<MessageRow>) {
    exists order :: AnswersLatestFrom(table, room, limit, answer, order)
  }

  /** A fetched row; a missing time is replaced by the time of the fetch. */
  function Fetched(row: MessageRow, now: int): Message {
    Message(row.id, row.roomId, row.senderId, row.content, if row.createdAt.Some? then row.createdAt.value else now)
  }

  class MessageRepository {
    var rows: seq<MessageRow>

    constructor ()
      ensures rows == []
    {
      rows := [];
    }

    /** Adds a message; the caller ignores whether that was possible. */
    method AddMessage(row: MessageRow, stored: bool) returns (added: bool)
      modifies this
      ensures rows == if stored then old(rows) + [row] else old(rows)
      ensures added == stored
    {
      if stored {
        rows := rows + [row];
      }
      added := stored;
    }
  }

  /** The fetched rows in the order of the fetch; `clock(i)` is the time at which the row at i is fetched. */
  function FetchedAll(rows: seq<MessageRow>, clock: nat -> int): (messages: seq<Message>)
    ensures |messages| == |rows|
  {
    if rows == [] then [] else
    var n := |rows| - 1;
    FetchedAll(rows[..n], clock) + [Fetched(rows[n], clock(n))]
  }

  lemma {:induction false} FetchedAt(rows: seq<MessageRow>, clock: nat -> int, i: nat)
    requires i < |rows|
    ensures FetchedAll(rows, clock)[i] == Fetched(rows[i], clock(i))
  {
    if i < |rows| - 1 {
      FetchedAt(rows[..|rows| - 1], clock, i);
    }
  }

  /** The result loop of both queries; an error empties the result. */
  method Fetch(answer: seq<MessageRow>, clock: nat -> int, failed: bool) returns (messages: seq<Message>)
    ensures messages == if failed then [] else FetchedAll(answer, clock)
  {
    messages := [];
    var next := 0;
    while next < |answer|
      invariant 0 <= next <= |answer|
      invariant messages == FetchedAll(answer[..next], clock)
    {
      assert answer[..next + 1][..next] == answer[..next];
      messages := messages + [Fetched(answer[next], clock(next))];
      next := next + 1;
    }
    assert answer[..next] == answer;
    if failed {
      messages := [];
    }
  }
}
