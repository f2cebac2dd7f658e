/** The rooms table behind its repository; the outcome of each database call is a parameter. */
module RoomRepository {
  import opened Wrappers
  import opened RoomState
  import opened RoomTable
  import opened RoomProtocol

  /** How the database reacts while a request is handled. */
  datatype Database = Database(answered: bool, newId: int, outcome: InsertOutcome)

  /** Whether an insert is stored: the keys of the table must admit it. */
  ghost predicate Stored(canon: Collation, table: seq<Row>, row: Row, db: Database) {
    !db.outcome.Refused? && Insertable(canon, table, row)
  }

  /** The row that a create adds, as far as the handler learns of it. */
  ghost function Added(canon: Collation, table: seq<Row>, row: Row, db: Database): Option<Row> {
    if Stored(canon, table, row, db) && db.outcome.Acknowledged? then Some(row) else None
  }

  class RoomRepository {
    const canon: Collation
    var rows: seq<Row>

    constructor (canon: Collation, rows: seq<Row>)
      requires UniqueKeys(canon, rows)
      ensures this.canon == canon && this.rows == rows
    {
      this.canon, this.rows := canon, rows;
    }

    ghost predicate Valid()
      reads this
    {
      UniqueKeys(canon, rows)
    }

    /** Nothing is found when the database does not answer. */
    method FindByRoomName(name: string, db: Database) returns (row: Option<Row>)
      ensures row == Query(canon, rows, name, db.answered)
      ensures row.Some? ==> row.value in rows && canon(row.value.name) == canon(name)
      ensures row.None? <==> !db.answered || forall r :: r in rows ==> canon(r.name) != canon(name)
    {
      if !db.answered {
        return None;
      }
      var i := 0;
      while i < |rows|
        invariant 0 <= i <= |rows|
        invariant Lookup(canon, rows, name) == Lookup(canon, rows[i..], name)
      {
        if canon(rows[i].name) == canon(name) {
          return Some(rows[i]);
        }
        assert rows[i..][1..] == rows[i + 1..];
        i := i + 1;
      }
      row := None;
    }

    /** Inserts a row if the keys of the table admit it; an insert that is not acknowledged is reported as failed. */
    method AddRoom(name: string, creator: int, db: Database) returns (added: Option<Row>)
      requires Valid()
      modifies this`rows
      ensures Valid()
      ensures var row := Row(db.newId, name, creator);
              && rows == (if Stored(canon, old(rows), row, db) then old(rows) + [row] else old(rows))
              && added == Added(canon, old(rows), row, db)
      ensures added.Some? ==> added.value == Row(db.newId, name, creator) && rows == old(rows) + [added.value]
      ensures added.Some? <==> db.outcome.Acknowledged? && forall r :: r in old(rows) ==> r.id != db.newId && canon(r.name) != canon(name)
    {
      var row := Row(db.newId, name, creator);
      var found := FindByRoomName(name, db.(answered := true));
      if db.outcome.Refused? || found.Some? || exists r :: r in rows && r.id == db.newId {
        return None;
      }
      InsertKeepsKeys(canon, rows, row);
      rows := rows + [row];
      added := if db.outcome.Acknowledged? then Some(row) else None;
    }
  }
}
