/**
 The rooms table. The database compares names under a collation: names with equal canonical forms
 are the same name to it, and no two rows may have such names. Rows are only ever added.
 */
module RoomTable {
  import opened Wrappers
  import opened RoomState

  type Collation = string -> string

  /** The row that a query for the name finds. */
  function Lookup(canon: Collation, table: seq<Row>, name: string): (row: Option<Row>)
    ensures row.Some? ==> row.value in table && canon(row.value.name) == canon(name)
    ensures row.None? ==> forall r :: r in table ==> canon(r.name) != canon(name)
  {
    if table == [] then None
    else if canon(table[0].name) == canon(name) then Some(table[0])
    else Lookup(canon, table[1..], name)
  }

  /** The primary key and the unique key of the table. */
  ghost predicate UniqueKeys(canon: Collation, table: seq<Row>) {
    forall r, q :: r in table && q in table && (r.id == q.id || canon(r.name) == canon(q.name)) ==> r == q
  }

  /** The keys admit the row. */
  ghost predicate Insertable(canon: Collation, table: seq<Row>, row: Row) {
    Lookup(canon, table, row.name).None? && forall r :: r in table ==> r.id != row.id
  }

  /** A row can be added exactly if neither its id nor its name is taken. */
  lemma InsertableIff(canon: Collation, table: seq<Row>, row: Row)
    ensures Insertable(canon, table, row) <==> forall r :: r in table ==> r.id != row.id && canon(r.name) != canon(row.name)
  {
  }

  /** Adding a row changes no query that had an answer. */
  lemma {:induction false} LookupAfterInsert(canon: Collation, table: seq<Row>, row: Row, name: string)
    ensures Lookup(canon, table + [row], name) ==
              if Lookup(canon, table, name).Some? then Lookup(canon, table, name)
              else if canon(row.name) == canon(name) then Some(row) else None
    decreases |table|
  {
    if table == [] {
      assert (table + [row])[1..] == [];
    } else {
      LookupAfterInsert(canon, table[1..], row, name);
      assert (table + [row])[1..] == table[1..] + [row];
    }
  }

  lemma InsertKeepsKeys(canon: Collation, table: seq<Row>, row: Row)
    requires UniqueKeys(canon, table) && Insertable(canon, table, row)
    ensures UniqueKeys(canon, table + [row])
  {
    forall r | r in table + [row] ensures r in table || r == row {
    }
  }
}
