/**
 * The `reservations` table of flights.db and the six functions of database.py
 * that touch it, as an in-memory table.
 *
 * The concrete state is the list of rows in rowid order (the order a full
 * `SELECT *` scan of this table yields them), SQLite's AUTOINCREMENT counter
 * (the table's entry in `sqlite_sequence`: the largest id ever assigned) and
 * whether `CREATE TABLE` has run. The abstract view is a map from id to the
 * six text columns.
 */
module Database {
  import opened Values

  /** The largest rowid SQLite can assign: ids are signed 64-bit integers. */
  const MaxRowId: int := 0x7FFF_FFFF_FFFF_FFFF

  /** The six caller-supplied columns, in declaration order. */
  datatype Details = Details(name: string, flightNumber: string, departure: string,
                             destination: string, date: string, seatNumber: string)

  /** One row as `SELECT *` yields it: (id, name, flight_number, departure, destination, date, seat_number). */
  datatype Reservation = Reservation(id: int, details: Details)

  /** A write statement handed to the database, whether or not it committed. */
  datatype Write = Insert(details: Details) | Update(key: SqlValue, details: Details) | Delete(key: SqlValue)

  /**
   * `WHERE id = ?` with `key` bound: an integer key selects the row with that
   * id; a text key selects none (type-affinity coercion is not modelled).
   */
  predicate Matches(key: SqlValue, id: int)
  {
    key == Integer(id)
  }

  /** Ids strictly increase along the rows; in particular no id occurs twice. */
  predicate Ascending(rows: seq<Reservation>)
  {
    forall i, j :: 0 <= i < j < |rows| ==> rows[i].id < rows[j].id
  }

  /** The table as a map from id to columns. */
  function TableOf(rows: seq<Reservation>): (table: map<int, Details>)
  {
    if rows == [] then map[] else TableOf(rows[1..])[rows[0].id := rows[0].details]
  }

  /** What `UPDATE ... WHERE id = key` leaves: every matching row gets `d`, ids and order stay. */
  function Replaced(rows: seq<Reservation>, key: SqlValue, d: Details): (r: seq<Reservation>)
    ensures |r| == |rows|
    ensures forall k :: 0 <= k < |rows| ==> r[k].id == rows[k].id
    ensures forall k :: 0 <= k < |rows| ==>
              r[k].details == (if Matches(key, rows[k].id) then d else rows[k].details)
  {
    if rows == [] then []
    else [if Matches(key, rows[0].id) then Reservation(rows[0].id, d) else rows[0]]
         + Replaced(rows[1..], key, d)
  }

  /** What `DELETE ... WHERE id = key` leaves: the rows that do not match, in their order. */
  function Without(rows: seq<Reservation>, key: SqlValue): (r: seq<Reservation>)
    ensures forall x :: x in r <==> x in rows && !Matches(key, x.id)
    ensures |r| <= |rows|
    ensures Ascending(rows) ==> Ascending(r)
  {
    if rows == [] then []
    else if Matches(key, rows[0].id) then Without(rows[1..], key)
    else [rows[0]] + Without(rows[1..], key)
  }

  /** What `SELECT * ... WHERE id = key` followed by `fetchone()` returns. */
  function Find(rows: seq<Reservation>, key: SqlValue): (r: Option<Reservation>)
    ensures r.Some? ==> r.value in rows && Matches(key, r.value.id)
    ensures r.None? ==> forall x :: x in rows ==> !Matches(key, x.id)
  {
    if rows == [] then None
    else if Matches(key, rows[0].id) then Some(rows[0])
    else Find(rows[1..], key)
  }

  lemma {:induction false} TableOfKey(rows: seq<Reservation>, id: int)
    ensures id in TableOf(rows) <==> exists k :: 0 <= k < |rows| && rows[k].id == id
  {
    if rows != [] {
      TableOfKey(rows[1..], id);
      if id != rows[0].id {
        if k :| 0 <= k < |rows| && rows[k].id == id {
          assert rows[1..][k - 1].id == id;
        }
        if k :| 0 <= k < |rows| - 1 && rows[1..][k].id == id {
          assert rows[k + 1].id == id;
        }
      }
    }
  }

  /** In a table without duplicate ids, every row is what the map holds under its id. */
  lemma {:induction false} TableOfAt(rows: seq<Reservation>, k: int)
    requires Ascending(rows) && 0 <= k < |rows|
    ensures rows[k].id in TableOf(rows) && TableOf(rows)[rows[k].id] == rows[k].details
  {
    if k > 0 {
      assert Ascending(rows[1..]);
      TableOfAt(rows[1..], k - 1);
      assert rows[k].id != rows[0].id;
    }
  }

  lemma TableOfEvery(rows: seq<Reservation>)
    requires Ascending(rows)
    ensures forall k :: 0 <= k < |rows| ==>
              rows[k].id in TableOf(rows) && TableOf(rows)[rows[k].id] == rows[k].details
  {
    forall k | 0 <= k < |rows|
      ensures rows[k].id in TableOf(rows) && TableOf(rows)[rows[k].id] == rows[k].details
    {
      TableOfAt(rows, k);
    }
  }

  /** Without duplicate ids the map has exactly one entry per row. */
  lemma {:induction false} TableOfSize(rows: seq<Reservation>)
    requires Ascending(rows)
    ensures |TableOf(rows)| == |rows|
  {
    if rows != [] {
      assert Ascending(rows[1..]);
      TableOfSize(rows[1..]);
      TableOfKey(rows[1..], rows[0].id);
      assert rows[0].id !in TableOf(rows[1..]);
    }
  }

  /** Appending a row under an id the table lacks adds exactly that entry. */
  lemma {:induction false} TableOfAppend(rows: seq<Reservation>, x: Reservation)
    requires x.id !in TableOf(rows)
    ensures TableOf(rows + [x]) == TableOf(rows)[x.id := x.details]
  {
    if rows == [] {
      assert [x][1..] == [];
    } else {
      assert (rows + [x])[1..] == rows[1..] + [x];
      assert x.id != rows[0].id;
      assert x.id !in TableOf(rows[1..]);
      TableOfAppend(rows[1..], x);
    }
  }

  /** An update changes the entry under the key, if there is one, and nothing else. */
  lemma {:induction false} TableOfReplaced(rows: seq<Reservation>, key: SqlValue, d: Details)
    ensures TableOf(Replaced(rows, key, d)) ==
            if key.Integer? && key.i in TableOf(rows) then TableOf(rows)[key.i := d] else TableOf(rows)
  {
    if rows != [] {
      TableOfReplaced(rows[1..], key, d);
      assert Replaced(rows, key, d)[1..] == Replaced(rows[1..], key, d);
    }
  }

  /** A delete removes the entry under the key, if there is one, and nothing else. */
  lemma {:induction false} TableOfWithout(rows: seq<Reservation>, key: SqlValue)
    ensures TableOf(Without(rows, key)) ==
            if key.Integer? then TableOf(rows) - {key.i} else TableOf(rows)
  {
    if rows != [] {
      TableOfWithout(rows[1..], key);
      var x, tail := rows[0], Without(rows[1..], key);
      if Matches(key, x.id) {
        assert Without(rows, key) == tail;
        DropAfterSet(TableOf(rows[1..]), x.id, x.details);
      } else {
        assert Without(rows, key)[1..] == tail;
        if key.Integer? {
          DropOtherAfterSet(TableOf(rows[1..]), x.id, x.details, key.i);
        }
      }
    }
  }

  /** Setting a key and then removing it is removing it. */
  lemma DropAfterSet(m: map<int, Details>, a: int, v: Details)
    ensures m[a := v] - {a} == m - {a}
  {
  }

  /** Removing a key commutes with setting another one. */
  lemma DropOtherAfterSet(m: map<int, Details>, a: int, v: Details, b: int)
    requires a != b
    ensures m[a := v] - {b} == (m - {b})[a := v]
  {
  }

  /** The point lookup agrees with the map view. */
  lemma {:induction false} FindAgrees(rows: seq<Reservation>, key: SqlValue)
    requires Ascending(rows)
    ensures Find(rows, key) ==
            if key.Integer? && key.i in TableOf(rows) then Some(Reservation(key.i, TableOf(rows)[key.i]))
            else None
  {
    if rows != [] {
      assert Ascending(rows[1..]);
      FindAgrees(rows[1..], key);
      if !Matches(key, rows[0].id) && key.Integer? {
        TableOfKey(rows[1..], key.i);
        TableOfKey(rows, key.i);
      } else if key.Integer? {
        TableOfKey(rows[1..], key.i);
      }
    }
  }

  /** The reservations table of flights.db. */
  class Store {
    /** Whether `CREATE TABLE` has run on this database file. */
    var tableExists: bool
    /** The rows, in rowid order. */
    var rows: seq<Reservation>
    /** The AUTOINCREMENT counter: the largest id ever assigned, 0 before the first insert. */
    var sequence: int
    /** Every write statement issued so far, in order. */
    ghost var calls: seq<Write>
    /** Every id ever assigned, including those of rows since deleted. */
    ghost var issued: set<int>

    ghost predicate Valid()
      reads this
    {
      && 0 <= sequence <= MaxRowId
      && Ascending(rows)
      && (forall k :: 0 <= k < |rows| ==> rows[k].id in issued)
      && (forall id :: id in issued ==> 1 <= id <= sequence)
      && (!tableExists ==> rows == [] && sequence == 0)
    }

    /** The table as a map from id to columns. */
    function Table(): (table: map<int, Details>)
      reads this
    {
      TableOf(rows)
    }

    /** A database file that does not hold the table yet. */
    constructor ()
      ensures Valid()
      ensures !tableExists && rows == [] && sequence == 0 && calls == [] && issued == {}
    {
      tableExists, rows, sequence := false, [], 0;
      calls, issued := [], {};
    }

    /**
     * create_table: `CREATE TABLE IF NOT EXISTS`. When the statement fails
     * (`ok` false) the table stays as it was; no call touches the rows.
     */
    method CreateTable(ok: bool)
      requires Valid()
      modifies this
      ensures Valid()
      ensures tableExists == (old(tableExists) || ok)
      ensures rows == old(rows) && sequence == old(sequence)
      ensures calls == old(calls) && issued == old(issued)
    {
      if ok {
        tableExists := true;
      }
    }

    /**
     * add_reservation: one INSERT. It commits, and reports true, exactly when the
     * statement does not fail, the table exists and the counter is not at the
     * largest rowid (SQLITE_FULL otherwise). A committed insert gets the id one
     * above every id ever assigned.
     */
    method Add(d: Details, ok: bool) returns (added: bool)
      requires Valid()
      modifies this
      ensures Valid()
      ensures added == (ok && old(tableExists) && old(sequence) < MaxRowId)
      ensures calls == old(calls) + [Write.Insert(d)]
      ensures tableExists == old(tableExists)
      ensures added ==> var id := old(sequence) + 1;
                && id !in old(issued) && (forall j :: j in old(issued) ==> j < id)
                && rows == old(rows) + [Reservation(id, d)]
                && Table() == old(Table())[id := d] && id !in old(Table())
                && sequence == id && issued == old(issued) + {id}
      ensures !added ==> rows == old(rows) && sequence == old(sequence) && issued == old(issued)
    {
      calls := calls + [Write.Insert(d)];
      added := ok && tableExists && sequence < MaxRowId;
      if added {
        var x := Reservation(sequence + 1, d);
        TableOfKey(rows, x.id);
        TableOfAppend(rows, x);
        rows := rows + [x];
        sequence := sequence + 1;
        issued := issued + {x.id};
      }
    }

    /**
     * get_all_reservations: every row, in rowid order, or `[]` when the query
     * fails or the table does not exist.
     */
    function ListAll(ok: bool): (r: seq<Reservation>)
      reads this
      requires Valid()
      ensures !(ok && tableExists) ==> r == []
      ensures ok && tableExists ==> |r| == |Table()| && Ascending(r)
      ensures ok && tableExists ==>
                forall k :: 0 <= k < |r| ==> r[k].id in Table() && Table()[r[k].id] == r[k].details
      ensures ok && tableExists ==>
                forall id :: id in Table() ==> exists k :: 0 <= k < |r| && r[k] == Reservation(id, Table()[id])
    {
      if ok && tableExists then
        TableOfSize(rows);
        TableOfEvery(rows);
        assert forall id :: id in Table() ==> exists k :: 0 <= k < |rows| && rows[k] == Reservation(id, Table()[id]) by {
          forall id | id in Table()
            ensures exists k :: 0 <= k < |rows| && rows[k] == Reservation(id, Table()[id])
          {
            TableOfKey(rows, id);
          }
        }
        rows
      else []
    }

    /**
     * get_reservation_by_id: the row whose id is `key`, or None when there is
     * none, the query fails or the table does not exist.
     */
    function GetById(key: SqlValue, ok: bool): (r: Option<Reservation>)
      reads this
      requires Valid()
      ensures r.Some? <==> ok && tableExists && key.Integer? && key.i in Table()
      ensures r.Some? ==> r.value == Reservation(key.i, Table()[key.i])
    {
      if ok && tableExists then FindAgrees(rows, key); Find(rows, key) else None
    }

    /**
     * update_reservation: one UPDATE of all six columns of the row whose id is
     * `key`. It reports true whenever the statement commits, also when no row
     * matches; the counter never moves.
     */
    method Update(key: SqlValue, d: Details, ok: bool) returns (updated: bool)
      requires Valid()
      modifies this
      ensures Valid()
      ensures updated == (ok && old(tableExists))
      ensures calls == old(calls) + [Write.Update(key, d)]
      ensures tableExists == old(tableExists) && sequence == old(sequence) && issued == old(issued)
      ensures rows == if updated then Replaced(old(rows), key, d) else old(rows)
      ensures Table() == if updated && key.Integer? && key.i in old(Table())
                         then old(Table())[key.i := d] else old(Table())
    {
      calls := calls + [Write.Update(key, d)];
      updated := ok && tableExists;
      if updated {
        TableOfReplaced(rows, key, d);
        rows := Replaced(rows, key, d);
      }
    }

    /**
     * delete_reservation: one DELETE of the row whose id is `key`. It reports
     * true whenever the statement commits, also when no row matches; the counter
     * never moves, so a deleted id is never assigned again.
     */
    method Delete(key: SqlValue, ok: bool) returns (deleted: bool)
      requires Valid()
      modifies this
      ensures Valid()
      ensures deleted == (ok && old(tableExists))
      ensures calls == old(calls) + [Write.Delete(key)]
      ensures tableExists == old(tableExists) && sequence == old(sequence) && issued == old(issued)
      ensures rows == if deleted then Without(old(rows), key) else old(rows)
      ensures Table() == if deleted && key.Integer? then old(Table()) - {key.i} else old(Table())
      ensures |rows| == if deleted && key.Integer? && key.i in old(Table()) then |old(rows)| - 1 else |old(rows)|
    {
      calls := calls + [Write.Delete(key)];
      deleted := ok && tableExists;
      if deleted {
        var before := rows;
        TableOfWithout(before, key);
        rows := Without(before, key);
        TableOfSize(before);
        TableOfSize(rows);
      }
    }
  }
}
