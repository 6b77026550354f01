/**
 * ReservationsPage (reservations.py): a Treeview of all reservations with a
 * placeholder row for an empty table, an edit action for a single selected
 * row and a bulk delete of the selected rows. The Treeview is a sequence of
 * items; the selection, the answer to the confirmation dialog and the
 * outcome of each storage statement are inputs.
 */
module Reservations {
  import opened Values
  import opened Database
  import opened FormRules
  import opened EditReservation

  /** The text of the placeholder row, and the text both actions look for. */
  const NoReservationsMessage: string := "No reservations found."

  /** Columns of the Treeview: ID, Name, Flight, Departure, Destination, Date, Seat. */
  const ColumnCount: nat := 7

  /** The values of the placeholder row shown for an empty result. */
  const PlaceholderValues: seq<SqlValue> :=
    [Text(""), Text(NoReservationsMessage), Text(""), Text(""), Text(""), Text(""), Text("")]

  /** A reservation as a Treeview row: the tuple `fetchall` returned, inserted as it is. */
  function RowValues(r: Reservation): (values: seq<SqlValue>)
  {
    [Integer(r.id), Text(r.details.name), Text(r.details.flightNumber), Text(r.details.departure),
     Text(r.details.destination), Text(r.details.date), Text(r.details.seatNumber)]
  }

  /** `"No reservations found." in values`: how both actions recognise the placeholder. */
  predicate ShowsNoData(values: seq<SqlValue>)
  {
    Text(NoReservationsMessage) in values
  }

  /** Some column of the reservation holds the placeholder's text. */
  predicate HoldsNoDataText(d: Details)
  {
    || d.name == NoReservationsMessage || d.flightNumber == NoReservationsMessage
    || d.departure == NoReservationsMessage || d.destination == NoReservationsMessage
    || d.date == NoReservationsMessage || d.seatNumber == NoReservationsMessage
  }

  /** The rows populate_table shows for what get_all_reservations returned. */
  function Listing(rs: seq<Reservation>): (rows: seq<seq<SqlValue>>)
  {
    if rs == [] then [PlaceholderValues]
    else seq(|rs|, k requires 0 <= k < |rs| => RowValues(rs[k]))
  }

  /**
   * A listed row passes for the placeholder exactly when the table is empty
   * or the reservation holds the placeholder's text in one of its columns.
   */
  lemma ListingNoDataRows(rs: seq<Reservation>, k: int)
    requires 0 <= k < |Listing(rs)|
    ensures ShowsNoData(Listing(rs)[k]) <==> rs == [] || HoldsNoDataText(rs[k].details)
  {
  }

  /**
   * The edit form receives a listed reservation's id as the id cell and its six
   * columns as the entries' texts.
   */
  lemma EditorReceivesRow(r: Reservation)
    ensures |RowValues(r)| > FieldCount && RowValues(r)[0] == Integer(r.id)
    ensures FormOf(seq(FieldCount, k requires 0 <= k < FieldCount => Display(RowValues(r)[k + 1]))) == r.details
  {
  }

  /** A Treeview item: its item id, its values and whether it carries the 'no_data' tag. */
  datatype TreeItem = TreeItem(iid: nat, values: seq<SqlValue>, noData: bool)

  /** The values of every item, top to bottom. */
  function ValuesOf(items: seq<TreeItem>): (rows: seq<seq<SqlValue>>)
  {
    seq(|items|, k requires 0 <= k < |items| => items[k].values)
  }

  /** Items showing the rows of `rs`, one each and in order, show the listing of `rs`. */
  lemma ShowsListing(items: seq<TreeItem>, rs: seq<Reservation>)
    requires rs != [] && |items| == |rs|
    requires forall k :: 0 <= k < |rs| ==> items[k].values == RowValues(rs[k])
    ensures ValuesOf(items) == Listing(rs)
  {
  }

  /** Where the item with id `iid` sits, or `|items|` when there is none. */
  function Position(items: seq<TreeItem>, iid: nat): (p: nat)
    ensures p <= |items|
    ensures p < |items| ==> items[p].iid == iid
    ensures p == |items| ==> forall k :: 0 <= k < |items| ==> items[k].iid != iid
  {
    if items == [] then 0
    else if items[0].iid == iid then 0
    else 1 + Position(items[1..], iid)
  }

  /** Every selected id names an item of the tree, as Tk's selection always does. */
  predicate Selectable(items: seq<TreeItem>, selection: seq<nat>)
  {
    forall s :: s in selection ==> Position(items, s) < |items|
  }

  /** `tree.item(iid, "values")`. */
  function ItemValues(items: seq<TreeItem>, iid: nat): (values: seq<SqlValue>)
    requires Position(items, iid) < |items|
  {
    items[Position(items, iid)].values
  }

  /** Every item has a value for each column. */
  predicate FullRows(items: seq<TreeItem>)
  {
    forall k :: 0 <= k < |items| ==> |items[k].values| == ColumnCount
  }

  /**
   * `items_to_delete`: (item, id cell) for every selected item that does not
   * show the placeholder's text, in selection order.
   */
  function Targets(items: seq<TreeItem>, selection: seq<nat>): (t: seq<(nat, SqlValue)>)
    requires FullRows(items) && Selectable(items, selection)
    ensures |t| <= |selection|
    ensures forall j :: 0 <= j < |t| ==>
              t[j].0 in selection && !ShowsNoData(ItemValues(items, t[j].0))
              && t[j].1 == ItemValues(items, t[j].0)[0]
    ensures forall s :: s in selection && !ShowsNoData(ItemValues(items, s)) ==>
              exists j :: 0 <= j < |t| && t[j].0 == s
  {
    if selection == [] then []
    else
      var rest := selection[..|selection| - 1];
      var s := selection[|selection| - 1];
      assert selection == rest + [s];
      var prev := Targets(items, rest);
      var v := ItemValues(items, s);
      var t := if ShowsNoData(v) then prev else prev + [(s, v[0])];
      assert forall x :: x in selection ==> x in rest || x == s;
      assert !ShowsNoData(v) ==> t[|t| - 1].0 == s;
      assert forall j :: 0 <= j < |prev| ==> t[j] == prev[j];
      t
  }

  /**
   * `items_to_delete` follows the selection: the targets of a selection made
   * of two parts are those of the first part followed by those of the second.
   * With TargetsOfOne this fixes the list: each kept item appears once, in
   * selection order.
   */
  lemma {:induction false} TargetsConcat(items: seq<TreeItem>, a: seq<nat>, b: seq<nat>)
    requires FullRows(items) && Selectable(items, a) && Selectable(items, b)
    ensures Selectable(items, a + b)
    ensures Targets(items, a + b) == Targets(items, a) + Targets(items, b)
    decreases |b|
  {
    assert forall x :: x in a + b ==> x in a || x in b;
    if b != [] {
      var n := |b| - 1;
      var b' := b[..n];
      assert forall x :: x in b' ==> x in b;
      TargetsConcat(items, a, b');
      assert (a + b)[..|a + b| - 1] == a + b';
      assert (a + b)[|a + b| - 1] == b[n];
    } else {
      assert a + b == a;
    }
  }

  /** A single selected item is kept, with its id cell, exactly when it does not show the placeholder's text. */
  lemma TargetsOfOne(items: seq<TreeItem>, s: nat)
    requires FullRows(items) && Position(items, s) < |items|
    ensures Selectable(items, [s])
    ensures Targets(items, [s]) ==
            if ShowsNoData(ItemValues(items, s)) then [] else [(s, ItemValues(items, s)[0])]
  {
    assert [s][..0] == [];
  }

  /** The id cells of the targets, in order. */
  function Keys(t: seq<(nat, SqlValue)>): (keys: seq<SqlValue>)
  {
    seq(|t|, j requires 0 <= j < |t| => t[j].1)
  }

  /** The DELETE statements issued for `keys`, in order. */
  function DeleteCalls(keys: seq<SqlValue>): (calls: seq<Write>)
  {
    seq(|keys|, j requires 0 <= j < |keys| => Write.Delete(keys[j]))
  }

  /** How many of the statements committed. */
  function CountTrue(oks: seq<bool>): (n: nat)
    ensures n <= |oks|
    ensures n == 0 <==> forall j :: 0 <= j < |oks| ==> !oks[j]
  {
    if oks == [] then 0
    else CountTrue(oks[..|oks| - 1]) + (if oks[|oks| - 1] then 1 else 0)
  }

  /** The count is the number of `true` outcomes, whatever their order. */
  lemma {:induction false} CountTrueCounts(oks: seq<bool>)
    ensures CountTrue(oks) == multiset(oks)[true]
  {
    if oks != [] {
      var m := |oks| - 1;
      CountTrueCounts(oks[..m]);
      assert oks == oks[..m] + [oks[m]];
    }
  }

  /**
   * The table after one DELETE per key, where `oks[j]` says whether the j-th
   * committed: exactly the ids of committed deletes are gone, the rest keep
   * their columns.
   */
  function AfterDeletes(table: map<int, Details>, keys: seq<SqlValue>, oks: seq<bool>): (r: map<int, Details>)
    requires |keys| == |oks|
    ensures forall id :: id in r <==>
              id in table && !(exists j :: 0 <= j < |keys| && oks[j] && keys[j] == Integer(id))
    ensures forall id :: id in r ==> r[id] == table[id]
  {
    if keys == [] then table
    else
      var n := |keys| - 1;
      var prev := AfterDeletes(table, keys[..n], oks[..n]);
      assert forall j :: 0 <= j < n ==> keys[..n][j] == keys[j] && oks[..n][j] == oks[j];
      if oks[n] && keys[n].Integer? then prev - {keys[n].i} else prev
  }

  /** One more DELETE extends the calls, the resulting table and the count by that statement. */
  lemma DeletesStep(table: map<int, Details>, keys: seq<SqlValue>, oks: seq<bool>, k: int)
    requires |keys| == |oks| && 0 <= k < |keys|
    ensures DeleteCalls(keys[..k + 1]) == DeleteCalls(keys[..k]) + [Write.Delete(keys[k])]
    ensures AfterDeletes(table, keys[..k + 1], oks[..k + 1]) ==
            if oks[k] && keys[k].Integer? then AfterDeletes(table, keys[..k], oks[..k]) - {keys[k].i}
            else AfterDeletes(table, keys[..k], oks[..k])
    ensures CountTrue(oks[..k + 1]) == CountTrue(oks[..k]) + if oks[k] then 1 else 0
  {
    assert keys[..k + 1][..k] == keys[..k];
    assert oks[..k + 1][..k] == oks[..k];
  }

  /** What `edit_selected_reservation` does. */
  datatype EditOutcome =
    | NoEditSelection         // "Please select a reservation from the list to edit."
    | MultipleEditSelection   // "Please select only one reservation to edit."
    | PlaceholderIgnored      // returns silently
    | EditorOpened(values: seq<SqlValue>)

  /** What `delete_selected_reservation` does. */
  datatype DeleteOutcome =
    | NoDeleteSelection       // "Please select at least one reservation from the list to delete."
    | NoValidSelection        // "No valid reservations selected for deletion."
    | DeletionDeclined        // the user answered no
    | Deleted(count: nat)     // "... reservation(s) deleted successfully!"
    | NoneDeleted             // "No reservations were deleted."

  class ReservationsPage {
    /** The Treeview's rows, top to bottom. */
    var items: seq<TreeItem>
    /** Tk's counter for fresh item ids. */
    var nextIid: nat
    const store: Store
    /** The EditReservationPage frame the controller raises for editing. */
    const editor: EditReservationPage

    /** Item ids are increasing and below the counter, and every row fills every column. */
    ghost predicate TreeValid()
      reads this
    {
      && FullRows(items)
      && (forall k :: 0 <= k < |items| ==> items[k].iid < nextIid)
      && (forall i, j :: 0 <= i < j < |items| ==> items[i].iid < items[j].iid)
    }

    ghost predicate Valid()
      reads this, store, editor
    {
      TreeValid() && store.Valid() && editor.store == store && editor.Valid()
    }

    /** The values the tree shows, top to bottom. */
    function Shown(): (rows: seq<seq<SqlValue>>)
      reads this
    {
      ValuesOf(items)
    }

    constructor (store: Store, editor: EditReservationPage, ok: bool)
      requires store.Valid() && editor.store == store && editor.Valid()
      ensures Valid() && this.store == store && this.editor == editor
      ensures Shown() == Listing(store.ListAll(ok))
    {
      this.store := store;
      this.editor := editor;
      items := [];
      nextIid := 0;
      new;
      PopulateTable(ok);
    }

    /** Deletes every item of the tree, one at a time. */
    method ClearTree()
      requires TreeValid()
      modifies this
      ensures TreeValid() && items == [] && nextIid == old(nextIid)
    {
      while items != []
        invariant TreeValid() && nextIid == old(nextIid)
        decreases |items|
      {
        items := items[1..];
      }
    }

    /** Inserts one item per reservation at the end of an empty tree, each with a fresh id. */
    method InsertReservations(rs: seq<Reservation>)
      requires TreeValid() && items == []
      modifies this
      ensures TreeValid() && |items| == |rs| && nextIid >= old(nextIid)
      ensures forall k :: 0 <= k < |rs| ==>
                items[k].values == RowValues(rs[k]) && !items[k].noData && items[k].iid >= old(nextIid)
    {
      var i := 0;
      while i < |rs|
        invariant 0 <= i <= |rs|
        invariant TreeValid() && nextIid >= old(nextIid) && |items| == i
        invariant forall k :: 0 <= k < i ==>
                    items[k].values == RowValues(rs[k]) && !items[k].noData && items[k].iid >= old(nextIid)
      {
        items := items + [TreeItem(nextIid, RowValues(rs[i]), false)];
        nextIid := nextIid + 1;
        i := i + 1;
      }
    }

    /**
     * populate_table: delete every item, then insert one row per reservation
     * the query returns, in its order, or the tagged placeholder row when it
     * returns none (an empty table or a failed query, `ok` false).
     */
    method PopulateTable(ok: bool)
      requires Valid()
      modifies this
      ensures Valid()
      ensures Shown() == Listing(store.ListAll(ok))
      ensures forall k :: 0 <= k < |items| ==> items[k].iid >= old(nextIid)
      ensures forall k :: 0 <= k < |items| ==> items[k].noData == (store.ListAll(ok) == [])
    {
      ClearTree();
      var reservations := store.ListAll(ok);
      if reservations != [] {
        InsertReservations(reservations);
        ShowsListing(items, reservations);
      } else {
        items := [TreeItem(nextIid, PlaceholderValues, true)];
        nextIid := nextIid + 1;
        assert ValuesOf(items) == [PlaceholderValues];
      }
    }

    /**
     * edit_selected_reservation: only a selection of exactly one item that does
     * not show the placeholder's text opens the edit page, with that item's
     * values handed to its `set_data`.
     */
    method EditSelected(selection: seq<nat>) returns (outcome: EditOutcome, next: Option<Screen>)
      requires Valid() && Selectable(items, selection)
      modifies editor, editor.entries
      ensures Valid()
      ensures |selection| == 0 ==> outcome == NoEditSelection
      ensures |selection| > 1 ==> outcome == MultipleEditSelection
      ensures |selection| == 1 ==>
                var v := ItemValues(items, selection[0]);
                outcome == if ShowsNoData(v) then PlaceholderIgnored else EditorOpened(v)
      ensures !outcome.EditorOpened? ==> next == None && unchanged(editor, editor.entries)
      ensures outcome.EditorOpened? ==>
                && next == Some(EditScreen)
                && editor.reservationId == Some(outcome.values[0])
                && forall k :: 0 <= k < FieldCount ==> editor.entries[k] == Display(outcome.values[k + 1])
    {
      if |selection| == 0 {
        return NoEditSelection, None;
      }
      if |selection| > 1 {
        return MultipleEditSelection, None;
      }
      var values := ItemValues(items, selection[0]);
      if ShowsNoData(values) {
        return PlaceholderIgnored, None;
      }
      editor.SetData(values);
      outcome, next := EditorOpened(values), Some(EditScreen);
    }

    /** The first loop of delete_selected_reservation: the selected items to delete, with their id cells. */
    method CollectTargets(selection: seq<nat>) returns (toDelete: seq<(nat, SqlValue)>)
      requires FullRows(items) && Selectable(items, selection)
      ensures toDelete == Targets(items, selection)
    {
      toDelete := [];
      var i := 0;
      while i < |selection|
        invariant 0 <= i <= |selection|
        invariant toDelete == Targets(items, selection[..i])
      {
        assert selection[..i + 1][..i] == selection[..i];
        var data := ItemValues(items, selection[i]);
        if !ShowsNoData(data) {
          toDelete := toDelete + [(selection[i], data[0])];
        }
        i := i + 1;
      }
      assert selection[..i] == selection;
    }

    /** The second loop: one DELETE per key, counting those that report success. */
    method DeleteEach(keys: seq<SqlValue>, oks: seq<bool>) returns (count: nat)
      requires store.Valid() && |oks| == |keys|
      modifies store
      ensures store.Valid() && store.tableExists == old(store.tableExists)
      ensures store.calls == old(store.calls) + DeleteCalls(keys)
      ensures store.Table() == AfterDeletes(old(store.Table()), keys, oks)
      ensures count == if old(store.tableExists) then CountTrue(oks) else 0
      ensures store.sequence == old(store.sequence) && store.issued == old(store.issued)
    {
      count := 0;
      var k := 0;
      while k < |keys|
        invariant 0 <= k <= |keys|
        invariant store.Valid() && store.tableExists == old(store.tableExists)
        invariant store.sequence == old(store.sequence) && store.issued == old(store.issued)
        invariant store.calls == old(store.calls) + DeleteCalls(keys[..k])
        invariant store.Table() == AfterDeletes(old(store.Table()), keys[..k], oks[..k])
        invariant count == if store.tableExists then CountTrue(oks[..k]) else 0
      {
        var deleted := store.Delete(keys[k], oks[k]);
        if deleted {
          count := count + 1;
        }
        DeletesStep(old(store.Table()), keys, oks, k);
        k := k + 1;
      }
      assert keys[..k] == keys && oks[..k] == oks;
    }

    /**
     * delete_selected_reservation: keep the selected items that do not show the
     * placeholder's text; when some remain and the user confirms, issue one
     * DELETE per item and count those that committed (`oks[j]` says whether the
     * j-th does). The list is refreshed (with `listOk` for its query) only when
     * the count is positive.
     */
    method DeleteSelected(selection: seq<nat>, confirm: bool, oks: seq<bool>, listOk: bool)
      returns (outcome: DeleteOutcome)
      requires Valid() && Selectable(items, selection)
      requires |oks| == |selection|
      modifies this, store
      ensures Valid()
      ensures |selection| == 0 ==> outcome == NoDeleteSelection
      ensures |selection| > 0 && Targets(old(items), selection) == [] ==> outcome == NoValidSelection
      ensures |selection| > 0 && Targets(old(items), selection) != [] && !confirm ==> outcome == DeletionDeclined
      ensures outcome in {NoDeleteSelection, NoValidSelection, DeletionDeclined} ==> unchanged(store)
      ensures |selection| > 0 && Targets(old(items), selection) != [] && confirm ==>
                var t := Targets(old(items), selection);
                var n := if old(store.tableExists) then CountTrue(oks[..|t|]) else 0;
                && store.calls == old(store.calls) + DeleteCalls(Keys(t))
                && store.Table() == AfterDeletes(old(store.Table()), Keys(t), oks[..|t|])
                && outcome == (if n > 0 then Deleted(n) else NoneDeleted)
      ensures outcome.Deleted? ==> outcome.count <= |Targets(old(items), selection)|
      ensures outcome.Deleted? ==> Shown() == Listing(store.ListAll(listOk))
      ensures !outcome.Deleted? ==> items == old(items) && nextIid == old(nextIid)
      ensures store.tableExists == old(store.tableExists) && store.sequence == old(store.sequence)
              && store.issued == old(store.issued)
    {
      if |selection| == 0 {
        return NoDeleteSelection;
      }
      var toDelete := CollectTargets(selection);
      if toDelete == [] {
        return NoValidSelection;
      }
      if !confirm {
        return DeletionDeclined;
      }
      var count := DeleteEach(Keys(toDelete), oks[..|toDelete|]);
      if count > 0 {
        PopulateTable(listOk);
        outcome := Deleted(count);
      } else {
        outcome := NoneDeleted;
      }
    }
  }
}
