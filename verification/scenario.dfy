/**
 * One session against a fresh database file: create the table (twice), book
 * one passenger, list, change the flight, look it up by id, delete it and
 * list again.
 */
module Scenario {
  import opened Values
  import opened Database

  const FirstBooking: Details := Details("Ada Lovelace", "BA200", "LHR", "JFK", "2024-03-01", "12A")
  const ChangedBooking: Details := Details("Ada Lovelace", "BA201", "LHR", "JFK", "2024-03-02", "14C")

  /**
   * Every statement commits. The first booking gets id 1; the lookup after the
   * update sees the new columns under the same id; after the delete the table
   * is empty again, and the id counter still remembers id 1.
   */
  method BookChangeCancel() returns (initially: seq<Reservation>, listed: seq<Reservation>,
                                    found: Option<Reservation>, emptied: seq<Reservation>, sequence: int)
    ensures initially == []
    ensures listed == [Reservation(1, FirstBooking)]
    ensures found == Some(Reservation(1, ChangedBooking))
    ensures emptied == [] && sequence == 1
  {
    var store := new Store();
    store.CreateTable(true);
    store.CreateTable(true);
    initially := store.ListAll(true);
    var added := store.Add(FirstBooking, true);
    assert added;
    listed := store.ListAll(true);
    var updated := store.Update(Integer(1), ChangedBooking, true);
    assert store.rows == [Reservation(1, ChangedBooking)];
    found := store.GetById(Integer(1), true);
    var deleted := store.Delete(Integer(1), true);
    assert store.rows == [];
    emptied := store.ListAll(true);
    sequence := store.sequence;
  }
}
