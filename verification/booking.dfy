/**
 * BookingPage (booking.py): six entries and a submit action that checks them
 * and inserts one reservation. Dialogs become outcome codes; the navigation
 * back to the home page is returned.
 */
module Booking {
  import opened Values
  import opened Database
  import opened FormRules

  /** How `submit` ends: the dialog it shows. */
  datatype SubmitOutcome =
    | MissingFieldError   // "All fields are required!"
    | DateFormatError     // "Please use YYYY-MM-DD format for the date."
    | Booked              // "Reservation booked successfully!"
    | BookingFailed       // "Failed to book reservation."

  class BookingPage {
    const store: Store
    /** The entry widgets' contents, in the order Name, Flight Number, Departure, Destination, Date, Seat Number. */
    const entries: array<string>

    ghost predicate Valid()
      reads this, store
    {
      entries.Length == FieldCount && store.Valid()
    }

    /** The form as the user filled it in. */
    function Form(): (form: Details)
      reads this, entries
      requires entries.Length == FieldCount
    {
      FormOf(entries[..])
    }

    constructor (store: Store)
      requires store.Valid()
      ensures Valid() && this.store == store && fresh(entries)
      ensures forall k :: 0 <= k < entries.Length ==> entries[k] == ""
    {
      this.store := store;
      entries := new string[FieldCount](_ => "");
    }

    /** Empties every entry: `entry.delete(0, tk.END)` for each of the six. */
    method ClearEntries()
      requires entries.Length == FieldCount
      modifies entries
      ensures forall k :: 0 <= k < entries.Length ==> entries[k] == ""
    {
      var i := 0;
      while i < entries.Length
        invariant 0 <= i <= entries.Length
        invariant forall k :: 0 <= k < i ==> entries[k] == ""
      {
        entries[i] := "";
        i := i + 1;
      }
    }

    /**
     * The store call and what follows it: add_reservation once with `clean`;
     * on success the entries are emptied and the page returns home.
     */
    method Book(clean: Details, ok: bool) returns (outcome: SubmitOutcome, next: Option<Screen>)
      requires Valid()
      modifies entries, store
      ensures Valid()
      ensures store.calls == old(store.calls) + [Write.Insert(clean)]
      ensures outcome == Booked <==> ok && old(store.tableExists) && old(store.sequence) < MaxRowId
      ensures outcome != Booked ==> outcome == BookingFailed
      ensures outcome == Booked ==> store.Table() == old(store.Table())[old(store.sequence) + 1 := clean]
      ensures outcome == Booked ==> forall k :: 0 <= k < entries.Length ==> entries[k] == ""
      ensures outcome != Booked ==> entries[..] == old(entries[..]) && store.rows == old(store.rows)
      ensures store.tableExists == old(store.tableExists)
      ensures outcome == Booked ==>
                store.sequence == old(store.sequence) + 1 && store.issued == old(store.issued) + {store.sequence}
      ensures outcome != Booked ==> store.sequence == old(store.sequence) && store.issued == old(store.issued)
      ensures next == if outcome == Booked then Some(HomeScreen) else None
    {
      var added := store.Add(clean, ok);
      if added {
        ClearEntries();
        outcome, next := Booked, Some(HomeScreen);
      } else {
        outcome, next := BookingFailed, None;
      }
    }

    /**
     * submit: strip the six entries, check them, and call add_reservation once
     * with the stripped values. `ok` says whether the INSERT commits. Only a
     * booking that succeeded clears the entries and returns to the home page.
     */
    method Submit(ok: bool) returns (outcome: SubmitOutcome, next: Option<Screen>)
      requires Valid()
      modifies entries, store
      ensures Valid()
      ensures Validate(old(Form())) == FieldMissing <==> outcome == MissingFieldError
      ensures Validate(old(Form())) == DateMalformed <==> outcome == DateFormatError
      ensures !Validate(old(Form())).Accepted? ==> unchanged(store) && unchanged(entries)
      ensures Validate(old(Form())).Accepted? ==>
                store.calls == old(store.calls) + [Write.Insert(Validate(old(Form())).clean)]
      ensures outcome == Booked <==>
                Validate(old(Form())).Accepted? && ok && old(store.tableExists) && old(store.sequence) < MaxRowId
      ensures outcome == Booked ==>
                store.Table() == old(store.Table())[old(store.sequence) + 1 := Validate(old(Form())).clean]
      ensures outcome == Booked ==> forall k :: 0 <= k < entries.Length ==> entries[k] == ""
      ensures outcome != Booked ==> entries[..] == old(entries[..]) && store.rows == old(store.rows)
      ensures store.tableExists == old(store.tableExists)
      ensures outcome == Booked ==>
                store.sequence == old(store.sequence) + 1 && store.issued == old(store.issued) + {store.sequence}
      ensures outcome != Booked ==> store.sequence == old(store.sequence) && store.issued == old(store.issued)
      ensures next == if outcome == Booked then Some(HomeScreen) else None
    {
      var verdict := Validate(Form());
      match verdict
      case FieldMissing =>
        outcome, next := MissingFieldError, None;
      case DateMalformed =>
        outcome, next := DateFormatError, None;
      case Accepted(clean) =>
        outcome, next := Book(clean, ok);
    }
  }
}
