/**
 * EditReservationPage (edit_reservation.py): the id of the reservation being
 * edited, six entries pre-filled from a list row, and an update action that
 * applies the same form check as the booking page before calling the store.
 */
module EditReservation {
  import opened Values
  import opened Database
  import opened FormRules

  /** How `update_reservation` ends: the dialog it shows. */
  datatype UpdateOutcome =
    | NothingToEdit       // "No reservation selected for editing."
    | MissingFieldError   // "All fields are required!"
    | DateFormatError     // "Please use YYYY-MM-DD format for the date."
    | Updated             // "Reservation ID ... updated successfully!"
    | UpdateFailed        // "Failed to update reservation."

  class EditReservationPage {
    const store: Store
    /** `self.reservation_id`: the id cell of the row being edited, None until `set_data` receives one. */
    var reservationId: Option<SqlValue>
    /** The entry widgets' contents, in the order Name, Flight Number, Departure, Destination, Date, Seat Number. */
    const entries: array<string>

    ghost predicate Valid()
      reads this, store
    {
      entries.Length == FieldCount && store.Valid()
    }

    /** The form as it stands. */
    function Form(): (form: Details)
      reads this, entries
      requires entries.Length == FieldCount
    {
      FormOf(entries[..])
    }

    constructor (store: Store)
      requires store.Valid()
      ensures Valid() && this.store == store && fresh(entries)
      ensures reservationId == None
      ensures forall k :: 0 <= k < entries.Length ==> entries[k] == ""
    {
      this.store := store;
      reservationId := None;
      entries := new string[FieldCount](_ => "");
    }

    /**
     * set_data: a non-empty row makes its first cell the id being edited and
     * fills entry k with the text of cell k + 1; an empty row changes nothing.
     * A non-empty row must have the seven cells of a list row (a shorter one
     * raises IndexError in the source).
     */
    method SetData(data: seq<SqlValue>)
      requires Valid()
      requires data == [] || |data| > FieldCount
      modifies this, entries
      ensures Valid()
      ensures data == [] ==> reservationId == old(reservationId) && entries[..] == old(entries[..])
      ensures data != [] ==> reservationId == Some(data[0])
      ensures data != [] ==> forall k :: 0 <= k < FieldCount ==> entries[k] == Display(data[k + 1])
    {
      if data != [] {
        reservationId := Some(data[0]);
        var i := 0;
        while i < FieldCount
          modifies entries
          invariant 0 <= i <= FieldCount
          invariant forall k :: 0 <= k < i ==> entries[k] == Display(data[k + 1])
        {
          entries[i] := Display(data[i + 1]);
          i := i + 1;
        }
      }
    }

    /**
     * The store call and what follows it: update_reservation once with `key`
     * and `clean`; on success the page returns to the list.
     */
    method Save(key: SqlValue, clean: Details, ok: bool) returns (outcome: UpdateOutcome, next: Option<Screen>)
      requires Valid()
      modifies store
      ensures Valid()
      ensures store.calls == old(store.calls) + [Write.Update(key, clean)]
      ensures outcome == Updated <==> ok && old(store.tableExists)
      ensures outcome != Updated ==> outcome == UpdateFailed && store.rows == old(store.rows)
      ensures outcome == Updated ==>
                store.Table() == if key.Integer? && key.i in old(store.Table())
                                 then old(store.Table())[key.i := clean] else old(store.Table())
      ensures next == if outcome == Updated then Some(ReservationsScreen) else None
      ensures store.tableExists == old(store.tableExists) && store.sequence == old(store.sequence)
              && store.issued == old(store.issued)
    {
      var updated := store.Update(key, clean, ok);
      if updated {
        outcome, next := Updated, Some(ReservationsScreen);
      } else {
        outcome, next := UpdateFailed, None;
      }
    }

    /**
     * The part of update_reservation after the id check: the form check of the
     * booking page, then one call of update_reservation with `key` and the
     * stripped values.
     */
    method CheckAndSave(key: SqlValue, ok: bool) returns (outcome: UpdateOutcome, next: Option<Screen>)
      requires Valid()
      modifies store
      ensures Valid()
      ensures Validate(old(Form())) == FieldMissing <==> outcome == MissingFieldError
      ensures Validate(old(Form())) == DateMalformed <==> outcome == DateFormatError
      ensures !Validate(old(Form())).Accepted? ==> unchanged(store)
      ensures Validate(old(Form())).Accepted? ==>
                store.calls == old(store.calls) + [Write.Update(key, Validate(old(Form())).clean)]
      ensures outcome == Updated <==> Validate(old(Form())).Accepted? && ok && old(store.tableExists)
      ensures outcome == Updated ==>
                store.Table() == if key.Integer? && key.i in old(store.Table())
                                 then old(store.Table())[key.i := Validate(old(Form())).clean]
                                 else old(store.Table())
      ensures outcome != Updated ==> store.rows == old(store.rows)
      ensures next == if outcome == Updated then Some(ReservationsScreen) else None
      ensures store.tableExists == old(store.tableExists) && store.sequence == old(store.sequence)
              && store.issued == old(store.issued)
    {
      var verdict := Validate(Form());
      match verdict
      case FieldMissing =>
        outcome, next := MissingFieldError, None;
      case DateMalformed =>
        outcome, next := DateFormatError, None;
      case Accepted(clean) =>
        outcome, next := Save(key, clean, ok);
    }

    /**
     * update_reservation: without an id nothing happens but the error dialog;
     * otherwise the form check and the store call of CheckAndSave, with the
     * stored id. `ok` says whether the UPDATE commits. Success returns to the
     * list page.
     */
    method UpdateReservation(ok: bool) returns (outcome: UpdateOutcome, next: Option<Screen>)
      requires Valid()
      modifies store
      ensures Valid()
      ensures reservationId == None ==> outcome == NothingToEdit && next == None && unchanged(store)
      ensures reservationId != None ==>
                (Validate(Form()) == FieldMissing <==> outcome == MissingFieldError)
      ensures reservationId != None ==>
                (Validate(Form()) == DateMalformed <==> outcome == DateFormatError)
      ensures !(reservationId != None && Validate(Form()).Accepted?) ==> unchanged(store)
      ensures reservationId != None && Validate(Form()).Accepted? ==>
                store.calls == old(store.calls) + [Write.Update(reservationId.value, Validate(Form()).clean)]
      ensures outcome == Updated <==>
                reservationId != None && Validate(Form()).Accepted? && ok && old(store.tableExists)
      ensures outcome == Updated ==>
                var key := reservationId.value;
                store.Table() == if key.Integer? && key.i in old(store.Table())
                                 then old(store.Table())[key.i := Validate(Form()).clean]
                                 else old(store.Table())
      ensures outcome != Updated ==> store.rows == old(store.rows)
      ensures next == if outcome == Updated then Some(ReservationsScreen) else None
      ensures store.tableExists == old(store.tableExists) && store.sequence == old(store.sequence)
              && store.issued == old(store.issued)
    {
      match reservationId
      case None =>
        outcome, next := NothingToEdit, None;
      case Some(key) =>
        outcome, next := CheckAndSave(key, ok);
    }
  }
}
