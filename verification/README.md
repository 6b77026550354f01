# FlightyReserveMate in Dafny

FlightyReserveMate is a tkinter desktop application for flight reservations
kept in one SQLite table, `reservations` in `flights.db`. This project models
the logic under its widgets and proves properties of it:

- **The reservation store** (`database.dfy`, module `Database`). This is the
  six functions of `database.py`: `create_table`, `add_reservation`,
  `get_all_reservations`, `get_reservation_by_id`, `update_reservation` and
  `delete_reservation`.
  - Class `Store` holds the rows in rowid order, SQLite's AUTOINCREMENT
    counter (`sqlite_sequence`) and whether the table exists.
  - Its abstract view `Table()` maps each id to the six text columns.
  - A ghost log records every write statement issued, and a ghost set records
    every id ever assigned.
  - Each statement takes an `ok` flag: false means the storage engine raised
    `sqlite3.Error`.
- **The form check** (`form_rules.dfy`, module `FormRules`). Both pages apply
  it: Python's `str.strip`, the presence test and the `YYYY-MM-DD` shape test,
  in that order.
- **The booking page** (`booking.dfy`, `Booking.BookingPage.Submit`). The six
  entries are an array.
- **The edit page** (`edit_reservation.dfy`, module `EditReservation`). This is
  `set_data`, which fills the form from a list row, and `update_reservation`.
- **The list page** (`reservations.dfy`, module `Reservations`).
  - `populate_table` shows the tree's rows as a sequence, with a placeholder
    row for an empty result.
  - `edit_selected_reservation` applies the single-selection rule.
  - `delete_selected_reservation` runs the filter, confirm and count loop.
- **The error path shared by the store functions** (`exit_paths.dfy`, module
  `ExitPaths`). See Findings.
- **A session against a fresh database** (`scenario.dfy`): book, list, change,
  look up and cancel one reservation.
- `values.dfy` holds the cell values shared by the store and the tree
  (`Integer` or `Text`) and `str()` of a cell.

How the model stands in for the application's inputs and outputs:
- A message box becomes an outcome value.
- Navigation through `show_frame` becomes the returned `Option<Screen>`.
- The answer to the delete confirmation is an input.
- The outcome of each SQL statement is an input.

The store's error handling is meant to turn every storage error into `False`,
`[]` or `None`, so that no exception escapes. The code breaks that when the
connection itself cannot be opened. The model records the code as written
under Findings, and the store uses the intended behaviour.

## Model

| member | source | states |
|---|---|---|
| Database.Replaced | database.py:127-131 | The UPDATE keeps every row's id and position. Matching rows get all six new columns; every other row keeps its columns. |
| Database.Without | database.py:154 | The DELETE keeps exactly the rows whose id does not match, never grows the table, and keeps ids ascending. |
| Database.Find | database.py:97-98 | The point lookup returns a row of the table whose id matches the key, or None only when no row matches. |
| Database.TableOfAppend | database.py:50-53 | Appending a row under a new id adds exactly that entry to the id-to-columns map. |
| Database.TableOfReplaced | database.py:127-131 | On the map, an update changes only the entry under the key, and only if the key is present. A missing key leaves the map unchanged. |
| Database.TableOfWithout | database.py:154 | On the map, a delete removes the key's entry, if any, and nothing else. A text key removes nothing. |
| Database.FindAgrees | database.py:97-98 | The point lookup on the rows agrees with a lookup in the map view. |
| Database.Store.CreateTable | database.py:6-30 | Creating the table is idempotent. Afterwards the table exists if it existed or the statement succeeded. Rows, counter, write log and issued ids are untouched. |
| Database.Store.Add | database.py:32-61 | Reports true exactly when the INSERT commits: no storage error, the table exists, and the counter is below 2^63-1. It logs one Insert with the given columns. On success the new id is one above the counter, differs from and exceeds every id ever assigned, and its row is appended holding exactly the six values; no other entry changes. On failure nothing changes. |
| Database.Store.ListAll | database.py:63-82 | Returns [] on error or before the table exists. Otherwise returns one row per entry of the table, in ascending id order, each row matching its entry exactly. |
| Database.Store.GetById | database.py:84-105 | Returns Some exactly when the statement succeeds and the key is an id present in the table; the result holds that id and its stored columns. Otherwise returns None. |
| Database.Store.Update | database.py:108-139 | Reports true whenever the statement commits, even when no row matches. On success the table changes only at the key, and only if the key is present. The counter and issued ids never change. The call is logged. |
| Database.Store.Delete | database.py:141-162 | Reports true whenever the statement commits. On success the key's entry is removed, and the row count drops by one exactly when the key was present. The counter and issued ids never change, so a deleted id is never assigned again. |
| Values.Digits | edit_reservation.py:53 | The text an entry shows for a non-negative integer cell is canonical decimal notation: only digits, no leading zero except in "0", and it denotes exactly the number. |
| FormRules.Strip | booking.py:44-49 | The stripped text neither starts nor ends with Python whitespace, and it is empty exactly when the entry is blank. |
| FormRules.StripIsOuterTrim | booking.py:44-49 | The stripped text is a slice of the entry; everything cut off on either side is whitespace. |
| FormRules.StripIdempotent | booking.py:44-49 | Stripping twice is the same as stripping once. |
| FormRules.Validate | booking.py:44-59 | Missing field is reported exactly when some entry is blank. A malformed date is reported exactly when all fields are present and the stripped date is not 10 characters with '-' at indices 4 and 7. An accepted form carries the six stripped values, all non-empty and with a date of that shape. The presence check comes first. The edit page applies the same function (edit_reservation.py:64-79), so both pages accept exactly the same inputs. |
| FormRules.AcceptedIsStable | edit_reservation.py:64-79 | Submitting accepted, stripped values again is accepted with the same values. |
| Booking.BookingPage.constructor | booking.py:18-25 | The six entries start empty. |
| Booking.BookingPage.ClearEntries | booking.py:65-66 | Every entry is emptied. |
| Booking.BookingPage.Book | booking.py:62-69 | add_reservation is called once with the clean values. Booked exactly when it reports success; then the entries are cleared and the page returns home. On failure the entries and rows stay as they were. The table's existence never changes. The id counter advances by one only on a booking, and the new id joins the issued ids; otherwise the counter and issued ids are unchanged. |
| Booking.BookingPage.Submit | booking.py:39-69 | The outcome follows Validate of the entries as they stood. A rejected form leaves the store and the entries untouched. An accepted form makes exactly one Insert call with the stripped values. The form is booked exactly when accepted and the insert commits; the new row holds the stripped values, the entries are emptied and navigation goes home. Otherwise the entries keep their contents. The table's existence never changes. The id counter advances by one only on a booking, and the new id joins the issued ids; otherwise the counter and issued ids are unchanged. |
| EditReservation.EditReservationPage.constructor | edit_reservation.py:9 | No reservation is selected for editing at first. |
| EditReservation.EditReservationPage.SetData | edit_reservation.py:39-53 | A non-empty row sets the id to its first cell and fills entry k with str() of cell k+1. An empty row leaves the id and the entries unchanged. |
| EditReservation.EditReservationPage.Save | edit_reservation.py:82-86 | update_reservation is called once with the id and the clean values. Updated exactly when it commits, and then the table changes only at an existing key and navigation goes to the list. The table's existence, the id counter and the issued ids never change. |
| EditReservation.EditReservationPage.CheckAndSave | edit_reservation.py:64-86 | The same check as booking decides the outcome. Only an accepted form reaches the store, as one Update with the stored id and the stripped values. The table's existence, the id counter and the issued ids never change. |
| EditReservation.EditReservationPage.UpdateReservation | edit_reservation.py:55-86 | With no id it reports the error and leaves the store untouched. Otherwise it behaves like CheckAndSave with the stored id. It returns to the list only on success. The table's existence, the id counter and the issued ids never change. |
| Reservations.ListingNoDataRows | reservations.py:83-88 | A listed row passes the "No reservations found." test exactly when the table is empty (the placeholder) or the reservation holds that text in one of its columns. |
| Reservations.EditorReceivesRow | reservations.py:113-119 | A listed row handed to the edit page gives it the reservation's id and fills the form with exactly its six columns. |
| Reservations.Targets | reservations.py:132-136 | The items to delete are selected items that do not show the placeholder text, each paired with its first cell. Every such selected item is included, and there are never more than selected. |
| Reservations.TargetsConcat | reservations.py:132-136 | The targets of a selection split in two are the targets of the first part followed by those of the second. Targets therefore follow the selection order, one entry per selected real row. |
| Reservations.TargetsOfOne | reservations.py:133-136 | A single selected item yields no target when it shows the placeholder text; otherwise it yields exactly itself paired with its first cell. |
| Reservations.CountTrue | reservations.py:144-150 | The count never exceeds the number of deletes, and it is zero exactly when none reported success. |
| Reservations.CountTrueCounts | reservations.py:144-150 | The count is the number of deletes that reported success (the multiplicity of true among the outcomes), whatever their order. |
| Reservations.AfterDeletes | reservations.py:145-147 | After the deletes, exactly the ids of committed deletes are gone from the table; every other entry keeps its columns. |
| Reservations.ReservationsPage.constructor | reservations.py:60-61 | The page opens showing the listing of the store. |
| Reservations.ReservationsPage.ClearTree | reservations.py:76-77 | Every existing item is removed. |
| Reservations.ReservationsPage.InsertReservations | reservations.py:83-85 | One untagged item per reservation, in query order, each with a fresh item id. |
| Reservations.ReservationsPage.PopulateTable | reservations.py:70-89 | The tree shows one row per stored reservation, in store order. If there are none, or the query fails, it shows exactly the tagged placeholder row. No earlier item survives. |
| Reservations.ReservationsPage.EditSelected | reservations.py:96-119 | No selection and multiple selections produce their warnings. A single placeholder row is ignored silently. Only a single real row opens the editor, with its id and six fields. Nothing changes otherwise. |
| Reservations.ReservationsPage.CollectTargets | reservations.py:131-136 | The filtering loop builds exactly the list Targets describes. |
| Reservations.ReservationsPage.DeleteEach | reservations.py:144-150 | One Delete is logged per target, in order. The table loses exactly the committed ids. The count equals the number of deletes that reported success. The table's existence, the id counter and the issued ids never change, so a deleted id is never assigned again. |
| Reservations.ReservationsPage.DeleteSelected | reservations.py:121-156 | The store is not touched when nothing is selected, when only placeholders are selected, or when the user declines. Otherwise there is one DELETE per target, and the count is at most the number of targets. The list is refreshed exactly when the count is positive; otherwise the tree is unchanged. The table's existence, the id counter and the issued ids never change. |
| ExitPaths.ConnectFailureEscapes | database.py:47-61 | As written, a failed connect ends in UnboundLocalError raised from `finally`, although the handler had the fallback ready. |
| ExitPaths.Guarded | database.py:47-61 | With the connection bound before `try`, every path returns: the result without a fault, the fallback with one. |
| ExitPaths.AsWrittenOtherwiseIntended | database.py:47-61 | The written and the intended error handling differ exactly on a failed connect. |
| Scenario.BookChangeCancel | database.py:32-162 | Against a fresh database: create the table twice, then list (empty). Add, and the list is the one reservation under id 1. Update, and the lookup returns the new columns under id 1. Delete, and the list is empty while the counter stays at 1. |

## Left out

- SQLite mechanics are not modelled: connections, cursors, SQL text, the file `flights.db`, commit and close. A storage error is the `ok` input of each store method.
- Concurrent access from several processes is not modelled; the code does nothing about it.
- Database.Store.Add: SQLITE_FULL at the counter's maximum is modelled only as a failed insert, not the error message.
- Database.Matches: a text key matches no row. SQLite's type affinity would make `id = '3'` select row 3; that coercion is not modelled.
- Tk's conversion of Treeview values is not modelled (cells come back as strings, or as integers when they look like integers). The tree keeps the cells as they were inserted.
- Database.Store.ListAll: the query has no ORDER BY, so rowid order is what SQLite's full scan of this table yields, not something SQL promises.
- Message boxes, and the `print` for a failed delete (reservations.py:150), are not modelled. Each dialog becomes an outcome value; the user's yes/no is the `confirm` input.
- Widget layout, styles and fonts are not modelled: home.py and the widget construction in the three page classes.
- Navigation through `FlightApp.show_frame` (main.py:48-60) is not modelled. Pages return the screen to raise. Returning to the list page would refresh it through `on_show_page`, which calls PopulateTable; the model does not chain that call.
- `on_double_click` (reservations.py:92-94) is not a member of its own; it calls the same action as EditSelected.
- The no-op methods `BookingPage.set_data` and `EditReservationPage.on_show_page` are not modelled.
- `ReservationsPage.on_show_page` (reservations.py:63-68) is not a member of its own: its only action is a call to PopulateTable.
- EditReservation.EditReservationPage.SetData requires a non-empty row to have at least seven cells. A shorter row raises IndexError in the source; that path is not modelled. Every row the list page passes has seven cells.
- Reservations.ReservationsPage.EditSelected and Reservations.ReservationsPage.DeleteSelected require every selected id to name an item of the tree, as Tk's selection always does.
- Database.Store: the store methods follow the intended error handling of ExitPaths.Guarded. A failed connection reports failure instead of raising UnboundLocalError; the as-written behaviour is in ExitPaths and Findings.

## Findings

| source | as written | input that shows it | evidently intended | confidence | as-written member | corrected member |
|---|---|---|---|---|---|---|
| database.py:29-30 | `conn` is assigned only inside `try`, and `finally` tests `if conn:`. The same holds at database.py:60-61, 81-82, 104-105, 138-139 and 161-162. | `sqlite3.connect` raises, for example because the database file cannot be opened. The handler shows its dialog and returns the fallback, but `finally` then reads the unbound `conn`, and UnboundLocalError escapes instead of `False`/`[]`/`None`. At import time `create_table()` (database.py:165) would abort the import. | `conn = None` before `try`, so every storage error ends in the fallback value | not executed; high | ExitPaths.ConnectFailureEscapes | ExitPaths.Guarded |
