/**
 * The input rule that BookingPage.submit and EditReservationPage.update_reservation
 * both apply to their six entries before calling the store: strip surrounding
 * whitespace, require every field to be non-empty, then require the date to
 * have the shape `....-..-..`.
 */
module FormRules {
  import opened Database

  /** Entries on each form, in the order Name, Flight Number, Departure, Destination, Date, Seat Number. */
  const FieldCount: nat := 6

  /** Python's `str.isspace` on one character: what `str.strip()` removes by default. */
  predicate IsSpace(c: char)
  {
    || '\t' <= c <= '\r'
    || '\U{1C}' <= c <= '\U{1F}'
    || c == ' ' || c == '\U{85}' || c == '\U{A0}' || c == '\U{1680}'
    || '\U{2000}' <= c <= '\U{200A}'
    || c == '\U{2028}' || c == '\U{2029}' || c == '\U{202F}' || c == '\U{205F}' || c == '\U{3000}'
  }

  /** The string is empty or holds whitespace only. */
  predicate Blank(s: string)
  {
    forall k :: 0 <= k < |s| ==> IsSpace(s[k])
  }

  /** `s.lstrip()`: the longest suffix of `s` that does not start with whitespace. */
  function TrimStart(s: string): (r: string)
    ensures |r| <= |s| && r == s[|s| - |r|..]
    ensures r != [] ==> !IsSpace(r[0])
  {
    if s != [] && IsSpace(s[0]) then TrimStart(s[1..]) else s
  }

  /** Everything `TrimStart` drops is whitespace. */
  lemma {:induction false} TrimStartDropsSpace(s: string)
    ensures Blank(s[..|s| - |TrimStart(s)|])
  {
    if s != [] && IsSpace(s[0]) {
      var t := s[1..];
      TrimStartDropsSpace(t);
      assert TrimStart(s) == TrimStart(t);
      var n := |s| - |TrimStart(s)|;
      assert Blank(t[..n - 1]);
      forall k | 0 <= k < n
        ensures IsSpace(s[..n][k])
      {
        if k == 0 {
          assert s[..n][k] == s[0];
        } else {
          assert s[..n][k] == t[..n - 1][k - 1];
        }
      }
    }
  }

  /** `s.rstrip()`: the longest prefix of `s` that does not end with whitespace. */
  function TrimEnd(s: string): (r: string)
    ensures |r| <= |s| && r == s[..|r|]
    ensures r != [] ==> !IsSpace(r[|r| - 1])
  {
    if s != [] && IsSpace(s[|s| - 1]) then TrimEnd(s[..|s| - 1]) else s
  }

  /** Everything `TrimEnd` drops is whitespace. */
  lemma {:induction false} TrimEndDropsSpace(s: string)
    ensures Blank(s[|TrimEnd(s)|..])
  {
    if s != [] && IsSpace(s[|s| - 1]) {
      var p := s[..|s| - 1];
      TrimEndDropsSpace(p);
      var n := |TrimEnd(s)|;
      forall k | 0 <= k < |s| - n
        ensures IsSpace(s[n..][k])
      {
        if k < |s| - n - 1 {
          assert s[n..][k] == p[n..][k];
        }
      }
    }
  }

  /**
   * `s.strip()`: the slice of `s` left once the whitespace at both ends is
   * gone. It is empty exactly when `s` is blank.
   */
  function Strip(s: string): (r: string)
    ensures r == [] || (!IsSpace(r[0]) && !IsSpace(r[|r| - 1]))
    ensures r == [] <==> Blank(s)
  {
    var t := TrimStart(s);
    var r := TrimEnd(t);
    assert r == [] ==> Blank(s) by {
      if r == [] {
        TrimEndDropsSpace(t);
        assert t == [];
        TrimStartDropsSpace(s);
        assert s[..|s| - |t|] == s;
      }
    }
    assert t != [] ==> !Blank(s) by {
      if t != [] {
        assert t[0] == s[|s| - |t|];
      }
    }
    r
  }

  /** The slice `Strip` returns sits between two runs of whitespace of `s`. */
  lemma StripIsOuterTrim(s: string)
    ensures exists i, j :: 0 <= i <= j <= |s| && Strip(s) == s[i..j]
                        && Blank(s[..i]) && Blank(s[j..])
  {
    var t := TrimStart(s);
    var i := |s| - |t|;
    var j := i + |TrimEnd(t)|;
    assert Strip(s) == s[i..j];
    TrimStartDropsSpace(s);
    TrimEndDropsSpace(t);
    assert s[j..] == t[|TrimEnd(t)|..];
  }

  /** Stripping twice is stripping once. */
  lemma StripIdempotent(s: string)
    ensures Strip(Strip(s)) == Strip(s)
  {
  }

  /** The six values of a form. */
  function FormOf(entries: seq<string>): (form: Details)
    requires |entries| == FieldCount
  {
    Details(entries[0], entries[1], entries[2], entries[3], entries[4], entries[5])
  }

  /** Every field stripped, as `.get().strip()` does entry by entry. */
  function Stripped(d: Details): (clean: Details)
  {
    Details(Strip(d.name), Strip(d.flightNumber), Strip(d.departure),
            Strip(d.destination), Strip(d.date), Strip(d.seatNumber))
  }

  /** `all([name, flight_number, departure, destination, date, seat_number])`. */
  predicate AllPresent(d: Details)
  {
    d.name != [] && d.flightNumber != [] && d.departure != []
    && d.destination != [] && d.date != [] && d.seatNumber != []
  }

  /** `len(date) == 10 and date[4] == '-' and date[7] == '-'`; no calendar check. */
  predicate DateShaped(date: string)
  {
    |date| == 10 && date[4] == '-' && date[7] == '-'
  }

  /** Some field of the raw form is empty or whitespace only. */
  predicate AnyBlank(d: Details)
  {
    Blank(d.name) || Blank(d.flightNumber) || Blank(d.departure)
    || Blank(d.destination) || Blank(d.date) || Blank(d.seatNumber)
  }

  /** The three ways a form check ends: the two input-error dialogs, or the clean values. */
  datatype Verdict = FieldMissing | DateMalformed | Accepted(clean: Details)

  /**
   * The form check, in the source's order: presence first, so a blank date is
   * reported as a missing field and never reaches the date-shape test.
   */
  function Validate(entered: Details): (v: Verdict)
    ensures v == FieldMissing <==> AnyBlank(entered)
    ensures v == DateMalformed <==> !AnyBlank(entered) && !DateShaped(Strip(entered.date))
    ensures v.Accepted? ==> v.clean == Stripped(entered)
    ensures v.Accepted? ==> AllPresent(v.clean) && DateShaped(v.clean.date)
  {
    var clean := Stripped(entered);
    if !AllPresent(clean) then FieldMissing
    else if !DateShaped(clean.date) then DateMalformed
    else Accepted(clean)
  }

  /**
   * Accepted values pass the check again unchanged: a stored reservation shown
   * on the edit form and submitted as it is reaches the store as it was.
   */
  lemma AcceptedIsStable(entered: Details)
    ensures Validate(entered).Accepted? ==> Validate(Validate(entered).clean) == Validate(entered)
  {
    StripIdempotent(entered.name);
    StripIdempotent(entered.flightNumber);
    StripIdempotent(entered.departure);
    StripIdempotent(entered.destination);
    StripIdempotent(entered.date);
    StripIdempotent(entered.seatNumber);
  }
}
