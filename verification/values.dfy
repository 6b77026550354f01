/**
 * Values shared by the reservation store and the three pages: an Option type,
 * the values SQLite binds and returns, the text a Tk entry shows for a value,
 * and the screens the application can navigate to.
 */
module Values {

  datatype Option<T> = None | Some(value: T)

  /** A value as SQLite binds it to a statement parameter or returns it from a column. */
  datatype SqlValue = Integer(i: int) | Text(s: string)

  /** The pages that `FlightApp.show_frame` can raise. */
  datatype Screen = HomeScreen | BookingScreen | ReservationsScreen | EditScreen

  /** The number a string of decimal digits denotes, most significant first. */
  function DecimalValue(s: string): (v: int)
  {
    if s == [] then 0 else 10 * DecimalValue(s[..|s| - 1]) + (s[|s| - 1] as int - '0' as int)
  }

  /** The character of one decimal digit. */
  function DigitChar(d: nat): (c: char)
    requires d < 10
    ensures '0' <= c <= '9' && c as int - '0' as int == d
  {
    ('0' as int + d) as char
  }

  /**
   * The decimal digits of `n`, most significant first: only digits, no
   * leading zero except in "0", and denoting `n`.
   */
  function Digits(n: nat): (r: string)
    ensures |r| >= 1 && (r[0] == '0' ==> r == "0")
    ensures forall k :: 0 <= k < |r| ==> '0' <= r[k] <= '9'
    ensures DecimalValue(r) == n
    decreases n
  {
    if n < 10 then
      var r := [DigitChar(n)];
      assert r[..0] == [];
      r
    else
      var prefix := Digits(n / 10);
      var r := prefix + [DigitChar(n % 10)];
      assert r[..|r| - 1] == prefix;
      r
  }

  /** The text an entry holds after `insert(0, v)`: Python's `str(v)`. */
  function Display(v: SqlValue): (text: string)
  {
    match v
    case Text(s) => s
    case Integer(i) => if i < 0 then "-" + Digits(-i) else Digits(i)
  }
}
