/**
 * The error handling every function of database.py shares: `conn =
 * sqlite3.connect(...)` and the statement inside `try`, an `except
 * sqlite3.Error` handler that shows a dialog and returns a fallback value,
 * and a `finally` that closes the connection `if conn:`.
 *
 * `conn` is assigned only inside `try`, so when `connect` itself raises, the
 * `finally` reads a local that was never bound: UnboundLocalError replaces
 * the handler's fallback. `GuardedAsWritten` is that behaviour, `Guarded` the
 * intended one (`conn` bound before `try`), which the store's `ok` flag models.
 */
module ExitPaths {

  /** Where, if anywhere, a database function's `try` block raises sqlite3.Error. */
  datatype Fault = NoFault | ConnectFails | StatementFails

  /** How a Python function ends: it returns a value or lets an exception escape. */
  datatype Exit<T> = Returned(value: T) | Raised(error: string)

  /** The exception Python raises when a local variable is read before assignment. */
  const UnboundLocal: string := "UnboundLocalError"

  /**
   * The `try`/`except` part: the result when nothing raises, the handler's
   * fallback when connect or the statement raises sqlite3.Error.
   */
  function Pending<T>(fault: Fault, result: T, fallback: T): (e: Exit<T>)
    ensures e.Returned?
  {
    if fault == NoFault then Returned(result) else Returned(fallback)
  }

  /**
   * The `finally` part: closing the connection reads `conn`; when it was never
   * bound the read raises and replaces the pending exit, otherwise the pending
   * exit stands.
   */
  function Finally<T>(pending: Exit<T>, connBound: bool): (e: Exit<T>)
    ensures connBound ==> e == pending
    ensures !connBound ==> e == Raised(UnboundLocal)
  {
    if connBound then pending else Raised(UnboundLocal)
  }

  /** The functions as written: `conn` is bound only once `connect` has returned. */
  function GuardedAsWritten<T>(fault: Fault, result: T, fallback: T): (e: Exit<T>)
  {
    Finally(Pending(fault, result, fallback), fault != ConnectFails)
  }

  /** As written, a failed connection escapes as UnboundLocalError instead of returning the fallback. */
  lemma ConnectFailureEscapes<T>(result: T, fallback: T)
    ensures GuardedAsWritten(ConnectFails, result, fallback) == Raised(UnboundLocal)
    ensures Pending(ConnectFails, result, fallback) == Returned(fallback)
  {
  }

  /** The intended functions: `conn = None` before `try`, so the `finally` always finds it bound. */
  function Guarded<T>(fault: Fault, result: T, fallback: T): (e: Exit<T>)
    ensures e.Returned?
    ensures e.value == if fault == NoFault then result else fallback
  {
    Finally(Pending(fault, result, fallback), true)
  }

  /** Apart from a failed connection, the functions as written already behave as intended. */
  lemma AsWrittenOtherwiseIntended<T>(fault: Fault, result: T, fallback: T)
    ensures GuardedAsWritten(fault, result, fallback) == Guarded(fault, result, fallback)
            <==> fault != ConnectFails
  {
  }
}
