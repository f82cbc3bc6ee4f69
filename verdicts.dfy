/** What a validator reports, and the slice of a command that validators look at. */
module Verdicts {

  /** The wiring defects on which the Go code panics instead of returning an error. */
  datatype Panic =
    | MissingFlag(name: string)                 // cmd.Flag(name) found no such flag
    | IndexOutOfRange(index: int, length: nat)  // args[i] outside the argument slice
    | NoDestinations                            // a broadcast value built over no string pointers

  /** The verdict of one validator run: nil, a returned error, or a panic. */
  datatype Outcome = Ok | Err(msg: string) | Fatal(cause: Panic)

  /**
   * The command a validator is handed. Only flag lookup is modelled: a flag name is
   * declared exactly when it is a key of `flags`, and its value is the flag's Changed bit
   * (whether the user supplied it on this invocation).
   */
  datatype Command = Command(flags: map<string, bool>)
}
