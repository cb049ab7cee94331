/** Outcomes of the parser's operations: the Python exceptions the modelled
    code raises and never catches, carried as values. */
module Outcomes {

  datatype Option<+T> = None | Some(value: T)

  /** The exceptions that escape the modelled functions. */
  datatype Error =
    | IndexError            // a list index past the end: too few tokens or path parts
    | KeyError(key: string) // `row[status_code]` for a code the row does not have
    | TypeError             // `row["time"] += 1`: adding an int to the minute string

  datatype Result<+T> = Success(value: T) | Failure(error: Error)
}
