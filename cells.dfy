/** The untyped cell values a spreadsheet reader hands to the cleaning
    pipeline, and the exceptions that abort the processing of one file. */
module Cells {

  /** One spreadsheet cell, classified by the shape of its value. */
  datatype Cell =
    | Str(s: string)                   // a text cell
    | TimeOfDay(hour: nat, minute: nat, second: nat, microsecond: nat)
    | Num(x: real)                     // an integer or floating-point number
    | Missing                          // NaN: an empty cell or a failed coercion
    | Other                            // any other value (a date-time, ...)

  /** The exceptions the pipeline can raise; none is caught, so each one ends
      the run in the middle of the file being processed. */
  datatype Error =
    | IndexError    // indexing an empty string or an empty column
    | ValueError    // a number or a duration that does not parse
    | TypeError     // arithmetic or a comparison on a non-numeric cell
    | KeyError      // a column name the table does not have
    | IndexingError // a boolean mask whose labels do not match the rows

  datatype Result<T> = Ok(value: T) | Err(error: Error)

  datatype Option<T> = None | Some(value: T)
}
