/** Option, Result and the errors that the pipeline raises.  Each error names the
    Python exception it stands for. */
module Wrappers {

  datatype Option<T> = None | Some(value: T)

  /** The exceptions of the pipeline.  All are `ValueError` in Python except
      `MissingRange` (an argparse usage error), `RowNotIterable` (a
      `TypeError`), `MissingColumn` (a `KeyError`), `IsADirectory` (an
      `OSError`) and `FetchFailed`, whatever the crawler raised. */
  datatype Error =
    | MissingRange         // argparse: no `--range` was given
    | MalformedRange       // `s.split(":")` did not give exactly two parts
    | InvalidDate          // `strptime` refused one of the two dates
    | PerRangeOutOfBounds  // `check_range`: the cap is outside [50, 1000]
    | RowNotIterable       // `write_csv`: the row has no `__iter__`
    | RowTooShort          // `write_csv`: the row has fewer than two fields
    | NotRelative          // `relative_to`: the path does not lie under the base
    | InvalidSource        // `PathIterator`: neither a `.csv` file nor a directory
    | IsADirectory         // `open(path, "w")` on a directory
    | MissingColumn        // a data frame has no column of that name
    | FetchFailed(reason: string)

  datatype Result<T> = Ok(value: T) | Err(error: Error)
}
