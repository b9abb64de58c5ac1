/** The ways processing one photo can fail. The program catches none of
    them: each one is an exception that ends the run. */
module Outcomes {

  datatype Failure =
    | MissingTag(id: nat)                  // KeyError on a tag lookup
    | NotText(id: nat)                     // a tag value without .decode
    | BadTimestamp(text: string)           // ValueError from strptime
    | OutOfRange                           // OverflowError from datetime + timedelta
    | BadGpsTime                           // GPSTimeStamp not usable as hour/minute/second
    | MissingFile(path: string)            // the photo is not there to load or move
    | SameFile(path: string)               // shutil.SameFileError from copyfile

  /** Success or the failure that stopped the computation; usable with `:-`. */
  datatype Result<+T> = Ok(value: T) | Err(error: Failure) {
    predicate IsFailure() { Err? }

    function PropagateFailure<U>(): Result<U>
      requires Err?
    {
      Err(error)
    }

    function Extract(): T
      requires Ok?
    {
      value
    }
  }

  datatype Option<+T> = None | Some(value: T)
}
