/** Outcome types shared by the whole model.  The source signals failure by
    raising Python exceptions; here every operation that can raise returns a
    `Result` whose `Err` names the exception class that would escape. */
module Errors {

  datatype Option<+T> = None | Some(value: T)

  /** The exceptions that can leave the modelled operations. */
  datatype Failure =
    | Unrecognizable   // Mp4UnrecognizableException: unknown size or missing CSMDAT magic
    | IndexError       // `findall(...)[0]` with no match, or a list index out of range
    | ValueError       // float(), strptime(), range() or list.index() rejecting its argument
    | WriteError       // the bare Exception raised when an image cannot be written

  datatype Result<+T> = Ok(value: T) | Err(error: Failure)
}
