/** Error kinds of the address book and the result/option wrappers its
    operations return instead of throwing. */
module Errors {

  /** The failures an address-book operation can report to its caller. */
  datatype Error =
    | InvalidName    // name empty or longer than the maximum length
    | InvalidDate    // month or day outside the calendar
    | EntryNotFound  // a setter named an entry the book does not hold
    | DuplicateEntry // add_entry of a name whose folded key is already present

  /** Either the new value of an operation, or the error it reports. */
  datatype Result<T> = Ok(value: T) | Err(error: Error)

  /** An optional value (absent phone number, absent birthday, failed parse). */
  datatype Option<T> = None | Some(value: T)
}
