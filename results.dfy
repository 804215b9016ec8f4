/** Failure-carrying values that replace the exceptions the address book raises. */
module Results {

  /** The failures the address book can report, one per kind of exception it raises. */
  datatype Error =
    | InvalidPhoneFormat     // Phone: not exactly ten digits
    | InvalidDateFormat      // Birthday: text is not a day.month.year date
    | PhoneNotFound          // remove_phone / edit_phone of a number the record lacks
    | MissingBirthday        // get_upcoming_birthdays on a record without a birthday
    | DateOutOfRange         // date.replace or date arithmetic leaves the calendar
    | NoUpcomingBirthdays    // get_upcoming_birthdays found nobody to greet

  datatype Option<+T> = None | Some(value: T)

  datatype Result<+T> = Ok(value: T) | Err(error: Error)

  /** The result of an operation that returns nothing but may fail. */
  datatype Outcome = Pass | Fail(error: Error)
}
