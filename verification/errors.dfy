/** The exceptions the contact book raises, one constructor per distinct cause. */
module Errors {

  datatype Error =
    | InvalidPhone     // ValueError('Phone should be 10 symbols')
    | PhoneNotFound    // ValueError("Phone not found")
    | BadDate          // ValueError from strptime: not a real calendar date
    | DayOutOfRange    // ValueError from datetime(): Feb 29 in a common year
    | YearOutOfRange   // ValueError from datetime(): year past 9999
    | NotCallable      // TypeError: the stored phone string is called
    | NoBirthday       // AttributeError: the birthday value is None
}
