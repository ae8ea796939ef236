/** Optional values, the failures the services report, and operation outcomes. */
module Wrappers {

  datatype Option<+T> = None | Some(value: T)

  /** The three guarded actions on an exercise; each has its own denial message. */
  datatype Action = Read | Modify | Remove

  /** Every way an operation of the exercise or user service can fail. */
  datatype Error =
    | NotFound            // the referenced exercise does not exist
    | Forbidden(action: Action)  // private exercise and the caller is not its creator
    | UsernameTaken       // user registration with a username already stored
    | RatingOutOfRange    // rating value outside 1..5 (a plain error, not an HTTP exception)
    | UniqueViolation     // the store's unique constraint on exercise names refused the write
    | OutOfRange          // an integer column value outside the 32-bit `integer` type, refused by the store

  datatype Result<+T> = Ok(value: T) | Err(error: Error)

  /**
   The text each failure carries at the service layer. The two store errors
   carry the fixed part of the database's text only; the database adds the
   constraint's name or the offending value.
   */
  function Message(e: Error): string
  {
    match e
    case NotFound => "Exercise not found"
    case Forbidden(a) =>
      "You do not have permission to "
      + (match a case Read => "view" case Modify => "modify" case Remove => "delete")
      + " this exercise"
    case UsernameTaken => "Username already exists"
    case RatingOutOfRange => "Rating must be between 1 and 5"
    case UniqueViolation => "duplicate key value violates unique constraint"
    case OutOfRange => "is out of range for type integer"
  }

  /**
   No two failures share a text, so at the service layer each failure can be
   told from its message. Over HTTP the range error and the two store errors
   all surface as the same internal server error.
   */
  lemma MessageIdentifiesError(a: Error, b: Error)
    ensures Message(a) == Message(b) <==> a == b
  {
    if Message(a) == Message(b) {
      var m := Message(a);
      assert m[0] == Message(b)[0];
      if a.Forbidden? && b.Forbidden? {
        assert m[30] == Message(b)[30];
      }
    }
  }
}
