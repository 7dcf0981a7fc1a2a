/** Shared vocabulary of the model: optional values, the exception kinds the
    services throw, and the two result shapes that carry them. */
module Common {

  /** A Java reference that may be null. */
  datatype Option<+T> = None | Some(value: T)

  /** The exception classes of the application, one constructor per class.
      `StoreConstraint` stands for a unique-constraint violation raised by the
      relational store itself, which no handler of the application maps. */
  datatype ErrorKind =
    | Validation        // ValidationException
    | NotFound          // NotFoundException
    | InternalServer    // InternalServerException
    | IsAlreadyExists   // IsAlreadyExistsException
    | Forbidden         // ForbiddenException
    | IllegalArgument   // the application's own IllegalArgumentException
    | IsAlreadyDone     // IsAlreadyDoneException
    | StoreConstraint   // a constraint violation reported by the store

  /** The outcome of an operation that returns a value or throws. */
  datatype Result<+T> = Ok(value: T) | Err(kind: ErrorKind)

  /** The outcome of a `void` check that returns normally or throws. */
  datatype Outcome = Pass | Fail(kind: ErrorKind)

  /** The blank test every validator of the application applies to a text
      field: null, the empty string, or exactly one space. Longer runs of
      whitespace are not blank. */
  predicate IsBlank(s: Option<string>)
  {
    s.None? || s.value == "" || s.value == " "
  }

  /** Only the three listed spellings are blank. */
  lemma BlankIsExactlyThreeSpellings(s: Option<string>)
    ensures IsBlank(s) <==> s == None || s == Some("") || s == Some(" ")
  {
  }

  function Min(a: int, b: int): int
  {
    if a <= b then a else b
  }
}
