/** The failures the library service raises, and the result type that carries them. */
module Outcomes {

  /** An optional value, Python's `X | None`. */
  datatype Option<+T> = None | Some(value: T)

  /** Every way an operation of the core can fail. The first five are the
      service's HTTP exceptions (status code in the comment); the others are
      exceptions that reach the request boundary untranslated. */
  datatype Error =
    | BadRequest(detail: string)       // 400
    | Unauthenticated(detail: string)  // 401
    | Forbidden(detail: string)        // 403
    | NotFound(detail: string)         // 404
    | Conflict(detail: string)         // 409
    | InvalidToken                     // ValueError("Invalid token") from decode_token
    | MalformedSubject                 // ValueError / TypeError from int() on a token subject
    | MultipleResultsFound             // a lookup expecting at most one row saw several
    | NoResultFound                    // a lookup expecting exactly one row saw none
    | IntegrityError                   // the database refused a write (foreign or unique key)
    | DateOverflow                     // OverflowError: a date outside what `datetime` can hold

  /** Success with a value, or one of the errors above. */
  datatype Result<+T> = Ok(value: T) | Err(error: Error)
}
