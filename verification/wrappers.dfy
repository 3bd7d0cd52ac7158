/** Optional values and success/failure results, standing in for Java's
    nullable references and exceptions. */
module Wrappers {

  /** A Java reference that may be null: `None` is null. */
  datatype Option<+T> = None | Some(value: T)

  /** A value-carrying operation that either succeeds or throws. */
  datatype Result<+T, +E> = Ok(value: T) | Err(error: E)

  /** A `void` operation that either completes or throws. */
  datatype Outcome<+E> = Pass | Fail(error: E)
}

/** The failures the service layer raises, with the Russian messages
    abstracted into the check that produced them. */
module Errors {

  datatype Entity = FilmEntity | UserEntity | MpaEntity | GenreEntity

  /** Which validation rule rejected the input. */
  datatype Reason =
    | BlankName                 // film name null or blank
    | DescriptionTooLong        // film description longer than 200
    | MissingReleaseDate        // film release date null
    | ReleaseBeforeFirstFilm    // film release date before 1895-12-28
    | BadDuration               // film duration null, zero or negative
    | UnknownMpa(mpaId: int)    // film MPA id not in the catalog
    | UnknownGenre              // some film genre id not in the catalog
    | BadEmail                  // user email null, blank or without '@'
    | BadLogin                  // user login null, blank or with a space
    | MissingBirthday           // user birthday null
    | BirthdayInFuture          // user birthday after today
    | SelfFriendship            // a user befriending themselves

  datatype Error =
    | Validation(reason: Reason)          // ValidationException
    | NotFound(entity: Entity, id: int)   // ResponseStatusException(NOT_FOUND)
    | StoreMiss(entity: Entity, id: int)  // RuntimeException from an in-memory store
}
