/** Values shared by every part of the model: nullable references, the
    service-layer error kinds and Java's notion of a blank string. */
module Base {

  /** A Java reference that may be null. */
  datatype Option<+T> = None | Some(value: T)

  /** The exceptions the services throw, by kind. NotFound, Validation,
      Forbidden and Conflict are the application's own exceptions;
      IllegalArgument is what parsing an unknown state token raises;
      IllegalState is what `Collectors.toMap` raises on a duplicate key;
      IncorrectResultSize is what a single-result query raises when its
      query yields more than one row. */
  datatype Error =
    | NotFound
    | Validation
    | Forbidden
    | Conflict
    | IllegalArgument
    | IllegalState
    | IncorrectResultSize

  /** The outcome of a service call: a value, or the exception it throws. */
  datatype Result<+T> = Success(value: T) | Failure(error: Error)

  /** `Character.isWhitespace`: the ASCII controls 9-13 and 28-31, the space,
      and the Unicode space, line and paragraph separators other than the
      non-breaking ones (U+00A0, U+2007, U+202F). */
  predicate IsWhitespace(c: char)
  {
    var n := c as int;
    || 9 <= n <= 13
    || 28 <= n <= 32
    || n == 0x1680
    || 0x2000 <= n <= 0x2006
    || 0x2008 <= n <= 0x200A
    || n == 0x2028 || n == 0x2029 || n == 0x205F || n == 0x3000
  }

  /** `String.isBlank`: empty, or whitespace only. */
  predicate IsBlank(s: string)
  {
    forall i :: 0 <= i < |s| ==> IsWhitespace(s[i])
  }

  /** The patch guard `value != null && !value.isBlank()`. */
  predicate Present(v: Option<string>)
  {
    v.Some? && !IsBlank(v.value)
  }
}
