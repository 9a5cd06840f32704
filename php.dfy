/**
  Small stock datatypes, and the two pieces of PHP semantics the rule's code
  leans on: `empty()` / truthiness of a string, and the exceptions it throws.
 */
module Wrappers {

  datatype Option<+T> = None | Some(value: T)

  datatype Result<+R, +E> = Success(value: R) | Failure(error: E)
}

module Php {

  import opened Wrappers

  /** PHP's `empty($s)` for a string: the empty string and "0" are falsy. */
  predicate IsEmptyString(s: string)
  {
    s == "" || s == "0"
  }

  /** `if ($v)` / `!empty($v)` for a value that is a string or null (None). */
  predicate Truthy(v: Option<string>)
  {
    v.Some? && !IsEmptyString(v.value)
  }

  /** `$v ?? ''`: null becomes the empty string, anything else is kept. */
  function OrEmpty(v: Option<string>): (s: string)
    ensures v.None? ==> s == ""
    ensures v.Some? ==> s == v.value
  {
    match v
    case None => ""
    case Some(x) => x
  }

  /** The two kinds of exception the rule's code throws. */
  datatype Exception =
    | CodingException(message: string)
    | MoodleException(errorCode: string)
}
