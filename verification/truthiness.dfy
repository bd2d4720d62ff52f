/** Python's `value or default` idiom on the argument kinds the core uses.
    An argument is falsy when it is `None`, the integer 0 or the empty
    string; a falsy argument is replaced by the default. */
module Truthiness {
  import opened Outcomes

  predicate IntIsTruthy(x: Option<int>) {
    x.Some? && x.value != 0
  }

  predicate StrIsTruthy(x: Option<string>) {
    x.Some? && x.value != ""
  }

  /** `x or fallback` for an optional integer. */
  function IntOr(x: Option<int>, fallback: int): (r: int)
    ensures IntIsTruthy(x) ==> r == x.value
    ensures !IntIsTruthy(x) ==> r == fallback
    ensures fallback != 0 ==> r != 0
  {
    if IntIsTruthy(x) then x.value else fallback
  }

  /** `x or fallback` for an optional string. */
  function StrOr(x: Option<string>, fallback: string): (r: string)
    ensures StrIsTruthy(x) ==> r == x.value
    ensures !StrIsTruthy(x) ==> r == fallback
    ensures fallback != "" ==> r != ""
  {
    if StrIsTruthy(x) then x.value else fallback
  }
}
