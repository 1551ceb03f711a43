/** Optional values, used for the form fields whose type is `number | ''`
    (None stands for the empty string) and for lookups that may find nothing. */
module Wrappers {

  datatype Option<+T> = None | Some(value: T)

  /** JavaScript truthiness of a `number | ''` value: the empty string and
      the number 0 are falsy, every other number is truthy. */
  predicate Truthy(n: Option<int>) {
    n.Some? && n.value != 0
  }

  /** `Number(v)` for a `number | ''` value: `Number('')` is 0. */
  function ToNumber(n: Option<int>): int {
    match n
    case None => 0
    case Some(v) => v
  }
}
