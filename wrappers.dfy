/** Kotlin's nullable values (`T?`) as an explicit option type. */
module Wrappers {

  datatype Option<+T> = None | Some(value: T)

  /** Kotlin's `elementAtOrNull(i)`: the element at `i`, or null when `i` is out of range. */
  function ElementAtOrNone<T>(s: seq<T>, i: int): (r: Option<T>)
    ensures r.Some? <==> 0 <= i < |s|
    ensures r.Some? ==> r.value == s[i]
  {
    if 0 <= i < |s| then Some(s[i]) else None
  }
}
