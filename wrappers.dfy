/** The optional value used wherever the source uses `null` or `undefined`,
    and the JavaScript coercions of such numbers that the source relies on. */
module Wrappers {

  datatype Option<+T> = None | Some(value: T)

  /** JavaScript truthiness of a number that may be null: null and 0 are falsy. */
  predicate Truthy(v: Option<int>) {
    v.Some? && v.value != 0
  }

  /** The number `null` coerces to in arithmetic. */
  function ToNumber(v: Option<int>): int {
    if v.Some? then v.value else 0
  }

  function Abs(x: int): (r: nat)
    ensures r == x || r == -x
  {
    if x < 0 then -x else x
  }

}
