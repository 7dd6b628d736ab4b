/** The JavaScript value rules the extension's scripts build their records
    with: a field that may be null or undefined, the `??` fallback chain, and
    `Number(v) || d`. A chain `a ?? b ?? d` is `a.GetOr(b.GetOr(d))`. */
module Js {

  /** A record field: present (Some) or null/undefined (None). */
  datatype Option<+T> = None | Some(value: T) {

    /** `field ?? default`: the field's value unless it is null or undefined,
        even when that value is falsy (an empty string, 0). */
    function GetOr(default: T): T {
      match this
      case Some(v) => v
      case None => default
    }
  }

  /** What `Number(v)` yields for a field: an integer, or NaN when the value
      does not coerce. */
  datatype Num = Finite(n: int) | NaN

  /** A number other than 0 and NaN, the two falsy ones. */
  predicate Truthy(v: Num) {
    v.Finite? && v.n != 0
  }

  /** `Number(v) || fallback`: 0 and NaN are falsy and give way to the fallback. */
  function NumberOr(v: Num, fallback: int): (r: int)
    ensures Truthy(v) ==> r == v.n
    ensures !Truthy(v) ==> r == fallback
  {
    if Truthy(v) then v.n else fallback
  }
}
