/**
 * Small value types shared by the whole model: optional values, results with
 * an error, and the outcome of JavaScript's `Number(...)` coercion.
 */
module Common {

  datatype Option<+T> = None | Some(value: T)

  datatype Result<+T, +E> = Ok(value: T) | Err(error: E)

  /**
   * What `Number(x)` produced for a field: a finite number, or one of NaN,
   * Infinity and -Infinity, which every caller in the widget treats alike
   * (`Number.isFinite` is false for all three).
   */
  datatype Num = Finite(value: real) | NonFinite {
    predicate IsFinite() { Finite? }
  }

  /** The index of the first element satisfying `p`: what `Array.prototype.find` looks for. */
  function FirstMatch<T>(s: seq<T>, p: T -> bool): (r: Option<nat>)
    ensures r.Some? ==> r.value < |s| && p(s[r.value])
    ensures r.Some? ==> forall j :: 0 <= j < r.value ==> !p(s[j])
    ensures r.None? <==> forall j :: 0 <= j < |s| ==> !p(s[j])
  {
    if s == [] then None
    else if p(s[0]) then Some(0)
    else match FirstMatch(s[1..], p)
      case None => None
      case Some(k) => Some(k + 1)
  }

  /** `s.find(p)`: the first element satisfying `p`, if any. */
  function Find<T>(s: seq<T>, p: T -> bool): (r: Option<T>)
    ensures r.Some? ==> r.value in s && p(r.value)
    ensures r.None? <==> forall x :: x in s ==> !p(x)
    ensures r.Some? ==> exists k :: 0 <= k < |s| && s[k] == r.value && forall j :: 0 <= j < k ==> !p(s[j])
  {
    match FirstMatch(s, p)
    case None => None
    case Some(k) => Some(s[k])
  }
}
