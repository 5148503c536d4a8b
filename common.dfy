/** Small shared vocabulary: an optional value and the minimum of two naturals. */
module Common {

  /** A value that may be absent (a missing dictionary key, an unset field). */
  datatype Option<T> = None | Some(value: T)

  function Min(a: nat, b: nat): (r: nat)
    ensures r <= a && r <= b && (r == a || r == b)
  {
    if a <= b then a else b
  }
}
