/** JavaScript values as the components handle them: optional (null or
    undefined) fields, numbers that may be NaN, and the `x || fallback`
    defaults the dialogs use to move between stored rows and form fields. */
module Values {

  /** A field that may be null or undefined (both are falsy and both are
      skipped by optional chaining, so one constructor stands for the two). */
  datatype Option<+T> = None | Some(value: T)

  /** A JavaScript number as the source meets it: a finite value or NaN.
      Infinities are not produced anywhere in the modelled code. */
  datatype Number = Finite(value: real) | NaN

  /** A number in a boolean context: 0 (and -0) and NaN are falsy. */
  predicate Truthy(n: Number) {
    n.Finite? && n.value != 0.0
  }

  /** `s || ""` applied to an optional string. An empty string is falsy too,
      but it is replaced by the same empty string. */
  function OrEmpty(s: Option<string>): (r: string)
    ensures s.None? ==> r == ""
    ensures s.Some? ==> r == s.value
  {
    if s.Some? then s.value else ""
  }

  /** `s || null` applied to a string: the empty string becomes null. */
  function EmptyToNull(s: string): (r: Option<string>)
    ensures r.None? <==> s == ""
    ensures r.Some? ==> r.value == s
  {
    if s == "" then None else Some(s)
  }

  /** `s || null` applied to an optional string. */
  function NullIfFalsy(s: Option<string>): (r: Option<string>)
    ensures r.None? <==> s.None? || s.value == ""
    ensures r.Some? ==> r == s
  {
    if s.Some? && s.value != "" then s else None
  }

  /** `n?.x || null` for a number that may be missing: a missing number, 0
      and NaN all become null. */
  function NumberOrNull(n: Option<Number>): (r: Option<real>)
    ensures r.Some? <==> n.Some? && Truthy(n.value)
    ensures r.Some? ==> n.value == Finite(r.value) && r.value != 0.0
  {
    if n.Some? && Truthy(n.value) then Some(n.value.value) else None
  }

  /** Reading an optional string into a form field and writing the field
      back gives the original value, except that an empty string comes back
      as null. */
  lemma OrEmptyThenEmptyToNull(s: Option<string>)
    ensures EmptyToNull(OrEmpty(s)) == NullIfFalsy(s)
  {
  }
}
