/** JavaScript values as the roster handlers see them: a field of a JSON
    body that may be missing, and the truthiness tests behind `!x` and
    `x || y`. */
module JsValues {

  /** A field of a parsed JSON body: `None` is a missing (or `null`)
      field, `Some(v)` a present one. */
  datatype Option<+T> = None | Some(value: T)

  /** Truthiness of an optional string: a missing field and the empty
      string are falsy, every other string is truthy. */
  predicate Truthy(field: Option<string>)
  {
    field.Some? && field.value != ""
  }

  /** `field || fallback` for a string field. */
  function StringOr(field: Option<string>, fallback: string): (r: string)
    ensures Truthy(field) ==> r == field.value
    ensures !Truthy(field) ==> r == fallback
  {
    if Truthy(field) then field.value else fallback
  }

  /** `field || fallback` for an object field: every object is truthy, so
      only a missing field falls back. */
  function ObjectOr<T>(field: Option<T>, fallback: T): (r: T)
    ensures field.Some? ==> r == field.value
    ensures field.None? ==> r == fallback
  {
    if field.Some? then field.value else fallback
  }

  /** `s || ''` never changes a string: an empty string falls back to the
      empty string. */
  lemma StringOrEmptyIsIdentity(s: string)
    ensures StringOr(Some(s), "") == s
  {
    if s == "" {
      assert !Truthy(Some(s));
    }
  }
}
