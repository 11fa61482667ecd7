/**
 * The JavaScript values a string-typed field of the upstream payloads and
 * of the answers can hold. `undefined` and `null` differ once the answer is
 * serialised: a key whose value is `undefined` is left out of the JSON
 * object, a `null` one is written as `null`.
 */
module JsValues {

  datatype JsString = Undefined | Null | Str(value: string)

  /**
   * A string value JavaScript treats as true (`!s` is false): the falsy
   * ones are `undefined`, `null` and the empty string.
   */
  predicate Truthy(s: JsString)
    ensures Truthy(s) <==> s !in {Undefined, Null, Str("")}
  {
    s.Str? && s.value != []
  }

  /** `s || null` on a string value. */
  function OrNull(s: JsString): (r: JsString)
    ensures Truthy(s) ==> r == s
    ensures !Truthy(s) ==> r == Null
  {
    if Truthy(s) then s else Null
  }
}
