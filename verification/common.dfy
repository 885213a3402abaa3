/** Small shared vocabulary: optional values and the truthiness of an optional form field. */
module Common {

  /** A value that may be absent, as `request.form.get(...)` returning `None`. */
  datatype Option<+T> = None | Some(value: T)

  /** Python truthiness of `request.form.get(k)`: a missing field and an empty string are both false. */
  predicate Truthy(field: Option<string>)
  {
    field.Some? && field.value != ""
  }

  lemma TruthyMeansNonEmpty(field: Option<string>)
    ensures Truthy(field) <==> (field.Some? && |field.value| > 0)
  {
  }
}
