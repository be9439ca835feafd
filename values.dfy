/** Ruby values as they appear in ActiveRecord attribute hashes, Ruby truthiness,
    and the Option/Result wrappers the rest of the model uses for nil and raised errors. */
module Values {

  /** A value stored in an attribute hash. `Hash` is a nested attribute hash,
      such as the `"<facet>_attributes"` entries. */
  datatype Value =
    | Nil
    | Bool(b: bool)
    | Str(s: string)
    | Int(i: int)
    | Hash(entries: map<string, Value>)

  /** Ruby truthiness: only `nil` and `false` are falsy; `""` and `0` are truthy. */
  predicate Truthy(v: Value) {
    !(v.Nil? || v == Bool(false))
  }

  /** Ruby's `left || right`. */
  function Or(left: Value, right: Value): Value {
    if Truthy(left) then left else right
  }

  datatype Option<+T> = None | Some(value: T)

  /** The exceptions the modelled Ruby code raises. */
  datatype Error =
    | NoMethodOnNil(name: string)     // NoMethodError: a method called on nil
    | NotOverridden(name: string)     // RuntimeError from an overridable default

  datatype Result<+T> = Ok(value: T) | Err(error: Error)
}
