// The value that the library's containers store.

module Values {

  /** A `struct value`: a type tag and the data word. */
  datatype Value = Value(vtype: nat, data: nat)

  /** `ValueNone`, the type that may not be stored. */
  const VALUE_NONE: nat := 0
}
