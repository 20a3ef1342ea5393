/**
  JavaScript values as the collection functions see them: records (plain objects) with string
  keys, arrays, primitives, `null` and `undefined`.
*/
module Values {

  datatype Value =
    | Undefined
    | Null
    | Bool(b: bool)
    | Num(n: int)
    | Str(s: string)
    | Arr(items: seq<Value>)
    | Obj(fields: map<string, Value>)

  /** `object[key]` as lodash reads a single property: the record's own field, or `undefined`
      for an absent key and for anything that is not a record. */
  function Property(v: Value, key: string): Value {
    if v.Obj? && key in v.fields then v.fields[key] else Undefined
  }
}
