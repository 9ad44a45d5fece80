/** The parsed body of a request, as the controller's `for...in` loops see it. */
module Requests {
  import opened JsValues

  /** One enumerable property of the body. */
  datatype Field = Field(key: string, value: JsValue)

  /** The properties of an object in enumeration order. The keys of a JavaScript object
      are distinct, so a field's own value is what `data[key]` yields for its key. */
  type Fields = fields: seq<Field> | DistinctKeys(fields) witness []

  /** `req.body`: either a falsy value, for which `!data` holds, or an object. */
  datatype Body = Falsy | Object(fields: Fields)
  {
    /** `data.key`: the property's value, `undefined` when the body has no such key. */
    function Get(key: string): JsValue
    {
      if Falsy? then Undefined else Lookup(fields, key)
    }
  }

  predicate DistinctKeys(fields: seq<Field>)
  {
    forall i, j :: 0 <= i < j < |fields| ==> fields[i].key != fields[j].key
  }

  /** The value stored under `key`, or `undefined` when no property has that key. */
  function Lookup(fields: seq<Field>, key: string): (v: JsValue)
    ensures (forall i :: 0 <= i < |fields| ==> fields[i].key != key) ==> v == Undefined
    ensures DistinctKeys(fields) ==>
      forall i :: 0 <= i < |fields| && fields[i].key == key ==> v == fields[i].value
  {
    if fields == [] then Undefined
    else if fields[0].key == key then fields[0].value
    else
      assert DistinctKeys(fields) ==> DistinctKeys(fields[1..]);
      Lookup(fields[1..], key)
  }
}
