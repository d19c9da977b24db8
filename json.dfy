/**
 * JSON values as they travel over the event channel, as an abstract tree.
 * Numbers are integers only; text parsing and printing are not modelled.
 */
module Json {

  datatype Value =
    | Null
    | Bool(b: bool)
    | Number(n: int)
    | Str(s: string)
    | Arr(items: seq<Value>)
    | Obj(fields: map<string, Value>)
}
