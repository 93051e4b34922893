/**
 * A small JSON value, the shape in which the structured payload reaches the
 * claims record and in which record ids are written. Numbers are integers
 * only; members of an object keep their order and may repeat a key, as they
 * do in JSON text.
 */
module Json {

  datatype Value =
    | Null
    | Bool(b: bool)
    | Number(n: int)
    | String(s: string)
    | Array(items: seq<Value>)
    | Object(members: seq<(string, Value)>)
}
