/** JSON values as Python's json module types them: integers and floats are
    distinct kinds, and a mapping has unique text keys. */
module Json {

  datatype Json =
    | Null
    | Bool(b: bool)
    | Int(i: int)
    | Float(r: real)
    | Str(s: string)
    | Arr(items: seq<Json>)
    | Obj(fields: map<string, Json>)

  type Fields = map<string, Json>
}
