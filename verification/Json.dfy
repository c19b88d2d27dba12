/** JSON values as the program holds them after parsing; objects are maps. */
module Json {
  import opened Results
  import opened Wire

  type Fields = map<string, Json>

  datatype Json =
    | Null
    | Bool(b: bool)
    | Number(text: string)
    | String(s: string)
    | Array(items: seq<Json>)
    | Object(fields: Fields)
  {
    // `value.get(key)`: None on anything but an object.
    function Get(key: string): Option<Json> {
      if Object? && key in fields then Some(fields[key]) else None
    }

    function AsStr(): Option<string> {
      if String? then Some(s) else None
    }

    function GetStr(key: string): Option<string> {
      match Get(key)
      case None => None
      case Some(v) => v.AsStr()
    }
  }

  // The JSON text codec: `serde_json::from_slice(..).ok()` and `serde_json::to_vec`.
  datatype Codec = Codec(parse: Bytes -> Option<Json>, render: Json -> Bytes)
}
