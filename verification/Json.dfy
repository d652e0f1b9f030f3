/** JSON documents as the merge and convergence code reads them: numbers kept as their text. */
module Json {
  import opened Wrappers

  datatype Value =
    | Null
    | Bool(b: bool)
    | Number(lexeme: string)
    | String(text: string)
    | List(items: seq<Value>)
    | Object(fields: map<string, Value>)

  const EMPTY := Object(map[])

  type Path = seq<string>

  /** The value at a path of field names. */
  function At(v: Value, p: Path): Option<Value>
    decreases |p|
  {
    if p == [] then Some(v)
    else if v.Object? && p[0] in v.fields then At(v.fields[p[0]], p[1..])
    else None
  }

  /** A field of an object as an object; an absent or other value as an empty one. */
  function ChildOf(o: Value, k: string): Value {
    if o.Object? && k in o.fields && o.fields[k].Object? then o.fields[k] else EMPTY
  }
}
