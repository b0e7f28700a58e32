/** The Python values the core passes around untyped: annotations, ids yielded by a
    data source, and the JSON documents (meta.json) that configure a repository. */
module Values {

  import opened Wrappers

  datatype Value =
    | Null
    | Bool(b: bool)
    | Int(i: int)
    | Str(s: string)
    | List(items: seq<Value>)
    | Obj(fields: map<string, Value>)

  /** Python truthiness: None, False, 0 and empty containers are falsy. */
  predicate Truthy(v: Value) {
    match v
    case Null => false
    case Bool(b) => b
    case Int(i) => i != 0
    case Str(s) => s != ""
    case List(items) => items != []
    case Obj(fields) => fields != map[]
  }

  /** Values that Python can put in a set or use as a dict key. */
  predicate Hashable(v: Value) {
    !v.List? && !v.Obj?
  }

  /** An optional Python string (`Optional[str]`) is truthy when it is a non-empty string. */
  predicate TruthyName(name: Option<string>) {
    name.Some? && name.value != ""
  }
}
