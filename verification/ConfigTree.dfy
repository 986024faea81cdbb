/** Configuration values as YAML loads them. */
module ConfigTree {
  import opened Common

  datatype Tree =
    | Null
    | Bool(b: bool)
    | Num(n: int)
    | Text(s: string)
    | List(items: seq<Tree>)
    | Dict(m: map<string, Tree>)

  const EMPTY := Dict(map[])

  /** Python's truth value. */
  predicate Truthy(t: Tree) {
    match t
    case Null => false
    case Bool(b) => b
    case Num(n) => n != 0
    case Text(s) => s != ""
    case List(items) => items != []
    case Dict(m) => m != map[]
  }

  /** The value at a path of keys. */
  function At(t: Tree, path: seq<string>): Option<Tree>
    decreases |path|
  {
    if path == [] then Some(t)
    else if t.Dict? && path[0] in t.m then At(t.m[path[0]], path[1..])
    else None
  }

  function LeafAt(t: Tree, path: seq<string>): Option<Tree> {
    var v := At(t, path);
    if v.Some? && !v.value.Dict? then v else None
  }
}
