/** Values shared by the components: optional results, JSON documents and paths into them. */
module Values {

  datatype Option<+T> = None | Some(value: T)

  /** A JSON document with string keys. */
  datatype Json =
    | JNull
    | JBool(truth: bool)
    | JInt(number: int)
    | JReal(value: real)
    | JStr(text: string)
    | JArr(items: seq<Json>)
    | JObj(fields: map<string, Json>)

  datatype Step = Key(name: string) | Index(position: nat)

  type Path = seq<Step>

  /** The node one step below `node`, when there is one. */
  function Child(node: Json, step: Step): Option<Json> {
    match (node, step)
    case (JObj(fields), Key(name)) => if name in fields then Some(fields[name]) else None
    case (JArr(items), Index(position)) => if position < |items| then Some(items[position]) else None
    case _ => None
  }

  /** The node that `path` leads to, when there is one. */
  function NodeAt(node: Json, path: Path): Option<Json>
    decreases |path|
  {
    if path == [] then Some(node)
    else
      match Child(node, path[0])
      case None => None
      case Some(next) => NodeAt(next, path[1..])
  }

}
