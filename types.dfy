/** Shapes shared by the tree-table component: the caller's nodes, the flattened
    rows, column headers and the optional values JavaScript expresses with
    `undefined`. */
module Types {

  datatype Option<+T> = None | Some(value: T)

  datatype Result<+R, +E> = Ok(value: R) | Err(error: E)

  /** The kinds of JavaScript value a property of a node's value can hold, as
      far as the `typeof` operator tells them apart. */
  datatype JsValue =
    | JsUndefined
    | JsNull
    | JsBoolean
    | JsNumber
    | JsBigInt
    | JsString
    | JsSymbol
    | JsFunction
    | JsPlainObject
    | JsArray

  /** The result of JavaScript's `typeof`; note that `null` and arrays are "object". */
  function TypeOf(v: JsValue): string
  {
    match v
    case JsUndefined => "undefined"
    case JsNull => "object"
    case JsBoolean => "boolean"
    case JsNumber => "number"
    case JsBigInt => "bigint"
    case JsString => "string"
    case JsSymbol => "symbol"
    case JsFunction => "function"
    case JsPlainObject => "object"
    case JsArray => "object"
  }

  /** One own enumerable string-keyed property of a node's value, in `Object.keys` order. */
  datatype Property = Property(key: string, value: JsValue)

  /** A caller-supplied tree node: a record value and its children. */
  datatype Node = Node(value: seq<Property>, children: seq<Node>)

  /** The `tree` input: one node or a forest of root nodes. */
  datatype TreeInput = Single(node: Node) | Forest(nodes: seq<Node>)

  /** One row of the flattened tree table (a TreeTableNode after flattening). */
  datatype Row = Row(id: string, depth: nat, isExpanded: bool, isVisible: bool)

  /** A displayed column: its header label (`caption`, since `label` is a Dafny keyword) and the property it shows. */
  datatype Header = Header(caption: string, keyValue: string)

  /** A row action descriptor. */
  datatype Action = Action(actionName: string)

  /** The resolved options the component reads. */
  datatype Options = Options(customColumnOrder: Option<seq<string>>, defaultExpanded: Option<bool>, elevation: Option<int>)

  /** What the custom-order validator reports: whether the order matches the first
      root's properties, and the property names that are extra or missing. */
  datatype Validation = Validation(valid: bool, xor: seq<string>)

  /** One searchable root tree, seen through its id lookup: the ids on the
      `pathToRoot` of every node of that tree, by node id. */
  type SearchIndex = map<string, seq<string>>
}
