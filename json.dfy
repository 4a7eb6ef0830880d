/** The parsed JSON tree the HTTP front end walks (cJSON's item list).
    Parsing and printing JSON text are not part of this model: a request
    body is given as the tree the parser would have produced, or as None
    when the text did not parse. */
module Json {

  import opened Wrappers

  /** The type tag and payload of one item. A number carries both of cJSON's
      views of it: the integer view (valueint) and the floating view
      (valuedouble); the model takes both as given. */
  datatype Value =
    | Null
    | False
    | True
    | Number(valueint: int, valuedouble: real)
    | Str(text: string)
    | Arr(elements: seq<Item>)
    | Obj(members: seq<Item>)

  /** One item: its member name (None for an array element or the root) and
      its value. */
  datatype Item = Item(name: Option<string>, value: Value)

  /** The item's child list (`child`, then `next`): the elements of an array,
      the members of an object, and nothing for a scalar. */
  function Children(it: Item): seq<Item>
  {
    match it.value
    case Arr(elements) => elements
    case Obj(members) => members
    case _ => []
  }

  /** The item is named exactly `key` (a strcmp match on a non-NULL name). */
  predicate Named(it: Item, key: string)
  {
    it.name == Some(key)
  }
}
