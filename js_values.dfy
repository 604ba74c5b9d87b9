/**
 * The JavaScript values that travel between a chat view and the messaging
 * client: the parameters of a call, the fields of its result, the payload of
 * an event.
 */
module JsValues {
  import opened Wrappers

  datatype Value =
    | Undefined
    | Null
    | Bool(b: bool)
    | Num(n: int)
    | Str(s: string)
    | List(items: seq<Value>)
      /** A JavaScript `Map`; its entries in insertion order. */
    | Dict(entries: seq<Entry>)
      /** A plain object. */
    | Record(fields: map<string, Value>)

  datatype Entry = Entry(key: Value, val: Value)

  /** `[...m.values()]`: the values of a `Map`, keys dropped, in insertion order. */
  function Values(entries: seq<Entry>): (r: seq<Value>)
    ensures |r| == |entries|
    ensures forall i :: 0 <= i < |entries| ==> r[i] == entries[i].val
  {
    if entries == [] then [] else [entries[0].val] + Values(entries[1..])
  }

  /** The value an optional string property holds: the string, or `undefined` when absent. */
  function OptionalString(s: Option<string>): (v: Value)
    ensures v.Str? || v.Undefined?
    ensures StringOf(v) == s
  {
    match s
    case Some(t) => Str(t)
    case None => Undefined
  }

  /** What a reader of an optional string property gets back: `None` unless it is a string. */
  function StringOf(v: Value): Option<string>
  {
    if v.Str? then Some(v.s) else None
  }
}
