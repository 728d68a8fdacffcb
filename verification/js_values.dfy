/** The distinctions between JavaScript values that the manifest store
    observes: what `typeof` answers, what `Array.isArray` answers, what
    `if (v)` and `!v` treat as true, and what a property read returns. */
module JsValues {

  datatype Option<+T> = None | Some(value: T)

  /** A JavaScript value, down to the kinds the store tells apart.
      Numbers carry a real; NaN and the float encoding are not modelled. */
  datatype JsVal =
    | Undefined
    | Null
    | Bool(b: bool)
    | Number(x: real)
    | Str(s: string)
    | Arr(items: seq<JsVal>)
    | Obj(props: map<string, JsVal>)
    | Func

  /** A parsed manifest object, as the map of its own properties. */
  type Manifest = map<string, JsVal>

  /** `Array.isArray(v)`. */
  predicate IsArray(v: JsVal) {
    v.Arr?
  }

  /** The `typeof` operator: arrays and `null` are both "object", and no
      value at all has the type "array". */
  function TypeOf(v: JsVal): (t: string)
    ensures t != "array"
    ensures t == "object" <==> v.Null? || v.Arr? || v.Obj?
    ensures t == "string" <==> v.Str?
    ensures t == "number" <==> v.Number?
  {
    match v
    case Undefined => "undefined"
    case Null => "object"
    case Bool(_) => "boolean"
    case Number(_) => "number"
    case Str(_) => "string"
    case Arr(_) => "object"
    case Obj(_) => "object"
    case Func => "function"
  }

  /** JavaScript truthiness, as used by `if (v)` and `!v`. */
  predicate Truthy(v: JsVal) {
    match v
    case Undefined => false
    case Null => false
    case Bool(b) => b
    case Number(x) => x != 0.0
    case Str(s) => s != ""
    case Arr(_) => true
    case Obj(_) => true
    case Func => true
  }

  /** The property read `v.key`, for the keys the store reads
      (`declarative_net_request`, `rule_resources`, `path`, `id`,
      `enabled`). Reading any property of `undefined` or `null` throws a
      TypeError (None). An object yields its own property of that name, or
      `undefined` when it has none; other values have no own property of
      these names and yield `undefined`. Inherited properties and the
      built-in own properties of arrays, strings and functions (`length`,
      indices, `name`) are not modelled. */
  function Get(v: JsVal, key: string): (r: Option<JsVal>)
    ensures r.None? <==> v.Undefined? || v.Null?
    ensures v.Obj? && key in v.props ==> r == Some(v.props[key])
  {
    match v
    case Undefined => None
    case Null => None
    case Obj(props) => Some(if key in props then props[key] else Undefined)
    case _ => Some(Undefined)
  }
}
