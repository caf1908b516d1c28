/**
 * The JavaScript view of a parsed JSON request body: the handlers only ever ask
 * whether a field is truthy and what `typeof` says about it.
 */
module Js {
  import opened Options

  /** A JSON value as the body parser delivers it; `Undefined` is a field that is
      absent from the body. The handlers never look inside arrays or objects. */
  datatype Value =
    | Undefined
    | Null
    | Bool(b: bool)
    | Num(n: real)
    | Str(s: string)
    | Arr
    | Obj

  /** JavaScript truthiness: `undefined`, `null`, `false`, `0` and `""` are falsy. */
  predicate Truthy(v: Value)
  {
    match v
    case Undefined => false
    case Null => false
    case Bool(b) => b
    case Num(n) => n != 0.0
    case Str(s) => s != ""
    case Arr => true
    case Obj => true
  }

  /** The `typeof` operator. */
  function TypeOf(v: Value): (r: string)
    ensures r == "number" <==> v.Num?
    ensures r == "boolean" <==> v.Bool?
    ensures r == "string" <==> v.Str?
  {
    match v
    case Undefined => "undefined"
    case Null => "object"
    case Bool(_) => "boolean"
    case Num(_) => "number"
    case Str(_) => "string"
    case Arr => "object"
    case Obj => "object"
  }

  /** Truthiness of a field that is either missing or a string (a multipart form
      field, a query parameter, a file name). */
  predicate Given(f: Option<string>)
  {
    f.Some? && f.value != ""
  }

  /** `f || ''` for such a field. */
  function OrEmpty(f: Option<string>): (r: string)
    ensures Given(f) ==> r == f.value
    ensures r == "" <==> !Given(f)
  {
    if Given(f) then f.value else ""
  }

}
