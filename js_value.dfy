/**
 * The JavaScript values that flow through the pipeline: parsed JSON and xml2js
 * output, and the fields of a paper object. `Obj(text)` is a plain object
 * whose `_` property (the character data xml2js attaches to an element that
 * also has attributes) is `text`, or "" when it has none.
 */
module JsValues {
  import opened JsText

  datatype JsValue =
    | Undefined
    | Null
    | Bool(b: bool)
    | Num(n: int)
    | Str(s: string)
    | Arr(items: seq<JsValue>)
    | Obj(text: string)

  /** JavaScript truthiness. */
  predicate Truthy(v: JsValue) {
    match v
    case Undefined => false
    case Null => false
    case Bool(b) => b
    case Num(n) => n != 0
    case Str(s) => s != ""
    case Arr(_) => true
    case Obj(_) => true
  }

  /** `a || b`. */
  function Or(a: JsValue, b: JsValue): (r: JsValue)
    ensures Truthy(a) ==> r == a
    ensures !Truthy(a) ==> r == b
  {
    if Truthy(a) then a else b
  }

  /** `typeof v === 'object'` (null included). */
  predicate IsObject(v: JsValue) {
    v.Null? || v.Arr? || v.Obj?
  }

  /** `String(v)`, also what a template literal `${v}` produces. */
  function ToJsString(v: JsValue): string
    decreases v, 1
  {
    match v
    case Undefined => "undefined"
    case Null => "null"
    case Bool(b) => if b then "true" else "false"
    case Num(n) => IntToString(n)
    case Str(s) => s
    case Arr(items) => JoinValues(items, ",")
    case Obj(_) => "[object Object]"
  }

  /** How `Array.prototype.join` renders one element. */
  function JoinPart(v: JsValue): string
    decreases v, 2
  {
    if v.Undefined? || v.Null? then "" else ToJsString(v)
  }

  /** `vs.join(sep)`. */
  function JoinValues(vs: seq<JsValue>, sep: string): string
    decreases vs
  {
    if |vs| == 0 then ""
    else if |vs| == 1 then JoinPart(vs[0])
    else JoinPart(vs[0]) + sep + JoinValues(vs[1..], sep)
  }
}
