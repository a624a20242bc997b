/**
 * JavaScript values as the service sees them in a schedule entry's `data`
 * document and in a request: what is truthy, what counts as a number, and
 * how a value reads when it is concatenated into a message.
 */
module Js {
  import opened Strings

  /** A JSON-like JavaScript value. Numbers are integer-valued (epoch milliseconds). */
  datatype Value =
    | Undefined
    | Null
    | Bool(b: bool)
    | Num(n: int)
    | Str(s: string)
    | Arr(items: seq<Value>)
    | Obj(fields: map<string, Value>)

  /** A plain object, such as the `data` document of a schedule entry. */
  type Data = map<string, Value>

  /** `d[key]`, which is `undefined` for a missing property. */
  function Get(d: Data, key: string): (v: Value)
    ensures key !in d ==> v == Undefined
  {
    if key in d then d[key] else Undefined
  }

  /** JavaScript truthiness, as `if (v)` and `!!v` use it. */
  predicate Truthy(v: Value) {
    match v
    case Undefined => false
    case Null => false
    case Bool(b) => b
    case Num(n) => n != 0
    case Str(s) => s != ""
    case Arr(_) => true
    case Obj(_) => true
  }

  /** `String(v)`, which is what `'text ' + v` inserts. */
  function ToText(v: Value): string {
    match v
    case Undefined => "undefined"
    case Null => "null"
    case Bool(b) => if b then "true" else "false"
    case Num(n) => IntToText(n)
    case Str(s) => s
    case Arr(items) =>
      Join(seq(|items|, i requires 0 <= i < |items| =>
        if items[i].Undefined? || items[i].Null? then "" else ToText(items[i])), ",")
    case Obj(_) => "[object Object]"
  }

  /**
   * What a value becomes when it is written with `JSON.stringify` and read
   * back: `undefined` members of an object disappear and `undefined` array
   * elements become `null`. (A top-level `undefined` has no JSON text; it is
   * kept here, since only `data` objects are ever stored.)
   */
  function Json(v: Value): (r: Value)
    ensures !v.Undefined? ==> !r.Undefined?
  {
    match v
    case Arr(items) =>
      Arr(seq(|items|, i requires 0 <= i < |items| =>
        if items[i].Undefined? then Null else Json(items[i])))
    case Obj(fields) => Obj(map k | k in fields && !fields[k].Undefined? :: Json(fields[k]))
    case _ => v
  }

  /** A `data` object after a trip through its JSON text. */
  function JsonData(d: Data): (r: Data)
    ensures r.Keys == set k | k in d && !d[k].Undefined?
    ensures forall k :: k in r ==> !r[k].Undefined? && r[k] == Json(d[k])
  {
    Json(Obj(d)).fields
  }

  /** Documents without `undefined` anywhere come back unchanged. */
  predicate IsJson(v: Value) {
    match v
    case Undefined => false
    case Arr(items) => forall i :: 0 <= i < |items| ==> IsJson(items[i])
    case Obj(fields) => forall k :: k in fields ==> IsJson(fields[k])
    case _ => true
  }

  lemma JsonOfJson(v: Value)
    requires IsJson(v)
    ensures Json(v) == v
  {
    match v
    case Arr(items) =>
      forall i | 0 <= i < |items| ensures Json(items[i]) == items[i] {
        JsonOfJson(items[i]);
      }
    case Obj(fields) =>
      forall k | k in fields ensures Json(fields[k]) == fields[k] {
        JsonOfJson(fields[k]);
      }
    case _ =>
  }
}
