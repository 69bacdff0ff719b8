/** The JavaScript values that the modelled TypeScript passes around loosely
    typed (`any`, record fields, message bodies), with the parts of the
    language's semantics the sources rely on: `== null`, truthiness, `===`,
    `typeof`, `String(x)` and `+`.

    Numbers are integers (no NaN, no fractions) and every object is a
    reference `Obj(id, time)`: `===` compares the reference, `valueOf()`
    gives `time` (the millisecond count of a `Date`). */
module JsValue {
  import opened JsText

  datatype Value = Undefined | Null | Bool(b: bool) | Num(n: int) | Str(s: string) | Obj(id: nat, time: int)

  /** `v == null` (loose equality): true for both null and undefined. */
  predicate IsNullish(v: Value)
  {
    v.Undefined? || v.Null?
  }

  predicate Truthy(v: Value)
  {
    match v
    case Undefined => false
    case Null => false
    case Bool(b) => b
    case Num(n) => n != 0
    case Str(s) => s != ""
    case Obj(_, _) => true
  }

  /** `a === b`: objects are equal only as the same reference. */
  predicate StrictEq(a: Value, b: Value)
  {
    if a.Obj? && b.Obj? then a.id == b.id else a == b
  }

  function TypeOf(v: Value): string
  {
    match v
    case Undefined => "undefined"
    case Null => "object"
    case Bool(_) => "boolean"
    case Num(_) => "number"
    case Str(_) => "string"
    case Obj(_, _) => "object"
  }

  /** `String(v)`; an object prints as a plain object does. */
  function ToStr(v: Value): string
  {
    match v
    case Undefined => "undefined"
    case Null => "null"
    case Bool(b) => if b then "true" else "false"
    case Num(n) => IntToString(n)
    case Str(s) => s
    case Obj(_, _) => "[object Object]"
  }

  /** `a + b`: numeric addition for two numbers, string concatenation otherwise. */
  function Add(a: Value, b: Value): Value
  {
    if a.Num? && b.Num? then Num(a.n + b.n) else Str(ToStr(a) + ToStr(b))
  }

  /** A record read field by field: a missing field reads as undefined. */
  function Get(record: map<string, Value>, field: string): Value
  {
    if field in record then record[field] else Undefined
  }
}
