/**
 * The dynamically typed values the validators and parameter builders take:
 * JSON-like values with JavaScript's truthiness, `typeof`, property access
 * and `String()` coercion.
 */
module JsValue {
  import opened JsString

  /** A JavaScript value; numbers are integers. */
  datatype Value =
    | Undefined
    | Null
    | Bool(b: bool)
    | Num(n: int)
    | Str(s: string)
    | Arr(elements: seq<Value>)
    | Obj(fields: map<string, Value>)

  /** JavaScript truthiness: `undefined`, `null`, `false`, `0` and `""` are falsy. */
  predicate Truthy(v: Value)
  {
    match v
    case Undefined => false
    case Null => false
    case Bool(b) => b
    case Num(n) => n != 0
    case Str(s) => s != ""
    case Arr(_) => true
    case Obj(_) => true
  }

  /** `typeof v === 'object'`: null, arrays and plain objects. */
  predicate IsObjectType(v: Value)
  {
    v.Null? || v.Arr? || v.Obj?
  }

  /**
   * `v[key]` for the named properties the source reads (none of them is an
   * array index or `length`): a field of a plain object, else `undefined`.
   */
  function Get(v: Value, key: string): (r: Value)
    ensures v.Obj? && key in v.fields ==> r == v.fields[key]
    ensures !(v.Obj? && key in v.fields) ==> r == Undefined
  {
    if v.Obj? && key in v.fields then v.fields[key] else Undefined
  }

  /** `key in v` for the same named properties. */
  predicate Has(v: Value, key: string)
  {
    v.Obj? && key in v.fields
  }

  function Digit(d: int): char
    requires 0 <= d < 10
  {
    "0123456789"[d]
  }

  /** The decimal digits of a natural number, without leading zeros. */
  function NatToString(n: nat): (r: string)
    ensures |r| >= 1
    ensures forall i :: 0 <= i < |r| ==> '0' <= r[i] <= '9'
    ensures n > 0 ==> r[0] != '0'
  {
    if n < 10 then [Digit(n)] else NatToString(n / 10) + [Digit(n % 10)]
  }

  /** `String(v)`. */
  function ToJsString(v: Value): (r: string)
    ensures v.Str? ==> r == v.s
    ensures !v.Str? && !v.Arr? ==> r != ""
  {
    match v
    case Undefined => "undefined"
    case Null => "null"
    case Bool(b) => if b then "true" else "false"
    case Num(n) => if n < 0 then "-" + NatToString(-n) else NatToString(n)
    case Str(s) => s
    case Arr(xs) => Join(ElementStrings(xs), ',')
    case Obj(_) => "[object Object]"
  }

  /** Array elements as `join` renders them: `null` and `undefined` become "". */
  function ElementStrings(xs: seq<Value>): (r: seq<string>)
    ensures |r| == |xs|
  {
    if |xs| == 0 then []
    else [if xs[0].Undefined? || xs[0].Null? then "" else ToJsString(xs[0])] + ElementStrings(xs[1..])
  }
}
