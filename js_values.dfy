/** The JavaScript values that parsed JSON, request bodies and object literals can hold,
    with the parts of the language's semantics the core relies on: truthiness, `||`,
    property access, coercion to number and relational comparison with a number. */
module JsValues {

  import opened Tables

  /** `NaN` is kept apart from `Num` because JSON never produces it but `undefined * 100` does. */
  datatype JsValue =
    | Undefined
    | Null
    | Bool(b: bool)
    | Num(n: real)
    | NaN
    | Str(s: string)
    | Arr(items: seq<JsValue>)
    | Obj(fields: map<string, JsValue>)
  {
    predicate IsNullish() { Undefined? || Null? }
  }

  /** The outcome of evaluating an expression that may throw. */
  datatype Completion<+T> = Ok(value: T) | Throw(error: string)

  const TypeError := "TypeError"

  /** ECMAScript ToBoolean. */
  predicate Truthy(v: JsValue) {
    match v
    case Undefined => false
    case Null => false
    case NaN => false
    case Bool(b) => b
    case Num(n) => n != 0.0
    case Str(s) => s != ""
    case Arr(_) => true
    case Obj(_) => true
  }

  /** `a || b`: the left operand when it is truthy, otherwise the right one. */
  function Or(a: JsValue, b: JsValue): (r: JsValue)
    ensures Truthy(a) ==> r == a
    ensures !Truthy(a) ==> r == b
  {
    if Truthy(a) then a else b
  }

  /** `v.key` on a value that is not null or undefined. Arrays and strings also answer `length`;
      every other missing property is undefined. */
  function Prop(v: JsValue, key: string): (r: JsValue)
    requires !v.IsNullish()
    ensures v.Obj? && key in v.fields ==> r == v.fields[key]
    ensures !v.Obj? && !v.Arr? && !v.Str? ==> r == Undefined
  {
    match v
    case Obj(m) => if key in m then m[key] else Undefined
    case Arr(items) => if key == "length" then Num(|items| as real) else Undefined
    case Str(s) => if key == "length" then Num(|s| as real) else Undefined
    case _ => Undefined
  }

  /** `v.key` on any value: reading a property of null or undefined throws a TypeError. */
  function Get(v: JsValue, key: string): (r: Completion<JsValue>)
    ensures r.Throw? <==> v.IsNullish()
  {
    if v.IsNullish() then Throw(TypeError) else Ok(Prop(v, key))
  }

  /** `v[0]` on a value that is not null or undefined. */
  function Index0(v: JsValue): (r: JsValue)
    requires !v.IsNullish()
    ensures v.Arr? && |v.items| > 0 ==> r == v.items[0]
  {
    match v
    case Arr(items) => if |items| > 0 then items[0] else Undefined
    case Str(s) => if |s| > 0 then Str(s[..1]) else Undefined
    case Obj(m) => if "0" in m then m["0"] else Undefined
    case _ => Undefined
  }

  /** ECMAScript ToNumber; None stands for NaN. Strings other than "" and arrays other
      than [] are taken to be NaN (numeric text is not parsed). */
  function ToNumber(v: JsValue): (r: Option<real>)
    ensures v.Num? ==> r == Some(v.n)
    ensures v.Undefined? || v.NaN? || v.Obj? ==> r.None?
  {
    match v
    case Undefined => None
    case Null => Some(0.0)
    case Bool(b) => Some(if b then 1.0 else 0.0)
    case Num(n) => Some(n)
    case NaN => None
    case Str(s) => if s == "" then Some(0.0) else None
    case Arr(items) => if items == [] then Some(0.0) else None
    case Obj(_) => None
  }

  /** `v < k` for a number literal `k`: false whenever `v` converts to NaN. */
  predicate LessThan(v: JsValue, k: real) {
    var x := ToNumber(v); x.Some? && x.value < k
  }

  /** `v > k` for a number literal `k`. */
  predicate GreaterThan(v: JsValue, k: real) {
    var x := ToNumber(v); x.Some? && x.value > k
  }

  /** `v * k` for a number literal `k`. */
  function Times(v: JsValue, k: real): (r: JsValue)
    ensures r.Num? || r.NaN?
    ensures v.Num? ==> r == Num(v.n * k)
  {
    match ToNumber(v)
    case None => NaN
    case Some(x) => Num(x * k)
  }
}
