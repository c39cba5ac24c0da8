/**
 The dynamically typed values the field's configuration options and its
 `setValue` argument can hold, and the ExtJS / JavaScript tests and
 conversions the field applies to them.
 */
module JsValues {
  import opened Decimal
  import opened Text

  datatype Option<T> = None | Some(value: T)

  /** A JavaScript value as far as the field distinguishes them. */
  datatype JsValue =
    | Undefined
    | Null
    | Bool(b: bool)
    | Num(x: real)   // a finite number
    | NaN
    | Str(s: string)
    | Obj            // an object with no numeric reading

  /** What the model covers: text is made of digits and ':' only. */
  predicate InDomain(v: JsValue) {
    v.Str? ==> InAlphabet(v.s)
  }

  /** JavaScript truthiness, as read by `if (me.minValue)`. */
  predicate Truthy(v: JsValue)
    ensures InDomain(v) && !v.Str? && !v.Obj? ==>
              (Truthy(v) <==> ToNumber(v).Some? && ToNumber(v).value != 0.0)
  {
    match v
    case Undefined => false
    case Null => false
    case Bool(b) => b
    case Num(x) => x != 0.0
    case NaN => false
    case Str(s) => s != []
    case Obj => true
  }

  /** `Ext.isNumeric(v)`: `parseFloat(v)` is not NaN and `isFinite(v)` holds. */
  predicate IsNumeric(v: JsValue)
    requires InDomain(v)
    ensures IsNumeric(v) ==> ToNumber(v).Some?
    ensures v.Str? ==> (IsNumeric(v) <==> Truthy(v) && ToNumber(v).Some?)
  {
    match v
    case Num(_) => true
    case Str(s) => s != [] && AllDigits(s)
    case _ => false
  }

  /** `parseInt(String(x))` for an ordinary finite number: truncation toward zero. */
  function Trunc(x: real): (n: int)
    ensures x >= 0.0 ==> n as real <= x < n as real + 1.0
    ensures x < 0.0 ==> n as real - 1.0 < x <= n as real
  {
    if x >= 0.0 then x.Floor else -((-x).Floor)
  }

  /** `parseInt(v)` on a value `Ext.isNumeric` accepts. */
  function ParseInt(v: JsValue): (n: int)
    requires InDomain(v) && IsNumeric(v)
    ensures v.Str? ==> n >= 0
    ensures v.Num? ==> (n >= 0 <==> v.x > -1.0)
  {
    if v.Num? then Trunc(v.x) else DecimalValue(v.s)
  }

  /** `Number(v)` as `isNaN(v)` and `v <= 0` read it; None stands for NaN. */
  function ToNumber(v: JsValue): (r: Option<real>)
    requires InDomain(v)
    ensures r.Some? && !v.Num? ==> r.value >= 0.0 && r.value == r.value.Floor as real
    ensures r.None? <==> v.Undefined? || v.NaN? || v.Obj? || (v.Str? && !AllDigits(v.s))
  {
    match v
    case Undefined => None
    case Null => Some(0.0)
    case Bool(b) => Some(if b then 1.0 else 0.0)
    case Num(x) => Some(x)
    case NaN => None
    case Str(s) => if s == [] then Some(0.0) else if AllDigits(s) then Some(DecimalValue(s) as real) else None
    case Obj => None
  }

  /** A numeric step option is a whole number when it is positive. */
  predicate WholeStep(v: JsValue) {
    v.Num? && v.x > 0.0 ==> v.x == v.x.Floor as real
  }
}
