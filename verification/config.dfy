/**
 How `initComponent` resolves the field's options (display format, spinner
 target and step, the three seconds-valued options) and how `valueToRaw`
 turns its argument into a count of seconds before formatting it.
 */
module FieldConfig {
  import opened Decimal
  import opened JsValues
  import opened Duration

  /** The unit the spinner buttons change: 'hours', 'minutes' or 'seconds'. */
  datatype Unit = Hours | Minutes | Seconds

  /** `targetFormat`: one of 'H', 'H:i', 'H:i:s'; anything else becomes 'H:i:s'. */
  function ResolveFormat(token: JsValue): (fmt: Format)
    ensures fmt == HoursOnly <==> token == Str("H")
    ensures fmt == HoursMinutes <==> token == Str("H:i")
    ensures fmt == HoursMinutesSeconds <==> token != Str("H") && token != Str("H:i")
  {
    if !Truthy(token) || !(token.Str? && token.s in ["H", "H:i", "H:i:s"]) then HoursMinutesSeconds
    else if token.s == "H" then HoursOnly
    else if token.s == "H:i" then HoursMinutes
    else HoursMinutesSeconds
  }

  /** `spinnerTarget`: one of 'hours', 'minutes', 'seconds'; anything else becomes 'hours'. */
  function ResolveTarget(token: JsValue): (unit: Unit)
    ensures unit == Minutes <==> token == Str("minutes")
    ensures unit == Seconds <==> token == Str("seconds")
    ensures unit == Hours <==> token != Str("minutes") && token != Str("seconds")
  {
    if !Truthy(token) || !(token.Str? && token.s in ["hours", "minutes", "seconds"]) then Hours
    else if token.s == "minutes" then Minutes
    else if token.s == "seconds" then Seconds
    else Hours
  }

  /** The seconds in one unit of the spinner target. */
  function UnitSeconds(unit: Unit): (s: nat)
    ensures s >= 1 && 3600 % s == 0
  {
    match unit
    case Hours => 3600
    case Minutes => 60
    case Seconds => 1
  }

  /**
   `spinnerStep`: kept when it reads as a positive number, 1 when it is NaN
   or not positive.
   */
  function ResolveMultiplier(step: JsValue): (m: nat)
    requires InDomain(step) && WholeStep(step)
    ensures m >= 1
    ensures ToNumber(step).Some? && ToNumber(step).value > 0.0 ==> m as real == ToNumber(step).value
    ensures ToNumber(step).None? || ToNumber(step).value <= 0.0 ==> m == 1
  {
    match ToNumber(step)
    case None => 1
    case Some(x) => if x <= 0.0 then 1 else x.Floor
  }

  /**
   The coercion `initComponent` applies alike to `minValue`, `maxValue` and
   `value`: a truthy numeric value with a non-negative `parseInt` is that
   integer, any other truthy text is parsed as display text, and everything
   else is the fallback.
   */
  function CoerceSeconds(v: JsValue, fmt: Format, fallback: nat): (n: nat)
    requires InDomain(v)
    ensures !Truthy(v) ==> n == fallback
    ensures v.Num? && v.x != 0.0 && v.x > -1.0 ==> n == Trunc(v.x)
    ensures v.Num? && v.x <= -1.0 ==> n == fallback
    ensures v.Str? && v.s != [] && AllDigits(v.s) ==> n == DecimalValue(v.s)
    ensures v.Str? && !AllDigits(v.s) ==> n == RawToValue(fmt, v.s)
    ensures v.Bool? || v.Obj? ==> n == fallback
  {
    if Truthy(v) then
      if IsNumeric(v) && ParseInt(v) >= 0 then ParseInt(v)
      else if v.Str? then RawToValue(fmt, v.s)
      else fallback
    else fallback
  }

  /**
   The first half of `valueToRaw`: numeric text and numbers go through
   `parseInt`, other text through `rawToValue`, and any other value is
   replaced by the minimum.
   */
  function DisplaySeconds(v: JsValue, fmt: Format, minValue: nat): (n: int)
    requires InDomain(v)
    ensures v.Num? ==> n == Trunc(v.x)
    ensures !v.Num? ==> n >= 0
    ensures !v.Str? && !v.Num? ==> n == minValue
  {
    if v.Str? then
      if IsNumeric(v) then ParseInt(v) else RawToValue(fmt, v.s)
    else if v.Num? then Trunc(v.x)
    else minValue
  }

  /** `valueToRaw`: the display text of a value. */
  function ValueToRaw(v: JsValue, fmt: Format, minValue: nat): (raw: string)
    requires InDomain(v)
    ensures |raw| > TailLength(fmt)
    ensures raw[0] == '-' <==> v.Num? && v.x <= -1.0
  {
    FormatSeconds(fmt, DisplaySeconds(v, fmt, minValue))
  }

  // ---------------------------------------------------------------------------
  // Lemmas

  /**
   What `initComponent` stores for a truthy text or non-negative number is
   what `valueToRaw` would read from the same value: the two coercions agree.
   */
  lemma CoercionsAgree(v: JsValue, fmt: Format, fallback: nat, minValue: nat)
    requires InDomain(v) && Truthy(v) && (v.Str? || (v.Num? && v.x > -1.0))
    ensures DisplaySeconds(v, fmt, minValue) == CoerceSeconds(v, fmt, fallback)
  {
  }

  /** Any value that is neither text nor a finite number, NaN included, is displayed as the minimum. */
  lemma ValueToRawFallback(v: JsValue, fmt: Format, minValue: nat)
    requires !v.Str? && !v.Num?
    ensures ValueToRaw(v, fmt, minValue) == FormatSeconds(fmt, minValue)
  {
  }

  /** Whatever the argument, if it is not a negative number, the display text is accepted by the format. */
  lemma ValueToRawAccepted(v: JsValue, fmt: Format, minValue: nat)
    requires InDomain(v) && !(v.Num? && v.x <= -1.0)
    ensures Accepts(fmt, ValueToRaw(v, fmt, minValue))
  {
    FormatAccepted(fmt, DisplaySeconds(v, fmt, minValue));
  }

  /** Accepted, unpadded display text in 'H:i' or 'H:i:s' is shown exactly as given. */
  lemma ValueToRawKeepsDisplayText(s: string, fmt: Format, minValue: nat)
    requires fmt != HoursOnly && Accepts(fmt, s) && IsCanonical(HoursText(fmt, s))
    ensures InDomain(Str(s))
    ensures ValueToRaw(Str(s), fmt, minValue) == s
  {
    ParseThenFormat(fmt, s);
    assert s[|s| - 3] == ':';
  }

  /** Numeric text is a count of seconds, not of hours: `setValue('3600')` shows one hour. */
  lemma NumericTextIsSeconds(n: nat, fmt: Format, minValue: nat)
    ensures InDomain(Str(NatToString(n)))
    ensures ValueToRaw(Str(NatToString(n)), fmt, minValue) == FormatSeconds(fmt, n)
  {
    DecimalOfNatToString(n);
  }

  /** The step the spinner adds: the unit's seconds times a positive whole multiplier. */
  lemma StepExamples()
    ensures UnitSeconds(ResolveTarget(Str("minutes"))) * ResolveMultiplier(Num(5.0)) == 300
    ensures UnitSeconds(ResolveTarget(Undefined)) * ResolveMultiplier(Num(-2.0)) == 3600
    ensures UnitSeconds(ResolveTarget(Str("days"))) * ResolveMultiplier(NaN) == 3600
  {
  }
}
