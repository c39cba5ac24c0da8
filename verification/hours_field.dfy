/**
 The hours field itself: the options `initComponent` resolves into fields,
 the bounds check `alignValue`, the spinner buttons and the submitted value.
 The current value is a plain field here; the text box shows its display
 text.
 */
module HoursFieldWidget {
  import opened Text
  import opened JsValues
  import opened Duration
  import opened FieldConfig
  import opened Bounds

  /** The options a field is created with; any of them may be left undefined. */
  datatype Config = Config(
    value: JsValue,
    minValue: JsValue,
    maxValue: JsValue,
    targetFormat: JsValue,
    submitSeconds: JsValue,
    spinnerTarget: JsValue,
    spinnerStep: JsValue)

  predicate ConfigInDomain(cfg: Config) {
    && InDomain(cfg.value) && InDomain(cfg.minValue) && InDomain(cfg.maxValue)
    && InDomain(cfg.spinnerStep) && WholeStep(cfg.spinnerStep)
  }

  /** What `getSubmitValue` hands to the form: a count of seconds or the display text. */
  datatype SubmitValue = SubmitSeconds(seconds: int) | SubmitText(text: string)

  class HoursField {
    var targetFormat: Format
    var spinnerTarget: Unit
    var spinnerStep: nat     // seconds added or taken away by one spin
    var minValue: nat
    var maxValue: nat        // 0: no upper bound
    var value: int           // seconds
    var submitSeconds: JsValue

    ghost predicate Valid()
      reads this
    {
      spinnerStep >= 1 && value >= 0
    }

    /** `initComponent`: resolve every option, falling back to its default. */
    constructor (cfg: Config)
      requires ConfigInDomain(cfg)
      ensures Valid()
      ensures targetFormat == ResolveFormat(cfg.targetFormat)
      ensures spinnerTarget == ResolveTarget(cfg.spinnerTarget)
      ensures spinnerStep == UnitSeconds(spinnerTarget) * ResolveMultiplier(cfg.spinnerStep)
      ensures minValue == CoerceSeconds(cfg.minValue, targetFormat, 0)
      ensures maxValue == CoerceSeconds(cfg.maxValue, targetFormat, 0)
      ensures value == CoerceSeconds(cfg.value, targetFormat, minValue)
      ensures submitSeconds == cfg.submitSeconds
    {
      var fmt := ResolveFormat(cfg.targetFormat);
      targetFormat := fmt;
      var unit := ResolveTarget(cfg.spinnerTarget);
      spinnerTarget := unit;
      var multiplier := ResolveMultiplier(cfg.spinnerStep);
      spinnerStep := UnitSeconds(unit) * multiplier;
      var lower := CoerceSeconds(cfg.minValue, fmt, 0);
      minValue := lower;
      maxValue := CoerceSeconds(cfg.maxValue, fmt, 0);
      value := CoerceSeconds(cfg.value, fmt, lower);
      submitSeconds := cfg.submitSeconds;
    }

    /** The display text of the current value (`valueToRaw` of it). */
    function RawValue(): (raw: string)
      reads this
      ensures raw == ValueToRaw(Num(value as real), targetFormat, minValue)
      ensures raw[0] == '-' <==> value < 0
    {
      FormatSeconds(targetFormat, value)
    }

    /**
     `alignValue`. Below the minimum the value is set to the minimum (twice,
     as written) and the maximum is not looked at; above a truthy maximum it
     is set to the maximum.
     */
    method AlignValue()
      requires spinnerStep >= 1  // the value itself may be out of range here
      modifies this`value
      ensures Valid()
      ensures value == Clamp(old(value), minValue, maxValue)
    {
      var val := value;
      value := if val < minValue then minValue else val;
      if val < minValue {
        value := minValue;
        return;
      }
      if maxValue != 0 && val > maxValue {
        value := maxValue;
      }
    }

    /** `setValue(v)` followed by the `alignValue` that its change event runs. */
    method SetValue(v: JsValue)
      requires Valid() && InDomain(v)
      modifies this`value
      ensures Valid()
      ensures value == Clamp(DisplaySeconds(v, targetFormat, minValue), minValue, maxValue)
    {
      value := DisplaySeconds(v, targetFormat, minValue);
      AlignValue();
    }

    /** `onSpinUp`: the current value plus the step, then the bounds check. */
    method SpinUp()
      requires Valid()
      modifies this`value
      ensures Valid()
      ensures value == Clamp(old(value) + spinnerStep, minValue, maxValue)
    {
      SetValue(Num((value + spinnerStep) as real));
    }

    /** `onSpinDown`: the current value minus the step, then the bounds check. */
    method SpinDown()
      requires Valid()
      modifies this`value
      ensures Valid()
      ensures value == Clamp(old(value) - spinnerStep, minValue, maxValue)
    {
      SetValue(Num((value - spinnerStep) as real));
    }

    /** `getSubmitValue`: the seconds when `submitSeconds` is truthy, otherwise the display text. */
    function GetSubmitValue(): (r: SubmitValue)
      reads this
      ensures r.SubmitSeconds? <==> Truthy(submitSeconds)
      ensures r.SubmitSeconds? ==> r.seconds == value
      ensures r.SubmitText? ==> r.text == RawValue()
    {
      if Truthy(submitSeconds) then SubmitSeconds(value) else SubmitText(RawValue())
    }
  }

  /**
   The submitted display text is accepted by the field's pattern and reads back
   as the value, down to the format's granularity.
   */
  lemma SubmittedTextReadsBack(f: HoursField)
    requires f.Valid() && !Truthy(f.submitSeconds)
    ensures f.GetSubmitValue().SubmitText?
    ensures Accepts(f.targetFormat, f.GetSubmitValue().text)
    ensures InAlphabet(f.GetSubmitValue().text)
    ensures RawToValue(f.targetFormat, f.GetSubmitValue().text)
         == f.value - f.value % Granularity(f.targetFormat)
  {
    var fmt, v := f.targetFormat, f.value;
    FormatAccepted(fmt, v);
    ParseThenFormat(fmt, FormatSeconds(fmt, v));
    match fmt
    case HoursOnly => RoundTripHours(v);
    case HoursMinutes => RoundTripMinutes(v);
    case HoursMinutesSeconds => RoundTripSeconds(v);
  }

  /** A spin up and a spin down on a field whose bounds leave room for both. */
  method SpinUpThenDownOnField(f: HoursField)
    requires f.Valid() && InRange(f.value, f.minValue, f.maxValue)
    requires InRange(f.value + f.spinnerStep, f.minValue, f.maxValue)
    modifies f
    ensures f.Valid() && f.value == old(f.value)
  {
    f.SpinUp();
    f.SpinDown();
  }

  /** Worked scenarios for a field in the default 'H:i:s' format. */
  method Scenarios()
  {
    var defaults := Config(Undefined, Undefined, Undefined, Undefined, Undefined, Undefined, Undefined);
    var f := new HoursField(defaults);
    assert f.targetFormat == HoursMinutesSeconds && f.minValue == 0 && f.maxValue == 0;
    f.SetValue(Num(3661.0));
    FormatExamples();
    assert f.RawValue() == "1:01:01";
    f.SetValue(Num(-5.0));
    assert f.value == 0;

    var g := new HoursField(defaults.(minValue := Num(600.0), maxValue := Num(7200.0)));
    g.SetValue(Num(100.0));
    assert g.value == 600;

    var h := new HoursField(defaults.(spinnerTarget := Str("minutes"), spinnerStep := Num(5.0)));
    h.SpinUp();
    assert h.value == 300;
  }
}
