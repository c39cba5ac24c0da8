# Hours field: a verified model of its value engine

`Ext.ux.form.field.Hours` is an ExtJS spinner field for a duration. It holds
a count of seconds and shows it as text in one of three formats: `H`, `H:i`
or `H:i:s`. Hours are written unpadded and may exceed 24 (`123:44:56`).
Minutes and seconds are written as two digits. This project models the
field's value engine in Dafny and proves what it does:

- `decimal.dfy` (module `Decimal`): digit strings. It covers JavaScript's
  `String(n)` on integers and `parseInt` on digit text.
- `text.dfy` (module `Text`): `split(':')` and its inverse, `substr(0, 2)`,
  and `Ext.util.Format.leftPad`.
- `duration.dfy` (module `Duration`):
  - the formatter (`valueToRaw` once its argument is a number of seconds);
  - the parser (`rawToValue`);
  - the acceptance pattern of each format (the `regex` chosen in `initComponent`);
  - the round trips between the formatter and the parser.
- `jsvalue.dfy` (module `JsValues`): the dynamically typed option values, with
  truthiness, `Ext.isNumeric`, `parseInt` and `Number`.
- `config.dfy` (module `FieldConfig`): how `initComponent` resolves each
  option, and how `valueToRaw` turns its argument into seconds.
- `bounds.dfy` (module `Bounds`): the bounds check of `alignValue` as a
  function, with its lemmas.
- `hours_field.dfy` (module `HoursFieldWidget`): the field as a class.
  - Its fields are the ones `initComponent` overwrites.
  - Its methods are `alignValue`, the spin handlers and `setValue`. `setValue`
    is followed by the `alignValue` that its change event runs.
  - `getSubmitValue` is a function of the class.

A `maxValue` of 0 in the model stands for every falsy `maxValue` (0, `null`,
`undefined`). `alignValue` only tests the maximum for truthiness, so all of
these mean "no upper bound".

Some behaviour of the code is easy to misread:

- With `spinnerTarget: 'minutes'` and `spinnerStep: 5`, one spin adds 300
  seconds (5 × 60) (`FieldConfig.StepExamples`).
- `valueToRaw` reads numeric text with `parseInt` and sends every
  non-numeric string through `rawToValue`. Only values that are neither strings nor finite numbers (`NaN`
  included) are replaced by `minValue` (`FieldConfig.ValueToRawFallback`).
- Numeric text is a count of seconds in every format. `setValue('3600')` shows
  one hour (`FieldConfig.NumericTextIsSeconds`).
- `initComponent` never checks that `maxValue >= minValue`. When a truthy
  maximum lies below the minimum, the bounds check is not idempotent: 700 is
  pulled down to the maximum and then up to the minimum
  (`Bounds.ClampCrossedBoundsNotIdempotent`). Each change it makes raises
  another change event, so the check never settles. With bounds that do not
  cross, a second check changes nothing (`Bounds.ClampIdempotent`).
- A negative count of seconds is formatted as JavaScript does it. `Math.floor`
  rounds down and `%` keeps the sign of the dividend, so -5 seconds become
  `-1:-1:-5`. No format accepts such text (`Duration.FormatNegativeRejected`).

## Model

| member | source | states |
|---|---|---|
| `Text.Split` | src/HoursField.js:162 | `split(':')` yields at least one part and no part holds a ':'; on digit-and-colon text every part is all digits |
| `Text.JoinSplit` | src/HoursField.js:162 | joining the parts of a split with ':' gives the original text back |
| `Text.SplitJoin` | src/HoursField.js:162 | splitting ':'-joined parts that hold no ':' gives exactly those parts back |
| `Text.FirstTwo` | src/HoursField.js:171 | `substr(0, 2)` keeps a part of at most two characters whole and otherwise keeps exactly its first two characters |
| `Text.LeftPad` | src/HoursField.js:145 | `leftPad` leaves text of the width alone and otherwise returns exactly `width` characters: pad characters followed by the original text |
| `Decimal.NatToString` | src/HoursField.js:137-138 | `String(n)` of a non-negative integer is a non-empty digit string without a superfluous leading zero, one character long exactly when n < 10 |
| `Decimal.IntToString` | src/HoursField.js:144 | `String(n)` of any integer is non-empty and starts with '-' exactly when n is negative |
| `Decimal.DecimalValue` | src/HoursField.js:163 | `parseInt` of a digit string is 0 exactly when every digit is '0' |
| `Decimal.DecimalOfNatToString` | src/HoursField.js:137-138 | the hour count written by `String(n)` reads back as n |
| `Decimal.NatToStringOfDecimal` | src/HoursField.js:163 | an unpadded digit string is exactly what `String` writes for its value |
| `Decimal.DecimalLeadingZero` | src/HoursField.js:171 | a leading zero, as in a padded minute like `05`, does not change the value `parseInt` reads |
| `Duration.JsRem` | src/HoursField.js:143 | JavaScript's `%`: in [0, b) for a non-negative dividend and in (-b, 0] for a negative one |
| `Duration.JsRemValue` | src/HoursField.js:143 | JavaScript's `%` is the remainder of the division truncated toward zero: a == trunc(a / b) × b + a % b |
| `Duration.Pad2` | src/HoursField.js:145 | `leftPad(n, 2, '0')` is at least two characters long and starts with '-' exactly when n is negative |
| `Duration.Pad2IsLeftPad` | src/HoursField.js:145 | the two-character padding of a count is `leftPad(String(n), 2, '0')` |
| `Duration.Pad2OfMinSec` | src/HoursField.js:150-153 | minutes and seconds below 60 are written as two characters in `[0-5][0-9]` that read back as the same number |
| `Duration.MinSecOfPad2` | src/HoursField.js:35-36 | a two-character `[0-5][0-9]` part is below 60 and is written back exactly by the padding |
| `Duration.Accepts` | src/HoursField.js:34-39 | text a format's pattern accepts is longer than the format's minute and second parts and starts and ends with a digit |
| `Duration.FormatSeconds` | src/HoursField.js:135-155 | the formatted text is longer than the format's minute and second parts, and starts with '-' exactly when the seconds are negative |
| `Duration.RawToValue` | src/HoursField.js:159-182 | the parsed count is a whole number of hours in `H` and of minutes in `H:i` |
| `Duration.FormatAccepted` | src/HoursField.js:34-39 | for seconds >= 0 the formatter's text matches its own format's pattern, and its hours part is the unpadded hour count |
| `Duration.FormatNegativeRejected` | src/HoursField.js:148-153 | for negative seconds the formatter's text matches none of the patterns |
| `Duration.FormatExamples` | src/HoursField.js:135-153 | 3661 s is `1:01:01` in `H:i:s`, 7200 s is `2` in `H`, and -5 s is `-1:-1:-5` in `H:i:s` |
| `Duration.RoundTripSeconds` | src/HoursField.js:148-153 | in `H:i:s`, `rawToValue(valueToRaw(s)) == s` for every s >= 0 |
| `Duration.RoundTripMinutes` | src/HoursField.js:141-145 | in `H:i`, `rawToValue(valueToRaw(s)) == s - s % 60` for every s >= 0 |
| `Duration.RoundTripHours` | src/HoursField.js:136-138 | in `H`, `rawToValue(valueToRaw(s)) == s - s % 3600` for every s >= 0 |
| `Duration.PartsOf` | src/HoursField.js:148-153 | for h hours, m < 60 minutes and x < 60 seconds the formatter's parts are `String(h)`, m padded to two characters and x padded to two characters |
| `Duration.PartsOfNonNegative` | src/HoursField.js:148-153 | for seconds >= 0 the hours part is the unpadded `Math.floor(s / 3600)`, and the minutes and seconds parts are two characters in `[0-5][0-9]` whose values are the minutes and seconds of the remainder |
| `Duration.ParseOfTwoParts` | src/HoursField.js:170-172 | in `H:i`, two digit parts are read as hours × 3600 + (first two characters of the minutes) × 60; an empty part counts as 0 |
| `Duration.ParseThenFormat` | src/HoursField.js:159-182 | text the format accepts, with unpadded hours, is over the input alphabet and is exactly what the formatter writes for its parsed value |
| `Duration.ParseOfParts` | src/HoursField.js:175-178 | in `H:i:s`, three digit parts are read as hours × 3600 + (first two characters of the minutes) × 60 + (first two characters of the seconds); an empty part counts as 0 |
| `Duration.ParseIgnoresExtraParts` | src/HoursField.js:162-178 | parts beyond the ones the format reads do not change the result; in `H`, only the text before the first ':' counts |
| `Duration.ParseEmptyPartIsZero` | src/HoursField.js:163-177 | an empty part adds exactly what a part `0` adds: nothing |
| `JsValues.Truthy` | src/HoursField.js:53 | for a value that is neither text nor an object, truthiness holds exactly when `Number(v)` is a non-zero number |
| `JsValues.IsNumeric` | src/HoursField.js:54 | `Ext.isNumeric(v)` implies `Number(v)` is not NaN; on text, it holds exactly when the text is non-empty and `Number` reads it |
| `JsValues.Trunc` | src/HoursField.js:130 | `parseInt` of a number truncates it toward zero |
| `JsValues.ParseInt` | src/HoursField.js:54-55 | `parseInt` of numeric text is never negative; of a number, it is non-negative exactly when the number is above -1 |
| `JsValues.ToNumber` | src/HoursField.js:43 | `Number(v)` is NaN exactly for undefined, NaN, objects and non-numeric text; otherwise it is a number, and a whole non-negative one unless v is a number |
| `FieldConfig.ResolveFormat` | src/HoursField.js:33 | the format is `H` or `H:i` exactly when that string was given; anything else, missing included, gives `H:i:s` |
| `FieldConfig.ResolveTarget` | src/HoursField.js:42 | the target is minutes or seconds exactly when that string was given; anything else gives hours |
| `FieldConfig.UnitSeconds` | src/HoursField.js:44-49 | one unit of the spinner target is a positive number of seconds that divides an hour |
| `FieldConfig.ResolveMultiplier` | src/HoursField.js:43 | the multiplier is at least 1; it is the option's numeric reading when that is positive, and 1 when the option is NaN or not positive |
| `FieldConfig.StepExamples` | src/HoursField.js:42-49 | target 'minutes' with step 5 gives 300 s; a missing target with step -2 gives 3600 s; target 'days' with a NaN step gives 3600 s |
| `FieldConfig.CoerceSeconds` | src/HoursField.js:53-85 | the three-way coercion: falsy values, numbers at or below -1, booleans and objects give the fallback; any other truthy number (one in (-1, 0) included) gives its truncation; digit text gives its decimal value; other text is parsed as display text |
| `FieldConfig.DisplaySeconds` | src/HoursField.js:123-133 | `valueToRaw` reads a number by truncation; text and every non-number give a non-negative count; a value that is neither text nor a number gives `minValue` |
| `FieldConfig.ValueToRaw` | src/HoursField.js:120-157 | the display text is longer than the format's minute and second parts, and starts with '-' exactly when the argument is a number at or below -1 |
| `FieldConfig.CoercionsAgree` | src/HoursField.js:53-85 | for truthy text or a number above -1, the value `initComponent` stores is the value `valueToRaw` reads from the same input |
| `FieldConfig.ValueToRawFallback` | src/HoursField.js:129-133 | any value that is neither text nor a finite number, NaN included, is displayed as `minValue` |
| `FieldConfig.ValueToRawAccepted` | src/HoursField.js:120-157 | unless the argument is a number at or below -1, the displayed text matches the format's pattern |
| `FieldConfig.ValueToRawKeepsDisplayText` | src/HoursField.js:126-128 | in `H:i` and `H:i:s`, accepted text with unpadded hours passed to `setValue` is shown exactly as given |
| `FieldConfig.NumericTextIsSeconds` | src/HoursField.js:123-125 | numeric text is a count of seconds: it is shown as that many seconds in every format |
| `Bounds.Clamp` | src/HoursField.js:95-106 | with bounds that do not cross, the result is in range; a value in range is kept; below the minimum the result is the minimum, even if the maximum is lower; above a truthy maximum, it is the maximum |
| `Bounds.ClampIdempotent` | src/HoursField.js:95-106 | with bounds that do not cross, checking twice gives the same result as checking once |
| `Bounds.ClampNearest` | src/HoursField.js:95-106 | with bounds that do not cross, the result is the allowed value nearest to the input |
| `Bounds.ClampCrossedBoundsNotIdempotent` | src/HoursField.js:98-105 | with minimum 600 and maximum 100, 700 is checked to 100 and 100 then to 600 |
| `Bounds.SpinUpThenDown` | src/HoursField.js:109-118 | from a value in range, spinning up and then down returns to the start when the value after the up spin is in range |
| `Bounds.SpinDownThenUp` | src/HoursField.js:109-118 | from a value in range, spinning down and then up returns to the start when the value after the down spin is in range |
| `HoursFieldWidget.HoursField.constructor` | src/HoursField.js:31-85 | each option is resolved as above; the step is the unit's seconds times the multiplier; `value` falls back to the resolved `minValue` |
| `HoursFieldWidget.HoursField.AlignValue` | src/HoursField.js:95-107 | the new value is the bounds check of the old one |
| `HoursFieldWidget.HoursField.SetValue` | src/HoursField.js:87-89 | the new value is the bounds check of the argument as `valueToRaw` reads it |
| `HoursFieldWidget.HoursField.SpinUp` | src/HoursField.js:109-113 | the new value is the bounds check of the old value plus the step |
| `HoursFieldWidget.HoursField.SpinDown` | src/HoursField.js:115-118 | the new value is the bounds check of the old value minus the step |
| `HoursFieldWidget.HoursField.RawValue` | src/HoursField.js:187 | the text the field shows is `valueToRaw` of its current value, and starts with '-' exactly when the value is negative |
| `HoursFieldWidget.HoursField.GetSubmitValue` | src/HoursField.js:185-188 | the seconds are submitted exactly when `submitSeconds` is truthy; otherwise the display text is submitted |
| `HoursFieldWidget.SubmittedTextReadsBack` | src/HoursField.js:185-188 | the submitted display text matches the field's pattern and reads back as the value, down to the format's granularity |
| `HoursFieldWidget.SpinUpThenDownOnField` | src/HoursField.js:109-118 | on a field, a spin up followed by a spin down leaves the value as it was when the bounds leave room for both |

## Left out

- `Ext.onReady`, `Ext.define`, the `Ext.form.field.Spinner` base class and
  `callParent` are left out. The framework's `getValue`, `setValue` and
  `getRawValue` are not part of this model. The current value is a plain
  field, and the display text is derived from it.
- The framework's `getValue` reads the value back from the display text. The
  model keeps the number that `valueToRaw` read instead. In `H:i:s` the two are
  equal for every non-negative value (`Duration.RoundTripSeconds`). In `H:i`
  and `H` the framework would also drop the seconds below a minute or an hour
  (`Duration.RoundTripMinutes`, `Duration.RoundTripHours`).
- The change-event wiring (lines 87-89) and `checkChangeBuffer` are left out.
  They are event and timing plumbing, so `SetValue` runs `AlignValue` once,
  explicitly. The change event that `alignValue`'s own `setValue` raises again
  is not modelled. With bounds that do not cross it changes nothing
  (`Bounds.ClampIdempotent`); with crossed bounds it would not terminate.
- The framework's first `setValue` during initialisation is not modelled.
  `initComponent` itself does not apply the bounds check to the initial value.
- `maskRe` (line 40) is left out beyond using its alphabet as the parser's
  domain. `regexText` and `invalidText` (line 51) are left out as message text.
  The `regex` field (line 39) is not stored: the pattern is the predicate
  `Duration.Accepts` of the resolved format.
- Duration.RawToValue: requires text over digits and ':'. `parseInt` on other
  text (NaN, signs, whitespace, digit prefixes) is not modelled. A string such
  as `-5` would give a negative count.
- HoursFieldWidget.HoursField.RawValue: the box's text is always the formatted
  value. Text the user types is not modelled: typing `1:75` over `2:15:00`
  (both 8100 s) raises no change event, so `getRawValue` would submit `1:75`
  as typed, which the pattern rejects.
- FieldConfig.CoerceSeconds, FieldConfig.DisplaySeconds,
  HoursFieldWidget.HoursField.SetValue and the constructor: require option text
  over digits and ':', for the same reason.
- FieldConfig.ResolveMultiplier: requires a positive numeric `spinnerStep` to
  be a whole number. Fractional steps would make the value fractional.
- Numbers are finite reals, and integers are unbounded. Infinity is not
  modelled. Neither is the exponent notation `String` uses below 1e-6 or from
  1e21 on, where `parseInt` reads only the leading digits. The loss of integer
  precision beyond 2^53 is not modelled either.
- Objects are a single value with no numeric reading. Objects with their own
  `valueOf` or `toString` are not distinguished.
