/**
 The value engine of the hours field: seconds to display text (`valueToRaw`
 after its input coercion), display text to seconds (`rawToValue`), and the
 acceptance pattern of each display format (the `regex` chosen in
 `initComponent`).
 */
module Duration {
  import opened Decimal
  import opened Text

  /** The three display formats 'H', 'H:i' and 'H:i:s'. */
  datatype Format = HoursOnly | HoursMinutes | HoursMinutesSeconds

  /** How many seconds one unit of the finest displayed part stands for. */
  function Granularity(fmt: Format): nat {
    match fmt
    case HoursOnly => 3600
    case HoursMinutes => 60
    case HoursMinutesSeconds => 1
  }

  /** How many characters the minute and second parts take after the hours. */
  function TailLength(fmt: Format): nat {
    match fmt
    case HoursOnly => 0
    case HoursMinutes => 3
    case HoursMinutesSeconds => 6
  }

  /** JavaScript's quotient truncated toward zero, the partner of `JsRem`. */
  function JsQuot(a: int, b: int): int
    requires b > 0
  {
    if a >= 0 then a / b else -((-a) / b)
  }

  /** JavaScript's `a % b`: the remainder takes the sign of the dividend. */
  function JsRem(a: int, b: int): (r: int)
    requires b > 0
    ensures a >= 0 ==> 0 <= r < b
    ensures a < 0 ==> -b < r <= 0
  {
    if a >= 0 then a % b else -((-a) % b)
  }

  /** `JsRem` is the remainder of the division truncated toward zero. */
  lemma JsRemValue(a: int, b: int)
    requires b > 0
    ensures a == JsQuot(a, b) * b + JsRem(a, b)
  {
    if a < 0 {
      var n := -a;
      assert n == (n / b) * b + n % b;
    }
  }

  /**
   `Ext.util.Format.leftPad(n, 2, '0')` on a number: the text of a number is
   never empty, so at most one '0' is put in front (see `Pad2IsLeftPad`).
   */
  function Pad2(n: int): (r: string)
    ensures |r| >= 2
    ensures r[0] == '-' <==> n < 0
  {
    var t := IntToString(n);
    if |t| >= 2 then t else "0" + t
  }

  /** A two-character minute or second part: `[0-5][0-9]`. */
  predicate IsMinSec(t: string) {
    |t| == 2 && '0' <= t[0] <= '5' && IsDigit(t[1])
  }

  /**
   The acceptance pattern of each format: `^\d+$`, `^\d+:[0-5][0-9]$` and
   `^\d+:[0-5][0-9]:[0-5][0-9]$`, read off position by position.
   */
  predicate Accepts(fmt: Format, raw: string)
    ensures Accepts(fmt, raw) ==> |raw| > TailLength(fmt) && IsDigit(raw[0]) && IsDigit(raw[|raw| - 1])
  {
    var n := |raw|;
    match fmt
    case HoursOnly => raw != [] && AllDigits(raw)
    case HoursMinutes =>
      n >= 4 && raw[n - 3] == ':' && AllDigits(raw[..n - 3]) && IsMinSec(raw[n - 2..])
    case HoursMinutesSeconds =>
      n >= 7 && raw[n - 6] == ':' && raw[n - 3] == ':' && AllDigits(raw[..n - 6])
      && IsMinSec(raw[n - 5..n - 3]) && IsMinSec(raw[n - 2..])
  }

  /** How many ':'-separated parts a format reads. */
  function PartCount(fmt: Format): nat {
    match fmt
    case HoursOnly => 1
    case HoursMinutes => 2
    case HoursMinutesSeconds => 3
  }

  /** The hours text of a display string: everything before its minute and second parts. */
  function HoursText(fmt: Format, raw: string): string
    requires |raw| >= TailLength(fmt)
  {
    raw[..|raw| - TailLength(fmt)]
  }

  /** The hours `Math.floor(seconds / 3600)`, unpadded. */
  function HoursPart(seconds: int): string {
    IntToString(seconds / 3600)
  }

  /** The minutes `Math.floor((seconds % 3600) / 60)`, padded to two characters. */
  function MinutesPart(seconds: int): string {
    Pad2(JsRem(seconds, 3600) / 60)
  }

  /** The seconds `(seconds % 3600) % 60`, padded to two characters. */
  function SecondsPart(seconds: int): string {
    Pad2(JsRem(JsRem(seconds, 3600), 60))
  }

  /** `valueToRaw` once its argument is a number of seconds. */
  function FormatSeconds(fmt: Format, seconds: int): (raw: string)
    ensures |raw| > TailLength(fmt)
    ensures raw[0] == '-' <==> seconds < 0
  {
    match fmt
    case HoursOnly => HoursPart(seconds)
    case HoursMinutes => HoursPart(seconds) + ":" + MinutesPart(seconds)
    case HoursMinutesSeconds => HoursPart(seconds) + ":" + MinutesPart(seconds) + ":" + SecondsPart(seconds)
  }

  /** `Ext.isEmpty(p) ? 0 : parseInt(p)` on a part made of digits. */
  function PartValue(p: string): nat
    requires AllDigits(p)
  {
    if p == [] then 0 else DecimalValue(p)
  }

  /** `rawToValue` on text over the field's own alphabet. */
  function RawToValue(fmt: Format, raw: string): (n: nat)
    requires InAlphabet(raw)
    ensures n % Granularity(fmt) == 0
  {
    var parts := Split(raw);
    var hours := PartValue(parts[0]) * 3600;
    match fmt
    case HoursOnly => hours
    case HoursMinutes => hours + PartValue(FirstTwo(PartAt(parts, 1))) * 60
    case HoursMinutesSeconds =>
      hours + PartValue(FirstTwo(PartAt(parts, 1))) * 60 + PartValue(FirstTwo(PartAt(parts, 2)))
  }

  // ---------------------------------------------------------------------------
  // Two-digit parts

  /** `Pad2` is the framework's `leftPad` to width 2 with '0'. */
  lemma Pad2IsLeftPad(n: int)
    ensures Pad2(n) == LeftPad(IntToString(n), 2, '0')
  {
    var t := IntToString(n);
    if |t| < 2 {
      var r := LeftPad(t, 2, '0');
      assert r[0] == '0' && r[1..] == t;
      assert r == [r[0]] + r[1..];
    }
  }

  /** A minute or second count below 60 is written as two characters in 00-59. */
  lemma Pad2OfMinSec(m: nat)
    requires m < 60
    ensures IsMinSec(Pad2(m)) && DecimalValue(Pad2(m)) == m
  {
    var s := NatToString(m);
    DecimalOfNatToString(m);
    if m < 10 {
      assert Pad2(m) == "0" + s;
      DecimalLeadingZero(s);
    } else {
      assert s == NatToString(m / 10) + [DigitChar(m % 10)];
      assert |s| == 2 && s[0] == DigitChar(m / 10);
    }
  }

  /** Reading a two-character part and padding it again gives the part back. */
  lemma MinSecOfPad2(t: string)
    requires IsMinSec(t)
    ensures DecimalValue(t) < 60 && Pad2(DecimalValue(t)) == t
  {
    assert t[..1] == [t[0]] && t[..1][..0] == [];
    assert DecimalValue(t[..1]) == DigitValue(t[0]);
    if t[0] == '0' {
      assert DecimalValue(t) == DigitValue(t[1]);
      assert NatToString(DecimalValue(t)) == [t[1]];
      assert Pad2(DecimalValue(t)) == "0" + [t[1]];
    } else {
      NatToStringOfDecimal(t);
    }
  }

  lemma DigitsHaveNoSeparator(s: string)
    requires AllDigits(s)
    ensures ':' !in s
  {
  }

  // ---------------------------------------------------------------------------
  // The parts the formatter writes

  /** For a non-negative count the parts are the unpadded hours and the two-digit minutes and seconds. */
  lemma PartsOfNonNegative(seconds: nat)
    ensures HoursPart(seconds) == NatToString(seconds / 3600)
    ensures IsMinSec(MinutesPart(seconds)) && DecimalValue(MinutesPart(seconds)) == seconds % 3600 / 60
    ensures IsMinSec(SecondsPart(seconds)) && DecimalValue(SecondsPart(seconds)) == seconds % 3600 % 60
  {
    Pad2OfMinSec(seconds % 3600 / 60);
    Pad2OfMinSec(seconds % 3600 % 60);
  }

  /** Hours and a remainder below an hour are what division by 3600 recovers. */
  lemma HoursAndRemainder(h: nat, r: nat)
    requires r < 3600
    ensures (h * 3600 + r) / 3600 == h && (h * 3600 + r) % 3600 == r
  {
  }

  lemma MinutesAndRemainder(m: nat, x: nat)
    requires x < 60
    ensures (m * 60 + x) / 60 == m && (m * 60 + x) % 60 == x
  {
  }

  /** The parts of h whole hours plus a remainder r below an hour. */
  lemma PartsOfHoursAndRest(h: nat, r: nat, v: int)
    requires r < 3600 && v == h * 3600 + r
    ensures HoursPart(v) == NatToString(h)
    ensures MinutesPart(v) == Pad2(r / 60)
    ensures SecondsPart(v) == Pad2(r % 60)
  {
    HoursAndRemainder(h, r);
    assert v / 3600 == h && JsRem(v, 3600) == r;
  }

  /** The parts of h hours, m minutes and x seconds, with m and x below 60. */
  lemma PartsOf(h: nat, m: nat, x: nat, v: int)
    requires m < 60 && x < 60 && v == h * 3600 + m * 60 + x
    ensures HoursPart(v) == NatToString(h)
    ensures MinutesPart(v) == Pad2(m)
    ensures SecondsPart(v) == Pad2(x)
  {
    var r := m * 60 + x;
    MinutesAndRemainder(m, x);
    PartsOfHoursAndRest(h, r, v);
  }

  /** The parts of a count of seconds as the formatter computes them add up to it. */
  lemma SecondsDecompose(seconds: nat)
    ensures seconds / 3600 * 3600 + seconds % 3600 / 60 * 60 + seconds % 3600 % 60 == seconds
    ensures seconds % 60 == seconds % 3600 % 60
  {
    var h, r := seconds / 3600, seconds % 3600;
    assert seconds == h * 3600 + r;
    var m, s := r / 60, r % 60;
    assert r == m * 60 + s;
    assert seconds == (h * 60 + m) * 60 + s;
  }

  // ---------------------------------------------------------------------------
  // Splitting, accepting and parsing text built from parts

  lemma SplitTwo(a: string, b: string)
    requires ':' !in a && ':' !in b
    ensures Split(a + ":" + b) == [a, b]
  {
    SplitSeparator(a, b);
    SplitNoSeparator(b);
  }

  lemma SplitThree(a: string, b: string, c: string)
    requires ':' !in a && ':' !in b && ':' !in c
    ensures Split(a + ":" + b + ":" + c) == [a, b, c]
  {
    assert a + ":" + b + ":" + c == a + ":" + (b + ":" + c);
    SplitSeparator(a, b + ":" + c);
    SplitTwo(b, c);
  }

  lemma AcceptsTwo(hs: string, ms: string)
    requires hs != [] && AllDigits(hs) && IsMinSec(ms)
    ensures Accepts(HoursMinutes, hs + ":" + ms)
    ensures HoursText(HoursMinutes, hs + ":" + ms) == hs
  {
    var raw := hs + ":" + ms;
    var n := |raw|;
    assert raw[..n - 3] == hs && raw[n - 2..] == ms;
  }

  lemma AcceptsThree(hs: string, ms: string, ss: string)
    requires hs != [] && AllDigits(hs) && IsMinSec(ms) && IsMinSec(ss)
    ensures Accepts(HoursMinutesSeconds, hs + ":" + ms + ":" + ss)
    ensures HoursText(HoursMinutesSeconds, hs + ":" + ms + ":" + ss) == hs
  {
    var raw := hs + ":" + ms + ":" + ss;
    var n := |raw|;
    assert raw[..n - 6] == hs && raw[n - 5..n - 3] == ms && raw[n - 2..] == ss;
  }

  /** `rawToValue` in 'H:i' on two digit parts. */
  lemma ParseOfTwoParts(hs: string, ms: string)
    requires AllDigits(hs) && AllDigits(ms)
    ensures InAlphabet(hs + ":" + ms)
    ensures RawToValue(HoursMinutes, hs + ":" + ms) == PartValue(hs) * 3600 + PartValue(FirstTwo(ms)) * 60
  {
    assert [hs, ms][1..] == [ms];
    assert Join([hs, ms]) == hs + ":" + ms;
    DigitsHaveNoSeparator(hs);
    DigitsHaveNoSeparator(ms);
    SplitTwo(hs, ms);
  }

  /**
   `rawToValue` in 'H:i:s' on three digit parts: hours times 3600, plus the
   first two characters of the minutes times 60, plus the first two characters
   of the seconds; an empty part counts as 0.
   */
  lemma ParseOfParts(hs: string, ms: string, ss: string)
    requires AllDigits(hs) && AllDigits(ms) && AllDigits(ss)
    ensures InAlphabet(hs + ":" + ms + ":" + ss)
    ensures RawToValue(HoursMinutesSeconds, hs + ":" + ms + ":" + ss)
         == PartValue(hs) * 3600 + PartValue(FirstTwo(ms)) * 60 + PartValue(FirstTwo(ss))
  {
    assert [hs, ms, ss][1..] == [ms, ss] && [ms, ss][1..] == [ss];
    assert Join([ss]) == ss;
    assert Join([ms, ss]) == ms + ":" + ss;
    assert Join([hs, ms, ss]) == hs + ":" + (ms + ":" + ss) == hs + ":" + ms + ":" + ss;
    DigitsHaveNoSeparator(hs);
    DigitsHaveNoSeparator(ms);
    DigitsHaveNoSeparator(ss);
    SplitThree(hs, ms, ss);
  }

  // ---------------------------------------------------------------------------
  // Formatter properties

  /**
   For a non-negative count of seconds the formatter writes text that its own
   format accepts, with the hours unpadded.
   */
  lemma FormatAccepted(fmt: Format, seconds: nat)
    ensures Accepts(fmt, FormatSeconds(fmt, seconds))
    ensures |FormatSeconds(fmt, seconds)| >= TailLength(fmt)
    ensures HoursText(fmt, FormatSeconds(fmt, seconds)) == NatToString(seconds / 3600)
  {
    PartsOfNonNegative(seconds);
    var hs, ms, ss := HoursPart(seconds), MinutesPart(seconds), SecondsPart(seconds);
    match fmt
    case HoursOnly =>
      assert FormatSeconds(fmt, seconds) == hs;
    case HoursMinutes =>
      assert FormatSeconds(fmt, seconds) == hs + ":" + ms;
      AcceptsTwo(hs, ms);
    case HoursMinutesSeconds =>
      assert FormatSeconds(fmt, seconds) == hs + ":" + ms + ":" + ss;
      AcceptsThree(hs, ms, ss);
  }

  /** A negative count of seconds gives text no format accepts (it starts with '-'). */
  lemma FormatNegativeRejected(fmt: Format, seconds: int)
    requires seconds < 0
    ensures !Accepts(fmt, FormatSeconds(fmt, seconds))
  {
    var raw := FormatSeconds(fmt, seconds);
    var hs := HoursPart(seconds);
    assert hs[0] == '-';
    assert raw[0] == '-';
    match fmt
    case HoursOnly =>
    case HoursMinutes =>
      if |raw| >= 4 {
        assert raw[..|raw| - 3][0] == '-';
      }
    case HoursMinutesSeconds =>
      if |raw| >= 7 {
        assert raw[..|raw| - 6][0] == '-';
      }
  }

  /** Worked examples: 3661 s in 'H:i:s', 7200 s in 'H', and -5 s in 'H:i:s'. */
  lemma FormatExamples()
    ensures FormatSeconds(HoursMinutesSeconds, 3661) == "1:01:01"
    ensures FormatSeconds(HoursOnly, 7200) == "2"
    ensures FormatSeconds(HoursMinutesSeconds, -5) == "-1:-1:-5"
  {
  }

  // ---------------------------------------------------------------------------
  // Round trips

  /** Parsing what the formatter wrote in 'H:i:s' gives the seconds back exactly. */
  lemma RoundTripSeconds(seconds: nat)
    ensures RawToValue(HoursMinutesSeconds, FormatSeconds(HoursMinutesSeconds, seconds)) == seconds
  {
    PartsOfNonNegative(seconds);
    var hs, ms, ss := HoursPart(seconds), MinutesPart(seconds), SecondsPart(seconds);
    DecimalOfNatToString(seconds / 3600);
    ParseOfParts(hs, ms, ss);
    SecondsDecompose(seconds);
  }

  /** Parsing what the formatter wrote in 'H:i' drops only the seconds below a minute. */
  lemma RoundTripMinutes(seconds: nat)
    ensures RawToValue(HoursMinutes, FormatSeconds(HoursMinutes, seconds)) == seconds - seconds % 60
  {
    PartsOfNonNegative(seconds);
    var hs, ms := HoursPart(seconds), MinutesPart(seconds);
    DecimalOfNatToString(seconds / 3600);
    ParseOfTwoParts(hs, ms);
    SecondsDecompose(seconds);
  }

  /** Parsing what the formatter wrote in 'H' drops everything below a whole hour. */
  lemma RoundTripHours(seconds: nat)
    ensures RawToValue(HoursOnly, FormatSeconds(HoursOnly, seconds)) == seconds - seconds % 3600
  {
    var hs := NatToString(seconds / 3600);
    DecimalOfNatToString(seconds / 3600);
    DigitsHaveNoSeparator(hs);
    SplitNoSeparator(hs);
  }

  lemma ParseThenFormatHours(raw: string)
    requires Accepts(HoursOnly, raw) && IsCanonical(raw)
    ensures InAlphabet(raw)
    ensures FormatSeconds(HoursOnly, RawToValue(HoursOnly, raw)) == raw
  {
    var h := DecimalValue(raw);
    NatToStringOfDecimal(raw);
    DigitsHaveNoSeparator(raw);
    SplitNoSeparator(raw);
    var v := RawToValue(HoursOnly, raw);
    assert v == h * 3600 + 0 * 60 + 0;
    PartsOf(h, 0, 0, v);
  }

  lemma ParseThenFormatMinutes(raw: string)
    requires Accepts(HoursMinutes, raw) && IsCanonical(HoursText(HoursMinutes, raw))
    ensures InAlphabet(raw)
    ensures FormatSeconds(HoursMinutes, RawToValue(HoursMinutes, raw)) == raw
  {
    var n := |raw|;
    var hs, ms := raw[..n - 3], raw[n - 2..];
    assert raw == hs + ":" + ms;
    ParseOfTwoParts(hs, ms);
    MinSecOfPad2(ms);
    var h, m := DecimalValue(hs), DecimalValue(ms);
    var v := RawToValue(HoursMinutes, raw);
    assert v == h * 3600 + m * 60 + 0;
    PartsOf(h, m, 0, v);
    assert FormatSeconds(HoursMinutes, v) == HoursPart(v) + ":" + MinutesPart(v);
    NatToStringOfDecimal(hs);
  }

  lemma ParseThenFormatSeconds(raw: string)
    requires Accepts(HoursMinutesSeconds, raw) && IsCanonical(HoursText(HoursMinutesSeconds, raw))
    ensures InAlphabet(raw)
    ensures FormatSeconds(HoursMinutesSeconds, RawToValue(HoursMinutesSeconds, raw)) == raw
  {
    var n := |raw|;
    var hs, ms, ss := raw[..n - 6], raw[n - 5..n - 3], raw[n - 2..];
    assert raw == hs + ":" + ms + ":" + ss;
    ParseOfParts(hs, ms, ss);
    MinSecOfPad2(ms);
    MinSecOfPad2(ss);
    var h, m, x := DecimalValue(hs), DecimalValue(ms), DecimalValue(ss);
    var v := RawToValue(HoursMinutesSeconds, raw);
    assert v == h * 3600 + m * 60 + x;
    PartsOf(h, m, x, v);
    assert FormatSeconds(HoursMinutesSeconds, v) == HoursPart(v) + ":" + MinutesPart(v) + ":" + SecondsPart(v);
    NatToStringOfDecimal(hs);
  }

  /** Accepted text with unpadded hours is exactly what the formatter writes for its value. */
  lemma ParseThenFormat(fmt: Format, raw: string)
    requires Accepts(fmt, raw)
    requires IsCanonical(HoursText(fmt, raw))
    ensures InAlphabet(raw)
    ensures FormatSeconds(fmt, RawToValue(fmt, raw)) == raw
  {
    match fmt
    case HoursOnly => assert HoursText(fmt, raw) == raw; ParseThenFormatHours(raw);
    case HoursMinutes => ParseThenFormatMinutes(raw);
    case HoursMinutesSeconds => ParseThenFormatSeconds(raw);
  }

  // ---------------------------------------------------------------------------
  // Parser properties over ':'-separated digit parts

  predicate DigitParts(parts: seq<string>) {
    forall i | 0 <= i < |parts| :: AllDigits(parts[i])
  }

  /** Joined digit parts split back into the same parts. */
  lemma SplitDigitParts(parts: seq<string>)
    requires |parts| >= 1 && DigitParts(parts)
    ensures InAlphabet(Join(parts)) && Split(Join(parts)) == parts
  {
    forall i | 0 <= i < |parts| ensures ':' !in parts[i] {
      DigitsHaveNoSeparator(parts[i]);
    }
    SplitJoin(parts);
  }

  /** Parts after the ones the format reads make no difference (in 'H', everything after the first ':'). */
  lemma ParseIgnoresExtraParts(fmt: Format, parts: seq<string>, extra: seq<string>)
    requires |parts| == PartCount(fmt) && DigitParts(parts) && DigitParts(extra)
    ensures InAlphabet(Join(parts + extra)) && InAlphabet(Join(parts))
    ensures RawToValue(fmt, Join(parts + extra)) == RawToValue(fmt, Join(parts))
  {
    var all := parts + extra;
    assert DigitParts(all) by {
      forall i | 0 <= i < |all| ensures AllDigits(all[i]) {
        if i >= |parts| { assert all[i] == extra[i - |parts|]; }
      }
    }
    SplitDigitParts(all);
    SplitDigitParts(parts);
    assert all[0] == parts[0];
    assert forall k: nat | k < |parts| :: PartAt(all, k) == PartAt(parts, k);
  }

  /** An empty part contributes exactly what a part "0" does: nothing. */
  lemma ParseEmptyPartIsZero(fmt: Format, parts: seq<string>, k: nat)
    requires k < |parts| && DigitParts(parts)
    ensures DigitParts(parts[k := ""]) && DigitParts(parts[k := "0"])
    ensures RawToValue(fmt, Join(parts[k := ""])) == RawToValue(fmt, Join(parts[k := "0"]))
  {
    var empty, zero := parts[k := ""], parts[k := "0"];
    assert DigitParts(empty) && DigitParts(zero);
    SplitDigitParts(empty);
    SplitDigitParts(zero);
    assert DecimalValue("0") == 0 by {
      assert "0"[..0] == [];
    }
    assert forall j: nat :: PartValue(FirstTwo(PartAt(empty, j))) == PartValue(FirstTwo(PartAt(zero, j)));
    assert PartValue(empty[0]) == PartValue(zero[0]);
  }
}
