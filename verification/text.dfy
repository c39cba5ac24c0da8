/**
 The string operations the field relies on: `String.prototype.split(':')`,
 its inverse (joining with ':'), `substr(0, 2)` and `Ext.util.Format.leftPad`.
 */
module Text {
  import opened Decimal

  /** The field's own input alphabet: digits and the separator ':'. */
  predicate InAlphabet(s: string) {
    forall i | 0 <= i < |s| :: IsDigit(s[i]) || s[i] == ':'
  }

  /** `s.split(':')`: always at least one part, and no part holds a ':'. */
  function Split(s: string): (parts: seq<string>)
    ensures |parts| >= 1
    ensures forall i | 0 <= i < |parts| :: ':' !in parts[i]
    ensures InAlphabet(s) ==> forall i | 0 <= i < |parts| :: AllDigits(parts[i])
    decreases |s|
  {
    if s == [] then [""]
    else if s[0] == ':' then [""] + Split(s[1..])
    else
      var rest := Split(s[1..]);
      [[s[0]] + rest[0]] + rest[1..]
  }

  /** The parts put back together with ':' between them. */
  function Join(parts: seq<string>): (s: string)
    requires |parts| >= 1
    ensures (forall i | 0 <= i < |parts| :: AllDigits(parts[i])) ==> InAlphabet(s)
    decreases |parts|
  {
    if |parts| == 1 then parts[0] else parts[0] + ":" + Join(parts[1..])
  }

  /** The k-th part, or the empty string where `split` produced no such part. */
  function PartAt(parts: seq<string>, k: nat): string {
    if k < |parts| then parts[k] else ""
  }

  /** `s.substr(0, 2)`: at most the first two characters. */
  function FirstTwo(s: string): (r: string)
    ensures |s| <= 2 ==> r == s
    ensures |s| > 2 ==> |r| == 2 && s == r + s[2..]
  {
    if |s| <= 2 then s else s[..2]
  }

  /** `Ext.util.Format.leftPad(s, width, c)`: prepend c until s is width long. */
  function LeftPad(s: string, width: nat, c: char): (r: string)
    ensures |s| >= width ==> r == s
    ensures |s| < width ==> |r| == width && r[width - |s|..] == s
    ensures |s| < width ==> forall i | 0 <= i < width - |s| :: r[i] == c
    decreases width - |s|
  {
    if |s| >= width then s else LeftPad([c] + s, width, c)
  }

  /** Splitting undoes joining, for parts free of ':'. */
  lemma {:induction false} JoinSplit(s: string)
    ensures Join(Split(s)) == s
    decreases |s|
  {
    if s != [] {
      JoinSplit(s[1..]);
      var rest := Split(s[1..]);
      if s[0] == ':' {
        assert s == ":" + s[1..];
      } else if |rest| == 1 {
        assert s == [s[0]] + rest[0];
      } else {
        assert Join(rest) == rest[0] + ":" + Join(rest[1..]);
        assert s == ([s[0]] + rest[0]) + ":" + Join(rest[1..]);
      }
    }
  }

  /** A string without ':' is a single part. */
  lemma {:induction false} SplitNoSeparator(s: string)
    requires ':' !in s
    ensures Split(s) == [s]
    decreases |s|
  {
    if s != [] {
      assert s[0] in s;
      SplitNoSeparator(s[1..]);
      assert [s[0]] + s[1..] == s;
    }
  }

  /** The first ':' ends the first part. */
  lemma {:induction false} SplitSeparator(a: string, b: string)
    requires ':' !in a
    ensures Split(a + ":" + b) == [a] + Split(b)
    decreases |a|
  {
    var s := a + ":" + b;
    if a == [] {
      assert s[1..] == b;
    } else {
      assert a[0] in a;
      assert s[1..] == a[1..] + ":" + b;
      SplitSeparator(a[1..], b);
      assert [s[0]] + a[1..] == a;
    }
  }

  /** Joining undoes splitting, for parts free of ':'. */
  lemma {:induction false} SplitJoin(parts: seq<string>)
    requires |parts| >= 1
    requires forall i | 0 <= i < |parts| :: ':' !in parts[i]
    ensures Split(Join(parts)) == parts
    decreases |parts|
  {
    if |parts| == 1 {
      SplitNoSeparator(parts[0]);
    } else {
      SplitJoin(parts[1..]);
      SplitSeparator(parts[0], Join(parts[1..]));
    }
  }
}
