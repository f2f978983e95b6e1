/**
 * Clock strings ("HH:MM") as the schedule handles them: JavaScript's
 * `Number` on the pieces of `split(":")`, the end-time computation from a
 * start and a duration, zero-padded formatting, and the string order `<=`
 * that the active-entry test uses.
 */
module Clock {
  import opened Wrappers

  /** Minutes in a day; end times wrap at 24 hours. */
  const MinutesPerDay: nat := 1440

  predicate IsDigit(c: char) { '0' <= c <= '9' }

  function DigitValue(c: char): (d: nat)
    requires IsDigit(c)
    ensures d < 10
  {
    (c as int) - ('0' as int)
  }

  function DigitChar(d: nat): (c: char)
    requires d < 10
    ensures IsDigit(c) && DigitValue(c) == d
  {
    ('0' as int + d) as char
  }

  predicate AllDigits(s: string) { forall i :: 0 <= i < |s| ==> IsDigit(s[i]) }

  // ---------------------------------------------------------------------------
  // Number(s) and String(n)

  function Pow10(k: nat): (p: nat)
    ensures p >= 1
  {
    if k == 0 then 1 else 10 * Pow10(k - 1)
  }

  /** The value of a digit string read front to back: each digit times its place value. */
  function DigitsValue(s: string): nat
    requires AllDigits(s)
  {
    if s == [] then 0 else DigitValue(s[0]) * Pow10(|s| - 1) + DigitsValue(s[1..])
  }

  /** Appending a digit shifts the value one place and adds the digit. */
  lemma {:induction false} DigitsValueSnoc(s: string, c: char)
    requires AllDigits(s) && IsDigit(c)
    ensures AllDigits(s + [c]) && DigitsValue(s + [c]) == 10 * DigitsValue(s) + DigitValue(c)
    decreases |s|
  {
    var t := s + [c];
    assert forall i :: 0 <= i < |t| ==> t[i] == if i < |s| then s[i] else c;
    if s != [] {
      var rest := s[1..];
      assert t[0] == s[0] && t[1..] == rest + [c];
      DigitsValueSnoc(rest, c);
      var d, p, v := DigitValue(s[0]), Pow10(|rest|), DigitsValue(rest);
      assert DigitsValue(s) == d * p + v;
      assert DigitsValue(t) == d * Pow10(|s|) + (10 * v + DigitValue(c));
      assert Pow10(|s|) == 10 * p;
      ShiftPlace(d, p, v, DigitValue(c));
    } else {
      assert t[1..] == [];
    }
  }

  lemma ShiftPlace(d: nat, p: nat, v: nat, x: nat)
    ensures d * (10 * p) + (10 * v + x) == 10 * (d * p + v) + x
  {
  }

  /**
   * `Number(s)` for the strings a time input yields: a run of decimal digits
   * is its value (the empty string is 0, as in JavaScript); any other string
   * is NaN, here `None`.
   */
  function ParseNumber(s: string): (r: Option<nat>)
    ensures r.Some? <==> AllDigits(s)
    ensures r.Some? ==> r.value == DigitsValue(s)
    ensures s == [] ==> r == Some(0)
    decreases |s|
  {
    if s == [] then Some(0)
    else
      match ParseNumber(s[..|s| - 1])
      case None => None
      case Some(n) =>
        if IsDigit(s[|s| - 1]) then
          DigitsValueSnoc(s[..|s| - 1], s[|s| - 1]);
          assert s[..|s| - 1] + [s[|s| - 1]] == s;
          Some(10 * n + DigitValue(s[|s| - 1]))
        else None
  }

  /** `String(n)` for a natural number: its decimal digits, no leading zeros. */
  function DecimalString(n: nat): (s: string)
    ensures AllDigits(s) && ParseNumber(s) == Some(n)
    ensures 1 <= |s| && (|s| == 1 <==> n < 10) && (n < 100 ==> |s| <= 2)
    decreases n
  {
    if n < 10 then [DigitChar(n)]
    else
      var prefix := DecimalString(n / 10);
      var s := prefix + [DigitChar(n % 10)];
      assert s[..|s| - 1] == prefix;
      s
  }

  /** `s.padStart(2, "0")`: a string shorter than two is filled with leading zeros to length two. */
  function PadStart2(s: string): (r: string)
    ensures |s| >= 2 ==> r == s
    ensures |s| < 2 ==> |r| == 2 && r[2 - |s|..] == s && forall i :: 0 <= i < 2 - |s| ==> r[i] == '0'
  {
    if |s| >= 2 then s else if |s| == 1 then ['0'] + s else "00"
  }

  /** A two-digit string read back by `Number` gives its two digits' value. */
  lemma ParseTwoDigits(s: string)
    requires |s| == 2 && AllDigits(s)
    ensures ParseNumber(s) == Some(10 * DigitValue(s[0]) + DigitValue(s[1]))
  {
    assert s[..1][..0] == [];
    assert ParseNumber(s[..1]) == Some(DigitValue(s[0]));
  }

  /** `String(n).padStart(2, "0")`, the formatting of each half of an end time. */
  function TwoDigits(n: nat): (s: string)
    ensures n < 100 ==> |s| == 2 && AllDigits(s) && 10 * DigitValue(s[0]) + DigitValue(s[1]) == n
  {
    var s := PadStart2(DecimalString(n));
    if n < 100 then
      assert |s| == 2 && AllDigits(s);
      ParseTwoDigits(s);
      if n < 10 then
        assert s[..1] == ['0'];
        s
      else
        s
    else
      s
  }

  // ---------------------------------------------------------------------------
  // split(":") and its inverse

  /** `s.split(sep)`: the pieces between separators, always at least one. */
  function Split(s: string, sep: char): (parts: seq<string>)
    ensures |parts| >= 1
    ensures forall i :: 0 <= i < |parts| ==> sep !in parts[i]
    ensures Join(parts, sep) == s
    decreases |s|
  {
    if s == [] then [[]]
    else
      var rest := Split(s[1..], sep);
      if s[0] == sep then
        [[]] + rest
      else
        var parts := [[s[0]] + rest[0]] + rest[1..];
        assert parts[1..] == rest[1..];
        if |rest| == 1 then
          parts
        else
          assert Join(rest, sep) == rest[0] + [sep] + Join(rest[1..], sep);
          parts
  }

  /** `parts.join(sep)`. */
  function Join(parts: seq<string>, sep: char): string
    requires |parts| >= 1
    decreases |parts|
  {
    if |parts| == 1 then parts[0] else parts[0] + [sep] + Join(parts[1..], sep)
  }

  lemma {:induction false} SplitWithoutSeparator(s: string, sep: char)
    requires sep !in s
    ensures Split(s, sep) == [s]
    decreases |s|
  {
    if s != [] {
      SplitWithoutSeparator(s[1..], sep);
    }
  }

  lemma {:induction false} SplitAfterFirstPiece(a: string, b: string, sep: char)
    requires sep !in a
    ensures Split(a + [sep] + b, sep) == [a] + Split(b, sep)
    decreases |a|
  {
    if a == [] {
      assert (a + [sep] + b)[1..] == b;
    } else {
      assert (a + [sep] + b)[1..] == a[1..] + [sep] + b;
      SplitAfterFirstPiece(a[1..], b, sep);
      assert [a[0]] + a[1..] == a;
    }
  }

  /** Splitting a join of separator-free pieces gives the pieces back. */
  lemma {:induction false} SplitJoin(parts: seq<string>, sep: char)
    requires |parts| >= 1
    requires forall i :: 0 <= i < |parts| ==> sep !in parts[i]
    ensures Split(Join(parts, sep), sep) == parts
    decreases |parts|
  {
    if |parts| == 1 {
      SplitWithoutSeparator(parts[0], sep);
    } else {
      SplitJoin(parts[1..], sep);
      SplitAfterFirstPiece(parts[0], Join(parts[1..], sep), sep);
      assert [parts[0]] + parts[1..] == parts;
    }
  }

  // ---------------------------------------------------------------------------
  // The two numbers of `const [h, m] = s.split(":").map(Number)`

  /** The hour number: the first piece. */
  function HourField(s: string): (r: Option<nat>)
    ensures r.Some? <==> AllDigits(Split(s, ':')[0])
    ensures r.Some? ==> r.value == DigitsValue(Split(s, ':')[0])
  {
    ParseNumber(Split(s, ':')[0])
  }

  /** The minute number: the second piece; with no ':' it is `undefined`, i.e. NaN. */
  function MinuteField(s: string): (r: Option<nat>)
    ensures r.Some? <==> |Split(s, ':')| >= 2 && AllDigits(Split(s, ':')[1])
    ensures r.Some? ==> r.value == DigitsValue(Split(s, ':')[1])
  {
    var parts := Split(s, ':');
    if |parts| < 2 then None else ParseNumber(parts[1])
  }

  /** Minutes since midnight, `h * 60 + m`, when both numbers parse. */
  function ClockMinutes(s: string): (r: Option<nat>)
    ensures r.Some? <==> HourField(s).Some? && MinuteField(s).Some?
    ensures r.Some? && MinuteField(s).value < 60 ==>
              r.value / 60 == HourField(s).value && r.value % 60 == MinuteField(s).value
  {
    match (HourField(s), MinuteField(s))
    case (Some(h), Some(m)) => Some(h * 60 + m)
    case _ => None
  }

  // ---------------------------------------------------------------------------
  // Well-formed clock strings

  /** A zero-padded 24-hour time "HH:MM" with HH in 00..23 and MM in 00..59. */
  predicate IsClock(s: string)
  {
    && |s| == 5 && s[2] == ':'
    && IsDigit(s[0]) && IsDigit(s[1]) && IsDigit(s[3]) && IsDigit(s[4])
    && 10 * DigitValue(s[0]) + DigitValue(s[1]) < 24
    && 10 * DigitValue(s[3]) + DigitValue(s[4]) < 60
  }

  function ClockHour(s: string): nat requires IsClock(s) { 10 * DigitValue(s[0]) + DigitValue(s[1]) }

  function ClockMinute(s: string): nat requires IsClock(s) { 10 * DigitValue(s[3]) + DigitValue(s[4]) }

  /** The minute of the day a clock string names. */
  function ClockValue(s: string): (v: nat)
    requires IsClock(s)
    ensures v < MinutesPerDay
  {
    60 * ClockHour(s) + ClockMinute(s)
  }

  /** Parsing a clock string the way the source does gives the minute of the day it names. */
  lemma ClockMinutesOfClock(s: string)
    requires IsClock(s)
    ensures HourField(s) == Some(ClockHour(s)) && MinuteField(s) == Some(ClockMinute(s))
    ensures ClockMinutes(s) == Some(ClockValue(s))
  {
    var parts := [s[..2], s[3..]];
    assert Join(parts, ':') == s;
    SplitJoin(parts, ':');
    ParseTwoDigits(s[..2]);
    ParseTwoDigits(s[3..]);
  }

  /** Two clock strings naming the same minute are the same string. */
  lemma ClockValueInjective(a: string, b: string)
    requires IsClock(a) && IsClock(b) && ClockValue(a) == ClockValue(b)
    ensures a == b
  {
    assert ClockHour(a) == ClockHour(b);
    assert ClockMinute(a) == ClockMinute(b);
    assert a[0] == b[0] && a[1] == b[1] && a[3] == b[3] && a[4] == b[4];
  }

  // ---------------------------------------------------------------------------
  // computeEndFromDuration

  /** `total % 1440` split as the source does it: hours `floor(total / 60) % 24`, minutes `total % 60`. */
  lemma WrapAtMidnight(total: nat)
    ensures ((total / 60) % 24) * 60 + total % 60 == total % MinutesPerDay
  {
    var q, r := total / 60, total % 60;
    var k, h := q / 24, q % 24;
    assert total == 1440 * k + (60 * h + r);
    assert 0 <= 60 * h + r < 1440;
  }

  /** The end time string `computeEndFromDuration` builds from a total number of minutes. */
  function FormatTotal(total: nat): (s: string)
    ensures IsClock(s) && ClockValue(s) == total % MinutesPerDay
  {
    var h, m := (total / 60) % 24, total % 60;
    var s := TwoDigits(h) + ":" + TwoDigits(m);
    assert s[..2] == TwoDigits(h) && s[3..] == TwoDigits(m);
    WrapAtMidnight(total);
    s
  }

  /**
   * `computeEndFromDuration(start, duration)`: no result for an empty
   * duration or a non-numeric hour; the text "NaN:NaN" when an hour parses
   * but a minute does not; otherwise the wrapped sum as "HH:MM".
   */
  function ComputeEndFromDuration(start: string, duration: string): (r: Option<string>)
    ensures r.None? <==> duration == "" || HourField(start).None? || HourField(duration).None?
    ensures ClockMinutes(start).Some? && ClockMinutes(duration).Some? ==>
              r.Some? && IsClock(r.value) &&
              ClockValue(r.value) == (ClockMinutes(start).value + ClockMinutes(duration).value) % MinutesPerDay
    ensures r.Some? && (ClockMinutes(start).None? || ClockMinutes(duration).None?) ==> r.value == "NaN:NaN"
  {
    if duration == "" then None
    else
      match (HourField(start), MinuteField(start), HourField(duration), MinuteField(duration))
      case (None, _, _, _) => None
      case (_, _, None, _) => None
      case (Some(sh), Some(sm), Some(dh), Some(dm)) => Some(FormatTotal(sh * 60 + sm + dh * 60 + dm))
      case _ => Some("NaN:NaN")
  }

  /** The end time, read back by the source's own parsing, is the wrapped sum. */
  lemma ComputeEndRoundTrip(start: string, duration: string)
    requires ClockMinutes(start).Some? && ClockMinutes(duration).Some?
    ensures ComputeEndFromDuration(start, duration).Some?
    ensures ClockMinutes(ComputeEndFromDuration(start, duration).value)
            == Some((ClockMinutes(start).value + ClockMinutes(duration).value) % MinutesPerDay)
  {
    ClockMinutesOfClock(ComputeEndFromDuration(start, duration).value);
  }

  /** For well-formed start and duration, the end time is the clock string naming the wrapped sum. */
  lemma ComputeEndOfClocks(start: string, duration: string, expected: string)
    requires IsClock(start) && IsClock(duration) && IsClock(expected)
    requires ClockValue(expected) == (ClockValue(start) + ClockValue(duration)) % MinutesPerDay
    ensures ComputeEndFromDuration(start, duration) == Some(expected)
  {
    ClockMinutesOfClock(start);
    ClockMinutesOfClock(duration);
    ClockValueInjective(ComputeEndFromDuration(start, duration).value, expected);
  }

  /** The wrap-around example: 23:30 plus 01:00 ends at 00:30. */
  lemma ComputeEndWrapExample()
    ensures ComputeEndFromDuration("23:30", "01:00") == Some("00:30")
  {
    ComputeEndOfClocks("23:30", "01:00", "00:30");
  }

  /** The plain example: 09:00 plus 01:30 ends at 10:30; an empty duration gives no result. */
  lemma ComputeEndPlainExample()
    ensures ComputeEndFromDuration("09:00", "01:30") == Some("10:30")
    ensures ComputeEndFromDuration("09:00", "") == None
  {
    ComputeEndOfClocks("09:00", "01:30", "10:30");
  }

  // ---------------------------------------------------------------------------
  // String order

  /** JavaScript's `a <= b` on strings: lexicographic by character code. */
  predicate LexLe(a: string, b: string)
    ensures a <= b ==> LexLe(a, b)
    ensures b < a ==> !LexLe(a, b)
    decreases |a|
  {
    if a == [] then true
    else if b == [] then false
    else if a[0] != b[0] then a[0] < b[0]
    else LexLe(a[1..], b[1..])
  }

  lemma {:induction false} LexLeTransitive(a: string, b: string, c: string)
    requires LexLe(a, b) && LexLe(b, c)
    ensures LexLe(a, c)
    decreases |a|
  {
    if a != [] && b != [] && c != [] && a[0] == b[0] && b[0] == c[0] {
      LexLeTransitive(a[1..], b[1..], c[1..]);
    }
  }

  lemma {:induction false} LexLeTotal(a: string, b: string)
    ensures LexLe(a, b) || LexLe(b, a)
    decreases |a|
  {
    if a != [] && b != [] && a[0] == b[0] {
      LexLeTotal(a[1..], b[1..]);
    }
  }

  lemma {:induction false} LexLeAntisymmetric(a: string, b: string)
    requires LexLe(a, b) && LexLe(b, a)
    ensures a == b
    decreases |a|
  {
    if a != [] && b != [] {
      LexLeAntisymmetric(a[1..], b[1..]);
      assert a == [a[0]] + a[1..] && b == [b[0]] + b[1..];
    }
  }

  /** On well-formed clock strings the string order is the order of the minutes they name. */
  lemma ClockOrder(a: string, b: string)
    requires IsClock(a) && IsClock(b)
    ensures LexLe(a, b) <==> ClockValue(a) <= ClockValue(b)
  {
    assert a[1..][1..] == a[2..] && b[1..][1..] == b[2..];
    assert a[2..][1..] == a[3..] && b[2..][1..] == b[3..];
    assert a[3..][1..] == a[4..] && b[3..][1..] == b[4..];
    assert a[4..][1..] == [] && b[4..][1..] == [];
    if a[0] != b[0] {
      assert LexLe(a, b) == (a[0] < b[0]);
    } else if a[1] != b[1] {
      assert LexLe(a, b) == (a[1] < b[1]);
    } else {
      assert LexLe(a, b) == LexLe(a[1..], b[1..]) == LexLe(a[2..], b[2..]) == LexLe(a[3..], b[3..]);
      if a[3] != b[3] {
        assert LexLe(a[3..], b[3..]) == (a[3] < b[3]);
      } else {
        assert LexLe(a[3..], b[3..]) == LexLe(a[4..], b[4..]) == (a[4] <= b[4]);
      }
    }
  }
}
