/** Wall-clock "HH:MM" strings: the loose pattern of the rule schemas
    (`([01]?[0-9]|2[0-3]):[0-5][0-9]`, one- or two-digit hour) and the strict
    pattern of the legacy schema (`([01][0-9]|2[0-3]):[0-5][0-9]`). */
module Clock {
  import opened Text

  /** Two-digit, zero-padded rendering of 0..99. */
  function Pad2(n: int): (r: string)
    requires 0 <= n <= 99
    ensures |r| == 2 && IsDigit(r[0]) && IsDigit(r[1])
    ensures DigitValue(r[0]) * 10 + DigitValue(r[1]) == n
  {
    [DigitChar(n / 10), DigitChar(n % 10)]
  }

  /** "HH:MM" with both parts padded. */
  function ClockText(h: int, m: int): string
    requires 0 <= h <= 23 && 0 <= m <= 59
  {
    Pad2(h) + ":" + Pad2(m)
  }

  /** "H:MM" with a one-digit hour. */
  function ShortClockText(h: int, m: int): string
    requires 0 <= h <= 9 && 0 <= m <= 59
  {
    [DigitChar(h)] + ":" + Pad2(m)
  }

  /** The hour part of the pattern: `[01][0-9]` or `2[0-3]`. */
  predicate IsTwoDigitHour(a: char, b: char) {
    (('0' <= a <= '1') && IsDigit(b)) || (a == '2' && '0' <= b <= '3')
  }

  /** The ":MM" tail starting at index `i`: a colon, then `[0-5][0-9]`. */
  predicate IsMinuteTail(s: string, i: int)
    requires 0 <= i && i + 3 == |s|
  {
    s[i] == ':' && '0' <= s[i + 1] <= '5' && IsDigit(s[i + 2])
  }

  /** The legacy pattern: exactly five characters. */
  predicate IsStrictClockTime(s: string) {
    |s| == 5 && IsTwoDigitHour(s[0], s[1]) && IsMinuteTail(s, 2)
  }

  /** The rule-schema pattern: the leading `[01]` of the hour is optional. */
  predicate IsClockTime(s: string) {
    || IsStrictClockTime(s)
    || (|s| == 4 && IsDigit(s[0]) && IsMinuteTail(s, 1))
  }

  /** Hour denoted by a string matching either pattern. */
  function HourOf(s: string): int
    requires IsClockTime(s)
  {
    if |s| == 5 then DigitValue(s[0]) * 10 + DigitValue(s[1]) else DigitValue(s[0])
  }

  /** Minute denoted by a string matching either pattern. */
  function MinuteOf(s: string): int
    requires IsClockTime(s)
  {
    DigitValue(s[|s| - 2]) * 10 + DigitValue(s[|s| - 1])
  }

  /** A strict time is exactly the padded rendering of an hour 0..23 and a minute 0..59. */
  lemma StrictClockTimeMeaning(s: string)
    ensures IsStrictClockTime(s) <==>
      exists h, m :: 0 <= h <= 23 && 0 <= m <= 59 && s == ClockText(h, m)
  {
    if IsStrictClockTime(s) {
      StrictClockTimeParts(s);
    }
    if exists h, m :: 0 <= h <= 23 && 0 <= m <= 59 && s == ClockText(h, m) {
      var h, m :| 0 <= h <= 23 && 0 <= m <= 59 && s == ClockText(h, m);
      ClockTextMatches(h, m);
    }
  }

  lemma ClockTextMatches(h: int, m: int)
    requires 0 <= h <= 23 && 0 <= m <= 59
    ensures IsStrictClockTime(ClockText(h, m))
    ensures HourOf(ClockText(h, m)) == h && MinuteOf(ClockText(h, m)) == m
  {
    var s := ClockText(h, m);
    assert s[0] == DigitChar(h / 10) && s[1] == DigitChar(h % 10);
    assert s[3] == DigitChar(m / 10) && s[4] == DigitChar(m % 10);
  }

  /** A strict time is the padded rendering of its parts. */
  lemma StrictClockTimeParts(s: string)
    requires IsStrictClockTime(s)
    ensures 0 <= HourOf(s) <= 23 && 0 <= MinuteOf(s) <= 59
    ensures s == ClockText(HourOf(s), MinuteOf(s))
  {
    var t := ClockText(HourOf(s), MinuteOf(s));
    assert |t| == 5;
    assert t[0] == s[0] && t[1] == s[1] && t[2] == s[2] && t[3] == s[3] && t[4] == s[4];
  }

  /** The unpadded rendering matches the loose pattern. */
  lemma ShortClockTextMatches(h: int, m: int)
    requires 0 <= h <= 9 && 0 <= m <= 59
    ensures IsClockTime(ShortClockText(h, m))
  {
    var s := ShortClockText(h, m);
    assert |s| == 4;
    assert s[0] == DigitChar(h) && s[1] == ':' && s[2] == DigitChar(m / 10) && s[3] == DigitChar(m % 10);
  }

  /** A four-character loose time is the unpadded rendering of its parts. */
  lemma ShortClockTimeParts(s: string)
    requires IsClockTime(s) && |s| == 4
    ensures 0 <= HourOf(s) <= 9 && 0 <= MinuteOf(s) <= 59
    ensures s == ShortClockText(HourOf(s), MinuteOf(s))
  {
    var t := ShortClockText(HourOf(s), MinuteOf(s));
    assert t[0] == s[0] && t[1] == s[1] && t[2] == s[2] && t[3] == s[3];
  }

  /** A rule-schema time is a padded "HH:MM" with hour 0..23, or an unpadded
      "H:MM" with hour 0..9; the minute is always two digits 00..59. */
  lemma ClockTimeMeaning(s: string)
    ensures IsClockTime(s) <==>
      exists h, m :: 0 <= h <= 23 && 0 <= m <= 59 &&
        (s == ClockText(h, m) || (h <= 9 && s == ShortClockText(h, m)))
  {
    StrictClockTimeMeaning(s);
    if IsClockTime(s) && |s| == 4 {
      ShortClockTimeParts(s);
      var h, m := HourOf(s), MinuteOf(s);
      assert h <= 9 && s == ShortClockText(h, m);
    }
    if exists h, m :: 0 <= h <= 23 && 0 <= m <= 59 &&
        (s == ClockText(h, m) || (h <= 9 && s == ShortClockText(h, m))) {
      var h, m :| 0 <= h <= 23 && 0 <= m <= 59 &&
        (s == ClockText(h, m) || (h <= 9 && s == ShortClockText(h, m)));
      if s == ClockText(h, m) {
        ClockTextMatches(h, m);
      } else {
        ShortClockTextMatches(h, m);
      }
    }
  }

  /** The legacy pattern is the stricter of the two. */
  lemma StrictIsClockTime(s: string)
    requires IsStrictClockTime(s)
    ensures IsClockTime(s)
  {
  }

  /** Sample strings on both sides of each pattern. */
  lemma ClockTimeExamples()
    ensures IsClockTime("7:05") && IsClockTime("07:05") && IsClockTime("23:59")
    ensures !IsClockTime("24:00") && !IsClockTime("7:5") && !IsClockTime("12:60")
    ensures IsStrictClockTime("07:05") && !IsStrictClockTime("7:05")
    ensures !IsStrictClockTime("24:00")
  {
  }
}
