/**
 * Times of day as `strftime("%H:%M")` writes them.  A time is a whole number
 * of minutes since midnight; the date and the seconds never reach the text.
 */
module Clock {
  import opened Common
  import opened Text

  const MinutesPerDay: int := 24 * 60

  /** `%02d`: a number below 100 as exactly two digits. */
  function TwoDigits(n: int): (s: string)
    requires 0 <= n < 100
    ensures |s| == 2 && IsAsciiDigit(s[0]) && IsAsciiDigit(s[1])
    ensures DigitValue(s[0]) * 10 + DigitValue(s[1]) == n
  {
    [DigitChar(n / 10), DigitChar(n % 10)]
  }

  /** Reads `HH:MM` back into minutes since midnight, or `None` for anything else. */
  function ParseClock(s: string): (m: Option<int>)
    ensures m.Some? ==> 0 <= m.value < MinutesPerDay
  {
    if |s| == 5 && IsAsciiDigit(s[0]) && IsAsciiDigit(s[1]) && s[2] == ':' && IsAsciiDigit(s[3]) && IsAsciiDigit(s[4]) then
      var h := DigitValue(s[0]) * 10 + DigitValue(s[1]);
      var mi := DigitValue(s[3]) * 10 + DigitValue(s[4]);
      if h < 24 && mi < 60 then Some(h * 60 + mi) else None
    else None
  }

  /** `strftime("%H:%M")` of the time `m` minutes after midnight; reading it back gives `m`. */
  function FormatClock(m: int): (s: string)
    requires 0 <= m < MinutesPerDay
    ensures |s| == 5 && s[2] == ':'
    ensures ParseClock(s) == Some(m)
  {
    TwoDigits(m / 60) + ":" + TwoDigits(m % 60)
  }

  /** Every text that reads as a time is the formatting of that time. */
  lemma ParseThenFormat(s: string)
    requires ParseClock(s).Some?
    ensures FormatClock(ParseClock(s).value) == s
  {
    var h := DigitValue(s[0]) * 10 + DigitValue(s[1]);
    var mi := DigitValue(s[3]) * 10 + DigitValue(s[4]);
    HoursAndMinutes(h, mi);
    TwoDigitsRead(s[0], s[1]);
    TwoDigitsRead(s[3], s[4]);
    assert s == [s[0], s[1]] + ":" + [s[3], s[4]];
  }

  lemma HoursAndMinutes(h: int, mi: int)
    requires 0 <= h < 24 && 0 <= mi < 60
    ensures (h * 60 + mi) / 60 == h && (h * 60 + mi) % 60 == mi
  {
  }

  /** Two digits are the `%02d` of the number they spell. */
  lemma TwoDigitsRead(c0: char, c1: char)
    requires IsAsciiDigit(c0) && IsAsciiDigit(c1)
    ensures TwoDigits(DigitValue(c0) * 10 + DigitValue(c1)) == [c0, c1]
  {
  }
}
