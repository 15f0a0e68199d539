/**
 * The timestamp of a marking and its `Time` column text. The clock itself is
 * not modelled: the moment of marking is passed in as a `Timestamp`.
 */
module Clock {
  import opened Optional

  /** A calendar date, as `datetime.date` gives it; only compared for equality. */
  datatype Date = Date(year: int, month: int, day: int)

  /** Wall-clock hour, minute and second (the sub-second part is never written). */
  datatype TimeOfDay = TimeOfDay(hour: int, minute: int, second: int) {
    predicate Valid() {
      0 <= hour < 24 && 0 <= minute < 60 && 0 <= second < 60
    }
  }

  /** The moment a marking is made. */
  datatype Timestamp = Timestamp(date: Date, time: TimeOfDay)

  predicate IsDigit(c: char) {
    '0' <= c <= '9'
  }

  function DigitChar(d: int): (c: char)
    requires 0 <= d < 10
    ensures IsDigit(c)
  {
    ('0' as int + d) as char
  }

  function DigitValue(c: char): (d: int)
    requires IsDigit(c)
    ensures 0 <= d < 10 && DigitChar(d) == c
  {
    c as int - '0' as int
  }

  /** A number below 100 as exactly two decimal digits, with a leading zero
      when it is below 10 (`%H`, `%M` and `%S` of `strftime`). */
  function TwoDigits(n: int): (r: string)
    requires 0 <= n < 100
    ensures |r| == 2 && IsDigit(r[0]) && IsDigit(r[1])
    ensures 10 * DigitValue(r[0]) + DigitValue(r[1]) == n
  {
    [DigitChar(n / 10), DigitChar(n % 10)]
  }

  /** `strftime("%H:%M:%S")`: eight characters, digits around two colons. */
  function FormatTime(t: TimeOfDay): (r: string)
    requires t.Valid()
    ensures |r| == 8 && r[2] == ':' && r[5] == ':'
    ensures forall i :: 0 <= i < 8 && i != 2 && i != 5 ==> IsDigit(r[i])
  {
    TwoDigits(t.hour) + ":" + TwoDigits(t.minute) + ":" + TwoDigits(t.second)
  }

  /** Reads a `Time` column text back; `None` for anything `FormatTime` cannot produce. */
  function ParseTime(s: string): Option<TimeOfDay> {
    if |s| == 8 && s[2] == ':' && s[5] == ':'
       && IsDigit(s[0]) && IsDigit(s[1]) && IsDigit(s[3]) && IsDigit(s[4])
       && IsDigit(s[6]) && IsDigit(s[7])
    then
      var t := TimeOfDay(10 * DigitValue(s[0]) + DigitValue(s[1]),
                         10 * DigitValue(s[3]) + DigitValue(s[4]),
                         10 * DigitValue(s[6]) + DigitValue(s[7]));
      if t.Valid() then Some(t) else None
    else
      None
  }

  /** The written time reads back as the time of the marking. */
  lemma ParseFormatTime(t: TimeOfDay)
    requires t.Valid()
    ensures ParseTime(FormatTime(t)) == Some(t)
  {
    var s := FormatTime(t);
    assert s[0..2] == TwoDigits(t.hour);
    assert s[3..5] == TwoDigits(t.minute);
    assert s[6..8] == TwoDigits(t.second);
  }

  /** Every text that reads back as a time is the one `FormatTime` writes for it,
      so the format is exactly the zero-padded `HH:MM:SS` form. */
  lemma FormatParseTime(s: string, t: TimeOfDay)
    requires ParseTime(s) == Some(t)
    ensures t.Valid() && FormatTime(t) == s
  {
    var r := FormatTime(t);
    assert r[0..2] == TwoDigits(t.hour) && r[3..5] == TwoDigits(t.minute) && r[6..8] == TwoDigits(t.second);
    TwoDigitsOf(s[0], s[1]);
    TwoDigitsOf(s[3], s[4]);
    TwoDigitsOf(s[6], s[7]);
  }

  /** Two digits are the `TwoDigits` text of the number they spell. */
  lemma TwoDigitsOf(a: char, b: char)
    requires IsDigit(a) && IsDigit(b)
    ensures TwoDigits(10 * DigitValue(a) + DigitValue(b)) == [a, b]
  {
  }

  /** Distinct times are written as distinct texts. */
  lemma FormatTimeInjective(t: TimeOfDay, u: TimeOfDay)
    requires t.Valid() && u.Valid() && FormatTime(t) == FormatTime(u)
    ensures t == u
  {
    ParseFormatTime(t);
    ParseFormatTime(u);
  }
}
