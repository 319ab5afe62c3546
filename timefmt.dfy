/**
 * The `strftime("%H:%M")` rendering of a listing's start time: the hour on
 * the 24-hour clock and the minute, each as two zero-padded decimal digits,
 * joined by a colon.  Only the clock fields of the parsed timestamp matter
 * to this format, so a start time is modelled by its hour and minute.
 */
module TimeFormat {

  type Hour = h: int | 0 <= h < 24
  type Minute = m: int | 0 <= m < 60

  /** The wall-clock part of a parsed start time. */
  datatype StartTime = StartTime(hour: Hour, minute: Minute)

  datatype Option<T> = None | Some(value: T)

  predicate IsDigit(c: char) {
    '0' <= c <= '9'
  }

  /** The value of a decimal digit character. */
  function DigitValue(c: char): (d: int)
    requires IsDigit(c)
    ensures 0 <= d < 10
  {
    c as int - '0' as int
  }

  /** The decimal digit character for `d`. */
  function DigitChar(d: int): (c: char)
    requires 0 <= d < 10
    ensures IsDigit(c) && DigitValue(c) == d
  {
    ('0' as int + d) as char
  }

  /** Reads a two-character field of decimal digits. */
  function ReadPad2(t: string): (n: int)
    requires |t| == 2 && IsDigit(t[0]) && IsDigit(t[1])
    ensures 0 <= n < 100
  {
    10 * DigitValue(t[0]) + DigitValue(t[1])
  }

  /** `n` written with exactly two decimal digits, a leading zero added below
      ten (the `%H` and `%M` directives). */
  function Pad2(n: int): (r: string)
    requires 0 <= n < 100
    ensures |r| == 2 && IsDigit(r[0]) && IsDigit(r[1])
    ensures ReadPad2(r) == n
    ensures r[0] == '0' <==> n < 10
  {
    [DigitChar(n / 10), DigitChar(n % 10)]
  }

  /** `%H:%M`: five characters, `HH` the zero-padded hour 00-23, a colon at
      index 2, `MM` the zero-padded minute 00-59. */
  function Time(t: StartTime): (r: string)
    ensures |r| == 5 && r[2] == ':'
    ensures IsDigit(r[0]) && IsDigit(r[1]) && IsDigit(r[3]) && IsDigit(r[4])
    ensures r[0] <= '2' && r[3] <= '5'
    ensures ReadPad2(r[..2]) == t.hour && ReadPad2(r[3..]) == t.minute
  {
    Pad2(t.hour) + ":" + Pad2(t.minute)
  }

  /** Reads an `HH:MM` string back into a clock time; `None` for any string
      that is not a valid 24-hour time in that exact form. */
  function ParseTime(r: string): (t: Option<StartTime>)
    ensures t.Some? ==> |r| == 5
  {
    if |r| == 5 && r[2] == ':'
       && IsDigit(r[0]) && IsDigit(r[1]) && IsDigit(r[3]) && IsDigit(r[4])
       && ReadPad2(r[..2]) < 24 && ReadPad2(r[3..]) < 60
    then Some(StartTime(ReadPad2(r[..2]), ReadPad2(r[3..])))
    else None
  }

  /** Formatting then reading back gives the same clock time. */
  lemma ParseTimeOfTime(t: StartTime)
    ensures ParseTime(Time(t)) == Some(t)
  {
  }

  /** Every string that reads back as a clock time is that time's rendering:
      `Time` produces exactly the valid `HH:MM` strings. */
  lemma TimeOfParseTime(r: string)
    requires ParseTime(r).Some?
    ensures Time(ParseTime(r).value) == r
  {
  }

  /** Distinct clock times render differently. */
  lemma TimeInjective(t: StartTime, u: StartTime)
    requires Time(t) == Time(u)
    ensures t == u
  {
  }

  /** A 19:30 start renders as "19:30"; 07:05 keeps both leading zeros. */
  lemma TimeExamples()
    ensures Time(StartTime(19, 30)) == "19:30"
    ensures Time(StartTime(7, 5)) == "07:05"
    ensures Time(StartTime(0, 0)) == "00:00"
  {
  }
}
