/** The `strftime` fields the feed uses (`%Y`, `%m`, `%d`, `%H`, `%M`) as
    zero-padded decimal numbers, with the matching parsers as their inverses. */
module Format {
  import opened Wrappers
  import opened Civil

  /** Digits of `%Y`, and of `%m`, `%d`, `%H`, `%M`. */
  const YearDigits: nat := 4
  const FieldDigits: nat := 2

  function Pow10(n: nat): (p: nat)
    ensures p >= 1
  {
    if n == 0 then 1 else 10 * Pow10(n - 1)
  }

  predicate IsDigit(c: char) {
    '0' <= c <= '9'
  }

  predicate AllDigits(s: string) {
    forall i :: 0 <= i < |s| ==> IsDigit(s[i])
  }

  function DigitChar(d: nat): (c: char)
    requires d < 10
    ensures IsDigit(c)
  {
    (48 + d) as char
  }

  /** The number a string of decimal digits spells. */
  function DecimalValue(s: string): (v: nat)
    requires AllDigits(s)
  {
    if s == [] then 0
    else DecimalValue(s[..|s| - 1]) * 10 + (s[|s| - 1] as int - 48)
  }

  /** `n` written in decimal with leading zeros to exactly `width` digits. */
  function ZeroPad(n: nat, width: nat): (r: string)
    requires n < Pow10(width)
    ensures |r| == width
  {
    if width == 0 then [] else ZeroPad(n / 10, width - 1) + [DigitChar(n % 10)]
  }

  /** A zero-padded number is all digits and reads back as the number. */
  lemma {:induction false} ZeroPadValue(n: nat, width: nat)
    requires n < Pow10(width)
    ensures AllDigits(ZeroPad(n, width))
    ensures DecimalValue(ZeroPad(n, width)) == n
  {
    if width > 0 {
      var init := ZeroPad(n / 10, width - 1);
      ZeroPadValue(n / 10, width - 1);
      var r := ZeroPad(n, width);
      assert r == init + [DigitChar(n % 10)];
      assert r[..|r| - 1] == init;
    }
  }

  /** `format(t, '%Y-%m-%d')`. */
  function FormatDate(t: Time): (r: string)
    ensures |r| == 10
  {
    ZeroPad(t.year, YearDigits) + "-" + ZeroPad(t.month, FieldDigits) + "-" + ZeroPad(t.day, FieldDigits)
  }

  /** `format(t, '%H:%M')`. */
  function FormatHourMinute(t: Time): (r: string)
    ensures |r| == 5
  {
    ZeroPad(t.hour, FieldDigits) + ":" + ZeroPad(t.minute, FieldDigits)
  }

  /** `format(t, '%Y-%m-%d %H:%M')`. */
  function FormatDateMinute(t: Time): (r: string)
    ensures |r| == 16
  {
    FormatDate(t) + " " + FormatHourMinute(t)
  }

  /** Reads `YYYY-MM-DD` back as (year, month, day). */
  function ParseDate(s: string): Option<(int, int, int)> {
    if |s| == 10 && AllDigits(s[0..4]) && s[4] == '-' && AllDigits(s[5..7]) && s[7] == '-'
       && AllDigits(s[8..10])
    then Some((DecimalValue(s[0..4]), DecimalValue(s[5..7]), DecimalValue(s[8..10])))
    else None
  }

  /** Reads `HH:MM` back as (hour, minute). */
  function ParseHourMinute(s: string): Option<(int, int)> {
    if |s| == 5 && AllDigits(s[0..2]) && s[2] == ':' && AllDigits(s[3..5])
    then Some((DecimalValue(s[0..2]), DecimalValue(s[3..5])))
    else None
  }

  /** Reads `YYYY-MM-DD HH:MM` back as (year, month, day, hour, minute). */
  function ParseDateMinute(s: string): Option<(int, int, int, int, int)> {
    if |s| == 16 && s[10] == ' ' then
      match (ParseDate(s[..10]), ParseHourMinute(s[11..]))
      case (Some(date), Some(time)) => Some((date.0, date.1, date.2, time.0, time.1))
      case _ => None
    else None
  }

  /** ParseDate reads back the date FormatDate writes. */
  lemma ParseFormatDate(t: Time)
    ensures ParseDate(FormatDate(t)) == Some((t.year, t.month, t.day))
  {
    var s := FormatDate(t);
    ZeroPadValue(t.year, YearDigits);
    ZeroPadValue(t.month, FieldDigits);
    ZeroPadValue(t.day, FieldDigits);
    assert s[0..4] == ZeroPad(t.year, YearDigits);
    assert s[5..7] == ZeroPad(t.month, FieldDigits);
    assert s[8..10] == ZeroPad(t.day, FieldDigits);
  }

  /** ParseHourMinute reads back the time FormatHourMinute writes. */
  lemma ParseFormatHourMinute(t: Time)
    ensures ParseHourMinute(FormatHourMinute(t)) == Some((t.hour, t.minute))
  {
    var s := FormatHourMinute(t);
    ZeroPadValue(t.hour, FieldDigits);
    ZeroPadValue(t.minute, FieldDigits);
    assert s[0..2] == ZeroPad(t.hour, FieldDigits);
    assert s[3..5] == ZeroPad(t.minute, FieldDigits);
  }

  /** ParseDateMinute reads back the stamp FormatDateMinute writes. */
  lemma ParseFormatDateMinute(t: Time)
    ensures ParseDateMinute(FormatDateMinute(t)) == Some((t.year, t.month, t.day, t.hour, t.minute))
  {
    var s := FormatDateMinute(t);
    assert s[..10] == FormatDate(t);
    assert s[11..] == FormatHourMinute(t);
    ParseFormatDate(t);
    ParseFormatHourMinute(t);
  }

  /** Two dates with the same `YYYY-MM-DD` text are the same calendar day. */
  lemma FormatDateInjective(a: Time, b: Time)
    requires FormatDate(a) == FormatDate(b)
    ensures a.year == b.year && a.month == b.month && a.day == b.day
  {
    ParseFormatDate(a);
    ParseFormatDate(b);
  }
}
