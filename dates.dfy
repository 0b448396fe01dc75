/**
 * `java.time.LocalDate` as a day number (days since 1970-01-01, `toEpochDay()`),
 * with the proleptic Gregorian calendar fields and the ISO text that
 * `LocalDate.toString()` produces.
 */
module Dates {
  import opened Text

  datatype Civil = Civil(year: int, month: int, day: int)

  /** Calendar fields of an epoch day (the era-based civil-from-days conversion). */
  function CivilFromDays(days: int): (c: Civil)
    ensures 1 <= c.month <= 12 && 1 <= c.day <= 31
  {
    var z := days + 719468;
    var era := z / 146097;
    var doe := z - era * 146097;
    var yoe := (doe - doe / 1460 + doe / 36524 - doe / 146096) / 365;
    var doy := doe - (365 * yoe + yoe / 4 - yoe / 100);
    var mp := (5 * doy + 2) / 153;
    var d := doy - (153 * mp + 2) / 5 + 1;
    var m := if mp < 10 then mp + 3 else mp - 9;
    var y := yoe + era * 400;
    Civil(if m <= 2 then y + 1 else y, m, d)
  }

  /** `Integer.toString`: a minus sign followed by the digits of the magnitude. */
  function IntText(n: int): string
  {
    if n < 0 then "-" + Decimal(-n) else Decimal(n)
  }

  /** The year part of `LocalDate.toString()`: four digits at least, `+` above 9999, `-` below 0. */
  function YearText(y: int): (s: string)
    ensures 0 <= y <= 9999 ==> |s| == 4 && AllDigits(s)
  {
    if y > 9999 then "+" + Decimal(y)
    else if y < 0 then "-" + PadStart(Decimal(-y), 4, '0')
    else (
      assert y < Pow10(4);
      YearDigits(y);
      PadStart(Decimal(y), 4, '0'))
  }

  lemma YearDigits(y: nat)
    requires y < Pow10(4)
    ensures |Decimal(y)| <= 4
  {
    if y < 10 {
    } else if y < 100 { DecimalLength(y, 2); }
    else if y < 1000 { DecimalLength(y, 3); }
    else { DecimalLength(y, 4); }
  }

  /** Two-digit month or day of month. */
  function TwoDigits(n: int): (s: string)
    requires 1 <= n <= 31
    ensures |s| == 2 && AllDigits(s) && DigitsValue(s) == n
  {
    var s := if n < 10 then "0" + [DigitChar(n)] else [DigitChar(n / 10), DigitChar(n % 10)];
    assert s[..1][..0] == [];
    assert DigitsValue(s[..1]) == n / 10;
    s
  }

  /** `LocalDate.toString()`: `yyyy-MM-dd`. */
  function IsoText(days: int): string
  {
    var c := CivilFromDays(days);
    YearText(c.year) + "-" + TwoDigits(c.month) + "-" + TwoDigits(c.day)
  }
}
