/**
 * Zero-padded decimal fields and the ISO-8601 layout that
 * `Date.prototype.toISOString` produces: `YYYY-MM-DDTHH:mm:ss.sssZ`, with
 * the year written as a sign and six digits when it is outside 0..9999.
 */
module IsoFormat {

  function Pow10(n: nat): (p: nat)
    ensures p >= 1
  {
    if n == 0 then 1 else 10 * Pow10(n - 1)
  }

  predicate IsDigit(ch: char) {
    '0' <= ch <= '9'
  }

  function DigitChar(d: int): (ch: char)
    requires 0 <= d < 10
    ensures IsDigit(ch)
  {
    ('0' as int + d) as char
  }

  function DigitValue(ch: char): int {
    ch as int - '0' as int
  }

  /** `n` in decimal, left-padded with zeros to exactly `width` digits. */
  function Pad(n: nat, width: nat): (s: string)
    ensures |s| == width
    ensures forall i | 0 <= i < |s| :: IsDigit(s[i])
  {
    if width == 0 then "" else Pad(n / 10, width - 1) + [DigitChar(n % 10)]
  }

  /** The number a string of decimal digits denotes. */
  function ParseDigits(s: string): int {
    if s == [] then 0 else 10 * ParseDigits(s[..|s| - 1]) + DigitValue(s[|s| - 1])
  }

  /** Padding loses nothing when the number fits the width. */
  lemma {:induction false} ParsePad(n: nat, width: nat)
    requires n < Pow10(width)
    ensures ParseDigits(Pad(n, width)) == n
  {
    if width > 0 {
      var s := Pad(n, width);
      assert s[..|s| - 1] == Pad(n / 10, width - 1);
      ParsePad(n / 10, width - 1);
    }
  }

  function Abs(y: int): nat {
    if y < 0 then -y else y
  }

  /** The year field: four digits for 0..9999, otherwise a sign and six digits. */
  function YearText(y: int): (s: string)
    ensures |s| == if 0 <= y <= 9999 then 4 else 7
  {
    if 0 <= y <= 9999 then Pad(y, 4) else (if y < 0 then "-" else "+") + Pad(Abs(y), 6)
  }

  /** The ISO-8601 text of a date and a time of day. */
  function IsoText(year: int, month: nat, day: nat, hour: nat, minute: nat, second: nat, milli: nat): (s: string)
    ensures |s| == |YearText(year)| + 20
  {
    YearText(year) + "-" + Pad(month, 2) + "-" + Pad(day, 2) + "T" +
    Pad(hour, 2) + ":" + Pad(minute, 2) + ":" + Pad(second, 2) + "." + Pad(milli, 3) + "Z"
  }

  /** A four-digit-year ISO text split back into its seven numeric fields. */
  function IsoFields(s: string): (f: seq<int>)
    requires |s| == 24
    ensures |f| == 7
  {
    [ParseDigits(s[0..4]), ParseDigits(s[5..7]), ParseDigits(s[8..10]), ParseDigits(s[11..13]),
     ParseDigits(s[14..16]), ParseDigits(s[17..19]), ParseDigits(s[20..23])]
  }

  /** Every field of the text can be read back from its fixed position when the year has four digits. */
  lemma IsoFieldsOfIsoText(year: int, month: nat, day: nat, hour: nat, minute: nat, second: nat, milli: nat)
    requires 0 <= year <= 9999
    requires month < 100 && day < 100 && hour < 100 && minute < 100 && second < 100 && milli < 1000
    ensures |IsoText(year, month, day, hour, minute, second, milli)| == 24
    ensures IsoFields(IsoText(year, month, day, hour, minute, second, milli))
            == [year, month, day, hour, minute, second, milli]
  {
    var s := IsoText(year, month, day, hour, minute, second, milli);
    assert s[0..4] == Pad(year, 4);
    assert s[5..7] == Pad(month, 2);
    assert s[8..10] == Pad(day, 2);
    assert s[11..13] == Pad(hour, 2);
    assert s[14..16] == Pad(minute, 2);
    assert s[17..19] == Pad(second, 2);
    assert s[20..23] == Pad(milli, 3);
    assert Pow10(2) == 100 && Pow10(3) == 1000 && Pow10(4) == 10000;
    ParsePad(year, 4);
    ParsePad(month, 2);
    ParsePad(day, 2);
    ParsePad(hour, 2);
    ParsePad(minute, 2);
    ParsePad(second, 2);
    ParsePad(milli, 3);
  }
}
