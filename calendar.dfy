/**
 * The proleptic Gregorian calendar that JavaScript's `Date` uses for every
 * time value: day numbers counted from 1970-01-01 and civil dates
 * (year, month, day-of-month).
 *
 * Internally a day number is split into 400-year eras that start on 1 March,
 * so that the leap day is the last day of each "March year".
 */
module Calendar {

  /** A civil date; `month` is 1..12 when the date is `Valid`. */
  datatype CivilDate = CivilDate(year: int, month: int, day: int)

  predicate IsLeapYear(y: int) {
    y % 4 == 0 && (y % 100 != 0 || y % 400 == 0)
  }

  function DaysInMonth(y: int, m: int): (n: int)
    requires 1 <= m <= 12
    ensures 28 <= n <= 31
    ensures n == 29 <==> m == 2 && IsLeapYear(y)
  {
    if m == 2 then (if IsLeapYear(y) then 29 else 28)
    else if m == 4 || m == 6 || m == 9 || m == 11 then 30
    else 31
  }

  predicate Valid(c: CivilDate) {
    1 <= c.month <= 12 && 1 <= c.day <= DaysInMonth(c.year, c.month)
  }

  /** The calendar day after `c`, rolling over month and year ends. */
  function NextDate(c: CivilDate): (n: CivilDate)
    requires Valid(c)
    ensures Valid(n)
    ensures n.year == c.year || (n.year == c.year + 1 && n.month == 1 && n.day == 1 && c.month == 12 && c.day == 31)
  {
    if c.day < DaysInMonth(c.year, c.month) then CivilDate(c.year, c.month, c.day + 1)
    else if c.month < 12 then CivilDate(c.year, c.month + 1, 1)
    else CivilDate(c.year + 1, 1, 1)
  }

  const DaysPerEra: int := 146097
  const DaysPerCentury: int := 36524
  const DaysPerOlympiad: int := 1461
  /** Days from 0000-03-01 to 1970-01-01. */
  const EpochOffset: int := 719468

  /** Days from the start of an era to 1 March of its year `yoe`. */
  function YearStart(yoe: int): int {
    365 * yoe + yoe / 4 - yoe / 100
  }

  /** Whether March year `yoe` of an era ends with a leap day (29 February of the next civil year). */
  predicate LongYear(yoe: int) {
    (yoe + 1) % 4 == 0 && ((yoe + 1) % 100 != 0 || yoe == 399)
  }

  function YearLength(yoe: int): int {
    if LongYear(yoe) then 366 else 365
  }

  /** Day of the March year on which each month begins; index 0 is March, 11 is February. */
  const MonthStarts: seq<int> := [0, 31, 61, 92, 122, 153, 184, 214, 245, 275, 306, 337]

  function MonthLength(yoe: int, mp: int): int
    requires 0 <= mp < 12
  {
    if mp == 11 then YearLength(yoe) - MonthStarts[11] else MonthStarts[mp + 1] - MonthStarts[mp]
  }

  /** The month (March-based) holding day `doy` of a March year. */
  function MonthOfDay(doy: int): (mp: int)
    ensures 0 <= mp < 12
    ensures 0 <= doy ==> MonthStarts[mp] <= doy
    ensures mp < 11 ==> doy < MonthStarts[mp + 1]
  {
    if doy < 31 then 0 else if doy < 61 then 1 else if doy < 92 then 2
    else if doy < 122 then 3 else if doy < 153 then 4 else if doy < 184 then 5
    else if doy < 214 then 6 else if doy < 245 then 7 else if doy < 275 then 8
    else if doy < 306 then 9 else if doy < 337 then 10 else 11
  }

  /** The March year of an era that holds day `doe` of the era: centuries, then 4-year cycles, then years. */
  function YearOfEra(doe: int): int
    requires 0 <= doe < DaysPerEra
  {
    var c := if doe / DaysPerCentury < 3 then doe / DaysPerCentury else 3;
    var doc := doe - DaysPerCentury * c;
    var r := (doc % DaysPerOlympiad) / 365;
    100 * c + 4 * (doc / DaysPerOlympiad) + (if r < 3 then r else 3)
  }

  lemma YearStartSplit(c: int, q: int, r: int)
    requires 0 <= c < 4 && 0 <= q < 25 && 0 <= r < 4
    ensures YearStart(100 * c + 4 * q + r) == DaysPerCentury * c + DaysPerOlympiad * q + 365 * r
  {
    var yoe := 100 * c + 4 * q + r;
    assert yoe == 4 * (25 * c + q) + r;
    assert yoe / 4 == 25 * c + q;
    assert yoe == 100 * c + (4 * q + r) && 4 * q + r < 100;
    assert yoe / 100 == c;
  }

  /** The era is split into its March years without gaps or overlaps. */
  lemma YearOfEraBounds(doe: int)
    requires 0 <= doe < DaysPerEra
    ensures 0 <= YearOfEra(doe) < 400
    ensures YearStart(YearOfEra(doe)) <= doe < YearStart(YearOfEra(doe)) + YearLength(YearOfEra(doe))
  {
    var c := if doe / DaysPerCentury < 3 then doe / DaysPerCentury else 3;
    var doc := doe - DaysPerCentury * c;
    var q := doc / DaysPerOlympiad;
    var doq := doc % DaysPerOlympiad;
    var r0 := doq / 365;
    var r := if r0 < 3 then r0 else 3;
    assert 0 <= c <= 3;
    assert 0 <= doc <= DaysPerCentury;
    assert c < 3 ==> doc < DaysPerCentury;
    assert 0 <= q <= 24;
    var yoe := 100 * c + 4 * q + r;
    assert YearOfEra(doe) == yoe;
    YearStartSplit(c, q, r);
    assert doe - YearStart(yoe) == doq - 365 * r;
    assert 0 <= doq - 365 * r <= 365;
    if doq - 365 * r == 365 {
      assert r == 3 && doq == 1460;
      assert q == 24 ==> c == 3;
      LastYearOfCycleIsLong(c, q);
    }
  }

  /** The last year of a 4-year cycle is long, except the last of a century other than the era's last. */
  lemma LastYearOfCycleIsLong(c: int, q: int)
    requires 0 <= c <= 3 && 0 <= q <= 24 && (q == 24 ==> c == 3)
    ensures LongYear(100 * c + 4 * q + 3)
  {
    var yoe := 100 * c + 4 * q + 3;
    assert yoe + 1 == 4 * (25 * c + q + 1);
    if (yoe + 1) % 100 == 0 {
      assert q == 24 by {
        assert yoe + 1 == 100 * c + 4 * (q + 1);
      }
    }
  }

  lemma CenturySplit(s: int, c: int, doc: int)
    requires 0 <= doc < DaysPerCentury && s == c * DaysPerCentury + doc
    ensures s / DaysPerCentury == c
  {
  }

  lemma OlympiadSplit(s: int, q: int, doq: int)
    requires 0 <= doq < DaysPerOlympiad && s == q * DaysPerOlympiad + doq
    ensures s / DaysPerOlympiad == q && s % DaysPerOlympiad == doq
  {
  }

  /** Day `d` of year `r` of 4-year cycle `q` of century `c` lies in March year `100 * c + 4 * q + r`. */
  lemma YearOfEraOfParts(c: int, q: int, r: int, d: int)
    requires 0 <= c < 4 && 0 <= q < 25 && 0 <= r < 4 && 0 <= d <= 365
    requires d == 365 ==> r == 3 && (q < 24 || c == 3)
    ensures 0 <= DaysPerCentury * c + DaysPerOlympiad * q + 365 * r + d < DaysPerEra
    ensures YearOfEra(DaysPerCentury * c + DaysPerOlympiad * q + 365 * r + d) == 100 * c + 4 * q + r
  {
    var doq := 365 * r + d;
    var doc := DaysPerOlympiad * q + doq;
    var doe := DaysPerCentury * c + doc;
    assert 0 <= doq < DaysPerOlympiad;
    assert 0 <= doc <= DaysPerCentury;
    assert c < 3 ==> doc < DaysPerCentury;
    if doc < DaysPerCentury {
      CenturySplit(doe, c, doc);
    } else {
      CenturySplit(doe, 4, 0);
    }
    OlympiadSplit(doc, q, doq);
    assert (if doq / 365 < 3 then doq / 365 else 3) == r;
  }

  /** Day `doy` of March year `yoe` lies in the era and belongs to that year. */
  lemma YearOfEraInverse(yoe: int, doy: int)
    requires 0 <= yoe < 400 && 0 <= doy < YearLength(yoe)
    ensures 0 <= YearStart(yoe) + doy < DaysPerEra
    ensures YearOfEra(YearStart(yoe) + doy) == yoe
  {
    var c := yoe / 100;
    var q := (yoe % 100) / 4;
    var r := yoe % 4;
    assert yoe == 100 * c + 4 * q + r;
    YearStartSplit(c, q, r);
    if doy == 365 {
      assert LongYear(yoe);
      assert r == 3 by {
        assert yoe + 1 == 4 * (25 * c + q) + (r + 1);
      }
      assert q < 24 || c == 3;
    }
    YearOfEraOfParts(c, q, r, doy);
  }

  /** The leap day of civil year `400 * era + yoe + 1` is the last day of March year `yoe`. */
  lemma LeapShift(era: int, yoe: int)
    requires 0 <= yoe < 400
    ensures IsLeapYear(400 * era + yoe + 1) == LongYear(yoe)
  {
    var y := 400 * era + yoe + 1;
    assert y == 4 * (100 * era) + (yoe + 1);
    assert y % 4 == (yoe + 1) % 4;
    assert y == 100 * (4 * era) + (yoe + 1);
    assert y % 100 == (yoe + 1) % 100;
    assert y == 400 * era + (yoe + 1);
    assert y % 400 == 0 <==> yoe == 399;
  }

  /** Days in month `mp` of March year `yoe` of an era, as a civil month. */
  lemma MonthLengthIsDaysInMonth(era: int, yoe: int, mp: int)
    requires 0 <= yoe < 400 && 0 <= mp < 12
    ensures MonthLength(yoe, mp) ==
            DaysInMonth(400 * era + yoe + (if mp >= 10 then 1 else 0), if mp < 10 then mp + 3 else mp - 9)
  {
    if mp == 11 {
      LeapShift(era, yoe);
    }
  }

  /** The civil date of day `doe` of era `era`. */
  function CivilOfEraDay(era: int, doe: int): (c: CivilDate)
    requires 0 <= doe < DaysPerEra
    ensures Valid(c)
  {
    var yoe := YearOfEra(doe);
    YearOfEraBounds(doe);
    var doy := doe - YearStart(yoe);
    var mp := MonthOfDay(doy);
    MonthLengthIsDaysInMonth(era, yoe, mp);
    CivilDate(400 * era + yoe + (if mp >= 10 then 1 else 0),
              if mp < 10 then mp + 3 else mp - 9,
              doy - MonthStarts[mp] + 1)
  }

  /** The civil date of day number `z` (days since 1970-01-01). */
  function CivilFromDays(z: int): (c: CivilDate)
    ensures Valid(c)
  {
    var s := z + EpochOffset;
    CivilOfEraDay(s / DaysPerEra, s % DaysPerEra)
  }

  /**
   * The day number of day `d` of month `m` of year `y`. Like JavaScript's
   * MakeDay, `d` may lie outside the month: the result then counts on
   * from (or back before) its first day.
   */
  function DaysFromCivil(y: int, m: int, d: int): int
    requires 1 <= m <= 12
  {
    var ym := if m <= 2 then y - 1 else y;
    var mp := if m > 2 then m - 3 else m + 9;
    (ym / 400) * DaysPerEra + YearStart(ym % 400) + MonthStarts[mp] + d - 1 - EpochOffset
  }

  /** MakeDay's overflow: moving the day of the month by `k` moves the day number by `k`, past month ends included. */
  lemma DaysFromCivilOverflow(y: int, m: int, d: int, k: int)
    requires 1 <= m <= 12
    ensures DaysFromCivil(y, m, d + k) == DaysFromCivil(y, m, d) + k
  {
  }

  /** Every day number is the day number of its civil date. */
  lemma DaysFromCivilOfCivilFromDays(z: int)
    ensures DaysFromCivil(CivilFromDays(z).year, CivilFromDays(z).month, CivilFromDays(z).day) == z
  {
    var s := z + EpochOffset;
    var era := s / DaysPerEra;
    var doe := s % DaysPerEra;
    CivilFromDaysSplit(z, era, doe);
    DaysFromCivilOfEraDay(era, doe);
  }

  /** The day number of the civil date of an era day counts the era's days and the day within it. */
  lemma DaysFromCivilOfEraDay(era: int, doe: int)
    requires 0 <= doe < DaysPerEra
    ensures var c := CivilOfEraDay(era, doe);
            DaysFromCivil(c.year, c.month, c.day) == era * DaysPerEra + doe - EpochOffset
  {
    var yoe := YearOfEra(doe);
    YearOfEraBounds(doe);
    var doy := doe - YearStart(yoe);
    var mp := MonthOfDay(doy);
    var c := CivilOfEraDay(era, doe);
    var ym := if c.month <= 2 then c.year - 1 else c.year;
    assert ym == 400 * era + yoe;
    assert ym / 400 == era && ym % 400 == yoe;
    assert (if c.month > 2 then c.month - 3 else c.month + 9) == mp;
  }

  /** Splitting a number into multiples of an era and a remainder within the era. */
  lemma EraSplit(s: int, era: int, doe: int)
    requires 0 <= doe < DaysPerEra && s == era * DaysPerEra + doe
    ensures s / DaysPerEra == era && s % DaysPerEra == doe
  {
  }

  /** A day number whose era and day of era are known has the civil date of that era day. */
  lemma CivilFromDaysSplit(z: int, era: int, doe: int)
    requires 0 <= doe < DaysPerEra
    requires (z + EpochOffset) / DaysPerEra == era && (z + EpochOffset) % DaysPerEra == doe
    ensures CivilFromDays(z) == CivilOfEraDay(era, doe)
  {
  }

  /** The March year of a civil date: January and February belong to the year before. */
  function MarchYear(c: CivilDate): int {
    if c.month <= 2 then c.year - 1 else c.year
  }

  /** The month of a civil date counted from March (0) to February (11). */
  function MarchMonth(c: CivilDate): int {
    if c.month > 2 then c.month - 3 else c.month + 9
  }

  /** A valid date's day of its March year lies within that year. */
  lemma DayOfMarchYearBounds(c: CivilDate)
    requires Valid(c)
    ensures 0 <= MarchMonth(c) < 12
    ensures 0 <= MonthStarts[MarchMonth(c)] + c.day - 1 < YearLength(MarchYear(c) % 400)
  {
    var ym := MarchYear(c);
    assert ym == 400 * (ym / 400) + ym % 400;
    MonthLengthIsDaysInMonth(ym / 400, ym % 400, MarchMonth(c));
  }

  /** The era and the day of era of a valid date's day number. */
  lemma EraDayOfCivil(c: CivilDate)
    requires Valid(c)
    ensures var ym := MarchYear(c);
            var doe := YearStart(ym % 400) + MonthStarts[MarchMonth(c)] + c.day - 1;
            var s := DaysFromCivil(c.year, c.month, c.day) + EpochOffset;
            0 <= doe < DaysPerEra && s / DaysPerEra == ym / 400 && s % DaysPerEra == doe
  {
    var ym := MarchYear(c);
    var doy := MonthStarts[MarchMonth(c)] + c.day - 1;
    DayOfMarchYearBounds(c);
    YearOfEraInverse(ym % 400, doy);
    EraSplit(DaysFromCivil(c.year, c.month, c.day) + EpochOffset, ym / 400, YearStart(ym % 400) + doy);
  }

  /** The civil date of an era day whose March year, day of year and month are known. */
  lemma CivilOfEraDayAt(era: int, doe: int, yoe: int, doy: int, mp: int)
    requires 0 <= doe < DaysPerEra && 0 <= doy < 366
    requires YearOfEra(doe) == yoe && doe - YearStart(yoe) == doy && MonthOfDay(doy) == mp
    ensures CivilOfEraDay(era, doe) ==
            CivilDate(400 * era + yoe + (if mp >= 10 then 1 else 0), if mp < 10 then mp + 3 else mp - 9,
                      doy - MonthStarts[mp] + 1)
  {
  }

  /** The era day that a valid date falls on has that date as its civil date. */
  lemma CivilOfEraDayOfCivil(c: CivilDate)
    requires Valid(c)
    ensures var ym := MarchYear(c);
            var doe := YearStart(ym % 400) + MonthStarts[MarchMonth(c)] + c.day - 1;
            0 <= doe < DaysPerEra && CivilOfEraDay(ym / 400, doe) == c
  {
    var ym := MarchYear(c);
    var era := ym / 400;
    var yoe := ym % 400;
    var mp := MarchMonth(c);
    var doy := MonthStarts[mp] + c.day - 1;
    DayOfMarchYearBounds(c);
    YearOfEraInverse(yoe, doy);
    MonthOfDayInverse(mp, doy);
    assert ym == 400 * era + yoe;
    var doe := YearStart(ym % 400) + MonthStarts[MarchMonth(c)] + c.day - 1;
    assert c == CivilDate(400 * era + yoe + (if mp >= 10 then 1 else 0), if mp < 10 then mp + 3 else mp - 9,
                          doy - MonthStarts[mp] + 1);
    CivilOfEraDayIs(ym / 400, doe, yoe, doy, mp, c);
  }

  /** An era day whose March year, day of year and month spell out date `c` has civil date `c`. */
  lemma CivilOfEraDayIs(era: int, doe: int, yoe: int, doy: int, mp: int, c: CivilDate)
    requires 0 <= doe < DaysPerEra && 0 <= doy < 366
    requires YearOfEra(doe) == yoe && doe - YearStart(yoe) == doy && MonthOfDay(doy) == mp
    requires c == CivilDate(400 * era + yoe + (if mp >= 10 then 1 else 0), if mp < 10 then mp + 3 else mp - 9,
                            doy - MonthStarts[mp] + 1)
    ensures CivilOfEraDay(era, doe) == c
  {
    CivilOfEraDayAt(era, doe, yoe, doy, mp);
  }

  /** Every valid civil date is the civil date of its day number. */
  lemma CivilFromDaysOfDaysFromCivil(c: CivilDate)
    requires Valid(c)
    ensures CivilFromDays(DaysFromCivil(c.year, c.month, c.day)) == c
  {
    var ym := MarchYear(c);
    var doe := YearStart(ym % 400) + MonthStarts[MarchMonth(c)] + c.day - 1;
    EraDayOfCivil(c);
    CivilOfEraDayOfCivil(c);
    CivilFromDaysIs(DaysFromCivil(c.year, c.month, c.day), ym / 400, doe, c);
  }

  /** A day number whose era day has civil date `c` has civil date `c`. */
  lemma CivilFromDaysIs(z: int, era: int, doe: int, c: CivilDate)
    requires 0 <= doe < DaysPerEra
    requires (z + EpochOffset) / DaysPerEra == era && (z + EpochOffset) % DaysPerEra == doe
    requires CivilOfEraDay(era, doe) == c
    ensures CivilFromDays(z) == c
  {
    CivilFromDaysSplit(z, era, doe);
  }

  lemma MonthOfDayInverse(mp: int, doy: int)
    requires 0 <= mp < 12 && MonthStarts[mp] <= doy
    requires mp < 11 ==> doy < MonthStarts[mp + 1]
    ensures MonthOfDay(doy) == mp
  {
  }

  /** Days to 1 March of March year `ym`, counted like DaysFromCivil. */
  function MarchFirst(ym: int): int {
    (ym / 400) * DaysPerEra + YearStart(ym % 400)
  }

  lemma MarchFirstNext(ym: int)
    ensures MarchFirst(ym + 1) == MarchFirst(ym) + YearLength(ym % 400)
  {
    var era := ym / 400;
    var yoe := ym % 400;
    assert ym == 400 * era + yoe;
    if yoe < 399 {
      assert (ym + 1) / 400 == era && (ym + 1) % 400 == yoe + 1;
      var q := yoe / 4;
      var k := yoe / 100;
      assert yoe == 4 * q + yoe % 4 && yoe == 100 * k + yoe % 100;
      assert (yoe + 1) / 4 == (if (yoe + 1) % 4 == 0 then q + 1 else q);
      assert (yoe + 1) / 100 == (if (yoe + 1) % 100 == 0 then k + 1 else k);
      assert (yoe + 1) % 100 == 0 ==> (yoe + 1) % 4 == 0 by {
        if (yoe + 1) % 100 == 0 {
          assert yoe + 1 == 100 * (k + 1);
          assert yoe + 1 == 4 * (25 * (k + 1));
        }
      }
    } else {
      assert ym + 1 == 400 * (era + 1);
      assert (ym + 1) / 400 == era + 1 && (ym + 1) % 400 == 0;
    }
  }

  /** Outside February, the next month of the March year starts when this civil month ends. */
  lemma MonthStartsStep(y: int, m: int)
    requires 1 <= m <= 12 && m != 2
    ensures var mp := if m > 2 then m - 3 else m + 9;
            mp < 11 && MonthStarts[mp + 1] == MonthStarts[mp] + DaysInMonth(y, m)
  {
  }

  /** Day numbers of consecutive calendar days are consecutive. */
  lemma DaysFromCivilNext(c: CivilDate)
    requires Valid(c)
    ensures DaysFromCivil(NextDate(c).year, NextDate(c).month, NextDate(c).day) ==
            DaysFromCivil(c.year, c.month, c.day) + 1
  {
    if c.day < DaysInMonth(c.year, c.month) {
      assert NextDate(c) == CivilDate(c.year, c.month, c.day + 1);
    } else if c.month == 2 {
      assert NextDate(c) == CivilDate(c.year, 3, 1);
      DaysFromCivilEndOfFebruary(c.year, c.day);
    } else {
      DaysFromCivilEndOfMonth(c);
    }
  }

  /** The day after the last of February is 1 March, also in leap years. */
  lemma DaysFromCivilEndOfFebruary(y: int, d: int)
    requires d == DaysInMonth(y, 2)
    ensures DaysFromCivil(y, 3, 1) == DaysFromCivil(y, 2, d) + 1
  {
    var ym := y - 1;
    MarchFirstNext(ym);
    LeapShift(ym / 400, ym % 400);
    assert ym == 400 * (ym / 400) + ym % 400;
    assert DaysFromCivil(y, 2, d) == MarchFirst(ym) + 337 + d - 1 - EpochOffset;
    assert DaysFromCivil(y, 3, 1) == MarchFirst(ym + 1) - EpochOffset;
  }

  /** Outside February, the day after a month's last day is the first of the next month. */
  lemma DaysFromCivilEndOfMonth(c: CivilDate)
    requires Valid(c) && c.month != 2 && c.day == DaysInMonth(c.year, c.month)
    ensures DaysFromCivil(NextDate(c).year, NextDate(c).month, NextDate(c).day) ==
            DaysFromCivil(c.year, c.month, c.day) + 1
  {
    var n := NextDate(c);
    MonthStartsStep(c.year, c.month);
    var ym := if c.month <= 2 then c.year - 1 else c.year;
    assert n.month < 3 ==> n.year - 1 == ym;
    assert n.month >= 3 ==> n.year == ym;
  }

  /** The day after day number `z` falls on the next calendar date, month and year rollover included. */
  lemma CivilFromDaysNext(z: int)
    ensures CivilFromDays(z + 1) == NextDate(CivilFromDays(z))
  {
    var c := CivilFromDays(z);
    var n := NextDate(c);
    DaysFromCivilOfCivilFromDays(z);
    DaysFromCivilNext(c);
    var next := DaysFromCivil(n.year, n.month, n.day);
    assert next == z + 1;
    CivilFromDaysOfDaysFromCivil(n);
    assert CivilFromDays(next) == n;
  }

  /** Day 0 is the epoch date. */
  lemma EpochIsNewYear1970()
    ensures CivilFromDays(0) == CivilDate(1970, 1, 1)
  {
    assert YearOfEra(135080) == 369;
    assert YearStart(369) == 134774;
    EraSplit(EpochOffset, 4, 135080);
    CivilFromDaysSplit(0, 4, 135080);
  }
}
