/**
 * The timestamp converter: a `YYYY-MM-DDTHH:MM` wall-clock reading in
 * Japan Standard Time (UTC+9) to Unix seconds, and a 10-digit (seconds) or
 * 13-digit (milliseconds) Unix timestamp back to a `YYYY-MM-DD HH:MM:SS`
 * reading in the same zone.  `Date.UTC`, `new Date(t)` and `toISOString`
 * are modelled by the proleptic Gregorian arithmetic of section 21.4.1 of
 * ECMA-262 (time values are integer milliseconds since 1970-01-01T00:00Z,
 * and `None` stands for NaN).
 */
module Timestamp {
  import opened Wrappers
  import opened JsPrims

  const MsPerSecond := 1000
  const MsPerMinute := 60000
  const MsPerHour := 3600000
  const MsPerDay := 86400000
  /** The +9 h shift to Japan Standard Time, 9 * 60 * 60 * 1000. */
  const JstOffset := 32400000
  /** Time values beyond this magnitude are NaN (TimeClip). */
  const MaxTimeValue := 8640000000000000

  // ---------------------------------------------------------------------
  // Years
  // ---------------------------------------------------------------------

  /** DayFromYear: days from the epoch to 1 January of year y (floor divisions). */
  function DayFromYear(y: int): int {
    365 * (y - 1970) + (y - 1969) / 4 - (y - 1901) / 100 + (y - 1601) / 400
  }

  predicate IsLeapYear(y: int) {
    y % 4 == 0 && (y % 100 != 0 || y % 400 == 0)
  }

  function DaysInYear(y: int): int {
    if IsLeapYear(y) then 366 else 365
  }

  /** Consecutive years are DaysInYear apart. */
  lemma DayFromYearStep(y: int)
    ensures DayFromYear(y + 1) == DayFromYear(y) + DaysInYear(y)
  {
    var a := (y - 1968) / 4 - (y - 1969) / 4;
    var b := (y - 1900) / 100 - (y - 1901) / 100;
    var c := (y - 1600) / 400 - (y - 1601) / 400;
    FloorStep4(y - 1969);
    FloorStep100(y - 1901);
    FloorStep400(y - 1601);
    ModShift(y);
    assert DayFromYear(y + 1) - DayFromYear(y) == 365 + a - b + c;
  }

  lemma ModShift(y: int)
    ensures (y - 1968) % 4 == y % 4
    ensures (y - 1900) % 100 == y % 100
    ensures (y - 1600) % 400 == y % 400
    ensures y % 100 == 0 ==> y % 4 == 0
    ensures y % 400 == 0 ==> y % 100 == 0
  {
    assert y - 1968 == 4 * (y / 4 - 492) + y % 4;
    assert y - 1900 == 100 * (y / 100 - 19) + y % 100;
    assert y - 1600 == 400 * (y / 400 - 4) + y % 400;
    if y % 100 == 0 {
      assert y == 4 * (25 * (y / 100));
    }
    if y % 400 == 0 {
      assert y == 100 * (4 * (y / 400));
    }
  }

  lemma FloorStep4(x: int)
    ensures (x + 1) / 4 == x / 4 + (if (x + 1) % 4 == 0 then 1 else 0)
  {
  }

  lemma FloorStep100(x: int)
    ensures (x + 1) / 100 == x / 100 + (if (x + 1) % 100 == 0 then 1 else 0)
  {
  }

  lemma FloorStep400(x: int)
    ensures (x + 1) / 400 == x / 400 + (if (x + 1) % 400 == 0 then 1 else 0)
  {
  }

  lemma {:induction false} DayFromYearGrowth(a: int, b: int)
    requires a <= b
    ensures DayFromYear(a) + 365 * (b - a) <= DayFromYear(b) <= DayFromYear(a) + 366 * (b - a)
    decreases b - a
  {
    if a < b {
      DayFromYearGrowth(a, b - 1);
      DayFromYearStep(b - 1);
    }
  }

  function YearUp(d: int, y: int): (r: int)
    requires DayFromYear(y) <= d
    ensures y <= r && DayFromYear(r) <= d < DayFromYear(r + 1)
    decreases d - DayFromYear(y)
  {
    DayFromYearStep(y);
    if d < DayFromYear(y + 1) then y else YearUp(d, y + 1)
  }

  function YearDown(d: int, y: int): (r: int)
    requires d < DayFromYear(y + 1)
    ensures r <= y && DayFromYear(r) <= d < DayFromYear(r + 1)
    decreases DayFromYear(y + 1) - d
  {
    DayFromYearStep(y - 1);
    if DayFromYear(y) <= d then y else YearDown(d, y - 1)
  }

  /** YearFromTime on a day number: the year whose days contain day d. */
  function YearFromDay(d: int): (y: int)
    ensures DayFromYear(y) <= d < DayFromYear(y + 1)
  {
    if d >= 0 then YearUp(d, 1970) else YearDown(d, 1969)
  }

  /** There is only one such year. */
  lemma YearFromDayUnique(d: int, y: int)
    requires DayFromYear(y) <= d < DayFromYear(y + 1)
    ensures YearFromDay(d) == y
  {
    SameYear(YearFromDay(d), y, d);
  }

  /** Two years whose day ranges both hold d are the same year. */
  lemma SameYear(r: int, y: int, d: int)
    requires DayFromYear(r) <= d < DayFromYear(r + 1)
    requires DayFromYear(y) <= d < DayFromYear(y + 1)
    ensures r == y
  {
    if r < y {
      NoDayBetween(r, y, d);
    } else if r > y {
      NoDayBetween(y, r, d);
    }
  }

  /** No day lies in year a and also on or after the start of a later year b. */
  lemma NoDayBetween(a: int, b: int, d: int)
    requires a < b
    ensures !(DayFromYear(b) <= d < DayFromYear(a + 1))
  {
    DayFromYearGrowth(a + 1, b);
  }

  /** A day between the first days of years lo and hi falls in a year between them. */
  lemma YearBetween(d: int, lo: int, hi: int)
    requires DayFromYear(lo) <= d < DayFromYear(hi)
    ensures lo <= YearFromDay(d) < hi
  {
    YearWithin(YearFromDay(d), d, lo, hi);
  }

  /** The year whose days hold d lies between years lo and hi when d does. */
  lemma YearWithin(r: int, d: int, lo: int, hi: int)
    requires DayFromYear(r) <= d < DayFromYear(r + 1)
    requires DayFromYear(lo) <= d < DayFromYear(hi)
    ensures lo <= r < hi
  {
    if r < lo {
      NoDayBetween(r, lo, d);
    } else if r >= hi {
      NoDayBetween(hi - 1, r, d);
    }
  }

  // ---------------------------------------------------------------------
  // Months and days
  // ---------------------------------------------------------------------

  /** Days of the year before the first of month m (1-based; 13 is the year's end). */
  function DaysBeforeMonth(m: int, leap: bool): int
    requires 1 <= m <= 13
  {
    var common :=
      if m == 1 then 0 else if m == 2 then 31 else if m == 3 then 59
      else if m == 4 then 90 else if m == 5 then 120 else if m == 6 then 151
      else if m == 7 then 181 else if m == 8 then 212 else if m == 9 then 243
      else if m == 10 then 273 else if m == 11 then 304 else if m == 12 then 334
      else 365;
    if leap && m >= 3 then common + 1 else common
  }

  function DaysInMonth(m: int, leap: bool): int
    requires 1 <= m <= 12
  {
    DaysBeforeMonth(m + 1, leap) - DaysBeforeMonth(m, leap)
  }

  /** The months partition the year. */
  lemma MonthTable(leap: bool)
    ensures DaysBeforeMonth(1, leap) == 0
    ensures DaysBeforeMonth(13, leap) == if leap then 366 else 365
    ensures forall m :: 1 <= m <= 12 ==> 28 <= DaysInMonth(m, leap) <= 31
  {
  }

  /** MonthFromTime on a day of the year (0-based), as a 1-based month. */
  function MonthFromDayInYear(k: int, leap: bool): (m: int)
    requires 0 <= k < DaysBeforeMonth(13, leap)
    ensures 1 <= m <= 12 && DaysBeforeMonth(m, leap) <= k < DaysBeforeMonth(m + 1, leap)
  {
    if k < DaysBeforeMonth(2, leap) then 1
    else if k < DaysBeforeMonth(3, leap) then 2
    else if k < DaysBeforeMonth(4, leap) then 3
    else if k < DaysBeforeMonth(5, leap) then 4
    else if k < DaysBeforeMonth(6, leap) then 5
    else if k < DaysBeforeMonth(7, leap) then 6
    else if k < DaysBeforeMonth(8, leap) then 7
    else if k < DaysBeforeMonth(9, leap) then 8
    else if k < DaysBeforeMonth(10, leap) then 9
    else if k < DaysBeforeMonth(11, leap) then 10
    else if k < DaysBeforeMonth(12, leap) then 11
    else 12
  }

  lemma MonthFromDayInYearUnique(k: int, leap: bool, m: int)
    requires 1 <= m <= 12 && DaysBeforeMonth(m, leap) <= k < DaysBeforeMonth(m + 1, leap)
    ensures 0 <= k < DaysBeforeMonth(13, leap) && MonthFromDayInYear(k, leap) == m
  {
  }

  /** A calendar date: year, month 1..12, day of month from 1. */
  datatype Civil = Civil(year: int, month: int, day: int)

  predicate ValidCivil(c: Civil) {
    1 <= c.month <= 12 && 1 <= c.day <= DaysInMonth(c.month, IsLeapYear(c.year))
  }

  /** Days from the epoch to a calendar date. */
  function DaysFromCivil(c: Civil): int
    requires 1 <= c.month <= 12
  {
    DayFromYear(c.year) + DaysBeforeMonth(c.month, IsLeapYear(c.year)) + c.day - 1
  }

  /** Day of the year (0-based) of day d, which lies in year y. */
  function DayWithinYear(d: int, y: int): (k: int)
    requires DayFromYear(y) <= d < DayFromYear(y + 1)
    ensures 0 <= k < DaysBeforeMonth(13, IsLeapYear(y)) && k == d - DayFromYear(y)
  {
    DayFromYearStep(y);
    MonthTable(IsLeapYear(y));
    d - DayFromYear(y)
  }

  /**
   * YearFromTime, MonthFromTime and DateFromTime of a day number: the one
   * valid calendar date that is d days from the epoch.
   */
  function CivilFromDays(d: int): (c: Civil)
    ensures ValidCivil(c) && DaysFromCivil(c) == d
  {
    var y := YearFromDay(d);
    var k := DayWithinYear(d, y);
    var m := MonthFromDayInYear(k, IsLeapYear(y));
    Civil(y, m, k - DaysBeforeMonth(m, IsLeapYear(y)) + 1)
  }

  lemma CivilRoundTrip(c: Civil)
    requires ValidCivil(c)
    ensures CivilFromDays(DaysFromCivil(c)) == c
  {
    var leap := IsLeapYear(c.year);
    var d := DaysFromCivil(c);
    var k := d - DayFromYear(c.year);
    MonthTable(leap);
    DayFromYearStep(c.year);
    YearFromDayUnique(d, c.year);
    MonthFromDayInYearUnique(k, leap, c.month);
  }

  // ---------------------------------------------------------------------
  // Date.UTC and time values
  // ---------------------------------------------------------------------

  /** MakeFullYear: NaN stays NaN, 0..99 denote 1900..1999. */
  function MakeFullYear(y: int): int {
    if 0 <= y <= 99 then 1900 + y else y
  }

  /** MakeDay, with a 0-based month that may lie outside 0..11 (floor division and modulo). */
  function MakeDay(year: int, month: int, date: int): int {
    var ym := year + month / 12;
    var mn := month % 12;
    DayFromYear(ym) + DaysBeforeMonth(mn + 1, IsLeapYear(ym)) + date - 1
  }

  function MakeTime(hour: int, minute: int, second: int, ms: int): int {
    hour * MsPerHour + minute * MsPerMinute + second * MsPerSecond + ms
  }

  function MakeDate(day: int, time: int): int {
    day * MsPerDay + time
  }

  /** TimeClip: a time value too far from the epoch is NaN. */
  function TimeClip(t: int): (r: Option<int>)
    ensures r.Some? <==> Abs(t) <= MaxTimeValue
    ensures r.Some? ==> r.value == t
  {
    if Abs(t) > MaxTimeValue then None else Some(t)
  }

  /** `Date.UTC(year, month, day, hour, minute)`; any NaN argument makes the result NaN. */
  function DateUtc(year: Option<int>, month: Option<int>, day: Option<int>, hour: Option<int>, minute: Option<int>): Option<int> {
    if year.None? || month.None? || day.None? || hour.None? || minute.None? then None
    else TimeClip(MakeDate(MakeDay(MakeFullYear(year.value), month.value, day.value),
                           MakeTime(hour.value, minute.value, 0, 0)))
  }

  /** Date.UTC on a valid calendar date is its day count and the time of day. */
  lemma DateUtcOfCivil(c: Civil, hour: int, minute: int)
    requires ValidCivil(c) && c.year >= 100
    requires Abs(MakeDate(DaysFromCivil(c), MakeTime(hour, minute, 0, 0))) <= MaxTimeValue
    ensures DateUtc(Some(c.year), Some(c.month - 1), Some(c.day), Some(hour), Some(minute))
      == Some(DaysFromCivil(c) * MsPerDay + hour * MsPerHour + minute * MsPerMinute)
  {
    MakeDayOfCivil(c);
    DateUtcOfDay(c.year, c.month - 1, c.day, hour, minute, DaysFromCivil(c));
  }

  lemma DateUtcOfDay(year: int, month: int, date: int, hour: int, minute: int, day: int)
    requires MakeDay(MakeFullYear(year), month, date) == day
    requires Abs(MakeDate(day, MakeTime(hour, minute, 0, 0))) <= MaxTimeValue
    ensures DateUtc(Some(year), Some(month), Some(date), Some(hour), Some(minute))
      == Some(day * MsPerDay + hour * MsPerHour + minute * MsPerMinute)
  {
  }

  /** MakeDay of a valid date, with its 0-based month, is its day count. */
  lemma MakeDayOfCivil(c: Civil)
    requires ValidCivil(c) && c.year >= 100
    ensures MakeDay(MakeFullYear(c.year), c.month - 1, c.day) == DaysFromCivil(c)
  {
    assert (c.month - 1) / 12 == 0 && (c.month - 1) % 12 == c.month - 1;
  }

  // ---------------------------------------------------------------------
  // Datetime text to timestamp
  // ---------------------------------------------------------------------

  const EmptyDatetimeMessage := "日時を入力してください"
  const InvalidLocalDatetimeMessage := "有効な日時形式で入力してください（例: 2025-05-24T16:15）"
  const InvalidDatetimeMessage := "有効な日時形式で入力してください"

  /** `parts.map(Number)`. */
  function NumbersOf(parts: seq<string>): (r: seq<Option<int>>)
    ensures |r| == |parts|
  {
    seq(|parts|, i requires 0 <= i < |parts| => StringToNumber(parts[i]))
  }

  /** Array destructuring: a missing element is `undefined`, which is NaN on the way into `Date.UTC`. */
  function Field(values: seq<Option<int>>, i: nat): Option<int> {
    if i < |values| then values[i] else None
  }

  function Minus(x: Option<int>, k: int): Option<int> {
    if x.None? then None else Some(x.value - k)
  }

  /** `minute || 0`: NaN (and 0) become 0. */
  function OrZero(x: Option<int>): int {
    if x.None? then 0 else x.value
  }

  /** The five numbers the `datetime-local` branch hands to `Date.UTC`. */
  datatype UtcArguments = UtcArguments(year: Option<int>, month: Option<int>, day: Option<int>, hour: Option<int>, minute: Option<int>)

  /**
   * The `datetime-local` branch's reading: split at 'T', read
   * year-month-day and hour:minute, make the month 0-based and take nine
   * hours off the hour.
   */
  function LocalDatetimeArguments(s: string): UtcArguments
    requires 'T' in s
  {
    SplitSeparated(s, 'T');
    var halves := Split(s, 'T');
    var date := NumbersOf(Split(halves[0], '-'));
    var time := NumbersOf(Split(halves[1], ':'));
    UtcArguments(Field(date, 0), Minus(Field(date, 1), 1), Field(date, 2),
                 Minus(Field(time, 0), 9), Some(OrZero(Field(time, 1))))
  }

  /** The instant that reading denotes, in epoch milliseconds. */
  function LocalDatetimeInstant(s: string): Option<int>
    requires 'T' in s
  {
    var a := LocalDatetimeArguments(s);
    DateUtc(a.year, a.month, a.day, a.hour, a.minute)
  }

  /**
   * convertDatetimeToTimestamp: Unix seconds, or the message thrown.  Text
   * without a 'T' goes to the host's own date parser, whose time value (or
   * NaN) is the parameter `hostParse`; `new Date` clips it.
   */
  function ConvertDatetimeToTimestamp(s: string, hostParse: Option<int>): Result<int, string> {
    if s == "" then Failure(EmptyDatetimeMessage)
    else if 'T' in s then
      match LocalDatetimeInstant(s)
      case None => Failure(InvalidLocalDatetimeMessage)
      case Some(t) => Success(t / MsPerSecond)
    else
      match if hostParse.Some? then TimeClip(hostParse.value) else None
      case None => Failure(InvalidDatetimeMessage)
      case Some(t) => Success(t / MsPerSecond)
  }

  // ---------------------------------------------------------------------
  // Timestamp text to datetime
  // ---------------------------------------------------------------------

  const EmptyTimestampMessage := "タイムスタンプを入力してください"
  const NotNumberMessage := "有効な数値を入力してください"
  const DigitCountMessage := "タイムスタンプは10桁（秒）または13桁（ミリ秒）で入力してください"
  const InvalidTimestampMessage := "有効なタイムスタンプを入力してください"
  /** The RangeError message `toISOString` throws on a NaN date. */
  const InvalidTimeValueMessage := "Invalid time value"

  /** `String(n).padStart(width, '0')`. */
  function Padded(n: nat, width: nat): string {
    PadStart(ToDecimal(n), width, '0')
  }

  /** The year field of toISOString: four digits, or a sign and six digits outside 0..9999. */
  function IsoYear(y: int): string {
    if 0 <= y <= 9999 then Padded(y, 4)
    else (if y < 0 then "-" else "+") + Padded(Abs(y), 6)
  }

  function IsoDate(c: Civil): string
    requires ValidCivil(c)
  {
    IsoYear(c.year) + ("-" + (Padded(c.month, 2) + ("-" + Padded(c.day, 2))))
  }

  function IsoClock(hour: nat, minute: nat, second: nat): string {
    Padded(hour, 2) + (":" + (Padded(minute, 2) + (":" + Padded(second, 2))))
  }

  /** toISOString of a (clipped) time value: date, 'T', clock, milliseconds, 'Z'. */
  function ToIsoString(t: int): string {
    var within := t % MsPerDay;
    IsoDate(CivilFromDays(t / MsPerDay))
      + ("T" + (IsoClock(within / MsPerHour, within / MsPerMinute % 60, within / MsPerSecond % 60)
      + ("." + (Padded(within % MsPerSecond, 3) + "Z"))))
  }

  /** `new Date(t + 9 h).toISOString().slice(0, 19).replace('T', ' ')`. */
  function JstText(t: int): Result<string, string> {
    match TimeClip(t + JstOffset)
    case None => Failure(InvalidTimeValueMessage)
    case Some(j) => Success(ReplaceFirst(SliceTo(ToIsoString(j), 19), 'T', ' '))
  }

  /**
   * The instant a parsed timestamp denotes: `String(n)` decides the unit,
   * 10 characters being seconds and 13 milliseconds; `new Date` clips it.
   */
  function TimestampInstant(n: int): Result<int, string> {
    var len := |NumberToString(n)|;
    if len != 10 && len != 13 then Failure(DigitCountMessage)
    else match TimeClip(if len == 10 then n * MsPerSecond else n)
      case None => Failure(InvalidTimestampMessage)
      case Some(t) => Success(t)
  }

  /** convertTimestampToDatetime: the JST reading, or the message thrown. */
  function ConvertTimestampToDatetime(s: string): Result<string, string> {
    if s == "" then Failure(EmptyTimestampMessage)
    else match ParseInt(s)
      case None => Failure(NotNumberMessage)
      case Some(n) =>
        match TimestampInstant(n)
        case Failure(e) => Failure(e)
        case Success(t) => JstText(t)
  }

  // ---------------------------------------------------------------------
  // The shape of the output
  // ---------------------------------------------------------------------

  /** 'YYYY-MM-DD HH:MM:SS': 19 characters, digits except at the five separators. */
  predicate IsDisplayText(r: string) {
    |r| == 19 && r[4] == '-' && r[7] == '-' && r[10] == ' ' && r[13] == ':' && r[16] == ':'
    && forall i :: 0 <= i < 19 && i != 4 && i != 7 && i != 10 && i != 13 && i != 16 ==> IsDecimalDigit(r[i])
  }

  lemma PaddedDigits(n: nat, width: nat)
    requires 1 <= width && n < Pow10(width)
    ensures |Padded(n, width)| == width && AllDecimal(Padded(n, width))
    ensures forall i :: 0 <= i < width ==> IsDecimalDigit(Padded(n, width)[i])
    ensures DecimalValue(Padded(n, width)) == n
  {
    PaddedDecimal(n, width);
  }

  lemma Pow10Values()
    ensures Pow10(2) == 100 && Pow10(3) == 1000 && Pow10(4) == 10000
    ensures Pow10(9) == 1000000000 && Pow10(10) == 10000000000
    ensures Pow10(12) == 1000000000000 && Pow10(13) == 10000000000000
  {
  }

  /** Digit fields of widths 4, 2 and 2 joined by '-' make ten characters with '-' at 4 and 7. */
  lemma DashedLayout(y: string, m: string, d: string)
    requires |y| == 4 && |m| == 2 && |d| == 2 && AllDecimal(y) && AllDecimal(m) && AllDecimal(d)
    ensures var r := y + ("-" + (m + ("-" + d)));
      |r| == 10 && r[4] == '-' && r[7] == '-'
      && (forall i :: 0 <= i < 10 && i != 4 && i != 7 ==> IsDecimalDigit(r[i]))
      && 'T' !in r
  {
    var r := y + ("-" + (m + ("-" + d)));
    forall i | 0 <= i < 10 && i != 4 && i != 7
      ensures IsDecimalDigit(r[i])
    {
      if i < 4 {
        assert r[i] == y[i];
      } else if i < 7 {
        assert r[i] == m[i - 5];
      } else {
        assert r[i] == d[i - 8];
      }
    }
  }

  /** A four-digit year gives a 10-character date with '-' at 4 and 7 and no 'T'. */
  lemma IsoDateShape(c: Civil)
    requires ValidCivil(c) && 0 <= c.year <= 9999
    ensures |IsoDate(c)| == 10 && IsoDate(c)[4] == '-' && IsoDate(c)[7] == '-'
    ensures forall i :: 0 <= i < 10 && i != 4 && i != 7 ==> IsDecimalDigit(IsoDate(c)[i])
    ensures 'T' !in IsoDate(c)
  {
    Pow10Values();
    MonthTable(IsLeapYear(c.year));
    PaddedDigits(c.year, 4);
    PaddedDigits(c.month, 2);
    PaddedDigits(c.day, 2);
    assert IsoDate(c) == Padded(c.year, 4) + ("-" + (Padded(c.month, 2) + ("-" + Padded(c.day, 2))));
    DashedLayout(Padded(c.year, 4), Padded(c.month, 2), Padded(c.day, 2));
  }

  /** Three two-digit fields joined by ':' make eight characters with ':' at 2 and 5. */
  lemma ColonLayout(h: string, m: string, e: string)
    requires |h| == 2 && |m| == 2 && |e| == 2 && AllDecimal(h) && AllDecimal(m) && AllDecimal(e)
    ensures var r := h + (":" + (m + (":" + e)));
      |r| == 8 && r[2] == ':' && r[5] == ':'
      && (forall i :: 0 <= i < 8 && i != 2 && i != 5 ==> IsDecimalDigit(r[i]))
      && 'T' !in r
  {
    var r := h + (":" + (m + (":" + e)));
    forall i | 0 <= i < 8 && i != 2 && i != 5
      ensures IsDecimalDigit(r[i])
    {
      if i < 2 {
        assert r[i] == h[i];
      } else if i < 5 {
        assert r[i] == m[i - 3];
      } else {
        assert r[i] == e[i - 6];
      }
    }
  }

  /** Two-digit fields give an 8-character clock with ':' at 2 and 5. */
  lemma IsoClockShape(hour: nat, minute: nat, second: nat)
    requires hour < 100 && minute < 100 && second < 100
    ensures |IsoClock(hour, minute, second)| == 8
    ensures IsoClock(hour, minute, second)[2] == ':' && IsoClock(hour, minute, second)[5] == ':'
    ensures forall i :: 0 <= i < 8 && i != 2 && i != 5 ==> IsDecimalDigit(IsoClock(hour, minute, second)[i])
    ensures 'T' !in IsoClock(hour, minute, second)
  {
    Pow10Values();
    PaddedDigits(hour, 2);
    PaddedDigits(minute, 2);
    PaddedDigits(second, 2);
    ColonLayout(Padded(hour, 2), Padded(minute, 2), Padded(second, 2));
  }

  lemma DisplayShape(c: Civil, hour: nat, minute: nat, second: nat)
    requires ValidCivil(c) && 0 <= c.year <= 9999
    requires hour < 100 && minute < 100 && second < 100
    ensures IsDisplayText(IsoDate(c) + (" " + IsoClock(hour, minute, second)))
  {
    IsoDateShape(c);
    IsoClockShape(hour, minute, second);
    var d := IsoDate(c);
    var k := IsoClock(hour, minute, second);
    var r := d + (" " + k);
    forall i | 0 <= i < 19 && i != 4 && i != 7 && i != 10 && i != 13 && i != 16
      ensures IsDecimalDigit(r[i])
    {
      if i < 10 {
        assert r[i] == d[i];
      } else {
        assert r[i] == k[i - 11];
      }
    }
  }

  /** The first 19 characters of toISOString, with its 'T' replaced. */
  lemma SliceAndReplace(d: string, k: string, tail: string)
    requires |d| == 10 && |k| == 8 && 'T' !in d
    ensures ReplaceFirst(SliceTo(d + ("T" + (k + tail)), 19), 'T', ' ') == d + (" " + k)
  {
    var s := d + ("T" + (k + tail));
    assert SliceTo(s, 19) == d + ['T'] + k;
    ReplaceFirstAt(d, 'T', ' ', k);
    assert d + [' '] + k == d + (" " + k);
  }

  /** The readings of time values within (-10^12, 10^13) ms of the epoch, shifted to JST. */
  lemma JstTextShape(t: int)
    requires -1000000000000 < t < 10000000000000
    ensures var j := t + JstOffset;
      var c := CivilFromDays(j / MsPerDay);
      var w := j % MsPerDay;
      1900 <= c.year < 2300
      && JstText(t) == Success(IsoDate(c) + (" " + IsoClock(w / MsPerHour, w / MsPerMinute % 60, w / MsPerSecond % 60)))
  {
    var j := t + JstOffset;
    assert DayFromYear(1900) == -25567 && DayFromYear(2300) == 120530;
    YearBetween(j / MsPerDay, 1900, 2300);
    assert TimeClip(j) == Some(j);
    DisplayOfIsoString(j);
  }

  /** For a four-digit year, the first 19 characters of toISOString with ' ' for 'T' are the date and the clock. */
  lemma DisplayOfIsoString(j: int)
    requires 0 <= CivilFromDays(j / MsPerDay).year <= 9999
    ensures var c := CivilFromDays(j / MsPerDay);
      var w := j % MsPerDay;
      ReplaceFirst(SliceTo(ToIsoString(j), 19), 'T', ' ')
        == IsoDate(c) + (" " + IsoClock(w / MsPerHour, w / MsPerMinute % 60, w / MsPerSecond % 60))
  {
    var c := CivilFromDays(j / MsPerDay);
    var w := j % MsPerDay;
    IsoDateShape(c);
    IsoClockShape(w / MsPerHour, w / MsPerMinute % 60, w / MsPerSecond % 60);
    SliceAndReplace(IsoDate(c), IsoClock(w / MsPerHour, w / MsPerMinute % 60, w / MsPerSecond % 60),
                    "." + (Padded(w % MsPerSecond, 3) + "Z"));
  }

  // ---------------------------------------------------------------------
  // What the conversions promise
  // ---------------------------------------------------------------------

  /**
   * Below 10^21, `String(n)` has 10 characters only for n within the second
   * range and 13 only within the millisecond range.
   */
  lemma DigitCountRange(n: int)
    ensures |NumberToString(n)| == 10 ==> -1000000000 < n < 10000000000 || Abs(n) >= ExponentFrom
    ensures |NumberToString(n)| == 13 ==> -1000000000000 < n < 10000000000000 || Abs(n) >= ExponentFrom
  {
    Pow10Values();
    var m: nat := Abs(n);
    assert m < ExponentFrom ==> |NumberToString(n)| == (if n < 0 then 1 else 0) + |ToDecimal(m)|;
    DecimalLength(m, 9);
    DecimalLength(m, 10);
    DecimalLength(m, 12);
    DecimalLength(m, 13);
  }

  /**
   * A number printed with 10 characters is seconds and one printed with 13
   * is milliseconds, unless it is printed in exponent form, whose instant
   * is NaN; any other length is an error.
   */
  lemma TimestampUnits(n: int)
    ensures |NumberToString(n)| == 10 ==>
      TimestampInstant(n) == if Abs(n) < ExponentFrom then Success(n * 1000) else Failure(InvalidTimestampMessage)
    ensures |NumberToString(n)| == 13 ==>
      TimestampInstant(n) == if Abs(n) < ExponentFrom then Success(n) else Failure(InvalidTimestampMessage)
    ensures |NumberToString(n)| != 10 && |NumberToString(n)| != 13 ==> TimestampInstant(n) == Failure(DigitCountMessage)
    ensures TimestampInstant(n).Success? ==> -1000000000000 < TimestampInstant(n).value < 10000000000000
  {
    DigitCountRange(n);
  }

  /** Instants within (-10^12, 10^13) ms read as text of the 'YYYY-MM-DD HH:MM:SS' shape. */
  lemma JstTextIsDisplay(t: int)
    requires -1000000000000 < t < 10000000000000
    ensures JstText(t).Success? && IsDisplayText(JstText(t).value)
  {
    JstTextShape(t);
    var j := t + JstOffset;
    var w := j % MsPerDay;
    DisplayShape(CivilFromDays(j / MsPerDay), w / MsPerHour, w / MsPerMinute % 60, w / MsPerSecond % 60);
  }

  /**
   * Empty text and text parseInt cannot read are errors, and so is a
   * number of the wrong length; a number of 10 or 13 characters in
   * exponent form (from 10^21 on) is an invalid timestamp; every other
   * conversion succeeds with a 19-character 'YYYY-MM-DD HH:MM:SS' reading
   * (the toISOString error never occurs).
   */
  lemma TimestampOutcomes(s: string)
    ensures s == "" ==> ConvertTimestampToDatetime(s) == Failure(EmptyTimestampMessage)
    ensures s != "" && ParseInt(s).None? ==> ConvertTimestampToDatetime(s) == Failure(NotNumberMessage)
    ensures s != "" && ParseInt(s).Some? ==>
      var n := ParseInt(s).value;
      var len := |NumberToString(n)|;
      var unit := len == 10 || len == 13;
      (unit && Abs(n) < ExponentFrom <==> ConvertTimestampToDatetime(s).Success?)
      && (unit && Abs(n) >= ExponentFrom <==> ConvertTimestampToDatetime(s) == Failure(InvalidTimestampMessage))
    ensures ConvertTimestampToDatetime(s).Success? ==> IsDisplayText(ConvertTimestampToDatetime(s).value)
    ensures ConvertTimestampToDatetime(s).Failure? ==>
      ConvertTimestampToDatetime(s).error in {EmptyTimestampMessage, NotNumberMessage, DigitCountMessage, InvalidTimestampMessage}
  {
    if s != "" && ParseInt(s).Some? {
      var n := ParseInt(s).value;
      TimestampUnits(n);
      if TimestampInstant(n).Success? {
        JstTextIsDisplay(TimestampInstant(n).value);
      }
    }
  }

  /**
   * parseInt reads the 22 digits 12345 followed by 17 zeros as a number
   * that `String` prints in exponent form with ten characters, so it is
   * taken for seconds and refused as an invalid timestamp, not for its
   * digit count.
   */
  lemma ExponentTimestampIsInvalid(n: nat)
    requires n == 12345 * Pow10(17)
    ensures |ToDecimal(n)| == 22
    ensures ConvertTimestampToDatetime(ToDecimal(n)) == Failure(InvalidTimestampMessage)
  {
    ExponentFormWitness(n);
    ToDecimalRoundTrip(n);
    ParseIntOfDigits(ToDecimal(n));
    TimestampUnits(n);
  }

  // ---------------------------------------------------------------------
  // Reading a datetime-local value, and the round trip
  // ---------------------------------------------------------------------

  /** What a `datetime-local` input holds: 'YYYY-MM-DDTHH:MM'. */
  function LocalInput(c: Civil, hour: nat, minute: nat): string
    requires ValidCivil(c)
  {
    IsoDate(c) + ("T" + LocalClock(hour, minute))
  }

  function LocalClock(hour: nat, minute: nat): string {
    Padded(hour, 2) + (":" + Padded(minute, 2))
  }

  /** Digit text holds none of the separators. */
  lemma DigitsHoldNoSeparator(s: string)
    requires AllDecimal(s)
    ensures 'T' !in s && '-' !in s && ':' !in s
  {
    forall i | 0 <= i < |s|
      ensures s[i] != 'T' && s[i] != '-' && s[i] != ':'
    {
      assert IsDecimalDigit(s[i]);
    }
  }

  /** Splitting two digit fields around one separator. */
  lemma SplitTwoFields(a: string, sep: char, b: string)
    requires AllDecimal(a) && AllDecimal(b) && (sep == 'T' || sep == '-' || sep == ':')
    ensures Split(a + ([sep] + b), sep) == [a, b]
  {
    DigitsHoldNoSeparator(a);
    DigitsHoldNoSeparator(b);
    assert a + ([sep] + b) == a + [sep] + b;
    SplitAt(a, sep, b);
    SplitNone(b, sep);
  }

  /** Three digit fields joined by '-' split back into those fields, and hold no 'T'. */
  lemma DashedFields(y: string, m: string, d: string)
    requires AllDecimal(y) && AllDecimal(m) && AllDecimal(d)
    ensures Split(y + ("-" + (m + ("-" + d))), '-') == [y, m, d]
    ensures Split(y + ("-" + (m + ("-" + d))), 'T') == [y + ("-" + (m + ("-" + d)))]
  {
    var r := y + ("-" + (m + ("-" + d)));
    DigitsHoldNoSeparator(y);
    DigitsHoldNoSeparator(m);
    DigitsHoldNoSeparator(d);
    SplitTwoFields(m, '-', d);
    assert r == y + ['-'] + (m + ("-" + d));
    SplitAt(y, '-', m + ("-" + d));
    assert 'T' !in r;
    SplitNone(r, 'T');
  }

  lemma DateFields(c: Civil)
    requires ValidCivil(c) && 0 <= c.year <= 9999
    ensures Split(IsoDate(c), '-') == [Padded(c.year, 4), Padded(c.month, 2), Padded(c.day, 2)]
    ensures Split(IsoDate(c), 'T') == [IsoDate(c)]
  {
    Pow10Values();
    MonthTable(IsLeapYear(c.year));
    PaddedDigits(c.year, 4);
    PaddedDigits(c.month, 2);
    PaddedDigits(c.day, 2);
    assert IsoDate(c) == Padded(c.year, 4) + ("-" + (Padded(c.month, 2) + ("-" + Padded(c.day, 2))));
    DashedFields(Padded(c.year, 4), Padded(c.month, 2), Padded(c.day, 2));
  }

  /** The pieces of a datetime-local value. */
  lemma LocalInputPieces(d: string, hh: string, mm: string)
    requires 'T' !in d && AllDecimal(hh) && AllDecimal(mm)
    ensures 'T' in d + ("T" + (hh + (":" + mm)))
    ensures Split(d + ("T" + (hh + (":" + mm))), 'T') == [d, hh + (":" + mm)]
    ensures Split(hh + (":" + mm), ':') == [hh, mm]
  {
    var k := hh + (":" + mm);
    assert (d + ("T" + k))[|d|] == 'T';
    SplitTwoFields(hh, ':', mm);
    DigitsHoldNoSeparator(hh);
    DigitsHoldNoSeparator(mm);
    assert 'T' !in k;
    assert d + ("T" + k) == d + ['T'] + k;
    SplitAt(d, 'T', k);
    SplitNone(k, 'T');
  }

  /** `Number` of a zero-padded field is the field's value. */
  lemma NumberOfPadded(n: nat, width: nat)
    requires 1 <= width && n < Pow10(width)
    ensures StringToNumber(Padded(n, width)) == Some(n)
  {
    PaddedDigits(n, width);
    NumberOfDigits(Padded(n, width));
  }

  lemma LocalArgumentsOfFields(s: string, d: string, k: string, c: Civil, hour: int, minute: int)
    requires 'T' in s && Split(s, 'T') == [d, k]
    requires NumbersOf(Split(d, '-')) == [Some(c.year), Some(c.month), Some(c.day)]
    requires NumbersOf(Split(k, ':')) == [Some(hour), Some(minute)]
    ensures LocalDatetimeArguments(s) == UtcArguments(Some(c.year), Some(c.month - 1), Some(c.day), Some(hour - 9), Some(minute))
  {
  }

  lemma NumbersOfThree(a: string, b: string, e: string, x: int, y: int, z: int)
    requires StringToNumber(a) == Some(x) && StringToNumber(b) == Some(y) && StringToNumber(e) == Some(z)
    ensures NumbersOf([a, b, e]) == [Some(x), Some(y), Some(z)]
  {
  }

  lemma NumbersOfTwo(a: string, b: string, x: int, y: int)
    requires StringToNumber(a) == Some(x) && StringToNumber(b) == Some(y)
    ensures NumbersOf([a, b]) == [Some(x), Some(y)]
  {
  }

  /** The 'T' branch reads the date and the clock of a datetime-local value. */
  lemma LocalInstantOfInput(c: Civil, hour: nat, minute: nat)
    requires ValidCivil(c) && 0 <= c.year <= 9999 && hour < 100 && minute < 100
    ensures 'T' in LocalInput(c, hour, minute)
    ensures LocalDatetimeInstant(LocalInput(c, hour, minute))
      == DateUtc(Some(c.year), Some(c.month - 1), Some(c.day), Some(hour - 9), Some(minute))
  {
    Pow10Values();
    MonthTable(IsLeapYear(c.year));
    PaddedDigits(hour, 2);
    PaddedDigits(minute, 2);
    IsoDateShape(c);
    LocalInputPieces(IsoDate(c), Padded(hour, 2), Padded(minute, 2));
    DateFields(c);
    NumberOfPadded(c.year, 4);
    NumberOfPadded(c.month, 2);
    NumberOfPadded(c.day, 2);
    NumberOfPadded(hour, 2);
    NumberOfPadded(minute, 2);
    NumbersOfThree(Padded(c.year, 4), Padded(c.month, 2), Padded(c.day, 2), c.year, c.month, c.day);
    NumbersOfTwo(Padded(hour, 2), Padded(minute, 2), hour, minute);
    LocalArgumentsOfFields(LocalInput(c, hour, minute), IsoDate(c), LocalClock(hour, minute), c, hour, minute);
  }

  /** Days from the epoch of the dates in years 100..9999 are within a few million. */
  lemma DaysOfFourDigitYears(c: Civil)
    requires ValidCivil(c) && 100 <= c.year <= 9999
    ensures -700000 < DaysFromCivil(c) < 3000000
  {
    assert DayFromYear(100) == -683003 && DayFromYear(10000) == 2932897;
    DayFromYearGrowth(100, c.year);
    DayFromYearGrowth(c.year + 1, 10000);
    DayFromYearStep(c.year);
    MonthTable(IsLeapYear(c.year));
  }

  /**
   * A 'YYYY-MM-DDTHH:MM' value is read as JST: the result is the floor of
   * the epoch milliseconds of UTC(y, m - 1, d, h - 9, min), divided by 1000.
   */
  lemma LocalDatetimeReading(c: Civil, hour: nat, minute: nat, hostParse: Option<int>)
    requires ValidCivil(c) && 100 <= c.year <= 9999 && hour < 24 && minute < 60
    ensures ConvertDatetimeToTimestamp(LocalInput(c, hour, minute), hostParse)
      == Success((DaysFromCivil(c) * MsPerDay + (hour - 9) * MsPerHour + minute * MsPerMinute) / 1000)
  {
    LocalInstantOfCivil(c, hour, minute);
    LocalReadingOf(c, hour, minute, hostParse);
  }

  /** The JST reading of a 'YYYY-MM-DDTHH:MM' value in years 100..9999. */
  lemma LocalInstantOfCivil(c: Civil, hour: nat, minute: nat)
    requires ValidCivil(c) && 100 <= c.year <= 9999 && hour < 24 && minute < 60
    ensures 'T' in LocalInput(c, hour, minute)
    ensures LocalDatetimeInstant(LocalInput(c, hour, minute))
      == Some(DaysFromCivil(c) * MsPerDay + (hour - 9) * MsPerHour + minute * MsPerMinute)
  {
    LocalInstantOfInput(c, hour, minute);
    DateUtcOfFourDigitYear(c, hour - 9, minute);
  }

  /** Date.UTC of a date in years 100..9999 at a clock within one day either side. */
  lemma DateUtcOfFourDigitYear(c: Civil, hour: int, minute: int)
    requires ValidCivil(c) && 100 <= c.year <= 9999 && -9 <= hour < 24 && 0 <= minute < 60
    ensures DateUtc(Some(c.year), Some(c.month - 1), Some(c.day), Some(hour), Some(minute))
      == Some(DaysFromCivil(c) * MsPerDay + hour * MsPerHour + minute * MsPerMinute)
  {
    DaysOfFourDigitYears(c);
    InstantBound(DaysFromCivil(c), hour, minute);
    DateUtcOfCivil(c, hour, minute);
  }

  /** Days within a few million of the epoch and a clock near one day stay within the time value range. */
  lemma InstantBound(day: int, hour: int, minute: int)
    requires -700000 < day < 3000000 && -9 <= hour < 24 && 0 <= minute < 60
    ensures Abs(MakeDate(day, MakeTime(hour, minute, 0, 0))) <= MaxTimeValue
  {
    var time := MakeTime(hour, minute, 0, 0);
    assert -MsPerDay <= time <= MsPerDay;
    assert -700000 * MsPerDay < day * MsPerDay < 3000000 * MsPerDay;
  }

  /** A 'YYYY-MM-DDTHH:MM' value converts to the seconds of its JST reading. */
  lemma LocalReadingOf(c: Civil, hour: nat, minute: nat, hostParse: Option<int>)
    requires ValidCivil(c) && 'T' in LocalInput(c, hour, minute)
    requires LocalDatetimeInstant(LocalInput(c, hour, minute))
      == Some(DaysFromCivil(c) * MsPerDay + (hour - 9) * MsPerHour + minute * MsPerMinute)
    ensures ConvertDatetimeToTimestamp(LocalInput(c, hour, minute), hostParse)
      == Success((DaysFromCivil(c) * MsPerDay + (hour - 9) * MsPerHour + minute * MsPerMinute) / 1000)
  {
  }

  lemma DayAndTime(day: int, w: int)
    requires 0 <= w < MsPerDay
    ensures (day * MsPerDay + w) / MsPerDay == day && (day * MsPerDay + w) % MsPerDay == w
  {
  }

  lemma ClockOfTime(hour: nat, minute: nat)
    requires hour < 24 && minute < 60
    ensures var w := hour * MsPerHour + minute * MsPerMinute;
      w / MsPerHour == hour && w / MsPerMinute % 60 == minute && w / MsPerSecond % 60 == 0
  {
  }

  /** The Japan-time instant of such a count of seconds falls on that day, at that hour and minute, with zero seconds. */
  lemma JstFieldsOfSeconds(day: int, hour: nat, minute: nat, seconds: int)
    requires hour < 24 && minute < 60
    requires seconds == day * 86400 + (hour - 9) * 3600 + minute * 60
    ensures var j := seconds * 1000 + JstOffset; var w := j % MsPerDay;
      j / MsPerDay == day && w / MsPerHour == hour && w / MsPerMinute % 60 == minute && w / MsPerSecond % 60 == 0
  {
    var w := hour * MsPerHour + minute * MsPerMinute;
    assert seconds * 1000 + JstOffset == day * MsPerDay + w;
    DayAndTime(day, w);
    ClockOfTime(hour, minute);
  }

  /** A 10-digit count of seconds for a date and clock in Japan time shows that date and clock. */
  lemma SecondsShowAsDatetime(c: Civil, hour: nat, minute: nat, seconds: int)
    requires ValidCivil(c) && 100 <= c.year <= 9999 && hour < 24 && minute < 60
    requires seconds == DaysFromCivil(c) * 86400 + (hour - 9) * 3600 + minute * 60
    requires |NumberToString(seconds)| == 10
    ensures ConvertTimestampToDatetime(NumberToString(seconds)) == Success(IsoDate(c) + (" " + IsoClock(hour, minute, 0)))
  {
    DaysOfFourDigitYears(c);
    ParseIntOfNumberToString(seconds);
    TimestampUnits(seconds);
    var t := seconds * 1000;
    assert ConvertTimestampToDatetime(NumberToString(seconds)) == JstText(t);
    JstFieldsOfSeconds(DaysFromCivil(c), hour, minute, seconds);
    CivilRoundTrip(c);
    JstTextShape(t);
  }

  /**
   * The round trip through both conversions and the same +9 h shift: a
   * 'YYYY-MM-DDTHH:MM' value whose timestamp prints with 10 digits comes
   * back as 'YYYY-MM-DD HH:MM:00'.
   */
  lemma RoundTrip(c: Civil, hour: nat, minute: nat, hostParse: Option<int>)
    requires ValidCivil(c) && 100 <= c.year <= 9999 && hour < 24 && minute < 60
    requires ConvertDatetimeToTimestamp(LocalInput(c, hour, minute), hostParse).Success?
    requires |NumberToString(ConvertDatetimeToTimestamp(LocalInput(c, hour, minute), hostParse).value)| == 10
    ensures ConvertTimestampToDatetime(NumberToString(ConvertDatetimeToTimestamp(LocalInput(c, hour, minute), hostParse).value))
      == Success(IsoDate(c) + (" " + IsoClock(hour, minute, 0)))
  {
    LocalDatetimeReading(c, hour, minute, hostParse);
    var seconds := DaysFromCivil(c) * 86400 + (hour - 9) * 3600 + minute * 60;
    assert ConvertDatetimeToTimestamp(LocalInput(c, hour, minute), hostParse).value == seconds;
    SecondsShowAsDatetime(c, hour, minute, seconds);
  }

  /**
   * Date.UTC takes the years 0..99 for 1900..1999: a 'YYYY-MM-DDTHH:MM'
   * value in year y < 100 converts like the same date in 1900 + y.
   */
  lemma TwoDigitYearShift(c: Civil, hour: nat, minute: nat, hostParse: Option<int>)
    requires ValidCivil(c) && 0 <= c.year <= 99 && hour < 24 && minute < 60
    requires ValidCivil(Civil(1900 + c.year, c.month, c.day))
    ensures ConvertDatetimeToTimestamp(LocalInput(c, hour, minute), hostParse)
      == ConvertDatetimeToTimestamp(LocalInput(Civil(1900 + c.year, c.month, c.day), hour, minute), hostParse)
  {
    TwoDigitInstant(c, hour, minute);
    ShiftedInstant(c, hour, minute);
    SameReadingOf(c, hour, minute, hostParse);
  }

  /** A two-digit year's value is read through MakeFullYear as 1900 + y. */
  lemma TwoDigitInstant(c: Civil, hour: nat, minute: nat)
    requires ValidCivil(c) && 0 <= c.year <= 99 && hour < 24 && minute < 60
    ensures 'T' in LocalInput(c, hour, minute)
    ensures LocalDatetimeInstant(LocalInput(c, hour, minute))
      == DateUtc(Some(1900 + c.year), Some(c.month - 1), Some(c.day), Some(hour - 9), Some(minute))
  {
    LocalInstantOfInput(c, hour, minute);
    TwoDigitYearValue(LocalDatetimeInstant(LocalInput(c, hour, minute)), c, hour, minute);
  }

  lemma TwoDigitYearValue(v: Option<int>, c: Civil, hour: nat, minute: nat)
    requires 0 <= c.year <= 99
    requires v == DateUtc(Some(c.year), Some(c.month - 1), Some(c.day), Some(hour - 9), Some(minute))
    ensures v == DateUtc(Some(1900 + c.year), Some(c.month - 1), Some(c.day), Some(hour - 9), Some(minute))
  {
    DateUtcOfTwoDigitYear(c.year, Some(c.month - 1), Some(c.day), Some(hour - 9), Some(minute));
  }

  lemma ShiftedInstant(c: Civil, hour: nat, minute: nat)
    requires 0 <= c.year <= 99 && hour < 24 && minute < 60
    requires ValidCivil(Civil(1900 + c.year, c.month, c.day))
    ensures 'T' in LocalInput(Civil(1900 + c.year, c.month, c.day), hour, minute)
    ensures LocalDatetimeInstant(LocalInput(Civil(1900 + c.year, c.month, c.day), hour, minute))
      == DateUtc(Some(1900 + c.year), Some(c.month - 1), Some(c.day), Some(hour - 9), Some(minute))
  {
    LocalInstantOfInput(Civil(1900 + c.year, c.month, c.day), hour, minute);
  }

  lemma SameReadingOf(c: Civil, hour: nat, minute: nat, hostParse: Option<int>)
    requires ValidCivil(c) && ValidCivil(Civil(1900 + c.year, c.month, c.day))
    requires 'T' in LocalInput(c, hour, minute)
    requires LocalDatetimeInstant(LocalInput(c, hour, minute))
      == DateUtc(Some(1900 + c.year), Some(c.month - 1), Some(c.day), Some(hour - 9), Some(minute))
    requires 'T' in LocalInput(Civil(1900 + c.year, c.month, c.day), hour, minute)
    requires LocalDatetimeInstant(LocalInput(Civil(1900 + c.year, c.month, c.day), hour, minute))
      == DateUtc(Some(1900 + c.year), Some(c.month - 1), Some(c.day), Some(hour - 9), Some(minute))
    ensures ConvertDatetimeToTimestamp(LocalInput(c, hour, minute), hostParse)
      == ConvertDatetimeToTimestamp(LocalInput(Civil(1900 + c.year, c.month, c.day), hour, minute), hostParse)
  {
  }

  lemma DateUtcOfTwoDigitYear(y: int, month: Option<int>, day: Option<int>, hour: Option<int>, minute: Option<int>)
    requires 0 <= y <= 99
    ensures DateUtc(Some(y), month, day, hour, minute) == DateUtc(Some(1900 + y), month, day, hour, minute)
  {
    assert MakeFullYear(y) == MakeFullYear(1900 + y);
  }

  /**
   * So the round trip does not hold below the year 100: where the
   * timestamp has 10 digits, it comes back in the year 1900 + y.
   */
  lemma TwoDigitYearRoundTrip(c: Civil, hour: nat, minute: nat, hostParse: Option<int>)
    requires ValidCivil(c) && 0 <= c.year <= 99 && hour < 24 && minute < 60
    requires ValidCivil(Civil(1900 + c.year, c.month, c.day))
    requires ConvertDatetimeToTimestamp(LocalInput(c, hour, minute), hostParse).Success?
    requires |NumberToString(ConvertDatetimeToTimestamp(LocalInput(c, hour, minute), hostParse).value)| == 10
    ensures var late := Civil(1900 + c.year, c.month, c.day);
      ConvertTimestampToDatetime(NumberToString(ConvertDatetimeToTimestamp(LocalInput(c, hour, minute), hostParse).value))
        == Success(IsoDate(late) + (" " + IsoClock(hour, minute, 0)))
      && IsoDate(late) != IsoDate(c)
  {
    var late := Civil(1900 + c.year, c.month, c.day);
    TwoDigitYearShift(c, hour, minute, hostParse);
    RoundTrip(late, hour, minute, hostParse);
    DateFields(c);
    DateFields(late);
    Pow10Values();
    PaddedDigits(c.year, 4);
    PaddedDigits(late.year, 4);
  }
  /** '0050-01-01T00:00' converts to -631184400, which comes back as '1950-01-01 00:00:00'. */
  lemma TwoDigitYearExample(c: Civil, late: Civil, seconds: int, hostParse: Option<int>)
    requires c == Civil(50, 1, 1) && late == Civil(1950, 1, 1) && seconds == -631184400
    ensures ConvertDatetimeToTimestamp(LocalInput(c, 0, 0), hostParse) == Success(seconds)
    ensures ConvertTimestampToDatetime(NumberToString(seconds)) == Success(IsoDate(late) + (" " + IsoClock(0, 0, 0)))
  {
    ExampleSeconds(c, seconds, hostParse);
    SecondsLength(-seconds);
    TwoDigitYearRoundTrip(c, 0, 0, hostParse);
  }

  lemma ExampleSeconds(c: Civil, seconds: int, hostParse: Option<int>)
    requires c == Civil(50, 1, 1) && seconds == -631184400
    ensures ConvertDatetimeToTimestamp(LocalInput(c, 0, 0), hostParse) == Success(seconds)
  {
    ExampleFacts(c, 0, 0, seconds);
    TwoDigitYearSeconds(c, 0, 0, seconds, hostParse);
  }

  /** A value in year y < 100 converts to the seconds of that date and clock in 1900 + y. */
  lemma TwoDigitYearSeconds(c: Civil, hour: nat, minute: nat, seconds: int, hostParse: Option<int>)
    requires ValidCivil(c) && 0 <= c.year <= 99 && hour < 24 && minute < 60
    requires var late := Civil(1900 + c.year, c.month, c.day);
      ValidCivil(late) && 100 <= late.year <= 9999
      && (DaysFromCivil(late) * MsPerDay + (hour - 9) * MsPerHour + minute * MsPerMinute) / 1000 == seconds
    ensures ConvertDatetimeToTimestamp(LocalInput(c, hour, minute), hostParse) == Success(seconds)
  {
    TwoDigitYearShift(c, hour, minute, hostParse);
    ReadingAsSeconds(Civil(1900 + c.year, c.month, c.day), hour, minute, seconds, hostParse);
  }

  /** A value in years 100..9999 converts to the given seconds when they are those of its JST reading. */
  lemma ReadingAsSeconds(c: Civil, hour: nat, minute: nat, seconds: int, hostParse: Option<int>)
    requires ValidCivil(c) && 100 <= c.year <= 9999 && hour < 24 && minute < 60
    requires (DaysFromCivil(c) * MsPerDay + (hour - 9) * MsPerHour + minute * MsPerMinute) / 1000 == seconds
    ensures ConvertDatetimeToTimestamp(LocalInput(c, hour, minute), hostParse) == Success(seconds)
  {
    LocalDatetimeReading(c, hour, minute, hostParse);
  }

  /** The calendar facts of that example: 1950-01-01 is day -7305, so 00:00 JST is -631184400 s. */
  lemma ExampleFacts(c: Civil, hour: nat, minute: nat, seconds: int)
    requires c == Civil(50, 1, 1) && hour == 0 && minute == 0 && seconds == -631184400
    ensures ValidCivil(c) && 0 <= c.year <= 99 && hour < 24 && minute < 60
    ensures var late := Civil(1900 + c.year, c.month, c.day);
      ValidCivil(late) && 100 <= late.year <= 9999
      && (DaysFromCivil(late) * MsPerDay + (hour - 9) * MsPerHour + minute * MsPerMinute) / 1000 == seconds
  {
    assert DaysFromCivil(Civil(1950, 1, 1)) == -7305;
  }

  /** -631184400 prints with ten characters. */
  lemma SecondsLength(m: nat)
    requires m == 631184400
    ensures |NumberToString(-(m as int))| == 10
  {
    Pow10Values();
    assert Pow10(8) == 100000000;
    DecimalLength(m, 9);
    NegativeNumberToString(m);
  }

  /**
   * Empty text is an error; a value with a 'T' is read as JST and gives
   * the floor of its epoch milliseconds divided by 1000, or the example
   * message when the reading is NaN; other text goes to the host parser,
   * whose value is clipped.  Either way the timestamp lies within
   * ±8.64·10^12 seconds.
   */
  lemma DatetimeOutcomes(s: string, hostParse: Option<int>)
    ensures s == "" ==> ConvertDatetimeToTimestamp(s, hostParse) == Failure(EmptyDatetimeMessage)
    ensures s != "" && 'T' in s ==>
      var r := ConvertDatetimeToTimestamp(s, hostParse);
      var t := LocalDatetimeInstant(s);
      (r.Success? <==> t.Some?)
      && (r.Success? ==> r.value * 1000 <= t.value < r.value * 1000 + 1000)
      && (r.Failure? ==> r.error == InvalidLocalDatetimeMessage)
    ensures s != "" && 'T' !in s ==>
      var r := ConvertDatetimeToTimestamp(s, hostParse);
      (r.Success? <==> hostParse.Some? && Abs(hostParse.value) <= MaxTimeValue)
      && (r.Success? ==> r.value * 1000 <= hostParse.value < r.value * 1000 + 1000)
      && (r.Failure? ==> r.error == InvalidDatetimeMessage)
    ensures ConvertDatetimeToTimestamp(s, hostParse).Success? ==>
      Abs(ConvertDatetimeToTimestamp(s, hostParse).value) <= MaxTimeValue / MsPerSecond
  {
  }

  // ---------------------------------------------------------------------
  // The component's state
  // ---------------------------------------------------------------------

  datatype ConversionMode = DatetimeToTimestamp | TimestampToDatetime

  const FallbackMessage := "変換中にエラーが発生しました"

  /**
   * What handleConvert computes in a mode: the timestamp printed with
   * `toString()`, or the JST reading; or the message of the error thrown.
   */
  function Conversion(mode: ConversionMode, datetimeInput: string, timestampInput: string, hostParse: Option<int>): Result<string, string> {
    if mode == DatetimeToTimestamp then
      match ConvertDatetimeToTimestamp(datetimeInput, hostParse)
      case Success(t) => Success(NumberToString(t))
      case Failure(e) => Failure(e)
    else ConvertTimestampToDatetime(timestampInput)
  }

  /** The messages the two converters throw. */
  predicate IsConverterMessage(e: string) {
    e == EmptyDatetimeMessage || e == InvalidLocalDatetimeMessage || e == InvalidDatetimeMessage
    || e == EmptyTimestampMessage || e == NotNumberMessage || e == DigitCountMessage || e == InvalidTimestampMessage
  }

  /** None of them is the fallback message. */
  lemma FallbackIsNoConverterMessage()
    ensures !IsConverterMessage(FallbackMessage)
  {
    assert FallbackMessage[0] == '変';
    assert EmptyDatetimeMessage[0] == '日' && EmptyTimestampMessage[0] == 'タ' && DigitCountMessage[0] == 'タ';
    assert InvalidLocalDatetimeMessage[0] == '有' && InvalidDatetimeMessage[0] == '有' && NotNumberMessage[0] == '有';
    assert InvalidTimestampMessage[0] == '有';
  }

  /**
   * Every thrown value is an Error with one of the converters' messages,
   * so the fallback message is never shown.
   */
  lemma ConversionFailures(mode: ConversionMode, datetimeInput: string, timestampInput: string, hostParse: Option<int>)
    ensures Conversion(mode, datetimeInput, timestampInput, hostParse).Failure? ==>
      IsConverterMessage(Conversion(mode, datetimeInput, timestampInput, hostParse).error)
      && Conversion(mode, datetimeInput, timestampInput, hostParse).error != FallbackMessage
  {
    FallbackIsNoConverterMessage();
    if mode == DatetimeToTimestamp {
      DatetimeOutcomes(datetimeInput, hostParse);
    } else {
      TimestampOutcomes(timestampInput);
    }
  }

  /**
   * A timestamp the first mode prints reads back under parseInt as the
   * number converted, and the second mode's text is a
   * 'YYYY-MM-DD HH:MM:SS' reading.
   */
  lemma ConversionResults(mode: ConversionMode, datetimeInput: string, timestampInput: string, hostParse: Option<int>)
    ensures var r := Conversion(mode, datetimeInput, timestampInput, hostParse);
      (r.Success? && mode == DatetimeToTimestamp ==>
         ParseInt(r.value) == Some(ConvertDatetimeToTimestamp(datetimeInput, hostParse).value))
      && (r.Success? && mode == TimestampToDatetime ==> IsDisplayText(r.value))
  {
    TimestampOutcomes(timestampInput);
    var d := ConvertDatetimeToTimestamp(datetimeInput, hostParse);
    if d.Success? {
      DatetimeOutcomes(datetimeInput, hostParse);
      ParseIntOfNumberToString(d.value);
    }
  }

  /** The converter's state: the mode switch, the two inputs, the result and the error. */
  class Converter {
    var conversionMode: ConversionMode
    var datetimeInput: string
    var timestampInput: string
    var result: string
    var error: Option<string>

    constructor()
      ensures conversionMode == DatetimeToTimestamp && datetimeInput == "" && timestampInput == ""
      ensures result == "" && error == None
    {
      conversionMode := DatetimeToTimestamp;
      datetimeInput := "";
      timestampInput := "";
      result := "";
      error := None;
    }

    /** The datetime-local input's onChange. */
    method SetDatetimeInput(value: string)
      modifies this
      ensures datetimeInput == value
      ensures conversionMode == old(conversionMode) && timestampInput == old(timestampInput)
      ensures result == old(result) && error == old(error)
    {
      datetimeInput := value;
    }

    /** The timestamp input's onChange. */
    method SetTimestampInput(value: string)
      modifies this
      ensures timestampInput == value
      ensures conversionMode == old(conversionMode) && datetimeInput == old(datetimeInput)
      ensures result == old(result) && error == old(error)
    {
      timestampInput := value;
    }

    /**
     * handleConvert: clear the error, convert in the current mode, and
     * show the result, or show the message and clear the result.
     */
    method HandleConvert(hostParse: Option<int>)
      modifies this
      ensures conversionMode == old(conversionMode) && datetimeInput == old(datetimeInput)
      ensures timestampInput == old(timestampInput)
      ensures var r := Conversion(conversionMode, datetimeInput, timestampInput, hostParse);
        (r.Success? ==> result == r.value && error == None)
        && (r.Failure? ==> result == "" && error == Some(r.error))
    {
      error := None;
      var r := Conversion(conversionMode, datetimeInput, timestampInput, hostParse);
      match r
      case Success(v) =>
        result := v;
      case Failure(e) =>
        error := Some(e);
        result := "";
    }

    /** handleModeChange: switch the mode and clear the result, the error and both inputs. */
    method HandleModeChange(checked: bool)
      modifies this
      ensures conversionMode == if checked then TimestampToDatetime else DatetimeToTimestamp
      ensures result == "" && error == None && datetimeInput == "" && timestampInput == ""
    {
      conversionMode := if checked then TimestampToDatetime else DatetimeToTimestamp;
      result := "";
      error := None;
      datetimeInput := "";
      timestampInput := "";
    }
  }
}
