/** Time primitives of the attendance engine: calendar dates, minute truncation of
    timestamps, worked durations, the day classification behind the daily normal-hours
    limit, and the HH:MM rendering of hours. */
module AttendanceTime {
  import opened Wrappers
  import Text

  /** A calendar date, as the host stores `attendance_date`. */
  datatype Date = Date(year: int, month: int, day: int)

  /** `a <= b` on dates. */
  predicate DateLe(a: Date, b: Date)
  {
    a.year < b.year || (a.year == b.year && (a.month < b.month || (a.month == b.month && a.day <= b.day)))
  }

  /** Days from 1970-01-01 to `d` in the proleptic Gregorian calendar. */
  function DaysFromCivil(d: Date): int
  {
    var y := if d.month <= 2 then d.year - 1 else d.year;
    var era := y / 400;
    var yoe := y - era * 400;
    var mp := (d.month + 9) % 12;
    var doy := (153 * mp + 2) / 5 + d.day - 1;
    var doe := yoe * 365 + yoe / 4 - yoe / 100 + doy;
    era * 146097 + doe - 719468
  }

  /** `date.weekday()`: Monday is 0 and Sunday is 6 (1970-01-01 was a Thursday). */
  function IsoWeekday(d: Date): (w: int)
    ensures 0 <= w < 7
  {
    (DaysFromCivil(d) + 3) % 7
  }

  /** Timestamps are integers counting microseconds since the epoch, in UTC. */
  const MicrosPerMinute: int := 60_000_000
  const MicrosPerHour: int := 3_600_000_000

  /** `dt.replace(second=0, microsecond=0)`: the start of the minute that contains `t`. */
  function RemoveSeconds(t: int): (r: int)
    ensures r % MicrosPerMinute == 0
    ensures r <= t < r + MicrosPerMinute
  {
    t - t % MicrosPerMinute
  }

  /** Cleaning seconds twice is cleaning them once. */
  lemma RemoveSecondsIdempotent(t: int)
    ensures RemoveSeconds(RemoveSeconds(t)) == RemoveSeconds(t)
  {
  }

  /** Two timestamps in the same minute are stored identically. */
  lemma SameMinuteSameStamp(t: int, u: int)
    requires t / MicrosPerMinute == u / MicrosPerMinute
    ensures RemoveSeconds(t) == RemoveSeconds(u)
  {
  }

  /** `worked_hours`: the gap between check-in and check-out in hours, 0 when either is missing. */
  function WorkedHours(checkIn: Option<int>, checkOut: Option<int>): real
  {
    if checkIn.Some? && checkOut.Some? then
      (checkOut.value - checkIn.value) as real / MicrosPerHour as real
    else 0.0
  }

  /** Between minute-truncated timestamps the worked time is a whole number of minutes,
      and it is positive exactly when check-out is after check-in. */
  lemma WorkedWholeMinutes(checkIn: int, checkOut: int)
    ensures var h := WorkedHours(Some(RemoveSeconds(checkIn)), Some(RemoveSeconds(checkOut)));
      var minutes := (RemoveSeconds(checkOut) - RemoveSeconds(checkIn)) / MicrosPerMinute;
      h * 60.0 == minutes as real && (h > 0.0 <==> RemoveSeconds(checkOut) > RemoveSeconds(checkIn))
  {
    var a, b := RemoveSeconds(checkIn), RemoveSeconds(checkOut);
    var minutes := (b - a) / MicrosPerMinute;
    assert (b - a) % MicrosPerMinute == 0 by {
      assert a == (a / MicrosPerMinute) * MicrosPerMinute;
      assert b == (b / MicrosPerMinute) * MicrosPerMinute;
      assert b - a == (b / MicrosPerMinute - a / MicrosPerMinute) * MicrosPerMinute;
    }
    assert b - a == minutes * MicrosPerMinute;
    assert (b - a) as real == minutes as real * MicrosPerMinute as real;
  }

  /** The day kind of the local check-in, from `int(local_check_in.strftime('%w'))` where Sunday is 0. */
  datatype DayKind = Weekday | Saturday | Sunday

  /** A `%w` weekday number: Sunday is 0, Saturday 6. */
  type WeekdayNumber = w: int | 0 <= w < 7

  function CheckInDayKind(w: WeekdayNumber): DayKind
  {
    if 1 <= w <= 5 then Weekday else if w == 6 then Saturday else Sunday
  }

  /** The two thresholds of a working calendar (`resource.calendar`). */
  datatype Calendar = Calendar(monToFriHours: real, saturdayHours: real)

  /** The field defaults: 8 hours Monday to Friday, 4 hours on Saturday. */
  function DefaultCalendar(): (c: Calendar)
    ensures c.monToFriHours == 8.0 && c.saturdayHours == 4.0
  {
    Calendar(8.0, 4.0)
  }

  /** The daily normal-hours budget of a day kind: Sunday has none. */
  function DailyLimit(cal: Calendar, k: DayKind): real
  {
    match k
    case Weekday => cal.monToFriHours
    case Saturday => cal.saturdayHours
    case Sunday => 0.0
  }

  /** Saturday and Sunday overtime is weekend overtime. */
  predicate IsWeekend(k: DayKind)
  {
    k != Weekday
  }

  /** The table of limits and weekend flags by `%w` number. */
  lemma DayTable(cal: Calendar, w: WeekdayNumber)
    ensures 1 <= w <= 5 ==> DailyLimit(cal, CheckInDayKind(w)) == cal.monToFriHours && !IsWeekend(CheckInDayKind(w))
    ensures w == 6 ==> DailyLimit(cal, CheckInDayKind(w)) == cal.saturdayHours && IsWeekend(CheckInDayKind(w))
    ensures w == 0 ==> DailyLimit(cal, CheckInDayKind(w)) == 0.0 && IsWeekend(CheckInDayKind(w))
  {
  }

  /** `normal_hour`: the threshold of the attendance date's weekday (Monday is 0), 0 without date or calendar. */
  function NormalHour(date: Option<Date>, cal: Option<Calendar>): real
  {
    if date.Some? && cal.Some? then
      var w := IsoWeekday(date.value);
      if 0 <= w <= 4 then cal.value.monToFriHours
      else if w == 5 then cal.value.saturdayHours
      else 0.0
    else 0.0
  }

  /** The two weekday encodings agree once converted (`%w` = (weekday() + 1) mod 7): when the
      local check-in falls on the attendance date, `normal_hour` is that day's overtime budget. */
  lemma NormalHourIsDailyLimit(d: Date, cal: Calendar)
    ensures NormalHour(Some(d), Some(cal)) == DailyLimit(cal, CheckInDayKind((IsoWeekday(d) + 1) % 7))
  {
  }

  /** Fed the same number, the two encodings are a day apart: reading a date's `weekday()` in
      the `%w` table gives the budget of the day before it. */
  lemma EncodingsOffByOneDay(d: Date, cal: Calendar)
    requires ValidDate(d)
    ensures DailyLimit(cal, CheckInDayKind(IsoWeekday(NextDate(d)))) == NormalHour(Some(d), Some(cal))
  {
    IsoWeekdayNext(d);
    NormalHourIsDailyLimit(d, cal);
  }

  // ---------------------------------------------------------------- the calendar

  /** Gregorian leap years. */
  predicate LeapYear(y: int)
  {
    y % 4 == 0 && (y % 100 != 0 || y % 400 == 0)
  }

  function DaysInMonth(y: int, m: int): int
  {
    if m == 2 then (if LeapYear(y) then 29 else 28)
    else if m == 4 || m == 6 || m == 9 || m == 11 then 30
    else 31
  }

  /** A date the host can store. */
  predicate ValidDate(d: Date)
  {
    1 <= d.month <= 12 && 1 <= d.day <= DaysInMonth(d.year, d.month)
  }

  /** `d + timedelta(days=1)`. */
  function NextDate(d: Date): (n: Date)
    requires ValidDate(d)
    ensures ValidDate(n) && DateLe(d, n) && n != d
  {
    if d.day < DaysInMonth(d.year, d.month) then Date(d.year, d.month, d.day + 1)
    else if d.month < 12 then Date(d.year, d.month + 1, 1)
    else Date(d.year + 1, 1, 1)
  }

  /** Days from the start of a 400-year era to 1 March of its year `yoe`. */
  function EraDays(yoe: int): int
  {
    yoe * 365 + yoe / 4 - yoe / 100
  }

  /** The day number of 1 March of `y` (the civil algorithm counts years from March). */
  function MarchFirst(y: int): int
  {
    (y / 400) * 146097 + EraDays(y % 400) - 719468
  }

  /** Days from 1 March to the given day of month `m`. */
  function DaysSinceMarch(m: int, day: int): int
  {
    (153 * ((m + 9) % 12) + 2) / 5 + day - 1
  }

  lemma CivilParts(d: Date)
    ensures DaysFromCivil(d) == MarchFirst(if d.month <= 2 then d.year - 1 else d.year) + DaysSinceMarch(d.month, d.day)
  {
  }

  /** One more multiple of 4 is passed exactly when `a + 1` is one. */
  lemma DivStep4(a: int)
    requires 0 <= a
    ensures (a + 1) / 4 == a / 4 + (if (a + 1) % 4 == 0 then 1 else 0)
  {
    var q, r := a / 4, a % 4;
    assert a == 4 * q + r;
    if r == 3 {
      assert a + 1 == 4 * (q + 1);
    } else {
      assert a + 1 == 4 * q + (r + 1);
    }
  }

  /** One more multiple of 100 is passed exactly when `a + 1` is one. */
  lemma DivStep100(a: int)
    requires 0 <= a
    ensures (a + 1) / 100 == a / 100 + (if (a + 1) % 100 == 0 then 1 else 0)
  {
    var q, r := a / 100, a % 100;
    assert a == 100 * q + r;
    if r == 99 {
      assert a + 1 == 100 * (q + 1);
    } else {
      assert a + 1 == 100 * q + (r + 1);
    }
  }

  /** Within an era, a year has 366 days when the February that ends it is a leap one. */
  lemma EraDaysStep(yoe: int)
    requires 0 <= yoe < 399
    ensures EraDays(yoe + 1) == EraDays(yoe) + 365 + (if (yoe + 1) % 4 == 0 && (yoe + 1) % 100 != 0 then 1 else 0)
  {
    DivStep4(yoe);
    DivStep100(yoe);
  }

  /** The quotient and remainder of a division by 400 are the ones a decomposition shows. */
  lemma Div400(x: int, q: int, r: int)
    requires x == 400 * q + r && 0 <= r < 400
    ensures x / 400 == q && x % 400 == r
  {
  }

  /** Leap years repeat every 400 years. */
  lemma YearInEra(y: int, era: int, yoe: int)
    requires y == 400 * era + yoe && 0 <= yoe < 400
    ensures LeapYear(y) <==> yoe % 4 == 0 && (yoe % 100 != 0 || yoe == 0)
  {
    assert y % 4 == yoe % 4 by {
      assert y == 4 * (100 * era) + yoe;
    }
    assert y % 100 == yoe % 100 by {
      assert y == 100 * (4 * era) + yoe;
    }
    Div400(y, era, yoe);
  }

  /** The March-to-February year that starts in `y` has 366 days when the February is a leap one. */
  lemma MarchFirstNext(y: int)
    ensures MarchFirst(y + 1) == MarchFirst(y) + 365 + (if LeapYear(y + 1) then 1 else 0)
  {
    var era, yoe := y / 400, y % 400;
    Div400(y, era, yoe);
    if yoe == 399 {
      Div400(y + 1, era + 1, 0);
      YearInEra(y + 1, era + 1, 0);
      assert EraDays(399) == 145731;
    } else {
      Div400(y + 1, era, yoe + 1);
      YearInEra(y + 1, era, yoe + 1);
      EraDaysStep(yoe);
    }
  }

  /** Day numbers are consecutive: the next date is the next day. */
  lemma DaysFromCivilNext(d: Date)
    requires ValidDate(d)
    ensures DaysFromCivil(NextDate(d)) == DaysFromCivil(d) + 1
  {
    if d.day < DaysInMonth(d.year, d.month) {
      NextDayOfMonth(d);
    } else if d.month == 2 {
      NextAfterFebruary(d);
    } else if d.month < 12 {
      NextMonth(d);
    } else {
      NextYear(d);
    }
  }

  lemma NextDayOfMonth(d: Date)
    requires ValidDate(d) && d.day < DaysInMonth(d.year, d.month)
    ensures DaysFromCivil(NextDate(d)) == DaysFromCivil(d) + 1
  {
    var y, m, day := d.year, d.month, d.day;
    assert NextDate(d) == Date(y, m, day + 1);
    CivilParts(d);
    CivilParts(Date(y, m, day + 1));
    DaysSinceMarchStep(m, day);
  }

  lemma DaysSinceMarchStep(m: int, day: int)
    ensures DaysSinceMarch(m, day + 1) == DaysSinceMarch(m, day) + 1
  {
  }

  /** The last of February is followed by 1 March, the first day of a civil-algorithm year. */
  lemma NextAfterFebruary(d: Date)
    requires ValidDate(d) && d.month == 2 && d.day == DaysInMonth(d.year, 2)
    ensures DaysFromCivil(NextDate(d)) == DaysFromCivil(d) + 1
  {
    var y, last := d.year, d.day;
    assert NextDate(d) == Date(y, 3, 1);
    assert last == if LeapYear(y) then 29 else 28;
    CivilParts(d);
    CivilParts(Date(y, 3, 1));
    var p := y - 1;
    MarchFirstNext(p);
    assert p + 1 == y;
    FebruaryOffsets(last);
  }

  lemma FebruaryOffsets(last: int)
    ensures DaysSinceMarch(2, last) == 336 + last && DaysSinceMarch(3, 1) == 0
  {
  }

  /** Outside February the months follow one another in the same civil-algorithm year. */
  lemma NextMonth(d: Date)
    requires ValidDate(d) && d.month < 12 && d.month != 2 && d.day == DaysInMonth(d.year, d.month)
    ensures DaysFromCivil(NextDate(d)) == DaysFromCivil(d) + 1
  {
    var y, m := d.year, d.month;
    assert NextDate(d) == Date(y, m + 1, 1);
    CivilParts(d);
    CivilParts(Date(y, m + 1, 1));
    MonthLengths(y, m);
  }

  /** 31 December is followed by 1 January, both in the civil-algorithm year that began in March. */
  lemma NextYear(d: Date)
    requires ValidDate(d) && d.month == 12 && d.day == DaysInMonth(d.year, 12)
    ensures DaysFromCivil(NextDate(d)) == DaysFromCivil(d) + 1
  {
    var y := d.year;
    assert NextDate(d) == Date(y + 1, 1, 1) && d.day == 31;
    CivilParts(d);
    CivilParts(Date(y + 1, 1, 1));
    DecemberOffsets();
  }

  lemma DecemberOffsets()
    ensures DaysSinceMarch(12, 31) == 305 && DaysSinceMarch(1, 1) == 306
  {
  }

  lemma MonthLengths(y: int, m: int)
    requires 1 <= m <= 11 && m != 2
    ensures DaysSinceMarch(m + 1, 1) == DaysSinceMarch(m, DaysInMonth(y, m)) + 1
  {
  }

  /** Day 0 is 1 January 1970, a Thursday. */
  lemma Epoch()
    ensures DaysFromCivil(Date(1970, 1, 1)) == 0
    ensures IsoWeekday(Date(1970, 1, 1)) == 3
  {
    CivilParts(Date(1970, 1, 1));
    Div400(1969, 4, 369);
    assert EraDays(369) == 134774;
    assert DaysSinceMarch(1, 1) == 306;
  }

  /** `weekday()` advances by one, Sunday (6) wrapping to Monday (0), from each date to the next. */
  lemma IsoWeekdayNext(d: Date)
    requires ValidDate(d)
    ensures IsoWeekday(NextDate(d)) == (IsoWeekday(d) + 1) % 7
  {
    DaysFromCivilNext(d);
    WeekStep(DaysFromCivil(d));
  }

  lemma WeekStep(x: int)
    ensures (x + 1 + 3) % 7 == ((x + 3) % 7 + 1) % 7
  {
  }

  /** `{n:02d}` for a non-negative `n`: at least two digits, zero-padded. */
  function Pad2(n: nat): (s: string)
    ensures |s| >= 2 && Text.IsDigits(s)
  {
    if n < 10 then "0" + Text.NatToString(n) else Text.NatToString(n)
  }

  /** `{h:02d}` for any integer: a negative number keeps its sign and is not zero-padded past width 2. */
  function PadInt(h: int): string
  {
    if h >= 0 then Pad2(h) else "-" + Text.NatToString(-h)
  }

  /** Python's `round` on a real: the nearest integer, ties to the even one. */
  function RoundHalfEven(x: real): (r: int)
    ensures r as real - 0.5 <= x <= r as real + 0.5
    ensures x - x.Floor as real == 0.5 ==> r % 2 == 0
  {
    var f := x.Floor;
    var d := x - f as real;
    if d > 0.5 then f + 1
    else if d < 0.5 then f
    else if f % 2 == 0 then f else f + 1
  }

  /** `int(x)`: truncation toward zero. */
  function Trunc(x: real): int
  {
    if x >= 0.0 then x.Floor else -((-x).Floor)
  }

  /** The hour and minute parts `_format_hours` prints: the integer part, and the rounded
      fractional part in minutes, carried into the hour when it rounds up to 60. */
  function HoursMinutes(hours: real): (hm: (int, nat))
    ensures hm.1 < 60
  {
    var h := Trunc(hours);
    var frac := hours - hours.Floor as real;
    var m := RoundHalfEven(frac * 60.0);
    if m >= 60 then (h + 1, 0) else (h, m)
  }

  /** On a non-negative number of hours the printed parts are the nearest whole minute. */
  lemma HoursMinutesNearest(hours: real)
    requires hours >= 0.0
    ensures var hm := HoursMinutes(hours);
      var total := (hm.0 * 60 + hm.1) as real;
      total - 0.5 <= hours * 60.0 <= total + 0.5
  {
    var f := hours.Floor;
    var frac := hours - f as real;
    assert 0.0 <= frac < 1.0;
    var m := RoundHalfEven(frac * 60.0);
    assert 0 <= m <= 60;
    assert hours * 60.0 == f as real * 60.0 + frac * 60.0;
  }

  /** `_format_hours`: `HH:MM`, and `00:00` when there are no hours. */
  function FormatHours(hours: real): string
  {
    if hours == 0.0 then "00:00"
    else
      var hm := HoursMinutes(hours);
      PadInt(hm.0) + ":" + Pad2(hm.1)
  }

  /** Reads `HH:MM` (two or more hour digits, two minute digits below 60) back into minutes. */
  function ParseHoursMinutes(s: string): Option<nat>
  {
    if |s| >= 5 && s[|s| - 3] == ':' && Text.IsDigits(s[..|s| - 3]) && Text.IsDigits(s[|s| - 2..])
       && Text.DigitsValue(s[|s| - 2..]) < 60
    then Some(Text.DigitsValue(s[..|s| - 3]) * 60 + Text.DigitsValue(s[|s| - 2..]))
    else None
  }

  /** The value of a zero-padded rendering is the number. */
  lemma Pad2Value(n: nat)
    ensures Text.DigitsValue(Pad2(n)) == n
  {
    Text.NatToStringRoundTrip(n);
    if n < 10 {
      Text.LeadingZero(Text.NatToString(n));
    }
  }

  /** A whole number of minutes, as hours, splits exactly into its hour and minute parts. */
  lemma WholeMinuteParts(n: nat)
    ensures HoursMinutes(n as real / 60.0) == (n / 60, n % 60)
  {
    var q, r := n / 60, n % 60;
    var x := n as real / 60.0;
    assert n == q * 60 + r;
    assert x == q as real + r as real / 60.0;
    assert q as real <= x < (q + 1) as real;
    assert x.Floor == q;
    assert Trunc(x) == q;
    assert (x - q as real) * 60.0 == r as real;
    assert RoundHalfEven(r as real) == r;
  }

  /** `00:00` reads back as no time. */
  lemma ParseZero()
    ensures ParseHoursMinutes("00:00") == Some(0)
  {
    var s := "00:00";
    assert s[..|s| - 3] == "00" && s[|s| - 2..] == "00";
    assert "00"[..1] == "0" && "0"[..0] == "";
  }

  /** Two-digit rendering of a minute count below 60. */
  lemma Pad2Minutes(m: nat)
    requires m < 60
    ensures |Pad2(m)| == 2
  {
    if m >= 10 {
      assert Text.NatToString(m) == Text.NatToString(m / 10) + [Text.DigitChar(m % 10)];
    }
  }

  /** Parsing `h + ":" + m` for two rendered parts. */
  lemma ParseParts(q: nat, r: nat)
    requires r < 60
    ensures ParseHoursMinutes(Pad2(q) + ":" + Pad2(r)) == Some(q * 60 + r)
  {
    var h, m := Pad2(q), Pad2(r);
    var s := h + ":" + m;
    Pad2Minutes(r);
    Pad2Value(q);
    Pad2Value(r);
    assert s[..|s| - 3] == h;
    assert s[|s| - 2..] == m;
  }

  /** Formatting a whole number of minutes loses nothing: the printed `HH:MM` reads back as the
      same number of minutes. */
  lemma FormatRoundTrip(n: nat)
    ensures ParseHoursMinutes(FormatHours(n as real / 60.0)) == Some(n)
  {
    if n == 0 {
      ParseZero();
    } else {
      FormatWholeMinutes(n);
      PartsRoundTrip(n);
    }
  }

  /** The zero-padded parts of a positive number of minutes read back as that number. */
  lemma PartsRoundTrip(n: nat)
    ensures ParseHoursMinutes(Pad2(n / 60) + ":" + Pad2(n % 60)) == Some(n)
  {
    ParseParts(n / 60, n % 60);
  }

  /** A positive whole number of minutes prints as its zero-padded hour and minute parts. */
  lemma FormatWholeMinutes(n: nat)
    requires n > 0
    ensures FormatHours(n as real / 60.0) == Pad2(n / 60) + ":" + Pad2(n % 60)
  {
    var x := n as real / 60.0;
    assert x > 0.0;
    WholeMinuteParts(n);
  }
}
