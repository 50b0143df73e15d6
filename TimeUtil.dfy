/** TimeUtil.toReadable: epoch seconds shifted by a UTC offset, rendered as the UTC civil date and
    time in the English layout "EEE, dd MMM yyyy hh:mm a". The calendar is the proleptic
    Gregorian one of java.time. */
module TimeUtil {
  import opened JavaText

  const SecondsPerDay := 86400

  /** LocalDate's year range; LocalDateTime.ofEpochSecond refuses instants outside it. */
  const MinYear := -999999999
  const MaxYear := 999999999

  predicate IsLeapYear(y: int) {
    y % 4 == 0 && (y % 100 != 0 || y % 400 == 0)
  }

  function YearLength(y: int): int {
    if IsLeapYear(y) then 366 else 365
  }

  function MonthLength(y: int, m: int): int
    requires 1 <= m <= 12
  {
    if m == 2 then (if IsLeapYear(y) then 29 else 28)
    else if m == 4 || m == 6 || m == 9 || m == 11 then 30
    else 31
  }

  datatype Date = Date(year: int, month: int, day: int)

  predicate ValidDate(d: Date) {
    1 <= d.month <= 12 && 1 <= d.day <= MonthLength(d.year, d.month)
  }

  /** Leap days in the years before y, counted from year 1 (negative for years before it). */
  function LeapDaysBefore(y: int): int {
    (y - 1) / 4 - (y - 1) / 100 + (y - 1) / 400
  }

  /** Closed form: days from 1970-01-01 to January 1 of year y. */
  function DaysBeforeYear(y: int): int {
    365 * (y - 1970) + LeapDaysBefore(y) - LeapDaysBefore(1970)
  }

  /** Days from January 1 to the first of month m. */
  function DaysBeforeMonth(y: int, m: int): int
    requires 1 <= m <= 12
  {
    [0, 31, 59, 90, 120, 151, 181, 212, 243, 273, 304, 334][m - 1] + (if m > 2 && IsLeapYear(y) then 1 else 0)
  }

  /** The epoch day of a date: days since 1970-01-01. */
  function DayNumber(d: Date): int
    requires ValidDate(d)
  {
    DaysBeforeYear(d.year) + DaysBeforeMonth(d.year, d.month) + d.day - 1
  }

  /** The closed form agrees with counting year by year. */
  lemma YearStep(y: int)
    ensures DaysBeforeYear(y + 1) == DaysBeforeYear(y) + YearLength(y)
  {
    var a := if y % 4 == 0 then 1 else 0;
    var b := if y % 100 == 0 then 1 else 0;
    var c := if y % 400 == 0 then 1 else 0;
    assert LeapDaysBefore(y + 1) - LeapDaysBefore(y) == a - b + c by {
      QuotientStep4(y);
      QuotientStep100(y);
      QuotientStep400(y);
    }
    Divisibility(y);
    assert YearLength(y) == 365 + a - b + c;
  }

  /** A multiple of 400 is a multiple of 100, and a multiple of 100 one of 4. */
  lemma Divisibility(y: int)
    ensures y % 400 == 0 ==> y % 100 == 0
    ensures y % 100 == 0 ==> y % 4 == 0
  {
    if y % 400 == 0 {
      var q := y / 400;
      assert y == 100 * (4 * q);
      MultipleOf100(4 * q);
    }
    if y % 100 == 0 {
      var q := y / 100;
      assert y == 4 * (25 * q);
      MultipleOf4(25 * q);
    }
  }

  lemma MultipleOf100(k: int)
    ensures (100 * k) % 100 == 0
  {
  }

  lemma MultipleOf4(k: int)
    ensures (4 * k) % 4 == 0
  {
  }

  /** Moving from y - 1 to y adds one to the quotient exactly at a multiple of the divisor. */
  lemma QuotientStep4(y: int)
    ensures y / 4 - (y - 1) / 4 == (if y % 4 == 0 then 1 else 0)
  {
  }

  lemma QuotientStep100(y: int)
    ensures y / 100 - (y - 1) / 100 == (if y % 100 == 0 then 1 else 0)
  {
  }

  lemma QuotientStep400(y: int)
    ensures y / 400 - (y - 1) / 400 == (if y % 400 == 0 then 1 else 0)
  {
  }

  lemma MonthStep(y: int, m: int)
    requires 1 <= m <= 12
    ensures m < 12 ==> DaysBeforeMonth(y, m) + MonthLength(y, m) == DaysBeforeMonth(y, m + 1)
    ensures m == 12 ==> DaysBeforeMonth(y, m) + MonthLength(y, m) == YearLength(y)
  {
  }

  /** Walks forward from January 1 of y by n >= 0 days; returns the year and the day of year. */
  function YearForward(y: int, n: int): (r: (int, int))
    requires n >= 0
    ensures r.0 >= y && 0 <= r.1 < YearLength(r.0)
    ensures DaysBeforeYear(r.0) + r.1 == DaysBeforeYear(y) + n
    decreases n
  {
    if n < YearLength(y) then (y, n)
    else YearStep(y); YearForward(y + 1, n - YearLength(y))
  }

  /** Walks back from January 1 of y by -n > 0 days. */
  function YearBackward(y: int, n: int): (r: (int, int))
    requires n < 0
    ensures r.0 < y && 0 <= r.1 < YearLength(r.0)
    ensures DaysBeforeYear(r.0) + r.1 == DaysBeforeYear(y) + n
    decreases -n
  {
    YearStep(y - 1);
    var back := n + YearLength(y - 1);
    if back >= 0 then (y - 1, back) else YearBackward(y - 1, back)
  }

  /** Walks through the months of year y from month m; returns the month and the day of month. */
  function MonthWalk(y: int, m: int, rem: int): (r: (int, int))
    requires 1 <= m <= 12 && 0 <= rem && DaysBeforeMonth(y, m) + rem < YearLength(y)
    ensures m <= r.0 <= 12 && 0 <= r.1 < MonthLength(y, r.0)
    ensures DaysBeforeMonth(y, r.0) + r.1 == DaysBeforeMonth(y, m) + rem
    decreases 12 - m
  {
    MonthStep(y, m);
    if rem < MonthLength(y, m) then (m, rem)
    else MonthWalk(y, m + 1, rem - MonthLength(y, m))
  }

  /** LocalDate.ofEpochDay: the civil date of an epoch day. */
  function CivilFromDays(n: int): (d: Date)
    ensures ValidDate(d) && DayNumber(d) == n
  {
    var yd := if n >= 0 then YearForward(1970, n) else YearBackward(1970, n);
    MonthStep(yd.0, 12);
    var md := MonthWalk(yd.0, 1, yd.1);
    Date(yd.0, md.0, md.1 + 1)
  }

  lemma {:induction false} YearsMonotone(a: int, b: int)
    requires a < b
    ensures DaysBeforeYear(a) + YearLength(a) <= DaysBeforeYear(b)
    decreases b - a
  {
    YearStep(a);
    if a + 1 < b {
      YearsMonotone(a + 1, b);
    }
  }

  /** A valid date's day number falls inside its year and its month. */
  lemma DayNumberBounds(d: Date)
    requires ValidDate(d)
    ensures DaysBeforeYear(d.year) <= DayNumber(d) < DaysBeforeYear(d.year) + YearLength(d.year)
    ensures d.month < 12 ==> DayNumber(d) < DaysBeforeYear(d.year) + DaysBeforeMonth(d.year, d.month + 1)
  {
    MonthStep(d.year, d.month);
    MonthStep(d.year, 12);
  }

  /** Distinct valid dates have distinct day numbers. */
  lemma DayNumberInjective(d1: Date, d2: Date)
    requires ValidDate(d1) && ValidDate(d2) && DayNumber(d1) == DayNumber(d2)
    ensures d1 == d2
  {
    DayNumberBounds(d1);
    DayNumberBounds(d2);
    if d1.year < d2.year {
      YearsMonotone(d1.year, d2.year);
    } else if d2.year < d1.year {
      YearsMonotone(d2.year, d1.year);
    } else {
      var y := d1.year;
      if d1.month < d2.month {
        MonthsMonotone(y, d1.month, d2.month);
      } else if d2.month < d1.month {
        MonthsMonotone(y, d2.month, d1.month);
      }
    }
  }

  lemma {:induction false} MonthsMonotone(y: int, a: int, b: int)
    requires 1 <= a < b <= 12
    ensures DaysBeforeMonth(y, a + 1) <= DaysBeforeMonth(y, b)
    decreases b - a
  {
    if a + 1 < b {
      MonthsMonotone(y, a + 1, b);
      MonthStep(y, a + 1);
    }
  }

  /** The other half of the round trip: every valid date is the civil date of its day number. */
  lemma CivilOfDayNumber(d: Date)
    requires ValidDate(d)
    ensures CivilFromDays(DayNumber(d)) == d
  {
    DayNumberInjective(CivilFromDays(DayNumber(d)), d);
  }

  /** Day of week with Monday as 0; 1970-01-01 was a Thursday. */
  function DayOfWeek(n: int): (w: int)
    ensures 0 <= w < 7
  {
    (n + 3) % 7
  }

  lemma DayOfWeekStep(n: int)
    ensures DayOfWeek(n + 1) == (DayOfWeek(n) + 1) % 7
    ensures DayOfWeek(n - 1) == (DayOfWeek(n) + 6) % 7
  {
    var q, r := (n + 3) / 7, (n + 3) % 7;
    assert n + 3 == 7 * q + r;
    if r == 6 {
      assert n + 4 == 7 * (q + 1) + 0;
    } else {
      assert n + 4 == 7 * q + (r + 1);
    }
    if r == 0 {
      assert n + 2 == 7 * (q - 1) + 6;
    } else {
      assert n + 2 == 7 * q + (r - 1);
    }
  }

  function WeekdayName(w: int): (s: string)
    requires 0 <= w < 7
    ensures |s| == 3 && IsUpper(s[0])
  {
    ["Mon", "Tue", "Wed", "Thu", "Fri", "Sat", "Sun"][w]
  }

  function MonthName(m: int): (s: string)
    requires 1 <= m <= 12
    ensures |s| == 3
  {
    ["Jan", "Feb", "Mar", "Apr", "May", "Jun", "Jul", "Aug", "Sep", "Oct", "Nov", "Dec"][m - 1]
  }

  function Pad4(n: nat): (r: string)
    requires n < 10000
    ensures |r| == 4
  {
    Pad2(n / 100) + Pad2(n % 100)
  }

  /** The "yyyy" field: the year of era (1 - y before year 1), at least four digits, with a '+'
      once it needs more than four. */
  function YearText(y: int): string {
    var yoe: nat := if y >= 1 then y else 1 - y;
    if yoe >= 10000 then "+" + Decimal(yoe) else Pad4(yoe)
  }

  /** The "hh:mm a" part: clock hour of the half-day 01..12, minutes, and the AM/PM marker. */
  function ClockText(minuteOfDay: int): (r: string)
    requires 0 <= minuteOfDay < 1440
    ensures |r| == 8
  {
    var hourOfDay := minuteOfDay / 60;
    var clockHour := if hourOfDay % 12 == 0 then 12 else hourOfDay % 12;
    Pad2(clockHour) + ":" + Pad2(minuteOfDay % 60) + " " + (if hourOfDay < 12 then "AM" else "PM")
  }

  /** The hour field lies in 01..12, reads 12 for hours 0 and 12 of the day, and the marker is AM
      exactly in the first half of the day. */
  lemma ClockFields(minuteOfDay: int)
    requires 0 <= minuteOfDay < 1440
    ensures var r := ClockText(minuteOfDay);
      var h := DigitValue(r[0]) * 10 + DigitValue(r[1]);
      && 1 <= h <= 12
      && (h == 12 <==> minuteOfDay / 60 == 0 || minuteOfDay / 60 == 12)
      && (r[6..] == "AM" <==> minuteOfDay < 720)
      && DigitValue(r[3]) * 10 + DigitValue(r[4]) == minuteOfDay % 60
  {
  }

  /** Instants that java.time can render: within LocalDate's year range. */
  predicate Renderable(t: int) {
    DaysBeforeYear(MinYear) * SecondsPerDay <= t < DaysBeforeYear(MaxYear + 1) * SecondsPerDay
  }

  /** The UTC civil date of an instant. */
  function DateOf(t: int): (d: Date)
    ensures ValidDate(d) && DayNumber(d) == t / SecondsPerDay
  {
    CivilFromDays(t / SecondsPerDay)
  }

  /** toReadable(epoch, timezoneOffset). */
  function ToReadable(epoch: int, timezoneOffset: int): (r: string)
    requires Renderable(epoch + timezoneOffset)
    ensures |r| >= 8 && IsUpper(r[0])
    ensures r[|r| - 8..] == ClockText((epoch + timezoneOffset) % SecondsPerDay / 60)
  {
    var t := epoch + timezoneOffset;
    var day := t / SecondsPerDay;
    var d := DateOf(t);
    var prefix := WeekdayName(DayOfWeek(day)) + ", " + Pad2(d.day) + " " + MonthName(d.month) + " "
                  + YearText(d.year) + " ";
    prefix + ClockText(t % SecondsPerDay / 60)
  }

  /** Only the sum of epoch and offset matters. */
  lemma DependsOnSum(epoch: int, timezoneOffset: int)
    requires Renderable(epoch + timezoneOffset)
    ensures ToReadable(epoch, timezoneOffset) == ToReadable(epoch + timezoneOffset, 0)
  {
  }

  /** The civil date of epoch day 0. */
  lemma EpochDate()
    ensures DateOf(0) == Date(1970, 1, 1)
  {
    assert DayNumber(Date(1970, 1, 1)) == 0 by {
      assert DaysBeforeYear(1970) == 0;
    }
    CivilOfDayNumber(Date(1970, 1, 1));
  }

  lemma EpochClock()
    ensures ClockText(0) == "12:00 AM"
  {
    assert Pad2(12) == "12" && Pad2(0) == "00";
  }

  lemma EpochYear()
    ensures YearText(1970) == "1970"
  {
    assert Pad2(19) == "19" && Pad2(70) == "70";
  }

  /** The epoch itself. */
  lemma EpochRendering()
    ensures ToReadable(0, 0) == "Thu, 01 Jan 1970 12:00 AM"
  {
    EpochDate();
    EpochClock();
    EpochYear();
    var d := DateOf(0);
    assert WeekdayName(DayOfWeek(0)) == "Thu";
    assert Pad2(d.day) == "01";
    assert MonthName(d.month) == "Jan";
    assert ToReadable(0, 0) == "Thu" + ", " + "01" + " " + "Jan" + " " + "1970" + " " + "12:00 AM";
    LayoutOfEpoch();
  }

  lemma LayoutOfEpoch()
    ensures "Thu" + ", " + "01" + " " + "Jan" + " " + "1970" + " " + "12:00 AM" == "Thu, 01 Jan 1970 12:00 AM"
  {
  }

  /** The marker is AM iff the shifted instant lies in the first 43200 seconds of its UTC day. */
  lemma MarkerIsAm(epoch: int, timezoneOffset: int)
    requires Renderable(epoch + timezoneOffset)
    ensures var r := ToReadable(epoch, timezoneOffset);
      r[|r| - 2..] == "AM" <==> (epoch + timezoneOffset) % SecondsPerDay < 43200
  {
    var m := (epoch + timezoneOffset) % SecondsPerDay / 60;
    ClockFields(m);
    var r := ToReadable(epoch, timezoneOffset);
    assert r[|r| - 2..] == ClockText(m)[6..];
  }

  lemma DivOfDiv(t: int)
    ensures t / SecondsPerDay == (t / 60) / 1440
    ensures t % SecondsPerDay / 60 == (t / 60) % 1440
  {
    var q, r := t / 60, t % 60;
    var Q, R := q / 1440, q % 1440;
    assert t == 86400 * Q + (60 * R + r);
    assert 0 <= 60 * R + r < 86400;
  }

  /** Seconds are not rendered: instants in the same UTC minute render alike. */
  lemma SameMinuteSameText(t1: int, t2: int)
    requires Renderable(t1) && Renderable(t2)
    requires t1 / 60 == t2 / 60
    ensures ToReadable(t1, 0) == ToReadable(t2, 0)
  {
    DivOfDiv(t1);
    DivOfDiv(t2);
  }

  lemma NextDay(t: int, offset: int)
    requires 0 <= offset < SecondsPerDay
    requires t % SecondsPerDay + offset >= SecondsPerDay
    ensures (t + offset) / SecondsPerDay == t / SecondsPerDay + 1
  {
    var q, r := t / SecondsPerDay, t % SecondsPerDay;
    assert t + offset == SecondsPerDay * (q + 1) + (r + offset - SecondsPerDay);
  }

  lemma PreviousDay(t: int, offset: int)
    requires -SecondsPerDay < offset < 0
    requires t % SecondsPerDay + offset < 0
    ensures (t + offset) / SecondsPerDay == t / SecondsPerDay - 1
  {
    var q, r := t / SecondsPerDay, t % SecondsPerDay;
    assert t + offset == SecondsPerDay * (q - 1) + (r + offset + SecondsPerDay);
  }

  /** An offset that carries the time past midnight moves the rendered date one day on, and the
      weekday with it. */
  lemma ForwardAcrossMidnight(epoch: int, timezoneOffset: int)
    requires 0 <= timezoneOffset < SecondsPerDay
    requires epoch % SecondsPerDay + timezoneOffset >= SecondsPerDay
    ensures DayNumber(DateOf(epoch + timezoneOffset)) == DayNumber(DateOf(epoch)) + 1
    ensures DayOfWeek((epoch + timezoneOffset) / SecondsPerDay) == (DayOfWeek(epoch / SecondsPerDay) + 1) % 7
  {
    NextDay(epoch, timezoneOffset);
    DayOfWeekStep(epoch / SecondsPerDay);
  }

  /** A negative offset that carries the time back before midnight moves it one day back. */
  lemma BackwardAcrossMidnight(epoch: int, timezoneOffset: int)
    requires -SecondsPerDay < timezoneOffset < 0
    requires epoch % SecondsPerDay + timezoneOffset < 0
    ensures DayNumber(DateOf(epoch + timezoneOffset)) == DayNumber(DateOf(epoch)) - 1
    ensures DayOfWeek((epoch + timezoneOffset) / SecondsPerDay) == (DayOfWeek(epoch / SecondsPerDay) + 6) % 7
  {
    PreviousDay(epoch, timezoneOffset);
    DayOfWeekStep(epoch / SecondsPerDay);
  }
}
