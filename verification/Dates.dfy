/** _temporal_arith_pair of arithmetic_evaluator.py: dates, datetimes and durations. */
module Dates {
  import opened Values

  // ---- The proleptic Gregorian calendar ----

  datatype Date = Date(year: int, month: int, day: int)

  predicate IsLeap(y: int) {
    y % 4 == 0 && (y % 100 != 0 || y % 400 == 0)
  }

  /** `calendar.monthrange(y, m)[1]`. */
  function DaysIn(y: int, m: int): (r: int)
    ensures 28 <= r <= 31
  {
    if m == 2 then (if IsLeap(y) then 29 else 28)
    else if m in {4, 6, 9, 11} then 30
    else 31
  }

  predicate IsDate(d: Date) {
    1 <= d.month <= 12 && 1 <= d.day <= DaysIn(d.year, d.month)
  }

  /** What a date object can hold. */
  predicate InRange(d: Date) {
    1 <= d.year <= 9999
  }

  function DaysBeforeYear(y: int): int {
    365 * (y - 1) + (y - 1) / 4 - (y - 1) / 100 + (y - 1) / 400
  }

  function DaysBeforeMonth(y: int, m: int): (r: int)
    ensures 0 <= r
    decreases m
  {
    if m <= 1 then 0 else DaysBeforeMonth(y, m - 1) + DaysIn(y, m - 1)
  }

  /** `toordinal`. */
  function Ordinal(d: Date): int {
    DaysBeforeYear(d.year) + DaysBeforeMonth(d.year, d.month) + d.day
  }

  function DayAfter(d: Date): Date {
    if d.day < DaysIn(d.year, d.month) then d.(day := d.day + 1)
    else if d.month < 12 then Date(d.year, d.month + 1, 1)
    else Date(d.year + 1, 1, 1)
  }

  function DayBefore(d: Date): Date {
    if d.day > 1 then d.(day := d.day - 1)
    else if d.month > 1 then Date(d.year, d.month - 1, DaysIn(d.year, d.month - 1))
    else Date(d.year - 1, 12, 31)
  }

  function AddDays(d: Date, n: int): Date
    decreases if n < 0 then -n else n
  {
    if n == 0 then d else if n > 0 then DayAfter(AddDays(d, n - 1)) else DayBefore(AddDays(d, n + 1))
  }

  /** Ordinals count from 1 January of year 1; years 1 to 9999 can be held. */
  lemma CalendarOrigin(y: int, d: Date)
    ensures Ordinal(Date(y, 1, 1)) == DaysBeforeYear(y) + 1
    ensures DaysBeforeYear(1) == 0 && DaysBeforeYear(2) == 365 && DaysBeforeYear(1970) == 719_162
    ensures InRange(d) <==> d.year > 0 && d.year < 10_000
  {
    hide DaysBeforeMonth;
    JanuaryFirst(y);
  }

  lemma JanuaryFirst(y: int)
    ensures DaysBeforeMonth(y, 1) == 0
  {}

  lemma FloorStep4(y: int)
    ensures y / 4 - (y - 1) / 4 == if y % 4 == 0 then 1 else 0
  {}

  lemma FloorStep100(y: int)
    ensures y / 100 - (y - 1) / 100 == if y % 100 == 0 then 1 else 0
  {}

  lemma FloorStep400(y: int)
    ensures y / 400 - (y - 1) / 400 == if y % 400 == 0 then 1 else 0
  {}

  lemma LeapFloors(y: int)
    ensures IsLeap(y) <==> y % 4 == 0 && (y % 100 != 0 || y % 400 == 0)
    ensures y % 400 == 0 ==> y % 100 == 0
    ensures y % 100 == 0 ==> y % 4 == 0
  {}

  lemma YearLength(y: int)
    ensures DaysBeforeYear(y + 1) - DaysBeforeYear(y) == if IsLeap(y) then 366 else 365
  {
    hide IsLeap;
    FloorStep4(y);
    FloorStep100(y);
    FloorStep400(y);
    LeapFloors(y);
  }

  lemma MonthsOfYear(y: int)
    ensures DaysBeforeMonth(y, 12) + 31 == if IsLeap(y) then 366 else 365
  {
    assert DaysBeforeMonth(y, 3) == DaysBeforeMonth(y, 2) + DaysIn(y, 2) == 31 + DaysIn(y, 2);
    assert DaysBeforeMonth(y, 5) == DaysBeforeMonth(y, 4) + 30 == DaysBeforeMonth(y, 3) + 61;
    assert DaysBeforeMonth(y, 7) == DaysBeforeMonth(y, 6) + 30 == DaysBeforeMonth(y, 5) + 61;
    assert DaysBeforeMonth(y, 9) == DaysBeforeMonth(y, 8) + 31 == DaysBeforeMonth(y, 7) + 62;
    assert DaysBeforeMonth(y, 11) == DaysBeforeMonth(y, 10) + 31 == DaysBeforeMonth(y, 9) + 61;
    assert DaysBeforeMonth(y, 12) == DaysBeforeMonth(y, 11) + 30;
  }

  lemma DayAfterOrdinal(d: Date)
    requires IsDate(d)
    ensures IsDate(DayAfter(d)) && Ordinal(DayAfter(d)) == Ordinal(d) + 1
  {
    hide DaysBeforeYear, IsLeap;
    if d.day == DaysIn(d.year, d.month) && d.month == 12 {
      YearLength(d.year);
      MonthsOfYear(d.year);
    }
  }

  lemma DayBeforeOrdinal(d: Date)
    requires IsDate(d)
    ensures IsDate(DayBefore(d)) && Ordinal(DayBefore(d)) == Ordinal(d) - 1
  {
    hide DaysBeforeYear, IsLeap;
    if d.day == 1 && d.month == 1 {
      YearLength(d.year - 1);
      MonthsOfYear(d.year - 1);
    }
  }

  lemma {:induction false} AddDaysOrdinal(d: Date, n: int)
    requires IsDate(d)
    ensures IsDate(AddDays(d, n)) && Ordinal(AddDays(d, n)) == Ordinal(d) + n
    decreases if n < 0 then -n else n
  {
    hide Ordinal, DaysIn;
    if n > 0 {
      AddDaysOrdinal(d, n - 1);
      DayAfterOrdinal(AddDays(d, n - 1));
    } else if n < 0 {
      AddDaysOrdinal(d, n + 1);
      DayBeforeOrdinal(AddDays(d, n + 1));
    }
  }

  lemma {:induction false} MonthsInOrder(y: int, m: int, n: int)
    requires 1 <= m < n
    ensures DaysBeforeMonth(y, m) + DaysIn(y, m) <= DaysBeforeMonth(y, n)
    decreases n
  {
    if m < n - 1 {
      MonthsInOrder(y, m, n - 1);
    }
  }

  lemma {:induction false} YearsInOrder(y: int, z: int)
    requires y < z
    ensures DaysBeforeYear(y) + (if IsLeap(y) then 366 else 365) <= DaysBeforeYear(z)
    decreases z - y
  {
    hide DaysBeforeYear, IsLeap;
    YearLength(y);
    if y < z - 1 {
      YearsInOrder(y + 1, z);
    }
  }

  lemma LaterIsLarger(d: Date, e: Date)
    requires IsDate(d) && IsDate(e)
    requires d.year < e.year || (d.year == e.year && (d.month < e.month || (d.month == e.month && d.day < e.day)))
    ensures Ordinal(d) < Ordinal(e)
  {
    hide DaysBeforeYear, IsLeap, DaysBeforeMonth, DaysIn;
    if d.year < e.year {
      YearsInOrder(d.year, e.year);
      MonthsOfYear(d.year);
      if d.month < 12 {
        MonthsInOrder(d.year, d.month, 12);
      }
      assert DaysIn(d.year, 12) == 31 by { DecemberDays(d.year); }
    } else if d.month < e.month {
      MonthsInOrder(d.year, d.month, e.month);
    }
  }

  lemma DecemberDays(y: int)
    ensures DaysIn(y, 12) == 31
  {}

  /** AddDays is the only date so many days away. */
  lemma OrdinalIdentifies(d: Date, e: Date)
    requires IsDate(d) && IsDate(e) && Ordinal(d) == Ordinal(e)
    ensures d == e
  {
    hide Ordinal, DaysIn;
    if d.year < e.year || (d.year == e.year && (d.month < e.month || (d.month == e.month && d.day < e.day))) {
      LaterIsLarger(d, e);
      assert false;
    }
    if e.year < d.year || (e.year == d.year && (e.month < d.month || (e.month == d.month && e.day < d.day))) {
      LaterIsLarger(e, d);
      assert false;
    }
  }

  /** Adding days twice is adding their sum. */
  lemma AddDaysTwice(d: Date, m: int, n: int)
    requires IsDate(d)
    ensures AddDays(AddDays(d, m), n) == AddDays(d, m + n)
  {
    hide Ordinal, IsDate, AddDays;
    AddDaysOrdinal(d, m);
    AddDaysOrdinal(AddDays(d, m), n);
    AddDaysOrdinal(d, m + n);
    OrdinalIdentifies(AddDays(AddDays(d, m), n), AddDays(d, m + n));
  }

  // ---- Month and year arithmetic ----

  function MonthIndex(d: Date): int {
    12 * d.year + d.month - 1
  }

  /** k months later, the day clamped to the end of the month. Python's floor division and modulus agree with Dafny's
      for 12. */
  function AddMonths(d: Date, k: int): Date {
    var total := d.month + k;
    var year, month := d.year + (total - 1) / 12, (total - 1) % 12 + 1;
    var last := DaysIn(year, month);
    Date(year, month, if d.day <= last then d.day else last)
  }

  /** The last day of the month k months on. */
  function LastDay(d: Date, k: int): int {
    DaysIn(d.year + (d.month + k - 1) / 12, (d.month + k - 1) % 12 + 1)
  }

  /** The month moves by exactly k, and the day is the same unless the month is too short for it. */
  lemma AddMonthsMeaning(d: Date, k: int)
    requires IsDate(d)
    ensures IsDate(AddMonths(d, k)) && MonthIndex(AddMonths(d, k)) == MonthIndex(d) + k
    ensures AddMonths(d, k).day <= d.day
    ensures AddMonths(d, k).day == d.day <==> d.day <= LastDay(d, k)
    ensures AddMonths(d, k).day < d.day ==> AddMonths(d, k).day == DaysIn(AddMonths(d, k).year, AddMonths(d, k).month)
  {
    var total := d.month + k - 1;
    assert total == 12 * (total / 12) + total % 12;
  }

  lemma SameMonth(d: Date, e: Date)
    requires 1 <= d.month <= 12 && 1 <= e.month <= 12 && MonthIndex(d) == MonthIndex(e)
    ensures d.year == e.year && d.month == e.month
  {}

  /** Months added and taken away again return the date exactly when nothing was clamped on the way. */
  lemma MonthsRoundTripIff(d: Date, k: int)
    requires IsDate(d)
    ensures AddMonths(AddMonths(d, k), -k) == d <==> d.day <= LastDay(d, k)
  {
    hide AddMonths, MonthIndex, LastDay, DaysIn;
    var e := AddMonths(d, k);
    var b := AddMonths(e, -k);
    AddMonthsMeaning(d, k);
    AddMonthsMeaning(e, -k);
    SameMonth(b, d);
    LastDayAt(e, -k);
  }

  lemma LastDayAt(d: Date, k: int)
    requires IsDate(d)
    ensures LastDay(d, k) == DaysIn(AddMonths(d, k).year, AddMonths(d, k).month)
  {}

  /** Two steps agree with one exactly when the month between is long enough for the final day. */
  lemma MonthsAdditiveIff(d: Date, j: int, k: int)
    requires IsDate(d)
    ensures AddMonths(AddMonths(d, j), k) == AddMonths(d, j + k)
            <==> d.day <= LastDay(d, j) || LastDay(d, j + k) <= LastDay(d, j)
  {
    hide MonthIndex, DaysIn, AddMonths, LastDay;
    var e := AddMonths(d, j);
    AddMonthsMeaning(d, j);
    AddMonthsMeaning(e, k);
    AddMonthsMeaning(d, j + k);
    SameMonth(AddMonths(e, k), AddMonths(d, j + k));
    LastDayAt(d, j);
    LastDayAt(e, k);
    LastDayAt(d, j + k);
    AddMonthsDay(d, j);
    AddMonthsDay(e, k);
    AddMonthsDay(d, j + k);
  }

  lemma AddMonthsDay(d: Date, k: int)
    ensures AddMonths(d, k).day == if d.day <= LastDay(d, k) then d.day else LastDay(d, k)
  {}

  // ---- Durations ----

  datatype Duration = Duration(years: int, months: int, weeks: int, days: int, hours: int, minutes: int, seconds: int,
                               milliseconds: int, microseconds: int, nanoseconds: int)

  const MICROS_PER_DAY: int := 86_400_000_000

  function Months(u: Duration): int {
    u.months + 12 * u.years
  }

  /** The timedelta built from a duration, in microseconds; nanoseconds are not part of it. */
  function Micros(u: Duration): int {
    (u.days + 7 * u.weeks) * MICROS_PER_DAY + u.hours * 3_600_000_000 + u.minutes * 60_000_000
    + u.seconds * 1_000_000 + u.milliseconds * 1000 + u.microseconds
  }

  /** A year is twelve months; weeks, days, hours and the rest are what they are of the next smaller unit; months and
      time are apart from each other; a nanosecond is nothing. */
  lemma DurationUnits(u: Duration, n: int)
    ensures Months(u.(years := u.years + n)) == Months(u.(months := u.months + 12 * n)) == Months(u) + 12 * n
    ensures Micros(u.(weeks := u.weeks + n)) == Micros(u.(days := u.days + 7 * n))
    ensures Micros(u.(days := u.days + n)) == Micros(u.(hours := u.hours + 24 * n))
    ensures Micros(u.(hours := u.hours + n)) == Micros(u.(minutes := u.minutes + 60 * n))
    ensures Micros(u.(minutes := u.minutes + n)) == Micros(u.(seconds := u.seconds + 60 * n))
    ensures Micros(u.(seconds := u.seconds + n)) == Micros(u.(milliseconds := u.milliseconds + 1000 * n))
    ensures Micros(u.(milliseconds := u.milliseconds + n)) == Micros(u.(microseconds := u.microseconds + 1000 * n))
    ensures Micros(u.(microseconds := u.microseconds + n)) == Micros(u) + n
    ensures Micros(u.(nanoseconds := n, years := n, months := n)) == Micros(u)
    ensures Months(u.(nanoseconds := n, weeks := n, days := n, hours := n, minutes := n, seconds := n)) == Months(u)
    ensures Micros(Duration(0, 0, 0, 0, 0, 0, 0, 0, 0, 0)) == Months(Duration(0, 0, 0, 0, 0, 0, 0, 0, 0, 0)) == 0
  {}

  datatype DateTime = DateTime(date: Date, micros: int)

  predicate IsDateTime(t: DateTime) {
    IsDate(t.date) && 0 <= t.micros < MICROS_PER_DAY
  }

  function Checked(d: Date): Res<Date> {
    if InRange(d) then Ok(d) else Err
  }

  /** _apply_duration_to_date: a date plus a timedelta moves by the timedelta's whole days, rounded down. */
  function ApplyToDate(d: Date, u: Duration, sign: int): Res<Date> {
    var moved :- Checked(AddMonths(d, sign * Months(u)));
    Checked(AddDays(moved, sign * Micros(u) / MICROS_PER_DAY))
  }

  function ApplyToDateTime(t: DateTime, u: Duration, sign: int): Res<DateTime> {
    var moved :- Checked(AddMonths(t.date, sign * Months(u)));
    var micros := t.micros + sign * Micros(u);
    var date :- Checked(AddDays(moved, micros / MICROS_PER_DAY));
    Ok(DateTime(date, micros % MICROS_PER_DAY))
  }

  /** A date plus or minus a duration fails exactly when the month step or the day step after it leaves years 1 to
      9999. */
  lemma ApplyFailsIff(d: Date, u: Duration, sign: int)
    ensures var moved := AddMonths(d, sign * Months(u));
            var result := AddDays(moved, sign * Micros(u) / MICROS_PER_DAY);
            && (ApplyToDate(d, u, sign).Err?
                <==> moved.year < 1 || moved.year > 9999 || result.year < 1 || result.year > 9999)
            && (ApplyToDate(d, u, sign).Ok? ==> ApplyToDate(d, u, sign) == Ok(result))
  {
    hide AddMonths, AddDays, Months, Micros;
  }

  /** date + u - u, for a duration without months, is the date again exactly when u is a whole number of days. */
  lemma DateRoundTripIff(d: Date, u: Duration)
    requires IsDate(d) && InRange(d) && Months(u) == 0
    requires ApplyToDate(d, u, 1).Ok?
    ensures ApplyToDate(ApplyToDate(d, u, 1).value, u, -1) == Ok(d) <==> Micros(u) % MICROS_PER_DAY == 0
  {
    hide Months, Micros, Ordinal, AddDays, DaysIn;
    var n, back := Micros(u) / MICROS_PER_DAY, -Micros(u) / MICROS_PER_DAY;
    NoMonths(d);
    AddDaysOrdinal(d, n);
    var e := AddDays(d, n);
    assert ApplyToDate(d, u, 1) == Ok(e) by {
      assert 1 * Months(u) == 0 && 1 * Micros(u) == Micros(u);
    }
    NoMonths(e);
    AddDaysOrdinal(e, back);
    assert ApplyToDate(e, u, -1) == Checked(AddDays(e, back)) by {
      assert -1 * Months(u) == 0 && -1 * Micros(u) == -Micros(u);
    }
    assert n + back == 0 <==> Micros(u) % MICROS_PER_DAY == 0;
    if n + back == 0 {
      OrdinalIdentifies(AddDays(e, back), d);
    }
  }

  lemma NoMonths(d: Date)
    requires IsDate(d)
    ensures AddMonths(d, 0) == d
  {}

  /** A datetime loses nothing: t + u - u is t for every duration without months. */
  lemma DateTimeRoundTrip(t: DateTime, u: Duration)
    requires IsDateTime(t) && InRange(t.date) && Months(u) == 0
    requires ApplyToDateTime(t, u, 1).Ok?
    ensures ApplyToDateTime(ApplyToDateTime(t, u, 1).value, u, -1) == Ok(t)
  {
    hide Months, Micros, Ordinal, AddDays, DaysIn;
    var micros := t.micros + Micros(u);
    var n, m := micros / MICROS_PER_DAY, micros % MICROS_PER_DAY;
    NoMonths(t.date);
    AddDaysOrdinal(t.date, n);
    var date := AddDays(t.date, n);
    assert 1 * Months(u) == 0 && 1 * Micros(u) == Micros(u);
    assert ApplyToDateTime(t, u, 1) == Ok(DateTime(date, m));
    NoMonths(date);
    assert -1 * Months(u) == 0 && -1 * Micros(u) == -Micros(u);
    assert (m - Micros(u)) / MICROS_PER_DAY == -n && (m - Micros(u)) % MICROS_PER_DAY == t.micros;
    AddDaysTwice(t.date, n, -n);
    assert AddDays(t.date, 0) == t.date by { NoDays(t.date); }
  }

  // ---- Months and days together ----

  /** How far a date moves in whole days, and back. */
  function DaysForth(u: Duration): int {
    Micros(u) / MICROS_PER_DAY
  }

  function DaysBack(u: Duration): int {
    -Micros(u) / MICROS_PER_DAY
  }

  lemma ThereAndBack(u: Duration)
    ensures DaysForth(u) + DaysBack(u) == if Micros(u) % MICROS_PER_DAY == 0 then 0 else -1
  {}

  /** Month number i, counted as MonthIndex counts: its length, and the ordinal of the day before its first. */
  function MonthLength(i: int): int {
    DaysIn(i / 12, i % 12 + 1)
  }

  function DaysBefore(i: int): int {
    DaysBeforeYear(i / 12) + DaysBeforeMonth(i / 12, i % 12 + 1)
  }

  lemma NextMonth(i: int)
    ensures DaysBefore(i + 1) == DaysBefore(i) + MonthLength(i)
  {
    hide DaysBeforeYear, IsLeap, DaysIn;
    if i % 12 == 11 {
      assert (i + 1) / 12 == i / 12 + 1 && (i + 1) % 12 == 0;
      YearLength(i / 12);
      MonthsOfYear(i / 12);
      DecemberDays(i / 12);
    } else {
      assert (i + 1) / 12 == i / 12 && (i + 1) % 12 == i % 12 + 1;
    }
  }

  /** The total length of j months from month i on, counted backwards and negative for a negative j. */
  function MonthSpan(i: int, j: int): int
    decreases if j < 0 then -j else j
  {
    if j == 0 then 0
    else if j > 0 then MonthSpan(i, j - 1) + MonthLength(i + j - 1)
    else MonthSpan(i, j + 1) - MonthLength(i + j)
  }

  lemma {:induction false} MonthSpanIs(i: int, j: int)
    ensures MonthSpan(i, j) == DaysBefore(i + j) - DaysBefore(i)
    decreases if j < 0 then -j else j
  {
    hide DaysBefore, MonthLength;
    if j > 0 {
      MonthSpanIs(i, j - 1);
      NextMonth(i + j - 1);
    } else if j < 0 {
      MonthSpanIs(i, j + 1);
      NextMonth(i + j);
    }
  }

  lemma OrdinalInMonth(d: Date)
    requires IsDate(d)
    ensures Ordinal(d) == DaysBefore(MonthIndex(d)) + d.day
  {
    hide DaysBeforeYear, DaysBeforeMonth, DaysIn;
    assert MonthIndex(d) / 12 == d.year && MonthIndex(d) % 12 == d.month - 1;
  }

  /** The days that clamping takes off the date. */
  function Clamped(d: Date, k: int): int {
    d.day - AddMonths(d, k).day
  }

  /** How many month ends the days cross after the months have been added. */
  function Crossed(d: Date, e: Date, k: int): int {
    MonthIndex(e) - MonthIndex(d) - k
  }

  /** k months and n days on to e, then k months and m days back: the date again exactly when the months crossed on the
      way back are longer than those crossed on the way out by the days clamped off, there and back, and the days not
      walked back. */
  lemma ReturnIff(d: Date, k: int, n: int, m: int)
    requires IsDate(d)
    ensures var e := AddDays(AddMonths(d, k), n);
            var j := Crossed(d, e, k);
            IsDate(e) && (AddDays(AddMonths(e, -k), m) == d
            <==> MonthSpan(MonthIndex(d), j) - MonthSpan(MonthIndex(d) + k, j)
                 == Clamped(d, k) + Clamped(e, -k) - n - m)
  {
    hide AddMonths, MonthIndex, DaysIn, AddDays, Ordinal, IsDate, MonthSpan, DaysBefore;
    AddMonthsMeaning(d, k);
    var moved := AddMonths(d, k);
    AddDaysOrdinal(moved, n);
    var e := AddDays(moved, n);
    var j := Crossed(d, e, k);
    AddMonthsMeaning(e, -k);
    var b := AddMonths(e, -k);
    AddDaysOrdinal(b, m);
    OrdinalInMonth(d);
    OrdinalInMonth(moved);
    OrdinalInMonth(e);
    OrdinalInMonth(b);
    MonthSpanIs(MonthIndex(d), j);
    MonthSpanIs(MonthIndex(d) + k, j);
    if Ordinal(AddDays(b, m)) == Ordinal(d) {
      OrdinalIdentifies(AddDays(b, m), d);
    }
  }

  /** date + u - u for any duration: the date again exactly when the way back stays in range and the months crossed
      differ in length by the days lost to clamping and, unless u's time is whole days, to rounding. */
  lemma DateRoundTripWithMonthsIff(d: Date, u: Duration)
    requires IsDate(d) && InRange(d) && ApplyToDate(d, u, 1).Ok?
    ensures var e, k := ApplyToDate(d, u, 1).value, Months(u);
            var j := Crossed(d, e, k);
            ApplyToDate(e, u, -1) == Ok(d)
            <==> InRange(AddMonths(e, -k))
                 && MonthSpan(MonthIndex(d), j) - MonthSpan(MonthIndex(d) + k, j)
                    == Clamped(d, k) + Clamped(e, -k) + (if Micros(u) % MICROS_PER_DAY == 0 then 0 else 1)
  {
    hide AddMonths, MonthIndex, AddDays, Months, Micros, MonthSpan, Clamped, Crossed;
    var k, n, m := Months(u), DaysForth(u), DaysBack(u);
    ThereAndBack(u);
    assert 1 * k == k && -1 * k == -k && 1 * Micros(u) == Micros(u) && -1 * Micros(u) == -Micros(u);
    ReturnIff(d, k, n, m);
    var e := AddDays(AddMonths(d, k), n);
    assert ApplyToDate(d, u, 1) == Ok(e);
  }

  /** The same for a datetime, which has nothing to round. */
  lemma DateTimeRoundTripWithMonthsIff(t: DateTime, u: Duration)
    requires IsDateTime(t) && InRange(t.date) && ApplyToDateTime(t, u, 1).Ok?
    ensures var d, e, k := t.date, ApplyToDateTime(t, u, 1).value.date, Months(u);
            var j := Crossed(d, e, k);
            ApplyToDateTime(ApplyToDateTime(t, u, 1).value, u, -1) == Ok(t)
            <==> InRange(AddMonths(e, -k))
                 && MonthSpan(MonthIndex(d), j) - MonthSpan(MonthIndex(d) + k, j) == Clamped(d, k) + Clamped(e, -k)
  {
    hide AddMonths, MonthIndex, AddDays, Months, Micros, MonthSpan, Clamped, Crossed;
    var d, k, total := t.date, Months(u), t.micros + Micros(u);
    var n, rest := total / MICROS_PER_DAY, total % MICROS_PER_DAY;
    assert 1 * k == k && -1 * k == -k && 1 * Micros(u) == Micros(u) && -1 * Micros(u) == -Micros(u);
    ReturnIff(d, k, n, -n);
    var e := AddDays(AddMonths(d, k), n);
    assert ApplyToDateTime(t, u, 1) == Ok(DateTime(e, rest));
    assert (rest - Micros(u)) / MICROS_PER_DAY == -n && (rest - Micros(u)) % MICROS_PER_DAY == t.micros;
  }

  /** When the days stay in the month reached, that is: whole days, and both months long enough for the day they are
      given. */
  lemma WithinMonthReturnIff(d: Date, u: Duration)
    requires IsDate(d) && InRange(d) && ApplyToDate(d, u, 1).Ok?
    requires Crossed(d, ApplyToDate(d, u, 1).value, Months(u)) == 0
    ensures ApplyToDate(ApplyToDate(d, u, 1).value, u, -1) == Ok(d)
            <==> Micros(u) % MICROS_PER_DAY == 0 && d.day <= LastDay(d, Months(u))
                 && ApplyToDate(d, u, 1).value.day <= DaysIn(d.year, d.month)
  {
    hide AddMonths, MonthIndex, AddDays, Months, Micros, DaysIn, ApplyToDate, LastDay;
    var e, k := ApplyToDate(d, u, 1).value, Months(u);
    DateRoundTripWithMonthsIff(d, u);
    AppliedIsDate(d, u);
    AddMonthsMeaning(d, k);
    AddMonthsMeaning(e, -k);
    SameMonth(AddMonths(e, -k), d);
    LastDayAt(e, -k);
  }

  lemma AppliedIsDate(d: Date, u: Duration)
    requires IsDate(d) && ApplyToDate(d, u, 1).Ok?
    ensures IsDate(ApplyToDate(d, u, 1).value)
  {
    hide AddMonths, AddDays, Months, Micros, DaysIn, IsDate, Ordinal;
    AddMonthsMeaning(d, 1 * Months(u));
    AddDaysOrdinal(AddMonths(d, 1 * Months(u)), 1 * Micros(u) / MICROS_PER_DAY);
  }

  lemma EarlyOrdinals()
    ensures Ordinal(Date(2023, 3, 5)) == Ordinal(Date(2023, 2, 28)) + 5
    ensures Ordinal(Date(2023, 1, 31)) == Ordinal(Date(2023, 2, 5)) - 5
  {
    hide DaysBeforeYear;
    assert DaysIn(2023, 1) == 31 && DaysIn(2023, 2) == 28;
    assert DaysBeforeMonth(2023, 2) == 31;
    assert DaysBeforeMonth(2023, 3) == 59;
  }

  lemma MonthAndFiveDays()
    ensures var u := Zero().(months := 1, days := 5);
            Months(u) == 1 && Micros(u) / MICROS_PER_DAY == 5 && -Micros(u) / MICROS_PER_DAY == -5
  {}

  lemma MonthOnAndBack()
    ensures AddMonths(Date(2023, 1, 31), 1) == Date(2023, 2, 28) && AddMonths(Date(2023, 3, 5), -1) == Date(2023, 2, 5)
  {}

  lemma FourDates()
    ensures IsDate(Date(2023, 2, 28)) && IsDate(Date(2023, 2, 5)) && IsDate(Date(2023, 3, 5))
            && IsDate(Date(2023, 1, 31))
  {}

  /** 31 January 2023, plus a month and five days, is 5 March; taken away again they lead back although February
      clamped. */
  lemma ClampUndone()
    ensures var d, u := Date(2023, 1, 31), Zero().(months := 1, days := 5);
            ApplyToDate(d, u, 1) == Ok(Date(2023, 3, 5)) && ApplyToDate(Date(2023, 3, 5), u, -1) == Ok(d)
  {
    hide AddDays, Ordinal, AddMonths, Months, Micros, DaysIn, IsDate, Zero;
    var u := Zero().(months := 1, days := 5);
    MonthAndFiveDays();
    MonthOnAndBack();
    FourDates();
    assert 1 * Months(u) == 1 && -1 * Months(u) == -1 && 1 * Micros(u) == Micros(u) && -1 * Micros(u) == -Micros(u);
    EarlyOrdinals();
    AddDaysOrdinal(Date(2023, 2, 28), 5);
    AddDaysOrdinal(Date(2023, 2, 5), -5);
    OrdinalIdentifies(AddDays(Date(2023, 2, 28), 5), Date(2023, 3, 5));
    OrdinalIdentifies(AddDays(Date(2023, 2, 5), -5), Date(2023, 1, 31));
  }

  lemma NoDays(d: Date)
    ensures AddDays(d, 0) == d
  {}

  // ---- The dispatch on operand kinds ----

  datatype Temporal = Nothing | OfDate(d: Date) | OfDateTime(t: DateTime) | OfDuration(u: Duration) | Other

  function Zero(): Duration {
    Duration(0, 0, 0, 0, 0, 0, 0, 0, 0, 0)
  }

  /** A timedelta as a duration: whole days, then seconds and microseconds of the rest. */
  function DeltaToDuration(micros: int): Duration {
    Zero().(days := micros / MICROS_PER_DAY,
            seconds := micros % MICROS_PER_DAY / 1_000_000,
            microseconds := micros % 1_000_000)
  }

  function Combine(a: Duration, b: Duration, sign: int): Duration {
    Duration(a.years + sign * b.years, a.months + sign * b.months, a.weeks + sign * b.weeks, a.days + sign * b.days,
             a.hours + sign * b.hours, a.minutes + sign * b.minutes, a.seconds + sign * b.seconds,
             a.milliseconds + sign * b.milliseconds, a.microseconds + sign * b.microseconds,
             a.nanoseconds + sign * b.nanoseconds)
  }

  function SinceEpoch(t: DateTime): int {
    Ordinal(t.date) * MICROS_PER_DAY + t.micros
  }

  /** One row of temporal arithmetic; any operator but + subtracts a duration. */
  function TemporalPair(op: string, left: Temporal, right: Temporal): Res<Temporal> {
    var sign := if op == "+" then 1 else -1;
    if left.Nothing? || right.Nothing? then Ok(Nothing)
    else match (left, right)
      case (OfDate(d), OfDuration(u)) => var r :- ApplyToDate(d, u, sign); Ok(OfDate(r))
      case (OfDuration(u), OfDate(d)) => if op != "+" then Err else var r :- ApplyToDate(d, u, 1); Ok(OfDate(r))
      case (OfDate(d), OfDate(e)) =>
        if op != "-" then Err else Ok(OfDuration(DeltaToDuration((Ordinal(d) - Ordinal(e)) * MICROS_PER_DAY)))
      case (OfDateTime(t), OfDuration(u)) => var r :- ApplyToDateTime(t, u, sign); Ok(OfDateTime(r))
      case (OfDuration(u), OfDateTime(t)) =>
        if op != "+" then Err else var r :- ApplyToDateTime(t, u, 1); Ok(OfDateTime(r))
      case (OfDateTime(t), OfDateTime(s)) =>
        if op != "-" then Err else Ok(OfDuration(DeltaToDuration(SinceEpoch(t) - SinceEpoch(s))))
      case (OfDuration(u), OfDuration(v)) => Ok(OfDuration(Combine(u, v, sign)))
      case _ => Err
  }

  /** Which kinds go together: null spreads; a date or datetime takes a duration on either side of +, and on the right
      of anything else to be subtracted; two dates or two datetimes only differ; durations add or subtract; all else
      fails. */
  lemma DispatchMeaning(op: string, a: Temporal, b: Temporal, d: Date, t: DateTime, u: Duration, v: Duration)
    ensures a.Nothing? || b.Nothing? ==> TemporalPair(op, a, b) == Ok(Nothing)
    ensures TemporalPair("+", OfDate(d), OfDuration(u)) == TemporalPair("+", OfDuration(u), OfDate(d))
            == if ApplyToDate(d, u, 1).Ok? then Ok(OfDate(ApplyToDate(d, u, 1).value)) else Err
    ensures op != "+" ==>
              TemporalPair(op, OfDate(d), OfDuration(u))
              == if ApplyToDate(d, u, -1).Ok? then Ok(OfDate(ApplyToDate(d, u, -1).value)) else Err
    ensures TemporalPair("+", OfDateTime(t), OfDuration(u)) == TemporalPair("+", OfDuration(u), OfDateTime(t))
            == if ApplyToDateTime(t, u, 1).Ok? then Ok(OfDateTime(ApplyToDateTime(t, u, 1).value)) else Err
    ensures op != "+" ==>
              TemporalPair(op, OfDateTime(t), OfDuration(u))
              == if ApplyToDateTime(t, u, -1).Ok? then Ok(OfDateTime(ApplyToDateTime(t, u, -1).value)) else Err
    ensures op != "+" && a.OfDuration? && (b.OfDate? || b.OfDateTime?) ==> TemporalPair(op, a, b).Err?
    ensures op != "-" && ((a.OfDate? && b.OfDate?) || (a.OfDateTime? && b.OfDateTime?)) ==> TemporalPair(op, a, b).Err?
    ensures (a.OfDate? && b.OfDateTime?) || (a.OfDateTime? && b.OfDate?) ==> TemporalPair(op, a, b).Err?
    ensures (a.Other? && !b.Nothing?) || (b.Other? && !a.Nothing?) ==> TemporalPair(op, a, b).Err?
    ensures TemporalPair(op, OfDuration(u), OfDuration(v)).Ok?
  {
    hide ApplyToDate, ApplyToDateTime;
  }

  lemma DeltaMicros(micros: int)
    ensures Micros(DeltaToDuration(micros)) == micros && Months(DeltaToDuration(micros)) == 0
  {
    var rest := micros % MICROS_PER_DAY;
    assert rest % 1_000_000 == micros % 1_000_000 by {
      assert micros == (micros / MICROS_PER_DAY) * 86_400 * 1_000_000 + rest;
    }
  }

  /** e + (d - e) is d, for dates ... */
  lemma DateDifference(d: Date, e: Date)
    requires IsDate(d) && IsDate(e) && InRange(d) && InRange(e)
    ensures var diff := TemporalPair("-", OfDate(d), OfDate(e));
            diff.Ok? && TemporalPair("+", OfDate(e), diff.value) == Ok(OfDate(d))
  {
    hide Ordinal, AddDays, DaysIn, Micros, Months, DeltaToDuration;
    var n := Ordinal(d) - Ordinal(e);
    var u := DeltaToDuration(n * MICROS_PER_DAY);
    DeltaMicros(n * MICROS_PER_DAY);
    NoMonths(e);
    AddDaysOrdinal(e, n);
    OrdinalIdentifies(AddDays(e, n), d);
    assert 1 * Months(u) == 0 && 1 * Micros(u) / MICROS_PER_DAY == n;
    assert ApplyToDate(e, u, 1) == Ok(d);
  }

  /** ... and for datetimes. */
  lemma DateTimeDifference(t: DateTime, s: DateTime)
    requires IsDateTime(t) && IsDateTime(s) && InRange(t.date) && InRange(s.date)
    ensures var diff := TemporalPair("-", OfDateTime(t), OfDateTime(s));
            diff.Ok? && TemporalPair("+", OfDateTime(s), diff.value) == Ok(OfDateTime(t))
  {
    hide Ordinal, AddDays, DaysIn, Micros, Months, DeltaToDuration;
    var n := Ordinal(t.date) - Ordinal(s.date);
    var micros := SinceEpoch(t) - SinceEpoch(s);
    var u := DeltaToDuration(micros);
    DeltaMicros(micros);
    NoMonths(s.date);
    AddDaysOrdinal(s.date, n);
    OrdinalIdentifies(AddDays(s.date, n), t.date);
    assert 1 * Months(u) == 0 && 1 * Micros(u) == micros;
    assert s.micros + micros == n * MICROS_PER_DAY + t.micros;
    assert ApplyToDateTime(s, u, 1) == Ok(t);
  }

  /** u + v - v is u and u + v is v + u, for durations taken through the dispatch. */
  lemma DurationRoundTrip(u: Duration, v: Duration)
    ensures TemporalPair("+", OfDuration(u), OfDuration(v)) == TemporalPair("+", OfDuration(v), OfDuration(u))
    ensures var sum := TemporalPair("+", OfDuration(u), OfDuration(v));
            sum.Ok? && TemporalPair("-", sum.value, OfDuration(v)) == Ok(OfDuration(u))
  {}
}
