/** Calendar conversion of `kernel-core/src/time.rs`. */
module Calendar {
  import opened Limits

  const EPOCH_YEAR: nat := 1970
  const SECONDS_PER_DAY: nat := 86400

  datatype DateTime = DateTime(year: nat, month: nat, day: nat, hour: nat, minute: nat, second: nat, weekday: nat)

  predicate IsLeapYear(year: nat) {
    (year % 4 == 0 && year % 100 != 0) || year % 400 == 0
  }

  function DaysInMonth(year: nat, month: nat): nat
    requires 1 <= month <= 12
  {
    if month == 2 then (if IsLeapYear(year) then 29 else 28)
    else if month == 4 || month == 6 || month == 9 || month == 11 then 30
    else 31
  }

  function DaysInYear(year: nat): nat {
    if IsLeapYear(year) then 366 else 365
  }

  /** Days from the epoch to the start of `year`; none for years before it. */
  function DaysBeforeYear(year: nat): nat {
    if year <= EPOCH_YEAR then 0 else DaysBeforeYear(year - 1) + DaysInYear(year - 1)
  }

  /** Days from the start of the year to the start of `month`. */
  function DaysBeforeMonth(year: nat, month: nat): nat
    requires month <= 13
  {
    if month <= 1 then 0 else DaysBeforeMonth(year, month - 1) + DaysInMonth(year, month - 1)
  }

  /** The twelve months make up the year. */
  lemma MonthsMakeYear(year: nat)
    ensures DaysBeforeMonth(year, 13) == DaysInYear(year)
  {
    assert DaysBeforeMonth(year, 1) == 0;
    assert DaysBeforeMonth(year, 3) == 31 + DaysInMonth(year, 2);
    assert DaysBeforeMonth(year, 5) == DaysBeforeMonth(year, 3) + 61;
    assert DaysBeforeMonth(year, 7) == DaysBeforeMonth(year, 5) + 61;
    assert DaysBeforeMonth(year, 9) == DaysBeforeMonth(year, 7) + 62;
    assert DaysBeforeMonth(year, 11) == DaysBeforeMonth(year, 9) + 61;
  }

  /** The day of the year on which each month starts. */
  lemma MonthStarts(year: nat)
    ensures var leap := if IsLeapYear(year) then 1 else 0;
      forall m | 1 <= m <= 12 ::
        DaysBeforeMonth(year, m) ==
        [0, 31, 59, 90, 120, 151, 181, 212, 243, 273, 304, 334][m - 1] + if m >= 3 then leap else 0
  {
    assert DaysBeforeMonth(year, 1) == 0;
    assert DaysBeforeMonth(year, 2) == 31;
    assert DaysBeforeMonth(year, 3) == 31 + DaysInMonth(year, 2);
    assert DaysBeforeMonth(year, 4) == DaysBeforeMonth(year, 3) + 31;
    assert DaysBeforeMonth(year, 5) == DaysBeforeMonth(year, 4) + 30;
    assert DaysBeforeMonth(year, 6) == DaysBeforeMonth(year, 5) + 31;
    assert DaysBeforeMonth(year, 7) == DaysBeforeMonth(year, 6) + 30;
    assert DaysBeforeMonth(year, 8) == DaysBeforeMonth(year, 7) + 31;
    assert DaysBeforeMonth(year, 9) == DaysBeforeMonth(year, 8) + 31;
    assert DaysBeforeMonth(year, 10) == DaysBeforeMonth(year, 9) + 30;
    assert DaysBeforeMonth(year, 11) == DaysBeforeMonth(year, 10) + 31;
    assert DaysBeforeMonth(year, 12) == DaysBeforeMonth(year, 11) + 30;
  }

  predicate ValidDate(d: DateTime) {
    && EPOCH_YEAR <= d.year
    && 1 <= d.month <= 12
    && 1 <= d.day <= DaysInMonth(d.year, d.month)
    && d.hour < 24 && d.minute < 60 && d.second < 60
  }

  function DayNumber(year: nat, month: nat, day: nat): nat
    requires month <= 13 && day >= 1
  {
    DaysBeforeYear(year) + DaysBeforeMonth(year, month) + (day - 1)
  }

  function Timestamp(d: DateTime): nat
    requires d.month <= 13 && d.day >= 1
  {
    DayNumber(d.year, d.month, d.day) * SECONDS_PER_DAY + d.hour * 3600 + d.minute * 60 + d.second
  }

  /** Date and time without the weekday. */
  predicate SameMoment(a: DateTime, b: DateTime) {
    a.year == b.year && a.month == b.month && a.day == b.day && a.hour == b.hour && a.minute == b.minute && a.second == b.second
  }

  // ---- order ----

  lemma {:induction false} YearsMonotone(a: nat, b: nat)
    requires EPOCH_YEAR <= a < b
    ensures DaysBeforeYear(a) + DaysInYear(a) <= DaysBeforeYear(b)
    decreases b - a
  {
    if a + 1 < b {
      YearsMonotone(a, b - 1);
    }
  }

  lemma {:induction false} MonthsMonotone(year: nat, a: nat, b: nat)
    requires 1 <= a < b <= 13
    ensures DaysBeforeMonth(year, a) + DaysInMonth(year, a) <= DaysBeforeMonth(year, b)
    decreases b - a
  {
    if a + 1 < b {
      MonthsMonotone(year, a, b - 1);
    }
  }

  predicate DayLess(a: DateTime, b: DateTime) {
    a.year < b.year || (a.year == b.year && (a.month < b.month || (a.month == b.month && a.day < b.day)))
  }

  /** Lexicographic order on year, month, day, hour, minute, second. */
  predicate Less(a: DateTime, b: DateTime) {
    || DayLess(a, b)
    || (!DayLess(b, a) && (a.hour < b.hour || (a.hour == b.hour &&
          (a.minute < b.minute || (a.minute == b.minute && a.second < b.second)))))
  }

  lemma DayInYear(d: DateTime)
    requires ValidDate(d)
    ensures DaysBeforeMonth(d.year, d.month) + (d.day - 1) < DaysInYear(d.year)
  {
    MonthsMakeYear(d.year);
    MonthsMonotone(d.year, d.month, 13);
  }

  lemma DaysIncrease(a: DateTime, b: DateTime)
    requires ValidDate(a) && ValidDate(b) && DayLess(a, b)
    ensures DayNumber(a.year, a.month, a.day) < DayNumber(b.year, b.month, b.day)
  {
    if a.year < b.year {
      YearsMonotone(a.year, b.year);
      DayInYear(a);
    } else if a.month < b.month {
      MonthsMonotone(a.year, a.month, b.month);
    }
  }

  lemma LaterIsLarger(a: DateTime, b: DateTime)
    requires ValidDate(a) && ValidDate(b) && Less(a, b)
    ensures Timestamp(a) < Timestamp(b)
  {
    if DayLess(a, b) {
      DaysIncrease(a, b);
    }
  }

  /** Calendar order is the order of timestamps. */
  lemma TimestampIncreases(a: DateTime, b: DateTime)
    requires ValidDate(a) && ValidDate(b)
    ensures Less(a, b) <==> Timestamp(a) < Timestamp(b)
  {
    if Less(a, b) {
      LaterIsLarger(a, b);
    } else if Less(b, a) {
      LaterIsLarger(b, a);
    } else {
      assert SameMoment(a, b);
    }
  }

  /** So a timestamp belongs to one valid date only. */
  lemma TimestampInjective(a: DateTime, b: DateTime)
    requires ValidDate(a) && ValidDate(b) && Timestamp(a) == Timestamp(b)
    ensures SameMoment(a, b)
  {
    TimestampIncreases(a, b);
    TimestampIncreases(b, a);
  }

  // ---- conversions ----

  method DateToUnixTimestamp(year: nat, month: nat, day: nat, hour: nat, minute: nat, second: nat) returns (secs: nat)
    requires month <= 13 && day >= 1
    ensures secs == Timestamp(DateTime(year, month, day, hour, minute, second, 0))
  {
    var days := 0;
    var y := EPOCH_YEAR;
    while y < year
      invariant EPOCH_YEAR <= y && (y <= year || y == EPOCH_YEAR)
      invariant days == DaysBeforeYear(y)
    {
      days := days + if IsLeapYear(y) then 366 else 365;
      y := y + 1;
    }
    assert DaysBeforeYear(y) == DaysBeforeYear(year);
    var m := 1;
    while m < month
      invariant 1 <= m && (m <= month || m == 1)
      invariant days == DaysBeforeYear(year) + DaysBeforeMonth(year, m)
    {
      days := days + DaysInMonth(year, m);
      m := m + 1;
    }
    days := days + (day - 1);
    secs := days * SECONDS_PER_DAY + hour * 3600 + minute * 60 + second;
  }

  /** The year of this day number is a `u32`. */
  ghost predicate YearFits(days: nat) {
    exists y: nat :: EPOCH_YEAR <= y <= U32_MAX && days < DaysBeforeYear(y) + DaysInYear(y)
  }

  /** The unique valid date with this timestamp; the month walk stops by December. */
  method UnixTimestampToDate(secs: nat) returns (d: DateTime)
    requires YearFits(secs / SECONDS_PER_DAY)
    ensures ValidDate(d) && d.year <= U32_MAX && Timestamp(d) == secs
    ensures d.weekday == (secs / SECONDS_PER_DAY + 4) % 7
    ensures forall e: DateTime | ValidDate(e) && Timestamp(e) == secs :: SameMoment(d, e)
  {
    var totalDays := secs / SECONDS_PER_DAY;
    var remaining := secs % SECONDS_PER_DAY;
    var weekday := (totalDays + 4) % 7;
    var hour, minute, second := remaining / 3600, (remaining % 3600) / 60, remaining % 60;

    var year, daysLeft := WalkYears(totalDays);
    WalkedYearFits(year, totalDays);
    var month, day := WalkMonths(year, daysLeft);
    d := DateTime(year, month, day, hour, minute, second, weekday);
    TimeOfDay(remaining);
    assert Timestamp(d) == secs;
    forall e: DateTime | ValidDate(e) && Timestamp(e) == secs ensures SameMoment(d, e) {
      TimestampInjective(d, e);
    }
  }

  /** Counts years up, so no intermediate year passes the final one. */
  method WalkYears(totalDays: nat) returns (year: nat, daysLeft: nat)
    ensures EPOCH_YEAR <= year && daysLeft < DaysInYear(year)
    ensures DaysBeforeYear(year) + daysLeft == totalDays
  {
    year, daysLeft := EPOCH_YEAR, totalDays;
    while daysLeft >= DaysInYear(year)
      invariant EPOCH_YEAR <= year
      invariant DaysBeforeYear(year) + daysLeft == totalDays
      decreases daysLeft
    {
      daysLeft := daysLeft - DaysInYear(year);
      year := year + 1;
    }
  }

  lemma WalkedYearFits(year: nat, days: nat)
    requires YearFits(days) && DaysBeforeYear(year) <= days
    ensures year <= U32_MAX
  {
    var top: nat :| EPOCH_YEAR <= top <= U32_MAX && days < DaysBeforeYear(top) + DaysInYear(top);
    if top < year {
      YearsMonotone(top, year);
    }
  }

  method WalkMonths(year: nat, daysInto: nat) returns (month: nat, day: nat)
    requires daysInto < DaysInYear(year)
    ensures 1 <= month <= 12 && 1 <= day <= DaysInMonth(year, month)
    ensures DaysBeforeMonth(year, month) + (day - 1) == daysInto
  {
    MonthsMakeYear(year);
    var daysLeft: nat := daysInto;
    month := 1;
    while daysLeft >= DaysInMonth(year, month)
      invariant 1 <= month <= 12
      invariant daysLeft + DaysBeforeMonth(year, month) == daysInto < DaysBeforeMonth(year, 13)
      decreases 12 - month
    {
      daysLeft := daysLeft - DaysInMonth(year, month);
      month := month + 1;
    }
    day := daysLeft + 1;
  }

  lemma TimeOfDay(remaining: nat)
    requires remaining < SECONDS_PER_DAY
    ensures remaining / 3600 < 24 && (remaining % 3600) / 60 < 60
    ensures (remaining / 3600) * 3600 + ((remaining % 3600) / 60) * 60 + remaining % 60 == remaining
  {
  }

  /** Every valid date survives the round trip through its timestamp. */
  method DateRoundTrip(d: DateTime) returns (e: DateTime)
    requires ValidDate(d) && d.year <= U32_MAX
    ensures SameMoment(d, e)
  {
    var secs := DateToUnixTimestamp(d.year, d.month, d.day, d.hour, d.minute, d.second);
    DayInYear(d);
    assert secs / SECONDS_PER_DAY == DayNumber(d.year, d.month, d.day);
    e := UnixTimestampToDate(secs);
  }

  // ---- closed form ----

  /** Leap years from year 1 up to but excluding `year`. */
  function LeapsBefore(year: nat): int
    requires year >= 1
  {
    (year - 1) / 4 - (year - 1) / 100 + (year - 1) / 400
  }

  lemma EveryFourth(year: nat)
    requires year >= 1
    ensures year / 4 == (year - 1) / 4 + if year % 4 == 0 then 1 else 0
  {
  }

  lemma EveryHundredth(year: nat)
    requires year >= 1
    ensures year / 100 == (year - 1) / 100 + if year % 100 == 0 then 1 else 0
    ensures year % 100 == 0 ==> year % 4 == 0
  {
  }

  lemma EveryFourHundredth(year: nat)
    requires year >= 1
    ensures year / 400 == (year - 1) / 400 + if year % 400 == 0 then 1 else 0
    ensures year % 400 == 0 ==> year % 100 == 0
  {
  }

  lemma LeapsStep(year: nat)
    requires year >= 1
    ensures LeapsBefore(year + 1) == LeapsBefore(year) + if IsLeapYear(year) then 1 else 0
  {
    EveryFourth(year);
    EveryHundredth(year);
    EveryFourHundredth(year);
  }

  /** The year walk counts what the Gregorian rule says in closed form. */
  lemma {:induction false} DaysBeforeYearClosed(year: nat)
    requires year >= EPOCH_YEAR
    ensures DaysBeforeYear(year) == 365 * (year - EPOCH_YEAR) + LeapsBefore(year) - LeapsBefore(EPOCH_YEAR)
  {
    if year > EPOCH_YEAR {
      DaysBeforeYearClosed(year - 1);
      LeapsStep(year - 1);
    }
  }
}
