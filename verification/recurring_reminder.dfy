/**
 * The scheduling rule for recurring reminders (scripts/test-recurring-logic.ts).
 *
 * Dates are whole day numbers counted from 1970-01-01 (day 0), the model of
 * a `Date` after `setHours(0, 0, 0, 0)`; the calendar view of a day number
 * (year, month, day of month) is the proleptic Gregorian calendar. Interval
 * lengths are kept in days: every millisecond quantity of the original is a
 * day count times the same constant, so comparing and dividing them is the
 * same as comparing and dividing the day counts.
 */
module RecurringReminder {
  import opened Common

  /** The calendar view of a day: what `getFullYear`, `getMonth` + 1 and `getDate` report. */
  datatype CivilDate = CivilDate(year: int, month: int, day: int)

  /** The year of a 400-year era (0..399) that day `doe` (0..146096) of the era falls in; years start on 1 March. */
  function YearOfEra(doe: int): (yoe: int)
    requires 0 <= doe < 146097
    ensures 0 <= yoe < 400
  {
    (doe - doe / 1460 + doe / 36524 - doe / 146096) / 365
  }

  /** Days of an era before its year `yoe`: 365 a year, plus the leap days of the Gregorian rule. */
  function DaysBeforeYear(yoe: int): int {
    365 * yoe + yoe / 4 - yoe / 100
  }

  /**
   * A day of the first 146096 days of an era splits into a century `b`
   * (0..3), a four-year block `q` of that century (0..24) and a day `s` of
   * that block.
   */
  lemma EraDaySplit(doe: int) returns (b: int, q: int, s: int)
    requires 0 <= doe < 146096
    ensures 0 <= b <= 3 && 0 <= q <= 24 && 0 <= s < 1461 && 1461 * q + s < 36524
    ensures doe == 36524 * b + 1461 * q + s
  {
    b := doe / 36524;
    var r := doe - 36524 * b;
    q := r / 1461;
    s := r - 1461 * q;
  }

  /** The `doe / 1460` correction counts the blocks before, plus one on the last day of a late block. */
  lemma BlockCorrection(doe: int, b: int, q: int, s: int)
    requires 0 <= b <= 3 && 0 <= q <= 24 && 0 <= s < 1461 && doe == 36524 * b + 1461 * q + s
    ensures var e := (24 * b + q + s) / 1460;
      doe / 1460 == 25 * b + q + e && 0 <= e <= 1 && (s == 1460 ==> e == 1)
  {
  }

  lemma YearDigits(yoe: int, b: int, q: int, y4: int)
    requires 0 <= b <= 3 && 0 <= q <= 24 && 0 <= y4 <= 3 && yoe == 100 * b + 4 * q + y4
    ensures yoe / 4 == 25 * b + q && yoe / 100 == b
  {
  }

  lemma YearsOfBlock(x: int, b: int, q: int, t: int)
    requires 0 <= t < 1461 && x == 365 * (100 * b + 4 * q) + t
    ensures x / 365 == 100 * b + 4 * q + t / 365
  {
  }

  /** The year of era of a day given by its century, block and day of the block; `y4` is the year within the block. */
  lemma YearOfEraSplit(doe: int, b: int, q: int, s: int) returns (y4: int)
    requires 0 <= b <= 3 && 0 <= q <= 24 && 0 <= s < 1461 && 1461 * q + s < 36524
    requires doe == 36524 * b + 1461 * q + s
    ensures 0 <= y4 <= 3 && YearOfEra(doe) == 100 * b + 4 * q + y4
    ensures 0 <= s - 365 * y4 < 366
  {
    BlockCorrection(doe, b, q, s);
    var e := (24 * b + q + s) / 1460;
    assert doe / 36524 == b;
    assert doe / 146096 == 0;
    var x := doe - doe / 1460 + doe / 36524 - doe / 146096;
    assert x == 365 * (100 * b + 4 * q) + (s - e);
    YearsOfBlock(x, b, q, s - e);
    y4 := (s - e) / 365;
  }

  /** The day of the year the civil-date computation derives is 0..365. */
  lemma DayOfYearBounds(doe: int)
    requires 0 <= doe < 146097
    ensures 0 <= doe - DaysBeforeYear(YearOfEra(doe)) < 366
  {
    if doe == 146096 {
      assert YearOfEra(doe) == 399;
    } else {
      var b, q, s := EraDaySplit(doe);
      var y4 := YearOfEraSplit(doe, b, q, s);
      YearDigits(100 * b + 4 * q + y4, b, q, y4);
      assert DaysBeforeYear(100 * b + 4 * q + y4) == 36524 * b + 1461 * q + 365 * y4;
    }
  }

  /** The civil date of a day number (days since 1970-01-01): a month of 1..12 and a day of 1..31. */
  function CivilFromDays(z: int): (r: CivilDate)
    ensures 1 <= r.month <= 12 && 1 <= r.day <= 31
  {
    var shifted := z + 719468;
    var era := shifted / 146097;
    var doe := shifted - era * 146097;
    var yoe := YearOfEra(doe);
    DayOfYearBounds(doe);
    var doy := doe - DaysBeforeYear(yoe);
    var mp := (5 * doy + 2) / 153;
    var d := doy - (153 * mp + 2) / 5 + 1;
    var m := if mp < 10 then mp + 3 else mp - 9;
    CivilDate(yoe + era * 400 + (if m <= 2 then 1 else 0), m, d)
  }

  /** The day number of a civil date; `CivilRoundTrip` shows it undoes `CivilFromDays`. */
  function DaysFromCivil(c: CivilDate): int {
    var y := if c.month <= 2 then c.year - 1 else c.year;
    var era := y / 400;
    var yoe := y - era * 400;
    var doy := (153 * (if c.month > 2 then c.month - 3 else c.month + 9) + 2) / 5 + c.day - 1;
    var doe := yoe * 365 + yoe / 4 - yoe / 100 + doy;
    era * 146097 + doe - 719468
  }

  /**
   * Reading a day number as a civil date and back gives the same day, so
   * distinct days have distinct dates: the anniversary test of the YEARS
   * rule compares real calendar dates.
   */
  lemma CivilRoundTrip(z: int)
    ensures DaysFromCivil(CivilFromDays(z)) == z
  {
    var shifted := z + 719468;
    var era := shifted / 146097;
    var doe := shifted - era * 146097;
    var yoe := YearOfEra(doe);
    DayOfYearBounds(doe);
    var doy := doe - DaysBeforeYear(yoe);
    var mp := (5 * doy + 2) / 153;
    assert 0 <= mp < 12;
    var c := CivilFromDays(z);
    var y := if c.month <= 2 then c.year - 1 else c.year;
    assert y == yoe + era * 400;
    assert y / 400 == era;
  }

  /** Two days with the same civil date are the same day. */
  lemma CivilInjective(z1: int, z2: int)
    requires CivilFromDays(z1) == CivilFromDays(z2)
    ensures z1 == z2
  {
    CivilRoundTrip(z1);
    CivilRoundTrip(z2);
  }

  /** getIntervalMs, in days: the length of one interval of `interval` `unit`s. */
  function IntervalDays(interval: int, unit: string): int {
    if unit == "DAYS" then interval
    else if unit == "WEEKS" then interval * 7
    else if unit == "MONTHS" then interval * 30
    else if unit == "YEARS" then interval * 365
    else 365
  }

  predicate KnownUnit(unit: string) {
    unit == "DAYS" || unit == "WEEKS" || unit == "MONTHS" || unit == "YEARS"
  }

  /** Days in one interval of a single unit. */
  function UnitDays(unit: string): int {
    if unit == "DAYS" then 1
    else if unit == "WEEKS" then 7
    else if unit == "MONTHS" then 30
    else 365
  }

  /**
   * The interval length is linear in the count for the four known units,
   * with a week of 7, a month of 30 and a year of 365 days; any other unit
   * is one year of 365 days whatever the count.
   */
  lemma IntervalDaysScales(interval: int, unit: string)
    ensures KnownUnit(unit) ==> IntervalDays(interval, unit) == interval * UnitDays(unit)
    ensures !KnownUnit(unit) ==> IntervalDays(interval, unit) == 365 == IntervalDays(1, unit)
    ensures IntervalDays(1, "WEEKS") == 7 * IntervalDays(1, "DAYS")
  {
  }

  /** `Math.floor(a / b)` on whole numbers, for a non-zero divisor of either sign. */
  function FloorDiv(a: int, b: int): (q: int)
    requires b != 0
    ensures b > 0 ==> q * b <= a < q * b + b
    ensures b < 0 ==> q * b + b < a <= q * b
  {
    if b > 0 then a / b else (-a) / (-b)
  }

  function Times(k: int, len: int): int {
    k * len
  }

  /** `today` lies a whole number of intervals of `len` days after `base`. */
  ghost predicate OnSchedule(base: int, today: int, len: int) {
    exists k: int :: base + Times(k, len) == today
  }

  /**
   * shouldSendRecurringReminder. `eventDay`, `today` and `lastSent` are day
   * numbers.  A zero-length interval never sends: the original divides zero
   * (or a positive time) by zero and compares the resulting `NaN` date.
   */
  function ShouldSend(eventDay: int, today: int, interval: int, unit: string, lastSent: Option<int>): (r: bool)
    ensures today < eventDay ==> !r
  {
    if today < eventDay then false
    else if unit == "YEARS" then
      var e := CivilFromDays(eventDay);
      var t := CivilFromDays(today);
      if t.day != e.day || t.month != e.month then false
      else
        match lastSent
        case Some(l) => t.year - CivilFromDays(l).year >= interval
        case None => true
    else
      var len := IntervalDays(interval, unit);
      match lastSent
      case Some(l) =>
        var since := today - l;
        if since < len then false
        else if len == 0 then false
        else l + FloorDiv(since, len) * len == today
      case None =>
        if len == 0 then false
        else eventDay + FloorDiv(today - eventDay, len) * len == today
  }

  lemma MulAtLeast(d: int, len: int)
    requires len > 0 && d >= 1
    ensures d * len >= len
  {
  }

  lemma MulAtMost(d: int, len: int)
    requires len > 0 && d <= -1
    ensures d * len <= -len
  {
  }

  /** Flooring an exact multiple of a positive divisor gives back the factor. */
  lemma FloorOfMultiplePos(k: int, len: int)
    requires len > 0
    ensures FloorDiv(Times(k, len), len) == k
  {
    var q := FloorDiv(Times(k, len), len);
    var d := q - k;
    assert q * len == k * len + d * len;
    if d >= 1 {
      MulAtLeast(d, len);
    } else if d <= -1 {
      MulAtMost(d, len);
    }
  }

  /** Flooring an exact multiple of the divisor gives back the factor. */
  lemma FloorOfMultiple(k: int, len: int)
    requires len != 0
    ensures FloorDiv(Times(k, len), len) == k
  {
    if len > 0 {
      FloorOfMultiplePos(k, len);
    } else {
      FloorOfMultiplePos(k, -len);
      assert -Times(k, len) == Times(k, -len);
    }
  }

  /** Adding the floored number of whole intervals lands back on the target exactly when it is on schedule. */
  lemma FloorStepExact(base: int, today: int, len: int)
    requires len != 0
    ensures base + FloorDiv(today - base, len) * len == today <==> OnSchedule(base, today, len)
  {
    var q := FloorDiv(today - base, len);
    if base + q * len == today {
      assert base + Times(q, len) == today;
    }
    if OnSchedule(base, today, len) {
      var k :| base + Times(k, len) == today;
      FloorOfMultiple(k, len);
    }
  }

  /**
   * YEARS: from the event day on, a reminder goes out exactly on the
   * anniversary (same month and day of month), and then only if it was
   * never sent or at least `interval` calendar years have passed since the
   * year it was last sent.
   */
  lemma YearsRule(eventDay: int, today: int, interval: int, lastSent: Option<int>)
    requires eventDay <= today
    ensures ShouldSend(eventDay, today, interval, "YEARS", lastSent) <==>
      && CivilFromDays(today).month == CivilFromDays(eventDay).month
      && CivilFromDays(today).day == CivilFromDays(eventDay).day
      && (lastSent.None? || CivilFromDays(today).year - CivilFromDays(lastSent.value).year >= interval)
  {
  }

  /**
   * Other units, sent before: a reminder goes out exactly when at least one
   * interval has elapsed since the last one and today is a whole number of
   * intervals after it.
   */
  lemma IntervalRuleAfterSend(eventDay: int, today: int, interval: int, unit: string, lastSent: int)
    requires eventDay <= today && unit != "YEARS"
    ensures var len := IntervalDays(interval, unit);
      ShouldSend(eventDay, today, interval, unit, Some(lastSent)) <==>
        len != 0 && today - lastSent >= len && OnSchedule(lastSent, today, len)
  {
    var len := IntervalDays(interval, unit);
    if len != 0 {
      FloorStepExact(lastSent, today, len);
    }
  }

  /**
   * Other units, never sent: a reminder goes out exactly when today is a
   * whole number of intervals after the event day (the event day included).
   */
  lemma IntervalRuleNeverSent(eventDay: int, today: int, interval: int, unit: string)
    requires eventDay <= today && unit != "YEARS"
    ensures var len := IntervalDays(interval, unit);
      ShouldSend(eventDay, today, interval, unit, None) <==> len != 0 && OnSchedule(eventDay, today, len)
  {
    var len := IntervalDays(interval, unit);
    if len != 0 {
      FloorStepExact(eventDay, today, len);
    }
  }

  /** With a positive interval, a reminder already sent today is not sent again. */
  lemma NoSecondSendSameDay(eventDay: int, today: int, interval: int, unit: string)
    requires unit != "YEARS" && IntervalDays(interval, unit) > 0
    ensures !ShouldSend(eventDay, today, interval, unit, Some(today))
  {
  }

  /** A reminder never sent goes out on the event day itself for every non-zero interval. */
  lemma SendsOnEventDay(eventDay: int, interval: int, unit: string)
    requires unit != "YEARS" ==> IntervalDays(interval, unit) != 0
    ensures ShouldSend(eventDay, eventDay, interval, unit, None)
  {
    if unit != "YEARS" {
      IntervalRuleNeverSent(eventDay, eventDay, interval, unit);
      assert eventDay + Times(0, IntervalDays(interval, unit)) == eventDay;
    }
  }

  /** Script scenario 1: daily, event two days ago, never sent: send. */
  lemma ScenarioDailyNeverSent()
    ensures ShouldSend(DaysFromCivil(CivilDate(2026, 1, 10)), DaysFromCivil(CivilDate(2026, 1, 12)), 1, "DAYS", None)
  {
    assert DaysFromCivil(CivilDate(2026, 1, 10)) == 20463;
    assert DaysFromCivil(CivilDate(2026, 1, 12)) == 20465;
    assert FloorDiv(2, 1) == 2;
  }

  /** Script scenario 2: daily, sent yesterday: send. */
  lemma ScenarioDailySentYesterday()
    ensures ShouldSend(DaysFromCivil(CivilDate(2026, 1, 10)), DaysFromCivil(CivilDate(2026, 1, 12)), 1, "DAYS",
                       Some(DaysFromCivil(CivilDate(2026, 1, 11))))
  {
    assert DaysFromCivil(CivilDate(2026, 1, 10)) == 20463;
    assert DaysFromCivil(CivilDate(2026, 1, 11)) == 20464;
    assert DaysFromCivil(CivilDate(2026, 1, 12)) == 20465;
    assert FloorDiv(1, 1) == 1;
  }

  /** Script scenario 3: daily, already sent today: do not send. */
  lemma ScenarioDailySentToday()
    ensures !ShouldSend(DaysFromCivil(CivilDate(2026, 1, 10)), DaysFromCivil(CivilDate(2026, 1, 12)), 1, "DAYS",
                        Some(DaysFromCivil(CivilDate(2026, 1, 12))))
  {
    assert DaysFromCivil(CivilDate(2026, 1, 10)) == 20463;
    assert DaysFromCivil(CivilDate(2026, 1, 12)) == 20465;
  }

  /** Script scenario 4: every 7 days, event 14 days ago, never sent: send. */
  lemma ScenarioWeeklyNeverSent()
    ensures ShouldSend(DaysFromCivil(CivilDate(2026, 1, 1)), DaysFromCivil(CivilDate(2026, 1, 15)), 7, "DAYS", None)
  {
    assert DaysFromCivil(CivilDate(2026, 1, 1)) == 20454;
    assert DaysFromCivil(CivilDate(2026, 1, 15)) == 20468;
    assert FloorDiv(14, 7) == 2;
  }

  lemma CivilOf20468()
    ensures CivilFromDays(20468) == CivilDate(2026, 1, 15)
  {
    assert 739936 / 146097 == 5;
    assert YearOfEra(9451) == 25;
    assert DaysBeforeYear(25) == 9131;
    assert (5 * 320 + 2) / 153 == 10;
    assert (153 * 10 + 2) / 5 == 306;
  }

  lemma CivilOf7319()
    ensures CivilFromDays(7319) == CivilDate(1990, 1, 15)
  {
    assert 726787 / 146097 == 4;
    assert YearOfEra(142399) == 389;
    assert DaysBeforeYear(389) == 142079;
    assert (5 * 320 + 2) / 153 == 10;
    assert (153 * 10 + 2) / 5 == 306;
  }

  lemma DaysOfBirthdayDates()
    ensures DaysFromCivil(CivilDate(1990, 1, 15)) == 7319
    ensures DaysFromCivil(CivilDate(2026, 1, 15)) == 20468
  {
  }

  /** Script scenario 5: yearly birthday, today is the anniversary, never sent: send. */
  lemma ScenarioBirthday()
    ensures ShouldSend(DaysFromCivil(CivilDate(1990, 1, 15)), DaysFromCivil(CivilDate(2026, 1, 15)), 1, "YEARS", None)
  {
    DaysOfBirthdayDates();
    CivilOf20468();
    CivilOf7319();
    YearsRule(7319, 20468, 1, None);
  }
}
