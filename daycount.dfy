/** Day numbering under one rule table.  A date is a (year, month, day)
    triple; `DayNumber` counts days from the first day of the anchor year of the same
    table, so that a day index (days since the Unix epoch) corresponds to the
    date whose day number is the index plus a per-table offset fixed by the
    anchor.  The specifications of the month and year moves live here too. */
module DayCount {
  import opened CalendarRules

  datatype Date = Date(y: int, m: int, d: int)

  /** A date whose month exists and whose day fits in that month. */
  predicate ValidDate(t: Table, dt: Date)
  {
    1 <= dt.m <= MonthNum && 1 <= dt.d <= MonthLength(t, dt.y, dt.m)
  }

  /** The anchor date of a table. */
  function Anchor(t: Table): (r: Date)
    ensures ValidDate(t, r)
  {
    Date(t.baseY, t.baseM, t.baseD)
  }

  /** Days from the start of the anchor year to the start of year `y`
      (negative before the anchor year). */
  ghost function YearStart(t: Table, y: int): int
    decreases if y < t.baseY then t.baseY - y else y - t.baseY
  {
    if y == t.baseY then 0
    else if y > t.baseY then YearStart(t, y - 1) + YearLength(t, y - 1)
    else YearStart(t, y + 1) - YearLength(t, y)
  }

  lemma YearStartStep(t: Table, y: int)
    ensures YearStart(t, y + 1) == YearStart(t, y) + YearLength(t, y)
  {
  }

  /** Later years start later. */
  lemma {:induction false} YearStartMonotone(t: Table, a: int, b: int)
    requires a <= b
    ensures YearStart(t, a) <= YearStart(t, b)
    ensures a < b ==> YearStart(t, a) + YearLength(t, a) <= YearStart(t, b)
    decreases b - a
  {
    YearStartStep(t, a);
    YearLengthAtLeast(t, a);
    if a < b {
      YearStartMonotone(t, a + 1, b);
    }
  }

  /** Days from the first day of the anchor year to `dt`. */
  ghost function DayNumber(t: Table, dt: Date): int
    requires 1 <= dt.m <= MonthNum
  {
    YearStart(t, dt.y) + DaysBeforeMonth(t, dt.y, dt.m) + dt.d - 1
  }

  /** Lexicographic order on (year, month, day). */
  predicate Before(a: Date, b: Date)
  {
    a.y < b.y || (a.y == b.y && (a.m < b.m || (a.m == b.m && a.d < b.d)))
  }

  /** The day number of a valid date lies inside its year. */
  lemma DayNumberInYear(t: Table, dt: Date)
    requires ValidDate(t, dt)
    ensures YearStart(t, dt.y) <= DayNumber(t, dt) < YearStart(t, dt.y + 1)
  {
    DaysBeforeMonthMonotone(t, dt.y, 1, dt.m);
    DaysBeforeMonthMonotone(t, dt.y, dt.m, MonthNum + 1);
    YearLengthIsSumOfMonths(t, dt.y);
    YearStartStep(t, dt.y);
  }

  /** Day numbers grow with the date. */
  lemma DayNumberMonotone(t: Table, a: Date, b: Date)
    requires ValidDate(t, a) && ValidDate(t, b) && Before(a, b)
    ensures DayNumber(t, a) < DayNumber(t, b)
  {
    if a.y < b.y {
      DayNumberInYear(t, a);
      DayNumberInYear(t, b);
      YearStartMonotone(t, a.y + 1, b.y);
    } else if a.m < b.m {
      DaysBeforeMonthMonotone(t, a.y, a.m, b.m);
    }
  }

  /** Two valid dates with the same day number are the same date. */
  lemma DayNumberInjective(t: Table, a: Date, b: Date)
    requires ValidDate(t, a) && ValidDate(t, b) && DayNumber(t, a) == DayNumber(t, b)
    ensures a == b
  {
    if Before(a, b) {
      DayNumberMonotone(t, a, b);
    } else if Before(b, a) {
      DayNumberMonotone(t, b, a);
    }
  }

  /** The day after `dt`. */
  function NextDay(t: Table, dt: Date): (r: Date)
    requires ValidDate(t, dt)
    ensures ValidDate(t, r)
  {
    if dt.d < MonthLength(t, dt.y, dt.m) then Date(dt.y, dt.m, dt.d + 1)
    else if dt.m < MonthNum then Date(dt.y, dt.m + 1, 1)
    else Date(dt.y + 1, 1, 1)
  }

  /** The day before `dt`. */
  function PrevDay(t: Table, dt: Date): (r: Date)
    requires ValidDate(t, dt)
    ensures ValidDate(t, r)
  {
    if dt.d > 1 then Date(dt.y, dt.m, dt.d - 1)
    else if dt.m > 1 then Date(dt.y, dt.m - 1, MonthLength(t, dt.y, dt.m - 1))
    else Date(dt.y - 1, MonthNum, MonthLength(t, dt.y - 1, MonthNum))
  }

  lemma NextDayNumber(t: Table, dt: Date)
    requires ValidDate(t, dt)
    ensures DayNumber(t, NextDay(t, dt)) == DayNumber(t, dt) + 1
  {
    if dt.d == MonthLength(t, dt.y, dt.m) && dt.m == MonthNum {
      YearLengthIsSumOfMonths(t, dt.y);
      YearStartStep(t, dt.y);
    }
  }

  lemma PrevDayNumber(t: Table, dt: Date)
    requires ValidDate(t, dt)
    ensures DayNumber(t, PrevDay(t, dt)) == DayNumber(t, dt) - 1
  {
    if dt.d == 1 && dt.m == 1 {
      var p := dt.y - 1;
      var last := Date(p, MonthNum, MonthLength(t, p, MonthNum));
      assert PrevDay(t, dt) == last;
      YearLengthIsSumOfMonths(t, p);
      YearStartStep(t, p);
      assert YearStart(t, dt.y) == YearStart(t, p) + YearLength(t, p);
      assert DayNumber(t, last)
          == YearStart(t, p) + DaysBeforeMonth(t, p, MonthNum + 1) - 1;
    } else if dt.d == 1 {
      var last := Date(dt.y, dt.m - 1, MonthLength(t, dt.y, dt.m - 1));
      assert PrevDay(t, dt) == last;
      assert DaysBeforeMonth(t, dt.y, dt.m)
          == DaysBeforeMonth(t, dt.y, dt.m - 1) + MonthLength(t, dt.y, dt.m - 1);
    }
  }

  /** move_days' backward step across a month start: the last day of the
      previous month (py, pm) is dt.d days before dt. */
  lemma BackAcrossMonth(t: Table, dt: Date, py: int, pm: int)
    requires ValidDate(t, dt)
    requires if dt.m == 1 then py == dt.y - 1 && pm == MonthNum else py == dt.y && pm == dt.m - 1
    ensures 1 <= pm <= MonthNum
    ensures ValidDate(t, Date(py, pm, MonthLength(t, py, pm)))
    ensures DayNumber(t, Date(py, pm, MonthLength(t, py, pm))) == DayNumber(t, dt) - dt.d
  {
    PrevDayNumber(t, Date(dt.y, dt.m, 1));
  }

  /** move_days' forward step across a month end: the first day of the next
      month (ny, nm) is (length - dt.d + 1) days after dt. */
  lemma ForwardAcrossMonth(t: Table, dt: Date, ny: int, nm: int)
    requires ValidDate(t, dt)
    requires if dt.m == MonthNum then ny == dt.y + 1 && nm == 1 else ny == dt.y && nm == dt.m + 1
    ensures ValidDate(t, Date(ny, nm, 1))
    ensures DayNumber(t, Date(ny, nm, 1)) == DayNumber(t, dt) + MonthLength(t, dt.y, dt.m) - dt.d + 1
  {
    NextDayNumber(t, Date(dt.y, dt.m, MonthLength(t, dt.y, dt.m)));
  }

  /** Every day number belongs to some valid date. */
  lemma {:induction false} DateExists(t: Table, k: int)
    ensures exists dt :: ValidDate(t, dt) && DayNumber(t, dt) == k
    decreases if k < 0 then -k else k
  {
    if k == 0 {
      assert ValidDate(t, Date(t.baseY, 1, 1)) && DayNumber(t, Date(t.baseY, 1, 1)) == 0;
    } else if k > 0 {
      DateExists(t, k - 1);
      var dt :| ValidDate(t, dt) && DayNumber(t, dt) == k - 1;
      NextDayNumber(t, dt);
      assert ValidDate(t, NextDay(t, dt));
    } else {
      DateExists(t, k + 1);
      var dt :| ValidDate(t, dt) && DayNumber(t, dt) == k + 1;
      PrevDayNumber(t, dt);
      assert ValidDate(t, PrevDay(t, dt));
    }
  }

  /** The valid date with day number `k`. */
  ghost function DateOf(t: Table, k: int): (r: Date)
    ensures ValidDate(t, r) && DayNumber(t, r) == k
  {
    DateExists(t, k);
    var dt :| ValidDate(t, dt) && DayNumber(t, dt) == k;
    dt
  }

  lemma DateOfUnique(t: Table, dt: Date, k: int)
    requires ValidDate(t, dt) && DayNumber(t, dt) == k
    ensures DateOf(t, k) == dt
  {
    DayNumberInjective(t, dt, DateOf(t, k));
  }

  /** Day number minus day index, the same for every date of a table. */
  ghost function Epoch(t: Table): int
  {
    DayNumber(t, Anchor(t)) - t.baseI
  }

  /** The date that day index `i` (days since the Unix epoch) denotes. */
  ghost function DateAtIndex(t: Table, i: int): Date
  {
    DateOf(t, i + Epoch(t))
  }

  /** The anchor index denotes the anchor date. */
  lemma AnchorAtBaseIndex(t: Table)
    ensures DateAtIndex(t, t.baseI) == Anchor(t)
  {
    DateOfUnique(t, Anchor(t), t.baseI + Epoch(t));
  }

  /** A later index never denotes an earlier date. */
  lemma DateAtIndexMonotone(t: Table, a: int, b: int)
    requires a <= b
    ensures !Before(DateAtIndex(t, b), DateAtIndex(t, a))
  {
    if Before(DateAtIndex(t, b), DateAtIndex(t, a)) {
      DayNumberMonotone(t, DateAtIndex(t, b), DateAtIndex(t, a));
    }
  }

  /** Moving inside one month changes the day number by the same amount. */
  lemma MoveWithinMonth(t: Table, dt: Date, k: int)
    requires ValidDate(t, dt) && 1 <= dt.d + k <= MonthLength(t, dt.y, dt.m)
    ensures DateOf(t, DayNumber(t, dt) + k) == Date(dt.y, dt.m, dt.d + k)
  {
    DateOfUnique(t, Date(dt.y, dt.m, dt.d + k), DayNumber(t, dt) + k);
  }

  // ------------------------------------------------------ month arithmetic

  /** Months from year 0, month 1 to month `m` of year `y`. */
  function MonthIndex(y: int, m: int): int
  {
    y * MonthNum + m - 1
  }

  /** A month index names exactly one (year, month) with month in 1..12. */
  lemma MonthIndexInjective(y1: int, m1: int, y2: int, m2: int)
    requires 1 <= m1 <= MonthNum && 1 <= m2 <= MonthNum
    requires MonthIndex(y1, m1) == MonthIndex(y2, m2)
    ensures y1 == y2 && m1 == m2
  {
  }

  /** The month `n` months after month `m` of year `y`, the year carried
      across the month_num/1 boundary. */
  function AddMonths(y: int, m: int, n: int): (r: (int, int))
    ensures 1 <= r.1 <= MonthNum
    ensures MonthIndex(r.0, r.1) == MonthIndex(y, m) + n
  {
    var k := MonthIndex(y, m) + n;
    (k / MonthNum, k % MonthNum + 1)
  }

  lemma AddMonthsUnique(y: int, m: int, n: int, y2: int, m2: int)
    requires 1 <= m2 <= MonthNum && MonthIndex(y2, m2) == MonthIndex(y, m) + n
    ensures AddMonths(y, m, n) == (y2, m2)
  {
    var r := AddMonths(y, m, n);
    MonthIndexInjective(r.0, r.1, y2, m2);
  }

  // --------------------------------------------------- move specifications

  function Min(a: int, b: int): int
  {
    if a <= b then a else b
  }

  function Max(a: int, b: int): int
  {
    if a >= b then a else b
  }

  function Abs(n: int): int
  {
    if n < 0 then -n else n
  }

  /** What move_months(n, minimal) does to a date: land in month m+n; with
      minimal set, on its last day (n < 0) or its first day (n > 0); without,
      on the old day of month clamped to the new month's length. */
  function MonthsMoved(t: Table, dt: Date, n: int, minimal: bool): (r: Date)
    requires ValidDate(t, dt)
    ensures ValidDate(t, r)
    ensures MonthIndex(r.y, r.m) == MonthIndex(dt.y, dt.m) + n
  {
    if n == 0 then dt
    else
      var (y2, m2) := AddMonths(dt.y, dt.m, n);
      var len := MonthLength(t, y2, m2);
      Date(y2, m2, if !minimal then Min(dt.d, len) else if n < 0 then len else 1)
  }

  /** The month count move_years(n, minimal) hands to move_months, with the
      minimal branch parsed as PHP parses it:
      ((|n| - 1) * month_num + n < 0) ? -m : month_num - m + 1. */
  function YearMonths(n: int, m: int, minimal: bool): int
  {
    if minimal then
      (if (Abs(n) - 1) * MonthNum + n < 0 then -m else MonthNum - m + 1)
    else n * MonthNum
  }

  /** What move_years(n, minimal) does to a date: the month move above,
      followed by the day re-clamp of the non-minimal path. */
  function YearsMoved(t: Table, dt: Date, n: int, minimal: bool): (r: Date)
    requires ValidDate(t, dt)
    ensures ValidDate(t, r)
  {
    if n == 0 then dt
    else
      var r := MonthsMoved(t, dt, YearMonths(n, dt.m, minimal), minimal);
      var len := MonthLength(t, r.y, r.m);
      if !minimal && r.d != dt.d && r.d < len then Date(r.y, r.m, Min(dt.d, len)) else r
  }

  /** As parsed, the minimal month count is -m for n == -1 only; every other
      non-zero n, however large or negative, moves to the next year's start. */
  lemma YearMonthsAsParsed(n: int, m: int)
    requires n != 0
    ensures YearMonths(n, m, true) == (if n == -1 then -m else MonthNum - m + 1)
  {
    if n < -1 {
      assert (Abs(n) - 1) * MonthNum + n == -11 * n - 12;
    }
  }

  /** move_months with minimal_move = false then back again restores the
      date when the old day fits in the month passed through. */
  lemma MonthsMovedRoundTrip(t: Table, dt: Date, n: int)
    requires ValidDate(t, dt)
    requires var (y2, m2) := AddMonths(dt.y, dt.m, n); dt.d <= MonthLength(t, y2, m2)
    ensures MonthsMoved(t, MonthsMoved(t, dt, n, false), -n, false) == dt
  {
    if n != 0 {
      var mid := MonthsMoved(t, dt, n, false);
      AddMonthsUnique(mid.y, mid.m, -n, dt.y, dt.m);
    }
  }

  /** move_years(n) without minimal_move keeps the month, adds n to the year
      and clamps the day to the new month's length. */
  lemma YearsMovedKeepsMonth(t: Table, dt: Date, n: int)
    requires ValidDate(t, dt)
    ensures YearsMoved(t, dt, n, false)
            == Date(dt.y + n, dt.m, Min(dt.d, MonthLength(t, dt.y + n, dt.m)))
  {
    if n != 0 {
      AddMonthsUnique(dt.y, dt.m, n * MonthNum, dt.y + n, dt.m);
    }
  }

  /** move_years(-1, true) lands on the last day of the last month of the
      previous year. */
  lemma YearsMovedBack(t: Table, dt: Date)
    requires ValidDate(t, dt)
    ensures YearsMoved(t, dt, -1, true)
            == Date(dt.y - 1, MonthNum, MonthLength(t, dt.y - 1, MonthNum))
  {
    YearMonthsAsParsed(-1, dt.m);
    AddMonthsUnique(dt.y, dt.m, -dt.m, dt.y - 1, MonthNum);
  }

  /** move_years(+1, true) lands on the first day of the next year. */
  lemma YearsMovedForward(t: Table, dt: Date)
    requires ValidDate(t, dt)
    ensures YearsMoved(t, dt, 1, true) == Date(dt.y + 1, 1, 1)
  {
    YearMonthsAsParsed(1, dt.m);
    AddMonthsUnique(dt.y, dt.m, MonthNum - dt.m + 1, dt.y + 1, 1);
  }

  /** A minimal one-month step backwards lands strictly earlier, one forwards
      strictly later. */
  lemma MonthsMovedMinimalStep(t: Table, dt: Date)
    requires ValidDate(t, dt)
    ensures Before(MonthsMoved(t, dt, -1, true), dt)
    ensures Before(dt, MonthsMoved(t, dt, 1, true))
  {
  }

  /** The same for a minimal one-year step. */
  lemma YearsMovedMinimalStep(t: Table, dt: Date)
    requires ValidDate(t, dt)
    ensures Before(YearsMoved(t, dt, -1, true), dt)
    ensures Before(dt, YearsMoved(t, dt, 1, true))
  {
    YearsMovedBack(t, dt);
    YearsMovedForward(t, dt);
  }

  /** Moving one month at a time: n + 1 months is n months and then one. */
  lemma AddMonthsStep(y: int, m: int, n: int)
    ensures var (y1, m1) := AddMonths(y, m, n); AddMonths(y1, m1, 1) == AddMonths(y, m, n + 1)
  {
    var (y1, m1) := AddMonths(y, m, n);
    var (y2, m2) := AddMonths(y, m, n + 1);
    AddMonthsUnique(y1, m1, 1, y2, m2);
  }

  /** The date move_to_date(y, m, d) reaches: count m - 1 months from the
      first month of year y, then d - 1 days from the first of that month, so
      that an out-of-range month or day carries into the next month or year. */
  ghost function DateFrom(t: Table, y: int, m: int, d: int): (r: Date)
    ensures ValidDate(t, r)
  {
    var (y2, m2) := AddMonths(y, 1, m - 1);
    DateOf(t, DayNumber(t, Date(y2, m2, 1)) + d - 1)
  }

  /** The date move_to_date reaches, given the month (y2, m2) that m - 1
      months after the first month of y name and a date d - 1 days after the
      first of that month. */
  lemma DateFromIs(t: Table, y: int, m: int, d: int, y2: int, m2: int, dt: Date)
    requires 1 <= m2 <= MonthNum && MonthIndex(y2, m2) == MonthIndex(y, 1) + m - 1
    requires ValidDate(t, dt) && DayNumber(t, dt) == DayNumber(t, Date(y2, m2, 1)) + d - 1
    ensures DateFrom(t, y, m, d) == dt
  {
    AddMonthsUnique(y, 1, m - 1, y2, m2);
    DateOfUnique(t, dt, DayNumber(t, Date(y2, m2, 1)) + d - 1);
  }

  /** A date that exists is reached exactly. */
  lemma DateFromValid(t: Table, dt: Date)
    requires ValidDate(t, dt)
    ensures DateFrom(t, dt.y, dt.m, dt.d) == dt
  {
    AddMonthsUnique(dt.y, 1, dt.m - 1, dt.y, dt.m);
    DateOfUnique(t, dt, DayNumber(t, Date(dt.y, dt.m, 1)) + dt.d - 1);
  }

  // ---------------------------------------------------------- the weekday

  /** The weekday stored for day index k, zero for Saturday: `(5 + k) % 7`
      with PHP's truncating remainder. */
  function WeekDay(k: int): (r: int)
    ensures -WeekLength < r < WeekLength
    ensures k >= -5 ==> 0 <= r && r == (5 + k) % WeekLength
  {
    PhpRem(5 + k, WeekLength)
  }

  /** From 1970 to the Gregorian anchor year 2005 every fourth year is a
      leap year (2000 included), so year y starts this many days before
      the anchor year. */
  lemma {:induction false} GregorianYearStart(y: int)
    requires 1970 <= y <= 2005
    ensures YearStart(TableOf(Gregorian), y) == -(365 * (2005 - y) + 501 - (y - 1) / 4)
    decreases 2005 - y
  {
    if y < 2005 {
      GregorianYearStart(y + 1);
      YearStartStep(TableOf(Gregorian), y);
      TableYearLengths(Gregorian);
      assert (y - 1) / 4 == y / 4 - (if y % 4 == 0 then 1 else 0);
    }
  }

  /** Day index 0 of the Gregorian table, reckoned from the anchor
      2005/2/27 at index 12841, is 1 January 1970, the Unix epoch; its
      weekday is 5, a Thursday. */
  lemma WeekDayOfEpoch()
    ensures DateAtIndex(TableOf(Gregorian), 0) == Date(1970, 1, 1)
    ensures WeekDay(0) == 5
  {
    var t := TableOf(Gregorian);
    GregorianYearStart(1970);
    assert DaysBeforeMonth(t, 2005, 2) == 31;
    assert Epoch(t) == -12784;
    DateOfUnique(t, Date(1970, 1, 1), Epoch(t));
  }

  /** From index -5 on, each day advances the weekday by one, wrapping from
      Friday (6) to Saturday (0). */
  lemma WeekDayNext(k: int)
    requires k >= -5
    ensures WeekDay(k + 1) == (WeekDay(k) + 1) % WeekLength
    ensures WeekDay(k + 1) == (if WeekDay(k) == WeekLength - 1 then 0 else WeekDay(k) + 1)
  {
    var a := 5 + k;
    var q, r := a / WeekLength, a % WeekLength;
    assert a == WeekLength * q + r;
    if r == WeekLength - 1 {
      assert a + 1 == WeekLength * (q + 1);
    } else {
      assert a + 1 == WeekLength * q + (r + 1);
    }
  }

  /** Before index -5 the truncating remainder goes negative: the weekday of
      a day that is not a Saturday is its true weekday minus seven, so it
      matches no weekend entry. */
  lemma WeekDayBeforeEpoch(k: int)
    requires k < -5
    ensures (5 + k) % WeekLength == 0 ==> WeekDay(k) == 0
    ensures (5 + k) % WeekLength != 0 ==> WeekDay(k) == (5 + k) % WeekLength - WeekLength < 0
  {
  }

  // ----------------------------------------------- a position at an index

  /** `dt` and `w` are the date and weekday of day index `k` under `t`. */
  ghost predicate At(t: Table, k: int, dt: Date, w: int)
  {
    ValidDate(t, dt) && DayNumber(t, dt) == k + Epoch(t) && w == WeekDay(k)
  }

  /** The index alone fixes the date and the weekday. */
  lemma AtIsDateAtIndex(t: Table, k: int, dt: Date, w: int)
    ensures At(t, k, dt, w) <==> dt == DateAtIndex(t, k) && w == WeekDay(k)
  {
    if At(t, k, dt, w) {
      DateOfUnique(t, dt, k + Epoch(t));
    }
  }

  /** is_other_holiday of a single table at day index `k`. */
  ghost predicate HolidayAt(t: Table, k: int)
  {
    var dt := DateAtIndex(t, k);
    dt.d in Holidays(t.sys, dt.m)
  }

  /** get_annotations of a single table at day index `k`. */
  ghost function AnnotationsAt(t: Table, k: int): seq<string>
  {
    var dt := DateAtIndex(t, k);
    Annotations(t.sys, dt.m, dt.d)
  }
}
