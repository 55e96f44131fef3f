/** Rule tables of the calendar systems: month lengths, leap month, leap-year
    predicate, weekend, holidays, annotations and the anchor date.  Each PHP
    calendar class is one constructor of `System`; a class that only inherits
    (PersianCalendar_33) is a constructor with the same table entries. */
module CalendarRules {

  datatype Option<T> = None | Some(value: T)

  /** The calendar classes that carry a rule table. */
  datatype System =
    | Gregorian
    | Persian        // PersianCalendar: 33-year arithmetic cycle
    | Persian33      // PersianCalendar_33: identical to PersianCalendar
    | Persian2820    // PersianCalendar_2820: 2820-year cycle
    | PersianIran    // PersianCalendar_Iran: 33-year cycle plus Iranian holidays
    | Islamic        // IslamicCalendar: tabular 30-year cycle
    | IslamicIran    // IslamicCalendar_Iran: own month lengths, never leap

  /** Every table has twelve months. */
  const MonthNum := 12

  /** Days in a week; the weekday is `(5 + i) % WeekLength`, zero for Saturday. */
  const WeekLength := 7

  /** PHP's `%`: the remainder of truncating division, which takes the sign of
      the dividend (Dafny's `%` never returns a negative value). */
  function PhpRem(a: int, b: int): (r: int)
    requires b > 0
    ensures -b < r < b
    ensures a >= 0 ==> r == a % b
    ensures a < 0 ==> (r == 0 <==> a % b == 0)
    ensures a < 0 && r != 0 ==> r == a % b - b
  {
    NegatedRem(a, b);
    if a >= 0 then a % b else -((-a) % b)
  }

  /** `a % b` is the `r` of any decomposition `a == b * q + r` with `0 <= r < b`. */
  lemma RemOfDecomposition(a: int, b: int, q: int, r: int)
    requires b > 0 && 0 <= r < b && a == b * q + r
    ensures a % b == r
  {
    var q0, r0 := a / b, a % b;
    assert b * q0 + r0 == a;
    if q > q0 {
      assert b * (q - q0) == b * q - b * q0;
      MulAtLeast(b, q - q0);
      assert false;
    } else if q < q0 {
      assert b * (q0 - q) == b * q0 - b * q;
      MulAtLeast(b, q0 - q);
      assert false;
    }
  }

  lemma {:induction false} MulAtLeast(b: int, k: int)
    requires b > 0 && k >= 1
    ensures b * k >= b
  {
    if k > 1 {
      MulAtLeast(b, k - 1);
      assert b * k == b * (k - 1) + b;
    }
  }

  /** The remainders of `a` and `-a` are both zero or add up to `b`. */
  lemma NegatedRem(a: int, b: int)
    requires b > 0
    ensures a % b == 0 <==> (-a) % b == 0
    ensures a % b != 0 ==> a % b + (-a) % b == b
  {
    var q, r := a / b, a % b;
    assert a == b * q + r;
    if r == 0 {
      assert -a == b * (-q) + 0;
      RemOfDecomposition(-a, b, -q, 0);
    } else {
      assert -a == b * (-q - 1) + (b - r);
      RemOfDecomposition(-a, b, -q - 1, b - r);
    }
  }

  /** Adding the modulus to a PHP remainder and taking the remainder again
      gives the non-negative (Euclidean) remainder. */
  lemma NormalisedRem(a: int, b: int)
    requires b > 0
    ensures PhpRem(PhpRem(a, b) + b, b) == a % b
  {
    var r := PhpRem(a, b);
    if a >= 0 || r != 0 {
      var e := if a >= 0 then a % b else r + b;
      assert e == a % b;
      RemOfDecomposition(r + b, b, if a >= 0 then 1 else 0, e);
    } else {
      RemOfDecomposition(b, b, 1, 0);
    }
  }

  /** A PHP remainder is zero exactly when the Euclidean one is. */
  lemma PhpRemZero(a: int, b: int)
    requires b > 0
    ensures PhpRem(a, b) == 0 <==> a % b == 0
  {
  }

  // ---------------------------------------------------------------- tables

  /** The properties of a calendar class that the move engine reads: the
      class itself (for `is_leap_year`), `month_length` (index 0 unused, no
      leap day), `leap_month`, and the anchor `base_y`, `base_m`, `base_d`,
      `base_i`. */
  datatype TableData = Table(sys: System, monthLength: seq<int>, leapMonth: int,
                             baseY: int, baseM: int, baseD: int, baseI: int)

  /** Twelve months of 28 to 31 days after the unused zero entry, a leap
      month that stays within 31 days when it gains its leap day, and an
      anchor date that exists. */
  predicate WellFormed(t: TableData)
  {
    && |t.monthLength| == MonthNum + 1 && t.monthLength[0] == 0
    && (forall m :: 1 <= m <= MonthNum ==> 28 <= t.monthLength[m] <= 31)
    && 1 <= t.leapMonth <= MonthNum && t.monthLength[t.leapMonth] <= 30
    && 1 <= t.baseM <= MonthNum && 1 <= t.baseD <= t.monthLength[t.baseM]
  }

  type Table = t: TableData | WellFormed(t)
    witness Table(Gregorian, [0, 31, 28, 31, 30, 31, 30, 31, 31, 30, 31, 30, 31], 2, 2005, 2, 27, 12841)

  /** The property values each class declares (or inherits). */
  function TableOf(s: System): (t: Table)
    ensures t.sys == s
  {
    match s
    case Gregorian =>
      Table(s, [0, 31, 28, 31, 30, 31, 30, 31, 31, 30, 31, 30, 31], 2, 2005, 2, 27, 12841)
    case Persian | Persian33 | Persian2820 | PersianIran =>
      Table(s, [0, 31, 31, 31, 31, 31, 31, 30, 30, 30, 30, 30, 29], 12, 1383, 12, 9, 12841)
    case Islamic =>
      Table(s, [0, 30, 29, 30, 29, 30, 29, 30, 29, 30, 29, 30, 29], 12, 1429, 8, 4, 14096)
    case IslamicIran =>
      Table(s, [0, 30, 30, 29, 29, 30, 29, 30, 29, 29, 30, 30, 29], 12, 1429, 8, 4, 14100)
  }

  /** The weekdays (zero for Saturday) this system treats as weekend. */
  function Weekend(s: System): seq<int>
  {
    match s
    case Gregorian => [0, 1]
    case _ => [6]
  }

  /** The days of month `m` that are holidays (the `holi` table). */
  function Holidays(s: System, m: int): seq<int>
  {
    match s
    case Gregorian =>
      if m == 12 then [25] else []
    case PersianIran =>
      if m == 1 then [1, 2, 3, 4, 12, 13]
      else if m == 3 then [14, 15]
      else if m == 11 then [22]
      else if m == 12 then [29]
      else []
    case IslamicIran =>
      if m == 1 then [9, 10]
      else if m == 2 then [20, 28, 30]
      else if m == 3 then [17]
      else if m == 6 then [3]
      else if m == 7 then [13, 27]
      else if m == 8 then [15]
      else if m == 9 then [21]
      else if m == 10 then [1, 25]
      else if m == 12 then [10, 18]
      else []
    case _ => []
  }

  /** The texts attached to day `d` of month `m` (the `annot` table). */
  function Annotations(s: System, m: int, d: int): seq<string>
  {
    match s
    case Gregorian =>
      if m == 12 && d == 25 then ["Christmas"] else []
    case PersianIran =>
      if m == 1 && 1 <= d <= 4 then ["Nowrooz"]
      else if m == 1 && d == 12 then ["Islamic Republic Day"]
      else if m == 1 && d == 13 then ["Nature Day"]
      else if m == 3 && d == 14 then ["Demise of Imam Khomeini"]
      else if m == 3 && d == 15 then ["Revolt of 15 Khordad"]
      else if m == 11 && d == 22 then ["Victory of Revolution of Iran"]
      else if m == 12 && d == 29 then ["Nationalization of Oil Industry"]
      else []
    case Islamic | IslamicIran =>
      if m == 1 && d == 9 then ["Tasu'a of Imam Hussain"]
      else if m == 1 && d == 10 then ["Ashura of Imam Hussain"]
      else if m == 2 && d == 20 then ["Arba'in of Imam Hussain"]
      else if m == 2 && d == 28 then ["Demise of Prophet Muhammad", "Martyrdom of Imam Hassan (Mujtaba)"]
      else if m == 2 && d == 30 then ["Martyrdom of Imam Reza"]
      else if m == 3 && d == 17 then ["Birth of Prophet Muhammad", "Birth of Imam Jafar (Sadegh)"]
      else if m == 6 && d == 3 then ["Martyrdom of Fatima"]
      else if m == 7 && d == 13 then ["Birth of Imam Ali"]
      else if m == 7 && d == 27 then ["Mission of Prophet Muhammad"]
      else if m == 8 && d == 15 then ["Birth of Imam Mahdi"]
      else if m == 9 && d == 21 then ["Martyrdom of Imam Ali"]
      else if m == 10 && d == 1 then ["Eid of Fitr"]
      else if m == 10 && d == 25 then ["Martyrdom of Imam Jafar (Sadegh)"]
      else if m == 12 && d == 10 then ["Eid of Adha (Ghurban)"]
      else if m == 12 && d == 18 then ["Eid of Ghadeer"]
      else []
    case _ => []
  }

  /** Every listed holiday is a day that exists in its month (without the
      leap day), and every weekend day is a weekday. */
  lemma HolidaysAreDays(s: System, m: int, d: int)
    requires d in Holidays(s, m)
    ensures 1 <= m <= MonthNum && 1 <= d <= TableOf(s).monthLength[m]
    ensures forall x :: x in Weekend(s) ==> 0 <= x < WeekLength
  {
    match s
    case Gregorian =>
    case PersianIran =>
      assert m in {1, 3, 11, 12};
    case IslamicIran =>
      assert m in {1, 2, 3, 6, 7, 8, 9, 10, 12};
    case _ =>
  }

  // ---------------------------------------------------------- leap years

  /** is_leap_year of each class, as written in the source with PHP's
      truncating remainder (the Persian and Islamic rules shift the first
      remainder into 0..n-1 before using it). */
  function IsLeapYearAsWritten(s: System, y: int): bool
  {
    match s
    case Gregorian =>
      (PhpRem(y, 4) == 0 && PhpRem(y, 100) != 0) || PhpRem(y, 400) == 0
    case Persian | Persian33 | PersianIran =>
      PhpRem(PhpRem(PhpRem(y + 16, 33) + 33, 33) * 8, 33) < 8
    case Persian2820 =>
      PhpRem(PhpRem(PhpRem(y - 474, 2820) + 2820, 2820) * 31, 128) < 31
    case Islamic =>
      PhpRem(PhpRem(PhpRem(y, 30) + 30, 30) * 11 + 14, 30) < 11
    case IslamicIran =>
      false
  }

  /** The leap rules in mathematical form: Gregorian 4/100/400, the 33-year
      and 2820-year Persian cycles, the tabular 30-year Islamic cycle, and
      never for the Iranian Islamic table. */
  function IsLeapYear(s: System, y: int): bool
  {
    match s
    case Gregorian => (y % 4 == 0 && y % 100 != 0) || y % 400 == 0
    case Persian | Persian33 | PersianIran => ((y + 16) % 33) * 8 % 33 < 8
    case Persian2820 => ((y - 474) % 2820) * 31 % 128 < 31
    case Islamic => ((y % 30) * 11 + 14) % 30 < 11
    case IslamicIran => false
  }

  /** The source's expressions agree with the mathematical rules for every
      year, negative ones included. */
  lemma LeapAsWritten(s: System, y: int)
    ensures IsLeapYearAsWritten(s, y) == IsLeapYear(s, y)
  {
    match s
    case Gregorian =>
      PhpRemZero(y, 4);
      PhpRemZero(y, 100);
      PhpRemZero(y, 400);
    case Persian | Persian33 | PersianIran =>
      NormalisedRem(y + 16, 33);
    case Persian2820 =>
      NormalisedRem(y - 474, 2820);
    case Islamic =>
      NormalisedRem(y, 30);
    case IslamicIran =>
  }

  /** Each leap predicate repeats with the length of its cycle. */
  lemma GregorianCycle(y: int)
    ensures IsLeapYear(Gregorian, y + 400) == IsLeapYear(Gregorian, y)
  {
    RemOfDecomposition(y + 400, 4, y / 4 + 100, y % 4);
    RemOfDecomposition(y + 400, 100, y / 100 + 4, y % 100);
    RemOfDecomposition(y + 400, 400, y / 400 + 1, y % 400);
  }

  lemma PersianCycle(y: int)
    ensures IsLeapYear(Persian, y + 33) == IsLeapYear(Persian, y)
  {
    assert (y + 33 + 16) % 33 == (y + 16) % 33;
  }

  lemma Persian2820Cycle(y: int)
    ensures IsLeapYear(Persian2820, y + 2820) == IsLeapYear(Persian2820, y)
  {
    assert (y + 2820 - 474) % 2820 == (y - 474) % 2820;
  }

  lemma IslamicCycle(y: int)
    ensures IsLeapYear(Islamic, y + 30) == IsLeapYear(Islamic, y)
  {
    var k := y % 30;
    assert (y + 30) % 30 == k;
  }

  /** Known years: Gregorian 2000 and 2400 leap, 1900 not; Persian 1399 and
      1403 leap, 1404 not (1404 is leap in the 2820-year cycle instead);
      Islamic 1431 leap, 1429 not. */
  lemma LeapReferenceYears()
    ensures IsLeapYear(Gregorian, 2000) && IsLeapYear(Gregorian, 2400)
    ensures !IsLeapYear(Gregorian, 1900) && IsLeapYear(Gregorian, 2024)
    ensures IsLeapYear(Persian, 1399) && IsLeapYear(Persian, 1403) && !IsLeapYear(Persian, 1404)
    ensures !IsLeapYear(Persian2820, 1403) && IsLeapYear(Persian2820, 1404)
    ensures IsLeapYear(Islamic, 1431) && !IsLeapYear(Islamic, 1429)
    ensures forall y :: !IsLeapYear(IslamicIran, y)
  {
  }

  // ------------------------------------------------------ month and year

  /** get_month_length: the table entry, plus one in the leap month of a
      leap year. */
  function MonthLength(t: Table, y: int, m: int): (r: int)
    requires 1 <= m <= MonthNum
    ensures 28 <= r <= 31
  {
    (if m == t.leapMonth && IsLeapYear(t.sys, y) then 1 else 0) + t.monthLength[m]
  }

  /** The sum of the first `k` entries of `xs`. */
  function PrefixSum(xs: seq<int>, k: int): int
    requires 0 <= k <= |xs|
  {
    if k == 0 then 0 else PrefixSum(xs, k - 1) + xs[k - 1]
  }

  /** get_year_length: year_length (the sum of month_length) plus one in a
      leap year. */
  function YearLength(t: Table, y: int): int
  {
    PrefixSum(t.monthLength, |t.monthLength|) + (if IsLeapYear(t.sys, y) then 1 else 0)
  }

  /** Days of year `y` before month `m`: the sum of the real month lengths. */
  function DaysBeforeMonth(t: Table, y: int, m: int): int
    requires 1 <= m <= MonthNum + 1
  {
    if m == 1 then 0 else DaysBeforeMonth(t, y, m - 1) + MonthLength(t, y, m - 1)
  }

  /** The days before month `m` are the table entries before it, plus the
      leap day once the leap month is past. */
  lemma {:induction false} DaysBeforeMonthCount(t: Table, y: int, m: int)
    requires 1 <= m <= MonthNum + 1
    ensures DaysBeforeMonth(t, y, m)
            == PrefixSum(t.monthLength, m) + (if IsLeapYear(t.sys, y) && t.leapMonth < m then 1 else 0)
  {
    if m > 1 {
      DaysBeforeMonthCount(t, y, m - 1);
    }
  }

  /** The year length is the sum of that year's month lengths: the leap day
      of the year length is the leap day of the leap month. */
  lemma YearLengthIsSumOfMonths(t: Table, y: int)
    ensures DaysBeforeMonth(t, y, MonthNum + 1) == YearLength(t, y)
  {
    DaysBeforeMonthCount(t, y, MonthNum + 1);
  }

  /** The sum of a table's month lengths, written out entry by entry. */
  lemma TableSumUnrolled(xs: seq<int>)
    requires |xs| == MonthNum + 1
    ensures PrefixSum(xs, |xs|) == xs[0] + xs[1] + xs[2] + xs[3] + xs[4] + xs[5] + xs[6]
                                   + xs[7] + xs[8] + xs[9] + xs[10] + xs[11] + xs[12]
  {
    // one unfolding per month
    assert PrefixSum(xs, 1) == xs[0];
    assert PrefixSum(xs, 2) == PrefixSum(xs, 1) + xs[1];
    assert PrefixSum(xs, 3) == PrefixSum(xs, 2) + xs[2];
    assert PrefixSum(xs, 4) == PrefixSum(xs, 3) + xs[3];
    assert PrefixSum(xs, 5) == PrefixSum(xs, 4) + xs[4];
    assert PrefixSum(xs, 6) == PrefixSum(xs, 5) + xs[5];
    assert PrefixSum(xs, 7) == PrefixSum(xs, 6) + xs[6];
    assert PrefixSum(xs, 8) == PrefixSum(xs, 7) + xs[7];
    assert PrefixSum(xs, 9) == PrefixSum(xs, 8) + xs[8];
    assert PrefixSum(xs, 10) == PrefixSum(xs, 9) + xs[9];
    assert PrefixSum(xs, 11) == PrefixSum(xs, 10) + xs[10];
    assert PrefixSum(xs, 12) == PrefixSum(xs, 11) + xs[11];
  }

  /** The common year has 365 days in the Gregorian and Persian tables and
      354 in the Islamic ones. */
  lemma TableYearLengths(s: System)
    ensures var ls := TableOf(s).monthLength;
            PrefixSum(ls, |ls|) == (if s == Islamic || s == IslamicIran then 354 else 365)
  {
    TableSumUnrolled(TableOf(s).monthLength);
  }

  /** Days before a later month are at least as many as before an earlier
      one, and each month adds its own length. */
  lemma {:induction false} DaysBeforeMonthMonotone(t: Table, y: int, a: int, b: int)
    requires 1 <= a <= b <= MonthNum + 1
    ensures DaysBeforeMonth(t, y, a) <= DaysBeforeMonth(t, y, b)
    ensures a < b ==> DaysBeforeMonth(t, y, a) + MonthLength(t, y, a) <= DaysBeforeMonth(t, y, b)
  {
    if a < b {
      DaysBeforeMonthMonotone(t, y, a, b - 1);
    }
  }

  /** A year has at least 28 days per month. */
  lemma {:induction false} DaysBeforeMonthAtLeast(t: Table, y: int, m: int)
    requires 1 <= m <= MonthNum + 1
    ensures DaysBeforeMonth(t, y, m) >= 28 * (m - 1)
  {
    if m > 1 {
      DaysBeforeMonthAtLeast(t, y, m - 1);
    }
  }

  lemma YearLengthAtLeast(t: Table, y: int)
    ensures YearLength(t, y) >= 28 * MonthNum
  {
    YearLengthIsSumOfMonths(t, y);
    DaysBeforeMonthAtLeast(t, y, MonthNum + 1);
  }
}
