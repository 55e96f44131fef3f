/** The one-calendar move engine (Calendar and SimpleCalendar): a position
    given by a day index and the matching year, month, day and weekday under
    one rule table, moved by days, months or years. */
module SimpleCalendars {
  import opened CalendarRules
  import opened DayCount

  /** The units `move` dispatches to (`move_days`, `move_months`,
      `move_years`). */
  datatype Unit = Day | Month | Year

  /** The fields a unit letter or `move_to` can name: index, weekday, day,
      month and year. */
  datatype Field = I | W | D | M | Y

  function FieldName(f: Field): string
  {
    match f
    case I => "i"
    case W => "w"
    case D => "d"
    case M => "m"
    case Y => "y"
  }

  /** get_unit: the unit the first letter of `what` stands for; None where
      the unit table has no entry. */
  function GetUnit(what: string): (r: Option<Unit>)
    ensures r.None? <==> |what| == 0 || what[0] !in "iwdmy"
    ensures r == Some(Day) <==> |what| > 0 && what[0] in "iwd"
    ensures r == Some(Month) <==> |what| > 0 && what[0] == 'm'
    ensures r == Some(Year) <==> |what| > 0 && what[0] == 'y'
  {
    if |what| == 0 then None
    else
      match what[0]
      case 'i' => Some(Day)
      case 'w' => Some(Day)
      case 'd' => Some(Day)
      case 'm' => Some(Month)
      case 'y' => Some(Year)
      case _ => None
  }

  /** The unit get_unit gives a field's name: every field has one, and the
      index, weekday and day move by days. */
  function FieldUnit(f: Field): (u: Unit)
    ensures GetUnit(FieldName(f)) == Some(u)
    ensures u == Day <==> f == I || f == W || f == D
    ensures f == M ==> u == Month
    ensures f == Y ==> u == Year
  {
    match f
    case I => Day
    case W => Day
    case D => Day
    case M => Month
    case Y => Year
  }

  /** The value field `f` has at day index `k` under `t`. */
  ghost function FieldAt(t: Table, f: Field, k: int): int
  {
    match f
    case I => k
    case W => WeekDay(k)
    case D => DateAtIndex(t, k).d
    case M => DateAtIndex(t, k).m
    case Y => DateAtIndex(t, k).y
  }

  /** Where a move of `n` units takes the date `dt`. */
  ghost function UnitMoved(t: Table, dt: Date, u: Unit, n: int, minimal: bool): (r: Date)
    requires ValidDate(t, dt)
    ensures ValidDate(t, r)
  {
    match u
    case Day => DateOf(t, DayNumber(t, dt) + n)
    case Month => MonthsMoved(t, dt, n, minimal)
    case Year => YearsMoved(t, dt, n, minimal)
  }

  /** A minimal step back in any unit lands strictly earlier; a step back in
      days lands exactly one day earlier. */
  lemma StepBack(t: Table, dt: Date, u: Unit)
    requires ValidDate(t, dt)
    ensures DayNumber(t, UnitMoved(t, dt, u, -1, true)) < DayNumber(t, dt)
    ensures u == Day ==> DayNumber(t, UnitMoved(t, dt, u, -1, true)) == DayNumber(t, dt) - 1
  {
    match u
    case Day =>
    case Month =>
      MonthsMovedMinimalStep(t, dt);
      DayNumberMonotone(t, MonthsMoved(t, dt, -1, true), dt);
    case Year =>
      YearsMovedMinimalStep(t, dt);
      DayNumberMonotone(t, YearsMoved(t, dt, -1, true), dt);
  }

  /** A minimal step forward in any unit lands strictly later; a step
      forward in days lands exactly one day later. */
  lemma StepForward(t: Table, dt: Date, u: Unit)
    requires ValidDate(t, dt)
    ensures DayNumber(t, UnitMoved(t, dt, u, 1, true)) > DayNumber(t, dt)
    ensures u == Day ==> DayNumber(t, UnitMoved(t, dt, u, 1, true)) == DayNumber(t, dt) + 1
  {
    match u
    case Day =>
    case Month =>
      MonthsMovedMinimalStep(t, dt);
      DayNumberMonotone(t, dt, MonthsMoved(t, dt, 1, true));
    case Year =>
      YearsMovedMinimalStep(t, dt);
      DayNumberMonotone(t, dt, YearsMoved(t, dt, 1, true));
  }

  /** move_to(n, 'm') with a month that exists keeps the year and lands in
      month n, the day clamped to that month's length. */
  lemma MoveToMonth(t: Table, dt: Date, n: int)
    requires ValidDate(t, dt) && 1 <= n <= MonthNum
    ensures UnitMoved(t, dt, Month, n - dt.m, false)
            == Date(dt.y, n, Min(dt.d, MonthLength(t, dt.y, n)))
  {
    AddMonthsUnique(dt.y, dt.m, n - dt.m, dt.y, n);
  }

  /** move_to(n, 'd') with a day that exists in the current month lands on
      that day of the same month. */
  lemma MoveToDay(t: Table, dt: Date, n: int)
    requires ValidDate(t, dt) && 1 <= n <= MonthLength(t, dt.y, dt.m)
    ensures UnitMoved(t, dt, Day, n - dt.d, false) == Date(dt.y, dt.m, n)
  {
    MoveWithinMonth(t, dt, n - dt.d);
  }

  /** The day index move_today computes from a Unix time in seconds: PHP's
      `(int)(t / 86400)`, a division truncated toward zero. */
  function SecondsToIndex(seconds: int): (r: int)
    ensures seconds >= 0 ==> r * 86400 <= seconds < (r + 1) * 86400
    ensures seconds < 0 ==> (r - 1) * 86400 < seconds <= r * 86400
  {
    if seconds >= 0 then seconds / 86400 else -((-seconds) / 86400)
  }

  /** Every entry of a range holds the value of `item` at its key. */
  ghost predicate Tabulates(t: Table, item: Field, r: seq<(int, int)>)
  {
    forall j :: 0 <= j < |r| ==> r[j].1 == FieldAt(t, item, r[j].0)
  }

  /** The keys of a range strictly increase. */
  ghost predicate Increasing(r: seq<(int, int)>)
  {
    forall j, k :: 0 <= j < k < |r| ==> r[j].0 < r[k].0
  }

  /** The keys of a range lie in [lo, hi]. */
  ghost predicate KeysWithin(r: seq<(int, int)>, lo: int, hi: int)
  {
    forall j :: 0 <= j < |r| ==> lo <= r[j].0 <= hi
  }

  /** The keys of a range are lo, lo + 1, lo + 2, ... */
  ghost predicate Consecutive(r: seq<(int, int)>, lo: int)
  {
    forall j :: 0 <= j < |r| ==> r[j].0 == lo + j
  }

  /** Prepending the entry of a smaller key keeps a range tabulated and
      increasing. */
  lemma PrependEntry(t: Table, item: Field, r: seq<(int, int)>, k: int, hi: int)
    requires Tabulates(t, item, r) && Increasing(r) && KeysWithin(r, k + 1, hi) && k <= hi
    ensures var r' := [(k, FieldAt(t, item, k))] + r;
            Tabulates(t, item, r') && Increasing(r') && KeysWithin(r', k, hi)
  {
  }

  /** Appending the entry of a key above every stored one keeps a range
      tabulated and increasing. */
  lemma AppendEntry(t: Table, item: Field, r: seq<(int, int)>, lo: int, k: int)
    requires Tabulates(t, item, r) && Increasing(r) && KeysWithin(r, lo, k) && lo <= k
    requires |r| == 0 || r[|r| - 1].0 != k
    ensures var r' := r + [(k, FieldAt(t, item, k))];
            Tabulates(t, item, r') && Increasing(r') && KeysWithin(r', lo, k)
  {
    if |r| > 0 {
      assert forall j :: 0 <= j < |r| ==> r[j].0 <= r[|r| - 1].0;
    }
  }

  /** Overwriting the value of the last entry with the one at its key keeps
      a range tabulated, increasing and keyed as before. */
  lemma ReplaceLast(t: Table, item: Field, r: seq<(int, int)>, lo: int, k: int)
    requires Tabulates(t, item, r) && Increasing(r) && KeysWithin(r, lo, k)
    requires |r| > 0 && r[|r| - 1].0 == k
    ensures var r' := r[|r| - 1 := (k, FieldAt(t, item, k))];
            Tabulates(t, item, r') && Increasing(r') && KeysWithin(r', lo, k)
  {
  }

  /** A range within [a, b] is within any interval around it. */
  lemma KeysWiden(r: seq<(int, int)>, a: int, b: int, a': int, b': int)
    requires KeysWithin(r, a, b) && a' <= a && b <= b'
    ensures KeysWithin(r, a', b')
  {
  }

  // ---------------------------------------------- the units of get_range

  /** The units numbered in order: the day index itself for days, the month
      index for months, the year for years. */
  ghost function UnitIndex(t: Table, u: Unit, k: int): int
  {
    match u
    case Day => k
    case Month => var dt := DateAtIndex(t, k); MonthIndex(dt.y, dt.m)
    case Year => DateAtIndex(t, k).y
  }

  /** A unit is a run of consecutive indices: a later index is never in an
      earlier unit. */
  lemma UnitIndexMonotone(t: Table, u: Unit, a: int, b: int)
    requires a <= b
    ensures UnitIndex(t, u, a) <= UnitIndex(t, u, b)
  {
    DateAtIndexMonotone(t, a, b);
  }

  /** A minimal step of one unit from index k to index k2 lands in the
      neighbouring unit, on its last index going back and on its first
      going forward. */
  lemma StepUnits(t: Table, u: Unit, k: int, k2: int, forward: bool)
    requires DateAtIndex(t, k2) == UnitMoved(t, DateAtIndex(t, k), u, if forward then 1 else -1, true)
    ensures UnitIndex(t, u, k2) == UnitIndex(t, u, k) + (if forward then 1 else -1)
    ensures forward ==> UnitIndex(t, u, k2 - 1) == UnitIndex(t, u, k)
    ensures !forward ==> UnitIndex(t, u, k2 + 1) == UnitIndex(t, u, k)
  {
    var dt, d2 := DateAtIndex(t, k), DateAtIndex(t, k2);
    match u
    case Day =>
    case Month =>
      if forward {
        PrevDayNumber(t, d2);
        DateOfUnique(t, PrevDay(t, d2), k2 - 1 + Epoch(t));
      } else {
        NextDayNumber(t, d2);
        DateOfUnique(t, NextDay(t, d2), k2 + 1 + Epoch(t));
      }
    case Year =>
      if forward {
        YearsMovedForward(t, dt);
        PrevDayNumber(t, d2);
        DateOfUnique(t, PrevDay(t, d2), k2 - 1 + Epoch(t));
      } else {
        YearsMovedBack(t, dt);
        NextDayNumber(t, d2);
        DateOfUnique(t, NextDay(t, d2), k2 + 1 + Epoch(t));
      }
  }

  /** Entry j of a range lies in unit b + j. */
  ghost predicate UnitsFrom(t: Table, u: Unit, r: seq<(int, int)>, b: int)
  {
    forall j :: 0 <= j < |r| ==> UnitIndex(t, u, r[j].0) == b + j
  }

  /** Index k is, within [lo, hi], the index of its unit nearest to c. */
  ghost predicate Nearest(t: Table, u: Unit, k: int, lo: int, hi: int, c: int)
  {
    forall k' :: lo <= k' <= hi && UnitIndex(t, u, k') == UnitIndex(t, u, k) ==> Abs(k - c) <= Abs(k' - c)
  }

  /** Every key of a range is the index of its unit nearest to c. */
  ghost predicate AllNearest(t: Table, u: Unit, r: seq<(int, int)>, lo: int, hi: int, c: int)
  {
    forall j :: 0 <= j < |r| ==> Nearest(t, u, r[j].0, lo, hi, c)
  }

  /** An index at or below c is nearest to c in its unit when it is c, or hi,
      or the last index of its unit. */
  lemma NearestBelow(t: Table, u: Unit, k: int, lo: int, hi: int, c: int)
    requires k <= c && k <= hi
    requires k == c || k == hi || UnitIndex(t, u, k + 1) != UnitIndex(t, u, k)
    ensures Nearest(t, u, k, lo, hi, c)
  {
    forall k' | lo <= k' <= hi && UnitIndex(t, u, k') == UnitIndex(t, u, k)
      ensures Abs(k - c) <= Abs(k' - c)
    {
      if k < k' && k != c {
        UnitIndexMonotone(t, u, k, k + 1);
        UnitIndexMonotone(t, u, k + 1, k');
      }
    }
  }

  /** An index at or above c is nearest to c in its unit when it is c, or
      lo, or the first index of its unit. */
  lemma NearestAbove(t: Table, u: Unit, k: int, lo: int, hi: int, c: int)
    requires c <= k && lo <= k
    requires k == c || k == lo || UnitIndex(t, u, k - 1) != UnitIndex(t, u, k)
    ensures Nearest(t, u, k, lo, hi, c)
  {
    forall k' | lo <= k' <= hi && UnitIndex(t, u, k') == UnitIndex(t, u, k)
      ensures Abs(k - c) <= Abs(k' - c)
    {
      if k' < k && k != c {
        UnitIndexMonotone(t, u, k', k - 1);
        UnitIndexMonotone(t, u, k - 1, k);
      }
    }
  }

  /** Prepending an entry of unit b to a range of units b + 1, ... */
  lemma PrependUnit(t: Table, u: Unit, r: seq<(int, int)>, e: (int, int), b: int, lo: int, hi: int, c: int)
    requires UnitsFrom(t, u, r, b + 1) && UnitIndex(t, u, e.0) == b
    requires AllNearest(t, u, r, lo, hi, c) && Nearest(t, u, e.0, lo, hi, c)
    ensures UnitsFrom(t, u, [e] + r, b) && AllNearest(t, u, [e] + r, lo, hi, c)
  {
    assert forall j :: 0 < j <= |r| ==> ([e] + r)[j] == r[j - 1];
  }

  /** Appending an entry of the unit after the last one. */
  lemma AppendUnit(t: Table, u: Unit, r: seq<(int, int)>, e: (int, int), b: int, lo: int, hi: int, c: int)
    requires UnitsFrom(t, u, r, b) && UnitIndex(t, u, e.0) == b + |r|
    requires AllNearest(t, u, r, lo, hi, c) && Nearest(t, u, e.0, lo, hi, c)
    ensures UnitsFrom(t, u, r + [e], b) && AllNearest(t, u, r + [e], lo, hi, c)
  {
  }

  /** Overwriting the value of the last entry keeps its key. */
  lemma ReplaceUnit(t: Table, u: Unit, r: seq<(int, int)>, v: int, b: int, lo: int, hi: int, c: int)
    requires |r| > 0 && UnitsFrom(t, u, r, b) && AllNearest(t, u, r, lo, hi, c)
    ensures var r' := r[|r| - 1 := (r[|r| - 1].0, v)];
            UnitsFrom(t, u, r', b) && AllNearest(t, u, r', lo, hi, c)
  {
  }

  /** What get_range's first loop has collected, from index s back to the
      current index k: entries of consecutive units from the unit after k's,
      keyed by the index of their unit within [lo, hi] nearest to c, the
      last one at s; k is s before the first step and the last index of its
      unit after it. */
  ghost predicate BackCollected(t: Table, item: Field, u: Unit, r: seq<(int, int)>, k: int,
                                s: int, lo: int, hi: int, c: int)
  {
    && s == Min(c, hi) && k <= s
    && Tabulates(t, item, r) && Increasing(r) && KeysWithin(r, k + 1, s) && KeysWithin(r, lo, s)
    && UnitsFrom(t, u, r, UnitIndex(t, u, k) + 1) && AllNearest(t, u, r, lo, hi, c)
    && (r == [] ==> k == s)
    && (r != [] ==> r[|r| - 1].0 == s && UnitIndex(t, u, k + 1) == UnitIndex(t, u, k) + 1)
  }

  /** One turn of the first loop: store the value at k in front, then step
      back to k2, the last index of the unit before k's. */
  lemma BackStep(t: Table, item: Field, u: Unit, r: seq<(int, int)>, k: int, v: int, k2: int,
                 s: int, lo: int, hi: int, c: int)
    requires BackCollected(t, item, u, r, k, s, lo, hi, c) && lo <= k && v == FieldAt(t, item, k)
    requires k2 < k && UnitIndex(t, u, k2) == UnitIndex(t, u, k) - 1
    requires UnitIndex(t, u, k2 + 1) == UnitIndex(t, u, k)
    ensures BackCollected(t, item, u, [(k, v)] + r, k2, s, lo, hi, c)
  {
    NearestBelow(t, u, k, lo, hi, c);
    PrependEntry(t, item, r, k, s);
    PrependUnit(t, u, r, (k, v), UnitIndex(t, u, k), lo, hi, c);
  }

  /** When the first loop stops below lo, its entries lie in consecutive
      units from the unit of lo on, and there is one for the unit of s when
      s is at least lo. */
  lemma BackDone(t: Table, item: Field, u: Unit, r: seq<(int, int)>, k: int,
                 s: int, lo: int, hi: int, c: int)
    requires BackCollected(t, item, u, r, k, s, lo, hi, c) && k < lo
    ensures Tabulates(t, item, r) && Increasing(r) && KeysWithin(r, lo, s)
    ensures UnitsFrom(t, u, r, UnitIndex(t, u, lo)) && AllNearest(t, u, r, lo, hi, c)
    ensures lo <= s ==> r != [] && r[|r| - 1].0 == s
    ensures s < lo ==> r == []
  {
    if r != [] {
      UnitIndexMonotone(t, u, k + 1, lo);
      UnitIndexMonotone(t, u, lo, r[0].0);
    }
  }

  /** What get_range's second loop has collected when it has reached index
      k, having started at f = max(c, lo) with the entries r0 of the first
      loop: entries of consecutive units from the unit of lo on, keyed by
      the index of their unit within [lo, hi] nearest to c; after the first
      step k is the first index of the unit after the last entry's. */
  ghost predicate ForwardCollected(t: Table, item: Field, u: Unit, r: seq<(int, int)>, r0: seq<(int, int)>,
                                   k: int, f: int, lo: int, hi: int, c: int)
  {
    && f == Max(c, lo) && f <= k
    && (hi < f || (r0 == [] && f == lo) || (r0 != [] && r0[|r0| - 1].0 == f))
    && Tabulates(t, item, r) && Increasing(r) && KeysWithin(r, lo, hi) && KeysWithin(r, lo, k)
    && UnitsFrom(t, u, r, UnitIndex(t, u, lo)) && AllNearest(t, u, r, lo, hi, c)
    && (k == f ==> r == r0)
    && (k != f ==> f <= hi && r != [] && r[|r| - 1].0 < k && r[|r| - 1].0 <= hi
                   && UnitIndex(t, u, k) == UnitIndex(t, u, r[|r| - 1].0) + 1
                   && UnitIndex(t, u, k - 1) == UnitIndex(t, u, r[|r| - 1].0))
  }

  /** `$result[k] = v` for a key at least every stored one: overwrite the
      last entry when it has key k, append otherwise. */
  function Store(r: seq<(int, int)>, k: int, v: int): (r': seq<(int, int)>)
    ensures |r'| == if r != [] && r[|r| - 1].0 == k then |r| else |r| + 1
    ensures r'[|r'| - 1] == (k, v)
    ensures forall j :: 0 <= j < |r'| - 1 ==> r'[j] == r[j]
  {
    if r != [] && r[|r| - 1].0 == k then r[|r| - 1 := (k, v)] else r + [(k, v)]
  }

  /** One turn of the second loop: store the value at k, then step forward
      to k2, the first index of the unit after k's. */
  lemma ForwardStep(t: Table, item: Field, u: Unit, r: seq<(int, int)>, r0: seq<(int, int)>,
                    k: int, v: int, k2: int, f: int, lo: int, hi: int, c: int)
    requires ForwardCollected(t, item, u, r, r0, k, f, lo, hi, c) && k <= hi && v == FieldAt(t, item, k)
    requires k < k2 && UnitIndex(t, u, k2) == UnitIndex(t, u, k) + 1
    requires UnitIndex(t, u, k2 - 1) == UnitIndex(t, u, k)
    ensures ForwardCollected(t, item, u, Store(r, k, v), r0, k2, f, lo, hi, c)
  {
    NearestAbove(t, u, k, lo, hi, c);
    if r != [] && r[|r| - 1].0 == k {
      ReplaceLast(t, item, r, lo, k);
      ReplaceUnit(t, u, r, v, UnitIndex(t, u, lo), lo, hi, c);
    } else {
      AppendEntry(t, item, r, lo, k);
      AppendUnit(t, u, r, (k, v), UnitIndex(t, u, lo), lo, hi, c);
    }
    var r' := Store(r, k, v);
    KeysWiden(r', lo, k, lo, k2);
  }

  /** When the second loop stops above hi, having run at least once, its
      last entry lies in the unit of hi. */
  lemma ForwardDone(t: Table, item: Field, u: Unit, r: seq<(int, int)>, r0: seq<(int, int)>,
                    k: int, f: int, lo: int, hi: int, c: int)
    requires ForwardCollected(t, item, u, r, r0, k, f, lo, hi, c) && hi < k
    ensures hi < f ==> r == r0
    ensures f <= hi ==> r != [] && UnitIndex(t, u, r[|r| - 1].0) == UnitIndex(t, u, hi)
  {
    if f <= hi {
      UnitIndexMonotone(t, u, r[|r| - 1].0, hi);
      UnitIndexMonotone(t, u, hi, k - 1);
    }
  }

  class SimpleCalendar {
    /** The class's properties: rule, month lengths, leap month, anchor. */
    const table: Table
    /** year_length: the sum of month_length, without the leap day. */
    const yearLength: int
    /** Days since the Unix epoch. */
    var i: int
    var y: int
    /** Month, starting at one. */
    var m: int
    /** Day of the month, starting at one. */
    var d: int
    /** Weekday, zero for Saturday. */
    var w: int
    /** Indices pushed by `save`. */
    var iStack: seq<int>

    function Today(): Date
      reads this
    {
      Date(y, m, d)
    }

    /** Year, month, day and weekday are those of the index. */
    ghost predicate Valid()
      reads this
    {
      At(table, i, Today(), w)
    }

    /** The constructor's sum of the month lengths. */
    ghost predicate Cached()
    {
      yearLength == PrefixSum(table.monthLength, |table.monthLength|)
    }

    /** A calendar starts at its class's anchor. */
    constructor (s: System)
      ensures Valid() && Cached() && table == TableOf(s) && iStack == []
      ensures i == table.baseI && Today() == Anchor(table)
    {
      var t := TableOf(s);
      table := t;
      y, m, d, i := t.baseY, t.baseM, t.baseD, t.baseI;
      var lengths := t.monthLength;
      var sum := 0;
      for k := 0 to |lengths|
        invariant sum == PrefixSum(lengths, k)
      {
        sum := sum + lengths[k];
      }
      yearLength := sum;
      iStack := [];
      new;
      Synch();
    }

    /** synch: recompute the weekday from the index. */
    method Synch()
      modifies this
      ensures w == WeekDay(i)
      ensures i == old(i) && Today() == old(Today()) && iStack == old(iStack)
    {
      w := PhpRem(5 + i, WeekLength);
    }

    /** The value of field `f`. */
    function FieldValue(f: Field): (r: int)
      reads this
      ensures Valid() ==> r == FieldAt(table, f, i)
    {
      AtIsDateAtIndex(table, i, Today(), w);
      match f
      case I => i
      case W => w
      case D => d
      case M => m
      case Y => y
    }

    /** get_month_length: the table length of the current month, plus one
        for the leap month of a leap year. */
    function GetMonthLength(): (r: int)
      requires 1 <= m <= MonthNum
      reads this
      ensures 28 <= r <= 31
      ensures Valid() ==> d <= r
      ensures Valid() ==> r == MonthLength(table, DateAtIndex(table, i).y, DateAtIndex(table, i).m)
    {
      AtIsDateAtIndex(table, i, Today(), w);
      MonthLength(table, y, m)
    }

    /** get_year_length: the table's year length, plus one in a leap year;
        it is the sum of the current year's month lengths and the distance
        to the first day of the next year. */
    function GetYearLength(): (r: int)
      requires Cached()
      reads this
      ensures r == DaysBeforeMonth(table, y, MonthNum + 1)
      ensures r == YearStart(table, y + 1) - YearStart(table, y)
    {
      YearLengthIsSumOfMonths(table, y);
      YearStartStep(table, y);
      yearLength + (if IsLeapYear(table.sys, y) then 1 else 0)
    }

    /** get_date: year, month, day and index. */
    function GetDate(): (r: (int, int, int, int))
      requires Valid()
      reads this
      ensures var dt := DateAtIndex(table, r.3); r == (dt.y, dt.m, dt.d, i)
    {
      AtIsDateAtIndex(table, i, Today(), w);
      (y, m, d, i)
    }

    /** is_weekend: the weekday is one of the table's weekend days. */
    function IsWeekend(): (r: bool)
      requires Valid()
      reads this
      ensures r <==> WeekDay(i) in Weekend(table.sys)
    {
      w in Weekend(table.sys)
    }

    /** is_other_holiday: the day is listed for the month in `holi`. */
    function IsOtherHoliday(): (r: bool)
      requires Valid()
      reads this
      ensures r <==> HolidayAt(table, i)
    {
      AtIsDateAtIndex(table, i, Today(), w);
      d in Holidays(table.sys, m)
    }

    /** is_holiday: a weekend day or a listed holiday. */
    function IsHoliday(): (r: bool)
      requires Valid()
      reads this
      ensures r <==> WeekDay(i) in Weekend(table.sys) || HolidayAt(table, i)
    {
      IsWeekend() || IsOtherHoliday()
    }

    /** get_annotations: the texts listed for the day in `annot`. */
    function GetAnnotations(): (r: seq<string>)
      requires Valid()
      reads this
      ensures r == AnnotationsAt(table, i)
    {
      AtIsDateAtIndex(table, i, Today(), w);
      Annotations(table.sys, m, d)
    }

    /** move_days: add n to the index, then walk the date across month
        boundaries one month at a time until the remaining count is spent. */
    method MoveDays(n: int)
      requires Valid()
      modifies this
      ensures Valid() && iStack == old(iStack)
      ensures i == old(i) + n
      ensures DayNumber(table, Today()) == DayNumber(table, old(Today())) + n
    {
      if n == 0 {
        return;
      }
      ghost var target := DayNumber(table, Today()) + n;
      i := i + n;
      var k, y', m', d' := n, y, m, d;
      while k != 0
        invariant ValidDate(table, Date(y', m', d'))
        invariant DayNumber(table, Date(y', m', d')) + k == target
        invariant i == old(i) + n && iStack == old(iStack)
        decreases Abs(k)
      {
        if k < 0 {
          // moving back
          if -k < d' {
            d' := d' + k;
            k := 0;
          } else {
            k := k + d';
            var py, pm := y', m' - 1;
            if pm == 0 {
              py, pm := y' - 1, MonthNum;
            }
            BackAcrossMonth(table, Date(y', m', d'), py, pm);
            y', m', d' := py, pm, MonthLength(table, py, pm);
          }
        } else {
          // moving forward
          var len := MonthLength(table, y', m');
          if k < len - d' + 1 {
            d' := d' + k;
            k := 0;
          } else {
            k := k - (len - d' + 1);
            var ny, nm := y', m' + 1;
            if nm > MonthNum {
              ny, nm := y' + 1, 1;
            }
            ForwardAcrossMonth(table, Date(y', m', d'), ny, nm);
            y', m', d' := ny, nm, 1;
          }
        }
      }
      y, m, d := y', m', d';
      Synch();
    }

    /** move_months: go to the last (n < 0) or first (n > 0) day of the
        month, step |n| whole months, and unless `minimal` go back to the old
        day clamped to the new month's length. */
    method MoveMonths(n: int, minimal: bool)
      requires Valid()
      modifies this
      ensures Valid() && iStack == old(iStack)
      ensures Today() == MonthsMoved(table, old(Today()), n, minimal)
    {
      if n == 0 {
        return;
      }
      ghost var start := Today();
      var d0 := d;
      if n < 0 {
        var edge := GetMonthLength();
        MoveDays(edge - d);
        DayNumberInjective(table, Today(), Date(start.y, start.m, edge));
      } else {
        MoveDays(1 - d);
        DayNumberInjective(table, Today(), Date(start.y, start.m, 1));
      }
      var k := Abs(n);
      ghost var c := 0;
      while k != 0
        invariant Valid() && iStack == old(iStack)
        invariant 0 <= k <= Abs(n) && c == (if n < 0 then n + k else n - k)
        invariant MonthIndex(y, m) == MonthIndex(start.y, start.m) + c
        invariant d == if n < 0 then MonthLength(table, y, m) else 1
        decreases k
      {
        var len := GetMonthLength();
        if n < 0 {
          ghost var py, pm := if m == 1 then y - 1 else y, if m == 1 then MonthNum else m - 1;
          BackAcrossMonth(table, Today(), py, pm);
          MoveDays(-len);
          DayNumberInjective(table, Today(), Date(py, pm, MonthLength(table, py, pm)));
          c := c - 1;
        } else {
          ghost var ny, nm := if m == MonthNum then y + 1 else y, if m == MonthNum then 1 else m + 1;
          ForwardAcrossMonth(table, Today(), ny, nm);
          MoveDays(len);
          DayNumberInjective(table, Today(), Date(ny, nm, 1));
          c := c + 1;
        }
        k := k - 1;
      }
      AddMonthsUnique(start.y, start.m, n, y, m);
      if !minimal {
        var target := Min(d0, GetMonthLength());
        ghost var here := Today();
        MoveDays(target - d);
        DayNumberInjective(table, Today(), Date(here.y, here.m, target));
      }
      Synch();
    }

    /** move_years: a month move computed from n (and, with `minimal`, from
        the current month, as the source's expression parses), then a day
        re-clamp on the non-minimal path. */
    method MoveYears(n: int, minimal: bool)
      requires Valid()
      modifies this
      ensures Valid() && iStack == old(iStack)
      ensures Today() == YearsMoved(table, old(Today()), n, minimal)
    {
      if n == 0 {
        return;
      }
      var d0 := d;
      var months := YearMonths(n, m, minimal);
      MoveMonths(months, minimal);
      var l := GetMonthLength();
      if !minimal && d != d0 && d < l {
        // the month move left the day at min(d0, l), so it differs from d0
        // only when it is l: the re-clamp of the source never runs
        assert false;
      }
      Synch();
    }

    /** The `move_${unit}s` dispatch. */
    method MoveBy(u: Unit, n: int, minimal: bool)
      requires Valid()
      modifies this
      ensures Valid() && iStack == old(iStack)
      ensures Today() == UnitMoved(table, old(Today()), u, n, minimal)
      ensures u == Day ==> i == old(i) + n
    {
      match u
      case Day =>
        MoveDays(n);
        DateOfUnique(table, Today(), DayNumber(table, old(Today())) + n);
      case Month =>
        MoveMonths(n, minimal);
        assert UnitMoved(table, old(Today()), Month, n, minimal) == MonthsMoved(table, old(Today()), n, minimal);
      case Year =>
        MoveYears(n, minimal);
        assert UnitMoved(table, old(Today()), Year, n, minimal) == YearsMoved(table, old(Today()), n, minimal);
    }

    /** move: nothing for n == 0; otherwise move by the unit of `what`,
        failing (without moving) where `what` names no unit. */
    method Move(n: int, what: string, minimal: bool) returns (ok: bool)
      requires Valid()
      modifies this
      ensures Valid() && iStack == old(iStack)
      ensures ok <==> n == 0 || GetUnit(what).Some?
      ensures !ok || n == 0 ==> i == old(i) && Today() == old(Today()) && w == old(w)
      ensures ok && n != 0 ==> Today() == UnitMoved(table, old(Today()), GetUnit(what).value, n, minimal)
      ensures GetUnit(what) == Some(Day) ==> i == old(i) + n
    {
      if n == 0 {
        return true;
      }
      var u := GetUnit(what);
      if u.None? {
        return false;
      }
      MoveBy(u.value, n, minimal);
      ok := true;
    }

    /** move_to: move by n minus the current value of field `f`, in that
        field's unit; for the index this lands on index n. */
    method MoveTo(n: int, f: Field)
      requires Valid()
      modifies this
      ensures Valid() && iStack == old(iStack)
      ensures Today() == UnitMoved(table, old(Today()), GetUnit(FieldName(f)).value, n - old(FieldValue(f)), false)
      ensures f == I ==> i == n
    {
      assert GetUnit(FieldName(f)) == Some(FieldUnit(f));
      DateOfUnique(table, Today(), DayNumber(table, Today()));
      var ok := Move(n - FieldValue(f), FieldName(f), false);
    }

    /** move_today: move to the day index of a Unix time given in seconds. */
    method MoveToday(seconds: int)
      requires Valid()
      modifies this
      ensures Valid() && iStack == old(iStack)
      ensures i == SecondsToIndex(seconds)
    {
      MoveTo(SecondsToIndex(seconds), I);
    }

    /** move_to_date: move by the year, month and day differences in turn. */
    method MoveToDate(ty: int, tm: int, td: int)
      requires Valid()
      modifies this
      ensures Valid() && iStack == old(iStack)
      ensures Today() == DateFrom(table, ty, tm, td)
      ensures ValidDate(table, Date(ty, tm, td)) ==> Today() == Date(ty, tm, td)
    {
      ghost var start := Today();
      MoveYears(ty - y, false);
      YearsMovedKeepsMonth(table, start, ty - start.y);
      assert y == ty;
      MoveMonths(tm - m, false);
      ghost var here := Today();
      assert MonthIndex(here.y, here.m) == MonthIndex(ty, 1) + tm - 1;
      MoveDays(td - d);
      assert DayNumber(table, Today()) == DayNumber(table, Date(here.y, here.m, 1)) + td - 1;
      DateFromIs(table, ty, tm, td, here.y, here.m, Today());
      Synch();
      if ValidDate(table, Date(ty, tm, td)) {
        DateFromValid(table, Date(ty, tm, td));
      }
    }

    /** save: push the index. */
    method Save()
      modifies this
      ensures iStack == old(iStack) + [old(i)]
      ensures i == old(i) && Today() == old(Today()) && w == old(w)
    {
      iStack := iStack + [i];
    }

    /** restore: pop an index and move back to it. */
    method Restore()
      requires Valid() && |iStack| > 0
      modifies this
      ensures Valid()
      ensures i == old(iStack[|iStack| - 1]) && iStack == old(iStack[..|iStack| - 1])
    {
      var top := iStack[|iStack| - 1];
      iStack := iStack[..|iStack| - 1];
      MoveTo(top, I);
    }

    /** The step of get_range's loops: a minimal move of one unit back or
        forward, which moves the index strictly, and by exactly one for days,
        into the neighbouring unit: onto its last index going back and onto
        its first going forward. */
    method Step(u: Unit, forward: bool)
      requires Valid()
      modifies this
      ensures Valid() && iStack == old(iStack)
      ensures forward ==> old(i) < i && (u == Day ==> i == old(i) + 1)
      ensures !forward ==> i < old(i) && (u == Day ==> i == old(i) - 1)
      ensures UnitIndex(table, u, i) == UnitIndex(table, u, old(i)) + (if forward then 1 else -1)
      ensures forward ==> UnitIndex(table, u, i - 1) == UnitIndex(table, u, old(i))
      ensures !forward ==> UnitIndex(table, u, i + 1) == UnitIndex(table, u, old(i))
    {
      ghost var k := i;
      AtIsDateAtIndex(table, i, Today(), w);
      if forward {
        StepForward(table, Today(), u);
        MoveBy(u, 1, true);
      } else {
        StepBack(table, Today(), u);
        MoveBy(u, -1, true);
      }
      AtIsDateAtIndex(table, i, Today(), w);
      StepUnits(table, u, k, i, forward);
    }

    /** The first loop of get_range: the values of `item` at the current
        index and at the last index of each earlier unit, while the index is
        at least `lo`, in increasing order of index.  Started at min(c, hi),
        the entries lie in consecutive units from the unit of `lo` on, each
        keyed by the index of its unit within [lo, hi] nearest to c. */
    method CollectBack(item: Field, u: Unit, lo: int, ghost hi: int, ghost c: int)
      returns (r: seq<(int, int)>)
      requires Valid() && u == FieldUnit(item) && i == Min(c, hi)
      modifies this
      ensures Valid() && iStack == old(iStack)
      ensures Tabulates(table, item, r) && Increasing(r) && KeysWithin(r, lo, old(i))
      ensures UnitsFrom(table, u, r, UnitIndex(table, u, lo)) && AllNearest(table, u, r, lo, hi, c)
      ensures lo <= old(i) ==> r != [] && r[|r| - 1].0 == old(i)
      ensures old(i) < lo ==> r == []
    {
      r := [];
      while lo <= i
        invariant Valid() && iStack == old(iStack)
        invariant BackCollected(table, item, u, r, i, old(i), lo, hi, c)
        decreases i - lo
      {
        var k, v := i, FieldValue(item);
        Step(u, false);
        BackStep(table, item, u, r, k, v, i, old(i), lo, hi, c);
        r := [(k, v)] + r;
      }
      BackDone(table, item, u, r, i, old(i), lo, hi, c);
    }

    /** The second loop of get_range: store the values of `item` at the
        current index and at the first index of each later unit while the
        index is at most `hi`; an entry already stored under the current
        index (the last one of `r0`) has its value replaced in place.
        Started at max(c, lo), the entries keep lying in consecutive units,
        up to the unit of `hi`, each keyed by the index of its unit within
        [lo, hi] nearest to c. */
    method CollectForward(item: Field, u: Unit, hi: int, r0: seq<(int, int)>, ghost lo: int, ghost c: int)
      returns (r: seq<(int, int)>)
      requires Valid() && u == FieldUnit(item) && i == Max(c, lo)
      requires Tabulates(table, item, r0) && Increasing(r0)
      requires KeysWithin(r0, lo, i) && KeysWithin(r0, lo, hi)
      requires UnitsFrom(table, u, r0, UnitIndex(table, u, lo)) && AllNearest(table, u, r0, lo, hi, c)
      requires hi < i || (r0 == [] && i == lo) || (r0 != [] && r0[|r0| - 1].0 == i)
      modifies this
      ensures Valid() && iStack == old(iStack)
      ensures Tabulates(table, item, r) && Increasing(r) && KeysWithin(r, lo, hi)
      ensures UnitsFrom(table, u, r, UnitIndex(table, u, lo)) && AllNearest(table, u, r, lo, hi, c)
      ensures hi < old(i) ==> r == r0
      ensures old(i) <= hi ==> r != [] && UnitIndex(table, u, r[|r| - 1].0) == UnitIndex(table, u, hi)
    {
      r := r0;
      while i <= hi
        invariant Valid() && iStack == old(iStack)
        invariant ForwardCollected(table, item, u, r, r0, i, old(i), lo, hi, c)
        decreases hi - i
      {
        var k, v := i, FieldValue(item);
        Step(u, true);
        ForwardStep(table, item, u, r, r0, k, v, i, old(i), lo, hi, c);
        r := Store(r, k, v);
      }
      ForwardDone(table, item, u, r, r0, i, old(i), lo, hi, c);
    }

    /** get_range: for each unit of `item` (day, month or year) that meets
        [i1, i2], in order, one entry keyed by the index of that unit within
        [i1, i2] nearest to the current index and holding the value of
        `item` there; the position is restored. */
    method GetRange(item: Field, i1: int, i2: int) returns (r: seq<(int, int)>)
      requires Valid()
      modifies this
      ensures Valid() && i == old(i) && Today() == old(Today()) && w == old(w)
      ensures iStack == old(iStack)
      ensures Tabulates(table, item, r) && Increasing(r) && KeysWithin(r, i1, i2)
      ensures var u := FieldUnit(item);
              && |r| == (if i1 <= i2 then UnitIndex(table, u, i2) - UnitIndex(table, u, i1) + 1 else 0)
              && UnitsFrom(table, u, r, UnitIndex(table, u, i1))
              && AllNearest(table, u, r, i1, i2, old(i))
      ensures FieldUnit(item) == Day ==> |r| == Max(0, i2 - i1 + 1) && Consecutive(r, i1)
    {
      var i0 := i;
      var u := FieldUnit(item);
      Save();

      // past dates, collected latest first
      MoveTo(Min(i0, i2), I);
      var past := CollectBack(item, u, i1, i2, i0);

      // future dates, a repeated key overwriting its value in place
      MoveTo(Max(i0, i1), I);
      KeysWiden(past, i1, Min(i0, i2), i1, Max(i0, i1));
      KeysWiden(past, i1, Min(i0, i2), i1, i2);
      r := CollectForward(item, u, i2, past, i1, i0);

      Restore();
      AtIsDateAtIndex(table, i0, old(Today()), old(w));
      AtIsDateAtIndex(table, i0, Today(), w);
    }
  }
}
