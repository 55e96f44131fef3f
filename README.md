# behdadcalendar in Dafny

A model of the calendar engine of `behdadcalendar.php`, a PHP multi-calendar
prototype. The engine has three layers.

- **Rule tables.** Each PHP calendar class carries a rule table:
  GregorianCalendar, PersianCalendar, PersianCalendar_33,
  PersianCalendar_2820, PersianCalendar_Iran, IslamicCalendar and
  IslamicCalendar_Iran. A table holds the month lengths, the leap month, the
  leap-year predicate, the weekend, the holidays and annotations, and the
  anchor date (`base_y`, `base_m`, `base_d`, `base_i`).
- **The one-calendar move engine (Calendar and SimpleCalendar).** A position
  is a day index `i` (days since the Unix epoch) together with the matching
  year, month, day and weekday. It moves by days, months or years, goes to a
  date, saves and restores its index, and tabulates a field over a range of
  indices.
- **The multi-calendar (MultiCalendar and MultiCalendar_Iran).** An ordered
  set of named members shares one day index, and one member is selected.
  The layer provides `add_calendar`, `select`, `multiplex`, `synch`, `move`,
  `is_other_holiday`, `get_annotations` and `save`/`restore`.

The files, one module each:

- `rules.dfy` (`CalendarRules`): the tables and PHP's truncating `%`. Each
  leap-year expression appears twice. The first form is written as in the
  source. The second is a mathematical form, and a lemma shows the two agree
  for every year. The file also holds month and year lengths.
- `daycount.dfy` (`DayCount`): dates and their day numbers, which are
  ordered and injective. Also here: the date an index denotes, month
  arithmetic, the specifications of the month and year moves, and the
  weekday.
- `simple_calendar.dfy` (`SimpleCalendars`): class `SimpleCalendar`. Its
  fields are updated in place. Every move is proved to keep `Valid()`, which
  says the year, month, day and weekday are those of the index. Every move
  is also proved to land where its specification function says.
- `multi_calendar.dfy` (`MultiCalendars`): class resolution for
  `add_calendar` and the registry the calendars build up. Also: `scals`,
  and class `MultiCalendar`, whose `Valid()` covers four things:
  - the lists agree;
  - the members are distinct, usable calendars;
  - the selection is consistent;
  - every member sits at the shared index.

Two behaviours of the source are modelled as they are:

- **`move_years(n, true)` parses unexpectedly.** The minimal branch parses
  as `((|n|-1)*month_num + n < 0) ? -m : month_num-m+1`. So only `n == -1`
  moves back; every other `n` moves to the first day of the next year
  (`YearMonthsAsParsed`). The source only calls it with `n == ±1`, from
  `get_range`, where this is the intended step.
- **A multi-calendar's `move_to` on `d`, `m` or `y` moves by `n`.** A
  MultiCalendar has no `d`, `m` or `y` field, so they read as 0. The move
  therefore goes by `n` units rather than to `n`
  (`MultiCalendars.MultiCalendar.MoveTo`).

## Model

| member | source | states |
|---|---|---|
| CalendarRules.PhpRem | behdadcalendar.php:131-133 | PHP's `%` lies strictly between -b and b, agrees with the Euclidean remainder for a non-negative dividend, and is that remainder minus b for a negative dividend not divisible by b |
| CalendarRules.NormalisedRem | behdadcalendar.php:689-693 | the source's `(x % n + n) % n` idiom yields the non-negative remainder |
| CalendarRules.PhpRemZero | behdadcalendar.php:665-668 | `!(y % k)` holds exactly when k divides y, negative years included |
| CalendarRules.TableOf | behdadcalendar.php:645-861 | each class's month lengths, leap month and anchor form a well-formed table tagged with that class: twelve months of 28 to 31 days, a leap month of at most 30 days, and an anchor day that exists |
| CalendarRules.HolidaysAreDays | behdadcalendar.php:645-861 | every day listed in a `holi` table exists in its month, and every weekend entry is a weekday 0..6 |
| CalendarRules.LeapAsWritten | behdadcalendar.php:665-824 | every `is_leap_year`, as written with PHP's `%`, equals the mathematical rule for every year, negative ones included |
| CalendarRules.GregorianCycle | behdadcalendar.php:665-668 | the Gregorian rule repeats every 400 years |
| CalendarRules.PersianCycle | behdadcalendar.php:689-693 | the 33-year Persian rule repeats every 33 years |
| CalendarRules.Persian2820Cycle | behdadcalendar.php:702-706 | the 2820-year rule repeats every 2820 years |
| CalendarRules.IslamicCycle | behdadcalendar.php:806-809 | the tabular Islamic rule repeats every 30 years |
| CalendarRules.LeapReferenceYears | behdadcalendar.php:665-824 | known years: Gregorian 2000, 2400 and 2024 are leap and 1900 is not; Persian 1399 and 1403 are leap and 1404 is not; the 2820 rule makes 1404 leap and 1403 not; Islamic 1431 is leap and 1429 is not; IslamicCalendar_Iran is never leap |
| CalendarRules.MonthLength | behdadcalendar.php:266-269 | a month has 28 to 31 days |
| CalendarRules.DaysBeforeMonthCount | behdadcalendar.php:261-269 | the days before month m are the table entries before it, plus the leap day once the leap month is past |
| CalendarRules.YearLengthIsSumOfMonths | behdadcalendar.php:261-263 | `year_length + is_leap_year()` is the sum of that year's `get_month_length` values |
| CalendarRules.TableYearLengths | behdadcalendar.php:212-224 | the constructor's sum of `month_length` is 365 for the Gregorian and Persian tables and 354 for the Islamic ones |
| DayCount.Anchor | behdadcalendar.php:206-216 | every class's base date is a valid date |
| DayCount.NextDayNumber | behdadcalendar.php:340-353 | the day after a date has the next day number |
| DayCount.PrevDayNumber | behdadcalendar.php:326-339 | the day before a date has the previous day number |
| DayCount.BackAcrossMonth | behdadcalendar.php:331-338 | move_days' backward step to the last day of the previous month lands `d` days earlier, the year wrapping at month 1 |
| DayCount.ForwardAcrossMonth | behdadcalendar.php:345-352 | move_days' forward step to the first of the next month lands `length - d + 1` days later, the year wrapping after month 12 |
| DayCount.DateOf | behdadcalendar.php:68 | every day index denotes a valid date with that day number |
| DayCount.DateOfUnique | behdadcalendar.php:68 | that date is the only valid date with that number |
| DayCount.AnchorAtBaseIndex | behdadcalendar.php:212-216 | `base_i` denotes the base date |
| DayCount.DateAtIndexMonotone | behdadcalendar.php:68 | a larger day index never denotes an earlier date |
| DayCount.AddMonths | behdadcalendar.php:296-316 | n months on from (y, m) is a month in 1..12 whose month index is n more |
| DayCount.MonthsMoved | behdadcalendar.php:296-316 | move_months' result is a valid date exactly n months on |
| DayCount.YearsMoved | behdadcalendar.php:273-294 | move_years' result is a valid date |
| DayCount.YearMonthsAsParsed | behdadcalendar.php:280-284 | as PHP parses the minimal branch, the month count is -m for n = -1 only and 12 - m + 1 for every other non-zero n |
| DayCount.MonthsMovedRoundTrip | behdadcalendar.php:296-316 | moving n months and back restores the date when the day fits in the month passed through |
| DayCount.YearsMovedKeepsMonth | behdadcalendar.php:273-294 | move_years(n) keeps the month, adds n to the year and clamps the day to the new month |
| DayCount.YearsMovedBack | behdadcalendar.php:280-284 | move_years(-1, true) lands on the last day of the previous year |
| DayCount.YearsMovedForward | behdadcalendar.php:280-284 | move_years(1, true) lands on the first day of the next year |
| DayCount.MonthsMovedMinimalStep | behdadcalendar.php:399-410 | a minimal one-month step back lands strictly earlier, and one forward strictly later |
| DayCount.YearsMovedMinimalStep | behdadcalendar.php:399-410 | the same for a minimal one-year step |
| DayCount.DateFrom | behdadcalendar.php:361-370 | move_to_date's target is a valid date |
| DayCount.DateFromValid | behdadcalendar.php:361-370 | an existing date is reached exactly |
| DayCount.WeekDay | behdadcalendar.php:131-133 | the weekday `(5 + i) % 7` lies in -6..6, and from index -5 on it is the Euclidean remainder |
| DayCount.WeekDayOfEpoch | behdadcalendar.php:656-659 | counted back from the GregorianCalendar anchor 2005/2/27 at `base_i` 12841, index 0 is 1 January 1970, and its weekday is 5, a Thursday counted from Saturday |
| DayCount.GregorianYearStart | behdadcalendar.php:656-659 | the day number of 1 January of each year 1970..2005, reckoned from the Gregorian anchor |
| DayCount.WeekDayNext | behdadcalendar.php:131-133 | from index -5 on, each day advances the weekday by one, wrapping 6 to 0 |
| DayCount.WeekDayBeforeEpoch | behdadcalendar.php:131-133 | before index -5 the weekday is the true one minus 7, which is negative, except on Saturdays |
| DayCount.AtIsDateAtIndex | behdadcalendar.php:68-71 | the index alone fixes the date and the weekday |
| SimpleCalendars.GetUnit | behdadcalendar.php:135-138 | `i`, `w` and `d` give days, `m` gives months, `y` gives years, and any other first letter gives none |
| SimpleCalendars.FieldUnit | behdadcalendar.php:384-387 | the unit get_range steps in for a field is `get_unit` of its name: days exactly for `i`, `w` and `d`, months for `m`, years for `y` |
| SimpleCalendars.UnitIndexMonotone | behdadcalendar.php:380-383 | the day, month or year an index falls in never decreases as the index grows |
| SimpleCalendars.StepUnits | behdadcalendar.php:399-410 | a minimal step back or forward lands in the previous or next day, month or year, and the day beside the landing point on the starting side still lies in the unit it left |
| SimpleCalendars.NearestBelow | behdadcalendar.php:380-383 | a key at or below the current index that is the last day of its unit (or the range end) is the day of its unit in range nearest the current index |
| SimpleCalendars.NearestAbove | behdadcalendar.php:380-383 | a key at or above the current index that is the first day of its unit (or the range start) is the day of its unit in range nearest the current index |
| SimpleCalendars.Store | behdadcalendar.php:408-411 | `$result[$this->i] = ...` overwrites the last entry when its key is the same and appends otherwise; the new entry is last and the earlier ones are kept |
| SimpleCalendars.BackStep | behdadcalendar.php:396-400 | one pass of the past loop prepends an entry for the unit just before those collected, keyed by that unit's nearest day |
| SimpleCalendars.BackDone | behdadcalendar.php:396-402 | when the past loop leaves i1 behind, its entries cover each unit from that of i1 to that of the start once, in order |
| SimpleCalendars.ForwardStep | behdadcalendar.php:407-411 | one pass of the future loop stores the entry for the current unit and steps to the next one |
| SimpleCalendars.ForwardDone | behdadcalendar.php:407-411 | when the future loop passes i2, the last entry lies in the unit of i2, or nothing was added when the start is past i2 |
| SimpleCalendars.UnitMoved | behdadcalendar.php:140-146 | a move in any unit ends on a valid date |
| SimpleCalendars.StepBack | behdadcalendar.php:397-400 | get_range's minimal step back moves strictly earlier, by exactly one day for days |
| SimpleCalendars.StepForward | behdadcalendar.php:408-411 | get_range's minimal step forward moves strictly later, by exactly one day for days |
| SimpleCalendars.MoveToMonth | behdadcalendar.php:148-150 | move_to(n, 'm') for an existing month keeps the year and clamps the day |
| SimpleCalendars.MoveToDay | behdadcalendar.php:148-150 | move_to(n, 'd') for an existing day lands on that day of the same month |
| SimpleCalendars.SecondsToIndex | behdadcalendar.php:163-165 | `(int)(t / 86400)` is the day containing t for t >= 0, truncated toward zero for t < 0 |
| SimpleCalendars.ReplaceLast | behdadcalendar.php:408-411 | re-storing the key already present keeps the range tabulated, increasing and keyed as before |
| SimpleCalendars.SimpleCalendar.constructor | behdadcalendar.php:212-224 | a calendar starts valid at its anchor date and index, with `year_length` the sum of `month_length` |
| SimpleCalendars.SimpleCalendar.Synch | behdadcalendar.php:131-133 | the weekday becomes that of the index; nothing else changes |
| SimpleCalendars.SimpleCalendar.FieldValue | behdadcalendar.php:148-150 | `$this->$what` of a valid calendar is the field's value at its index |
| SimpleCalendars.SimpleCalendar.GetMonthLength | behdadcalendar.php:266-269 | the current month has 28 to 31 days, at least the current day, and is the length at the index's date |
| SimpleCalendars.SimpleCalendar.GetYearLength | behdadcalendar.php:261-263 | the sum of the year's month lengths, and the distance to the next year's first day |
| SimpleCalendars.SimpleCalendar.GetDate | behdadcalendar.php:376-378 | (y, m, d, i), where (y, m, d) is the date index i denotes |
| SimpleCalendars.SimpleCalendar.IsWeekend | behdadcalendar.php:110-112 | holds exactly when the index's weekday is a weekend day of the table |
| SimpleCalendars.SimpleCalendar.IsOtherHoliday | behdadcalendar.php:248-251 | holds exactly when the index's date is listed in `holi` |
| SimpleCalendars.SimpleCalendar.IsHoliday | behdadcalendar.php:118-121 | holds exactly when the day is a weekend day or a listed holiday |
| SimpleCalendars.SimpleCalendar.GetAnnotations | behdadcalendar.php:253-258 | the `annot` texts of the index's date |
| SimpleCalendars.SimpleCalendar.MoveDays | behdadcalendar.php:318-359 | the index and the day number both advance by n, and the calendar stays valid |
| SimpleCalendars.SimpleCalendar.MoveMonths | behdadcalendar.php:296-316 | the date becomes `MonthsMoved`, and the calendar stays valid |
| SimpleCalendars.SimpleCalendar.MoveYears | behdadcalendar.php:273-294 | the date becomes `YearsMoved`; the source's day re-clamp never fires |
| SimpleCalendars.SimpleCalendar.MoveBy | behdadcalendar.php:140-146 | the `move_${unit}s` dispatch lands on `UnitMoved` |
| SimpleCalendars.SimpleCalendar.Move | behdadcalendar.php:140-146 | n = 0 changes nothing; an unknown unit fails without moving; otherwise the date becomes `UnitMoved`, and a day move adds n to the index |
| SimpleCalendars.SimpleCalendar.MoveTo | behdadcalendar.php:148-150 | moves by n minus the field's value in the field's unit; for `i` it lands on index n |
| SimpleCalendars.SimpleCalendar.MoveToday | behdadcalendar.php:163-165 | lands on the index of the given Unix time |
| SimpleCalendars.SimpleCalendar.MoveToDate | behdadcalendar.php:361-370 | lands on `DateFrom(y, m, d)`, which is (y, m, d) itself when that date exists |
| SimpleCalendars.SimpleCalendar.Save | behdadcalendar.php:173-175 | pushes the index and leaves the position alone |
| SimpleCalendars.SimpleCalendar.Restore | behdadcalendar.php:177-179 | pops the top index and moves back to it |
| SimpleCalendars.SimpleCalendar.Step | behdadcalendar.php:399-410 | one minimal step back or forward moves the index strictly, by one for days, into the previous or next unit, and the day beside it on the starting side lies in the unit left |
| SimpleCalendars.SimpleCalendar.CollectBack | behdadcalendar.php:393-402 | the past loop yields one entry per unit from that of i1 to that of the start, in order, each holding the item at the unit's day in [i1, i2] nearest the current index; empty when the start is before i1 |
| SimpleCalendars.SimpleCalendar.CollectForward | behdadcalendar.php:404-411 | the future loop extends the entries unit by unit up to the unit of i2, keeping one entry per unit in order, each keyed by the unit's day in [i1, i2] nearest the current index |
| SimpleCalendars.SimpleCalendar.GetRange | behdadcalendar.php:380-416 | for i1 <= i2 one entry per day, month or year meeting [i1, i2], in order, keyed by that unit's day in [i1, i2] nearest the current index and holding the item there; none for i1 > i2; for days exactly i1..i2; the position and save stack are restored |
| MultiCalendars.BaseSystem | behdadcalendar.php:925-933 | a base class with a rule table is found only for a true name, and it is GregorianCalendar, PersianCalendar or IslamicCalendar, never a variant |
| MultiCalendars.Resolve | behdadcalendar.php:920-934 | add_calendar finds a class exactly when the base rule-table class exists; a recorded variation is a true string naming the variant class instantiated, and a dropped one means the base class itself |
| MultiCalendars.ResolveIgnoresCase | behdadcalendar.php:925-932 | the class found depends on the letters of the name and variation, not on their case |
| MultiCalendars.IranResolution | behdadcalendar.php:920-934 | with "Iran" preferred, Persian and Islamic take their Iran variants and Gregorian falls back to its base class; an unknown name fails |
| MultiCalendars.Register | behdadcalendar.php:936-939 | registering keeps the lists parallel, each name once, and every formal name listed |
| MultiCalendars.RegisterUpserts | behdadcalendar.php:936-939 | array_merge puts the new class and variation under the name, keeps every other name with its entries and place, appends a new name last, and appends to `formals` when asked |
| MultiCalendars.RegisterFormal | behdadcalendar.php:938-939 | the formal flag decides only whether the name is appended to `formals` |
| MultiCalendars.RegisterAll | behdadcalendar.php:899-905 | the constructor's loop yields a coherent registry |
| MultiCalendars.IranRegistry | behdadcalendar.php:1143-1147 | MultiCalendar_Iran holds Persian_Iran, Islamic_Iran and Gregorian in that order, with the first two formal |
| MultiCalendars.Without | behdadcalendar.php:956-957 | the keys other than the removed one, each kept |
| MultiCalendars.SelectedFirstCovers | behdadcalendar.php:956-958 | `scals` holds exactly the keys |
| MultiCalendars.SelectedFirstIsPermutation | behdadcalendar.php:954-958 | `scals` is the key list with the selected key moved to the front, and is a permutation of it |
| MultiCalendars.ConcatMembers | behdadcalendar.php:993-996 | a text is in the merged annotations exactly when some member lists it |
| MultiCalendars.DefaultVariation | behdadcalendar.php:892-893 | a true variation is kept; a false one becomes "Iran" for MultiCalendar_Iran and is kept for MultiCalendar |
| MultiCalendars.MultiCalendar.MemberTableIsRecorded | behdadcalendar.php:934-937 | each member is an instance of the class recorded for its name |
| MultiCalendars.MultiCalendar.MultiplexVisitsAll | behdadcalendar.php:961-971 | in either order, multiplex visits every member exactly once |
| MultiCalendars.MultiCalendar.constructor | behdadcalendar.php:885-918 | a fresh valid multi-calendar whose registry is the constructor loop over the given lists, or the class defaults when a list is empty; the first name is selected, its weekend taken, and the shared index is that member's anchor `base_i`; without names there is no selection, index 0 and no weekend |
| MultiCalendars.MultiCalendar.Start | behdadcalendar.php:907-917 | selects the first name, synchs to that member's anchor index, takes its weekend and synchs again |
| MultiCalendars.MultiCalendar.TakeWeekend | behdadcalendar.php:910-915 | the weekend becomes the selected member's, and stays unset without one |
| MultiCalendars.MultiCalendar.AddAll | behdadcalendar.php:899-905 | the fast adds build `RegisterAll` of the lists, with every member still at its anchor |
| MultiCalendars.MultiCalendar.AddCalendar | behdadcalendar.php:920-945 | fails exactly when the class is missing, and then changes no field of the multi-calendar or of any member; otherwise registers as `Register`; a slow add keeps the selection and leaves the multi-calendar valid, and a fast one leaves the selection and index alone; the variation, weekend and save stack never change; after a slow add to a valid multi-calendar the shared index (and weekday) is unchanged when another name is selected, and is the new member's anchor `base_i` when the added name is the selected one or nothing was selected |
| MultiCalendars.MultiCalendar.AddFast | behdadcalendar.php:920-939 | resolution, instantiation and registration, with fresh members at their anchors and the old names kept as a prefix; nothing changes when the class is missing; on success, in a valid multi-calendar, the member select() will settle on is at the old shared index unless it is the new one, which is at its anchor |
| MultiCalendars.MultiCalendar.AddFound | behdadcalendar.php:934-939 | once the class is found: the registration of `Register`, a fresh member at its anchor, and the member select() will settle on is at the old shared index when another name is selected, else at the new member's `base_i` |
| MultiCalendars.MultiCalendar.AddNew | behdadcalendar.php:934-939 | `new $klass ()` and the registration: the new instance joins `Repr` at its class's anchor, and the member select() will settle on is the new one when it takes the selected name or there were no names, else the one chosen before |
| MultiCalendars.NewMember | behdadcalendar.php:934 | `new $klass ()` gives a fresh usable member of that class at its anchor index |
| MultiCalendars.MultiCalendar.Enroll | behdadcalendar.php:935-939 | registering the instance gives `Register` of the old registry and keeps the member invariant; the chosen member is the instance exactly when its name is the selected one or there were no names |
| MultiCalendars.MultiCalendar.Reselect | behdadcalendar.php:941-944 | re-selecting the current id, or the first name without one, and synching leaves a valid multi-calendar with the same registry, whose shared index is where the member it settles on was (synch copies `c->i`, lines 998-999) |
| MultiCalendars.MultiCalendar.Upsert | behdadcalendar.php:936-939 | the fields become `Register` of the old registry, the names become `MergedKeys` and the members `MergedAt` of the old ones with the new instance, and the member invariant is kept |
| MultiCalendars.MergedKeys | behdadcalendar.php:936 | array_merge with one more key: the key is present afterwards and the old keys stay a prefix |
| MultiCalendars.MergedLookup | behdadcalendar.php:936-937 | after array_merge the merged key holds the new value and every other key keeps its own |
| MultiCalendars.MergedFirst | behdadcalendar.php:936-937 | after array_merge the first value is the new one exactly when the keys were empty or began with the merged key |
| MultiCalendars.MergedChosen | behdadcalendar.php:936-937 | after array_merge the member under the selected name (or the first name) changes only when that name is the merged one or there were no names, and then it is the new value |
| MultiCalendars.IndexOfPrefix | behdadcalendar.php:936 | extending a key list leaves each key at its position |
| MultiCalendars.MultiCalendar.Merge | behdadcalendar.php:936-937 | the two array_merge calls give the names, variations and classes of `Register`, with `formals` untouched |
| MultiCalendars.MultiCalendar.AddFormal | behdadcalendar.php:938-939 | appends the name to `formals` and keeps the member invariant |
| MultiCalendars.MultiCalendar.Replace | behdadcalendar.php:936-937 | a known name keeps its place and gets the new variation and member |
| MultiCalendars.MultiCalendar.Append | behdadcalendar.php:936-937 | a new name goes last with its variation and member |
| MultiCalendars.MultiCalendar.Select | behdadcalendar.php:947-959 | a true id is selected; a false one keeps the current selection, or selects the first key (none when empty); `scals` is the selected key first; no other field changes |
| MultiCalendars.MultiCalendar.MoveMemberTo | behdadcalendar.php:965-968 | one multiplex('move_to') call moves that member to the index and leaves the others where they are |
| MultiCalendars.MultiCalendar.MultiplexMoveTo | behdadcalendar.php:961-971 | every member listed in the order is at index n afterwards |
| MultiCalendars.MultiCalendar.Synch | behdadcalendar.php:998-1002 | the shared index becomes the selected member's (0 without one), every member moves to it, and the weekday follows |
| MultiCalendars.MultiCalendar.IsWeekend | behdadcalendar.php:110-112 | the weekday is a weekend day; while the weekend is unset every day is a weekend day |
| MultiCalendars.MultiCalendar.MemberHoliday | behdadcalendar.php:988-989 | one formal member's answer is its listed holiday at the shared index |
| MultiCalendars.MultiCalendar.IsOtherHoliday | behdadcalendar.php:986-991 | holds exactly when some formal member lists a holiday on the shared day |
| MultiCalendars.MultiCalendar.IsHoliday | behdadcalendar.php:118-121 | a weekend day, an unset weekend, or a holiday of a formal member |
| MultiCalendars.MultiCalendar.GetAnnotations | behdadcalendar.php:993-996 | every member's annotations for the shared day, merged in key order |
| MultiCalendars.MultiCalendar.MoveMember | behdadcalendar.php:1005-1006 | the selected member moves as its own move does, and the others stay put |
| MultiCalendars.MultiCalendar.Move | behdadcalendar.php:1004-1008 | the selected member moves (an empty multi-calendar has none), then everything is synched to its index; the registry and selection are kept |
| MultiCalendars.MultiCalendar.MoveTo | behdadcalendar.php:148-150 | for `i` it lands on index n, for `w` it moves by n - w days, and for `d`, `m` and `y` it moves by n units (so a move by 0 months or years keeps the shared index); without a selection the shared index is 0 |
| MultiCalendars.MultiCalendar.MoveToday | behdadcalendar.php:163-165 | lands on the index of the given Unix time; the registry, selection, `scals`, variation, weekend and save stack are kept |
| MultiCalendars.MultiCalendar.Save | behdadcalendar.php:1012-1014 | pushes the shared index and keeps the multi-calendar valid |
| MultiCalendars.MultiCalendar.Restore | behdadcalendar.php:1016-1018 | pops the top index and moves everything back to it; the registry, selection, `scals`, variation and weekend are kept |

## Left out

- Everything that renders or translates is not part of this model:
  - `str`;
  - the `html_*` methods;
  - `N_`, `NUM_` and the direction helpers;
  - month and weekday names;
  - `lang`, CSS and the session code.
- `week_start`, `set_week_start`, `max_month_length` and `is_inactive` are left out. No operation of the model reads them.
- The wall clock is left out: `move_today` takes the Unix time in seconds as a parameter instead of calling `date('U')`.
- `synch_sem` is left out. Its test ends in a stray `;`, so `synch` runs after every move whatever the counter says, and the counter is unobservable.
- `multiplex` is modelled only for the calls the core makes, `move_to` and `get_annotations`. The dispatch of any method name by string is left out.
- `set_date` is left out. It only forwards to `move_to_date`.
- The numeric-key form of the constructor's list (a bare name standing for name => '') is left out. The lists are given as (name, variation) pairs, with "" standing for ''.
- PHP's loose comparisons are not modelled. Keys are exact strings, so numeric-string keys and loose `array_search` matches are left out.
- PHP references are left out. The model keeps `c` as the selected key and looks the member up, instead of holding a reference to it.
- select() on a multi-calendar with no names takes a reference to `cals[null]`, and PHP creates a `"" => null` slot in `cals` to hold it. That slot is never removed: later add_calendar calls only add keys. So for a multi-calendar built with no names, every method that runs over `cals` or `scals` (synch, multiplex, get_annotations) also visits the null slot and calls a method on null. get_annotations then passes a null to array_merge and returns null, even after members have been added. The model keeps `cals` to the real members, so its `GetAnnotations` returns their annotations (the empty list when there are none).
- SimpleCalendars.SimpleCalendar.Move: an unknown unit letter makes the source call a missing method and crash. The model returns false and does not move.
- MultiCalendars.BaseSystem: the names '', 'simple' and 'multi' make `class_exists` find the classes Calendar, SimpleCalendar and MultiCalendar, so add_calendar would instantiate one of them. Those classes have no rule table and cannot stand as a member, so the model resolves only the three rule-table families and treats these names as missing.
- MultiCalendars.Resolve: for the same reason it returns none for '', 'simple' and 'multi' whatever the variation, although PHP would instantiate Calendar, SimpleCalendar, MultiCalendar or (for 'multi' with 'Iran') MultiCalendar_Iran.
- add_calendar's return value is modelled as a bool. The source returns false for a missing class and null otherwise.
- MultiCalendars.MultiCalendar.Select: selecting an unknown id is excluded by a precondition, because the source would select a null member.
- MultiCalendars.MultiCalendar.Restore and SimpleCalendars.SimpleCalendar.Restore: restoring with an empty stack is excluded by a precondition, because the source moves to a null index.
- MultiCalendars.MultiCalendar.AddCalendar: after a fast add the members are not at a common index. Its contract then promises only the member invariant and an unchanged selection, not `Valid()`.
- MultiCalendars.MultiCalendar.Move: for months and years it states where the selected member lands, but not the shared index as a number.
- Integer overflow is not modelled. PHP integers are 64-bit, and no reachable index or year comes near the limit.
