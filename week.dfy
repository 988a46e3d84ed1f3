/** `Scheduler.getWeekSchedule`: the Monday-Friday of the week holding a
    date, each with its entry from the full-year schedule of that date's year. */
module Week {
  import opened Arith
  import opened Dates
  import opened DateFormat
  import opened DayStatus
  import opened KeyedDays
  import opened Scheduler

  /** The Monday of the week holding `date`, a Sunday counting as the last
      day of the week that began six days earlier. */
  function MondayOf(date: int): (m: int)
    ensures Weekday(m) == 1
    ensures m <= date < m + 7
  {
    var day := Weekday(date);
    var q := (date + 4) / 7;
    if day == 0 then
      DivModUnique(date - 2, 7, q - 1, 1);
      date - 6
    else
      DivModUnique(date - day + 5, 7, q, 1);
      date - day + 1
  }

  /** Two days less than a week apart fall on different weekdays. */
  lemma WeekdaysDiffer(a: int, b: int)
    requires a <= b < a + 7
    requires Weekday(a) == Weekday(b)
    ensures a == b
  {
    WeekdayShift(a, b - a);
  }

  /** The Monday of a week is the only Monday at most six days before a date. */
  lemma MondayUnique(date: int, m: int)
    requires Weekday(m) == 1 && m <= date < m + 7
    ensures m == MondayOf(date)
  {
    var m' := MondayOf(date);
    if m <= m' {
      WeekdaysDiffer(m, m');
    } else {
      WeekdaysDiffer(m', m);
    }
  }

  /** Day `j` of a week that starts on a Monday is weekday `j + 1`. */
  lemma WeekdayOfWeek(monday: int, j: int)
    requires Weekday(monday) == 1 && 0 <= j < 5
    ensures Weekday(monday + j) == j + 1
    ensures IsSchoolDay(monday + j)
  {
    var q := (monday + 4) / 7;
    DivModUnique(monday + j + 4, 7, q, j + 1);
  }

  /** What `getWeekSchedule` has collected once it has looked at the first `n`
      days from `monday`: a view of each day whose key is in the schedule, in
      order, named after its place in the week. */
  function WeekUpTo(key: int -> string, schedule: map<string, Entry>, monday: int, n: nat): seq<DayView>
    requires n <= 5
  {
    if n == 0 then []
    else
      var dateStr := key(monday + n - 1);
      var today := if dateStr in schedule then [DayView(WEEKDAY_NAMES[n - 1], dateStr, schedule[dateStr])] else [];
      WeekUpTo(key, schedule, monday, n - 1) + today
  }

  /** The loop of `getWeekSchedule` over the five days from `monday`, keying
      each by `key` (`getWeekSchedule` passes `formatDate`). */
  method WeekDays(key: int -> string, fullSchedule: map<string, Entry>, monday: int) returns (weekData: seq<DayView>)
    ensures weekData == WeekUpTo(key, fullSchedule, monday, 5)
  {
    weekData := [];
    for i := 0 to 5
      invariant weekData == WeekUpTo(key, fullSchedule, monday, i)
    {
      var d := monday + i;
      var dateStr := key(d);
      if dateStr in fullSchedule {
        weekData := weekData + [DayView(WEEKDAY_NAMES[i], dateStr, fullSchedule[dateStr])];
      }
    }
  }

  function Clamp(x: int, lo: int, hi: int): int {
    if x < lo then lo else if x > hi then hi else x
  }

  /** The days `lo .. hi - 1` of the week from `monday`, each with its entry in
      a walk over the days from `first`. */
  function WeekBlock(key: int -> string, groups: seq<Group>, holidays: map<string, Status>, first: int,
                     monday: int, lo: int, hi: int): seq<DayView>
    requires |groups| > 0
    requires 0 <= lo <= hi <= 5
  {
    seq(hi - lo, j requires 0 <= j < hi - lo =>
      DayView(WEEKDAY_NAMES[lo + j], key(monday + lo + j), DayEntry(key, groups, holidays, first, monday + lo + j)))
  }

  /** The days of the week from `monday`, among its first `n`, that lie in
      `[first, end)`: a run of consecutive days, each with its entry in a walk
      over the days from `first`. */
  function WeekInRange(key: int -> string, groups: seq<Group>, holidays: map<string, Status>, first: int, end: int,
                       monday: int, n: nat): seq<DayView>
    requires |groups| > 0 && n <= 5
  {
    var lo := Clamp(first - monday, 0, n);
    WeekBlock(key, groups, holidays, first, monday, lo, Clamp(end - monday, lo, n))
  }

  /** An empty run of days. */
  lemma WeekBlockEmpty(key: int -> string, groups: seq<Group>, holidays: map<string, Status>, first: int,
                       monday: int, lo: int)
    requires |groups| > 0 && 0 <= lo <= 5
    ensures WeekBlock(key, groups, holidays, first, monday, lo, lo) == []
  {
  }

  /** A run of days grows by the day after it. */
  lemma WeekBlockSnoc(key: int -> string, groups: seq<Group>, holidays: map<string, Status>, first: int,
                      monday: int, lo: int, hi: int)
    requires |groups| > 0 && 0 <= lo <= hi < 5
    ensures WeekBlock(key, groups, holidays, first, monday, lo, hi + 1)
      == WeekBlock(key, groups, holidays, first, monday, lo, hi)
         + [DayView(WEEKDAY_NAMES[hi], key(monday + hi), DayEntry(key, groups, holidays, first, monday + hi))]
  {
  }

  /** How the run of days of a week inside `[a, b)` (relative to its Monday)
      changes when one more day `n - 1` is looked at. */
  lemma ClampStep(a: int, b: int, n: int)
    requires 1 <= n <= 5
    ensures var lo, lo' := Clamp(a, 0, n), Clamp(a, 0, n - 1);
      var hi, hi' := Clamp(b, lo, n), Clamp(b, lo', n - 1);
      0 <= lo <= hi <= n && 0 <= lo' <= hi' <= n - 1
      && (a <= n - 1 < b ==> lo == lo' && hi == n && hi' == n - 1)
      && (n - 1 < a ==> lo == hi && lo' == hi')
      && (a <= n - 1 && b <= n - 1 ==> lo == lo' && hi == hi')
  {
  }

  /** Looking at day `n - 1` of the week, when it lies in `[first, end)`
      and the schedule holds its entry, extends the collected run by that day. */
  lemma WeekStepIn(key: int -> string, schedule: map<string, Entry>, groups: seq<Group>,
                   holidays: map<string, Status>, first: int, end: int, monday: int, n: nat)
    requires |groups| > 0 && 1 <= n <= 5
    requires first <= monday + n - 1 < end
    requires key(monday + n - 1) in schedule
    requires schedule[key(monday + n - 1)] == DayEntry(key, groups, holidays, first, monday + n - 1)
    requires WeekUpTo(key, schedule, monday, n - 1) == WeekInRange(key, groups, holidays, first, end, monday, n - 1)
    ensures WeekUpTo(key, schedule, monday, n) == WeekInRange(key, groups, holidays, first, end, monday, n)
  {
    ClampStep(first - monday, end - monday, n);
    WeekBlockSnoc(key, groups, holidays, first, monday, Clamp(first - monday, 0, n), n - 1);
  }

  /** Looking at day `n - 1` of the week, when it lies outside `[first, end)`
      and the schedule has no key for it, leaves the collected run as it was. */
  lemma WeekStepOut(key: int -> string, schedule: map<string, Entry>, groups: seq<Group>,
                    holidays: map<string, Status>, first: int, end: int, monday: int, n: nat)
    requires |groups| > 0 && 1 <= n <= 5
    requires !(first <= monday + n - 1 < end)
    requires key(monday + n - 1) !in schedule
    requires WeekUpTo(key, schedule, monday, n - 1) == WeekInRange(key, groups, holidays, first, end, monday, n - 1)
    ensures WeekUpTo(key, schedule, monday, n) == WeekInRange(key, groups, holidays, first, end, monday, n)
  {
    ClampStep(first - monday, end - monday, n);
    if monday + n - 1 < first {
      WeekBlockEmpty(key, groups, holidays, first, monday, Clamp(first - monday, 0, n));
      WeekBlockEmpty(key, groups, holidays, first, monday, Clamp(first - monday, 0, n - 1));
    }
  }

  /** Looking at the first `n` days of a week in a schedule that holds, among
      the days of that week, exactly those in `[first, end)`, each with its
      `DayEntry`, collects those days: a run of consecutive days. */
  lemma {:induction false} WeekOf(key: int -> string, schedule: map<string, Entry>, groups: seq<Group>,
                                  holidays: map<string, Status>, first: int, end: int, monday: int, n: nat)
    requires |groups| > 0 && n <= 5
    requires forall d :: monday <= d < monday + 5 ==> (key(d) in schedule <==> first <= d < end)
    requires forall d :: monday <= d < monday + 5 && key(d) in schedule ==>
      schedule[key(d)] == DayEntry(key, groups, holidays, first, d)
    ensures WeekUpTo(key, schedule, monday, n) == WeekInRange(key, groups, holidays, first, end, monday, n)
    decreases n
  {
    if n == 0 {
      WeekBlockEmpty(key, groups, holidays, first, monday, 0);
    } else {
      WeekOf(key, schedule, groups, holidays, first, end, monday, n - 1);
      var d := monday + n - 1;
      if first <= d < end {
        WeekStepIn(key, schedule, groups, holidays, first, end, monday, n);
      } else {
        WeekStepOut(key, schedule, groups, holidays, first, end, monday, n);
      }
    }
  }

  /** Every day of a run is in it, under its weekday's name, with its entry. */
  lemma BlockHas(key: int -> string, groups: seq<Group>, holidays: map<string, Status>, first: int,
                 monday: int, lo: int, hi: int, d: int)
    requires |groups| > 0 && 0 <= lo <= d - monday < hi <= 5
    ensures DayView(WEEKDAY_NAMES[d - monday], key(d), DayEntry(key, groups, holidays, first, d))
      in WeekBlock(key, groups, holidays, first, monday, lo, hi)
  {
    var week := WeekBlock(key, groups, holidays, first, monday, lo, hi);
    assert week[d - monday - lo] == DayView(WEEKDAY_NAMES[d - monday], key(d), DayEntry(key, groups, holidays, first, d));
  }

  /** A day of the week inside the range falls inside the clamped run. */
  lemma ClampContains(a: int, b: int, j: int)
    requires a <= j < b && 0 <= j < 5
    ensures Clamp(a, 0, 5) <= j < Clamp(b, Clamp(a, 0, 5), 5)
  {
  }

  /** Collecting the Monday-Friday of a week from a walk over `[first, end)`
      keyed by an invertible `key` yields the days of that week inside the
      range, in order, each with its `DayEntry`. */
  lemma WalkWeek(key: int -> string, groups: seq<Group>, holidays: map<string, Status>,
                 first: int, end: int, schedule: map<string, Entry>, monday: int)
    requires |groups| > 0 && Injective(key) && Weekday(monday) == 1
    requires schedule == MapOf(key, IsSchoolDay, EntryOf(key, groups, holidays, first), first, end)
    ensures WeekUpTo(key, schedule, monday, 5) == WeekInRange(key, groups, holidays, first, end, monday, 5)
  {
    forall d | monday <= d < monday + 5
      ensures key(d) in schedule <==> first <= d < end
      ensures key(d) in schedule ==> schedule[key(d)] == DayEntry(key, groups, holidays, first, d)
    {
      WeekdayOfWeek(monday, d - monday);
      WalkHas(key, groups, holidays, first, end, schedule, d);
      if first <= d < end {
        WalkValue(key, groups, holidays, first, end, schedule, d);
      }
    }
    WeekOf(key, schedule, groups, holidays, first, end, monday, 5);
  }

  /** `Scheduler.getWeekSchedule(inputDate)` over the roster `groups` and a
      snapshot `holidays` of the stored overrides: it lists the days of the
      input's week (from the Monday before a Sunday) that lie in the year
      `generateCalendar` built, consecutively and in order, each named after
      its weekday, keyed by `formatDate`, with its calendar entry. */
  method GetWeekSchedule(inputDate: int, groups: seq<Group>, holidays: map<string, Status>) returns (weekData: seq<DayView>)
    requires |groups| > 0
    ensures weekData == WeekInRange(FormatDate, groups, holidays, FirstDay(ToCivil(inputDate).year),
                                    LastDay(ToCivil(inputDate).year) + 1, MondayOf(inputDate), 5)
  {
    var year := ToCivil(inputDate).year;
    var fullSchedule := GenerateCalendar(year, groups, holidays);
    var monday := MondayOf(inputDate);
    weekData := WeekDays(FormatDate, fullSchedule, monday);
    FormatDateInjective();
    WalkWeek(FormatDate, groups, holidays, FirstDay(year), LastDay(year) + 1, fullSchedule, monday);
  }

  /** The day of a Monday-Friday `date` within its week. */
  lemma PlaceInWeek(date: int)
    requires IsSchoolDay(date)
    ensures MondayOf(date) <= date < MondayOf(date) + 5
    ensures date - MondayOf(date) == Weekday(date) - 1
  {
    WeekdayShift(MondayOf(date), date - MondayOf(date));
  }

  /** The day of item `i` of the run a week from `monday` lists out of `[first, end)`. */
  function ListedDay(first: int, monday: int, i: int): int {
    monday + Clamp(first - monday, 0, 5) + i
  }

  /** What the week lists: at most five days, consecutive and in order, each
      a Monday-Friday of `[first, end)` named after its weekday, under its
      key, with its entry. */
  lemma WeekItems(key: int -> string, groups: seq<Group>, holidays: map<string, Status>,
                  first: int, end: int, monday: int)
    requires |groups| > 0 && Weekday(monday) == 1
    ensures |WeekInRange(key, groups, holidays, first, end, monday, 5)| <= 5
    ensures forall i :: 0 <= i < |WeekInRange(key, groups, holidays, first, end, monday, 5)| ==>
      first <= ListedDay(first, monday, i) < end && IsSchoolDay(ListedDay(first, monday, i))
    ensures forall i :: 0 <= i < |WeekInRange(key, groups, holidays, first, end, monday, 5)| ==>
      WeekInRange(key, groups, holidays, first, end, monday, 5)[i]
      == DayView(WEEKDAY_NAMES[Weekday(ListedDay(first, monday, i)) - 1], key(ListedDay(first, monday, i)),
                 DayEntry(key, groups, holidays, first, ListedDay(first, monday, i)))
  {
    forall i | 0 <= i < |WeekInRange(key, groups, holidays, first, end, monday, 5)|
      ensures first <= ListedDay(first, monday, i) < end && IsSchoolDay(ListedDay(first, monday, i))
      ensures WeekInRange(key, groups, holidays, first, end, monday, 5)[i]
        == DayView(WEEKDAY_NAMES[Weekday(ListedDay(first, monday, i)) - 1], key(ListedDay(first, monday, i)),
                   DayEntry(key, groups, holidays, first, ListedDay(first, monday, i)))
    {
      WeekdayOfWeek(monday, Clamp(first - monday, 0, 5) + i);
    }
  }

  /** A Monday-Friday of `[first, end)` is among the days its week lists,
      under its weekday's name, with its entry. */
  lemma DayListed(key: int -> string, groups: seq<Group>, holidays: map<string, Status>,
                  first: int, end: int, week: seq<DayView>, date: int)
    requires |groups| > 0 && IsSchoolDay(date) && first <= date < end
    requires week == WeekInRange(key, groups, holidays, first, end, MondayOf(date), 5)
    ensures DayView(WEEKDAY_NAMES[Weekday(date) - 1], key(date), DayEntry(key, groups, holidays, first, date)) in week
  {
    var monday := MondayOf(date);
    PlaceInWeek(date);
    ClampContains(first - monday, end - monday, date - monday);
    var lo := Clamp(first - monday, 0, 5);
    BlockHas(key, groups, holidays, first, monday, lo, Clamp(end - monday, lo, 5), date);
  }

  /** A Monday-Friday input date whose year `new Date` keeps as it is
      (outside 0-99) is among the days `getWeekSchedule` lists, under its
      weekday's name, with its entry. */
  lemma InputDayListed(inputDate: int, groups: seq<Group>, holidays: map<string, Status>)
    requires |groups| > 0 && IsSchoolDay(inputDate)
    requires !(0 <= ToCivil(inputDate).year <= 99)
    ensures DayView(WEEKDAY_NAMES[Weekday(inputDate) - 1], FormatDate(inputDate),
                    DayEntry(FormatDate, groups, holidays, FirstDay(ToCivil(inputDate).year), inputDate))
      in WeekInRange(FormatDate, groups, holidays, FirstDay(ToCivil(inputDate).year),
                     LastDay(ToCivil(inputDate).year) + 1, MondayOf(inputDate), 5)
  {
    var year := ToCivil(inputDate).year;
    FirstLastDay(year);
    InYearIff(year, inputDate);
    DayListed(FormatDate, groups, holidays, FirstDay(year), LastDay(year) + 1,
              WeekInRange(FormatDate, groups, holidays, FirstDay(year), LastDay(year) + 1, MondayOf(inputDate), 5), inputDate);
  }
}
