/** `Scheduler.generateCalendar` (`Scheduler.getWeekSchedule` is in module
    `Week`). The generator walks every day of a year, gives each Monday-Friday an entry
    and shifts one group off the rotation queue per normal school day; a
    holiday or no-class day copies its status and leaves the queue alone. */
module Scheduler {
  import opened Dates
  import opened DateFormat
  import opened DayStatus
  import opened Rotation
  import opened KeyedDays

  /** A roster entry, by its identifier. */
  type Group = string

  datatype Option<T> = None | Some(value: T)

  /** One day of the full-year schedule. A normal day's entry has no
      description field at all, hence `None`. */
  datatype Entry = Entry(kind: string, description: Option<string>, groups: seq<Group>)

  /** One element of `getWeekSchedule`'s result (the display-only `dateStr` is not kept). */
  datatype DayView = DayView(dayName: string, fullDate: string, data: Entry)

  const WEEKDAY_NAMES: seq<string> := ["Segunda", "Terça", "Quarta", "Quinta", "Sexta"]

  /** `new Date(year, month, day)` reads a year from 0 to 99 as 1900 + year. */
  function DateConstructorYear(year: int): int {
    if 0 <= year <= 99 then 1900 + year else year
  }

  /** `new Date(year, 0, 1)`, where the generator's walk starts. */
  function FirstDay(year: int): int {
    FromCivil(Civil(DateConstructorYear(year), 1, 1))
  }

  /** `new Date(year, 11, 31)`, the last day the walk visits. */
  function LastDay(year: int): int {
    FromCivil(Civil(DateConstructorYear(year), 12, 31))
  }

  lemma FirstLastDay(year: int)
    ensures FirstDay(year) == YearStart(DateConstructorYear(year))
    ensures LastDay(year) == YearStart(DateConstructorYear(year) + 1) - 1
    ensures FirstDay(year) + 364 <= LastDay(year)
  {
    YearBounds(DateConstructorYear(year));
    YearStep(DateConstructorYear(year));
  }

  /** Monday to Friday. */
  predicate IsSchoolDay(date: int) {
    1 <= Weekday(date) <= 5
  }

  /** A school day whose effective status, looked up under its `key`, is
      `AULA_NORMAL`: the days that take a group. */
  predicate IsNormalDay(key: int -> string, holidays: map<string, Status>, date: int) {
    IsSchoolDay(date) && EffectiveStatus(holidays, key(date)).kind == AULA_NORMAL
  }

  /** How many normal school days lie in `[lo, hi)`. */
  function NormalDaysBetween(key: int -> string, holidays: map<string, Status>, lo: int, hi: int): nat
    decreases hi - lo
  {
    if hi <= lo then 0
    else NormalDaysBetween(key, holidays, lo, hi - 1) + (if IsNormalDay(key, holidays, hi - 1) then 1 else 0)
  }

  /** The entry of school day `date` in a walk that started at `first`: a normal
      day gets the next slot of the repetition of `refillQueue()`, one slot per
      normal day before it; any other day copies its status and gets no group. */
  function DayEntry(key: int -> string, groups: seq<Group>, holidays: map<string, Status>, first: int, date: int): Entry
    requires |groups| > 0
  {
    var status := EffectiveStatus(holidays, key(date));
    if status.kind == AULA_NORMAL then
      Entry(AULA_NORMAL, None, [Cycle(groups, NormalDaysBetween(key, holidays, first, date))])
    else
      Entry(status.kind, Some(status.description), [])
  }

  function EntryOf(key: int -> string, groups: seq<Group>, holidays: map<string, Status>, first: int): int -> Entry
    requires |groups| > 0
  {
    date => DayEntry(key, groups, holidays, first, date)
  }

  /** The full-year schedule: the walk from January 1 through December 31
      that writes each Monday-Friday's `DayEntry` under its `formatDate` key.
      `CalendarDay` and `CalendarKey` state which keys it holds and what. */
  function Calendar(year: int, groups: seq<Group>, holidays: map<string, Status>): map<string, Entry>
    requires |groups| > 0
  {
    MapOf(FormatDate, IsSchoolDay, EntryOf(FormatDate, groups, holidays, FirstDay(year)), FirstDay(year), LastDay(year) + 1)
  }

  /** A walk over `[first, end)` keyed by an invertible `key` has an entry
      for day `d` exactly when `d` is a Monday-Friday of the range. */
  lemma WalkHas(key: int -> string, groups: seq<Group>, holidays: map<string, Status>,
                first: int, end: int, m: map<string, Entry>, d: int)
    requires |groups| > 0
    requires Injective(key)
    requires m == MapOf(key, IsSchoolDay, EntryOf(key, groups, holidays, first), first, end)
    ensures key(d) in m <==> first <= d < end && IsSchoolDay(d)
  {
    if key(d) in m {
      MapOfKey(key, IsSchoolDay, EntryOf(key, groups, holidays, first), first, end, key(d));
    }
    if first <= d < end && IsSchoolDay(d) {
      MapOfAt(key, IsSchoolDay, EntryOf(key, groups, holidays, first), first, end, d);
    }
  }

  /** ... and that entry is the day's `DayEntry`. */
  lemma WalkValue(key: int -> string, groups: seq<Group>, holidays: map<string, Status>,
                  first: int, end: int, m: map<string, Entry>, d: int)
    requires |groups| > 0
    requires Injective(key)
    requires m == MapOf(key, IsSchoolDay, EntryOf(key, groups, holidays, first), first, end)
    requires first <= d < end && IsSchoolDay(d)
    ensures key(d) in m && m[key(d)] == DayEntry(key, groups, holidays, first, d)
  {
    MapOfAt(key, IsSchoolDay, EntryOf(key, groups, holidays, first), first, end, d);
  }

  /** The groups a schedule assigns over the days `[lo, hi)`, read in date order. */
  function AssignedBetween(key: int -> string, schedule: map<string, Entry>, lo: int, hi: int): seq<Group>
    decreases hi - lo
  {
    if hi <= lo then []
    else
      var today := if key(hi - 1) in schedule then schedule[key(hi - 1)].groups else [];
      AssignedBetween(key, schedule, lo, hi - 1) + today
  }

  /** Read in date order, a walk's schedule assigns the repetition of
      `refillQueue()` slot by slot, one slot per normal school day and none on
      any other day. */
  lemma {:induction false} WalkRotation(key: int -> string, groups: seq<Group>,
                                        holidays: map<string, Status>, first: int, end: int, hi: int)
    requires |groups| > 0
    requires Injective(key)
    requires first <= hi <= end
    ensures AssignedBetween(key, MapOf(key, IsSchoolDay, EntryOf(key, groups, holidays, first), first, end), first, hi)
      == RepeatedPrefix(groups, NormalDaysBetween(key, holidays, first, hi))
    decreases hi - first
  {
    if hi > first {
      WalkRotation(key, groups, holidays, first, end, hi - 1);
      var m := MapOf(key, IsSchoolDay, EntryOf(key, groups, holidays, first), first, end);
      WalkHas(key, groups, holidays, first, end, m, hi - 1);
      if IsSchoolDay(hi - 1) {
        WalkValue(key, groups, holidays, first, end, m, hi - 1);
      }
      RepeatedPrefixStep(groups, NormalDaysBetween(key, holidays, first, hi - 1));
    }
  }

  /** Normal school days with only holidays, no-class days and weekends
      between them take consecutive slots: a day off defers the rotation
      instead of skipping a group. */
  lemma {:induction false} NextNormalDay(key: int -> string, holidays: map<string, Status>, first: int, d1: int, d2: int)
    requires first <= d1 < d2
    requires IsNormalDay(key, holidays, d1)
    requires forall d :: d1 < d < d2 ==> !IsNormalDay(key, holidays, d)
    ensures NormalDaysBetween(key, holidays, first, d2) == NormalDaysBetween(key, holidays, first, d1) + 1
    decreases d2 - d1
  {
    if d2 > d1 + 1 {
      NextNormalDay(key, holidays, first, d1, d2 - 1);
    }
  }

  /** The calendar of `year` has an entry for exactly the Monday-Fridays
      from January 1 through December 31, under their `formatDate` keys. */
  lemma CalendarHas(year: int, groups: seq<Group>, holidays: map<string, Status>, date: int)
    requires |groups| > 0
    ensures FormatDate(date) in Calendar(year, groups, holidays)
      <==> FirstDay(year) <= date <= LastDay(year) && IsSchoolDay(date)
  {
    FormatDateInjective();
    WalkHas(FormatDate, groups, holidays, FirstDay(year), LastDay(year) + 1, Calendar(year, groups, holidays), date);
  }

  /** Each of those days has its `DayEntry` there. */
  lemma CalendarEntry(year: int, groups: seq<Group>, holidays: map<string, Status>, date: int)
    requires |groups| > 0
    requires FirstDay(year) <= date <= LastDay(year) && IsSchoolDay(date)
    ensures FormatDate(date) in Calendar(year, groups, holidays)
    ensures Calendar(year, groups, holidays)[FormatDate(date)] == DayEntry(FormatDate, groups, holidays, FirstDay(year), date)
  {
    FormatDateInjective();
    WalkValue(FormatDate, groups, holidays, FirstDay(year), LastDay(year) + 1, Calendar(year, groups, holidays), date);
  }

  /** The calendar of `year` holds exactly the Monday-Fridays whose year is
      the one `new Date(year, ...)` reads, each under its `formatDate` key
      with its `DayEntry`. */
  lemma CalendarDay(year: int, groups: seq<Group>, holidays: map<string, Status>, date: int)
    requires |groups| > 0
    ensures FormatDate(date) in Calendar(year, groups, holidays)
      <==> ToCivil(date).year == DateConstructorYear(year) && IsSchoolDay(date)
    ensures FormatDate(date) in Calendar(year, groups, holidays)
      ==> Calendar(year, groups, holidays)[FormatDate(date)] == DayEntry(FormatDate, groups, holidays, FirstDay(year), date)
  {
    FirstLastDay(year);
    InYearIff(DateConstructorYear(year), date);
    CalendarHas(year, groups, holidays, date);
    if FirstDay(year) <= date <= LastDay(year) && IsSchoolDay(date) {
      CalendarEntry(year, groups, holidays, date);
    }
  }

  /** Every key of the calendar is the `formatDate` key of one of its days. */
  lemma CalendarKey(year: int, groups: seq<Group>, holidays: map<string, Status>, k: string)
    requires |groups| > 0
    requires k in Calendar(year, groups, holidays)
    ensures FirstDay(year) <= ParseDate(k) <= LastDay(year) && IsSchoolDay(ParseDate(k))
    ensures FormatDate(ParseDate(k)) == k
  {
    MapOfKey(FormatDate, IsSchoolDay, EntryOf(FormatDate, groups, holidays, FirstDay(year)),
             FirstDay(year), LastDay(year) + 1, k);
    var d :| FirstDay(year) <= d < LastDay(year) + 1 && IsSchoolDay(d) && FormatDate(d) == k;
    ParseFormatDate(d);
  }

  /** A hardcoded date that falls on a Monday-Friday of the year is in the
      calendar under its key with its hardcoded status and no group, whatever
      is stored. */
  lemma HardcodedInCalendar(year: int, groups: seq<Group>, holidays: map<string, Status>, date: int)
    requires |groups| > 0
    requires ToCivil(date).year == DateConstructorYear(year) && IsSchoolDay(date)
    requires FormatDate(date) in HARDCODED_HOLIDAYS
    ensures FormatDate(date) in Calendar(year, groups, holidays)
    ensures Calendar(year, groups, holidays)[FormatDate(date)]
      == Entry(HARDCODED_HOLIDAYS[FormatDate(date)].kind, Some(HARDCODED_HOLIDAYS[FormatDate(date)].description), [])
  {
    CalendarDay(year, groups, holidays, date);
    HardcodedEntry(FormatDate, groups, holidays, FirstDay(year), date);
  }

  /** A hardcoded date's entry is its hardcoded status, with no group. */
  lemma HardcodedEntry(key: int -> string, groups: seq<Group>, holidays: map<string, Status>, first: int, date: int)
    requires |groups| > 0 && key(date) in HARDCODED_HOLIDAYS
    ensures DayEntry(key, groups, holidays, first, date)
      == Entry(HARDCODED_HOLIDAYS[key(date)].kind, Some(HARDCODED_HOLIDAYS[key(date)].description), [])
  {
    HardcodedDaysOff(holidays, key(date));
  }

  /** Monday 16 February 2026, one of the hardcoded holidays, is in the 2026
      calendar under "2026-02-16" as a `FERIADO` with no group. */
  lemma Feb16InCalendar(year: int, groups: seq<Group>, holidays: map<string, Status>, c: Civil, date: int)
    requires year == 2026 && |groups| > 0
    requires c == Civil(2026, 2, 16) && date == FromCivil(c)
    ensures "2026-02-16" in Calendar(year, groups, holidays)
    ensures Calendar(year, groups, holidays)["2026-02-16"] == Entry("FERIADO", Some("Feriado"), [])
  {
    Feb16Date(c, date);
    HardcodedInCalendar(year, groups, holidays, date);
  }

  lemma Feb16Date(c: Civil, date: int)
    requires c == Civil(2026, 2, 16) && date == FromCivil(c)
    ensures ToCivil(date).year == 2026 && IsSchoolDay(date)
    ensures FormatDate(date) == "2026-02-16"
  {
    assert date == 20500;
    assert Weekday(date) == 1;
    ToCivilFromCivil(c);
    FormatFeb16(c, date);
  }

  /** Fairness: read from January 1 to December 31, the calendar assigns
      `G1, G1, G2, G2, ..., GN, GN` over and over, one group per normal
      school day, starting again at `G1` on January 1. */
  lemma CalendarRotation(year: int, groups: seq<Group>, holidays: map<string, Status>)
    requires |groups| > 0
    ensures AssignedBetween(FormatDate, Calendar(year, groups, holidays), FirstDay(year), LastDay(year) + 1)
      == RepeatedPrefix(groups, NormalDaysBetween(FormatDate, holidays, FirstDay(year), LastDay(year) + 1))
  {
    FirstLastDay(year);
    FormatDateInjective();
    WalkRotation(FormatDate, groups, holidays, FirstDay(year), LastDay(year) + 1, LastDay(year) + 1);
  }

  /** In a walk keyed by an invertible `key` (the calendar is one, keyed by
      `FormatDate`), a holiday or no-class day gets its own status and no
      group, and the group it would have had goes to the next normal school day. */
  lemma HolidayDefers(key: int -> string, groups: seq<Group>, holidays: map<string, Status>,
                      first: int, end: int, d1: int, h: int, d2: int)
    requires |groups| > 0
    requires Injective(key)
    requires first <= d1 < h < d2 < end
    requires IsNormalDay(key, holidays, d1) && IsNormalDay(key, holidays, d2)
    requires IsSchoolDay(h) && !IsNormalDay(key, holidays, h)
    requires forall d :: d1 < d < d2 ==> !IsNormalDay(key, holidays, d)
    ensures key(h) in MapOf(key, IsSchoolDay, EntryOf(key, groups, holidays, first), first, end)
    ensures MapOf(key, IsSchoolDay, EntryOf(key, groups, holidays, first), first, end)[key(h)]
      == Entry(EffectiveStatus(holidays, key(h)).kind, Some(EffectiveStatus(holidays, key(h)).description), [])
    ensures key(d1) in MapOf(key, IsSchoolDay, EntryOf(key, groups, holidays, first), first, end)
    ensures key(d2) in MapOf(key, IsSchoolDay, EntryOf(key, groups, holidays, first), first, end)
    ensures MapOf(key, IsSchoolDay, EntryOf(key, groups, holidays, first), first, end)[key(d1)].groups
      == [Cycle(groups, NormalDaysBetween(key, holidays, first, d1))]
    ensures MapOf(key, IsSchoolDay, EntryOf(key, groups, holidays, first), first, end)[key(d2)].groups
      == [Cycle(groups, NormalDaysBetween(key, holidays, first, d1) + 1)]
  {
    var m := MapOf(key, IsSchoolDay, EntryOf(key, groups, holidays, first), first, end);
    WalkValue(key, groups, holidays, first, end, m, d1);
    WalkValue(key, groups, holidays, first, end, m, h);
    WalkValue(key, groups, holidays, first, end, m, d2);
    NextNormalDay(key, holidays, first, d1, d2);
  }

  /** A walk that has not started has written nothing. */
  lemma WalkedNothing(key: int -> string, groups: seq<Group>, holidays: map<string, Status>, first: int)
    requires |groups| > 0
    ensures MapOf(key, IsSchoolDay, EntryOf(key, groups, holidays, first), first, first) == map[]
    ensures NormalDaysBetween(key, holidays, first, first) == 0
  {
  }

  /** Visiting a Monday-Friday writes its entry under its key. */
  lemma WalkedSchoolDay(key: int -> string, groups: seq<Group>, holidays: map<string, Status>, first: int, date: int,
                        schedule: map<string, Entry>, entry: Entry)
    requires |groups| > 0
    requires first <= date && IsSchoolDay(date)
    requires schedule == MapOf(key, IsSchoolDay, EntryOf(key, groups, holidays, first), first, date)
    requires entry == DayEntry(key, groups, holidays, first, date)
    ensures schedule[key(date) := entry] == MapOf(key, IsSchoolDay, EntryOf(key, groups, holidays, first), first, date + 1)
  {
  }

  /** Visiting a Saturday or Sunday changes nothing, and it is not a normal school day. */
  lemma WalkedWeekend(key: int -> string, groups: seq<Group>, holidays: map<string, Status>, first: int, date: int)
    requires |groups| > 0
    requires first <= date && !IsSchoolDay(date)
    ensures MapOf(key, IsSchoolDay, EntryOf(key, groups, holidays, first), first, date + 1)
      == MapOf(key, IsSchoolDay, EntryOf(key, groups, holidays, first), first, date)
    ensures NormalDaysBetween(key, holidays, first, date + 1) == NormalDaysBetween(key, holidays, first, date)
  {
  }

  /** The body of the generator's loop on a Monday-Friday `date` whose key is
      `dateStr`: the entry it writes, reading the status of `dateStr` and, on a
      normal day, shifting the next group off the queue (refilled first if it
      is empty). `consumed` counts the normal school days visited so far. */
  method SchoolDayEntry(key: int -> string, groups: seq<Group>, holidays: map<string, Status>, first: int, date: int,
                        dateStr: string, queue: seq<Group>, ghost consumed: nat)
    returns (entry: Entry, queue': seq<Group>, ghost consumed': nat)
    requires |groups| > 0
    requires first <= date && IsSchoolDay(date) && dateStr == key(date)
    requires consumed == NormalDaysBetween(key, holidays, first, date)
    requires queue == QueueAfter(groups, consumed)
    ensures entry == DayEntry(key, groups, holidays, first, date)
    ensures EffectiveStatus(holidays, dateStr).kind == AULA_NORMAL ==>
      entry.groups == [Refilled(groups, queue)[0]] && queue' == Refilled(groups, queue)[1..]
    ensures EffectiveStatus(holidays, dateStr).kind != AULA_NORMAL ==> entry.groups == [] && queue' == queue
    ensures consumed' == NormalDaysBetween(key, holidays, first, date + 1)
    ensures queue' == QueueAfter(groups, consumed')
  {
    var status := EffectiveStatus(holidays, dateStr);
    if status.kind == AULA_NORMAL {
      var group;
      group, queue' := TakeGroup(groups, queue, consumed);
      consumed' := consumed + 1;
      entry := Entry(AULA_NORMAL, None, [group]);
    } else {
      queue', consumed' := queue, consumed;
      entry := Entry(status.kind, Some(status.description), []);
    }
  }

  /** The generator's loop from `first` through `last`, starting from an empty
      schedule and a fresh `refillQueue()`, keying each day by `key` (the
      generator passes `formatDate`). */
  method WalkDays(key: int -> string, groups: seq<Group>, holidays: map<string, Status>, first: int, last: int)
    returns (schedule: map<string, Entry>)
    requires |groups| > 0
    requires first <= last + 1
    ensures schedule == MapOf(key, IsSchoolDay, EntryOf(key, groups, holidays, first), first, last + 1)
  {
    schedule := map[];
    var queue := RefillQueue(groups);
    var current := first;
    ghost var consumed := 0;
    WalkedNothing(key, groups, holidays, first);
    while current <= last
      invariant first <= current <= last + 1
      invariant consumed == NormalDaysBetween(key, holidays, first, current)
      invariant queue == QueueAfter(groups, consumed)
      invariant schedule == MapOf(key, IsSchoolDay, EntryOf(key, groups, holidays, first), first, current)
    {
      var dateStr := key(current);
      var dayOfWeek := Weekday(current);
      if 1 <= dayOfWeek <= 5 {
        var entry;
        entry, queue, consumed := SchoolDayEntry(key, groups, holidays, first, current, dateStr, queue, consumed);
        WalkedSchoolDay(key, groups, holidays, first, current, schedule, entry);
        schedule := schedule[dateStr := entry];
      } else {
        WalkedWeekend(key, groups, holidays, first, current);
      }
      current := current + 1;
    }
  }

  /** `Scheduler.generateCalendar(year, groups)` over a snapshot `holidays` of the
      stored overrides: the walk from January 1 through December 31 of the
      year as `new Date` reads it. */
  method GenerateCalendar(year: int, groups: seq<Group>, holidays: map<string, Status>)
    returns (schedule: map<string, Entry>)
    requires |groups| > 0
    ensures schedule == Calendar(year, groups, holidays)
  {
    var first, last := FirstDay(year), LastDay(year);
    FirstLastDay(year);
    schedule := WalkDays(FormatDate, groups, holidays, first, last);
  }
}
