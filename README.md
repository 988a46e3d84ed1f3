# Rotation calendar of the commission scheduler

A model of the scheduling core of `js/scheduler.js`. The school's student groups take turns on a rotation: one group per normal school day, each group for two school days in a row, cycling through the roster. The model covers these parts of the source:

- `State.getDayStatus` and `State.setDayStatus`, over the fixed `HARDCODED_HOLIDAYS` table and the stored per-date overrides (module `DayStatus`, file `status.dfy`). The store is a class holding a `map` that its method updates in place.
- `Scheduler.formatDate` (module `DateFormat`, file `format.dfy`). It renders the local `YYYY-MM-DD` key of a date, and a parse inverts it.
- The calendar arithmetic behind JavaScript's `Date` (module `Dates`, file `dates.dfy`). A date is a day number counted from 1970-01-01 in the proleptic Gregorian calendar. `getDay` is `(n + 4) mod 7`.
- `refillQueue` and the queue shifting in `generateCalendar` (module `Rotation`, file `rotation.dfy`).
- `Scheduler.generateCalendar` (module `Scheduler`, file `scheduler.dfy`). It walks every day from January 1 to December 31. Each Monday–Friday gets an entry under its `formatDate` key:
  - a normal day shifts one group off the rotation queue;
  - a holiday or no-class day copies its status and leaves the queue alone.
- `Scheduler.getWeekSchedule` (module `Week`, file `week.dfy`). It finds the Monday of a date's week and collects the calendar entries of that Monday through Friday.

A generic part supports these (module `KeyedDays`, file `keyed.dfy`, with small arithmetic facts in `arith.dfy`). It defines the map a walk over a range of days leaves behind: the walk writes one entry per kept day under that day's key.

The loops keep their imperative form, and each is proved against a specification function:
- `WalkDays` is the generator's `while` loop. Its specification is `MapOf`, the map such a walk leaves.
- `RefillQueue` is `refillQueue`. Its specification is `Doubled`.
- `WeekDays` is the five-day `for` loop. Its specification is `WeekUpTo`.

The walk and the week loop take the day-key function as a parameter; the source always passes `formatDate`. The properties are proved for any injective key, and `FormatDateInjective` shows that `formatDate` is one.

The groups a walk gives out are defined as a sequence: position `i` of the endless repetition `g1, g1, g2, g2, …, gN, gN, g1, …` holds `Cycle(groups, i)`. Normal school day number `c` of the year (counted from 0) gets `Cycle(groups, c)`. The fairness lemma `CalendarRotation` states that, read in date order, the calendar hands out exactly a prefix of that repetition, one slot per normal school day.

The source's doc comment on `getWeekSchedule` (js/scheduler.js:205-208) lists the fields `date`, `dateStr`, `dayName` and `events`. The code builds `dayName`, `dateStr`, `fullDate` and `data`. The model follows the code.

## Model

| member | source | states |
|---|---|---|
| DayStatus.EffectiveStatus | js/scheduler.js:108-114 | A hardcoded date resolves to its hardcoded status, whatever is stored. Otherwise a stored date resolves to its stored status. Otherwise the date resolves to `{AULA_NORMAL, ""}`. |
| DayStatus.Store.GetDayStatus | js/scheduler.js:108-114 | Over the store's own overrides: a hardcoded date resolves to its hardcoded status, whatever is stored; otherwise a stored date resolves to its stored status; otherwise to `{AULA_NORMAL, ""}`. |
| DayStatus.HardcodedDaysOff | js/scheduler.js:6-12 | Each of the five hardcoded dates resolves to its hardcoded entry whatever is stored, and that entry is never `AULA_NORMAL`: no override can give those days classes. |
| DayStatus.WithDayStatus | js/scheduler.js:96-104 | Setting `AULA_NORMAL` removes the date from the stored map. Any other type stores exactly `{type, description}` there. Every other date keeps its presence and its value. |
| DayStatus.SetThenGet | js/scheduler.js:96-114 | Right after a set, the date resolves to: the hardcoded status if there is one; else the default, for `AULA_NORMAL`; else exactly what was set. |
| DayStatus.SetLeavesOthers | js/scheduler.js:96-114 | Setting one date does not change how any other date resolves. |
| DayStatus.Store.constructor | js/scheduler.js:18-22 | The store starts with no stored overrides. |
| DayStatus.Store.SetDayStatus | js/scheduler.js:96-106 | The in-place update leaves `WithDayStatus` of the old map. Afterwards the date resolves as `SetThenGet` says, and every other date resolves as before. |
| DateFormat.PadStart | js/scheduler.js:137-138 | `padStart`: the result is as wide as asked (or as long as the input), ends with the input, and is filled on the left with the fill character. |
| DateFormat.ParseFormatDate | js/scheduler.js:135-140 | Round trip: every `formatDate` key has at least six characters and parses back to its own date. |
| DateFormat.FormatDateLayout | js/scheduler.js:135-140 | A key is `YYYY-MM-DD`: the dashes sit six and three characters from the end, with two digits after each. Read back, the part before the first of those dashes is `getFullYear()`, the next two digits are `getMonth() + 1` and the last two are `getDate()`. Month and day therefore carry a leading '0' below 10. |
| DateFormat.FormatDateInjective | js/scheduler.js:135-140 | `formatDate` is injective over all dates: two dates with the same key are the same date, so no schedule entry overwrites another. |
| DateFormat.FormatFeb16 | js/scheduler.js:135-140 | The key of 16 February 2026 is exactly "2026-02-16", the form the hardcoded table uses. |
| Dates.ToCivilSpec | js/scheduler.js:136-138 | `getFullYear`/`getMonth`/`getDate` give a valid calendar date that denotes the day, within its year's span of days. |
| Dates.ToCivilFromCivil | js/scheduler.js:145-146 | The day number `FromCivil` gives a valid calendar date reads back through `getFullYear`/`getMonth`/`getDate` as the same year, month and day (so `new Date` of such a date outside years 0–99 reads back unchanged). |
| Dates.InYearIff | js/scheduler.js:145-146 | A day lies between January 1 and December 31 of `y` exactly when its `getFullYear()` is `y`. |
| Dates.YearBounds | js/scheduler.js:145-146 | January 1 and December 31 of a year are its first and last day, and they enclose exactly the days of that year. |
| Dates.WeekdayShift | js/scheduler.js:167-199 | Moving `k` days ahead moves `getDay()` ahead by `k` mod 7. |
| Scheduler.FirstLastDay | js/scheduler.js:145-146 | The walk starts on January 1 and ends on December 31 of the year `new Date` reads (0–99 read as 1900–1999). That span covers at least 365 days. |
| Rotation.RefillQueue | js/scheduler.js:150-158 | The batch has length 2·N, with `groups[k]` at positions 2k and 2k+1, in roster order. It equals `Doubled(groups)`. |
| Rotation.DoubledMultiset | js/scheduler.js:150-158 | One pass of the queue holds every group exactly twice and nothing else. |
| Rotation.CycleGroup | js/scheduler.js:131-132 | Slot `i` of the repetition holds roster entry `(i mod 2N) / 2`: G1, G1, G2, G2, …, GN, GN, then again. |
| Rotation.RepeatedPrefixOfPasses | js/scheduler.js:150-160 | The first `m·2N` slots of the repetition are `m` whole passes of `refillQueue()` back to back. |
| Rotation.QueueAfterClosedForm | js/scheduler.js:148-179 | After `c` normal days the queue is the rest of the current pass after slot `(c-1) mod 2N` (empty at a pass's end), or a full pass when `c = 0`. |
| Rotation.QueueStep | js/scheduler.js:173-179 | On a normal day the refilled queue is never empty. Its head is slot `c` of the repetition, and the shift leaves the queue for `c+1` days. |
| Rotation.TakeGroup | js/scheduler.js:175-179 | Refill-if-empty then `shift`: the group is the refilled queue's head and the rest is its tail. The group is slot `c` of the repetition, and the rest is the queue after `c+1` normal days. |
| Scheduler.SchoolDayEntry | js/scheduler.js:170-193 | A normal day's entry holds one group, the head of the refilled queue, and the queue loses that head. Any other day's entry copies its type and description with no groups, and the queue is unchanged. Either way the queue matches the number of normal days seen so far. |
| Scheduler.WalkDays | js/scheduler.js:162-200 | The loop from `first` through `last` leaves exactly the map of the walk: each Monday–Friday's `DayEntry` under its key. |
| Scheduler.GenerateCalendar | js/scheduler.js:142-203 | The result is `Calendar(year, …)`, the walk from January 1 through December 31 keyed by `formatDate`. |
| Scheduler.WalkHas | js/scheduler.js:164-200 | With an injective key, the walk's map has a key for a day exactly when the day is a Monday–Friday of the range. |
| Scheduler.WalkValue | js/scheduler.js:170-193 | The entry of such a day is its `DayEntry`: normal days get the next rotation slot, other days copy their status with no group. |
| Scheduler.CalendarHas | js/scheduler.js:164-200 | The calendar has a key for a date exactly when the date is a Monday–Friday from January 1 through December 31. |
| Scheduler.CalendarEntry | js/scheduler.js:170-193 | Each such date's entry is its `DayEntry`. |
| Scheduler.CalendarDay | js/scheduler.js:145-200 | The calendar holds a date exactly when the date is a Monday–Friday whose `getFullYear()` is the year `new Date(year, …)` reads, and it holds that date's `DayEntry`. No Saturday or Sunday is ever a key. |
| Scheduler.CalendarKey | js/scheduler.js:164-200 | Every key of the calendar is the `formatDate` key of a Monday–Friday of the year. It parses back to that day. |
| Scheduler.HardcodedInCalendar | js/scheduler.js:170-193 | A hardcoded date that is a Monday–Friday of the year is in the calendar under its key with its hardcoded type and description and no group, whatever is stored. |
| Scheduler.Feb16InCalendar | js/scheduler.js:6-12 | Monday 16 February 2026 is in the 2026 calendar under "2026-02-16" as a `FERIADO` described "Feriado", with no group: the hardcoded keys are reached by the walk. |
| Scheduler.WalkRotation | js/scheduler.js:148-200 | Read in date order over any prefix of the walk, the groups handed out are exactly the first `k` slots of the repetition, where `k` is the number of normal school days in that prefix. |
| Scheduler.CalendarRotation | js/scheduler.js:148-200 | Fairness over the whole year: the calendar's groups in date order are exactly the first `k` slots of `G1, G1, …, GN, GN, …`, where `k` is the year's number of normal school days. |
| Scheduler.NextNormalDay | js/scheduler.js:185-193 | Two normal school days with no normal day between them take consecutive slots. |
| Scheduler.HolidayDefers | js/scheduler.js:185-193 | A holiday or no-class day between two consecutive normal days gets its own type and description with no group. The second normal day gets the slot right after the first one's: the day off defers the rotation instead of skipping a group. |
| Week.MondayOf | js/scheduler.js:214-218 | The computed Monday is a Monday. It is at most six days before the date, so a Sunday goes back six days. |
| Week.MondayUnique | js/scheduler.js:214-218 | It is the only Monday within the six days before the date. |
| Week.WeekdayOfWeek | js/scheduler.js:223-226 | Day `i` after a Monday, for `i < 5`, is weekday `i+1`, a Monday–Friday. |
| Week.WeekDays | js/scheduler.js:223-237 | The five-day loop collects `WeekUpTo(…, 5)`: each day whose key is in the schedule, in order, named `days[i]`, with its entry. |
| Week.WeekOf | js/scheduler.js:223-237 | Take a schedule that holds, among the week's days, exactly those in `[first, end)`, each with its `DayEntry`. The loop's result is then the consecutive run of those days. |
| Week.WalkWeek | js/scheduler.js:212-237 | Collecting a week out of a walk's map gives the run of that week's days that lie in the walk's range. |
| Week.GetWeekSchedule | js/scheduler.js:209-239 | The result is the run of the Monday–Friday days of the input's week that lie in the year `generateCalendar` built for the input's year, each with its calendar entry. |
| Week.WeekItems | js/scheduler.js:221-237 | A week lists at most five items. Item `i` is the `i`-th consecutive day of the run, a Monday–Friday in range, named after its weekday (`Segunda`…`Sexta`), under its key, with its entry. |
| Week.DayListed | js/scheduler.js:223-237 | A Monday–Friday in range is among the items of its own week. |
| Week.InputDayListed | js/scheduler.js:209-237 | A Monday–Friday input date (year outside 0–99) is listed in its own week's result, with its weekday's name, its key and its calendar entry. |

## Left out

- `State.init`, `State.load`, `State.save` and `State.reset` (js/scheduler.js:24-94, 116-122) are left out. They do Firebase and `localStorage` I/O, JSON handling and `alert`/`confirm` dialogs. The generator and the week view take a snapshot of the stored overrides as a `map` parameter instead.
- The `await` on `State.init()` and on `save()` is left out. Generation is modelled as synchronous over that snapshot.
- The `lastUpdated` timestamp and the unused `overrides` field are left out, because they depend on the clock or are never read.
- `description = ""` as a default argument of `setDayStatus` is not modelled: the description is always passed.
- `toLocaleDateString('pt-BR', …)` (js/scheduler.js:227), the display-only `dateStr` of a week item, is left out. Its output is locale-dependent. Items keep `dayName`, `fullDate` and `data`.
- `getWeekSchedule`'s default argument `new Date()` reads the clock. The input date is always a parameter.
- The roster `ALL_GROUPS` (js/data.js:163) is a parameter `groups`. js/data.js is not part of this model.
- GenerateCalendar: requires a non-empty roster. With an empty one the source would shift `undefined` off an empty queue and store `[undefined]`. The roster passed in is never empty.
- Dates are whole local days. Time of day, time zones, daylight-saving changes and the finite range of JavaScript `Date` values are not modelled.
- Week.InputDayListed: requires an input year outside 0–99. For a year from 0 to 99, `new Date(year, 0, 1)` builds the calendar of 1900 + year, so the input date is not in it. GetWeekSchedule's contract covers that case too, since `FirstDay` reads the year the same way.
- Status keys are date strings. The source keeps `HARDCODED_HOLIDAYS` and the stored overrides in plain JavaScript objects. There a key named like an `Object.prototype` member behaves differently from a map key: `getDayStatus("constructor")` finds an inherited function, and `setDayStatus("__proto__", …)` replaces the object's prototype. The model treats every key as an ordinary map key. `formatDate` keys, the only ones the generator and the week view look up, are digits and dashes, so they are never such names.
- The status type is any string. Only `AULA_NORMAL` is treated specially, as in the source. `FERIADO` and `SEM_AULA` appear only as data.
