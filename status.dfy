/** The in-memory part of `State`: per-date status overrides and the
    precedence rule that resolves a date's effective status. */
module DayStatus {

  /** A day's status: its type (`AULA_NORMAL`, `FERIADO`, `SEM_AULA`, or any
      other type a caller stores) and a free-text description. */
  datatype Status = Status(kind: string, description: string)

  const AULA_NORMAL: string := "AULA_NORMAL"

  /** What a date with no override resolves to. */
  const DEFAULT_STATUS: Status := Status(AULA_NORMAL, "")

  /** The fixed table of known dates; it overrides anything stored. */
  const HARDCODED_HOLIDAYS: map<string, Status> := map[
    "2026-02-12" := Status("SEM_AULA", "Carnaval Chuvoso"),
    "2026-02-13" := Status("FERIADO", "Feriado"),
    "2026-02-16" := Status("FERIADO", "Feriado"),
    "2026-02-17" := Status("FERIADO", "Feriado"),
    "2026-02-18" := Status("FERIADO", "Feriado")
  ]

  /** `State.getDayStatus` over the stored overrides `holidays`:
      hardcoded entry first, then the stored entry, then the default. */
  function EffectiveStatus(holidays: map<string, Status>, dateStr: string): (s: Status)
    ensures dateStr in HARDCODED_HOLIDAYS ==> s == HARDCODED_HOLIDAYS[dateStr]
    ensures dateStr !in HARDCODED_HOLIDAYS && dateStr in holidays ==> s == holidays[dateStr]
    ensures dateStr !in HARDCODED_HOLIDAYS && dateStr !in holidays ==> s == DEFAULT_STATUS
  {
    if dateStr in HARDCODED_HOLIDAYS then HARDCODED_HOLIDAYS[dateStr]
    else if dateStr in holidays then holidays[dateStr]
    else DEFAULT_STATUS
  }

  /** The stored overrides after `State.setDayStatus(dateStr, kind, description)`. */
  function WithDayStatus(holidays: map<string, Status>, dateStr: string, kind: string, description: string): (m: map<string, Status>)
    ensures kind == AULA_NORMAL ==> dateStr !in m
    ensures kind != AULA_NORMAL ==> dateStr in m && m[dateStr] == Status(kind, description)
    ensures forall other :: other != dateStr ==> (other in m <==> other in holidays)
    ensures forall other :: other != dateStr && other in m ==> m[other] == holidays[other]
  {
    if kind == AULA_NORMAL then holidays - {dateStr}
    else holidays[dateStr := Status(kind, description)]
  }

  /** Every hardcoded date is a day without normal classes, and no stored
      override can make it one. */
  lemma HardcodedDaysOff(holidays: map<string, Status>, dateStr: string)
    requires dateStr in HARDCODED_HOLIDAYS
    ensures EffectiveStatus(holidays, dateStr) == HARDCODED_HOLIDAYS[dateStr]
    ensures EffectiveStatus(holidays, dateStr).kind != AULA_NORMAL
  {
  }

  /** After setting a date, it resolves to the hardcoded entry if there is one,
      otherwise to the default (for `AULA_NORMAL`) or to exactly what was set. */
  lemma SetThenGet(holidays: map<string, Status>, dateStr: string, kind: string, description: string)
    ensures EffectiveStatus(WithDayStatus(holidays, dateStr, kind, description), dateStr)
      == if dateStr in HARDCODED_HOLIDAYS then HARDCODED_HOLIDAYS[dateStr]
         else if kind == AULA_NORMAL then DEFAULT_STATUS
         else Status(kind, description)
  {
  }

  /** Setting one date does not change how any other date resolves. */
  lemma SetLeavesOthers(holidays: map<string, Status>, dateStr: string, kind: string, description: string, other: string)
    requires other != dateStr
    ensures EffectiveStatus(WithDayStatus(holidays, dateStr, kind, description), other)
      == EffectiveStatus(holidays, other)
  {
  }

  /** The store: `State.data.holidays`, updated in place. */
  class Store {
    var holidays: map<string, Status>

    /** The state after `State.load` finds nothing stored. */
    constructor ()
      ensures holidays == map[]
    {
      holidays := map[];
    }

    /** `State.getDayStatus`: a hardcoded date resolves to its hardcoded entry
        whatever is stored, otherwise a stored override wins over the default. */
    function GetDayStatus(dateStr: string): (s: Status)
      reads this
      ensures dateStr in HARDCODED_HOLIDAYS ==> s == HARDCODED_HOLIDAYS[dateStr]
      ensures dateStr !in HARDCODED_HOLIDAYS && dateStr in holidays ==> s == holidays[dateStr]
      ensures dateStr !in HARDCODED_HOLIDAYS && dateStr !in holidays ==> s == DEFAULT_STATUS
    {
      EffectiveStatus(holidays, dateStr)
    }

    /** `State.setDayStatus` without the save that follows it: `AULA_NORMAL`
        deletes the override, any other type stores exactly `{type, description}`. */
    method SetDayStatus(dateStr: string, kind: string, description: string)
      modifies this
      ensures holidays == WithDayStatus(old(holidays), dateStr, kind, description)
      ensures kind == AULA_NORMAL ==> dateStr !in holidays
      ensures GetDayStatus(dateStr)
        == if dateStr in HARDCODED_HOLIDAYS then HARDCODED_HOLIDAYS[dateStr]
           else if kind == AULA_NORMAL then DEFAULT_STATUS
           else Status(kind, description)
      ensures forall other :: other != dateStr ==> GetDayStatus(other) == old(GetDayStatus(other))
    {
      if kind == AULA_NORMAL {
        if dateStr in holidays {
          holidays := holidays - {dateStr};
        }
      } else {
        holidays := holidays[dateStr := Status(kind, description)];
      }
      SetThenGet(old(holidays), dateStr, kind, description);
    }
  }
}
