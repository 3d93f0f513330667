/**
  The weekly charger-usage record (the WeeklyUsage schema): a total of hours
  and a per-weekday breakdown for one user and one week label `YYYY-WW`.
  A unique index on (userId, semana) allows at most one record per pair,
  which the model states by keeping the records in a map on that pair.
  `horasUtilizadas` and each entry's `horas` default to 0; `detalleHoras`
  defaults to the empty list; an entry's `dia`, when present, is one of the
  five weekdays.
 */
module WeeklyUsageModel {
  import opened Optional
  import opened Weekdays
  import opened UserModel

  datatype DayHours = DayHours(dia: Option<Weekday>, horas: nat)

  datatype Usage = Usage(horasUtilizadas: nat, detalleHoras: seq<DayHours>)

  /** The unique (userId, semana) key. */
  type UsageKey = (UserId, string)

  /** Sum of the `horas` of a breakdown. */
  function TotalHours(detalle: seq<DayHours>): nat {
    if |detalle| == 0 then 0 else TotalHours(detalle[..|detalle| - 1]) + detalle[|detalle| - 1].horas
  }

  /** `horasUtilizadas` of the record for (id, week), or 0 when there is none. */
  function RecordedHours(usages: map<UsageKey, Usage>, id: UserId, week: string): (h: nat)
    ensures (id, week) !in usages ==> h == 0
  {
    if (id, week) in usages then usages[(id, week)].horasUtilizadas else 0
  }
}
