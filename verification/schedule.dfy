/**
  A user's monthly availability (the Schedule schema): for a (user, month,
  year) a list of weekday entries, each with the hour slots the user listed.
  `userId`, `mes` and `anio` are required; an entry's `dia`, when present, is
  one of the five weekdays; `horas` is a list of numbers with no bound and no
  ordering.  The schema has no unique index on (userId, mes, anio) and
  nothing stops two entries for the same weekday.
 */
module ScheduleModel {
  import opened Optional
  import opened Weekdays
  import opened UserModel

  /** One `horarios` entry; `dia` is not required by the schema, so it may be absent. */
  datatype DayEntry = DayEntry(dia: Option<Weekday>, horas: seq<int>)

  datatype Schedule = Schedule(userId: UserId, horarios: seq<DayEntry>, mes: int, anio: int)

  predicate ScheduleMatches(s: Schedule, id: UserId, mes: int, anio: int) {
    s.userId == id && s.mes == mes && s.anio == anio
  }

  /** `Schedule.findOne({ userId, mes, año })`: the first stored schedule for
      that user, month and year, if any. */
  function FirstSchedule(schedules: seq<Schedule>, id: UserId, mes: int, anio: int): (r: Option<Schedule>)
    ensures r.None? <==> forall i :: 0 <= i < |schedules| ==> !ScheduleMatches(schedules[i], id, mes, anio)
    ensures r.Some? ==> r.value in schedules && ScheduleMatches(r.value, id, mes, anio)
  {
    if |schedules| == 0 then None
    else if ScheduleMatches(schedules[0], id, mes, anio) then Some(schedules[0])
    else
      var r := FirstSchedule(schedules[1..], id, mes, anio);
      assert forall i :: 1 <= i < |schedules| ==> schedules[i] == schedules[1..][i - 1];
      r
  }
}
