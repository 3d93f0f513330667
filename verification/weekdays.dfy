/**
  The weekday enumeration shared by the schedule and weekly-usage schemas:
  only the five working days 'lunes' .. 'viernes' are admitted.
 */
module Weekdays {
  import opened Optional

  datatype Weekday = Lunes | Martes | Miercoles | Jueves | Viernes

  /** The five weekdays in the order the charger job walks them. */
  const AllWeekdays: seq<Weekday> := [Lunes, Martes, Miercoles, Jueves, Viernes]

  /** The stored spelling of a weekday. */
  function WeekdayName(d: Weekday): string {
    match d
    case Lunes => "lunes"
    case Martes => "martes"
    case Miercoles => "miercoles"
    case Jueves => "jueves"
    case Viernes => "viernes"
  }

  /** The schema's enum check: a string is admitted exactly when it is one of the five names. */
  function ParseWeekday(s: string): (r: Option<Weekday>)
    ensures r.Some? ==> WeekdayName(r.value) == s
  {
    if s == "lunes" then Some(Lunes)
    else if s == "martes" then Some(Martes)
    else if s == "miercoles" then Some(Miercoles)
    else if s == "jueves" then Some(Jueves)
    else if s == "viernes" then Some(Viernes)
    else None
  }

  /** Every weekday's name passes the enum check and reads back as that weekday. */
  lemma WeekdayNameRoundTrip(d: Weekday)
    ensures ParseWeekday(WeekdayName(d)) == Some(d)
  {
  }

  lemma AllWeekdaysListed(d: Weekday)
    ensures d in AllWeekdays
    ensures |AllWeekdays| == 5
  {
  }
}
