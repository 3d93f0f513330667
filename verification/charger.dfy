/**
  The weekly EV-charger allocation run (`autoAssignCharger`).

  One run, for the local date `today`:
    1. the previous week's label is the label of `today - 7`;
    2. the users with role 'user' are loaded; with none the run stops;
    3. each user's hours in the previous week's record are looked up (0 when
       there is no record) and the users are sorted ascending by them;
    4. for each user in that order with a schedule for today's month and
       year, each weekday's hours are the number of listed slots of the last
       non-empty entry for that day, capped at 2; the five Monday-to-Friday
       entries and their total replace that user's record for the current
       week; the user is counted as assigned.
 */
module ChargerAssignment {
  import opened Optional
  import opened Calendar
  import opened Week
  import opened Weekdays
  import opened UserModel
  import opened ScheduleModel
  import opened WeeklyUsageModel
  import opened Ranking

  /** At most this many hours of charger time are granted per weekday. */
  const DailyCap: nat := 2

  function Min(a: nat, b: nat): nat {
    if a <= b then a else b
  }

  // ---------------------------------------------------------------------------
  // Availability per weekday
  // ---------------------------------------------------------------------------

  /** `horasPorDia[day]` after walking the schedule's entries: the last entry
      for `day` whose slot list is non-empty decides, and only the number of
      slots counts, capped at DailyCap. */
  function DayAvailability(horarios: seq<DayEntry>, day: Weekday): (r: nat)
    ensures r <= DailyCap
    ensures r == 0 <==> forall i :: 0 <= i < |horarios| && horarios[i].dia == Some(day) ==> |horarios[i].horas| == 0
  {
    if |horarios| == 0 then 0
    else
      var e := horarios[|horarios| - 1];
      var rest := horarios[..|horarios| - 1];
      assert forall i :: 0 <= i < |rest| ==> rest[i] == horarios[i];
      if e.dia == Some(day) && |e.horas| > 0 then Min(|e.horas|, DailyCap)
      else DayAvailability(rest, day)
  }

  /** The last non-empty entry for a weekday decides that weekday's hours;
      earlier entries for the same day are overridden. */
  lemma {:induction false} LastNonEmptyEntryWins(horarios: seq<DayEntry>, day: Weekday, i: nat)
    requires i < |horarios| && horarios[i].dia == Some(day) && |horarios[i].horas| > 0
    requires forall j :: i < j < |horarios| && horarios[j].dia == Some(day) ==> |horarios[j].horas| == 0
    ensures DayAvailability(horarios, day) == Min(|horarios[i].horas|, DailyCap)
    decreases |horarios|
  {
    if i < |horarios| - 1 {
      var rest := horarios[..|horarios| - 1];
      assert rest[i] == horarios[i];
      LastNonEmptyEntryWins(rest, day, i);
    }
  }

  /** Only the number of listed slots matters, never their values. */
  lemma {:induction false} SlotValuesIgnored(h1: seq<DayEntry>, h2: seq<DayEntry>, day: Weekday)
    requires |h1| == |h2|
    requires forall i :: 0 <= i < |h1| ==> h1[i].dia == h2[i].dia && |h1[i].horas| == |h2[i].horas|
    ensures DayAvailability(h1, day) == DayAvailability(h2, day)
    decreases |h1|
  {
    if |h1| > 0 {
      SlotValuesIgnored(h1[..|h1| - 1], h2[..|h2| - 1], day);
    }
  }

  /** Fills `horasPorDia`: every weekday starts at 0, then each entry with a
      non-empty slot list sets its weekday to min(slot count, 2). */
  method HoursPerDay(horarios: seq<DayEntry>) returns (horasPorDia: map<Weekday, nat>)
    ensures forall day :: day in horasPorDia && horasPorDia[day] == DayAvailability(horarios, day)
  {
    horasPorDia := map d | d in AllWeekdays :: 0;
    forall day: Weekday ensures day in horasPorDia {
      AllWeekdaysListed(day);
    }
    for i := 0 to |horarios|
      invariant forall day :: day in horasPorDia && horasPorDia[day] == DayAvailability(horarios[..i], day)
    {
      assert horarios[..i + 1][..i] == horarios[..i];
      var item := horarios[i];
      if |item.horas| > 0 {
        match item.dia {
          case Some(d) =>
            horasPorDia := horasPorDia[d := Min(|item.horas|, DailyCap)];
          case None =>
            // the source writes to a key no weekday reads
        }
      }
    }
    assert horarios[..|horarios|] == horarios;
  }

  // ---------------------------------------------------------------------------
  // Breakdown and record
  // ---------------------------------------------------------------------------

  /** Builds `detalleHoras` in the order lunes .. viernes and sums `totalHoras`. */
  method BuildBreakdown(horasPorDia: map<Weekday, nat>) returns (detalle: seq<DayHours>, total: nat)
    requires forall k :: 0 <= k < |AllWeekdays| ==> AllWeekdays[k] in horasPorDia
    ensures |detalle| == |AllWeekdays|
    ensures forall k :: 0 <= k < |detalle| ==>
      detalle[k] == DayHours(Some(AllWeekdays[k]), horasPorDia[AllWeekdays[k]])
    ensures total == TotalHours(detalle)
  {
    detalle := [];
    total := 0;
    for k := 0 to |AllWeekdays|
      invariant |detalle| == k
      invariant forall m :: 0 <= m < k ==> detalle[m] == DayHours(Some(AllWeekdays[m]), horasPorDia[AllWeekdays[m]])
      invariant total == TotalHours(detalle)
    {
      var dia := AllWeekdays[k];
      var horas := horasPorDia[dia];
      var entry := DayHours(Some(dia), horas);
      assert (detalle + [entry])[..k] == detalle;
      detalle := detalle + [entry];
      total := total + horas;
    }
  }

  lemma {:induction false} TotalHoursBound(detalle: seq<DayHours>, cap: nat)
    requires forall k :: 0 <= k < |detalle| ==> detalle[k].horas <= cap
    ensures TotalHours(detalle) <= cap * |detalle|
    decreases |detalle|
  {
    if |detalle| > 0 {
      TotalHoursBound(detalle[..|detalle| - 1], cap);
    }
  }

  /** The five-entry breakdown the run computes from a schedule. */
  function Breakdown(horarios: seq<DayEntry>): seq<DayHours> {
    seq(|AllWeekdays|, k requires 0 <= k < |AllWeekdays| => DayHours(Some(AllWeekdays[k]), DayAvailability(horarios, AllWeekdays[k])))
  }

  /** The record written for a user with schedule entries `horarios`. */
  function Allocation(horarios: seq<DayEntry>): (u: Usage)
    ensures |u.detalleHoras| == 5
    ensures forall k :: 0 <= k < 5 ==> u.detalleHoras[k].dia == Some(AllWeekdays[k]) && u.detalleHoras[k].horas <= DailyCap
    ensures u.horasUtilizadas == TotalHours(u.detalleHoras) && u.horasUtilizadas <= 5 * DailyCap
  {
    var detalle := Breakdown(horarios);
    TotalHoursBound(detalle, DailyCap);
    Usage(TotalHours(detalle), detalle)
  }

  // ---------------------------------------------------------------------------
  // The run as a function of the store's contents
  // ---------------------------------------------------------------------------

  /** The current week label and the month and year used to look up schedules. */
  datatype Period = Period(week: string, mes: int, anio: int)

  function PeriodOf(today: int): Period {
    var c := ToCivil(today);
    Period(WeekLabel(today), c.month, c.year)
  }

  predicate HasSchedule(schedules: seq<Schedule>, p: Period, id: UserId) {
    FirstSchedule(schedules, id, p.mes, p.anio).Some?
  }

  /** The store after processing one user. */
  function AssignUser(usages: map<UsageKey, Usage>, schedules: seq<Schedule>, p: Period, u: User): map<UsageKey, Usage> {
    match FirstSchedule(schedules, u.id, p.mes, p.anio)
    case None => usages
    case Some(s) => usages[(u.id, p.week) := Allocation(s.horarios)]
  }

  /** The store after processing the users of `order` one after the other. */
  function AssignAll(usages: map<UsageKey, Usage>, schedules: seq<Schedule>, p: Period, order: seq<User>): map<UsageKey, Usage> {
    if |order| == 0 then usages
    else AssignUser(AssignAll(usages, schedules, p, order[..|order| - 1]), schedules, p, order[|order| - 1])
  }

  /** Number of users of `order` that have a schedule for the period. */
  function ScheduledCount(schedules: seq<Schedule>, p: Period, order: seq<User>): nat {
    if |order| == 0 then 0
    else ScheduledCount(schedules, p, order[..|order| - 1]) + (if HasSchedule(schedules, p, order[|order| - 1].id) then 1 else 0)
  }

  function UserIds(users: seq<User>): set<UserId> {
    set u | u in users :: u.id
  }

  /** The record written for user `id`, from its first schedule for the period. */
  function AllocationFor(schedules: seq<Schedule>, p: Period, id: UserId): Usage
    requires HasSchedule(schedules, p, id)
  {
    Allocation(FirstSchedule(schedules, id, p.mes, p.anio).value.horarios)
  }

  /** The records a run writes for the users `ids`: one per user with a schedule. */
  function Written(schedules: seq<Schedule>, p: Period, ids: set<UserId>): map<UsageKey, Usage> {
    map id | id in ids && HasSchedule(schedules, p, id) :: (id, p.week) := AllocationFor(schedules, p, id)
  }

  /** `usosSemanaPasada`: previous-week hours per user, 0 without a record. */
  function PriorUsageTable(usages: map<UsageKey, Usage>, regular: seq<User>, prevWeek: string): map<UserId, nat> {
    map id | id in UserIds(regular) :: RecordedHours(usages, id, prevWeek)
  }

  /** The label of the week before the one containing `today`. */
  function PreviousWeekLabel(today: int): string {
    WeekLabel(today - 7)
  }

  /** The order in which the run processes users. */
  function RankingOrder(users: seq<User>, usages: map<UsageKey, Usage>, prevWeek: string): seq<User> {
    var regular := RegularUsers(users);
    SortByUsage(regular, PriorUsageTable(usages, regular, prevWeek))
  }

  datatype RunOutcome = NoUsers | Assigned(count: nat, week: string)

  datatype RunResult = RunResult(usages: map<UsageKey, Usage>, outcome: RunOutcome)

  /** The run for period `p`, ranking by the records labelled `prevWeek`. */
  function RunInPeriod(users: seq<User>, schedules: seq<Schedule>, usages: map<UsageKey, Usage>, p: Period, prevWeek: string): (r: RunResult)
    ensures r.outcome == NoUsers <==> RegularUsers(users) == []
    ensures r.outcome == NoUsers ==> r.usages == usages
    ensures r.outcome.Assigned? ==> r.outcome.week == p.week
  {
    var regular := RegularUsers(users);
    if |regular| == 0 then RunResult(usages, NoUsers)
    else
      var order := RankingOrder(users, usages, prevWeek);
      RunResult(AssignAll(usages, schedules, p, order), Assigned(ScheduledCount(schedules, p, order), p.week))
  }

  /** The whole run on the local date `today`: the new usage records and what the run reports. */
  function RunAssignment(users: seq<User>, schedules: seq<Schedule>, usages: map<UsageKey, Usage>, today: int): (r: RunResult)
    ensures r.outcome == NoUsers <==> RegularUsers(users) == []
    ensures r.outcome == NoUsers ==> r.usages == usages
    ensures r.outcome.Assigned? ==> r.outcome.week == WeekLabel(today)
  {
    RunInPeriod(users, schedules, usages, PeriodOf(today), PreviousWeekLabel(today))
  }

  // ---------------------------------------------------------------------------
  // Properties of the run
  // ---------------------------------------------------------------------------

  lemma UserIdsAppend(s: seq<User>, x: User)
    ensures UserIds(s + [x]) == UserIds(s) + {x.id}
  {
    assert forall u :: u in s + [x] <==> u in s || u == x;
  }

  /** Adding a user with a schedule to the written users adds that user's record. */
  lemma WrittenInsertScheduled(schedules: seq<Schedule>, p: Period, ids: set<UserId>, id: UserId)
    requires HasSchedule(schedules, p, id)
    ensures Written(schedules, p, ids + {id})
         == Written(schedules, p, ids)[(id, p.week) := AllocationFor(schedules, p, id)]
  {
    var w, w' := Written(schedules, p, ids), Written(schedules, p, ids + {id});
    var k := (id, p.week);
    forall key ensures key in w' <==> key in w || key == k {
      if key in w' {
        var j :| j in ids + {id} && HasSchedule(schedules, p, j) && key == (j, p.week);
      }
    }
    assert w'.Keys == w.Keys + {k};
  }

  /** Adding a user without a schedule to the written users changes nothing. */
  lemma WrittenInsertUnscheduled(schedules: seq<Schedule>, p: Period, ids: set<UserId>, id: UserId)
    requires !HasSchedule(schedules, p, id)
    ensures Written(schedules, p, ids + {id}) == Written(schedules, p, ids)
  {
    var w, w' := Written(schedules, p, ids), Written(schedules, p, ids + {id});
    forall key ensures key in w' <==> key in w {
      if key in w' {
        var j :| j in ids + {id} && HasSchedule(schedules, p, j) && key == (j, p.week);
      }
    }
    assert w'.Keys == w.Keys;
  }

  /** Processing users one by one amounts to writing each scheduled user's
      record once: the order does not matter and nothing is added up. */
  lemma {:induction false} AssignAllWrites(usages: map<UsageKey, Usage>, schedules: seq<Schedule>, p: Period, order: seq<User>)
    ensures AssignAll(usages, schedules, p, order) == usages + Written(schedules, p, UserIds(order))
    decreases |order|
  {
    if |order| == 0 {
      assert Written(schedules, p, UserIds(order)) == map[];
    } else {
      var init, x := order[..|order| - 1], order[|order| - 1];
      var w := Written(schedules, p, UserIds(init));
      var before := AssignAll(usages, schedules, p, init);
      assert before == usages + w by {
        AssignAllWrites(usages, schedules, p, init);
      }
      assert UserIds(order) == UserIds(init) + {x.id} by {
        assert order == init + [x];
        UserIdsAppend(init, x);
      }
      if HasSchedule(schedules, p, x.id) {
        var k, a := (x.id, p.week), AllocationFor(schedules, p, x.id);
        assert AssignAll(usages, schedules, p, order) == before[k := a];
        WrittenInsertScheduled(schedules, p, UserIds(init), x.id);
        MapUpdateOfUnion(usages, w, k, a);
      } else {
        assert AssignAll(usages, schedules, p, order) == before;
        WrittenInsertUnscheduled(schedules, p, UserIds(init), x.id);
      }
    }
  }

  lemma MapUpdateOfUnion<K, V>(m: map<K, V>, w: map<K, V>, k: K, v: V)
    ensures (m + w)[k := v] == m + w[k := v]
  {
  }

  lemma {:induction false} ScheduledCountAppend(schedules: seq<Schedule>, p: Period, a: seq<User>, b: seq<User>)
    ensures ScheduledCount(schedules, p, a + b) == ScheduledCount(schedules, p, a) + ScheduledCount(schedules, p, b)
    decreases |b|
  {
    if |b| == 0 {
      assert a + b == a;
    } else {
      var b' := b[..|b| - 1];
      ScheduledCountAppend(schedules, p, a, b');
      assert (a + b)[..|a + b| - 1] == a + b';
    }
  }

  /** The number of users with a schedule does not depend on their order. */
  lemma {:induction false} ScheduledCountPermutation(schedules: seq<Schedule>, p: Period, s: seq<User>, t: seq<User>)
    requires multiset(s) == multiset(t)
    ensures ScheduledCount(schedules, p, s) == ScheduledCount(schedules, p, t)
    decreases |s|
  {
    if |s| == 0 {
      assert |t| == |multiset(t)| == 0;
    } else {
      var init, x := s[..|s| - 1], s[|s| - 1];
      assert s == init + [x];
      assert x in multiset(t);
      var k :| 0 <= k < |t| && t[k] == x;
      var rest := t[..k] + t[k + 1..];
      assert t == t[..k] + [x] + t[k + 1..];
      assert multiset(s) == multiset(init) + multiset{x};
      assert multiset(t) == multiset(t[..k]) + multiset{x} + multiset(t[k + 1..]);
      assert multiset(rest) == multiset(t[..k]) + multiset(t[k + 1..]);
      assert multiset(init) == multiset(s) - multiset{x};
      assert multiset(rest) == multiset(t) - multiset{x};
      ScheduledCountPermutation(schedules, p, init, rest);
      ScheduledCountAppend(schedules, p, t[..k] + [x], t[k + 1..]);
      ScheduledCountAppend(schedules, p, t[..k], [x]);
      ScheduledCountAppend(schedules, p, t[..k], t[k + 1..]);
      assert [x][..0] == [];
    }
  }

  lemma UserIdsPermutation(s: seq<User>, t: seq<User>)
    requires multiset(s) == multiset(t)
    ensures UserIds(s) == UserIds(t)
  {
    forall u ensures u in s <==> u in t {
      assert u in s <==> u in multiset(s);
      assert u in t <==> u in multiset(t);
    }
  }

  lemma PriorUsageKey(usages: map<UsageKey, Usage>, regular: seq<User>, prevWeek: string, u: User)
    requires u in regular
    ensures Key(PriorUsageTable(usages, regular, prevWeek), u) == RecordedHours(usages, u.id, prevWeek)
  {
    assert u.id in UserIds(regular);
  }

  /** The processing order is a permutation of the role-'user' list sorted
      ascending by previous-week hours (0 without a record); users with equal
      hours keep their collection order. */
  lemma RankingOrderIsFairOrder(users: seq<User>, usages: map<UsageKey, Usage>, prevWeek: string)
    ensures var order := RankingOrder(users, usages, prevWeek);
      && multiset(order) == multiset(RegularUsers(users))
      && (forall i, j :: 0 <= i < j < |order| ==>
            RecordedHours(usages, order[i].id, prevWeek) <= RecordedHours(usages, order[j].id, prevWeek))
      && (forall v :: KeyFilter(order, PriorUsageTable(usages, RegularUsers(users), prevWeek), v)
                   == KeyFilter(RegularUsers(users), PriorUsageTable(usages, RegularUsers(users), prevWeek), v))
  {
    var regular := RegularUsers(users);
    var prev := prevWeek;
    var table := PriorUsageTable(usages, regular, prev);
    var order := RankingOrder(users, usages, prev);
    SortByUsageSortedPermutation(regular, table);
    forall v ensures KeyFilter(order, table, v) == KeyFilter(regular, table, v) {
      SortByUsageStable(regular, table, v);
    }
    forall i, j | 0 <= i < j < |order|
      ensures RecordedHours(usages, order[i].id, prev) <= RecordedHours(usages, order[j].id, prev)
    {
      assert order[i] in multiset(regular) && order[j] in multiset(regular);
      PriorUsageKey(usages, regular, prev, order[i]);
      PriorUsageKey(usages, regular, prev, order[j]);
    }
  }

  /** A user who used fewer hours last week is processed before one who used more. */
  lemma LessUsedRanksFirst(users: seq<User>, usages: map<UsageKey, Usage>, prevWeek: string, i: nat, j: nat)
    requires var order := RankingOrder(users, usages, prevWeek);
      i < |order| && j < |order| &&
      RecordedHours(usages, order[i].id, prevWeek) < RecordedHours(usages, order[j].id, prevWeek)
    ensures i < j
  {
    RankingOrderIsFairOrder(users, usages, prevWeek);
  }

  /** What a run writes: exactly one record per role-'user' user with a
      schedule for the period, keyed by the current week; every other record
      stays as it was. */
  lemma RunWrites(users: seq<User>, schedules: seq<Schedule>, usages: map<UsageKey, Usage>, p: Period, prevWeek: string)
    ensures RunInPeriod(users, schedules, usages, p, prevWeek).usages
         == usages + Written(schedules, p, UserIds(RegularUsers(users)))
  {
    var regular := RegularUsers(users);
    if |regular| == 0 {
      assert UserIds(regular) == {};
      assert Written(schedules, p, UserIds(regular)) == map[];
    } else {
      var order := RankingOrder(users, usages, prevWeek);
      SortByUsageSortedPermutation(regular, PriorUsageTable(usages, regular, prevWeek));
      PermutedAssignWrites(usages, schedules, p, order, regular);
    }
  }

  /** Processing any permutation of the users writes the same records. */
  lemma PermutedAssignWrites(usages: map<UsageKey, Usage>, schedules: seq<Schedule>, p: Period, order: seq<User>, regular: seq<User>)
    requires multiset(order) == multiset(regular)
    ensures AssignAll(usages, schedules, p, order) == usages + Written(schedules, p, UserIds(regular))
  {
    AssignAllWrites(usages, schedules, p, order);
    UserIdsPermutation(order, regular);
  }

  /** The reported count is the number of role-'user' users with a schedule. */
  lemma RunCount(users: seq<User>, schedules: seq<Schedule>, usages: map<UsageKey, Usage>, p: Period, prevWeek: string)
    requires RegularUsers(users) != []
    ensures RunInPeriod(users, schedules, usages, p, prevWeek).outcome
         == Assigned(ScheduledCount(schedules, p, RegularUsers(users)), p.week)
  {
    RankingOrderIsFairOrder(users, usages, prevWeek);
    ScheduledCountPermutation(schedules, p, RankingOrder(users, usages, prevWeek), RegularUsers(users));
  }

  /** Running twice with nothing changed in between yields the same records
      and the same report: the second run overwrites with identical values. */
  lemma RunIdempotent(users: seq<User>, schedules: seq<Schedule>, usages: map<UsageKey, Usage>, p: Period, prevWeek: string)
    ensures var first := RunInPeriod(users, schedules, usages, p, prevWeek);
      RunInPeriod(users, schedules, first.usages, p, prevWeek) == first
  {
    var first := RunInPeriod(users, schedules, usages, p, prevWeek);
    var second := RunInPeriod(users, schedules, first.usages, p, prevWeek);
    var w := Written(schedules, p, UserIds(RegularUsers(users)));
    assert second.usages == first.usages by {
      RunWrites(users, schedules, usages, p, prevWeek);
      RunWrites(users, schedules, first.usages, p, prevWeek);
      MapUnionIdempotent(usages, w);
    }
    assert second.outcome == first.outcome by {
      if RegularUsers(users) != [] {
        RunCount(users, schedules, usages, p, prevWeek);
        RunCount(users, schedules, first.usages, p, prevWeek);
      }
    }
  }

  lemma MapUnionIdempotent<K, V>(m: map<K, V>, w: map<K, V>)
    ensures (m + w) + w == m + w
  {
  }

  /** Every record a run writes is keyed by the current week label, has the
      five weekdays in order, at most 2 hours each, and a total equal to
      their sum (so at most 10). */
  lemma WrittenRecordsWellFormed(schedules: seq<Schedule>, today: int, ids: set<UserId>, key: UsageKey)
    requires key in Written(schedules, PeriodOf(today), ids)
    ensures key.1 == WeekLabel(today) && ParseLabel(key.1) == Some(WeekOf(today))
    ensures key.0 in ids && HasSchedule(schedules, PeriodOf(today), key.0)
    ensures var u := Written(schedules, PeriodOf(today), ids)[key];
      && |u.detalleHoras| == 5
      && (forall k :: 0 <= k < 5 ==> u.detalleHoras[k].dia == Some(AllWeekdays[k]) && u.detalleHoras[k].horas <= DailyCap)
      && u.horasUtilizadas == TotalHours(u.detalleHoras) <= 10
  {
  }

  /** The run never writes the previous week's records, whose hours it ranks by. */
  lemma RunKeepsPreviousWeek(users: seq<User>, schedules: seq<Schedule>, usages: map<UsageKey, Usage>, today: int, id: UserId)
    ensures var after := RunAssignment(users, schedules, usages, today).usages;
      var key := (id, PreviousWeekLabel(today));
      (key in after <==> key in usages) && (key in usages ==> after[key] == usages[key])
  {
    var ids := UserIds(RegularUsers(users));
    RunWrites(users, schedules, usages, PeriodOf(today), PreviousWeekLabel(today));
    PreviousWeekNotWritten(schedules, today, ids, id);
  }

  /** The records a run writes are keyed by the current week, never the previous one. */
  lemma PreviousWeekNotWritten(schedules: seq<Schedule>, today: int, ids: set<UserId>, id: UserId)
    ensures (id, PreviousWeekLabel(today)) !in Written(schedules, PeriodOf(today), ids)
  {
    PreviousLabelDiffers(today);
  }

  /** The previous week's label is never the current week's label. */
  lemma PreviousLabelDiffers(today: int)
    ensures PreviousWeekLabel(today) != WeekLabel(today)
  {
    SevenDaysEarlierIsPreviousWeek(today);
    var w := WeekOf(today);
    assert PreviousWeek(w) != w by {
      WeeksInYearRange(w.year - 1);
    }
    FormatInjective(WeekOf(today - 7), w);
  }

  /** Five slots on Monday grant exactly 2 hours; an entry for Wednesday with
      two slots grants 2; the other days get 0 and the total is 4. */
  lemma ExampleScenario()
    ensures var horarios := [DayEntry(Some(Lunes), [8, 9, 10, 11, 12]), DayEntry(Some(Miercoles), [14, 15])];
      Allocation(horarios) == Usage(4, [DayHours(Some(Lunes), 2), DayHours(Some(Martes), 0),
                                        DayHours(Some(Miercoles), 2), DayHours(Some(Jueves), 0),
                                        DayHours(Some(Viernes), 0)])
  {
    var horarios := [DayEntry(Some(Lunes), [8, 9, 10, 11, 12]), DayEntry(Some(Miercoles), [14, 15])];
    var d := Breakdown(horarios);
    assert horarios[..1] == [horarios[0]];
    assert DayAvailability(horarios, Lunes) == 2;
    assert DayAvailability(horarios, Martes) == 0;
    assert DayAvailability(horarios, Miercoles) == 2;
    assert DayAvailability(horarios, Jueves) == 0;
    assert DayAvailability(horarios, Viernes) == 0;
    assert d == [DayHours(Some(Lunes), 2), DayHours(Some(Martes), 0), DayHours(Some(Miercoles), 2),
                 DayHours(Some(Jueves), 0), DayHours(Some(Viernes), 0)];
    forall i | 0 < i <= 5 ensures d[..i][..i - 1] == d[..i - 1] {}
    assert TotalHours(d[..1]) == 2;
    assert TotalHours(d[..2]) == 2;
    assert TotalHours(d[..3]) == 4;
    assert TotalHours(d[..4]) == 4;
    assert d[..5] == d;
  }

  /** The previous-week table is determined by its keys and values. */
  lemma PriorUsageTableUnique(usages: map<UsageKey, Usage>, regular: seq<User>, prevWeek: string, usos: map<UserId, nat>)
    requires usos.Keys == UserIds(regular)
    requires forall u :: u in regular ==> usos[u.id] == RecordedHours(usages, u.id, prevWeek)
    ensures usos == PriorUsageTable(usages, regular, prevWeek)
  {
    forall id | id in usos ensures usos[id] == RecordedHours(usages, id, prevWeek) {
      var u :| u in regular && u.id == id;
    }
  }

  lemma AssignStep(usages: map<UsageKey, Usage>, schedules: seq<Schedule>, p: Period, order: seq<User>, k: nat)
    requires k < |order|
    ensures AssignAll(usages, schedules, p, order[..k + 1])
         == AssignUser(AssignAll(usages, schedules, p, order[..k]), schedules, p, order[k])
    ensures ScheduledCount(schedules, p, order[..k + 1])
         == ScheduledCount(schedules, p, order[..k]) + (if HasSchedule(schedules, p, order[k].id) then 1 else 0)
  {
    assert order[..k + 1][..k] == order[..k];
  }

  // ---------------------------------------------------------------------------
  // The steps of the run
  // ---------------------------------------------------------------------------

  /** `usuarios.sort(...)`: sorts a copy of the role-'user' list in place by
      previous-week hours. */
  method RankUsers(regular: seq<User>, usos: map<UserId, nat>) returns (order: seq<User>)
    ensures order == SortByUsage(regular, usos)
  {
    var ranked := new User[|regular|](k requires 0 <= k < |regular| => regular[k]);
    assert ranked[..] == regular;
    RankByUsage(ranked, usos);
    order := ranked[..];
  }

  /** Computes one user's record from the entries of their schedule. */
  method AllocateHours(horarios: seq<DayEntry>) returns (record: Usage)
    ensures record == Allocation(horarios)
  {
    var horasPorDia := HoursPerDay(horarios);
    var detalle, total := BuildBreakdown(horasPorDia);
    assert detalle == Breakdown(horarios);
    record := Usage(total, detalle);
  }

  // ---------------------------------------------------------------------------
  // The store and the run over it
  // ---------------------------------------------------------------------------

  /** The persistent collections the run reads and writes. */
  class ChargerStore {
    var users: seq<User>
    var schedules: seq<Schedule>
    var usages: map<UsageKey, Usage>

    constructor (users: seq<User>, schedules: seq<Schedule>, usages: map<UsageKey, Usage>)
      ensures this.users == users && this.schedules == schedules && this.usages == usages
    {
      this.users := users;
      this.schedules := schedules;
      this.usages := usages;
    }

    /** Fills `usosSemanaPasada` from the previous week's records. */
    method PriorUsage(regular: seq<User>, prevWeek: string) returns (usos: map<UserId, nat>)
      ensures usos.Keys == UserIds(regular)
      ensures forall u :: u in regular ==> usos[u.id] == RecordedHours(usages, u.id, prevWeek)
    {
      usos := map[];
      for i := 0 to |regular|
        invariant usos.Keys == UserIds(regular[..i])
        invariant forall id :: id in usos ==> usos[id] == RecordedHours(usages, id, prevWeek)
      {
        var u := regular[i];
        var uso := if (u.id, prevWeek) in usages then Some(usages[(u.id, prevWeek)]) else None;
        usos := usos[u.id := if uso.Some? then uso.value.horasUtilizadas else 0];
        assert regular[..i + 1] == regular[..i] + [u];
        UserIdsAppend(regular[..i], u);
      }
      assert regular[..|regular|] == regular;
      forall u | u in regular ensures usos[u.id] == RecordedHours(usages, u.id, prevWeek) {
        assert u.id in UserIds(regular);
      }
    }

    /** The loop over the ranked users: each user with a schedule for the
        period gets the record computed from it, keyed by the current week. */
    method AssignInOrder(order: seq<User>, p: Period) returns (count: nat)
      modifies this
      ensures users == old(users) && schedules == old(schedules)
      ensures usages == AssignAll(old(usages), schedules, p, order)
      ensures count == ScheduledCount(schedules, p, order)
    {
      count := 0;
      for k := 0 to |order|
        invariant users == old(users) && schedules == old(schedules)
        invariant usages == AssignAll(old(usages), schedules, p, order[..k])
        invariant count == ScheduledCount(schedules, p, order[..k])
      {
        var u := order[k];
        AssignStep(old(usages), schedules, p, order, k);
        var schedule := FirstSchedule(schedules, u.id, p.mes, p.anio);
        if schedule.None? {
          continue;
        }
        var record := AllocateHours(schedule.value.horarios);
        usages := usages[(u.id, p.week) := record];
        count := count + 1;
      }
      assert order[..|order|] == order;
    }

    /** `autoAssignCharger` for the local date `today`. */
    method AutoAssign(today: int) returns (outcome: RunOutcome)
      modifies this
      ensures users == old(users) && schedules == old(schedules)
      ensures RunResult(usages, outcome) == RunAssignment(old(users), old(schedules), old(usages), today)
    {
      var prevWeek := PreviousWeekLabel(today);
      var regular := RegularUsers(users);
      if |regular| == 0 {
        return NoUsers;
      }
      var usos := PriorUsage(regular, prevWeek);
      PriorUsageTableUnique(usages, regular, prevWeek, usos);
      var order := RankUsers(regular, usos);
      var p := PeriodOf(today);
      var count := AssignInOrder(order, p);
      outcome := Assigned(count, p.week);
    }
  }
}
