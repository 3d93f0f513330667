/**
  Week labels of the charger job: `getWeekNumber` turns a date into a
  `YYYY-WW` label following ISO 8601 week numbering (the week date of
  section 4.1.4 of ISO 8601:2004).  The date is moved to the Thursday of its
  Monday-to-Sunday week; the label's year is that Thursday's year and the
  week number is ceil((days since 1 January of that year + 1) / 7).
 */
module Week {
  import opened Calendar
  import opened Optional

  /** An ISO week: the year of its Thursday and the week number within that year. */
  datatype WeekId = WeekId(year: int, week: int)

  // ---------------------------------------------------------------------------
  // Decimal text, as produced by JavaScript's `${n}` and padStart(2, '0')
  // ---------------------------------------------------------------------------

  predicate IsDigit(c: char) {
    '0' <= c <= '9'
  }

  function DigitChar(v: int): (c: char)
    requires 0 <= v <= 9
  {
    (('0' as int) + v) as char
  }

  function DigitValue(c: char): int {
    (c as int) - ('0' as int)
  }

  /** Decimal digits of `n`, without leading zeros. */
  function NatText(n: nat): (s: string)
    ensures |s| >= 1 && forall i :: 0 <= i < |s| ==> IsDigit(s[i])
    decreases n
  {
    if n < 10 then [DigitChar(n)] else NatText(n / 10) + [DigitChar(n % 10)]
  }

  /** Value of a digit string read most significant digit first. */
  function DigitsValue(s: string): int {
    if |s| == 0 then 0 else DigitsValue(s[..|s| - 1]) * 10 + DigitValue(s[|s| - 1])
  }

  lemma {:induction false} NatTextRoundTrip(n: nat)
    ensures DigitsValue(NatText(n)) == n
    decreases n
  {
    var s := NatText(n);
    if n < 10 {
      assert s[..0] == [];
    } else {
      NatTextRoundTrip(n / 10);
      assert s[..|s| - 1] == NatText(n / 10);
    }
  }

  /** A year as JavaScript prints an integer: a minus sign for negative years. */
  function YearText(y: int): string {
    if y < 0 then "-" + NatText(-y) else NatText(y)
  }

  function YearValue(s: string): int {
    if |s| > 0 && s[0] == '-' then -DigitsValue(s[1..]) else DigitsValue(s)
  }

  lemma YearTextRoundTrip(y: int)
    ensures |YearText(y)| >= 1
    ensures YearValue(YearText(y)) == y
  {
    if y < 0 {
      assert YearText(y)[1..] == NatText(-y);
      NatTextRoundTrip(-y);
    } else {
      assert IsDigit(NatText(y)[0]);
      NatTextRoundTrip(y);
    }
  }

  /** Two-digit zero-padded text of a number below 100. */
  function Pad2(w: int): (s: string)
    requires 0 <= w <= 99
    ensures |s| == 2 && IsDigit(s[0]) && IsDigit(s[1])
    ensures DigitValue(s[0]) * 10 + DigitValue(s[1]) == w
  {
    [DigitChar(w / 10), DigitChar(w % 10)]
  }

  /** The `YYYY-WW` label of a week. */
  function Format(w: WeekId): string
    requires 0 <= w.week <= 99
  {
    YearText(w.year) + "-" + Pad2(w.week)
  }

  /** Reads a label back: the text before the last three characters is the year,
      then a hyphen and two digits. */
  function ParseLabel(s: string): Option<WeekId> {
    if |s| >= 4 && s[|s| - 3] == '-' && IsDigit(s[|s| - 2]) && IsDigit(s[|s| - 1])
    then Some(WeekId(YearValue(s[..|s| - 3]), DigitValue(s[|s| - 2]) * 10 + DigitValue(s[|s| - 1])))
    else None
  }

  /** A label is the year, a hyphen and exactly two digits, and it reads back to its week. */
  lemma FormatShape(w: WeekId)
    requires 0 <= w.week <= 99
    ensures var s := Format(w);
      && s == YearText(w.year) + "-" + s[|s| - 2..]
      && IsDigit(s[|s| - 2]) && IsDigit(s[|s| - 1])
      && ParseLabel(s) == Some(w)
  {
    var s := Format(w);
    YearTextRoundTrip(w.year);
    assert s[..|s| - 3] == YearText(w.year);
    assert s[|s| - 2..] == Pad2(w.week);
  }

  /** Different weeks never share a label. */
  lemma FormatInjective(w1: WeekId, w2: WeekId)
    requires 0 <= w1.week <= 99 && 0 <= w2.week <= 99
    ensures Format(w1) == Format(w2) <==> w1 == w2
  {
    FormatShape(w1);
    FormatShape(w2);
  }

  // ---------------------------------------------------------------------------
  // getWeekNumber
  // ---------------------------------------------------------------------------

  /** `getUTCDay() || 7`: Monday is 1 and Sunday is 7 (day 0 was a Thursday). */
  function IsoWeekday(d: int): (n: int)
    ensures 1 <= n <= 7
  {
    var js := (d + 4) % 7;
    if js == 0 then 7 else js
  }

  /** The Thursday of the Monday-to-Sunday week that contains `d`. */
  function Thursday(d: int): int {
    d + 4 - IsoWeekday(d)
  }

  /** ceil(a / b) for a positive divisor. */
  function CeilDiv(a: int, b: int): int
    requires b > 0
  {
    (a + b - 1) / b
  }

  /** The ISO week of day `d`. */
  function WeekOf(d: int): (w: WeekId)
    ensures 1 <= w.week <= 53
    ensures YearStart(w.year) <= Thursday(d) < YearStart(w.year + 1)
  {
    var t := Thursday(d);
    var y := YearOf(t);
    YearLength(y);
    WeekId(y, CeilDiv(t - YearStart(y) + 1, 7))
  }

  /** `getWeekNumber(date)`. */
  function WeekLabel(d: int): (s: string)
    ensures ParseLabel(s) == Some(WeekOf(d))
  {
    FormatShape(WeekOf(d));
    Format(WeekOf(d))
  }

  lemma ThursdayFacts(d: int)
    ensures IsoWeekday(Thursday(d)) == 4
    ensures Thursday(d) - d == 4 - IsoWeekday(d)
    ensures d - 3 <= Thursday(d) <= d + 3
    ensures Thursday(d) == 7 * ((d + 3) / 7)
  {
  }

  /** Two Thursdays less than a week apart are the same day. */
  lemma ThursdaysApart(t1: int, t2: int)
    requires IsoWeekday(t1) == 4 && IsoWeekday(t2) == 4
    requires t1 - 7 < t2 < t1 + 7
    ensures t1 == t2
  {
  }

  /** Two days get the same week exactly when they share the same Thursday,
      that is, when they lie in the same Monday-to-Sunday week. */
  lemma SameWeekIffSameThursday(d1: int, d2: int)
    ensures WeekOf(d1) == WeekOf(d2) <==> Thursday(d1) == Thursday(d2)
  {
    var t1, t2 := Thursday(d1), Thursday(d2);
    if WeekOf(d1) == WeekOf(d2) {
      var y := WeekOf(d1).year;
      YearOfUnique(y, t1);
      YearOfUnique(y, t2);
      ThursdayFacts(d1);
      ThursdayFacts(d2);
      ThursdaysApart(t1, t2);
    }
  }

  /** All seven days from a Monday to the following Sunday share a label;
      the Sunday is weekday 7, not 0. */
  lemma MondayToSundaySameLabel(monday: int, k: int)
    requires IsoWeekday(monday) == 1 && 0 <= k < 7
    ensures IsoWeekday(monday + k) == k + 1
    ensures WeekLabel(monday + k) == WeekLabel(monday)
  {
    assert Thursday(monday + k) == Thursday(monday);
  }

  /** The last ISO week of year `y` is the week that contains 28 December. */
  function WeeksInYear(y: int): int {
    WeekOf(YearStart(y + 1) - 4).week
  }

  /** The week immediately before `w`. */
  function PreviousWeek(w: WeekId): WeekId {
    if w.week > 1 then WeekId(w.year, w.week - 1) else WeekId(w.year - 1, WeeksInYear(w.year - 1))
  }

  /** An ISO year has 52 or 53 weeks, and 28 December belongs to its own year. */
  lemma {:induction false} WeeksInYearRange(y: int)
    ensures WeekOf(YearStart(y + 1) - 4) == WeekId(y, WeeksInYear(y))
    ensures 52 <= WeeksInYear(y) <= 53
  {
    var dec28 := YearStart(y + 1) - 4;
    var t := Thursday(dec28);
    ThursdayFacts(dec28);
    YearLength(y);
    YearLength(y + 1);
    YearOfUnique(y, t);
  }

  /** 28 December of year y - 1 lies in the last week of year y - 1. */
  lemma LastWeekOfPreviousYear(y: int)
    ensures WeekOf(YearStart(y) - 4) == WeekId(y - 1, WeeksInYear(y - 1))
  {
    WeeksInYearRange(y - 1);
  }

  lemma ThursdayWeekEarlier(d: int)
    ensures Thursday(d - 7) == Thursday(d) - 7
  {
  }

  lemma {:induction false} PreviousWeekWithinYear(d: int)
    requires WeekOf(d).week > 1
    ensures WeekOf(d - 7) == WeekId(WeekOf(d).year, WeekOf(d).week - 1)
  {
    var w := WeekOf(d);
    var t := Thursday(d);
    ThursdayWeekEarlier(d);
    YearOfUnique(w.year, t);
    assert t - YearStart(w.year) >= 7;
    YearOfUnique(w.year, t - 7);
  }

  /** A date in week 1 has its Thursday in the first seven days of the week's year. */
  lemma WeekOneThursday(d: int)
    requires WeekOf(d).week == 1
    ensures YearStart(WeekOf(d).year) <= Thursday(d) < YearStart(WeekOf(d).year) + 7
  {
    YearOfUnique(WeekOf(d).year, Thursday(d));
  }

  /** When the Thursday of `d` falls in the first seven days from `s`, the
      Thursday a week earlier is the Thursday of the day four days before `s`. */
  lemma ThursdayBeforeYearStart(d: int, s: int)
    requires s <= Thursday(d) < s + 7
    ensures Thursday(d - 7) == Thursday(s - 4)
  {
    ThursdayWeekEarlier(d);
    ThursdayFacts(s - 4);
    ThursdayFacts(d - 7);
    ThursdaysApart(Thursday(d - 7), Thursday(s - 4));
  }

  lemma AcrossYearFrom(d: int, y: int)
    requires YearStart(y) <= Thursday(d) < YearStart(y) + 7
    ensures WeekOf(d - 7) == WeekId(y - 1, WeeksInYear(y - 1))
  {
    var s := YearStart(y);
    ThursdayBeforeYearStart(d, s);
    SameThursdaySameWeek(d - 7, s - 4);
    LastWeekOfPreviousYear(y);
  }

  lemma SameThursdaySameWeek(a: int, b: int)
    requires Thursday(a) == Thursday(b)
    ensures WeekOf(a) == WeekOf(b)
  {
  }

  lemma {:induction false} PreviousWeekAcrossYear(d: int)
    requires WeekOf(d).week == 1
    ensures WeekOf(d - 7) == WeekId(WeekOf(d).year - 1, WeeksInYear(WeekOf(d).year - 1))
  {
    var y := WeekOf(d).year;
    var s := YearStart(y);
    WeekOneThursday(d);
    AcrossYearFrom(d, y);
  }

  /** The label computed for seven days before a date is the label of the
      ISO week immediately preceding that date's week. */
  lemma SevenDaysEarlierIsPreviousWeek(d: int)
    ensures WeekOf(d - 7) == PreviousWeek(WeekOf(d))
  {
    var w := WeekOf(d);
    if w.week > 1 {
      PreviousWeekWithinYear(d);
      assert PreviousWeek(w) == WeekId(w.year, w.week - 1);
    } else {
      PreviousWeekAcrossYear(d);
      assert PreviousWeek(w) == WeekId(w.year - 1, WeeksInYear(w.year - 1));
    }
  }

  predicate WeekLeq(a: WeekId, b: WeekId) {
    a.year < b.year || (a.year == b.year && a.week <= b.week)
  }

  lemma YearOfMonotone(d1: int, d2: int)
    requires d1 <= d2
    ensures YearOf(d1) <= YearOf(d2)
  {
    var y1, y2 := YearOf(d1), YearOf(d2);
    if y2 < y1 {
      YearStartMonotone(y2, y1);
    }
  }

  /** Week labels never go backwards as the date advances. */
  lemma WeekMonotone(d1: int, d2: int)
    requires d1 <= d2
    ensures WeekLeq(WeekOf(d1), WeekOf(d2))
  {
    ThursdayFacts(d1);
    ThursdayFacts(d2);
    assert (d1 + 3) / 7 <= (d2 + 3) / 7;
    YearOfMonotone(Thursday(d1), Thursday(d2));
  }

  /** The label's year is the Thursday's year: it differs from the date's own
      year only for the three days at either end of a year. */
  lemma WeekYearNearDateYear(d: int)
    ensures YearOf(d) - 1 <= WeekOf(d).year <= YearOf(d) + 1
    ensures WeekOf(d).year < YearOf(d) ==> d - YearStart(YearOf(d)) < 3
    ensures WeekOf(d).year > YearOf(d) ==> YearStart(YearOf(d) + 1) - d <= 3
  {
    var y := YearOf(d);
    var t := Thursday(d);
    ThursdayFacts(d);
    YearLength(y - 1);
    YearLength(y);
    YearLength(y + 1);
    if t < YearStart(y) {
      YearOfUnique(y - 1, t);
    } else if t < YearStart(y + 1) {
      YearOfUnique(y, t);
    } else {
      YearOfUnique(y + 1, t);
    }
  }

  lemma WeekLabelOfWeek(d: int, y: int, n: int)
    requires YearStart(y) <= Thursday(d) < YearStart(y + 1)
    requires n == Thursday(d) - YearStart(y)
    ensures WeekOf(d) == WeekId(y, (n + 7) / 7)
  {
    YearOfUnique(y, Thursday(d));
  }

  /** 1 January 2025 is a Wednesday in week 1 of 2025. */
  lemma Example2025Jan1()
    ensures ValidDate(Date(2025, 1, 1))
    ensures WeekLabel(FromCivil(Date(2025, 1, 1))) == "2025-01"
  {
    var d := FromCivil(Date(2025, 1, 1));
    assert d == 20089;
    assert Thursday(d) == 20090;
    YearLength(2025);
    WeekLabelOfWeek(d, 2025, 1);
    assert NatText(2025) == "2025" by {
      assert NatText(2) == "2";
      assert NatText(20) == "20";
      assert NatText(202) == "202";
    }
  }

  /** Monday 30 December 2024 already belongs to week 1 of 2025. */
  lemma Example2024Dec30()
    ensures ValidDate(Date(2024, 12, 30))
    ensures WeekLabel(FromCivil(Date(2024, 12, 30))) == "2025-01"
  {
    var d := FromCivil(Date(2024, 12, 30));
    assert d == 20087;
    assert Thursday(d) == 20090;
    YearLength(2025);
    WeekLabelOfWeek(d, 2025, 1);
    assert NatText(2025) == "2025" by {
      assert NatText(2) == "2";
      assert NatText(20) == "20";
      assert NatText(202) == "202";
    }
  }

  /** Friday 1 January 2021 still belongs to week 53 of 2020. */
  lemma Example2021Jan1()
    ensures ValidDate(Date(2021, 1, 1))
    ensures WeekLabel(FromCivil(Date(2021, 1, 1))) == "2020-53"
  {
    var d := FromCivil(Date(2021, 1, 1));
    assert d == 18628;
    assert Thursday(d) == 18627;
    YearLength(2020);
    WeekLabelOfWeek(d, 2020, 365);
    assert NatText(2020) == "2020" by {
      assert NatText(2) == "2";
      assert NatText(20) == "20";
      assert NatText(202) == "202";
    }
  }
}
