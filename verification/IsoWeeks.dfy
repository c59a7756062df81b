/** The ISO week of an instant, worked out the way the host language's calendar does it, and its printed form. */
module IsoWeeks {
  import opened Wrappers
  import opened Text
  import Digits

  /** Instants are microseconds since the start of 1 January of year 1, UTC. */
  const DAY: nat := 86_400_000_000
  const WEEK: nat := 7 * DAY

  /** Days are numbered from 1, which is 1 January of year 1 and a Monday. */
  function DayOf(t: nat): nat {
    t / DAY + 1
  }

  function FloorDiv(a: int, b: int): int
    requires b > 0
  {
    a / b
  }

  /** The number of the last day before a year. */
  function DaysBeforeYear(year: int): int {
    var y := year - 1;
    y * 365 + FloorDiv(y, 4) - FloorDiv(y, 100) + FloorDiv(y, 400)
  }

  lemma YearLength(year: int)
    ensures 365 <= DaysBeforeYear(year + 1) - DaysBeforeYear(year) <= 366
  {
    FloorSteps(year - 1, 4);
    FloorSteps(year - 1, 100);
    FloorSteps(year - 1, 400);
    LeapDays(year - 1);
  }

  predicate IsLeap(year: int) {
    year % 4 == 0 && (year % 100 != 0 || year % 400 == 0)
  }

  /** Years start on day 1 and have 366 days when they can be divided by 4 and not by 100, or by 400. */
  lemma YearsAreGregorian(year: int)
    ensures DaysBeforeYear(1) == 0
    ensures DaysBeforeYear(year + 1) - DaysBeforeYear(year) == if IsLeap(year) then 366 else 365
  {
    FloorSteps(year - 1, 4);
    FloorSteps(year - 1, 100);
    FloorSteps(year - 1, 400);
    LeapDays(year - 1);
  }

  lemma {:induction false} YearsInOrder(y: int, z: int)
    requires y <= z
    ensures DaysBeforeYear(y) <= DaysBeforeYear(z)
    decreases z - y
  {
    hide DaysBeforeYear;
    if y < z {
      YearsInOrder(y, z - 1);
      YearLength(z - 1);
    }
  }

  lemma YearIs(day: nat, y: nat)
    requires day >= 1 && DaysBeforeYear(y) < day <= DaysBeforeYear(y + 1)
    ensures YearOf(day) == y
  {
    var x := YearOf(day);
    hide DaysBeforeYear, YearFrom;
    if x < y {
      YearsInOrder(x + 1, y);
    } else if y < x {
      YearsInOrder(y + 1, x);
    }
  }

  /** Thursday, 1 January 1970; Sunday, 3 January 2021, in the last week of 2020; Monday, 30 December 2024, in the first
      week of 2025. */
  lemma KnownWeeks()
    ensures IsoWeek(719163) == (1970, 1) && (719163 - 1) % 7 == 3
    ensures IsoWeek(737793) == (2020, 53) && IsoWeek(739250) == (2025, 1)
  {
    assert DaysBeforeYear(1970) == 719162 && DaysBeforeYear(1971) == 719527 && DaysBeforeYear(2020) == 737424;
    assert DaysBeforeYear(2021) == 737790 && DaysBeforeYear(2022) == 738155 && DaysBeforeYear(2024) == 738885;
    assert DaysBeforeYear(2025) == 739251;
    hide *;
    YearIs(719163, 1970);
    YearIs(737793, 2021);
    YearIs(739250, 2024);
    KnownMondays();
    WeekIs(719163, 1970);
    WeekIs(737793, 2021);
    WeekIs(739250, 2024);
  }

  /** The start of 1970, in microseconds from the start of year 1. */
  lemma EpochWeek()
    ensures WeekKey(62_135_596_800_000_000) == WeekText(1970, 1)
  {
    var t := 62_135_596_800_000_000;
    KnownWeeks();
    assert DayOf(t) == 719163;
    hide IsoWeek, DayOf, WeekText;
  }

  lemma KnownMondays()
    ensures FirstMonday(1970) == 719160 && FirstMonday(1971) == 719531 && FirstMonday(2020) == 737423
    ensures FirstMonday(2021) == 737794 && FirstMonday(2022) == 738158
    ensures FirstMonday(2024) == 738886 && FirstMonday(2025) == 739250
  {
  }

  lemma WeekIs(day: nat, year: nat)
    requires day >= 1 && YearOf(day) == year
    ensures var week := (day - FirstMonday(year)) / 7;
            IsoWeek(day) == if week < 0 then (year - 1, (day - FirstMonday(year - 1)) / 7 + 1)
                            else if week >= 52 && day >= FirstMonday(year + 1) then (year + 1, 1) else (year, week + 1)
  {
    hide YearOf, FirstMonday;
  }

  lemma FloorSteps(a: int, b: int)
    requires b > 1
    ensures FloorDiv(a + 1, b) == FloorDiv(a, b) + if (a + 1) % b == 0 then 1 else 0
  {
    var q, r := a / b, a % b;
    assert a == q * b + r;
    if r == b - 1 {
      assert a + 1 == (q + 1) * b;
      DivUnique(a + 1, b, q + 1, 0);
    } else {
      DivUnique(a + 1, b, q, r + 1);
    }
  }

  lemma DivUnique(a: int, b: int, q: int, r: int)
    requires b > 0 && a == q * b + r && 0 <= r < b
    ensures a / b == q && a % b == r
  {
    var p, t := a / b, a % b;
    assert (p - q) * b == r - t by {
      assert a == p * b + t;
    }
    if p > q {
      AtLeastOnce(p - q, b);
    } else if p < q {
      AtLeastOnce(q - p, b);
    }
  }

  lemma AtLeastOnce(k: int, b: int)
    requires k >= 1 && b > 0
    ensures k * b >= b
  {
  }

  lemma LeapDays(y: int)
    ensures (y + 1) % 400 == 0 ==> (y + 1) % 100 == 0
    ensures (y + 1) % 100 == 0 ==> (y + 1) % 4 == 0
  {
    var a := y + 1;
    if a % 400 == 0 {
      DivUnique(a, 100, 4 * (a / 400), 0);
    }
    if a % 100 == 0 {
      DivUnique(a, 4, 25 * (a / 100), 0);
    }
  }

  /** The calendar year a day falls in, looked for from `year` on. */
  function YearFrom(year: nat, day: nat): (y: nat)
    requires DaysBeforeYear(year) < day
    ensures y >= year && DaysBeforeYear(y) < day <= DaysBeforeYear(y + 1)
    decreases day - DaysBeforeYear(year)
  {
    YearLength(year);
    if day <= DaysBeforeYear(year + 1) then year else YearFrom(year + 1, day)
  }

  function YearOf(day: nat): nat
    requires day >= 1
  {
    YearFrom(1, day)
  }

  /** The Monday of a year's first ISO week. */
  function FirstMonday(year: int): int {
    var firstDay := DaysBeforeYear(year) + 1;
    var firstWeekday := (firstDay + 6) % 7;
    if firstWeekday > 3 then firstDay - firstWeekday + 7 else firstDay - firstWeekday
  }

  /** The number of the Monday-based week a day falls in. */
  function MondayWeek(day: int): int {
    FloorDiv(day - 1, 7)
  }

  /** ISO year and week of a day. */
  function IsoWeek(day: nat): (int, int)
    requires day >= 1
  {
    var year := YearOf(day);
    var week := FloorDiv(day - FirstMonday(year), 7);
    if week < 0 then (year - 1, FloorDiv(day - FirstMonday(year - 1), 7) + 1)
    else if week >= 52 && day >= FirstMonday(year + 1) then (year + 1, 1)
    else (year, week + 1)
  }

  lemma FirstMondayIsMonday(year: int)
    ensures FirstMonday(year) == 7 * MondayWeek(FirstMonday(year)) + 1
    ensures DaysBeforeYear(year) - 2 <= FirstMonday(year) <= DaysBeforeYear(year) + 4
  {
    var d := DaysBeforeYear(year) + 1;
    var w := (d + 6) % 7;
    var q := (d + 6) / 7;
    assert d + 6 == 7 * q + w;
    if w > 3 {
      assert FirstMonday(year) - 1 == 7 * q + 0;
      DivUnique(FirstMonday(year) - 1, 7, q, 0);
    } else {
      assert FirstMonday(year) - 1 == 7 * (q - 1) + 0;
      DivUnique(FirstMonday(year) - 1, 7, q - 1, 0);
    }
  }

  /** ISO years have 52 weeks or more. */
  lemma IsoYearLength(year: int)
    ensures FirstMonday(year + 1) >= FirstMonday(year) + 364
  {
    FirstMondayIsMonday(year);
    FirstMondayIsMonday(year + 1);
    YearLength(year);
    hide FirstMonday, DaysBeforeYear, MondayWeek;
  }

  lemma {:induction false} IsoYearsIncrease(a: int, b: int)
    requires a <= b
    ensures FirstMonday(a) <= FirstMonday(b)
    decreases b - a
  {
    if a < b {
      IsoYearsIncrease(a, b - 1);
      IsoYearLength(b - 1);
    }
  }

  /** Its ISO year is the one whose weeks the day falls in, and its week the number of that Monday-based week. */
  lemma IsoWeekMeaning(day: nat)
    requires day >= 1
    ensures FirstMonday(IsoWeek(day).0) <= day < FirstMonday(IsoWeek(day).0 + 1)
    ensures IsoWeek(day).1 == MondayWeek(day) - MondayWeek(FirstMonday(IsoWeek(day).0)) + 1
    ensures IsoWeek(day).0 >= 1 && IsoWeek(day).1 >= 1
  {
    hide FirstMonday, DaysBeforeYear;
    var year := YearOf(day);
    FirstMondayIsMonday(year - 1);
    FirstMondayIsMonday(year);
    FirstMondayIsMonday(year + 1);
    FirstMondayIsMonday(year + 2);
    IsoYearLength(year - 1);
    IsoYearLength(year);
    IsoYearLength(year + 1);
    YearLength(year);
    FirstIsoYear();
    hide YearOf;
  }

  lemma FirstIsoYear()
    ensures FirstMonday(1) == 1
  {
  }

  /** Two days have the same ISO week exactly when they are in the same Monday-to-Sunday week. */
  lemma IsoWeekIsMondayWeek(a: nat, b: nat)
    requires a >= 1 && b >= 1
    ensures IsoWeek(a) == IsoWeek(b) <==> MondayWeek(a) == MondayWeek(b)
  {
    hide *;
    IsoWeekMeaning(a);
    IsoWeekMeaning(b);
    if MondayWeek(a) == MondayWeek(b) {
      SameWeekSameYear(a, b, IsoWeek(a).0, IsoWeek(b).0);
      SameWeekSameYear(b, a, IsoWeek(b).0, IsoWeek(a).0);
      assert IsoWeek(a) == (IsoWeek(a).0, IsoWeek(a).1);
      assert IsoWeek(b) == (IsoWeek(b).0, IsoWeek(b).1);
    }
  }

  lemma SameWeekSameYear(a: int, b: int, y: int, z: int)
    ensures MondayWeek(a) == MondayWeek(b) && a < FirstMonday(y + 1) && FirstMonday(z) <= b ==> z <= y
  {
    hide *;
    FirstMondayIsMonday(z);
    FirstMondayIsMonday(y + 1);
    WeekStarts(a, MondayWeek(FirstMonday(y + 1)));
    WeekStarts(b, MondayWeek(FirstMonday(z)));
    if y + 1 <= z {
      IsoYearsIncrease(y + 1, z);
    }
  }

  lemma WeekStarts(day: int, m: int)
    ensures day >= 7 * m + 1 <==> MondayWeek(day) >= m
  {
  }

  // The printed key

  function WeekText(year: nat, week: nat): string {
    Digits.Padded(year, 4) + "-W" + Digits.Padded(week, 2)
  }

  /** Four digits, a hyphen and a W, two digits. */
  lemma WeekTextMeans(year: nat, week: nat)
    requires year < 10000 && week < 100
    ensures var t := WeekText(year, week);
            && |t| == 8 && t[4..6] == "-W"
            && Digits.ParseNat(t[..4]) == Some(year) && Digits.ParseNat(t[6..]) == Some(week)
  {
    Digits.ParseOfPadded(year, 4);
    Digits.ParseOfPadded(week, 2);
    assert Digits.Pow10(1) == 10 && Digits.Pow10(2) == 100 && Digits.Pow10(3) == 1000 && Digits.Pow10(4) == 10000;
    PaddedWidth(year, 4);
    PaddedWidth(week, 2);
    var t := WeekText(year, week);
    assert t[..4] == Digits.Padded(year, 4) && t[6..] == Digits.Padded(week, 2);
  }

  lemma PaddedWidth(n: nat, w: nat)
    requires w >= 1 && n < Digits.Pow10(w)
    ensures |Digits.Padded(n, w)| == w
  {
    Digits.PaddedLength(n, w);
  }

  lemma WeekTextInjective(y: nat, v: nat, z: nat, w: nat)
    requires WeekText(y, v) == WeekText(z, w)
    ensures y == z && v == w
  {
    WeekTextCut(y, v);
    WeekTextCut(z, w);
    Digits.ParseOfPadded(y, 4);
    Digits.ParseOfPadded(z, 4);
    Digits.ParseOfPadded(v, 2);
    Digits.ParseOfPadded(w, 2);
  }

  lemma WeekTextCut(y: nat, v: nat)
    ensures var s, k := WeekText(y, v), |Digits.Padded(y, 4)|;
            && Find(s, '-') == Some(k)
            && s[..k] == Digits.Padded(y, 4) && |s| >= k + 2 && s[k + 2..] == Digits.Padded(v, 2)
  {
    var a, b := Digits.Padded(y, 4), Digits.Padded(v, 2);
    Digits.ParseOfPadded(y, 4);
    assert WeekText(y, v) == a + ['-'] + ("W" + b);
    FindIn(a, '-', "W" + b);
  }

  function WeekKey(t: nat): string
    requires DayOf(t) >= 1
  {
    IsoWeekMeaning(DayOf(t));
    var (year, week) := IsoWeek(DayOf(t));
    WeekText(year, week)
  }

  /** The number of the week since the start of year 1. */
  function WeekNumber(t: nat): nat {
    t / WEEK
  }

  /** Instants get the same week key exactly when they fall in the same week from Monday to Sunday. */
  lemma WeekKeyIsWeek(s: nat, t: nat)
    ensures WeekKey(s) == WeekKey(t) <==> WeekNumber(s) == WeekNumber(t)
  {
    var a, b := DayOf(s), DayOf(t);
    IsoWeekMeaning(a);
    IsoWeekMeaning(b);
    IsoWeekIsMondayWeek(a, b);
    WeekNumberOfDay(s);
    WeekNumberOfDay(t);
    hide IsoWeek, MondayWeek, DayOf, WeekText, WeekNumber;
    if WeekKey(s) == WeekKey(t) {
      WeekTextInjective(IsoWeek(a).0, IsoWeek(a).1, IsoWeek(b).0, IsoWeek(b).1);
    }
  }

  lemma WeekNumberOfDay(t: nat)
    ensures WeekNumber(t) == MondayWeek(DayOf(t))
  {
    var d := t / DAY;
    var q, r := d / 7, d % 7;
    assert t == (7 * q + r) * DAY + t % DAY;
    assert t == q * WEEK + (r * DAY + t % DAY);
    DivUnique(t, WEEK, q, r * DAY + t % DAY);
  }
}
