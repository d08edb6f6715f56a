/** The proleptic Gregorian calendar of Python's `datetime.date`. */
module Calendar {
  import opened Common

  const MAX_YEAR := 9999
  const MAX_ORDINAL := 3652059

  predicate IsLeap(y: int) {
    y % 4 == 0 && (y % 100 != 0 || y % 400 == 0)
  }

  function DaysInYear(y: int): int {
    if IsLeap(y) then 366 else 365
  }

  function DaysInMonth(y: int, m: int): int {
    if m == 2 then (if IsLeap(y) then 29 else 28)
    else if m == 4 || m == 6 || m == 9 || m == 11 then 30
    else 31
  }

  /** Days before the first of January of year `y`, year by year. */
  function DaysBeforeYear(y: int): int
    decreases if y >= 1 then y - 1 else 1 - y
  {
    if y == 1 then 0
    else if y > 1 then DaysBeforeYear(y - 1) + DaysInYear(y - 1)
    else DaysBeforeYear(y + 1) - DaysInYear(y)
  }

  /** The closed form `toordinal` computes it by. */
  function YearFormula(y: int): int {
    var p := y - 1;
    p * 365 + p / 4 - p / 100 + p / 400
  }

  function DaysBeforeMonth(y: int, m: int): int
    decreases m
  {
    if m <= 1 then 0 else DaysBeforeMonth(y, m - 1) + DaysInMonth(y, m - 1)
  }

  datatype Date = Date(year: int, month: int, day: int)

  predicate Valid(d: Date) {
    1 <= d.year <= MAX_YEAR && 1 <= d.month <= 12 && 1 <= d.day <= DaysInMonth(d.year, d.month)
  }

  /** `date.toordinal()`. */
  function Ordinal(d: Date): int {
    DaysBeforeYear(d.year) + DaysBeforeMonth(d.year, d.month) + d.day
  }

  /** `date.weekday()`: Monday is 0. */
  function Weekday(d: Date): int {
    (Ordinal(d) + 6) % 7
  }

  /** The Monday of the first ISO week of year `y`. */
  function IsoWeek1Monday(y: int): int {
    FirstMonday(DaysBeforeYear(y))
  }

  function FirstMonday(before: int): int {
    var firstday := before + 1;
    var firstweekday := (firstday + 6) % 7;
    var monday := firstday - firstweekday;
    if firstweekday > 3 then monday + 7 else monday
  }

  /** `date.isocalendar().week`. */
  function IsoWeek(d: Date): int {
    WeekFrom(Ordinal(d), IsoWeek1Monday(d.year - 1), IsoWeek1Monday(d.year), IsoWeek1Monday(d.year + 1))
  }

  /** The week number of ordinal `today`, from the first Mondays of last, this and next year. */
  function WeekFrom(today: int, last: int, this_: int, next: int): int {
    var week := (today - this_) / 7;
    if week < 0 then (today - last) / 7 + 1
    else if week >= 52 && today >= next then 1
    else week + 1
  }

  // Ordinals order the dates.

  lemma DivisionStep(y: int, n: int)
    requires n == 4 || n == 100 || n == 400
    ensures y / n == (y - 1) / n + if y % n == 0 then 1 else 0
  {
    if n == 4 {
    } else if n == 100 {
    } else {
    }
  }

  lemma CenturiesAreMultiplesOfFour(y: int)
    ensures y % 100 == 0 ==> y % 4 == 0
    ensures y % 400 == 0 ==> y % 100 == 0
  {
    if y % 100 == 0 {
      assert y == 4 * (25 * (y / 100));
    }
    if y % 400 == 0 {
      assert y == 100 * (4 * (y / 400));
    }
  }

  lemma FormulaNextYear(y: int)
    ensures YearFormula(y + 1) == YearFormula(y) + DaysInYear(y)
  {
    DivisionStep(y, 4);
    DivisionStep(y, 100);
    DivisionStep(y, 400);
    CenturiesAreMultiplesOfFour(y);
  }

  /** Counting leap years by division gives the sum of the year lengths, for every year. */
  lemma {:induction false} YearFormulaIsExact(y: int)
    ensures DaysBeforeYear(y) == YearFormula(y)
    decreases if y >= 1 then y - 1 else 1 - y
  {
    if y > 1 {
      YearFormulaIsExact(y - 1);
      FormulaNextYear(y - 1);
    } else if y < 1 {
      YearFormulaIsExact(y + 1);
      FormulaNextYear(y);
    }
  }

  lemma NextYear(y: int)
    ensures DaysBeforeYear(y + 1) == DaysBeforeYear(y) + DaysInYear(y)
  {
  }

  lemma {:induction false} LaterYear(y: int, z: int)
    requires y < z
    ensures DaysBeforeYear(y + 1) <= DaysBeforeYear(z)
    decreases z - y
  {
    if y + 1 < z {
      LaterYear(y, z - 1);
      NextYear(z - 1);
    }
  }

  lemma {:induction false} LaterMonth(y: int, m: int, n: int)
    requires 1 <= m < n
    ensures DaysBeforeMonth(y, m) + DaysInMonth(y, m) <= DaysBeforeMonth(y, n)
    decreases n
  {
    if m + 1 < n {
      LaterMonth(y, m, n - 1);
    }
  }

  lemma WholeYear(y: int)
    ensures DaysBeforeMonth(y, 12) + 31 == DaysInYear(y)
  {
    assert DaysBeforeMonth(y, 4) == 59 + (if IsLeap(y) then 1 else 0) + 31;
    assert DaysBeforeMonth(y, 8) == DaysBeforeMonth(y, 4) + 30 + 31 + 30 + 31;
  }

  /** A date lies in its year and in its month. */
  lemma WithinYear(d: Date)
    requires Valid(d)
    ensures DaysBeforeYear(d.year) < Ordinal(d) <= DaysBeforeYear(d.year + 1)
  {
    NextYear(d.year);
    WholeYear(d.year);
    MonthsAddUp(d.year, d.month);
    if d.month < 12 {
      LaterMonth(d.year, d.month, 12);
    }
  }

  lemma {:induction false} MonthsAddUp(y: int, m: int)
    ensures DaysBeforeMonth(y, m) >= 0
    decreases m
  {
    if m > 1 {
      MonthsAddUp(y, m - 1);
    }
  }

  predicate Earlier(a: Date, b: Date) {
    || a.year < b.year
    || (a.year == b.year && (a.month < b.month || (a.month == b.month && a.day < b.day)))
  }

  /** Dates compare as their ordinals do, so an ordinal stands for one date. */
  lemma OrdinalsOrder(a: Date, b: Date)
    requires Valid(a) && Valid(b)
    ensures Earlier(a, b) <==> Ordinal(a) < Ordinal(b)
    ensures a == b <==> Ordinal(a) == Ordinal(b)
  {
    EarlierIsLess(a, b);
    EarlierIsLess(b, a);
  }

  lemma EarlierIsLess(a: Date, b: Date)
    requires Valid(a) && Valid(b)
    ensures Earlier(a, b) ==> Ordinal(a) < Ordinal(b)
  {
    if a.year < b.year {
      WithinYear(a);
      WithinYear(b);
      LaterYear(a.year, b.year);
    } else if a.year == b.year && a.month < b.month {
      LaterMonth(a.year, a.month, b.month);
    }
  }

  // Week numbers.

  /** The first ISO week is the one whose Thursday is the year's first. */
  lemma Week1HoldsFirstThursday(before: int)
    ensures OpensYear(FirstMonday(before), before)
  {
  }

  /** The Monday on or before the date. */
  function MondayOf(d: Date): int {
    Ordinal(d) - Weekday(d)
  }

  /** Mondays are a whole number of weeks apart. */
  lemma MondaysApart(a: int, b: int) returns (weeks: int)
    requires (a + 6) % 7 == 0 && (b + 6) % 7 == 0
    ensures a - b == 7 * weeks
  {
    weeks := (a + 6) / 7 - (b + 6) / 7;
  }

  /** The 1-based count of a year's Thursdays up to `thursday`, the year having `before` days before it. */
  function ThursdayNumber(thursday: int, before: int): int {
    (thursday - before - 1) / 7 + 1
  }

  /** `monday` opens the first week of the year before whose January `before` days lie. */
  predicate OpensYear(monday: int, before: int) {
    (monday + 6) % 7 == 0 && before < monday + 3 <= before + 7
  }

  lemma WeeksFromWeek1(monday: int, today: int, w: int, before: int)
    requires (monday + 6) % 7 == 0 && monday <= today <= monday + 6 && OpensYear(w, before)
    ensures (today - w) / 7 + 1 == ThursdayNumber(monday + 3, before)
    ensures (today - w) / 7 < 0 <==> monday < w
    ensures today >= w <==> monday >= w
  {
    var weeks := MondaysApart(monday, w);
    assert today - w == 7 * weeks + (today - monday);
    assert monday + 3 - before - 1 == 7 * weeks + (w + 3 - before - 1);
  }

  /** Which year a week's Thursday falls in, told from the first Mondays around it. */
  lemma ThursdayFallsIn(monday: int, today: int, prev: int, this_: int, next: int, w: int, wNext: int)
    requires (monday + 6) % 7 == 0 && monday <= today <= monday + 6 && this_ < today <= next
    requires prev + 365 <= this_ <= prev + 366 && this_ + 365 <= next <= this_ + 366
    requires OpensYear(w, this_) && OpensYear(wNext, next)
    ensures w + 52 * 7 <= wNext
    ensures monday < w ==> prev < monday + 3 <= this_
    ensures w <= monday < wNext ==> this_ < monday + 3 <= next
    ensures wNext <= monday ==> next < monday + 3 <= next + 3
  {
    var a := MondaysApart(monday, w);
    var b := MondaysApart(monday, wNext);
    var c := MondaysApart(wNext, w);
  }

  lemma WeekFromIsThursdayNumber(monday: int, today: int, prev: int, this_: int, next: int,
                                 wPrev: int, w: int, wNext: int)
    requires (monday + 6) % 7 == 0 && monday <= today <= monday + 6 && this_ < today <= next
    requires prev + 365 <= this_ <= prev + 366 && this_ + 365 <= next <= this_ + 366
    requires OpensYear(wPrev, prev) && OpensYear(w, this_) && OpensYear(wNext, next)
    ensures WeekFrom(today, wPrev, w, wNext)
         == ThursdayNumber(monday + 3, if monday < w then prev else if monday < wNext then this_ else next)
  {
    ThursdayFallsIn(monday, today, prev, this_, next, w, wNext);
    WeeksFromWeek1(monday, today, w, this_);
    WeeksFromWeek1(monday, today, wNext, next);
    if monday < w {
      WeeksFromWeek1(monday, today, wPrev, prev);
    }
  }

  /** An ordinal lies in one year only. */
  lemma YearIsUnique(n: int, y: int, z: int)
    requires DaysBeforeYear(y) < n <= DaysBeforeYear(y + 1)
    requires DaysBeforeYear(z) < n <= DaysBeforeYear(z + 1)
    ensures y == z
  {
    if y < z {
      LaterYear(y, z);
    } else if z < y {
      LaterYear(z, y);
    }
  }

  /** The Thursday's year and its number in it. */
  lemma IsoWeekOfOwnYear(d: Date) returns (y: int)
    requires Valid(d)
    ensures DaysBeforeYear(y) < MondayOf(d) + 3 <= DaysBeforeYear(y + 1)
    ensures IsoWeek(d) == ThursdayNumber(MondayOf(d) + 3, DaysBeforeYear(y))
  {
    var own := d.year;
    y := YearAround(d);
    var prev, this_, next := DaysBeforeYear(own - 1), DaysBeforeYear(own), DaysBeforeYear(own + 1);
    var wPrev, w, wNext := IsoWeek1Monday(own - 1), IsoWeek1Monday(own), IsoWeek1Monday(own + 1);
    WeekFromIsThursdayNumber(MondayOf(d), Ordinal(d), prev, this_, next, wPrev, w, wNext);
  }

  /** The facts about the years around a date that its week number rests on. */
  lemma YearAround(d: Date) returns (y: int)
    requires Valid(d)
    ensures
      var own, monday := d.year, MondayOf(d);
      var prev, this_, next := DaysBeforeYear(own - 1), DaysBeforeYear(own), DaysBeforeYear(own + 1);
      var wPrev, w, wNext := IsoWeek1Monday(own - 1), IsoWeek1Monday(own), IsoWeek1Monday(own + 1);
      && (monday + 6) % 7 == 0 && monday <= Ordinal(d) <= monday + 6 && this_ < Ordinal(d) <= next
      && prev + 365 <= this_ <= prev + 366 && this_ + 365 <= next <= this_ + 366
      && OpensYear(wPrev, prev) && OpensYear(w, this_) && OpensYear(wNext, next)
      && DaysBeforeYear(y) < monday + 3 <= DaysBeforeYear(y + 1)
      && y == if monday < w then own - 1 else if monday < wNext then own else own + 1
  {
    var own, monday := d.year, MondayOf(d);
    WithinYear(d);
    NextYear(own - 1);
    NextYear(own);
    NextYear(own + 1);
    Week1HoldsFirstThursday(DaysBeforeYear(own - 1));
    Week1HoldsFirstThursday(DaysBeforeYear(own));
    Week1HoldsFirstThursday(DaysBeforeYear(own + 1));
    MondayIsMonday(Ordinal(d));
    var w, wNext := IsoWeek1Monday(own), IsoWeek1Monday(own + 1);
    ThursdayFallsIn(monday, Ordinal(d), DaysBeforeYear(own - 1), DaysBeforeYear(own), DaysBeforeYear(own + 1), w, wNext);
    y := if monday < w then own - 1 else if monday < wNext then own else own + 1;
  }

  lemma MondayIsMonday(n: int)
    ensures var monday := n - (n + 6) % 7; (monday + 6) % 7 == 0 && monday <= n <= monday + 6
  {
  }

  /**
   * Section 2.2.10 of ISO 8601:2004: a week belongs to the year that holds its Thursday, and its
   * number is that Thursday's place among the Thursdays of that year.
   */
  lemma IsoWeekIsThursdayNumber(d: Date, y: int)
    requires Valid(d)
    requires DaysBeforeYear(y) < MondayOf(d) + 3 <= DaysBeforeYear(y + 1)
    ensures IsoWeek(d) == ThursdayNumber(MondayOf(d) + 3, DaysBeforeYear(y))
  {
    var z := IsoWeekOfOwnYear(d);
    YearIsUnique(MondayOf(d) + 3, y, z);
  }

  // Every ordinal is a date.

  lemma OrdinalIsADate(n: int) returns (d: Date)
    requires 1 <= n <= MAX_ORDINAL
    ensures Valid(d) && Ordinal(d) == n
  {
    YearFormulaIsExact(MAX_YEAR + 1);
    var y := 1;
    while DaysBeforeYear(y + 1) < n
      invariant 1 <= y <= MAX_YEAR && DaysBeforeYear(y) < n
      decreases MAX_YEAR - y
    {
      y := y + 1;
    }
    NextYear(y);
    WholeYear(y);
    var m := 1;
    while m < 12 && DaysBeforeYear(y) + DaysBeforeMonth(y, m + 1) < n
      invariant 1 <= m <= 12 && DaysBeforeYear(y) + DaysBeforeMonth(y, m) < n
    {
      m := m + 1;
    }
    d := Date(y, m, n - DaysBeforeYear(y) - DaysBeforeMonth(y, m));
  }
}

/** How a run of days is cut into weeks. */
module Weeks {
  import opened Common
  import opened Calendar

  datatype Mode = IsoMonday | MonthDay1

  /** One week, both ends inclusive, each a date by its ordinal. */
  datatype WeekBucket = WeekBucket(start: int, end: int, index: int)

  /** The first day of the month-relative week. */
  function MonthWeekStart(day: Date): Date {
    day.(day := (day.day - 1) / 7 * 7 + 1)
  }

  function MonthEnd(day: Date): Date {
    day.(day := DaysInMonth(day.year, day.month))
  }

  /** The single week a day belongs to; `Err` is the overflow past 31 December 9999. */
  function BucketOf(day: Date, mode: Mode): Result<WeekBucket> {
    if mode == MonthDay1 then MonthBucket(day) else IsoBucket(day)
  }

  function MonthBucket(day: Date): Result<WeekBucket> {
    var ordinal := (day.day - 1) / 7;
    var start, last := Ordinal(MonthWeekStart(day)), Ordinal(MonthEnd(day));
    if start + 6 > MAX_ORDINAL then Err
    else Ok(WeekBucket(start, if start + 6 < last then start + 6 else last, ordinal + 1))
  }

  function IsoBucket(day: Date): Result<WeekBucket> {
    var start := Ordinal(day) - Weekday(day);
    if start + 6 > MAX_ORDINAL then Err
    else Ok(WeekBucket(start, start + 6, IsoWeek(day)))
  }

  lemma LastDecember(day: int)
    ensures Ordinal(Date(MAX_YEAR, 12, day)) == MAX_ORDINAL - 31 + day
  {
    YearFormulaIsExact(MAX_YEAR);
    WholeYear(MAX_YEAR);
  }

  lemma LastMonday(n: int)
    requires n <= MAX_ORDINAL
    ensures n - (n + 6) % 7 + 6 > MAX_ORDINAL <==> n >= MAX_ORDINAL - 4
  {
  }

  lemma OrdinalAtMost(day: Date)
    requires Valid(day)
    ensures Ordinal(day) <= MAX_ORDINAL
  {
    OrdinalsOrder(Date(MAX_YEAR, 12, 31), day);
    LastDecember(31);
  }

  /** Only the last days of the calendar overflow: from 27 December 9999, or from the 29th. */
  lemma OverflowsIff(day: Date, mode: Mode)
    requires Valid(day)
    ensures BucketOf(day, mode) == Err <==>
      day.year == MAX_YEAR && day.month == 12 && day.day >= (if mode == IsoMonday then 27 else 29)
  {
    if mode == IsoMonday {
      OrdinalAtMost(day);
      LastMonday(Ordinal(day));
      LastDecember(27);
      OrdinalsOrder(day, Date(MAX_YEAR, 12, 27));
    } else {
      LastDecember(26);
      OrdinalsOrder(MonthWeekStart(day), Date(MAX_YEAR, 12, 26));
    }
  }

  /** Each day lies in its bucket. */
  lemma DayIsInItsBucket(day: Date, mode: Mode)
    requires Valid(day) && BucketOf(day, mode).Ok?
    ensures
      var b := BucketOf(day, mode).value;
      b.start <= Ordinal(day) <= b.end <= b.start + 6
  {
  }

  lemma SameMonday(n: int, m: int)
    requires n - (n + 6) % 7 <= m <= n - (n + 6) % 7 + 6
    ensures m - (m + 6) % 7 == n - (n + 6) % 7
  {
  }

  lemma IsoBucketIsShared(day: Date, other: Date)
    requires Valid(day) && Valid(other)
    requires MondayOf(day) <= Ordinal(other) <= MondayOf(day) + 6
    ensures IsoBucket(other) == IsoBucket(day)
  {
    SameMonday(Ordinal(day), Ordinal(other));
    SameIsoWeek(day, other);
  }

  lemma SameIsoWeek(day: Date, other: Date)
    requires Valid(day) && Valid(other) && MondayOf(day) == MondayOf(other)
    ensures IsoWeek(day) == IsoWeek(other)
  {
    var y := IsoWeekOfOwnYear(day);
    IsoWeekIsThursdayNumber(other, y);
  }

  lemma MonthBucketIsShared(day: Date, other: Date)
    requires Valid(day) && Valid(other)
    requires Ordinal(MonthWeekStart(day)) <= Ordinal(other) <= Ordinal(MonthEnd(day))
    requires Ordinal(other) <= Ordinal(MonthWeekStart(day)) + 6
    ensures MonthBucket(other) == MonthBucket(day) && MonthWeekStart(other) == MonthWeekStart(day)
  {
    SameMonth(day, other);
    DaysApart(other, MonthWeekStart(day));
    SameSeven(day.day, other.day);
    SevenDecides(day, other);
  }

  lemma DaysApart(a: Date, b: Date)
    requires a.year == b.year && a.month == b.month
    ensures Ordinal(a) - Ordinal(b) == a.day - b.day
  {
  }

  lemma SevenDecides(a: Date, b: Date)
    requires a.year == b.year && a.month == b.month && (a.day - 1) / 7 == (b.day - 1) / 7
    ensures MonthBucket(a) == MonthBucket(b) && MonthWeekStart(a) == MonthWeekStart(b)
  {
    assert MonthWeekStart(a) == MonthWeekStart(b) && MonthEnd(a) == MonthEnd(b);
  }

  lemma SameMonth(day: Date, other: Date)
    requires Valid(day) && Valid(other)
    requires Ordinal(MonthWeekStart(day)) <= Ordinal(other) <= Ordinal(MonthEnd(day))
    ensures other.year == day.year && other.month == day.month
  {
    OrdinalsOrder(other, MonthWeekStart(day));
    OrdinalsOrder(MonthEnd(day), other);
  }

  lemma SameSeven(a: int, b: int)
    requires (a - 1) / 7 * 7 + 1 <= b <= (a - 1) / 7 * 7 + 7
    ensures (b - 1) / 7 == (a - 1) / 7
  {
  }

  /** Every day inside a bucket falls in that same bucket, index included. */
  lemma BucketIsShared(day: Date, other: Date, mode: Mode)
    requires Valid(day) && Valid(other) && BucketOf(day, mode).Ok?
    requires BucketOf(day, mode).value.start <= Ordinal(other) <= BucketOf(day, mode).value.end
    ensures BucketOf(other, mode) == BucketOf(day, mode)
  {
    if mode == IsoMonday {
      IsoBucketIsShared(day, other);
    } else {
      MonthBucketIsShared(day, other);
    }
  }

  lemma IsoBucketsShareOrPart(a: Date, b: Date)
    requires Valid(a) && Valid(b)
    ensures IsoBucket(a) == IsoBucket(b) || MondayOf(a) + 6 < MondayOf(b) || MondayOf(b) + 6 < MondayOf(a)
  {
    MondayIsMonday(Ordinal(a));
    MondayIsMonday(Ordinal(b));
    var weeks := MondaysApart(MondayOf(a), MondayOf(b));
    if weeks == 0 {
      IsoBucketIsShared(a, b);
    }
  }

  lemma MonthBucketsShareOrPart(a: Date, b: Date)
    requires Valid(a) && Valid(b) && MonthBucket(a).Ok? && MonthBucket(b).Ok?
    requires Ordinal(MonthWeekStart(a)) <= Ordinal(MonthWeekStart(b))
    ensures MonthBucket(a) == MonthBucket(b) || MonthBucket(a).value.end < MonthBucket(b).value.start
  {
    if MonthBucket(b).value.start <= MonthBucket(a).value.end {
      MonthBucketIsShared(a, MonthWeekStart(b));
      MonthBucketOfStart(b);
    }
  }

  lemma MonthBucketOfStart(day: Date)
    ensures MonthBucket(MonthWeekStart(day)) == MonthBucket(day)
  {
  }

  /** Two days share their bucket or their buckets do not meet. */
  lemma BucketsShareOrPart(a: Date, b: Date, mode: Mode)
    requires Valid(a) && Valid(b) && BucketOf(a, mode).Ok? && BucketOf(b, mode).Ok?
    ensures
      var p, q := BucketOf(a, mode).value, BucketOf(b, mode).value;
      p == q || p.end < q.start || q.end < p.start
  {
    if mode == IsoMonday {
      IsoBucketsShareOrPart(a, b);
    } else if Ordinal(MonthWeekStart(a)) <= Ordinal(MonthWeekStart(b)) {
      MonthBucketsShareOrPart(a, b);
    } else {
      MonthBucketsShareOrPart(b, a);
    }
  }

  /** The month-relative weeks that overflow: the fifth of December 9999. */
  predicate PastTheEnd(year: int, month: int, k: nat) {
    year == MAX_YEAR && month == 12 && k == 4
  }

  /**
   * The month-relative buckets tile a month: first to last day, each week where the one before ended.
   * In December 9999 the fifth week is an error and the first four end on the 28th.
   */
  lemma MonthIsTiled(year: int, month: int, k: nat)
    requires 1 <= year <= MAX_YEAR && 1 <= month <= 12 && 7 * k < DaysInMonth(year, month)
    ensures
      var first := Date(year, month, 1);
      var day, next := Date(year, month, 7 * k + 1), Date(year, month, 7 * (k + 1) + 1);
      var b, c := BucketOf(day, MonthDay1), BucketOf(next, MonthDay1);
      && (b.Err? <==> PastTheEnd(year, month, k))
      && (b.Ok? ==>
            && b.value.index == k + 1 && b.value.start == Ordinal(first) + 7 * k
            && (if 7 * (k + 1) < DaysInMonth(year, month)
                then b.value.end == Ordinal(first) + 7 * k + 6
                     && (c.Err? <==> PastTheEnd(year, month, k + 1))
                     && (c.Ok? ==> c.value.start == b.value.end + 1)
                else b.value.end == Ordinal(first.(day := DaysInMonth(year, month)))))
  {
    MonthBucketAt(year, month, k);
    if 7 * (k + 1) < DaysInMonth(year, month) {
      MonthBucketAt(year, month, k + 1);
      OrdinalsInMonth(year, month, 7 * k + 7);
    }
  }

  lemma OrdinalsInMonth(year: int, month: int, day: int)
    ensures Ordinal(Date(year, month, day)) == Ordinal(Date(year, month, 1)) + day - 1
  {
  }

  /** The `k`-th week of a month, counted from zero. */
  lemma MonthBucketAt(year: int, month: int, k: nat)
    requires 1 <= year <= MAX_YEAR && 1 <= month <= 12 && 7 * k < DaysInMonth(year, month)
    ensures
      var start, last := Ordinal(Date(year, month, 1)) + 7 * k, Ordinal(Date(year, month, DaysInMonth(year, month)));
      BucketOf(Date(year, month, 7 * k + 1), MonthDay1)
      == if PastTheEnd(year, month, k) then Err
         else Ok(WeekBucket(start, if start + 6 < last then start + 6 else last, k + 1))
  {
    MonthOverflow(year, month, k);
    if !PastTheEnd(year, month, k) {
      MonthBucketValue(year, month, k);
    }
  }

  lemma MonthOverflow(year: int, month: int, k: nat)
    requires 1 <= year <= MAX_YEAR && 1 <= month <= 12 && 7 * k < DaysInMonth(year, month)
    ensures BucketOf(Date(year, month, 7 * k + 1), MonthDay1).Err? <==> PastTheEnd(year, month, k)
  {
    OverflowsIff(Date(year, month, 7 * k + 1), MonthDay1);
  }

  lemma MonthBucketValue(year: int, month: int, k: nat)
    requires BucketOf(Date(year, month, 7 * k + 1), MonthDay1).Ok?
    ensures
      var start, last := Ordinal(Date(year, month, 1)) + 7 * k, Ordinal(Date(year, month, DaysInMonth(year, month)));
      BucketOf(Date(year, month, 7 * k + 1), MonthDay1)
      == Ok(WeekBucket(start, if start + 6 < last then start + 6 else last, k + 1))
  {
    StartsItsWeek(Date(year, month, 7 * k + 1), k);
    OrdinalsInMonth(year, month, 7 * k + 1);
  }

  lemma StartsItsWeek(day: Date, k: nat)
    requires day.day == 7 * k + 1
    ensures (day.day - 1) / 7 == k && MonthWeekStart(day) == day
  {
  }

  // Distinct weeks, oldest first.

  /** The order of the dataclass: start, then end, then index. */
  predicate Less(a: WeekBucket, b: WeekBucket) {
    || a.start < b.start
    || (a.start == b.start && (a.end < b.end || (a.end == b.end && a.index < b.index)))
  }

  predicate StrictlySorted(s: seq<WeekBucket>) {
    forall i, j | 0 <= i < j < |s| :: Less(s[i], s[j])
  }

  /** Adds a bucket to a sorted list of distinct ones. */
  function Insert(b: WeekBucket, s: seq<WeekBucket>): (r: seq<WeekBucket>)
    requires StrictlySorted(s)
    ensures StrictlySorted(r)
    ensures forall x :: x in r <==> x == b || x in s
  {
    if s == [] then [b]
    else if b == s[0] then s
    else if Less(b, s[0]) then [b] + s
    else
      var tail := Insert(b, s[1..]);
      assert forall x | x in tail :: Less(s[0], x);
      [s[0]] + tail
  }

  /** The buckets of all the days, sorted and without repeats; `Err` when one of them overflows. */
  function SortedBuckets(days: seq<Date>, mode: Mode): (r: Result<seq<WeekBucket>>)
    ensures r.Ok? ==> StrictlySorted(r.value)
  {
    if days == [] then Ok([])
    else match (BucketOf(days[0], mode), SortedBuckets(days[1..], mode))
      case (Ok(b), Ok(rest)) => Ok(Insert(b, rest))
      case _ => Err
  }

  ghost predicate FallsIn(days: seq<Date>, mode: Mode, b: WeekBucket) {
    exists i :: 0 <= i < |days| && BucketOf(days[i], mode) == Ok(b)
  }

  lemma {:induction false} SortedBucketsExactly(days: seq<Date>, mode: Mode)
    ensures SortedBuckets(days, mode).Ok? <==> forall i | 0 <= i < |days| :: BucketOf(days[i], mode).Ok?
    ensures SortedBuckets(days, mode).Ok? ==>
      forall b :: b in SortedBuckets(days, mode).value <==> FallsIn(days, mode, b)
  {
    if days != [] {
      var rest := days[1..];
      SortedBucketsExactly(rest, mode);
      assert forall i | 0 <= i < |rest| :: rest[i] == days[i + 1];
      forall b ensures FallsIn(days, mode, b) <==> BucketOf(days[0], mode) == Ok(b) || FallsIn(rest, mode, b) {
        if FallsIn(days, mode, b) && BucketOf(days[0], mode) != Ok(b) {
          var i :| 0 <= i < |days| && BucketOf(days[i], mode) == Ok(b);
          assert rest[i - 1] == days[i];
        }
        if FallsIn(rest, mode, b) {
          var i :| 0 <= i < |rest| && BucketOf(rest[i], mode) == Ok(b);
          assert days[i + 1] == rest[i];
        }
      }
      if forall i | 0 <= i < |days| :: BucketOf(days[i], mode).Ok? {
        forall i | 0 <= i < |rest| ensures BucketOf(rest[i], mode).Ok? {
          assert rest[i] == days[i + 1];
        }
      }
    }
  }

  lemma LiesInItsOwn(days: seq<Date>, mode: Mode, day: Date, b: WeekBucket)
    requires (forall i | 0 <= i < |days| :: Valid(days[i])) && Valid(day) && FallsIn(days, mode, b)
    ensures b.start <= Ordinal(day) <= b.end <==> BucketOf(day, mode) == Ok(b)
  {
    var i :| 0 <= i < |days| && BucketOf(days[i], mode) == Ok(b);
    if b.start <= Ordinal(day) <= b.end {
      BucketIsShared(days[i], day, mode);
    } else if BucketOf(day, mode).Ok? {
      DayIsInItsBucket(day, mode);
    }
  }

  /**
   * `week_buckets`: unless a day overflows, the weeks are disjoint and in order, each holds one of the
   * given days, every given day's week is listed, and any valid day lies in a listed week exactly when
   * that is the week it belongs to.
   */
  lemma WeekBucketsPartition(days: seq<Date>, mode: Mode)
    requires forall i | 0 <= i < |days| :: Valid(days[i])
    ensures
      var r := SortedBuckets(days, mode);
      && (r.Err? <==> exists i :: 0 <= i < |days| && BucketOf(days[i], mode) == Err)
      && (r.Ok? ==>
            && (forall i, j | 0 <= i < j < |r.value| :: r.value[i].end < r.value[j].start)
            && (forall b | b in r.value :: FallsIn(days, mode, b))
            && (forall i | 0 <= i < |days| :: BucketOf(days[i], mode).value in r.value)
            && (forall day, b | Valid(day) && b in r.value ::
                  b.start <= Ordinal(day) <= b.end <==> BucketOf(day, mode) == Ok(b)))
  {
    SortedBucketsExactly(days, mode);
    var r := SortedBuckets(days, mode);
    if r.Ok? {
      forall day, b | Valid(day) && b in r.value
        ensures b.start <= Ordinal(day) <= b.end <==> BucketOf(day, mode) == Ok(b)
      {
        assert FallsIn(days, mode, b);
        LiesInItsOwn(days, mode, day, b);
      }
      forall i, j | 0 <= i < j < |r.value| ensures r.value[i].end < r.value[j].start {
        assert r.value[i] in r.value && r.value[j] in r.value;
        assert FallsIn(days, mode, r.value[i]) && FallsIn(days, mode, r.value[j]);
        var a :| 0 <= a < |days| && BucketOf(days[a], mode) == Ok(r.value[i]);
        var b :| 0 <= b < |days| && BucketOf(days[b], mode) == Ok(r.value[j]);
        BucketsShareOrPart(days[a], days[b], mode);
        DayIsInItsBucket(days[a], mode);
        DayIsInItsBucket(days[b], mode);
        assert Less(r.value[i], r.value[j]);
      }
      forall i | 0 <= i < |days| ensures BucketOf(days[i], mode).value in r.value {
        assert FallsIn(days, mode, BucketOf(days[i], mode).value);
      }
    }
  }
}
