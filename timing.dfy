/**
 * "When are users disabling auto renew?": the month-of-subscription and
 * day-of-subscription histograms, the first-week and last-week windows with
 * their zero-filled dictionaries, the shared y-axis maximum, the reversed
 * last-week series, and the calendar-month histogram.
 */
module TimingQueries {
  import opened Wrappers
  import opened Groups
  import opened Records
  import opened Histogram

  /** A calendar month number, January = 1. */
  type Month = m: int | 1 <= m <= 12 witness 1

  /** Last bucket of the month-of-subscription histogram. */
  const LastMonth: int := 12
  const DaysPerBucket: int := 30

  /** ON, both end timestamps present, auto-renew ended first, 12-month plan. */
  predicate EarlyTwelve(r: Record)
  {
    r.isAutoRenew && EndsEarly(r) && PeriodIs(r, 12)
  }

  /** The same for 1-month plans. */
  predicate EarlyOne(r: Record)
  {
    r.isAutoRenew && EndsEarly(r) && PeriodIs(r, 1)
  }

  /** SQL `LEAST(a, b)`, where a NULL argument is skipped. */
  function SqlLeast(a: Option<int>, b: Option<int>): (r: Option<int>)
    ensures r.None? <==> a.None? && b.None?
    ensures r.Some? ==> (a.Some? ==> r.value <= a.value) && (b.Some? ==> r.value <= b.value)
    ensures r == a || r == b
  {
    if a.None? then b
    else if b.None? then a
    else if a.value <= b.value then a else b
  }

  /** `FLOOR(d / 30) + 1` on a nullable day count (`/` is true division). */
  function MonthIndex(d: Option<int>): (m: Option<int>)
    ensures m.Some? <==> d.Some?
    ensures d.Some? ==> (m.value - 1) * DaysPerBucket <= d.value < m.value * DaysPerBucket
  {
    if d.None? then None else Some(d.value / DaysPerBucket + 1)
  }

  /** `DATE_DIFF('day', started_at, ar_valid_to)`: the cancel day, NULL without `started_at`. */
  function CancelDay(r: Record): Key
  {
    SqlDateDiff(r.startedAt, r.arValidTo)
  }

  /**
   * `LEAST(FLOOR(DATE_DIFF('day', started_at, ar_valid_to) / 30) + 1, 12)`:
   * the month of the subscription in which auto-renew was disabled. At most
   * 12; at least 1 exactly when the day offset is not negative; a missing
   * timestamp gives 12, because LEAST skips the NULL.
   */
  function CancelMonth(r: Record): (b: Key)
    ensures b.Some? && b.value <= LastMonth
    ensures CancelDay(r).None? ==> b == Some(LastMonth)
    ensures CancelDay(r).Some? ==>
      var d := CancelDay(r).value;
      && (b.value >= 1 <==> d >= 0)
      && (b.value < LastMonth ==> (b.value - 1) * DaysPerBucket <= d < b.value * DaysPerBucket)
      && (b.value == LastMonth <==> d >= (LastMonth - 1) * DaysPerBucket)
  {
    SqlLeast(MonthIndex(CancelDay(r)), Some(LastMonth))
  }

  // ----- cancel_month_df -----

  function CancelMonthKeys(t: seq<Record>): seq<Key>
  {
    Project(Filter(t, EarlyTwelve), CancelMonth)
  }

  /** `cancel_month_df`. */
  function CancelMonthCounts(t: seq<Record>): seq<Bucket>
  {
    Build(CancelMonthKeys(t))
  }

  /**
   * The month histogram is ascending by bucket, every bucket is a month
   * number no larger than 12, each row counts the early 12-month rows in its
   * bucket, and the counts add up to the rows passing the WHERE clause.
   */
  lemma CancelMonthHistogram(t: seq<Record>)
    ensures Ascending(CancelMonthCounts(t))
    ensures forall i :: 0 <= i < |CancelMonthCounts(t)| ==>
      var row := CancelMonthCounts(t)[i];
      && row.key.Some? && row.key.value <= LastMonth
      && row.count == Occ(CancelMonthKeys(t), row.key)
    ensures SumCounts(CancelMonthCounts(t)) == |Filter(t, EarlyTwelve)|
  {
    var ks := CancelMonthKeys(t);
    BuildRows(ks);
    forall i | 0 <= i < |Build(ks)|
      ensures Build(ks)[i].key.Some? && Build(ks)[i].key.value <= LastMonth
    {
      var j :| 0 <= j < |ks| && ks[j] == Build(ks)[i].key;
    }
  }

  // ----- cancel_day_df -----

  function CancelDayKeys(t: seq<Record>): seq<Key>
  {
    Project(Filter(t, EarlyOne), CancelDay)
  }

  /** `cancel_day_df`. */
  function CancelDayCounts(t: seq<Record>): seq<Bucket>
  {
    Build(CancelDayKeys(t))
  }

  predicate NoDayOffset(r: Record)
  {
    CancelDay(r).None?
  }

  /** Early 1-month rows without `started_at`. */
  predicate EarlyOneNoStart(r: Record)
  {
    EarlyOne(r) && r.startedAt.None?
  }

  /**
   * The day histogram is ascending by the raw day offset, its counts add up
   * to the early 1-month rows, and rows without `started_at` form one NULL
   * group, sorted after every day.
   */
  lemma CancelDayHistogram(t: seq<Record>)
    ensures Ascending(CancelDayCounts(t))
    ensures forall i :: 0 <= i < |CancelDayCounts(t)| ==>
      CancelDayCounts(t)[i].count == Occ(CancelDayKeys(t), CancelDayCounts(t)[i].key)
    ensures SumCounts(CancelDayCounts(t)) == |Filter(t, EarlyOne)|
    ensures CountOf(CancelDayCounts(t), None) == |Filter(t, EarlyOneNoStart)|
    ensures forall i :: 0 <= i < |CancelDayCounts(t)| && CancelDayCounts(t)[i].key.None? ==>
      i == |CancelDayCounts(t)| - 1
  {
    var f := Filter(t, EarlyOne);
    BuildRows(CancelDayKeys(t));
    OccProject(f, CancelDay, None, NoDayOffset);
    FilterFilter(t, EarlyOne, NoDayOffset, EarlyOneNoStart);
    NullLast(CancelDayCounts(t));
  }

  // ----- first_week_df, first_counts -----

  /** The WHERE clause of `first_week_df`: early 12-month rows disabled on day 0 to 6. */
  predicate FirstWeekWhere(r: Record)
  {
    EarlyTwelve(r) && CancelDay(r).Some? && 0 <= CancelDay(r).value <= 6
  }

  function FirstWeekKeys(t: seq<Record>): seq<Key>
  {
    Project(Filter(t, FirstWeekWhere), CancelDay)
  }

  /** `first_week_df`. */
  function FirstWeekCounts(t: seq<Record>): seq<Bucket>
  {
    Build(FirstWeekKeys(t))
  }

  /** `first_counts`, the first-week result zero-filled over days 0..6. */
  function FirstCounts(t: seq<Record>): map<int, nat>
  {
    ZeroFilled(0, 7, FirstWeekCounts(t))
  }

  /**
   * `first_counts` has exactly the days 0..6; each holds the query's count
   * for that day, 0 for a day the query did not return; the values add up to
   * the rows disabled in the first week.
   */
  lemma FirstWeekZeroFill(t: seq<Record>)
    ensures FirstCounts(t).Keys == Range(0, 7)
    ensures forall i :: 0 <= i < 7 ==>
      FirstCounts(t)[i] == CountOf(FirstWeekCounts(t), Some(i)) == Occ(FirstWeekKeys(t), Some(i))
    ensures SumRange(FirstCounts(t), 0, 7) == |Filter(t, FirstWeekWhere)|
  {
    ZeroFilledHistogram(FirstWeekKeys(t), 0, 7);
  }

  // ----- last_week_df, last_counts -----

  /** `DATE_DIFF('day', ar_valid_to, ended_at)`. */
  function DaysBeforeEnd(r: Record): Key
  {
    SqlDateDiff(r.arValidTo, r.endedAt)
  }

  /** The WHERE clause of `last_week_df`: early 12-month rows disabled 1 to 7 days before the end. */
  predicate LastWeekWhere(r: Record)
  {
    EarlyTwelve(r) && DaysBeforeEnd(r).Some? && 1 <= DaysBeforeEnd(r).value <= 7
  }

  function LastWeekKeys(t: seq<Record>): seq<Key>
  {
    Project(Filter(t, LastWeekWhere), DaysBeforeEnd)
  }

  /** `last_week_df`. */
  function LastWeekCounts(t: seq<Record>): seq<Bucket>
  {
    Build(LastWeekKeys(t))
  }

  /** `last_counts`, the last-week result zero-filled over days 1..7. */
  function LastCounts(t: seq<Record>): map<int, nat>
  {
    ZeroFilled(1, 8, LastWeekCounts(t))
  }

  /** The same zero-fill law for `last_counts` over days 1..7. */
  lemma LastWeekZeroFill(t: seq<Record>)
    ensures LastCounts(t).Keys == Range(1, 8)
    ensures forall i :: 1 <= i < 8 ==>
      LastCounts(t)[i] == CountOf(LastWeekCounts(t), Some(i)) == Occ(LastWeekKeys(t), Some(i))
    ensures SumRange(LastCounts(t), 1, 8) == |Filter(t, LastWeekWhere)|
  {
    ZeroFilledHistogram(LastWeekKeys(t), 1, 8);
  }

  /** Both dictionaries, built and updated as the report does. */
  method WeekCounts(t: seq<Record>) returns (first: map<int, nat>, last: map<int, nat>)
    ensures first == FirstCounts(t)
    ensures last == LastCounts(t)
    ensures first.Keys == Range(0, 7) && last.Keys == Range(1, 8)
  {
    BuildKeysSome(FirstWeekKeys(t));
    BuildKeysSome(LastWeekKeys(t));
    first := ZeroFill(0, 7, FirstWeekCounts(t));
    last := ZeroFill(1, 8, LastWeekCounts(t));
    FirstWeekZeroFill(t);
    LastWeekZeroFill(t);
  }

  /** `max_y`: the larger of the two dictionaries' maxima. */
  function MaxY(first: map<int, nat>, last: map<int, nat>): (y: nat)
    requires first.Keys == Range(0, 7) && last.Keys == Range(1, 8)
    ensures forall i :: 0 <= i < 7 ==> first[i] <= y
    ensures forall i :: 1 <= i < 8 ==> last[i] <= y
    ensures (exists i :: 0 <= i < 7 && first[i] == y) || (exists i :: 1 <= i < 8 && last[i] == y)
  {
    var a, b := MaxRange(first, 0, 7), MaxRange(last, 1, 8);
    if a >= b then a else b
  }

  /** `y_counts_reversed`: the last-week counts from day 7 down to day 1. */
  function LastWeekSeries(last: map<int, nat>): (ys: seq<nat>)
    requires last.Keys == Range(1, 8)
    ensures |ys| == 7
    ensures forall j :: 0 <= j < 7 ==> ys[j] == last[7 - j]
  {
    ReversedRange(last, 1, 8)
  }

  /** The reversed series still adds up to the rows disabled in the last week. */
  lemma LastWeekSeriesTotal(t: seq<Record>)
    ensures LastCounts(t).Keys == Range(1, 8)
    ensures SeqSum(LastWeekSeries(LastCounts(t))) == |Filter(t, LastWeekWhere)|
  {
    LastWeekZeroFill(t);
    ReversedRangeSum(LastCounts(t), 1, 8);
  }

  // ----- disable_month_df -----

  /** `STRFTIME(ar_valid_to, '%m')::INTEGER`, with the calendar supplied as `monthOf`. */
  function MonthKey(monthOf: Timestamp -> Month, r: Record): Key
  {
    if r.arValidTo.Some? then Some(monthOf(r.arValidTo.value) as int) else None
  }

  function DisableMonthKeys(t: seq<Record>, monthOf: Timestamp -> Month): seq<Key>
  {
    Project(Filter(t, EarlyTwelve), r => MonthKey(monthOf, r))
  }

  /** `disable_month_df` (without its `month_name` column). */
  function DisableMonthCounts(t: seq<Record>, monthOf: Timestamp -> Month): seq<Bucket>
  {
    Build(DisableMonthKeys(t, monthOf))
  }

  /**
   * The calendar-month histogram lists only observed months, each a month
   * number 1..12, ascending, each with a positive count, and the counts add
   * up to the early 12-month rows.
   */
  lemma DisableMonthHistogram(t: seq<Record>, monthOf: Timestamp -> Month)
    ensures Ascending(DisableMonthCounts(t, monthOf))
    ensures forall i :: 0 <= i < |DisableMonthCounts(t, monthOf)| ==>
      var row := DisableMonthCounts(t, monthOf)[i];
      && row.key.Some? && 1 <= row.key.value <= 12
      && row.key in DisableMonthKeys(t, monthOf)
      && row.count == Occ(DisableMonthKeys(t, monthOf), row.key) > 0
    ensures SumCounts(DisableMonthCounts(t, monthOf)) == |Filter(t, EarlyTwelve)|
  {
    var ks := DisableMonthKeys(t, monthOf);
    BuildRows(ks);
    forall i | 0 <= i < |Build(ks)|
      ensures Build(ks)[i].key.Some? && 1 <= Build(ks)[i].key.value <= 12
    {
      var j :| 0 <= j < |ks| && ks[j] == Build(ks)[i].key;
      assert Filter(t, EarlyTwelve)[j].arValidTo.Some?;
    }
  }
}
