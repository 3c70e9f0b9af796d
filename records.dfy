/**
 * The subscription table after loading: one record per CSV row, the
 * default fill applied to `is_auto_renew` and `payment_gateway`, and the
 * two day-difference functions: DuckDB's and pandas'.
 */
module Records {
  import opened Wrappers

  /** A naive (time-zone free) timestamp, in whole seconds since 1970-01-01 00:00. */
  type Timestamp = int

  const SecondsPerDay: int := 86400
  const DefaultGateway: string := "unknown"

  /** A row as the CSV reader and the timestamp/number parsers leave it. */
  datatype RawRecord = RawRecord(
    isAutoRenew: Option<bool>,
    startedAt: Option<Timestamp>,
    arValidTo: Option<Timestamp>,
    endedAt: Option<Timestamp>,
    periodMonths: Option<int>,
    paymentGateway: Option<string>,
    productSubGroup: Option<string>,
    billingBin: Option<int>)

  /** A row of the cleaned table that every query reads. */
  datatype Record = Record(
    isAutoRenew: bool,
    startedAt: Option<Timestamp>,
    arValidTo: Option<Timestamp>,
    endedAt: Option<Timestamp>,
    periodMonths: Option<int>,
    paymentGateway: string,
    productSubGroup: Option<string>,
    billingBin: Option<int>)

  /** The field defaults for one row: missing auto-renew is false, missing gateway "unknown". */
  function Clean(raw: RawRecord): (r: Record)
    ensures r.isAutoRenew <==> raw.isAutoRenew == Some(true)
    ensures r.paymentGateway == (if raw.paymentGateway.Some? then raw.paymentGateway.value else DefaultGateway)
    ensures Restore(r) == raw <==> raw.isAutoRenew.Some? && raw.paymentGateway.Some?
    ensures r.startedAt == raw.startedAt && r.arValidTo == raw.arValidTo && r.endedAt == raw.endedAt
    ensures r.periodMonths == raw.periodMonths && r.productSubGroup == raw.productSubGroup
    ensures r.billingBin == raw.billingBin
  {
    Record(raw.isAutoRenew.GetOr(false), raw.startedAt, raw.arValidTo, raw.endedAt,
           raw.periodMonths, raw.paymentGateway.GetOr(DefaultGateway), raw.productSubGroup, raw.billingBin)
  }

  /** A cleaned row seen again as a raw row, both filled fields present. */
  function Restore(r: Record): RawRecord
  {
    RawRecord(Some(r.isAutoRenew), r.startedAt, r.arValidTo, r.endedAt,
              r.periodMonths, Some(r.paymentGateway), r.productSubGroup, r.billingBin)
  }

  /** Filling the defaults again changes nothing: the cleaned columns hold no gaps. */
  lemma CleanIdempotent(raw: RawRecord)
    ensures Clean(Restore(Clean(raw))) == Clean(raw)
  {
  }

  /**
   * The column assignments that clean the table: every row keeps its place,
   * has its two defaults filled, and all other fields pass through.
   */
  method FillDefaults(raw: seq<RawRecord>) returns (df: array<Record>)
    ensures fresh(df)
    ensures df.Length == |raw|
    ensures forall i :: 0 <= i < |raw| ==> df[i] == Clean(raw[i])
  {
    df := new Record[|raw|];
    var i := 0;
    while i < |raw|
      invariant 0 <= i <= |raw|
      invariant forall j :: 0 <= j < i ==> df[j] == Clean(raw[j])
    {
      df[i] := Clean(raw[i]);
      i := i + 1;
    }
  }

  /** The calendar day (counted from 1970-01-01) a timestamp falls on. */
  function DayOf(t: Timestamp): (d: int)
    ensures d * SecondsPerDay <= t < (d + 1) * SecondsPerDay
  {
    t / SecondsPerDay
  }

  /**
   * DuckDB's `DATE_DIFF('day', a, b)`: the number of midnights crossed going
   * from `a` to `b`, negative when `b` is on an earlier day.
   */
  function DateDiffDays(a: Timestamp, b: Timestamp): (d: int)
    ensures a <= b ==> d >= 0
    ensures b <= a ==> d <= 0
    ensures d == 0 <==> DayOf(a) == DayOf(b)
  {
    DayOf(b) - DayOf(a)
  }

  /** `DATE_DIFF` on nullable columns: NULL when either side is NULL. */
  function SqlDateDiff(a: Option<Timestamp>, b: Option<Timestamp>): (d: Option<int>)
    ensures d.Some? <==> a.Some? && b.Some?
  {
    if a.Some? && b.Some? then Some(DateDiffDays(a.value, b.value)) else None
  }

  /**
   * pandas `(a - b).dt.days`: the whole days of a time difference, rounded
   * towards minus infinity.
   */
  function TimedeltaDays(a: Timestamp, b: Timestamp): (d: int)
    ensures d * SecondsPerDay <= a - b < (d + 1) * SecondsPerDay
    ensures d >= 0 <==> a >= b
  {
    (a - b) / SecondsPerDay
  }

  // The WHERE clauses the queries share.

  /** Both `ar_valid_to` and `ended_at` are present. */
  predicate HasBothEnds(r: Record)
  {
    r.arValidTo.Some? && r.endedAt.Some?
  }

  /** Auto-renew ended strictly before the subscription did. */
  predicate EndsEarly(r: Record)
  {
    HasBothEnds(r) && r.arValidTo.value < r.endedAt.value
  }

  /** The row's `period_months` is exactly `n` (NULL compares false). */
  predicate PeriodIs(r: Record, n: int)
  {
    r.periodMonths == Some(n)
  }
}
