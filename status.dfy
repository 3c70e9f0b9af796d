/**
 * The four bar-chart queries of "Basic Facts": auto-renew ON/OFF, the
 * duration split among ON, early disable against active until the end,
 * and the duration split among early disables.
 */
module StatusQueries {
  import opened Groups
  import opened Records

  const AutoRenewOn: string := "Auto-Renew ON"
  const AutoRenewOff: string := "Auto-Renew OFF"
  const TwelveMonth: string := "12-Month"
  const OneMonth: string := "1-Month"
  const DisabledEarly: string := "Disabled Early"
  const ActiveUntilEnd: string := "Active Until End"

  /** One row of an ordered `label, count` result. */
  datatype LabelCount = LabelCount(name: string, count: nat)

  /** DuckDB's VARCHAR order: character by character, a proper prefix first. */
  predicate StrLess(a: string, b: string)
  {
    if a == [] then b != []
    else if b == [] then false
    else if a[0] != b[0] then a[0] < b[0]
    else StrLess(a[1..], b[1..])
  }

  /** The count a result holds for a label, 0 when no row has that label. */
  function Lookup(rows: seq<LabelCount>, name: string): nat
  {
    if rows == [] then 0 else if rows[0].name == name then rows[0].count else Lookup(rows[1..], name)
  }

  /** Sum of the count column. */
  function Total(rows: seq<LabelCount>): nat
  {
    if rows == [] then 0 else rows[0].count + Total(rows[1..])
  }

  // ----- status_df -----

  predicate IsOn(r: Record)
  {
    r.isAutoRenew
  }

  /** `CASE WHEN is_auto_renew THEN 'Auto-Renew ON' ELSE 'Auto-Renew OFF' END`. */
  function StatusLabel(r: Record): (l: string)
    ensures l == AutoRenewOn || l == AutoRenewOff
    ensures l == AutoRenewOn <==> r.isAutoRenew
  {
    if r.isAutoRenew then AutoRenewOn else AutoRenewOff
  }

  /** `status_df`: every row of the table, grouped by its status label. */
  function StatusCounts(t: seq<Record>): map<string, nat>
  {
    GroupCount(Project(t, StatusLabel))
  }

  /**
   * Every record is in exactly one of the two status groups, so the ON count
   * is the number of ON records and the two counts add up to the table size.
   */
  lemma StatusPartition(t: seq<Record>)
    ensures StatusCounts(t).Keys <= {AutoRenewOn, AutoRenewOff}
    ensures Get(StatusCounts(t), AutoRenewOn) == |Filter(t, IsOn)|
    ensures Get(StatusCounts(t), AutoRenewOn) + Get(StatusCounts(t), AutoRenewOff) == |t|
  {
    var labels := Project(t, StatusLabel);
    OccPartition(labels, AutoRenewOn, AutoRenewOff);
    OccProject(t, StatusLabel, AutoRenewOn, IsOn);
  }

  // ----- disabled_status_df -----

  /** The WHERE clause of `disabled_status_df`: ON with both end timestamps. */
  predicate OnWithBothEnds(r: Record)
  {
    r.isAutoRenew && HasBothEnds(r)
  }

  /** The early-disabled ON records. */
  predicate OnEndsEarly(r: Record)
  {
    r.isAutoRenew && EndsEarly(r)
  }

  /** `CASE WHEN ar_valid_to < ended_at THEN 'Disabled Early' ELSE 'Active Until End' END`. */
  function EarlyLabel(r: Record): (l: string)
    ensures l == DisabledEarly || l == ActiveUntilEnd
    ensures HasBothEnds(r) ==> (l == DisabledEarly <==> r.arValidTo.value < r.endedAt.value)
    ensures HasBothEnds(r) ==> (l == ActiveUntilEnd <==> r.arValidTo.value >= r.endedAt.value)
  {
    if EndsEarly(r) then DisabledEarly else ActiveUntilEnd
  }

  predicate LabelledEarly(r: Record)
  {
    EarlyLabel(r) == DisabledEarly
  }

  /** `disabled_status_df`. */
  function DisabledStatusCounts(t: seq<Record>): map<string, nat>
  {
    GroupCount(Project(Filter(t, OnWithBothEnds), EarlyLabel))
  }

  /**
   * Among ON records with both timestamps, "Disabled Early" counts exactly the
   * early-disabled ones, and the two labels add up to that filtered set.
   */
  lemma DisabledStatusPartition(t: seq<Record>)
    ensures DisabledStatusCounts(t).Keys <= {DisabledEarly, ActiveUntilEnd}
    ensures Get(DisabledStatusCounts(t), DisabledEarly) == |Filter(t, OnEndsEarly)|
    ensures Get(DisabledStatusCounts(t), DisabledEarly) + Get(DisabledStatusCounts(t), ActiveUntilEnd)
            == |Filter(t, OnWithBothEnds)|
  {
    var f := Filter(t, OnWithBothEnds);
    OccPartition(Project(f, EarlyLabel), DisabledEarly, ActiveUntilEnd);
    OccProject(f, EarlyLabel, DisabledEarly, LabelledEarly);
    FilterFilter(t, OnWithBothEnds, LabelledEarly, OnEndsEarly);
  }

  /** A record missing either timestamp is in neither bucket: adding it changes no count. */
  lemma MissingTimestampIgnored(t: seq<Record>, r: Record)
    requires !HasBothEnds(r)
    ensures DisabledStatusCounts(t + [r]) == DisabledStatusCounts(t)
  {
    FilterSnocFailing(t, r, OnWithBothEnds);
  }

  // ----- duration_on_df and duration_disabled_df -----

  /** `CASE WHEN period_months = 12 THEN '12-Month' ELSE '1-Month' END`. */
  function DurationLabel(r: Record): (l: string)
    ensures l == TwelveMonth || l == OneMonth
    ensures l == TwelveMonth <==> PeriodIs(r, 12)
  {
    if PeriodIs(r, 12) then TwelveMonth else OneMonth
  }

  /** The 1-or-12 month filter: `period_months IN (1, 12)`. */
  predicate OneOrTwelve(r: Record)
  {
    PeriodIs(r, 1) || PeriodIs(r, 12)
  }

  /** The WHERE clause of `duration_on_df`. */
  predicate DurationOnWhere(r: Record)
  {
    r.isAutoRenew && OneOrTwelve(r)
  }

  /** The WHERE clause of `duration_disabled_df`. */
  predicate DurationDisabledWhere(r: Record)
  {
    r.isAutoRenew && HasBothEnds(r) && r.arValidTo.value < r.endedAt.value && OneOrTwelve(r)
  }

  /**
   * `GROUP BY duration ORDER BY duration DESC` over the rows `t` that passed
   * the WHERE clause: one row per observed label, in descending label order.
   */
  function DurationTable(t: seq<Record>): (rows: seq<LabelCount>)
    ensures forall i, j :: 0 <= i < j < |rows| ==> StrLess(rows[j].name, rows[i].name)
    ensures forall i :: 0 <= i < |rows| ==> rows[i].count > 0
  {
    var labels := Project(t, DurationLabel);
    DurationRows(Occ(labels, TwelveMonth), Occ(labels, OneMonth))
  }

  /** The '12-Month' row, then the '1-Month' row, each only when its count is positive. */
  function DurationRows(n12: nat, n1: nat): (rows: seq<LabelCount>)
    ensures forall i, j :: 0 <= i < j < |rows| ==> StrLess(rows[j].name, rows[i].name)
    ensures forall i :: 0 <= i < |rows| ==> rows[i].count > 0
  {
    assert StrLess(OneMonth, TwelveMonth);
    (if n12 > 0 then [LabelCount(TwelveMonth, n12)] else []) + (if n1 > 0 then [LabelCount(OneMonth, n1)] else [])
  }

  /** Looking up and summing a result whose first row is `x`. */
  lemma LookupCons(x: LabelCount, rows: seq<LabelCount>)
    ensures forall l :: Lookup([x] + rows, l) == if x.name == l then x.count else Lookup(rows, l)
    ensures Total([x] + rows) == x.count + Total(rows)
  {
    assert ([x] + rows)[1..] == rows;
  }

  /** The empty result holds no label. */
  lemma LookupEmpty()
    ensures forall l :: Lookup([], l) == 0
    ensures Total([]) == 0
  {
  }

  /** The two duration rows hold their two counts and nothing else. */
  lemma DurationRowsCounts(n12: nat, n1: nat)
    ensures forall l :: Lookup(DurationRows(n12, n1), l) == (if l == TwelveMonth then n12 else if l == OneMonth then n1 else 0)
    ensures Total(DurationRows(n12, n1)) == n12 + n1
  {
    var x, y := LabelCount(TwelveMonth, n12), LabelCount(OneMonth, n1);
    var b: seq<LabelCount> := if n1 > 0 then [y] else [];
    LookupEmpty();
    LookupCons(y, []);
    assert [y] + [] == [y];
    if n12 > 0 {
      assert DurationRows(n12, n1) == [x] + b;
      LookupCons(x, b);
    } else {
      assert DurationRows(n12, n1) == b;
    }
  }

  /**
   * The duration table holds, for every label, the number of rows carrying
   * it, and its counts add up to the number of rows.
   */
  lemma DurationTableCounts(t: seq<Record>)
    ensures forall l :: Lookup(DurationTable(t), l) == Occ(Project(t, DurationLabel), l)
    ensures Total(DurationTable(t)) == |t|
  {
    var labels := Project(t, DurationLabel);
    OccPartition(labels, TwelveMonth, OneMonth);
    forall l | l != TwelveMonth && l != OneMonth
      ensures Occ(labels, l) == 0
    {
      OccPositive(labels, l);
    }
    DurationRowsCounts(Occ(labels, TwelveMonth), Occ(labels, OneMonth));
  }

  predicate LabelledTwelve(r: Record)
  {
    DurationLabel(r) == TwelveMonth
  }

  predicate LabelledOne(r: Record)
  {
    DurationLabel(r) == OneMonth
  }

  predicate OnTwelveMonth(r: Record)
  {
    r.isAutoRenew && PeriodIs(r, 12)
  }

  predicate OnOneMonth(r: Record)
  {
    r.isAutoRenew && PeriodIs(r, 1)
  }

  /** `duration_on_df`. */
  function DurationOnCounts(t: seq<Record>): seq<LabelCount>
  {
    DurationTable(Filter(t, DurationOnWhere))
  }

  /** `duration_disabled_df`. */
  function DurationDisabledCounts(t: seq<Record>): seq<LabelCount>
  {
    DurationTable(Filter(t, DurationDisabledWhere))
  }

  /** Only 1- and 12-month ON records are counted, 12 labelled '12-Month' and 1 labelled '1-Month'. */
  lemma DurationOnLabels(t: seq<Record>)
    ensures Lookup(DurationOnCounts(t), TwelveMonth) == |Filter(t, OnTwelveMonth)|
    ensures Lookup(DurationOnCounts(t), OneMonth) == |Filter(t, OnOneMonth)|
    ensures Total(DurationOnCounts(t)) == |Filter(t, DurationOnWhere)|
  {
    var f := Filter(t, DurationOnWhere);
    DurationTableCounts(f);
    OccProject(f, DurationLabel, TwelveMonth, LabelledTwelve);
    OccProject(f, DurationLabel, OneMonth, LabelledOne);
    FilterFilter(t, DurationOnWhere, LabelledTwelve, OnTwelveMonth);
    FilterFilter(t, DurationOnWhere, LabelledOne, OnOneMonth);
  }

  /**
   * The early-disabled duration split is a sub-count of the ON split, label by
   * label, and its total is at most the "Disabled Early" count.
   */
  lemma DurationDisabledWithinOn(t: seq<Record>)
    ensures forall l :: Lookup(DurationDisabledCounts(t), l) <= Lookup(DurationOnCounts(t), l)
    ensures Total(DurationDisabledCounts(t)) <= Get(DisabledStatusCounts(t), DisabledEarly)
  {
    DurationTableCounts(Filter(t, DurationDisabledWhere));
    DurationTableCounts(Filter(t, DurationOnWhere));
    forall l
      ensures Lookup(DurationDisabledCounts(t), l) <= Lookup(DurationOnCounts(t), l)
    {
      OccMono(t, DurationDisabledWhere, DurationOnWhere, DurationLabel, l);
    }
    OccMono(t, DurationDisabledWhere, OnEndsEarly, DurationLabel, TwelveMonth);
    DisabledStatusPartition(t);
  }
}
