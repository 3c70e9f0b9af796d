/**
 * "Subgroups & payment gateway": the 12-month ON cohort and its
 * early-disabled subset, `create_summary` (outer union of the two
 * value-count tables, zero-fill, percentage columns) and the two
 * post-filters applied to its result.
 */
module CohortSummary {
  import opened Wrappers
  import opened Groups
  import opened Records
  import opened ValueCounts

  /** `base_filter`: 12-month plan with auto-renew ON. */
  predicate BaseFilter(r: Record)
  {
    PeriodIs(r, 12) && r.isAutoRenew
  }

  /** `early_disable_filter`: `base_filter` and both ends present and auto-renew ended first. */
  predicate EarlyDisableFilter(r: Record)
  {
    BaseFilter(r) && r.arValidTo.Some? && r.endedAt.Some? && r.arValidTo.value < r.endedAt.value
  }

  /** The two columns the report summarises. */
  datatype GroupColumn = ProductSubGroup | PaymentGateway

  function ProductSubGroupOf(r: Record): Option<string>
  {
    r.productSubGroup
  }

  function PaymentGatewayOf(r: Record): Option<string>
  {
    Some(r.paymentGateway)
  }

  /** `df[group_col]`, a nullable string column. */
  function ValueOf(col: GroupColumn): Record -> Option<string>
  {
    match col
    case ProductSubGroup => ProductSubGroupOf
    case PaymentGateway => PaymentGatewayOf
  }

  /** `total_df[group_col]`. */
  function TotalColumn(t: seq<Record>, col: GroupColumn): seq<Option<string>>
  {
    Project(Filter(t, BaseFilter), ValueOf(col))
  }

  /** `early_df[group_col]`. */
  function EarlyColumn(t: seq<Record>, col: GroupColumn): seq<Option<string>>
  {
    Project(Filter(t, EarlyDisableFilter), ValueOf(col))
  }

  /**
   * The early cohort is the base cohort with extra conditions: every group
   * value occurs in it at most as often as in the base cohort, and the cohort
   * itself is no larger.
   */
  lemma EarlyWithinTotal(t: seq<Record>, col: GroupColumn)
    ensures forall x :: Occ(EarlyColumn(t, col), x) <= Occ(TotalColumn(t, col), x)
    ensures |Filter(t, EarlyDisableFilter)| <= |Filter(t, BaseFilter)|
  {
    forall x
      ensures Occ(EarlyColumn(t, col), x) <= Occ(TotalColumn(t, col), x)
    {
      OccMono(t, EarlyDisableFilter, BaseFilter, ValueOf(col), x);
    }
  }

  /** Every group value of the early cohort is also a group value of the base cohort. */
  lemma EarlyGroupsInTotal(t: seq<Record>, col: GroupColumn)
    ensures forall x :: x in EarlyColumn(t, col) ==> x in TotalColumn(t, col)
  {
    EarlyWithinTotal(t, col);
    forall x | x in EarlyColumn(t, col)
      ensures x in TotalColumn(t, col)
    {
      OccPositive(EarlyColumn(t, col), x);
      OccPositive(TotalColumn(t, col), x);
    }
  }

  // ----- the combined table -----

  /** A row after `pd.concat(..., axis=1).fillna(0)`. */
  datatype CombinedRow = CombinedRow(group: string, total: nat, early: nat)

  /** The total value-count rows, each with the early count of its group, 0 when missing. */
  function WithEarly(tc: seq<ValueCount>, earlyVals: seq<Option<string>>): (r: seq<CombinedRow>)
    ensures |r| == |tc|
    ensures forall i :: 0 <= i < |tc| ==>
      r[i] == CombinedRow(tc[i].value, tc[i].count, Occ(earlyVals, Some(tc[i].value)))
  {
    if tc == [] then [] else
      [CombinedRow(tc[0].value, tc[0].count, Occ(earlyVals, Some(tc[0].value)))] + WithEarly(tc[1..], earlyVals)
  }

  /** The early value-count rows whose group has no total row, with total 0. */
  function EarlyOnly(ec: seq<ValueCount>, totalVals: seq<Option<string>>): (r: seq<CombinedRow>)
    ensures |r| <= |ec|
    ensures forall i :: 0 <= i < |r| ==> r[i].total == 0
  {
    if ec == [] then []
    else if Some(ec[0].value) in totalVals then EarlyOnly(ec[1..], totalVals)
    else [CombinedRow(ec[0].value, 0, ec[0].count)] + EarlyOnly(ec[1..], totalVals)
  }

  /** Whether some value-count row is for group `g` with count `n`. */
  ghost predicate HasCount(ec: seq<ValueCount>, g: string, n: nat)
  {
    exists j :: 0 <= j < |ec| && ec[j].value == g && ec[j].count == n
  }

  /** Whether some row of the table is for group `g`. */
  ghost predicate HasGroup(rows: seq<CombinedRow>, g: string)
  {
    exists i :: 0 <= i < |rows| && rows[i].group == g
  }

  /**
   * The early-only rows are exactly the early value counts of the groups
   * absent from the total column, with their early counts.
   */
  lemma EarlyOnlyRows(ec: seq<ValueCount>, totalVals: seq<Option<string>>)
    ensures forall i :: 0 <= i < |EarlyOnly(ec, totalVals)| ==>
      var row := EarlyOnly(ec, totalVals)[i];
      Some(row.group) !in totalVals && HasCount(ec, row.group, row.early)
    ensures forall g :: HasGroup(EarlyOnly(ec, totalVals), g) <==>
      Some(g) !in totalVals && exists j :: 0 <= j < |ec| && ec[j].value == g
  {
    EarlyOnlyFrom(ec, totalVals);
    EarlyOnlyCovers(ec, totalVals);
  }

  /** Every early-only row is an early value count of a group absent from the total column. */
  lemma {:induction false} EarlyOnlyFrom(ec: seq<ValueCount>, totalVals: seq<Option<string>>)
    ensures forall i :: 0 <= i < |EarlyOnly(ec, totalVals)| ==>
      var row := EarlyOnly(ec, totalVals)[i];
      Some(row.group) !in totalVals && HasCount(ec, row.group, row.early)
  {
    if ec != [] {
      var rest := EarlyOnly(ec[1..], totalVals);
      EarlyOnlyFrom(ec[1..], totalVals);
      var r := EarlyOnly(ec, totalVals);
      var k := if Some(ec[0].value) in totalVals then 0 else 1;
      assert r[k..] == rest;
      forall i | 0 <= i < |r|
        ensures Some(r[i].group) !in totalVals && HasCount(ec, r[i].group, r[i].early)
      {
        if i < k {
          assert ec[0].value == r[i].group && ec[0].count == r[i].early;
        } else {
          assert r[i] == rest[i - k];
          var j :| 0 <= j < |ec[1..]| && ec[1..][j].value == r[i].group && ec[1..][j].count == r[i].early;
          assert ec[j + 1] == ec[1..][j];
        }
      }
    }
  }

  /** Every early group absent from the total column has an early-only row. */
  lemma {:induction false} EarlyOnlyCovers(ec: seq<ValueCount>, totalVals: seq<Option<string>>)
    ensures forall g :: HasGroup(EarlyOnly(ec, totalVals), g) <==>
      Some(g) !in totalVals && exists j :: 0 <= j < |ec| && ec[j].value == g
  {
    EarlyOnlyFrom(ec, totalVals);
    if ec != [] {
      var rest := EarlyOnly(ec[1..], totalVals);
      EarlyOnlyCovers(ec[1..], totalVals);
      var r := EarlyOnly(ec, totalVals);
      var k := if Some(ec[0].value) in totalVals then 0 else 1;
      assert r[k..] == rest;
      forall g
        ensures HasGroup(r, g) <==> Some(g) !in totalVals && exists j :: 0 <= j < |ec| && ec[j].value == g
      {
        if HasGroup(r, g) {
          var i :| 0 <= i < |r| && r[i].group == g;
          assert HasCount(ec, r[i].group, r[i].early);
        }
        if Some(g) !in totalVals && exists j :: 0 <= j < |ec| && ec[j].value == g {
          var j :| 0 <= j < |ec| && ec[j].value == g;
          if j == 0 {
            assert r[0].group == g;
          } else {
            assert ec[1..][j - 1].value == g;
            var i :| 0 <= i < |rest| && rest[i].group == g;
            assert r[i + k] == rest[i];
          }
        }
      }
    }
  }

  /** When every early group also has a total row, nothing is early-only. */
  lemma {:induction false} EarlyOnlyEmpty(ec: seq<ValueCount>, totalVals: seq<Option<string>>)
    requires forall j :: 0 <= j < |ec| ==> Some(ec[j].value) in totalVals
    ensures EarlyOnly(ec, totalVals) == []
  {
    if ec != [] {
      assert Some(ec[0].value) in totalVals;
      EarlyOnlyEmpty(ec[1..], totalVals);
    }
  }

  /**
   * `pd.concat([total_group, early_group], axis=1).fillna(0)`: the groups of
   * the total counts in their order, then the groups seen only in the early
   * counts.
   */
  function Combined(totalVals: seq<Option<string>>, earlyVals: seq<Option<string>>): seq<CombinedRow>
  {
    WithEarly(Counts(totalVals), earlyVals) + EarlyOnly(Counts(earlyVals), totalVals)
  }

  /** The rows of the total side carry both occurrence counts of their group. */
  lemma WithEarlyCounts(totalVals: seq<Option<string>>, earlyVals: seq<Option<string>>)
    ensures forall i :: 0 <= i < |WithEarly(Counts(totalVals), earlyVals)| ==>
      var row := WithEarly(Counts(totalVals), earlyVals)[i];
      row.total == Occ(totalVals, Some(row.group)) && row.early == Occ(earlyVals, Some(row.group))
  {
    CountsRows(totalVals);
  }

  /** The rows of the early-only side carry both occurrence counts of their group. */
  lemma EarlyOnlyCounts(totalVals: seq<Option<string>>, earlyVals: seq<Option<string>>)
    ensures forall i :: 0 <= i < |EarlyOnly(Counts(earlyVals), totalVals)| ==>
      var row := EarlyOnly(Counts(earlyVals), totalVals)[i];
      row.total == Occ(totalVals, Some(row.group)) && row.early == Occ(earlyVals, Some(row.group))
  {
    var ec := Counts(earlyVals);
    var b := EarlyOnly(ec, totalVals);
    EarlyOnlyRows(ec, totalVals);
    forall i | 0 <= i < |b|
      ensures b[i].total == Occ(totalVals, Some(b[i].group)) && b[i].early == Occ(earlyVals, Some(b[i].group))
    {
      OccPositive(totalVals, Some(b[i].group));
      assert HasCount(ec, b[i].group, b[i].early);
      var j :| 0 <= j < |ec| && ec[j].value == b[i].group && ec[j].count == b[i].early;
      EarlyCountRow(earlyVals, j);
    }
  }

  /** One row of the value counts: its count is the occurrence count of its value. */
  lemma EarlyCountRow(vals: seq<Option<string>>, j: int)
    requires 0 <= j < |Counts(vals)|
    ensures Counts(vals)[j].count == Occ(vals, Some(Counts(vals)[j].value))
  {
    CountsRows(vals);
  }

  /**
   * The outer union gives every row the number of times its group occurs on
   * each side (0 for a missing side).
   */
  lemma CombinedCounts(totalVals: seq<Option<string>>, earlyVals: seq<Option<string>>)
    ensures forall i :: 0 <= i < |Combined(totalVals, earlyVals)| ==>
      var row := Combined(totalVals, earlyVals)[i];
      row.total == Occ(totalVals, Some(row.group)) && row.early == Occ(earlyVals, Some(row.group))
  {
    WithEarlyCounts(totalVals, earlyVals);
    EarlyOnlyCounts(totalVals, earlyVals);
  }

  /** The total side has a row for exactly the non-NULL total groups. */
  lemma WithEarlyGroups(totalVals: seq<Option<string>>, earlyVals: seq<Option<string>>)
    ensures forall g :: HasGroup(WithEarly(Counts(totalVals), earlyVals), g) <==> Some(g) in totalVals
  {
    var tc := Counts(totalVals);
    var a := WithEarly(tc, earlyVals);
    CountsRows(totalVals);
    forall g
      ensures HasGroup(a, g) <==> Some(g) in totalVals
    {
      if Some(g) in totalVals {
        var i :| 0 <= i < |tc| && tc[i].value == g;
        assert a[i].group == g;
      }
      if HasGroup(a, g) {
        var i :| 0 <= i < |a| && a[i].group == g;
        assert tc[i].value == g;
      }
    }
  }

  /** The early-only side has a row for exactly the non-NULL early groups with no total row. */
  lemma EarlyOnlyGroups(totalVals: seq<Option<string>>, earlyVals: seq<Option<string>>)
    ensures forall g :: HasGroup(EarlyOnly(Counts(earlyVals), totalVals), g) <==>
      Some(g) !in totalVals && Some(g) in earlyVals
  {
    CountsRows(earlyVals);
    EarlyOnlyRows(Counts(earlyVals), totalVals);
  }

  /** A group is present in a concatenation exactly when it is present in one part. */
  lemma HasGroupAppend(a: seq<CombinedRow>, b: seq<CombinedRow>, g: string)
    ensures HasGroup(a + b, g) <==> HasGroup(a, g) || HasGroup(b, g)
  {
    if HasGroup(a, g) {
      var i :| 0 <= i < |a| && a[i].group == g;
      assert (a + b)[i] == a[i];
    }
    if HasGroup(b, g) {
      var i :| 0 <= i < |b| && b[i].group == g;
      assert (a + b)[|a| + i] == b[i];
    }
  }

  /** The outer union has a row for every group seen on either side, NULLs dropped, and no other. */
  lemma CombinedGroups(totalVals: seq<Option<string>>, earlyVals: seq<Option<string>>)
    ensures forall g :: HasGroup(Combined(totalVals, earlyVals), g) <==> Some(g) in totalVals || Some(g) in earlyVals
  {
    WithEarlyGroups(totalVals, earlyVals);
    EarlyOnlyGroups(totalVals, earlyVals);
    forall g
      ensures HasGroup(Combined(totalVals, earlyVals), g) <==> Some(g) in totalVals || Some(g) in earlyVals
    {
      HasGroupAppend(WithEarly(Counts(totalVals), earlyVals), EarlyOnly(Counts(earlyVals), totalVals), g);
    }
  }

  /** No two rows of the table are for the same group. */
  ghost predicate DistinctGroups(rows: seq<CombinedRow>)
  {
    forall i, j :: 0 <= i < j < |rows| ==> rows[i].group != rows[j].group
  }

  /** The total side has one row per distinct total value. */
  lemma WithEarlyDistinct(totalVals: seq<Option<string>>, earlyVals: seq<Option<string>>)
    ensures DistinctGroups(WithEarly(Counts(totalVals), earlyVals))
  {
    CountsRows(totalVals);
  }

  /** Early-only rows come from distinct value-count rows, so their groups are distinct. */
  lemma {:induction false} EarlyOnlyDistinct(ec: seq<ValueCount>, totalVals: seq<Option<string>>)
    requires forall i, j :: 0 <= i < j < |ec| ==> ec[i].value != ec[j].value
    ensures DistinctGroups(EarlyOnly(ec, totalVals))
  {
    if ec != [] {
      var tail := ec[1..];
      assert forall i, j :: 0 <= i < j < |tail| ==> tail[i].value != tail[j].value by {
        forall i, j | 0 <= i < j < |tail|
          ensures tail[i].value != tail[j].value
        {
          assert tail[i] == ec[i + 1] && tail[j] == ec[j + 1];
        }
      }
      EarlyOnlyDistinct(tail, totalVals);
      EarlyOnlyRows(tail, totalVals);
      var rest := EarlyOnly(tail, totalVals);
      if Some(ec[0].value) !in totalVals {
        var r := EarlyOnly(ec, totalVals);
        assert r == [CombinedRow(ec[0].value, 0, ec[0].count)] + rest;
        forall i, j | 0 <= i < j < |r|
          ensures r[i].group != r[j].group
        {
          assert r[j] == rest[j - 1];
          if i == 0 {
            assert HasCount(tail, rest[j - 1].group, rest[j - 1].early);
            var k :| 0 <= k < |tail| && tail[k].value == rest[j - 1].group && tail[k].count == rest[j - 1].early;
            assert tail[k] == ec[k + 1];
          } else {
            assert r[i] == rest[i - 1];
          }
        }
      }
    }
  }

  /**
   * The outer union has exactly one row per group: the total side's groups
   * are distinct, the early-only groups are distinct, and no early-only group
   * is a total group.
   */
  lemma CombinedDistinct(totalVals: seq<Option<string>>, earlyVals: seq<Option<string>>)
    ensures DistinctGroups(Combined(totalVals, earlyVals))
  {
    var ec := Counts(earlyVals);
    var a, b := WithEarly(Counts(totalVals), earlyVals), EarlyOnly(ec, totalVals);
    WithEarlyDistinct(totalVals, earlyVals);
    WithEarlyGroups(totalVals, earlyVals);
    CountsRows(earlyVals);
    EarlyOnlyDistinct(ec, totalVals);
    EarlyOnlyRows(ec, totalVals);
    var c: seq<CombinedRow> := a + b;
    forall i, j | 0 <= i < j < |c|
      ensures c[i].group != c[j].group
    {
      if j < |a| {
        assert c[i] == a[i] && c[j] == a[j];
      } else if i >= |a| {
        assert c[i] == b[i - |a|] && c[j] == b[j - |a|];
      } else {
        assert c[i] == a[i] && c[j] == b[j - |a|];
        assert HasGroup(a, a[i].group);
      }
    }
  }

  /** Summing a table whose first row is `x`. */
  lemma {:induction false} SumTotalCons(x: CombinedRow, rows: seq<CombinedRow>)
    ensures SumTotal([x] + rows) == x.total + SumTotal(rows)
    decreases |rows|
  {
    if rows != [] {
      var init := rows[..|rows| - 1];
      assert ([x] + rows)[..|rows|] == [x] + init;
      SumTotalCons(x, init);
    }
  }

  /** The total side keeps the value counts' totals. */
  lemma {:induction false} WithEarlySum(tc: seq<ValueCount>, earlyVals: seq<Option<string>>)
    ensures SumTotal(WithEarly(tc, earlyVals)) == Sum(tc)
  {
    if tc != [] {
      WithEarlySum(tc[1..], earlyVals);
      var x := CombinedRow(tc[0].value, tc[0].count, Occ(earlyVals, Some(tc[0].value)));
      SumTotalCons(x, WithEarly(tc[1..], earlyVals));
    }
  }

  /** Early-only rows add nothing to the total column. */
  lemma {:induction false} EarlyOnlySum(ec: seq<ValueCount>, totalVals: seq<Option<string>>)
    ensures SumTotal(EarlyOnly(ec, totalVals)) == 0
  {
    if ec != [] {
      EarlyOnlySum(ec[1..], totalVals);
      if Some(ec[0].value) !in totalVals {
        SumTotalCons(CombinedRow(ec[0].value, 0, ec[0].count), EarlyOnly(ec[1..], totalVals));
      }
    }
  }

  lemma {:induction false} SumTotalAppend(a: seq<CombinedRow>, b: seq<CombinedRow>)
    ensures SumTotal(a + b) == SumTotal(a) + SumTotal(b)
  {
    if a != [] {
      SumTotalAppend(a[1..], b);
      assert a + b == [a[0]] + (a[1..] + b);
      assert a == [a[0]] + a[1..];
      SumTotalCons(a[0], a[1..] + b);
      SumTotalCons(a[0], a[1..]);
    } else {
      assert a + b == b;
    }
  }

  /**
   * `combined['Total Count'].sum()` is the number of non-NULL values of the
   * total column: the denominator of `% of Total`.
   */
  lemma CombinedSumTotal(totalVals: seq<Option<string>>, earlyVals: seq<Option<string>>)
    ensures SumTotal(Combined(totalVals, earlyVals)) == NonNull(totalVals)
  {
    var a, b := WithEarly(Counts(totalVals), earlyVals), EarlyOnly(Counts(earlyVals), totalVals);
    SumTotalAppend(a, b);
    WithEarlySum(Counts(totalVals), earlyVals);
    EarlyOnlySum(Counts(earlyVals), totalVals);
    CountsRows(totalVals);
  }

  /** Totals never increase along the rows. */
  ghost predicate ByTotalDesc(rows: seq<CombinedRow>)
  {
    forall i, j :: 0 <= i < j < |rows| ==> rows[i].total >= rows[j].total
  }

  /**
   * For the cohort, every early group is also a total group and has no more
   * early than total rows, so the table is exactly the total value counts
   * with their early counts, in descending order of total, each total at
   * least 1.
   */
  lemma CohortCombined(t: seq<Record>, col: GroupColumn)
    ensures var c := Combined(TotalColumn(t, col), EarlyColumn(t, col));
      && c == WithEarly(Counts(TotalColumn(t, col)), EarlyColumn(t, col))
      && DistinctGroups(c)
      && ByTotalDesc(c)
      && forall i :: 0 <= i < |c| ==> 1 <= c[i].total && c[i].early <= c[i].total
  {
    var tv, ev := TotalColumn(t, col), EarlyColumn(t, col);
    CohortNoEarlyOnly(t, col);
    CombinedDistinct(tv, ev);
    EarlyWithinTotal(t, col);
    CountsRows(tv);
  }

  /** For the cohort, no early group lacks a total row, so the early-only part is empty. */
  lemma CohortNoEarlyOnly(t: seq<Record>, col: GroupColumn)
    ensures EarlyOnly(Counts(EarlyColumn(t, col)), TotalColumn(t, col)) == []
  {
    var tv, ev := TotalColumn(t, col), EarlyColumn(t, col);
    var ec := Counts(ev);
    CountsRows(ev);
    EarlyGroupsInTotal(t, col);
    forall j | 0 <= j < |ec|
      ensures Some(ec[j].value) in tv
    {
      OccPositive(ev, Some(ec[j].value));
    }
    EarlyOnlyEmpty(ec, tv);
  }

  // ----- percentage columns -----

  /** A row of the returned summary; a percentage of None is pandas' NaN (a 0/0 division). */
  datatype SummaryRow = SummaryRow(group: string, total: nat, early: nat, pctTotal: Option<real>, pctEarly: Option<real>)

  /** `count / sum * 100`, NaN when the sum is 0. */
  function Percent(n: nat, sum: nat): (p: Option<real>)
    ensures p.None? <==> sum == 0
  {
    if sum == 0 then None else Some((n as real) * 100.0 / (sum as real))
  }

  /** A percentage is the share of the count in the sum, scaled to 100. */
  lemma PercentShare(n: nat, sum: nat)
    requires sum > 0
    ensures Percent(n, sum).value * (sum as real) == (n as real) * 100.0
    ensures n <= sum ==> 0.0 <= Percent(n, sum).value <= 100.0
  {
  }

  /** `combined['Total Count'].sum()`. */
  function SumTotal(rows: seq<CombinedRow>): nat
  {
    if rows == [] then 0 else SumTotal(rows[..|rows| - 1]) + rows[|rows| - 1].total
  }

  /** `combined['Early Disable Count'].sum()`. */
  function SumEarly(rows: seq<CombinedRow>): nat
  {
    if rows == [] then 0 else SumEarly(rows[..|rows| - 1]) + rows[|rows| - 1].early
  }

  /** A combined row with its two percentages over the given column sums. */
  function WithPercent(c: CombinedRow, sumTotal: nat, sumEarly: nat): SummaryRow
  {
    SummaryRow(c.group, c.total, c.early, Percent(c.total, sumTotal), Percent(c.early, sumEarly))
  }

  /** The table `create_summary` returns for a combined table. */
  function SummaryTable(combined: seq<CombinedRow>): (table: seq<SummaryRow>)
    ensures |table| == |combined|
    ensures forall i :: 0 <= i < |combined| ==>
      table[i] == WithPercent(combined[i], SumTotal(combined), SumEarly(combined))
  {
    var st, se := SumTotal(combined), SumEarly(combined);
    seq(|combined|, i requires 0 <= i < |combined| => WithPercent(combined[i], st, se))
  }

  /**
   * The percentage step of `create_summary`: sums the two count columns,
   * then assigns the two percentage columns row by row.
   */
  method AddPercentages(combined: seq<CombinedRow>) returns (table: seq<SummaryRow>)
    ensures table == SummaryTable(combined)
  {
    var sumTotal, sumEarly := 0, 0;
    var i := 0;
    while i < |combined|
      invariant 0 <= i <= |combined|
      invariant sumTotal == SumTotal(combined[..i]) && sumEarly == SumEarly(combined[..i])
    {
      assert combined[..i + 1][..i] == combined[..i];
      sumTotal := sumTotal + combined[i].total;
      sumEarly := sumEarly + combined[i].early;
      i := i + 1;
    }
    assert combined[..i] == combined;
    table := [];
    i := 0;
    while i < |combined|
      invariant 0 <= i <= |combined|
      invariant |table| == i
      invariant forall j :: 0 <= j < i ==> table[j] == WithPercent(combined[j], sumTotal, sumEarly)
    {
      table := table + [WithPercent(combined[i], sumTotal, sumEarly)];
      i := i + 1;
    }
  }

  /** `create_summary(group_col)`: the combined table of the cohort with its percentage columns. */
  method CreateSummary(t: seq<Record>, col: GroupColumn) returns (table: seq<SummaryRow>)
    ensures table == CohortSummaryTable(t, col)
  {
    var combined := Combined(TotalColumn(t, col), EarlyColumn(t, col));
    table := AddPercentages(combined);
  }

  /** Sum of the present values of the `% of Total` column. */
  function PctTotalSum(table: seq<SummaryRow>): real
  {
    if table == [] then 0.0
    else PctTotalSum(table[..|table| - 1]) + table[|table| - 1].pctTotal.GetOr(0.0)
  }

  /** Sum of the present values of the `% of Early Disables` column. */
  function PctEarlySum(table: seq<SummaryRow>): real
  {
    if table == [] then 0.0
    else PctEarlySum(table[..|table| - 1]) + table[|table| - 1].pctEarly.GetOr(0.0)
  }

  lemma PercentOfWhole(c: real)
    requires c > 0.0
    ensures c * 100.0 / c == 100.0
  {
  }

  lemma PercentAdd(a: real, b: real, c: real)
    requires c > 0.0
    ensures a * 100.0 / c + b * 100.0 / c == (a + b) * 100.0 / c
  {
  }

  lemma {:induction false} PctTotalPrefix(table: seq<SummaryRow>, combined: seq<CombinedRow>, st: nat, se: nat, k: nat)
    requires |table| == |combined| && k <= |table| && st > 0
    requires forall i :: 0 <= i < |table| ==> table[i] == WithPercent(combined[i], st, se)
    ensures PctTotalSum(table[..k]) == (SumTotal(combined[..k]) as real) * 100.0 / (st as real)
  {
    if k > 0 {
      PctTotalPrefix(table, combined, st, se, k - 1);
      assert table[..k][..k - 1] == table[..k - 1];
      assert combined[..k][..k - 1] == combined[..k - 1];
      PercentAdd(SumTotal(combined[..k - 1]) as real, combined[k - 1].total as real, st as real);
    }
  }

  lemma {:induction false} PctEarlyPrefix(table: seq<SummaryRow>, combined: seq<CombinedRow>, st: nat, se: nat, k: nat)
    requires |table| == |combined| && k <= |table| && se > 0
    requires forall i :: 0 <= i < |table| ==> table[i] == WithPercent(combined[i], st, se)
    ensures PctEarlySum(table[..k]) == (SumEarly(combined[..k]) as real) * 100.0 / (se as real)
  {
    if k > 0 {
      PctEarlyPrefix(table, combined, st, se, k - 1);
      assert table[..k][..k - 1] == table[..k - 1];
      assert combined[..k][..k - 1] == combined[..k - 1];
      PercentAdd(SumEarly(combined[..k - 1]) as real, combined[k - 1].early as real, se as real);
    }
  }

  /**
   * With exact arithmetic each percentage column adds up to 100 when its
   * count column is not all zero; when the early column sums to 0 every early
   * percentage is NaN.
   */
  lemma PercentagesSumTo100(combined: seq<CombinedRow>)
    ensures SumTotal(combined) > 0 ==> PctTotalSum(SummaryTable(combined)) == 100.0
    ensures SumEarly(combined) > 0 ==> PctEarlySum(SummaryTable(combined)) == 100.0
    ensures SumEarly(combined) == 0 ==> forall i :: 0 <= i < |combined| ==> SummaryTable(combined)[i].pctEarly.None?
  {
    var table := SummaryTable(combined);
    var st, se := SumTotal(combined), SumEarly(combined);
    var n := |combined|;
    assert combined[..n] == combined && table[..n] == table;
    if st > 0 {
      PctTotalPrefix(table, combined, st, se, n);
      PercentOfWhole(st as real);
    }
    if se > 0 {
      PctEarlyPrefix(table, combined, st, se, n);
      PercentOfWhole(se as real);
    }
  }

  // ----- the two displayed summaries -----

  /** Number of product sub-group rows shown (`.head(5)`). */
  const ProductRowsShown := 5

  /** Least total for a payment gateway row to be shown. */
  const GatewayMinTotal := 100

  /** `DataFrame.head(n)`: the first `n` rows, or all of them when there are fewer. */
  function Head(table: seq<SummaryRow>, n: nat): (r: seq<SummaryRow>)
    ensures |r| == if n < |table| then n else |table|
    ensures forall i :: 0 <= i < |r| ==> r[i] == table[i]
  {
    if n < |table| then table[..n] else table
  }

  /** Totals never increase along the rows of a summary. */
  ghost predicate SummaryByTotalDesc(table: seq<SummaryRow>)
  {
    forall i, j :: 0 <= i < j < |table| ==> table[i].total >= table[j].total
  }

  /** In a table ordered by total, no row left out by `head` has a larger total than a row kept. */
  lemma HeadIsTop(table: seq<SummaryRow>, n: nat)
    requires SummaryByTotalDesc(table)
    ensures forall i, j :: 0 <= i < |Head(table, n)| <= j < |table| ==> Head(table, n)[i].total >= table[j].total
  {
  }

  /** `table['Total Count'] >= 100` as a row predicate. */
  predicate GatewayShown(row: SummaryRow)
  {
    row.total >= GatewayMinTotal
  }

  /** `table[table['Total Count'] >= 100]`. */
  function AtLeastMinTotal(table: seq<SummaryRow>): seq<SummaryRow>
  {
    Filter(table, GatewayShown)
  }

  function TotalNotBelow(a: SummaryRow, b: SummaryRow): bool
  {
    a.total >= b.total
  }

  /**
   * The gateway filter keeps exactly the rows with a total of at least 100,
   * percentages untouched, and keeps an order by total.
   */
  lemma AtLeastMinTotalRows(table: seq<SummaryRow>)
    ensures forall row :: row in AtLeastMinTotal(table) <==> row in table && row.total >= GatewayMinTotal
    ensures SummaryByTotalDesc(table) ==> SummaryByTotalDesc(AtLeastMinTotal(table))
  {
    forall row
      ensures row in AtLeastMinTotal(table) <==> row in table && row.total >= GatewayMinTotal
    {
      FilterMember(table, GatewayShown, row);
    }
    if SummaryByTotalDesc(table) {
      FilterOrdered(table, GatewayShown, TotalNotBelow);
      var r := AtLeastMinTotal(table);
      assert forall i, j :: 0 <= i < j < |r| ==> TotalNotBelow(r[i], r[j]);
    }
  }

  /** The summary table of a cohort column. */
  function CohortSummaryTable(t: seq<Record>, col: GroupColumn): seq<SummaryRow>
  {
    SummaryTable(Combined(TotalColumn(t, col), EarlyColumn(t, col)))
  }

  /**
   * The cohort's summary table lists its groups by descending total, each
   * with totals of at least 1 and no more early disables than total rows.
   */
  lemma CohortSummaryOrdered(t: seq<Record>, col: GroupColumn)
    ensures SummaryByTotalDesc(CohortSummaryTable(t, col))
    ensures forall i :: 0 <= i < |CohortSummaryTable(t, col)| ==>
      1 <= CohortSummaryTable(t, col)[i].total && CohortSummaryTable(t, col)[i].early <= CohortSummaryTable(t, col)[i].total
  {
    CohortCombined(t, col);
  }

  /**
   * "Generate summaries": the five product sub-groups with the most rows, and
   * the payment gateways with at least 100 rows.
   */
  method Summaries(t: seq<Record>) returns (products: seq<SummaryRow>, gateways: seq<SummaryRow>)
    ensures products == Head(CohortSummaryTable(t, ProductSubGroup), ProductRowsShown)
    ensures gateways == AtLeastMinTotal(CohortSummaryTable(t, PaymentGateway))
  {
    var all := CreateSummary(t, ProductSubGroup);
    products := Head(all, ProductRowsShown);
    gateways := CreateSummary(t, PaymentGateway);
    gateways := AtLeastMinTotal(gateways);
  }

  /**
   * No product sub-group left out of the displayed summary has more rows
   * than one shown, and the shown gateways keep their order by total.
   */
  lemma SummariesAreTop(t: seq<Record>)
    ensures var full := CohortSummaryTable(t, ProductSubGroup);
      forall i, j :: 0 <= i < |Head(full, ProductRowsShown)| <= j < |full| ==>
        Head(full, ProductRowsShown)[i].total >= full[j].total
    ensures SummaryByTotalDesc(AtLeastMinTotal(CohortSummaryTable(t, PaymentGateway)))
  {
    CohortSummaryOrdered(t, ProductSubGroup);
    HeadIsTop(CohortSummaryTable(t, ProductSubGroup), ProductRowsShown);
    CohortSummaryOrdered(t, PaymentGateway);
    AtLeastMinTotalRows(CohortSummaryTable(t, PaymentGateway));
  }
}
