/**
 * pandas `Series.value_counts()` on a nullable string column: NULLs are
 * dropped, each distinct value appears once with its number of
 * occurrences, rows ordered by descending count.
 */
module ValueCounts {
  import opened Wrappers
  import opened Groups

  datatype ValueCount = ValueCount(value: string, count: nat)

  /** No element twice. */
  ghost predicate NoDup<T>(s: seq<T>)
  {
    forall i, j :: 0 <= i < j < |s| ==> s[i] != s[j]
  }

  /** Counts never increase along the rows. */
  ghost predicate Descending(s: seq<ValueCount>)
  {
    forall i, j :: 0 <= i < j < |s| ==> s[i].count >= s[j].count
  }

  /** The distinct non-null values of a column. */
  function Distinct(vals: seq<Option<string>>): (d: seq<string>)
    ensures NoDup(d)
    ensures forall x :: x in d <==> Some(x) in vals
  {
    if vals == [] then []
    else
      var rest := Distinct(vals[1..]);
      assert forall x :: Some(x) in vals <==> Some(x) == vals[0] || Some(x) in vals[1..];
      if vals[0].Some? && vals[0].value !in rest then [vals[0].value] + rest else rest
  }

  /** Sum of the count column. */
  function Sum(s: seq<ValueCount>): nat
  {
    if s == [] then 0 else s[0].count + Sum(s[1..])
  }

  /** Places one row into a descending list, before the first smaller count. */
  function InsertDesc(s: seq<ValueCount>, x: ValueCount): (r: seq<ValueCount>)
    requires Descending(s)
    ensures Descending(r)
    ensures multiset(r) == multiset(s) + multiset{x}
    ensures Sum(r) == Sum(s) + x.count
  {
    if s == [] then [x]
    else if x.count >= s[0].count then
      var r := [x] + s;
      assert r[1..] == s;
      r
    else
      var rest := InsertDesc(s[1..], x);
      var r := [s[0]] + rest;
      assert r[1..] == rest;
      assert s == [s[0]] + s[1..];
      FirstBoundsRest(s, x, rest);
      r
  }

  /** The head of a descending list bounds a permutation of its tail with a smaller row added. */
  lemma FirstBoundsRest(s: seq<ValueCount>, x: ValueCount, rest: seq<ValueCount>)
    requires Descending(s) && s != [] && x.count < s[0].count
    requires multiset(rest) == multiset(s[1..]) + multiset{x}
    ensures forall j :: 0 <= j < |rest| ==> s[0].count >= rest[j].count
  {
    forall j | 0 <= j < |rest|
      ensures s[0].count >= rest[j].count
    {
      assert rest[j] in multiset(rest);
      if rest[j] != x {
        assert rest[j] in multiset(s[1..]);
        var k :| 0 <= k < |s[1..]| && s[1..][k] == rest[j];
        assert s[k + 1] == rest[j];
      }
    }
  }

  /** Sorting by descending count: insertion sort, so equal counts keep their relative order. */
  function SortDesc(s: seq<ValueCount>): (r: seq<ValueCount>)
    ensures Descending(r)
    ensures multiset(r) == multiset(s)
    ensures Sum(r) == Sum(s)
  {
    if s == [] then []
    else
      assert s == [s[0]] + s[1..];
      InsertDesc(SortDesc(s[1..]), s[0])
  }

  /** One row per distinct value, with its number of occurrences, before sorting. */
  function CountRows(d: seq<string>, vals: seq<Option<string>>): (r: seq<ValueCount>)
    ensures |r| == |d|
    ensures forall i :: 0 <= i < |d| ==> r[i] == ValueCount(d[i], Occ(vals, Some(d[i])))
  {
    if d == [] then [] else [ValueCount(d[0], Occ(vals, Some(d[0])))] + CountRows(d[1..], vals)
  }

  /** `value_counts()`. */
  function Counts(vals: seq<Option<string>>): seq<ValueCount>
  {
    SortDesc(CountRows(Distinct(vals), vals))
  }

  /** The non-null entries of a column. */
  function NonNull(vals: seq<Option<string>>): nat
  {
    if vals == [] then 0 else (if vals[0].Some? then 1 else 0) + NonNull(vals[1..])
  }

  lemma {:induction false} MultisetNoDup<T>(s: seq<T>, x: T)
    requires NoDup(s)
    ensures multiset(s)[x] <= 1
  {
    if s != [] {
      assert s == [s[0]] + s[1..];
      MultisetNoDup(s[1..], x);
      if s[0] == x {
        assert x !in s[1..];
      }
    }
  }

  /** A permutation of a list without repeats has no repeats. */
  lemma PermutationNoDup<T>(s: seq<T>, r: seq<T>)
    requires NoDup(s)
    requires multiset(r) == multiset(s)
    ensures NoDup(r)
  {
    forall i, j | 0 <= i < j < |r|
      ensures r[i] != r[j]
    {
      if r[i] == r[j] {
        assert r == r[..j] + r[j..];
        assert r[i] in r[..j];
        assert r[j] in r[j..];
        assert multiset(r)[r[i]] == multiset(r[..j])[r[i]] + multiset(r[j..])[r[i]];
        MultisetNoDup(s, r[i]);
        assert false;
      }
    }
  }

  /**
   * `value_counts()` lists each non-null value of the column exactly once
   * with its number of occurrences, by descending count, and its counts add
   * up to the number of non-null entries (NULLs are dropped).
   */
  lemma CountsRows(vals: seq<Option<string>>)
    ensures Descending(Counts(vals))
    ensures forall i :: 0 <= i < |Counts(vals)| ==>
      Counts(vals)[i].count == Occ(vals, Some(Counts(vals)[i].value)) > 0
    ensures forall i, j :: 0 <= i < j < |Counts(vals)| ==> Counts(vals)[i].value != Counts(vals)[j].value
    ensures forall x :: Some(x) in vals <==> exists i :: 0 <= i < |Counts(vals)| && Counts(vals)[i].value == x
    ensures Sum(Counts(vals)) == NonNull(vals)
  {
    var d := Distinct(vals);
    var rows := CountRows(d, vals);
    var r := Counts(vals);
    assert NoDup(rows) by {
      forall i, j | 0 <= i < j < |rows| ensures rows[i] != rows[j] {
        assert rows[i].value == d[i] && rows[j].value == d[j];
      }
    }
    PermutationNoDup(rows, r);
    forall i | 0 <= i < |r|
      ensures r[i].count == Occ(vals, Some(r[i].value)) > 0
    {
      assert r[i] in multiset(rows);
      var k :| 0 <= k < |rows| && rows[k] == r[i];
      OccPositive(vals, Some(r[i].value));
    }
    forall i, j | 0 <= i < j < |r|
      ensures r[i].value != r[j].value
    {
      assert r[i] in multiset(rows) && r[j] in multiset(rows);
    }
    forall x | Some(x) in vals
      ensures exists i :: 0 <= i < |r| && r[i].value == x
    {
      var k :| 0 <= k < |d| && d[k] == x;
      assert rows[k] in multiset(r);
      var i :| 0 <= i < |r| && r[i] == rows[k];
    }
    forall x | exists i :: 0 <= i < |r| && r[i].value == x
      ensures Some(x) in vals
    {
      var i :| 0 <= i < |r| && r[i].value == x;
      OccPositive(vals, Some(x));
    }
    DistinctSum(vals);
  }

  /** Sum over the distinct values of `d` of their occurrences in `vals`. */
  function OccSum(d: seq<string>, vals: seq<Option<string>>): nat
  {
    if d == [] then 0 else Occ(vals, Some(d[0])) + OccSum(d[1..], vals)
  }

  lemma {:induction false} CountRowsSum(d: seq<string>, vals: seq<Option<string>>)
    ensures Sum(CountRows(d, vals)) == OccSum(d, vals)
  {
    if d != [] {
      CountRowsSum(d[1..], vals);
      assert CountRows(d, vals)[1..] == CountRows(d[1..], vals);
    }
  }

  /** Removing one leading entry `x` from the column lowers the sum by the number of times `x` is in `d`. */
  lemma {:induction false} OccSumCons(d: seq<string>, x: Option<string>, vals: seq<Option<string>>)
    ensures OccSum(d, [x] + vals) == OccSum(d, vals) + (if x.Some? then Occ(d, x.value) else 0)
  {
    assert ([x] + vals)[1..] == vals;
    if d != [] {
      OccSumCons(d[1..], x, vals);
    }
  }

  lemma {:induction false} OccSumAbsent(d: seq<string>, vals: seq<Option<string>>)
    requires forall i :: 0 <= i < |d| ==> Some(d[i]) !in vals
    ensures OccSum(d, vals) == 0
  {
    if d != [] {
      OccPositive(vals, Some(d[0]));
      OccSumAbsent(d[1..], vals);
    }
  }

  lemma {:induction false} OccNoDupOne(d: seq<string>, x: string)
    requires NoDup(d) && x in d
    ensures Occ(d, x) == 1
  {
    if d[0] == x {
      assert x !in d[1..];
      OccPositive(d[1..], x);
    } else {
      OccNoDupOne(d[1..], x);
    }
  }

  /** The distinct values' occurrences add up to the non-null entries. */
  lemma {:induction false} DistinctSum(vals: seq<Option<string>>)
    ensures Sum(CountRows(Distinct(vals), vals)) == NonNull(vals)
  {
    CountRowsSum(Distinct(vals), vals);
    DistinctOccSum(vals);
  }

  lemma {:induction false} DistinctOccSum(vals: seq<Option<string>>)
    ensures OccSum(Distinct(vals), vals) == NonNull(vals)
  {
    if vals != [] {
      var tail := vals[1..];
      var rest := Distinct(tail);
      DistinctOccSum(tail);
      assert [vals[0]] + tail == vals;
      var d := Distinct(vals);
      OccSumCons(d, vals[0], tail);
      if vals[0].Some? && vals[0].value !in rest {
        // d == [v] + rest, and v does not occur in the tail
        var v := vals[0].value;
        OccPositive(tail, Some(v));
        OccPositive(rest, v);
        assert d[1..] == rest;
        assert Occ(d, v) == 1 + Occ(rest, v);
      } else if vals[0].Some? {
        OccNoDupOne(rest, vals[0].value);
      }
    }
  }
}
