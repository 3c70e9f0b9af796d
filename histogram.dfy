/**
 * `SELECT key, COUNT(*) ... GROUP BY key ORDER BY key` over a nullable
 * integer key (DuckDB sorts ascending with NULLs last), and the Python
 * post-processing of such a result: the zero-filled dictionary over a fixed
 * range of days, its sum and its maximum.
 */
module Histogram {
  import opened Wrappers
  import opened Groups

  /** A nullable integer key; None is SQL NULL. */
  type Key = Option<int>

  /** One result row: a key and how many rows had it. */
  datatype Bucket = Bucket(key: Key, count: nat)

  /** The `ORDER BY key ASC` order: integers ascending, NULL after every integer. */
  predicate KeyLess(a: Key, b: Key)
  {
    match a
    case None => false
    case Some(x) => b.None? || x < b.value
  }

  /** Keys strictly ascending, hence also pairwise distinct. */
  ghost predicate Ascending(h: seq<Bucket>)
  {
    forall i, j :: 0 <= i < j < |h| ==> KeyLess(h[i].key, h[j].key)
  }

  /** Every key of `h` comes after `b`. */
  ghost predicate AllAfter(b: Key, h: seq<Bucket>)
  {
    forall i :: 0 <= i < |h| ==> KeyLess(b, h[i].key)
  }

  /** The count a result holds for `k`, 0 when `k` has no row. */
  function CountOf(h: seq<Bucket>, k: Key): nat
  {
    if h == [] then 0 else if h[0].key == k then h[0].count else CountOf(h[1..], k)
  }

  /** Sum of the count column. */
  function SumCounts(h: seq<Bucket>): nat
  {
    if h == [] then 0 else h[0].count + SumCounts(h[1..])
  }

  /** Whether some row of `h` has key `k`. */
  ghost predicate HasKey(h: seq<Bucket>, k: Key)
  {
    exists i :: 0 <= i < |h| && h[i].key == k
  }

  /** Adds one row with key `k` to an ordered result. */
  function Insert(h: seq<Bucket>, k: Key): (r: seq<Bucket>)
    requires Ascending(h)
    ensures Ascending(r)
    ensures forall x :: CountOf(r, x) == CountOf(h, x) + (if x == k then 1 else 0)
    ensures (forall i :: 0 <= i < |h| ==> h[i].count > 0) ==> forall i :: 0 <= i < |r| ==> r[i].count > 0
    ensures SumCounts(r) == SumCounts(h) + 1
    ensures forall b :: KeyLess(b, k) && AllAfter(b, h) ==> AllAfter(b, r)
  {
    if h == [] then [Bucket(k, 1)]
    else if h[0].key == k then
      var r := [Bucket(k, h[0].count + 1)] + h[1..];
      assert r[1..] == h[1..];
      r
    else if KeyLess(k, h[0].key) then
      var r := [Bucket(k, 1)] + h;
      assert r[1..] == h;
      assert AllAfter(k, h);
      CountOfAfter(h, k);
      r
    else
      assert Ascending(h[1..]) by {
        forall i, j | 0 <= i < j < |h| - 1
          ensures KeyLess(h[1..][i].key, h[1..][j].key)
        {
          assert h[1..][i] == h[i + 1] && h[1..][j] == h[j + 1];
        }
      }
      var rest := Insert(h[1..], k);
      var r := [h[0]] + rest;
      assert r[1..] == rest;
      assert AllAfter(h[0].key, h[1..]);
      assert KeyLess(h[0].key, k);
      assert AllAfter(h[0].key, rest);
      r
  }

  /** The whole grouped, ordered result for a key column. */
  function Build(ks: seq<Key>): (h: seq<Bucket>)
    ensures Ascending(h)
    ensures forall x :: CountOf(h, x) == Occ(ks, x)
    ensures forall i :: 0 <= i < |h| ==> h[i].count > 0
    ensures SumCounts(h) == |ks|
  {
    if ks == [] then [] else Insert(Build(ks[1..]), ks[0])
  }

  /** In an ordered result the count of a row's key is the row's own count. */
  lemma {:induction false} CountOfRow(h: seq<Bucket>, i: int)
    requires Ascending(h)
    requires 0 <= i < |h|
    ensures CountOf(h, h[i].key) == h[i].count
  {
    if i > 0 {
      assert h[0].key != h[i].key by { assert KeyLess(h[0].key, h[i].key); }
      CountOfRow(h[1..], i - 1);
    }
  }

  /** A key without a row counts 0, and a positive count means the key has a row. */
  lemma {:induction false} CountOfAbsent(h: seq<Bucket>, k: Key)
    ensures CountOf(h, k) > 0 ==> HasKey(h, k)
  {
    if h != [] && h[0].key != k {
      CountOfAbsent(h[1..], k);
      if CountOf(h, k) > 0 {
        var i :| 0 <= i < |h[1..]| && h[1..][i].key == k;
        assert h[i + 1].key == k;
      }
    }
  }

  /**
   * The grouped result has exactly one row per distinct key of the column,
   * each with that key's number of occurrences, in ascending key order.
   */
  lemma BuildRows(ks: seq<Key>)
    ensures Ascending(Build(ks))
    ensures forall i :: 0 <= i < |Build(ks)| ==>
      Build(ks)[i].key in ks && Build(ks)[i].count == Occ(ks, Build(ks)[i].key)
    ensures forall k :: k in ks ==> HasKey(Build(ks), k)
    ensures SumCounts(Build(ks)) == |ks|
  {
    var h := Build(ks);
    forall i | 0 <= i < |h|
      ensures h[i].key in ks && h[i].count == Occ(ks, h[i].key)
    {
      CountOfRow(h, i);
      OccPositive(ks, h[i].key);
    }
    forall k | k in ks
      ensures HasKey(h, k)
    {
      OccPositive(ks, k);
      CountOfAbsent(h, k);
    }
  }

  // ----- zero-filled dictionaries -----

  /** The integers `lo <= i < hi`: Python's `range(lo, hi)`. */
  function Range(lo: int, hi: int): (s: set<int>)
    ensures forall i :: i in s <==> lo <= i < hi
    decreases hi - lo
  {
    if hi <= lo then {} else {lo} + Range(lo + 1, hi)
  }

  /** The non-NULL keys of a result. */
  function RowKeys(rows: seq<Bucket>): (s: set<int>)
    ensures forall k :: k in s <==> exists j :: 0 <= j < |rows| && rows[j].key == Some(k)
  {
    set j | 0 <= j < |rows| && rows[j].key.Some? :: rows[j].key.value
  }

  /** The count that `dict.update` leaves for `k`: the last row with key `k`, else 0. */
  function LastCount(rows: seq<Bucket>, k: int): nat
  {
    if rows == [] then 0
    else if rows[|rows| - 1].key == Some(k) then rows[|rows| - 1].count
    else LastCount(rows[..|rows| - 1], k)
  }

  /**
   * `d = {i: 0 for i in range(lo, hi)}; d.update(rows)`: every day of the
   * range has an entry, a day the query returned has its count.
   */
  function ZeroFilled(lo: int, hi: int, rows: seq<Bucket>): (m: map<int, nat>)
    ensures m.Keys == Range(lo, hi) + RowKeys(rows)
  {
    map k | k in Range(lo, hi) + RowKeys(rows) :: LastCount(rows, k)
  }

  /** The dictionary built and then updated in place, as the report does it. */
  method ZeroFill(lo: int, hi: int, rows: seq<Bucket>) returns (m: map<int, nat>)
    requires forall j :: 0 <= j < |rows| ==> rows[j].key.Some?
    ensures m == ZeroFilled(lo, hi, rows)
  {
    m := map[];
    var i := lo;
    while i < hi
      invariant lo <= i
      invariant hi >= lo ==> i <= hi
      invariant hi < lo ==> i == lo
      invariant m.Keys == Range(lo, i)
      invariant forall k :: k in m ==> m[k] == 0
    {
      m := m[i := 0];
      i := i + 1;
    }
    var j := 0;
    while j < |rows|
      invariant 0 <= j <= |rows|
      invariant m.Keys == Range(lo, hi) + RowKeys(rows[..j])
      invariant forall k :: k in m ==> m[k] == LastCount(rows[..j], k)
    {
      var key := rows[j].key.value;
      UpdateStep(rows, j);
      ghost var before := m;
      m := m[key := rows[j].count];
      forall k | k in m
        ensures m[k] == LastCount(rows[..j + 1], k)
      {
        assert LastCount(rows[..j + 1], k) == Updated(rows[..j], rows[j], k);
        if k != key {
          assert k in before;
        }
      }
      j := j + 1;
    }
    assert rows[..j] == rows;
  }

  /** What one more `update` row changes: its key gains its count. */
  lemma UpdateStep(rows: seq<Bucket>, j: int)
    requires 0 <= j < |rows| && rows[j].key.Some?
    ensures RowKeys(rows[..j + 1]) == RowKeys(rows[..j]) + {rows[j].key.value}
    ensures forall k :: LastCount(rows[..j + 1], k) == Updated(rows[..j], rows[j], k)
  {
    var done := rows[..j + 1];
    assert done[..j] == rows[..j];
    assert done[|done| - 1] == rows[j];
    forall k
      ensures LastCount(done, k) == Updated(rows[..j], rows[j], k)
    {
    }
  }

  /** The value for `k` after `update` with row `b` on top of `rows`. */
  function Updated(rows: seq<Bucket>, b: Bucket, k: int): nat
  {
    if b.key == Some(k) then b.count else LastCount(rows, k)
  }

  /** In an ordered result the last row with a key is its only row. */
  lemma {:induction false} LastCountIsCountOf(h: seq<Bucket>, k: int)
    requires Ascending(h)
    ensures LastCount(h, k) == CountOf(h, Some(k))
  {
    if h != [] {
      var n := |h| - 1;
      var init := h[..n];
      assert Ascending(init);
      LastCountIsCountOf(init, k);
      CountOfSnoc(init, h[n], Some(k));
      assert init + [h[n]] == h;
    }
  }

  lemma {:induction false} CountOfSnoc(h: seq<Bucket>, b: Bucket, k: Key)
    requires AllBefore(h, b.key)
    ensures CountOf(h + [b], k) == if b.key == k then b.count else CountOf(h, k)
  {
    if h == [] {
    } else {
      assert (h + [b])[1..] == h[1..] + [b];
      CountOfSnoc(h[1..], b, k);
      if b.key == k {
        assert h[0].key != k by { assert KeyLess(h[0].key, b.key); }
      }
    }
  }

  /** Every key of `h` comes before `b`. */
  ghost predicate AllBefore(h: seq<Bucket>, b: Key)
  {
    forall i :: 0 <= i < |h| ==> KeyLess(h[i].key, b)
  }

  /** A key before every key of a result has no row. */
  lemma {:induction false} CountOfAfter(h: seq<Bucket>, k: Key)
    requires AllAfter(k, h)
    ensures CountOf(h, k) == 0
  {
    if h != [] {
      assert KeyLess(k, h[0].key);
      CountOfAfter(h[1..], k);
    }
  }

  /** Sum of `m[i]` over `lo <= i < hi`. */
  function SumRange(m: map<int, nat>, lo: int, hi: int): nat
    requires Range(lo, hi) <= m.Keys
    decreases hi - lo
  {
    if hi <= lo then 0 else m[lo] + SumRange(m, lo + 1, hi)
  }

  /** Largest of `m[i]` over `lo <= i < hi`: Python's `max(d.values())` on such a dictionary. */
  function MaxRange(m: map<int, nat>, lo: int, hi: int): (r: nat)
    requires lo < hi
    requires Range(lo, hi) <= m.Keys
    ensures forall i :: lo <= i < hi ==> m[i] <= r
    ensures exists i :: lo <= i < hi && m[i] == r
    decreases hi - lo
  {
    if lo + 1 == hi then m[lo]
    else
      var rest := MaxRange(m, lo + 1, hi);
      if m[lo] >= rest then m[lo] else rest
  }

  /** Sum of the occurrences of `Some(i)` over `lo <= i < hi`. */
  function SumOcc(ks: seq<Key>, lo: int, hi: int): nat
    decreases hi - lo
  {
    if hi <= lo then 0 else Occ(ks, Some(lo)) + SumOcc(ks, lo + 1, hi)
  }

  lemma {:induction false} SumOccCons(k: Key, ks: seq<Key>, lo: int, hi: int)
    ensures SumOcc([k] + ks, lo, hi) == SumOcc(ks, lo, hi) + (if k.Some? && lo <= k.value < hi then 1 else 0)
    decreases hi - lo
  {
    assert ([k] + ks)[1..] == ks;
    if lo < hi {
      SumOccCons(k, ks, lo + 1, hi);
    }
  }

  /** When every element of the column is an integer in the range, the per-day occurrences add up to the column. */
  lemma {:induction false} SumOccAll(ks: seq<Key>, lo: int, hi: int)
    requires forall j :: 0 <= j < |ks| ==> ks[j].Some? && lo <= ks[j].value < hi
    ensures SumOcc(ks, lo, hi) == |ks|
  {
    if ks == [] {
      SumOccEmpty(lo, hi);
    } else {
      SumOccAll(ks[1..], lo, hi);
      SumOccCons(ks[0], ks[1..], lo, hi);
      assert [ks[0]] + ks[1..] == ks;
    }
  }

  lemma {:induction false} SumOccEmpty(lo: int, hi: int)
    ensures SumOcc([], lo, hi) == 0
    decreases hi - lo
  {
    if lo < hi {
      SumOccEmpty(lo + 1, hi);
    }
  }

  lemma {:induction false} SumRangeOcc(m: map<int, nat>, ks: seq<Key>, lo: int, hi: int)
    requires Range(lo, hi) <= m.Keys
    requires forall i :: lo <= i < hi ==> m[i] == Occ(ks, Some(i))
    ensures SumRange(m, lo, hi) == SumOcc(ks, lo, hi)
    decreases hi - lo
  {
    if lo < hi {
      SumRangeOcc(m, ks, lo + 1, hi);
    }
  }

  /**
   * Zero-filling the grouped result of a column whose values all lie in
   * `[lo, hi)`: the dictionary has exactly the days of the range, each day
   * holds its number of rows (0 for a day no row had), and the values add up
   * to the number of rows.
   */
  lemma ZeroFilledHistogram(ks: seq<Key>, lo: int, hi: int)
    requires forall j :: 0 <= j < |ks| ==> ks[j].Some? && lo <= ks[j].value < hi
    ensures ZeroFilled(lo, hi, Build(ks)).Keys == Range(lo, hi)
    ensures forall i :: lo <= i < hi ==> ZeroFilled(lo, hi, Build(ks))[i] == Occ(ks, Some(i))
    ensures SumRange(ZeroFilled(lo, hi, Build(ks)), lo, hi) == |ks|
  {
    var m := ZeroFilled(lo, hi, Build(ks));
    BuiltKeysInRange(ks, lo, hi);
    forall i | lo <= i < hi
      ensures m[i] == Occ(ks, Some(i))
    {
      BuiltCount(ks, i);
    }
    SumRangeOcc(m, ks, lo, hi);
    SumOccAll(ks, lo, hi);
  }

  /** The grouped result of a column with values in `[lo, hi)` has only keys of that range. */
  lemma BuiltKeysInRange(ks: seq<Key>, lo: int, hi: int)
    requires forall j :: 0 <= j < |ks| ==> ks[j].Some? && lo <= ks[j].value < hi
    ensures RowKeys(Build(ks)) <= Range(lo, hi)
  {
    var h := Build(ks);
    BuildRows(ks);
    forall k | k in RowKeys(h)
      ensures k in Range(lo, hi)
    {
      var j :| 0 <= j < |h| && h[j].key == Some(k);
      var p :| 0 <= p < |ks| && ks[p] == h[j].key;
    }
  }

  /** A column without NULLs groups into a result without a NULL row. */
  lemma BuildKeysSome(ks: seq<Key>)
    requires forall j :: 0 <= j < |ks| ==> ks[j].Some?
    ensures forall j :: 0 <= j < |Build(ks)| ==> Build(ks)[j].key.Some?
  {
    var h := Build(ks);
    BuildRows(ks);
    forall j | 0 <= j < |h|
      ensures h[j].key.Some?
    {
      var p :| 0 <= p < |ks| && ks[p] == h[j].key;
    }
  }

  /** The last row for a day in the grouped result holds that day's number of rows. */
  lemma BuiltCount(ks: seq<Key>, i: int)
    ensures LastCount(Build(ks), i) == Occ(ks, Some(i))
  {
    LastCountIsCountOf(Build(ks), i);
  }

  /** With NULLs sorted last, a NULL row can only be the final row. */
  lemma NullLast(h: seq<Bucket>)
    requires Ascending(h)
    ensures forall i :: 0 <= i < |h| && h[i].key.None? ==> i == |h| - 1
  {
    forall i | 0 <= i < |h| && h[i].key.None?
      ensures i == |h| - 1
    {
      assert i < |h| - 1 ==> KeyLess(h[i].key, h[i + 1].key);
    }
  }

  /** Python's `[m[i] for i in reversed(range(lo, hi))]`. */
  function ReversedRange(m: map<int, nat>, lo: int, hi: int): (r: seq<nat>)
    requires Range(lo, hi) <= m.Keys
    ensures lo <= hi ==> |r| == hi - lo
    ensures forall j :: 0 <= j < |r| ==> lo <= hi - 1 - j < hi && r[j] == m[hi - 1 - j]
    decreases hi - lo
  {
    if hi <= lo then [] else [m[hi - 1]] + ReversedRange(m, lo, hi - 1)
  }

  /** Sum of a list of counts. */
  function SeqSum(s: seq<nat>): nat
  {
    if s == [] then 0 else s[0] + SeqSum(s[1..])
  }

  lemma {:induction false} SumRangeLast(m: map<int, nat>, lo: int, hi: int)
    requires lo < hi
    requires Range(lo, hi) <= m.Keys
    ensures SumRange(m, lo, hi) == SumRange(m, lo, hi - 1) + m[hi - 1]
    decreases hi - lo
  {
    if lo + 1 < hi {
      SumRangeLast(m, lo + 1, hi);
    }
  }

  /** Listing a range backwards keeps its total. */
  lemma {:induction false} ReversedRangeSum(m: map<int, nat>, lo: int, hi: int)
    requires Range(lo, hi) <= m.Keys
    ensures SeqSum(ReversedRange(m, lo, hi)) == SumRange(m, lo, hi)
    decreases hi - lo
  {
    if lo < hi {
      var r := ReversedRange(m, lo, hi);
      assert r[1..] == ReversedRange(m, lo, hi - 1);
      ReversedRangeSum(m, lo, hi - 1);
      SumRangeLast(m, lo, hi);
    }
  }
}
