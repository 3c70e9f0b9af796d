/**
 * Generic counting over a column of values: the `COUNT(*) ... GROUP BY`
 * of an unordered query, filtering rows by a WHERE predicate and
 * projecting a key column.
 */
module Groups {

  /** Number of occurrences of `k` in `ks`. */
  function Occ<K(==)>(ks: seq<K>, k: K): nat
  {
    if ks == [] then 0 else (if ks[0] == k then 1 else 0) + Occ(ks[1..], k)
  }

  /** The rows of `s` satisfying `p`, in their original order (a WHERE clause). */
  function Filter<T>(s: seq<T>, p: T -> bool): (r: seq<T>)
    ensures |r| <= |s|
    ensures forall i :: 0 <= i < |r| ==> p(r[i]) && r[i] in s
  {
    if s == [] then [] else (if p(s[0]) then [s[0]] else []) + Filter(s[1..], p)
  }

  /** The column `f` of the rows `s` (a SELECT expression). */
  function Project<T, K>(s: seq<T>, f: T -> K): (r: seq<K>)
    ensures |r| == |s|
    ensures forall i :: 0 <= i < |s| ==> r[i] == f(s[i])
  {
    if s == [] then [] else [f(s[0])] + Project(s[1..], f)
  }

  /** Count of a label in a group-by result; a label that is not there counts 0. */
  function Get<K>(m: map<K, nat>, k: K): nat
  {
    if k in m then m[k] else 0
  }

  /**
   * `SELECT key, COUNT(*) ... GROUP BY key` without ORDER BY: only observed
   * keys appear, each with its number of occurrences.
   */
  function GroupCount<K(==,!new)>(ks: seq<K>): (m: map<K, nat>)
    ensures forall k :: k in m <==> k in ks
    ensures forall k :: Get(m, k) == Occ(ks, k)
  {
    if ks == [] then map[]
    else
      var rest := GroupCount(ks[1..]);
      assert forall k :: k in ks <==> k == ks[0] || k in ks[1..];
      rest[ks[0] := Get(rest, ks[0]) + 1]
  }

  /** An element that occurs is a member, and the other way round. */
  lemma {:induction false} OccPositive<K>(ks: seq<K>, k: K)
    ensures Occ(ks, k) > 0 <==> k in ks
  {
    if ks != [] {
      OccPositive(ks[1..], k);
      assert k in ks <==> k == ks[0] || k in ks[1..];
    }
  }

  /** Occurrences of two keys add up to the length when every element is one of them. */
  lemma {:induction false} OccPartition<K>(ks: seq<K>, a: K, b: K)
    requires a != b
    requires forall i :: 0 <= i < |ks| ==> ks[i] == a || ks[i] == b
    ensures Occ(ks, a) + Occ(ks, b) == |ks|
  {
    if ks != [] {
      OccPartition(ks[1..], a, b);
    }
  }

  /**
   * Occurrences of a key among projected rows are the rows whose column is
   * that key; `p` names that test.
   */
  lemma {:induction false} OccProject<T, K>(s: seq<T>, f: T -> K, k: K, p: T -> bool)
    requires forall x :: p(x) <==> f(x) == k
    ensures Occ(Project(s, f), k) == |Filter(s, p)|
  {
    if s != [] {
      OccProject(s[1..], f, k, p);
      assert Project(s, f)[1..] == Project(s[1..], f);
    }
  }

  /** Filtering distributes over concatenation. */
  lemma {:induction false} FilterAppend<T>(s: seq<T>, u: seq<T>, p: T -> bool)
    ensures Filter(s + u, p) == Filter(s, p) + Filter(u, p)
  {
    if s == [] {
      assert s + u == u;
    } else {
      assert (s + u)[1..] == s[1..] + u;
      FilterAppend(s[1..], u, p);
    }
  }

  /** Filtering twice is filtering by the conjunction, which `pq` names. */
  lemma {:induction false} FilterFilter<T>(s: seq<T>, p: T -> bool, q: T -> bool, pq: T -> bool)
    requires forall x :: pq(x) <==> p(x) && q(x)
    ensures Filter(Filter(s, p), q) == Filter(s, pq)
  {
    if s != [] {
      FilterFilter(s[1..], p, q, pq);
      FilterAppend(if p(s[0]) then [s[0]] else [], Filter(s[1..], p), q);
    }
  }

  /** A stronger WHERE clause keeps no more rows for each key. */
  lemma {:induction false} OccMono<T, K>(s: seq<T>, p: T -> bool, q: T -> bool, f: T -> K, k: K)
    requires forall x :: p(x) ==> q(x)
    ensures Occ(Project(Filter(s, p), f), k) <= Occ(Project(Filter(s, q), f), k)
    ensures |Filter(s, p)| <= |Filter(s, q)|
  {
    if s != [] {
      OccMono(s[1..], p, q, f, k);
      var hp := if p(s[0]) then [s[0]] else [];
      var hq := if q(s[0]) then [s[0]] else [];
      ProjectAppend(hp, Filter(s[1..], p), f);
      ProjectAppend(hq, Filter(s[1..], q), f);
      OccAppend(Project(hp, f), Project(Filter(s[1..], p), f), k);
      OccAppend(Project(hq, f), Project(Filter(s[1..], q), f), k);
    }
  }

  lemma {:induction false} ProjectAppend<T, K>(s: seq<T>, u: seq<T>, f: T -> K)
    ensures Project(s + u, f) == Project(s, f) + Project(u, f)
  {
  }

  lemma {:induction false} OccAppend<K>(s: seq<K>, u: seq<K>, k: K)
    ensures Occ(s + u, k) == Occ(s, k) + Occ(u, k)
  {
    if s == [] {
      assert s + u == u;
    } else {
      assert (s + u)[1..] == s[1..] + u;
      OccAppend(s[1..], u, k);
    }
  }

  /** Filters by predicates that agree on every row keep the same rows. */
  lemma {:induction false} FilterExt<T>(s: seq<T>, p: T -> bool, q: T -> bool)
    requires forall x :: p(x) == q(x)
    ensures Filter(s, p) == Filter(s, q)
  {
    if s != [] {
      FilterExt(s[1..], p, q);
    }
  }

  /** Rows failing a filter are dropped: a filter of `s + [x]` with `!p(x)` is that of `s`. */
  lemma FilterSnocFailing<T>(s: seq<T>, x: T, p: T -> bool)
    requires !p(x)
    ensures Filter(s + [x], p) == Filter(s, p)
  {
    FilterAppend(s, [x], p);
    assert Filter([x], p) == [];
  }

  /** A filter keeps exactly the members that satisfy its predicate. */
  lemma {:induction false} FilterMember<T>(s: seq<T>, p: T -> bool, x: T)
    ensures x in Filter(s, p) <==> x in s && p(x)
  {
    if s != [] {
      FilterMember(s[1..], p, x);
      assert x in s <==> x == s[0] || x in s[1..];
    }
  }

  /** A filter keeps the rows in their original relative order. */
  lemma {:induction false} FilterOrdered<T>(s: seq<T>, p: T -> bool, le: (T, T) -> bool)
    requires forall i, j :: 0 <= i < j < |s| ==> le(s[i], s[j])
    ensures forall i, j :: 0 <= i < j < |Filter(s, p)| ==> le(Filter(s, p)[i], Filter(s, p)[j])
  {
    if s != [] {
      var rest := Filter(s[1..], p);
      FilterOrdered(s[1..], p, le);
      if p(s[0]) {
        var r := Filter(s, p);
        assert r == [s[0]] + rest;
        forall i, j | 0 <= i < j < |r|
          ensures le(r[i], r[j])
        {
          if i == 0 {
            assert r[j] == rest[j - 1] && rest[j - 1] in s[1..];
            var k :| 0 <= k < |s[1..]| && s[1..][k] == r[j];
            assert s[k + 1] == r[j];
          } else {
            assert r[i] == rest[i - 1] && r[j] == rest[j - 1];
          }
        }
      }
    }
  }
}
