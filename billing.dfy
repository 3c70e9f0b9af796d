/**
 * "Billing vs auto-renew disables": the 12-month ON rows with both ends
 * and a billing amount, the rows kept by `days_before_renewal >= 0`, the
 * count of kept rows per rounded billing amount in ascending order, and the
 * 0 to 8 EUR zoom of that result.
 */
module Billing {
  import opened Wrappers
  import opened Groups
  import opened Records
  import opened Histogram
  import opened CohortSummary

  /** Lowest billing amount of the zoomed chart. */
  const ZoomLow := 0

  /** Highest billing amount of the zoomed chart. */
  const ZoomHigh := 8

  /** The `df_filtered` conditions: 12-month plan, auto-renew ON, both ends and a billing amount present. */
  predicate BillingWhere(r: Record)
  {
    PeriodIs(r, 12) && r.isAutoRenew && HasBothEnds(r) && r.billingBin.Some?
  }

  /** `(ar_valid_to - ended_at).dt.days`, for a row with both ends. */
  function DaysBeforeRenewal(r: Record): int
    requires HasBothEnds(r)
  {
    TimedeltaDays(r.arValidTo.value, r.endedAt.value)
  }

  /** `early_disables`: the `df_filtered` rows with `days_before_renewal >= 0`. */
  predicate KeptForBilling(r: Record)
  {
    BillingWhere(r) && DaysBeforeRenewal(r) >= 0
  }

  /**
   * A row is kept exactly when auto-renew ran until the subscription ended or
   * later; such a row is never one the cohort summary counts as an early
   * disable.
   */
  lemma KeptMeansNotEarly(r: Record)
    ensures KeptForBilling(r) <==> BillingWhere(r) && r.arValidTo.value >= r.endedAt.value
    ensures KeptForBilling(r) ==> !EarlyDisableFilter(r) && !EndsEarly(r)
  {
  }

  /** The `billing_bin` of a row (the rounded `billings_eur_excl_vat`). */
  function BillingBinOf(r: Record): Key
  {
    r.billingBin
  }

  /** `early_disables['billing_bin']`. */
  function BillingKeys(t: seq<Record>): seq<Key>
  {
    Project(Filter(t, KeptForBilling), BillingBinOf)
  }

  /** `billing_counts`: `value_counts().sort_index()` of the billing bins. */
  function BillingCounts(t: seq<Record>): seq<Bucket>
  {
    Build(BillingKeys(t))
  }

  /**
   * The billing counts are in ascending order of amount, hold for each amount
   * the number of kept rows with that amount, have no NULL amount, and add up
   * to the number of kept rows.
   */
  lemma BillingHistogram(t: seq<Record>)
    ensures Ascending(BillingCounts(t))
    ensures forall x :: CountOf(BillingCounts(t), x) == Occ(BillingKeys(t), x)
    ensures CountOf(BillingCounts(t), None) == 0
    ensures SumCounts(BillingCounts(t)) == |Filter(t, KeptForBilling)|
  {
    OccPositive(BillingKeys(t), None);
  }

  /** Whether a billing amount is on the zoomed chart (`0 <= index <= 8`; NaN compares false). */
  predicate InZoom(k: Key)
  {
    k.Some? && ZoomLow <= k.value <= ZoomHigh
  }

  predicate BucketInZoom(b: Bucket)
  {
    InZoom(b.key)
  }

  /** `billing_zoom`: the rows of the billing counts whose amount is between 0 and 8. */
  function Zoom(h: seq<Bucket>): seq<Bucket>
  {
    Filter(h, BucketInZoom)
  }

  /** The zoom holds each in-range amount's count and nothing for any other amount. */
  lemma {:induction false} ZoomCount(h: seq<Bucket>, k: Key)
    ensures CountOf(Zoom(h), k) == if InZoom(k) then CountOf(h, k) else 0
  {
    if h != [] {
      ZoomCount(h[1..], k);
      var rest := Zoom(h[1..]);
      if BucketInZoom(h[0]) {
        assert Zoom(h) == [h[0]] + rest;
        assert ([h[0]] + rest)[1..] == rest;
      } else {
        assert Zoom(h) == rest;
      }
    }
  }

  function KeyBefore(a: Bucket, b: Bucket): bool
  {
    KeyLess(a.key, b.key)
  }

  /**
   * The zoom of the billing counts stays in ascending order, and for every
   * amount from 0 to 8 holds the number of kept rows with that amount.
   */
  lemma ZoomedBilling(t: seq<Record>)
    ensures Ascending(Zoom(BillingCounts(t)))
    ensures forall b :: 0 <= b < |Zoom(BillingCounts(t))| ==> InZoom(Zoom(BillingCounts(t))[b].key)
    ensures forall x :: ZoomLow <= x <= ZoomHigh ==> CountOf(Zoom(BillingCounts(t)), Some(x)) == Occ(BillingKeys(t), Some(x))
  {
    var h := BillingCounts(t);
    BillingHistogram(t);
    FilterOrdered(h, BucketInZoom, KeyBefore);
    var z := Zoom(h);
    assert forall i, j :: 0 <= i < j < |z| ==> KeyBefore(z[i], z[j]);
    forall x | ZoomLow <= x <= ZoomHigh
      ensures CountOf(z, Some(x)) == Occ(BillingKeys(t), Some(x))
    {
      ZoomCount(h, Some(x));
    }
  }
}
