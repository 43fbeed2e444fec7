/** The feasibility condition (section 3.5.1 of RFC 6126) as babeld computes it on wire values, and its
    meaning on sequence numbers that never wrap. */
module Feasibility {
  import opened Common
  import Seqno

  /** A feasibility distance with its unbounded sequence number; babeld stores `Wire(seqno)`. */
  datatype Distance = Distance(seqno: int, metric: U16)

  /** update_feasible, for a source that exists: `stale` says the entry outlived SOURCE_GC_TIME. */
  predicate UpdateFeasible(stale: bool, srcSeqno: U16, srcMetric: U16, seqno: U16, refmetric: U16) {
    || stale
    || refmetric >= INFINITY
    || Seqno.Compare(seqno, srcSeqno) > 0
    || (srcSeqno == seqno && refmetric < srcMetric)
  }

  /** The test of update_source: does a finite advertisement replace the stored pair? */
  predicate Supersedes(stale: bool, srcSeqno: U16, srcMetric: U16, seqno: U16, metric: U16) {
    || stale
    || Seqno.Compare(srcSeqno, seqno) < 0
    || (srcSeqno == seqno && srcMetric > metric)
  }

  /** Strictly better: a more recent sequence number, or the same one and a smaller metric. */
  predicate Better(a: Distance, b: Distance) {
    a.seqno > b.seqno || (a.seqno == b.seqno && a.metric < b.metric)
  }

  predicate AtLeast(a: Distance, b: Distance) {
    a == b || Better(a, b)
  }

  predicate Feasible(d: Distance, seqno: int, refmetric: U16) {
    UpdateFeasible(false, Seqno.Wire(d.seqno), d.metric, Seqno.Wire(seqno), refmetric)
  }

  /** The distance recorded after advertising (or hearing from ourselves) a pair. */
  function Advertised(d: Distance, seqno: int, metric: U16): Distance {
    if metric < INFINITY && Supersedes(false, Seqno.Wire(d.seqno), d.metric, Seqno.Wire(seqno), metric)
    then Distance(seqno, metric) else d
  }

  /** Within the sequence number window the wire test is the strict order on distances. */
  lemma FeasibleIsBetter(d: Distance, seqno: int, refmetric: U16)
    requires -0x8000 < seqno - d.seqno < 0x8000
    ensures Feasible(d, seqno, refmetric) <==> refmetric == INFINITY || Better(Distance(seqno, refmetric), d)
  {
  }

  /** Advertising keeps the better of the two pairs. */
  lemma AdvertisedIsBest(d: Distance, seqno: int, metric: U16)
    requires -0x8000 < seqno - d.seqno < 0x8000
    ensures var r := Advertised(d, seqno, metric);
            && AtLeast(r, d)
            && (metric < INFINITY ==> AtLeast(r, Distance(seqno, metric)))
            && (r == d || (metric < INFINITY && r == Distance(seqno, metric)))
  {
    Seqno.CompareInWindow(d.seqno, seqno);
  }
}

/** How the metric of a route is composed from what its neighbour announced (route.h). */
module RouteMetric {
  import opened Common

  function Metric(refmetric: U16, cost: U16, add: U16): U16 {
    Min(refmetric + cost + add, INFINITY)
  }

  /** The announced metric when the outgoing link does not interfere with the incoming one; `factor` is
      diversity_factor, in units of 1/256. */
  function NonInterfering(factor: nat, refmetric: U16, cost: U16, add: U16): U16
  {
    var m := refmetric + (factor * cost + 128) / 256 + add;
    assert factor * cost >= 0;
    Min(Max(m, refmetric + 1), INFINITY)
  }

  /** What loop freedom needs of the metric: a finite metric is worse than the one it was computed from. */
  lemma StrictIncrease(factor: nat, refmetric: U16, cost: U16, add: U16)
    requires cost >= 1
    ensures Metric(refmetric, cost, add) < INFINITY ==> refmetric < Metric(refmetric, cost, add)
    ensures NonInterfering(factor, refmetric, cost, add) < INFINITY
            ==> refmetric < NonInterfering(factor, refmetric, cost, add)
    ensures refmetric == INFINITY
            ==> Metric(refmetric, cost, add) == NonInterfering(factor, refmetric, cost, add) == INFINITY
  {
  }

  /** The metric is the sum, capped. */
  lemma MetricExactly(refmetric: U16, cost: U16, add: U16)
    ensures var m := Metric(refmetric, cost, add);
            && (m < INFINITY ==> m - refmetric - cost - add == 0)
            && (m >= INFINITY <==> refmetric + cost + add >= INFINITY)
  {
  }

  /** Without interference the cost counts for `factor` parts of 256, to the nearest whole number, but the metric
      grows by at least 1: at 256 parts it is the plain metric, if the link costs anything; at none only the filter
      adds to it. */
  lemma NonInterferingExactly(factor: nat, refmetric: U16, cost: U16, add: U16)
    ensures var m := NonInterfering(factor, refmetric, cost, add);
            && (m < INFINITY ==> m > refmetric)
            && (refmetric + 1 < m < INFINITY ==> -128 <= factor * cost - 256 * (m - refmetric - add) < 128)
            && (m == refmetric + 1 && m < INFINITY ==> factor * cost + 256 * add < 256 + 128)
            && (m >= INFINITY ==>
                  refmetric + 1 >= INFINITY || factor * cost + 128 >= 256 * (INFINITY - refmetric - add))
    ensures cost + add >= 1 ==> NonInterfering(256, refmetric, cost, add) == Metric(refmetric, cost, add)
    ensures add >= 1 ==> NonInterfering(0, refmetric, cost, add) == Metric(refmetric, 0, add)
  {
    Positive(factor, cost);
    var product := factor * cost;
    assert 256 * ((product + 128) / 256) <= product + 128 < 256 * ((product + 128) / 256) + 256;
  }

  lemma Positive(a: nat, b: nat)
    ensures a * b >= 0
  {
  }
}
