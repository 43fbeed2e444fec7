/** Which routes may be selected, and which of them is. */
module Selection {
  import opened Common
  import opened SourceOrder
  import opened Rib
  import Feasibility
  import RouteMetric
  import Smoothing
  import SourceHistory
  import Seqno

  /** What the tests on a route depend on, besides the route. `halfLife` is smoothing_half_life; `kernelMetric` and
      `reflect` are kernel_metric and reflect_kernel_metric. */
  datatype Context = Context(now: int, halfLife: int, kernelMetric: nat, reflect: bool,
                             sources: map<Key, SourceHistory.Entry>)

  const KERNEL_INFINITY := 0xFFFF

  /** metric_to_kernel */
  function ToKernel(c: Context, metric: U16): nat {
    if metric >= INFINITY then KERNEL_INFINITY
    else if c.reflect then Min(c.kernelMetric + metric, KERNEL_INFINITY)
    else c.kernelMetric
  }

  /** The metric in the kernel: its infinity for an unreachable route; otherwise kernel_metric, raised by the metric
      of the route if that is reflected, up to infinity. So it never tells two reachable metrics apart unless they are
      reflected, and it does then unless it is infinite. */
  lemma ToKernelExactly(c: Context, metric: U16, other: U16)
    ensures metric >= INFINITY ==> ToKernel(c, metric) == 0xFFFF
    ensures metric < INFINITY && !c.reflect ==> ToKernel(c, metric) == c.kernelMetric
    ensures metric < INFINITY && c.reflect ==>
              if c.kernelMetric + metric >= 0xFFFF then ToKernel(c, metric) == 0xFFFF
              else ToKernel(c, metric) - c.kernelMetric == metric
    ensures metric < INFINITY && other < INFINITY && ToKernel(c, metric) != ToKernel(c, other) ==>
              c.reflect && metric != other
  {
  }

  /** route_feasible */
  predicate Feasible(c: Context, r: Route)
    requires r.src in c.sources
  {
    var e := c.sources[r.src];
    Feasibility.UpdateFeasible(SourceHistory.Stale(e.time, c.now), e.seqno, e.metric, r.seqno, r.refmetric)
  }

  /** route_expired */
  predicate Expired(c: Context, r: Route) { r.time < c.now - r.holdTime }

  /** route_acceptable */
  predicate Acceptable(c: Context, r: Route, feasible: bool, exclude: Option<nat>)
    requires r.src in c.sources
  {
    !Expired(c, r) && (feasible ==> Feasible(c, r)) && exclude != Some(r.neigh)
  }

  /** route_smoothed_metric, once the smoothed metric has been brought to the current second. */
  function Smoothed(c: Context, r: Route): U16 {
    Smoothing.AtOnce(c.halfLife, r.Metric(), r.smoothed)
  }

  /** The candidates of find_best_route. */
  ghost function Candidates(c: Context, all: set<Route>, key: Key, feasible: bool, exclude: Option<nat>): set<Route>
    requires Known(c.sources.Keys, all)
  {
    set r | r in all && SamePairAs(r, key) && Acceptable(c, r, feasible, exclude)
  }

  predicate SamePairAs(r: Route, key: Key) { RouteOrder.SamePair(r.src, key) }

  ghost predicate IsBest(c: Context, r: Route, candidates: set<Route>) {
    r in candidates && forall x :: x in candidates ==> Smoothed(c, r) <= Smoothed(c, x)
  }

  /** The best route has not expired, is feasible if that is asked for, and not through the neighbour to be avoided; no
      other such route is smoother, and there is one if any is like that. */
  lemma BestMeans(c: Context, all: set<Route>, key: Key, feasible: bool, exclude: Option<nat>, best: Option<Route>)
    requires Known(c.sources.Keys, all)
    requires var candidates := Candidates(c, all, key, feasible, exclude);
             if best == None then candidates == {} else IsBest(c, best.value, candidates)
    ensures best.Some? ==>
              && best.value in all && RouteOrder.SamePair(best.value.src, key) && best.value.src in c.sources
              && best.value.time + best.value.holdTime >= c.now
              && (feasible ==> Feasible(c, best.value)) && exclude != Some(best.value.neigh)
    ensures forall r :: r in all && RouteOrder.SamePair(r.src, key) && r.time + r.holdTime >= c.now
                        && exclude != Some(r.neigh) ==>
              r.src in c.sources
              && (!feasible || Feasible(c, r) ==> best.Some? && Smoothed(c, best.value) <= Smoothed(c, r))
  {
    hide Smoothed, Feasible;
    forall r | r in all && RouteOrder.SamePair(r.src, key) && r.time + r.holdTime >= c.now && exclude != Some(r.neigh)
               && (!feasible || Feasible(c, r))
      ensures best.Some? && Smoothed(c, best.value) <= Smoothed(c, r)
    {
      assert r in Candidates(c, all, key, feasible, exclude);
    }
  }

  ghost predicate Known(sources: set<Key>, all: set<Route>) {
    forall r :: r in all ==> r.src in sources
  }

  /** The outcome of looking for a feasible route. */
  ghost predicate BestLeft(c: Context, all: set<Route>, key: Key, best: Option<Route>)
    requires Known(c.sources.Keys, all)
  {
    var candidates := Candidates(c, all, key, true, None);
    if best == None then candidates == {} else IsBest(c, best.value, candidates)
  }

  /** consider_route: `r` replaces what is installed for its prefix pair, if anything is. `shadowed` says that we
      originate the prefix ourselves. */
  predicate Preferred(c: Context, r: Route, installed: Option<Route>, shadowed: bool)
    requires r.src in c.sources
  {
    && !r.installed && Feasible(c, r) && !shadowed
    && match installed
       case None => true
       case Some(cur) =>
         && r.Metric() < INFINITY
         && (|| cur.Metric() >= INFINITY
             || (cur.Metric() >= r.Metric() && Smoothed(c, cur) > Smoothed(c, r)))
  }

  /** In terms of the metrics: a route that may be installed at all is so if nothing else is; or if it is reachable, and
      what is installed is unreachable, or no cheaper and strictly less smooth. */
  lemma PreferredMeans(c: Context, r: Route, cur: Route, shadowed: bool)
    requires r.src in c.sources
    ensures Preferred(c, r, None, shadowed) <==> !r.installed && Feasible(c, r) && !shadowed
    ensures Preferred(c, r, Some(cur), shadowed) <==>
              && Preferred(c, r, None, shadowed) && r.Metric() < INFINITY
              && (cur.Metric() < INFINITY ==> r.Metric() <= cur.Metric() && Smoothed(c, r) < Smoothed(c, cur))
  {
  }

  /** The feasibility test means: strictly better than the distance of the source, unless that is stale. */
  lemma FeasibleMeans(c: Context, r: Route, d: Feasibility.Distance, seqno: int)
    requires r.src in c.sources && -0x8000 < seqno - d.seqno < 0x8000
    requires var e := c.sources[r.src]; e.seqno == Seqno.Wire(d.seqno) && e.metric == d.metric
    requires r.seqno == Seqno.Wire(seqno)
    ensures Feasible(c, r) <==>
              || c.sources[r.src].time + SourceHistory.SOURCE_GC_TIME < c.now
              || r.refmetric == INFINITY
              || Feasibility.Better(Feasibility.Distance(seqno, r.refmetric), d)
  {
    Seqno.CompareInWindow(seqno, d.seqno);
    Seqno.CompareInWindow(d.seqno, seqno);
  }

  /** The same for an update, which is feasible if its source is not known. */
  lemma WelcomeMeans(c: Context, n: News, r: Route)
    requires r.src == n.src && r.seqno == n.seqno && r.refmetric == n.refmetric
    ensures Welcome(c, n) <==> n.src !in c.sources || Feasible(c, r)
  {
  }

  /** A smoothed metric is that of the route, or was before and is at least 4 away; without smoothing, and for
      unreachable routes, it is the metric. */
  lemma SmoothedMeans(c: Context, r: Route)
    ensures Smoothed(c, r) != r.Metric() ==>
              && Smoothed(c, r) == r.smoothed && c.halfLife > 0 && r.Metric() < INFINITY
              && (r.smoothed - r.Metric() >= 4 || r.Metric() - r.smoothed >= 4)
    ensures Smoothed(c, r) == r.Metric() ==>
              c.halfLife <= 0 || r.Metric() >= INFINITY || -4 < r.smoothed - r.Metric() < 4
  {
  }

  /** A route that has just been learned starts half way to infinity: with smoothing on, it does not displace a
      reachable one that is smoother than that, whatever its metric. */
  lemma LearnedIsHeldBack(c: Context, l: Route, cur: Route, shadowed: bool)
    requires l.src in c.sources && c.halfLife > 0 && exists n :: NewRoute(c, n, l)
    requires cur.Metric() < INFINITY && Smoothed(c, cur) <= INFINITY / 2 - 3
    ensures !Preferred(c, l, Some(cur), shadowed)
  {
  }

  ghost predicate IsInstalled(all: set<Route>, key: Key, installed: Option<Route>) {
    match installed
    case None => forall r :: r in all && SamePairAs(r, key) ==> !r.installed
    case Some(r) => r in all && SamePairAs(r, key) && r.installed
  }

  /** A switch never makes the metric in use worse, unless nothing reachable was in use; and two switches between
      the same pair of routes at the same metrics cannot follow one another: the order is strict. */
  lemma SwitchImproves(c: Context, r: Route, cur: Route)
    requires r.src in c.sources && cur.src in c.sources
    ensures Preferred(c, r, Some(cur), false) && cur.Metric() < INFINITY ==> r.Metric() <= cur.Metric()
    ensures Preferred(c, r, Some(cur), false) ==>
              !Preferred(c, cur.(installed := false), Some(r.(installed := true)), false)
  {
  }

  /** change_route_metric, once the kernel agrees. */
  function Recosted(c: Context, r: Route, refmetric: U16, cost: U16, add: U16): Route {
    r.(refmetric := refmetric, cost := cost, add := add,
       smoothed := if c.halfLife == 0 then RouteMetric.Metric(refmetric, cost, add) else Smoothed(c, r))
  }

  // ---- what a selection does

  /** What was installed for the prefix pair, what is offered instead, whether the kernel is asked for it, and whether
      it agrees. */
  datatype Outcome = Outcome(cur: Option<Route>, other: Option<Route>, asked: bool, ok: bool)

  const UNASKED := Outcome(None, None, false, false)

  /** What route_changed offers: the best feasible route if the changed one is installed, the changed one itself if it
      is not. `cur` is what is installed for the prefix pair. */
  ghost predicate Offers(c: Context, all: set<Route>, r: Route, cur: Option<Route>, other: Option<Route>)
    requires Known(c.sources.Keys, all)
  {
    && IsInstalled(all, r.src, cur)
    && (other.Some? ==> other.value.src in c.sources)
    && if r.installed then cur == Some(r) && BestLeft(c, all, r.src, other) else other == Some(r)
  }

  /** Whether what is offered takes over, should the kernel agree. */
  ghost predicate Wins(c: Context, r: Route, cur: Option<Route>, other: Option<Route>, shadowed: bool)
    requires other.Some? ==> other.value.src in c.sources
  {
    && other.Some? && (r.installed ==> other.value.Metric() < r.Metric())
    && Preferred(c, other.value, cur, shadowed)
  }

  /** The routes after route_changed and, if `lost` says that the installed route was given up for `r`, route_lost:
      then the best feasible route is offered. They change exactly if what is offered takes over and the kernel
      agrees. */
  ghost predicate Reselected(c: Context, all: set<Route>, r: Route, lost: bool, shadowed: bool, o: Outcome,
                             after: set<Route>)
  {
    && r in all && Known(c.sources.Keys, all) && (o.other.Some? ==> o.other.value.src in c.sources)
    && (if lost
        then IsInstalled(all, r.src, None) && BestLeft(c, all, r.src, o.other)
             && (o.asked <==> o.other.Some? && !shadowed)
        else Offers(c, all, r, o.cur, o.other) && (o.asked <==> Wins(c, r, o.cur, o.other, shadowed)))
    && (o.ok ==> o.asked && o.other.Some?)
    && after == if o.ok then Switched(all, o.other.value) else all
  }

  /** Selection changes nothing about other prefix pairs. If something was installed for this one, something still is;
      and with a metric that is no worse, unless nothing reachable was. */
  lemma SelectionKeeps(c: Context, t: seq<Slot>, r: Route, lost: bool, shadowed: bool, o: Outcome, after: set<Route>)
    requires TableOk(t) && Reselected(c, Routes(t), r, lost, shadowed, o, after)
    ensures forall x :: !SameSlot(x, r) ==> (x in after <==> x in Routes(t))
    ensures lost && o.ok ==> IsInstalled(after, r.src, Some(o.other.value.(installed := true)))
    ensures !lost && o.cur.Some? ==>
              exists x :: IsInstalled(after, r.src, Some(x))
                          && (o.cur.value.Metric() < INFINITY ==> x.Metric() <= o.cur.value.Metric())
  {
    hide TableOk;
    if o.ok {
      var x := o.other.value.(installed := true);
      assert IsInstalled(after, r.src, Some(x));
    } else if !lost && o.cur.Some? {
      assert IsInstalled(after, r.src, Some(o.cur.value));
    }
  }

  // ---- the routes, flags aside

  ghost function Bare(all: set<Route>): set<Route> {
    set r | r in all :: r.(installed := false)
  }

  lemma BareSwitched(all: set<Route>, r: Route)
    ensures Bare(Switched(all, r)) == Bare(all)
  {
  }

  lemma BareWith(all: set<Route>, r: Route)
    ensures Bare(all + {r}) == Bare(all) + {r.(installed := false)}
  {
  }

  lemma BareWithout(t: seq<Slot>, r: Route)
    requires TableOk(t) && r in Routes(t)
    ensures Bare(Routes(t) - {r}) == Bare(Routes(t)) - {r.(installed := false)}
    ensures r.(installed := false) in Bare(Routes(t))
  {
    forall x | x in Routes(t) && x.(installed := false) == r.(installed := false) ensures x == r {
      RoutesApart(t, x, r);
    }
    OnlyBare(Routes(t), r);
  }

  lemma OnlyBare(all: set<Route>, r: Route)
    requires r in all && forall x :: x in all && x.(installed := false) == r.(installed := false) ==> x == r
    ensures Bare(all - {r}) == Bare(all) - {r.(installed := false)}
  {
  }

  /** The routes that point to a source. */
  ghost function RoutesOf(all: set<Route>, key: Key): set<Route> {
    set r | r in all && r.src == key
  }

  lemma CountWithout(all: set<Route>, r: Route, key: Key)
    requires r in all
    ensures |RoutesOf(all - {r}, key)| == |RoutesOf(all, key)| - if r.src == key then 1 else 0
  {
    if r.src == key {
      assert RoutesOf(all - {r}, key) == RoutesOf(all, key) - {r};
    } else {
      assert RoutesOf(all - {r}, key) == RoutesOf(all, key);
    }
  }

  lemma CountWith(all: set<Route>, r: Route, key: Key)
    requires r !in all
    ensures |RoutesOf(all + {r}, key)| == |RoutesOf(all, key)| + if r.src == key then 1 else 0
  {
    assert all + {r} - {r} == all;
    CountWithout(all + {r}, r, key);
  }

  /** Each count is the number of routes that point to the source. */
  ghost predicate CountsRoutes(counts: map<Key, nat>, all: set<Route>) {
    forall k :: k in counts ==> counts[k] == |RoutesOf(all, k)|
  }

  /** One route too many is counted for the source. */
  ghost predicate OneTooMany(counts: map<Key, nat>, all: set<Route>, key: Key) {
    key in counts && counts[key] > 0 && CountsRoutes(counts[key := counts[key] - 1], all)
  }

  /** A source is counted exactly when a route points to it. */
  lemma CountedExactly(counts: map<Key, nat>, all: set<Route>, key: Key)
    requires CountsRoutes(counts, all) && key in counts
    ensures counts[key] > 0 <==> exists r :: r in all && r.src == key
  {
    if r :| r in all && r.src == key {
      assert r in RoutesOf(all, key);
    }
    if counts[key] > 0 {
      var r :| r in RoutesOf(all, key);
    }
  }

  lemma Released(counts: map<Key, nat>, all: set<Route>, r: Route)
    requires CountsRoutes(counts, all) && r in all && r.src in counts
    ensures counts[r.src] > 0 && CountsRoutes(counts[r.src := counts[r.src] - 1], all - {r})
  {
    CountWithout(all, r, r.src);
    hide RoutesOf;
    forall k | k in counts ensures |RoutesOf(all - {r}, k)| == counts[k] - if k == r.src then 1 else 0 {
      CountWithout(all, r, k);
    }
  }

  lemma Retained(counts: map<Key, nat>, all: set<Route>, r: Route)
    requires CountsRoutes(counts, all) && r !in all && r.src in counts
    ensures CountsRoutes(counts[r.src := counts[r.src] + 1], all + {r})
  {
    hide RoutesOf;
    forall k | k in counts ensures |RoutesOf(all + {r}, k)| == counts[k] + if k == r.src then 1 else 0 {
      CountWith(all, r, k);
    }
  }

  // ---- flushing

  ghost predicate NoMatch(s: Slot, matches: (nat, seq<U8>) -> bool) {
    forall r :: r in s ==> !matches(r.neigh, r.nexthop)
  }

  ghost function Unmatched(all: set<Route>, matches: (nat, seq<U8>) -> bool): set<Route> {
    set r | r in all && !matches(r.neigh, r.nexthop)
  }

  /** Nothing was added, and only matching routes are gone. */
  ghost predicate OnlyMatchingGone(before: set<Route>, all: set<Route>, matches: (nat, seq<U8>) -> bool) {
    all <= before && forall r :: r in before - all ==> matches(r.neigh, r.nexthop)
  }

  lemma OneMoreGone(before: set<Route>, all: set<Route>, r: Route, matches: (nat, seq<U8>) -> bool)
    requires OnlyMatchingGone(before, all, matches) && r in all && matches(r.neigh, r.nexthop)
    ensures OnlyMatchingGone(before, all - {r}, matches) && |all - {r}| < |all|
  {
  }

  lemma AllMatchingGone(before: set<Route>, t: seq<Slot>, matches: (nat, seq<U8>) -> bool)
    requires OnlyMatchingGone(before, Bare(Routes(t)), matches)
    requires forall k :: 0 <= k < |t| ==> NoMatch(t[k], matches)
    ensures Bare(Routes(t)) == Unmatched(before, matches)
  {
  }

  /** A route gives way to another of the same neighbour and next hop. */
  lemma BareReplaced(t: seq<Slot>, r: Route, s: Route)
    requires TableOk(t) && r in Routes(t)
    ensures Bare(Routes(t) - {r} + {s}) == Bare(Routes(t)) - {r.(installed := false)} + {s.(installed := false)}
    ensures r.(installed := false) in Bare(Routes(t))
  {
    BareWithout(t, r);
    BareWith(Routes(t) - {r}, s);
  }

  lemma BareSame(t: seq<Slot>, r: Route)
    requires TableOk(t) && r in Routes(t)
    ensures Bare(Routes(t) - {r} + {r.(installed := false)}) == Bare(Routes(t))
  {
  }

  // ---- updates

  /** What an update says about the route through a neighbour. `keep` is the flag keep_unfeasible. */
  datatype News = News(src: Key, seqno: U16, refmetric: U16, cost: U16, add: U16, holdTime: U16, keep: bool)

  /** update_feasible; an update about a source that is not known is feasible. */
  predicate Welcome(c: Context, n: News) {
    n.src !in c.sources
    || var e := c.sources[n.src];
       Feasibility.UpdateFeasible(SourceHistory.Stale(e.time, c.now), e.seqno, e.metric, n.seqno, n.refmetric)
  }

  /** What an update about another source that is not feasible does to the route it is about. */
  predicate Unwanted(c: Context, r: Route, n: News) { !Welcome(c, n) && n.src != r.src }

  /** `s` is what an update makes of a route, flags aside. The metric is the new one unless the kernel refused it, and
      it is asked only if the route is installed and stays so. */
  predicate StoredAs(c: Context, r: Route, s: Route, n: News, accepted: bool) {
    && !s.installed && s.src == n.src && s.seqno == n.seqno && SamePeer(s, r) && s.holdTime == n.holdTime
    && s.time == (if (Welcome(c, n) || n.keep) && n.refmetric < INFINITY then c.now else r.time)
    && (if accepted then s.refmetric == n.refmetric && s.cost == n.cost && s.add == n.add
        else s.refmetric == r.refmetric && s.cost == r.cost && s.add == r.add)
    && (!accepted ==> r.installed && !Unwanted(c, r, n) && Asks(c, r, n))
  }

  /** change_route_metric asks the kernel if its metric differs. */
  predicate Asks(c: Context, r: Route, n: News) {
    ToKernel(c, r.Metric()) != ToKernel(c, RouteMetric.Metric(n.refmetric, n.cost, n.add))
  }

  /** What an update makes of the route it is about. `accepted` is the kernel's answer to the new metric. */
  function Refreshed(c: Context, r: Route, n: News, accepted: bool): (s: Route) {
    var renew := (Welcome(c, n) || n.keep) && n.refmetric < INFINITY;
    var next := r.(src := n.src, seqno := n.seqno, time := if renew then c.now else r.time);
    (if accepted then Recosted(c, next, n.refmetric, n.cost, n.add) else next).(holdTime := n.holdTime)
  }

  /** The route as it is when selection runs: uninstalled first if the update is unwanted. */
  function InPlace(c: Context, r: Route, n: News, accepted: bool): Route {
    Refreshed(c, if Unwanted(c, r, n) then r.(installed := false) else r, n, accepted)
  }

  /** The routes after update_route for a route that is known. */
  ghost predicate Updated(c: Context, all: set<Route>, r: Route, n: News, accepted: bool, shadowed: bool, o: Outcome,
                          after: set<Route>)
  {
    var next := InPlace(c, r, n, accepted);
    Reselected(c, all - {r} + {next}, next, Unwanted(c, r, n) && r.installed, shadowed, o, after)
  }

  /** Once find_source has created the source of an update. */
  function Introduced(c: Context, n: News): Context {
    c.(sources := if n.src in c.sources then c.sources
                  else c.sources[n.src := SourceHistory.Entry(n.seqno, INFINITY, c.now)])
  }

  /** For another key of the same prefix pair. */
  lemma SameKey(c: Context, all: set<Route>, a: Key, b: Key, best: Option<Route>)
    requires RouteOrder.SamePair(a, b) && Known(c.sources.Keys, all)
    ensures BestLeft(c, all, a, best) <==> BestLeft(c, all, b, best)
    ensures IsInstalled(all, a, None) <==> IsInstalled(all, b, None)
    ensures BestLeft(c, all, a, best) && best.Some? ==> best.value.src in c.sources
  {
    hide Acceptable;
    assert Candidates(c, all, a, true, None) == Candidates(c, all, b, true, None);
  }

  /** A metric that the kernel does not see changed, or a route that it does not have, is never refused. */
  lemma NeverRefused(c: Context, r: Route, s: Route, n: News, accepted: bool)
    requires StoredAs(c, r, s, n, accepted)
    ensures !r.installed || ToKernel(c, r.Metric()) == ToKernel(c, Min(n.refmetric + n.cost + n.add, INFINITY)) ==>
              accepted
  {
  }

  /** The route that a first update creates: all that was announced and the cost of the link, heard now, not
      installed, and with a smoothed metric half way to infinity, or its metric if that is more. */
  predicate NewRoute(c: Context, n: News, l: Route) {
    && l.src == n.src && l.seqno == n.seqno && l.refmetric == n.refmetric && l.cost == n.cost && l.add == n.add
    && l.time == c.now && l.holdTime == n.holdTime && !l.installed
    && l.smoothed >= l.Metric() && l.smoothed >= 0x7FFF && (l.smoothed == l.Metric() || l.smoothed == 0x7FFF)
  }

  /** It is dearer than what its neighbour pays, if the link costs anything and it is reachable. */
  lemma NewRouteIsDearer(c: Context, n: News, l: Route)
    requires NewRoute(c, n, l) && n.cost >= 1 && l.Metric() < INFINITY
    ensures l.Metric() > n.refmetric && l.Metric() == n.refmetric + n.cost + n.add
  {
  }

  /** The route for a prefix pair through a neighbour and next hop, if there is one. */
  ghost predicate IsRoute(all: set<Route>, key: Key, neigh: nat, nexthop: seq<U8>, found: Option<Route>) {
    match found
    case Some(r) => r in all && SamePairAs(r, key) && r.neigh == neigh && r.nexthop == nexthop
    case None => forall r :: r in all && SamePairAs(r, key) ==> r.neigh != neigh || r.nexthop != nexthop
  }

  /** The routes other than the one of a prefix pair, neighbour and next hop. */
  ghost function Others(all: set<Route>, r: Route): set<Route> {
    set x | x in all && !(SameSlot(x, r) && SamePeer(x, r))
  }

  /** A route moves to another source: the new one is retained first, the old one released last. */
  lemma MovedCounts(counts: map<Key, nat>, retained: map<Key, nat>, all: set<Route>, r: Route, s: Route)
    requires CountsRoutes(counts, all) && r in all && s !in all - {r} && r.src in counts && s.src in counts
    requires retained == counts[s.src := counts[s.src] + 1]
    ensures retained[r.src] > 0 && CountsRoutes(retained[r.src := retained[r.src] - 1], all - {r} + {s})
  {
    CountWithout(all, r, r.src);
    hide RoutesOf;
    forall k | k in counts
      ensures |RoutesOf(all - {r} + {s}, k)|
              == counts[k] - (if k == r.src then 1 else 0) + (if k == s.src then 1 else 0)
    {
      CountWithout(all, r, k);
      CountWith(all - {r}, s, k);
    }
  }

  /** An unfeasible route is not what another search finds, so it is not installed by it. */
  lemma NotSwitchedTo(c: Context, t: seq<Slot>, r: Route, best: Route, key: Key)
    requires TableOk(t) && r in Routes(t) && Known(c.sources.Keys, Routes(t)) && !Feasible(c, r) && !r.installed
    requires BestLeft(c, Routes(t), key, Some(best))
    ensures r.(installed := true) !in Switched(Routes(t), best)
  {
    hide TableOk, Routes;
    forall x | x in Routes(t) && x.(installed := true) == r.(installed := true) ensures x == r {
      RoutesApart(t, x, r);
    }
  }

  /** An unfeasible route that is not installed stays so. */
  lemma StaysOut(c: Context, t: seq<Slot>, r: Route, lost: bool, shadowed: bool, o: Outcome, after: set<Route>)
    requires TableOk(t) && Reselected(c, Routes(t), r, lost, shadowed, o, after)
    requires r.src in c.sources && !Feasible(c, r) && !r.installed
    ensures r.(installed := true) !in after
  {
    hide TableOk, Routes, Candidates, Feasible;
    if !o.ok {
      if x :| x in Routes(t) && x == r.(installed := true) {
        RoutesApart(t, x, r);
      }
    } else if lost {
      NotSwitchedTo(c, t, r, o.other.value, r.src);
    } else {
      assert false;
    }
  }

  /** `s` is there in the place of the route of its prefix pair, neighbour and next hop, if there was one. */
  ghost predicate Replaces(before: set<Route>, after: set<Route>, s: Route) {
    s in after && after - {s} == Others(before, s)
  }

  lemma ReplacesExactly(t: seq<Slot>, r: Route, s: Route)
    requires TableOk(t) && r in Routes(t) && SameSlot(s, r) && SamePeer(s, r) && !s.installed
    ensures Replaces(Bare(Routes(t)), Bare(Routes(t)) - {r.(installed := false)} + {s}, s)
    ensures s !in Bare(Routes(t)) - {r.(installed := false)} && r.(installed := false) in Bare(Routes(t))
  {
    hide TableOk, Routes;
    forall x | x in Routes(t) && SameSlot(x, s) && SamePeer(x, s) ensures x == r {
      RoutesApart(t, x, r);
    }
  }

  // ---- streams

  predicate Streamed(r: Route, specificOnly: bool) {
    r.installed && (specificOnly ==> r.src.srcPlen > 0)
  }

  /** What a stream of installed routes yields from the first `n` slots: the heads of the lists, in order. */
  function Heads(t: seq<Slot>, n: nat, specificOnly: bool): seq<Route>
    requires n <= |t|
  {
    if n == 0 then []
    else
      var s, before := t[n - 1], Heads(t, n - 1, specificOnly);
      if s != [] && Streamed(s[0], specificOnly) then before + [s[0]] else before
  }

  lemma {:induction false} HeadsIn(t: seq<Slot>, n: nat, r: Route, specificOnly: bool)
    requires TableOk(t) && n <= |t|
    ensures r in Heads(t, n, specificOnly) <==>
              Streamed(r, specificOnly) && exists k :: 0 <= k < n && r in t[k]
  {
    hide TableOk;
    if n > 0 {
      HeadsIn(t, n - 1, r, specificOnly);
      HeadOfSlot(t, n - 1, r, specificOnly);
      if k :| 0 <= k < n && r in t[k] {
        assert k == n - 1 || 0 <= k < n - 1;
      }
    }
  }

  lemma HeadOfSlot(t: seq<Slot>, k: nat, r: Route, specificOnly: bool)
    requires TableOk(t) && k < |t|
    ensures t[k] != [] && (Streamed(r, specificOnly) ==> (r in t[k] <==> r == t[k][0]))
  {
  }

  lemma {:induction false} HeadsApart(t: seq<Slot>, n: nat, specificOnly: bool)
    requires TableOk(t) && n <= |t|
    ensures forall i, j :: 0 <= i < j < |Heads(t, n, specificOnly)| ==>
              !SameSlot(Heads(t, n, specificOnly)[i], Heads(t, n, specificOnly)[j])
  {
    hide TableOk, SameSlot;
    if n > 0 {
      HeadsApart(t, n - 1, specificOnly);
      var before := Heads(t, n - 1, specificOnly);
      forall i | 0 <= i < |before| ensures t[n - 1] != [] && !SameSlot(before[i], t[n - 1][0]) {
        HeadElsewhere(t, n - 1, before[i], specificOnly);
      }
    }
  }

  lemma HeadElsewhere(t: seq<Slot>, n: nat, r: Route, specificOnly: bool)
    requires TableOk(t) && n < |t| && r in Heads(t, n, specificOnly)
    ensures t[n] != [] && !SameSlot(r, t[n][0])
  {
    HeadsIn(t, n, r, specificOnly);
    var k :| 0 <= k < n && r in t[k];
    SlotsApart(t, k, n, r, t[n][0]);
  }

  /** A stream yields each installed route it is about exactly once. */
  lemma StreamsExactly(t: seq<Slot>, specificOnly: bool)
    requires TableOk(t)
    ensures forall r :: r in Heads(t, |t|, specificOnly) <==> r in Routes(t) && Streamed(r, specificOnly)
    ensures forall i, j :: 0 <= i < j < |Heads(t, |t|, specificOnly)| ==>
              !SameSlot(Heads(t, |t|, specificOnly)[i], Heads(t, |t|, specificOnly)[j])
  {
    HeadsApart(t, |t|, specificOnly);
    forall r ensures r in Heads(t, |t|, specificOnly) <==> r in Routes(t) && Streamed(r, specificOnly) {
      HeadsIn(t, |t|, r, specificOnly);
      SomewhereIsIn(t, r);
    }
  }

  lemma SomewhereIsIn(t: seq<Slot>, r: Route)
    ensures r in Routes(t) <==> exists k :: 0 <= k < |t| && r in t[k]
  {
  }

  lemma SpecificBefore(t: seq<Slot>, i: nat, j: nat)
    requires TableOk(t) && i <= j < |t| && t[i] != [] && t[i][0].src.srcPlen == 0
    ensures t[j] != [] && t[j][0].src.srcPlen == 0
  {
  }

  /** Behind the first slot without a source prefix there is no source-specific one. */
  lemma {:induction false} NoneBehind(t: seq<Slot>, i: nat, n: nat)
    requires TableOk(t) && i < |t| && t[i] != [] && t[i][0].src.srcPlen == 0 && i <= n <= |t|
    ensures Heads(t, n, true) == Heads(t, i, true)
  {
    hide TableOk;
    if n > i {
      NoneBehind(t, i, n - 1);
      SpecificBefore(t, i, n - 1);
    }
  }
}
