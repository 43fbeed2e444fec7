/** The route table (route.c) and the operations on it. */
module RouteTable {
  import opened Common
  import opened SourceOrder
  import opened RouteOrder
  import opened Rib
  import opened Selection
  import opened SourceMaps
  import opened Retraction
  import Lex
  import Prefix
  import RouteMetric
  import SourceHistory

  class Table {
    var slots: seq<Slot>
    /** The pairs of the source table, and the route counts. */
    var sources: map<Key, SourceHistory.Entry>
    var counts: map<Key, nat>
    var now: int
    const halfLife: nat
    const kernelMetric: nat
    const reflect: bool
    /** What the kernel answers when it is asked for the n-th time, and how often it was. */
    const answers: nat -> bool
    var asks: nat
    /** The prefix pairs for which find_xroute returns a route that is preferred to any learned one. */
    const xroutes: set<seq<int>>

    ghost predicate Sound()
      reads `slots, `sources, `counts
    {
      TableOk(slots) && sources.Keys == counts.Keys && Known(sources.Keys, All())
    }

    /** Each source counts the routes that point to it. */
    ghost predicate Counted()
      reads `slots, `counts
    {
      CountsRoutes(counts, Bare(All()))
    }

    ghost predicate Valid()
      reads `slots, `sources, `counts
    {
      Sound() && Counted()
    }

    ghost function All(): set<Route>
      reads `slots
    {
      Routes(slots)
    }

    function Ctx(): Context
      reads `sources, `now
    {
      Context(now, halfLife, kernelMetric, reflect, sources)
    }

    predicate Shadowed(key: Key)
      requires key.Valid()
    {
      RouteVector(key) in xroutes
    }

    /** The same where it accepts what it is not asked for: a metric. */
    twostate predicate MetricAnswered(asked: bool, accepted: bool)
      reads `asks
    {
      asks == old(asks) + (if asked then 1 else 0) && accepted == (!asked || answers(old(asks)))
    }

    /** A metric first, and then what selection asks for. */
    twostate predicate BothAnswered(asked: bool, accepted: bool, o: Outcome)
      reads `asks
    {
      var first := if asked then 1 else 0;
      && accepted == (!asked || answers(old(asks))) && o.ok == (o.asked && answers(old(asks) + first))
      && asks == old(asks) + first + (if o.asked then 1 else 0)
    }

    constructor (halfLife: nat, kernelMetric: nat, reflect: bool, xroutes: set<seq<int>>, answers: nat -> bool)
      ensures Valid() && All() == {} && sources == map[] && asks == 0 && this.answers == answers
      ensures this.halfLife == halfLife && this.kernelMetric == kernelMetric && this.reflect == reflect
      ensures this.xroutes == xroutes
    {
      this.slots, this.sources, this.counts, this.asks, this.answers := [], map[], map[], 0, answers;
      this.halfLife, this.kernelMetric, this.reflect, this.xroutes := halfLife, kernelMetric, reflect, xroutes;
    }

    /** find_route_slot: the index of the slot, or -1 and the place where it belongs. */
    method FindRouteSlot(key: Key) returns (i: int, n: int)
      requires TableOk(slots) && key.Valid()
      ensures i >= 0 ==> i < |slots| && SamePair(slots[i][0].src, key)
      ensures i < 0 ==> i == -1 && Lex.Slot(Vectors(slots), ROUTE_WIDTH, RouteVector(key), n)
      ensures i < 0 ==> forall r :: r in All() ==> !SamePairAs(r, key)
    {
      n := 0;
      if |slots| < 1 {
        return -1, 0;
      }
      ghost var vectors := Vectors(slots);
      var p, g := 0, |slots| - 1;
      while p <= g
        invariant 0 <= p <= |slots| && -1 <= g < |slots| && p <= g + 1
        invariant Lex.Between(vectors, ROUTE_WIDTH, RouteVector(key), p, g)
        decreases g - p
      {
        var m := (p + g) / 2;
        var c := RouteCompare(key, slots[m][0].src);
        RouteCompareIsVectorOrder(key, slots[m][0].src);
        SlotIsPair(slots[m][0].src, key);
        assert vectors[m] == SlotVector(slots[m]);
        Lex.Narrow(vectors, ROUTE_WIDTH, RouteVector(key), p, m, g);
        if c == 0 {
          return m, 0;
        } else if c < 0 {
          g := m - 1;
        } else {
          p := m + 1;
        }
      }
      NoSlot(key, p);
      return -1, p;
    }

    lemma NoSlot(key: Key, n: int)
      requires TableOk(slots) && key.Valid() && Lex.Slot(Vectors(slots), ROUTE_WIDTH, RouteVector(key), n)
      ensures forall r :: r in All() ==> !SamePairAs(r, key)
    {
    }

    /** The routes for a prefix pair are those of its slot. */
    lemma InSlot(i: nat)
      requires TableOk(slots) && i < |slots|
      ensures forall r :: r in slots[i] <==> r in All() && SameSlot(r, slots[i][0])
    {
    }

    /** find_route */
    method FindRoute(key: Key, neigh: nat, nexthop: seq<U8>) returns (found: Option<Route>)
      requires TableOk(slots) && key.Valid()
      ensures IsRoute(All(), key, neigh, nexthop, found)
    {
      var i, _ := FindRouteSlot(key);
      if i < 0 {
        return None;
      }
      InSlot(i);
      var j := 0;
      while j < |slots[i]|
        invariant 0 <= j <= |slots[i]|
        invariant forall k :: 0 <= k < j ==> slots[i][k].neigh != neigh || slots[i][k].nexthop != nexthop
      {
        if slots[i][j].neigh == neigh && slots[i][j].nexthop == nexthop {
          return Some(slots[i][j]);
        }
        j := j + 1;
      }
      return None;
    }

    /** find_installed_route */
    method FindInstalledRoute(key: Key) returns (found: Option<Route>)
      requires TableOk(slots) && key.Valid()
      ensures IsInstalled(All(), key, found)
    {
      var i, _ := FindRouteSlot(key);
      if i >= 0 {
        InSlot(i);
        if slots[i][0].installed {
          return Some(slots[i][0]);
        }
      }
      return None;
    }

    /** insert_route */
    method InsertRoute(r: Route)
      requires Sound() && r.src.Valid() && r.src in sources && !r.installed
      requires NewPeer(r)
      modifies `slots
      ensures Sound() && All() == old(All()) + {r}
    {
      var i, n := FindRouteSlot(r.src);
      if i < 0 {
        Inserted(n, r);
        Assign(slots[..n] + [[r]] + slots[n..]);
      } else {
        Appended(i, r);
        Assign(slots[i := slots[i] + [r]]);
      }
    }

    /** The table gives way to another that keeps the invariant. */
    method Assign(t: seq<Slot>)
      requires Sound() && TableOk(t) && Known(sources.Keys, Routes(t))
      modifies `slots
      ensures Sound() && slots == t
    {
      hide TableOk, Known, Routes;
      slots := t;
    }

    lemma Inserted(n: int, r: Route)
      requires Sound() && r.src.Valid() && r.src in sources && !r.installed
      requires Lex.Slot(Vectors(slots), ROUTE_WIDTH, RouteVector(r.src), n)
      ensures var t := slots[..n] + [[r]] + slots[n..];
              TableOk(t) && Routes(t) == All() + {r} && Known(sources.Keys, Routes(t))
    {
      InsertSlot(slots, n, [r]);
      assert SlotRoutes([r]) == {r};
      KnownWith(sources.Keys, All(), r);
    }

    static lemma KnownWith(keys: set<Key>, all: set<Route>, r: Route)
      requires Known(keys, all) && r.src in keys
      ensures Known(keys, all + {r})
    {
    }

    lemma Appended(i: nat, r: Route)
      requires Sound() && i < |slots| && SamePair(slots[i][0].src, r.src) && r.src.Valid() && r.src in sources
      requires !r.installed && NewPeer(r)
      ensures var t := slots[i := slots[i] + [r]];
              TableOk(t) && Routes(t) == All() + {r} && Known(sources.Keys, Routes(t))
    {
      NoPeer(i, r);
      AppendedTable(slots, i, r);
      KnownWith(sources.Keys, All(), r);
    }

    lemma NoPeer(i: nat, r: Route)
      requires TableOk(slots) && i < |slots| && SamePair(slots[i][0].src, r.src) && NewPeer(r)
      ensures forall k :: 0 <= k < |slots[i]| ==> !SamePeer(slots[i][k], r)
    {
      InSlot(i);
    }

    static lemma AppendedTable(t: seq<Slot>, i: nat, r: Route)
      requires TableOk(t) && i < |t| && t[i] != [] && SameSlot(r, t[i][0]) && r.src.Valid() && !r.installed
      requires forall k :: 0 <= k < |t[i]| ==> !SamePeer(t[i][k], r)
      ensures var u := t[i := t[i] + [r]];
              TableOk(u) && Routes(u) == Routes(t) + {r}
    {
      hide TableOk, SlotOk, Routes, SlotRoutes, SameSlot;
      SlotAt(t, i, 0);
      AppendOk(t[i], r);
      ReplaceSlot(t, i, t[i] + [r]);
      SlotWithin(t, i);
    }

    /** The table has no route for the prefix pair from the same neighbour and next hop. */
    ghost predicate NewPeer(r: Route)
      reads `slots
    {
      forall x :: x in All() && SameSlot(x, r) ==> !SamePeer(x, r)
    }

    /** The answer of the kernel to a change of its table. */
    method Kernel() returns (ok: bool)
      modifies `asks
      ensures asks == old(asks) + 1 && ok == answers(old(asks))
    {
      ok := answers(asks);
      asks := asks + 1;
    }

    /** The kernel was asked if `asked` says so, and its answer is `ok`. */
    twostate predicate Answered(asked: bool, ok: bool)
      reads `asks
    {
      asks == old(asks) + (if asked then 1 else 0) && ok == (asked && answers(old(asks)))
    }

    /** The walk along a list to a route. */
    static method Walk(s: Slot, r: Route) returns (j: nat)
      requires r in s
      ensures j < |s| && s[j] == r && r !in s[..j]
    {
      j := 0;
      while s[j] != r
        invariant j < |s| && r in s[j..] && r !in s[..j]
        decreases |s| - j
      {
        assert s[j..] == [s[j]] + s[j + 1..];
        j := j + 1;
      }
    }

    /** move_installed_route: walks to the route, and puts it at the head of its list. */
    method MoveInstalledRoute(r: Route, i: nat) returns (ghost j: nat)
      requires i < |slots| && r in slots[i]
      modifies `slots
      ensures j < |old(slots)[i]| && old(slots)[i][j] == r
      ensures slots == old(slots)[i := [r] + Unlinked(old(slots)[i], j)]
    {
      var s := slots[i];
      var k := Walk(s, r);
      j := k;
      if k == 0 {
        // already at the head
        assert s == [r] + Unlinked(s, 0);
      } else {
        slots := slots[i := [r] + Unlinked(s, k)];
      }
    }

    /** The end of install_route and switch_routes: the flags of the old and the new route, and their order. */
    method Promote(r: Route, i: nat)
      requires Sound() && i < |slots| && r in slots[i]
      modifies `slots
      ensures Sound() && All() == Switched(old(All()), r) && OnlySlot(old(slots), slots, r.src)
      ensures ToFront(old(slots), slots, r)
    {
      hide TableOk, Routes, Switched, OnlySlot, Known, Marked, Promoted, Unlinked, SlotOk;
      ghost var t, s, j := slots, slots[i], 0;
      j :| 0 <= j < |s| && s[j] == r;
      PromotedTable(slots, i, j);
      KnownSwitched(sources.Keys, slots, i, r);
      slots := slots[i := Marked(slots[i], r)];
      assert slots[i] == Marked(s, r) && slots[i][j] == r.(installed := true);
      ghost var m := MoveInstalledRoute(r.(installed := true), i);
      PromotedInSteps(s, j, m);
      assert slots == t[i := Promoted(s, j)];
    }

    static lemma KnownSwitched(keys: set<Key>, t: seq<Slot>, i: nat, r: Route)
      requires TableOk(t) && Known(keys, Routes(t)) && i < |t| && r in t[i]
      ensures Known(keys, Switched(Routes(t), r))
    {
    }

    static lemma PromotedTable(t: seq<Slot>, i: nat, j: nat)
      requires TableOk(t) && i < |t| && j < |t[i]|
      ensures SlotOk(t[i]) && Marked(t[i], t[i][j])[j] == t[i][j].(installed := true)
      ensures var u := t[i := Promoted(t[i], j)];
              TableOk(u) && Routes(u) == Switched(Routes(t), t[i][j]) && OnlySlot(t, u, t[i][j].src)
    {
      SwitchSlot(t, i, j);
      PromotedOk(t[i], j);
      assert SameSlot(t[i][0], t[i][j]);
    }

    /** Something is installed for a prefix pair exactly if the head of its list is. */
    lemma HeadDecides(r: Route, i: nat)
      requires TableOk(slots) && i < |slots| && r in slots[i]
      ensures slots[i] != []
      ensures IsInstalled(All(), r.src, None) <==> !r.installed && !slots[i][0].installed
    {
      InSlot(i);
      assert slots[i][0] in slots[i];
    }

    /** install_route */
    method InstallRoute(r: Route) returns (asked: bool, ok: bool)
      requires Sound() && r in All()
      modifies `slots, `asks
      ensures Sound() && OnlySlot(old(slots), slots, r.src)
      ensures All() == if ok then Switched(old(All()), r) else old(All())
      ensures asked <==> IsInstalled(old(All()), r.src, None)
      ensures if ok then asked && ToFront(old(slots), slots, r) else slots == old(slots)
      ensures Answered(asked, ok)
    {
      asked, ok := false, false;
      SameTable(slots, r);
      if !r.installed {
        var i := SlotOf(r);
        HeadDecides(r, i);
        hide *;
        if slots[i][0] == r || !slots[i][0].installed {
          asked := true;
          ok := Kernel();
          if ok {
            Promote(r, i);
          }
        }
      }
    }

    static lemma SameTable(t: seq<Slot>, r: Route)
      requires TableOk(t) && r in Routes(t)
      ensures OnlySlot(t, t, r.src)
      ensures r.installed ==> !IsInstalled(Routes(t), r.src, None)
    {
    }

    /** The slot of a route that is in the table. */
    method SlotOf(r: Route) returns (i: nat)
      requires Sound() && r in All()
      ensures i < |slots| && r in slots[i] && SameSlot(r, slots[i][0])
    {
      Placed(r);
      var k, _ := FindRouteSlot(r.src);
      i := k;
      InSlot(i);
    }

    lemma Placed(r: Route)
      requires TableOk(slots) && r in All()
      ensures r.src.Valid()
    {
    }

    /** uninstall_route; returns the route as it is afterwards. */
    method UninstallRoute(r: Route) returns (now: Route)
      requires Sound() && r in All()
      modifies `slots
      ensures Sound() && OnlySlot(old(slots), slots, r.src)
      ensures now == r.(installed := false) && All() == old(All()) - {r} + {now}
      ensures Bare(All()) == Bare(old(All()))
      ensures forall k :: 0 <= k < |slots| && r in old(slots)[k] ==> now in slots[k]
    {
      hide TableOk, Routes, Bare, Known, OnlySlot;
      now := r.(installed := false);
      BareSame(slots, r);
      SameTable(slots, r);
      KnownSame(sources.Keys, All(), r);
      if !r.installed {
        assert All() == All() - {r} + {now};
        return;
      }
      var i := SlotOf(r);
      // the installed route is at the head of its list
      Uninstalled(slots, i, r);
      SlotsOf(r, i);
      slots := slots[i := slots[i][0 := now]];
    }

    static lemma KnownSame(keys: set<Key>, all: set<Route>, r: Route)
      requires Known(keys, all) && r in all
      ensures Known(keys, all - {r} + {r.(installed := false)})
    {
    }

    static lemma Uninstalled(t: seq<Slot>, i: nat, r: Route)
      requires TableOk(t) && i < |t| && r in t[i] && r.installed
      ensures |t[i]| > 0 && t[i][0] == r
      ensures var u := t[i := t[i][0 := r.(installed := false)]];
              TableOk(u) && Routes(u) == Routes(t) - {r} + {r.(installed := false)} && OnlySlot(t, u, r.src)
    {
      var now := r.(installed := false);
      ChangeOk(t[i], 0, now);
      ReplaceSlot(t, i, t[i][0 := now]);
      SlotWithin(t, i);
    }

    static lemma SlotWithin(t: seq<Slot>, i: nat)
      requires TableOk(t) && i < |t|
      ensures SlotRoutes(t[i]) <= Routes(t)
    {
    }

    lemma SlotsOf(r: Route, i: nat)
      requires TableOk(slots) && i < |slots| && r in slots[i]
      ensures forall k :: 0 <= k < |slots| && r in slots[k] ==> k == i
    {
    }

    /** switch_routes */
    method SwitchRoutes(cur: Option<Route>, r: Route) returns (asked: bool, ok: bool)
      requires Sound() && r in All()
      requires match cur case None => true case Some(c) => c in All() && SameSlot(c, r) && c != r
      modifies `slots, `asks
      ensures Sound() && OnlySlot(old(slots), slots, r.src)
      ensures All() == if ok then Switched(old(All()), r) else old(All())
      ensures asked <==> if cur == None then IsInstalled(old(All()), r.src, None) else cur.value.installed
      ensures if ok then asked && ToFront(old(slots), slots, r) else slots == old(slots)
      ensures Answered(asked, ok)
    {
      SameTable(slots, r);
      hide *;
      if cur == None {
        asked, ok := InstallRoute(r);
      } else {
        asked, ok := cur.value.installed, false;
        if asked {
          ok := Kernel();
          if ok {
            var i := SlotOf(r);
            Promote(r, i);
          }
        }
      }
    }

    /** find_best_route */
    method FindBestRoute(key: Key, feasible: bool, exclude: Option<nat>) returns (best: Option<Route>)
      requires Sound() && key.Valid()
      ensures match best
              case None => Candidates(Ctx(), All(), key, feasible, exclude) == {}
              case Some(b) => IsBest(Ctx(), b, Candidates(Ctx(), All(), key, feasible, exclude))
      ensures best.Some? ==>
                && best.value in All() && SamePair(best.value.src, key) && best.value.src in sources
                && best.value.time + best.value.holdTime >= now
                && (feasible ==> Feasible(Ctx(), best.value)) && exclude != Some(best.value.neigh)
      ensures forall r :: r in All() && SamePair(r.src, key) && r.time + r.holdTime >= now
                          && exclude != Some(r.neigh) ==>
                r.src in sources
                && (!feasible || Feasible(Ctx(), r) ==> best.Some? && Smoothed(Ctx(), best.value) <= Smoothed(Ctx(), r))
    {
      var i, _ := FindRouteSlot(key);
      if i < 0 {
        best := None;
      } else {
        SlotCandidates(i, key, feasible, exclude);
        best := BestOf(Ctx(), slots[i], feasible, exclude);
      }
      BestMeans(Ctx(), All(), key, feasible, exclude, best);
    }

    lemma SlotCandidates(i: nat, key: Key, feasible: bool, exclude: Option<nat>)
      requires Sound() && i < |slots| && SamePair(slots[i][0].src, key)
      ensures forall r :: r in slots[i] ==> r.src in sources
      ensures Candidates(Ctx(), All(), key, feasible, exclude)
              == set r | r in slots[i] && Acceptable(Ctx(), r, feasible, exclude)
    {
      InSlot(i);
    }

    /** The walk of find_best_route along a list. */
    static method BestOf(c: Context, s: Slot, feasible: bool, exclude: Option<nat>) returns (best: Option<Route>)
      requires forall r :: r in s ==> r.src in c.sources
      ensures match best
              case None => forall r :: r in s ==> !Acceptable(c, r, feasible, exclude)
              case Some(b) =>
                && b in s && Acceptable(c, b, feasible, exclude)
                && forall r :: r in s && Acceptable(c, r, feasible, exclude) ==> Smoothed(c, b) <= Smoothed(c, r)
    {
      hide Smoothed, Acceptable;
      var j := 0;
      while j < |s| && !Acceptable(c, s[j], feasible, exclude)
        invariant 0 <= j <= |s|
        invariant forall k :: 0 <= k < j ==> !Acceptable(c, s[k], feasible, exclude)
      {
        j := j + 1;
      }
      if j == |s| {
        return None;
      }
      var route := s[j];
      var k := j + 1;
      while k < |s|
        invariant j < k <= |s| && route in s && Acceptable(c, route, feasible, exclude)
        invariant forall m :: 0 <= m < k && Acceptable(c, s[m], feasible, exclude)
                    ==> Smoothed(c, route) <= Smoothed(c, s[m])
      {
        if Acceptable(c, s[k], feasible, exclude) && Smoothed(c, s[k]) < Smoothed(c, route) {
          route := s[k];
        }
        k := k + 1;
      }
      return Some(route);
    }

    /** Sending may record new feasibility distances (update_source): any, for all that is known here. */
    method SendUpdate()
      requires Sound()
      modifies `sources
      ensures Sound() && sources.Keys == old(sources).Keys
    {
      var recorded: map<Key, SourceHistory.Entry> := *;
      sources := map k | k in sources :: if k in recorded then recorded[k] else sources[k];
    }

    /** consider_route, where `cur` is what is installed for the prefix pair. The kernel is asked exactly when the
        route is preferred to it; the table changes exactly when the kernel agrees. */
    method ConsiderRoute(r: Route) returns (asked: bool, ok: bool, ghost cur: Option<Route>)
      requires Sound() && r in All()
      modifies `slots, `sources, `asks
      ensures Sound() && OnlySlot(old(slots), slots, r.src)
      ensures All() == if ok then Switched(old(All()), r) else old(All())
      ensures if ok then asked && ToFront(old(slots), slots, r) else slots == old(slots)
      ensures !asked ==> sources == old(sources)
      ensures r.src.Valid() && IsInstalled(old(All()), r.src, cur)
      ensures asked <==> Preferred(old(Ctx()), r, cur, Shadowed(r.src))
      ensures r.src in old(sources)
      ensures asked ==> !r.installed && Feasible(old(Ctx()), r) && !Shadowed(r.src)
      ensures asked && cur.Some? ==> r.Metric() < INFINITY
      ensures asked && cur.Some? && cur.value.Metric() < INFINITY ==>
                r.Metric() <= cur.value.Metric() && Smoothed(old(Ctx()), r) < Smoothed(old(Ctx()), cur.value)
      ensures !asked && !r.installed && Feasible(old(Ctx()), r) && !Shadowed(r.src) ==>
                && cur.Some?
                && (r.Metric() < INFINITY ==>
                      && cur.value.Metric() < INFINITY
                      && (r.Metric() <= cur.value.Metric() ==>
                            Smoothed(old(Ctx()), r) >= Smoothed(old(Ctx()), cur.value)))
      ensures Answered(asked, ok)
    {
      hide TableOk, Routes, Switched, OnlySlot, Known, Preferred, IsInstalled;
      SwitchedSources(sources.Keys, slots, r);
      var wanted, installed;
      wanted, installed, cur := Decide(r);
      PreferredMeans(Ctx(), r, if cur.Some? then cur.value else r, Shadowed(r.src));
      if !wanted {
        return false, false, cur;
      }
      asked, ok := SwitchRoutes(installed, r);
      SendUpdate();
    }

    /** The decision of consider_route. */
    method Decide(r: Route) returns (wanted: bool, installed: Option<Route>, ghost cur: Option<Route>)
      requires Sound() && r in All()
      ensures r.src.Valid() && IsInstalled(All(), r.src, cur) && r.src in sources
      ensures wanted <==> Preferred(Ctx(), r, cur, Shadowed(r.src))
      ensures wanted ==> installed == cur && !r.installed
      ensures wanted && installed.Some? ==>
                && installed.value in All() && SameSlot(installed.value, r)
                && installed.value.installed
    {
      Placed(r);
      cur := InstalledOf(r.src);
      wanted, installed := false, None;
      if r.installed || !Feasible(Ctx(), r) || Shadowed(r.src) {
        return;
      }
      installed := FindInstalledRoute(r.src);
      OneInstalled(r.src, cur, installed);
      if installed.Some? {
        if r.Metric() >= INFINITY {
          return;
        }
        if installed.value.Metric() < INFINITY
           && !(installed.value.Metric() >= r.Metric() && Smoothed(Ctx(), installed.value) > Smoothed(Ctx(), r)) {
          return;
        }
      }
      wanted := true;
    }

    lemma InstalledOf(key: Key) returns (cur: Option<Route>)
      ensures IsInstalled(All(), key, cur)
    {
      if r :| r in All() && SamePairAs(r, key) && r.installed {
        cur := Some(r);
      } else {
        cur := None;
      }
    }

    lemma OneInstalled(key: Key, cur: Option<Route>, other: Option<Route>)
      requires TableOk(slots) && IsInstalled(All(), key, cur) && IsInstalled(All(), key, other)
      ensures cur == other
    {
    }

    static lemma SwitchedSources(keys: set<Key>, t: seq<Slot>, r: Route)
      requires TableOk(t) && Known(keys, Routes(t)) && r in Routes(t)
      ensures Known(keys, Switched(Routes(t), r)) && OnlySlot(t, t, r.src)
    {
    }

    /** route_lost: the best of what is left is considered, if anything is left. */
    method RouteLost(key: Key) returns (asked: bool, ok: bool, ghost best: Option<Route>)
      requires Sound() && key.Valid()
      modifies `slots, `sources, `asks
      ensures Sound() && OnlySlot(old(slots), slots, key)
      ensures BestLeft(old(Ctx()), old(All()), key, best)
      ensures ok ==> asked
      ensures asked ==> best.Some?
      ensures All() == (if ok then Switched(old(All()), best.value) else old(All()))
      ensures Bare(All()) == Bare(old(All()))
      ensures IsInstalled(old(All()), key, None) ==> (asked <==> best.Some? && !Shadowed(key))
      ensures Answered(asked, ok)
    {
      hide TableOk, Routes, Bare, Known, Switched, Smoothed;
      var b := FindBestRoute(key, true, None);
      best := b;
      if b.Some? {
        assert SamePair(b.value.src, key);
        Placed(b.value);
        SlotIsPair(b.value.src, key);
        BareSwitched(All(), b.value);
        ghost var cur;
        asked, ok, cur := ConsiderRoute(b.value);
        assert IsInstalled(old(All()), key, None) ==> cur == None;
      } else {
        asked, ok := false, false;
        SendUpdate();
      }
    }

    /** The part of flush_route that unlinks a route that is not installed; the slot goes with its last route. */
    method Unlink(r: Route, i: nat)
      requires TableOk(slots) && i < |slots| && r in slots[i] && !r.installed
      modifies `slots
      ensures TableOk(slots) && All() == old(All()) - {r}
      ensures i <= |slots| <= |old(slots)| && slots[..i] == old(slots)[..i]
    {
      var j := Walk(slots[i], r);
      InSlot(i);
      UnlinkedOk(slots[i], j);
      if |slots[i]| == 1 {
        RemoveSlot(slots, i);
        slots := slots[..i] + slots[i + 1..];
      } else {
        ReplaceSlot(slots, i, Unlinked(slots[i], j));
        slots := slots[i := Unlinked(slots[i], j)];
      }
    }

    /** The first half of flush_route: the route is uninstalled and unlinked. Slots before its own are untouched:
        `at` is where it was. */
    method Detach(r: Route) returns (ghost at: nat)
      requires Sound() && r in All()
      modifies `slots
      ensures Sound() && All() == old(All()) - {r}
      ensures at < |old(slots)| && r in old(slots)[at]
      ensures at <= |slots| <= |old(slots)| && slots[..at] == old(slots)[..at]
      ensures forall k :: 0 <= k < at ==> slots[k] != [] && !SamePair(slots[k][0].src, r.src)
      ensures r.src in sources && r.src.Valid() && (r.installed ==> IsInstalled(All(), r.src, None))
      ensures r.(installed := false) in Bare(old(All())) && Bare(All()) == Bare(old(All())) - {r.(installed := false)}
    {
      Leaving(r);
      at := UninstallAndUnlink(r);
    }

    lemma Leaving(r: Route)
      requires Sound() && r in All()
      ensures r.src in sources && r.src.Valid() && Known(sources.Keys, All() - {r})
      ensures r.installed ==> IsInstalled(All() - {r}, r.src, None)
      ensures r.(installed := false) in Bare(All()) && Bare(All() - {r}) == Bare(All()) - {r.(installed := false)}
    {
      Placed(r);
      BareWithout(slots, r);
      NoneLeft(slots, r);
    }

    /** flush_route as far as the table goes: uninstalled first, then found again and unlinked. */
    method UninstallAndUnlink(r: Route) returns (ghost at: nat)
      requires Sound() && r in All()
      modifies `slots
      ensures TableOk(slots) && All() == old(All()) - {r}
      ensures at < |old(slots)| && r in old(slots)[at]
      ensures at <= |slots| <= |old(slots)| && slots[..at] == old(slots)[..at]
      ensures forall k :: 0 <= k < at ==> slots[k] != [] && !SamePair(slots[k][0].src, r.src)
    {
      at := Place(r);
      NotTwice(r);
      hide TableOk, Routes, OnlySlot, Known, Bare;
      var gone := UninstallRoute(r);
      SlotsOf(gone, at);
      SameBefore(old(slots), slots, r.src, at);
      ghost var t := slots;
      var i := SlotOf(gone);
      assert i == at;
      Unlink(gone, i);
      SamePrefix(t, slots, at, r.src);
    }

    /** The place of a route, which is its only one; slots before it are for other prefix pairs. */
    lemma Place(r: Route) returns (at: nat)
      requires TableOk(slots) && r in All()
      ensures at < |slots| && r in slots[at] && forall k :: 0 <= k < |slots| && r in slots[k] ==> k == at
      ensures forall k :: 0 <= k < at ==> slots[k] != [] && !SamePair(slots[k][0].src, r.src)
    {
      at :| at < |slots| && r in slots[at];
      OtherSlots(slots, r, at);
      SlotsOf(r, at);
    }

    static lemma OtherSlots(t: seq<Slot>, r: Route, at: nat)
      requires TableOk(t) && at < |t| && r in t[at]
      ensures forall k :: 0 <= k < at ==> t[k] != [] && !SamePair(t[k][0].src, r.src)
    {
    }

    lemma NotTwice(r: Route)
      requires TableOk(slots) && r in All()
      ensures All() - {r} + {r.(installed := false)} - {r.(installed := false)} == All() - {r}
    {
    }

    /** flush_route: the route is gone and its source released; if it was installed, the best of the others for
        its prefix pair is considered. */
    method FlushRoute(r: Route) returns (ghost at: nat, asked: bool, ok: bool, ghost best: Option<Route>)
      requires Valid() && r in All()
      modifies `slots, `sources, `counts, `asks
      ensures Valid() && sources.Keys == old(sources).Keys
      ensures at < |old(slots)| && r in old(slots)[at]
      ensures at <= |slots| <= |old(slots)| && slots[..at] == old(slots)[..at]
      ensures ok ==> asked
      ensures asked ==> best.Some? && r.installed
      ensures All() == if ok then Switched(old(All()) - {r}, best.value) else old(All()) - {r}
      ensures r.src.Valid()
      ensures r.installed ==>
                && BestLeft(old(Ctx()), old(All()) - {r}, r.src, best)
                && (asked <==> best.Some? && !Shadowed(r.src))
      ensures Bare(All()) == Bare(old(All())) - {r.(installed := false)}
      ensures r.(installed := false) in Bare(old(All()))
      ensures Answered(asked, ok)
    {
      hide TableOk, Routes, Bare, CountsRoutes, Known, Switched, BestLeft, IsInstalled, OnlySlot;
      at := Detach(r);
      asked, ok, best := Reselect(r.src, r.installed, at);
      Released(counts, Bare(old(All())), r.(installed := false));
      ReleaseSource(r.src);
    }

    /** The end of flush_route: another route is looked for if the one that is gone was installed. */
    method Reselect(key: Key, lost: bool, ghost at: nat) returns (asked: bool, ok: bool, ghost best: Option<Route>)
      requires Sound() && key.Valid() && at <= |slots|
      requires forall k :: 0 <= k < at ==> slots[k] != [] && !SamePair(slots[k][0].src, key)
      modifies `slots, `sources, `asks
      ensures Sound() && |slots| == |old(slots)| && slots[..at] == old(slots)[..at]
      ensures ok ==> asked
      ensures asked ==> best.Some? && lost
      ensures All() == if ok then Switched(old(All()), best.value) else old(All())
      ensures lost ==> BestLeft(old(Ctx()), old(All()), key, best)
      ensures lost && IsInstalled(old(All()), key, None) ==> (asked <==> best.Some? && !Shadowed(key))
      ensures Bare(All()) == Bare(old(All()))
      ensures Answered(asked, ok)
    {
      asked, ok, best := false, false, None;
      if lost {
        asked, ok, best := RouteLost(key);
        SameBefore(old(slots), slots, key, at);
      }
    }

    /** retain_source */
    method RetainSource(key: Key)
      requires Sound() && key in counts
      modifies `counts
      ensures Sound() && OneMore(old(counts), counts, key)
    {
      hide TableOk, Known, Routes;
      counts := counts[key := counts[key] + 1];
    }

    /** release_source */
    method ReleaseSource(key: Key)
      requires Sound() && key in counts && counts[key] > 0
      modifies `counts
      ensures Sound() && counts == old(counts)[key := old(counts)[key] - 1]
    {
      hide TableOk, Known, Routes;
      counts := counts[key := counts[key] - 1];
    }

    static lemma SamePrefix(t: seq<Slot>, u: seq<Slot>, at: nat, key: Key)
      requires at <= |t| && at <= |u| && u[..at] == t[..at]
      requires forall k :: 0 <= k < at ==> t[k] != [] && !SamePair(t[k][0].src, key)
      ensures forall k :: 0 <= k < at ==> u[k] != [] && !SamePair(u[k][0].src, key)
    {
    }

    static lemma SameBefore(t: seq<Slot>, u: seq<Slot>, key: Key, at: nat)
      requires OnlySlot(t, u, key) && at <= |t|
      requires forall k :: 0 <= k < at ==> t[k] != [] && !SamePair(t[k][0].src, key)
      ensures at <= |u| && t[..at] == u[..at]
      ensures forall k :: 0 <= k < at ==> u[k] != [] && !SamePair(u[k][0].src, key)
    {
    }

    static lemma NoneLeft(t: seq<Slot>, r: Route)
      requires TableOk(t) && r in Routes(t)
      ensures r.installed ==> IsInstalled(Routes(t) - {r}, r.src, None)
    {
    }

    // ---- flushing

    static method FindMatch(s: Slot, matches: (nat, seq<U8>) -> bool) returns (found: Option<Route>)
      ensures match found
              case Some(r) => r in s && matches(r.neigh, r.nexthop)
              case None => NoMatch(s, matches)
    {
      var j := 0;
      while j < |s|
        invariant 0 <= j <= |s| && forall k :: 0 <= k < j ==> !matches(s[k].neigh, s[k].nexthop)
      {
        if matches(s[j].neigh, s[j].nexthop) {
          return Some(s[j]);
        }
        j := j + 1;
      }
      return None;
    }

    /** The loop of flush_neighbour_routes and flush_interface_routes. It ends, and exactly the routes that match
        are gone, although each flush may drop a slot, shift the table and put another route at the head of the
        list that is walked. */
    method FlushMatching(matches: (nat, seq<U8>) -> bool)
      requires Valid()
      modifies `slots, `sources, `counts, `asks
      ensures Valid()
      ensures Bare(All()) == Unmatched(old(Bare(All())), matches)
    {
      ghost var before := Bare(All());
      hide TableOk, Routes, Bare, CountsRoutes, Known, Switched, BestLeft, IsInstalled, NoMatch, Unmatched;
      NothingGone(before, matches);
      var i := 0;
      while i < |slots|
        invariant Valid() && i <= |slots|
        invariant OnlyMatchingGone(before, Bare(All()), matches)
        invariant forall k :: 0 <= k < i ==> NoMatch(slots[k], matches)
        decreases |Bare(All())|, |slots| - i
      {
        var found := FindMatch(slots[i], matches);
        if found.Some? {
          i := FlushIn(found.value, i, before, matches);
        } else {
          i := i + 1;
        }
      }
      AllMatchingGone(before, slots, matches);
    }

    /** One round of the loop: the slot, or what is now in its place, is looked at again. */
    method FlushIn(r: Route, i: nat, ghost before: set<Route>, matches: (nat, seq<U8>) -> bool) returns (next: nat)
      requires Valid() && i < |slots| && r in slots[i] && matches(r.neigh, r.nexthop)
      requires OnlyMatchingGone(before, Bare(All()), matches)
      modifies `slots, `sources, `counts, `asks
      ensures Valid() && next == i <= |slots| <= |old(slots)| && slots[..i] == old(slots)[..i]
      ensures OnlyMatchingGone(before, Bare(All()), matches)
      ensures |Bare(All())| < |old(Bare(All()))|
      ensures !r.installed ==> asks == old(asks)
    {
      InSlot(i);
      SlotsOf(r, i);
      hide TableOk, Routes, Bare, CountsRoutes, Known, Switched, BestLeft, IsInstalled, OnlyMatchingGone;
      ghost var all := Bare(All());
      ghost var at, asked, ok, best;
      at, asked, ok, best := FlushRoute(r);
      OneMoreGone(before, all, r.(installed := false), matches);
      next := i;
    }

    static lemma NothingGone(all: set<Route>, matches: (nat, seq<U8>) -> bool)
      ensures OnlyMatchingGone(all, all, matches)
    {
    }

    /** flush_neighbour_routes */
    method FlushNeighbourRoutes(neigh: nat)
      requires Valid()
      modifies `slots, `sources, `counts, `asks
      ensures Valid()
      ensures Bare(All()) == set r | r in old(Bare(All())) && r.neigh != neigh
    {
      FlushMatching((n: nat, _) => n == neigh);
    }

    /** flush_interface_routes, where `ifp` gives the interface of a neighbour. */
    method FlushInterfaceRoutes(ifp: nat -> nat, ifindex: nat, v4only: bool)
      requires Valid()
      modifies `slots, `sources, `counts, `asks
      ensures Valid()
      ensures Bare(All())
              == set r | r in old(Bare(All())) && !(ifp(r.neigh) == ifindex && (!v4only || V4Mapped(r.nexthop)))
    {
      FlushMatching((n: nat, hop) => ifp(n) == ifindex && (!v4only || V4Mapped(hop)));
    }

    static predicate V4Mapped(a: seq<U8>) { |a| == 16 && Prefix.V4Mapped(a) }

    /** flush_all_routes: from the end, and uninstalling first, so that nothing is installed again. */
    method FlushAllRoutes()
      requires Valid()
      modifies `slots, `sources, `counts, `asks
      ensures Valid() && slots == []
      ensures forall k :: k in counts ==> counts[k] == 0
      ensures asks == old(asks)
    {
      var i := |slots| - 1;
      while i >= 0
        invariant Valid() && |slots| == i + 1 && asks == old(asks)
      {
        while i < |slots|
          invariant Valid() && i <= |slots| <= i + 1 && asks == old(asks)
          decreases |Bare(All())|
        {
          FlushHead(i);
        }
        i := i - 1;
      }
      NothingLeft();
    }

    lemma NothingLeft()
      requires Valid() && slots == []
      ensures forall k :: k in counts ==> counts[k] == 0
    {
    }

    /** One round of flush_all_routes, on the last slot. */
    method FlushHead(i: nat)
      requires Valid() && |slots| == i + 1
      modifies `slots, `sources, `counts, `asks
      ensures Valid() && i <= |slots| <= i + 1
      ensures |Bare(All())| < |old(Bare(All()))|
      ensures asks == old(asks)
    {
      hide TableOk, Routes, Bare, CountsRoutes, Known, OnlyMatchingGone;
      Head(i);
      var r := slots[i][0];
      r := UninstallRoute(r);
      NothingGone(Bare(All()), (_, _) => true);
      var next := FlushIn(r, i, Bare(All()), (_, _) => true);
    }

    lemma Head(i: nat)
      requires TableOk(slots) && i < |slots|
      ensures slots[i] != [] && slots[i][0] in slots[i] && slots[i][0] in All()
    {
    }

    // ---- updates

    /** A route changes, but not where it belongs. */
    method Overwrite(r: Route, s: Route)
      requires Sound() && r in All() && s.src.Valid() && s.src in sources
      requires SameSlot(s, r) && SamePeer(s, r) && s.installed == r.installed
      modifies `slots
      ensures Sound() && OnlySlot(old(slots), slots, r.src) && s in All() && InPlaceOf(old(slots), slots, r, s)
      ensures All() == old(All()) - {r} + {s}
      ensures Bare(All()) == Bare(old(All())) - {r.(installed := false)} + {s.(installed := false)}
    {
      hide TableOk, Routes, Bare, Known, OnlySlot;
      var i := SlotOf(r);
      var j := Walk(slots[i], r);
      Overwritten(slots, i, j, s);
      KnownReplaced(sources.Keys, slots, r, s);
      slots := slots[i := slots[i][j := s]];
    }

    static lemma KnownReplaced(keys: set<Key>, t: seq<Slot>, r: Route, s: Route)
      requires TableOk(t) && r in Routes(t) && Known(keys, Routes(t)) && s.src in keys
      ensures var u := Routes(t) - {r} + {s};
              && Known(keys, u) && s in u
              && Bare(u) == Bare(Routes(t)) - {r.(installed := false)} + {s.(installed := false)}
    {
      BareReplaced(t, r, s);
    }

    static lemma Overwritten(t: seq<Slot>, i: nat, j: nat, s: Route)
      requires TableOk(t) && i < |t| && j < |t[i]| && s.src.Valid()
      requires SameSlot(s, t[i][j]) && SamePeer(s, t[i][j]) && s.installed == t[i][j].installed
      ensures var u := t[i := t[i][j := s]];
              TableOk(u) && Routes(u) == Routes(t) - {t[i][j]} + {s} && OnlySlot(t, u, t[i][j].src)
    {
      hide TableOk, SlotOk, Routes, SlotRoutes;
      SlotAt(t, i, j);
      ChangeOk(t[i], j, s);
      ReplaceSlot(t, i, t[i][j := s]);
      SlotWithin(t, i);
    }

    /** route_changed: the kernel is asked exactly when another route wins, and the table changes exactly when it
        agrees. A prefix pair that had an installed route still has one. */
    method RouteChanged(r: Route) returns (asked: bool, ok: bool, ghost cur: Option<Route>, ghost other: Option<Route>)
      requires Sound() && r in All()
      modifies `slots, `sources, `asks
      ensures Sound() && OnlySlot(old(slots), slots, r.src) && Bare(All()) == Bare(old(All()))
      ensures r.src.Valid() && Offers(old(Ctx()), old(All()), r, cur, other)
      ensures other.Some? ==> other.value.src in old(sources)
      ensures asked <==> Wins(old(Ctx()), r, cur, other, Shadowed(r.src))
      ensures if ok then asked && ToFront(old(slots), slots, other.value) else slots == old(slots)
      ensures All() == if ok then Switched(old(All()), other.value) else old(All())
      ensures IsInstalled(All(), r.src, None) ==> IsInstalled(old(All()), r.src, None)
      ensures !r.installed && !asked ==> sources == old(sources)
      ensures Answered(asked, ok)
    {
      hide TableOk, Routes, Bare, Known, IsInstalled, OnlySlot, Switched, Preferred, BestLeft;
      Placed(r);
      if r.installed {
        asked, ok, cur, other := TryBetter(r);
        if !ok {
          SendUpdate();
        } else {
          Return(r, other.value, old(slots));
        }
      } else {
        Considered(slots, r, r.src);
        KnownSource(r);
        asked, ok, cur := ConsiderRoute(r);
        other := Some(r);
      }
    }

    /** The end of route_changed, when another route has taken over: the changed one is considered, in vain. */
    method Return(r: Route, ghost b: Route, ghost t: seq<Slot>)
      requires Sound() && TableOk(t) && r in Routes(t) && b in Routes(t) && SameSlot(b, r) && r.installed && b != r
      requires All() == Switched(Routes(t), b) && b.Metric() < r.Metric()
      modifies `slots, `sources, `asks
      ensures Sound() && slots == old(slots) && sources == old(sources)
      ensures asks == old(asks)
    {
      hide TableOk, Routes, Bare, Known, IsInstalled, OnlySlot, Switched, Preferred, BestLeft;
      Displaced(Routes(t), b, r);
      KnownSource(r.(installed := false));
      var asked, ok;
      ghost var cur;
      asked, ok, cur := ConsiderRoute(r.(installed := false));
      Beaten(old(Ctx()), Routes(t), old(slots), r, b, cur, Shadowed(r.src));
    }

    /** What has just been beaten is not preferred to the winner. */
    static lemma Beaten(c: Context, all: set<Route>, t: seq<Slot>, r: Route, b: Route, cur: Option<Route>,
                        shadowed: bool)
      requires TableOk(t) && b in all && SameSlot(b, r) && Routes(t) == Switched(all, b) && b.Metric() < r.Metric()
      requires r.src in c.sources && IsInstalled(Routes(t), r.src, cur)
      ensures !Preferred(c, r.(installed := false), cur, shadowed)
    {
      var winner := b.(installed := true);
      assert winner in Routes(t) && SamePairAs(winner, r.src);
      RoutesApart(t, winner, if cur.Some? then cur.value else winner);
    }

    /** The first half of route_changed: the best route takes over if it is better than the installed one. */
    method TryBetter(r: Route) returns (asked: bool, ok: bool, ghost cur: Option<Route>, ghost other: Option<Route>)
      requires Sound() && r in All() && r.installed && r.src.Valid()
      modifies `slots, `sources, `asks
      ensures Sound() && OnlySlot(old(slots), slots, r.src) && Bare(All()) == Bare(old(All()))
      ensures Offers(old(Ctx()), old(All()), r, cur, other)
      ensures other.Some? ==> other.value.src in old(sources) && other.value in old(All()) && SameSlot(other.value, r)
      ensures asked <==> Wins(old(Ctx()), r, cur, other, Shadowed(r.src))
      ensures if ok then asked && ToFront(old(slots), slots, other.value) else slots == old(slots)
      ensures All() == if ok then Switched(old(All()), other.value) else old(All())
      ensures !IsInstalled(All(), r.src, None)
      ensures Answered(asked, ok)
    {
      hide TableOk, Routes, Bare, Known, IsInstalled, OnlySlot, Switched, Preferred, Feasible;
      asked, ok, cur := false, false, Some(r);
      Unchanged(slots, r);
      var better := FindBestRoute(r.src, true, None);
      other := better;
      if better.Some? {
        KnownSource(better.value);
        if better.value.Metric() < r.Metric() {
          Considered(slots, better.value, r.src);
          SlotIsPair(better.value.src, r.src);
          asked, ok, cur := ConsiderRoute(better.value);
          SameInstalled(old(slots), r, better.value, cur);
        }
      }
    }

    static lemma Unchanged(t: seq<Slot>, r: Route)
      requires TableOk(t) && r in Routes(t) && r.installed
      ensures OnlySlot(t, t, r.src) && IsInstalled(Routes(t), r.src, Some(r)) && !IsInstalled(Routes(t), r.src, None)
    {
    }

    static lemma SameInstalled(t: seq<Slot>, r: Route, b: Route, cur: Option<Route>)
      requires TableOk(t) && r in Routes(t) && r.installed && SamePairAs(b, r.src) && IsInstalled(Routes(t), b.src, cur)
      ensures cur == Some(r)
    {
      RoutesApart(t, r, if cur.Some? then cur.value else r);
    }

    static lemma Displaced(all: set<Route>, b: Route, r: Route)
      requires r in all && SameSlot(r, b) && b != r
      ensures r.(installed := false) in Switched(all, b)
    {
    }

    /** Whatever is switched to, the prefix pair keeps an installed route. */
    static lemma Considered(t: seq<Slot>, b: Route, key: Key)
      requires TableOk(t) && b in Routes(t) && SamePairAs(b, key)
      ensures Bare(Switched(Routes(t), b)) == Bare(Routes(t))
      ensures !IsInstalled(Switched(Routes(t), b), key, None)
      ensures OnlySlot(t, t, key) && forall u :: OnlySlot(t, u, b.src) ==> OnlySlot(t, u, key)
    {
      BareSwitched(Routes(t), b);
      var x := b.(installed := true);
      assert x in Switched(Routes(t), b) && SamePairAs(x, key) && x.installed;
    }

    /** find_source for an update: a source that is not known yet is created, unreachable. */
    method FindSource(key: Key, seqno: U16)
      requires Valid()
      modifies `sources, `counts
      ensures Valid()
      ensures if key in old(sources) then sources == old(sources) && counts == old(counts)
              else sources == old(sources)[key := SourceHistory.Entry(seqno, INFINITY, now)]
                   && counts == old(counts)[key := 0]
    {
      if key !in sources {
        NewSource(key, SourceHistory.Entry(seqno, INFINITY, now));
        hide TableOk, Routes, Bare, RoutesOf, Known, CountsRoutes;
        sources := sources[key := SourceHistory.Entry(seqno, INFINITY, now)];
        counts := counts[key := 0];
      }
    }

    lemma NewSource(key: Key, e: SourceHistory.Entry)
      requires Valid() && key !in sources
      ensures Known(sources[key := e].Keys, All()) && sources[key := e].Keys == counts[key := 0].Keys
      ensures CountsRoutes(counts[key := 0], Bare(All()))
    {
    }

    /** The first part of update_route for a known route: an unfeasible update from another source uninstalls it. */
    method GiveUp(r: Route, unwanted: bool) returns (cur: Route, lost: bool)
      requires Sound() && r in All()
      modifies `slots
      ensures Sound() && cur in All() && Bare(All()) == Bare(old(All()))
      ensures lost == (unwanted && r.installed) && cur == if unwanted then r.(installed := false) else r
      ensures r.src.Valid() && All() == old(All()) - {r} + {cur}
      ensures lost ==> IsInstalled(All() - {cur}, r.src, None)
      ensures forall s :: All() - {cur} + {s} == old(All()) - {r} + {s}
    {
      Placed(r);
      InStep(slots, r);
      hide TableOk, Routes, Bare, Known, OnlySlot, IsInstalled;
      cur, lost := r, false;
      if unwanted && r.installed {
        cur := UninstallRoute(r);
        lost := true;
      }
    }

    static lemma InStep(t: seq<Slot>, r: Route)
      requires TableOk(t) && r in Routes(t)
      ensures var idle := r.(installed := false);
              && Routes(t) == Routes(t) - {r} + {r} && idle in Routes(t) - {r} + {idle}
              && Routes(t) - {r} + {idle} - {idle} == Routes(t) - {r}
              && (r.installed ==> IsInstalled(Routes(t) - {r}, r.src, None))
    {
      NoneLeft(t, r);
      forall x | x in Routes(t) && x == r.(installed := false) ensures x == r {
        RoutesApart(t, x, r);
      }
    }

    /** The end of update_route for a known route: selection runs again, once for the route and once more if it was
        given up: then the first time does nothing. */
    method Reconsider(r: Route, lost: bool, key: Key) returns (ghost o: Outcome)
      requires Sound() && r in All() && key.Valid() && SamePair(r.src, key) && r.src in sources
      requires lost ==> !r.installed && !Feasible(Ctx(), r) && IsInstalled(All(), key, None)
      modifies `slots, `sources, `asks
      ensures Sound() && sources.Keys == old(sources).Keys && Bare(All()) == Bare(old(All()))
      ensures r.src.Valid() && Reselected(old(Ctx()), old(All()), r, lost, Shadowed(r.src), o, All())
      ensures !r.installed && !Feasible(old(Ctx()), r) ==> r.(installed := true) !in All()
      ensures Answered(o.asked, o.ok)
    {
      hide TableOk, Routes, Bare, Known, OnlySlot, Switched, Feasible, IsInstalled, BestLeft;
      ghost var t, all := slots, All();
      ghost var c := Ctx();
      var asked, ok;
      ghost var cur, best;
      asked, ok, cur, best := RouteChanged(r);
      if lost {
        assert best == Some(r) && !asked;
        asked, ok, best := RouteLost(key);
        SameKey(c, all, r.src, key, best);
        SlotIsPair(r.src, key);
      }
      o := Outcome(cur, best, asked, ok);
      if !r.installed && !Feasible(c, r) { StaysOut(c, t, r, lost, Shadowed(r.src), o, All()); }
    }

    /** The part of update_route for a known route, but for the route counts. The update is stored whether or not
        it is feasible; if it is not, and comes from another source, the route is uninstalled first. */
    method Store(r: Route, n: News) returns (stored: Route, ghost accepted: bool, ghost o: Outcome)
      requires Sound() && r in All() && n.src in sources && n.src.Valid() && SamePair(n.src, r.src)
      modifies `slots, `sources, `asks
      ensures Sound() && sources.Keys == old(sources).Keys
      ensures Bare(All()) == Bare(old(All())) - {r.(installed := false)} + {stored}
      ensures StoredAs(old(Ctx()), r, stored, n, accepted)
      ensures stored == InPlace(old(Ctx()), r, n, accepted).(installed := false)
      ensures Updated(old(Ctx()), old(All()), r, n, accepted, Shadowed(n.src), o, All())
      ensures Unwanted(old(Ctx()), r, n) ==> stored.(installed := true) !in All()
      ensures BothAnswered(r.installed && !Unwanted(old(Ctx()), r, n) && Asks(old(Ctx()), r, n), accepted, o)
    {
      hide TableOk, Routes, Bare, Known, OnlySlot, Switched, IsInstalled, BestLeft, Smoothed, Reselected, Refreshed,
           Feasible, Welcome, StoredAs, SamePair, Asks, InPlace;
      ghost var c, all := Ctx(), All();
      var cur, lost := GiveUp(r, Unwanted(Ctx(), r, n));
      ghost var rest := All() - {cur};
      var next;
      next, accepted := Renew(cur, n);
      StoredRight(c, r, n, accepted);
      InPlaceIs(c, r, n, accepted);
      assert All() == rest + {next};
      var feasible := Welcome(Ctx(), n);
      if lost { StillNone(rest, next, r.src); }
      o := Reconsider(next, lost, r.src);
      if !feasible {
        SendUpdate();
      }
      stored := next.(installed := false);
    }

    /** The new values are stored; the kernel is asked first, if it has the route and its metric differs there. */
    method Renew(r: Route, n: News) returns (next: Route, ghost accepted: bool)
      requires Sound() && r in All() && n.src in sources && n.src.Valid() && SamePair(n.src, r.src)
      modifies `slots, `asks
      ensures Sound() && next == Refreshed(Ctx(), r, n, accepted) && (!accepted ==> r.installed && Asks(Ctx(), r, n))
      ensures All() == old(All()) - {r} + {next}
      ensures next in All() && next.installed == r.installed && next.src == n.src
      ensures Bare(All()) == Bare(old(All())) - {r.(installed := false)} + {next.(installed := false)}
      ensures MetricAnswered(r.installed && Asks(old(Ctx()), r, n), accepted)
    {
      hide TableOk, Routes, Bare, Known, Smoothed, Welcome, Asks;
      var taken := true;
      if r.installed && Asks(Ctx(), r, n) {
        taken := Kernel();
      }
      accepted := taken;
      next := Refreshed(Ctx(), r, n, taken);
      Overwrite(r, next);
    }

    static lemma StoredRight(c: Context, r: Route, n: News, accepted: bool)
      requires n.src in c.sources
      requires !accepted ==> r.installed && !Unwanted(c, r, n) && Asks(c, r, n)
      ensures StoredAs(c, r, InPlace(c, r, n, accepted).(installed := false), n, accepted)
      ensures Unwanted(c, r, n) ==> !Feasible(c, InPlace(c, r, n, accepted))
      ensures Asks(c, r.(installed := false), n) == Asks(c, r, n)
    {
    }

    static lemma InPlaceIs(c: Context, r: Route, n: News, accepted: bool)
      ensures InPlace(c, r, n, accepted)
              == Refreshed(c, if Unwanted(c, r, n) then r.(installed := false) else r, n, accepted)
      ensures InPlace(c, r, n, accepted).src == n.src
    {
    }

    static lemma StillNone(all: set<Route>, s: Route, key: Key)
      requires IsInstalled(all, key, None) && !s.installed
      ensures IsInstalled(all + {s}, key, None)
    {
    }

    /** The branch of update_route for a route that is known: its new source is retained first, the old one
        released last. */
    method Refresh(r: Route, n: News) returns (stored: Route, ghost accepted: bool, ghost o: Outcome)
      requires Valid() && r in All() && n.src in sources && n.src.Valid() && SamePair(n.src, r.src)
      modifies `slots, `sources, `counts, `asks
      ensures Valid()
      ensures Replaces(old(Bare(All())), Bare(All()), stored)
      ensures StoredAs(old(Ctx()), r, stored, n, accepted)
      ensures stored == InPlace(old(Ctx()), r, n, accepted).(installed := false)
      ensures Updated(old(Ctx()), old(All()), r, n, accepted, Shadowed(n.src), o, All())
      ensures Unwanted(old(Ctx()), r, n) ==> stored.(installed := true) !in All()
      ensures BothAnswered(r.installed && !Unwanted(old(Ctx()), r, n) && Asks(old(Ctx()), r, n), accepted, o)
    {
      hide TableOk, Routes, Bare, Known, CountsRoutes, Welcome, StoredAs, Replaces, SamePair, OneTooMany, Updated,
           InPlace;
      KnownSource(r);
      stored, accepted, o := RetainAndStore(r, n);
      Drop(r.src, Bare(All()));
    }

    /** All of it but the release of the old source, which is due. */
    method RetainAndStore(r: Route, n: News) returns (stored: Route, ghost accepted: bool, ghost o: Outcome)
      requires Valid() && r in All() && n.src in sources && n.src.Valid() && SamePair(n.src, r.src)
      modifies `slots, `sources, `counts, `asks
      ensures Sound() && OneTooMany(counts, Bare(All()), r.src)
      ensures Replaces(old(Bare(All())), Bare(All()), stored)
      ensures StoredAs(old(Ctx()), r, stored, n, accepted)
      ensures stored == InPlace(old(Ctx()), r, n, accepted).(installed := false)
      ensures Updated(old(Ctx()), old(All()), r, n, accepted, Shadowed(n.src), o, All())
      ensures Unwanted(old(Ctx()), r, n) ==> stored.(installed := true) !in All()
      ensures BothAnswered(r.installed && !Unwanted(old(Ctx()), r, n) && Asks(old(Ctx()), r, n), accepted, o)
    {
      hide TableOk, Routes, Bare, Known, CountsRoutes, Welcome, Replaces, SamePair, OneMore, OneTooMany, Updated,
           InPlace;
      ghost var before, t, all := counts, slots, Bare(All());
      KnownSource(r);
      RetainSource(n.src);
      ghost var retained := counts;
      stored, accepted, o := Store(r, n);
      Settled(t, before, retained, r, n.src, stored, Bare(All()));
    }

    static lemma Settled(t: seq<Slot>, before: map<Key, nat>, retained: map<Key, nat>, r: Route, src: Key, s: Route,
                         after: set<Route>)
      requires TableOk(t) && r in Routes(t) && SamePair(src, r.src) && s.src == src && SamePeer(s, r) && !s.installed
      requires CountsRoutes(before, Bare(Routes(t))) && r.src in before && OneMore(before, retained, src)
      requires after == Bare(Routes(t)) - {r.(installed := false)} + {s}
      ensures Replaces(Bare(Routes(t)), after, s)
      ensures OneTooMany(retained, after, r.src)
    {
      hide Bare, Routes, TableOk, CountsRoutes, Replaces;
      ReplacesExactly(t, r, s);
      MovedCounts(before, retained, Bare(Routes(t)), r.(installed := false), s);
    }

    /** release_source, where one route too many was counted. */
    method Drop(key: Key, ghost all: set<Route>)
      requires Sound() && all == Bare(All()) && OneTooMany(counts, all, key)
      modifies `counts
      ensures Valid()
    {
      hide CountsRoutes, TableOk, Known, Routes, Bare;
      ReleaseSource(key);
    }

    lemma KnownSource(r: Route)
      requires Sound() && r in All()
      ensures r.src in sources && r.src in counts && r.src.Valid()
    {
    }

    /** The branch of update_route for a route that is not known: a retraction, and an unfeasible update unless
        those are kept, is not stored. */
    method Learn(r: Route, keepUnfeasible: bool) returns (stored: bool, ghost o: Outcome)
      requires Valid() && r.src in sources && r.src.Valid() && !r.installed
      requires NewPeer(r)
      modifies `slots, `sources, `counts, `asks
      ensures Valid()
      ensures stored <==> r.refmetric < INFINITY && (keepUnfeasible || Feasible(old(Ctx()), r))
      ensures if stored then Replaces(old(Bare(All())), Bare(All()), r) else All() == old(All())
      ensures stored ==> Reselected(old(Ctx()), old(All()) + {r}, r, false, Shadowed(r.src), o, All())
      ensures Answered(o.asked, o.ok)
    {
      hide TableOk, Routes, Bare, Known, CountsRoutes, Feasible, Replaces, Reselected;
      stored, o := false, UNASKED;
      if r.refmetric >= INFINITY {
        return;
      }
      if !Feasible(Ctx(), r) && !keepUnfeasible {
        SendUpdate();
        return;
      }
      stored := true;
      o := Add(r);
    }

    /** A new route is counted, inserted and considered. */
    method Add(r: Route) returns (ghost o: Outcome)
      requires Valid() && r.src in sources && r.src.Valid() && !r.installed
      requires NewPeer(r)
      modifies `slots, `sources, `counts, `asks
      ensures Valid()
      ensures Replaces(old(Bare(All())), Bare(All()), r)
      ensures Reselected(old(Ctx()), old(All()) + {r}, r, false, Shadowed(r.src), o, All())
      ensures Answered(o.asked, o.ok)
    {
      hide TableOk, Routes, Bare, Known, CountsRoutes, Feasible, Switched, OnlySlot, IsInstalled, Replaces, Preferred;
      RouteAdded(r);
      RetainSource(r.src);
      assert NewPeer(r);
      InsertRoute(r);
      BareSwitched(All(), r);
      var asked, ok;
      ghost var cur;
      asked, ok, cur := ConsiderRoute(r);
      o := Outcome(cur, Some(r), asked, ok);
    }

    lemma RouteAdded(r: Route)
      requires Valid() && r.src in sources && !r.installed
      requires NewPeer(r)
      ensures Bare(All() + {r}) == Bare(All()) + {r} && Replaces(Bare(All()), Bare(All()) + {r}, r)
      ensures Known(sources.Keys, All() + {r}) && r in All() + {r}
      ensures CountsRoutes(counts[r.src := counts[r.src] + 1], Bare(All()) + {r})
    {
      OthersAll(All(), r);
      hide TableOk, Routes, Bare, Known, CountsRoutes, Others, RoutesOf;
      Retained(counts, Bare(All()), r);
      KnownWith(sources.Keys, All(), r);
      BareWith(All(), r);
      assert Bare(All()) + {r} - {r} == Bare(All());
    }

    static lemma OthersAll(all: set<Route>, r: Route)
      requires forall x :: x in all && SameSlot(x, r) ==> !SamePeer(x, r)
      ensures Others(Bare(all), r) == Bare(all) && r !in Bare(all)
    {
    }

    static function HoldTime(interval: U16): U16 { Max((4 * interval) / 100 + interval / 50, 15) }

    /** A route is held for six of the announced intervals, which are in hundredths of a second, but at least for 15
        seconds. */
    static lemma HoldTimeExactly(interval: U16)
      ensures var hold := HoldTime(interval);
              && hold >= 15 && (hold > 15 ==> 6 * interval - 200 < 100 * hold <= 6 * interval)
              && (hold == 15 ==> 6 * interval < 1700)
    {
    }

    /** The route that a first update creates. */
    static function Learned(c: Context, n: News, neigh: nat, nexthop: seq<U8>): Route {
      Route(n.src, neigh, nexthop, n.seqno, n.refmetric, n.cost, n.add,
            Max(RouteMetric.Metric(n.refmetric, n.cost, n.add), INFINITY / 2), c.now, n.holdTime, false)
    }

    static lemma LearnedIsNew(c: Context, n: News, neigh: nat, nexthop: seq<U8>)
      ensures NewRoute(c, n, Learned(c, n, neigh, nexthop))
    {
    }

    /** update_route. `mine` says that the update is about a route we originate, `rejected` that it is martian or
        mixes address families; `add` is the answer of the input filter. The table ends up with the update in the
        place of the route with the same prefix pair, neighbour and next hop, and with the outcome of selection; `found`
        is that route. The update is not stored exactly when it is refused, or when there is no such route and it is a
        retraction or an unfeasible update that is not kept; then no route changes. */
    method UpdateRoute(src: Key, mine: bool, rejected: bool, seqno: U16, refmetric: U16, interval: U16,
                       neigh: nat, nexthop: seq<U8>, cost: U16, add: U16, keepUnfeasible: bool)
      returns (stored: Option<Route>, ghost found: Option<Route>, ghost accepted: bool, ghost o: Outcome)
      requires Valid() && src.Valid()
      modifies `slots, `sources, `counts, `asks
      ensures Valid()
      ensures var n := News(src, seqno, refmetric, cost, add, HoldTime(interval), keepUnfeasible);
              var c := old(Ctx());
              if mine || rejected || add >= INFINITY then stored == None && slots == old(slots)
              else
                && IsRoute(old(All()), src, neigh, nexthop, found)
                && (stored == None <==> found == None && (refmetric >= INFINITY || !(keepUnfeasible || Welcome(c, n))))
                && (stored.Some? ==> Replaces(old(Bare(All())), Bare(All()), stored.value))
                && (found == None ==> Answered(o.asked, o.ok))
                && (found.Some? ==>
                      BothAnswered(found.value.installed && !Unwanted(c, found.value, n) && Asks(c, found.value, n),
                                   accepted, o))
                && (stored.Some? && found.Some? ==>
                      && StoredAs(c, found.value, stored.value, n, accepted)
                      && Updated(Introduced(c, n), old(All()), found.value, n, accepted, Shadowed(src), o, All()))
                && (found.Some? && Unwanted(c, found.value, n) ==> stored.value.(installed := true) !in All())
                && (stored.Some? && found.None? ==>
                      var l := stored.value;
                      && NewRoute(c, n, l) && l.neigh == neigh && l.nexthop == nexthop
                      && Reselected(Introduced(c, n), old(All()) + {l}, l, false, Shadowed(src), o, All()))
      ensures stored == None ==> All() == old(All())
    {
      hide TableOk, Routes, Bare, Known, CountsRoutes, Replaces, StoredAs, Welcome, Unwanted, Feasible, Updated,
           InPlace, Reselected, NewRoute;
      stored, found, accepted, o := None, None, true, UNASKED;
      if !(mine || rejected || add >= INFINITY) {
        var n := News(src, seqno, refmetric, cost, add, HoldTime(interval), keepUnfeasible);
        var r := FindRoute(src, neigh, nexthop);
        found := r;
        FindSource(src, seqno);
        ghost var c, d := old(Ctx()), Ctx();
        assert d == Introduced(c, n);
        if r.Some? {
          var s;
          s, accepted, o := Refresh(r.value, n);
          stored := Some(s);
          SameAnswers(c, n, r.value, s, accepted);
        } else {
          var l := Learned(Ctx(), n, neigh, nexthop);
          SameAnswers(c, n, l, l, true);
          LearnedIsNew(c, n, neigh, nexthop);
          var kept;
          kept, o := Learn(l, keepUnfeasible);
          stored := if kept then Some(l) else None;
        }
      }
    }

    /** Creating a source changes nothing about an update that introduces it. */
    static lemma SameAnswers(c: Context, n: News, r: Route, s: Route, accepted: bool)
      ensures var d := Introduced(c, n);
              && Welcome(c, n) == Welcome(d, n) && Unwanted(c, r, n) == Unwanted(d, r, n)
              && StoredAs(c, r, s, n, accepted) == StoredAs(d, r, s, n, accepted)
              && (r.src == n.src && r.seqno == n.seqno && r.refmetric == n.refmetric ==>
                    Feasible(d, r) == Welcome(d, n))
    {
    }

    // ---- retractions

    /** retract_neighbour_routes. Selection may move routes in the list that is walked, so that not all routes of the
        neighbour are retracted: `left` are not. Where no route of the neighbour was installed, all are. */
    method RetractNeighbourRoutes(neigh: nat) returns (ghost left: set<Route>)
      requires Valid()
      modifies `slots, `sources, `asks
      ensures Valid() && left <= AllLosing(old(Bare(All())), neigh) && Excused(old(All()), neigh, left)
      ensures Bare(All()) == RetractAll(halfLife, old(Bare(All())), AllLosing(old(Bare(All())), neigh) - left)
      ensures forall r :: r in old(Bare(All())) && (r.neigh != neigh || r.refmetric == INFINITY) ==> r in Bare(All())
      ensures forall r :: r in Bare(All()) && r.neigh == neigh && r.refmetric != INFINITY ==> r in left
    {
      hide TableOk, Routes, Bare, CountsRoutes, Known, AllLosing, RetractAll, PassedSlots, LeftExactly, Excused;
      ghost var before, gone, t, all := Bare(All()), {}, slots, All();
      left := {};
      NothingRetracted(halfLife, before, neigh);
      NonePassed(slots, neigh);
      NoneExcused(all, neigh);
      var i := 0;
      while i < |slots|
        invariant Valid() && i <= |slots| && Retraction.Underway(halfLife, before, gone, left, neigh, Bare(All()))
        invariant PassedSlots(slots, i, neigh, left) && Excused(all, neigh, left)
        invariant |slots| == |t| && forall k :: i <= k < |t| ==> slots[k] == t[k]
      {
        Head(i);
        AtIsIn(t, i, 0);
        ghost var c, now, more, next, o := Ctx(), All(), {}, slots[i][0], UNASKED;
        gone, more, next, o := RetractSlot(i, neigh, before, gone, left);
        LeftIsExcused(c, now, t[i][0], neigh, next, Shadowed(t[i][0].src), o, more, left, all);
        left := left + more;
        i := i + 1;
      }
      Retraction.AllPassed(slots, neigh, left);
      AllRetracted(halfLife, before, gone, left, neigh, Bare(All()));
      RetractedMeans(halfLife, before, neigh, left);
    }

    /** The walk along one list. It leaves something behind exactly if the head was an installed route of the neighbour,
        and the kernel refused to retract it, or selection switched to another route of the neighbour. */
    method RetractSlot(i: nat, neigh: nat, ghost before: set<Route>, ghost gone: set<Route>, ghost left: set<Route>)
      returns (ghost gone1: set<Route>, ghost more: set<Route>, ghost next: Route, ghost o: Outcome)
      requires Valid() && i < |slots| && PassedSlots(slots, i, neigh, left) && slots[i] != []
      requires Retraction.Underway(halfLife, before, gone, left, neigh, Bare(All()))
      modifies `slots, `sources, `asks
      ensures Valid() && OnlyList(old(slots), slots, i)
      ensures Retraction.Underway(halfLife, before, gone1, left + more, neigh, Bare(All()))
      ensures PassedSlots(slots, i + 1, neigh, left + more)
      ensures var h := old(slots)[i][0];
              h.src.Valid() && LeftExactly(old(Ctx()), old(All()), h, neigh, next, Shadowed(h.src), o, more)
    {
      hide TableOk, Routes, Bare, CountsRoutes, Known, Retraction.Underway, AllLosing, PassedSlots, Walking,
           LeftExactly;
      ghost var t, c, all := slots, Ctx(), All();
      gone1, more, next, o := gone, {}, slots[i][0], UNASKED;
      AtIsIn(t, i, 0);
      KnownSource(t[i][0]);
      WalkStarts(slots[i], neigh);
      assert left + more == left;
      var j: nat := 0;
      while j < |slots[i]|
        invariant Valid() && OnlyList(t, slots, i) && j <= |slots[i]| && PassedSlots(slots, i, neigh, left)
        invariant Retraction.Underway(halfLife, before, gone1, left + more, neigh, Bare(All()))
        invariant Walking(slots[i], j, neigh, more)
        invariant j == 0 ==> slots == t && Ctx() == c && more == {}
        invariant j > 0 ==> LeftExactly(c, all, t[i][0], neigh, next, Shadowed(t[i][0].src), o, more)
        decreases |AllLosing(before, neigh) - gone1|, |slots[i]| - j
      {
        if Losing(slots[i][j], neigh) {
          ghost var first := j == 0;
          ghost var n, out;
          j, gone1, more, n, out := RetractMet(i, j, neigh, before, gone1, left, more);
          if first { next, o := n, out; }
        } else {
          WalkOn(slots[i], j, neigh, more);
          NothingToLeave(c, all, t[i][0], neigh, next, Shadowed(t[i][0].src), o);
        }
        j := j + 1;
      }
      OneMorePassed(t, slots, i, neigh, left, more);
    }

    /** A route of the neighbour is met at entry `j`; the walk goes on behind the place where it is afterwards. */
    method RetractMet(i: nat, j: nat, neigh: nat, ghost before: set<Route>, ghost gone: set<Route>,
                      ghost left: set<Route>, ghost more: set<Route>)
      returns (pos: nat, ghost gone1: set<Route>, ghost more1: set<Route>, ghost next: Route, ghost o: Outcome)
      requires Valid() && i < |slots| && j < |slots[i]| && Losing(slots[i][j], neigh)
      requires PassedSlots(slots, i, neigh, left) && Walking(slots[i], j, neigh, more) && (j == 0 ==> more == {})
      requires Retraction.Underway(halfLife, before, gone, left + more, neigh, Bare(All()))
      modifies `slots, `sources, `asks
      ensures Valid() && OnlyList(old(slots), slots, i) && PassedSlots(slots, i, neigh, left)
      ensures Retraction.Underway(halfLife, before, gone1, left + more1, neigh, Bare(All()))
      ensures pos < |slots[i]| && Walking(slots[i], pos + 1, neigh, more1)
      ensures var r := old(slots)[i][j];
              r.src.Valid()
              && if j == 0 then LeftExactly(old(Ctx()), old(All()), r, neigh, next, Shadowed(r.src), o, more1)
                 else more1 == more
      ensures |AllLosing(before, neigh) - gone1| < |AllLosing(before, neigh) - gone| || (gone1 == gone && j == 0)
    {
      hide TableOk, Routes, Bare, CountsRoutes, Known, Retraction.Underway, AllLosing, PassedSlots, Walking, Stepped,
           Selects, LeftBy, Taken;
      ghost var r, t, c := slots[i][j], slots, Ctx();
      NotMetYet(t, i, j, neigh, left, more);
      KnownSource(r);
      MetInstalled(t, i, j);
      var now;
      now, next, o := RetractAt(i, j);
      IsTaken(c, r, next);
      gone1 := if next == r then gone else gone + {Plain(r)};
      Progressed(c, halfLife, before, gone, left + more, neigh, t, slots, i, j, r, next);
      PassedStill(t, slots, i, neigh, left);
      pos := Walk(slots[i], now);
      Onwards(c, t, slots, i, j, next, Shadowed(r.src), o, now, pos, neigh, more);
      more1 := more;
      if j == 0 && r.installed {
        more1 := LeftBy(r, next, o, neigh);
        LeftThere(slots, i, pos + 1, r, next, o, neigh);
        assert left + more == left;
        LeftBehind(halfLife, before, gone1, left, neigh, Bare(All()), more1);
      }
    }

    /** One step of the walk: retract_route, and route_changed unless the route was unreachable anyway. Returns the
        route as it is in the table then. */
    method RetractAt(i: nat, j: nat) returns (now: Route, ghost next: Route, ghost o: Outcome)
      requires Valid() && i < |slots| && j < |slots[i]| && slots[i][j].refmetric != INFINITY
      modifies `slots, `sources, `asks
      ensures Valid() && OnlyList(old(slots), slots, i)
      ensures var r := old(slots)[i][j];
              && r.src.Valid() && Taken(old(Ctx()), r, next) && SamePeer(next, r) && next.installed == r.installed
              && Bare(All()) == Bare(old(All())) - {Plain(r)} + {Plain(next)}
              && Selects(old(Ctx()), old(All()) - {r} + {next}, next, r.Metric(), Shadowed(r.src), o)
      ensures Stepped(old(slots)[i], j, next, o, slots[i], now) && now in slots[i]
      ensures next == old(slots)[i][j] ==> next.installed && next.Metric() < INFINITY
      ensures var r, c := old(slots)[i][j], old(Ctx());
              BothAnswered(r.installed && ToKernel(c, r.Metric()) != ToKernel(c, INFINITY), next != r, o)
    {
      hide TableOk, Routes, Bare, CountsRoutes, Known, OnlySlot, Switched, InPlaceOf, ToFront, Offers, Wins, Retracted;
      var r := slots[i][j];
      ghost var t, c, all := slots, Ctx(), All();
      AtIsIn(t, i, j);
      KnownSource(r);
      var was, taken, asked, ok := r.Metric(), true, false, false;
      ghost var cur, other: Option<Route> := None, None;
      if r.installed && ToKernel(Ctx(), was) != ToKernel(Ctx(), INFINITY) {
        taken := Kernel();
      }
      var n := if taken then Retracted(halfLife, r) else r;
      NotAgain(halfLife);
      TakenKeeps(c, r, n, r.neigh);
      Overwrite(r, n);
      InPlaceAt(t, slots, i, j, n);
      Recounted(t, slots, counts, r, n);
      ghost var u := slots;
      if was < INFINITY {
        asked, ok, cur, other := RouteChanged(n);
      }
      next, o := n, Outcome(cur, other, asked, ok);
      now := if ok then n.(installed := !n.installed) else n;
      if ok { Switches(c, u, n, was, Shadowed(r.src), o); }
      StepTaken(t, i, j, n, slots, o);
      SteppedHas(t[i], j, n, o, slots[i], now);
    }

    static lemma Recounted(t: seq<Slot>, u: seq<Slot>, counts: map<Key, nat>, r: Route, s: Route)
      requires TableOk(t) && r in Routes(t) && CountsRoutes(counts, Bare(Routes(t))) && r.src in counts
      requires s.src == r.src && SamePeer(s, r)
      requires Bare(Routes(u)) == Bare(Routes(t)) - {Plain(r)} + {Plain(s)}
      ensures CountsRoutes(counts, Bare(Routes(u)))
    {
      hide TableOk, Routes, Bare, CountsRoutes;
      ReplacesExactly(t, r, Plain(s));
      SameCounts(counts, Bare(Routes(t)), Plain(r), Plain(s));
    }

    // ---- sources

    /** A source is counted exactly when a route points to it. */
    lemma ReferencedExactly(key: Key)
      requires Valid() && key in counts
      ensures counts[key] > 0 <==> exists r :: r in All() && r.src == key
    {
      hide TableOk, Known, Routes, RoutesOf;
      CountedExactly(counts, Bare(All()), key);
      if r :| r in All() && r.src == key {
        assert r.(installed := false) in Bare(All());
      }
    }

    /** expire_sources, as SourceTable.Table.ExpireSources describes its effect on the maps. No route is left with a
        source that is gone. */
    method ExpireSources()
      requires Valid()
      modifies `sources, `counts
      ensures Valid()
      ensures sources == EntriesLeft(old(sources), old(counts), now)
      ensures counts == CountsLeft(old(sources), old(counts), now)
      ensures forall r :: r in All() ==>
                && r.src in sources && r.src in old(sources) && sources[r.src] == Clamped(old(sources)[r.src], now)
                && counts[r.src] == old(counts)[r.src] > 0
    {
      hide TableOk, Routes, RoutesOf;
      forall r | r in All() ensures r.src in KeysLeft(sources, counts, now) && counts[r.src] > 0 {
        ReferencedExactly(r.src);
      }
      sources, counts := EntriesLeft(sources, counts, now), CountsLeft(sources, counts, now);
    }

    // ---- streams

    /** route_stream_next for a stream of installed routes that has come as far as `index`. */
    method StreamNext(specificOnly: bool, index: nat) returns (r: Option<Route>, next: nat)
      requires TableOk(slots) && index <= |slots|
      ensures index <= next <= |slots|
      ensures match r
              case Some(x) =>
                index < next && Heads(slots, next, specificOnly) == Heads(slots, index, specificOnly) + [x]
              case None => Heads(slots, |slots|, specificOnly) == Heads(slots, index, specificOnly)
    {
      hide TableOk, Heads, Streamed, SlotOk, Vectors;
      Headed();
      next := Skip(slots, index, specificOnly);
      r := None;
      if next < |slots| {
        if Ends(slots[next], specificOnly) {
          NoneBehind(slots, next, |slots|);
        } else {
          r := Some(slots[next][0]);
          next := next + 1;
        }
      }
    }

    /** The loop of route_stream_next. */
    static method Skip(t: seq<Slot>, index: nat, specificOnly: bool) returns (next: nat)
      requires index <= |t| && forall i :: 0 <= i < |t| ==> t[i] != []
      ensures index <= next <= |t| && Heads(t, next, specificOnly) == Heads(t, index, specificOnly)
      ensures next < |t| ==> Ends(t[next], specificOnly) || t[next][0].installed
      ensures next < |t| && !Ends(t[next], specificOnly) ==>
                Heads(t, next + 1, specificOnly) == Heads(t, index, specificOnly) + [t[next][0]]
    {
      next := index;
      while next < |t| && !Ends(t[next], specificOnly) && !t[next][0].installed
        invariant index <= next <= |t|
        invariant Heads(t, next, specificOnly) == Heads(t, index, specificOnly)
      {
        next := next + 1;
      }
    }

    /** A stream of source-specific routes ends at the first slot that is not. */
    static predicate Ends(s: Slot, specificOnly: bool)
      requires s != []
    {
      specificOnly && s[0].src.srcPlen == 0
    }

    lemma Headed()
      requires TableOk(slots)
      ensures forall i :: 0 <= i < |slots| ==> slots[i] != []
    {
    }

    /** A walk along a whole stream, as conflict_solution and min_conflict do. */
    method Stream(specificOnly: bool) returns (out: seq<Route>)
      requires TableOk(slots)
      ensures forall r :: r in out <==> r in All() && r.installed && (specificOnly ==> r.src.srcPlen != 0)
      ensures forall i, j :: 0 <= i < j < |out| ==> !SameSlot(out[i], out[j])
    {
      out := [];
      StreamsExactly(slots, specificOnly);
      hide TableOk, Routes, Streamed;
      var r, index := StreamNext(specificOnly, 0);
      while r.Some?
        invariant index <= |slots|
        invariant if r.Some? then Heads(slots, index, specificOnly) == out + [r.value]
                  else Heads(slots, |slots|, specificOnly) == out
        decreases r.Some?, |slots| - index
      {
        out := out + [r.value];
        r, index := StreamNext(specificOnly, index);
      }
    }
  }
}
