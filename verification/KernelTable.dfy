/** The incremental maintenance of the kernel table: kinstall_route, kuninstall_route and kswitch_routes of
    disambiguation.c, and the functions of route.c that call them. */
module KernelTable {
  import opened Common
  import opened Prefix
  import opened SourceSpecific

  function SetOf(stream: seq<Route>): set<Route> { set r | r in stream }

  predicate Once(s: seq<Route>) { forall i, j | 0 <= i < j < |s| :: s[i] != s[j] }

  /** A stream lists each installed route once, the source-specific ones first. `any` is the source of the others; no
      source lies around it. */
  ghost predicate IsStream(stream: seq<Route>, any: Bits) {
    && Distinct(SetOf(stream))
    && Once(stream)
    && (forall i, j | 0 <= i < j < |stream| :: stream[j].zone.src != any ==> stream[i].zone.src != any)
    && (forall r | r in stream :: !(r.zone.src < any))
  }

  predicate SameAt(k1: Kernel, k2: Kernel, z: Zone) {
    if z in k1 then z in k2 && k1[z] == k2[z] else z !in k2
  }

  /** The result of min_conflict. */
  ghost predicate MinPartner(inst: set<Route>, z: Zone, r: Route, m: Option<Route>) {
    if m.None? then forall p :: !Partner(inst, z, r, p)
    else Partner(inst, z, r, m.value) && forall p | Partner(inst, z, r, p) :: RtCmp(m.value, p) <= 0
  }

  /** The one step of a loop over the installed routes that deals with zone `z`, where `route` conflicts. */
  ghost predicate Representative(inst: set<Route>, route: Route, z: Zone, rt1: Route) {
    !Occupied(inst, z) && MinPartner(inst, z, route, Some(rt1))
  }

  /** The route that must decide in `z` is not source-specific, so conflict_solution overlooks it. */
  ghost predicate Overlooked(inst: set<Route>, any: Bits, z: Zone) {
    !Occupied(inst, z) && exists w :: Holds(inst, z, w) && w.zone.src == any
  }

  /** The kernel is right in `z`, or has no entry where the holder is overlooked. */
  ghost predicate Fine(k: Kernel, inst: set<Route>, any: Bits, z: Zone) {
    Correct(k, inst, z) || (Overlooked(inst, any, z) && z !in k)
  }

  ghost predicate AllFine(k: Kernel, inst: set<Route>, any: Bits) { forall z :: Fine(k, inst, any, z) }

  /** What an operation makes of a zone: it stays right if it was, and fine in any case. */
  ghost predicate Kept(k0: Kernel, inst0: set<Route>, k1: Kernel, inst1: set<Route>, any: Bits, z: Zone) {
    Fine(k1, inst1, any, z) && (Correct(k0, inst0, z) ==> Correct(k1, inst1, z))
  }

  ghost predicate AllKept(k0: Kernel, inst0: set<Route>, k1: Kernel, inst1: set<Route>, any: Bits) {
    forall z :: Kept(k0, inst0, k1, inst1, any, z)
  }

  /** `zones` are those that were written: all that changed, and none that did not, but for deletions of what was not
      there. */
  ghost predicate Logs(k0: Kernel, k1: Kernel, zones: seq<Zone>) {
    && NoRepeats(zones)
    && (forall z :: !SameAt(k1, k0, z) ==> z in zones)
    && (forall z | z in zones :: SameAt(k1, k0, z) ==> z !in k1)
  }

  /** The prefixes of the zone are those of routes. */
  ghost predicate Carried(inst: set<Route>, z: Zone) {
    exists a, b :: a in inst && b in inst && z == Zone(a.zone.dst, b.zone.src)
  }

  ghost predicate AllCarried(inst: set<Route>, zones: seq<Zone>) { forall z | z in zones :: Carried(inst, z) }

  /** An installed route is in the kernel under its own zone, whatever else is missing. */
  lemma OwnZone(k: Kernel, inst: set<Route>, any: Bits, r: Route)
    requires Distinct(inst) && Fine(k, inst, any, r.zone) && r in inst
    ensures Correct(k, inst, r.zone) && r.zone in k && k[r.zone] == r
  {
    assert Holds(inst, r.zone, r);
  }

  lemma SameHolders(k: Kernel, inst0: set<Route>, inst1: set<Route>, any: Bits, z: Zone)
    requires Occupied(inst0, z) <==> Occupied(inst1, z)
    requires forall r :: Holds(inst0, z, r) <==> Holds(inst1, z, r)
    ensures Correct(k, inst0, z) <==> Correct(k, inst1, z)
    ensures Fine(k, inst0, any, z) <==> Fine(k, inst1, any, z)
  {
  }

  // ---------------------------------------------------------------- one zone

  lemma PartnerOrder(inst: set<Route>, z: Zone, r: Route, a: Route, b: Route)
    requires Distinct(inst) && Partner(inst, z, r, a) && Partner(inst, z, r, b)
    ensures RtCmp(a, b) < 0 <==> RtCmp(b, a) > 0
    ensures RtCmp(a, b) == 0 <==> a == b
    ensures RtCmp(a, b) < 0 <==>
            |a.zone.dst| > |b.zone.dst| || (|a.zone.dst| == |b.zone.dst| && |a.zone.src| > |b.zone.src|)
  {
  }

  /** The test `rt_cmp(rt1, min_conflict(&zone, route)) == 0` selects the representative, once. */
  lemma RepresentativeTest(inst: set<Route>, route: Route, z: Zone, rt1: Route, m1: Route)
    requires Distinct(inst) && Partner(inst, z, route, rt1) && MinPartner(inst, z, route, Some(m1))
    ensures RtCmp(rt1, m1) == 0 <==> MinPartner(inst, z, route, Some(rt1))
    ensures MinPartner(inst, z, route, Some(rt1)) ==> rt1 == m1
  {
  }

  /** Who holds a zone does not depend on a route that takes part in no conflict over it. */
  lemma BystanderZone(inst: set<Route>, route: Route, z: Zone, r: Route)
    requires z != route.zone && route !in inst
    requires Occupied(inst, z) || forall p :: !Partner(inst, z, route, p)
    ensures Holds(inst + {route}, z, r) <==> Holds(inst, z, r)
  {
    var more := inst + {route};
    if Occupied(inst, z) {
      assert Occupied(more, z);
    } else {
      assert !Occupied(more, z);
      HolderShape(inst, z, r);
      HolderShape(more, z, r);
      forall w | Wide(more, z, w) ensures w == route || Wide(inst, z, w) {}
      if IsDeep(z, route) {
        forall w | Wide(inst, z, w) ensures false { ConflictShape(z, route, w); assert Partner(inst, z, route, w); }
      }
      if IsWide(z, route) {
        forall d | Deep(inst, z, d) ensures false { ConflictShape(z, route, d); assert Partner(inst, z, route, d); }
      }
    }
  }

  /** The holders of a zone over which `route` conflicts, with and without `route`. The loops of
      kinstall_route and kuninstall_route decide between the same cases. */
  lemma ConflictZone(inst: set<Route>, route: Route, z: Zone, rt1: Route, m2: Option<Route>, r: Route)
    requires Distinct(inst + {route}) && route !in inst && z != route.zone
    requires Representative(inst, route, z, rt1) && MinPartner(inst, z, rt1, m2)
    ensures m2.None? ==> !Holds(inst, z, r)
                         && (Holds(inst + {route}, z, r) <==> r == MinRoute(route, Some(rt1)))
    ensures m2.Some? && RtCmp(route, m2.value) < 0 && RtCmp(route, rt1) < 0
            ==> (Holds(inst, z, r) <==> r == m2.value) && (Holds(inst + {route}, z, r) <==> r == route)
    ensures m2.Some? && !(RtCmp(route, m2.value) < 0 && RtCmp(route, rt1) < 0)
            ==> (Holds(inst, z, r) <==> Holds(inst + {route}, z, r))
                && (IsDeep(z, route) ==> (Holds(inst, z, r) <==> r == m2.value))
                && (IsWide(z, route) ==> (Holds(inst, z, r) <==> r == rt1))
  {
    var more := inst + {route};
    assert !Occupied(more, z);
    HolderShape(inst, z, r);
    HolderShape(more, z, r);
    ConflictShape(z, route, rt1);
    forall p ensures Partner(inst, z, route, p) <==> if IsDeep(z, route) then Wide(inst, z, p) else Deep(inst, z, p) {
      ConflictShape(z, route, p);
    }
    forall p ensures Partner(inst, z, rt1, p) <==> if IsDeep(z, route) then Deep(inst, z, p) else Wide(inst, z, p) {
      ConflictShape(z, rt1, p);
    }
    if IsDeep(z, route) {
      DeepArrival(inst, route, z, rt1, m2, r);
    } else {
      WideArrival(inst, route, z, rt1, m2, r);
    }
  }

  lemma DeepArrival(inst: set<Route>, route: Route, z: Zone, w: Route, m2: Option<Route>, r: Route)
    requires Distinct(inst + {route}) && route !in inst && !Occupied(inst, z)
    requires IsDeep(z, route) && Wide(inst, z, w)
    requires if m2.None? then forall d :: !Deep(inst, z, d)
             else Deep(inst, z, m2.value) && forall d | Deep(inst, z, d) :: RtCmp(m2.value, d) <= 0
    ensures RtCmp(route, w) < 0
    ensures m2.None? ==> !Holds(inst, z, r) && (Holds(inst + {route}, z, r) <==> r == route)
    ensures m2.Some? ==> (Holds(inst, z, r) <==> r == m2.value)
    ensures m2.Some? && RtCmp(route, m2.value) < 0 ==> (Holds(inst + {route}, z, r) <==> r == route)
    ensures m2.Some? && RtCmp(route, m2.value) >= 0 ==> (Holds(inst + {route}, z, r) <==> r == m2.value)
  {
    var more := inst + {route};
    assert !Occupied(more, z);
    HolderShape(inst, z, r);
    HolderShape(more, z, r);
    RtCmpByLength(z, route, w);
    assert Wide(more, z, w);
    forall a, b | IsDeep(z, a) && IsDeep(z, b)
      ensures RtCmp(a, b) <= 0 <==> |a.zone.src| >= |b.zone.src|
      ensures |a.zone.src| == |b.zone.src| ==> a.zone == b.zone
    {
      RtCmpByLength(z, a, b);
      SameLength(a.zone.src, b.zone.src, z.src);
    }
    assert Deep(more, z, route);
    forall d ensures Deep(more, z, d) <==> d == route || Deep(inst, z, d) {}
  }

  lemma WideArrival(inst: set<Route>, route: Route, z: Zone, d: Route, m2: Option<Route>, r: Route)
    requires Distinct(inst + {route}) && route !in inst && !Occupied(inst, z)
    requires IsWide(z, route) && Deep(inst, z, d) && forall d' | Deep(inst, z, d') :: RtCmp(d, d') <= 0
    requires if m2.None? then forall w :: !Wide(inst, z, w) else Wide(inst, z, m2.value)
    ensures RtCmp(route, d) > 0
    ensures m2.None? ==> !Holds(inst, z, r)
    ensures m2.Some? ==> (Holds(inst, z, r) <==> r == d)
    ensures Holds(inst + {route}, z, r) <==> r == d
  {
    var more := inst + {route};
    assert !Occupied(more, z);
    HolderShape(inst, z, r);
    HolderShape(more, z, r);
    RtCmpByLength(z, route, d);
    assert Wide(more, z, route);
    forall a, b | IsDeep(z, a) && IsDeep(z, b)
      ensures RtCmp(a, b) <= 0 <==> |a.zone.src| >= |b.zone.src|
      ensures |a.zone.src| == |b.zone.src| ==> a.zone == b.zone
    {
      RtCmpByLength(z, a, b);
      SameLength(a.zone.src, b.zone.src, z.src);
    }
    forall d' ensures Deep(more, z, d') <==> Deep(inst, z, d') {}
  }

  /** The holder of a zone when `old` gives way to `new`, which is installed for the same zone. */
  lemma SwitchZone(inst: set<Route>, cur: Route, next: Route, z: Zone, r: Route)
    requires Distinct(inst) && cur in inst && next.zone == cur.zone && z != cur.zone
    ensures Holds(inst - {cur} + {next}, z, r) <==>
            if r == next then Holds(inst, z, cur) else r != cur && Holds(inst, z, r)
  {
    var after := inst - {cur} + {next};
    assert Occupied(after, z) <==> Occupied(inst, z);
    if !Occupied(inst, z) {
      HolderShape(inst, z, r);
      HolderShape(inst, z, cur);
      HolderShape(after, z, r);
      forall x ensures Deep(after, z, x) <==> if x == next then Deep(inst, z, cur) else x != cur && Deep(inst, z, x) {}
      forall x ensures Wide(after, z, x) <==> if x == next then Wide(inst, z, cur) else x != cur && Wide(inst, z, x) {}
      assert Deep(after, z, next) <==> Deep(inst, z, cur);
      assert Wide(after, z, next) <==> Wide(inst, z, cur);
    }
  }

  // ---------------------------------------------------------------- the kernel table

  class RouteInstaller {
    /** The source of a route that is not source-specific. */
    const any: Bits
    /** What a stream of installed routes yields. */
    var installed: seq<Route>
    /** The kernel: ADD and MODIFY overwrite, FLUSH removes. */
    var table: Kernel
    /** The zone of each operation sent to the kernel. */
    var log: seq<Zone>

    constructor (any: Bits)
      ensures this.any == any && installed == [] && table == map[] && log == []
      ensures IsStream(installed, any) && Mirrors(table, SetOf(installed))
    {
      this.any, installed, table, log := any, [], map[], [];
    }

    ghost function Inst(): set<Route>
      reads this`installed
    {
      SetOf(installed)
    }

    /** add_route and chg_route */
    method Write(zone: Zone, route: Route)
      modifies this`table, this`log
      ensures table == old(table)[zone := route] && log == old(log) + [zone]
    {
      table := table[zone := route];
      log := log + [zone];
    }

    /** del_route */
    method Delete(zone: Zone)
      modifies this`table, this`log
      ensures table == old(table) - {zone} && log == old(log) + [zone]
    {
      table := table - {zone};
      log := log + [zone];
    }

    /** is_installed */
    predicate IsInstalled(zone: Zone)
      reads this`installed
      ensures IsInstalled(zone) <==> Occupied(Inst(), zone)
    {
      assert forall i | 0 <= i < |installed| :: installed[i] in Inst();
      exists i | 0 <= i < |installed| :: installed[i].zone == zone
    }

    /** min_conflict: the rt_cmp-least route that conflicts with `rt` over `zone`. */
    method MinConflict(zone: Zone, rt: Route) returns (min: Option<Route>)
      requires Distinct(Inst())
      ensures MinPartner(Inst(), zone, rt, min)
    {
      min := None;
      for i := 0 to |installed|
        invariant min.Some? ==> Partner(Inst(), zone, rt, min.value)
        invariant forall j | 0 <= j < i :: Partner(Inst(), zone, rt, installed[j])
                    ==> min.Some? && RtCmp(min.value, installed[j]) <= 0
      {
        var rt1 := installed[i];
        if Conflicts(rt, rt1) && Inter(rt, rt1) == Some(zone) {
          assert Partner(Inst(), zone, rt, rt1);
          ghost var before := min;
          min := Some(MinRoute(rt1, min));
          forall j | 0 <= j <= i && Partner(Inst(), zone, rt, installed[j])
            ensures RtCmp(min.value, installed[j]) <= 0
          {
            PartnerOrder(Inst(), zone, rt, rt1, installed[j]);
            PartnerOrder(Inst(), zone, rt, min.value, installed[j]);
            if before.Some? {
              PartnerOrder(Inst(), zone, rt, rt1, before.value);
              PartnerOrder(Inst(), zone, rt, before.value, installed[j]);
            }
          }
        }
      }
    }

    /** `m` is a side of the conflicts over `zone` that is specific in the destination and in the source. */
    ghost predicate Side(zone: Zone, m: Route)
      reads this`installed
    {
      Deep(Inst(), zone, m) && m.zone.src != any && exists w :: Wide(Inst(), zone, w)
    }

    /** The inner loop of conflict_solution. */
    method CompareSides(zone: Zone, rt1: Route, min0: Option<Route>) returns (min: Option<Route>)
      requires rt1 in installed && rt1.zone.src != any
      requires min0.Some? ==> Side(zone, min0.value)
      ensures min.Some? ==> Side(zone, min.value)
      ensures min0.Some? ==> min.Some? && |min0.value.zone.src| <= |min.value.zone.src|
      ensures Side(zone, rt1) ==> min.Some? && |rt1.zone.src| <= |min.value.zone.src|
    {
      min := min0;
      for j := 0 to |installed|
        invariant min.Some? ==> Side(zone, min.value)
        invariant min0.Some? ==> min.Some? && |min0.value.zone.src| <= |min.value.zone.src|
        invariant IsDeep(zone, rt1) ==> forall b | 0 <= b < j && IsWide(zone, installed[b]) ::
                    min.Some? && |rt1.zone.src| <= |min.value.zone.src|
      {
        var rt2 := installed[j];
        ConflictShape(zone, rt1, rt2);
        if Conflicts(rt1, rt2) && Inter(rt1, rt2) == Some(zone) {
          RtCmpByLength(zone, rt1, rt2);
          if RtCmp(rt1, rt2) < 0 {
            assert Wide(Inst(), zone, rt2);
            if min.Some? { RtCmpByLength(zone, rt1, min.value); }
            min := Some(MinRoute(rt1, min));
          }
        }
      }
    }

    /** conflict_solution: the rt_cmp-least of these sides. */
    method ConflictSolution(zone: Zone) returns (min: Option<Route>)
      requires IsStream(installed, any)
      ensures min.Some? ==> Side(zone, min.value)
      ensures forall d | Side(zone, d) :: min.Some? && |d.zone.src| <= |min.value.zone.src|
    {
      hide Distinct, Inter, RtCmp;
      min := None;
      var i := 0;
      while i < |installed| && installed[i].zone.src != any
        invariant 0 <= i <= |installed|
        invariant min.Some? ==> Side(zone, min.value)
        invariant forall a | 0 <= a < i && Side(zone, installed[a]) ::
                    min.Some? && |installed[a].zone.src| <= |min.value.zone.src|
      {
        min := CompareSides(zone, installed[i], min);
        i := i + 1;
      }
      ghost var stop := i;
      forall d | Side(zone, d)
        ensures min.Some? && |d.zone.src| <= |min.value.zone.src|
      {
        var a :| 0 <= a < |installed| && installed[a] == d;
        assert a < stop;
      }
    }

    // -------------------------------------------------------------- install

    /** One step of the loop of kinstall_route. It leaves every zone alone but the one it represents. */
    method InstallConflict(route: Route, rt1: Route) returns (ghost touched: seq<Zone>)
      requires Distinct(Inst() + {route}) && route !in Inst() && rt1 in installed
      requires forall z | Representative(Inst(), route, z, rt1) :: Fine(table, Inst(), any, z)
      modifies this`table, this`log
      ensures forall z | Representative(Inst(), route, z, rt1) ::
                Kept(old(table), Inst(), table, Inst() + {route}, any, z)
      ensures forall z | !Representative(Inst(), route, z, rt1) :: SameAt(table, old(table), z)
      ensures log == old(log) + touched && |touched| <= 1 && Logs(old(table), table, touched)
      ensures forall z | z in touched :: Representative(Inst(), route, z, rt1) && z in table
    {
      hide Holds, RtCmp, MinRoute, Side;
      touched := [];
      if !Conflicts(route, rt1) {
        return;
      }
      var zone := Inter(route, rt1).value;
      ConflictShape(zone, route, rt1);
      assert Partner(Inst(), zone, route, rt1);
      if IsInstalled(zone) {
        return;
      }
      var m1 := MinConflict(zone, route);
      RepresentativeTest(Inst(), route, zone, rt1, m1.value);
      if RtCmp(rt1, m1.value) != 0 {
        return;
      }
      var rt2 := MinConflict(zone, rt1);
      forall r { ConflictZone(Inst(), route, zone, rt1, rt2, r); }
      assert Fine(table, Inst(), any, zone) && !Occupied(Inst() + {route}, zone);
      if rt2.None? {
        Write(zone, MinRoute(route, Some(rt1)));
        touched := [zone];
      } else if RtCmp(route, rt2.value) < 0 && RtCmp(route, rt1) < 0 {
        Write(zone, route);
        touched := [zone];
      }
    }

    /** kinstall_route, called before the route joins the installed ones. Exactly the zones that change are written,
        each once; those that were right stay right, and nothing else goes missing. */
    method KInstallRoute(route: Route) returns (ghost touched: seq<Zone>)
      requires IsStream(installed, any) && AllFine(table, Inst(), any) && !Occupied(Inst(), route.zone)
      modifies this`table, this`log
      ensures AllKept(old(table), Inst(), table, Inst() + {route}, any)
      ensures log == old(log) + touched && NoRepeats(touched)
      ensures forall z :: z in touched <==> !SameAt(table, old(table), z)
      ensures AllCarried(Inst() + {route}, touched)
    {
      hide Kept, AllFine, Progress, Logs, Overlooked, Holds, RtCmp, Side;
      touched := [];
      ghost var more := Inst() + {route};
      Begun(route, table, table, Inst(), more, []);
      for k := 0 to |installed|
        invariant log == old(log) + touched && forall z | z in touched :: z in table
        invariant Progress(route, k, old(table), table, Inst(), more, touched)
        invariant SameAt(table, old(table), route.zone)
      {
        ghost var before := table;
        Pending(route, k, old(table), before, Inst(), more, touched);
        var more1 := InstallConflict(route, installed[k]);
        StepDone(route, k, old(table), before, table, Inst(), more, touched, more1);
        touched := touched + more1;
      }
      InstallDone(route, old(table), table, touched);
      var rt1 := ConflictSolution(route.zone);
      ghost var before := table;
      Write(route.zone, route);
      Joined(route, old(table), before, table, touched);
      touched := touched + [route.zone];
    }

    lemma InstallDone(route: Route, t0: Kernel, now: Kernel, touched: seq<Zone>)
      requires IsStream(installed, any) && AllFine(t0, Inst(), any) && !Occupied(Inst(), route.zone)
      requires Progress(route, |installed|, t0, now, Inst(), Inst() + {route}, touched)
      ensures forall z | z != route.zone :: Kept(t0, Inst(), now, Inst() + {route}, any, z)
      ensures Logs(t0, now, touched)
      ensures AllCarried(Inst() + {route}, touched)
    {
      FromRoutes(route, touched);
      forall z | z != route.zone ensures Kept(t0, Inst(), now, Inst() + {route}, any, z) {
        BystanderOrDealt(route, z);
        if !Dealt(route, |installed|, z) {
          forall r { BystanderZone(Inst(), route, z, r); }
          SameHolders(t0, Inst(), Inst() + {route}, any, z);
          assert Fine(t0, Inst(), any, z);
        }
      }
    }

    /** The last write of kinstall_route is for the zone of the route. */
    lemma Joined(route: Route, t0: Kernel, before: Kernel, after: Kernel, touched: seq<Zone>)
      requires AllFine(t0, Inst(), any) && !Occupied(Inst(), route.zone) && after == before[route.zone := route]
      requires forall z | z != route.zone :: Kept(t0, Inst(), before, Inst() + {route}, any, z)
      requires SameAt(before, t0, route.zone) && Logs(t0, before, touched) && forall z | z in touched :: z in before
      ensures AllKept(t0, Inst(), after, Inst() + {route}, any)
      ensures NoRepeats(touched + [route.zone])
      ensures forall z :: z in touched + [route.zone] <==> !SameAt(after, t0, z)
      ensures AllCarried(Inst() + {route}, touched) ==> AllCarried(Inst() + {route}, touched + [route.zone])
    {
      assert route.zone == Zone(route.zone.dst, route.zone.src);
      assert Fine(t0, Inst(), any, route.zone);
      assert route.zone !in touched;
      AppendNoRepeats(touched, [route.zone]);
      forall z ensures Kept(t0, Inst(), after, Inst() + {route}, any, z) {
        assert z != route.zone ==> Kept(t0, Inst(), before, Inst() + {route}, any, z);
      }
    }

    // -------------------------------------------------------------- uninstall

    /** One step of the loop of kuninstall_route. */
    method UninstallConflict(route: Route, rt1: Route) returns (ghost touched: seq<Zone>)
      requires Distinct(Inst() + {route}) && route !in Inst() && rt1 in installed
      requires forall z | Representative(Inst(), route, z, rt1) :: Fine(table, Inst() + {route}, any, z)
      modifies this`table, this`log
      ensures forall z | Representative(Inst(), route, z, rt1) ::
                Kept(old(table), Inst() + {route}, table, Inst(), any, z)
      ensures forall z | !Representative(Inst(), route, z, rt1) :: SameAt(table, old(table), z)
      ensures log == old(log) + touched && |touched| <= 1 && Logs(old(table), table, touched)
      ensures forall z | z in touched :: Representative(Inst(), route, z, rt1)
    {
      hide Holds, RtCmp, MinRoute, Side;
      touched := [];
      if !Conflicts(route, rt1) {
        return;
      }
      var zone := Inter(route, rt1).value;
      ConflictShape(zone, route, rt1);
      assert Partner(Inst(), zone, route, rt1);
      if IsInstalled(zone) {
        return;
      }
      var m1 := MinConflict(zone, route);
      RepresentativeTest(Inst(), route, zone, rt1, m1.value);
      if RtCmp(rt1, m1.value) != 0 {
        return;
      }
      var rt2 := MinConflict(zone, rt1);
      forall r { ConflictZone(Inst(), route, zone, rt1, rt2, r); }
      assert Fine(table, Inst() + {route}, any, zone) && !Occupied(Inst() + {route}, zone);
      if rt2.None? {
        assert Holds(Inst() + {route}, zone, MinRoute(route, Some(rt1)));
        Delete(zone);
        touched := [zone];
      } else if RtCmp(route, rt2.value) < 0 && RtCmp(route, rt1) < 0 {
        assert Holds(Inst() + {route}, zone, route) && Holds(Inst(), zone, rt2.value);
        Write(zone, rt2.value);
        touched := [zone];
      }
    }

    /** What conflict_solution finds for a zone that has just been vacated. */
    lemma SolutionIsHolder(z: Zone, min: Option<Route>)
      requires IsStream(installed, any) && !Occupied(Inst(), z)
      requires min.Some? ==> Side(z, min.value)
      requires forall d | Side(z, d) :: min.Some? && |d.zone.src| <= |min.value.zone.src|
      ensures min.Some? ==> Holds(Inst(), z, min.value) && min.value in Inst() && !Overlooked(Inst(), any, z)
      ensures min.None? ==> ((exists w :: Holds(Inst(), z, w)) <==> Overlooked(Inst(), any, z))
    {
      hide Holds, RtCmp, Distinct;
      forall r { HolderShape(Inst(), z, r); }
      if min.Some? {
        assert Holds(Inst(), z, min.value) by {
          forall d | Deep(Inst(), z, d) ensures |d.zone.src| <= |min.value.zone.src| {
            assert d.zone.src != any ==> Side(z, d);
            SameLength(min.value.zone.src, d.zone.src, z.src);
          }
        }
        forall w | Holds(Inst(), z, w) ensures w == min.value {
          HolderUnique(Inst(), z, w, min.value);
        }
      } else {
        forall w | Holds(Inst(), z, w) ensures w.zone.src == any {
          assert w.zone.src != any ==> Side(z, w);
        }
      }
    }

    /** kuninstall_route, called once the route is no longer among the installed ones. Other zones that were right stay
        right, and that of the route ends up right exactly when conflict_solution does not overlook the route that
        takes over; it is left without an entry otherwise. */
    method KUninstallRoute(route: Route) returns (ghost touched: seq<Zone>)
      requires IsStream(installed, any) && !Occupied(Inst(), route.zone) && AllFine(table, Inst() + {route}, any)
      requires Distinct(Inst() + {route})
      modifies this`table, this`log
      ensures forall z | z != route.zone :: Kept(old(table), Inst() + {route}, table, Inst(), any, z)
      ensures Fine(table, Inst(), any, route.zone)
      ensures Correct(table, Inst(), route.zone) <==> !Overlooked(Inst(), any, route.zone)
      ensures log == old(log) + touched && Logs(old(table), table, touched)
      ensures AllCarried(Inst() + {route}, touched)
    {
      hide Inter, RtCmp, Kept, Fine, AllFine, Progress, Logs, Overlooked, Correct, Holds, Side;
      ghost var more := Inst() + {route};
      var rt1 := ConflictSolution(route.zone);
      SolutionIsHolder(route.zone, rt1);
      assert Fine(table, more, any, route.zone) by { FineAt(table, more, route.zone); }
      OwnZone(table, more, any, route);
      if rt1.None? {
        Delete(route.zone);
      } else {
        Write(route.zone, rt1.value);
      }
      touched := [route.zone];
      ghost var first := table;
      Begun(route, old(table), table, more, Inst(), touched);
      for k := 0 to |installed|
        invariant log == old(log) + touched
        invariant Progress(route, k, old(table), table, more, Inst(), touched)
        invariant SameAt(table, first, route.zone)
      {
        ghost var before := table;
        Pending(route, k, old(table), before, more, Inst(), touched);
        var more1 := UninstallConflict(route, installed[k]);
        StepDone(route, k, old(table), before, table, more, Inst(), touched, more1);
        touched := touched + more1;
      }
      UninstallDone(route, old(table), table, touched);
      Vacated(route.zone, table, rt1);
    }

    lemma FineAt(k: Kernel, inst: set<Route>, z: Zone)
      requires AllFine(k, inst, any)
      ensures Fine(k, inst, any, z)
    {
    }

    /** The zone of the route, once it has the entry that conflict_solution found, or none. */
    lemma Vacated(z: Zone, now: Kernel, min: Option<Route>)
      requires min.Some? ==> Holds(Inst(), z, min.value) && !Overlooked(Inst(), any, z)
      requires min.None? ==> ((exists w :: Holds(Inst(), z, w)) <==> Overlooked(Inst(), any, z))
      requires if min.Some? then z in now && now[z] == min.value else z !in now
      ensures Fine(now, Inst(), any, z) && (Correct(now, Inst(), z) <==> !Overlooked(Inst(), any, z))
    {
      hide Holds, Overlooked;
    }

    lemma UninstallDone(route: Route, t0: Kernel, now: Kernel, touched: seq<Zone>)
      requires IsStream(installed, any) && AllFine(t0, Inst() + {route}, any) && !Occupied(Inst(), route.zone)
      requires Progress(route, |installed|, t0, now, Inst() + {route}, Inst(), touched)
      ensures forall z | z != route.zone :: Kept(t0, Inst() + {route}, now, Inst(), any, z)
      ensures Logs(t0, now, touched)
      ensures AllCarried(Inst() + {route}, touched)
    {
      FromRoutes(route, touched);
      forall z | z != route.zone ensures Kept(t0, Inst() + {route}, now, Inst(), any, z) {
        BystanderOrDealt(route, z);
        if !Dealt(route, |installed|, z) {
          forall r { BystanderZone(Inst(), route, z, r); }
          SameHolders(t0, Inst() + {route}, Inst(), any, z);
          assert Fine(t0, Inst() + {route}, any, z);
        }
      }
    }

    // -------------------------------------------------------------- switch

    /** The tests of the loops of kswitch_routes and kchange_route_metric select the zones that `cur` holds. */
    lemma SwitchTest(cur: Route, z: Zone, rt1: Route, m2: Route)
      requires Distinct(Inst()) && cur in Inst() && Representative(Inst(), cur, z, rt1)
      requires MinPartner(Inst(), z, rt1, Some(m2))
      ensures RtCmp(cur, rt1) < 0 && RtCmp(cur, m2) == 0 <==> Holds(Inst(), z, cur)
    {
      HolderShape(Inst(), z, cur);
      ConflictShape(z, cur, rt1);
      ConflictShape(z, rt1, cur);
      RtCmpByLength(z, cur, rt1);
      assert Partner(Inst(), z, rt1, cur);
      PartnerOrder(Inst(), z, rt1, cur, m2);
      if IsDeep(z, cur) {
        assert Wide(Inst(), z, rt1);
        forall d ensures Deep(Inst(), z, d) <==> Partner(Inst(), z, rt1, d) {
          ConflictShape(z, rt1, d);
        }
        forall d | Deep(Inst(), z, d) ensures |d.zone.src| <= |m2.zone.src| {
          PartnerOrder(Inst(), z, rt1, m2, d);
          PartnerOrder(Inst(), z, rt1, d, m2);
          RtCmpByLength(z, m2, d);
        }
        assert Deep(Inst(), z, m2);
        RtCmpByLength(z, cur, m2);
        SameLength(cur.zone.src, m2.zone.src, z.src);
      }
    }

    /** One step of these loops. */
    method SwitchConflict(cur: Route, next: Route, rt1: Route) returns (ghost touched: seq<Zone>)
      requires Distinct(Inst()) && cur in Inst() && next.zone == cur.zone && next != cur && rt1 in installed
      requires forall z | Representative(Inst(), cur, z, rt1) :: Fine(table, Inst(), any, z)
      modifies this`table, this`log
      ensures forall z | Representative(Inst(), cur, z, rt1) ::
                Kept(old(table), Inst(), table, Inst() - {cur} + {next}, any, z)
      ensures forall z | !Representative(Inst(), cur, z, rt1) :: SameAt(table, old(table), z)
      ensures log == old(log) + touched && |touched| <= 1 && Logs(old(table), table, touched)
      ensures forall z | z in touched :: Representative(Inst(), cur, z, rt1) && z in table
    {
      hide RtCmp, Holds, Correct, Overlooked, Fine, Kept, Distinct;
      touched := [];
      if !Conflicts(cur, rt1) {
        return;
      }
      var zone := Inter(cur, rt1).value;
      ConflictShape(zone, cur, rt1);
      ConflictShape(zone, rt1, cur);
      assert Partner(Inst(), zone, cur, rt1) && Partner(Inst(), zone, rt1, cur);
      if IsInstalled(zone) {
        return;
      }
      var m1 := MinConflict(zone, cur);
      RepresentativeTest(Inst(), cur, zone, rt1, m1.value);
      if RtCmp(rt1, m1.value) != 0 {
        return;
      }
      var m2 := MinConflict(zone, rt1);
      SwitchStep(cur, next, zone, rt1, m2.value, table);
      if RtCmp(cur, rt1) < 0 && RtCmp(cur, m2.value) == 0 {
        Write(zone, next);
        touched := [zone];
      }
    }

    /** The one zone that a step deals with. */
    lemma SwitchStep(cur: Route, next: Route, zone: Zone, rt1: Route, m2: Route, t0: Kernel)
      requires Distinct(Inst()) && cur in Inst() && next.zone == cur.zone && next != cur
      requires Representative(Inst(), cur, zone, rt1) && MinPartner(Inst(), zone, rt1, Some(m2))
      requires Fine(t0, Inst(), any, zone)
      ensures var after := Inst() - {cur} + {next};
              if RtCmp(cur, rt1) < 0 && RtCmp(cur, m2) == 0
              then Kept(t0, Inst(), t0[zone := next], after, any, zone) && !SameAt(t0[zone := next], t0, zone)
              else Kept(t0, Inst(), t0, after, any, zone)
    {
      hide RtCmp, MinPartner, MinRoute;
      ConflictShape(zone, cur, rt1);
      SwitchTest(cur, zone, rt1, m2);
      forall r { SwitchZone(Inst(), cur, next, zone, r); }
      assert !Occupied(Inst() - {cur} + {next}, zone);
      if Holds(Inst(), zone, cur) && zone in t0 {
        HolderUnique(Inst(), zone, cur, t0[zone]);
      }
    }

    /** kswitch_routes. The next route may differ from the current one in its hop, its metric, or both. */
    method KSwitchRoutes(cur: Route, next: Route) returns (ghost touched: seq<Zone>)
      requires IsStream(installed, any) && AllFine(table, Inst(), any)
      requires cur in Inst() && next.zone == cur.zone && next != cur
      modifies this`table, this`log
      ensures AllKept(old(table), Inst(), table, Inst() - {cur} + {next}, any)
      ensures log == old(log) + touched && NoRepeats(touched)
      ensures forall z :: z in touched <==> !SameAt(table, old(table), z)
      ensures AllCarried(Inst(), touched)
    {
      hide Kept, Progress, Logs, Overlooked, Occupied, Distinct, Holds, RtCmp, Side;
      ghost var after := Inst() - {cur} + {next};
      OwnZone(table, Inst(), any, cur);
      Write(cur.zone, next);
      touched := [cur.zone];
      Begun(cur, old(table), table, Inst(), after, touched);
      for k := 0 to |installed|
        invariant log == old(log) + touched && forall z | z in touched :: z in table
        invariant Progress(cur, k, old(table), table, Inst(), after, touched)
        invariant cur.zone in table && table[cur.zone] == next
      {
        ghost var before := table;
        Pending(cur, k, old(table), before, Inst(), after, touched);
        var more1 := SwitchConflict(cur, next, installed[k]);
        StepDone(cur, k, old(table), before, table, Inst(), after, touched, more1);
        touched := touched + more1;
      }
      SwitchDone(cur, next, old(table), table, touched);
      Replaced(cur, next, old(table), table);
    }

    lemma SwitchDone(cur: Route, next: Route, t0: Kernel, now: Kernel, touched: seq<Zone>)
      requires IsStream(installed, any) && AllFine(t0, Inst(), any)
      requires cur in Inst() && next.zone == cur.zone && next != cur
      requires Progress(cur, |installed|, t0, now, Inst(), Inst() - {cur} + {next}, touched)
      requires forall z | z in touched :: z in now
      ensures forall z | z != cur.zone :: Kept(t0, Inst(), now, Inst() - {cur} + {next}, any, z)
      ensures NoRepeats(touched) && forall z :: z in touched <==> !SameAt(now, t0, z)
      ensures AllCarried(Inst(), touched)
    {
      assert Inst() + {cur} == Inst();
      FromRoutes(cur, touched);
      var after := Inst() - {cur} + {next};
      forall z | z != cur.zone ensures Kept(t0, Inst(), now, after, any, z) {
        BystanderOrDealt(cur, z);
        if !Dealt(cur, |installed|, z) {
          forall r { SwitchZone(Inst(), cur, next, z, r); }
          assert !Holds(Inst(), z, cur) && !Holds(Inst(), z, next);
          assert Occupied(Inst(), z) <==> Occupied(after, z);
          SameHolders(t0, Inst(), after, any, z);
          assert Fine(t0, Inst(), any, z);
        }
      }
    }

    lemma Replaced(cur: Route, next: Route, t0: Kernel, now: Kernel)
      requires Distinct(Inst()) && cur in Inst() && next.zone == cur.zone
      requires cur.zone in now && now[cur.zone] == next
      requires forall z | z != cur.zone :: Kept(t0, Inst(), now, Inst() - {cur} + {next}, any, z)
      ensures AllKept(t0, Inst(), now, Inst() - {cur} + {next}, any)
    {
      assert Holds(Inst() - {cur} + {next}, cur.zone, next);
      assert Kept(t0, Inst(), now, Inst() - {cur} + {next}, any, cur.zone);
    }

    /** kchange_route_metric */
    method KChangeRouteMetric(route: Route, metric: nat) returns (ghost touched: seq<Zone>)
      requires IsStream(installed, any) && AllFine(table, Inst(), any) && route in Inst() && metric != route.metric
      modifies this`table, this`log
      ensures AllKept(old(table), Inst(), table, Inst() - {route} + {route.(metric := metric)}, any)
      ensures log == old(log) + touched && NoRepeats(touched)
      ensures forall z :: z in touched <==> !SameAt(table, old(table), z)
    {
      touched := KSwitchRoutes(route, route.(metric := metric));
    }

    // -------------------------------------------------------------- route.c

    /** Whatever was installed, uninstalled and switched: nothing in the kernel is wrong, and nothing is missing but
        entries for zones that conflict_solution overlooks. */
    ghost predicate Valid()
      reads this
    {
      IsStream(installed, any) && AllFine(table, Inst(), any)
    }

    /** The kernel is the one computed from scratch. */
    ghost predicate Complete()
      reads this
    {
      Mirrors(table, Inst())
    }

    /** install_route: a second route to an installed destination is refused. */
    method InstallRoute(route: Route) returns (ghost touched: seq<Zone>)
      requires Valid() && !(route.zone.src < any)
      modifies this
      ensures log == old(log) + touched && Logs(old(table), table, touched)
      ensures AllCarried(old(Inst()) + {route}, touched)
      ensures Valid() && (old(Complete()) ==> Complete())
      ensures Inst() == if Occupied(old(Inst()), route.zone) then old(Inst()) else old(Inst()) + {route}
    {
      touched := [];
      if IsInstalled(route.zone) {
        return;
      }
      ghost var was, t0 := Inst(), table;
      touched := KInstallRoute(route);
      KeptAll(t0, was, table, was + {route}, any);
      StreamWith(installed, any, route);
      installed := if route.zone.src != any then [route] + installed else installed + [route];
    }

    /** uninstall_route: the only operation that can leave the kernel without an entry, and exactly when the holder of
        the zone is overlooked. */
    method UninstallRoute(route: Route) returns (ghost touched: seq<Zone>)
      requires Valid() && route in Inst()
      modifies this
      ensures log == old(log) + touched && Logs(old(table), table, touched) && AllCarried(old(Inst()), touched)
      ensures Valid() && Inst() == old(Inst()) - {route}
      ensures Correct(table, Inst(), route.zone) <==> !Overlooked(Inst(), any, route.zone)
      ensures old(Complete()) ==> (Complete() <==> !Overlooked(Inst(), any, route.zone))
    {
      ghost var was, t0 := Inst(), table;
      var i :| 0 <= i < |installed| && installed[i] == route;
      StreamWithout(installed, any, i);
      installed := installed[..i] + installed[i + 1..];
      assert Inst() + {route} == was;
      touched := KUninstallRoute(route);
      forall z ensures Fine(table, Inst(), any, z) {
        assert z != route.zone ==> Kept(t0, was, table, Inst(), any, z);
      }
      if old(Complete()) && !Overlooked(Inst(), any, route.zone) {
        forall z ensures Correct(table, Inst(), z) {
          assert Correct(t0, was, z);
          assert z != route.zone ==> Kept(t0, was, table, Inst(), any, z);
        }
      }
    }

    /** switch_routes, once an old route is installed. */
    method SwitchRoutes(cur: Route, next: Route) returns (ghost touched: seq<Zone>)
      requires Valid() && cur in Inst() && next.zone == cur.zone && next != cur
      modifies this
      ensures log == old(log) + touched && Logs(old(table), table, touched) && AllCarried(old(Inst()), touched)
      ensures Valid() && (old(Complete()) ==> Complete()) && Inst() == old(Inst()) - {cur} + {next}
    {
      ghost var was, t0 := Inst(), table;
      touched := KSwitchRoutes(cur, next);
      KeptAll(t0, was, table, was - {cur} + {next}, any);
      var i :| 0 <= i < |installed| && installed[i] == cur;
      StreamSwitched(installed, any, i, next);
      installed := installed[i := next];
    }

    /** One of the first `k` steps dealt with zone `z`. */
    ghost predicate Dealt(route: Route, k: nat, z: Zone)
      reads this`installed
      requires k <= |installed|
    {
      exists j | 0 <= j < k :: Representative(Inst(), route, z, installed[j])
    }

    /** What is written is the zone of the route, or that of a conflict with it. */
    lemma FromRoutes(route: Route, touched: seq<Zone>)
      requires forall z | z in touched :: z == route.zone || Dealt(route, |installed|, z)
      ensures AllCarried(Inst() + {route}, touched)
    {
      forall z | z in touched ensures Carried(Inst() + {route}, z) {
        if z == route.zone {
          assert z == Zone(route.zone.dst, route.zone.src);
        } else {
          var j :| 0 <= j < |installed| && Representative(Inst(), route, z, installed[j]);
          ConflictShape(z, route, installed[j]);
        }
      }
    }

    lemma OnlyRepresentative(route: Route, k: nat, z: Zone)
      requires IsStream(installed, any) && k < |installed| && Representative(Inst(), route, z, installed[k])
      ensures !Dealt(route, k, z)
    {
    }

    /** How far a loop over the installed routes has come that starts from the kernel `t0` for `inst0`, and makes it
        fine for `inst1`: the zones that a step dealt with are done, others but that of the route are as they were. */
    ghost predicate Progress(route: Route, k: nat, t0: Kernel, now: Kernel, inst0: set<Route>, inst1: set<Route>,
                             touched: seq<Zone>)
      reads this`installed
      requires k <= |installed|
    {
      && (forall z | z != route.zone ::
            if Dealt(route, k, z) then Kept(t0, inst0, now, inst1, any, z) else SameAt(now, t0, z))
      && Logs(t0, now, touched)
      && forall z | z in touched :: z == route.zone || Dealt(route, k, z)
    }

    /** Nothing is dealt with when a loop begins, but perhaps the zone of the route. */
    lemma Begun(route: Route, t0: Kernel, now: Kernel, inst0: set<Route>, inst1: set<Route>, touched: seq<Zone>)
      requires if touched == [] then now == t0
               else touched == [route.zone] && !SameAt(now, t0, route.zone)
                    && forall z | z != route.zone :: SameAt(now, t0, z)
      ensures Progress(route, 0, t0, now, inst0, inst1, touched)
    {
    }

    /** A zone that no step has dealt with is as the kernel had it when the loop began. */
    lemma Pending(route: Route, k: nat, t0: Kernel, before: Kernel, inst0: set<Route>, inst1: set<Route>,
                  touched: seq<Zone>)
      requires IsStream(installed, any) && k < |installed| && AllFine(t0, inst0, any)
      requires Progress(route, k, t0, before, inst0, inst1, touched)
      ensures forall z | Representative(Inst(), route, z, installed[k]) :: Fine(before, inst0, any, z)
    {
      forall z | Representative(Inst(), route, z, installed[k]) ensures Fine(before, inst0, any, z) {
        OnlyRepresentative(route, k, z);
        ConflictShape(z, route, installed[k]);
        assert SameAt(before, t0, z) && Fine(t0, inst0, any, z);
      }
    }

    /** One step of a loop adds the zones it represents to those that are done. */
    lemma StepDone(route: Route, k: nat, t0: Kernel, before: Kernel, after: Kernel, inst0: set<Route>,
                   inst1: set<Route>, touched: seq<Zone>, more: seq<Zone>)
      requires IsStream(installed, any) && k < |installed|
      requires Progress(route, k, t0, before, inst0, inst1, touched)
      requires forall z | Representative(Inst(), route, z, installed[k]) :: Kept(before, inst0, after, inst1, any, z)
      requires forall z | !Representative(Inst(), route, z, installed[k]) :: SameAt(after, before, z)
      requires |more| <= 1 && Logs(before, after, more)
      requires forall z | z in more :: Representative(Inst(), route, z, installed[k])
      ensures Progress(route, k + 1, t0, after, inst0, inst1, touched + more)
      ensures SameAt(after, before, route.zone)
      ensures (forall z | z in touched :: z in before) && (forall z | z in more :: z in after)
              ==> forall z | z in touched + more :: z in after
    {
      hide Kept, Dealt, NoRepeats, Logs, Representative;
      forall z
        ensures Dealt(route, k + 1, z) <==> Dealt(route, k, z) || Representative(Inst(), route, z, installed[k])
        ensures Representative(Inst(), route, z, installed[k]) ==> !Dealt(route, k, z) && z != route.zone
      {
        OneMoreDealt(route, k, z);
      }
      forall z | z != route.zone
        ensures if Dealt(route, k + 1, z) then Kept(t0, inst0, after, inst1, any, z) else SameAt(after, t0, z)
      {
        OneMoreDealt(route, k, z);
        SameKept(t0, before, after, inst0, inst1, any, z);
      }
      OneMoreDealt(route, k, route.zone);
      LogsMore(t0, before, after, touched, more);
    }

    lemma OneMoreDealt(route: Route, k: nat, z: Zone)
      requires IsStream(installed, any) && k < |installed|
      ensures Dealt(route, k + 1, z) <==> Dealt(route, k, z) || Representative(Inst(), route, z, installed[k])
      ensures Representative(Inst(), route, z, installed[k]) ==> !Dealt(route, k, z) && z != route.zone
    {
      ConflictShape(z, route, installed[k]);
      if Representative(Inst(), route, z, installed[k]) {
        OnlyRepresentative(route, k, z);
      }
    }

    /** A zone where the route conflicts has a least partner. */
    lemma BystanderOrDealt(route: Route, z: Zone)
      requires IsStream(installed, any)
      ensures Occupied(Inst(), z) || (forall p :: !Partner(Inst(), z, route, p)) || Dealt(route, |installed|, z)
    {
      if p :| Partner(Inst(), z, route, p) && !Occupied(Inst(), z) {
        var m := LeastPartner(Inst(), z, route, p);
        var j :| 0 <= j < |installed| && installed[j] == m;
        assert Representative(Inst(), route, z, installed[j]);
      }
    }
  }

  predicate NoRepeats(zones: seq<Zone>) { forall i, j | 0 <= i < j < |zones| :: zones[i] != zones[j] }

  lemma AppendNoRepeats(a: seq<Zone>, b: seq<Zone>)
    requires NoRepeats(a) && |b| <= 1 && forall z | z in b :: z !in a
    ensures NoRepeats(a + b)
  {
    forall i, j | 0 <= i < j < |a + b| ensures (a + b)[i] != (a + b)[j] {
      if j >= |a| {
        assert b[j - |a|] in b;
      }
    }
  }

  lemma {:induction false} LeastPartner(inst: set<Route>, z: Zone, r: Route, p: Route) returns (m: Route)
    requires Distinct(inst) && Partner(inst, z, r, p)
    ensures MinPartner(inst, z, r, Some(m))
    decreases inst
  {
    var rest := inst - {p};
    m := p;
    if q :| Partner(rest, z, r, q) {
      var n := LeastPartner(rest, z, r, q);
      PartnerOrder(inst, z, r, p, n);
      m := if RtCmp(p, n) < 0 then p else n;
      forall x | Partner(inst, z, r, x) ensures RtCmp(m, x) <= 0 {
        assert x == p || Partner(rest, z, r, x);
        PartnerOrder(inst, z, r, m, x);
        PartnerOrder(inst, z, r, n, x);
        PartnerOrder(inst, z, r, p, x);
      }
    } else {
      PartnerOrder(inst, z, r, p, p);
      forall x | Partner(inst, z, r, x) ensures x == p {
        assert x == p || Partner(rest, z, r, x);
      }
    }
  }

  lemma LogsMore(t0: Kernel, before: Kernel, after: Kernel, touched: seq<Zone>, more: seq<Zone>)
    requires Logs(t0, before, touched) && Logs(before, after, more) && |more| <= 1
    requires forall z | z in touched :: z !in more && SameAt(after, before, z)
    requires forall z | z in more :: SameAt(before, t0, z)
    ensures Logs(t0, after, touched + more)
  {
    AppendNoRepeats(touched, more);
    hide NoRepeats;
    forall z ensures !SameAt(after, t0, z) ==> z in touched + more {
      if z !in touched { assert SameAt(before, t0, z); }
      if z !in more { assert SameAt(after, before, z); }
    }
    forall z | z in touched + more ensures SameAt(after, t0, z) ==> z !in after {
      assert z in touched || z in more;
    }
  }

  lemma SameKept(t0: Kernel, before: Kernel, after: Kernel, inst0: set<Route>, inst1: set<Route>, any: Bits, z: Zone)
    ensures SameAt(after, before, z) && Kept(t0, inst0, before, inst1, any, z) ==> Kept(t0, inst0, after, inst1, any, z)
    ensures SameAt(before, t0, z) && Kept(before, inst0, after, inst1, any, z) ==> Kept(t0, inst0, after, inst1, any, z)
  {
    hide Holds, Overlooked;
  }

  lemma KeptAll(k0: Kernel, inst0: set<Route>, k1: Kernel, inst1: set<Route>, any: Bits)
    requires AllKept(k0, inst0, k1, inst1, any)
    ensures AllFine(k1, inst1, any) && (Mirrors(k0, inst0) ==> Mirrors(k1, inst1))
  {
    hide Correct, Overlooked;
    forall z ensures Fine(k1, inst1, any, z) && (Correct(k0, inst0, z) ==> Correct(k1, inst1, z)) {
      assert Kept(k0, inst0, k1, inst1, any, z);
    }
  }

  lemma StreamWith(s: seq<Route>, any: Bits, r: Route)
    requires IsStream(s, any) && !Occupied(SetOf(s), r.zone) && !(r.zone.src < any)
    ensures var t := if r.zone.src != any then [r] + s else s + [r];
            IsStream(t, any) && SetOf(t) == SetOf(s) + {r}
  {
    assert r !in s;
    var t := if r.zone.src != any then [r] + s else s + [r];
    assert SetOf(t) == SetOf(s) + {r};
    assert forall a | a in s :: a.zone != r.zone by {
      assert forall a | a in s :: a in SetOf(s);
    }
  }

  lemma Removed(s: seq<Route>, i: nat)
    requires i < |s|
    ensures var t := s[..i] + s[i + 1..];
            && (forall k | 0 <= k < |t| :: t[k] == s[if k < i then k else k + 1])
            && (forall r | r in s && r != s[i] :: r in t)
            && (Once(s) ==> Once(t) && s[i] !in t)
  {
    var t := s[..i] + s[i + 1..];
    forall r | r in s && r != s[i] ensures r in t {
      var j :| 0 <= j < |s| && s[j] == r;
      assert t[if j < i then j else j - 1] == r;
    }
  }

  lemma StreamWithout(s: seq<Route>, any: Bits, i: nat)
    requires IsStream(s, any) && i < |s|
    ensures var t := s[..i] + s[i + 1..];
            IsStream(t, any) && SetOf(t) == SetOf(s) - {s[i]} && !Occupied(SetOf(t), s[i].zone)
  {
    hide Once;
    Removed(s, i);
    var t := s[..i] + s[i + 1..];
    assert SetOf(t) == SetOf(s) - {s[i]};
  }

  lemma StreamSwitched(s: seq<Route>, any: Bits, i: nat, r: Route)
    requires IsStream(s, any) && i < |s| && r.zone == s[i].zone && r != s[i]
    ensures IsStream(s[i := r], any) && SetOf(s[i := r]) == SetOf(s) - {s[i]} + {r}
  {
    var t := s[i := r];
    forall x | x in SetOf(s) - {s[i]} + {r} ensures x in t {
      if x == r {
        assert t[i] == r;
      } else {
        var j :| 0 <= j < |s| && s[j] == x;
        assert t[j] == x;
      }
    }
    forall x | x in t ensures x in SetOf(s) - {s[i]} + {r} {
      var j :| 0 <= j < |t| && t[j] == x;
      assert j != i ==> s[j] == x && s[j] in s;
    }
    assert r !in s by { assert s[i] in SetOf(s); }
  }

  // ---------------------------------------------------------------- the overlooked holder

  /** Every overlooked zone without an entry is misrouted: of the packets from and to just this zone, the routing table
      gives the holder, the kernel something else. */
  lemma MissingMisroutes(k: Kernel, inst: set<Route>, z: Zone, w: Route)
    requires Distinct(inst) && AllFine(k, inst, []) && z !in k
    requires !Occupied(inst, z) && Holds(inst, z, w) && w.zone.src == []
    ensures RibLookup(inst, z.dst, z.src) == Some(w) && KernelLookup(k, z.dst, z.src) != Some(w)
  {
    HolderShape(inst, z, w);
    RibGives(inst, z, w);
    var s :| Wide(inst, z, s);
    assert Fine(k, inst, [], s.zone);
    OwnZone(k, inst, [], s);
    BestEntry(k, z.dst, z.src);
    forall y | SourceFirst(k, z.dst, z.src, y) ensures k[y] != w {
      SameLength(y.src, z.src, z.src);
      assert y != z && Fine(k, inst, [], y);
      if !Occupied(inst, y) {
        HolderShape(inst, y, k[y]);
      }
    }
  }

  lemma RibGives(inst: set<Route>, z: Zone, w: Route)
    requires Distinct(inst) && !Occupied(inst, z) && Deep(inst, z, w)
    requires forall d | Deep(inst, z, d) :: |d.zone.src| <= |w.zone.src|
    ensures RibLookup(inst, z.dst, z.src) == Some(w)
  {
    forall r | r in inst && Matches(r.zone, z.dst, z.src)
      ensures |r.zone.dst| < |w.zone.dst| || (|r.zone.dst| == |w.zone.dst| && |r.zone.src| <= |w.zone.src|)
      ensures |r.zone.dst| == |w.zone.dst| && |r.zone.src| == |w.zone.src| ==> r == w
    {
      SameLength(r.zone.dst, z.dst, z.dst);
      SameLength(r.zone.src, w.zone.src, z.src);
      assert r.zone != z;
      if |r.zone.dst| == |z.dst| { assert Deep(inst, z, r); }
    }
    assert DestinationFirst(inst, z.dst, z.src, w);
  }

  ghost predicate ForwardsAll(k: Kernel, inst: set<Route>) {
    forall dst, src :: KernelLookup(k, dst, src) == RibLookup(inst, dst, src)
  }

  /** A kernel that lacks at most overlooked entries forwards every packet as the routing table says exactly when it
      lacks none. */
  lemma ForwardsExactly(k: Kernel, inst: set<Route>)
    requires Distinct(inst) && AllFine(k, inst, [])
    ensures ForwardsAll(k, inst) <==> Mirrors(k, inst)
  {
    if Mirrors(k, inst) {
      forall dst, src ensures KernelLookup(k, dst, src) == RibLookup(inst, dst, src) {
        KernelForwardsAsRib(k, inst, dst, src);
      }
    } else {
      var z :| !Correct(k, inst, z);
      assert Fine(k, inst, [], z);
      var w :| Holds(inst, z, w) && w.zone.src == [];
      MissingMisroutes(k, inst, z, w);
    }
  }

  const ONE: Bits := [true]

  /** The routes to ONE from anywhere, and to anywhere from ONE, conflict over the packets to ONE from ONE.
      If a route for exactly these packets is removed, the kernel keeps no entry for them, and hands them to
      the route that the routing table ranks second. */
  lemma OverlookedMisroutes(toOne: Route, fromOne: Route)
    requires toOne.zone == Zone(ONE, []) && fromOne.zone == Zone([], ONE)
    ensures var inst := {toOne, fromOne};
            var kernel: Kernel := map[toOne.zone := toOne, fromOne.zone := fromOne];
            && Holds(inst, Zone(ONE, ONE), toOne) && toOne.zone.src == []
            && (forall z | z != Zone(ONE, ONE) :: Correct(kernel, inst, z))
            && RibLookup(inst, ONE, ONE) == Some(toOne)
            && KernelLookup(kernel, ONE, ONE) == Some(fromOne)
  {
    var inst := {toOne, fromOne};
    var kernel: Kernel := map[toOne.zone := toOne, fromOne.zone := fromOne];
    var z := Zone(ONE, ONE);
    assert Wide(inst, z, fromOne) && Deep(inst, z, toOne);
    HolderShape(inst, z, toOne);
    forall y | y != z ensures Correct(kernel, inst, y) {
      if Occupied(inst, y) {
        assert Holds(inst, y, kernel[y]);
      } else {
        forall r ensures !Holds(inst, y, r) {
          HolderShape(inst, y, r);
        }
        assert y !in kernel by { assert toOne in inst && fromOne in inst; }
      }
    }
    assert DestinationFirst(inst, ONE, ONE, toOne);
    forall r | DestinationFirst(inst, ONE, ONE, r) ensures r == toOne {}
    assert SourceFirst(kernel, ONE, ONE, fromOne.zone);
    forall y | SourceFirst(kernel, ONE, ONE, y) ensures y == fromOne.zone {}
  }
}
