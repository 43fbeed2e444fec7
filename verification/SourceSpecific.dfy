/** Source-specific routing over a kernel that is looked up source-first (disambiguation.c): what the kernel
    must hold so that it forwards as the routing table, looked up destination-first, says.
    Prefixes are bit strings; SeenPrefixes says which strings prefix_cmp compares, and Prefix.PrefixCmpExactly
    for which byte lengths it does. */
module SourceSpecific {
  import opened Common
  import opened Prefix

  /** The packets to `dst` that come from `src`. */
  datatype Zone = Zone(dst: Bits, src: Bits)

  /** `hop` stands for next hop and interface. */
  datatype Route = Route(zone: Zone, hop: nat, metric: nat)

  type Kernel = map<Zone, Route>

  // ---------------------------------------------------------------- the functions of disambiguation.c

  function RtCmp(r1: Route, r2: Route): int {
    match Compare(r1.zone.dst, r2.zone.dst)
    case MoreSpecific => -1
    case LessSpecific => 1
    case _ =>
      match Compare(r1.zone.src, r2.zone.src)
      case MoreSpecific => -1
      case LessSpecific => 1
      case _ => 0
  }

  function MinRoute(r1: Route, r2: Option<Route>): Route {
    if r2.None? || RtCmp(r1, r2.value) <= 0 then r1 else r2.value
  }

  predicate Conflicts(r1: Route, r2: Route) {
    var dst, src := Compare(r1.zone.dst, r2.zone.dst), Compare(r1.zone.src, r2.zone.src);
    (dst == LessSpecific && src == MoreSpecific) || (dst == MoreSpecific && src == LessSpecific)
  }

  function Inter(r1: Route, r2: Route): Option<Zone> {
    var dst, src := Compare(r1.zone.dst, r2.zone.dst), Compare(r1.zone.src, r2.zone.src);
    if dst == Disjoint || src == Disjoint then None
    else Some(Zone(if dst == MoreSpecific || dst == Equals then r1.zone.dst else r2.zone.dst,
                   if src == MoreSpecific || src == Equals then r1.zone.src else r2.zone.src))
  }

  // ---------------------------------------------------------------- what the kernel must hold

  ghost predicate Distinct(inst: set<Route>) {
    forall r1, r2 | r1 in inst && r2 in inst :: r1.zone == r2.zone ==> r1 == r2
  }

  ghost predicate Occupied(inst: set<Route>, z: Zone) { exists r | r in inst :: r.zone == z }

  /** `p` is an installed route that conflicts with `r` exactly over `z`. */
  predicate Partner(inst: set<Route>, z: Zone, r: Route, p: Route) {
    p in inst && Conflicts(r, p) && Inter(r, p) == Some(z)
  }

  /** `r` is one side of a conflict over `z`. */
  ghost predicate InConflict(inst: set<Route>, z: Zone, r: Route) {
    r in inst && exists p :: Partner(inst, z, r, p)
  }

  /** The route that must decide in `z`: the one installed for `z`, else the rt_cmp-minimal side of the
      conflicts over `z`. */
  ghost predicate Holds(inst: set<Route>, z: Zone, r: Route) {
    if Occupied(inst, z) then r in inst && r.zone == z
    else InConflict(inst, z, r) && forall r' | InConflict(inst, z, r') :: RtCmp(r, r') <= 0
  }

  ghost predicate Correct(k: Kernel, inst: set<Route>, z: Zone) {
    if z in k then Holds(inst, z, k[z]) else forall r :: !Holds(inst, z, r)
  }

  /** The kernel is the table computed from scratch from the installed routes. */
  ghost predicate Mirrors(k: Kernel, inst: set<Route>) { forall z :: Correct(k, inst, z) }

  // ---------------------------------------------------------------- lookup

  predicate Matches(z: Zone, dst: Bits, src: Bits) { z.dst <= dst && z.src <= src }

  /** inter gives the packets that both routes match, and none if there are no such packets. */
  lemma InterIsIntersection(r1: Route, r2: Route)
    ensures Inter(r1, r2) == None <==> forall dst, src :: !(Matches(r1.zone, dst, src) && Matches(r2.zone, dst, src))
    ensures Inter(r1, r2).Some? ==> forall dst, src ::
              Matches(Inter(r1, r2).value, dst, src) <==> Matches(r1.zone, dst, src) && Matches(r2.zone, dst, src)
  {
    if Inter(r1, r2).Some? {
      var z := Inter(r1, r2).value;
      forall dst, src
        ensures Matches(z, dst, src) <==> Matches(r1.zone, dst, src) && Matches(r2.zone, dst, src)
      {
        Nested(r1.zone.dst, r2.zone.dst, dst);
        Nested(r1.zone.src, r2.zone.src, src);
      }
      assert Matches(z, z.dst, z.src);
    } else {
      forall dst, src ensures !(Matches(r1.zone, dst, src) && Matches(r2.zone, dst, src)) {
        Nested(r1.zone.dst, r2.zone.dst, dst);
        Nested(r1.zone.src, r2.zone.src, src);
      }
    }
  }

  /** Prefixes of one string are nested. */
  lemma Nested(a: Bits, b: Bits, c: Bits)
    ensures a <= c && b <= c ==> a <= b || b <= a
    ensures a <= b <= c ==> a <= c
  {
  }

  /** Two routes conflict if each of them is the more specific one in one respect. */
  lemma ConflictsMeans(r1: Route, r2: Route)
    ensures Conflicts(r1, r2) <==>
              || (r2.zone.dst < r1.zone.dst && r1.zone.src < r2.zone.src)
              || (r1.zone.dst < r2.zone.dst && r2.zone.src < r1.zone.src)
    ensures Conflicts(r1, r2) <==> Conflicts(r2, r1)
  {
  }

  /** `r` wins the destination-first longest-prefix lookup. */
  ghost predicate DestinationFirst(inst: set<Route>, dst: Bits, src: Bits, r: Route) {
    && r in inst && Matches(r.zone, dst, src)
    && forall r' | r' in inst && Matches(r'.zone, dst, src) ::
         |r'.zone.dst| < |r.zone.dst| || (|r'.zone.dst| == |r.zone.dst| && |r'.zone.src| <= |r.zone.src|)
  }

  /** `z` wins the source-first lookup: the table of the longest source prefix, and the longest match in it. */
  ghost predicate SourceFirst(k: Kernel, dst: Bits, src: Bits, z: Zone) {
    && z in k && Matches(z, dst, src)
    && forall z' | z' in k && Matches(z', dst, src) ::
         |z'.src| < |z.src| || (|z'.src| == |z.src| && |z'.dst| <= |z.dst|)
  }

  ghost function RibLookup(inst: set<Route>, dst: Bits, src: Bits): Option<Route> {
    if exists r :: DestinationFirst(inst, dst, src, r)
    then var r :| DestinationFirst(inst, dst, src, r); Some(r) else None
  }

  ghost function KernelLookup(k: Kernel, dst: Bits, src: Bits): Option<Route> {
    if exists z :: SourceFirst(k, dst, src, z)
    then var z :| SourceFirst(k, dst, src, z); Some(k[z]) else None
  }

  // ---------------------------------------------------------------- the shape of conflicts

  /** `r` can be the side of a conflict over `z` that is specific in the destination. */
  predicate IsDeep(z: Zone, r: Route) { r.zone.dst == z.dst && r.zone.src < z.src }

  /** `r` can be the side of a conflict over `z` that is specific in the source. */
  predicate IsWide(z: Zone, r: Route) { r.zone.src == z.src && r.zone.dst < z.dst }

  predicate Deep(inst: set<Route>, z: Zone, r: Route) { r in inst && IsDeep(z, r) }

  predicate Wide(inst: set<Route>, z: Zone, r: Route) { r in inst && IsWide(z, r) }

  /** Conflicts over `z` are the pairs of a deep and a wide route. */
  lemma ConflictShape(z: Zone, r: Route, p: Route)
    ensures Conflicts(r, p) && Inter(r, p) == Some(z) <==>
            (IsDeep(z, r) && IsWide(z, p)) || (IsWide(z, r) && IsDeep(z, p))
  {
  }

  /** Prefixes of one string are equal when they are equally long. */
  lemma SameLength(a: Bits, b: Bits, s: Bits)
    requires a <= s && b <= s
    ensures |a| <= |b| ==> a <= b
    ensures |a| == |b| ==> a == b
  {
  }

  predicate Covers(r: Route, z: Zone) { r.zone.dst <= z.dst && r.zone.src <= z.src }

  /** Among the routes that cover a zone, rt_cmp orders by destination length, then by source length. */
  lemma RtCmpByLength(z: Zone, a: Route, b: Route)
    requires Covers(a, z) && Covers(b, z)
    ensures RtCmp(a, b) < 0 <==>
            |a.zone.dst| > |b.zone.dst| || (|a.zone.dst| == |b.zone.dst| && |a.zone.src| > |b.zone.src|)
    ensures RtCmp(a, b) == 0 <==> a.zone == b.zone
  {
  }

  /** The holder of a conflict zone is its deep route with the longest source. */
  lemma HolderShape(inst: set<Route>, z: Zone, r: Route)
    requires !Occupied(inst, z)
    ensures Holds(inst, z, r) <==>
            && Deep(inst, z, r)
            && (exists w :: Wide(inst, z, w))
            && forall d | Deep(inst, z, d) :: |d.zone.src| <= |r.zone.src|
  {
    forall a | a in inst
      ensures InConflict(inst, z, a) <==>
              (Deep(inst, z, a) && exists w :: Wide(inst, z, w)) || (Wide(inst, z, a) && exists d :: Deep(inst, z, d))
    {
      forall p
        ensures Partner(inst, z, a, p) <==>
                (Deep(inst, z, a) && Wide(inst, z, p)) || (Wide(inst, z, a) && Deep(inst, z, p))
      {
        ConflictShape(z, a, p);
      }
    }
    forall a, b | (Deep(inst, z, a) || Wide(inst, z, a)) && (Deep(inst, z, b) || Wide(inst, z, b))
      ensures RtCmp(a, b) < 0 <==>
            |a.zone.dst| > |b.zone.dst| || (|a.zone.dst| == |b.zone.dst| && |a.zone.src| > |b.zone.src|)
      ensures RtCmp(a, b) == 0 <==> a.zone == b.zone
    {
      RtCmpByLength(z, a, b);
    }
    forall w, d | Wide(inst, z, w) && Deep(inst, z, d) ensures RtCmp(w, d) > 0 {
      RtCmpByLength(z, w, d);
    }
    if Holds(inst, z, r) {
      forall d | Deep(inst, z, d) ensures |d.zone.src| <= |r.zone.src| {
        assert InConflict(inst, z, d);
      }
    }
  }

  lemma HolderUnique(inst: set<Route>, z: Zone, r1: Route, r2: Route)
    requires Distinct(inst) && Holds(inst, z, r1) && Holds(inst, z, r2)
    ensures r1 == r2
  {
  }

  /** The installed routes determine the kernel. */
  lemma MirrorUnique(k1: Kernel, k2: Kernel, inst: set<Route>)
    requires Distinct(inst) && Mirrors(k1, inst) && Mirrors(k2, inst)
    ensures k1 == k2
  {
    forall z | z in k1 ensures z in k2 && k1[z] == k2[z] {
      assert Correct(k1, inst, z) && Correct(k2, inst, z);
      HolderUnique(inst, z, k1[z], k2[z]);
    }
    forall z | z in k2 ensures z in k1 {
      assert Correct(k1, inst, z) && Correct(k2, inst, z);
    }
  }

  // ---------------------------------------------------------------- the two lookups agree

  /** Every entry of a mirroring kernel is matched by installed routes that carry its prefixes. */
  lemma EntrySides(k: Kernel, inst: set<Route>, z: Zone) returns (d: Route, s: Route)
    requires Mirrors(k, inst) && z in k
    ensures d in inst && d.zone.dst == z.dst && d.zone.src <= z.src
    ensures s in inst && s.zone.src == z.src && s.zone.dst <= z.dst
  {
    assert Correct(k, inst, z);
    d := k[z];
    if Occupied(inst, z) {
      s := d;
    } else {
      HolderShape(inst, z, d);
      s :| Wide(inst, z, s);
    }
  }

  /** An installed route is in the kernel under its own zone. */
  lemma OwnEntry(k: Kernel, inst: set<Route>, r: Route)
    requires Distinct(inst) && Mirrors(k, inst) && r in inst
    ensures r.zone in k && k[r.zone] == r
  {
    assert Correct(k, inst, r.zone);
    assert Holds(inst, r.zone, r);
  }

  /** The entry that the source-first lookup finds belongs to the destination-first winner. */
  lemma WinnersAgree(k: Kernel, inst: set<Route>, dst: Bits, src: Bits, z: Zone, r: Route)
    requires Distinct(inst) && Mirrors(k, inst)
    requires SourceFirst(k, dst, src, z) && DestinationFirst(inst, dst, src, r)
    ensures k[z] == r
  {
    OwnEntry(k, inst, r);
    var d, s := EntrySides(k, inst, z);
    assert Matches(d.zone, dst, src) && Matches(s.zone, dst, src);
    SameLength(z.dst, r.zone.dst, dst);
    SameLength(r.zone.src, z.src, src);
    SameLength(s.zone.dst, r.zone.dst, dst);
    if |r.zone.src| == |z.src| {
      assert z == r.zone;
    } else {
      var y := Zone(r.zone.dst, z.src);
      assert Deep(inst, y, r) && Wide(inst, y, s);
      forall o | o in inst ensures o.zone != y {
        assert o.zone == y ==> Matches(o.zone, dst, src);
      }
      forall d' | Deep(inst, y, d') ensures |d'.zone.src| <= |r.zone.src| {
        assert Matches(d'.zone, dst, src);
      }
      HolderShape(inst, y, r);
      assert Correct(k, inst, y) && Holds(inst, y, r);
      HolderUnique(inst, y, r, k[y]);
      assert Matches(y, dst, src);
      assert |y.dst| <= |z.dst|;
      assert z == y;
    }
  }

  predicate LongerDestination(a: Zone, b: Zone) { |a.dst| > |b.dst| || (|a.dst| == |b.dst| && |a.src| > |b.src|) }

  lemma {:induction false} BestMatch(inst: set<Route>, dst: Bits, src: Bits)
    requires exists r | r in inst :: Matches(r.zone, dst, src)
    ensures exists r :: DestinationFirst(inst, dst, src, r)
    decreases |inst|
  {
    var r :| r in inst && Matches(r.zone, dst, src);
    var rest := inst - {r};
    if exists r' | r' in rest :: Matches(r'.zone, dst, src) {
      BestMatch(rest, dst, src);
      var b :| DestinationFirst(rest, dst, src, b);
      var w := if LongerDestination(b.zone, r.zone) then b else r;
      forall r' | r' in inst && Matches(r'.zone, dst, src)
        ensures |r'.zone.dst| < |w.zone.dst| || (|r'.zone.dst| == |w.zone.dst| && |r'.zone.src| <= |w.zone.src|)
      {
        assert r' == r || r' in rest;
      }
      assert DestinationFirst(inst, dst, src, w);
    } else {
      forall r' | r' in inst && Matches(r'.zone, dst, src) ensures r' == r {
        assert r' == r || r' in rest;
      }
      assert DestinationFirst(inst, dst, src, r);
    }
  }

  lemma {:induction false} BestEntry(k: Kernel, dst: Bits, src: Bits)
    requires exists z | z in k :: Matches(z, dst, src)
    ensures exists z :: SourceFirst(k, dst, src, z)
    decreases |k|
  {
    var z :| z in k && Matches(z, dst, src);
    var rest := k - {z};
    assert |rest| < |k| by { assert rest.Keys == k.Keys - {z}; }
    if exists z' | z' in rest :: Matches(z', dst, src) {
      BestEntry(rest, dst, src);
      var b :| SourceFirst(rest, dst, src, b);
      var w := if |b.src| > |z.src| || (|b.src| == |z.src| && |b.dst| > |z.dst|) then b else z;
      forall z' | z' in k && Matches(z', dst, src)
        ensures |z'.src| < |w.src| || (|z'.src| == |w.src| && |z'.dst| <= |w.dst|)
      {
        assert z' == z || z' in rest;
      }
      assert SourceFirst(k, dst, src, w);
    } else {
      forall z' | z' in k && Matches(z', dst, src) ensures z' == z {
        assert z' == z || z' in rest;
      }
      assert SourceFirst(k, dst, src, z);
    }
  }

  /** For every packet the source-first kernel forwards as the destination-first routing table says. */
  lemma KernelForwardsAsRib(k: Kernel, inst: set<Route>, dst: Bits, src: Bits)
    requires Distinct(inst) && Mirrors(k, inst)
    ensures KernelLookup(k, dst, src) == RibLookup(inst, dst, src)
  {
    if exists r | r in inst :: Matches(r.zone, dst, src) {
      BestMatch(inst, dst, src);
      var r :| r in inst && Matches(r.zone, dst, src);
      OwnEntry(k, inst, r);
      BestEntry(k, dst, src);
      forall z, r | SourceFirst(k, dst, src, z) && DestinationFirst(inst, dst, src, r) ensures k[z] == r {
        WinnersAgree(k, inst, dst, src, z, r);
      }
    } else {
      forall z | z in k ensures !Matches(z, dst, src) {
        var d, s := EntrySides(k, inst, z);
        if Matches(z, dst, src) {
          assert Matches(d.zone, dst, src);
        }
      }
    }
  }
}
