/** What prefix_cmp sees of a prefix: its bits, behind the family of its address, which it compares first. The source
    prefix of a route that is not source-specific is ::/0, in IPv4 too; so in IPv4 it contains no other source. */
module SeenPrefixes {
  import opened Common
  import opened Prefix
  import opened S = SourceSpecific

  function Seen(p: Address, plen: nat): Bits
    requires plen <= 128
  {
    [V4Mapped(p)] + BitsOf(p, plen)
  }

  /** The source of a route that is not source-specific. */
  const ANY: Bits := [false]

  lemma AnyIsSeen()
    ensures Seen(ZEROES, 0) == ANY
  {
    assert ZEROES[..12][10] == 0;
  }

  lemma Behind(f: bool, a: Bits, g: bool, b: Bits)
    ensures [f] + a <= [g] + b <==> f == g && a <= b
    ensures [f] + a == [g] + b <==> f == g && a == b
  {
    assert ([f] + a)[0] == f && ([g] + b)[0] == g;
    assert ([f] + a)[1..] == a && ([g] + b)[1..] == b;
    if f == g && a <= b {
      assert [g] + b == [f] + a + b[|a|..];
    }
  }

  /** On whole bytes, prefix_cmp is the order of what it sees, across families and within them. */
  lemma SeenIsCompare(p1: Address, plen1: nat, past1: U8, p2: Address, plen2: nat, past2: U8)
    requires plen1 <= 128 && plen2 <= 128 && Min(plen1, plen2) % 8 == 0
    ensures PrefixCmp(p1, plen1, past1, p2, plen2, past2) == Compare(Seen(p1, plen1), Seen(p2, plen2))
  {
    hide V4Mapped, BitsOf, PrefixCmp;
    Behind(V4Mapped(p1), BitsOf(p1, plen1), V4Mapped(p2), BitsOf(p2, plen2));
    Behind(V4Mapped(p2), BitsOf(p2, plen2), V4Mapped(p1), BitsOf(p1, plen1));
    if V4Mapped(p1) == V4Mapped(p2) {
      AlignedIsCompare(p1, plen1, past1, p2, plen2, past2);
    } else {
      AcrossFamilies(p1, plen1, past1, p2, plen2, past2);
    }
  }

  lemma AcrossFamilies(p1: Address, plen1: nat, past1: U8, p2: Address, plen2: nat, past2: U8)
    requires plen1 <= 128 && plen2 <= 128 && V4Mapped(p1) != V4Mapped(p2)
    ensures PrefixCmp(p1, plen1, past1, p2, plen2, past2) == Disjoint
  {
  }

  // ---------------------------------------------------------------- pairs of prefixes, as bytes

  /** The prefix pair of a route. */
  datatype Pair = Pair(prefix: Address, plen: nat, srcPrefix: Address, srcPlen: nat) {
    predicate V4() { V4Mapped(prefix) }

    /** Whole bytes; the source is ::/0, or of the family of the destination. */
    predicate Valid() {
      && plen <= 128 && plen % 8 == 0 && srcPlen <= 128 && srcPlen % 8 == 0
      && if srcPlen == 0 then srcPrefix == ZEROES else V4Mapped(srcPrefix) == V4()
    }

    /** What the pair means. */
    function Meant(): S.Route
      requires Valid()
    {
      S.Route(Zone(BitsOf(prefix, plen), BitsOf(srcPrefix, srcPlen)), 0, 0)
    }

    function SeenAs(): S.Route
      requires Valid()
    {
      S.Route(Zone(Seen(prefix, plen), Seen(srcPrefix, srcPlen)), 0, 0)
    }
  }

  /** conflicts; `x` and `y` lie behind the addresses in memory. */
  predicate ByteConflicts(a: Pair, b: Pair, x: U8, y: U8)
    requires a.Valid() && b.Valid()
  {
    var dst := PrefixCmp(a.prefix, a.plen, x, b.prefix, b.plen, y);
    dst != Disjoint && dst != Equals &&
    var src := PrefixCmp(a.srcPrefix, a.srcPlen, x, b.srcPrefix, b.srcPlen, y);
    (dst == LessSpecific && src == MoreSpecific) || (dst == MoreSpecific && src == LessSpecific)
  }

  /** rt_cmp */
  function ByteRtCmp(a: Pair, b: Pair, x: U8, y: U8): int
    requires a.Valid() && b.Valid()
  {
    match PrefixCmp(a.prefix, a.plen, x, b.prefix, b.plen, y)
    case MoreSpecific => -1
    case LessSpecific => 1
    case _ =>
      match PrefixCmp(a.srcPrefix, a.srcPlen, x, b.srcPrefix, b.srcPlen, y)
      case MoreSpecific => -1
      case LessSpecific => 1
      case _ => 0
  }

  /** inter */
  function ByteInter(a: Pair, b: Pair, x: U8, y: U8): Option<Pair>
    requires a.Valid() && b.Valid()
  {
    var dst := PrefixCmp(a.prefix, a.plen, x, b.prefix, b.plen, y);
    var src := PrefixCmp(a.srcPrefix, a.srcPlen, x, b.srcPrefix, b.srcPlen, y);
    if dst == Disjoint || src == Disjoint then None
    else
      var d := if dst == MoreSpecific || dst == Equals then a else b;
      var s := if src == MoreSpecific || src == Equals then a else b;
      Some(Pair(d.prefix, d.plen, s.srcPrefix, s.srcPlen))
  }

  /** The three functions compute, for every family, what the model computes on the prefixes as they are seen. */
  lemma BytesAreSeen(a: Pair, b: Pair, x: U8, y: U8)
    requires a.Valid() && b.Valid()
    ensures ByteConflicts(a, b, x, y) == Conflicts(a.SeenAs(), b.SeenAs())
    ensures ByteRtCmp(a, b, x, y) == RtCmp(a.SeenAs(), b.SeenAs())
    ensures match ByteInter(a, b, x, y)
            case None => Inter(a.SeenAs(), b.SeenAs()) == None
            case Some(p) => a.V4() == b.V4() ==> p.Valid() && Inter(a.SeenAs(), b.SeenAs()) == Some(p.SeenAs().zone)
  {
    hide V4Mapped, BitsOf, PrefixCmp, Compare, Seen;
    SeenIsCompare(a.prefix, a.plen, x, b.prefix, b.plen, y);
    SeenIsCompare(a.srcPrefix, a.srcPlen, x, b.srcPrefix, b.srcPlen, y);
    SameFamily(a, b);
  }

  lemma SameFamily(a: Pair, b: Pair)
    requires a.Valid() && b.Valid()
    ensures Compare(Seen(a.prefix, a.plen), Seen(b.prefix, b.plen)) != Disjoint ==> a.V4() == b.V4()
  {
    assert Seen(a.prefix, a.plen)[0] == a.V4() && Seen(b.prefix, b.plen)[0] == b.V4();
  }

  /** The non-specific route is the more specific in the destination, in IPv4. */
  predicate Unseen(n: Pair, s: Pair)
    requires n.Valid() && s.Valid()
  {
    n.V4() && n.srcPlen == 0 && s.srcPlen != 0 && BitsOf(s.prefix, s.plen) < BitsOf(n.prefix, n.plen)
  }

  /** conflicts is right about two routes of one family exactly when it is not this conflict, which it does not see. */
  lemma ConflictsExactly(a: Pair, b: Pair, x: U8, y: U8)
    requires a.Valid() && b.Valid() && a.V4() == b.V4()
    ensures ByteConflicts(a, b, x, y) == Conflicts(a.Meant(), b.Meant()) <==> !Unseen(a, b) && !Unseen(b, a)
    ensures ByteConflicts(a, b, x, y) ==> Conflicts(a.Meant(), b.Meant())
  {
    BytesAreSeen(a, b, x, y);
    hide V4Mapped, BitsOf, ByteConflicts;
    AnyIsSeen();
    Behind(a.V4(), BitsOf(a.prefix, a.plen), b.V4(), BitsOf(b.prefix, b.plen));
    Behind(b.V4(), BitsOf(b.prefix, b.plen), a.V4(), BitsOf(a.prefix, a.plen));
    var f, g := V4Mapped(a.srcPrefix), V4Mapped(b.srcPrefix);
    Behind(f, BitsOf(a.srcPrefix, a.srcPlen), g, BitsOf(b.srcPrefix, b.srcPlen));
    Behind(g, BitsOf(b.srcPrefix, b.srcPlen), f, BitsOf(a.srcPrefix, a.srcPlen));
    ZeroesUnmapped();
    Lengths(a);
    Lengths(b);
  }

  lemma ZeroesUnmapped()
    ensures !V4Mapped(ZEROES)
  {
    assert ZEROES[..12][10] == 0;
  }

  lemma Lengths(a: Pair)
    requires a.Valid()
    ensures |BitsOf(a.srcPrefix, a.srcPlen)| == a.srcPlen && |BitsOf(a.prefix, a.plen)| == a.plen
  {
  }
}

/** The kernel table of one family, maintained by functions that look at prefixes with prefix_cmp. */
module FamilyKernel {
  import opened Common
  import opened Prefix
  import opened S = SourceSpecific
  import opened KernelTable
  import opened SeenPrefixes

  /** A zone of one family, as it is seen. */
  function SeenZone(v4: bool, z: Zone): Zone {
    Zone([v4] + z.dst, [v4 && z.src != []] + z.src)
  }

  function SeenRoute(v4: bool, r: S.Route): S.Route { r.(zone := SeenZone(v4, r.zone)) }

  ghost function SeenSet(v4: bool, inst: set<S.Route>): set<S.Route> {
    set r | r in inst :: SeenRoute(v4, r)
  }

  lemma PairIsSeen(p: Pair)
    requires p.Valid()
    ensures SeenRoute(p.V4(), p.Meant()) == p.SeenAs()
  {
    ZeroesUnmapped();
    Lengths(p);
  }

  /** `table` is the kernel `k`, with its zones and routes as they are seen. */
  ghost predicate Shows(v4: bool, table: Kernel, k: Kernel) {
    && (forall z :: z in k <==> SeenZone(v4, z) in table)
    && (forall z :: z in k ==> table[SeenZone(v4, z)] == SeenRoute(v4, k[z]))
  }

  // ---------------------------------------------------------------- seeing keeps apart

  lemma ZonesApart(v4: bool, a: Zone, b: Zone)
    ensures SeenZone(v4, a) == SeenZone(v4, b) <==> a == b
    ensures SeenZone(v4, a).dst <= SeenZone(v4, b).dst <==> a.dst <= b.dst
    ensures SeenZone(v4, a).src <= SeenZone(v4, b).src <==> a.src <= b.src && (v4 ==> (a.src == [] <==> b.src == []))
  {
    Behind(v4, a.dst, v4, b.dst);
    Behind(v4 && a.src != [], a.src, v4 && b.src != [], b.src);
  }

  lemma RoutesApart(v4: bool, a: S.Route, b: S.Route)
    ensures SeenRoute(v4, a) == SeenRoute(v4, b) <==> a == b
  {
    ZonesApart(v4, a.zone, b.zone);
  }

  lemma Members(v4: bool, inst: set<S.Route>, r: S.Route)
    ensures SeenRoute(v4, r) in SeenSet(v4, inst) <==> r in inst
  {
    if SeenRoute(v4, r) in SeenSet(v4, inst) {
      var x :| x in inst && SeenRoute(v4, x) == SeenRoute(v4, r);
      RoutesApart(v4, x, r);
    }
  }

  lemma SeenDistinct(v4: bool, inst: set<S.Route>)
    ensures Distinct(SeenSet(v4, inst)) <==> Distinct(inst)
  {
    if Distinct(SeenSet(v4, inst)) {
      forall a, b | a in inst && b in inst && a.zone == b.zone ensures a == b {
        Members(v4, inst, a);
        Members(v4, inst, b);
        RoutesApart(v4, a, b);
      }
    }
    if Distinct(inst) {
      forall x, y | x in SeenSet(v4, inst) && y in SeenSet(v4, inst) && x.zone == y.zone ensures x == y {
        var a :| a in inst && SeenRoute(v4, a) == x;
        var b :| b in inst && SeenRoute(v4, b) == y;
        ZonesApart(v4, a.zone, b.zone);
      }
    }
  }

  // ---------------------------------------------------------------- who holds a zone

  lemma SeenOccupied(v4: bool, inst: set<S.Route>, z: Zone)
    ensures Occupied(SeenSet(v4, inst), SeenZone(v4, z)) <==> Occupied(inst, z)
  {
    if r :| r in inst && r.zone == z {
      assert SeenRoute(v4, r) in SeenSet(v4, inst) && SeenRoute(v4, r).zone == SeenZone(v4, z);
    }
    if x :| x in SeenSet(v4, inst) && x.zone == SeenZone(v4, z) {
      var r :| r in inst && SeenRoute(v4, r) == x;
      ZonesApart(v4, r.zone, z);
    }
  }

  /** A non-specific route is no side of a conflict that is seen in IPv4. */
  lemma SeenSides(v4: bool, inst: set<S.Route>, z: Zone, r: S.Route)
    ensures Deep(SeenSet(v4, inst), SeenZone(v4, z), SeenRoute(v4, r)) <==>
            Deep(inst, z, r) && (v4 ==> r.zone.src != [])
    ensures Wide(SeenSet(v4, inst), SeenZone(v4, z), SeenRoute(v4, r)) <==> Wide(inst, z, r)
  {
    Members(v4, inst, r);
    ZonesApart(v4, r.zone, z);
    ZonesApart(v4, z, r.zone);
    Behind(v4, r.zone.dst, v4, z.dst);
    Behind(v4 && r.zone.src != [], r.zone.src, v4 && z.src != [], z.src);
  }

  lemma SeenSome(v4: bool, inst: set<S.Route>, z: Zone)
    ensures (exists w :: Wide(SeenSet(v4, inst), SeenZone(v4, z), w)) <==> exists w :: Wide(inst, z, w)
  {
    if w :| Wide(inst, z, w) {
      SeenSides(v4, inst, z, w);
    }
    if x :| Wide(SeenSet(v4, inst), SeenZone(v4, z), x) {
      var w :| w in inst && SeenRoute(v4, w) == x;
      SeenSides(v4, inst, z, w);
    }
  }

  /** The holder of a zone is the same, but for a non-specific route that wins a conflict in IPv4. */
  lemma SeenHolder(v4: bool, inst: set<S.Route>, z: Zone, r: S.Route)
    ensures Holds(SeenSet(v4, inst), SeenZone(v4, z), SeenRoute(v4, r)) <==>
            Holds(inst, z, r) && (v4 ==> Occupied(inst, z) || r.zone.src != [])
  {
    SeenOccupied(v4, inst, z);
    if Occupied(inst, z) {
      Members(v4, inst, r);
      ZonesApart(v4, r.zone, z);
    } else {
      HolderShape(inst, z, r);
      HolderShape(SeenSet(v4, inst), SeenZone(v4, z), SeenRoute(v4, r));
      SeenSides(v4, inst, z, r);
      SeenSome(v4, inst, z);
      if v4 ==> r.zone.src != [] {
        SeenLongest(v4, inst, z, r);
      }
    }
  }

  lemma SeenLongest(v4: bool, inst: set<S.Route>, z: Zone, r: S.Route)
    requires v4 ==> r.zone.src != []
    ensures (forall d | Deep(SeenSet(v4, inst), SeenZone(v4, z), d) :: |d.zone.src| <= |SeenRoute(v4, r).zone.src|)
            <==> forall d | Deep(inst, z, d) :: |d.zone.src| <= |r.zone.src|
  {
    var seen, y := SeenSet(v4, inst), SeenZone(v4, z);
    if forall d | Deep(seen, y, d) :: |d.zone.src| <= |SeenRoute(v4, r).zone.src| {
      forall d | Deep(inst, z, d) ensures |d.zone.src| <= |r.zone.src| {
        SeenSides(v4, inst, z, d);
        assert (v4 ==> d.zone.src != []) ==> Deep(seen, y, SeenRoute(v4, d));
      }
    }
    if forall d | Deep(inst, z, d) :: |d.zone.src| <= |r.zone.src| {
      forall x | Deep(seen, y, x) ensures |x.zone.src| <= |SeenRoute(v4, r).zone.src| {
        var d :| d in inst && SeenRoute(v4, d) == x;
        SeenSides(v4, inst, z, d);
      }
    }
  }

  // ---------------------------------------------------------------- the kernel of a family

  /** What the installer keeps of a zone, said of the kernel: in IPv4 there is never an entry where a non-specific route
      should win a conflict; otherwise the entry is right, or in IPv6 overlooked. */
  ghost predicate FamilyFine(v4: bool, k: Kernel, inst: set<S.Route>, z: Zone) {
    if v4 then (if Overlooked(inst, [], z) then z !in k else Correct(k, inst, z))
    else Fine(k, inst, [], z)
  }

  /** No other source is inside that of a route that is not source-specific. */
  lemma NeverOverlookedV4(inst: set<S.Route>, y: Zone)
    ensures !Overlooked(SeenSet(true, inst), ANY, y)
  {
    var seen := SeenSet(true, inst);
    if !Occupied(seen, y) {
      forall x | Holds(seen, y, x) ensures x.zone.src != ANY {
        HolderShape(seen, y, x);
        var w :| Wide(seen, y, w);
        var r :| r in inst && SeenRoute(true, r) == w;
        Behind(false, [], r.zone.src != [], r.zone.src);
        assert ANY == [false] + [];
      }
    }
  }

  lemma OverlookedV6(inst: set<S.Route>, z: Zone)
    ensures Overlooked(SeenSet(false, inst), ANY, SeenZone(false, z)) <==> Overlooked(inst, [], z)
  {
    var seen, y := SeenSet(false, inst), SeenZone(false, z);
    SeenOccupied(false, inst, z);
    if w :| Holds(inst, z, w) && w.zone.src == [] {
      SeenHolder(false, inst, z, w);
      assert SeenRoute(false, w).zone.src == ANY;
    }
    if x :| Holds(seen, y, x) && x.zone.src == ANY && !Occupied(seen, y) {
      HolderShape(seen, y, x);
      var w :| w in inst && SeenRoute(false, w) == x;
      SeenHolder(false, inst, z, w);
    }
  }

  /** The routes that may hold a zone, as the installer sees them. */
  ghost predicate SeenHolds(v4: bool, inst: set<S.Route>, z: Zone, r: S.Route) {
    Holds(inst, z, r) && (v4 ==> Occupied(inst, z) || r.zone.src != [])
  }

  lemma HolderIsSeen(v4: bool, inst: set<S.Route>, y: Zone, x: S.Route)
    requires Holds(SeenSet(v4, inst), y, x)
    ensures exists r :: SeenRoute(v4, r) == x
  {
    HolderInstalled(SeenSet(v4, inst), y, x);
    var r :| r in inst && SeenRoute(v4, r) == x;
  }

  lemma ShownHolders(v4: bool, table: Kernel, k: Kernel, inst: set<S.Route>, z: Zone)
    requires Shows(v4, table, k)
    ensures Correct(table, SeenSet(v4, inst), SeenZone(v4, z)) <==>
            if z in k then SeenHolds(v4, inst, z, k[z]) else forall r :: !SeenHolds(v4, inst, z, r)
  {
    hide Holds, Occupied, SeenSet, SeenZone, SeenRoute;
    var seen, y := SeenSet(v4, inst), SeenZone(v4, z);
    forall r ensures Holds(seen, y, SeenRoute(v4, r)) <==> SeenHolds(v4, inst, z, r) {
      SeenHolder(v4, inst, z, r);
    }
    forall x | Holds(seen, y, x) ensures exists r :: SeenRoute(v4, r) == x {
      HolderIsSeen(v4, inst, y, x);
    }
  }

  lemma OneSource(inst: set<S.Route>, z: Zone, a: S.Route, b: S.Route)
    requires !Occupied(inst, z) && Holds(inst, z, a) && Holds(inst, z, b)
    ensures |a.zone.src| == |b.zone.src|
  {
    HolderShape(inst, z, a);
    HolderShape(inst, z, b);
  }

  /** From the table of the installer to the kernel, zone by zone. */
  lemma ShownFine(v4: bool, table: Kernel, k: Kernel, inst: set<S.Route>, z: Zone)
    requires Shows(v4, table, k) && Fine(table, SeenSet(v4, inst), ANY, SeenZone(v4, z))
    ensures FamilyFine(v4, k, inst, z)
    ensures !v4 ==> (Correct(k, inst, z) <==> Correct(table, SeenSet(v4, inst), SeenZone(v4, z)))
  {
    hide Holds, Occupied, SeenSet;
    ShownHolders(v4, table, k, inst, z);
    if v4 {
      NeverOverlookedV4(inst, SeenZone(v4, z));
      if Overlooked(inst, [], z) && z in k {
        var w :| Holds(inst, z, w) && w.zone.src == [];
        OneSource(inst, z, k[z], w);
      }
      if !Overlooked(inst, [], z) {
        forall r | Holds(inst, z, r) ensures SeenHolds(v4, inst, z, r) {
        }
      }
    } else {
      OverlookedV6(inst, z);
      forall r ensures SeenHolds(v4, inst, z, r) <==> Holds(inst, z, r) {
      }
    }
  }

  lemma HolderInstalled(inst: set<S.Route>, z: Zone, r: S.Route)
    requires Holds(inst, z, r)
    ensures r in inst
  {
  }

  /** A non-specific route and a source-specific one, wider in the destination, such that no source-specific route with
      the destination of the first decides between them. */
  ghost predicate Undecided(inst: set<S.Route>, n: S.Route, s: S.Route) {
    && n in inst && n.zone.src == [] && s in inst && s.zone.src != [] && s.zone.dst < n.zone.dst
    && forall d | d in inst && d.zone.dst == n.zone.dst && d.zone.src != [] :: !(d.zone.src <= s.zone.src)
  }

  /** A zone is overlooked exactly if there are two such routes. */
  lemma OverlookedExactly(inst: set<S.Route>)
    requires Distinct(inst)
    ensures (exists z :: Overlooked(inst, [], z)) <==> exists n, s :: Undecided(inst, n, s)
  {
    if z :| Overlooked(inst, [], z) {
      var n :| Holds(inst, z, n) && n.zone.src == [];
      HolderShape(inst, z, n);
      var s :| Wide(inst, z, s);
      forall d | d in inst && d.zone.dst == n.zone.dst && d.zone.src != [] ensures !(d.zone.src <= s.zone.src) {
        assert d.zone != z;
        if d.zone.src <= s.zone.src { assert Deep(inst, z, d); }
      }
      assert Undecided(inst, n, s);
    }
    if n, s :| Undecided(inst, n, s) {
      var z := Zone(n.zone.dst, s.zone.src);
      assert Deep(inst, z, n) && Wide(inst, z, s);
      HolderShape(inst, z, n);
      assert Overlooked(inst, [], z);
    }
  }

  /** In IPv6, packets are forwarded as the routing table says exactly if the kernel lacks nothing. */
  lemma ForwardsV6Exactly(table: Kernel, k: Kernel, inst: set<S.Route>)
    requires Distinct(inst) && Shows(false, table, k) && AllFine(table, SeenSet(false, inst), ANY)
    ensures ForwardsAll(k, inst) <==> Mirrors(k, inst)
    ensures Mirrors(table, SeenSet(false, inst)) ==> Mirrors(k, inst)
  {
    forall z ensures Fine(k, inst, [], z)
      ensures Correct(k, inst, z) <==> Correct(table, SeenSet(false, inst), SeenZone(false, z))
    {
      assert Fine(table, SeenSet(false, inst), ANY, SeenZone(false, z));
      ShownFine(false, table, k, inst, z);
    }
    ForwardsExactly(k, inst);
  }

  /** In IPv4, whatever was installed before, packets are forwarded as the routing table says exactly if no two
      installed routes are undecided. */
  lemma ForwardsV4Exactly(table: Kernel, k: Kernel, inst: set<S.Route>)
    requires Distinct(inst) && Shows(true, table, k) && AllFine(table, SeenSet(true, inst), ANY)
    ensures ForwardsAll(k, inst) <==> forall n, s :: !Undecided(inst, n, s)
  {
    forall z ensures FamilyFine(true, k, inst, z) {
      assert Fine(table, SeenSet(true, inst), ANY, SeenZone(true, z));
      ShownFine(true, table, k, inst, z);
    }
    forall z ensures Fine(k, inst, [], z) && (Correct(k, inst, z) <==> !Overlooked(inst, [], z)) {
      FamilyFineV4(k, inst, z);
    }
    ForwardsExactly(k, inst);
    OverlookedExactly(inst);
  }

  /** The packets that go wrong: those to the destination of the non-specific route from the source of the other. */
  lemma UndecidedMisroutes(table: Kernel, k: Kernel, inst: set<S.Route>, n: S.Route, s: S.Route)
    requires Distinct(inst) && Shows(true, table, k) && AllFine(table, SeenSet(true, inst), ANY)
    requires Undecided(inst, n, s)
    ensures RibLookup(inst, n.zone.dst, s.zone.src) == Some(n)
    ensures KernelLookup(k, n.zone.dst, s.zone.src) != Some(n)
  {
    hide Fine, FamilyFine, Correct, SeenSet, ANY;
    var z := Zone(n.zone.dst, s.zone.src);
    assert Deep(inst, z, n) && Wide(inst, z, s);
    HolderShape(inst, z, n);
    forall y ensures Fine(k, inst, [], y) && (Overlooked(inst, [], y) ==> y !in k) {
      assert Fine(table, SeenSet(true, inst), ANY, SeenZone(true, y));
      ShownFine(true, table, k, inst, y);
      FamilyFineV4(k, inst, y);
    }
    MissingMisroutes(k, inst, z, n);
  }

  lemma FamilyFineV4(k: Kernel, inst: set<S.Route>, z: Zone)
    requires FamilyFine(true, k, inst, z)
    ensures Fine(k, inst, [], z) && (Correct(k, inst, z) <==> !Overlooked(inst, [], z))
    ensures Overlooked(inst, [], z) ==> z !in k
  {
  }

  const TEN_ONE := Pair([0, 0, 0, 0, 0, 0, 0, 0, 0, 0, 0xFF, 0xFF, 10, 1, 0, 0], 112, ZEROES, 0)
  const FROM_TEN_TWO := Pair([0, 0, 0, 0, 0, 0, 0, 0, 0, 0, 0xFF, 0xFF, 0, 0, 0, 0], 96,
                             [0, 0, 0, 0, 0, 0, 0, 0, 0, 0, 0xFF, 0xFF, 10, 2, 0, 0], 112)

  /** A route to 10.1.0.0/16 from anywhere, and a default route for packets from 10.2.0.0/16: the conflict is not seen,
      and packets from the latter network to the former follow the default route. */
  lemma MixedV4Misroutes(table: Kernel, k: Kernel, x: U8, y: U8)
    requires Shows(true, table, k)
    requires AllFine(table, SeenSet(true, {TEN_ONE.Meant(), FROM_TEN_TWO.Meant()}), ANY)
    ensures TEN_ONE.Valid() && FROM_TEN_TWO.Valid()
    ensures var n, s := TEN_ONE.Meant(), FROM_TEN_TWO.Meant();
            && Conflicts(n, s) && !ByteConflicts(TEN_ONE, FROM_TEN_TWO, x, y)
            && RibLookup({n, s}, n.zone.dst, s.zone.src) == Some(n)
            && KernelLookup(k, n.zone.dst, s.zone.src) != Some(n)
  {
    hide V4Mapped, BitsOf, PrefixCmp, Fine, SeenSet, Shows;
    MixedPairs();
    ConflictsExactly(TEN_ONE, FROM_TEN_TWO, x, y);
    var n, s := TEN_ONE.Meant(), FROM_TEN_TWO.Meant();
    Lengths(TEN_ONE);
    Lengths(FROM_TEN_TWO);
    assert Undecided({n, s}, n, s);
    UndecidedMisroutes(table, k, {n, s}, n, s);
  }

  lemma MixedPairs()
    ensures TEN_ONE.Valid() && FROM_TEN_TWO.Valid() && TEN_ONE.V4() && FROM_TEN_TWO.V4()
    ensures Unseen(TEN_ONE, FROM_TEN_TWO)
  {
    Mapped(TEN_ONE.prefix);
    Mapped(FROM_TEN_TWO.prefix);
    Mapped(FROM_TEN_TWO.srcPrefix);
    hide V4Mapped, BitsOf;
    assert TEN_ONE.prefix[..12] == FROM_TEN_TWO.prefix[..12];
    AlignedIsCompare(FROM_TEN_TWO.prefix, 96, 0, TEN_ONE.prefix, 112, 0);
  }

  lemma Mapped(p: Address)
    requires forall i | 0 <= i < 12 :: p[i] == V4PREFIX[i]
    ensures V4Mapped(p)
  {
    assert p[..12] == V4PREFIX;
  }
}
