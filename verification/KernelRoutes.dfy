/** From the installed routes of one family to the kernel's routing tables: every write of the installer, by zone,
    goes to the routing table of its source prefix. */
module KernelRoutes {
  import opened Common
  import opened Prefix
  import opened S = SourceSpecific
  import opened KernelTable
  import opened SeenPrefixes
  import opened FamilyKernel
  import opened PolicyRouting
  import opened RouteFiling
  import opened RuleOrder
  import RuleTable

  // ---------------------------------------------------------------- addresses of prefixes

  function BitAt(b: Bits, i: nat): nat { if i < |b| && b[i] then 1 else 0 }

  function ByteOf(b: Bits, k: nat): U8 {
    128 * BitAt(b, 8 * k) + 64 * BitAt(b, 8 * k + 1) + 32 * BitAt(b, 8 * k + 2) + 16 * BitAt(b, 8 * k + 3)
    + 8 * BitAt(b, 8 * k + 4) + 4 * BitAt(b, 8 * k + 5) + 2 * BitAt(b, 8 * k + 6) + BitAt(b, 8 * k + 7)
  }

  /** The address that has the bits of a prefix, and zeroes behind them. */
  function AddressOf(b: Bits): Address {
    seq(16, k requires 0 <= k < 16 => ByteOf(b, k))
  }

  lemma ByteBit(b: Bits, k: nat, i: nat)
    requires i < 8
    ensures BitOf(ByteOf(b, k), i) <==> BitAt(b, 8 * k + i) == 1
  {
    var j := 8 * k;
    Digits(BitAt(b, j), BitAt(b, j + 1), BitAt(b, j + 2), BitAt(b, j + 3), BitAt(b, j + 4), BitAt(b, j + 5),
           BitAt(b, j + 6), BitAt(b, j + 7), ByteOf(b, k), i);
    hide BitAt, ByteOf;
  }

  lemma Digits(b0: nat, b1: nat, b2: nat, b3: nat, b4: nat, b5: nat, b6: nat, b7: nat, x: U8, i: nat)
    requires b0 <= 1 && b1 <= 1 && b2 <= 1 && b3 <= 1 && b4 <= 1 && b5 <= 1 && b6 <= 1 && b7 <= 1 && i < 8
    requires x == 128 * b0 + 64 * b1 + 32 * b2 + 16 * b3 + 8 * b4 + 4 * b5 + 2 * b6 + b7
    ensures BitOf(x, i) <==> [b0, b1, b2, b3, b4, b5, b6, b7][i] == 1
  {
    if i < 4 {
      HighDigits(b0, b1, b2, b3, 8 * b4 + 4 * b5 + 2 * b6 + b7, x, i);
    } else {
      LowDigits(8 * b0 + 4 * b1 + 2 * b2 + b3, b4, b5, b6, b7, x, i);
    }
    hide BitOf;
  }

  lemma HighDigits(b0: nat, b1: nat, b2: nat, b3: nat, low: nat, x: U8, i: nat)
    requires b0 <= 1 && b1 <= 1 && b2 <= 1 && b3 <= 1 && low < 16 && i < 4
    requires x == 128 * b0 + 64 * b1 + 32 * b2 + 16 * b3 + low
    ensures BitOf(x, i) <==> [b0, b1, b2, b3][i] == 1
  {
    assert x / 16 == 8 * b0 + 4 * b1 + 2 * b2 + b3;
  }

  lemma LowDigits(high: nat, b4: nat, b5: nat, b6: nat, b7: nat, x: U8, i: nat)
    requires b4 <= 1 && b5 <= 1 && b6 <= 1 && b7 <= 1 && 4 <= i < 8
    requires x == 16 * high + 8 * b4 + 4 * b5 + 2 * b6 + b7
    ensures BitOf(x, i) <==> [b4, b5, b6, b7][i - 4] == 1
  {
    if i == 4 {
      assert x / 8 == 2 * high + b4;
    } else if i == 5 {
      assert x / 4 == 4 * high + 2 * b4 + b5;
    } else if i == 6 {
      assert x / 2 == 8 * high + 4 * b4 + 2 * b5 + b6;
    } else {
      assert x / 1 == x;
    }
  }

  lemma AddressBits(b: Bits)
    requires |b| <= 128
    ensures BitsOf(AddressOf(b), |b|) == b
  {
    hide BitOf, ByteOf;
    forall i | 0 <= i < |b| ensures Bit(AddressOf(b), i) == b[i] {
      assert i == 8 * (i / 8) + i % 8;
      ByteBit(b, i / 8, i % 8);
    }
  }

  /** Whole bytes; the source is ::/0 or of the family. */
  ghost predicate GoodSource(v4: bool, src: Bits) {
    |src| <= 128 && |src| % 8 == 0 && (src != [] ==> V4Mapped(AddressOf(src)) == v4)
  }

  ghost predicate Good(v4: bool, inst: set<S.Route>) {
    forall r :: r in inst ==> GoodSource(v4, r.zone.src)
  }

  // ---------------------------------------------------------------- what is seen, and what is meant

  function BareZone(y: Zone): Zone {
    Zone(if y.dst == [] then [] else y.dst[1..], if y.src == [] then [] else y.src[1..])
  }

  function BareRoute(r: S.Route): S.Route { r.(zone := BareZone(r.zone)) }

  lemma BareSeen(v4: bool, z: Zone)
    ensures BareZone(SeenZone(v4, z)) == z
  {
  }

  /** A zone that is carried by seen routes is a seen zone, with the source of a route. */
  lemma CarriedZone(v4: bool, inst: set<S.Route>, y: Zone)
    requires Carried(SeenSet(v4, inst), y) && Good(v4, inst)
    ensures SeenZone(v4, BareZone(y)) == y && GoodSource(v4, BareZone(y).src)
  {
    var a, b :| a in SeenSet(v4, inst) && b in SeenSet(v4, inst) && y == Zone(a.zone.dst, b.zone.src);
    var c :| c in inst && SeenRoute(v4, c) == a;
    var d :| d in inst && SeenRoute(v4, d) == b;
    assert y == SeenZone(v4, Zone(c.zone.dst, d.zone.src));
    BareSeen(v4, Zone(c.zone.dst, d.zone.src));
  }

  ghost predicate ShowsAt(v4: bool, table: Kernel, k: Kernel, z: Zone) {
    var y := SeenZone(v4, z);
    if z in k then y in table && table[y] == SeenRoute(v4, k[z]) else y !in table
  }

  lemma ShowsEverywhere(v4: bool, table: Kernel, k: Kernel)
    ensures Shows(v4, table, k) <==> forall z :: ShowsAt(v4, table, k, z)
  {
    if Shows(v4, table, k) {
      forall z ensures ShowsAt(v4, table, k, z) {
      }
    }
    if forall z :: ShowsAt(v4, table, k, z) {
      forall z ensures z in k <==> SeenZone(v4, z) in table {
        assert ShowsAt(v4, table, k, z);
      }
      forall z | z in k ensures table[SeenZone(v4, z)] == SeenRoute(v4, k[z]) {
        assert ShowsAt(v4, table, k, z);
      }
    }
  }

  lemma SeenWith(v4: bool, inst: set<S.Route>, r: S.Route)
    ensures SeenSet(v4, inst + {r}) == SeenSet(v4, inst) + {SeenRoute(v4, r)}
  {
  }

  lemma SeenWithout(v4: bool, inst: set<S.Route>, r: S.Route)
    ensures SeenSet(v4, inst - {r}) == SeenSet(v4, inst) - {SeenRoute(v4, r)}
  {
    forall x | x in SeenSet(v4, inst - {r}) ensures x != SeenRoute(v4, r) {
      var c :| c in inst - {r} && SeenRoute(v4, c) == x;
      RoutesApart(v4, c, r);
    }
  }

  /** Zones are written one by one: those in `done` as `after` has them, the others are as `before` had them. */
  ghost predicate Passing(v4: bool, before: Kernel, after: Kernel, done: seq<Zone>, k: Kernel) {
    forall z :: ShowsAt(v4, if SeenZone(v4, z) in done then after else before, k, z)
  }

  lemma PassingBegins(v4: bool, before: Kernel, after: Kernel, k: Kernel)
    requires Shows(v4, before, k)
    ensures Passing(v4, before, after, [], k)
  {
    ShowsEverywhere(v4, before, k);
  }

  lemma PassingEnds(v4: bool, before: Kernel, after: Kernel, zones: seq<Zone>, k: Kernel)
    requires Passing(v4, before, after, zones, k) && Logs(before, after, zones)
    ensures Shows(v4, after, k)
  {
    forall z ensures ShowsAt(v4, after, k, z) {
      assert ShowsAt(v4, if SeenZone(v4, z) in zones then after else before, k, z);
      assert SeenZone(v4, z) !in zones ==> SameAt(after, before, SeenZone(v4, z));
    }
    ShowsEverywhere(v4, after, k);
  }

  lemma PassingStep(v4: bool, before: Kernel, after: Kernel, done: seq<Zone>, k: Kernel, y: Zone, k1: Kernel)
    requires Passing(v4, before, after, done, k) && SeenZone(v4, BareZone(y)) == y
    requires if y in after
             then SeenRoute(v4, BareRoute(after[y])) == after[y] && k1 == k[BareZone(y) := BareRoute(after[y])]
             else k1 == k - {BareZone(y)}
    ensures Passing(v4, before, after, done + [y], k1)
  {
    forall z ensures ShowsAt(v4, if SeenZone(v4, z) in done + [y] then after else before, k1, z) {
      ZonesApart(v4, z, BareZone(y));
      assert ShowsAt(v4, if SeenZone(v4, z) in done then after else before, k, z);
    }
  }

  /** What the kernel has under a zone is an installed route, as it is seen. */
  lemma EntrySeen(v4: bool, table: Kernel, inst: set<S.Route>, y: Zone)
    requires AllFine(table, SeenSet(v4, inst), ANY) && y in table
    ensures SeenRoute(v4, BareRoute(table[y])) == table[y]
  {
    assert Fine(table, SeenSet(v4, inst), ANY, y);
    HolderInstalled(SeenSet(v4, inst), y, table[y]);
    var r :| r in inst && SeenRoute(v4, r) == table[y];
    BareSeen(v4, r.zone);
  }

  // ---------------------------------------------------------------- the source prefixes

  /** The source prefixes of zones that the installer has written. */
  ghost function Asked(v4: bool, zones: seq<Zone>): set<Source> {
    set y | y in zones :: Source(v4, BareZone(y).src)
  }

  ghost function SourcesOf(v4: bool, inst: set<S.Route>): set<Source> {
    set r | r in inst :: Source(v4, r.zone.src)
  }

  /** They are source prefixes of routes. */
  lemma AskedForRoutes(v4: bool, inst: set<S.Route>, zones: seq<Zone>)
    requires AllCarried(SeenSet(v4, inst), zones)
    ensures Asked(v4, zones) <= SourcesOf(v4, inst)
  {
    hide SeenSet;
    forall y | y in zones ensures Source(v4, BareZone(y).src) in SourcesOf(v4, inst) {
      assert Carried(SeenSet(v4, inst), y);
      CarriedSource(v4, inst, y);
    }
  }

  lemma CarriedSource(v4: bool, inst: set<S.Route>, y: Zone)
    requires Carried(SeenSet(v4, inst), y)
    ensures exists r :: r in inst && r.zone.src == BareZone(y).src
  {
    var b :| b in SeenSet(v4, inst) && b.zone.src == y.src;
    var d :| d in inst && SeenRoute(v4, d) == b;
    BareSeen(v4, d.zone);
  }

  lemma NoneAsked(v4: bool, rs: seq<Rule>, main: int)
    requires |rs| <= RuleTable.SRC_TABLE_NUM
    ensures Grown(rs, rs, Asked(v4, [])) && Enough(rs, main, Asked(v4, []))
  {
    assert Asked(v4, []) == {};
    NothingAsked(rs, main);
  }

  lemma AskedMore(v4: bool, zones: seq<Zone>, y: Zone)
    ensures Asked(v4, zones + [y]) == Asked(v4, zones) + {Source(v4, BareZone(y).src)}
  {
  }

  /** The routes of one family, and what the kernel has of them. */
  class Family {
    const v4: bool
    const installer: RouteInstaller
    const routes: Routes
    /** The installed routes. */
    ghost var inst: set<S.Route>
    /** No routing table has been missing for a source prefix. */
    var complete: bool

    ghost predicate Valid()
      reads this, installer, routes, routes.rules, routes.rules.rules, routes.rules.used
    {
      && installer.Valid() && installer.any == ANY && routes.Valid() && routes.v4 == v4
      && installer.Inst() == SeenSet(v4, inst) && Good(v4, inst)
      && (complete ==> Shows(v4, installer.table, routes.zones) && NoStrays(routes.fib))
    }

    constructor (v4: bool, rules: RuleTable.Table)
      requires rules.Valid() && rules.Rules() == [] && Numbered(rules)
      ensures Valid() && inst == {} && complete && this.v4 == v4 && routes.rules == rules
      ensures fresh(installer) && fresh(routes)
    {
      this.v4, inst, complete := v4, {}, true;
      installer := new RouteInstaller(ANY);
      routes := new Routes(rules, v4);
    }

    /** What was written since the log had `start` zones, and the kernel was `before`: exactly the zones that changed,
        and with source prefixes of `carriers`. These have got rules, as long as there were any left beside `rules`; no
        table has been missing if and only if they sufficed and none was missing before. */
    ghost predicate Passed(start: nat, before: Kernel, rules: seq<Rule>, was: bool, carriers: set<S.Route>)
      reads this, installer, routes, routes.rules, routes.rules.rules
      requires routes.rules.count <= routes.rules.rules.Length
    {
      && start <= |installer.log| && Logs(before, installer.table, installer.log[start..])
      && Asked(v4, installer.log[start..]) <= SourcesOf(v4, carriers)
      && Grown(rules, routes.rules.Rules(), Asked(v4, installer.log[start..]))
      && (complete <==> was && Enough(rules, routes.rules.exportTable, Asked(v4, installer.log[start..])))
    }

    /** add_route, chg_route and del_route, for each zone that the installer has written since `start`. */
    method Pass(start: nat, ghost before: Kernel, ghost carriers: set<S.Route>)
      requires start <= |installer.log| && Logs(before, installer.table, installer.log[start..])
      requires AllCarried(SeenSet(v4, carriers), installer.log[start..]) && Good(v4, carriers)
      requires AllFine(installer.table, SeenSet(v4, inst), ANY)
      requires routes.Valid() && routes.v4 == v4
      requires complete ==> Shows(v4, before, routes.zones) && NoStrays(routes.fib)
      modifies `complete, routes`fib, routes`zones
      modifies routes.rules.rules, routes.rules.used, routes.rules`kernel, routes.rules`count
      ensures routes.Valid()
      ensures complete ==> Shows(v4, installer.table, routes.zones) && NoStrays(routes.fib)
      ensures Passed(start, before, old(routes.rules.Rules()), old(complete), carriers)
    {
      hide Shows, Logs, AllFine, Good, Carried, SeenSet, SeenZone, GoodSource, SoFar, SourcesOf;
      var zones, table := installer.log[start..], installer.table;
      ghost var rules, was := routes.rules.Rules(), complete;
      AskedForRoutes(v4, carriers, zones);
      NothingSoFar(before, table);
      for i := 0 to |zones|
        invariant routes.Valid() && SoFar(zones[..i], before, table, rules, was)
      {
        assert zones[i] in zones && zones[..i + 1] == zones[..i] + [zones[i]];
        CarriedZone(v4, carriers, zones[i]);
        Next(zones[i], table, zones[..i], before, rules, was);
      }
      assert zones[..|zones|] == zones;
      AllDone(start, before, rules, was);
    }

    /** How far the writes have come. */
    ghost predicate SoFar(done: seq<Zone>, before: Kernel, table: Kernel, rules: seq<Rule>, was: bool)
      reads this, routes, routes.rules, routes.rules.rules
      requires routes.rules.count <= routes.rules.rules.Length
    {
      && Grown(rules, routes.rules.Rules(), Asked(v4, done))
      && (complete <==> was && Enough(rules, routes.rules.exportTable, Asked(v4, done)))
      && (complete ==> Passing(v4, before, table, done, routes.zones) && NoStrays(routes.fib))
    }

    lemma NothingSoFar(before: Kernel, table: Kernel)
      requires routes.Valid() && (complete ==> Shows(v4, before, routes.zones) && NoStrays(routes.fib))
      ensures SoFar([], before, table, routes.rules.Rules(), complete)
    {
      hide Shows, Passing, Grown, Enough, Asked, NoStrays;
      NoneAsked(v4, routes.rules.Rules(), routes.rules.exportTable);
      if complete { PassingBegins(v4, before, table, routes.zones); }
    }

    lemma AllDone(start: nat, before: Kernel, rules: seq<Rule>, was: bool)
      requires start <= |installer.log| && Logs(before, installer.table, installer.log[start..]) && routes.Valid()
      requires SoFar(installer.log[start..], before, installer.table, rules, was)
      ensures complete ==> Shows(v4, installer.table, routes.zones) && NoStrays(routes.fib)
      ensures Grown(rules, routes.rules.Rules(), Asked(v4, installer.log[start..]))
      ensures complete <==> was && Enough(rules, routes.rules.exportTable, Asked(v4, installer.log[start..]))
    {
      hide Shows, Passing, Logs, Grown, Enough, Asked, NoStrays;
      if complete { PassingEnds(v4, before, installer.table, installer.log[start..], routes.zones); }
    }

    method Next(y: Zone, table: Kernel, ghost done: seq<Zone>, ghost before: Kernel, ghost rules: seq<Rule>,
                ghost was: bool)
      requires routes.Valid() && routes.v4 == v4 && SoFar(done, before, table, rules, was)
      requires SeenZone(v4, BareZone(y)) == y && GoodSource(v4, BareZone(y).src)
      requires AllFine(table, SeenSet(v4, inst), ANY)
      modifies `complete, routes`fib, routes`zones
      modifies routes.rules.rules, routes.rules.used, routes.rules`kernel, routes.rules`count
      ensures routes.Valid() && SoFar(done + [y], before, table, rules, was)
    {
      hide Passing, AllFine, SeenSet, SeenZone, BareZone, GoodSource, BareRoute, NoStrays, Grown, Enough, Asked;
      ghost var k, now := routes.zones, routes.rules.Rules();
      var ok := Send(y, table);
      if complete && ok {
        PassingStep(v4, before, table, done, k, y, routes.zones);
      }
      AskedMore(v4, done, y);
      AskedTwice(rules, now, routes.rules.Rules(), routes.rules.exportTable, Asked(v4, done),
                 {Source(v4, BareZone(y).src)});
      complete := complete && ok;
    }

    /** One of these writes. */
    method Send(y: Zone, table: Kernel) returns (ok: bool)
      requires routes.Valid() && routes.v4 == v4 && GoodSource(v4, BareZone(y).src)
      requires AllFine(table, SeenSet(v4, inst), ANY)
      modifies routes`fib, routes`zones
      modifies routes.rules.rules, routes.rules.used, routes.rules`kernel, routes.rules`count
      ensures routes.Valid()
      ensures Grown(old(routes.rules.Rules()), routes.rules.Rules(), {Source(v4, BareZone(y).src)})
      ensures ok <==> Enough(old(routes.rules.Rules()), routes.rules.exportTable, {Source(v4, BareZone(y).src)})
      ensures ok && y in table ==>
                && SeenRoute(v4, BareRoute(table[y])) == table[y]
                && routes.zones == old(routes.zones)[BareZone(y) := BareRoute(table[y])]
      ensures ok && y !in table ==> routes.zones == old(routes.zones) - {BareZone(y)}
      ensures ok && old(NoStrays(routes.fib)) ==> NoStrays(routes.fib)
      ensures !ok ==> routes.zones == old(routes.zones)
      ensures !ok ==> routes.fib == if y in table then old(routes.fib)[(LOCAL, BareZone(y).dst) := BareRoute(table[y])]
                                    else old(routes.fib) - {(LOCAL, BareZone(y).dst)}
    {
      hide AllFine, SeenSet, SeenZone, BareZone, SeenRoute, BareRoute, NoStrays, Grown, Enough;
      var z := BareZone(y);
      var src := AddressOf(z.src);
      AddressBits(z.src);
      if y in table {
        EntrySeen(v4, table, inst, y);
        ok := routes.Write(z.dst, src, |z.src|, 0, BareRoute(table[y]));
      } else {
        ok := routes.Delete(z.dst, src, |z.src|, 0);
      }
    }

    /** install_route */
    method Install(r: S.Route)
      requires Valid() && GoodSource(v4, r.zone.src)
      modifies this, installer, routes`fib, routes`zones
      modifies routes.rules.rules, routes.rules.used, routes.rules`kernel, routes.rules`count
      ensures Valid()
      ensures inst == if Occupied(old(inst), r.zone) then old(inst) else old(inst) + {r}
      ensures Passed(|old(installer.log)|, old(installer.table), old(routes.rules.Rules()), old(complete),
                     old(inst) + {r})
      ensures old(installer.Complete()) ==> installer.Complete()
    {
      hide AllFine, Shows, Logs, Carried, SeenSet, SeenZone, Mirrors, GoodSource, Occupied,
           Asked, SourcesOf, Grown, Enough, NoStrays;
      ghost var before := installer.table;
      var start := |installer.log|;
      SeenWith(v4, inst, r);
      SeenOccupied(v4, inst, r.zone);
      NotAround(v4, r.zone);
      ghost var touched := installer.InstallRoute(SeenRoute(v4, r));
      ghost var carriers := inst + {r};
      if !Occupied(inst, r.zone) {
        inst := inst + {r};
      }
      assert installer.log[start..] == touched;
      Pass(start, before, carriers);
    }

    /** uninstall_route */
    method Uninstall(r: S.Route)
      requires Valid() && r in inst
      modifies this, installer, routes`fib, routes`zones
      modifies routes.rules.rules, routes.rules.used, routes.rules`kernel, routes.rules`count
      ensures Valid() && inst == old(inst) - {r}
      ensures Passed(|old(installer.log)|, old(installer.table), old(routes.rules.Rules()), old(complete), old(inst))
      ensures old(installer.Complete()) ==> (installer.Complete() <==> v4 || !Overlooked(inst, [], r.zone))
    {
      hide AllFine, Shows, Logs, Carried, SeenSet, SeenZone, Mirrors, GoodSource, Occupied, Overlooked, Correct,
           Asked, SourcesOf, Grown, Enough, NoStrays;
      if v4 { NeverOverlookedV4(inst - {r}, SeenZone(v4, r.zone)); } else { OverlookedV6(inst - {r}, r.zone); }
      ghost var before, carriers := installer.table, inst;
      var start := |installer.log|;
      SeenWithout(v4, inst, r);
      Members(v4, inst, r);
      ghost var touched := installer.UninstallRoute(SeenRoute(v4, r));
      inst := inst - {r};
      assert installer.log[start..] == touched;
      Pass(start, before, carriers);
    }

    /** switch_routes */
    method Switch(cur: S.Route, next: S.Route)
      requires Valid() && cur in inst && next.zone == cur.zone && next != cur
      modifies this, installer, routes`fib, routes`zones
      modifies routes.rules.rules, routes.rules.used, routes.rules`kernel, routes.rules`count
      ensures Valid() && inst == old(inst) - {cur} + {next}
      ensures Passed(|old(installer.log)|, old(installer.table), old(routes.rules.Rules()), old(complete), old(inst))
      ensures old(installer.Complete()) ==> installer.Complete()
    {
      hide AllFine, Shows, Logs, Carried, SeenSet, SeenZone, Mirrors, GoodSource,
           Asked, SourcesOf, Grown, Enough, NoStrays;
      ghost var before, carriers := installer.table, inst;
      var start := |installer.log|;
      SeenWithout(v4, inst, cur);
      SeenWith(v4, inst - {cur}, next);
      Members(v4, inst, cur);
      RoutesApart(v4, cur, next);
      ghost var touched := installer.SwitchRoutes(SeenRoute(v4, cur), SeenRoute(v4, next));
      inst := inst - {cur} + {next};
      assert installer.log[start..] == touched;
      Pass(start, before, carriers);
    }

    /** An operation on the other family, which shares the rules, leaves this one as it was. */
    twostate lemma OtherFamily()
      requires old(Valid()) && unchanged(this) && unchanged(installer) && unchanged(routes)
      requires routes.rules.Valid() && Aligned(routes.rules.Rules()) && Ordered(routes.rules.Rules())
      requires RulesKept(old(routes.rules.Rules()), routes.rules.Rules())
      ensures Valid()
    {
      hide AllFine, Shows, SeenSet, Mirrors, GoodSource, Aligned, Ordered;
      routes.RulesMade();
    }

    /** While no routing table was missing: which packets are forwarded by the kernel, with its rules and tables, as the
        routing table says. In IPv6 all are if the installer lacks nothing, in IPv4 if no two installed routes are
        undecided. */
    lemma Forwards(dst: Bits, address: Address)
      requires Valid() && complete && V4Mapped(address) == v4
      requires if v4 then forall n, s :: !Undecided(inst, n, s) else installer.Complete()
      ensures PacketLookup(routes.rules.Rules(), routes.fib, routes.rules.exportTable, dst, address)
              == RibLookup(inst, dst, BitsOf(address, 128))
    {
      hide Shows, AllFine, SeenSet, Mirrors, ForwardsAll, Undecided;
      ForwardsLookup(dst, BitsOf(address, 128));
      PacketByRules(routes.rules.Rules(), routes.fib, routes.rules.exportTable, dst, address);
      PolicyIsSourceFirst(routes.zones, routes.rules.Rules(), routes.fib, routes.rules.exportTable, dst, address);
    }

    lemma ForwardsLookup(dst: Bits, src: Bits)
      requires Valid() && complete
      requires if v4 then forall n, s :: !Undecided(inst, n, s) else installer.Complete()
      ensures KernelLookup(routes.zones, dst, src) == RibLookup(inst, dst, src)
    {
      hide Shows, AllFine, SeenSet, Mirrors, Undecided;
      SeenDistinct(v4, inst);
      if v4 {
        ForwardsV4Exactly(installer.table, routes.zones, inst);
      } else {
        ForwardsV6Exactly(installer.table, routes.zones, inst);
      }
    }
  }

  /** No source is around that of a route that is not source-specific. */
  lemma NotAround(v4: bool, z: Zone)
    ensures !(SeenZone(v4, z).src < ANY)
  {
  }
}
