/** What the kernel does with a packet: it tries the rules by priority, and in the table of each rule that matches
    the source looks for the longest prefix of the destination; a table without one passes the packet on to the
    next rule, and in the end to the main table. In front of all rules is the local table, whatever the source. */
module PolicyRouting {
  import opened Common
  import opened Prefix
  import opened RuleOrder
  import opened S = SourceSpecific

  /** The kernel's routes, by table number and destination. */
  type Fib = map<(int, Bits), S.Route>

  /** The longest match among the prefixes of `dst` of at most `n` bits. */
  function LongestUpTo(fib: Fib, table: int, dst: Bits, n: nat): Option<S.Route>
    requires n <= |dst|
  {
    if (table, dst[..n]) in fib then Some(fib[(table, dst[..n])])
    else if n == 0 then None
    else LongestUpTo(fib, table, dst, n - 1)
  }

  function TableLookup(fib: Fib, table: int, dst: Bits): Option<S.Route> {
    LongestUpTo(fib, table, dst, |dst|)
  }

  function PolicyLookup(rs: seq<Rule>, fib: Fib, main: int, dst: Bits, address: Address): Option<S.Route> {
    if rs == [] then TableLookup(fib, main, dst)
    else if RuleOrder.Matches(rs[0], address) && TableLookup(fib, rs[0].table, dst).Some?
    then TableLookup(fib, rs[0].table, dst)
    else PolicyLookup(rs[1..], fib, main, dst, address)
  }

  /** The local table; -1 in the byte for a table (kernel_netlink.c) is its number. */
  const LOCAL := 255

  function PacketLookup(rs: seq<Rule>, fib: Fib, main: int, dst: Bits, address: Address): Option<S.Route> {
    var local := TableLookup(fib, LOCAL, dst);
    if local.Some? then local else PolicyLookup(rs, fib, main, dst, address)
  }

  function SourceOf(r: Rule): Bits
    requires r.plen <= 128
  {
    BitsOf(r.src, r.plen)
  }

  predicate HasEntry(fib: Fib, table: int, dst: Bits, route: S.Route) {
    (table, dst) in fib && fib[(table, dst)] == route
  }

  /** Whether packets of one family from a source prefix are sent to the table of the rule. */
  predicate Serves(r: Rule, v4: bool, src: Bits) {
    r.plen <= 128 && V4Mapped(r.src) == v4 && SourceOf(r) == src
  }

  /** find_table: the main table for the empty source prefix, otherwise that of its rule. */
  ghost predicate TableFor(rs: seq<Rule>, main: int, v4: bool, src: Bits, table: int) {
    if src == [] then table == main else exists r :: r in rs && Serves(r, v4, src) && r.table == table
  }

  predicate HasZone(k: Kernel, z: Zone, route: S.Route) {
    z in k && k[z] == route
  }

  /** The entries of `k` are filed as add_route and chg_route do: in the table that find_table gives for the source
      prefix. `v4` is the family of the routes. */
  ghost predicate Filed(k: Kernel, rs: seq<Rule>, fib: Fib, main: int, v4: bool) {
    && (forall r :: r in rs ==> 0 < r.plen <= 128)
    && (forall z :: z in k ==> exists t :: TableFor(rs, main, v4, z.src, t) && HasEntry(fib, t, z.dst, k[z]))
    && (forall src, t, d :: TableFor(rs, main, v4, src, t) && (t, d) in fib ==> HasZone(k, Zone(d, src), fib[(t, d)]))
  }

  // ---- lookup in one table

  lemma {:induction false} LongestMatch(fib: Fib, table: int, dst: Bits, n: nat) returns (d: Bits)
    requires n <= |dst|
    ensures match LongestUpTo(fib, table, dst, n)
            case None => forall e :: e <= dst && |e| <= n ==> (table, e) !in fib
            case Some(r) => d <= dst && HasEntry(fib, table, d, r)
                            && forall e :: e <= dst && |e| <= n && (table, e) in fib ==> |e| <= |d|
  {
    d := dst[..n];
    if n > 0 && (table, d) !in fib {
      d := LongestMatch(fib, table, dst, n - 1);
      assert forall e :: e <= dst && |e| == n ==> e == dst[..n];
    }
  }

  /** Nothing was written to the local table. */
  ghost predicate NoStrays(fib: Fib) { forall e :: e in fib ==> e.0 != LOCAL }

  lemma PacketByRules(rs: seq<Rule>, fib: Fib, main: int, dst: Bits, address: Address)
    requires NoStrays(fib)
    ensures PacketLookup(rs, fib, main, dst, address) == PolicyLookup(rs, fib, main, dst, address)
  {
    var d := LongestMatch(fib, LOCAL, dst, |dst|);
  }

  /** A route in the local table takes all packets to its destination that no longer one there takes, whatever their
      source. */
  lemma StrayTakesAll(rs: seq<Rule>, fib: Fib, main: int, d: Bits, dst: Bits, address: Address)
    requires (LOCAL, d) in fib && d <= dst
    requires forall e :: d < e <= dst ==> (LOCAL, e) !in fib
    ensures PacketLookup(rs, fib, main, dst, address) == Some(fib[(LOCAL, d)])
  {
    var e := LongestMatch(fib, LOCAL, dst, |dst|);
    assert d == dst[..|d|] && e == dst[..|e|];
  }

  // ---- lookup by rules

  /** A rule that takes a packet, and finds a route for it. */
  predicate Takes(r: Rule, fib: Fib, dst: Bits, address: Address) {
    RuleOrder.Matches(r, address) && TableLookup(fib, r.table, dst).Some?
  }

  /** The first rule that takes the packet decides; the main table if there is none. */
  lemma {:induction false} FirstTaker(rs: seq<Rule>, fib: Fib, main: int, dst: Bits, address: Address) returns (i: nat)
    ensures i <= |rs| && forall j :: 0 <= j < i ==> !Takes(rs[j], fib, dst, address)
    ensures i < |rs| ==> Takes(rs[i], fib, dst, address)
    ensures PolicyLookup(rs, fib, main, dst, address)
            == if i < |rs| then TableLookup(fib, rs[i].table, dst) else TableLookup(fib, main, dst)
  {
    hide TableLookup, RuleOrder.Matches;
    i := 0;
    if rs != [] && !Takes(rs[0], fib, dst, address) {
      var k := FirstTaker(rs[1..], fib, main, dst, address);
      i := k + 1;
      assert forall j :: 0 < j < |rs| ==> rs[j] == rs[1..][j - 1];
    }
  }

  /** A zone of the kernel that matches the packet is in the main table, or its rule takes the packet. */
  lemma ZoneIsTaken(k: Kernel, rs: seq<Rule>, fib: Fib, main: int, dst: Bits, address: Address, z: Zone)
    returns (i: nat)
    requires Filed(k, rs, fib, main, V4Mapped(address)) && z in k && S.Matches(z, dst, BitsOf(address, 128))
    ensures z.src == [] ==> HasEntry(fib, main, z.dst, k[z])
    ensures z.src != [] ==>
              && i < |rs| && V4Mapped(rs[i].src) == V4Mapped(address) && SourceOf(rs[i]) == z.src
              && HasEntry(fib, rs[i].table, z.dst, k[z]) && Takes(rs[i], fib, dst, address)
  {
    i := 0;
    if z.src != [] {
      var t :| TableFor(rs, main, V4Mapped(address), z.src, t) && HasEntry(fib, t, z.dst, k[z]);
      var r :| r in rs && Serves(r, V4Mapped(address), z.src) && r.table == t;
      i :| 0 <= i < |rs| && rs[i] == r;
      InPrefixIsMembership(address, rs[i].src, rs[i].plen);
      var d := LongestMatch(fib, rs[i].table, dst, |dst|);
    }
  }

  /** The zone that decides is the winner of the source-first lookup. */
  lemma WinnerByRule(k: Kernel, rs: seq<Rule>, fib: Fib, main: int, dst: Bits, address: Address, i: nat, d: Bits)
    requires Filed(k, rs, fib, main, V4Mapped(address)) && Ordered(rs) && i < |rs|
    requires Takes(rs[i], fib, dst, address) && forall j :: 0 <= j < i ==> !Takes(rs[j], fib, dst, address)
    requires d <= dst && (rs[i].table, d) in fib
    requires forall e :: e <= dst && (rs[i].table, e) in fib ==> |e| <= |d|
    ensures SourceFirst(k, dst, BitsOf(address, 128), Zone(d, SourceOf(rs[i])))
    ensures k[Zone(d, SourceOf(rs[i]))] == fib[(rs[i].table, d)]
  {
    var src, w := BitsOf(address, 128), Zone(d, SourceOf(rs[i]));
    InPrefixIsMembership(address, rs[i].src, rs[i].plen);
    assert S.Matches(w, dst, src);
    assert TableFor(rs, main, V4Mapped(address), w.src, rs[i].table) by {
      assert Serves(rs[i], V4Mapped(address), w.src);
    }
    forall z | z in k && S.Matches(z, dst, src)
      ensures |z.src| < |w.src| || (|z.src| == |w.src| && |z.dst| <= |w.dst|)
    {
      var j := ZoneIsTaken(k, rs, fib, main, dst, address, z);
      if z.src != [] && j != i {
        MatchesAreNested(rs[i], rs[j], address);
        assert i < j && Lies(rs[i].src, rs[i].plen, rs[j]) in {MoreSpecific, Disjoint};
      }
    }
  }

  lemma WinnerInMain(k: Kernel, rs: seq<Rule>, fib: Fib, main: int, dst: Bits, address: Address)
    requires Filed(k, rs, fib, main, V4Mapped(address))
    requires forall j :: 0 <= j < |rs| ==> !Takes(rs[j], fib, dst, address)
    ensures KernelLookup(k, dst, BitsOf(address, 128)) == TableLookup(fib, main, dst)
  {
    var src := BitsOf(address, 128);
    var d := LongestMatch(fib, main, dst, |dst|);
    forall z | z in k && S.Matches(z, dst, src) ensures z.src == [] && HasEntry(fib, main, z.dst, k[z]) {
      var j := ZoneIsTaken(k, rs, fib, main, dst, address, z);
    }
    if TableLookup(fib, main, dst).Some? {
      assert TableFor(rs, main, V4Mapped(address), [], main);
      assert SourceFirst(k, dst, src, Zone(d, []));
      OneWinner(k, dst, src, Zone(d, []));
    }
  }

  lemma OneWinner(k: Kernel, dst: Bits, src: Bits, z: Zone)
    requires SourceFirst(k, dst, src, z)
    ensures KernelLookup(k, dst, src) == Some(k[z])
  {
    forall y | SourceFirst(k, dst, src, y) ensures y == z {
      assert y.dst == dst[..|y.dst|] && z.dst == dst[..|z.dst|];
      assert y.src == src[..|y.src|] && z.src == src[..|z.src|];
    }
  }

  /** With its rules in order and its routes filed by source prefix, the kernel does the source-first lookup. */
  lemma PolicyIsSourceFirst(k: Kernel, rs: seq<Rule>, fib: Fib, main: int, dst: Bits, address: Address)
    requires Ordered(rs) && Filed(k, rs, fib, main, V4Mapped(address))
    ensures PolicyLookup(rs, fib, main, dst, address) == KernelLookup(k, dst, BitsOf(address, 128))
  {
    var i := FirstTaker(rs, fib, main, dst, address);
    if i < |rs| {
      var d := LongestMatch(fib, rs[i].table, dst, |dst|);
      WinnerByRule(k, rs, fib, main, dst, address, i, d);
      OneWinner(k, dst, BitsOf(address, 128), Zone(d, SourceOf(rs[i])));
    } else {
      WinnerInMain(k, rs, fib, main, dst, address);
    }
  }

  /** From the installed routes to the packet: rules, tables and conflict entries together forward every packet as
      the routing table says. */
  lemma PacketsFollowTheRib(k: Kernel, inst: set<S.Route>, rs: seq<Rule>, fib: Fib, main: int, dst: Bits,
                            address: Address)
    requires Distinct(inst) && Mirrors(k, inst)
    requires Ordered(rs) && Filed(k, rs, fib, main, V4Mapped(address)) && NoStrays(fib)
    ensures PacketLookup(rs, fib, main, dst, address) == RibLookup(inst, dst, BitsOf(address, 128))
  {
    PacketByRules(rs, fib, main, dst, address);
    PolicyIsSourceFirst(k, rs, fib, main, dst, address);
    KernelForwardsAsRib(k, inst, dst, BitsOf(address, 128));
  }
}
