/** How the kernel's routes are filed by source prefix (rule.c, disambiguation.c): the invariant that lets policy
    routing find them. */
module RouteFiling {
  import opened Common
  import opened Prefix
  import opened RuleOrder
  import opened PolicyRouting
  import opened S = SourceSpecific
  import Numbering
  import RuleTable

  /** Routes are only in tables that serve a source prefix, but for those that strayed into the local table. */
  ghost predicate Confined(fib: Fib, rs: seq<Rule>, main: int, v4: bool) {
    forall e :: e in fib && e.0 != LOCAL ==> exists src :: TableFor(rs, main, v4, src, e.0)
  }

  /** Each rule has a table of its own. */
  ghost predicate TablesApart(rs: seq<Rule>, main: int) {
    && main != LOCAL && (forall r :: r in rs ==> r.table != main && r.table != LOCAL)
    && (forall r, s :: r in rs && s in rs && r.table == s.table ==> r == s)
  }

  lemma SameSource(r: Rule, s: Rule)
    requires r.plen <= 128 && s.plen <= 128 && V4Mapped(r.src) == V4Mapped(s.src) && SourceOf(r) == SourceOf(s)
    ensures Lies(r.src, r.plen, s) == Equals
  {
  }

  lemma SourcesApart(rs: seq<Rule>, r: Rule, s: Rule)
    requires Ordered(rs) && r in rs && s in rs && V4Mapped(r.src) == V4Mapped(s.src) && SourceOf(r) == SourceOf(s)
    ensures r == s
  {
    hide V4Mapped, BitsOf, Lies;
    SameSource(r, s);
    SameSource(s, r);
    var i :| 0 <= i < |rs| && rs[i] == r;
    var j :| 0 <= j < |rs| && rs[j] == s;
  }

  /** Source prefixes and tables determine one another. */
  lemma OneTable(rs: seq<Rule>, main: int, v4: bool, src1: Bits, t1: int, src2: Bits, t2: int)
    requires Ordered(rs) && TablesApart(rs, main)
    requires TableFor(rs, main, v4, src1, t1) && TableFor(rs, main, v4, src2, t2)
    ensures src1 == src2 <==> t1 == t2
  {
    hide Ordered, SourceOf;
    if src1 != [] && src2 != [] {
      var r :| r in rs && Serves(r, v4, src1) && r.table == t1;
      var s :| s in rs && Serves(s, v4, src2) && s.table == t2;
      if src1 == src2 {
        SourcesApart(rs, r, s);
      }
    }
  }

  lemma NeverLocal(rs: seq<Rule>, main: int, v4: bool, src: Bits, t: int)
    requires TablesApart(rs, main) && TableFor(rs, main, v4, src, t)
    ensures t != LOCAL
  {
  }

  lemma StillServed(before: seq<Rule>, after: seq<Rule>, main: int, v4: bool, src: Bits, table: int)
    requires TableFor(before, main, v4, src, table) && forall r :: r in before ==> r in after
    ensures TableFor(after, main, v4, src, table)
  {
  }

  /** More rules keep the routes filed: a new rule has a table without routes. */
  lemma RulesAdded(k: Kernel, before: seq<Rule>, after: seq<Rule>, fib: Fib, main: int, v4: bool)
    requires Filed(k, before, fib, main, v4) && Confined(fib, before, main, v4)
    requires Ordered(after) && TablesApart(after, main) && forall r :: r in before ==> r in after
    requires forall r :: r in after ==> 0 < r.plen <= 128
    ensures Filed(k, after, fib, main, v4) && Confined(fib, after, main, v4)
  {
    hide TableFor, Ordered, TablesApart;
    forall src, t | TableFor(before, main, v4, src, t) ensures TableFor(after, main, v4, src, t) {
      StillServed(before, after, main, v4, src, t);
    }
    forall src, t, d | TableFor(after, main, v4, src, t) && (t, d) in fib
      ensures HasZone(k, Zone(d, src), fib[(t, d)])
    {
      NeverLocal(after, main, v4, src, t);
      var e := (t, d);
      var src1 :| TableFor(before, main, v4, src1, e.0);
      OneTable(after, main, v4, src, t, src1, t);
    }
  }

  /** Filing a route keeps the routes filed. */
  lemma RouteWritten(k: Kernel, rs: seq<Rule>, fib: Fib, main: int, v4: bool, z: Zone, table: int, route: S.Route)
    requires Filed(k, rs, fib, main, v4) && Confined(fib, rs, main, v4) && Ordered(rs) && TablesApart(rs, main)
    requires TableFor(rs, main, v4, z.src, table)
    ensures Filed(k[z := route], rs, fib[(table, z.dst) := route], main, v4)
    ensures Confined(fib[(table, z.dst) := route], rs, main, v4)
  {
    hide TableFor, Ordered, TablesApart;
    forall src, t | TableFor(rs, main, v4, src, t) ensures src == z.src <==> t == table {
      OneTable(rs, main, v4, src, t, z.src, table);
    }
  }

  /** So does removing one. */
  lemma RouteDeleted(k: Kernel, rs: seq<Rule>, fib: Fib, main: int, v4: bool, z: Zone, table: int)
    requires Filed(k, rs, fib, main, v4) && Confined(fib, rs, main, v4) && Ordered(rs) && TablesApart(rs, main)
    requires TableFor(rs, main, v4, z.src, table)
    ensures Filed(k - {z}, rs, fib - {(table, z.dst)}, main, v4) && Confined(fib - {(table, z.dst)}, rs, main, v4)
  {
    hide TableFor, Ordered, TablesApart;
    forall src, t | TableFor(rs, main, v4, src, t) ensures src == z.src <==> t == table {
      OneTable(rs, main, v4, src, t, z.src, table);
    }
  }

  /** What is written to the local table is filed nowhere. */
  lemma Strayed(k: Kernel, rs: seq<Rule>, fib: Fib, after: Fib, main: int, v4: bool)
    requires Filed(k, rs, fib, main, v4) && Confined(fib, rs, main, v4) && TablesApart(rs, main)
    requires forall e: (int, Bits) :: e.0 != LOCAL ==> (e in after <==> e in fib) && (e in fib ==> after[e] == fib[e])
    ensures Filed(k, rs, after, main, v4) && Confined(after, rs, main, v4)
  {
    hide TableFor, TablesApart;
    forall src, t | TableFor(rs, main, v4, src, t) ensures t != LOCAL {
      NeverLocal(rs, main, v4, src, t);
    }
    forall z | z in k ensures exists t :: TableFor(rs, main, v4, z.src, t) && HasEntry(after, t, z.dst, k[z]) {
      var t :| TableFor(rs, main, v4, z.src, t) && HasEntry(fib, t, z.dst, k[z]);
      assert (t, z.dst).0 != LOCAL;
    }
  }

  lemma MarkedApart(rs: seq<Rule>, idx: int, used: seq<bool>, main: int)
    requires Numbering.Marks(RuleTable.Tables(rs, idx), used) && !(idx <= main < idx + |used|)
    requires main != LOCAL && idx + |used| <= LOCAL
    ensures TablesApart(rs, main)
  {
    var ts := RuleTable.Tables(rs, idx);
    forall i | 0 <= i < |rs| ensures rs[i].table != main && rs[i].table != LOCAL {
      assert ts[i] in ts;
    }
    forall i, j | 0 <= i < j < |rs| ensures rs[i].table != rs[j].table {
      assert ts[i] != ts[j];
    }
  }

  // ---------------------------------------------------------------- the ten rules

  /** A source prefix of one of the families. */
  datatype Source = Source(v4: bool, bits: Bits)

  ghost predicate Ruled(rs: seq<Rule>, s: Source) { exists r :: r in rs && Serves(r, s.v4, s.bits) }

  /** Those that need a rule and have none. */
  ghost function Unruled(rs: seq<Rule>, asked: set<Source>): set<Source> {
    set s | s in asked && s.bits != [] && !Ruled(rs, s)
  }

  /** There is a table for each of these source prefixes, or a rule left to make one. */
  ghost predicate Enough(rs: seq<Rule>, main: int, asked: set<Source>) {
    && (main == -1 ==> forall s :: s in asked ==> s.bits != [])
    && |rs| + |Unruled(rs, asked)| <= RuleTable.SRC_TABLE_NUM
  }

  ghost predicate RulesKept(before: seq<Rule>, after: seq<Rule>) { forall r :: r in before ==> r in after }

  /** Source prefixes that are asked for get their rules, if there are as many left; otherwise none is left. */
  ghost predicate Grown(before: seq<Rule>, after: seq<Rule>, asked: set<Source>) {
    && RulesKept(before, after)
    && if |before| + |Unruled(before, asked)| <= RuleTable.SRC_TABLE_NUM
       then |after| == |before| + |Unruled(before, asked)|
            && forall s :: Ruled(after, s) <==> Ruled(before, s) || s in Unruled(before, asked)
       else |after| == RuleTable.SRC_TABLE_NUM
  }

  lemma Sizes<T>(a: set<T>, b: set<T>)
    requires a <= b
    ensures |a| <= |b|
  {
    assert b == a + (b - a);
  }

  /** What is enough for some source prefixes is enough for fewer. */
  lemma EnoughForFewer(rs: seq<Rule>, main: int, fewer: set<Source>, asked: set<Source>)
    requires Enough(rs, main, asked) && fewer <= asked
    ensures Enough(rs, main, fewer)
  {
    hide Ruled;
    Sizes(Unruled(rs, fewer), Unruled(rs, asked));
  }

  /** To ask twice is to ask for both. */
  lemma AskedTwice(a: seq<Rule>, b: seq<Rule>, c: seq<Rule>, main: int, first: set<Source>, second: set<Source>)
    requires Grown(a, b, first) && Grown(b, c, second)
    ensures Grown(a, c, first + second)
    ensures Enough(a, main, first + second) <==> Enough(a, main, first) && Enough(b, main, second)
  {
    hide Ruled;
    var u, v, w := Unruled(a, first), Unruled(b, second), Unruled(a, first + second);
    Sizes(u, w);
    if |a| + |u| <= RuleTable.SRC_TABLE_NUM {
      assert w == u + v && u !! v;
    }
  }

  /** Of any sequence of requests, the answers of which are `rules`, all are met if and only if the source prefixes
      that are asked for at all, over both families, are at most as many as there are rules. */
  lemma {:induction false} TenSourcePrefixes(rules: seq<seq<Rule>>, main: int, asked: seq<set<Source>>)
    requires |rules| == |asked| + 1 && rules[0] == [] && main != -1
    requires forall i :: 0 <= i < |asked| ==> Grown(rules[i], rules[i + 1], asked[i])
    ensures (forall i :: 0 <= i < |asked| ==> Enough(rules[i], main, asked[i]))
            <==> |set s | s in AllOf(asked) && s.bits != []| <= 10
  {
    AskedOften(rules, main, asked);
    assert Unruled([], AllOf(asked)) == set s | s in AllOf(asked) && s.bits != [];
  }

  function AllOf(asked: seq<set<Source>>): set<Source> {
    if asked == [] then {} else var n := |asked| - 1; AllOf(asked[..n]) + asked[n]
  }

  lemma {:induction false} AskedOften(rules: seq<seq<Rule>>, main: int, asked: seq<set<Source>>)
    requires |rules| == |asked| + 1 && |rules[0]| <= RuleTable.SRC_TABLE_NUM
    requires forall i :: 0 <= i < |asked| ==> Grown(rules[i], rules[i + 1], asked[i])
    ensures Grown(rules[0], rules[|asked|], AllOf(asked))
    ensures (forall i :: 0 <= i < |asked| ==> Enough(rules[i], main, asked[i]))
            <==> Enough(rules[0], main, AllOf(asked))
  {
    hide Grown, Enough;
    if asked == [] {
      NothingAsked(rules[0], main);
    } else {
      var n := |asked| - 1;
      AskedOften(rules[..n + 1], main, asked[..n]);
      AskedTwice(rules[0], rules[n], rules[n + 1], main, AllOf(asked[..n]), asked[n]);
      forall i | 0 <= i < n ensures rules[..n + 1][i] == rules[i] && asked[..n][i] == asked[i] {
      }
    }
  }

  lemma NothingAsked(rs: seq<Rule>, main: int)
    requires |rs| <= RuleTable.SRC_TABLE_NUM
    ensures Grown(rs, rs, {}) && Enough(rs, main, {})
  {
    assert Unruled(rs, {}) == {};
  }

  // ---------------------------------------------------------------- find_table

  /** The source prefix as a route gives it. */
  ghost predicate Names(s: Source, src: Address, plen: nat) {
    plen <= 128 && s.bits == BitsOf(src, plen) && (plen != 0 ==> s.v4 == V4Mapped(src))
  }

  lemma ServesExactly(r: Rule, s: Source, src: Address, plen: nat)
    requires Names(s, src, plen) && 0 < plen && r.plen <= 128
    ensures Serves(r, s.v4, s.bits) <==> Lies(src, plen, r) == Equals
  {
  }

  lemma RuledExactly(rs: seq<Rule>, s: Source, src: Address, plen: nat)
    requires Names(s, src, plen) && 0 < plen
    ensures Ruled(rs, s) <==> RuleTable.HasRule(rs, src, plen)
    ensures forall t, main :: RuleTable.HasTable(rs, src, plen, t) ==> TableFor(rs, main, s.v4, s.bits, t)
  {
    hide Lies, V4Mapped, BitsOf;
    NamesLength(s, src, plen);
    forall r: Rule | r.plen <= 128 ensures Serves(r, s.v4, s.bits) <==> Lies(src, plen, r) == Equals {
      ServesExactly(r, s, src, plen);
    }
    if Ruled(rs, s) {
      var r :| r in rs && Serves(r, s.v4, s.bits);
    }
  }

  lemma NamesLength(s: Source, src: Address, plen: nat)
    requires Names(s, src, plen)
    ensures |s.bits| == plen
  {
  }

  lemma RuleMade(before: seq<Rule>, after: seq<Rule>, r: Rule, s: Source)
    requires RuleTable.Spliced(before, after, r) && Serves(r, s.v4, s.bits)
    ensures RulesKept(before, after) && |after| == |before| + 1 && r in after
    ensures forall x: Source :: Ruled(after, x) <==> Ruled(before, x) || x == s
  {
    hide V4Mapped, SourceOf;
    var i: nat :| i <= |before| && after == before[..i] + [r] + before[i..];
    assert before == before[..i] + before[i..];
    assert forall x :: x in after <==> x == r || x in before;
  }

  /** What find_table does to the rules, and when it has a table. */
  lemma AssignedTable(before: seq<Rule>, after: seq<Rule>, main: int, s: Source, src: Address, plen: nat, table: int)
    requires Aligned(before) && Ordered(before) && plen % 8 == 0 && Names(s, src, plen)
    requires |before| <= RuleTable.SRC_TABLE_NUM
    requires if plen == 0 then table == main && after == before
             else RuleTable.Assigned(before, after, src, plen, table)
    ensures Aligned(after) && Ordered(after) && forall r :: r in after ==> 0 < r.plen <= 128
    ensures Grown(before, after, {s}) && (table != -1 <==> Enough(before, main, {s}))
    ensures table != -1 ==> TableFor(after, main, s.v4, s.bits, table)
  {
    hide Ordered, Serves, V4Mapped, BitsOf, Lies, RuleTable.HasRule, RuleTable.HasTable, RuleTable.Spliced, Ruled;
    NamesLength(s, src, plen);
    assert Unruled(before, {s}) == if s.bits == [] || Ruled(before, s) then {} else {s};
    if plen != 0 {
      RuledExactly(before, s, src, plen);
      var r := Rule(src, plen, table);
      Itself(r, s, src, plen);
      if RuleTable.Spliced(before, after, r) { RuleMade(before, after, r, s); }
    }
  }

  lemma Itself(r: Rule, s: Source, src: Address, plen: nat)
    requires Names(s, src, plen) && 0 < plen && r.src == src && r.plen == plen
    ensures Serves(r, s.v4, s.bits)
    ensures forall rs, main :: r in rs ==> TableFor(rs, main, s.v4, s.bits, r.table)
  {
    assert |s.bits| == plen;
  }

  // ---------------------------------------------------------------- the routes

  /** The kernel's routes of one family, and the rules, which both families share. */
  class Routes {
    const rules: RuleTable.Table
    const v4: bool
    var fib: Fib
    /** What was written, by zone. */
    ghost var zones: Kernel

    ghost predicate Valid()
      reads this, rules, rules.rules, rules.used
    {
      && rules.Valid() && Aligned(rules.Rules()) && Ordered(rules.Rules())
      && Numbered(rules)
      && Filed(zones, rules.Rules(), fib, rules.exportTable, v4)
      && Confined(fib, rules.Rules(), rules.exportTable, v4)
    }

    constructor (rules: RuleTable.Table, v4: bool)
      requires rules.Valid() && rules.Rules() == [] && Numbered(rules)
      ensures Valid() && zones == map[] && fib == map[] && this.rules == rules && this.v4 == v4
    {
      this.rules, this.v4, fib, zones := rules, v4, map[], map[];
    }

    /** find_table for a route of either family: whatever rule it makes, what was filed stays filed. */
    method Table(src: Address, plen: nat, past: U8, ghost s: Source) returns (table: int)
      requires Valid() && plen <= 128 && plen % 8 == 0 && Names(s, src, plen)
      modifies rules.rules, rules.used, rules`kernel, rules`count
      ensures Valid() && TablesApart(rules.Rules(), rules.exportTable)
      ensures Grown(old(rules.Rules()), rules.Rules(), {s})
      ensures table != -1 <==> Enough(old(rules.Rules()), rules.exportTable, {s})
      ensures table != -1 && s.v4 == v4 ==> TableFor(rules.Rules(), rules.exportTable, v4, s.bits, table)
    {
      hide Filed, Confined, TableFor, Ordered, BitsOf, TablesApart, Numbering.Marks, RuleTable.Tables, Enough, Names,
           RuleTable.Assigned;
      ghost var before := rules.Rules();
      table := rules.FindTable(src, plen, past, 0, false);
      MarkedApart(rules.Rules(), rules.idx, rules.used[..], rules.exportTable);
      AssignedTable(before, rules.Rules(), rules.exportTable, s, src, plen, table);
      RulesAdded(zones, before, rules.Rules(), fib, rules.exportTable, v4);
    }

    /** add_route and chg_route: the route is filed if there is a table for its source prefix; otherwise it strays. */
    method Write(dst: Bits, src: Address, plen: nat, past: U8, route: S.Route) returns (ok: bool)
      requires Valid() && plen <= 128 && plen % 8 == 0 && (plen != 0 ==> V4Mapped(src) == v4)
      modifies `fib, `zones, rules.rules, rules.used, rules`kernel, rules`count
      ensures Valid() && Grown(old(rules.Rules()), rules.Rules(), {Source(v4, BitsOf(src, plen))})
      ensures ok <==> Enough(old(rules.Rules()), rules.exportTable, {Source(v4, BitsOf(src, plen))})
      ensures if ok
              then zones == old(zones)[Zone(dst, BitsOf(src, plen)) := route] && (old(NoStrays(fib)) ==> NoStrays(fib))
              else zones == old(zones) && fib == old(fib)[(LOCAL, dst) := route]
    {
      hide Filed, Confined, TableFor, Ordered, BitsOf, TablesApart, Enough, Grown;
      var table := Table(src, plen, past, Source(v4, BitsOf(src, plen)));
      ok := table != -1;
      if ok {
        var z := Zone(dst, BitsOf(src, plen));
        NeverLocal(rules.Rules(), rules.exportTable, v4, z.src, table);
        RouteWritten(zones, rules.Rules(), fib, rules.exportTable, v4, z, table, route);
        fib, zones := fib[(table, dst) := route], zones[z := route];
      } else {
        Strayed(zones, rules.Rules(), fib, fib[(LOCAL, dst) := route], rules.exportTable, v4);
        fib := fib[(LOCAL, dst) := route];
      }
    }

    /** del_route */
    method Delete(dst: Bits, src: Address, plen: nat, past: U8) returns (ok: bool)
      requires Valid() && plen <= 128 && plen % 8 == 0 && (plen != 0 ==> V4Mapped(src) == v4)
      modifies `fib, `zones, rules.rules, rules.used, rules`kernel, rules`count
      ensures Valid() && Grown(old(rules.Rules()), rules.Rules(), {Source(v4, BitsOf(src, plen))})
      ensures ok <==> Enough(old(rules.Rules()), rules.exportTable, {Source(v4, BitsOf(src, plen))})
      ensures if ok
              then zones == old(zones) - {Zone(dst, BitsOf(src, plen))} && (old(NoStrays(fib)) ==> NoStrays(fib))
              else zones == old(zones) && fib == old(fib) - {(LOCAL, dst)}
    {
      hide Filed, Confined, TableFor, Ordered, BitsOf, TablesApart, Enough, Grown;
      var table := Table(src, plen, past, Source(v4, BitsOf(src, plen)));
      ok := table != -1;
      if ok {
        ghost var z := Zone(dst, BitsOf(src, plen));
        NeverLocal(rules.Rules(), rules.exportTable, v4, z.src, table);
        RouteDeleted(zones, rules.Rules(), fib, rules.exportTable, v4, z, table);
        fib, zones := fib - {(table, dst)}, zones - {z};
      } else {
        Strayed(zones, rules.Rules(), fib, fib - {(LOCAL, dst)}, rules.exportTable, v4);
        fib := fib - {(LOCAL, dst)};
      }
    }

    /** The other family has made rules: what was filed stays filed. */
    twostate lemma RulesMade()
      requires old(Valid()) && fib == old(fib) && zones == old(zones)
      requires rules.Valid() && Aligned(rules.Rules()) && Ordered(rules.Rules())
      requires RulesKept(old(rules.Rules()), rules.Rules())
      ensures Valid()
    {
      hide Filed, Confined, Ordered, TablesApart, Numbering.Marks, RuleTable.Tables;
      MarkedApart(rules.Rules(), rules.idx, rules.used[..], rules.exportTable);
      RulesAdded(zones, old(rules.Rules()), rules.Rules(), fib, rules.exportTable, v4);
    }
  }

  /** The tables of the rules, the main and the local table are different ones. */
  ghost predicate Numbered(rules: RuleTable.Table) {
    && rules.exportTable != LOCAL && rules.idx + RuleTable.SRC_TABLE_NUM <= LOCAL
    && !(rules.idx <= rules.exportTable < rules.idx + RuleTable.SRC_TABLE_NUM)
  }
}
