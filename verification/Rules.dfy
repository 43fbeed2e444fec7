/** The policy rules (rule.c): which routing table a packet is looked up in, by its source address. */
module RuleOrder {
  import opened Common
  import opened Prefix

  /** struct rule */
  datatype Rule = Rule(src: Address, plen: nat, table: int)

  /** Whole bytes: the lengths on which prefix_cmp is the order of prefixes. */
  predicate Aligned(rs: seq<Rule>) {
    forall i :: 0 <= i < |rs| ==> 0 < rs[i].plen <= 128 && rs[i].plen % 8 == 0
  }

  /** How the source prefix `src`/`plen` lies to that of a rule. The two families have nothing in common. */
  function Lies(src: Address, plen: nat, r: Rule): Status
    requires plen <= 128 && r.plen <= 128
  {
    if V4Mapped(src) != V4Mapped(r.src) then Disjoint
    else Compare(BitsOf(src, plen), BitsOf(r.src, r.plen))
  }

  /** prefix_cmp against a rule; its length follows its address in memory. */
  function Cmp(src: Address, plen: nat, past: U8, r: Rule): Status
    requires plen <= 128 && r.plen <= 128
  {
    PrefixCmp(src, plen, past, r.src, r.plen, r.plen)
  }

  lemma CmpIsOrder(src: Address, plen: nat, past: U8, r: Rule)
    requires plen <= 128 && r.plen <= 128 && plen % 8 == 0 && r.plen % 8 == 0
    ensures Cmp(src, plen, past, r) == Lies(src, plen, r)
  {
    if V4Mapped(src) == V4Mapped(r.src) {
      AlignedIsCompare(src, plen, past, r.src, r.plen, r.plen);
    }
  }

  /** No rule is hidden behind a less specific one, or behind one with the same prefix. */
  ghost predicate Ordered(rs: seq<Rule>) {
    && (forall i :: 0 <= i < |rs| ==> rs[i].plen <= 128)
    && forall i, j :: 0 <= i < j < |rs| ==> Lies(rs[i].src, rs[i].plen, rs[j]) in {MoreSpecific, Disjoint}
  }

  /** The packets that the kernel sends to the table of a rule, if no rule of higher priority takes them. */
  predicate Matches(r: Rule, address: Address) {
    V4Mapped(address) == V4Mapped(r.src) && InPrefix(address, r.src, Min(r.plen, 128))
  }

  /** The kernel tries the rules in the order of their priorities. */
  function FirstMatch(rs: seq<Rule>, address: Address): Option<Rule> {
    if rs == [] then None
    else if Matches(rs[0], address) then Some(rs[0])
    else FirstMatch(rs[1..], address)
  }

  lemma {:induction false} FirstMatchAt(rs: seq<Rule>, address: Address) returns (i: nat)
    ensures match FirstMatch(rs, address)
            case None => forall j :: 0 <= j < |rs| ==> !Matches(rs[j], address)
            case Some(r) => i < |rs| && rs[i] == r && Matches(r, address)
                            && forall j :: 0 <= j < i ==> !Matches(rs[j], address)
  {
    i := 0;
    if rs != [] && !Matches(rs[0], address) {
      var k := FirstMatchAt(rs[1..], address);
      i := k + 1;
      assert forall j :: 0 < j < |rs| ==> rs[j] == rs[1..][j - 1];
    }
  }

  /** Two rules that match one packet are nested, the longer prefix inside the shorter. */
  lemma MatchesAreNested(a: Rule, b: Rule, address: Address)
    requires a.plen <= 128 && b.plen <= 128 && Matches(a, address) && Matches(b, address)
    ensures Lies(a.src, a.plen, b)
            == if a.plen > b.plen then MoreSpecific else if a.plen < b.plen then LessSpecific else Equals
  {
    InPrefixIsMembership(address, a.src, a.plen);
    InPrefixIsMembership(address, b.src, b.plen);
  }

  /** Trying the rules in order of priority finds the longest matching source prefix. */
  lemma FirstMatchIsLongest(rs: seq<Rule>, address: Address)
    requires Ordered(rs)
    ensures match FirstMatch(rs, address)
            case None => forall r :: r in rs ==> !Matches(r, address)
            case Some(best) =>
              && best in rs && Matches(best, address)
              && forall r :: r in rs && Matches(r, address) ==> r == best || r.plen < best.plen
  {
    var i := FirstMatchAt(rs, address);
    if FirstMatch(rs, address).Some? {
      forall r | r in rs && Matches(r, address) ensures r == rs[i] || r.plen < rs[i].plen {
        var j :| 0 <= j < |rs| && rs[j] == r;
        MatchesAreNested(rs[i], r, address);
        assert i < j ==> Lies(rs[i].src, rs[i].plen, rs[j]) in {MoreSpecific, Disjoint};
      }
    }
  }

  /** What find_table_slot looks for: the first rule that is not disjoint from the source prefix and not inside
      it; all of them are if it is `n`. */
  ghost predicate IsSlot(rs: seq<Rule>, src: Address, plen: nat, past: U8, n: int)
    requires plen <= 128 && forall i :: 0 <= i < |rs| ==> rs[i].plen <= 128
  {
    && 0 <= n <= |rs|
    && (forall i :: 0 <= i < n ==> Cmp(src, plen, past, rs[i]) in {LessSpecific, Disjoint})
    && (n < |rs| ==> Cmp(src, plen, past, rs[n]) in {MoreSpecific, Equals})
  }

  /** A new rule at its slot keeps the order: behind it there is nothing more specific. */
  lemma InsertOrdered(rs: seq<Rule>, added: Rule, past: U8, n: int)
    requires Ordered(rs) && Aligned(rs) && Aligned([added])
    requires added.plen <= 128 && IsSlot(rs, added.src, added.plen, past, n)
    requires n < |rs| ==> Cmp(added.src, added.plen, past, rs[n]) != Equals
    ensures Ordered(rs[..n] + [added] + rs[n..]) && Aligned(rs[..n] + [added] + rs[n..])
  {
    assert added == [added][0];
    hide Lies, Cmp;
    forall j | n <= j < |rs| ensures Lies(added.src, added.plen, rs[j]) in {MoreSpecific, Disjoint} {
      CmpIsOrder(added.src, added.plen, past, rs[n]);
      if j > n {
        assert Lies(rs[n].src, rs[n].plen, rs[j]) in {MoreSpecific, Disjoint};
        NestedOrder(added, rs[n], rs[j]);
      }
    }
    forall i | 0 <= i < n ensures Lies(rs[i].src, rs[i].plen, added) in {MoreSpecific, Disjoint} {
      CmpIsOrder(added.src, added.plen, past, rs[i]);
      Reverse(added, rs[i]);
    }
    SpliceOrdered(rs, added, n);
  }

  lemma SpliceOrdered(rs: seq<Rule>, added: Rule, n: nat)
    requires Ordered(rs) && n <= |rs| && added.plen <= 128
    requires forall i :: 0 <= i < n ==> Lies(rs[i].src, rs[i].plen, added) in {MoreSpecific, Disjoint}
    requires forall j :: n <= j < |rs| ==> Lies(added.src, added.plen, rs[j]) in {MoreSpecific, Disjoint}
    ensures Ordered(rs[..n] + [added] + rs[n..])
    ensures Aligned(rs) && Aligned([added]) ==> Aligned(rs[..n] + [added] + rs[n..])
  {
    hide Lies;
    assert added == [added][0];
    var u := rs[..n] + [added] + rs[n..];
    assert forall k :: 0 <= k < |u| ==> u[k] == if k < n then rs[k] else if k == n then added else rs[k - 1];
  }

  lemma Reverse(a: Rule, b: Rule)
    requires a.plen <= 128 && b.plen <= 128 && Lies(a.src, a.plen, b) in {LessSpecific, Disjoint}
    ensures Lies(b.src, b.plen, a) in {MoreSpecific, Disjoint}
  {
  }

  /** If `a` lies inside `b`, and `c` does not contain and is not `b`, then `a` contains no `c` and is not `c`. */
  lemma NestedOrder(a: Rule, b: Rule, c: Rule)
    requires a.plen <= 128 && b.plen <= 128 && c.plen <= 128
    requires Lies(a.src, a.plen, b) == MoreSpecific && Lies(b.src, b.plen, c) in {MoreSpecific, Disjoint}
    ensures Lies(a.src, a.plen, c) in {MoreSpecific, Disjoint}
  {
  }

  /** For a length that is not whole bytes the slot search can take a rule for another prefix of the same length
      to be its own: whatever the length, two disjoint source prefixes share one table. */
  lemma UnalignedPrefixesShare(plen: nat) returns (src: Address, rule: Rule)
    requires plen <= 128 && plen % 8 != 0
    ensures rule.plen == plen && Lies(src, plen, rule) == Disjoint && Cmp(src, plen, plen, rule) == Equals
  {
    hide V4Mapped, BitsOf, KeepTop, Compare;
    var n := plen / 8;
    src, rule := ZEROES[n := 0x80], Rule(ZEROES, plen, 0);
    NotMapped(n);
    Apart(plen, plen, n);
    assert src[..n] == ZEROES[..n];
    assert n + 1 < 16 ==> src[n + 1] == ZEROES[n + 1];
  }
}

/** Numbers given out, one to each, from a range that starts at 0. */
module Numbering {
  ghost predicate Distinct(s: seq<int>) {
    forall i, j :: 0 <= i < j < |s| ==> s[i] != s[j]
  }

  /** The numbers marked as used are the ones given out. */
  ghost predicate Marks(s: seq<int>, used: seq<bool>) {
    && Distinct(s)
    && (forall x :: x in s ==> 0 <= x < |used|)
    && forall t :: 0 <= t < |used| ==> (used[t] <==> t in s)
  }

  lemma {:induction false} Size(s: seq<int>)
    requires Distinct(s)
    ensures |set x | x in s| == |s|
  {
    if s != [] {
      var n := |s| - 1;
      Size(s[..n]);
      assert s == s[..n] + [s[n]];
      assert (set x | x in s) == (set x | x in s[..n]) + {s[n]};
    }
  }

  function Range(n: nat): (r: set<int>)
    ensures forall x :: x in r <==> 0 <= x < n
    ensures |r| == n
  {
    if n == 0 then {} else Range(n - 1) + {n - 1}
  }

  lemma SameSize(a: set<int>, b: set<int>)
    requires a <= b && |a| == |b|
    ensures a == b
  {
    assert b == a + (b - a);
  }

  /** As many are given out as there are exactly if all are marked. */
  lemma AllTaken(s: seq<int>, used: seq<bool>)
    requires Marks(s, used)
    ensures |s| <= |used|
    ensures |s| == |used| <==> forall t :: 0 <= t < |used| ==> used[t]
  {
    Size(s);
    var given := set x | x in s;
    assert Range(|used|) == given + (Range(|used|) - given);
    if |s| == |used| {
      SameSize(given, Range(|used|));
      forall t | 0 <= t < |used| ensures used[t] { assert t in given; }
    }
    assert (forall t :: 0 <= t < |used| ==> used[t]) ==> given == Range(|used|);
  }

  lemma OneMore(s: seq<int>, used: seq<bool>, at: nat, t: int)
    requires Marks(s, used) && at <= |s| && 0 <= t < |used| && !used[t]
    ensures Marks(s[..at] + [t] + s[at..], used[t := true])
  {
    var u := s[..at] + [t] + s[at..];
    assert s == s[..at] + s[at..];
    assert forall x :: x in u <==> x == t || x in s;
  }
}

/** The array of rules, and the rules of the kernel that mirror it. */
module RuleTable {
  import opened Common
  import opened Prefix
  import opened RuleOrder
  import Numbering

  const SRC_TABLE_NUM := 10

  class Table {
    /** The rule at index `i` has priority `prio + i`; length 0 is an empty entry. */
    var rules: array<Rule>
    /** Whether table number `idx + i` is in use. */
    var used: array<bool>
    /** The rules of the kernel, by their priority less src_table_prio. Its calls succeed. */
    var kernel: map<int, Rule>
    ghost var count: nat
    const idx: nat
    const exportTable: int

    ghost predicate Valid()
      reads this, rules, used
    {
      InForce() && used.Length == SRC_TABLE_NUM && Numbering.Marks(Tables(Rules(), idx), used[..])
    }

    /** The first `count` entries are taken, the others empty, and the kernel has the rules at their priorities. */
    ghost predicate InForce()
      reads this, rules
    {
      && rules.Length == SRC_TABLE_NUM && count <= SRC_TABLE_NUM
      && (forall i :: 0 <= i < SRC_TABLE_NUM ==> rules[i].plen <= 128 && (rules[i].plen != 0 <==> i < count))
      && Mirrored(kernel, Rules())
    }

    /** The rules in force: a prefix of the array. */
    ghost function Rules(): seq<Rule>
      requires count <= rules.Length
      reads this, rules
    {
      rules[..count]
    }

    constructor (idx: nat, exportTable: int)
      ensures Valid() && Rules() == [] && fresh(rules) && fresh(used)
      ensures this.idx == idx && this.exportTable == exportTable
    {
      this.idx, this.exportTable := idx, exportTable;
      rules := new Rule[SRC_TABLE_NUM](_ => Rule(ZEROES, 0, 0));
      used := new bool[SRC_TABLE_NUM](_ => false);
      kernel, count := map[], 0;
    }

    /** get_free_table: marks the lowest table number that is free, or returns -1. */
    method GetFreeTable() returns (table: int)
      requires used.Length == SRC_TABLE_NUM
      modifies used
      ensures table < 0 ==> table == -1 && used[..] == old(used[..]) && forall t :: 0 <= t < SRC_TABLE_NUM ==> used[t]
      ensures table >= 0 ==> 0 <= table - idx < SRC_TABLE_NUM && !old(used[table - idx])
                             && used[..] == old(used[..])[table - idx := true]
                             && forall t :: 0 <= t < table - idx ==> used[t]
    {
      for i := 0 to SRC_TABLE_NUM
        invariant used[..] == old(used[..])
        invariant forall t :: 0 <= t < i ==> used[t]
      {
        if !used[i] {
          used[i] := true;
          return i + idx;
        }
      }
      return -1;
    }

    /** find_hole_around: an empty entry, at `i` or behind it if there is one there. */
    method FindHoleAround(i: nat) returns (hole: int)
      requires rules.Length == SRC_TABLE_NUM && i <= SRC_TABLE_NUM
      ensures hole < 0 ==> hole == -1 && forall j :: 0 <= j < SRC_TABLE_NUM ==> rules[j].plen != 0
      ensures hole >= 0 ==> hole < SRC_TABLE_NUM && rules[hole].plen == 0
      ensures hole >= i ==> forall j :: i <= j < hole ==> rules[j].plen != 0
      ensures hole < i ==> forall j :: i <= j < SRC_TABLE_NUM ==> rules[j].plen != 0
    {
      for j := i to SRC_TABLE_NUM
        invariant forall k :: i <= k < j ==> rules[k].plen != 0
      {
        if rules[j].plen == 0 {
          return j;
        }
      }
      for j := i downto 0
        invariant forall k :: j <= k < SRC_TABLE_NUM ==> rules[k].plen != 0
      {
        if rules[j].plen == 0 {
          return j;
        }
      }
      return -1;
    }

    /** shift_rule, to the right: the rules from `from` on move up by one priority, into the hole. */
    method ShiftRule(from: nat, hole: nat)
      requires rules.Length == SRC_TABLE_NUM && from <= hole < SRC_TABLE_NUM && rules[hole].plen == 0
      requires forall i :: 0 <= i < hole ==> rules[i].plen != 0
      requires Mirrored(kernel, rules[..hole])
      modifies rules, `kernel
      ensures forall i :: 0 <= i < SRC_TABLE_NUM && i != from ==>
                rules[i] == if from < i <= hole then old(rules[i - 1]) else old(rules[i])
      ensures rules[from].plen == 0
      ensures forall p :: p in kernel <==> 0 <= p <= hole && p != from
      ensures forall p :: p in kernel ==> kernel[p] == rules[p]
    {
      hide Mirrored;
      var to := hole;
      KernelStarts(hole);
      while to != from
        invariant from <= to <= hole
        invariant forall i :: 0 <= i < SRC_TABLE_NUM && i != to ==>
                    rules[i] == if to < i <= hole then old(rules[i - 1]) else old(rules[i])
        invariant rules[to].plen == 0 && KernelBut(hole, to)
      {
        to := to - 1;
        MoveDown(to, hole);
      }
    }

    /** The kernel has the rules up to `hole`, but for one. */
    ghost predicate KernelBut(hole: nat, gap: nat)
      reads this, rules
    {
      && hole < rules.Length
      && (forall p :: p in kernel <==> 0 <= p <= hole && p != gap)
      && (forall p :: p in kernel ==> kernel[p] == rules[p])
    }

    lemma KernelStarts(hole: nat)
      requires hole < rules.Length && Mirrored(kernel, rules[..hole])
      ensures KernelBut(hole, hole)
    {
    }

    /** One round of shift_rule: change_rule gives the rule the next priority. */
    method MoveDown(to: nat, ghost hole: nat)
      requires to < hole < rules.Length && KernelBut(hole, to + 1)
      modifies rules, `kernel
      ensures KernelBut(hole, to) && rules[to + 1] == old(rules[to]) && rules[to].plen == 0
      ensures forall i :: 0 <= i < rules.Length && i != to && i != to + 1 ==> rules[i] == old(rules[i])
    {
      kernel := kernel[to + 1 := rules[to]] - {to};
      rules[to + 1] := rules[to];
      rules[to] := rules[to].(plen := 0);
    }

    /** insert_table: a rule for the source prefix goes to index `at`, with the lowest free table number. That
        there is a number but no entry cannot happen, and rules are shifted to the right only. */
    method InsertTable(src: Address, plen: nat, at: int) returns (table: int)
      requires Valid() && 0 < plen <= 128 && 0 <= at <= count
      modifies rules, used, `kernel, `count
      ensures Valid()
      ensures if old(count) == SRC_TABLE_NUM then table == -1 && Rules() == old(Rules()) && used[..] == old(used[..])
              else Rules() == old(Rules())[..at] + [Rule(src, plen, table)] + old(Rules())[at..] && table >= idx
    {
      if at >= SRC_TABLE_NUM {
        return -1;
      }
      ghost var before, marks := Rules(), used[..];
      Numbering.AllTaken(Tables(before, idx), marks);
      hide Numbering.Marks, Tables, Mirrored;
      table := GetFreeTable();
      if table < 0 {
        return -1;
      }
      assert !marks[table - idx];
      var hole := FindHoleAround(at);
      assert hole == count by { assert rules[count].plen == 0; }
      AddRule(Rule(src, plen, table), at, hole);
      NumberedMore(before, marks, at, Rule(src, plen, table), idx);
    }

    /** The end of insert_table: shift_rule and add_rule. */
    method AddRule(r: Rule, at: nat, hole: int)
      requires InForce() && at <= count == hole < SRC_TABLE_NUM && 0 < r.plen <= 128
      modifies rules, `kernel, `count
      ensures InForce() && count == old(count) + 1
      ensures Rules() == old(Rules())[..at] + [r] + old(Rules())[at..]
    {
      hide Mirrored;
      ghost var before := Rules();
      ShiftRule(at, hole);
      rules[at] := r;
      kernel := kernel[at := r];
      count := count + 1;
      Inserted(before, Rules(), at, r);
      NowMirrored(kernel, Rules());
    }

    /** find_table_slot: the index of the rule for a source prefix, or the one where it belongs, or -1. */
    method FindTableSlot(src: Address, plen: nat, past: U8) returns (i: int, found: bool)
      requires InForce() && plen <= 128
      ensures i >= 0 ==> IsSlot(Rules(), src, plen, past, i)
      ensures found <==> 0 <= i < count && Cmp(src, plen, past, Rules()[i]) == Equals
      ensures i < 0 ==> i == -1 && IsSlot(Rules(), src, plen, past, count) && count == SRC_TABLE_NUM
    {
      hide Cmp, Mirrored;
      ghost var rs := Rules();
      for k := 0 to SRC_TABLE_NUM
        invariant k <= count && forall j :: 0 <= j < k ==> Cmp(src, plen, past, rs[j]) in {LessSpecific, Disjoint}
      {
        if rules[k].plen == 0 {
          return k, false;
        }
        assert rules[k] == rs[k];
        match Cmp(src, plen, past, rules[k])
        case LessSpecific =>
        case Disjoint =>
        case MoreSpecific => return k, false;
        case Equals => return k, true;
      }
      return -1, false;
    }

    /** find_table: the table in which a route from `src` is installed, -1 if there is none left. `filterTable` is
        the answer of the install filter, `disambiguates` says that the kernel looks at source prefixes itself.
        The rules stay in order, none is lost or renumbered, and the prefix has a rule for its table. */
    method FindTable(src: Address, plen: nat, past: U8, filterTable: int, disambiguates: bool) returns (table: int)
      requires Valid() && plen <= 128
      modifies rules, used, `kernel, `count
      ensures Valid()
      ensures filterTable != 0 || plen == 0 || disambiguates ==>
                table == (if filterTable != 0 then filterTable else exportTable) && Rules() == old(Rules())
      ensures forall r :: r in old(Rules()) ==> r in Rules()
      ensures |old(Rules())| == SRC_TABLE_NUM ==> Rules() == old(Rules())
      ensures filterTable == 0 && plen > 0 && !disambiguates ==>
                && BySlot(old(Rules()), Rules(), src, plen, past, table)
                && Assigned(old(Rules()), Rules(), src, plen, table)
    {
      ghost var rs := Rules();
      hide IsSlot, Assigned, Cmp, Tables, BySlot;
      if filterTable != 0 {
        return filterTable;
      } else if plen == 0 || disambiguates {
        return exportTable;
      }
      var i, found := FindTableSlot(src, plen, past);
      if found {
        Found(rs, used[..], idx, src, plen, past, i);
        SlotTells(rs, Rules(), src, plen, past, rules[i].table, i);
        return rules[i].table;
      }
      Sorted(rs, src, plen, past, if i < 0 then count else i);
      hide Ordered, Lies, Numbering.Marks;
      if i < 0 {
        SlotTells(rs, Rules(), src, plen, past, -1, count);
        return -1;
      }
      table := InsertTable(src, plen, i);
      SlotTells(rs, Rules(), src, plen, past, table, i);
    }

    /** release_tables */
    method ReleaseTables()
      requires Valid()
      modifies rules, used, `kernel, `count
      ensures Valid() && Rules() == [] && kernel == map[]
      ensures forall t :: 0 <= t < SRC_TABLE_NUM ==> !used[t]
    {
      for i := 0 to SRC_TABLE_NUM
        invariant forall j :: 0 <= j < SRC_TABLE_NUM ==>
                    rules[j].plen <= 128 && (rules[j].plen != 0 <==> i <= j < count)
        invariant count <= SRC_TABLE_NUM && forall p :: p in kernel <==> i <= p < count
        invariant forall t :: 0 <= t < i ==> !used[t]
      {
        if rules[i].plen != 0 {
          // flush_rule
          kernel := kernel - {i};
          rules[i] := rules[i].(plen := 0);
        }
        used[i] := false;
      }
      count := 0;
      assert kernel == map[];
    }
  }

  /** The source prefix has a rule. */
  ghost predicate HasRule(rs: seq<Rule>, src: Address, plen: nat)
    requires plen <= 128
  {
    exists r :: r in rs && r.plen <= 128 && Lies(src, plen, r) == Equals
  }

  /** The rule of the source prefix has this table. */
  ghost predicate HasTable(rs: seq<Rule>, src: Address, plen: nat, table: int)
    requires plen <= 128
  {
    exists r :: r in rs && r.plen <= 128 && Lies(src, plen, r) == Equals && r.table == table
  }

  /** The same for any length, as it is done: the rule at the slot is taken for that of the source prefix if the
      comparison says so; otherwise a new one goes there, if there is an entry left. */
  ghost predicate BySlot(before: seq<Rule>, after: seq<Rule>, src: Address, plen: nat, past: U8, table: int)
    requires plen <= 128 && forall i :: 0 <= i < |before| ==> before[i].plen <= 128
  {
    exists i :: IsSlot(before, src, plen, past, i) && AtSlot(before, after, src, plen, past, table, i)
  }

  predicate AtSlot(before: seq<Rule>, after: seq<Rule>, src: Address, plen: nat, past: U8, table: int, i: int)
    requires plen <= 128 && forall i :: 0 <= i < |before| ==> before[i].plen <= 128
  {
    && 0 <= i <= |before|
    && if i < |before| && Cmp(src, plen, past, before[i]) == Equals then table == before[i].table && after == before
       else if |before| < SRC_TABLE_NUM then after == before[..i] + [Rule(src, plen, table)] + before[i..]
       else table == -1 && after == before
  }

  ghost predicate Spliced(before: seq<Rule>, after: seq<Rule>, added: Rule) {
    exists i: nat :: i <= |before| && after == before[..i] + [added] + before[i..]
  }

  /** What find_table promises when it has to look at the rules: they stay in order; a source prefix that has a rule
      gets its table and changes nothing; another one gets a new rule, or -1 if there is no entry left. It holds of
      byte-aligned prefixes. */
  ghost predicate Assigned(before: seq<Rule>, after: seq<Rule>, src: Address, plen: nat, table: int)
    requires plen <= 128
  {
    plen % 8 == 0 && Aligned(before) && Ordered(before) ==>
      && Aligned(after) && Ordered(after)
      && if HasRule(before, src, plen) then after == before && table != -1 && HasTable(before, src, plen, table)
         else if |before| < SRC_TABLE_NUM then table != -1 && Spliced(before, after, Rule(src, plen, table))
         else after == before && table == -1
  }

  lemma SlotTells(before: seq<Rule>, after: seq<Rule>, src: Address, plen: nat, past: U8, table: int, i: int)
    requires plen <= 128 && forall i :: 0 <= i < |before| ==> before[i].plen <= 128
    requires IsSlot(before, src, plen, past, i) && AtSlot(before, after, src, plen, past, table, i)
    ensures BySlot(before, after, src, plen, past, table)
  {
  }

  ghost function Tables(rs: seq<Rule>, idx: int): (ts: seq<int>)
    ensures |ts| == |rs|
  {
    seq(|rs|, i requires 0 <= i < |rs| => rs[i].table - idx)
  }

  ghost predicate Mirrored(kernel: map<int, Rule>, rs: seq<Rule>) {
    && (forall p :: p in kernel <==> 0 <= p < |rs|)
    && (forall p :: p in kernel ==> kernel[p] == rs[p])
  }

  lemma NowMirrored(kernel: map<int, Rule>, rs: seq<Rule>)
    requires (forall p :: p in kernel <==> 0 <= p < |rs|) && forall p :: p in kernel ==> kernel[p] == rs[p]
    ensures Mirrored(kernel, rs)
  {
  }

  lemma Inserted(rs: seq<Rule>, after: seq<Rule>, at: nat, r: Rule)
    requires at <= |rs| && |after| == |rs| + 1 && after[at] == r
    requires forall i :: 0 <= i < at ==> after[i] == rs[i]
    requires forall i :: at < i < |after| ==> after[i] == rs[i - 1]
    ensures after == rs[..at] + [r] + rs[at..]
  {
  }

  lemma NumberedMore(rs: seq<Rule>, used: seq<bool>, at: nat, r: Rule, idx: int)
    requires Numbering.Marks(Tables(rs, idx), used) && at <= |rs|
    requires 0 <= r.table - idx < |used| && !used[r.table - idx]
    ensures Numbering.Marks(Tables(rs[..at] + [r] + rs[at..], idx), used[r.table - idx := true])
  {
    TablesInserted(rs, at, r, idx);
    Numbering.OneMore(Tables(rs, idx), used, at, r.table - idx);
  }

  lemma TablesInserted(rs: seq<Rule>, at: nat, r: Rule, idx: int)
    requires at <= |rs|
    ensures Tables(rs[..at] + [r] + rs[at..], idx) == Tables(rs, idx)[..at] + [r.table - idx] + Tables(rs, idx)[at..]
  {
  }

  lemma Found(rs: seq<Rule>, used: seq<bool>, idx: nat, src: Address, plen: nat, past: U8, i: nat)
    requires plen <= 128 && i < |rs| && rs[i].plen <= 128 && Cmp(src, plen, past, rs[i]) == Equals
    requires Numbering.Marks(Tables(rs, idx), used)
    ensures Assigned(rs, rs, src, plen, rs[i].table)
  {
    assert Tables(rs, idx)[i] in Tables(rs, idx);
    if plen % 8 == 0 && Aligned(rs) {
      CmpIsOrder(src, plen, past, rs[i]);
      assert rs[i] in rs;
    }
  }

  lemma Sorted(rs: seq<Rule>, src: Address, plen: nat, past: U8, i: int)
    requires 0 < plen <= 128 && (forall k :: 0 <= k < |rs| ==> rs[k].plen <= 128) && |rs| <= SRC_TABLE_NUM
    requires IsSlot(rs, src, plen, past, i)
    requires i < |rs| ==> Cmp(src, plen, past, rs[i]) != Equals
    ensures |rs| == SRC_TABLE_NUM ==> Assigned(rs, rs, src, plen, -1)
    ensures |rs| < SRC_TABLE_NUM ==> forall table :: table >= 0 ==>
              Assigned(rs, rs[..i] + [Rule(src, plen, table)] + rs[i..], src, plen, table)
    ensures forall table, x :: x in rs ==> x in rs[..i] + [Rule(src, plen, table)] + rs[i..]
  {
    NoneLeft(rs, src, plen, past, i);
    forall table | table >= 0 && |rs| < SRC_TABLE_NUM
      ensures Assigned(rs, rs[..i] + [Rule(src, plen, table)] + rs[i..], src, plen, table)
    {
      Placed(rs, Rule(src, plen, table), past, i);
      assert Spliced(rs, rs[..i] + [Rule(src, plen, table)] + rs[i..], Rule(src, plen, table));
    }
    assert rs == rs[..i] + rs[i..];
  }

  /** The slot of a new rule tells that no rule has its prefix. */
  lemma NoneLeft(rs: seq<Rule>, src: Address, plen: nat, past: U8, i: int)
    requires plen <= 128 && forall k :: 0 <= k < |rs| ==> rs[k].plen <= 128
    requires IsSlot(rs, src, plen, past, i)
    requires i < |rs| ==> Cmp(src, plen, past, rs[i]) != Equals
    ensures 0 < plen && plen % 8 == 0 && Aligned(rs) && Ordered(rs) ==>
              forall r :: r in rs ==> Lies(src, plen, r) != Equals
  {
    if 0 < plen && plen % 8 == 0 && Aligned(rs) && Ordered(rs) {
      var added := Rule(src, plen, 0);
      InsertOrdered(rs, added, past, i);
      forall r | r in rs ensures Lies(src, plen, r) != Equals {
        var k :| 0 <= k < |rs| && rs[k] == r;
        Apart(rs, added, i, k);
      }
    }
  }

  lemma Apart(rs: seq<Rule>, added: Rule, n: nat, k: nat)
    requires n <= |rs| && k < |rs| && Ordered(rs[..n] + [added] + rs[n..]) && added.plen <= 128 && rs[k].plen <= 128
    ensures Lies(added.src, added.plen, rs[k]) != Equals
  {
    var u := rs[..n] + [added] + rs[n..];
    var m := if k < n then k else k + 1;
    assert u[m] == rs[k] && u[n] == added;
    if k < n {
      assert Lies(u[m].src, u[m].plen, u[n]) in {MoreSpecific, Disjoint};
    } else {
      assert Lies(u[n].src, u[n].plen, u[m]) in {MoreSpecific, Disjoint};
    }
  }

  lemma Placed(rs: seq<Rule>, r: Rule, past: U8, i: int)
    requires 0 < r.plen <= 128 && forall k :: 0 <= k < |rs| ==> rs[k].plen <= 128
    requires IsSlot(rs, r.src, r.plen, past, i)
    requires i < |rs| ==> Cmp(r.src, r.plen, past, rs[i]) != Equals
    ensures var u := rs[..i] + [r] + rs[i..];
            && r in u && Lies(r.src, r.plen, r) == Equals && (forall x :: x in rs ==> x in u)
            && (r.plen % 8 == 0 && Aligned(rs) && Ordered(rs) ==> Aligned(u) && Ordered(u))
  {
    if r.plen % 8 == 0 && Aligned(rs) && Ordered(rs) {
      InsertOrdered(rs, r, past, i);
    }
    assert rs == rs[..i] + rs[i..];
  }
}
