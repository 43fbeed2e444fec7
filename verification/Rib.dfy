/** The order of the route table (route.c): source-specific prefixes first. */
module RouteOrder {
  import opened SourceOrder
  import Lex

  /** route_compare: a prefix pair against that of a route. */
  function RouteCompare(k: Key, s: Key): int
    requires k.Valid() && s.Valid()
  {
    if k.srcPlen == 0 && s.srcPlen > 0 then 1
    else if k.srcPlen > 0 && s.srcPlen == 0 then -1
    else
      var i := Lex.Compare(k.prefix, s.prefix);
      if i != 0 then i
      else if k.plen < s.plen then -1
      else if k.plen > s.plen then 1
      else if k.srcPlen == 0 then (if s.srcPlen > 0 then -1 else 0)
      else
        var j := Lex.Compare(k.srcPrefix, s.srcPrefix);
        if j != 0 then j
        else if k.srcPlen < s.srcPlen then -1
        else if k.srcPlen > s.srcPlen then 1
        else 0
  }

  const ROUTE_WIDTH := 35

  /** The source prefix, which counts only if it is not empty. */
  function SourcePart(k: Key): (v: seq<int>)
    requires k.Valid()
    ensures |v| == 17
  {
    if k.srcPlen > 0 then k.srcPrefix + [k.srcPlen as int] else seq(17, _ => 0)
  }

  /** What route_compare looks at. */
  function RouteVector(k: Key): (v: seq<int>)
    requires k.Valid()
    ensures |v| == ROUTE_WIDTH
  {
    [if k.srcPlen > 0 then 0 else 1] + (k.prefix + ([k.plen as int] + SourcePart(k)))
  }

  lemma RouteCompareIsVectorOrder(k: Key, s: Key)
    requires k.Valid() && s.Valid()
    ensures RouteCompare(k, s) == Lex.Compare(RouteVector(k), RouteVector(s))
  {
    var f, g := if k.srcPlen > 0 then 0 else 1, if s.srcPlen > 0 then 0 else 1;
    Lex.Concat([f], [g], k.prefix + ([k.plen as int] + SourcePart(k)), s.prefix + ([s.plen as int] + SourcePart(s)));
    Lex.One(f, g);
    Lex.Concat(k.prefix, s.prefix, [k.plen as int] + SourcePart(k), [s.plen as int] + SourcePart(s));
    Lex.Concat([k.plen as int], [s.plen as int], SourcePart(k), SourcePart(s));
    Lex.One(k.plen, s.plen);
    if k.srcPlen > 0 && s.srcPlen > 0 {
      Lex.Concat(k.srcPrefix, s.srcPrefix, [k.srcPlen as int], [s.srcPlen as int]);
      Lex.One(k.srcPlen, s.srcPlen);
    }
  }

  /** Two prefix pairs share a slot exactly when they are equal, the source prefix of a non-specific one aside. */
  predicate SamePair(k: Key, s: Key) {
    && k.prefix == s.prefix && k.plen == s.plen && k.srcPlen == s.srcPlen
    && (k.srcPlen > 0 ==> k.srcPrefix == s.srcPrefix)
  }

  lemma SlotIsPair(k: Key, s: Key)
    requires k.Valid() && s.Valid()
    ensures RouteVector(k) == RouteVector(s) <==> SamePair(k, s)
  {
    if RouteVector(k) == RouteVector(s) {
      assert RouteVector(k)[0] == RouteVector(s)[0];
      assert k.prefix == RouteVector(k)[1..17] && s.prefix == RouteVector(s)[1..17];
      assert k.plen == RouteVector(k)[17] && s.plen == RouteVector(s)[17];
      assert SourcePart(k) == RouteVector(k)[18..] && SourcePart(s) == RouteVector(s)[18..];
      if k.srcPlen > 0 {
        assert k.srcPrefix == SourcePart(k)[..16] && s.srcPrefix == SourcePart(s)[..16];
        assert k.srcPlen == SourcePart(k)[16] && s.srcPlen == SourcePart(s)[16];
      }
    }
  }

  lemma SpecificFirst(k: Key, s: Key)
    requires k.Valid() && s.Valid() && Lex.Compare(RouteVector(k), RouteVector(s)) <= 0 && s.srcPlen > 0
    ensures k.srcPlen > 0
  {
  }
}

/** The table as a value: slots ordered by prefix pair, each a list of routes with the installed one, if any, at
    the head. */
module Rib {
  import opened Common
  import opened SourceOrder
  import opened RouteOrder
  import Lex
  import RouteMetric

  /** struct babel_route. `smoothed` is the smoothed metric at the current second. */
  datatype Route = Route(src: Key, neigh: nat, nexthop: seq<U8>, seqno: U16, refmetric: U16, cost: U16, add: U16,
                         smoothed: U16, time: int, holdTime: U16, installed: bool)
  {
    function Metric(): U16 { RouteMetric.Metric(refmetric, cost, add) }
  }

  type Slot = seq<Route>

  predicate SamePeer(a: Route, b: Route) { a.neigh == b.neigh && a.nexthop == b.nexthop }

  predicate SameSlot(a: Route, b: Route) { SamePair(a.src, b.src) }

  ghost predicate SlotOk(s: Slot) {
    && |s| > 0
    && (forall i :: 0 <= i < |s| ==> s[i].src.Valid() && SameSlot(s[i], s[0]))
    && (forall i, j :: 0 <= i < j < |s| ==> !SamePeer(s[i], s[j]))
    && (forall i :: 0 < i < |s| ==> !s[i].installed)
  }

  ghost function SlotVector(s: Slot): (v: seq<int>)
    requires SlotOk(s)
    ensures |v| == ROUTE_WIDTH
  {
    RouteVector(s[0].src)
  }

  ghost function Vectors(t: seq<Slot>): (v: seq<seq<int>>)
    requires forall i :: 0 <= i < |t| ==> SlotOk(t[i])
    ensures |v| == |t| && forall i :: 0 <= i < |t| ==> v[i] == SlotVector(t[i])
  {
    seq(|t|, i requires 0 <= i < |t| => SlotVector(t[i]))
  }

  /** The invariant of the route table. */
  ghost predicate TableOk(t: seq<Slot>) {
    && (forall i :: 0 <= i < |t| ==> SlotOk(t[i]))
    && Lex.Sorted(Vectors(t), ROUTE_WIDTH)
  }

  /** All routes of a table. */
  ghost function Routes(t: seq<Slot>): set<Route> {
    set i, j | 0 <= i < |t| && 0 <= j < |t[i]| :: t[i][j]
  }

  ghost function SlotRoutes(s: Slot): set<Route> {
    set r | r in s
  }

  // ---- slots

  lemma SlotAt(t: seq<Slot>, i: nat, j: nat)
    requires TableOk(t) && i < |t| && j < |t[i]|
    ensures SlotOk(t[i]) && SameSlot(t[i][j], t[i][0]) && t[i][j] in SlotRoutes(t[i])
  {
  }

  lemma SlotsApart(t: seq<Slot>, i: nat, j: nat, a: Route, b: Route)
    requires TableOk(t) && i < |t| && j < |t| && a in t[i] && b in t[j]
    ensures SameSlot(a, b) <==> i == j
  {
  }

  /** One route for each prefix pair, neighbour and next hop; one installed route for each prefix pair. */
  lemma RoutesApart(t: seq<Slot>, a: Route, b: Route)
    requires TableOk(t) && a in Routes(t) && b in Routes(t) && SameSlot(a, b)
    ensures SamePeer(a, b) ==> a == b
    ensures a.installed && b.installed ==> a == b
  {
  }

  lemma Concat(t: seq<Slot>, u: seq<Slot>)
    ensures Routes(t + u) == Routes(t) + Routes(u)
  {
    var v := t + u;
    forall r | r in Routes(t) + Routes(u) ensures r in Routes(v) {
      if r in Routes(t) {
        var k, l :| 0 <= k < |t| && 0 <= l < |t[k]| && t[k][l] == r;
        assert v[k][l] == r;
      } else {
        var k, l :| 0 <= k < |u| && 0 <= l < |u[k]| && u[k][l] == r;
        assert v[|t| + k][l] == r;
      }
    }
  }

  lemma One(s: Slot)
    ensures Routes([s]) == SlotRoutes(s)
  {
    forall r | r in SlotRoutes(s) ensures r in Routes([s]) {
      var l :| 0 <= l < |s| && s[l] == r;
      assert [s][0][l] == r;
    }
  }

  /** The routes before a slot, in it, and behind it. */
  lemma Around(t: seq<Slot>, s: Slot, u: seq<Slot>)
    ensures Routes(t + [s] + u) == Routes(t) + SlotRoutes(s) + Routes(u)
  {
    hide *;
    Concat(t + [s], u);
    Concat(t, [s]);
    One(s);
  }

  lemma Elsewhere(t: seq<Slot>, i: nat)
    requires TableOk(t) && i < |t|
    ensures t == t[..i] + [t[i]] + t[i + 1..]
    ensures SlotRoutes(t[i]) !! Routes(t[..i]) && SlotRoutes(t[i]) !! Routes(t[i + 1..])
  {
    hide TableOk;
    forall r | r in SlotRoutes(t[i]) && r in Routes(t[..i]) ensures false {
      var k, l :| 0 <= k < i && 0 <= l < |t[..i][k]| && t[..i][k][l] == r;
      SlotsApart(t, i, k, r, r);
    }
    forall r | r in SlotRoutes(t[i]) && r in Routes(t[i + 1..]) ensures false {
      var k, l :| 0 <= k < |t| - i - 1 && 0 <= l < |t[i + 1..][k]| && t[i + 1..][k][l] == r;
      SlotsApart(t, i, i + 1 + k, r, r);
    }
  }

  lemma ReplaceVector(t: seq<Slot>, i: nat, s: Slot)
    requires TableOk(t) && i < |t| && SlotOk(s) && SameSlot(s[0], t[i][0])
    ensures TableOk(t[i := s])
  {
    SlotIsPair(s[0].src, t[i][0].src);
    assert Vectors(t[i := s]) == Vectors(t);
  }

  /** A slot gives way to another with the same prefix pair. */
  lemma ReplaceSlot(t: seq<Slot>, i: nat, s: Slot)
    requires TableOk(t) && i < |t| && SlotOk(s) && SameSlot(s[0], t[i][0])
    ensures TableOk(t[i := s])
    ensures Routes(t[i := s]) == Routes(t) - SlotRoutes(t[i]) + SlotRoutes(s)
  {
    hide TableOk, SlotOk, SameSlot, Routes, SlotRoutes;
    ReplaceVector(t, i, s);
    Elsewhere(t, i);
    assert t[i := s] == t[..i] + [s] + t[i + 1..];
    Around(t[..i], t[i], t[i + 1..]);
    Around(t[..i], s, t[i + 1..]);
  }

  lemma VectorsConcat(t: seq<Slot>, u: seq<Slot>)
    requires forall i :: 0 <= i < |t| ==> SlotOk(t[i])
    requires forall i :: 0 <= i < |u| ==> SlotOk(u[i])
    ensures forall i :: 0 <= i < |t + u| ==> SlotOk((t + u)[i])
    ensures Vectors(t + u) == Vectors(t) + Vectors(u)
  {
  }

  lemma RemoveVector(t: seq<Slot>, i: nat)
    requires TableOk(t) && i < |t|
    ensures TableOk(t[..i] + t[i + 1..])
  {
    Lex.RemoveSorted(Vectors(t), ROUTE_WIDTH, i);
    hide SlotOk, Lex.Sorted;
    VectorsConcat(t[..i], t[i + 1..]);
    assert Vectors(t[..i]) == Vectors(t)[..i] && Vectors(t[i + 1..]) == Vectors(t)[i + 1..];
  }

  lemma RemoveSlot(t: seq<Slot>, i: nat)
    requires TableOk(t) && i < |t|
    ensures TableOk(t[..i] + t[i + 1..])
    ensures Routes(t[..i] + t[i + 1..]) == Routes(t) - SlotRoutes(t[i])
  {
    RemoveVector(t, i);
    hide Routes, SlotRoutes, TableOk;
    Elsewhere(t, i);
    Around(t[..i], t[i], t[i + 1..]);
    Concat(t[..i], t[i + 1..]);
  }

  lemma InsertSlot(t: seq<Slot>, n: nat, s: Slot)
    requires TableOk(t) && SlotOk(s) && Lex.Slot(Vectors(t), ROUTE_WIDTH, SlotVector(s), n)
    ensures TableOk(t[..n] + [s] + t[n..])
    ensures Routes(t[..n] + [s] + t[n..]) == Routes(t) + SlotRoutes(s)
  {
    InsertVector(t, n, s);
    InsertedRoutes(t, n, s);
  }

  lemma InsertedRoutes(t: seq<Slot>, n: nat, s: Slot)
    requires n <= |t|
    ensures Routes(t[..n] + [s] + t[n..]) == Routes(t) + SlotRoutes(s)
  {
    hide *;
    Around(t[..n], s, t[n..]);
    Concat(t[..n], t[n..]);
    assert t == t[..n] + t[n..];
  }

  lemma InsertVector(t: seq<Slot>, n: nat, s: Slot)
    requires TableOk(t) && SlotOk(s) && Lex.Slot(Vectors(t), ROUTE_WIDTH, SlotVector(s), n)
    ensures TableOk(t[..n] + [s] + t[n..])
  {
    Lex.InsertSorted(Vectors(t), ROUTE_WIDTH, SlotVector(s), n);
    assert Vectors(t)[..n] + [SlotVector(s)] + Vectors(t)[n..] == Vectors(t[..n] + [s] + t[n..]) by {
      hide SlotOk, Lex.Sorted, Lex.Slot;
      VectorsConcat(t[..n], [s]);
      VectorsConcat(t[..n] + [s], t[n..]);
      assert Vectors([s]) == [SlotVector(s)];
      assert Vectors(t[..n]) == Vectors(t)[..n] && Vectors(t[n..]) == Vectors(t)[n..];
    }
    hide SlotOk, Lex.Sorted, Lex.Slot, Vectors;
    VectorsConcat(t[..n], [s]);
    VectorsConcat(t[..n] + [s], t[n..]);
  }

  // ---- lists

  /** A list without its entry `j`. */
  function Unlinked(s: Slot, j: nat): Slot
    requires j < |s|
  {
    s[..j] + s[j + 1..]
  }

  lemma UnlinkedOk(s: Slot, j: nat)
    requires SlotOk(s) && j < |s|
    ensures SlotRoutes(Unlinked(s, j)) == SlotRoutes(s) - {s[j]}
    ensures |s| > 1 ==> SlotOk(Unlinked(s, j)) && SameSlot(Unlinked(s, j)[0], s[0])
  {
    var u := Unlinked(s, j);
    assert forall k :: 0 <= k < |u| ==> u[k] == s[if k < j then k else k + 1];
    forall r | r in SlotRoutes(s) - {s[j]} ensures r in SlotRoutes(u) {
      var k :| 0 <= k < |s| && s[k] == r;
      assert u[if k < j then k else k - 1] == r;
    }
  }

  lemma AppendOk(s: Slot, r: Route)
    requires SlotOk(s) && r.src.Valid() && SameSlot(r, s[0]) && !r.installed
    requires forall i :: 0 <= i < |s| ==> !SamePeer(s[i], r)
    ensures SlotOk(s + [r]) && SameSlot((s + [r])[0], s[0])
    ensures SlotRoutes(s + [r]) == SlotRoutes(s) + {r}
  {
  }

  /** One route changes, but not where it belongs. */
  lemma ChangeOk(s: Slot, j: nat, r: Route)
    requires SlotOk(s) && j < |s| && r.src.Valid() && SameSlot(r, s[0]) && SamePeer(r, s[j])
    requires r.installed ==> s[j].installed
    ensures SlotOk(s[j := r]) && SameSlot(s[j := r][0], s[0])
    ensures SlotRoutes(s[j := r]) == SlotRoutes(s) - {s[j]} + {r}
  {
    var u := s[j := r];
    forall x | x in SlotRoutes(s) - {s[j]} + {r} ensures x in SlotRoutes(u) {
      if x == r {
        assert u[j] == r;
      } else {
        var k :| 0 <= k < |s| && s[k] == x;
        assert u[k] == x;
      }
    }
    forall x | x in SlotRoutes(u) ensures x in SlotRoutes(s) - {s[j]} + {r} {
      var k :| 0 <= k < |u| && u[k] == x;
      if k != j { assert s[k] == x && x != s[j]; }
    }
  }

  function Idle(s: Slot): (u: Slot)
    ensures |u| == |s|
  {
    seq(|s|, k requires 0 <= k < |s| => s[k].(installed := false))
  }

  /** Route `j` becomes the installed one, at the head. */
  function Promoted(s: Slot, j: nat): Slot
    requires j < |s|
  {
    [s[j].(installed := true)] + Idle(Unlinked(s, j))
  }

  /** The same on sets: `r` is the one route of its prefix pair that is installed. */
  ghost function Switched(all: set<Route>, r: Route): set<Route> {
    set x | x in all :: if SameSlot(x, r) then x.(installed := x == r) else x
  }

  lemma IdleRoutes(s: Slot)
    ensures SlotRoutes(Idle(s)) == set x | x in SlotRoutes(s) :: x.(installed := false)
  {
    forall x | x in SlotRoutes(s) ensures x.(installed := false) in SlotRoutes(Idle(s)) {
      var k :| 0 <= k < |s| && s[k] == x;
      assert Idle(s)[k] == x.(installed := false);
    }
  }

  lemma PromotedOk(s: Slot, j: nat)
    requires SlotOk(s) && j < |s|
    ensures SlotOk(Promoted(s, j)) && SameSlot(Promoted(s, j)[0], s[0])
    ensures SlotRoutes(Promoted(s, j)) == Switched(SlotRoutes(s), s[j])
  {
    PromotedSlot(s, j);
    PromotedRoutes(s, j);
  }

  lemma PromotedSlot(s: Slot, j: nat)
    requires SlotOk(s) && j < |s|
    ensures SlotOk(Promoted(s, j)) && SameSlot(Promoted(s, j)[0], s[0])
  {
    var u := Unlinked(s, j);
    assert forall k :: 0 <= k < |u| ==> u[k] == s[if k < j then k else k + 1] && !SamePeer(u[k], s[j]);
    assert |s| == 1 ==> u == [];
    UnlinkedOk(s, j);
    assert s[j].src.Valid() && SameSlot(s[j], s[0]);
    hide Unlinked, SlotOk;
    PrependOk(s[j].(installed := true), u);
  }

  lemma PrependOk(r: Route, u: Slot)
    requires r.src.Valid() && (u != [] ==> SlotOk(u) && SameSlot(r, u[0]))
    requires forall k :: 0 <= k < |u| ==> !SamePeer(u[k], r)
    ensures SlotOk([r] + Idle(u))
  {
    var v := [r] + Idle(u);
    assert forall k :: 0 < k < |v| ==> v[k] == u[k - 1].(installed := false);
  }

  lemma PromotedRoutes(s: Slot, j: nat)
    requires SlotOk(s) && j < |s|
    ensures SlotRoutes(Promoted(s, j)) == Switched(SlotRoutes(s), s[j])
  {
    var u := Unlinked(s, j);
    assert SlotRoutes([s[j].(installed := true)] + Idle(u)) == {s[j].(installed := true)} + SlotRoutes(Idle(u));
    UnlinkedOk(s, j);
    IdleRoutes(u);
    assert forall x :: x in SlotRoutes(s) ==> SameSlot(x, s[j]);
    hide Unlinked, Idle, SlotOk, SameSlot;
  }

  lemma SwitchSlot(t: seq<Slot>, i: nat, j: nat)
    requires TableOk(t) && i < |t| && j < |t[i]|
    ensures TableOk(t[i := Promoted(t[i], j)])
    ensures Routes(t[i := Promoted(t[i], j)]) == Switched(Routes(t), t[i][j])
  {
    var r := t[i][j];
    PromotedOk(t[i], j);
    ReplaceSlot(t, i, Promoted(t[i], j));
    forall x | x in Routes(t) ensures x in SlotRoutes(t[i]) <==> SameSlot(x, r) {
      var k, l :| 0 <= k < |t| && 0 <= l < |t[k]| && t[k][l] == x;
      SlotsApart(t, k, i, x, r);
      if x in t[i] { SlotsApart(t, i, i, x, r); }
    }
    SwitchParts(Routes(t), SlotRoutes(t[i]), r);
  }

  lemma SwitchParts(all: set<Route>, part: set<Route>, r: Route)
    requires part <= all && forall x :: x in all ==> (x in part <==> SameSlot(x, r))
    ensures Switched(all, r) == all - part + Switched(part, r)
  {
  }

  /** The flags after a switch to `r`: only the head can have been installed before. */
  function Marked(s: Slot, r: Route): (u: Slot)
    ensures |u| == |s|
  {
    seq(|s|, k requires 0 <= k < |s| =>
      if s[k] == r then r.(installed := true) else if k == 0 then s[k].(installed := false) else s[k])
  }

  /** Setting the flags and then relinking is promoting. */
  lemma PromotedInSteps(s: Slot, j: nat, m: nat)
    requires SlotOk(s) && j < |s| && m < |s| && Marked(s, s[j])[m] == s[j].(installed := true)
    ensures [Marked(s, s[j])[m]] + Unlinked(Marked(s, s[j]), m) == Promoted(s, j)
  {
    assert m == j by {
      if m != j { assert SamePeer(Marked(s, s[j])[m], s[m]) && SamePeer(s[m], s[j]); }
    }
  }

  /** Nothing but the slot of a prefix pair differs. */
  ghost predicate OnlySlot(t: seq<Slot>, u: seq<Slot>, key: Key) {
    |t| == |u|
    && forall k {:trigger t[k]} {:trigger u[k]} :: 0 <= k < |t| && t[k] != u[k] ==>
         && t[k] != [] && RouteOrder.SamePair(t[k][0].src, key)
         && u[k] != [] && RouteOrder.SamePair(u[k][0].src, key)
  }

  /** The list of a route changes to one with the route at its head, installed. */
  ghost predicate ToFront(t: seq<Slot>, u: seq<Slot>, r: Route) {
    exists i: nat, j: nat :: i < |t| && j < |t[i]| && t[i][j] == r && u == t[i := Promoted(t[i], j)]
  }

  /** A route gives way to another in its place. */
  ghost predicate InPlaceOf(t: seq<Slot>, u: seq<Slot>, r: Route, s: Route) {
    exists i: nat, j: nat :: i < |t| && j < |t[i]| && t[i][j] == r && u == t[i := t[i][j := s]]
  }

  lemma AtIsIn(t: seq<Slot>, i: nat, j: nat)
    requires i < |t| && j < |t[i]|
    ensures t[i][j] in Routes(t)
  {
  }

  lemma InPlaceAt(t: seq<Slot>, u: seq<Slot>, i: nat, j: nat, s: Route)
    requires TableOk(t) && i < |t| && j < |t[i]| && InPlaceOf(t, u, t[i][j], s)
    ensures u == t[i := t[i][j := s]]
  {
    hide TableOk;
    var k: nat, l: nat :| k < |t| && l < |t[k]| && t[k][l] == t[i][j] && u == t[k := t[k][l := s]];
    OnePlace(t, i, j, k, l);
  }

  lemma OnePlace(t: seq<Slot>, i: nat, j: nat, k: nat, l: nat)
    requires TableOk(t) && i < |t| && j < |t[i]| && k < |t| && l < |t[k]| && t[i][j] == t[k][l]
    ensures i == k && j == l
  {
    SlotsApart(t, i, k, t[i][j], t[k][l]);
    assert SamePeer(t[i][j], t[k][l]);
  }
}
