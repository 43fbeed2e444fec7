/** Retracting the routes of a neighbour (retract_neighbour_routes): the walk along a list that route selection
    reorders under it. */
module Retraction {
  import opened Common
  import opened SourceOrder
  import opened Rib
  import opened Selection
  import Smoothing

  /** retract_route, once the kernel agrees. */
  function Retracted(halfLife: nat, r: Route): Route {
    r.(refmetric := INFINITY, cost := INFINITY, add := 0,
       smoothed := if halfLife == 0 then INFINITY else Smoothing.AtOnce(halfLife, r.Metric(), r.smoothed))
  }

  lemma RetractedIsRecosted(c: Context, halfLife: nat, r: Route)
    requires c.halfLife == halfLife
    ensures Recosted(c, r, INFINITY, INFINITY, 0) == Retracted(halfLife, r)
    ensures Retracted(halfLife, r).Metric() == INFINITY
  {
  }

  /** The walk looks for these. */
  predicate Losing(r: Route, neigh: nat) { r.neigh == neigh && r.refmetric != INFINITY }

  ghost function AllLosing(all: set<Route>, neigh: nat): set<Route> {
    set r | r in all && Losing(r, neigh)
  }

  /** The routes, flags aside, once those of `gone` are retracted. */
  ghost function RetractAll(halfLife: nat, before: set<Route>, gone: set<Route>): set<Route> {
    set r | r in before :: if r in gone then Retracted(halfLife, r) else r
  }

  /** How far the walk has come: `gone` are retracted, and `left` are not although the walk has passed them. */
  ghost predicate Underway(halfLife: nat, before: set<Route>, gone: set<Route>, left: set<Route>, neigh: nat,
                           now: set<Route>)
  {
    gone <= AllLosing(before, neigh) && left <= AllLosing(before, neigh) && gone !! left
    && now == RetractAll(halfLife, before, gone)
  }

  lemma NothingRetracted(halfLife: nat, before: set<Route>, neigh: nat)
    ensures Underway(halfLife, before, {}, {}, neigh, before)
  {
  }

  /** What is still to be retracted is as it was. */
  lemma StillThere(halfLife: nat, before: set<Route>, gone: set<Route>, left: set<Route>, neigh: nat, now: set<Route>,
                   r: Route)
    requires Underway(halfLife, before, gone, left, neigh, now) && r in now && Losing(r, neigh)
    ensures r in AllLosing(before, neigh) && r !in gone
  {
    hide Smoothing.AtOnce;
  }

  lemma OneRetracted(halfLife: nat, before: set<Route>, gone: set<Route>, left: set<Route>, neigh: nat, now: set<Route>,
                     r: Route)
    requires Underway(halfLife, before, gone, left, neigh, now) && r in now && Losing(r, neigh) && r !in left
    ensures Underway(halfLife, before, gone + {r}, left, neigh, now - {r} + {Retracted(halfLife, r)})
    ensures |AllLosing(before, neigh) - (gone + {r})| < |AllLosing(before, neigh) - gone|
  {
    hide Retracted;
    StillThere(halfLife, before, gone, left, neigh, now, r);
    NotAgain(halfLife);
    assert AllLosing(before, neigh) - gone == AllLosing(before, neigh) - (gone + {r}) + {r};
  }

  lemma NotAgain(halfLife: nat)
    ensures forall r: Route :: Retracted(halfLife, r).refmetric == INFINITY
  {
  }

  lemma LeftBehind(halfLife: nat, before: set<Route>, gone: set<Route>, left: set<Route>, neigh: nat, now: set<Route>,
                   more: set<Route>)
    requires Underway(halfLife, before, gone, left, neigh, now)
    requires forall r :: r in more ==> r in now && Losing(r, neigh)
    ensures Underway(halfLife, before, gone, left + more, neigh, now)
  {
    hide RetractAll, Losing;
    forall r | r in more ensures r in AllLosing(before, neigh) && r !in gone {
      StillThere(halfLife, before, gone, left, neigh, now, r);
    }
  }

  /** When the walk has passed all routes. */
  lemma AllRetracted(halfLife: nat, before: set<Route>, gone: set<Route>, left: set<Route>, neigh: nat, now: set<Route>)
    requires Underway(halfLife, before, gone, left, neigh, now)
    requires forall r :: r in now && Losing(r, neigh) ==> r in left
    ensures now == RetractAll(halfLife, before, AllLosing(before, neigh) - left)
  {
    hide Retracted;
    forall r | r in AllLosing(before, neigh) && r !in gone ensures r in left {
      assert r in now;
    }
    assert gone == AllLosing(before, neigh) - left;
  }

  /** What that means: routes of other neighbours, and retractions, are as before; a route of the neighbour is
      unreachable unless it was left. */
  lemma RetractedMeans(halfLife: nat, before: set<Route>, neigh: nat, left: set<Route>)
    ensures var after := RetractAll(halfLife, before, AllLosing(before, neigh) - left);
            && (forall r :: r in before && (r.neigh != neigh || r.refmetric == INFINITY) ==> r in after)
            && (forall r :: r in after && r.neigh == neigh && r.refmetric != INFINITY ==> r in left)
  {
    hide Smoothing.AtOnce;
  }

  // ---- lists

  function Plain(r: Route): Route { r.(installed := false) }

  ghost predicate HasPlain(s: Slot, n: nat, r: Route)
    requires n <= |s|
  {
    exists m :: 0 <= m < n && Plain(s[m]) == r
  }

  /** The walk is at entry `j`: what it has passed is retracted or left. If anything is left, a route is installed, at
      the head, and the list keeps its order. */
  ghost predicate Walking(s: Slot, j: nat, neigh: nat, left: set<Route>) {
    && j <= |s| && (forall m :: 0 <= m < j && Losing(s[m], neigh) ==> Plain(s[m]) in left)
    && (forall r :: r in left ==> HasPlain(s, j, r))
    && (left != {} ==> s != [] && s[0].installed)
  }

  lemma WalkStarts(s: Slot, neigh: nat)
    ensures Walking(s, 0, neigh, {})
  {
  }

  /** A route of another neighbour, or one that is retracted already, is passed. */
  lemma WalkOn(s: Slot, j: nat, neigh: nat, left: set<Route>)
    requires Walking(s, j, neigh, left) && j < |s| && !Losing(s[j], neigh)
    ensures Walking(s, j + 1, neigh, left)
  {
    forall r | r in left ensures HasPlain(s, j + 1, r) {
      var m :| 0 <= m < j && Plain(s[m]) == r;
    }
  }

  /** What one step does to the list: entry `j` becomes `next`, and if route selection switches, the route switched to
      goes to the head. */
  ghost predicate Stepped(s: Slot, j: nat, next: Route, o: Outcome, after: Slot, r: Route)
    requires j < |s|
  {
    var s1 := s[j := next];
    if !o.ok then after == s1 && r == next
    else o.other.Some? && exists b: nat :: b < |s1| && s1[b] == o.other.value && after == Promoted(s1, b)
                                           && r == next.(installed := b == j) && (next.installed ==> b != j)
                                           && (!next.installed ==> b == j)
  }

  /** What the first step leaves behind, if the head of the list was installed: itself if the kernel refuses, and the
      route that is switched to, which the walk does not meet. */
  ghost function LeftBy(h: Route, next: Route, o: Outcome, neigh: nat): set<Route> {
    (if next == h then {Plain(h)} else {})
    + if o.ok && o.other.Some? && Losing(o.other.value, neigh) then {Plain(o.other.value)} else {}
  }

  /** The walk has passed the first `i` lists. */
  ghost predicate PassedSlots(t: seq<Slot>, i: nat, neigh: nat, left: set<Route>) {
    && i <= |t|
    && (forall k, m :: 0 <= k < i && 0 <= m < |t[k]| && Losing(t[k][m], neigh) ==> Plain(t[k][m]) in left)
    && forall r :: r in left ==> exists k :: 0 <= k < i && HasPlain(t[k], |t[k]|, r)
  }

  lemma NonePassed(t: seq<Slot>, neigh: nat)
    ensures PassedSlots(t, 0, neigh, {})
  {
  }

  lemma OneMorePassed(t: seq<Slot>, v: seq<Slot>, i: nat, neigh: nat, left: set<Route>, more: set<Route>)
    requires PassedSlots(t, i, neigh, left) && i < |t| == |v| && forall k :: 0 <= k < |t| && k != i ==> v[k] == t[k]
    requires Walking(v[i], |v[i]|, neigh, more)
    ensures PassedSlots(v, i + 1, neigh, left + more)
  {
    hide HasPlain;
    forall r | r in left ensures exists k :: 0 <= k < i && HasPlain(v[k], |v[k]|, r) {
      var k :| 0 <= k < i && HasPlain(t[k], |t[k]|, r);
      assert v[k] == t[k];
    }
  }

  lemma AllPassed(t: seq<Slot>, neigh: nat, left: set<Route>)
    requires PassedSlots(t, |t|, neigh, left)
    ensures forall r :: r in Bare(Routes(t)) && Losing(r, neigh) ==> r in left
  {
    forall r | r in Bare(Routes(t)) && Losing(r, neigh) ensures r in left {
      var x :| x in Routes(t) && Plain(x) == r;
      var k, m :| 0 <= k < |t| && 0 <= m < |t[k]| && t[k][m] == x;
    }
  }

  /** What is left is in the table. */
  lemma InTable(t: seq<Slot>, i: nat, n: nat, r: Route)
    requires i < |t| && n <= |t[i]| && HasPlain(t[i], n, r)
    ensures r in Bare(Routes(t))
  {
    var m :| 0 <= m < n && Plain(t[i][m]) == r;
    assert t[i][m] in Routes(t);
  }

  /** The walk meets no route that it has left. */
  lemma NotMetYet(t: seq<Slot>, i: nat, j: nat, neigh: nat, left: set<Route>, more: set<Route>)
    requires TableOk(t) && i < |t| && j < |t[i]| && PassedSlots(t, i, neigh, left) && Walking(t[i], j, neigh, more)
    ensures Plain(t[i][j]) !in left + more && Plain(t[i][j]) in Bare(Routes(t)) && t[i][j] in Routes(t)
  {
    hide Walking;
    assert t[i][j] in Routes(t);
    forall k, m | 0 <= k < i && 0 <= m < |t[k]| ensures Plain(t[k][m]) != Plain(t[i][j]) {
      SlotsApart(t, k, i, t[k][m], t[i][j]);
    }
    SlotAt(t, i, j);
    NotMet(t[i], j, neigh, more);
  }

  lemma NotMet(s: Slot, j: nat, neigh: nat, left: set<Route>)
    requires SlotOk(s) && Walking(s, j, neigh, left) && j < |s|
    ensures Plain(s[j]) !in left
  {
    forall m | 0 <= m < j ensures Plain(s[m]) != Plain(s[j]) {
      assert !SamePeer(s[m], s[j]);
    }
  }

  lemma SamePlace(s: Slot, k: nat, l: nat)
    requires SlotOk(s) && k < |s| && l < |s| && SamePeer(s[k], s[l])
    ensures k == l
  {
  }

  lemma FirstStep(s: Slot, next: Route, o: Outcome, after: Slot, r: Route, pos: nat, neigh: nat)
    requires |s| > 0 && SlotOk(s) && SlotOk(after) && Losing(s[0], neigh) && SamePeer(next, s[0])
    requires next.installed == s[0].installed
    requires if next == s[0] then s[0].installed else !Losing(next, neigh)
    requires Stepped(s, 0, next, o, after, r) && pos < |after| && after[pos] == r
    ensures |after| == |s|
    ensures Walking(after, pos + 1, neigh, if s[0].installed then LeftBy(s[0], next, o, neigh) else {})
  {
    hide SlotOk, Stepped;
    FirstPlaces(s, next, o, after, r, pos);
    var left := if s[0].installed then LeftBy(s[0], next, o, neigh) else {};
    forall y | y in left ensures HasPlain(after, pos + 1, y) {
      assert y == Plain(after[0]) || (pos == 1 && y == Plain(after[1]));
    }
  }

  /** Where the head of the list is after the first step: at the head, or behind the route that was switched to. */
  lemma FirstPlaces(s: Slot, next: Route, o: Outcome, after: Slot, r: Route, pos: nat)
    requires |s| > 0 && SlotOk(after) && next.installed == s[0].installed
    requires Stepped(s, 0, next, o, after, r) && pos < |after| && after[pos] == r
    ensures |after| == |s|
    ensures pos == if o.ok && next.installed then 1 else 0
    ensures pos == 1 ==> |s| > 1 && o.other.Some? && after[0] == o.other.value.(installed := true)
                         && after[1] == Plain(next)
    ensures pos == 0 ==> Plain(after[0]) == Plain(next) && (o.ok || after[0] == next)
  {
    hide SlotOk, Promoted;
    var s1 := s[0 := next];
    if o.ok {
      var b: nat :| b < |s1| && s1[b] == o.other.value && after == Promoted(s1, b)
                    && r == next.(installed := b == 0) && (next.installed ==> b != 0) && (!next.installed ==> b == 0);
      PromotedAt(s1, b);
      SamePlace(after, if b == 0 then 0 else 1, pos);
    } else {
      SamePlace(after, 0, pos);
    }
  }

  lemma PromotedAt(s: Slot, b: nat)
    requires b < |s|
    ensures var u := Promoted(s, b);
            |u| == |s| && u[0] == s[b].(installed := true)
            && forall k :: 0 < k < |s| ==> u[k] == Plain(s[if k <= b then k - 1 else k])
  {
  }

  lemma LaterStep(s: Slot, j: nat, next: Route, o: Outcome, after: Slot, r: Route, pos: nat, neigh: nat,
                  left: set<Route>)
    requires SlotOk(s) && SlotOk(after) && 0 < j < |s| && Walking(s, j, neigh, left) && SamePeer(next, s[j])
    requires !next.installed && !Losing(next, neigh) && (o.ok ==> !s[0].installed)
    requires Stepped(s, j, next, o, after, r) && pos < |after| && after[pos] == r
    ensures |after| == |s| && Walking(after, pos + 1, neigh, left)
  {
    var s1 := s[j := next];
    if o.ok {
      PromotedAt(s1, j);
      assert SamePeer(after[0], after[pos]);
      assert pos == 0 && left == {};
    } else {
      assert SamePeer(after[j], after[pos]);
      assert pos == j;
      forall y | y in left ensures HasPlain(after, j + 1, y) {
        var m :| 0 <= m < j && Plain(s[m]) == y;
        assert after[m] == s[m];
      }
    }
  }

  /** The list is otherwise untouched by a step, and the table as well. */
  ghost predicate OnlyList(t: seq<Slot>, v: seq<Slot>, i: nat) {
    && |v| == |t| && i < |t| && |v[i]| == |t[i]| && forall k :: 0 <= k < |t| && k != i ==> v[k] == t[k]
  }

  lemma PassedStill(t: seq<Slot>, v: seq<Slot>, i: nat, neigh: nat, left: set<Route>)
    requires PassedSlots(t, i, neigh, left) && OnlyList(t, v, i)
    ensures PassedSlots(v, i, neigh, left)
  {
    hide HasPlain;
    forall r | r in left ensures exists k :: 0 <= k < i && HasPlain(v[k], |v[k]|, r) {
      var k :| 0 <= k < i && HasPlain(t[k], |t[k]|, r);
      assert v[k] == t[k];
    }
  }

  // ---- selection

  /** The outcome for one list: unless its head was an installed route of the neighbour, nothing is left. */
  ghost predicate LeftExactly(c: Context, all: set<Route>, h: Route, neigh: nat, next: Route, shadowed: bool,
                              o: Outcome, more: set<Route>)
  {
    if Losing(h, neigh) && h.installed
    then && Taken(c, h, next) && Selects(c, all - {h} + {next}, next, h.Metric(), shadowed, o)
         && more == LeftBy(h, next, o, neigh)
    else more == {}
  }

  /** What is left is for the prefix pair of an installed route of the neighbour. */
  ghost predicate Excused(all: set<Route>, neigh: nat, left: set<Route>) {
    forall r :: r in left ==> exists h :: h in all && h.installed && Losing(h, neigh) && SameSlot(r, h)
  }

  lemma NoneExcused(all: set<Route>, neigh: nat)
    ensures Excused(all, neigh, {})
  {
  }

  lemma LeftIsExcused(c: Context, all: set<Route>, h: Route, neigh: nat, next: Route, shadowed: bool, o: Outcome,
                      more: set<Route>, left: set<Route>, before: set<Route>)
    requires LeftExactly(c, all, h, neigh, next, shadowed, o, more) && h in before && Excused(before, neigh, left)
    ensures Excused(before, neigh, left + more)
  {
    hide Retracted, ToKernel, Preferred;
    forall r | r in more ensures h.installed && Losing(h, neigh) && SameSlot(r, h) {
      TakenKeeps(c, h, next, neigh);
    }
  }

  predicate Rivals(c: Context, x: Route, h: Route) {
    x.src in c.sources && SamePairAs(x, h.src) && Acceptable(c, x, true, None)
  }

  /** A second route of the neighbour for the same prefix pair stays behind, and is installed, if it is the best one
      once the installed one is retracted, and the kernel agrees. */
  lemma StaysBehind(c: Context, all: set<Route>, h: Route, neigh: nat, next: Route, o: Outcome, more: set<Route>,
                    b: Route)
    requires LeftExactly(c, all, h, neigh, next, false, o, more) && Losing(h, neigh) && h.installed && next != h
    requires h.Metric() < INFINITY
    requires b in all - {h} && b.src in c.sources && SamePairAs(b, h.src) && Losing(b, neigh) && !b.installed
    requires b.Metric() < INFINITY && Acceptable(c, b, true, None)
    requires forall x :: x in all - {h} + {next} && x != b && Rivals(c, x, h) ==> Smoothed(c, b) < Smoothed(c, x)
    ensures o.other == Some(b) && o.asked && (o.ok ==> more == {Plain(b)})
  {
    hide Retracted, ToKernel, Smoothed, Expired, Feasible;
    TakenKeeps(c, h, next, neigh);
    assert b in Candidates(c, all - {h} + {next}, next.src, true, None);
  }

  lemma NothingToLeave(c: Context, all: set<Route>, h: Route, neigh: nat, next: Route, shadowed: bool, o: Outcome)
    ensures !Losing(h, neigh) ==> LeftExactly(c, all, h, neigh, next, shadowed, o, {})
  {
  }

  /** What retract_route makes of a route: the kernel may refuse, if it has it and is asked. */
  predicate Taken(c: Context, r: Route, next: Route) {
    if next == r then r.installed && ToKernel(c, r.Metric()) != ToKernel(c, INFINITY)
    else c.halfLife >= 0 && next == Retracted(c.halfLife, r)
  }

  lemma TakenKeeps(c: Context, r: Route, next: Route, neigh: nat)
    requires Taken(c, r, next)
    ensures next.src == r.src && SamePeer(next, r) && next.installed == r.installed
    ensures next != r ==> !Losing(next, neigh) && next.Metric() == INFINITY
    ensures c.halfLife >= 0 && next != r ==> Plain(next) == Retracted(c.halfLife, Plain(r))
  {
    hide Smoothing.AtOnce;
  }

  /** The counts stay right: a route that was retracted has the same source. */
  lemma SameCounts(counts: map<Key, nat>, all: set<Route>, r: Route, s: Route)
    requires CountsRoutes(counts, all) && r in all && s !in all - {r} && s.src == r.src && r.src in counts
    ensures CountsRoutes(counts, all - {r} + {s})
  {
    var retained := counts[s.src := counts[s.src] + 1];
    MovedCounts(counts, retained, all, r, s);
    assert retained[r.src := retained[r.src] - 1] == counts;
  }

  /** What one step means for the walk. */
  lemma Onwards(c: Context, t: seq<Slot>, v: seq<Slot>, i: nat, j: nat, next: Route, shadowed: bool, o: Outcome,
                now: Route, pos: nat, neigh: nat, more: set<Route>)
    requires TableOk(t) && TableOk(v) && i < |t| && j < |t[i]| && OnlyList(t, v, i) && Walking(t[i], j, neigh, more)
    requires Losing(t[i][j], neigh) && Taken(c, t[i][j], next) && Stepped(t[i], j, next, o, v[i], now)
    requires Selects(c, Routes(t) - {t[i][j]} + {next}, next, t[i][j].Metric(), shadowed, o)
    requires pos < |v[i]| && v[i][pos] == now && (j == 0 ==> more == {})
    ensures Walking(v[i], pos + 1, neigh, if j == 0 && t[i][0].installed then LeftBy(t[i][0], next, o, neigh) else more)
  {
    hide Stepped, Selects, Walking, Taken, LeftBy, Routes, TableOk, SlotOk;
    TakenKeeps(c, t[i][j], next, neigh);
    SlotAt(t, i, 0);
    SlotAt(v, i, 0);
    IsTaken(c, t[i][j], next);
    if j == 0 {
      FirstStep(t[i], next, o, v[i], now, pos, neigh);
    } else {
      NotInstalled(t, i, j);
      if t[i][0].installed {
        AtIsIn(t, i, 0);
        InVain(c, Routes(t) - {t[i][j]} + {next}, next, t[i][j].Metric(), shadowed, o, t[i][0]);
      }
      LaterStep(t[i], j, next, o, v[i], now, pos, neigh, more);
    }
  }

  lemma IsTaken(c: Context, r: Route, next: Route)
    requires Taken(c, r, next)
    ensures next == r ==> r.installed
  {
  }

  lemma NotInstalled(t: seq<Slot>, i: nat, j: nat)
    requires TableOk(t) && i < |t| && 0 < j < |t[i]|
    ensures !t[i][j].installed && t[i][0] != t[i][j] && SamePairAs(t[i][0], t[i][j].src)
  {
    OtherPeer(t, i, j);
  }

  lemma MetInstalled(t: seq<Slot>, i: nat, j: nat)
    requires TableOk(t) && i < |t| && j < |t[i]|
    ensures t[i][j].installed ==> j == 0
  {
  }

  lemma OtherPeer(t: seq<Slot>, i: nat, j: nat)
    requires TableOk(t) && i < |t| && 0 < j < |t[i]|
    ensures !SamePeer(t[i][0], t[i][j])
  {
  }

  /** What route_changed does after a route was retracted; nothing is asked if it was unreachable anyway. */
  ghost predicate Selects(c: Context, all: set<Route>, next: Route, was: U16, shadowed: bool, o: Outcome) {
    if was >= INFINITY then !o.asked && !o.ok
    else
      && Known(c.sources.Keys, all) && (o.other.Some? ==> o.other.value.src in c.sources)
      && Offers(c, all, next, o.cur, o.other) && (o.asked <==> Wins(c, next, o.cur, o.other, shadowed))
      && (o.ok ==> o.asked)
  }

  /** A retracted route is not preferred to what is installed. */
  lemma InVain(c: Context, all: set<Route>, next: Route, was: U16, shadowed: bool, o: Outcome, h: Route)
    requires Selects(c, all, next, was, shadowed, o) && !next.installed && next.Metric() >= INFINITY
    requires h in all && h.installed && SamePairAs(h, next.src)
    ensures !o.ok
  {
  }

  /** Selection switches within the list. */
  lemma Switches(c: Context, t: seq<Slot>, next: Route, was: U16, shadowed: bool, o: Outcome)
    requires TableOk(t) && next in Routes(t) && Selects(c, Routes(t), next, was, shadowed, o) && o.ok
    ensures o.other.Some? && SameSlot(o.other.value, next) && (next.installed <==> o.other.value != next)
  {
    hide TableOk, Routes;
  }

  lemma StepTaken(t: seq<Slot>, i: nat, j: nat, next: Route, v: seq<Slot>, o: Outcome)
    requires i < |t| && j < |t[i]| && TableOk(t[i := t[i][j := next]])
    requires var u := t[i := t[i][j := next]];
             if o.ok
             then o.other.Some? && ToFront(u, v, o.other.value) && SameSlot(o.other.value, next)
                  && (next.installed <==> o.other.value != next)
             else v == u
    ensures |v| == |t| && forall k :: 0 <= k < |t| && k != i ==> v[k] == t[k]
    ensures Stepped(t[i], j, next, o, v[i], if o.ok then next.(installed := !next.installed) else next)
  {
    hide Promoted, TableOk, SameSlot;
    if o.ok {
      var s1 := t[i][j := next];
      var u := t[i := s1];
      var b := o.other.value;
      var k: nat, l: nat :| k < |u| && l < |u[k]| && u[k][l] == b && v == u[k := Promoted(u[k], l)];
      assert u[k][l] in u[k] && u[i][j] in u[i];
      SlotsApart(u, k, i, b, next);
      if b == next { OnePlace(u, k, l, i, j); }
      assert l < |s1| && s1[l] == b && v[i] == Promoted(s1, l);
      assert l == j <==> b == next;
    }
  }

  /** The sets after one step. */
  lemma Progressed(c: Context, halfLife: nat, before: set<Route>, gone: set<Route>, left: set<Route>, neigh: nat,
                   t: seq<Slot>, v: seq<Slot>, i: nat, j: nat, r: Route, next: Route)
    requires Underway(halfLife, before, gone, left, neigh, Bare(Routes(t))) && c.halfLife == halfLife
    requires Losing(r, neigh) && Taken(c, r, next) && Plain(r) !in left && Plain(r) in Bare(Routes(t))
    requires Bare(Routes(v)) == Bare(Routes(t)) - {Plain(r)} + {Plain(next)}
    ensures var gone1 := if next == r then gone else gone + {Plain(r)};
            && Underway(halfLife, before, gone1, left, neigh, Bare(Routes(v)))
            && (next != r ==> |AllLosing(before, neigh) - gone1| < |AllLosing(before, neigh) - gone|)
  {
    hide Underway, AllLosing, Bare, Routes, Taken, Retracted;
    TakenKeeps(c, r, next, neigh);
    if next == r {
      assert Bare(Routes(v)) == Bare(Routes(t));
    } else {
      OneRetracted(halfLife, before, gone, left, neigh, Bare(Routes(t)), Plain(r));
    }
  }

  /** What the first step leaves behind is there, and unretracted. */
  lemma LeftThere(v: seq<Slot>, i: nat, j: nat, h: Route, next: Route, o: Outcome, neigh: nat)
    requires i < |v| && Walking(v[i], j, neigh, LeftBy(h, next, o, neigh)) && Losing(h, neigh)
    ensures forall r :: r in LeftBy(h, next, o, neigh) ==> r in Bare(Routes(v)) && Losing(r, neigh)
  {
    forall r | r in LeftBy(h, next, o, neigh) ensures r in Bare(Routes(v)) {
      InTable(v, i, j, r);
    }
  }

  lemma SteppedHas(s: Slot, j: nat, next: Route, o: Outcome, after: Slot, r: Route)
    requires j < |s| && Stepped(s, j, next, o, after, r)
    ensures |after| == |s| && r in after
  {
    var s1 := s[j := next];
    if o.ok {
      var b: nat :| b < |s1| && s1[b] == o.other.value && after == Promoted(s1, b) && r == next.(installed := b == j);
      PromotedAt(s1, b);
      assert after[if b == j then 0 else if j < b then j + 1 else j] == r;
    } else {
      assert after[j] == r;
    }
  }
}
