/** The route table refines the network model: for one prefix pair, and one route for each neighbour, what the
    operations of the table do is what the steps of a router do. */
module Refinement {
  import opened Common
  import opened SourceOrder
  import opened RouteOrder
  import opened Rib
  import S = Selection
  import Retraction
  import N = Network
  import Feasibility
  import Seqno
  import SourceHistory

  // ---------------------------------------------------------------- routes and rows

  /** A route, as a row of the model: `key` is the modelled source. */
  predicate IsRow(row: N.Row, r: Route, key: Key) {
    && (row.mine <==> r.src == key) && r.seqno == Seqno.Wire(row.seqno)
    && row.refmetric == r.refmetric && row.cost == r.cost && row.add == r.add
  }

  predicate Ours(r: Route, key: Key) { SamePair(r.src, key) }

  /** One route for each neighbour; routes of another source than the modelled one are retractions. */
  ghost predicate Simple(all: set<Route>, key: Key) {
    && (forall r, s :: r in all && s in all && Ours(r, key) && Ours(s, key) && r.neigh == s.neigh ==> r == s)
    && (forall r :: r in all && Ours(r, key) && r.src != key ==> r.refmetric == INFINITY)
    && (forall r, s :: r in all && s in all && Ours(r, key) && Ours(s, key) && r.installed && s.installed ==> r == s)
  }

  /** The rows are the routes for the prefix pair. */
  ghost predicate RowsModel(rt: N.Router, all: set<Route>, key: Key) {
    && (forall r :: r in all && Ours(r, key) ==>
          && r.neigh in rt.rows && IsRow(rt.rows[r.neigh], r, key)
          && (r.installed <==> rt.installed == Some(r.neigh)))
    && (forall b :: b in rt.rows ==> exists r :: r in all && Ours(r, key) && r.neigh == b)
    && (rt.installed.Some? ==> rt.installed.value in rt.rows)
  }

  /** The entry of the modelled source, which is not stale. */
  predicate DistModels(rt: N.Router, c: S.Context, key: Key) {
    if key in c.sources
    then && rt.dist.Some? && c.sources[key].seqno == Seqno.Wire(rt.dist.value.seqno)
         && c.sources[key].metric == rt.dist.value.metric && !SourceHistory.Stale(c.sources[key].time, c.now)
    else rt.dist.None?
  }

  ghost predicate Models(rt: N.Router, c: S.Context, all: set<Route>, key: Key) {
    RowsModel(rt, all, key) && DistModels(rt, c, key) && Simple(all, key) && S.Known(c.sources.Keys, all)
  }

  lemma FeasibleModels(rt: N.Router, c: S.Context, all: set<Route>, key: Key, r: Route)
    requires Models(rt, c, all, key) && r in all && Ours(r, key)
    ensures r.neigh in rt.rows && r.src in c.sources
    ensures S.Feasible(c, r) <==> N.RowFeasible(rt, rt.rows[r.neigh])
    ensures r.Metric() == rt.rows[r.neigh].Metric()
  {
    hide Seqno.Compare, SourceHistory.Stale;
    assert IsRow(rt.rows[r.neigh], r, key);
  }

  /** Switching to a route is installing its row. */
  lemma SwitchedModels(rt: N.Router, c: S.Context, all: set<Route>, key: Key, x: Route)
    requires Models(rt, c, all, key) && x in all && Ours(x, key)
    ensures Models(rt.(installed := Some(x.neigh)), c, Switched(all, x), key)
  {
    SwitchedSimple(all, key, x);
    SwitchedRows(rt, all, key, x);
    hide RowsModel, Simple;
  }

  lemma Origin(all: set<Route>, key: Key, x: Route, y: Route) returns (r: Route)
    requires x in all && Ours(x, key) && y in Switched(all, x) && Ours(y, key)
    ensures r in all && Ours(r, key) && y == r.(installed := r == x)
  {
    r :| r in all && y == if SameSlot(r, x) then r.(installed := r == x) else r;
  }

  lemma SwitchedSimple(all: set<Route>, key: Key, x: Route)
    requires Simple(all, key) && x in all && Ours(x, key)
    ensures Simple(Switched(all, x), key)
  {
    hide Switched;
    var after := Switched(all, x);
    forall y, z | y in after && z in after && Ours(y, key) && Ours(z, key)
      ensures y.neigh == z.neigh || (y.installed && z.installed) ==> y == z
      ensures y.src != key ==> y.refmetric == INFINITY
    {
      var r := Origin(all, key, x, y);
      var s := Origin(all, key, x, z);
    }
  }

  lemma SwitchedRows(rt: N.Router, all: set<Route>, key: Key, x: Route)
    requires Simple(all, key) && RowsModel(rt, all, key) && x in all && Ours(x, key)
    ensures RowsModel(rt.(installed := Some(x.neigh)), Switched(all, x), key)
  {
    var after := Switched(all, x);
    forall y | y in after && Ours(y, key)
      ensures y.neigh in rt.rows && IsRow(rt.rows[y.neigh], y, key) && (y.installed <==> x.neigh == y.neigh)
    {
      var r := Origin(all, key, x, y);
    }
    forall b | b in rt.rows ensures exists y :: y in after && Ours(y, key) && y.neigh == b {
      var r :| r in all && Ours(r, key) && r.neigh == b;
      assert r.(installed := r == x) in after;
    }
  }

  /** The choices of a step that correspond to an outcome of selection. */
  function Choices(c: S.Context, o: S.Outcome, xroute: bool): N.Oracle {
    var best := if o.other.Some? then Some(o.other.value.neigh) else None;
    var smoother := o.cur.Some? && o.other.Some? && S.Smoothed(c, o.cur.value) > S.Smoothed(c, o.other.value);
    N.Oracle(best, best, smoother, smoother, xroute)
  }

  /** The routes after the outcome of a selection with which the kernel agrees. */
  ghost function Outcome(all: set<Route>, o: S.Outcome): set<Route> {
    if o.ok && o.other.Some? then Switched(all, o.other.value) else all
  }

  // ---------------------------------------------------------------- selection

  /** The predicates of the table see the routes of the prefix pair through any of their keys. */
  lemma SamePairs(r: Route, x: Route, key: Key)
    requires Ours(r, key)
    ensures S.SamePairAs(x, r.src) <==> Ours(x, key)
  {
  }

  lemma CurrentModels(rt: N.Router, all: set<Route>, key: Key, r: Route, cur: Option<Route>)
    requires RowsModel(rt, all, key) && Ours(r, key) && S.IsInstalled(all, r.src, cur)
    ensures rt.installed == if cur.Some? then Some(cur.value.neigh) else None
    ensures cur.Some? ==> cur.value in all && Ours(cur.value, key)
  {
    if rt.installed.Some? {
      var x :| x in all && Ours(x, key) && x.neigh == rt.installed.value;
      assert S.SamePairAs(x, r.src) && x.installed;
    }
  }

  /** consider_route on a row is what the table decides about the route. */
  lemma ConsiderModels(rt: N.Router, c: S.Context, all: set<Route>, key: Key, r: Route, cur: Option<Route>,
                       xroute: bool, smoother: bool)
    requires Models(rt, c, all, key) && r in all && Ours(r, key) && S.IsInstalled(all, r.src, cur)
    requires cur.Some? ==> (smoother <==> S.Smoothed(c, cur.value) > S.Smoothed(c, r))
    ensures r.src in c.sources
    ensures N.Consider(rt, r.neigh, smoother, xroute)
            == if S.Preferred(c, r, cur, xroute) then rt.(installed := Some(r.neigh)) else rt
  {
    FeasibleModels(rt, c, all, key, r);
    CurrentModels(rt, all, key, r, cur);
    if cur.Some? { FeasibleModels(rt, c, all, key, cur.value); }
    assert r.installed <==> rt.installed == Some(r.neigh);
    hide S.Smoothed, S.Feasible, N.RowFeasible, Simple, DistModels;
  }

  lemma BestModels(rt: N.Router, c: S.Context, all: set<Route>, key: Key, r: Route, other: Option<Route>)
    requires Models(rt, c, all, key) && Ours(r, key) && S.BestLeft(c, all, r.src, other)
    ensures other.Some? ==> other.value in all && Ours(other.value, key) && other.value.src in c.sources
    ensures N.Candidate(rt, if other.Some? then Some(other.value.neigh) else None) <==> other.Some?
  {
    if other.Some? {
      SamePairs(r, other.value, key);
      FeasibleModels(rt, c, all, key, other.value);
    }
  }

  /** route_changed, with a kernel that agrees. */
  lemma ChangedModels(rt: N.Router, c: S.Context, all: set<Route>, key: Key, r: Route, xroute: bool, o: S.Outcome)
    requires Models(rt, c, all, key) && r in all && Ours(r, key) && o.ok == o.asked
    requires S.Reselected(c, all, r, false, xroute, o, Outcome(all, o))
    ensures r.neigh in rt.rows
    ensures Models(N.RouteChanged(rt, r.neigh, Choices(c, o, xroute)), c, Outcome(all, o), key)
  {
    hide S.Smoothed, Simple, DistModels, Switched;
    FeasibleModels(rt, c, all, key, r);
    var n := Choices(c, o, xroute);
    CurrentModels(rt, all, key, r, o.cur);
    if r.installed {
      BestModels(rt, c, all, key, r, o.other);
      if o.other.Some? {
        var best := o.other.value;
        SamePairs(r, best, key);
        InstalledFor(all, r, best, o.cur);
        FeasibleModels(rt, c, all, key, best);
        ConsiderModels(rt, c, all, key, best, o.cur, xroute, n.smoother);
        SwitchedModels(rt, c, all, key, best);
      }
    } else {
      ConsiderModels(rt, c, all, key, r, o.cur, xroute, n.smoother2);
      SwitchedModels(rt, c, all, key, r);
    }
  }

  lemma InstalledFor(all: set<Route>, r: Route, x: Route, cur: Option<Route>)
    requires S.IsInstalled(all, r.src, cur) && S.SamePairAs(x, r.src)
    ensures S.IsInstalled(all, x.src, cur)
  {
  }

  /** route_lost, with a kernel that agrees. */
  lemma LostModels(rt: N.Router, c: S.Context, all: set<Route>, key: Key, r: Route, xroute: bool, o: S.Outcome)
    requires Models(rt, c, all, key) && Ours(r, key) && o.ok == o.asked
    requires S.IsInstalled(all, r.src, None) && S.BestLeft(c, all, r.src, o.other)
    requires o.asked <==> o.other.Some? && !xroute
    ensures Models(N.RouteLost(rt, Choices(c, o, xroute)), c, Outcome(all, o), key)
  {
    hide S.Smoothed, Simple, DistModels, Switched;
    CurrentModels(rt, all, key, r, None);
    BestModels(rt, c, all, key, r, o.other);
    if o.other.Some? {
      var best := o.other.value;
      FeasibleModels(rt, c, all, key, best);
      SwitchedModels(rt, c, all, key, best);
    }
  }

  // ---------------------------------------------------------------- updates

  /** A route for the prefix pair takes the place of that of its neighbour, if there was one; the row follows. */
  lemma PutModels(rt: N.Router, c: S.Context, all: set<Route>, key: Key, s: Route, row: N.Row)
    requires Models(rt, c, all, key) && Ours(s, key) && IsRow(row, s, key) && s.src in c.sources
    requires s.src != key ==> s.refmetric == INFINITY
    requires s.installed ==> forall r :: r in all && Ours(r, key) && r.installed ==> r.neigh == s.neigh
    ensures Models(WithRow(rt, s, row), c, ButFor(all, key, s.neigh) + {s}, key)
  {
    PutSimple(all, key, s);
    PutRows(rt, all, key, s, row);
    hide RowsModel, Simple, IsRow;
  }

  function WithRow(rt: N.Router, s: Route, row: N.Row): N.Router {
    rt.(rows := rt.rows[s.neigh := row],
        installed := if s.installed then Some(s.neigh)
                     else if rt.installed == Some(s.neigh) then None else rt.installed)
  }

  /** The routes but for that of a neighbour for the prefix pair. */
  ghost function ButFor(all: set<Route>, key: Key, neigh: nat): set<Route> {
    set r | r in all && !(Ours(r, key) && r.neigh == neigh)
  }

  lemma PutSimple(all: set<Route>, key: Key, s: Route)
    requires Simple(all, key) && Ours(s, key) && (s.src != key ==> s.refmetric == INFINITY)
    requires s.installed ==> forall r :: r in all && Ours(r, key) && r.installed ==> r.neigh == s.neigh
    ensures Simple(ButFor(all, key, s.neigh) + {s}, key)
  {
  }

  lemma PutRows(rt: N.Router, all: set<Route>, key: Key, s: Route, row: N.Row)
    requires RowsModel(rt, all, key) && Ours(s, key) && IsRow(row, s, key)
    requires s.installed ==> forall r :: r in all && Ours(r, key) && r.installed ==> r.neigh == s.neigh
    ensures RowsModel(WithRow(rt, s, row), ButFor(all, key, s.neigh) + {s}, key)
  {
    hide IsRow;
    var after := ButFor(all, key, s.neigh) + {s};
    assert s in after;
    forall b | b in rt.rows && b != s.neigh ensures exists r :: r in after && Ours(r, key) && r.neigh == b {
      var r :| r in all && Ours(r, key) && r.neigh == b;
      assert r in after;
    }
  }

  lemma SameRows(rt: N.Router, rt1: N.Router, all: set<Route>, key: Key)
    requires RowsModel(rt, all, key) && rt1.rows == rt.rows && rt1.installed == rt.installed
    ensures RowsModel(rt1, all, key)
  {
  }

  /** The source of an update is there before it is looked at. */
  lemma SourceModels(rt: N.Router, c: S.Context, all: set<Route>, key: Key, n: S.News, seqno: int)
    requires Models(rt, c, all, key) && n.src == key && n.seqno == Seqno.Wire(seqno)
    ensures Models(N.WithSource(rt, seqno), S.Introduced(c, n), all, key) && key in S.Introduced(c, n).sources
    ensures S.Welcome(c, n) <==> Feasibility.Feasible(N.WithSource(rt, seqno).dist.value, seqno, n.refmetric)
    ensures S.Welcome(S.Introduced(c, n), n) <==> S.Welcome(c, n)
  {
    hide RowsModel, Simple, Seqno.Compare;
    SameRows(rt, N.WithSource(rt, seqno), all, key);
    assert key in c.sources ==> !SourceHistory.Stale(c.sources[key].time, c.now);
  }

  lemma Others(all: set<Route>, key: Key, r: Route, s: Route)
    requires Simple(all, key) && r in all && Ours(r, key) && s.neigh == r.neigh
    ensures ButFor(all, key, s.neigh) == all - {r}
  {
  }

  /** update_route for a known route: the table does what the router of the model does. */
  lemma UpdateModels(rt: N.Router, c: S.Context, all: set<Route>, key: Key, r: Route, n: S.News, seqno: int,
                     xroute: bool, o: S.Outcome)
    requires Models(rt, c, all, key) && r in all && Ours(r, key)
    requires n.src == key && n.seqno == Seqno.Wire(seqno) && o.ok == o.asked
    requires var next := S.InPlace(S.Introduced(c, n), r, n, true);
             S.Updated(S.Introduced(c, n), all, r, n, true, xroute, o, Outcome(all - {r} + {next}, o))
    ensures var next, d := S.InPlace(S.Introduced(c, n), r, n, true), S.Introduced(c, n);
            Models(N.UpdateRoute(rt, r.neigh, seqno, n.refmetric, n.cost, n.add, n.keep, Choices(d, o, xroute)), d,
                   Outcome(all - {r} + {next}, o), key)
  {
    hide S.Smoothed, Simple, DistModels, Switched, N.RouteChanged, N.RouteLost, Feasibility.Feasible, S.Welcome;
    var d, b, choices := S.Introduced(c, n), r.neigh, Choices(S.Introduced(c, n), o, xroute);
    var next := S.InPlace(d, r, n, true);
    SourceModels(rt, c, all, key, n, seqno);
    FeasibleModels(rt, c, all, key, r);
    NextIs(d, r, n);
    var row := N.Row(true, seqno, n.refmetric, n.cost, n.add);
    OnlyInstalled(all, key, r);
    PutModels(N.WithSource(rt, seqno), d, all, key, next, row);
    Others(all, key, r, next);
    var rt1 := WithRow(N.WithSource(rt, seqno), next, row);
    assert IsRow(rt.rows[b], r, key);
    if S.Unwanted(d, r, n) && r.installed {
      FeasibleModels(rt1, d, all - {r} + {next}, key, next);
      Vain(rt1, b, choices, seqno, n);
      LostModels(rt1, d, all - {r} + {next}, key, next, xroute, o);
    } else {
      ChangedModels(rt1, d, all - {r} + {next}, key, next, xroute, o);
    }
  }

  lemma OnlyInstalled(all: set<Route>, key: Key, r: Route)
    requires Simple(all, key) && r in all && Ours(r, key)
    ensures r.installed ==> forall s :: s in all && Ours(s, key) && s.installed ==> s.neigh == r.neigh
  {
  }

  lemma NextIs(c: S.Context, r: Route, n: S.News)
    requires n.src in c.sources
    ensures var next := S.InPlace(c, r, n, true);
            && next.src == n.src && next.neigh == r.neigh && next.seqno == n.seqno && next.refmetric == n.refmetric
            && next.cost == n.cost && next.add == n.add
            && next.installed == (r.installed && !S.Unwanted(c, r, n))
  {
    hide S.Smoothed, S.Welcome;
  }

  /** An unfeasible row is not installed when nothing else is. */
  lemma Vain(rt: N.Router, b: N.NodeId, choices: N.Oracle, seqno: int, n: S.News)
    requires b in rt.rows && rt.installed == None && rt.rows[b] == N.Row(true, seqno, n.refmetric, n.cost, n.add)
    requires rt.dist.Some? && !Feasibility.Feasible(rt.dist.value, seqno, n.refmetric)
    ensures N.RouteChanged(rt, b, choices) == rt
  {
    hide Seqno.Compare;
  }

  /** And for one that is not known. */
  lemma LearnModels(rt: N.Router, c: S.Context, all: set<Route>, key: Key, l: Route, n: S.News, seqno: int,
                    xroute: bool, o: S.Outcome)
    requires Models(rt, c, all, key) && n.src == key && n.seqno == Seqno.Wire(seqno) && o.ok == o.asked
    requires l.src == key && l.seqno == n.seqno && l.refmetric == n.refmetric && l.cost == n.cost && l.add == n.add
    requires !l.installed && (forall r :: r in all && Ours(r, key) ==> r.neigh != l.neigh)
    requires n.refmetric < INFINITY && (n.keep || S.Welcome(c, n))
    requires S.Reselected(S.Introduced(c, n), all + {l}, l, false, xroute, o, Outcome(all + {l}, o))
    ensures var d := S.Introduced(c, n);
            Models(N.UpdateRoute(rt, l.neigh, seqno, n.refmetric, n.cost, n.add, n.keep, Choices(d, o, xroute)), d,
                   Outcome(all + {l}, o), key)
  {
    hide S.Smoothed, Simple, DistModels, Switched, Feasibility.Feasible, S.Welcome, S.Preferred;
    var d, choices := S.Introduced(c, n), Choices(S.Introduced(c, n), o, xroute);
    SourceModels(rt, c, all, key, n, seqno);
    NotThere(rt, all, key, l);
    var row := N.Row(true, seqno, n.refmetric, n.cost, n.add);
    PutModels(N.WithSource(rt, seqno), d, all, key, l, row);
    assert ButFor(all, key, l.neigh) == all;
    var rt1 := WithRow(N.WithSource(rt, seqno), l, row);
    ConsiderModels(rt1, d, all + {l}, key, l, o.cur, xroute, choices.smoother);
    SwitchedModels(rt1, d, all + {l}, key, l);
  }

  lemma NotThere(rt: N.Router, all: set<Route>, key: Key, l: Route)
    requires RowsModel(rt, all, key) && forall r :: r in all && Ours(r, key) ==> r.neigh != l.neigh
    ensures l.neigh !in rt.rows && rt.installed != Some(l.neigh)
  {
  }

  // ---------------------------------------------------------------- retractions and flushes

  /** One step of retract_neighbour_routes, when the kernel agrees to both the metric and the switch. */
  lemma RetractModels(rt: N.Router, c: S.Context, all: set<Route>, key: Key, r: Route, xroute: bool, o: S.Outcome)
    requires Models(rt, c, all, key) && r in all && Ours(r, key) && r.refmetric != INFINITY && c.halfLife >= 0
    requires o.ok == o.asked
    requires var next := Retraction.Retracted(c.halfLife, r);
             Retraction.Selects(c, all - {r} + {next}, next, r.Metric(), xroute, o)
    ensures var next := Retraction.Retracted(c.halfLife, r);
            r.neigh in rt.rows
            && Models(N.NeighbourRetracted(rt, r.neigh, Choices(c, o, xroute)), c, Outcome(all - {r} + {next}, o), key)
  {
    hide S.Smoothed, Simple, DistModels, Switched, N.RouteChanged, Retraction.Retracted, S.Offers, S.Preferred;
    FeasibleModels(rt, c, all, key, r);
    var row := rt.rows[r.neigh];
    var next := Retraction.Retracted(c.halfLife, r);
    RetractedIs(c.halfLife, r);
    OnlyInstalled(all, key, r);
    assert IsRow(row, r, key);
    PutModels(rt, c, all, key, next, row.Retracted(row.seqno));
    Others(all, key, r, next);
    assert WithRow(rt, next, row.Retracted(row.seqno)) == rt.(rows := rt.rows[r.neigh := row.Retracted(row.seqno)]);
    if r.Metric() < INFINITY {
      ChangedModels(rt.(rows := rt.rows[r.neigh := row.Retracted(row.seqno)]), c, all - {r} + {next}, key, next, xroute,
                    o);
    }
  }

  lemma RetractedIs(halfLife: nat, r: Route)
    ensures var next := Retraction.Retracted(halfLife, r);
            && next.src == r.src && next.neigh == r.neigh && next.seqno == r.seqno && next.installed == r.installed
            && next.refmetric == INFINITY && next.cost == INFINITY && next.add == 0
  {
  }

  /** flush_route, when the kernel agrees to the switch. */
  lemma FlushModels(rt: N.Router, c: S.Context, all: set<Route>, key: Key, r: Route, xroute: bool, o: S.Outcome)
    requires Models(rt, c, all, key) && r in all && Ours(r, key) && o.ok == o.asked
    requires if r.installed
             then S.BestLeft(c, all - {r}, r.src, o.other) && (o.asked <==> o.other.Some? && !xroute)
             else !o.asked
    ensures r.neigh in rt.rows
    ensures Models(N.Flushed(rt, r.neigh, Choices(c, o, xroute)), c, Outcome(all - {r}, o), key)
  {
    hide S.Smoothed, DistModels, Switched, N.RouteLost, S.BestLeft, IsRow;
    GoneModels(rt, c, all, key, r);
    if r.installed {
      NoneLeft(all, key, r);
      LostModels(rt.(rows := rt.rows - {r.neigh}, installed := None), c, all - {r}, key, r, xroute, o);
    }
  }

  lemma NoneLeft(all: set<Route>, key: Key, r: Route)
    requires Simple(all, key) && r in all && Ours(r, key) && r.installed
    ensures S.IsInstalled(all - {r}, r.src, None)
  {
    forall x | x in all - {r} && S.SamePairAs(x, r.src) ensures !x.installed {
      SamePairs(r, x, key);
    }
  }

  lemma GoneModels(rt: N.Router, c: S.Context, all: set<Route>, key: Key, r: Route)
    requires Models(rt, c, all, key) && r in all && Ours(r, key)
    ensures r.neigh in rt.rows
    ensures Models(rt.(rows := rt.rows - {r.neigh}, installed := if r.installed then None else rt.installed), c,
                   all - {r}, key)
  {
    hide IsRow;
    forall b | b in rt.rows && b != r.neigh ensures exists x :: x in all - {r} && Ours(x, key) && x.neigh == b {
      var x :| x in all && Ours(x, key) && x.neigh == b;
      assert x in all - {r};
    }
  }
}
