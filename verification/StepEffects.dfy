/** What each step of the network model changes, and what it leaves alone: the rows of one router, its source entry,
    which row is installed afterwards, and the messages. */
module StepEffects {
  import opened Common
  import opened Feasibility
  import opened Network
  import opened LoopFreedom
  import RouteMetric
  import Seqno

  // ---------------------------------------------------------------- which row is installed

  /** What packets over a row pay in all. */
  function Total(row: Row): nat { row.refmetric + row.cost + row.add }

  predicate Reachable(row: Row) { Total(row) < INFINITY }

  /** The row may be installed: it is a retraction, or of a foreign source, or strictly better than the feasibility
      distance. */
  predicate MayInstall(rt: Router, b: NodeId) {
    b in rt.rows
    && var row := rt.rows[b];
       row.refmetric == INFINITY || !row.mine
       || (rt.dist.Some? && Better(Distance(row.seqno, row.refmetric), rt.dist.value))
  }

  /** The row that a search for the best one came up with, if any. */
  predicate Found(rt: Router, best: Option<NodeId>) { best.Some? && MayInstall(rt, best.value) }

  /** Which row is installed once the row of `b` has changed, where `gone` says that what was installed was given up or
      is gone. `x` and `y` are the outcomes of the comparisons of smoothed metrics.
      Nothing is installed while a local route has priority. Otherwise: what was given up is replaced by the best row
      that is left. An installed row is replaced by the best one if that is reachable and cheaper, and smoother unless
      the installed one is unreachable. A row that is not installed takes over if nothing is installed; or if it is
      reachable, and the installed one is unreachable, or no cheaper and less smooth. */
  predicate Picks(rt: Router, b: NodeId, gone: bool, best: Option<NodeId>, x: bool, y: bool, xroute: bool,
                  after: Option<NodeId>)
  {
    if xroute then after == rt.installed
    else if gone then after == if Found(rt, best) then best else None
    else match rt.installed
      case None => after == if MayInstall(rt, b) then Some(b) else None
      case Some(c) =>
        if c !in rt.rows || b !in rt.rows then false
        else if c == b then
          after == if Found(rt, best) && Reachable(rt.rows[best.value])
                      && Total(rt.rows[best.value]) < Total(rt.rows[b]) && (!Reachable(rt.rows[b]) || x)
                   then best else Some(b)
        else
          after == if MayInstall(rt, b) && Reachable(rt.rows[b])
                      && (!Reachable(rt.rows[c]) || (Total(rt.rows[b]) <= Total(rt.rows[c]) && y))
                   then Some(b) else Some(c)
  }

  lemma MayInstallExactly(rt: Router, b: NodeId, lo: int)
    requires RouterInWindow(rt, lo) && b in rt.rows
    ensures RowFeasible(rt, rt.rows[b]) <==> MayInstall(rt, b)
  {
    if rt.dist.Some? && rt.rows[b].refmetric < INFINITY {
      FeasibleIsBetter(rt.dist.value, rt.rows[b].seqno, rt.rows[b].refmetric);
    }
  }

  lemma CandidateExactly(rt: Router, best: Option<NodeId>, lo: int)
    requires RouterInWindow(rt, lo)
    ensures Candidate(rt, best) <==> Found(rt, best)
  {
    if best.Some? && best.value in rt.rows { MayInstallExactly(rt, best.value, lo); }
    hide RouterInWindow, RowFeasible;
  }

  lemma ChangedPicks(rt: Router, b: NodeId, o: Oracle, lo: int)
    requires RouterInWindow(rt, lo) && b in rt.rows && (rt.installed.Some? ==> rt.installed.value in rt.rows)
    ensures var after := RouteChanged(rt, b, o).installed;
            RouteChanged(rt, b, o) == rt.(installed := after)
            && Picks(rt, b, false, o.best, o.smoother, o.smoother2, o.xroute, after)
  {
    MayInstallExactly(rt, b, lo);
    CandidateExactly(rt, o.best, lo);
    hide RouterInWindow, MayInstall;
  }

  lemma LostPicks(rt: Router, b: NodeId, o: Oracle, lo: int)
    requires RouterInWindow(rt, lo) && rt.installed == None
    ensures var after := RouteLost(rt, o).installed;
            RouteLost(rt, o) == rt.(installed := after)
            && Picks(rt, b, true, o.lostBest, o.smoother, o.smoother2, o.xroute, after)
  {
    CandidateExactly(rt, o.lostBest, lo);
    hide RouterInWindow, MayInstall;
  }

  /** A row that is considered although nothing about it has changed is a row that has just been added. */
  lemma AddedPicks(rt: Router, b: NodeId, o: Oracle, lo: int)
    requires RouterInWindow(rt, lo) && b in rt.rows && rt.installed != Some(b)
    requires rt.installed.Some? ==> rt.installed.value in rt.rows
    ensures var rt1 := Consider(rt, b, o.smoother, o.xroute);
            rt1 == rt.(installed := rt1.installed)
            && Picks(rt, b, false, o.best, o.smoother, o.smoother, o.xroute, rt1.installed)
  {
    MayInstallExactly(rt, b, lo);
    hide RouterInWindow, MayInstall;
  }

  // ---------------------------------------------------------------- what a step stores

  /** Only router `a` differs. */
  ghost predicate OnlyRouter(st: State, after: State, a: NodeId) {
    && |after.nodes| == |st.nodes| && after.origin == st.origin && after.seqno == st.seqno && after.msgs == st.msgs
    && forall c :: 0 <= c < |st.nodes| && c != a ==> after.nodes[c] == st.nodes[c]
  }

  /** Of a router, only the row of `b` differs, and what is installed. */
  ghost predicate OnlyRow(rt: Router, after: Router, b: NodeId) {
    forall c :: c != b ==> (c in after.rows <==> c in rt.rows) && (c in rt.rows ==> after.rows[c] == rt.rows[c])
  }

  /** The source entry: created at infinity with the number of the update that needs it, otherwise left alone. */
  predicate SourceThere(rt: Router, after: Router, seqno: int) {
    after.dist == if rt.dist.Some? then rt.dist else Some(Distance(seqno, INFINITY))
  }

  /** The update is no worse than what was heard so far, strictly better, or a retraction. */
  predicate Improves(d: Distance, seqno: int, refmetric: U16) {
    refmetric == INFINITY || Better(Distance(seqno, refmetric), d)
  }

  /** An update of the modelled source: a row that is there holds it afterwards, whatever the distance; one that is not
      is added if the update is finite, and feasible or unfeasible ones are kept. The row is given up if it was
      installed for another source and the update is not feasible. */
  predicate Heard(rt: Router, after: Router, b: NodeId, row: Row, keep: bool, o: Oracle) {
    && SourceThere(rt, after, row.seqno)
    && var fine := Improves(after.dist.value, row.seqno, row.refmetric);
       var gone := b in rt.rows && rt.installed == Some(b) && !rt.rows[b].mine && !fine;
       if b in rt.rows || (row.refmetric < INFINITY && (fine || keep))
       then && b in after.rows && after.rows[b] == row
            && Picks(after.(installed := if gone then None else rt.installed), b, gone,
                     if gone then o.lostBest else o.best, o.smoother,
                     if b in rt.rows then o.smoother2 else o.smoother, o.xroute, after.installed)
       else b !in after.rows && after.installed == rt.installed
  }

  lemma UpdateReceived(st: State, act: Action)
    requires Enabled(st, act) && act.Receive? && act.msg.Update? && Windowed(st)
    requires var rt := st.nodes[act.a]; rt.installed.Some? ==> rt.installed.value in rt.rows
    ensures var Receive(a, Update(b, seqno, metric), cost, add, keep, o) := act;
            && OnlyRouter(st, Apply(st, act), a) && OnlyRow(st.nodes[a], Apply(st, act).nodes[a], b)
            && Heard(st.nodes[a], Apply(st, act).nodes[a], b, Row(true, seqno, metric, cost, add), keep, o)
  {
    hide UpdateRoute, Picks, Heard;
    var lo :| InWindow(st, lo);
    var Receive(a, Update(b, seqno, metric), cost, add, keep, o) := act;
    assert RouterInWindow(st.nodes[a], lo) && lo <= seqno < lo + 0x8000;
    UpdateHeard(st.nodes[a], b, seqno, metric, cost, add, keep, o, lo);
  }

  lemma UpdateHeard(rt: Router, b: NodeId, seqno: int, metric: U16, cost: U16, add: U16, keep: bool, o: Oracle, lo: int)
    requires RouterInWindow(rt, lo) && lo <= seqno < lo + 0x8000
    requires rt.installed.Some? ==> rt.installed.value in rt.rows
    ensures var after := UpdateRoute(rt, b, seqno, metric, cost, add, keep, o);
            OnlyRow(rt, after, b) && Heard(rt, after, b, Row(true, seqno, metric, cost, add), keep, o)
  {
    hide Picks, Consider, RouteChanged, RouteLost, RouterInWindow, Feasible;
    var rt0 := WithSource(rt, seqno);
    SourceInWindow(rt, seqno, lo);
    FeasibleIsBetter(rt0.dist.value, seqno, metric) by { InWindowDist(rt0, lo); }
    var row := Row(true, seqno, metric, cost, add);
    var rt1 := rt0.(rows := rt0.rows[b := row]);
    StoredInWindow(rt0, b, row, lo);
    var gone := b in rt.rows && rt.installed == Some(b) && !rt.rows[b].mine && !Feasible(rt0.dist.value, seqno, metric);
    if gone {
      var rt2 := rt1.(installed := None);
      RouterInWindowRows(rt1, rt2, lo);
      ChangedPicks(rt2, b, o, lo);
      NotInstalled(rt2, b, o);
      LostPicks(rt2, b, o, lo);
    } else if b in rt.rows {
      ChangedPicks(rt1, b, o, lo);
    } else if metric < INFINITY && (Feasible(rt0.dist.value, seqno, metric) || keep) {
      AddedPicks(rt1, b, o, lo);
    }
  }

  /** An unfeasible row is not installed when nothing else is. */
  lemma NotInstalled(rt: Router, b: NodeId, o: Oracle)
    requires b in rt.rows && rt.installed == None && !RowFeasible(rt, rt.rows[b])
    ensures RouteChanged(rt, b, o) == rt
  {
  }

  lemma SourceInWindow(rt: Router, seqno: int, lo: int)
    requires RouterInWindow(rt, lo) && lo <= seqno < lo + 0x8000
    ensures RouterInWindow(WithSource(rt, seqno), lo)
  {
  }

  lemma InWindowDist(rt: Router, lo: int)
    requires RouterInWindow(rt, lo) && rt.dist.Some?
    ensures lo <= rt.dist.value.seqno < lo + 0x8000
  {
  }

  /** A step that takes something away: the retraction of a neighbour that has no route left, of a neighbour's routes,
      of an expired route, and the loss of a route. */
  predicate Withdraws(act: Action, a: NodeId, b: NodeId) {
    match act
    case Receive(c, msg, _, _, _, _) => c == a && msg == OwnRetraction(b)
    case RetractNeighbour(c, d, _) => c == a && d == b
    case Expire(c, d, _) => c == a && d == b
    case Flush(c, d, _) => c == a && d == b
    case _ => false
  }

  /** Afterwards the router does not forward through that neighbour, whatever was installed and whatever is installed
      then; the row is retracted, or gone. Nothing else changes, but what is installed. */
  lemma WithdrawnHopIsGone(st: State, act: Action, a: NodeId, b: NodeId)
    requires Enabled(st, act) && Withdraws(act, a, b)
    ensures var rt, after := st.nodes[a], Apply(st, act).nodes[a];
            && !NextHop(Apply(st, act), a, b)
            && OnlyRouter(st, Apply(st, act), a) && OnlyRow(rt, after, b) && after.dist == rt.dist
            && (b in after.rows <==> b in rt.rows && !act.Flush?)
            && (b in after.rows ==> after.rows[b].refmetric == INFINITY && !Reachable(after.rows[b]))
  {
    hide Consider, RouteChanged, RouteLost;
    var rt := st.nodes[a];
    if b in rt.rows {
      WithdrawnRow(rt, b, act);
    }
  }

  lemma WithdrawnRow(rt: Router, b: NodeId, act: Action)
    requires b in rt.rows
    ensures var after := match act
              case Receive(_, _, cost, add, _, o) => UpdateForeign(rt, b, cost, add, o)
              case RetractNeighbour(_, _, o) => NeighbourRetracted(rt, b, o)
              case Expire(_, _, o) => Expired(rt, b, o)
              case Flush(_, _, o) => Flushed(rt, b, o)
              case _ => rt.(rows := rt.rows - {b});
            && OnlyRow(rt, after, b) && after.dist == rt.dist
            && (b in after.rows ==> after.rows[b].refmetric == INFINITY)
            && (act.Receive? || act.RetractNeighbour? || act.Expire? ==> b in after.rows)
            && (act.Flush? ==> b !in after.rows)
  {
    hide Consider, RouteChanged, RouteLost;
    RowsKept();
  }

  lemma RowsKept()
    ensures forall rt: Router, b, o :: b in rt.rows ==>
              RouteChanged(rt, b, o).rows == rt.rows && RouteChanged(rt, b, o).dist == rt.dist
    ensures forall rt: Router, o :: RouteLost(rt, o).rows == rt.rows && RouteLost(rt, o).dist == rt.dist
  {
  }

  lemma RowsStay(rt: Router)
    ensures forall b, o :: b in rt.rows ==>
              var rt1 := RouteChanged(rt, b, o); rt1.rows == rt.rows && rt1.dist == rt.dist
    ensures forall o :: var rt1 := RouteLost(rt, o); rt1.rows == rt.rows && rt1.dist == rt.dist
  {
  }

  /** What the row of `b` is after such a step: retracted, under the number of its source in the table increased by one
      if it had expired, and under the neighbour's own id if that is what the neighbour said. */
  predicate RetractedAs(rt: Router, row: Row, act: Action, after: Row) {
    && after.refmetric == INFINITY
    && if act.Receive? then !after.mine && after.cost == act.cost && after.add == act.add
       else if row.refmetric == INFINITY then after == row
       else
         && after.mine == row.mine && after.cost == INFINITY && after.add == 0
         && after.seqno == if !act.Expire? then row.seqno else if rt.dist.Some? then rt.dist.value.seqno + 1 else 0
  }

  /** And which row is installed. Selection runs if the row was reachable before, or if the neighbour said so. */
  lemma RetractionPicks(st: State, act: Action, a: NodeId, b: NodeId)
    requires Enabled(st, act) && Withdraws(act, a, b) && !act.Flush? && Windowed(st) && b in st.nodes[a].rows
    requires var rt := st.nodes[a]; rt.installed.Some? ==> rt.installed.value in rt.rows
    ensures var rt, after, o := st.nodes[a], Apply(st, act).nodes[a], act.o;
            && b in after.rows && RetractedAs(rt, rt.rows[b], act, after.rows[b])
            && if act.Receive? || Reachable(rt.rows[b])
               then Picks(after.(installed := rt.installed), b, false, o.best, o.smoother, o.smoother2, o.xroute,
                          after.installed)
               else after.installed == rt.installed
  {
    hide Picks, Consider, RouteChanged, RouteLost;
    var lo :| InWindow(st, lo);
    var rt := st.nodes[a];
    assert RouterInWindow(rt, lo);
    var seqno := if act.Expire? then (if rt.dist.Some? then rt.dist.value.seqno + 1 else 0) else rt.rows[b].seqno;
    var row := if act.Receive? then Row(false, 0, INFINITY, act.cost, act.add) else rt.rows[b].Retracted(seqno);
    RetractedInWindow(rt, b, row, lo);
    ChangedPicks(rt.(rows := rt.rows[b := row]), b, act.o, lo);
    RowsStay(rt.(rows := rt.rows[b := row]));
  }

  lemma RetractedInWindow(rt: Router, b: NodeId, row: Row, lo: int)
    requires RouterInWindow(rt, lo) && row.refmetric == INFINITY
    ensures RouterInWindow(rt.(rows := rt.rows[b := row]), lo)
  {
  }

  /** After a flush, selection runs if the route that is gone was installed. */
  lemma FlushPicks(st: State, act: Action)
    requires Enabled(st, act) && act.Flush? && Windowed(st)
    ensures var rt, after, o := st.nodes[act.a], Apply(st, act).nodes[act.a], act.o;
            if rt.installed == Some(act.b)
            then Picks(after.(installed := None), act.b, true, o.lostBest, o.smoother, o.smoother2, o.xroute,
                       after.installed)
            else after.installed == rt.installed
  {
    hide Picks, RouteLost;
    var lo :| InWindow(st, lo);
    var rt := st.nodes[act.a];
    assert RouterInWindow(rt, lo);
    LostPicks(Router(rt.dist, rt.rows - {act.b}, None), act.b, act.o, lo);
  }

  /** A link of another cost, or another answer of the filter. */
  lemma CostPicks(st: State, act: Action)
    requires Enabled(st, act) && act.ChangeCost? && Windowed(st)
    requires var rt := st.nodes[act.a]; rt.installed.Some? ==> rt.installed.value in rt.rows
    ensures var ChangeCost(a, b, cost, add, o) := act;
            var rt, after := st.nodes[a], Apply(st, act).nodes[a];
            && OnlyRouter(st, Apply(st, act), a) && OnlyRow(rt, after, b) && after.dist == rt.dist && b in after.rows
            && after.rows[b] == Row(rt.rows[b].mine, rt.rows[b].seqno, rt.rows[b].refmetric, cost, add)
            && Picks(after.(installed := rt.installed), b, false, o.best, o.smoother, o.smoother2, o.xroute,
                     after.installed)
  {
    hide Picks, Consider, RouteChanged;
    var ChangeCost(a, b, cost, add, o) := act;
    var lo :| InWindow(st, lo);
    var rt := st.nodes[a];
    assert RouterInWindow(rt, lo);
    var row := Row(rt.rows[b].mine, rt.rows[b].seqno, rt.rows[b].refmetric, cost, add);
    SameNumberInWindow(rt, b, row, lo);
    ChangedPicks(rt.(rows := rt.rows[b := row]), b, o, lo);
  }

  lemma SameNumberInWindow(rt: Router, b: NodeId, row: Row, lo: int)
    requires RouterInWindow(rt, lo) && b in rt.rows
    requires row.seqno == rt.rows[b].seqno && row.refmetric == rt.rows[b].refmetric
    ensures RouterInWindow(rt.(rows := rt.rows[b := row]), lo)
  {
  }

  // ---------------------------------------------------------------- what a step sends

  /** The router announces the installed row of the modelled source, under its number and with the metric that packets
      over it pay, and what the output filter adds, capped; a retraction if it has none; nothing if the filter refuses.
      It records what it announces, before the filter, unless the recorded distance is at least as good. */
  lemma Announces(st: State, act: Action)
    requires Enabled(st, act) && act.AnnounceInstalled? && Windowed(st)
    ensures var AnnounceInstalled(a, interferes, factor, out) := act;
            var rt, after := st.nodes[a], Apply(st, act);
            && |after.nodes| == |st.nodes| && after.origin == st.origin && after.seqno == st.seqno
            && (forall c :: 0 <= c < |st.nodes| && c != a ==> after.nodes[c] == st.nodes[c])
            && after.nodes[a].rows == rt.rows && after.nodes[a].installed == rt.installed
            && if rt.installed.Some? && rt.installed.value in rt.rows && rt.rows[rt.installed.value].mine
               then var row := rt.rows[rt.installed.value];
                    var metric := AnnouncedMetric(row, interferes, factor);
                    && (interferes ==> metric == Min(Total(row), INFINITY))
                    && after.msgs == st.msgs + (if out < INFINITY
                                                then {Update(a, row.seqno, Min(metric + out, INFINITY))} else {})
                    && (rt.dist.Some? && row.refmetric < INFINITY ==>
                          after.nodes[a].dist
                          == Some(if metric < INFINITY && Better(Distance(row.seqno, metric), rt.dist.value)
                                  then Distance(row.seqno, metric) else rt.dist.value))
               else after.nodes[a] == rt
                    && after.msgs == st.msgs + if out < INFINITY then {OwnRetraction(a)} else {}
  {
    var lo :| InWindow(st, lo);
    var rt := st.nodes[act.a];
    assert RouterInWindow(rt, lo);
    if rt.installed.Some? && rt.installed.value in rt.rows && rt.dist.Some?
       && rt.rows[rt.installed.value].refmetric < INFINITY {
      AdvertisedIs(rt.dist.value, rt.rows[rt.installed.value].seqno,
                   AnnouncedMetric(rt.rows[rt.installed.value], act.interferes, act.factor));
    }
    hide InWindow, RouterInWindow, Advertised, RouteMetric.NonInterfering;
  }

  lemma AdvertisedIs(d: Distance, seqno: int, metric: U16)
    requires -0x8000 < seqno - d.seqno < 0x8000
    ensures Advertised(d, seqno, metric)
            == if metric < INFINITY && Better(Distance(seqno, metric), d) then Distance(seqno, metric) else d
  {
    AdvertisedIsBest(d, seqno, metric);
    Seqno.CompareInWindow(d.seqno, seqno);
  }

  /** The origin announces itself, and raises its number; packets get lost. No router changes. */
  lemma OthersSend(st: State, act: Action)
    requires Enabled(st, act)
    ensures act.Originate? ==> Apply(st, act) == st.(msgs := st.msgs + {Update(st.origin, st.seqno, act.metric)})
    ensures act.IncreaseSeqno? ==>
              Apply(st, act).seqno - st.seqno == 1 && Apply(st, act) == st.(seqno := Apply(st, act).seqno)
    ensures act.Lose? ==> act.msg !in Apply(st, act).msgs && Apply(st, act).msgs + {act.msg} == st.msgs + {act.msg}
                          && Apply(st, act) == st.(msgs := Apply(st, act).msgs)
  {
  }

  /** Nothing else stops a step: the origin may announce itself and raise its number, and any message be lost, at any
      time; a router may announce what it has at any time, receive what some other router sent over any link that
      costs at least 1, and see any of its routes change, expire or go. */
  lemma AlwaysPossible(st: State, act: Action)
    requires match act
      case Receive(a, msg, cost, _, _, _) =>
        a < |st.nodes| && a != st.origin && msg in st.msgs && msg.from != a && cost > 0
      case ChangeCost(a, b, cost, _, _) => a < |st.nodes| && a != st.origin && b in st.nodes[a].rows && cost > 0
      case AnnounceInstalled(a, _, _, _) => a < |st.nodes| && a != st.origin
      case Expire(a, b, _) => a < |st.nodes| && a != st.origin && b in st.nodes[a].rows
      case RetractNeighbour(a, b, _) => a < |st.nodes| && a != st.origin && b in st.nodes[a].rows
      case Flush(a, b, _) => a < |st.nodes| && a != st.origin && b in st.nodes[a].rows
      case _ => true
    ensures Enabled(st, act)
  {
  }
}
