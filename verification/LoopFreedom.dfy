/** Loop freedom (sections 2.4 and 3.5.1 of RFC 6126): the feasibility distance strictly improves from each
    router to its next hop, in every state that a run reaches without reviving a retracted route. */
module LoopFreedom {
  import opened Common
  import opened Feasibility
  import opened Network
  import RouteMetric

  // ---------------------------------------------------------------- the invariant

  /** Router `b` has recorded a distance at least as good as the pair, or is the origin. */
  predicate Backed(st: State, b: NodeId, seqno: int, metric: U16) {
    b == st.origin ||
    (b < |st.nodes| && st.nodes[b].dist.Some? && AtLeast(st.nodes[b].dist.value, Distance(seqno, metric)))
  }

  /** The distance of `b` is strictly better than the distance in `rt`. */
  predicate Closer(st: State, b: NodeId, rt: Router) {
    b == st.origin ||
    (b < |st.nodes| && st.nodes[b].dist.Some? && rt.dist.Some? && Better(st.nodes[b].dist.value, rt.dist.value))
  }

  /** A row holds a retraction, or what its neighbour once announced for the modelled source. */
  predicate RowOk(st: State, b: NodeId, row: Row) {
    && b < |st.nodes| && row.cost >= 1
    && (row.refmetric < INFINITY ==> row.mine && Backed(st, b, row.seqno, row.refmetric))
  }

  /** The rows of `rt` are sound as the table of router `a`. */
  predicate RowsOk(st: State, a: NodeId, rt: Router) {
    && a !in rt.rows
    && (rt.installed.Some? ==> rt.installed.value in rt.rows)
    && (forall b | b in rt.rows :: RowOk(st, b, rt.rows[b]) && (rt.rows[b].mine ==> rt.dist.Some?))
  }

  /** An installed row that is not retracted leads closer to the origin. */
  predicate Descends(st: State, rt: Router) {
    rt.installed.Some? && rt.installed.value in rt.rows && rt.rows[rt.installed.value].refmetric < INFINITY
    ==> Closer(st, rt.installed.value, rt)
  }

  predicate NodeOk(st: State, a: NodeId, rt: Router) {
    RowsOk(st, a, rt) && Descends(st, rt)
  }

  predicate MessageOk(st: State, msg: Message) {
    msg.from < |st.nodes| && (msg.Update? && msg.metric < INFINITY ==> Backed(st, msg.from, msg.seqno, msg.metric))
  }

  ghost predicate Inv(st: State) {
    && st.origin < |st.nodes|
    && st.nodes[st.origin] == Router(None, map[], None)
    && (forall a | 0 <= a < |st.nodes| :: NodeOk(st, a, st.nodes[a]))
    && (forall msg | msg in st.msgs :: MessageOk(st, msg))
  }

  /** Every sequence number a router compares lies in one window. */
  predicate RouterInWindow(rt: Router, lo: int) {
    && (rt.dist.Some? ==> lo <= rt.dist.value.seqno < lo + 0x8000)
    && (forall b | b in rt.rows :: rt.rows[b].refmetric < INFINITY ==> lo <= rt.rows[b].seqno < lo + 0x8000)
  }

  // ---------------------------------------------------------------- one router

  /** Installing a feasible row keeps the order; so does leaving things as they are. */
  lemma ConsiderKeeps(st: State, a: NodeId, rt: Router, b: NodeId, smoother: bool, xroute: bool, lo: int)
    requires NodeOk(st, a, rt) && RouterInWindow(rt, lo)
    ensures NodeOk(st, a, Consider(rt, b, smoother, xroute)) && RouterInWindow(Consider(rt, b, smoother, xroute), lo)
    ensures Consider(rt, b, smoother, xroute).dist == rt.dist && Consider(rt, b, smoother, xroute).rows == rt.rows
  {
    var rt1 := Consider(rt, b, smoother, xroute);
    if rt1 != rt && rt.rows[b].refmetric < INFINITY {
      FeasibleIsBetter(rt.dist.value, rt.rows[b].seqno, rt.rows[b].refmetric);
      assert RowOk(st, b, rt.rows[b]);
    }
  }

  lemma RouteChangedKeeps(st: State, a: NodeId, rt: Router, b: NodeId, o: Oracle, lo: int)
    requires NodeOk(st, a, rt) && RouterInWindow(rt, lo) && b in rt.rows
    ensures NodeOk(st, a, RouteChanged(rt, b, o)) && RouteChanged(rt, b, o).rows == rt.rows
    ensures RouteChanged(rt, b, o).dist == rt.dist
  {
    hide NodeOk, RouterInWindow, Consider;
    if o.best.Some? {
      ConsiderKeeps(st, a, rt, o.best.value, o.smoother, o.xroute, lo);
      ConsiderKeeps(st, a, Consider(rt, o.best.value, o.smoother, o.xroute), b, o.smoother2, o.xroute, lo);
    }
    ConsiderKeeps(st, a, rt, b, o.smoother2, o.xroute, lo);
  }

  lemma RouteLostKeeps(st: State, a: NodeId, rt: Router, o: Oracle, lo: int)
    requires NodeOk(st, a, rt) && RouterInWindow(rt, lo)
    ensures NodeOk(st, a, RouteLost(rt, o)) && RouteLost(rt, o).dist == rt.dist
  {
  }

  /** Overwriting a row keeps the order, provided that an installed row which becomes finite leads closer. */
  lemma StoreKeeps(st: State, a: NodeId, rt: Router, b: NodeId, row: Row)
    requires NodeOk(st, a, rt) && a != b && RowOk(st, b, row) && (row.mine ==> rt.dist.Some?)
    requires rt.installed == Some(b) && row.refmetric < INFINITY ==> Closer(st, b, rt)
    ensures NodeOk(st, a, rt.(rows := rt.rows[b := row]))
  {
  }

  /** A source that is created for an update, and an uninstallation, keep the order. */
  lemma SourceKeeps(st: State, a: NodeId, rt: Router, seqno: int, lo: int)
    requires NodeOk(st, a, rt) && RouterInWindow(rt, lo) && lo <= seqno < lo + 0x8000
    ensures var rt0 := WithSource(rt, seqno);
            && NodeOk(st, a, rt0) && RouterInWindow(rt0, lo)
            && NodeOk(st, a, rt0.(installed := None)) && RouterInWindow(rt0.(installed := None), lo)
            && (rt0.installed.Some? ==> rt0.installed.value in rt0.rows)
  {
  }

  lemma StoredInWindow(rt: Router, b: NodeId, row: Row, lo: int)
    requires RouterInWindow(rt, lo) && lo <= row.seqno < lo + 0x8000
    ensures RouterInWindow(rt.(rows := rt.rows[b := row]), lo)
  {
  }

  lemma RouterInWindowRows(rt: Router, rt1: Router, lo: int)
    requires RouterInWindow(rt, lo) && rt1.rows == rt.rows && rt1.dist == rt.dist
    ensures RouterInWindow(rt1, lo)
  {
  }

  /** An installed row stays closer under an update that is feasible, or about a row that was not retracted. */
  lemma StillCloser(st: State, a: NodeId, rt: Router, b: NodeId, seqno: int, refmetric: U16, lo: int)
    requires NodeOk(st, a, rt) && RouterInWindow(rt, lo) && rt.dist.Some? && lo <= seqno < lo + 0x8000
    requires rt.installed == Some(b) && refmetric < INFINITY && Backed(st, b, seqno, refmetric)
    requires b in rt.rows && (rt.rows[b].mine || Feasible(rt.dist.value, seqno, refmetric))
    requires Revives(rt, b, seqno, refmetric) ==> Closer(st, b, rt)
    ensures Closer(st, b, rt)
  {
    FeasibleIsBetter(rt.dist.value, seqno, refmetric);
  }

  /** update_route keeps the order, unless it revives a row that does not lead closer. */
  lemma UpdateRouteKeeps(st: State, a: NodeId, rt: Router, b: NodeId, seqno: int, refmetric: U16, cost: U16, add: U16,
                         keep: bool, o: Oracle, lo: int)
    requires NodeOk(st, a, rt) && RouterInWindow(rt, lo) && a != b && b < |st.nodes| && cost >= 1
    requires lo <= seqno < lo + 0x8000
    requires refmetric < INFINITY ==> Backed(st, b, seqno, refmetric)
    requires var rt0 := WithSource(rt, seqno);
             Revives(rt0, b, seqno, refmetric) ==> Closer(st, b, rt0)
    ensures NodeOk(st, a, UpdateRoute(rt, b, seqno, refmetric, cost, add, keep, o))
    ensures UpdateRoute(rt, b, seqno, refmetric, cost, add, keep, o).dist == WithSource(rt, seqno).dist
  {
    hide Feasible, NodeOk, Closer, Backed, RouterInWindow, RouteChanged, RouteLost, Consider, Revives;
    var rt0 := WithSource(rt, seqno);
    SourceKeeps(st, a, rt, seqno, lo);
    var feasible := Feasible(rt0.dist.value, seqno, refmetric);
    var row := Row(true, seqno, refmetric, cost, add);
    if b in rt0.rows {
      var lost := !feasible && rt0.installed == Some(b) && !rt0.rows[b].mine;
      var rt1 := if lost then rt0.(installed := None) else rt0;
      if rt1.installed == Some(b) && refmetric < INFINITY {
        StillCloser(st, a, rt0, b, seqno, refmetric, lo);
      }
      StoreKeeps(st, a, rt1, b, row);
      var rt2 := rt1.(rows := rt1.rows[b := row]);
      StoredInWindow(rt1, b, row, lo);
      RouteChangedKeeps(st, a, rt2, b, o, lo);
      if lost {
        RouterInWindowRows(rt2, RouteChanged(rt2, b, o), lo);
        RouteLostKeeps(st, a, RouteChanged(rt2, b, o), o, lo);
      }
    } else if !(refmetric == INFINITY || (!feasible && !keep)) {
      StoreKeeps(st, a, rt0, b, row);
      StoredInWindow(rt0, b, row, lo);
      ConsiderKeeps(st, a, rt0.(rows := rt0.rows[b := row]), b, o.smoother, o.xroute, lo);
    }
  }

  lemma RetractKeeps(st: State, a: NodeId, rt: Router, b: NodeId, row: Row, o: Oracle, lo: int)
    requires NodeOk(st, a, rt) && RouterInWindow(rt, lo) && a != b && b < |st.nodes|
    requires row.refmetric == INFINITY && row.cost >= 1 && (row.mine ==> rt.dist.Some?)
    ensures NodeOk(st, a, rt.(rows := rt.rows[b := row]))
    ensures NodeOk(st, a, RouteChanged(rt.(rows := rt.rows[b := row]), b, o))
    ensures RouteChanged(rt.(rows := rt.rows[b := row]), b, o).dist == rt.dist
  {
    StoreKeeps(st, a, rt, b, row);
    RouteChangedKeeps(st, a, rt.(rows := rt.rows[b := row]), b, o, lo);
  }

  // ---------------------------------------------------------------- the network

  /** Distances only improve: what was backed stays backed, and who was closer stays closer. */
  lemma PutKeeps(st: State, a: NodeId, rt: Router)
    requires Inv(st) && Relay(st, a) && NodeOk(st, a, rt)
    requires st.nodes[a].dist.Some? ==> rt.dist.Some? && AtLeast(rt.dist.value, st.nodes[a].dist.value)
    ensures Inv(Put(st, a, rt))
  {
    var st1 := Put(st, a, rt);
    forall b, seqno, metric | Backed(st, b, seqno, metric)
      ensures Backed(st1, b, seqno, metric)
    {
    }
    forall c | 0 <= c < |st1.nodes|
      ensures NodeOk(st1, c, st1.nodes[c])
    {
      var r := st1.nodes[c];
      assert NodeOk(st, c, r);
      forall b | b in r.rows
        ensures RowOk(st1, b, r.rows[b])
      {
        assert RowOk(st, b, r.rows[b]);
      }
    }
    forall msg | msg in st1.msgs
      ensures MessageOk(st1, msg)
    {
      assert MessageOk(st, msg);
    }
  }

  /** Recording what is announced keeps the order: the distance improves, but not beyond that of the next hop. */
  lemma RecordKeeps(st: State, a: NodeId, rt: Router, b: NodeId, metric: U16, lo: int)
    requires NodeOk(st, a, rt) && RouterInWindow(rt, lo) && rt.installed == Some(b)
    requires b in rt.rows && rt.rows[b].mine && (rt.rows[b].refmetric < INFINITY ==> rt.rows[b].refmetric < metric)
    requires metric < INFINITY ==> rt.rows[b].refmetric < INFINITY
    ensures rt.dist.Some?
    ensures var d := Advertised(rt.dist.value, rt.rows[b].seqno, metric);
            && NodeOk(st, a, rt.(dist := Some(d))) && AtLeast(d, rt.dist.value)
            && (metric < INFINITY ==> AtLeast(d, Distance(rt.rows[b].seqno, metric)))
  {
    hide Advertised;
    var row := rt.rows[b];
    assert RowOk(st, b, row);
    if metric < INFINITY {
      AdvertisedIsBest(rt.dist.value, row.seqno, metric);
    } else {
      NotAdvertised(rt.dist.value, row.seqno);
    }
    var rt1 := rt.(dist := Some(Advertised(rt.dist.value, row.seqno, metric)));
    forall c | c in rt1.rows ensures RowOk(st, c, rt1.rows[c]) {
      assert RowOk(st, c, rt.rows[c]);
    }
  }

  lemma NotAdvertised(d: Distance, seqno: int)
    ensures Advertised(d, seqno, INFINITY) == d
  {
  }

  lemma UpdateSent(st: State, a: NodeId, seqno: int, metric: U16, out: U16)
    requires Inv(st) && a < |st.nodes| && st.nodes[a].dist.Some?
    requires metric < INFINITY ==> AtLeast(st.nodes[a].dist.value, Distance(seqno, metric))
    ensures Inv(st.(msgs := st.msgs + {Update(a, seqno, Min(metric + out, INFINITY))}))
  {
    MessageSent(st, Update(a, seqno, Min(metric + out, INFINITY)));
  }

  lemma AnnounceKeeps(st: State, a: NodeId, interferes: bool, factor: nat, out: U16, lo: int)
    requires Inv(st) && Relay(st, a) && InWindow(st, lo)
    ensures Inv(Announce(st, a, interferes, factor, out))
  {
    hide Closer, Backed, Advertised, AnnouncedMetric, AtLeast;
    var rt := st.nodes[a];
    assert NodeOk(st, a, rt) && RouterInWindow(rt, lo);
    if rt.installed.Some? && rt.rows[rt.installed.value].mine {
      var b := rt.installed.value;
      var row := rt.rows[b];
      assert RowOk(st, b, row);
      AnnouncedIsDearer(row, interferes, factor);
      var metric := AnnouncedMetric(row, interferes, factor);
      RecordKeeps(st, a, rt, b, metric, lo);
      var rt1 := rt.(dist := Some(Advertised(rt.dist.value, row.seqno, metric)));
      PutKeeps(st, a, rt1);
      UpdateSent(Put(st, a, rt1), a, row.seqno, metric, out);
    } else {
      MessageSent(st, OwnRetraction(a));
    }
  }

  lemma AnnouncedIsDearer(row: Row, interferes: bool, factor: nat)
    requires row.cost >= 1
    ensures var metric := AnnouncedMetric(row, interferes, factor);
            && (row.refmetric < INFINITY ==> row.refmetric < metric)
            && (metric < INFINITY ==> row.refmetric < INFINITY)
  {
    RouteMetric.StrictIncrease(factor, row.refmetric, row.cost, row.add);
  }

  lemma MessageSent(st: State, msg: Message)
    requires Inv(st) && MessageOk(st, msg)
    ensures Inv(st.(msgs := st.msgs + {msg}))
  {
  }

  /** The invariant does not depend on the origin's sequence number, and each message is judged alone. */
  lemma ElsewhereKeeps(st: State, st1: State)
    requires Inv(st) && st1.nodes == st.nodes && st1.origin == st.origin
    ensures forall a | 0 <= a < |st.nodes| :: NodeOk(st1, a, st1.nodes[a])
    ensures forall msg | MessageOk(st, msg) :: MessageOk(st1, msg)
  {
  }

  lemma ReceiveKeeps(st: State, act: Action, lo: int)
    requires Inv(st) && Enabled(st, act) && act.Receive? && InWindow(st, lo)
    requires Revival(st, act) ==> Closer(st, act.msg.from, st.nodes[act.a])
    ensures Inv(Apply(st, act))
  {
    var Receive(a, msg, cost, add, keep, o) := act;
    var rt := st.nodes[a];
    assert MessageOk(st, msg) && NodeOk(st, a, rt) && RouterInWindow(rt, lo);
    match msg {
      case Update(b, seqno, metric) =>
        UpdateRouteKeeps(st, a, rt, b, seqno, metric, cost, add, keep, o, lo);
      case OwnRetraction(b) =>
        if b in rt.rows {
          RetractKeeps(st, a, rt, b, Row(false, 0, INFINITY, cost, add), o, lo);
        }
    }
    PutKeeps(st, a, Received(rt, msg, cost, add, keep, o));
  }

  lemma CostKeeps(st: State, a: NodeId, b: NodeId, cost: U16, add: U16, o: Oracle, lo: int)
    requires Inv(st) && Enabled(st, ChangeCost(a, b, cost, add, o)) && InWindow(st, lo)
    ensures Inv(Put(st, a, Recosted(st.nodes[a], b, cost, add, o)))
  {
    var rt := st.nodes[a];
    assert NodeOk(st, a, rt) && RouterInWindow(rt, lo);
    var row := rt.rows[b];
    assert RowOk(st, b, row);
    StoreKeeps(st, a, rt, b, row.(cost := cost, add := add));
    RouteChangedKeeps(st, a, rt.(rows := rt.rows[b := row.(cost := cost, add := add)]), b, o, lo);
    PutKeeps(st, a, Recosted(rt, b, cost, add, o));
  }

  lemma FlushKeeps(st: State, a: NodeId, b: NodeId, o: Oracle, lo: int)
    requires Inv(st) && Enabled(st, Flush(a, b, o)) && InWindow(st, lo)
    ensures Inv(Put(st, a, Flushed(st.nodes[a], b, o)))
  {
    var rt := st.nodes[a];
    assert NodeOk(st, a, rt) && RouterInWindow(rt, lo);
    var gone := rt.(rows := rt.rows - {b});
    if rt.installed == Some(b) {
      assert NodeOk(st, a, gone.(installed := None));
      RouteLostKeeps(st, a, gone.(installed := None), o, lo);
    } else {
      assert NodeOk(st, a, gone);
    }
    PutKeeps(st, a, Flushed(rt, b, o));
  }

  lemma ExpireKeeps(st: State, a: NodeId, b: NodeId, o: Oracle, lo: int)
    requires Inv(st) && Enabled(st, Expire(a, b, o)) && InWindow(st, lo)
    ensures Inv(Put(st, a, Expired(st.nodes[a], b, o)))
  {
    hide RouteChanged, Feasible;
    var rt := st.nodes[a];
    assert NodeOk(st, a, rt) && RouterInWindow(rt, lo);
    var row := rt.rows[b];
    assert RowOk(st, b, row);
    var seqno := if rt.dist.Some? then rt.dist.value.seqno + 1 else 0;
    RetractKeeps(st, a, rt, b, row.Retracted(seqno), o, lo);
    PutKeeps(st, a, Expired(rt, b, o));
  }

  lemma RetractNeighbourKeeps(st: State, a: NodeId, b: NodeId, o: Oracle, lo: int)
    requires Inv(st) && Enabled(st, RetractNeighbour(a, b, o)) && InWindow(st, lo)
    ensures Inv(Put(st, a, NeighbourRetracted(st.nodes[a], b, o)))
  {
    var rt := st.nodes[a];
    assert NodeOk(st, a, rt) && RouterInWindow(rt, lo);
    var row := rt.rows[b];
    assert RowOk(st, b, row);
    RetractKeeps(st, a, rt, b, row.Retracted(row.seqno), o, lo);
    PutKeeps(st, a, NeighbourRetracted(rt, b, o));
  }

  lemma RowStepKeeps(st: State, act: Action, lo: int)
    requires Inv(st) && Enabled(st, act) && InWindow(st, lo)
    requires act.ChangeCost? || act.Expire? || act.RetractNeighbour? || act.Flush?
    ensures Inv(Apply(st, act))
  {
    var a, b, o := act.a, act.b, act.o;
    match act {
      case ChangeCost(_, _, cost, add, _) => CostKeeps(st, a, b, cost, add, o, lo);
      case Flush(_, _, _) => FlushKeeps(st, a, b, o, lo);
      case Expire(_, _, _) => ExpireKeeps(st, a, b, o, lo);
      case RetractNeighbour(_, _, _) => RetractNeighbourKeeps(st, a, b, o, lo);
    }
  }

  /** Every step but a revival keeps the invariant, and so does a revival by a closer neighbour. */
  lemma StepKeeps(st: State, act: Action)
    requires Inv(st) && Enabled(st, act) && Windowed(st) && !Revival(st, act)
    ensures Inv(Apply(st, act))
  {
    var lo :| InWindow(st, lo);
    match act {
      case Originate(metric) => MessageSent(st, Update(st.origin, st.seqno, metric));
      case IncreaseSeqno => ElsewhereKeeps(st, Apply(st, act));
      case AnnounceInstalled(a, interferes, factor, out) => AnnounceKeeps(st, a, interferes, factor, out, lo);
      case Receive(_, _, _, _, _, _) => ReceiveKeeps(st, act, lo);
      case Lose(msg) => ElsewhereKeeps(st, Apply(st, act));
      case ChangeCost(_, _, _, _, _) => RowStepKeeps(st, act, lo);
      case Expire(_, _, _) => RowStepKeeps(st, act, lo);
      case RetractNeighbour(_, _, _) => RowStepKeeps(st, act, lo);
      case Flush(_, _, _) => RowStepKeeps(st, act, lo);
    }
  }

  // ---------------------------------------------------------------- revivals

  /** The order of every next hop, which is what a revival can break. */
  ghost predicate Ordered(st: State) {
    forall a | 0 <= a < |st.nodes| :: Descends(st, st.nodes[a])
  }

  /** Another row is feasible and cheaper than the row about to be stored for `b`, and consider_route accepts it. */
  predicate HandsOver(rt: Router, b: NodeId, row: Row, o: Oracle) {
    && Candidate(rt, o.best) && o.best != Some(b)
    && rt.rows[o.best.value].Metric() < row.Metric()
    && !o.xroute && (row.Metric() >= INFINITY || o.smoother)
  }

  /** A revival after which the router forwards through the revived row. */
  predicate Persists(st: State, act: Action)
    requires Enabled(st, act)
  {
    Revival(st, act) &&
    !HandsOver(st.nodes[act.a], act.msg.from, Row(true, act.msg.seqno, act.msg.metric, act.cost, act.add), act.o)
  }

  /** A lasting revival by a neighbour that is not closer. */
  predicate Strands(st: State, act: Action)
    requires Enabled(st, act)
  {
    Persists(st, act) && !Closer(st, act.msg.from, st.nodes[act.a])
  }

  /** What a revival leaves behind: the row is stored, and only a row that takes over is installed instead. */
  lemma Revived(rt: Router, b: NodeId, seqno: int, metric: U16, cost: U16, add: U16, keep: bool, o: Oracle)
    requires Revives(rt, b, seqno, metric)
    ensures var row := Row(true, seqno, metric, cost, add);
            UpdateRoute(rt, b, seqno, metric, cost, add, keep, o) ==
            Router(rt.dist, rt.rows[b := row], if HandsOver(rt, b, row, o) then o.best else Some(b))
  {
    hide Feasible;
    var row := Row(true, seqno, metric, cost, add);
    var rt2 := rt.(rows := rt.rows[b := row]);
    assert UpdateRoute(rt, b, seqno, metric, cost, add, keep, o) == RouteChanged(rt2, b, o);
    assert !RowFeasible(rt2, row);
    assert o.best != Some(b) ==> Candidate(rt, o.best) == Candidate(rt2, o.best);
  }

  /** A revival that hands over to another row at once keeps the order. */
  lemma HandoverKeeps(st: State, act: Action, lo: int)
    requires Inv(st) && Enabled(st, act) && InWindow(st, lo) && Revival(st, act) && !Persists(st, act)
    ensures Inv(Apply(st, act))
  {
    hide UpdateRoute;
    var Receive(a, msg, cost, add, keep, o) := act;
    var rt := st.nodes[a];
    assert MessageOk(st, msg) && NodeOk(st, a, rt) && RouterInWindow(rt, lo);
    var best, row := o.best.value, Row(true, msg.seqno, msg.metric, cost, add);
    Revived(rt, msg.from, msg.seqno, msg.metric, cost, add, keep, o);
    FeasibleIsBetter(rt.dist.value, rt.rows[best].seqno, rt.rows[best].refmetric);
    assert RowOk(st, best, rt.rows[best]);
    StoreKeeps(st, a, rt.(installed := Some(best)), msg.from, row);
    PutKeeps(st, a, Router(rt.dist, rt.rows[msg.from := row], Some(best)));
  }

  /** A stranded router forwards to a neighbour that is not closer. */
  lemma StrandsDisorders(st: State, act: Action)
    requires Inv(st) && Enabled(st, act) && Strands(st, act)
    ensures NextHop(Apply(st, act), act.a, act.msg.from) && !Ordered(Apply(st, act))
  {
    hide UpdateRoute, Feasible, HandsOver;
    var Receive(a, msg, cost, add, keep, o) := act;
    Revived(st.nodes[a], msg.from, msg.seqno, msg.metric, cost, add, keep, o);
    assert MessageOk(st, msg) && NodeOk(st, a, st.nodes[a]);
    assert !Descends(Apply(st, act), Apply(st, act).nodes[a]);
  }

  /** A step breaks the order of next hops exactly when it strands a router. */
  lemma StepKeepsOrderExactly(st: State, act: Action)
    requires Inv(st) && Enabled(st, act) && Windowed(st)
    ensures Ordered(Apply(st, act)) <==> !Strands(st, act)
    ensures !Strands(st, act) ==> Inv(Apply(st, act))
  {
    var lo :| InWindow(st, lo);
    if Strands(st, act) {
      StrandsDisorders(st, act);
    } else if !Revival(st, act) {
      StepKeeps(st, act);
    } else if Closer(st, act.msg.from, st.nodes[act.a]) {
      ReceiveKeeps(st, act, lo);
    } else {
      HandoverKeeps(st, act, lo);
    }
    if Inv(Apply(st, act)) {
      InvImpliesOrdered(Apply(st, act));
    }
  }

  lemma InvImpliesOrdered(st: State)
    requires Inv(st)
    ensures Ordered(st)
  {
  }

  // ---------------------------------------------------------------- paths

  /** Along a path of next hops the distance strictly improves, or the origin has been reached. */
  lemma {:induction false} PathDescends(st: State, p: seq<NodeId>)
    requires Inv(st) && |p| >= 2 && Path(st, p)
    ensures p[0] < |st.nodes| && Closer(st, p[|p| - 1], st.nodes[p[0]])
    decreases |p|
  {
    var n := |p|;
    assert NextHop(st, p[n - 2], p[n - 1]);
    assert NodeOk(st, p[n - 2], st.nodes[p[n - 2]]);
    if n > 2 {
      var q := p[..n - 1];
      assert Path(st, q);
      PathDescends(st, q);
    }
  }

  lemma OrderImpliesLoopFree(st: State)
    requires Inv(st)
    ensures LoopFree(st)
  {
    forall p: seq<NodeId> | |p| >= 2 && Path(st, p)
      ensures p[0] != p[|p| - 1]
    {
      PathDescends(st, p);
      assert NextHop(st, p[0], p[1]);
    }
  }

  // ---------------------------------------------------------------- loops

  /** A path of next hops leads from `b` to `a`. */
  ghost predicate Reaches(st: State, b: NodeId, a: NodeId) {
    exists p: seq<NodeId> :: |p| >= 1 && Path(st, p) && p[0] == b && p[|p| - 1] == a
  }

  /** Only router `a` may forward differently. */
  ghost predicate SameHopsBut(st: State, st1: State, a: NodeId) {
    forall c, d | c != a :: NextHop(st, c, d) <==> NextHop(st1, c, d)
  }

  /** A path to `a`, cut at its first visit, does not depend on where `a` forwards. */
  lemma {:induction false} FirstVisit(st: State, st1: State, a: NodeId, p: seq<NodeId>)
    requires SameHopsBut(st, st1, a) && |p| >= 1 && Path(st1, p) && p[|p| - 1] == a
    ensures Reaches(st, p[0], a)
    decreases |p|
  {
    if i :| 0 <= i < |p| - 1 && p[i] == a {
      FirstVisit(st, st1, a, p[..i + 1]);
    } else {
      assert Path(st, p);
    }
  }

  /** A loop that is new passes through `a`, hence leads from the next hop of `a` back to `a`. */
  lemma NewLoopPasses(st: State, st1: State, a: NodeId, p: seq<NodeId>)
    requires LoopFree(st) && SameHopsBut(st, st1, a)
    requires |p| >= 2 && Path(st1, p) && p[0] == p[|p| - 1]
    ensures exists b :: NextHop(st1, a, b) && Reaches(st, b, a)
  {
    assert Path(st1, p) && !Path(st, p);
    var i :| 0 <= i < |p| - 1 && p[i] == a;
    var q := p[i + 1..] + p[1..i + 1];
    forall k | 0 <= k < |q| - 1
      ensures NextHop(st1, q[k], q[k + 1])
    {
      var j := if k < |p| - i - 1 then k + i + 1 else k + i + 2 - |p|;
      assert NextHop(st1, if j == |p| - 1 then p[0] else p[j], if j == |p| - 1 then p[1] else p[j + 1]);
    }
    assert NextHop(st1, p[i], p[i + 1]) && q[0] == p[i + 1] && q[|q| - 1] == a;
    FirstVisit(st, st1, a, q);
  }

  /** Giving one router another next hop closes a loop exactly when that next hop already leads to the router. */
  lemma LoopsThroughHop(st: State, st1: State, a: NodeId)
    requires LoopFree(st) && SameHopsBut(st, st1, a)
    ensures LoopFree(st1) <==> !exists b :: NextHop(st1, a, b) && Reaches(st, b, a)
  {
    if !LoopFree(st1) {
      var p: seq<NodeId> :| |p| >= 2 && Path(st1, p) && p[0] == p[|p| - 1];
      NewLoopPasses(st, st1, a, p);
    }
    if b :| NextHop(st1, a, b) && Reaches(st, b, a) {
      var p: seq<NodeId> :| |p| >= 1 && Path(st, p) && p[0] == b && p[|p| - 1] == a;
      FirstVisit(st1, st, a, p);
      var q: seq<NodeId> :| |q| >= 1 && Path(st1, q) && q[0] == b && q[|q| - 1] == a;
      assert Path(st1, [a] + q);
    }
  }

  /** A lasting revival by a neighbour that already forwards, directly or through others, to the reviving router. */
  ghost predicate Closes(st: State, act: Action)
    requires Enabled(st, act)
  {
    Persists(st, act) && Reaches(st, act.msg.from, act.a)
  }

  /** Who forwards through a router is not closer than that router. */
  lemma UpstreamIsNotCloser(st: State, b: NodeId, a: NodeId)
    requires Inv(st) && Relay(st, a) && a != b
    ensures Reaches(st, b, a) ==> !Closer(st, b, st.nodes[a])
  {
    if Reaches(st, b, a) {
      var p: seq<NodeId> :| |p| >= 1 && Path(st, p) && p[0] == b && p[|p| - 1] == a;
      PathDescends(st, p);
      assert NextHop(st, p[0], p[1]);
    }
  }

  /** A step closes a loop exactly when it is a lasting revival by a neighbour that already leads back. */
  lemma StepLoopsExactly(st: State, act: Action)
    requires Inv(st) && Enabled(st, act) && Windowed(st)
    ensures LoopFree(Apply(st, act)) <==> !Closes(st, act)
  {
    StepKeepsOrderExactly(st, act);
    if Strands(st, act) {
      OrderImpliesLoopFree(st);
      StrandsDisorders(st, act);
      LoopsThroughHop(st, Apply(st, act), act.a);
    } else {
      OrderImpliesLoopFree(Apply(st, act));
      if Persists(st, act) {
        UpstreamIsNotCloser(st, act.msg.from, act.a);
      }
    }
  }

  /** A step gives some router a next hop that already leads back to it. */
  ghost predicate TurnsBack(st: State, act: Action)
    requires Enabled(st, act)
  {
    exists a, b :: NextHop(Apply(st, act), a, b) && Reaches(st, b, a)
  }

  lemma NoLoopAt(st: State, a: NodeId, b: NodeId)
    requires NextHop(st, a, b)
    ensures LoopFree(st) ==> !Reaches(st, b, a)
  {
    if Reaches(st, b, a) {
      var p: seq<NodeId> :| |p| >= 1 && Path(st, p) && p[0] == b && p[|p| - 1] == a;
      assert Path(st, [a] + p);
    }
  }

  /** Whatever the state, and however it came about: a step closes a loop exactly when it turns some router back. */
  lemma StepTurnsBackExactly(st: State, act: Action)
    requires Enabled(st, act) && LoopFree(st)
    ensures LoopFree(Apply(st, act)) <==> !TurnsBack(st, act)
  {
    var st1 := Apply(st, act);
    var a := Mover(st, act);
    OnlyMover(st, act);
    LoopsThroughHop(st, st1, a);
    forall c, b | c != a && NextHop(st1, c, b) ensures !Reaches(st, b, c) {
      NoLoopAt(st, c, b);
    }
  }

  /** The router whose next hop a step can change; any other if there is none. */
  function Mover(st: State, act: Action): NodeId {
    match act
    case Originate(_) => 0
    case IncreaseSeqno => 0
    case Lose(_) => 0
    case AnnounceInstalled(a, _, _, _) => a
    case Receive(a, _, _, _, _, _) => a
    case ChangeCost(a, _, _, _, _) => a
    case Expire(a, _, _) => a
    case RetractNeighbour(a, _, _) => a
    case Flush(a, _, _) => a
  }

  lemma OnlyMover(st: State, act: Action)
    requires Enabled(st, act)
    ensures SameHopsBut(st, Apply(st, act), Mover(st, act))
  {
    hide Received, Recosted, Expired, NeighbourRetracted, Flushed;
  }

  // ---------------------------------------------------------------- runs

  /** The state that a sequence of steps ends in. */
  ghost function Run(st: State, acts: seq<Action>): State
    requires Possible(st, acts)
    decreases |acts|, 1
  {
    if acts == [] then st else Apply(Run(st, acts[..|acts| - 1]), acts[|acts| - 1])
  }

  /** Each step is enabled in the state it is taken in. */
  ghost predicate Possible(st: State, acts: seq<Action>)
    decreases |acts|, 0
  {
    acts == [] ||
    (Possible(st, acts[..|acts| - 1]) && Enabled(Run(st, acts[..|acts| - 1]), acts[|acts| - 1]))
  }

  /** In addition, the sequence numbers stay in a window. */
  ghost predicate Legal(st: State, acts: seq<Action>)
    decreases |acts|
  {
    Possible(st, acts) &&
    (acts == [] || (Legal(st, acts[..|acts| - 1]) && Windowed(Run(st, acts[..|acts| - 1]))))
  }

  /** No step of the run stores an unfeasible update over an installed row that is retracted. */
  ghost predicate NeverRevives(st: State, acts: seq<Action>)
    requires Legal(st, acts)
    decreases |acts|
  {
    acts == [] ||
    (NeverRevives(st, acts[..|acts| - 1]) && !Revival(Run(st, acts[..|acts| - 1]), acts[|acts| - 1]))
  }

  lemma {:induction false} RunKeeps(st: State, acts: seq<Action>)
    requires Initial(st) && Legal(st, acts) && NeverRevives(st, acts)
    ensures Inv(Run(st, acts))
    decreases |acts|
  {
    if acts != [] {
      RunKeeps(st, acts[..|acts| - 1]);
      StepKeeps(Run(st, acts[..|acts| - 1]), acts[|acts| - 1]);
    }
  }

  /** Under any loss, duplication and reordering, the next hops never form a loop. */
  lemma NeverLoops(st: State, acts: seq<Action>)
    requires Initial(st) && Legal(st, acts) && NeverRevives(st, acts)
    ensures LoopFree(Run(st, acts))
  {
    RunKeeps(st, acts);
    OrderImpliesLoopFree(Run(st, acts));
  }

  ghost predicate NeverStrands(st: State, acts: seq<Action>)
    requires Legal(st, acts)
    decreases |acts|
  {
    acts == [] ||
    (NeverStrands(st, acts[..|acts| - 1]) && !Strands(Run(st, acts[..|acts| - 1]), acts[|acts| - 1]))
  }

  ghost predicate AlwaysOrdered(st: State, acts: seq<Action>)
    requires Legal(st, acts)
    decreases |acts|
  {
    Ordered(Run(st, acts)) && (acts == [] || AlwaysOrdered(st, acts[..|acts| - 1]))
  }

  /** The distance improves along every next hop, in every state of a run, exactly when no step of the run
      strands a router. */
  lemma {:induction false} OrderedExactly(st: State, acts: seq<Action>)
    requires Initial(st) && Legal(st, acts)
    ensures AlwaysOrdered(st, acts) <==> NeverStrands(st, acts)
    ensures NeverStrands(st, acts) ==> Inv(Run(st, acts))
    decreases |acts|
  {
    if acts != [] {
      var before := acts[..|acts| - 1];
      OrderedExactly(st, before);
      if NeverStrands(st, before) {
        StepKeepsOrderExactly(Run(st, before), acts[|acts| - 1]);
      }
    }
  }

  /** While no step of a run has stranded a router there is no loop, and the next step closes one exactly when it is a
      lasting revival by a neighbour that already leads back. */
  lemma RunLoopsExactly(st: State, acts: seq<Action>)
    requires Initial(st) && Legal(st, acts) && acts != [] && NeverStrands(st, acts[..|acts| - 1])
    ensures LoopFree(Run(st, acts[..|acts| - 1]))
    ensures LoopFree(Run(st, acts)) <==> !Closes(Run(st, acts[..|acts| - 1]), acts[|acts| - 1])
  {
    var before := acts[..|acts| - 1];
    OrderedExactly(st, before);
    OrderImpliesLoopFree(Run(st, before));
    StepLoopsExactly(Run(st, before), acts[|acts| - 1]);
  }

  ghost predicate AlwaysLoopFree(st: State, acts: seq<Action>)
    requires Possible(st, acts)
    decreases |acts|
  {
    LoopFree(Run(st, acts)) && (acts == [] || AlwaysLoopFree(st, acts[..|acts| - 1]))
  }

  ghost predicate NeverTurnsBack(st: State, acts: seq<Action>)
    requires Possible(st, acts)
    decreases |acts|
  {
    acts == [] ||
    (NeverTurnsBack(st, acts[..|acts| - 1]) && !TurnsBack(Run(st, acts[..|acts| - 1]), acts[|acts| - 1]))
  }

  /** Of any run, stranded routers and sequence numbers out of their window included: there is never a loop exactly if
      no step gives a router a next hop that already leads back to it. */
  lemma {:induction false} RunTurnsBackExactly(st: State, acts: seq<Action>)
    requires Initial(st) && Possible(st, acts)
    ensures AlwaysLoopFree(st, acts) <==> NeverTurnsBack(st, acts)
    decreases |acts|
  {
    if acts == [] {
      NoHopsAtFirst(st);
    } else {
      var before := acts[..|acts| - 1];
      RunTurnsBackExactly(st, before);
      if LoopFree(Run(st, before)) {
        StepTurnsBackExactly(Run(st, before), acts[|acts| - 1]);
      }
      LoopFreeAtLast(st, before);
    }
  }

  lemma LoopFreeAtLast(st: State, acts: seq<Action>)
    requires Possible(st, acts)
    ensures AlwaysLoopFree(st, acts) ==> LoopFree(Run(st, acts))
  {
  }

  lemma NoHopsAtFirst(st: State)
    requires Initial(st)
    ensures LoopFree(st)
  {
    forall p: seq<NodeId> | |p| >= 2 ensures !Path(st, p) {
      assert !NextHop(st, p[0], p[1]);
    }
  }
}
