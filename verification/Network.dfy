/** N routers exchanging updates for one source: what each router keeps, and every step it can take.
    A step is the body of one babeld call; the choices that babeld leaves to time, to randomness and to
    other destinations are parameters of the step. */
module Network {
  import opened Common
  import opened Feasibility
  import RouteMetric

  type NodeId = nat

  /** A route through one neighbour. `mine` says that the row's source is the modelled source, rather
      than the neighbour's own id, which appears in the row once the neighbour retracts under it. */
  datatype Row = Row(mine: bool, seqno: int, refmetric: U16, cost: U16, add: U16) {
    function Metric(): U16 { RouteMetric.Metric(refmetric, cost, add) }

    /** retract_route */
    function Retracted(seqno: int): Row { Row(mine, seqno, INFINITY, INFINITY, 0) }
  }

  /** `dist` is the source table entry, `installed` the neighbour whose row is installed. */
  datatype Router = Router(dist: Option<Distance>, rows: map<NodeId, Row>, installed: Option<NodeId>)

  /** `Update` carries the id of the modelled source. A router that has no route announces a retraction
      under its own id. */
  datatype Message = Update(from: NodeId, seqno: int, metric: U16) | OwnRetraction(from: NodeId)

  /** `msgs` holds what was sent and may still be delivered. Delivery does not remove a message, so any
      message can arrive again and in any order; `Lose` removes it. */
  datatype State = State(nodes: seq<Router>, origin: NodeId, seqno: int, msgs: set<Message>)

  /** The choices of one call: which feasible row find_best_route returns under randomised smoothing (it
      is consulted by route_changed, then by route_lost), the two comparisons of smoothed metrics, and
      whether a local route has priority. */
  datatype Oracle = Oracle(best: Option<NodeId>, lostBest: Option<NodeId>, smoother: bool, smoother2: bool,
                           xroute: bool)

  // ---------------------------------------------------------------- one router

  /** route_feasible. The retraction of a foreign source is always feasible. */
  predicate RowFeasible(rt: Router, row: Row) {
    !row.mine || row.refmetric == INFINITY ||
    (rt.dist.Some? && Feasible(rt.dist.value, row.seqno, row.refmetric))
  }

  /** consider_route, with switch_routes. */
  function Consider(rt: Router, b: NodeId, smoother: bool, xroute: bool): Router {
    if b !in rt.rows || rt.installed == Some(b) || !RowFeasible(rt, rt.rows[b]) || xroute then rt
    else match rt.installed
      case None => rt.(installed := Some(b))
      case Some(c) =>
        if c !in rt.rows || rt.rows[b].Metric() >= INFINITY then rt
        else if rt.rows[c].Metric() >= INFINITY then rt.(installed := Some(b))
        else if rt.rows[c].Metric() >= rt.rows[b].Metric() && smoother then rt.(installed := Some(b))
        else rt
  }

  /** The rows that find_best_route may return. */
  predicate Candidate(rt: Router, best: Option<NodeId>) {
    best.Some? && best.value in rt.rows && RowFeasible(rt, rt.rows[best.value])
  }

  /** route_lost */
  function RouteLost(rt: Router, o: Oracle): Router {
    if Candidate(rt, o.lostBest) then Consider(rt, o.lostBest.value, o.smoother2, o.xroute) else rt
  }

  /** route_changed */
  function RouteChanged(rt: Router, b: NodeId, o: Oracle): Router
    requires b in rt.rows
  {
    var rt1 :=
      if rt.installed == Some(b) && Candidate(rt, o.best) && rt.rows[o.best.value].Metric() < rt.rows[b].Metric()
      then Consider(rt, o.best.value, o.smoother, o.xroute) else rt;
    if rt1.installed == Some(b) then rt1 else Consider(rt1, b, o.smoother2, o.xroute)
  }

  /** find_source with `create`: an entry at infinity. */
  function WithSource(rt: Router, seqno: int): Router {
    if rt.dist.None? then rt.(dist := Some(Distance(seqno, INFINITY))) else rt
  }

  /** update_route, for an update of the modelled source. */
  function UpdateRoute(rt: Router, b: NodeId, seqno: int, refmetric: U16, cost: U16, add: U16,
                       keepUnfeasible: bool, o: Oracle): Router
  {
    var rt0 := WithSource(rt, seqno);
    var feasible := Feasible(rt0.dist.value, seqno, refmetric);
    var row := Row(true, seqno, refmetric, cost, add);
    if b in rt0.rows then
      var lost := !feasible && rt0.installed == Some(b) && !rt0.rows[b].mine;
      var rt1 := if lost then rt0.(installed := None) else rt0;
      var rt2 := RouteChanged(rt1.(rows := rt1.rows[b := row]), b, o);
      if lost then RouteLost(rt2, o) else rt2
    else if refmetric == INFINITY || (!feasible && !keepUnfeasible) then rt0
    else Consider(rt0.(rows := rt0.rows[b := row]), b, o.smoother, o.xroute)
  }

  /** update_route, for a retraction under the sender's own id: the row changes source. */
  function UpdateForeign(rt: Router, b: NodeId, cost: U16, add: U16, o: Oracle): Router {
    if b !in rt.rows then rt
    else RouteChanged(rt.(rows := rt.rows[b := Row(false, 0, INFINITY, cost, add)]), b, o)
  }

  /** update_route_metric for a row that has not expired: the link cost or the filter changed. */
  function Recosted(rt: Router, b: NodeId, cost: U16, add: U16, o: Oracle): Router
    requires b in rt.rows
  {
    RouteChanged(rt.(rows := rt.rows[b := rt.rows[b].(cost := cost, add := add)]), b, o)
  }

  /** update_route_metric for a row that has expired. */
  function Expired(rt: Router, b: NodeId, o: Oracle): Router
    requires b in rt.rows
  {
    var row := rt.rows[b];
    if row.refmetric == INFINITY then rt
    else
      var seqno := if rt.dist.Some? then rt.dist.value.seqno + 1 else 0;
      var rt1 := rt.(rows := rt.rows[b := row.Retracted(seqno)]);
      if row.Metric() < INFINITY then RouteChanged(rt1, b, o) else rt1
  }

  /** retract_neighbour_routes */
  function NeighbourRetracted(rt: Router, b: NodeId, o: Oracle): Router
    requires b in rt.rows
  {
    var row := rt.rows[b];
    if row.refmetric == INFINITY then rt
    else
      var rt1 := rt.(rows := rt.rows[b := row.Retracted(row.seqno)]);
      if row.Metric() < INFINITY then RouteChanged(rt1, b, o) else rt1
  }

  /** flush_route */
  function Flushed(rt: Router, b: NodeId, o: Oracle): Router
    requires b in rt.rows
  {
    var gone := rt.(rows := rt.rows - {b});
    if rt.installed == Some(b) then RouteLost(gone.(installed := None), o) else gone
  }

  // ---------------------------------------------------------------- sending

  /** The metric that flushupdates announces for an installed row. */
  function AnnouncedMetric(row: Row, interferes: bool, factor: nat): U16 {
    if interferes then row.Metric() else RouteMetric.NonInterfering(factor, row.refmetric, row.cost, row.add)
  }

  /** flushupdates on a router other than the origin; `out` is what the output filter adds, and INFINITY
      drops the update, although update_source has run. */
  function Announce(st: State, a: NodeId, interferes: bool, factor: nat, out: U16): State
    requires a < |st.nodes|
  {
    var rt := st.nodes[a];
    if rt.installed.None? || rt.installed.value !in rt.rows || !rt.rows[rt.installed.value].mine then
      if out >= INFINITY then st else st.(msgs := st.msgs + {OwnRetraction(a)})
    else
      var row := rt.rows[rt.installed.value];
      var metric := AnnouncedMetric(row, interferes, factor);
      var rt1 := if rt.dist.Some? then rt.(dist := Some(Advertised(rt.dist.value, row.seqno, metric))) else rt;
      var st1 := st.(nodes := st.nodes[a := rt1]);
      if out >= INFINITY then st1
      else st1.(msgs := st1.msgs + {Update(a, row.seqno, Min(metric + out, INFINITY))})
  }

  // ---------------------------------------------------------------- steps

  datatype Action =
    | Originate(metric: U16)
    | IncreaseSeqno
    | AnnounceInstalled(a: NodeId, interferes: bool, factor: nat, out: U16)
    | Receive(a: NodeId, msg: Message, cost: U16, add: U16, keepUnfeasible: bool, o: Oracle)
    | Lose(msg: Message)
    | ChangeCost(a: NodeId, b: NodeId, cost: U16, add: U16, o: Oracle)
    | Expire(a: NodeId, b: NodeId, o: Oracle)
    | RetractNeighbour(a: NodeId, b: NodeId, o: Oracle)
    | Flush(a: NodeId, b: NodeId, o: Oracle)

  /** A router other than the origin; the origin rejects every update that carries its own id. */
  predicate Relay(st: State, a: NodeId) { a < |st.nodes| && a != st.origin }

  /** Link costs are at least 1. A router does not receive its own packets. */
  predicate Enabled(st: State, act: Action) {
    match act
    case Originate(_) => true
    case IncreaseSeqno => true
    case AnnounceInstalled(a, _, _, _) => Relay(st, a)
    case Receive(a, msg, cost, _, _, _) => Relay(st, a) && msg in st.msgs && msg.from != a && cost >= 1
    case Lose(_) => true
    case ChangeCost(a, b, cost, _, _) => Relay(st, a) && b in st.nodes[a].rows && cost >= 1
    case Expire(a, b, _) => Relay(st, a) && b in st.nodes[a].rows
    case RetractNeighbour(a, b, _) => Relay(st, a) && b in st.nodes[a].rows
    case Flush(a, b, _) => Relay(st, a) && b in st.nodes[a].rows
  }

  function Put(st: State, a: NodeId, rt: Router): State
    requires a < |st.nodes|
  {
    st.(nodes := st.nodes[a := rt])
  }

  function Received(rt: Router, msg: Message, cost: U16, add: U16, keepUnfeasible: bool, o: Oracle): Router {
    match msg
    case Update(b, s, m) => UpdateRoute(rt, b, s, m, cost, add, keepUnfeasible, o)
    case OwnRetraction(b) => UpdateForeign(rt, b, cost, add, o)
  }

  function Apply(st: State, act: Action): State
    requires Enabled(st, act)
  {
    match act
    case Originate(metric) => st.(msgs := st.msgs + {Update(st.origin, st.seqno, metric)})
    case IncreaseSeqno => st.(seqno := st.seqno + 1)
    case AnnounceInstalled(a, interferes, factor, out) => Announce(st, a, interferes, factor, out)
    case Receive(a, msg, cost, add, keep, o) => Put(st, a, Received(st.nodes[a], msg, cost, add, keep, o))
    case Lose(msg) => st.(msgs := st.msgs - {msg})
    case ChangeCost(a, b, cost, add, o) => Put(st, a, Recosted(st.nodes[a], b, cost, add, o))
    case Expire(a, b, o) => Put(st, a, Expired(st.nodes[a], b, o))
    case RetractNeighbour(a, b, o) => Put(st, a, NeighbourRetracted(st.nodes[a], b, o))
    case Flush(a, b, o) => Put(st, a, Flushed(st.nodes[a], b, o))
  }

  /** The branch where babeld stores an unfeasible update over an installed row that is retracted, although
      its comment (and section 3.5.4 of RFC 6126) would ignore the update. */
  predicate Revives(rt: Router, b: NodeId, seqno: int, refmetric: U16) {
    && refmetric < INFINITY
    && rt.dist.Some? && !Feasible(rt.dist.value, seqno, refmetric)
    && rt.installed == Some(b) && b in rt.rows
    && rt.rows[b].mine && rt.rows[b].refmetric == INFINITY
  }

  predicate Revival(st: State, act: Action)
    requires Enabled(st, act)
  {
    act.Receive? && act.msg.Update? && Revives(st.nodes[act.a], act.msg.from, act.msg.seqno, act.msg.metric)
  }

  /** All sequence numbers that may still be compared lie in a window of 2^15. */
  predicate InWindow(st: State, lo: int) {
    && (forall a | 0 <= a < |st.nodes| :: st.nodes[a].dist.Some? ==> lo <= st.nodes[a].dist.value.seqno < lo + 0x8000)
    && (forall a, b | 0 <= a < |st.nodes| && b in st.nodes[a].rows ::
          st.nodes[a].rows[b].refmetric < INFINITY ==> lo <= st.nodes[a].rows[b].seqno < lo + 0x8000)
    && (forall msg | msg in st.msgs && msg.Update? :: lo <= msg.seqno < lo + 0x8000)
  }

  ghost predicate Windowed(st: State) { exists lo :: InWindow(st, lo) }

  predicate Initial(st: State) {
    && st.origin < |st.nodes|
    && st.msgs == {}
    && forall a | 0 <= a < |st.nodes| :: st.nodes[a] == Router(None, map[], None)
  }

  // ---------------------------------------------------------------- next hops

  /** Router `a` forwards through `b`: an installed row that is not retracted. */
  predicate NextHop(st: State, a: NodeId, b: NodeId) {
    && a < |st.nodes|
    && st.nodes[a].installed == Some(b)
    && b in st.nodes[a].rows
    && st.nodes[a].rows[b].refmetric < INFINITY
  }

  ghost predicate Path(st: State, p: seq<NodeId>) {
    forall i | 0 <= i < |p| - 1 :: NextHop(st, p[i], p[i + 1])
  }

  /** No packet returns to a router that forwarded it. */
  ghost predicate LoopFree(st: State) {
    forall p: seq<NodeId> | |p| >= 2 && Path(st, p) :: p[0] != p[|p| - 1]
  }
}
