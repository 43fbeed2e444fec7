/** Loop freedom fails for babeld as written: a run in which a revived route closes a loop of two routers. */
module RevivalLoop {
  import opened Common
  import opened Feasibility
  import opened Network
  import opened LoopFreedom
  import Seqno

  const O: NodeId := 0
  const A: NodeId := 1
  const B: NodeId := 2

  /** No better row is known, the new metric compares as smoother, and no local route interferes. */
  const TAKE := Oracle(None, None, true, true, false)

  /** `A` is at cost `f` from the origin, `B` at cost `g`, and the link between them costs `g - f`. */
  function Steps(f: U16, g: U16): seq<Action>
    requires 1 <= f < g < INFINITY - 1
  {
    [ Originate(0),
      Receive(B, Update(O, 0, 0), g, 0, false, TAKE),      // B reaches the origin directly,
      AnnounceInstalled(B, true, 256, 0),                  // and says so;
      Receive(A, Update(B, 0, g), 1, 0, false, TAKE),      // A remembers the route through B,
      Receive(A, Update(O, 0, 0), f, 0, false, TAKE),      // prefers its own link,
      AnnounceInstalled(A, true, 256, 0),                  // and announces it;
      Receive(B, Update(A, 0, f), g - f, 0, false, TAKE),  // B now goes through A.
      Flush(A, O, TAKE),                                   // A loses its link: the row through B is unfeasible,
      Expire(A, B, TAKE),                                  // but once it expires it is installed, retracted,
      Receive(A, Update(B, 0, g), 1, 0, false, TAKE) ]     // and the next update of B revives it.
  }

  function Start(): State {
    State([Router(None, map[], None), Router(None, map[], None), Router(None, map[], None)], O, 0, {})
  }

  /** The state after each step of the run. */
  function Stage(f: U16, g: U16, n: nat): State
    requires 1 <= f < g < INFINITY - 1 && n <= 10
  {
    var idle := Router(None, map[], None);
    var viaO := Row(true, 0, 0, f, 0);
    var viaB := Row(true, 0, g, 1, 0);
    var dist0 := Some(Distance(0, INFINITY));
    var distA, distB := Some(Distance(0, f)), Some(Distance(0, g));
    var b1 := Router(if n < 3 then dist0 else distB, map[O := Row(true, 0, 0, g, 0)], Some(O));
    var b2 := Router(distB, map[O := Row(true, 0, 0, g, 0), A := Row(true, 0, f, g - f, 0)], Some(A));
    var nodeB := if n < 2 then idle else if n < 7 then b1 else b2;
    var nodeA :=
      if n < 4 then idle
      else if n == 4 then Router(dist0, map[B := viaB], Some(B))
      else if n < 8 then Router(if n == 5 then dist0 else distA, map[B := viaB, O := viaO], Some(O))
      else if n == 8 then Router(distA, map[B := viaB], None)
      else if n == 9 then Router(distA, map[B := viaB.Retracted(1)], Some(B))
      else Router(distA, map[B := viaB], Some(B));
    var msgs :=
      (if n < 1 then {} else {Update(O, 0, 0)}) +
      (if n < 3 then {} else {Update(B, 0, g)}) +
      (if n < 6 then {} else {Update(A, 0, f)});
    State([idle, nodeA, nodeB], O, 0, msgs)
  }

  ghost predicate Advances(f: U16, g: U16, n: nat)
    requires 1 <= f < g < INFINITY - 1 && n < 10
  {
    Enabled(Stage(f, g, n), Steps(f, g)[n]) && Apply(Stage(f, g, n), Steps(f, g)[n]) == Stage(f, g, n + 1)
  }

  /** The advertisements. */
  lemma Sends(f: U16, g: U16, n: nat)
    requires 1 <= f < g < INFINITY - 1 && n in {0, 2, 5}
    ensures Advances(f, g, n)
  {
    Seqno.CompareInWindow(0, 0);
    var r, next := Apply(Stage(f, g, n), Steps(f, g)[n]), Stage(f, g, n + 1);
    assert r.msgs == next.msgs;
    assert r.nodes == next.nodes;
  }

  /** What B hears: first the origin, then A. */
  lemma HeardByB(f: U16, g: U16, n: nat)
    requires 1 <= f < g < INFINITY - 1 && n in {1, 6}
    ensures Advances(f, g, n)
  {
    Seqno.CompareInWindow(0, 0);
    var r, next := Apply(Stage(f, g, n), Steps(f, g)[n]), Stage(f, g, n + 1);
    assert r.nodes[B].rows == next.nodes[B].rows;
    assert r.nodes == next.nodes;
  }

  /** What A hears while nothing is wrong: first B, then the origin. */
  lemma HeardByA(f: U16, g: U16, n: nat)
    requires 1 <= f < g < INFINITY - 1 && n in {3, 4}
    ensures Advances(f, g, n)
  {
    Seqno.CompareInWindow(0, 0);
    var r, next := Apply(Stage(f, g, n), Steps(f, g)[n]), Stage(f, g, n + 1);
    assert r.nodes[A].rows == next.nodes[A].rows;
    assert r.nodes == next.nodes;
  }

  /** The loss of the link, the expiry, and the revival. */
  lemma LostByA(f: U16, g: U16, n: nat)
    requires 1 <= f < g < INFINITY - 1 && n in {7, 8, 9}
    ensures Advances(f, g, n)
  {
    Seqno.CompareInWindow(0, 0);
    var r, next := Apply(Stage(f, g, n), Steps(f, g)[n]), Stage(f, g, n + 1);
    assert r.nodes[A].rows == next.nodes[A].rows;
    assert r.nodes == next.nodes;
  }

  /** Each step of the run is allowed and leads to the next stage. */
  lemma StageStep(f: U16, g: U16, n: nat)
    requires 1 <= f < g < INFINITY - 1 && n < 10
    ensures Advances(f, g, n) && InWindow(Stage(f, g, n), 0)
  {
    if n in {0, 2, 5} { Sends(f, g, n); }
    else if n in {1, 6} { HeardByB(f, g, n); }
    else if n in {3, 4} { HeardByA(f, g, n); }
    else { LostByA(f, g, n); }
    StageInWindow(f, g, n);
  }

  lemma StageInWindow(f: U16, g: U16, n: nat)
    requires 1 <= f < g < INFINITY - 1 && n <= 10
    ensures InWindow(Stage(f, g, n), 0)
  {
  }

  lemma {:induction false} StageReached(f: U16, g: U16, n: nat)
    requires 1 <= f < g < INFINITY - 1 && n <= 10
    ensures Legal(Start(), Steps(f, g)[..n]) && Run(Start(), Steps(f, g)[..n]) == Stage(f, g, n)
  {
    var acts := Steps(f, g);
    if n == 0 {
      assert acts[..0] == [];
    } else {
      StageReached(f, g, n - 1);
      StageStep(f, g, n - 1);
      assert acts[..n][..n - 1] == acts[..n - 1];
    }
  }

  /** For every unfeasible update that is strictly worse than the receiver's distance, some run revives a
      retracted route with it and closes a loop: the guard of the main theorem cannot be dropped. */
  lemma RevivalLoops(f: U16, g: U16)
    requires 1 <= f < g < INFINITY - 1
    ensures Initial(Start()) && Legal(Start(), Steps(f, g))
    ensures var st := Run(Start(), Steps(f, g));
            NextHop(st, A, B) && NextHop(st, B, A) && !LoopFree(st)
    ensures Legal(Start(), Steps(f, g)[..9]) && Revival(Run(Start(), Steps(f, g)[..9]), Steps(f, g)[9])
  {
    var acts := Steps(f, g);
    StageReached(f, g, 9);
    StageStep(f, g, 9);
    StageReached(f, g, 10);
    assert acts[..10] == acts;
    Seqno.CompareInWindow(0, 0);
    var st := Run(Start(), acts);
    assert Path(st, [A, B, A]) && [A, B, A][0] == [A, B, A][2];
  }
}
