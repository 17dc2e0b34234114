/**
  The allocation rules of the planner stated on a snapshot of the node list:
  the point budget, the toggle guard, and the invariant the guard protects
  (every active node hangs on an active root through active reciprocal
  neighbours).
 */
module Rules {
  import opened Graph

  /** The points a player of the given level may spend: 4 + level, never more than 204. */
  function PointCap(level: int): (r: int)
    ensures r <= 204 && r <= 4 + level
    ensures r == 204 || r == 4 + level
  {
    if 4 + level < 204 then 4 + level else 204
  }

  /** The number of active nodes. */
  function CountActive(all: seq<Node>): (r: nat)
    ensures r <= |all|
    ensures r == 0 <==> forall n :: n in all ==> !n.active
  {
    if all == [] then 0 else (if all[0].active then 1 else 0) + CountActive(all[1..])
  }

  /** availablePoints as updateAvailablePoints computes it. */
  function Budget(level: int, all: seq<Node>): int {
    PointCap(level) - CountActive(all)
  }

  /** The node list with the active flag of node i set to b (what setNodeActive writes). */
  function SetActive(all: seq<Node>, i: nat, b: bool): seq<Node>
    requires i < |all|
  {
    all[i := all[i].(active := b)]
  }

  /** Changing one active flag moves the count of active nodes by at most one, in the expected direction. */
  lemma {:induction false} CountActiveSet(all: seq<Node>, i: nat, b: bool)
    requires i < |all|
    ensures CountActive(SetActive(all, i, b)) ==
            CountActive(all) - (if all[i].active then 1 else 0) + (if b then 1 else 0)
  {
    var all' := SetActive(all, i, b);
    if i == 0 {
      assert all'[1..] == all[1..];
    } else {
      assert all'[0] == all[0];
      assert all'[1..] == SetActive(all[1..], i - 1, b);
      CountActiveSet(all[1..], i - 1, b);
    }
  }

  lemma SetActiveKeepsIds(all: seq<Node>, i: nat, b: bool)
    requires i < |all| && UniqueIds(all)
    ensures UniqueIds(SetActive(all, i, b))
  {
    var all' := SetActive(all, i, b);
    assert forall k :: 0 <= k < |all| ==> all'[k].id == all[k].id;
  }

  /** A node other than node i keeps its place when node i's flag changes. */
  lemma StaysIn(all: seq<Node>, i: nat, b: bool, n: Node)
    requires i < |all| && n in all && n != all[i]
    ensures n in SetActive(all, i, b)
  {
    var j :| 0 <= j < |all| && all[j] == n;
    assert SetActive(all, i, b)[j] == n;
  }

  /** The copy isRequiredNode searches: node i marked inactive. */
  function Simulated(all: seq<Node>, i: nat): seq<Node>
    requires i < |all|
  {
    SetActive(all, i, false)
  }

  /** Some root node of all is reachable from a. */
  ghost predicate ReachesSomeRoot(all: seq<Node>, a: Node) {
    exists rn :: rn in RootNodes(all) && Connected(all, a, rn.id)
  }

  /**
    isRequiredNode: node i has active reciprocal neighbours, and once it is
    marked inactive one of them reaches no root.
   */
  ghost predicate Required(all: seq<Node>, i: nat)
    requires i < |all|
  {
    var acts := ActiveNeighbours(all[i], Neighbours(all, all[i]));
    |acts| > 0 && exists a :: a in acts && !ReachesSomeRoot(Simulated(all, i), a)
  }

  /**
    isNodeStateChangable: the node is a root or has an active reciprocal
    neighbour (for both directions of the toggle), and an active node has
    neither a dependent neighbour nor is required.
   */
  ghost predicate Changeable(all: seq<Node>, i: nat)
    requires i < |all|
  {
    var node := all[i];
    var nbs := Neighbours(all, node);
    && (node.rootNode || |ActiveNeighbours(node, nbs)| > 0)
    && (!node.active || !(HasDependentNeighbour(all, node, nbs) || Required(all, i)))
  }

  /** The number of members of acts that still reach a root of all (the filter of isRequiredNode). */
  ghost function CountReaching(all: seq<Node>, acts: seq<Node>): nat {
    if acts == [] then 0
    else CountReaching(all, acts[..|acts| - 1]) + (if ReachesSomeRoot(all, acts[|acts| - 1]) then 1 else 0)
  }

  /** The count falls short of |acts| exactly when some member reaches no root. */
  lemma {:induction false} CountReachingAll(all: seq<Node>, acts: seq<Node>)
    ensures CountReaching(all, acts) <= |acts|
    ensures CountReaching(all, acts) == |acts| <==> forall a :: a in acts ==> ReachesSomeRoot(all, a)
  {
    if acts != [] {
      var front, last := acts[..|acts| - 1], acts[|acts| - 1];
      CountReachingAll(all, front);
      assert forall a :: a in acts <==> a in front || a == last by {
        assert acts == front + [last];
      }
    }
  }

  /** Every node of the copy with an's id has an's neighbour list, as the root search requires. */
  lemma SimulatedNeighbours(all: seq<Node>, i: nat, an: Node)
    requires UniqueIds(all) && i < |all| && an in all
    ensures forall c :: c in Simulated(all, i) && c.id == an.id ==> c.neighbours == an.neighbours
  {
    var sim := Simulated(all, i);
    forall c | c in sim && c.id == an.id
      ensures c.neighbours == an.neighbours
    {
      var j :| 0 <= j < |sim| && sim[j] == c;
      assert all[j].id == an.id;
      SameIdSameNode(all, all[j], an);
    }
  }

  /** onNodeClicked on the node list: the flag flips when the guard holds and, for an activation, a point is left. */
  ghost function AfterClick(all: seq<Node>, i: nat, points: int): seq<Node>
    requires i < |all|
  {
    if Changeable(all, i) && (all[i].active || points >= 1) then SetActive(all, i, !all[i].active) else all
  }

  /**
    A click either changes nothing or flips node i and moves the budget by one
    point (down for an activation, up for a deactivation); a budget that is
    not negative never becomes negative.
   */
  lemma ClickBudget(all: seq<Node>, i: nat, level: int)
    requires i < |all|
    ensures var after := AfterClick(all, i, Budget(level, all));
            && (after[i].active == all[i].active ==> after == all)
            && (after[i].active != all[i].active ==>
                  Budget(level, after) == Budget(level, all) + (if all[i].active then 1 else -1))
            && (Budget(level, all) >= 0 ==> Budget(level, after) >= 0)
  {
    CountActiveSet(all, i, !all[i].active);
  }

  /** c starts a walk that ends on an active root. */
  ghost predicate AnchoredNode(all: seq<Node>, c: Node) {
    exists w: seq<Node> :: IsWalk(all, w) && w[0] == c && w[|w| - 1].rootNode && w[|w| - 1].active
  }

  /** Every active node is connected to an active root through active reciprocal neighbours. */
  ghost predicate Anchored(all: seq<Node>) {
    forall c :: c in all && c.active ==> AnchoredNode(all, c)
  }

  lemma WalkCons(all: seq<Node>, a: Node, w: seq<Node>)
    requires IsWalk(all, w) && Link(all, a, w[0])
    ensures IsWalk(all, [a] + w) && ([a] + w)[0] == a && ([a] + w)[|w|] == w[|w| - 1]
  {
    var w' := [a] + w;
    forall k | 0 <= k < |w'| - 1
      ensures Link(all, w'[k], w'[k + 1])
    {
      if k > 0 {
        assert w'[k] == w[k - 1] && w'[k + 1] == w[k];
      }
    }
  }

  /** A walk whose nodes after the first stay in all' is a walk of all' (only membership differs). */
  lemma WalkTransfer(all: seq<Node>, all': seq<Node>, w: seq<Node>)
    requires IsWalk(all, w)
    requires forall k :: 0 < k < |w| ==> w[k] in all'
    ensures IsWalk(all', w)
  {
    forall k | 0 <= k < |w| - 1
      ensures Link(all', w[k], w[k + 1])
    {
      assert Link(all, w[k], w[k + 1]);
    }
  }

  /** A walk of all stays a walk once node i is switched on: its later nodes are active, hence not node i. */
  lemma AnchorSurvivesActivation(all: seq<Node>, i: nat, c: Node)
    requires i < |all| && !all[i].active && AnchoredNode(all, c)
    ensures AnchoredNode(SetActive(all, i, true), c)
  {
    var all' := SetActive(all, i, true);
    var w: seq<Node> :| IsWalk(all, w) && w[0] == c && w[|w| - 1].rootNode && w[|w| - 1].active;
    forall k | 0 < k < |w|
      ensures w[k] in all'
    {
      WalkTail(all, w, k);
      StaysIn(all, i, true, w[k]);
    }
    WalkTransfer(all, all', w);
  }

  /** An activation the guard accepts keeps every active node anchored. */
  lemma ActivationKeepsAnchored(all: seq<Node>, i: nat)
    requires UniqueIds(all) && i < |all| && Anchored(all)
    requires !all[i].active && (all[i].rootNode || |ActiveNeighbours(all[i], Neighbours(all, all[i]))| > 0)
    ensures Anchored(SetActive(all, i, true))
  {
    var x := all[i];
    var all' := SetActive(all, i, true);
    forall c | c in all && c.active
      ensures AnchoredNode(all', c)
    {
      AnchorSurvivesActivation(all, i, c);
    }
    forall c | c in all' && c.active
      ensures AnchoredNode(all', c)
    {
      var j :| 0 <= j < |all'| && all'[j] == c;
      if j != i {
        assert c == all[j];
      } else if x.rootNode {
        assert IsWalk(all', [c]);
      } else {
        var acts := ActiveNeighbours(x, Neighbours(all, x));
        var nb := acts[0];
        assert nb in acts;
        assert nb in all && nb.active;
        StaysIn(all, i, true, nb);
        var w: seq<Node> :| IsWalk(all', w) && w[0] == nb && w[|w| - 1].rootNode && w[|w| - 1].active;
        assert Link(all', c, nb);
        WalkCons(all', c, w);
      }
    }
  }

  /** Following a walk to a root, rerouted around node i where it passes through it. */
  lemma {:induction false} Reroute(all: seq<Node>, i: nat, w: seq<Node>)
    requires UniqueIds(all) && i < |all| && !Required(all, i)
    requires IsWalk(all, w) && w[0] in all && w[0].active && w[0] != all[i]
    requires w[|w| - 1].rootNode
    ensures AnchoredNode(Simulated(all, i), w[0])
    decreases |w|
  {
    var x := all[i];
    var sim := Simulated(all, i);
    var c := w[0];
    StaysIn(all, i, false, c);
    if |w| == 1 {
      assert IsWalk(sim, [c]);
    } else if w[1] == x {
      // c is an active reciprocal neighbour of x, so it still reaches a root without x.
      assert Link(all, c, x);
      var acts := ActiveNeighbours(x, Neighbours(all, x));
      assert c in acts;
      var rn :| rn in RootNodes(sim) && Connected(sim, c, rn.id);
      var v: seq<Node> :| IsWalk(sim, v) && v[0] == c && v[|v| - 1].id == rn.id;
      var last := v[|v| - 1];
      if |v| > 1 {
        WalkTail(sim, v, |v| - 1);
      }
      SetActiveKeepsIds(all, i, false);
      SameIdSameNode(sim, last, rn);
      assert IsWalk(sim, v) && v[0] == c && last.rootNode && last.active;
    } else {
      assert Link(all, c, w[1]);
      WalkTail(all, w, 1);
      Reroute(all, i, w[1..]);
      var v: seq<Node> :| IsWalk(sim, v) && v[0] == w[1] && v[|v| - 1].rootNode && v[|v| - 1].active;
      StaysIn(all, i, false, w[1]);
      assert Link(sim, c, v[0]);
      WalkCons(sim, c, v);
    }
  }

  /** A deactivation that isRequiredNode allows keeps every other active node anchored. */
  lemma DeactivationKeepsAnchored(all: seq<Node>, i: nat)
    requires UniqueIds(all) && i < |all| && Anchored(all) && !Required(all, i)
    ensures Anchored(Simulated(all, i))
  {
    var sim := Simulated(all, i);
    forall c | c in sim && c.active
      ensures AnchoredNode(sim, c)
    {
      var j :| 0 <= j < |sim| && sim[j] == c;
      assert j != i && c == all[j];
      var w: seq<Node> :| IsWalk(all, w) && w[0] == c && w[|w| - 1].rootNode && w[|w| - 1].active;
      Reroute(all, i, w);
    }
  }

  /** Every click keeps the invariant: accepted toggles preserve it and refused ones change nothing. */
  lemma ClickKeepsAnchored(all: seq<Node>, i: nat, points: int)
    requires UniqueIds(all) && i < |all| && Anchored(all)
    ensures Anchored(AfterClick(all, i, points))
  {
    if Changeable(all, i) && (all[i].active || points >= 1) {
      if all[i].active {
        DeactivationKeepsAnchored(all, i);
      } else {
        ActivationKeepsAnchored(all, i);
      }
    }
  }

  /**
    On an anchored graph without a self-listed node i, isRequiredNode is
    exact: it holds iff marking node i inactive leaves some active node
    without a root.
   */
  lemma RequiredIsOrphaning(all: seq<Node>, i: nat)
    requires UniqueIds(all) && i < |all| && Anchored(all) && all[i].id !in all[i].neighbours
    ensures Required(all, i) <==> !Anchored(Simulated(all, i))
  {
    var x := all[i];
    var sim := Simulated(all, i);
    if Required(all, i) {
      var acts := ActiveNeighbours(x, Neighbours(all, x));
      var a :| a in acts && !ReachesSomeRoot(sim, a);
      StaysIn(all, i, false, a);
      SetActiveKeepsIds(all, i, false);
      forall v: seq<Node> | IsWalk(sim, v) && v[0] == a && v[|v| - 1].rootNode
        ensures v[|v| - 1] in RootNodes(sim) && Connected(sim, a, v[|v| - 1].id)
      {
        if |v| > 1 {
          WalkTail(sim, v, |v| - 1);
        }
      }
    } else {
      DeactivationKeepsAnchored(all, i);
    }
  }

  /** A root node may always be switched on by the guard (the budget is checked later). */
  lemma RootActivationAllowed(all: seq<Node>, i: nat)
    requires i < |all| && all[i].rootNode && !all[i].active
    ensures Changeable(all, i)
  {
  }

  /** A non-root node may be switched on exactly when one of its active neighbours lists it back. */
  lemma NonRootActivation(all: seq<Node>, i: nat)
    requires i < |all| && !all[i].rootNode && !all[i].active
    ensures Changeable(all, i) <==> exists n :: Link(all, all[i], n)
  {
    var acts := ActiveNeighbours(all[i], Neighbours(all, all[i]));
    if |acts| > 0 {
      assert acts[0] in acts;
      LinkIsActiveNeighbour(all, all[i], acts[0]);
    }
    forall n | Link(all, all[i], n)
      ensures |acts| > 0
    {
      LinkIsActiveNeighbour(all, all[i], n);
    }
  }

  /**
    On an anchored graph an active non-root node always has an active
    reciprocal neighbour, so the first conjunct of the guard never blocks
    its deactivation.
   */
  lemma AnchoredNonRootHasLink(all: seq<Node>, i: nat)
    requires i < |all| && Anchored(all) && all[i].active && !all[i].rootNode
    ensures |ActiveNeighbours(all[i], Neighbours(all, all[i]))| > 0
  {
    var x := all[i];
    var w: seq<Node> :| IsWalk(all, w) && w[0] == x && w[|w| - 1].rootNode && w[|w| - 1].active;
    assert Link(all, x, w[1]);
    LinkIsActiveNeighbour(all, x, w[1]);
  }

  /** An active node none of whose declared neighbours is active may be switched off, if the graph is anchored. */
  lemma IsolatedDeactivationAllowed(all: seq<Node>, i: nat)
    requires i < |all| && Anchored(all) && all[i].active
    requires forall n :: n in Neighbours(all, all[i]) ==> !n.active
    ensures Changeable(all, i)
  {
    var x := all[i];
    if !x.rootNode {
      AnchoredNonRootHasLink(all, i);
    }
  }

  /**
    A root with any active non-root declared neighbour can never be switched
    off, even when that neighbour is anchored elsewhere: hasDependentNeighbour
    tests the root flag of the clicked node, not of the neighbour's neighbours.
   */
  lemma ActiveRootWithNonRootNeighbourIsLocked(all: seq<Node>, i: nat, nb: Node)
    requires i < |all| && all[i].rootNode && all[i].active
    requires nb in Neighbours(all, all[i]) && nb.active && !nb.rootNode
    ensures !Changeable(all, i)
  {
  }
}
