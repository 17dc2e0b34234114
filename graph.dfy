/** Order-keeping selection from a sequence. */
module Seqs {

  /** r can be obtained from s by deleting elements, so r keeps the order of s. */
  ghost predicate Subsequence<T>(r: seq<T>, s: seq<T>)
    decreases |s|
  {
    r == [] || (s != [] && ((r[0] == s[0] && Subsequence(r[1..], s[1..])) || Subsequence(r, s[1..])))
  }
}

/**
  The skill graph: nodes refer to each other by id only, and the neighbour
  queries of the planner are filters over the whole node list.
 */
module Graph {
  import opened Seqs

  /** A node of the skill graph as the engine sees it; layout and SVG handles are not modelled. */
  datatype Node = Node(id: int, nodeType: string, rootNode: bool, active: bool, neighbours: seq<int>)

  predicate UniqueIds(all: seq<Node>) {
    forall j, k :: 0 <= j < k < |all| ==> all[j].id != all[k].id
  }

  lemma SameIdSameNode(all: seq<Node>, a: Node, b: Node)
    requires UniqueIds(all) && a in all && b in all && a.id == b.id
    ensures a == b
  {
    var j :| 0 <= j < |all| && all[j] == a;
    var k :| 0 <= k < |all| && all[k] == b;
    if j < k || k < j {
      assert false;
    }
  }

  /** getNeighbours: the nodes of all whose id the node declares, in the order of all. */
  function Neighbours(all: seq<Node>, node: Node): (r: seq<Node>)
    ensures forall n :: n in r <==> n in all && n.id in node.neighbours
    ensures Subsequence(r, all)
  {
    if all == [] then []
    else if all[0].id in node.neighbours then [all[0]] + Neighbours(all[1..], node)
    else Neighbours(all[1..], node)
  }

  /** getActiveNeighbours: the members of nbs that are active and list the node back. */
  function ActiveNeighbours(node: Node, nbs: seq<Node>): (r: seq<Node>)
    ensures forall n :: n in r <==> n in nbs && n.active && node.id in n.neighbours
    ensures Subsequence(r, nbs)
  {
    if nbs == [] then []
    else if nbs[0].active && node.id in nbs[0].neighbours then [nbs[0]] + ActiveNeighbours(node, nbs[1..])
    else ActiveNeighbours(node, nbs[1..])
  }

  /** The root nodes of all, in the order of all. */
  function RootNodes(all: seq<Node>): (r: seq<Node>)
    ensures forall n :: n in r <==> n in all && n.rootNode
    ensures Subsequence(r, all)
  {
    if all == [] then []
    else if all[0].rootNode then [all[0]] + RootNodes(all[1..])
    else RootNodes(all[1..])
  }

  /**
    hasDependentNeighbour: some active, non-root member of nbs has no other
    active node among its declared neighbours. The test on the other nodes
    looks at the root flag of `node` itself, so when `node` is a root every
    active non-root member of nbs counts as dependent; reciprocity is not checked.
   */
  function HasDependentNeighbour(all: seq<Node>, node: Node, nbs: seq<Node>): (r: bool)
    ensures r <==> exists nb :: nb in nbs && nb.active && !nb.rootNode &&
                     (node.rootNode || forall m :: m in all && m.id in nb.neighbours && m.active ==> m.id == node.id)
    ensures node.rootNode ==> (r <==> exists nb :: nb in nbs && nb.active && !nb.rootNode)
  {
    exists nb :: nb in nbs && nb.active &&
      !(exists m :: m in Neighbours(all, nb) && m.id != node.id && m.active && !node.rootNode) &&
      !nb.rootNode
  }

  /** One step of the root search: from c to an active node of all that c lists and that lists c back. */
  ghost predicate Link(all: seq<Node>, c: Node, n: Node) {
    n in all && n.id in c.neighbours && n.active && c.id in n.neighbours
  }

  /** The steps the search may take from c are exactly its active reciprocal neighbours. */
  lemma LinkIsActiveNeighbour(all: seq<Node>, c: Node, n: Node)
    ensures Link(all, c, n) <==> n in ActiveNeighbours(c, Neighbours(all, c))
  {
  }

  /** A non-empty sequence of nodes, each linked to the next. */
  ghost predicate IsWalk(all: seq<Node>, w: seq<Node>) {
    |w| > 0 && forall k :: 0 <= k < |w| - 1 ==> Link(all, w[k], w[k + 1])
  }

  /** Some walk leads from start to x. */
  ghost predicate Reaches(all: seq<Node>, start: Node, x: Node) {
    exists w: seq<Node> :: IsWalk(all, w) && w[0] == start && w[|w| - 1] == x
  }

  /** Some walk leads from start to a node whose id is rootId (the start itself counts). */
  ghost predicate Connected(all: seq<Node>, start: Node, rootId: int) {
    exists w: seq<Node> :: IsWalk(all, w) && w[0] == start && w[|w| - 1].id == rootId
  }

  lemma ReachesStep(all: seq<Node>, start: Node, x: Node, y: Node)
    requires Reaches(all, start, x) && Link(all, x, y)
    ensures Reaches(all, start, y)
  {
    var w :| IsWalk(all, w) && w[0] == start && w[|w| - 1] == x;
    var w' := w + [y];
    forall k | 0 <= k < |w'| - 1
      ensures Link(all, w'[k], w'[k + 1])
    {
      if k < |w| - 1 {
        assert w'[k] == w[k] && w'[k + 1] == w[k + 1];
      }
    }
    assert IsWalk(all, w') && w'[0] == start && w'[|w'| - 1] == y;
  }

  /** Every node after the first on a walk is an active node of all. */
  lemma WalkTail(all: seq<Node>, w: seq<Node>, k: int)
    requires IsWalk(all, w) && 0 < k < |w|
    ensures w[k] in all && w[k].active
  {
    assert Link(all, w[k - 1], w[k]);
  }
}
