/**
  The root search of the planner: a queue-driven breadth-first traversal that
  follows active reciprocal neighbours, and its disjunction over a list of roots.
 */
module Search {
  import opened Graph

  /** The ids of the nodes of all. */
  ghost function Ids(all: seq<Node>): set<int> {
    set n | n in all :: n.id
  }

  /** The ids listed in done, as a set. */
  ghost function DoneIds(done: seq<int>): set<int> {
    set d | d in done
  }

  /** The number of queue entries whose node was already expanded (the queue may hold a node twice). */
  ghost function Stale(toDo: seq<Node>, done: seq<int>): nat {
    if toDo == [] then 0 else (if toDo[0].id in done then 1 else 0) + Stale(toDo[1..], done)
  }

  lemma {:induction false} StaleAppend(a: seq<Node>, b: seq<Node>, done: seq<int>)
    ensures Stale(a + b, done) == Stale(a, done) + Stale(b, done)
  {
    if a == [] {
      assert a + b == b;
    } else {
      assert (a + b)[0] == a[0];
      assert (a + b)[1..] == a[1..] + b;
      StaleAppend(a[1..], b, done);
    }
  }

  lemma {:induction false} StaleSameIds(t: seq<Node>, d1: seq<int>, d2: seq<int>)
    requires forall x :: x in d1 <==> x in d2
    ensures Stale(t, d1) == Stale(t, d2)
  {
    if t != [] {
      StaleSameIds(t[1..], d1, d2);
    }
  }

  lemma {:induction false} StaleFresh(t: seq<Node>, done: seq<int>)
    requires forall p :: p in t ==> p.id !in done
    ensures Stale(t, done) == 0
  {
    if t != [] {
      assert t[0] in t;
      StaleFresh(t[1..], done);
    }
  }

  /** Every step out of c leads to an expanded node or to a queued one. */
  ghost predicate Closed(all: seq<Node>, c: Node, done: seq<int>, toDo: seq<Node>) {
    forall n :: Link(all, c, n) ==> n.id in done || n in toDo
  }

  /** Once the queue is empty, every node of a walk from node lies among the expanded ones. */
  lemma {:induction false} WalkStaysDone(all: seq<Node>, node: Node, done: seq<int>, w: seq<Node>, k: nat)
    requires IsWalk(all, w) && w[0] == node && k < |w|
    requires node.id in done && Closed(all, node, done, [])
    requires forall c :: c in all && c.id in done ==> Closed(all, c, done, [])
    ensures w[k].id in done
  {
    if k > 0 {
      WalkStaysDone(all, node, done, w, k - 1);
      assert Link(all, w[k - 1], w[k]);
      if k - 1 > 0 {
        WalkTail(all, w, k - 1);
      }
    }
  }

  lemma NoWalkOut(all: seq<Node>, node: Node, done: seq<int>, rootId: int)
    requires rootId !in done
    requires node.id in done && Closed(all, node, done, [])
    requires forall c :: c in all && c.id in done ==> Closed(all, c, done, [])
    ensures !Connected(all, node, rootId)
  {
    forall w: seq<Node> | IsWalk(all, w) && w[0] == node
      ensures w[|w| - 1].id != rootId
    {
      WalkStaysDone(all, node, done, w, |w| - 1);
    }
  }

  /** Every queued node is a node of all (or the start), is not the root, and is reachable from the start. */
  ghost predicate QueueOk(all: seq<Node>, node: Node, rootId: int, toDo: seq<Node>) {
    forall q :: q in toDo ==> (q in all || q == node) && q.id != rootId && Reaches(all, node, q)
  }

  /** Every expanded node whose id is not skip has all its steps accounted for. */
  ghost predicate ExploredBut(all: seq<Node>, node: Node, done: seq<int>, toDo: seq<Node>, skip: int) {
    && (node.id in done && node.id != skip ==> Closed(all, node, done, toDo))
    && (forall c :: c in all && c.id in done && c.id != skip ==> Closed(all, c, done, toDo))
  }

  /** Every expanded node has all its steps accounted for. */
  ghost predicate Explored(all: seq<Node>, node: Node, done: seq<int>, toDo: seq<Node>) {
    && (node.id in done ==> Closed(all, node, done, toDo))
    && (forall c :: c in all && c.id in done ==> Closed(all, c, done, toDo))
  }

  lemma Dequeue(all: seq<Node>, node: Node, done: seq<int>, toDo: seq<Node>)
    requires toDo != [] && Explored(all, node, done, toDo)
    ensures ExploredBut(all, node, done + [toDo[0].id], toDo[1..], toDo[0].id)
  {
    assert toDo == [toDo[0]] + toDo[1..];
  }

  lemma Enqueue(all: seq<Node>, node: Node, done: seq<int>, toDo: seq<Node>, skip: int, an: Node)
    requires ExploredBut(all, node, done, toDo, skip)
    ensures ExploredBut(all, node, done, toDo + [an], skip)
  {
  }

  /** Once the steps out of cur are accounted for, so are those of every node sharing its id. */
  lemma Expanded(all: seq<Node>, node: Node, done: seq<int>, toDo: seq<Node>, cur: Node)
    requires UniqueIds(all) && (cur in all || cur == node) && cur.id in done
    requires forall c :: c in all && c.id == node.id ==> c.neighbours == node.neighbours
    requires ExploredBut(all, node, done, toDo, cur.id)
    requires var acts := ActiveNeighbours(cur, Neighbours(all, cur));
             forall k :: 0 <= k < |acts| ==> acts[k].id in done || acts[k] in toDo
    ensures Explored(all, node, done, toDo)
  {
    forall c | (c in all || c == node) && c.id == cur.id
      ensures Closed(all, c, done, toDo)
    {
      if cur in all && c in all {
        SameIdSameNode(all, c, cur);
      }
      forall n | Link(all, c, n)
        ensures n.id in done || n in toDo
      {
        LinkIsActiveNeighbour(all, cur, n);
      }
    }
  }

  /** The search measure decreases across one round of the outer loop. */
  /** The search measure decreases across one round of the outer loop. */
  lemma RoundDecreases(ids: set<int>, done0: seq<int>, toDo0: seq<Node>, toDo: seq<Node>)
    requires toDo0 != [] && toDo0[0].id in ids
    requires Stale(toDo, done0 + [toDo0[0].id]) == Stale(toDo0[1..], done0 + [toDo0[0].id])
    ensures var done := done0 + [toDo0[0].id];
            |ids - DoneIds(done)| < |ids - DoneIds(done0)|
            || (|ids - DoneIds(done)| == |ids - DoneIds(done0)| && Stale(toDo, done) < Stale(toDo0, done0))
  {
    var cur := toDo0[0];
    var done := done0 + [cur.id];
    if cur.id in done0 {
      assert DoneIds(done) == DoneIds(done0);
      StaleSameIds(toDo0[1..], done, done0);
    } else {
      assert ids - DoneIds(done0) == (ids - DoneIds(done)) + {cur.id};
    }
  }

  lemma ReachedRoot(all: seq<Node>, node: Node, x: Node, rootId: int)
    requires Reaches(all, node, x) && x.id == rootId
    ensures Connected(all, node, rootId)
  {
  }

  /**
    The state of the `for` loop over acts after its first j rounds: the queue
    invariants hold, no stale entry was added, and each of the first j
    neighbours is done or queued.
   */
  ghost predicate VisitInv(all: seq<Node>, node: Node, rootId: int, cur: Node, acts: seq<Node>,
                           toDoSet: seq<Node>, doneSet: seq<int>, j: int, toDo: seq<Node>)
  {
    && 0 <= j <= |acts|
    && Stale(toDo, doneSet) == Stale(toDoSet, doneSet)
    && QueueOk(all, node, rootId, toDo)
    && ExploredBut(all, node, doneSet, toDo, cur.id)
    && forall k :: 0 <= k < j ==> acts[k].id in doneSet || acts[k] in toDo
  }

  /** One round of the `for` loop keeps VisitInv, unless it met the root. */
  lemma VisitStep(all: seq<Node>, node: Node, rootId: int, cur: Node, acts: seq<Node>,
                  toDoSet: seq<Node>, doneSet: seq<int>, j: int, toDo: seq<Node>)
    requires VisitInv(all, node, rootId, cur, acts, toDoSet, doneSet, j, toDo) && j < |acts|
    requires Reaches(all, node, cur) && Link(all, cur, acts[j]) && acts[j].id != rootId
    ensures var toDo' := if acts[j].id !in doneSet then toDo + [acts[j]] else toDo;
            VisitInv(all, node, rootId, cur, acts, toDoSet, doneSet, j + 1, toDo')
  {
    var an := acts[j];
    if an.id !in doneSet {
      ReachesStep(all, node, cur, an);
      Enqueue(all, node, doneSet, toDo, cur.id, an);
      StaleAppend(toDo, [an], doneSet);
      StaleFresh([an], doneSet);
      var toDo' := toDo + [an];
      forall k | 0 <= k < j + 1
        ensures acts[k].id in doneSet || acts[k] in toDo'
      {
        if k < j && acts[k] in toDo {
          var m :| 0 <= m < |toDo| && toDo[m] == acts[k];
          assert toDo'[m] == acts[k];
        } else if k == j {
          assert toDo'[|toDo|] == an;
        }
      }
    }
  }

  /**
    The `for` loop of hasConnectionToRootNode over the active reciprocal
    neighbours of currentNode: hit when one of them is the root; otherwise
    each neighbour whose id is not yet done is appended to the queue.
   */
  method VisitNeighbours(all: seq<Node>, node: Node, rootNode: Node, currentNode: Node,
                         toDoSet: seq<Node>, doneSet: seq<int>)
    returns (hit: bool, toDo: seq<Node>)
    requires (currentNode in all || currentNode == node) && currentNode.id in doneSet
    requires Reaches(all, node, currentNode)
    requires QueueOk(all, node, rootNode.id, toDoSet)
    requires ExploredBut(all, node, doneSet, toDoSet, currentNode.id)
    ensures hit ==> Connected(all, node, rootNode.id)
    ensures !hit ==> var acts := ActiveNeighbours(currentNode, Neighbours(all, currentNode));
                     VisitInv(all, node, rootNode.id, currentNode, acts, toDoSet, doneSet, |acts|, toDo)
  {
    var neighbours := Neighbours(all, currentNode);
    var activeNeighbours := ActiveNeighbours(currentNode, neighbours);
    toDo := toDoSet;
    var j := 0;
    while j < |activeNeighbours|
      invariant VisitInv(all, node, rootNode.id, currentNode, activeNeighbours, toDoSet, doneSet, j, toDo)
    {
      var an := activeNeighbours[j];
      LinkIsActiveNeighbour(all, currentNode, an);
      if an.id == rootNode.id {
        ReachesStep(all, node, currentNode, an);
        ReachedRoot(all, node, an, rootNode.id);
        return true, toDo;
      }
      VisitStep(all, node, rootNode.id, currentNode, activeNeighbours, toDoSet, doneSet, j, toDo);
      if an.id !in doneSet {
        toDo := toDo + [an];
      }
      j := j + 1;
    }
    hit := false;
  }

  /**
    hasConnectionToRootNode. The start counts as connected when it has the
    root's id; otherwise the queue is expanded, each dequeued node's id is
    recorded in done, and an active reciprocal neighbour is queued unless its
    id is already recorded, so a node may sit in the queue more than once.
    The answer is exactly whether some walk of active reciprocal neighbours
    leads from the start to the root's id.
   */
  method HasConnectionToRootNode(node: Node, rootNode: Node, all: seq<Node>) returns (found: bool)
    requires UniqueIds(all)
    requires forall c :: c in all && c.id == node.id ==> c.neighbours == node.neighbours
    ensures found <==> Connected(all, node, rootNode.id)
  {
    if node.id == rootNode.id {
      assert IsWalk(all, [node]);
      return true;
    }

    var toDoSet := [node];
    var doneSet: seq<int> := [];
    ghost var ids := Ids(all) + {node.id};
    assert IsWalk(all, [node]);

    while |toDoSet| > 0
      invariant QueueOk(all, node, rootNode.id, toDoSet)
      invariant rootNode.id !in doneSet
      invariant DoneIds(doneSet) <= ids
      invariant node.id in doneSet || toDoSet == [node]
      invariant Explored(all, node, doneSet, toDoSet)
      decreases |ids - DoneIds(doneSet)|, Stale(toDoSet, doneSet)
    {
      ghost var toDo0, done0 := toDoSet, doneSet;
      Dequeue(all, node, doneSet, toDoSet);
      var currentNode := toDoSet[0];
      toDoSet := toDoSet[1..];
      doneSet := doneSet + [currentNode.id];
      assert toDo0[0] in toDo0;

      var hit;
      hit, toDoSet := VisitNeighbours(all, node, rootNode, currentNode, toDoSet, doneSet);
      if hit {
        return true;
      }
      Expanded(all, node, doneSet, toDoSet, currentNode);
      RoundDecreases(ids, done0, toDo0, toDoSet);
    }

    NoWalkOut(all, node, doneSet, rootNode.id);
    return false;
  }

  /** hasConnectionToAnyRootNode: the start connects to the id of at least one of the given roots. */
  method HasConnectionToAnyRootNode(node: Node, rootNodes: seq<Node>, all: seq<Node>) returns (r: bool)
    requires UniqueIds(all)
    requires forall c :: c in all && c.id == node.id ==> c.neighbours == node.neighbours
    ensures r <==> exists rn :: rn in rootNodes && Connected(all, node, rn.id)
  {
    var j := 0;
    while j < |rootNodes|
      invariant 0 <= j <= |rootNodes|
      invariant forall rn :: rn in rootNodes[..j] ==> !Connected(all, node, rn.id)
    {
      var c := HasConnectionToRootNode(node, rootNodes[j], all);
      if c {
        return true;
      }
      assert rootNodes[..j + 1] == rootNodes[..j] + [rootNodes[j]];
      j := j + 1;
    }
    assert rootNodes[..j] == rootNodes;
    return false;
  }
}
