/**
  The planner's state and its operations: the node list toggled in place,
  the player level and the point budget derived from them.
 */
module Engine {
  import opened Graph
  import opened Search
  import opened Rules
  import opened Effects

  class Planner {
    /** The catalogue of node types, by type name. */
    const nodeTypes: map<string, NodeType>
    /** The skill graph; a toggle rewrites one node in place. */
    const nodes: array<Node>
    var playerLevel: int
    var availablePoints: int

    /** Node ids are unique, so a node is found by its id. */
    ghost predicate WellFormed()
      reads nodes
    {
      UniqueIds(nodes[..])
    }

    /** Between events the budget is up to date. */
    ghost predicate Valid()
      reads this, nodes
    {
      WellFormed() && availablePoints == Budget(playerLevel, nodes[..])
    }

    /** Module load followed by the DOMContentLoaded handler: level 1, budget computed from the loaded nodes. */
    constructor (types: map<string, NodeType>, initial: seq<Node>)
      requires UniqueIds(initial)
      ensures Valid() && fresh(nodes)
      ensures nodeTypes == types && nodes[..] == initial
      ensures playerLevel == 1 && availablePoints == PointCap(1) - CountActive(initial)
    {
      nodeTypes := types;
      nodes := new Node[|initial|](k requires 0 <= k < |initial| => initial[k]);
      playerLevel := 1;
      availablePoints := 0;
      new;
      UpdateAvailablePoints();
    }

    /** updateAvailablePoints: the cap for the level minus the number of active nodes. */
    method UpdateAvailablePoints()
      modifies this
      ensures availablePoints == Budget(playerLevel, nodes[..])
      ensures playerLevel == old(playerLevel)
    {
      availablePoints := PointCap(playerLevel) - CountActive(nodes[..]);
    }

    /** The player-level input handler: store the level and recompute the budget. */
    method SetPlayerLevel(level: int)
      modifies this
      ensures playerLevel == level
      ensures availablePoints == PointCap(level) - CountActive(nodes[..])
    {
      playerLevel := level;
      UpdateAvailablePoints();
    }

    /** setNodeActive: an activation is refused when no point is left; otherwise the flag is written. */
    method SetNodeActive(i: nat, active: bool)
      requires i < nodes.Length
      modifies nodes
      ensures active && availablePoints < 1 ==> nodes[..] == old(nodes[..])
      ensures !(active && availablePoints < 1) ==> nodes[..] == SetActive(old(nodes[..]), i, active)
    {
      if active {
        if availablePoints < 1 {
          return;
        }
      }
      nodes[i] := nodes[i].(active := active);
    }

    /**
      isRequiredNode: on a copy of the nodes with node i marked inactive, count
      the active reciprocal neighbours of node i that still reach some root;
      the node is required when that count falls short.
     */
    method IsRequiredNode(i: nat) returns (r: bool)
      requires WellFormed() && i < nodes.Length
      ensures r == Required(nodes[..], i)
    {
      var nodesCopy := nodes[..];
      var simulatedNode := nodesCopy[i];
      var neighbours := Neighbours(nodesCopy, simulatedNode);
      var activeNeighbours := ActiveNeighbours(simulatedNode, neighbours);
      if |activeNeighbours| > 0 {
        nodesCopy := nodesCopy[i := simulatedNode.(active := false)];
        assert nodesCopy == Simulated(nodes[..], i);
        SetActiveKeepsIds(nodes[..], i, false);
        var rootNodes := RootNodes(nodesCopy);
        forall an | an in activeNeighbours
          ensures forall c :: c in nodesCopy && c.id == an.id ==> c.neighbours == an.neighbours
        {
          SimulatedNeighbours(nodes[..], i, an);
        }
        var connected := CountConnected(activeNeighbours, rootNodes, nodesCopy);
        CountReachingAll(nodesCopy, activeNeighbours);
        return connected != |activeNeighbours|;
      }
      return false;
    }

    /** The filter-and-count of isRequiredNode: how many of acts reach one of the roots. */
    static method CountConnected(acts: seq<Node>, rootNodes: seq<Node>, all: seq<Node>) returns (connected: nat)
      requires UniqueIds(all) && rootNodes == RootNodes(all)
      requires forall an :: an in acts ==> forall c :: c in all && c.id == an.id ==> c.neighbours == an.neighbours
      ensures connected == CountReaching(all, acts)
    {
      connected := 0;
      var j := 0;
      while j < |acts|
        invariant 0 <= j <= |acts|
        invariant connected == CountReaching(all, acts[..j])
      {
        assert acts[j] in acts;
        var reaches := HasConnectionToAnyRootNode(acts[j], rootNodes, all);
        if reaches {
          connected := connected + 1;
        }
        assert acts[..j + 1][..j] == acts[..j];
        j := j + 1;
      }
      assert acts[..j] == acts;
    }

    /**
      isNodeStateChangable, evaluated left to right with short circuits as the
      source's boolean expression is.
     */
    method IsNodeStateChangable(i: nat) returns (r: bool)
      requires WellFormed() && i < nodes.Length
      ensures r == Changeable(nodes[..], i)
    {
      var node := nodes[i];
      var neighbours := Neighbours(nodes[..], node);
      if !(node.rootNode || |ActiveNeighbours(node, neighbours)| > 0) {
        return false;
      }
      if !node.active {
        return true;
      }
      if HasDependentNeighbour(nodes[..], node, neighbours) {
        return false;
      }
      var required := IsRequiredNode(i);
      return !required;
    }

    /**
      onNodeClicked: when the guard allows it, toggle node i and recompute the
      budget. The new node list is the click applied to the old one, the budget
      moves by one point with each toggle, and an anchored graph stays anchored.
     */
    method OnNodeClicked(i: nat)
      requires Valid() && i < nodes.Length
      modifies this, nodes
      ensures Valid() && playerLevel == old(playerLevel)
      ensures nodes[..] == AfterClick(old(nodes[..]), i, old(availablePoints))
      ensures nodes[i].active == old(nodes[i].active) ==> availablePoints == old(availablePoints)
      ensures nodes[i].active != old(nodes[i].active) ==>
                availablePoints == old(availablePoints) + (if nodes[i].active then -1 else 1)
      ensures old(availablePoints) >= 0 ==> availablePoints >= 0
      ensures Anchored(old(nodes[..])) ==> Anchored(nodes[..])
    {
      ghost var before := nodes[..];
      var changeable := IsNodeStateChangable(i);
      if changeable {
        SetNodeActive(i, !nodes[i].active);
        SetActiveKeepsIds(before, i, !before[i].active);
        UpdateAvailablePoints();
      }
      ClickBudget(before, i, playerLevel);
      if Anchored(before) {
        ClickKeepsAnchored(before, i, old(availablePoints));
      }
    }

    /** resetAll: switch every node off, then recompute the budget. */
    method ResetAll()
      requires Valid()
      modifies this, nodes
      ensures Valid() && playerLevel == old(playerLevel)
      ensures forall k :: 0 <= k < nodes.Length ==> nodes[k] == old(nodes[k]).(active := false)
      ensures availablePoints == PointCap(playerLevel)
      ensures Anchored(nodes[..])
    {
      var k := 0;
      while k < nodes.Length
        invariant 0 <= k <= nodes.Length
        invariant forall m :: 0 <= m < k ==> nodes[m] == old(nodes[m]).(active := false)
        invariant forall m :: k <= m < nodes.Length ==> nodes[m] == old(nodes[m])
        modifies nodes
      {
        SetNodeActive(k, false);
        k := k + 1;
      }
      assert forall m :: 0 <= m < nodes.Length ==> nodes[m].id == old(nodes[m]).id;
      UpdateAvailablePoints();
    }

    /** getActiveEffects: the effects of the active nodes' types, grouped by effect type. */
    method GetActiveEffects() returns (effects: map<string, seq<Effect>>)
      requires TypesKnown(nodes[..], nodeTypes)
      ensures effects.Keys == Keys(ActiveEffectList(nodes[..], nodeTypes), ByType)
      ensures forall t :: t in effects ==> effects[t] == OfKey(ActiveEffectList(nodes[..], nodeTypes), ByType, t)
    {
      var es := ActiveEffectList(nodes[..], nodeTypes);
      effects := GroupEffects(es, ByType);
    }

    /** The per-unit grouping updateSummary applies to the effects of one type. */
    method EffectsByUnit(effects: seq<Effect>) returns (byUnit: map<string, seq<Effect>>)
      ensures byUnit.Keys == Keys(effects, ByUnit)
      ensures forall u :: u in byUnit ==> byUnit[u] == OfKey(effects, ByUnit, u)
    {
      byUnit := GroupEffects(effects, ByUnit);
    }
  }
}
