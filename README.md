# Dwarven Realms skill planner — allocation engine in Dafny

This project models the allocation engine of the Dwarven Realms skill
planner (`javascript/dwarven-realms-planner.js`). A player spends points on
the nodes of a fixed skill graph. The budget is `min(4 + level, 204)` minus
the number of active nodes. A node may be switched on when it is a root or
when one of its active neighbours lists it back. A node may be switched off
only when no other active node would lose its way to an active root. That
last check runs a queue-driven breadth-first search on a copy of the graph.

Modules:

- `Seqs` (graph.dfy): order-keeping selection (`Subsequence`).
- `Graph` (graph.dfy): the `Node` record, the neighbour filters, the
  dependent-neighbour test, and walks along active reciprocal neighbours
  (`Link`, `IsWalk`, `Connected`).
- `Search` (search.dfy): `hasConnectionToRootNode` as an imperative search
  over a queue and a done list, proved equal to `Connected`; and
  `hasConnectionToAnyRootNode`.
- `Rules` (rules.dfy): the budget, the guard as a predicate (`Changeable`,
  `Required`), the click as a function on the node list (`AfterClick`), and
  the invariant the guard protects: `Anchored`, meaning every active node
  has a walk to an active root.
- `Effects` (effects.dfy): the effects of the active nodes and their
  grouping by effect type and by unit.
- `Engine` (engine.dfy): class `Planner`, holding the node array (toggled
  in place), the player level and the available points, with the event
  handlers as methods.

How the code differs from the documented behaviour (the model follows the
code):

- The effect summary has no special handling for trigger effects and no
  order field. It flattens each active node's type effects in node order.
- The search does not visit each node once. It checks only the done list
  before queueing, so a node can sit in the queue several times. It still
  terminates; `Search.HasConnectionToRootNode` proves this with a
  lexicographic measure: ids not yet expanded, then stale queue entries.
- The guard's first conjunct ("root, or has an active reciprocal
  neighbour") also applies to deactivation. `Rules.AnchoredNonRootHasLink`
  shows this never blocks anything on an anchored graph.
- "Deactivating a node without active neighbours always succeeds" holds
  only on an anchored graph (`Rules.IsolatedDeactivationAllowed`).
- A root node with any active non-root declared neighbour can never be
  switched off. `hasDependentNeighbour` tests the clicked node's root flag
  where one would expect the neighbour's neighbour's flag, and it does not
  check reciprocity (`Rules.ActiveRootWithNonRootNeighbourIsLocked`).
- The player level is not validated.

## Model

| member | source | states |
|---|---|---|
| Graph.Neighbours | javascript/dwarven-realms-planner.js:322-324 | the result holds exactly the nodes of the list whose id the node declares, in the list's order |
| Graph.ActiveNeighbours | javascript/dwarven-realms-planner.js:332-334 | the result holds exactly the given neighbours that are active and list the node back, in their order |
| Graph.RootNodes | javascript/dwarven-realms-planner.js:359 | the result holds exactly the root nodes of the list, in the list's order |
| Graph.HasDependentNeighbour | javascript/dwarven-realms-planner.js:342-344 | true iff some given neighbour is active, not a root, and (when the clicked node is not a root) has no active declared neighbour other than the clicked node; for a root, every active non-root neighbour counts |
| Graph.LinkIsActiveNeighbour | javascript/dwarven-realms-planner.js:397-398 | one step of the search goes exactly to the active reciprocal neighbours of the current node |
| Search.VisitNeighbours | javascript/dwarven-realms-planner.js:398-406 | a hit means the start is connected to the root; otherwise every active neighbour of the dequeued node is expanded or queued, and every queued node is reachable from the start |
| Search.HasConnectionToRootNode | javascript/dwarven-realms-planner.js:384-410 | terminates, changes nothing, and answers true iff the start has the root's id or a walk of active reciprocal neighbours leads from the start to the root |
| Search.HasConnectionToAnyRootNode | javascript/dwarven-realms-planner.js:373-375 | true iff the node is connected to one of the given roots |
| Rules.PointCap | javascript/dwarven-realms-planner.js:89 | the cap is 4 + level, but never above 204 |
| Rules.CountActive | javascript/dwarven-realms-planner.js:89 | the count is at most the number of nodes, and zero exactly when no node is active |
| Rules.CountActiveSet | javascript/dwarven-realms-planner.js:303 | writing one active flag moves the active count by exactly the change of that flag |
| Rules.ClickBudget | javascript/dwarven-realms-planner.js:250-256 | a click either leaves the nodes unchanged or flips the clicked node and moves the budget by one point (down for an activation); a budget that is not negative never becomes negative |
| Rules.CountReachingAll | javascript/dwarven-realms-planner.js:360 | the count of neighbours that still reach a root equals their number iff every one of them reaches a root |
| Rules.SimulatedNeighbours | javascript/dwarven-realms-planner.js:352-358 | the copy keeps every neighbour list, so a neighbour handed to the search agrees with its copy |
| Rules.AnchorSurvivesActivation | javascript/dwarven-realms-planner.js:303 | switching a node on keeps every existing walk to an active root |
| Rules.ActivationKeepsAnchored | javascript/dwarven-realms-planner.js:313 | an activation the guard admits (a root, or a node with an active reciprocal neighbour) keeps every active node anchored |
| Rules.DeactivationKeepsAnchored | javascript/dwarven-realms-planner.js:351-364 | when the node is not required, switching it off keeps every other active node anchored |
| Rules.ClickKeepsAnchored | javascript/dwarven-realms-planner.js:250-256 | every click, accepted or refused, keeps an anchored graph anchored |
| Rules.RequiredIsOrphaning | javascript/dwarven-realms-planner.js:351-364 | on an anchored graph where the node does not list itself, the node is required iff switching it off leaves some active node without a walk to an active root |
| Rules.RootActivationAllowed | javascript/dwarven-realms-planner.js:313 | the guard always admits switching on a root |
| Rules.NonRootActivation | javascript/dwarven-realms-planner.js:313 | the guard admits switching on a non-root iff an active node it declares lists it back |
| Rules.AnchoredNonRootHasLink | javascript/dwarven-realms-planner.js:313 | on an anchored graph, an active non-root node always has an active reciprocal neighbour |
| Rules.IsolatedDeactivationAllowed | javascript/dwarven-realms-planner.js:311-314 | on an anchored graph, an active node none of whose declared neighbours is active may be switched off |
| Rules.ActiveRootWithNonRootNeighbourIsLocked | javascript/dwarven-realms-planner.js:342-344 | an active root with an active non-root declared neighbour can never be switched off |
| Effects.ActiveEffectList | javascript/dwarven-realms-planner.js:275-276 | the list holds exactly the effects of the types of active nodes, and is empty when no node is active |
| Effects.OfKeyMembers | javascript/dwarven-realms-planner.js:277-282 | a group holds exactly the effects with its key, in their original order |
| Effects.KeysMembers | javascript/dwarven-realms-planner.js:277-282 | a key occurs iff some effect carries it |
| Effects.OfKeyAppend | javascript/dwarven-realms-planner.js:281 | pushing an effect extends its own group by that effect and leaves every other group unchanged |
| Effects.OfKeyMissing | javascript/dwarven-realms-planner.js:278-280 | a key no effect carries has an empty group |
| Effects.OfKeySplit | javascript/dwarven-realms-planner.js:277-282 | the effects with a key and those without it together number all the effects |
| Effects.OfKeyCommutes | javascript/dwarven-realms-planner.js:103-109 | grouping by type and then by unit gives the same lists as grouping by unit and then by type |
| Effects.GroupEffects | javascript/dwarven-realms-planner.js:277-282 | the map's keys are exactly the keys occurring in the effects, and each entry is the group of its key |
| Engine.Planner.constructor | javascript/dwarven-realms-planner.js:52-66 | the planner starts at level 1 with the loaded nodes and an up-to-date budget |
| Engine.Planner.UpdateAvailablePoints | javascript/dwarven-realms-planner.js:87-91 | the available points become the level's cap minus the number of active nodes |
| Engine.Planner.SetPlayerLevel | javascript/dwarven-realms-planner.js:139-153 | the level is stored and the budget recomputed for it |
| Engine.Planner.SetNodeActive | javascript/dwarven-realms-planner.js:292-304 | an activation with fewer than one point left changes nothing; otherwise exactly the node's flag is written |
| Engine.Planner.IsRequiredNode | javascript/dwarven-realms-planner.js:351-364 | the answer is `Rules.Required`: false without active reciprocal neighbours, else true iff one of them reaches no root once the node is marked inactive in a copy; the live nodes are not changed |
| Engine.Planner.CountConnected | javascript/dwarven-realms-planner.js:360 | the count is the number of active neighbours that reach a root of the copy |
| Engine.Planner.IsNodeStateChangable | javascript/dwarven-realms-planner.js:311-314 | the answer is the guard `Rules.Changeable` |
| Engine.Planner.OnNodeClicked | javascript/dwarven-realms-planner.js:250-256 | the new nodes are the click applied to the old ones, the budget stays up to date and moves by one point with a toggle, it never turns negative, and an anchored graph stays anchored |
| Engine.Planner.ResetAll | javascript/dwarven-realms-planner.js:262-266 | every node becomes inactive with everything else unchanged, the budget becomes the full cap, and the graph is anchored |
| Engine.Planner.GetActiveEffects | javascript/dwarven-realms-planner.js:272-284 | the map's keys are exactly the effect types of the active nodes' effects, and each entry lists those effects of that type in node order |
| Engine.Planner.EffectsByUnit | javascript/dwarven-realms-planner.js:103-109 | the map's keys are exactly the units occurring in the effects, and each entry lists the effects of that unit in order |

## Left out

- SVG and DOM work: node circles and images, `style.display` writes, tooltips, the click-coordinate logger, the text of the available-points counter.
- Event wiring (`DOMContentLoaded`, key and blur handlers, the reset button). The handlers become methods of `Planner`.
- Loading `node_types.json` and `nodes.json`: the node list and the type catalogue are constructor arguments.
- `updateSummary` and `createSummaryEntry` output: the `localeCompare` sort of the types, the summing of effect values (floating point) and the text formatting. Only the two groupings are modelled.
- `dwarven-realms-planner.js` at the repository root (an image drawn on a canvas) is not part of this model.
- Engine.Planner.SetPlayerLevel: takes an integer. The string coercion `+playerLevel` (which gives NaN for text that is not a number) and the empty-input check are not modelled.
- Engine.Planner.constructor: requires unique node ids. The source assumes them; it looks nodes up by id.
- Engine.Planner.GetActiveEffects: requires every node's type to be in the catalogue. The source throws a TypeError otherwise; that error path is not modelled.
- Nodes are passed to the handlers by array index, not by object reference. With unique ids, the copy's lookup by id in `isRequiredNode` finds the same index.
- Search.HasConnectionToRootNode: requires unique ids and that every node sharing the start's id has the start's neighbour list. This holds at the one call site, where the start is a neighbour taken from the copy before the clicked node was marked inactive.
- Search.HasConnectionToAnyRootNode and Engine.Planner.IsNodeStateChangable are methods, not functions, because they call the search.
- The copy made by `isRequiredNode` keeps only id, neighbours, root flag and active flag. The model copies the whole record; the search reads only those fields.
