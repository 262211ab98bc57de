# digraph.js — a verified model of the button cascade

digraph.js holds the graph behind a diagram of buttons joined by arrows.
Each button is represented by a `Node`, which keeps two JavaScript `Set`s:
its children (the forward edges) and its parents (the reverse edges).
`addChild`, `addChildren` and `removeChild` maintain both sides. A node
reaches its button lazily, through a cached `button` accessor.

`actionSearch` runs a breadth-first cascade from one start node. The
model assumes its use when a selected button is clicked off: the cascade
starts at the clicked node, with the arguments `Deactivation.DeselectHandlers`
wires up. The call site is not part of digraph.js. In that use, each node
taken from the FIFO queue is first tested with the base-case predicate
`stillHasValidPath`:

- the node stops its branch when it is not the start, it has two or more
  parents, and one of those parents is still selected;
- otherwise `deactivateButton` unselects (and, unless it is the clicked
  button, disables) its button, `deactivateArrow` greys its arrows, and
  its children are appended to the queue.

The model is split into these modules:

- `Wrappers` (wrappers.dfy) holds `Option`, JavaScript's null made explicit.
- `OrderedSets` (ordered_sets.dfy) models a JavaScript `Set` as a sequence
  without duplicates, in insertion order.
- `Dom` (dom.dfy) holds the button and arrow records the cascade reads and
  writes.
- `Digraph` (digraph.dfy) holds the `Node` class, edge symmetry over a set
  of nodes, and the button cache.
- `Search` (search.dfy) holds `actionSearch`, as an imperative loop over a
  queue. It is proved equal to a ghost specification `Run`, which returns
  the trace of steps and the final state. The facts about breadth-first
  order, base cases, termination and replay are lemmas about `Run`.
- `Deactivation` (deactivation.dfy) holds `stillHasValidPath`,
  `deactivateButton` and `deactivateArrow` acting on a `Page`: the buttons
  bound to the nodes and the arrow elements by id. It also has the outcome
  of a whole deselection, and the diamond where two branches converge.

### Design notes

- The node's private `#button` is kept in a map `Buttons` from node to
  button, rather than in a field. The cascade's handlers change buttons
  while the base case reads them. The handlers are modelled as total
  function values (`->`), which can neither read nor write the heap, and
  no Dafny function value can write it. So the cascade threads this map
  through the run as part of its state.
- `actionSearch` takes its handlers as function values over a state `S`.
  The only thing they need from the heap is the parents of the current
  node, and the loop reads those and passes them to the base case.
- On a cyclic graph the loop never ends. Termination is proved for
  acyclic graphs, which a ghost `rank` describes: a height that drops
  along every edge. The measure is the number of paths leaving the queued
  nodes: a node is counted, and taken at most, once for each path to it
  from a queued node, and a base case on a path cuts off the visits below it.
- The getter tests `!this.#button` (digraph.js:19), so a lookup that found
  nothing is tried again on the next access: see `Digraph.GetButtonRetries`.

## Model

| member | source | states |
|---|---|---|
| OrderedSets.Add | digraph.js:29 | `set.add(x)`; no contract of its own: its meaning is given by AddMembers, AddNoDup and AddIdempotent |
| OrderedSets.Remove | digraph.js:45 | the set left by `set.delete(x)`; no contract of its own: its meaning is given by RemoveMembers, RemoveAbsent and RemoveNoDup |
| OrderedSets.AddAll | digraph.js:35-39 | the sets left by the `for ... of` loop of `addChildren`, a left fold of Add; no contract of its own: its meaning is given by AddAllMembers, AddAllExtends and AddAllConcat |
| OrderedSets.AddMembers | digraph.js:29 | after `add(x)` the set holds exactly its old elements and x |
| OrderedSets.AddNoDup | digraph.js:3-6 | `add` never puts an element in twice |
| OrderedSets.AddIdempotent | digraph.js:29 | adding the same element twice leaves the set as one addition does (so `addChild` twice is `addChild` once) |
| OrderedSets.RemoveMembers | digraph.js:45 | after `delete(x)` the set holds exactly its old elements other than x |
| OrderedSets.RemoveAbsent | digraph.js:45 | deleting an absent element changes nothing |
| OrderedSets.RemoveNoDup | digraph.js:45 | `delete` keeps the set duplicate-free, and shrinks it by one exactly when x was present |
| OrderedSets.RemoveUndoesAdd | digraph.js:41-46 | deleting an element just added to a set that lacked it restores the set |
| OrderedSets.AddAllMembers | digraph.js:35-39 | adding every element of a list leaves exactly the old elements and the list's |
| OrderedSets.AddAllExtends | digraph.js:35-39 | the old elements stay first and in order, and no duplicate appears |
| OrderedSets.AddAllConcat | digraph.js:35-39 | adding xs then ys is adding xs + ys in one pass (it is a left fold) |
| OrderedSets.AddAllPresent | digraph.js:35-39 | adding elements already present changes nothing |
| OrderedSets.AddAllIdempotent | digraph.js:35-39 | adding the same list a second time changes nothing |
| OrderedSets.AddAllOrderFree | digraph.js:35-39 | the resulting membership does not depend on the order or repetitions of the added list |
| Digraph.Node.constructor | digraph.js:9-14 | a new node has the given id, no parents and no children |
| Digraph.Node.AddChild | digraph.js:27-33 | the child is added to `children` and this to the child's `parents`; no other field changes; validity and edge symmetry of any node set holding both are kept; a self-loop is accepted |
| Digraph.Node.AddChildren | digraph.js:35-39 | `children` is the left fold of `add` over the list; each listed node gains this as a parent; no other children set changes; edge symmetry and this node's validity are kept |
| Digraph.AddChildrenKeepsSymmetry | digraph.js:35-39 | the edge changes of `addChildren`, stated against the edges before, leave a symmetric node set symmetric |
| Digraph.Node.RemoveChild | digraph.js:41-46 | as written: the result is whether either edge existed; the forward edge is gone; the reverse edge is deleted only when the forward edge was absent |
| Digraph.DanglingReverseEdge | digraph.js:45 | a-addChild-b then a-removeChild-b reports removal, yet leaves a among b's parents: symmetry is broken |
| Digraph.Node.RemoveEdge | digraph.js:41-46 | corrected: both deletes run, the same result is reported, and edge symmetry is kept |
| Digraph.RemovalDuality | digraph.js:42-45 | with the corrected removal, adding then removing an edge leaves neither direction and a symmetric pair |
| Digraph.GetButton | digraph.js:16-21 | a cached button is returned and nothing changes; otherwise the resolver's answer is returned and cached when it is a button |
| Digraph.SetButton | digraph.js:23-25 | the setter overwrites this node's entry (null removes it) and leaves every other node's entry |
| Digraph.GetButtonCaches | digraph.js:19-20 | once an access found a button, the next access returns the same one without consulting the resolver |
| Digraph.GetButtonRetries | digraph.js:19 | an access that found nothing caches nothing, so the next one consults the resolver again |
| Digraph.SetThenGet | digraph.js:16-25 | the getter returns what the setter bound, whatever the resolver would say |
| Search.Handle | digraph.js:85-90 | the button handler, then the arrow handler only when one is given; no contract of its own: it is used by Apply |
| Search.Handled | digraph.js:83-94 | whether a step runs the handlers: off the base case always, on it only with `performHandlerOnBase`; no contract of its own: it is used by Apply |
| Search.Apply | digraph.js:83-102 | the state after one step; no contract of its own: RunUnfold, RunReplay and ActionSearch tie it to the loop |
| Search.WorkDrops | digraph.js:78-93 | taking the head of the queue, and then appending its children or not, strictly lowers the remaining work on an acyclic graph |
| Search.Run | digraph.js:72-104 | the trace of a run is no longer than the number of paths leaving the queued nodes, so every run ends |
| Search.RunUnfold | digraph.js:80-102 | one turn of the loop: the head is taken and tested in the current state; its children are appended only when it is not a base case; the handlers run only when it is handled |
| Search.ActionSearch | digraph.js:72-104 | the loop, seeded with the start node, returns the final state of `Run` and records its trace; it terminates on an acyclic graph |
| Search.RunFifo | digraph.js:74-93 | FIFO order: the nodes are taken in the order they entered the queue, the initial queue first and then the children of each non-base node in the order of appending; a base case's children are never enqueued |
| Search.RunReplay | digraph.js:83-102 | the final state is the handlers replayed along the trace, and each verdict is the base case applied in the state the earlier steps left |
| Search.RunInRank | digraph.js:93 | every node taken lies in the acyclic part of the graph the queue started in, so the run never leaves it |
| Search.LeafTwice | digraph.js:78-93 | a leaf queued twice is taken twice |
| Search.SiblingsShareLeaf | digraph.js:78-93 | two siblings with one shared child are taken in order, then the shared child once for each of them |
| Search.BreadthFirstTwice | digraph.js:74-93 | on a -> b, a -> c, b -> d, c -> d with no base case the order is a, b, c, d, d: breadth first, with no visited set |
| Deactivation.BoundUntilSelected | digraph.js:113 | the parents `.some` reads before it stops, the first selected one included, all have a button; no contract of its own: it is the precondition of SomeSelected, and AllBound shows that all parents being bound implies it |
| Deactivation.AllBound | digraph.js:113 | when every parent is bound, `.some` reads no unbound button |
| Deactivation.SomeSelected | digraph.js:113 | true exactly when some parent is bound to a selected button |
| Deactivation.StillHasValidPath | digraph.js:106-114 | false for the start node, false for fewer than two parents, and otherwise true exactly when some parent's button is selected |
| Deactivation.Deactivated | digraph.js:117-126 | the button ends unselected with its id kept; the clicked one ends selectable with `disabled` unchanged; every other one ends not selectable and disabled |
| Deactivation.DeactivatedIdempotent | digraph.js:117-126 | deactivating a button twice is deactivating it once |
| Deactivation.DeactivatedForgets | digraph.js:117-126 | the result does not depend on the button's earlier selection state |
| Deactivation.DeactivateButton | digraph.js:117-126 | only the node's own button changes, to its deactivated form; `isStartButton` has no effect |
| Deactivation.ResetArrow | digraph.js:136-142 | the stroke becomes gray; each marker the arrow carries becomes the white arrow; an absent marker stays absent |
| Deactivation.ResetArrowIdempotent | digraph.js:136-142 | resetting an arrow twice is resetting it once |
| Deactivation.ResetArrows | digraph.js:133-143 | exactly the listed arrows are reset; every other arrow is unchanged |
| Deactivation.MappedArrows | digraph.js:130 | `arrowMap.get(node.button.id)`, with an unmapped id giving none; no contract of its own: DeactivateArrow's ensures state its use |
| Deactivation.DeactivateArrow | digraph.js:129-145 | without an entry for the button's id nothing changes; with one, exactly the mapped arrows are reset and no button changes |
| Deactivation.DeselectHandlers | digraph.js:72 | the arguments a deselection passes to `actionSearch`: stillHasValidPath as the base case, deactivateButton with the clicked id, deactivateArrow. No contract of its own. The call site is not in digraph.js, so this wiring is assumed, not taken from the source |
| Deactivation.ApplyDeselect | digraph.js:83-101 | one step of a deselection deactivates the node's button and resets its arrows when the handlers run, and changes nothing else |
| Deactivation.ReplayOutcome | digraph.js:83-101 | after a trace, every button of a handled node is deactivated, every arrow of one is reset, and all other buttons and arrows are unchanged |
| Deactivation.DeselectOutcome | digraph.js:72-104 | the same outcome for a whole deselection cascade from the clicked node |
| Deactivation.DeselectIsBase | digraph.js:106-114 | with the parents bound, the base case is the convergence condition: not the start, two or more parents, one selected |
| Deactivation.DeselectVerdicts | digraph.js:83 | every verdict of a cascade is that convergence condition, in the page the earlier steps left |
| Deactivation.StartIsProcessed | digraph.js:111-113 | the clicked node is taken first, never as a base case, and its button always ends deactivated |
| Deactivation.DiamondStopsAtZ | digraph.js:106-114 | in a diamond s -> x, s -> y, x -> z, y -> z with y selected, deselecting x handles x and stops at z |
| Deactivation.DiamondReachesZ | digraph.js:106-114 | with x already off, deselecting y handles y and then z |
| Deactivation.DiamondConvergence | digraph.js:106-114 | all selected: deselecting x keeps z selected; deselecting y afterwards leaves z unselected and disabled |

## Left out

- The DOM lookup of the `button` getter is an abstract resolver
  parameter of `Digraph.GetButton`. The lookups and caching that the
  getter would do during a cascade are not modelled. Instead, the lemmas
  about a cascade require `Deactivation.Bound` beforehand:
  - every descendant of the start node, those below a base case that the
    cascade never takes included, is bound to its button, and its mapped
    arrow elements exist;
  - every parent of such a node is bound to its button.
- In the source, a button the lookup cannot find throws a TypeError. On a
  node with no bound button the model's handlers leave the page unchanged
  instead; `Deactivation.Bound` rules that case out.
- `document.getElementById` for arrow elements is a lookup in
  `Page.arrows`. An arrow id without an element would throw; the named
  functions require it to be present.
- The global `arrowMap` is a parameter.
- `async` on `actionSearch` is left out: its body never awaits, so the loop
  is modelled as synchronous.
- The commented-out first version of `actionSearch` (digraph.js:50-70) is
  dead code and is not modelled.
- Cyclic graphs are excluded: the loop does not end on them, and every
  statement about `actionSearch` requires an acyclic `rank`.
- Search.ActionSearch: the handlers cannot change the graph, because they
  are function values over a threaded state. The source's handlers never
  do so.
- Two nodes sharing one button element (aliasing through the DOM) is not
  modelled: each node's button is its own entry in the map.
- A `Set`'s `size` equals the sequence's length only for a valid node
  (no duplicates). That holds for every node built through the
  constructor and `addChild`, but it is stated per operation.
- Digraph.Node.AddChildren: the method states that this node stays valid.
  It does not state that each listed node stays valid. That follows from
  its `parents` ensures and `OrderedSets.AddNoDup`.
- The optional `button` argument of the constructor (digraph.js:9, 13) is
  left out. Constructing with a button is `new Node(id)` followed by
  `SetButton(buttons, node, Some(b))`.
- `performHandlerOnBase` has no default here; a call that omits it is the call with `false`.
- `isStartButton` in `deactivateButton` is computed and then never used,
  so it has no effect on the model.

## Findings

| source | as written | input that shows it | evidently intended | confidence | as-written member | corrected member |
|---|---|---|---|---|---|---|
| digraph.js:45 | `this.children.delete(node) \|\| node.parents.delete(this)` short-circuits, so the reverse edge is deleted only when the forward edge was missing | `a.addChild(b); a.removeChild(b)` returns true but leaves a among b's parents | both deletes run, removing both directions of the edge; the result says whether either was present | not executed | Digraph.DanglingReverseEdge | Digraph.RemovalDuality |
