/**
  * The deselection cascade: the convergence check `stillHasValidPath` as the
  * base-case predicate, and `deactivateButton` and `deactivateArrow` as the
  * handlers, all acting on the state of the page.
  *
  * Every node the cascade reaches is taken to be bound to its button already
  * (through the setter, or by an earlier access of the getter); the lazy
  * lookup of the getter is modelled by Digraph.GetButton.
  */
module Deactivation {
  import opened Wrappers
  import opened Dom
  import opened Digraph
  import opened Search

  /** What a cascade changes: the buttons bound to the nodes, and the arrow elements by id. */
  datatype Page = Page(buttons: Buttons, arrows: map<string, Arrow>)

  /**
    * `.some(parent => parent.button...)` stops at the first selected parent,
    * so the parents before it, and it, must be bound: the model does no
    * lookup during a cascade, and the source throws when its lookup finds none.
    */
  predicate BoundUntilSelected(parents: seq<Node>, buttons: Buttons)
    decreases |parents|
  {
    parents == [] ||
    (parents[0] in buttons && (buttons[parents[0]].selected || BoundUntilSelected(parents[1..], buttons)))
  }

  /** `[...parents].some(parent => parent.button.classList.contains("selected"))`. */
  function SomeSelected(parents: seq<Node>, buttons: Buttons): (r: bool)
    requires BoundUntilSelected(parents, buttons)
    ensures r <==> exists i :: 0 <= i < |parents| && parents[i] in buttons && buttons[parents[i]].selected
    decreases |parents|
  {
    if parents == [] then false
    else if buttons[parents[0]].selected then true
    else
      var r := SomeSelected(parents[1..], buttons);
      assert forall i :: 1 <= i < |parents| ==> parents[i] == parents[1..][i - 1];
      r
  }

  /**
    * `stillHasValidPath(currentNode, startNode)`: the node is a convergence
    * point still fed by a selected parent. The start node never is.
    */
  function StillHasValidPath(current: Node, parents: seq<Node>, start: Node, buttons: Buttons): (r: bool)
    requires current == start || |parents| < 2 || BoundUntilSelected(parents, buttons)
    ensures current == start ==> !r
    ensures |parents| < 2 ==> !r
    ensures current != start && |parents| >= 2 ==>
      (r <==> exists i :: 0 <= i < |parents| && parents[i] in buttons && buttons[parents[i]].selected)
  {
    current != start && |parents| >= 2 && SomeSelected(parents, buttons)
  }

  /**
    * The class and property changes of `deactivateButton` on one button:
    * "selected" off, "selectable" on, and then, unless it is the clicked
    * button, "selectable" off again and disabled.
    */
  function Deactivated(c: Control, clickedId: string): (r: Control)
    ensures r.id == c.id && !r.selected
    ensures c.id == clickedId ==> r.selectable && r.disabled == c.disabled
    ensures c.id != clickedId ==> !r.selectable && r.disabled
  {
    var unselected := c.(selected := false);
    var selectable := unselected.(selectable := true);
    if selectable.id != clickedId then selectable.(selectable := false, disabled := true) else selectable
  }

  /** Deactivating a button twice leaves it as deactivating it once does. */
  lemma DeactivatedIdempotent(c: Control, clickedId: string)
    ensures Deactivated(Deactivated(c, clickedId), clickedId) == Deactivated(c, clickedId)
  {
  }

  /**
    * What deactivation leaves depends only on whether the button is the
    * clicked one, and for it on its `disabled` property: its earlier
    * selection state is forgotten.
    */
  lemma DeactivatedForgets(c: Control, d: Control, clickedId: string)
    requires c.id == d.id && (c.id == clickedId ==> c.disabled == d.disabled)
    ensures Deactivated(c, clickedId) == Deactivated(d, clickedId)
  {
  }

  /**
    * `deactivateButton(node, clickedId)` on the button bound to node.
    * (`isStartButton` is computed from the id and never used.)
    */
  function DeactivateButton(page: Page, node: Node, clickedId: string): (r: Page)
    requires node in page.buttons
    ensures r.arrows == page.arrows && r.buttons.Keys == page.buttons.Keys
    ensures r.buttons[node] == Deactivated(page.buttons[node], clickedId)
    ensures forall m <- page.buttons :: m != node ==> r.buttons[m] == page.buttons[m]
  {
    var button := page.buttons[node];
    var isStartButton := |button.id| > 0 && button.id[0] == 's';
    page.(buttons := page.buttons[node := Deactivated(button, clickedId)])
  }

  /**
    * What `deactivateArrow` does to one arrow element: stroke gray, and each
    * marker it carries replaced by the white arrow; an absent marker stays absent.
    */
  function ResetArrow(a: Arrow): (r: Arrow)
    ensures r.stroke == Gray
    ensures r.markerStart.Present? == a.markerStart.Present? && r.markerEnd.Present? == a.markerEnd.Present?
    ensures r.markerStart.Present? ==> r.markerStart.value == WhiteArrowMarker
    ensures r.markerEnd.Present? ==> r.markerEnd.value == WhiteArrowMarker
  {
    var stroked := a.(stroke := Gray);
    var started := if stroked.markerStart.Present? then stroked.(markerStart := Present(WhiteArrowMarker)) else stroked;
    if started.markerEnd.Present? then started.(markerEnd := Present(WhiteArrowMarker)) else started
  }

  /** Resetting an arrow twice leaves it as resetting it once does. */
  lemma ResetArrowIdempotent(a: Arrow)
    ensures ResetArrow(ResetArrow(a)) == ResetArrow(a)
  {
  }

  /**
    * `arrowIDs.forEach(...)`: each listed element reset in turn. An id without
    * an element makes `getElementById` return null and the call throw.
    */
  function ResetArrows(arrows: map<string, Arrow>, ids: seq<string>): (r: map<string, Arrow>)
    requires forall id <- ids :: id in arrows
    ensures r.Keys == arrows.Keys
    ensures forall k <- arrows :: r[k] == if k in ids then ResetArrow(arrows[k]) else arrows[k]
    decreases |ids|
  {
    if ids == [] then arrows
    else
      var id := ids[0];
      var r := ResetArrows(arrows[id := ResetArrow(arrows[id])], ids[1..]);
      ResetArrowIdempotent(arrows[id]);
      assert forall k :: k in ids <==> k == id || k in ids[1..];
      r
  }

  /** `arrowMap.get(node.button.id)`: the ids of the arrows drawn for node's button, none when unmapped. */
  function MappedArrows(page: Page, node: Node, arrowMap: map<string, seq<string>>): seq<string>
    requires node in page.buttons
  {
    var id := page.buttons[node].id;
    if id in arrowMap then arrowMap[id] else []
  }

  /**
    * `deactivateArrow(node)`, with the global `arrowMap` as a parameter.
    * Without an entry for the button's id it changes nothing.
    */
  function DeactivateArrow(page: Page, node: Node, arrowMap: map<string, seq<string>>): (r: Page)
    requires node in page.buttons && forall a <- MappedArrows(page, node, arrowMap) :: a in page.arrows
    ensures r.buttons == page.buttons
    ensures page.buttons[node].id !in arrowMap ==> r == page
    ensures r.arrows.Keys == page.arrows.Keys
    ensures forall k <- page.arrows ::
      r.arrows[k] == if k in MappedArrows(page, node, arrowMap) then ResetArrow(page.arrows[k]) else page.arrows[k]
  {
    var id := page.buttons[node].id;
    if id in arrowMap then page.(arrows := ResetArrows(page.arrows, arrowMap[id])) else page
  }

  /**
    * The arguments a click passes to actionSearch: stillHasValidPath as the
    * base case, deactivateButton with the clicked id, and deactivateArrow.
    * On a node with no bound button, where the source's getter would look
    * the button up (and throw when the lookup finds none), and on a missing
    * arrow element, these leave the page as it is; the lemmas below require
    * that every button is bound and every arrow element present beforehand.
    */
  function DeselectHandlers(clickedId: string, arrowMap: map<string, seq<string>>, performOnBase: bool): Handlers<Page>
  {
    Handlers(
      (n: Node, ps: seq<Node>, st: Node, p: Page) =>
        (n == st || |ps| < 2 || BoundUntilSelected(ps, p.buttons)) && StillHasValidPath(n, ps, st, p.buttons),
      (p: Page, n: Node) => if n in p.buttons then DeactivateButton(p, n, clickedId) else p,
      Some((p: Page, n: Node) =>
        if n in p.buttons && (forall a <- MappedArrows(p, n, arrowMap) :: a in p.arrows) then DeactivateArrow(p, n, arrowMap) else p),
      performOnBase)
  }

  /** A node whose button and arrows the handlers can reach without throwing. */
  predicate Resolvable(page: Page, n: Node, arrowMap: map<string, seq<string>>)
  {
    n in page.buttons && forall a <- MappedArrows(page, n, arrowMap) :: a in page.arrows
  }

  /**
    * Every ranked node is bound and its mapped arrow elements exist, and every
    * parent of a ranked node is bound. The ranked nodes are closed under
    * children, so this covers every descendant of the start, those below a
    * base case that the cascade never takes included.
    */
  ghost predicate Bound(page: Page, rank: map<Node, nat>, arrowMap: map<string, seq<string>>)
    reads rank.Keys
  {
    forall n <- rank.Keys :: Resolvable(page, n, arrowMap) && forall p <- n.parents :: p in page.buttons
  }

  /** Whether some step of t ran the handlers on n. */
  ghost predicate Touched<S>(h: Handlers<S>, t: seq<Step>, n: Node)
  {
    exists i :: 0 <= i < |t| && t[i].node == n && Handled(h, t[i])
  }

  /** Whether some step of t ran the handlers on a node one of whose arrows is k. */
  ghost predicate ArrowTouched<S>(h: Handlers<S>, t: seq<Step>, page: Page, arrowMap: map<string, seq<string>>, k: string)
  {
    exists i :: 0 <= i < |t| && Handled(h, t[i]) && t[i].node in page.buttons && k in MappedArrows(page, t[i].node, arrowMap)
  }

  /** One step of a deselection: the handlers, when they run, deactivate the node's button and reset its arrows. */
  lemma ApplyDeselect(clickedId: string, arrowMap: map<string, seq<string>>, performOnBase: bool, page: Page, st: Step)
    requires Resolvable(page, st.node, arrowMap)
    ensures var h := DeselectHandlers(clickedId, arrowMap, performOnBase);
      var r := Apply(h, page, st);
      r.buttons.Keys == page.buttons.Keys && r.arrows.Keys == page.arrows.Keys &&
      (forall n <- page.buttons ::
        r.buttons[n] == if st.node == n && Handled(h, st) then Deactivated(page.buttons[n], clickedId) else page.buttons[n]) &&
      (forall k <- page.arrows ::
        r.arrows[k] == if Handled(h, st) && k in MappedArrows(page, st.node, arrowMap) then ResetArrow(page.arrows[k]) else page.arrows[k])
  {
    var h := DeselectHandlers(clickedId, arrowMap, performOnBase);
    if Handled(h, st) {
      var p1 := DeactivateButton(page, st.node, clickedId);
      assert MappedArrows(p1, st.node, arrowMap) == MappedArrows(page, st.node, arrowMap);
      assert Apply(h, page, st) == DeactivateArrow(p1, st.node, arrowMap);
    }
  }

  lemma TouchedCons<S>(h: Handlers<S>, t: seq<Step>, n: Node)
    requires t != []
    ensures Touched(h, t, n) <==> (t[0].node == n && Handled(h, t[0])) || Touched(h, t[1..], n)
  {
    if Touched(h, t[1..], n) {
      var i :| 0 <= i < |t[1..]| && t[1..][i].node == n && Handled(h, t[1..][i]);
      assert t[i + 1] == t[1..][i];
    }
    if Touched(h, t, n) && !(t[0].node == n && Handled(h, t[0])) {
      var i :| 0 <= i < |t| && t[i].node == n && Handled(h, t[i]);
      assert t[1..][i - 1] == t[i];
    }
  }

  lemma ArrowTouchedCons<S>(h: Handlers<S>, t: seq<Step>, page: Page, arrowMap: map<string, seq<string>>, k: string)
    requires t != []
    ensures ArrowTouched(h, t, page, arrowMap, k) <==>
      (Handled(h, t[0]) && t[0].node in page.buttons && k in MappedArrows(page, t[0].node, arrowMap)) ||
      ArrowTouched(h, t[1..], page, arrowMap, k)
  {
    if ArrowTouched(h, t[1..], page, arrowMap, k) {
      var i :| 0 <= i < |t[1..]| && Handled(h, t[1..][i]) && t[1..][i].node in page.buttons && k in MappedArrows(page, t[1..][i].node, arrowMap);
      assert t[i + 1] == t[1..][i];
    }
    if ArrowTouched(h, t, page, arrowMap, k) && !(Handled(h, t[0]) && t[0].node in page.buttons && k in MappedArrows(page, t[0].node, arrowMap)) {
      var i :| 0 <= i < |t| && Handled(h, t[i]) && t[i].node in page.buttons && k in MappedArrows(page, t[i].node, arrowMap);
      assert t[1..][i - 1] == t[i];
    }
  }

  /**
    * The page after the handlers of a deselection ran along a trace: every
    * touched button deactivated (once or several times, it is the same),
    * every arrow of a touched button reset, and nothing else changed.
    */
  lemma {:induction false} ReplayOutcome(clickedId: string, arrowMap: map<string, seq<string>>, performOnBase: bool,
                                         page: Page, t: seq<Step>)
    requires forall st <- t :: Resolvable(page, st.node, arrowMap)
    ensures var h := DeselectHandlers(clickedId, arrowMap, performOnBase);
      var r := Replay(h, page, t);
      r.buttons.Keys == page.buttons.Keys && r.arrows.Keys == page.arrows.Keys &&
      (forall n <- page.buttons ::
        r.buttons[n] == if Touched(h, t, n) then Deactivated(page.buttons[n], clickedId) else page.buttons[n]) &&
      (forall k <- page.arrows ::
        r.arrows[k] == if ArrowTouched(h, t, page, arrowMap, k) then ResetArrow(page.arrows[k]) else page.arrows[k])
    decreases |t|
  {
    var h := DeselectHandlers(clickedId, arrowMap, performOnBase);
    if t != [] {
      var st := t[0];
      var p' := Apply(h, page, st);
      ApplyDeselect(clickedId, arrowMap, performOnBase, page, st);
      assert forall n <- page.buttons :: MappedArrows(p', n, arrowMap) == MappedArrows(page, n, arrowMap);
      assert forall st' <- t[1..] :: st' in t;
      ReplayOutcome(clickedId, arrowMap, performOnBase, p', t[1..]);
      var r := Replay(h, page, t);
      assert r == Replay(h, p', t[1..]);
      forall n | n in page.buttons
        ensures r.buttons[n] == if Touched(h, t, n) then Deactivated(page.buttons[n], clickedId) else page.buttons[n]
      {
        DeactivatedIdempotent(page.buttons[n], clickedId);
        TouchedCons(h, t, n);
      }
      forall k | k in page.arrows
        ensures r.arrows[k] == if ArrowTouched(h, t, page, arrowMap, k) then ResetArrow(page.arrows[k]) else page.arrows[k]
      {
        ResetArrowIdempotent(page.arrows[k]);
        ArrowTouchedCons(h, t, page, arrowMap, k);
        assert ArrowTouched(h, t[1..], p', arrowMap, k) <==> ArrowTouched(h, t[1..], page, arrowMap, k);
      }
    }
  }

  /**
    * A run of the deselection cascade: the buttons of the nodes it handled
    * end deactivated, their arrows reset, and every other button and arrow
    * is as it was.
    */
  lemma DeselectOutcome(clickedId: string, arrowMap: map<string, seq<string>>, performOnBase: bool,
                        start: Node, page: Page, rank: map<Node, nat>)
    requires Acyclic(rank) && start in rank && Bound(page, rank, arrowMap)
    ensures var h := DeselectHandlers(clickedId, arrowMap, performOnBase);
      var (t, r) := Run(h, start, [start], page, rank);
      r.buttons.Keys == page.buttons.Keys && r.arrows.Keys == page.arrows.Keys &&
      (forall n <- page.buttons ::
        r.buttons[n] == if Touched(h, t, n) then Deactivated(page.buttons[n], clickedId) else page.buttons[n]) &&
      (forall k <- page.arrows ::
        r.arrows[k] == if ArrowTouched(h, t, page, arrowMap, k) then ResetArrow(page.arrows[k]) else page.arrows[k])
  {
    var h := DeselectHandlers(clickedId, arrowMap, performOnBase);
    RunReplay(h, start, [start], page, rank);
    RunInRank(h, start, [start], page, rank);
    ReplayOutcome(clickedId, arrowMap, performOnBase, page, Run(h, start, [start], page, rank).0);
  }

  /**
    * The convergence condition, stated on its own: n is not the start, has
    * at least two parents, and one of them is bound to a selected button.
    */
  ghost predicate Protected(n: Node, start: Node, buttons: Buttons)
    reads n
  {
    n != start && |n.parents| >= 2 &&
    exists i :: 0 <= i < |n.parents| && n.parents[i] in buttons && buttons[n.parents[i]].selected
  }

  lemma {:induction false} AllBound(parents: seq<Node>, buttons: Buttons)
    requires forall p <- parents :: p in buttons
    ensures BoundUntilSelected(parents, buttons)
    decreases |parents|
  {
    if parents != [] {
      AllBound(parents[1..], buttons);
    }
  }

  /**
    * Every verdict of the cascade is the convergence condition in the page
    * as the steps before it left it: a branch stops exactly at a node that
    * still has a selected parent among two or more, and never at the start.
    */
  lemma DeselectVerdicts(clickedId: string, arrowMap: map<string, seq<string>>, performOnBase: bool,
                         start: Node, page: Page, rank: map<Node, nat>)
    requires Acyclic(rank) && start in rank && Bound(page, rank, arrowMap)
    ensures var h := DeselectHandlers(clickedId, arrowMap, performOnBase);
      var t := Run(h, start, [start], page, rank).0;
      forall i :: 0 <= i < |t| ==> (t[i].base <==> Protected(t[i].node, start, Replay(h, page, t[..i]).buttons))
  {
    var h := DeselectHandlers(clickedId, arrowMap, performOnBase);
    var t := Run(h, start, [start], page, rank).0;
    RunReplay(h, start, [start], page, rank);
    RunInRank(h, start, [start], page, rank);
    forall i | 0 <= i < |t|
      ensures t[i].base <==> Protected(t[i].node, start, Replay(h, page, t[..i]).buttons)
    {
      var n := t[i].node;
      assert t[i] in t;
      assert forall st <- t[..i] :: st in t;
      ReplayOutcome(clickedId, arrowMap, performOnBase, page, t[..i]);
      var b := Replay(h, page, t[..i]).buttons;
      assert forall p <- n.parents :: p in b;
      AllBound(n.parents, b);
    }
  }

  /**
    * The start exception: the clicked node is always taken first, never as
    * a base case, so its button always ends deactivated.
    */
  lemma StartIsProcessed(clickedId: string, arrowMap: map<string, seq<string>>, performOnBase: bool,
                         start: Node, page: Page, rank: map<Node, nat>)
    requires Acyclic(rank) && start in rank && Bound(page, rank, arrowMap)
    ensures var h := DeselectHandlers(clickedId, arrowMap, performOnBase);
      var (t, r) := Run(h, start, [start], page, rank);
      |t| > 0 && t[0] == Step(start, false) &&
      start in r.buttons && r.buttons[start] == Deactivated(page.buttons[start], clickedId)
  {
    var h := DeselectHandlers(clickedId, arrowMap, performOnBase);
    assert !h.isBase(start, start.parents, start, page);
    RunUnfold(h, start, [start], page, rank, false, start.children);
    var t := Run(h, start, [start], page, rank).0;
    assert t[0] == Step(start, false);
    assert Touched(h, t, start);
    DeselectOutcome(clickedId, arrowMap, performOnBase, start, page, rank);
  }

  /** With the parents of n bound, the base case the cascade tests is the convergence condition. */
  lemma DeselectIsBase(clickedId: string, arrowMap: map<string, seq<string>>, performOnBase: bool,
                       n: Node, start: Node, page: Page)
    requires forall p <- n.parents :: p in page.buttons
    ensures DeselectHandlers(clickedId, arrowMap, performOnBase).isBase(n, n.parents, start, page) == Protected(n, start, page.buttons)
  {
    AllBound(n.parents, page.buttons);
  }

  /** A page with the same buttons, ids and arrow elements is bound wherever the first one was. */
  lemma BoundKept(page: Page, p: Page, rank: map<Node, nat>, arrowMap: map<string, seq<string>>)
    requires Bound(page, rank, arrowMap)
    requires p.buttons.Keys == page.buttons.Keys && p.arrows.Keys == page.arrows.Keys
    requires forall n <- page.buttons :: p.buttons[n].id == page.buttons[n].id
    ensures Bound(p, rank, arrowMap)
  {
    assert forall n <- page.buttons :: MappedArrows(p, n, arrowMap) == MappedArrows(page, n, arrowMap);
  }

  /** The shape of the diamond s -> x, s -> y, x -> z, y -> z. */
  ghost predicate Diamond(s: Node, x: Node, y: Node, z: Node)
    reads s, x, y, z
  {
    s != x && s != y && s != z && x != y && x != z && y != z &&
    s.children == [x, y] && x.children == [z] && y.children == [z] && z.children == [] &&
    s.parents == [] && x.parents == [s] && y.parents == [s] && z.parents == [x, y]
  }

  /** Deselecting x while y is selected: x is handled, and the branch stops at z. */
  lemma DiamondStopsAtZ(s: Node, x: Node, y: Node, z: Node, page: Page, arrowMap: map<string, seq<string>>,
                        rank: map<Node, nat>)
    requires Diamond(s, x, y, z) && rank.Keys == {s, x, y, z} && Acyclic(rank) && Bound(page, rank, arrowMap)
    requires page.buttons[y].selected
    ensures var h := DeselectHandlers(page.buttons[x].id, arrowMap, false);
      Run(h, x, [x], page, rank).0 == [Step(x, false), Step(z, true)] &&
      Run(h, x, [x], page, rank).1 == Apply(h, page, Step(x, false))
  {
    var h := DeselectHandlers(page.buttons[x].id, arrowMap, false);
    assert [x][1..] + x.children == [z] && [z][1..] == [];
    RunUnfold(h, x, [x], page, rank, false, [z]);
    ApplyDeselect(page.buttons[x].id, arrowMap, false, page, Step(x, false));
    var p1 := Apply(h, page, Step(x, false));
    DeselectIsBase(page.buttons[x].id, arrowMap, false, z, x, p1);
    assert z.parents[1] == y && p1.buttons[y].selected;
    assert Protected(z, x, p1.buttons);
    RunUnfold(h, x, [z], p1, rank, true, []);
    assert !Handled(h, Step(z, true));
    assert Apply(h, p1, Step(z, true)) == p1;
    assert Run(h, x, [], p1, rank).0 == [] && Run(h, x, [], p1, rank).1 == p1;
    assert [Step(x, false)] + ([Step(z, true)] + []) == [Step(x, false), Step(z, true)];
  }

  /** Deselecting y once x is deselected: y is handled, then z, whose parents are both off. */
  lemma DiamondReachesZ(s: Node, x: Node, y: Node, z: Node, page: Page, arrowMap: map<string, seq<string>>,
                        rank: map<Node, nat>)
    requires Diamond(s, x, y, z) && rank.Keys == {s, x, y, z} && Acyclic(rank) && Bound(page, rank, arrowMap)
    requires !page.buttons[x].selected
    ensures var h := DeselectHandlers(page.buttons[y].id, arrowMap, false);
      Run(h, y, [y], page, rank).0 == [Step(y, false), Step(z, false)] &&
      Run(h, y, [y], page, rank).1 == Apply(h, Apply(h, page, Step(y, false)), Step(z, false))
  {
    var h := DeselectHandlers(page.buttons[y].id, arrowMap, false);
    assert [y][1..] + y.children == [z] && [z][1..] + z.children == [];
    RunUnfold(h, y, [y], page, rank, false, [z]);
    ApplyDeselect(page.buttons[y].id, arrowMap, false, page, Step(y, false));
    var p1 := Apply(h, page, Step(y, false));
    DeselectIsBase(page.buttons[y].id, arrowMap, false, z, y, p1);
    assert z.parents[0] == x && z.parents[1] == y;
    assert !p1.buttons[x].selected && !p1.buttons[y].selected;
    assert !Protected(z, y, p1.buttons);
    RunUnfold(h, y, [z], p1, rank, false, []);
    var p2 := Apply(h, p1, Step(z, false));
    assert Run(h, y, [], p2, rank).0 == [] && Run(h, y, [], p2, rank).1 == p2;
    assert [Step(y, false)] + ([Step(z, false)] + []) == [Step(y, false), Step(z, false)];
  }

  /**
    * The diamond with every button selected. Deselecting x stops at z,
    * which y still feeds, so z stays selected; deselecting y afterwards
    * reaches z with no selected parent left and deactivates it.
    */
  lemma DiamondConvergence(s: Node, x: Node, y: Node, z: Node, page: Page, arrowMap: map<string, seq<string>>,
                           rank: map<Node, nat>)
    requires Diamond(s, x, y, z) && rank.Keys == {s, x, y, z} && Acyclic(rank) && Bound(page, rank, arrowMap)
    requires page.buttons[x].selected && page.buttons[y].selected && page.buttons[z].selected
    requires page.buttons[z].id != page.buttons[y].id
    ensures var first := Run(DeselectHandlers(page.buttons[x].id, arrowMap, false), x, [x], page, rank).1;
      x in first.buttons && z in first.buttons && !first.buttons[x].selected && first.buttons[z].selected &&
      y in first.buttons && Bound(first, rank, arrowMap) &&
      var second := Run(DeselectHandlers(first.buttons[y].id, arrowMap, false), y, [y], first, rank).1;
      z in second.buttons && !second.buttons[z].selected && second.buttons[z].disabled
  {
    var xid := page.buttons[x].id;
    var h1 := DeselectHandlers(xid, arrowMap, false);
    DiamondStopsAtZ(s, x, y, z, page, arrowMap, rank);
    ApplyDeselect(xid, arrowMap, false, page, Step(x, false));
    var p1 := Apply(h1, page, Step(x, false));
    BoundKept(page, p1, rank, arrowMap);

    var yid := p1.buttons[y].id;
    var h2 := DeselectHandlers(yid, arrowMap, false);
    DiamondReachesZ(s, x, y, z, p1, arrowMap, rank);
    ApplyDeselect(yid, arrowMap, false, p1, Step(y, false));
    var p2 := Apply(h2, p1, Step(y, false));
    BoundKept(p1, p2, rank, arrowMap);
    ApplyDeselect(yid, arrowMap, false, p2, Step(z, false));
  }
}
