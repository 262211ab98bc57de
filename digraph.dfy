/**
  * The graph node of the diagram: each node keeps the set of its children
  * (forward edges) and the set of its parents (reverse edges), and is bound to
  * the button it represents.
  */
module Digraph {
  import opened Wrappers
  import opened OrderedSets
  import opened Dom

  class Node {
    /** The id of the button this node represents. */
    const buttonId: string
    /** `parents` and `children` are JavaScript Sets, in insertion order. */
    var parents: seq<Node>
    var children: seq<Node>

    /** Neither set holds a node twice. */
    ghost predicate Valid()
      reads this
    {
      NoDup(parents) && NoDup(children)
    }

    /** A node without edges. (The optional button argument is SetButton.) */
    constructor (buttonId: string)
      ensures Valid()
      ensures this.buttonId == buttonId && parents == [] && children == []
    {
      this.buttonId := buttonId;
      parents := [];
      children := [];
    }

    /**
      * `addChild(node)`: the forward edge this -> node and its reverse edge.
      * Nothing else changes; a present edge and a self-loop are accepted as is.
      */
    method AddChild(node: Node, ghost graph: set<Node>)
      modifies this, node
      ensures old(Valid()) && old(node.Valid()) ==> Valid() && node.Valid()
      ensures children == Add(old(children), node)
      ensures node.parents == Add(old(node.parents), this)
      ensures node != this ==> parents == old(parents) && node.children == old(node.children)
      ensures this in graph && node in graph && old(Symmetric(graph)) ==> Symmetric(graph)
    {
      children := Add(children, node);
      node.parents := Add(node.parents, this);
      if old(Valid()) && old(node.Valid()) {
        AddNoDup(old(children), node);
        AddNoDup(old(node.parents), this);
      }
      if this in graph && node in graph && old(Symmetric(graph)) {
        forall a, b | a in graph && b in graph
          ensures b in a.children <==> a in b.parents
        {
          AddMembers(old(children), node, b);
          AddMembers(old(node.parents), this, a);
        }
      }
    }

    /** `addChildren(nodes)`: addChild on each element, in order. */
    method AddChildren(nodes: seq<Node>, ghost graph: set<Node>)
      modifies this, nodes
      ensures children == AddAll(old(children), nodes)
      ensures forall m <- nodes :: m.parents == Add(old(m.parents), this)
      ensures this !in nodes ==> parents == old(parents)
      ensures forall m <- nodes :: m != this ==> m.children == old(m.children)
      ensures this in graph && (forall m <- nodes :: m in graph) && old(Symmetric(graph)) ==> Symmetric(graph)
      ensures old(Valid()) ==> Valid()
    {
      ghost var e0 := Edges(graph);
      ghost var sym0 := Symmetric(graph);
      if sym0 {
        SymmetricAsEdges(graph);
      }
      for i := 0 to |nodes|
        invariant children == AddAll(old(children), nodes[..i])
        invariant forall m <- nodes :: m.parents == if m in nodes[..i] then Add(old(m.parents), this) else old(m.parents)
        invariant this !in nodes ==> parents == old(parents)
        invariant forall m <- nodes :: m != this ==> m.children == old(m.children)
      {
        var node := nodes[i];
        assert nodes[..i + 1] == nodes[..i] + [node];
        label BeforeStep:
        AddChild(node, {});
        forall m <- nodes
          ensures m.parents == if m in nodes[..i + 1] then Add(old(m.parents), this) else old(m.parents)
        {
          if m != node && m != this {
            assert m.parents == old@BeforeStep(m.parents);
          }
        }
      }
      assert nodes[..|nodes|] == nodes;
      if old(Valid()) {
        AddAllExtends(old(children), nodes);
        AddNoDup(old(parents), this);
      }
      if this in graph && (forall m <- nodes :: m in graph) && sym0 {
        AddChildrenKeepsSymmetry(this, nodes, graph, e0);
      }
    }

    /**
      * `removeChild(node)` as written: `children.delete(node) || node.parents.delete(this)`.
      * The `||` short-circuits, so the reverse edge is deleted only when the
      * forward edge was absent.
      */
    method RemoveChild(node: Node) returns (removed: bool)
      modifies this, node
      ensures old(Valid()) && old(node.Valid()) ==> Valid() && node.Valid()
      ensures removed == (node in old(children) || this in old(node.parents))
      ensures children == Remove(old(children), node)
      ensures node.parents == if node in old(children) then old(node.parents) else Remove(old(node.parents), this)
      ensures node != this ==> parents == old(parents) && node.children == old(node.children)
    {
      removed := node in children;
      children := Remove(children, node);
      if !removed {
        removed := this in node.parents;
        node.parents := Remove(node.parents, this);
      }
      if old(Valid()) && old(node.Valid()) {
        RemoveNoDup(old(children), node);
        RemoveNoDup(old(node.parents), this);
      }
    }

    /**
      * `removeChild(node)` as its comment intends: both deletes run and the
      * result says whether either of them removed something.
      */
    method RemoveEdge(node: Node, ghost graph: set<Node>) returns (removed: bool)
      modifies this, node
      ensures old(Valid()) && old(node.Valid()) ==> Valid() && node.Valid()
      ensures removed == (node in old(children) || this in old(node.parents))
      ensures children == Remove(old(children), node)
      ensures node.parents == Remove(old(node.parents), this)
      ensures node != this ==> parents == old(parents) && node.children == old(node.children)
      ensures this in graph && node in graph && old(Symmetric(graph)) ==> Symmetric(graph)
    {
      var forward := node in children;
      children := Remove(children, node);
      var reverse := this in node.parents;
      node.parents := Remove(node.parents, this);
      removed := forward || reverse;
      if old(Valid()) && old(node.Valid()) {
        RemoveNoDup(old(children), node);
        RemoveNoDup(old(node.parents), this);
      }
      if this in graph && node in graph && old(Symmetric(graph)) {
        forall a, b | a in graph && b in graph
          ensures b in a.children <==> a in b.parents
        {
          RemoveMembers(old(children), node, b);
          RemoveMembers(old(node.parents), this, a);
        }
      }
    }
  }

  /** Edge symmetry over a set of nodes: b is a child of a exactly when a is a parent of b. */
  ghost predicate Symmetric(graph: set<Node>)
    reads graph
  {
    forall a, b :: a in graph && b in graph ==> (b in a.children <==> a in b.parents)
  }

  /** The edges of a set of nodes as values: each node's children and parents. */
  ghost function Edges(graph: set<Node>): (e: map<Node, (seq<Node>, seq<Node>)>)
    reads graph
    ensures e.Keys == graph && forall n <- graph :: e[n] == (n.children, n.parents)
  {
    map n | n in graph :: (n.children, n.parents)
  }

  /** Symmetry of edges given as values. */
  ghost predicate SymmetricEdges(e: map<Node, (seq<Node>, seq<Node>)>)
  {
    forall a, b :: a in e && b in e ==> (b in e[a].0 <==> a in e[b].1)
  }

  lemma SymmetricAsEdges(graph: set<Node>)
    requires Symmetric(graph)
    ensures SymmetricEdges(Edges(graph))
  {
  }

  /** The effect of addChildren, stated edge by edge against the edges before, keeps symmetry. */
  lemma AddChildrenKeepsSymmetry(a: Node, nodes: seq<Node>, graph: set<Node>, e0: map<Node, (seq<Node>, seq<Node>)>)
    requires SymmetricEdges(e0) && e0.Keys == graph && a in graph && forall m <- nodes :: m in graph
    requires a.children == AddAll(e0[a].0, nodes)
    requires forall m <- nodes :: m.parents == Add(e0[m].1, a)
    requires a !in nodes ==> a.parents == e0[a].1
    requires forall m <- graph :: m != a ==> m.children == e0[m].0
    requires forall m <- graph :: m != a && m !in nodes ==> m.parents == e0[m].1
    ensures Symmetric(graph)
  {
    forall x, y | x in graph && y in graph
      ensures y in x.children <==> x in y.parents
    {
      AddAllMembers(e0[a].0, nodes, y);
      AddMembers(e0[y].1, a, x);
    }
  }

  /** The as-written removeChild on a symmetric edge: reported removed, reverse edge left behind. */
  method DanglingReverseEdge() returns (a: Node, b: Node, removed: bool)
    ensures removed && b !in a.children && a in b.parents
    ensures !Symmetric({a, b})
  {
    a := new Node("a");
    b := new Node("b");
    a.AddChild(b, {a, b});
    removed := a.RemoveChild(b);
  }

  /** With both deletes run, adding then removing an edge leaves neither direction. */
  method RemovalDuality() returns (a: Node, b: Node, removed: bool)
    ensures removed && b !in a.children && a !in b.parents
    ensures Symmetric({a, b})
  {
    a := new Node("a");
    b := new Node("b");
    a.AddChild(b, {a, b});
    removed := a.RemoveEdge(b, {a, b});
  }

  /**
    * The `#button` caches of the nodes: a node's entry is the button it is
    * bound to; a node without an entry has none cached (null).
    */
  type Buttons = map<Node, Control>

  /**
    * `get button()`: the cached button, or else the result of looking the
    * node's id up through `resolve` (`document.querySelector`), cached when found.
    */
  function GetButton(buttons: Buttons, node: Node, resolve: string -> Option<Control>): (r: (Buttons, Option<Control>))
    ensures node in buttons ==> r == (buttons, Some(buttons[node]))
    ensures node !in buttons ==> r.1 == resolve(node.buttonId)
    ensures r.1.Some? ==> r.0 == buttons[node := r.1.value]
    ensures r.1.None? ==> r.0 == buttons
  {
    if node in buttons then (buttons, Some(buttons[node]))
    else
      match resolve(node.buttonId)
      case Some(b) => (buttons[node := b], Some(b))
      case None => (buttons, None)
  }

  /** `set button(b)`: overwrites the cache; null empties it. */
  function SetButton(buttons: Buttons, node: Node, b: Option<Control>): (r: Buttons)
    ensures forall m <- buttons :: m != node ==> m in r && r[m] == buttons[m]
    ensures forall m <- r :: m == node || m in buttons
    ensures b.Some? ==> node in r && r[node] == b.value
    ensures b.None? ==> node !in r
  {
    if b.Some? then buttons[node := b.value] else buttons - {node}
  }

  /**
    * Once an access has found a button, every later access returns that same
    * button, changes nothing and never consults the resolver again.
    */
  lemma GetButtonCaches(buttons: Buttons, node: Node, resolve: string -> Option<Control>, later: string -> Option<Control>)
    requires GetButton(buttons, node, resolve).1.Some?
    ensures GetButton(GetButton(buttons, node, resolve).0, node, later) == GetButton(buttons, node, resolve)
  {
  }

  /** An access that found nothing caches nothing: the next access asks the resolver again. */
  lemma GetButtonRetries(buttons: Buttons, node: Node, resolve: string -> Option<Control>, later: string -> Option<Control>)
    requires GetButton(buttons, node, resolve).1.None?
    ensures GetButton(GetButton(buttons, node, resolve).0, node, later) == GetButton(buttons, node, later)
  {
  }

  /** A button bound through the setter is what the getter returns, whatever the resolver says. */
  lemma SetThenGet(buttons: Buttons, node: Node, b: Control, resolve: string -> Option<Control>)
    ensures GetButton(SetButton(buttons, node, Some(b)), node, resolve) == (SetButton(buttons, node, Some(b)), Some(b))
  {
  }
}
