/**
  * `actionSearch`: a breadth-first cascade from one start node. A FIFO queue
  * is seeded with the start node; each node taken from its head is tested
  * with the base-case predicate. A node that is not a base case is handed to
  * the button handler, then to the arrow handler when there is one, and its
  * children are appended to the queue. A base case ends its branch; it is
  * handed to the handlers only when `performOnBase` is set. Nothing records
  * visited nodes, so a node reached along several branches is taken several
  * times.
  *
  * The handlers act on a state of type S that the run passes from call to
  * call, and they cannot change the graph. A Dafny function value cannot read
  * the heap, so the engine reads the current node's parents and passes them
  * to the base-case predicate.
  */
module Search {
  import opened Wrappers
  import opened Digraph

  /** `baseCaseHandler(currentNode, startNode)`: current node, its parents, start node, state. */
  type BaseCase<!S> = (Node, seq<Node>, Node, S) -> bool

  /** `buttonNodeActionHandler(node)` and `arrowNodeActionHandler(node)`. */
  type Handler<!S> = (S, Node) -> S

  /** Everything one call of actionSearch is given besides its start node. */
  datatype Handlers<!S> = Handlers(isBase: BaseCase<S>, onButton: Handler<S>, onArrow: Option<Handler<S>>, performOnBase: bool)

  /** One node taken from the queue, and whether the base-case predicate held for it. */
  datatype Step = Step(node: Node, base: bool)

  /**
    * The graph below the keys of rank is finite and acyclic: rank is a
    * height that strictly drops along every edge, and children of ranked
    * nodes are ranked.
    */
  ghost predicate Acyclic(rank: map<Node, nat>)
    reads rank.Keys
  {
    forall n, m :: n in rank && m in n.children ==> m in rank && rank[m] < rank[n]
  }

  /** The button handler, then the arrow handler when one is given. */
  function Handle<S>(h: Handlers<S>, s: S, n: Node): S
  {
    var s' := h.onButton(s, n);
    if h.onArrow.Some? then h.onArrow.value(s', n) else s'
  }

  /** Whether the handlers run for a step: always off the base case, on it only when asked. */
  predicate Handled<S>(h: Handlers<S>, st: Step)
  {
    !st.base || h.performOnBase
  }

  /** The state after one step. */
  function Apply<S>(h: Handlers<S>, s: S, st: Step): S
  {
    if Handled(h, st) then Handle(h, s, st.node) else s
  }

  /** The state after a sequence of steps, the first step first. */
  function Replay<S>(h: Handlers<S>, s: S, t: seq<Step>): S
    decreases |t|
  {
    if t == [] then s else Replay(h, Apply(h, s, t[0]), t[1..])
  }

  /** The nodes of a trace, in the order they were taken from the queue. */
  function Nodes(t: seq<Step>): (r: seq<Node>)
    ensures |r| == |t| && forall i :: 0 <= i < |t| ==> r[i] == t[i].node
    decreases |t|
  {
    if t == [] then [] else [t[0].node] + Nodes(t[1..])
  }

  /** What the steps of a trace appended to the queue: the children of each step off the base case. */
  ghost function Enqueued(t: seq<Step>): seq<Node>
    reads set st <- t :: st.node
    decreases |t|
  {
    if t == [] then []
    else (if t[0].base then [] else t[0].node.children) + Enqueued(t[1..])
  }

  /** The number of paths that start at n: the size of the tree the graph unfolds into below n. */
  ghost function TreeSize(n: Node, rank: map<Node, nat>): (r: nat)
    requires Acyclic(rank) && n in rank
    reads rank.Keys
    ensures r >= 1
    decreases rank[n], 1, 0
  {
    1 + Forest(n.children, rank, rank[n])
  }

  /** The sum of TreeSize over s, whose ranks are all below bound. */
  ghost function Forest(s: seq<Node>, rank: map<Node, nat>, bound: nat): nat
    requires Acyclic(rank) && forall m <- s :: m in rank && rank[m] < bound
    reads rank.Keys
    decreases bound, 0, |s|
  {
    if s == [] then 0 else TreeSize(s[0], rank) + Forest(s[1..], rank, bound)
  }

  /**
    * The work left in a queue: each node it holds is taken once, and that
    * node together with the nodes below it accounts for at most TreeSize steps.
    */
  ghost function Work(q: seq<Node>, rank: map<Node, nat>): nat
    requires Acyclic(rank) && forall m <- q :: m in rank
    reads rank.Keys
    decreases |q|
  {
    if q == [] then 0 else TreeSize(q[0], rank) + Work(q[1..], rank)
  }

  lemma {:induction false} WorkConcat(a: seq<Node>, b: seq<Node>, rank: map<Node, nat>)
    requires Acyclic(rank) && (forall m <- a :: m in rank) && (forall m <- b :: m in rank)
    ensures Work(a + b, rank) == Work(a, rank) + Work(b, rank)
    decreases |a|
  {
    if a == [] {
      assert a + b == b;
    } else {
      assert (a + b)[1..] == a[1..] + b;
      WorkConcat(a[1..], b, rank);
    }
  }

  lemma {:induction false} ForestIsWork(s: seq<Node>, rank: map<Node, nat>, bound: nat)
    requires Acyclic(rank) && forall m <- s :: m in rank && rank[m] < bound
    ensures Forest(s, rank, bound) == Work(s, rank)
    decreases |s|
  {
    if s != [] {
      ForestIsWork(s[1..], rank, bound);
    }
  }

  /** Taking a node from the queue, and appending its children or not, leaves strictly less work. */
  lemma WorkDrops(q: seq<Node>, base: bool, rank: map<Node, nat>)
    requires Acyclic(rank) && q != [] && forall m <- q :: m in rank
    ensures forall m <- q[0].children :: m in rank
    ensures Work(if base then q[1..] else q[1..] + q[0].children, rank) < Work(q, rank)
  {
    var n := q[0];
    ForestIsWork(n.children, rank, rank[n]);
    WorkConcat(q[1..], n.children, rank);
  }

  /**
    * The run of actionSearch from a queue and a state: the steps it takes,
    * in order, and the final state. The trace has at most one step per path
    * from a queued node, so every run ends.
    */
  ghost function Run<S>(h: Handlers<S>, start: Node, q: seq<Node>, s: S, rank: map<Node, nat>): (r: (seq<Step>, S))
    requires Acyclic(rank) && forall m <- q :: m in rank
    reads rank.Keys
    ensures |r.0| <= Work(q, rank)
    decreases Work(q, rank)
  {
    if q == [] then ([], s)
    else
      var n := q[0];
      var base := h.isBase(n, n.parents, start, s);
      var next := if base then q[1..] else q[1..] + n.children;
      WorkDrops(q, base, rank);
      var rest := Run(h, start, next, Apply(h, s, Step(n, base)), rank);
      ([Step(n, base)] + rest.0, rest.1)
  }

  lemma ConcatAssoc<T>(a: seq<T>, b: seq<T>, c: seq<T>)
    ensures a + (b + c) == a + b + c
  {
  }

  /** One turn of the loop of Run: the head step, then the run from the queue it leaves. */
  lemma RunUnfold<S>(h: Handlers<S>, start: Node, q: seq<Node>, s: S, rank: map<Node, nat>, base: bool, next: seq<Node>)
    requires Acyclic(rank) && q != [] && forall m <- q :: m in rank
    requires base == h.isBase(q[0], q[0].parents, start, s)
    requires next == if base then q[1..] else q[1..] + q[0].children
    ensures (forall m <- next :: m in rank) && Work(next, rank) < Work(q, rank)
    ensures Run(h, start, q, s, rank).0 == [Step(q[0], base)] + Run(h, start, next, Apply(h, s, Step(q[0], base)), rank).0
    ensures Run(h, start, q, s, rank).1 == Run(h, start, next, Apply(h, s, Step(q[0], base)), rank).1
  {
    WorkDrops(q, base, rank);
  }

  /**
    * `actionSearch(startNode, baseCaseHandler, buttonNodeActionHandler,
    * arrowNodeActionHandler, performHandlerOnBase)`. It changes nothing in
    * the heap; its effect is the returned state, and trace records the steps.
    */
  method ActionSearch<S>(start: Node, isBase: BaseCase<S>, onButton: Handler<S>, onArrow: Option<Handler<S>>,
                         performOnBase: bool, s0: S, ghost rank: map<Node, nat>)
    returns (s: S, ghost trace: seq<Step>)
    requires Acyclic(rank) && start in rank
    ensures s == Run(Handlers(isBase, onButton, onArrow, performOnBase), start, [start], s0, rank).1
    ensures trace == Run(Handlers(isBase, onButton, onArrow, performOnBase), start, [start], s0, rank).0
  {
    ghost var h := Handlers(isBase, onButton, onArrow, performOnBase);
    var queue := [start];
    s := s0;
    trace := [];
    ghost var total := Run(h, start, queue, s, rank);
    assert trace + total.0 == total.0;
    while |queue| > 0
      invariant forall m <- queue :: m in rank
      invariant total.0 == trace + Run(h, start, queue, s, rank).0
      invariant total.1 == Run(h, start, queue, s, rank).1
      decreases Work(queue, rank)
    {
      ghost var before, sBefore := queue, s;
      var current := queue[0];
      queue := queue[1..];
      var base := isBase(current, current.parents, start, s);
      if !base {
        s := onButton(s, current);
        if onArrow.Some? {
          s := onArrow.value(s, current);
        }
        queue := queue + current.children;
      } else if performOnBase {
        s := onButton(s, current);
        if onArrow.Some? {
          s := onArrow.value(s, current);
        }
      }
      assert s == Apply(h, sBefore, Step(current, base));
      RunUnfold(h, start, before, sBefore, rank, base, queue);
      ghost var rest := Run(h, start, queue, s, rank).0;
      ConcatAssoc(trace, [Step(current, base)], rest);
      trace := trace + [Step(current, base)];
    }
    assert trace + Run(h, start, queue, s, rank).0 == trace;
  }

  /**
    * FIFO order: the nodes are taken in the order they entered the queue,
    * the initial queue first and then every appended child in the order of
    * appending. The children of a base case are never appended.
    */
  lemma {:induction false} RunFifo<S>(h: Handlers<S>, start: Node, q: seq<Node>, s: S, rank: map<Node, nat>)
    requires Acyclic(rank) && forall m <- q :: m in rank
    ensures Nodes(Run(h, start, q, s, rank).0) == q + Enqueued(Run(h, start, q, s, rank).0)
    decreases Work(q, rank)
  {
    if q != [] {
      var n := q[0];
      var base := h.isBase(n, n.parents, start, s);
      var next := if base then q[1..] else q[1..] + n.children;
      var ch := if base then [] else n.children;
      RunUnfold(h, start, q, s, rank, base, next);
      var t := Run(h, start, q, s, rank).0;
      var t' := Run(h, start, next, Apply(h, s, Step(n, base)), rank).0;
      RunFifo(h, start, next, Apply(h, s, Step(n, base)), rank);
      assert t == [Step(n, base)] + t';
      TraceCons(Step(n, base), t');
      assert next == q[1..] + ch;
      ConcatAssoc(q[1..], ch, Enqueued(t'));
      ConcatAssoc([n], q[1..], ch + Enqueued(t'));
      assert [n] + q[1..] == q;
    }
  }

  /** Nodes and Enqueued of a trace with one more step in front. */
  lemma TraceCons(st: Step, t: seq<Step>)
    ensures Nodes([st] + t) == [st.node] + Nodes(t)
    ensures Enqueued([st] + t) == (if st.base then [] else st.node.children) + Enqueued(t)
  {
    assert ([st] + t)[1..] == t;
  }

  /**
    * The final state is the replay of the trace, and every step's verdict is
    * the base-case predicate applied to that node in the state the steps
    * before it left.
    */
  lemma {:induction false} RunReplay<S>(h: Handlers<S>, start: Node, q: seq<Node>, s: S, rank: map<Node, nat>)
    requires Acyclic(rank) && forall m <- q :: m in rank
    ensures Run(h, start, q, s, rank).1 == Replay(h, s, Run(h, start, q, s, rank).0)
    ensures var t := Run(h, start, q, s, rank).0;
      forall i :: 0 <= i < |t| ==> t[i].base == h.isBase(t[i].node, t[i].node.parents, start, Replay(h, s, t[..i]))
    decreases Work(q, rank)
  {
    if q != [] {
      var n := q[0];
      var base := h.isBase(n, n.parents, start, s);
      var next := if base then q[1..] else q[1..] + n.children;
      var s' := Apply(h, s, Step(n, base));
      RunUnfold(h, start, q, s, rank, base, next);
      RunReplay(h, start, next, s', rank);
      var t := Run(h, start, q, s, rank).0;
      var t' := Run(h, start, next, s', rank).0;
      assert t[0] == Step(n, base) && t[1..] == t';
      forall i | 0 <= i < |t|
        ensures t[i].base == h.isBase(t[i].node, t[i].node.parents, start, Replay(h, s, t[..i]))
      {
        if i > 0 {
          assert t[..i][1..] == t'[..i - 1];
        }
      }
    }
  }

  /** Every node a run takes is ranked: it is queued or below a queued node. */
  lemma {:induction false} RunInRank<S>(h: Handlers<S>, start: Node, q: seq<Node>, s: S, rank: map<Node, nat>)
    requires Acyclic(rank) && forall m <- q :: m in rank
    ensures forall st <- Run(h, start, q, s, rank).0 :: st.node in rank
    decreases Work(q, rank)
  {
    if q != [] {
      var n := q[0];
      var base := h.isBase(n, n.parents, start, s);
      var next := if base then q[1..] else q[1..] + n.children;
      RunUnfold(h, start, q, s, rank, base, next);
      RunInRank(h, start, next, Apply(h, s, Step(n, base)), rank);
    }
  }

  /** Taking a childless node twice, with no base case. */
  lemma LeafTwice<S>(h: Handlers<S>, start: Node, d: Node, s: S, rank: map<Node, nat>)
    requires d.children == [] && Acyclic(rank) && d in rank
    requires forall n: Node, ps: seq<Node>, st: Node, x: S :: !h.isBase(n, ps, st, x)
    ensures Run(h, start, [d, d], s, rank).0 == [Step(d, false), Step(d, false)]
  {
    var s1 := Apply(h, s, Step(d, false));
    assert [d, d][1..] + d.children == [d];
    assert [d][1..] + d.children == [];
    RunUnfold(h, start, [d, d], s, rank, false, [d]);
    RunUnfold(h, start, [d], s1, rank, false, []);
  }

  /** Two siblings sharing one leaf child: the siblings in order, then the leaf twice. */
  lemma SiblingsShareLeaf<S>(h: Handlers<S>, start: Node, b: Node, c: Node, d: Node, s: S, rank: map<Node, nat>)
    requires b.children == [d] && c.children == [d] && d.children == []
    requires Acyclic(rank) && b in rank && c in rank
    requires forall n: Node, ps: seq<Node>, st: Node, x: S :: !h.isBase(n, ps, st, x)
    ensures Run(h, start, [b, c], s, rank).0 == [Step(b, false), Step(c, false), Step(d, false), Step(d, false)]
  {
    var s1 := Apply(h, s, Step(b, false));
    var s2 := Apply(h, s1, Step(c, false));
    assert [b, c][1..] + b.children == [c, d];
    assert [c, d][1..] + c.children == [d, d];
    LeafTwice(h, start, d, s2, rank);
    RunUnfold(h, start, [c, d], s1, rank, false, [d, d]);
    var t1 := Run(h, start, [c, d], s1, rank).0;
    assert t1 == [Step(c, false), Step(d, false), Step(d, false)];
    RunUnfold(h, start, [b, c], s, rank, false, [c, d]);
    assert Run(h, start, [b, c], s, rank).0 == [Step(b, false)] + t1;
  }

  /**
    * Breadth-first order without a visited set, on a -> b, a -> c, b -> d,
    * c -> d with no base case: b and c are taken before d, and d is taken
    * once for each of its two parents.
    */
  lemma BreadthFirstTwice<S>(h: Handlers<S>, a: Node, b: Node, c: Node, d: Node, s: S, rank: map<Node, nat>)
    requires a.children == [b, c] && b.children == [d] && c.children == [d] && d.children == []
    requires Acyclic(rank) && a in rank
    requires forall n: Node, ps: seq<Node>, st: Node, x: S :: !h.isBase(n, ps, st, x)
    ensures Run(h, a, [a], s, rank).0 == [Step(a, false), Step(b, false), Step(c, false), Step(d, false), Step(d, false)]
  {
    assert [a][1..] + a.children == [b, c];
    RunUnfold(h, a, [a], s, rank, false, [b, c]);
    SiblingsShareLeaf(h, a, b, c, d, Apply(h, s, Step(a, false)), rank);
  }
}
