/** Searching an AVL tree, walking between neighbours, and inserting and removing by value
    (bench/filebench/fb_avl.c). */
module AvlSearch {
  import opened AvlShape
  import opened AvlRotate
  import opened AvlUpdate
  import opened AvlTree

  // ----- the place of a node -----

  /** What is around a node of s, and the subtree at the node. */
  ghost function PlaceOf(s: Shape, n: Node, c: Ctx): (Ctx, Shape)
    requires n in Nodes(s)
    decreases s
  {
    if s.node == n then (c, s)
    else if n in Nodes(s.l) then PlaceOf(s.l, n, Frame(0, s.node, s.r, c))
    else PlaceOf(s.r, n, Frame(1, s.node, s.l, c))
  }

  lemma {:induction false} PlaceOfIs(s: Shape, n: Node, c: Ctx)
    requires n in Nodes(s) && CtxDirs(c)
    ensures var (c', s') := PlaceOf(s, n, c);
            CtxDirs(c') && s'.T? && s'.node == n && Plug(c', s') == Plug(c, s)
    decreases s
  {
    if s.node == n {
    } else if n in Nodes(s.l) {
      PlaceOfIs(s.l, n, Frame(0, s.node, s.r, c));
    } else {
      PlaceOfIs(s.r, n, Frame(1, s.node, s.l, c));
    }
  }

  /** The position of a node in the order of the tree. */
  ghost function IndexOf(s: Shape, n: Node): nat
    requires n in Nodes(s)
  {
    var (c, s') := PlaceOf(s, n, Top);
    PlaceOfIs(s, n, Top);
    |Before(c)| + |InOrder(s'.l)|
  }

  lemma {:induction false} IndexIs(t: Tree, n: Node)
    requires t.Valid() && n in t.nodes
    ensures var (c, s) := PlaceOf(t.shape, n, Top);
            && s.T? && s.node == n && CtxDirs(c) && Plug(c, s) == t.shape && CtxDistinct(c) && Sound(View(t.nodes), c, s, t.root)
            && InOrder(t.shape) == Before(c) + ((InOrder(s.l) + ([n] + InOrder(s.r))) + After(c))
            && IndexOf(t.shape, n) < |InOrder(t.shape)| && InOrder(t.shape)[IndexOf(t.shape, n)] == n
  {
    var (c, s) := PlaceOf(t.shape, n, Top);
    PlaceOfIs(t.shape, n, Top);
    PlaceReady(View(t.nodes), View(t.nodes), c, s, t.root);
  }

  // ----- neighbours -----

  /** Going up, the first node that is left towards side d. */
  function Turn(c: Ctx, d: nat): Node?
  {
    if c.Top? then null else if c.dir != d then c.node else Turn(c.up, d)
  }

  lemma {:induction false} TurnBefore(c: Ctx)
    requires CtxDirs(c)
    ensures Turn(c, 0) == null <==> Before(c) == []
    ensures Before(c) != [] ==> Turn(c, 0) == Before(c)[|Before(c)| - 1]
  {
    if c.Frame? { TurnBefore(c.up); }
  }

  lemma {:induction false} TurnAfter(c: Ctx)
    requires CtxDirs(c)
    ensures Turn(c, 1) == null <==> After(c) == []
    ensures After(c) != [] ==> Turn(c, 1) == After(c)[0]
  {
    if c.Frame? { TurnAfter(c.up); }
  }

  /** Go up from a node until an edge leads towards the other side. */
  method Climb(t: Tree, start: Node, d: nat, ghost c0: Ctx, ghost s0: Shape) returns (node: Node?)
    requires d <= 1 && s0.T? && start == s0.node && start in t.nodes && InPlace(View(t.nodes), c0, s0, t.root)
             && CtxDirs(c0)
    ensures node == Turn(c0, d)
  {
    node := start;
    ghost var c, s := c0, s0;
    while true
      invariant node != null && s.T? && node == s.node && node in t.nodes && CtxDirs(c)
      invariant InPlace(View(t.nodes), c, s, t.root) && Turn(c, d) == Turn(c0, d)
      decreases c
    {
      PlacePointers(View(t.nodes), c, 0, s.l, s.node, s.r, t.root);
      var wasChild := node.childIndex;
      node := node.parent;
      if node == null {
        return;
      }
      if wasChild != d {
        return;
      }
      s, c := Mk(c.dir, s, c.node, c.sib), c.up;
    }
  }

  /** The neighbour of the node at the root of s, on side d. */
  function NeighbourOf(c: Ctx, s: Shape, d: nat): Node?
    requires s.T? && d <= 1
  {
    if Sub(s, d).T? then Last(Sub(s, d), 1 - d) else Turn(c, d)
  }

  method WalkFrom(t: Tree, node: Node, d: nat, ghost c: Ctx, ghost s: Shape) returns (next: Node?)
    requires d <= 1 && s.T? && s.node == node && node in t.nodes && InPlace(View(t.nodes), c, s, t.root) && CtxDirs(c)
    ensures next == NeighbourOf(c, s, d)
  {
    assert s == Mk(d, Sub(s, d), node, Sub(s, 1 - d));
    PlacePointers(View(t.nodes), c, d, Sub(s, d), node, Sub(s, 1 - d), t.root);
    if ChildOf(node, d) != null {
      next := t.Neighbour(node, d, c, Sub(s, d), Sub(s, 1 - d));
    } else {
      next := Climb(t, node, d, c, s);
    }
  }

  /** The node before (side 0) or after (side 1) position k of an order. */
  function Adjacent(o: seq<Node>, k: nat, d: nat): Node?
    requires k < |o|
  {
    if d == 0 then if k == 0 then null else o[k - 1] else if k + 1 == |o| then null else o[k + 1]
  }

  lemma {:induction false} NeighbourBefore(c: Ctx, s: Shape)
    requires s.T? && CtxDirs(c)
    ensures var o, k := Before(c) + ((InOrder(s.l) + ([s.node] + InOrder(s.r))) + After(c)), |Before(c)| + |InOrder(s.l)|;
            NeighbourOf(c, s, 0) == Adjacent(o, k, 0)
  {
    if s.l.T? { LastOrder(s.l); } else { TurnBefore(c); }
  }

  lemma {:induction false} NeighbourAfter(c: Ctx, s: Shape)
    requires s.T? && CtxDirs(c)
    ensures var o, k := Before(c) + ((InOrder(s.l) + ([s.node] + InOrder(s.r))) + After(c)), |Before(c)| + |InOrder(s.l)|;
            NeighbourOf(c, s, 1) == Adjacent(o, k, 1)
  {
    if s.r.T? { FirstOrder(s.r); } else { TurnAfter(c); }
  }

  /** The node next to another one in the order of the tree: before it for side 0, after it for side 1. */
  method Walk(t: Tree, node: Node, d: nat) returns (next: Node?)
    requires t.Valid() && node in t.nodes && d <= 1
    ensures var o, k := InOrder(t.shape), IndexOf(t.shape, node);
            k < |o| && o[k] == node && next == Adjacent(o, k, d)
  {
    AdjacentIs(t, node, d);
    ghost var (c, s) := PlaceOf(t.shape, node, Top);
    next := WalkFrom(t, node, d, c, s);
  }

  lemma {:induction false} AdjacentIs(t: Tree, n: Node, d: nat)
    requires t.Valid() && n in t.nodes && d <= 1
    ensures var (c, s) := PlaceOf(t.shape, n, Top);
            var o, k := InOrder(t.shape), IndexOf(t.shape, n);
            && s.T? && s.node == n && InPlace(View(t.nodes), c, s, t.root) && CtxDirs(c)
            && k < |o| && o[k] == n && NeighbourOf(c, s, d) == Adjacent(o, k, d)
  {
    IndexIs(t, n);
    var (c, s) := PlaceOf(t.shape, n, Top);
    NeighbourIs(c, s, d, InOrder(t.shape), IndexOf(t.shape, n));
  }

  lemma {:induction false} NeighbourIs(c: Ctx, s: Shape, d: nat, o: seq<Node>, k: nat)
    requires s.T? && CtxDirs(c) && d <= 1
    requires o == Before(c) + ((InOrder(s.l) + ([s.node] + InOrder(s.r))) + After(c))
             && k == |Before(c)| + |InOrder(s.l)|
    ensures NeighbourOf(c, s, d) == Adjacent(o, k, d)
  {
    if d == 0 { NeighbourBefore(c, s); } else { NeighbourAfter(c, s); }
  }

  /** The first node in the order for side 0, the last one for side 1. */
  method End(t: Tree, d: nat) returns (node: Node?)
    requires t.Valid() && d <= 1
    ensures var o := InOrder(t.shape);
            node == if o == [] then null else if d == 0 then o[0] else o[|o| - 1]
  {
    if t.root == null {
      return null;
    }
    PlacePointers(View(t.nodes), Top, 0, t.shape.l, t.shape.node, t.shape.r, t.root);
    node := t.Outermost(t.root, d, Top, t.shape);
    if d == 0 { FirstOrder(t.shape); } else { LastOrder(t.shape); }
  }

  // ----- searching by value -----

  /** The keys grow along the order of the tree. */
  ghost predicate Increasing(q: seq<Node>)
  {
    forall i, j :: 0 <= i < j < |q| ==> q[i].key < q[j].key
  }

  ghost predicate AllBelow(q: seq<Node>, key: int) { forall i :: 0 <= i < |q| ==> q[i].key < key }

  ghost predicate AllAbove(q: seq<Node>, key: int) { forall i :: 0 <= i < |q| ==> key < q[i].key }

  /** The parts of an increasing order around one of its nodes. */
  lemma {:induction false} IncreasingAround(b: seq<Node>, l: seq<Node>, n: Node, r: seq<Node>, a: seq<Node>)
    requires Increasing(b + ((l + ([n] + r)) + a))
    ensures AllBelow(l, n.key) && AllAbove(r, n.key)
  {
    var q := b + ((l + ([n] + r)) + a);
    var k := |b| + |l|;
    assert q[k] == n;
    forall i | 0 <= i < |l| ensures l[i].key < n.key { assert q[|b| + i] == l[i]; }
    forall i | 0 <= i < |r| ensures n.key < r[i].key { assert q[k + 1 + i] == r[i]; }
  }

  lemma {:induction false} BelowStep(c: Ctx, s: Shape, key: int, d: nat)
    requires s.T? && d <= 1 && Increasing(Before(c) + (InOrder(s) + After(c)))
    requires AllBelow(Before(c), key) && AllAbove(After(c), key) && (if d == 0 then key < s.node.key else s.node.key < key)
    ensures var c' := Frame(d, s.node, Sub(s, 1 - d), c); AllBelow(Before(c'), key) && AllAbove(After(c'), key)
  {
    IncreasingAround(Before(c), InOrder(s.l), s.node, InOrder(s.r), After(c));
  }

  /** Search for a key. When it is not there, the result is the place where it belongs: below child
      `which` of `parent`. */
  method Find(t: Tree, key: int) returns (found: Node?, parent: Node?, which: nat, ghost c: Ctx)
    requires t.Valid() && Increasing(InOrder(t.shape))
    ensures found != null ==> found in t.nodes && found.key == key
    ensures found == null ==> CtxDirs(c) && Plug(c, E) == t.shape && which <= 1 && parent == CtxNode(c) && (c.Frame? ==> which == c.dir)
    ensures found == null ==> AllBelow(Before(c), key) && AllAbove(After(c), key)
  {
    var node := t.root;
    parent, which, c := null, 0, Top;
    ghost var s := t.shape;
    while node != null
      invariant CtxDirs(c) && Plug(c, s) == t.shape && node == Root(s) && which <= 1 && parent == CtxNode(c) && (c.Frame? ==> which == c.dir)
      invariant AllBelow(Before(c), key) && AllAbove(After(c), key)
      decreases s
    {
      PlaceReady(View(t.nodes), View(t.nodes), c, s, t.root);
      PlacePointers(View(t.nodes), c, 0, s.l, s.node, s.r, t.root);
      if key == node.key {
        return node, null, 0, Top;
      }
      parent := node;
      which := if key < node.key then 0 else 1;
      BelowStep(c, s, key, which);
      c, s := Frame(which, s.node, Sub(s, 1 - which), c), Sub(s, which);
      node := ChildOf(node, which);
    }
    found := null;
  }

  lemma {:induction false} InsertedIncreases(b: seq<Node>, a: seq<Node>, n: Node)
    requires Increasing(b + a) && AllBelow(b, n.key) && AllAbove(a, n.key)
    ensures Increasing(b + ([n] + a))
  {
    var p, q := b + a, b + ([n] + a);
    forall i, j | 0 <= i < j < |q| ensures q[i].key < q[j].key {
      if i < |b| && j > |b| { assert p[i] == q[i] && p[j - 1] == q[j]; }
      if i > |b| { assert p[i - 1] == q[i] && p[j - 1] == q[j]; }
      if j < |b| { assert p[i] == q[i] && p[j] == q[j]; }
    }
  }

  /** Add a node at the place where its key belongs, unless the key is there already. */
  method Add(t: Tree, node: Node) returns (added: bool, ghost k: nat)
    requires t.Valid() && Increasing(InOrder(t.shape)) && node !in t.nodes
    modifies t, node, t.nodes
    ensures t.Valid() && Increasing(InOrder(t.shape))
    ensures added <==> forall n :: n in old(t.nodes) ==> n.key != node.key
    ensures !added ==> unchanged(t) && unchanged(t.nodes)
    ensures added ==> var o := old(InOrder(t.shape)); k <= |o| && InOrder(t.shape) == o[..k] + ([node] + o[k..]) && t.nodes == old(t.nodes) + {node}
  {
    var found, parent, which;
    ghost var c;
    found, parent, which, c := Find(t, node.key);
    k := 0;
    if found != null {
      return false, 0;
    }
    ghost var o := InOrder(t.shape);
    PlaceReady(View(t.nodes), View(t.nodes), c, E, t.root);
    assert o == Before(c) + After(c);
    AbsentKey(t.shape, Before(c), After(c), node.key);
    InsertedIncreases(Before(c), After(c), node);
    k := |Before(c)|;
    var rotations := t.Insert(node, parent, which, c);
    added := true;
  }

  lemma {:induction false} AbsentKey(s: Shape, b: seq<Node>, a: seq<Node>, key: int)
    requires InOrder(s) == b + a && AllBelow(b, key) && AllAbove(a, key)
    ensures forall n :: n in Nodes(s) ==> n.key != key
  {
    forall n | n in Nodes(s) ensures n.key != key { NodesAreInOrder(s, n); }
  }

  /** The node before a place that a search found, for side 0, or after it, for side 1. */
  method Nearest(t: Tree, parent: Node?, which: nat, d: nat, ghost c: Ctx) returns (near: Node?)
    requires t.Valid() && CtxDirs(c) && Plug(c, E) == t.shape && which <= 1 && d <= 1
    requires parent == CtxNode(c) && (c.Frame? ==> which == c.dir)
    ensures if d == 0 then near == (if Before(c) == [] then null else Before(c)[|Before(c)| - 1])
            else near == (if After(c) == [] then null else After(c)[0])
  {
    if d == 0 { TurnBefore(c); } else { TurnAfter(c); }
    if parent == null {
      return null;
    }
    if which != d {
      return parent;
    }
    PlaceReady(View(t.nodes), View(t.nodes), c, E, t.root);
    near := Climb(t, parent, d, c.up, Mk(c.dir, E, c.node, c.sib));
  }

  /** The empty place next to the node at the root of s, on side d. */
  ghost function EmptyPlace(c: Ctx, s: Shape, d: nat): Ctx
    requires s.T? && d <= 1
  {
    var f, x := Frame(d, s.node, Sub(s, 1 - d), c), Sub(s, d);
    if x.E? then f else Frame(1 - d, Last(x, 1 - d), Rest(x, 1 - d), Deep(f, x, 1 - d))
  }

  lemma {:induction false} DeepPlug(c: Ctx, x: Shape, e: nat)
    requires x.T? && e <= 1 && CtxDirs(c)
    ensures CtxDirs(Deep(c, x, e)) && Plug(Deep(c, x, e), Mk(e, E, Last(x, e), Rest(x, e))) == Plug(c, x)
    decreases x
  {
    if Sub(x, e).T? { DeepPlug(Frame(e, x.node, Sub(x, 1 - e), c), Sub(x, e), e); }
  }

  lemma {:induction false} DeepFirst(c: Ctx, x: Shape)
    requires x.T?
    ensures var p := Frame(0, Last(x, 0), Rest(x, 0), Deep(c, x, 0));
            Before(p) == Before(c) && After(p) == InOrder(x) + After(c)
    decreases x
  {
    if x.l.T? {
      DeepFirst(Frame(0, x.node, x.r, c), x.l);
      assert InOrder(x.l) + (([x.node] + InOrder(x.r)) + After(c)) == InOrder(x) + After(c);
    } else {
      assert InOrder(x) == [x.node] + InOrder(x.r);
    }
  }

  lemma {:induction false} DeepLast(c: Ctx, x: Shape)
    requires x.T?
    ensures var p := Frame(1, Last(x, 1), Rest(x, 1), Deep(c, x, 1));
            Before(p) == Before(c) + InOrder(x) && After(p) == After(c)
    decreases x
  {
    if x.r.T? {
      DeepLast(Frame(1, x.node, x.l, c), x.r);
      assert (Before(c) + (InOrder(x.l) + [x.node])) + InOrder(x.r) == Before(c) + InOrder(x);
    } else {
      assert InOrder(x) == InOrder(x.l) + [x.node];
    }
  }

  lemma {:induction false} HerePlace(c: Ctx, s: Shape, d: nat)
    requires s.T? && d <= 1 && CtxDirs(c)
    ensures var p := EmptyPlace(c, s, d);
            && CtxDirs(p) && Plug(p, E) == Plug(c, s)
            && Before(p) == Before(c) + (InOrder(s.l) + if d == 0 then [] else [s.node])
            && After(p) == ((if d == 0 then [s.node] else []) + InOrder(s.r)) + After(c)
  {
    if d == 0 { HereBefore(c, s); } else { HereAfter(c, s); }
  }

  lemma {:induction false} HereBefore(c: Ctx, s: Shape)
    requires s.T? && CtxDirs(c)
    ensures var p := EmptyPlace(c, s, 0);
            && CtxDirs(p) && Plug(p, E) == Plug(c, s)
            && Before(p) == Before(c) + (InOrder(s.l) + []) && After(p) == ([s.node] + InOrder(s.r)) + After(c)
  {
    if s.l.T? {
      DeepPlug(Frame(0, s.node, s.r, c), s.l, 1);
      DeepLast(Frame(0, s.node, s.r, c), s.l);
    }
  }

  lemma {:induction false} HereAfter(c: Ctx, s: Shape)
    requires s.T? && CtxDirs(c)
    ensures var p := EmptyPlace(c, s, 1);
            && CtxDirs(p) && Plug(p, E) == Plug(c, s)
            && Before(p) == Before(c) + (InOrder(s.l) + [s.node]) && After(p) == ([] + InOrder(s.r)) + After(c)
  {
    if s.r.T? {
      DeepPlug(Frame(1, s.node, s.l, c), s.r, 0);
      DeepFirst(Frame(1, s.node, s.l, c), s.r);
    }
  }

  /** Find the empty place next to a node, on side d. */
  method FindEmpty(t: Tree, here: Node, d: nat, ghost c: Ctx, ghost s: Shape) returns (parent: Node, which: nat)
    requires d <= 1 && s.T? && s.node == here && here in t.nodes && InPlace(View(t.nodes), c, s, t.root)
    ensures which <= 1 && parent == CtxNode(EmptyPlace(c, s, d)) && which == EmptyPlace(c, s, d).dir
  {
    assert s == Mk(d, Sub(s, d), here, Sub(s, 1 - d));
    PlacePointers(View(t.nodes), c, d, Sub(s, d), here, Sub(s, 1 - d), t.root);
    parent, which := here, d;
    if ChildOf(here, d) != null {
      parent := t.Neighbour(here, d, c, Sub(s, d), Sub(s, 1 - d));
      which := 1 - d;
    }
  }

  lemma {:induction false} CutBefore(b: seq<Node>, l: seq<Node>, n: Node, r: seq<Node>, a: seq<Node>)
    ensures var o, k := b + ((l + ([n] + r)) + a), |b| + |l|;
            o[..k] == b + (l + []) && o[k..] == ([n] + r) + a
  {
  }

  lemma {:induction false} CutAfter(b: seq<Node>, l: seq<Node>, n: Node, r: seq<Node>, a: seq<Node>)
    ensures var o, k := b + ((l + ([n] + r)) + a), |b| + |l| + 1;
            o[..k] == b + (l + [n]) && o[k..] == ([] + r) + a
  {
  }

  lemma {:induction false} HereOrder(c: Ctx, s: Shape, d: nat, o: seq<Node>, k: nat)
    requires s.T? && d <= 1 && CtxDirs(c) && o == Before(c) + ((InOrder(s.l) + ([s.node] + InOrder(s.r))) + After(c))
    requires k == |Before(c)| + |InOrder(s.l)| + d
    ensures var p := EmptyPlace(c, s, d);
            CtxDirs(p) && Plug(p, E) == Plug(c, s) && k <= |o| && Before(p) == o[..k] && After(p) == o[k..]
  {
    HerePlace(c, s, d);
    if d == 0 {
      CutBefore(Before(c), InOrder(s.l), s.node, InOrder(s.r), After(c));
    } else {
      CutAfter(Before(c), InOrder(s.l), s.node, InOrder(s.r), After(c));
    }
  }

  /** Insert a node right before (side 0) or right after (side 1) another one. */
  method InsertHere(t: Tree, node: Node, here: Node, d: nat)
    requires t.Valid() && here in t.nodes && node !in t.nodes && d <= 1
    modifies t, node, t.nodes
    ensures t.Valid() && t.nodes == old(t.nodes) + {node}
    ensures var o, k := old(InOrder(t.shape)), old(IndexOf(t.shape, here)) + d;
            k <= |o| && InOrder(t.shape) == o[..k] + ([node] + o[k..])
  {
    PlaceBeside(t, here, d);
    ghost var (c, s) := PlaceOf(t.shape, here, Top);
    ghost var p, o, k := EmptyPlace(c, s, d), InOrder(t.shape), IndexOf(t.shape, here) + d;
    assert Before(p) == o[..k] && After(p) == o[k..];
    var parent, which := FindEmpty(t, here, d, c, s);
    var rotations := t.Insert(node, parent, which, p);
  }

  /** The order on both sides of the empty place next to a node. */
  lemma {:induction false} PlaceBeside(t: Tree, here: Node, d: nat)
    requires t.Valid() && here in t.nodes && d <= 1
    ensures var (c, s) := PlaceOf(t.shape, here, Top);
            && s.T? && s.node == here && InPlace(View(t.nodes), c, s, t.root)
            && var p := EmptyPlace(c, s, d);
               var o, k := InOrder(t.shape), IndexOf(t.shape, here) + d;
               CtxDirs(p) && Plug(p, E) == t.shape && k <= |o| && Before(p) == o[..k] && After(p) == o[k..]
  {
    IndexIs(t, here);
    var (c, s) := PlaceOf(t.shape, here, Top);
    HereOrder(c, s, d, InOrder(t.shape), IndexOf(t.shape, here) + d);
  }

  /** Remove a node. */
  method RemoveNode(t: Tree, node: Node)
    requires t.Valid() && node in t.nodes
    modifies t, t.nodes
    ensures t.Valid() && t.nodes == old(t.nodes) - {node}
    ensures var o, k := old(InOrder(t.shape)), old(IndexOf(t.shape, node));
            k < |o| && o[k] == node && InOrder(t.shape) == o[..k] + o[k + 1..]
  {
    IndexIs(t, node);
    ghost var (c, s) := PlaceOf(t.shape, node, Top);
    CutOut(InOrder(t.shape), IndexOf(t.shape, node), Before(c), InOrder(s.l), node, InOrder(s.r), After(c));
    t.Remove(node, c, s);
  }

  lemma {:induction false} CutOut(o: seq<Node>, k: nat, b: seq<Node>, l: seq<Node>, n: Node, r: seq<Node>, a: seq<Node>)
    requires o == b + ((l + ([n] + r)) + a) && k == |b| + |l|
    ensures k < |o| && o[k] == n && o[..k] + o[k + 1..] == b + ((l + r) + a)
  {
    assert o[..k] == b + l && o[k + 1..] == r + a;
  }
}
