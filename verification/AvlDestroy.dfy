/** Taking an AVL tree apart node by node, without rebalancing (bench/filebench/fb_avl.c). */
module AvlDestroy {
  import opened AvlShape
  import opened AvlRotate
  import opened AvlUpdate
  import opened AvlTree

  /** The nodes of a tree, children before parents. */
  function PostOrder(s: Shape): seq<Node> { if s.E? then [] else PostOrder(s.l) + (PostOrder(s.r) + [s.node]) }

  /** The nodes that come after a subtree. */
  function PostAfter(c: Ctx): seq<Node>
  {
    if c.Top? then [] else (if c.dir == 0 then PostOrder(c.sib) else []) + ([c.node] + PostAfter(c.up))
  }

  /** Everything before the subtree is gone already; what comes after it is still balanced. */
  predicate Leftmost(m: Mem, c: Ctx)
  {
    c.Top? || (c.dir <= 1 && (if c.dir == 0 then Bal(m, c.sib) else c.sib.E?) && Leftmost(m, c.up))
  }

  /** The list q starts with n and goes on with the list rest. */
  predicate Next(q: seq<Node>, n: Node, rest: seq<Node>) { q != [] && q[0] == n && q[1..] == rest }

  /** The first node of s in that order, and what is around it. */
  ghost function FirstPlace(c: Ctx, s: Shape): (Ctx, Node)
    requires s.T?
    decreases s
  {
    if s.l.T? then FirstPlace(Frame(0, s.node, s.r, c), s.l)
    else if s.r.T? then (Frame(1, s.node, E, c), s.r.node)
    else (c, s.node)
  }

  lemma {:induction false} PostSplit(s: Shape, rest: seq<Node>)
    requires s.T?
    ensures PostOrder(s.l) + (PostOrder(s.r) + ([s.node] + rest)) == PostOrder(s) + rest
  {
  }

  /** In a balanced tree the first node is a leaf: a node without a left child has at most one node on
      its right. */
  lemma {:induction false} FirstPlaceIs(m: Mem, c: Ctx, s: Shape, root: Node?)
    requires s.T? && InPlace(m, c, s, root) && Bal(m, s) && Leftmost(m, c)
    ensures var (c', y) := FirstPlace(c, s);
            && InPlace(m, c', T(E, y, E), root) && Leftmost(m, c') && Next(PostOrder(s) + PostAfter(c), y, PostAfter(c'))
    decreases s
  {
    if s.l.T? {
      FirstPlaceIs(m, Frame(0, s.node, s.r, c), s.l, root);
      PostSplit(s, PostAfter(c));
    } else if s.r.T? {
      FirstOnRight(m, c, s, root);
    }
  }

  lemma {:induction false} FirstOnRight(m: Mem, c: Ctx, s: Shape, root: Node?)
    requires s.T? && s.l.E? && s.r.T? && InPlace(m, c, s, root) && Bal(m, s) && Leftmost(m, c)
    ensures var (c', y) := FirstPlace(c, s);
            && InPlace(m, c', T(E, y, E), root) && Leftmost(m, c') && Next(PostOrder(s) + PostAfter(c), y, PostAfter(c'))
  {
    assert s.r.l.E? && s.r.r.E?;
    assert PostOrder(s.r) == [] + ([] + [s.r.node]);
    assert [] + ([] + [s.r.node]) == [s.r.node];
    assert PostOrder(s) == [] + ([s.r.node] + [s.node]);
  }

  /** The cookie between two calls: nothing returned yet, or the parent of the node returned last and
      which child that node was. */
  datatype Cookie = Start | At(parent: Node?, child: nat)

  /** Node x was returned last. It is still linked, as a leaf with place c. */
  ghost predicate Returned(t: Tree, cookie: Cookie, c: Ctx, x: Node)
    reads t, t.nodes
  {
    && InPlace(View(t.nodes), c, T(E, x, E), t.root) && Leftmost(View(t.nodes), c) && x in t.nodes
    && cookie.At? && cookie.parent == CtxNode(c) && (c.Frame? ==> cookie.child == c.dir)
    && t.numNodes == 1 + |PostAfter(c)|
  }

  /** Go down to the first node, children before parents, of the subtree at `start`. */
  method Descend(t: Tree, start: Node, parent0: Node?, ghost c0: Ctx, ghost s0: Shape)
          returns (node: Node, parent: Node?)
    requires s0.T? && start == s0.node && start in t.nodes && InPlace(View(t.nodes), c0, s0, t.root)
             && parent0 == CtxNode(c0)
    ensures node == FirstPlace(c0, s0).1 && parent == CtxNode(FirstPlace(c0, s0).0) && node in t.nodes
  {
    node, parent := start, parent0;
    ghost var c, s := c0, s0;
    PlacePointers(View(t.nodes), c, 0, s.l, s.node, s.r, t.root);
    while node.left != null
      invariant s.T? && node == s.node && node in t.nodes && InPlace(View(t.nodes), c, s, t.root)
              && parent == CtxNode(c)
      invariant FirstPlace(c, s) == FirstPlace(c0, s0) && node.left == Root(s.l) && node.right == Root(s.r)
      invariant Opt(node.left) + Opt(node.right) <= t.nodes
      decreases s
    {
      parent := node;
      node := node.left;
      c, s := Frame(0, s.node, s.r, c), s.l;
      PlacePointers(View(t.nodes), c, 0, s.l, s.node, s.r, t.root);
    }
    if node.right != null {
      parent := node;
      node := node.right;
    }
  }

  /** The first call. */
  method DestroyFirst(t: Tree) returns (node: Node?, cookie: Cookie, ghost c: Ctx)
    requires t.Valid()
    ensures t.shape.E? ==> node == null && cookie == At(null, 1) && c == Top
    ensures t.shape.T? ==> node != null && Returned(t, cookie, c, node) && Next(PostOrder(t.shape), node, PostAfter(c))
  {
    if t.root == null {
      return null, At(null, 1), Top;
    }
    PlacePointers(View(t.nodes), Top, 0, t.shape.l, t.shape.node, t.shape.r, t.root);
    FirstPlaceIs(View(t.nodes), Top, t.shape, t.root);
    var parent;
    node, parent := Descend(t, t.root, null, Top, t.shape);
    c := FirstPlace(Top, t.shape).0;
    PlacePointers(View(t.nodes), c, 0, E, node, E, t.root);
    PostLength(t.shape);
    cookie := if parent == null then At(null, 1) else At(parent, node.childIndex);
  }

  lemma {:induction false} PostLength(s: Shape)
    ensures |PostOrder(s)| == |InOrder(s)|
  {
    if s.T? {
      PostLength(s.l);
      PostLength(s.r);
    }
  }

  /** Unlinking the node returned last leaves everything else in place. */
  lemma {:induction false} Unlinked(m: Mem, m': Mem, c: Ctx, x: Node, root: Node?)
    requires c.Frame? && InPlace(m, c, T(E, x, E), root) && Leftmost(m, c) && c.node in m
             && m' == m[c.node := SetChild(m[c.node], c.dir, null)]
    ensures InPlace(m', c, E, root) && Leftmost(m', c.up) && (c.dir == 0 ==> Bal(m', c.sib)) && (c.dir == 1 ==> c.sib.E?)
  {
    InPlaceIs(m, c, T(E, x, E), root);
    RehungBy(m, m', {c.node}, c, x, null);
    RehungKeeps(m, m', c, x, null, 0);
    PlugRoot(c, T(E, x, E), E);
    InPlaceIs(m', c, E, root);
    if c.dir == 0 { KeepsBal(m, m', c.sib); }
    StillLeftmost(m, m', c.up);
  }

  lemma {:induction false} StillLeftmost(m: Mem, m': Mem, c: Ctx)
    requires Leftmost(m, c) && CtxSame(m, m', c)
    ensures Leftmost(m', c)
  {
    if c.Frame? {
      if c.dir == 0 { KeepsBal(m, m', c.sib); }
      StillLeftmost(m, m', c.up);
    }
  }

  /** A call after node x was returned: unlink x and go to the next node. */
  method DestroyNext(t: Tree, cookie: Cookie, ghost c: Ctx, ghost x: Node)
          returns (node: Node?, cookie': Cookie, ghost c': Ctx)
    requires Returned(t, cookie, c, x)
    modifies t`root, t`numNodes, t.nodes
    ensures c.Top? ==> node == null && cookie' == cookie && t.root == null && t.numNodes == 0
    ensures c.Frame? ==> node != null && Returned(t, cookie', c', node) && Next(PostAfter(c), node, PostAfter(c'))
  {
    var parent, child := cookie.parent, cookie.child;
    if parent == null {
      t.root, t.numNodes := null, 0;
      return null, cookie, c;
    }
    ghost var m := View(t.nodes);
    NodeAbove(m, c, T(E, x, E), t.root);
    PutChild(parent, child, null);
    t.numNodes := t.numNodes - 1;
    ghost var m' := View(t.nodes);
    assert m' == m[c.node := SetChild(m[c.node], c.dir, null)];
    Unlinked(m, m', c, x, t.root);
    node, parent, c' := AfterUnlink(t, parent, child, c);
    PlacePointers(m', c', 0, E, node, E, t.root);
    cookie' := if parent == null then At(null, 1) else At(parent, node.childIndex);
  }

  /** The node after an unlinked one: the first node of its parent's right subtree, or the parent. */
  method AfterUnlink(t: Tree, parent0: Node, child: nat, ghost c: Ctx)
          returns (node: Node, parent: Node?, ghost c': Ctx)
    requires c.Frame? && c.node == parent0 && c.dir == child && parent0 in t.nodes
             && InPlace(View(t.nodes), c, E, t.root) && c.dir <= 1
    requires Leftmost(View(t.nodes), c.up) && (c.dir == 0 ==> Bal(View(t.nodes), c.sib)) && (c.dir == 1 ==> c.sib.E?)
    ensures InPlace(View(t.nodes), c', T(E, node, E), t.root) && Leftmost(View(t.nodes), c') && node in t.nodes
            && parent == CtxNode(c')
    ensures Next(PostAfter(c), node, PostAfter(c'))
  {
    ghost var m := View(t.nodes);
    PlacePointers(m, c.up, c.dir, E, c.node, c.sib, t.root);
    if child == 1 || parent0.right == null {
      node, parent, c' := parent0, parent0.parent, c.up;
      ParentIsNext(m, c, t.root);
    } else {
      ghost var f := Frame(1, parent0, E, c.up);
      SiblingIsNext(m, c, t.root);
      node, parent := Descend(t, parent0.right, parent0, f, c.sib);
      c' := FirstPlace(f, c.sib).0;
    }
  }

  lemma {:induction false} ParentIsNext(m: Mem, c: Ctx, root: Node?)
    requires c.Frame? && InPlace(m, c, E, root) && c.sib.E?
    ensures InPlace(m, c.up, T(E, c.node, E), root) && Next(PostAfter(c), c.node, PostAfter(c.up))
  {
    assert Mk(c.dir, E, c.node, c.sib) == T(E, c.node, E);
    assert PostAfter(c) == [] + ([c.node] + PostAfter(c.up));
  }

  lemma {:induction false} SiblingIsNext(m: Mem, c: Ctx, root: Node?)
    requires c.Frame? && c.dir == 0 && c.sib.T? && InPlace(m, c, E, root) && Leftmost(m, c.up) && Bal(m, c.sib)
    ensures var f := Frame(1, c.node, E, c.up);
            var (c', y) := FirstPlace(f, c.sib);
            && InPlace(m, f, c.sib, root) && InPlace(m, c', T(E, y, E), root) && Leftmost(m, c')
            && Next(PostAfter(c), y, PostAfter(c'))
  {
    var f := Frame(1, c.node, E, c.up);
    assert InPlace(m, f, c.sib, root);
    FirstPlaceIs(m, f, c.sib, root);
    AfterSibling(c);
  }

  lemma {:induction false} AfterSibling(c: Ctx)
    requires c.Frame? && c.dir == 0
    ensures PostAfter(c) == PostOrder(c.sib) + PostAfter(Frame(1, c.node, E, c.up))
  {
    var rest := [c.node] + PostAfter(c.up);
    assert PostAfter(Frame(1, c.node, E, c.up)) == [] + rest;
    assert [] + rest == rest;
  }

  /** The whole destruction: every node is returned once, children before parents, and the tree is
      empty afterwards. */
  method DestroyAll(t: Tree) returns (order: seq<Node>)
    requires t.Valid()
    modifies t`root, t`numNodes, t.nodes
    ensures order == old(PostOrder(t.shape)) && t.root == null && t.numNodes == 0
  {
    ghost var left := PostOrder(t.shape);
    var node, cookie;
    ghost var c;
    node, cookie, c := DestroyFirst(t);
    order := [];
    while node != null
      invariant order + left == old(PostOrder(t.shape))
      invariant node != null ==> Returned(t, cookie, c, node) && left != [] && left[0] == node && left[1..] == PostAfter(c)
      invariant node == null ==> left == [] && t.root == null && t.numNodes == 0
      decreases |left|
    {
      var last: Node := node;
      Shift(order, left);
      node, cookie, c := DestroyNext(t, cookie, c, last);
      order, left := order + [last], left[1..];
    }
  }

  lemma {:induction false} Shift(a: seq<Node>, b: seq<Node>)
    requires b != []
    ensures (a + [b[0]]) + b[1..] == a + b
  {
  }
}
