/** The AVL tree with parent links and its operations (bench/filebench/fb_avl.c). */
module AvlTree {
  import opened AvlShape
  import opened AvlRotate
  import opened AvlUpdate

  // ----- single fields -----

  function ChildOf(n: Node, d: nat): Node?
    reads n
  {
    if d == 0 then n.left else n.right
  }

  function RecOf(n: Node): Rec
    reads n
  {
    Rec(n.left, n.right, n.parent, n.childIndex, n.balance)
  }

  predicate Apart(n: Node?, a: Node, b: Node) { n != a && n != b }

  method PutChild(n: Node, d: nat, c: Node?)
    modifies n
    ensures RecOf(n) == SetChild(old(RecOf(n)), d, c)
  {
    if d == 0 {
      n.left := c;
    } else {
      n.right := c;
    }
  }

  /** Make c, if there is one, child d of n, and n its parent. */
  method Hang(n: Node, d: nat, c: Node?)
    requires n != c
    modifies {n} + Opt(c)
    ensures RecOf(n) == SetChild(old(RecOf(n)), d, c)
    ensures c != null ==> RecOf(c) == old(RecOf(c)).(parent := n, ci := d)
  {
    PutChild(n, d, c);
    if c != null {
      c.parent, c.childIndex := n, d;
    }
  }

  /** Node n takes over the subtree on side d of g, becomes child d of g itself, and gets a balance. */
  method Adopt(g: Node, d: nat, n: Node, bal: int)
    requires d <= 1 && n != g && Apart(ChildOf(g, d), n, g)
    modifies {n, g} + Opt(ChildOf(g, d))
    ensures RecOf(n) == SetChild(old(RecOf(n)), 1 - d, old(ChildOf(g, d))).(parent := g, ci := d, bal := bal)
    ensures RecOf(g) == SetChild(old(RecOf(g)), d, n)
    ensures var b := old(ChildOf(g, d)); b != null ==> RecOf(b) == old(RecOf(b)).(parent := n, ci := 1 - d)
  {
    Hang(n, 1 - d, ChildOf(g, d));
    Hang(g, d, n);
    n.balance := bal;
  }

  /** Two nodes take over the subtrees of g and become its children. */
  method AdoptBoth(g: Node, d: nat, x: Node, balX: int, n: Node, balN: int)
    requires d <= 1 && x != n && g != x && g != n && Apart(ChildOf(g, d), n, g) && Apart(ChildOf(g, 1 - d), n, g)
    requires ChildOf(g, d) != x && ChildOf(g, 1 - d) != x && (ChildOf(g, d) == ChildOf(g, 1 - d) ==> ChildOf(g, d) == null)
    modifies {g, x, n} + Opt(ChildOf(g, 0)) + Opt(ChildOf(g, 1))
    ensures RecOf(x) == SetChild(old(RecOf(x)), 1 - d, old(ChildOf(g, d))).(parent := g, ci := d, bal := balX)
    ensures RecOf(n) == SetChild(old(RecOf(n)), d, old(ChildOf(g, 1 - d))).(parent := g, ci := 1 - d, bal := balN)
    ensures RecOf(g) == SetChild(SetChild(old(RecOf(g)), d, x), 1 - d, n)
    ensures var b := old(ChildOf(g, d)); b != null ==> RecOf(b) == old(RecOf(b)).(parent := x, ci := 1 - d)
    ensures var e := old(ChildOf(g, 1 - d)); e != null ==> RecOf(e) == old(RecOf(e)).(parent := n, ci := d)
  {
    Adopt(g, d, x, balX);
    Adopt(g, 1 - d, n, balN);
  }

  // ----- the tree -----

  class Tree {
    var root: Node?
    var numNodes: nat
    ghost var shape: Shape
    ghost var nodes: set<Node>

    /** Make `child` take the place that child `which` of `parent`, or the root, had. */
    method Replace(parent: Node?, which: nat, child: Node?)
      modifies this`root, Opt(parent)
      ensures parent == null ==> root == child
      ensures parent != null ==> root == old(root) && RecOf(parent) == SetChild(old(RecOf(parent)), which, child)
    {
      if parent != null {
        PutChild(parent, which, child);
      } else {
        root := child;
      }
    }

    /** Move the heavy child of `node` into its place; b is its inner child. */
    method RotateOnce(node: Node, d: nat, child: Node, parent: Node?, b: Node?)
      requires d <= 1 && node != child && parent == node.parent && b == ChildOf(child, 1 - d)
      requires Apart(parent, node, child) && Apart(b, node, child) && (parent != null ==> parent != b)
      modifies this`root, {node, child} + Opt(b) + Opt(parent)
      ensures RecOf(node) == SetChild(old(RecOf(node)), d, b).(bal := Sign(d) - old(child.balance), ci := 1 - d, parent := child)
      ensures RecOf(child) == SetChild(old(RecOf(child)), 1 - d, node).(bal := old(child.balance) - Sign(d), ci := old(node.childIndex), parent := parent)
      ensures b != null ==> RecOf(b) == old(RecOf(b)).(parent := node, ci := d)
      ensures parent != null ==> RecOf(parent) == SetChild(old(RecOf(parent)), old(node.childIndex), child)
      ensures root == if parent == null then child else old(root)
    {
      var which, bal := node.childIndex, child.balance - Sign(d);
      Hang(node, d, b);
      Hang(child, 1 - d, node);
      node.balance := -bal;
      child.balance, child.childIndex, child.parent := bal, which, parent;
      Replace(parent, which, child);
    }

    method OnceOn(node: Node, d: nat, child: Node, parent: Node?, b: Node?, ghost ns: set<Node>)
      requires d <= 1 && node != child && parent == node.parent && b == ChildOf(child, 1 - d)
      requires Apart(parent, node, child) && Apart(b, node, child) && (parent != null ==> parent != b)
      requires {node, child} + Opt(b) + Opt(parent) <= ns
      modifies this`root, {node, child} + Opt(b) + Opt(parent)
      ensures OnceDone(old(View(ns)), View(ns), d, node, child)
      ensures root == if parent == null then child else old(root)
    {
      RotateOnce(node, d, child, parent, b);
    }

    /** Move the inner grandchild g of `node`, below its heavy child, into the place of `node`; b and e
        are the children of g. */
    method RotateTwice(node: Node, d: nat, child: Node, g: Node, parent: Node?, b: Node?, e: Node?)
      requires d <= 1 && node != child && node != g && child != g
      requires parent == node.parent && b == ChildOf(g, d) && e == ChildOf(g, 1 - d)
      requires Apart(b, node, g) && Apart(e, node, g) && b != child && e != child && (b == e ==> b == null)
      requires parent != null ==> Apart(parent, node, g) && parent != child && parent != b && parent != e
      modifies this`root, {node, child, g} + Opt(b) + Opt(e) + Opt(parent)
      ensures RecOf(node) == SetChild(old(RecOf(node)), d, e).(bal := NodeBal(d, old(g.balance)), ci := 1 - d, parent := g)
      ensures RecOf(child) == SetChild(old(RecOf(child)), 1 - d, b).(bal := ChildBal(d, old(g.balance)), ci := d, parent := g)
      ensures RecOf(g) == SetChild(SetChild(old(RecOf(g)), d, child), 1 - d, node).(bal := 0, ci := old(node.childIndex), parent := parent)
      ensures b != null ==> RecOf(b) == old(RecOf(b)).(parent := child, ci := 1 - d)
      ensures e != null ==> RecOf(e) == old(RecOf(e)).(parent := node, ci := d)
      ensures parent != null ==> RecOf(parent) == SetChild(old(RecOf(parent)), old(node.childIndex), g)
      ensures root == if parent == null then g else old(root)
    {
      var which := node.childIndex;
      AdoptBoth(g, d, child, ChildBal(d, g.balance), node, NodeBal(d, g.balance));
      g.balance, g.parent, g.childIndex := 0, parent, which;
      Replace(parent, which, g);
    }

    method TwiceOn(node: Node, d: nat, child: Node, g: Node, parent: Node?, b: Node?, e: Node?, ghost ns: set<Node>)
      requires d <= 1 && node != child && node != g && child != g
      requires parent == node.parent && b == ChildOf(g, d) && e == ChildOf(g, 1 - d)
      requires Apart(b, node, g) && Apart(e, node, g) && b != child && e != child && (b == e ==> b == null)
      requires parent != null ==> Apart(parent, node, g) && parent != child && parent != b && parent != e
      requires {node, child, g} + Opt(b) + Opt(e) + Opt(parent) <= ns
      modifies this`root, {node, child, g} + Opt(b) + Opt(e) + Opt(parent)
      ensures TwiceDone(old(View(ns)), View(ns), d, node, child, g)
      ensures root == if parent == null then g else old(root)
    {
      RotateTwice(node, d, child, g, parent, b, e);
    }

    /** A single rotation, on the whole tree. */
    method RotateSingle(node: Node, d: nat, child: Node, ghost c: Ctx, ghost a: Shape, ghost b: Shape, ghost y: Shape,
            ghost h: nat, ghost ns: set<Node>)
      returns (ghost t: Shape)
      requires d <= 1 && {node, child} <= ns
      requires InPlace(View(ns), c, Mk(d, Mk(d, a, child, b), node, y), root)
      requires Heavy(View(ns), d, Mk(d, a, child, b), node, y) && child.balance != -Sign(d)
      modifies this`root, ns
      ensures Rebalanced(old(View(ns)), View(ns), c, Mk(d, Mk(d, a, child, b), node, y), t, root, h)
      ensures H(t) == H(y) + if old(child.balance) == Sign(d) then 2 else 3
    {
      ghost var m, r := View(ns), root;
      OncePointers(m, c, d, a, child, b, node, y, root);
      OnceOn(node, d, child, node.parent, ChildOf(child, 1 - d), ns);
      OnceCorrect(m, View(ns), c, d, a, child, b, node, y, r, h);
      t := Mk(d, a, child, Mk(d, b, node, y));
    }

    /** A double rotation, on the whole tree. */
    method RotateDouble(node: Node, d: nat, child: Node, g: Node, ghost c: Ctx, ghost a: Shape, ghost b: Shape,
            ghost e: Shape, ghost y: Shape, ghost h: nat, ghost ns: set<Node>)
      returns (ghost t: Shape)
      requires d <= 1 && {node, child, g} <= ns
      requires InPlace(View(ns), c, Mk(d, Mk(d, a, child, Mk(d, b, g, e)), node, y), root)
      requires Heavy(View(ns), d, Mk(d, a, child, Mk(d, b, g, e)), node, y) && child.balance == -Sign(d)
      modifies this`root, ns
      ensures Rebalanced(old(View(ns)), View(ns), c, Mk(d, Mk(d, a, child, Mk(d, b, g, e)), node, y), t, root, h)
      ensures H(t) == H(y) + 2
    {
      ghost var m, r := View(ns), root;
      TwicePointers(m, c, d, a, child, b, g, e, node, y, root);
      TwiceOn(node, d, child, g, node.parent, ChildOf(g, d), ChildOf(g, 1 - d), ns);
      TwiceCorrect(m, View(ns), c, d, a, child, b, g, e, node, y, r, h);
      t := Mk(d, Mk(d, a, child, b), g, Mk(d, e, node, y));
    }

    /** Rotate at `node`, whose balance would be -2 or 2, and say whether the subtree got shorter. */
    method Rotation(node: Node, balance: int, ghost c: Ctx, ghost x: Shape, ghost y: Shape, ghost h: nat,
            ghost ns: set<Node>)
      returns (shorter: bool, ghost t: Shape)
      requires (balance == -2 || balance == 2) && node in ns
      requires InPlace(View(ns), c, Mk(Side(balance), x, node, y), root) && Heavy(View(ns), Side(balance), x, node, y)
      requires x.T? && x.node in ns
      modifies this`root, ns
      ensures Rebalanced(old(View(ns)), View(ns), c, Mk(Side(balance), x, node, y), t, root, h)
      ensures H(t) == H(y) + if shorter then 2 else 3
      ensures old(x.node.balance) != 0 ==> shorter
    {
      var d := if balance < 0 then 0 else 1;
      ghost var a, b := Sub(x, d), Sub(x, 1 - d);
      assert x == Mk(d, a, x.node, b);
      BalMk(View(ns), d, a, x.node, b);
      OncePointers(View(ns), c, d, a, x.node, b, node, y, root);
      var child := ChildOf(node, d);
      if child.balance != -Sign(d) {
        shorter := child.balance - Sign(d) == 0;
        t := RotateSingle(node, d, child, c, a, b, y, h, ns);
      } else {
        shorter := true;
        ghost var b0, e := Sub(b, d), Sub(b, 1 - d);
        assert b == Mk(d, b0, b.node, e);
        TwicePointers(View(ns), c, d, a, child, b0, b.node, e, node, y, root);
        t := RotateDouble(node, d, child, ChildOf(child, 1 - d), c, a, b0, e, y, h, ns);
      }
    }

    // ----- insertion -----

    /** Change the balance of a node. */
    method SetBalance(n: Node, v: int, ghost ns: set<Node>)
      requires n in ns
      modifies n`balance
      ensures View(ns) == SetBal(old(View(ns)), n, v)
    {
      n.balance := v;
    }

    /** Climb from a subtree that has grown by one level, until a balance absorbs the growth or a
        rotation undoes it. */
    method Regrow(parent0: Node?, which0: nat, ghost c0: Ctx, ghost s0: Shape, ghost h0: nat, ghost ns: set<Node>)
      returns (ghost t: Shape, ghost rotations: nat)
      requires Growing(View(ns), c0, s0, h0, root) && parent0 == CtxNode(c0) && (c0.Frame? ==> which0 == c0.dir)
      modifies this`root, ns
      ensures WellFormed(View(ns), t, root) && InOrder(t) == InOrder(Plug(c0, s0)) && rotations <= 1
    {
      var parent, which := parent0, which0;
      ghost var c, s, h := c0, s0, h0;
      rotations := 0;
      while parent != null
        invariant Growing(View(ns), c, s, h, root) && parent == CtxNode(c) && (c.Frame? ==> which == c.dir)
        invariant Plug(c, s) == Plug(c0, s0)
        decreases c
      {
        var node := parent;
        NodeAbove(View(ns), c, s, root);
        var oldBalance := node.balance;
        var newBalance := oldBalance + Sign(which);
        if newBalance == 0 || oldBalance != 0 {
          t, rotations := EndGrowth(node, newBalance, c, s, h, ns);
          return;
        }
        GrowGoesOn(View(ns), c, s, h, root);
        SetBalance(node, newBalance, ns);
        parent, which := node.parent, node.childIndex;
        s, h, c := Mk(c.dir, s, c.node, c.sib), h + 1, c.up;
      }
      Whole(View(ns), c, s, root);
      t := Plug(c, s);
    }

    /** The end of an insertion: the balance of a node takes up the growth, or a rotation undoes it. */
    method EndGrowth(node: Node, balance: int, ghost c: Ctx, ghost s: Shape, ghost h: nat, ghost ns: set<Node>)
      returns (ghost t: Shape, ghost rotations: nat)
      requires Growing(View(ns), c, s, h, root) && c.Frame? && node == c.node && node in ns && c.dir <= 1
      requires balance == node.balance + Sign(c.dir) && (balance == 0 || node.balance != 0)
      modifies this`root, ns
      ensures WellFormed(View(ns), t, root) && InOrder(t) == InOrder(Plug(c, s)) && rotations <= 1
    {
      rotations := 0;
      if balance == 0 {
        GrowStops(View(ns), c, s, h, root);
        SetBalance(node, 0, ns);
        t := Plug(c, s);
      } else {
        GrowDue(View(ns), c, s, h, root);
        t := RotateGrown(node, balance, c, s, h, ns);
        rotations := 1;
      }
    }

    /** The rotation that ends an insertion. */
    method RotateGrown(node: Node, balance: int, ghost c: Ctx, ghost s: Shape, ghost h: nat,
            ghost ns: set<Node>) returns (ghost t: Shape)
      requires c.Frame? && node == c.node && node in ns && c.dir <= 1 && balance == 2 * Sign(c.dir)
      requires InPlace(View(ns), c, s, root) && Heavy(View(ns), c.dir, s, c.node, c.sib)
               && CtxBal(View(ns), c.up, h + 1)
      requires H(s) == h + 1 && s.node in ns && s.node.balance != 0
      modifies this`root, ns
      ensures WellFormed(View(ns), t, root) && InOrder(t) == InOrder(Plug(c, s))
    {
      ghost var m, r, was := View(ns), s, root;
      var shorter;
      shorter, r := Rotation(node, balance, c.up, s, c.sib, h + 1, ns);
      RotatedWhole(m, View(ns), c.up, Mk(c.dir, s, c.node, c.sib), r, root, was, h + 1);
      t := Plug(c.up, r);
    }

    ghost predicate Valid()
      reads this, nodes
    {
      nodes == Nodes(shape) && WellFormed(View(nodes), shape, root) && numNodes == |InOrder(shape)|
    }

    constructor ()
      ensures Valid() && shape == E
    {
      root, numNodes, shape, nodes := null, 0, E, {};
    }

    /** Hang a node as a leaf below child `which` of `parent`, or as the root. */
    method PutLeaf(node: Node, parent: Node?, which: nat, ghost c: Ctx, ghost ns: set<Node>)
      requires which <= 1 && parent == CtxNode(c) && (c.Frame? ==> which == c.dir)
      requires {node} + Opt(parent) <= ns && node !in CtxNodes(c)
      modifies this`root, {node} + Opt(parent)
      ensures LeafPut(old(View(ns)), View(ns), c, node)
      ensures root == if c.Top? then node else old(root)
    {
      node.left, node.right, node.parent, node.childIndex, node.balance := null, null, parent, which, 0;
      Replace(parent, which, node);
    }

    /** Hang a node below a place and rebalance. */
    method PutAndRegrow(node: Node, parent: Node?, which: nat, ghost c: Ctx, ghost ns: set<Node>)
            returns (ghost t: Shape, ghost rotations: nat)
      requires InPlace(View(ns), c, E, root) && CtxBal(View(ns), c, 0) && node in ns && node !in CtxNodes(c)
      requires which <= 1 && parent == CtxNode(c) && (c.Frame? ==> which == c.dir && c.node in ns)
      modifies this`root, ns
      ensures WellFormed(View(ns), t, root) && InOrder(t) == InOrder(Plug(c, T(E, node, E))) && rotations <= 1
    {
      ghost var m, r := View(ns), root;
      PutLeaf(node, parent, which, c, ns);
      LeafGrows(m, View(ns), c, node, r);
      t, rotations := Regrow(parent, which, c, T(E, node, E), 0, ns);
    }

    /** The tree with a node inserted below a place. */
    method InsertShape(node: Node, parent: Node?, which: nat, ghost c: Ctx)
            returns (ghost t: Shape, ghost rotations: nat)
      requires Valid() && node !in nodes && CtxDirs(c) && Plug(c, E) == shape
      requires which <= 1 && parent == CtxNode(c) && (c.Frame? ==> which == c.dir)
      modifies this`root, node, nodes
      ensures WellFormed(View(nodes + {node}), t, root) && Nodes(t) == nodes + {node} && |InOrder(t)| == numNodes + 1
      ensures InOrder(t) == Before(c) + ([node] + After(c)) && rotations <= 1
    {
      InsertReady(View(nodes), View(nodes + {node}), c, shape, node, root);
      t, rotations := PutAndRegrow(node, parent, which, c, nodes + {node});
      InsertedOrder(c, node, t);
    }

    /** Insert a node at the place that a search found: child `which` of `parent`. */
    method Insert(node: Node, parent: Node?, which: nat, ghost c: Ctx) returns (ghost rotations: nat)
      requires Valid() && node !in nodes && CtxDirs(c) && Plug(c, E) == shape
      requires which <= 1 && parent == CtxNode(c) && (c.Frame? ==> which == c.dir)
      modifies this, node, nodes
      ensures Valid() && nodes == old(nodes) + {node} && InOrder(shape) == Before(c) + ([node] + After(c)) && rotations <= 1
    {
      ghost var t;
      t, rotations := InsertShape(node, parent, which, c);
      Recount(numNodes + 1, t, nodes + {node});
    }

    /** Take note of the shape that the fields of the nodes form. */
    method Recount(count: nat, ghost t: Shape, ghost ns: set<Node>)
      requires ns == Nodes(t) && WellFormed(View(ns), t, root) && count == |InOrder(t)|
      modifies this`numNodes, this`shape, this`nodes
      ensures Valid() && shape == t && nodes == ns
    {
      ghost var m := View(ns);
      numNodes, shape, nodes := count, t, ns;
      assert View(ns) == m;
    }

    // ----- removal -----

    /** Put node v in the place of node u, with children l and r and parent p. */
    method CopyLinks(u: Node, v: Node, l: Node?, r: Node?, p: Node?)
      requires l == u.left && r == u.right && p == u.parent
      requires v != u && v != l && v != r && v != p && u != p && u != l && u != r
      requires (l != null ==> l != r && l != p) && (r != null ==> r != p)
      modifies this`root, {v} + Opt(l) + Opt(r) + Opt(p)
      ensures RecOf(v) == old(RecOf(u))
      ensures l != null ==> RecOf(l) == old(RecOf(l)).(parent := v)
      ensures r != null ==> RecOf(r) == old(RecOf(r)).(parent := v)
      ensures p != null ==> RecOf(p) == SetChild(old(RecOf(p)), u.childIndex, v)
      ensures root == if p == null then v else old(root)
    {
      v.left, v.right, v.parent, v.childIndex, v.balance := l, r, p, u.childIndex, u.balance;
      if l != null {
        l.parent := v;
      }
      if r != null {
        r.parent := v;
      }
      Replace(p, u.childIndex, v);
    }

    method TakePlace(u: Node, v: Node, ghost ns: set<Node>)
      requires {u, v} + Opt(u.left) + Opt(u.right) + Opt(u.parent) <= ns
      requires v != u && v != u.left && v != u.right && v != u.parent && u != u.parent && u != u.left && u != u.right
      requires (u.left != null ==> u.left != u.right && u.left != u.parent) && (u.right != null ==> u.right != u.parent)
      modifies this`root, {v} + Opt(u.left) + Opt(u.right) + Opt(u.parent)
      ensures TookPlace(old(View(ns)), View(ns), u, v)
      ensures root == if old(u.parent) == null then v else old(root)
    {
      CopyLinks(u, v, u.left, u.right, u.parent);
    }

    /** Connect the parent of node u directly to its only child z. */
    method TakeOut(u: Node, z: Node?, ghost c: Ctx, ghost ns: set<Node>)
      requires {u} + Opt(z) + Opt(u.parent) <= ns && z != u && u.parent != u && (z != null ==> z != u.parent)
      modifies this`root, Opt(z) + Opt(u.parent)
      ensures TakenOut(old(View(ns)), View(ns), c, u, z)
      ensures root == if u.parent == null then z else old(root)
    {
      if z != null {
        z.parent, z.childIndex := u.parent, u.childIndex;
      }
      Replace(u.parent, u.childIndex, z);
    }

    /** Climb from a subtree that has shrunk by one level, until the height of a subtree around it does
        not change any more. */
    method Reshrink(parent0: Node?, which0: nat, ghost c0: Ctx, ghost s0: Shape, ghost h0: nat,
            ghost ns: set<Node>) returns (ghost t: Shape)
      requires Shrinking(View(ns), c0, s0, h0, root) && parent0 == CtxNode(c0) && (c0.Frame? ==> which0 == c0.dir)
      modifies this`root, ns
      ensures WellFormed(View(ns), t, root) && InOrder(t) == InOrder(Plug(c0, s0))
    {
      var parent, which := parent0, which0;
      ghost var c, s, h := c0, s0, h0;
      while parent != null
        invariant Shrinking(View(ns), c, s, h, root) && parent == CtxNode(c) && (c.Frame? ==> which == c.dir)
        invariant InOrder(Plug(c, s)) == InOrder(Plug(c0, s0))
        decreases c
      {
        var node := parent;
        NodeAbove(View(ns), c, s, root);
        var newBalance := node.balance - Sign(which);
        parent, which := node.parent, node.childIndex;
        var done;
        done, s, h := ShrinkStep(node, newBalance, c, s, h, ns);
        c := c.up;
        if done {
          t := Plug(c, s);
          return;
        }
      }
      Whole(View(ns), c, s, root);
      t := Plug(c, s);
    }

    /** Take the loss of a level to the node above: it ends there, or goes on with subtree t of old
        height h1. */
    method ShrinkStep(node: Node, balance: int, ghost c: Ctx, ghost s: Shape, ghost h: nat, ghost ns: set<Node>)
      returns (done: bool, ghost t: Shape, ghost h1: nat)
      requires Shrinking(View(ns), c, s, h, root) && c.Frame? && node == c.node && node in ns && c.dir <= 1
      requires balance == node.balance - Sign(c.dir)
      modifies this`root, ns
      ensures InOrder(Plug(c.up, t)) == InOrder(Plug(c, s))
      ensures done ==> WellFormed(View(ns), Plug(c.up, t), root)
      ensures !done ==> Shrinking(View(ns), c.up, t, h1, root)
    {
      if node.balance == 0 || balance == 0 {
        done, t, h1 := ShrinkUnrotated(node, balance, c, s, h, ns);
      } else {
        var shorter;
        shorter, t := ShrinkRotation(node, balance, c, s, h, ns);
        done, h1 := !shorter, h + 2;
      }
    }

    /** The node above only gets another balance. */
    method ShrinkUnrotated(node: Node, balance: int, ghost c: Ctx, ghost s: Shape, ghost h: nat, ghost ns: set<Node>)
      returns (done: bool, ghost t: Shape, ghost h1: nat)
      requires Shrinking(View(ns), c, s, h, root) && c.Frame? && node == c.node && node in ns && c.dir <= 1
      requires balance == node.balance - Sign(c.dir) && (node.balance == 0 || balance == 0)
      modifies this`root, ns
      ensures Plug(c.up, t) == Plug(c, s)
      ensures done ==> WellFormed(View(ns), Plug(c.up, t), root)
      ensures !done ==> Shrinking(View(ns), c.up, t, h1, root)
    {
      t, h1 := Mk(c.dir, s, c.node, c.sib), h + 1;
      done := node.balance == 0;
      if done {
        ShrinkStops(View(ns), c, s, h, root);
      } else {
        ShrinkGoesOn(View(ns), c, s, h, root);
      }
      SetBalance(node, balance, ns);
    }

    /** The node above leaned to the other side: it is rotated. */
    method ShrinkRotation(node: Node, balance: int, ghost c: Ctx, ghost s: Shape, ghost h: nat, ghost ns: set<Node>)
      returns (shorter: bool, ghost t: Shape)
      requires Shrinking(View(ns), c, s, h, root) && c.Frame? && node == c.node && node in ns && c.dir <= 1
      requires balance == node.balance - Sign(c.dir) && node.balance != 0 && balance != 0
      modifies this`root, ns
      ensures InOrder(Plug(c.up, t)) == InOrder(Plug(c, s))
      ensures shorter ==> Shrinking(View(ns), c.up, t, h + 2, root)
      ensures !shorter ==> WellFormed(View(ns), Plug(c.up, t), root)
    {
      ShrinkDue(View(ns), c, s, h, root);
      shorter, t := RotateShrunk(node, balance, c, s, h, ns);
    }

    /** A rotation during a removal. */
    method RotateShrunk(node: Node, balance: int, ghost c: Ctx, ghost s: Shape, ghost h: nat, ghost ns: set<Node>)
      returns (shorter: bool, ghost t: Shape)
      requires c.Frame? && node == c.node && node in ns && c.dir <= 1 && balance == 2 * Sign(1 - c.dir)
      requires Mk(c.dir, s, c.node, c.sib) == Mk(1 - c.dir, c.sib, c.node, s)
      requires InPlace(View(ns), c, s, root) && InPlace(View(ns), c.up, Mk(1 - c.dir, c.sib, c.node, s), root)
      requires Heavy(View(ns), 1 - c.dir, c.sib, c.node, s) && CtxBal(View(ns), c.up, h + 2) && H(s) + 1 == h
      requires c.sib.T? && c.sib.node in ns
      modifies this`root, ns
      ensures InOrder(Plug(c.up, t)) == InOrder(Plug(c, s))
      ensures shorter ==> Shrinking(View(ns), c.up, t, h + 2, root)
      ensures !shorter ==> WellFormed(View(ns), Plug(c.up, t), root)
    {
      ghost var m, was := View(ns), root;
      shorter, t := Rotation(node, balance, c.up, c.sib, s, h + 2, ns);
      ShrinkRotated(m, View(ns), c, s, t, root, was, h);
    }

    /** Remove a node with at most one child from the tree. */
    method RemoveLow(del: Node, ghost c: Ctx, ghost d: nat, ghost z: Shape, ghost ns: set<Node>)
            returns (ghost t: Shape)
      requires d <= 1 && Sound(View(ns), c, Mk(d, z, del, E), root) && del in ns
      modifies this`root, ns
      ensures WellFormed(View(ns), t, root) && InOrder(t) == InOrder(Plug(c, z))
    {
      var parent, which := CutLow(del, c, d, z, ns);
      t := Reshrink(parent, which, c, z, H(z) + 1, ns);
    }

    /** Link the only child of a node, if any, in its place. */
    method CutLow(del: Node, ghost c: Ctx, ghost d: nat, ghost z: Shape, ghost ns: set<Node>)
            returns (parent: Node?, which: nat)
      requires d <= 1 && Sound(View(ns), c, Mk(d, z, del, E), root) && del in ns
      modifies this`root, ns
      ensures Shrinking(View(ns), c, z, H(z) + 1, root) && parent == CtxNode(c) && (c.Frame? ==> which == c.dir)
    {
      ghost var m, was := View(ns), root;
      LowPlace(m, c, d, z, del, root);
      parent, which := del.parent, del.childIndex;
      var node := if del.left != null then del.left else del.right;
      TakeOut(del, node, c, ns);
      TakenOutFits(m, View(ns), c, d, z, del, was, H(z) + 1);
    }

    /** Put a placeholder in the place of the neighbour of `data`. */
    method SwapOut(data: Node, d: nat, node: Node, tmp: Node, ghost c: Ctx, ghost x: Shape, ghost y: Shape,
            ghost ns: set<Node>)
      requires d <= 1 && x.T? && Sound(View(ns), c, Mk(d, x, data, y), root) && node == Last(x, 1 - d)
      requires tmp in ns && tmp !in CtxNodes(c) + Nodes(Mk(d, x, data, y))
      modifies this`root, ns
      ensures Sound(View(ns), c, Mk(d, WithLast(x, 1 - d, tmp), data, y), root)
    {
      ghost var m, was, e := View(ns), root, 1 - d;
      ghost var c1 := Deep(Frame(d, data, y, c), x, e);
      WithOwnLast(x, e);
      Lower(m, c, d, x, data, y, node, root);
      NeighbourFree(m, c, d, x, data, y, tmp, root);
      PlacePointers(m, c1, e, E, node, Rest(x, e), root);
      TakePlace(node, tmp, ns);
      PlaceSound(m, View(ns), c1, e, E, node, Rest(x, e), tmp, was);
      Lower(View(ns), c, d, x, data, y, tmp, root);
    }

    /** Move the neighbour of `data` into the place of `data`. */
    method SwapIn(data: Node, d: nat, node: Node, tmp: Node, ghost c: Ctx, ghost x: Shape, ghost y: Shape,
            ghost ns: set<Node>)
      requires d <= 1 && x.T? && Sound(View(ns), c, Mk(d, WithLast(x, 1 - d, tmp), data, y), root) && data in ns
      requires node in ns && node !in CtxNodes(c) + Nodes(Mk(d, WithLast(x, 1 - d, tmp), data, y))
      modifies this`root, ns
      ensures Sound(View(ns), Deep(Frame(d, node, y, c), x, 1 - d), Mk(1 - d, E, tmp, Rest(x, 1 - d)), root)
    {
      ghost var m, was, x' := View(ns), root, WithLast(x, 1 - d, tmp);
      PlacePointers(m, c, d, x', data, y, root);
      TakePlace(data, node, ns);
      PlaceSound(m, View(ns), c, d, x', data, y, node, was);
      Lower(View(ns), c, d, x, node, y, tmp, root);
    }

    /** The outermost node on side e of the subtree at `start`. */
    method Outermost(start: Node, e: nat, ghost c: Ctx, ghost x: Shape) returns (node: Node)
      requires e <= 1 && x.T? && start == x.node && start in nodes && InPlace(View(nodes), c, x, root)
      ensures node == Last(x, e) && node in nodes
    {
      node := start;
      ghost var cc, xx := c, x;
      PlacePointers(View(nodes), cc, e, Sub(xx, e), node, Sub(xx, 1 - e), root);
      while ChildOf(node, e) != null
        invariant xx.T? && node == xx.node && node in nodes && Last(xx, e) == Last(x, e)
        invariant InPlace(View(nodes), cc, xx, root) && ChildOf(node, e) == Root(Sub(xx, e))
        decreases xx
      {
        cc, xx := Frame(e, node, Sub(xx, 1 - e), cc), Sub(xx, e);
        node := ChildOf(node, e);
        PlacePointers(View(nodes), cc, e, Sub(xx, e), node, Sub(xx, 1 - e), root);
      }
    }

    /** Swap `data` with its neighbour, keep a placeholder for the neighbour, and remove that. */
    method RemoveSwapped(data: Node, d: nat, node: Node, tmp: Node, ghost c: Ctx, ghost x: Shape, ghost y: Shape,
            ghost ns: set<Node>)
      returns (ghost t: Shape)
      requires d <= 1 && x.T? && Sound(View(ns), c, Mk(d, x, data, y), root) && node == Last(x, 1 - d)
      requires data in ns && node in ns && tmp in ns && tmp !in CtxNodes(c) + Nodes(Mk(d, x, data, y))
      modifies this`root, ns
      ensures WellFormed(View(ns), t, root) && InOrder(t) == OrderWithout(c, d, x, y)
    {
      NeighbourFree(View(ns), c, d, x, data, y, tmp, root);
      SwapOut(data, d, node, tmp, c, x, y, ns);
      SwapIn(data, d, node, tmp, c, x, y, ns);
      assert Mk(1 - d, E, tmp, Rest(x, 1 - d)) == Mk(d, Rest(x, 1 - d), tmp, E);
      t := RemoveLow(tmp, Deep(Frame(d, node, y, c), x, 1 - d), d, Rest(x, 1 - d), ns);
      SwappedOrder(c, d, x, y);
    }

    /** The neighbour of a node on a side where it has a child. */
    method Neighbour(data: Node, d: nat, ghost c: Ctx, ghost x: Shape, ghost y: Shape) returns (node: Node)
      requires d <= 1 && x.T? && InPlace(View(nodes), c, Mk(d, x, data, y), root) && data in nodes
      ensures node == Last(x, 1 - d) && node in nodes
    {
      PlacePointers(View(nodes), c, d, x, data, y, root);
      node := Outermost(ChildOf(data, d), 1 - d, Frame(d, data, y, c), x);
    }

    /** Remove a node that has two children: its neighbour on side d takes its place. */
    method RemoveWith(data: Node, d: nat, ghost c: Ctx, ghost x: Shape, ghost y: Shape)
            returns (ghost t: Shape, ghost tmp: Node)
      requires d <= 1 && x.T? && Sound(View(nodes), c, Mk(d, x, data, y), root) && data in nodes
      requires WellFormed(View(nodes), Plug(c, Mk(d, x, data, y)), root) && CtxDirs(c)
               && nodes == Nodes(Plug(c, Mk(d, x, data, y)))
      modifies this`root, nodes
      ensures fresh(tmp) && WellFormed(View(nodes + {tmp}), t, root) && InOrder(t) == OrderWithout(c, d, x, y)
    {
      var node := Neighbour(data, d, c, x, y);
      var holder := new Node(data.key);
      tmp := holder;
      PlaceReady(View(nodes), View(nodes + {tmp}), c, Mk(d, x, data, y), root);
      t := RemoveSwapped(data, d, node, holder, c, x, y, nodes + {tmp});
    }

    /** Remove a node that has two children: its neighbour on the higher side takes its place. */
    method RemoveInner(data: Node, ghost c: Ctx, ghost s: Shape) returns (ghost t: Shape)
      requires Valid() && CtxDirs(c) && Plug(c, s) == shape && s.T? && s.node == data && s.l.T? && s.r.T?
               && data in nodes
      modifies this`root, nodes
      ensures WellFormed(View(nodes - {data}), t, root)
              && InOrder(t) == Before(c) + ((InOrder(s.l) + InOrder(s.r)) + After(c))
      ensures Nodes(t) == nodes - {data} && |InOrder(t)| + 1 == numNodes
    {
      var d := if data.balance == 1 then 1 else 0;
      ghost var x, y := Sub(s, d), Sub(s, 1 - d);
      assert s == Mk(d, x, data, y);
      PlaceReady(View(nodes), View(nodes), c, s, root);
      ghost var tmp;
      t, tmp := RemoveWith(data, d, c, x, y);
      NodesWithout(c, s, t);
      StillWellFormed(View(nodes + {tmp}), View(nodes - {data}), t, root);
    }

    /** Remove a node that has at most one child. */
    method RemoveOuter(data: Node, ghost c: Ctx, ghost s: Shape) returns (ghost t: Shape)
      requires Valid() && CtxDirs(c) && Plug(c, s) == shape && s.T? && s.node == data && (s.l.E? || s.r.E?)
               && data in nodes
      modifies this`root, nodes
      ensures WellFormed(View(nodes - {data}), t, root)
              && InOrder(t) == Before(c) + ((InOrder(s.l) + InOrder(s.r)) + After(c))
      ensures Nodes(t) == nodes - {data} && |InOrder(t)| + 1 == numNodes
    {
      ghost var d := if s.r.E? then 0 else 1;
      ghost var z := Sub(s, d);
      assert s == Mk(d, z, data, E);
      PlaceReady(View(nodes), View(nodes), c, s, root);
      t := RemoveLow(data, c, d, z, nodes);
      PlugOrder(c, z);
      assert InOrder(s.l) + InOrder(s.r) == InOrder(z);
      NodesWithout(c, s, t);
      StillWellFormed(View(nodes), View(nodes - {data}), t, root);
    }

    method RemoveShape(data: Node, ghost c: Ctx, ghost s: Shape) returns (ghost t: Shape)
      requires Valid() && CtxDirs(c) && Plug(c, s) == shape && s.T? && s.node == data
      modifies this`root, nodes
      ensures WellFormed(View(nodes - {data}), t, root)
              && InOrder(t) == Before(c) + ((InOrder(s.l) + InOrder(s.r)) + After(c))
      ensures Nodes(t) == nodes - {data} && |InOrder(t)| + 1 == numNodes
    {
      assert Sound(View(nodes), c, s, root) by { PlaceReady(View(nodes), View(nodes), c, s, root); }
      PlacePointers(View(nodes), c, 0, s.l, data, s.r, root);
      if data.left != null && data.right != null {
        t := RemoveInner(data, c, s);
      } else {
        t := RemoveOuter(data, c, s);
      }
    }

    /** Remove a node from the tree. */
    method Remove(data: Node, ghost c: Ctx, ghost s: Shape)
      requires Valid() && CtxDirs(c) && Plug(c, s) == shape && s.T? && s.node == data
      modifies this, nodes
      ensures Valid() && nodes == old(nodes) - {data}
      ensures InOrder(shape) == Before(c) + ((InOrder(s.l) + InOrder(s.r)) + After(c))
    {
      ghost var t;
      t := RemoveShape(data, c, s);
      Recount(numNodes - 1, t, nodes - {data});
    }
  }

  lemma {:induction false} ShrinkRotated(m: Mem, m': Mem, c: Ctx, s: Shape, t: Shape, root: Node?, was: Node?, h: nat)
    requires c.Frame? && InPlace(m, c, s, was) && Rebalanced(m, m', c.up, Mk(c.dir, s, c.node, c.sib), t, root, h + 2)
    requires CtxBal(m, c.up, h + 2)
    ensures InOrder(Plug(c.up, t)) == InOrder(Plug(c, s))
    ensures H(t) == h + 2 ==> WellFormed(m', Plug(c.up, t), root)
    ensures H(t) == h + 1 ==> Shrinking(m', c.up, t, h + 2, root)
  {
    InPlaceIs(m, c, s, was);
    PlugSame(c.up, Mk(c.dir, s, c.node, c.sib), t);
    if H(t) == h + 2 { Whole(m', c.up, t, root); }
  }

  lemma {:induction false} InsertReady(m0: Mem, m: Mem, c: Ctx, s: Shape, n: Node, root: Node?)
    requires WellFormed(m0, s, root) && CtxDirs(c) && Plug(c, E) == s && n !in Nodes(s)
    requires Nodes(s) <= m.Keys && forall k :: k in m0 && k in m ==> m[k] == m0[k]
    ensures InPlace(m, c, E, root) && CtxBal(m, c, 0) && n !in CtxNodes(c) && CtxDistinct(c)
    ensures |InOrder(s)| == |Before(c)| + |After(c)| && (c.Frame? ==> c.node in Nodes(s))
  {
    PlaceReady(m0, m, c, E, root);
  }

  lemma {:induction false} InsertedOrder(c: Ctx, n: Node, s: Shape)
    requires CtxDistinct(c) && InOrder(s) == InOrder(Plug(c, T(E, n, E)))
    ensures InOrder(s) == Before(c) + ([n] + After(c)) && Nodes(s) == Nodes(Plug(c, E)) + {n}
    ensures |InOrder(s)| == |Before(c)| + |After(c)| + 1
  {
    PlugOrder(c, T(E, n, E));
    assert [] + ([n] + []) == [n];
    SameNodes(s, Plug(c, T(E, n, E)));
    PlugNodes(c, T(E, n, E));
    PlugNodes(c, E);
  }
}
