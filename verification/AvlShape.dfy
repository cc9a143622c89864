/** Nodes of an AVL tree with parent links, and what it means for their fields to form a tree of a
    given shape (bench/filebench/fb_avl.h, bench/filebench/fb_avl.c). */
module AvlShape {
  import opened Numbers

  class Node {
    const key: int
    var left: Node?
    var right: Node?
    var parent: Node?
    var childIndex: nat     // 0 or 1: which child of its parent the node is
    var balance: int        // height of the right subtree minus height of the left one

    constructor (key: int)
      ensures this.key == key && left == null && right == null && parent == null && childIndex == 0 && balance == 0
    {
      this.key, left, right, parent, childIndex, balance := key, null, null, null, 0, 0;
    }
  }

  /** The shape of a tree. */
  datatype Shape = E | T(l: Shape, node: Node, r: Shape)

  function Root(s: Shape): Node? { if s.E? then null else s.node }

  function H(s: Shape): nat { if s.E? then 0 else 1 + Max(H(s.l), H(s.r)) }

  function InOrder(s: Shape): seq<Node> { if s.E? then [] else InOrder(s.l) + ([s.node] + InOrder(s.r)) }

  function Nodes(s: Shape): set<Node> { if s.E? then {} else {s.node} + Nodes(s.l) + Nodes(s.r) }

  /** No node occurs twice. */
  predicate Distinct(s: Shape)
  {
    s.E? || (s.node !in Nodes(s.l) && s.node !in Nodes(s.r) && Nodes(s.l) !! Nodes(s.r) && Distinct(s.l) && Distinct(s.r))
  }

  /** The tree with x on side d of n and y on the other side. */
  function Mk(d: nat, x: Shape, n: Node, y: Shape): Shape { if d == 0 then T(x, n, y) else T(y, n, x) }

  function Sub(s: Shape, d: nat): Shape
    requires s.T?
  {
    if d == 0 then s.l else s.r
  }

  function Sign(d: nat): int { if d == 0 then -1 else 1 }

  // ----- the fields of nodes -----

  datatype Rec = Rec(left: Node?, right: Node?, parent: Node?, ci: nat, bal: int)

  type Mem = map<Node, Rec>

  /** What the nodes of a set hold. */
  ghost function View(ns: set<Node>): (m: Mem)
    reads ns
    ensures m.Keys == ns
  {
    map n | n in ns :: Rec(n.left, n.right, n.parent, n.childIndex, n.balance)
  }

  function Child(r: Rec, d: nat): Node? { if d == 0 then r.left else r.right }

  function SetChild(r: Rec, d: nat, c: Node?): Rec { if d == 0 then r.(left := c) else r.(right := c) }

  /** The fields link the nodes of s to each other, below child d of p. */
  predicate Linked(m: Mem, s: Shape, p: Node?, d: nat)
  {
    s.E? ||
    (&& s.node in m && m[s.node].parent == p && m[s.node].ci <= 1 && (p != null ==> m[s.node].ci == d)
     && m[s.node].left == Root(s.l) && m[s.node].right == Root(s.r)
     && Linked(m, s.l, s.node, 0) && Linked(m, s.r, s.node, 1))
  }

  /** Every node holds the difference of the heights of its subtrees, which is at most one. */
  predicate Bal(m: Mem, s: Shape)
  {
    s.E? ||
    (&& s.node in m && m[s.node].bal == H(s.r) - H(s.l) && -1 <= m[s.node].bal <= 1
     && Bal(m, s.l) && Bal(m, s.r))
  }

  /** The nodes of s hold the same in both memories. */
  predicate Same(m: Mem, m': Mem, s: Shape)
  {
    s.E? || (s.node in m && s.node in m' && m[s.node] == m'[s.node] && Same(m, m', s.l) && Same(m, m', s.r))
  }

  lemma {:induction false} KeepsShape(m: Mem, m': Mem, s: Shape, p: Node?, d: nat)
    requires Same(m, m', s) && Linked(m, s, p, d)
    ensures Linked(m', s, p, d)
  {
    if s.T? {
      KeepsShape(m, m', s.l, s.node, 0);
      KeepsShape(m, m', s.r, s.node, 1);
    }
  }

  lemma {:induction false} KeepsBal(m: Mem, m': Mem, s: Shape)
    requires Same(m, m', s) && Bal(m, s)
    ensures Bal(m', s)
  {
    if s.T? {
      KeepsBal(m, m', s.l);
      KeepsBal(m, m', s.r);
    }
  }

  /** A subtree moves below another node. */
  ghost predicate Moved(m: Mem, m': Mem, s: Shape, q: Node?, d: nat)
  {
    s.T? ==>
      && s.node in m && s.node in m' && m'[s.node] == m[s.node].(parent := q, ci := d)
      && Same(m, m', s.l) && Same(m, m', s.r)
  }

  lemma {:induction false} MovedKeeps(m: Mem, m': Mem, s: Shape, p: Node?, c: nat, q: Node?, d: nat)
    requires Linked(m, s, p, c) && Bal(m, s) && Moved(m, m', s, q, d) && d <= 1
    ensures Linked(m', s, q, d) && Bal(m', s)
  {
    if s.T? {
      KeepsShape(m, m', s.l, s.node, 0);
      KeepsShape(m, m', s.r, s.node, 1);
      KeepsBal(m, m', s.l);
      KeepsBal(m, m', s.r);
    }
  }

  /** One node with two subtrees, seen from side d. */
  lemma {:induction false} LinkedMk(m: Mem, d: nat, x: Shape, n: Node, y: Shape, p: Node?, c: nat)
    requires d <= 1
    ensures Linked(m, Mk(d, x, n, y), p, c) <==>
            && n in m && m[n].parent == p && m[n].ci <= 1 && (p != null ==> m[n].ci == c)
            && Child(m[n], d) == Root(x) && Child(m[n], 1 - d) == Root(y)
            && Linked(m, x, n, d) && Linked(m, y, n, 1 - d)
  {
  }

  lemma {:induction false} BalMk(m: Mem, d: nat, x: Shape, n: Node, y: Shape)
    requires d <= 1
    ensures Bal(m, Mk(d, x, n, y)) <==>
            && n in m && m[n].bal == Sign(d) * (H(x) - H(y)) && -1 <= m[n].bal <= 1 && Bal(m, x) && Bal(m, y)
    ensures H(Mk(d, x, n, y)) == 1 + Max(H(x), H(y))
  {
    var h := H(x) - H(y);
    assert Sign(d) * h == if d == 0 then -h else h;
  }

  lemma {:induction false} NodesMk(d: nat, x: Shape, n: Node, y: Shape)
    ensures Nodes(Mk(d, x, n, y)) == {n} + Nodes(x) + Nodes(y)
    ensures Distinct(Mk(d, x, n, y)) <==> n !in Nodes(x) && n !in Nodes(y) && Nodes(x) !! Nodes(y) && Distinct(x) && Distinct(y)
  {
  }

  lemma {:induction false} NodesAreInOrder(s: Shape, n: Node)
    ensures n in Nodes(s) <==> n in InOrder(s)
  {
    if s.T? {
      NodesAreInOrder(s.l, n);
      NodesAreInOrder(s.r, n);
    }
  }

  // ----- the rest of a tree around a subtree -----

  /** What is around a subtree: nothing, or the node whose child d the subtree is, that node's other
      subtree, and what is around that node. */
  datatype Ctx = Top | Frame(dir: nat, node: Node, sib: Shape, up: Ctx)

  function Plug(c: Ctx, s: Shape): Shape
    decreases c
  {
    if c.Top? then s else Plug(c.up, Mk(c.dir, s, c.node, c.sib))
  }

  function CtxNode(c: Ctx): Node? { if c.Top? then null else c.node }

  function CtxDir(c: Ctx): nat { if c.Top? then 0 else c.dir }

  function CtxNodes(c: Ctx): set<Node> { if c.Top? then {} else {c.node} + Nodes(c.sib) + CtxNodes(c.up) }

  predicate CtxDistinct(c: Ctx)
  {
    c.Top? ||
    (&& c.dir <= 1 && c.node !in Nodes(c.sib) && c.node !in CtxNodes(c.up) && Nodes(c.sib) !! CtxNodes(c.up)
     && Distinct(c.sib) && CtxDistinct(c.up))
  }

  /** The nodes before and after the subtree. */
  function Before(c: Ctx): seq<Node>
  {
    if c.Top? then [] else Before(c.up) + if c.dir == 0 then [] else InOrder(c.sib) + [c.node]
  }

  function After(c: Ctx): seq<Node>
  {
    if c.Top? then [] else (if c.dir == 0 then [c.node] + InOrder(c.sib) else []) + After(c.up)
  }

  predicate CtxLinked(m: Mem, c: Ctx, hole: Node?)
  {
    c.Top? ||
    (&& c.dir <= 1 && c.node in m && Child(m[c.node], c.dir) == hole && Child(m[c.node], 1 - c.dir) == Root(c.sib)
     && m[c.node].parent == CtxNode(c.up) && m[c.node].ci <= 1 && (c.up.Frame? ==> m[c.node].ci == c.up.dir)
     && Linked(m, c.sib, c.node, 1 - c.dir) && CtxLinked(m, c.up, c.node))
  }

  /** The balances around a subtree of height h. */
  predicate CtxBal(m: Mem, c: Ctx, h: nat)
  {
    c.Top? ||
    (&& c.node in m && m[c.node].bal == Sign(c.dir) * (h - H(c.sib)) && -1 <= m[c.node].bal <= 1
     && Bal(m, c.sib) && CtxBal(m, c.up, 1 + Max(h, H(c.sib))))
  }

  lemma {:induction false} PlugOrder(c: Ctx, s: Shape)
    requires CtxDistinct(c)
    ensures InOrder(Plug(c, s)) == Before(c) + (InOrder(s) + After(c))
    decreases c
  {
    if c.Frame? {
      PlugOrder(c.up, Mk(c.dir, s, c.node, c.sib));
      if c.dir == 0 {
        OrderLeft(Before(c.up), InOrder(s), [c.node], InOrder(c.sib), After(c.up));
      } else {
        OrderRight(Before(c.up), InOrder(c.sib), [c.node], InOrder(s), After(c.up));
      }
    }
  }

  lemma {:induction false} OrderLeft(b: seq<Node>, x: seq<Node>, n: seq<Node>, y: seq<Node>, a: seq<Node>)
    ensures b + ((x + (n + y)) + a) == (b + []) + (x + ((n + y) + a))
  {
  }

  lemma {:induction false} OrderRight(b: seq<Node>, x: seq<Node>, n: seq<Node>, y: seq<Node>, a: seq<Node>)
    ensures b + ((x + (n + y)) + a) == (b + (x + n)) + (y + ([] + a))
  {
  }

  lemma {:induction false} PlugNodes(c: Ctx, s: Shape)
    ensures Nodes(Plug(c, s)) == CtxNodes(c) + Nodes(s)
    decreases c
  {
    if c.Frame? {
      PlugNodes(c.up, Mk(c.dir, s, c.node, c.sib));
      NodesMk(c.dir, s, c.node, c.sib);
    }
  }

  lemma {:induction false} PlugBal(m: Mem, c: Ctx, s: Shape)
    requires CtxBal(m, c, H(s)) && Bal(m, s) && CtxDistinct(c)
    ensures Bal(m, Plug(c, s))
    decreases c
  {
    if c.Frame? {
      BalMk(m, c.dir, s, c.node, c.sib);
      PlugBal(m, c.up, Mk(c.dir, s, c.node, c.sib));
    }
  }

  predicate CtxSame(m: Mem, m': Mem, c: Ctx)
  {
    c.Top? || (c.node in m && c.node in m' && m[c.node] == m'[c.node] && Same(m, m', c.sib) && CtxSame(m, m', c.up))
  }

  lemma {:induction false} CtxKeeps(m: Mem, m': Mem, c: Ctx, hole: Node?)
    requires CtxSame(m, m', c) && CtxLinked(m, c, hole)
    ensures CtxLinked(m', c, hole)
  {
    if c.Frame? {
      KeepsShape(m, m', c.sib, c.node, 1 - c.dir);
      CtxKeeps(m, m', c.up, c.node);
    }
  }

  lemma {:induction false} CtxKeepsBal(m: Mem, m': Mem, c: Ctx, h: nat)
    requires CtxSame(m, m', c) && CtxBal(m, c, h)
    ensures CtxBal(m', c, h)
    decreases c
  {
    if c.Frame? {
      KeepsBal(m, m', c.sib);
      CtxKeepsBal(m, m', c.up, 1 + Max(h, H(c.sib)));
    }
  }

  /** The node above the subtree gets another child there, and nothing else around it changes. */
  ghost predicate Rehung(m: Mem, m': Mem, c: Ctx, hole: Node?)
  {
    c.Frame? ==>
      && c.node in m && c.node in m' && m'[c.node] == SetChild(m[c.node], c.dir, hole)
      && Same(m, m', c.sib) && CtxSame(m, m', c.up)
  }

  lemma {:induction false} RehungKeeps(m: Mem, m': Mem, c: Ctx, was: Node?, hole: Node?, h: nat)
    requires CtxLinked(m, c, was) && Rehung(m, m', c, hole)
    ensures CtxLinked(m', c, hole)
    ensures CtxBal(m, c, h) ==> CtxBal(m', c, h)
  {
    if c.Frame? {
      KeepsShape(m, m', c.sib, c.node, 1 - c.dir);
      CtxKeeps(m, m', c.up, c.node);
      if CtxBal(m, c, h) {
        KeepsBal(m, m', c.sib);
        CtxKeepsBal(m, m', c.up, 1 + Max(h, H(c.sib)));
      }
    }
  }
}
