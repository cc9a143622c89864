/** Rotations and rebalancing of an AVL tree, as changes of the fields of a few nodes
    (bench/filebench/fb_avl.c). */
module AvlRotate {
  import opened Numbers
  import opened AvlShape

  /** The fields form the tree that has s in its place inside c. */
  ghost predicate InPlace(m: Mem, c: Ctx, s: Shape, root: Node?)
    decreases c
  {
    if c.Top? then Distinct(s) && Linked(m, s, null, 0) && root == Root(s)
    else c.dir <= 1 && InPlace(m, c.up, Mk(c.dir, s, c.node, c.sib), root)
  }

  /** The same, seen from the subtree. */
  ghost predicate Local(m: Mem, c: Ctx, s: Shape, root: Node?)
  {
    && CtxDistinct(c) && Distinct(s) && CtxNodes(c) !! Nodes(s)
    && CtxLinked(m, c, Root(s)) && Linked(m, s, CtxNode(c), CtxDir(c))
    && root == Root(Plug(c, s))
  }

  lemma {:induction false} InPlaceIs(m: Mem, c: Ctx, s: Shape, root: Node?)
    ensures InPlace(m, c, s, root) <==> Local(m, c, s, root)
    decreases c
  {
    if c.Frame? && c.dir <= 1 {
      InPlaceIs(m, c.up, Mk(c.dir, s, c.node, c.sib), root);
      NodesMk(c.dir, s, c.node, c.sib);
      LinkedMk(m, c.dir, s, c.node, c.sib, CtxNode(c.up), CtxDir(c.up));
    }
  }

  lemma {:induction false} PlugRoot(c: Ctx, s: Shape, t: Shape)
    requires c.Frame?
    ensures Root(Plug(c, s)) == Root(Plug(c, t)) && Root(Plug(c, s)) != null
    decreases c
  {
    if c.up.Frame? { PlugRoot(c.up, Mk(c.dir, s, c.node, c.sib), Mk(c.dir, t, c.node, c.sib)); }
  }

  // ----- rotations of shapes -----

  lemma {:induction false} OnceSequence(d: nat, a: Shape, x: Node, b: Shape, n: Node, y: Shape)
    ensures InOrder(Mk(d, a, x, Mk(d, b, n, y))) == InOrder(Mk(d, Mk(d, a, x, b), n, y))
  {
    var p, q, r := InOrder(a), InOrder(b), InOrder(y);
    if d == 0 {
      assert p + ([x] + (q + ([n] + r))) == (p + ([x] + q)) + ([n] + r);
    } else {
      assert (r + ([n] + q)) + ([x] + p) == r + ([n] + (q + ([x] + p)));
    }
  }

  lemma {:induction false} OnceOrder(d: nat, a: Shape, x: Node, b: Shape, n: Node, y: Shape)
    ensures InOrder(Mk(d, a, x, Mk(d, b, n, y))) == InOrder(Mk(d, Mk(d, a, x, b), n, y))
    ensures Nodes(Mk(d, a, x, Mk(d, b, n, y))) == Nodes(Mk(d, Mk(d, a, x, b), n, y))
    ensures Distinct(Mk(d, a, x, Mk(d, b, n, y))) == Distinct(Mk(d, Mk(d, a, x, b), n, y))
  {
    OnceSequence(d, a, x, b, n, y);
    NodesMk(d, b, n, y);
    NodesMk(d, a, x, Mk(d, b, n, y));
    NodesMk(d, a, x, b);
    NodesMk(d, Mk(d, a, x, b), n, y);
  }

  lemma {:induction false} TwiceOrder(d: nat, a: Shape, x: Node, b: Shape, g: Node, e: Shape, n: Node, y: Shape)
    ensures var s, t := Mk(d, Mk(d, a, x, Mk(d, b, g, e)), n, y), Mk(d, Mk(d, a, x, b), g, Mk(d, e, n, y));
            InOrder(t) == InOrder(s) && Nodes(t) == Nodes(s) && Distinct(t) == Distinct(s)
  {
    OnceOrder(d, a, x, b, g, e);
    var ab := Mk(d, a, x, b);
    var s1 := Mk(d, Mk(d, ab, g, e), n, y);
    SameInside(d, Mk(d, a, x, Mk(d, b, g, e)), Mk(d, ab, g, e), n, y);
    OnceOrder(d, ab, g, e, n, y);
  }

  lemma {:induction false} SameInside(d: nat, x: Shape, x': Shape, n: Node, y: Shape)
    requires InOrder(x) == InOrder(x') && Nodes(x) == Nodes(x') && Distinct(x) == Distinct(x')
    ensures InOrder(Mk(d, x, n, y)) == InOrder(Mk(d, x', n, y)) && Nodes(Mk(d, x, n, y)) == Nodes(Mk(d, x', n, y))
    ensures Distinct(Mk(d, x, n, y)) == Distinct(Mk(d, x', n, y))
  {
  }

  // ----- what a rotation does to the fields -----

  /** The subtree at n is two levels higher on side d than on the other side. */
  ghost predicate Heavy(m: Mem, d: nat, x: Shape, n: Node, y: Shape)
  {
    d <= 1 && Bal(m, x) && Bal(m, y) && H(x) == H(y) + 2
  }

  /** The fields after a single rotation: the heavy child x takes the place of n. */
  ghost predicate RotatedOnce(m: Mem, m': Mem, c: Ctx, d: nat, a: Shape, x: Node, b: Shape, n: Node, y: Shape)
    requires d <= 1 && x in m && n in m
  {
    && n in m' && x in m'
    && m'[n] == SetChild(m[n], d, Root(b)).(bal := Sign(d) - m[x].bal, ci := 1 - d, parent := x)
    && m'[x] == SetChild(m[x], 1 - d, n).(bal := m[x].bal - Sign(d), ci := m[n].ci, parent := m[n].parent)
    && Moved(m, m', b, n, d) && Same(m, m', a) && Same(m, m', y) && Rehung(m, m', c, x)
  }

  lemma {:induction false} OnceLinked(m: Mem, m': Mem, c: Ctx, d: nat, a: Shape, x: Node, b: Shape, n: Node, y: Shape,
          root: Node?)
    requires d <= 1 && InPlace(m, c, Mk(d, Mk(d, a, x, b), n, y), root) && x in m && n in m && Bal(m, b)
    requires RotatedOnce(m, m', c, d, a, x, b, n, y)
    ensures InPlace(m', c, Mk(d, a, x, Mk(d, b, n, y)), if c.Top? then x else root)
  {
    var s, t := Mk(d, Mk(d, a, x, b), n, y), Mk(d, a, x, Mk(d, b, n, y));
    InPlaceIs(m, c, s, root);
    OnceOrder(d, a, x, b, n, y);
    LinkedMk(m, d, Mk(d, a, x, b), n, y, CtxNode(c), CtxDir(c));
    LinkedMk(m, d, a, x, b, n, d);
    RehungKeeps(m, m', c, n, x, 0);
    KeepsShape(m, m', a, x, d);
    KeepsShape(m, m', y, n, 1 - d);
    MovedKeeps(m, m', b, x, 1 - d, n, d);
    LinkedMk(m', d, b, n, y, x, 1 - d);
    LinkedMk(m', d, a, x, Mk(d, b, n, y), CtxNode(c), CtxDir(c));
    if c.Frame? { PlugRoot(c, s, t); }
    InPlaceIs(m', c, t, if c.Top? then x else root);
  }

  lemma {:induction false} OnceBal(m: Mem, m': Mem, c: Ctx, d: nat, a: Shape, x: Node, b: Shape, n: Node, y: Shape)
    requires d <= 1 && x in m && n in m && Heavy(m, d, Mk(d, a, x, b), n, y) && m[x].bal != -Sign(d)
    requires RotatedOnce(m, m', c, d, a, x, b, n, y) && Linked(m, b, x, 1 - d)
    ensures var t := Mk(d, a, x, Mk(d, b, n, y));
            Bal(m', t) && H(t) == H(y) + if m[x].bal == Sign(d) then 2 else 3
  {
    BalMk(m, d, a, x, b);
    KeepsBal(m, m', a);
    KeepsBal(m, m', y);
    MovedKeeps(m, m', b, x, 1 - d, n, d);
    BalMk(m', d, b, n, y);
    BalMk(m', d, a, x, Mk(d, b, n, y));
  }

  /** The new balances of the heavy child and of the node after a double rotation on side d, where the
      grandchild had balance bal. */
  function ChildBal(d: nat, bal: int): int { if bal == -Sign(d) then Sign(d) else 0 }

  function NodeBal(d: nat, bal: int): int { if bal == Sign(d) then -Sign(d) else 0 }

  /** The fields after a double rotation: the inner grandchild g takes the place of n. */
  ghost predicate RotatedTwice(m: Mem, m': Mem, c: Ctx, d: nat, a: Shape, x: Node, b: Shape, g: Node, e: Shape,
          n: Node, y: Shape)
    requires d <= 1 && x in m && n in m && g in m
  {
    && n in m' && x in m' && g in m'
    && m'[n] == SetChild(m[n], d, Root(e)).(bal := NodeBal(d, m[g].bal), ci := 1 - d, parent := g)
    && m'[x] == SetChild(m[x], 1 - d, Root(b)).(bal := ChildBal(d, m[g].bal), ci := d, parent := g)
    && m'[g] == SetChild(SetChild(m[g], d, x), 1 - d, n).(bal := 0, ci := m[n].ci, parent := m[n].parent)
    && Moved(m, m', e, n, d) && Moved(m, m', b, x, 1 - d)
    && Same(m, m', a) && Same(m, m', y) && Rehung(m, m', c, g)
  }

  lemma {:induction false} TwiceLinked(m: Mem, m': Mem, c: Ctx, d: nat, a: Shape, x: Node, b: Shape, g: Node,
          e: Shape, n: Node, y: Shape, root: Node?)
    requires d <= 1 && InPlace(m, c, Mk(d, Mk(d, a, x, Mk(d, b, g, e)), n, y), root)
    requires x in m && n in m && g in m && Bal(m, b) && Bal(m, e)
    requires RotatedTwice(m, m', c, d, a, x, b, g, e, n, y)
    ensures InPlace(m', c, Mk(d, Mk(d, a, x, b), g, Mk(d, e, n, y)), if c.Top? then g else root)
  {
    var s, t := Mk(d, Mk(d, a, x, Mk(d, b, g, e)), n, y), Mk(d, Mk(d, a, x, b), g, Mk(d, e, n, y));
    TwiceOrder(d, a, x, b, g, e, n, y);
    InPlaceIs(m, c, s, root);
    RehungKeeps(m, m', c, n, g, 0);
    assert Linked(m', t, CtxNode(c), CtxDir(c)) by { TwiceShape(m, m', c, d, a, x, b, g, e, n, y); }
    if c.Frame? { PlugRoot(c, s, t); }
    InPlaceIs(m', c, t, if c.Top? then g else root);
  }

  lemma {:induction false} TwiceShape(m: Mem, m': Mem, c: Ctx, d: nat, a: Shape, x: Node, b: Shape, g: Node, e: Shape,
          n: Node, y: Shape)
    requires d <= 1 && Linked(m, Mk(d, Mk(d, a, x, Mk(d, b, g, e)), n, y), CtxNode(c), CtxDir(c))
    requires x in m && n in m && g in m && Bal(m, b) && Bal(m, e)
    requires RotatedTwice(m, m', c, d, a, x, b, g, e, n, y)
    ensures Linked(m', Mk(d, Mk(d, a, x, b), g, Mk(d, e, n, y)), CtxNode(c), CtxDir(c))
  {
    LinkedMk(m, d, Mk(d, a, x, Mk(d, b, g, e)), n, y, CtxNode(c), CtxDir(c));
    LinkedMk(m, d, a, x, Mk(d, b, g, e), n, d);
    LinkedMk(m, d, b, g, e, x, 1 - d);
    KeepsShape(m, m', a, x, d);
    KeepsShape(m, m', y, n, 1 - d);
    MovedKeeps(m, m', b, g, d, x, 1 - d);
    MovedKeeps(m, m', e, g, 1 - d, n, d);
    LinkedMk(m', d, a, x, b, g, d);
    LinkedMk(m', d, e, n, y, g, 1 - d);
    LinkedMk(m', d, Mk(d, a, x, b), g, Mk(d, e, n, y), CtxNode(c), CtxDir(c));
  }

  lemma {:induction false} TwiceHeights(d: nat, ha: nat, hb: nat, he: nat, hy: nat, bal: int)
    requires -Sign(d) == Sign(d) * (ha - (1 + Max(hb, he))) && 1 + Max(ha, 1 + Max(hb, he)) == hy + 2
    requires bal == Sign(d) * (hb - he) && -1 <= bal <= 1
    ensures ChildBal(d, bal) == Sign(d) * (ha - hb) && -1 <= ChildBal(d, bal) <= 1
    ensures NodeBal(d, bal) == Sign(d) * (he - hy) && -1 <= NodeBal(d, bal) <= 1
    ensures 1 + Max(ha, hb) == 1 + Max(he, hy) == hy + 1
  {
  }

  lemma {:induction false} TwiceBal(m: Mem, m': Mem, c: Ctx, d: nat, a: Shape, x: Node, b: Shape, g: Node, e: Shape,
          n: Node, y: Shape)
    requires d <= 1 && x in m && n in m && g in m && Heavy(m, d, Mk(d, a, x, Mk(d, b, g, e)), n, y)
    requires m[x].bal == -Sign(d) && Linked(m, Mk(d, b, g, e), x, 1 - d)
    requires RotatedTwice(m, m', c, d, a, x, b, g, e, n, y)
    ensures var t := Mk(d, Mk(d, a, x, b), g, Mk(d, e, n, y));
            Bal(m', t) && H(t) == H(y) + 2
  {
    BalMk(m, d, a, x, Mk(d, b, g, e));
    BalMk(m, d, b, g, e);
    LinkedMk(m, d, b, g, e, x, 1 - d);
    KeepsBal(m, m', a);
    KeepsBal(m, m', y);
    MovedKeeps(m, m', b, g, d, x, 1 - d);
    MovedKeeps(m, m', e, g, 1 - d, n, d);
    TwiceHeights(d, H(a), H(b), H(e), H(y), m[g].bal);
    TwiceBuilt(m', d, a, x, b, g, e, n, y);
  }

  lemma {:induction false} TwiceBuilt(m: Mem, d: nat, a: Shape, x: Node, b: Shape, g: Node, e: Shape, n: Node, y: Shape)
    requires d <= 1 && Bal(m, a) && Bal(m, b) && Bal(m, e) && Bal(m, y) && x in m && n in m && g in m && m[g].bal == 0
    requires m[x].bal == Sign(d) * (H(a) - H(b)) && -1 <= m[x].bal <= 1 && m[n].bal == Sign(d) * (H(e) - H(y))
             && -1 <= m[n].bal <= 1
    requires 1 + Max(H(a), H(b)) == 1 + Max(H(e), H(y)) == H(y) + 1
    ensures Bal(m, Mk(d, Mk(d, a, x, b), g, Mk(d, e, n, y))) && H(Mk(d, Mk(d, a, x, b), g, Mk(d, e, n, y))) == H(y) + 2
  {
    BalBuilt(m, d, a, x, b, H(y));
    BalBuilt(m, d, e, n, y, H(y));
    BalBuilt(m, d, Mk(d, a, x, b), g, Mk(d, e, n, y), H(y) + 1);
  }

  lemma {:induction false} BalBuilt(m: Mem, d: nat, x: Shape, n: Node, y: Shape, h: nat)
    requires d <= 1 && n in m && m[n].bal == Sign(d) * (H(x) - H(y)) && -1 <= m[n].bal <= 1 && Bal(m, x) && Bal(m, y)
    requires 1 + Max(H(x), H(y)) == h + 1
    ensures Bal(m, Mk(d, x, n, y)) && H(Mk(d, x, n, y)) == h + 1
  {
  }

  // ----- from single fields to the whole tree -----

  ghost predicate ChangedOnly(m: Mem, m': Mem, t: set<Node>)
  {
    m'.Keys == m.Keys && forall n :: n in m && n !in t ==> m'[n] == m[n]
  }

  function Opt(n: Node?): set<Node> { if n == null then {} else {n} }

  lemma {:induction false} Untouched(m: Mem, m': Mem, t: set<Node>, s: Shape, p: Node?, d: nat)
    requires ChangedOnly(m, m', t) && t !! Nodes(s) && Linked(m, s, p, d)
    ensures Same(m, m', s)
  {
    if s.T? {
      Untouched(m, m', t, s.l, s.node, 0);
      Untouched(m, m', t, s.r, s.node, 1);
    }
  }

  lemma {:induction false} CtxUntouched(m: Mem, m': Mem, t: set<Node>, c: Ctx, hole: Node?)
    requires ChangedOnly(m, m', t) && t !! CtxNodes(c) && CtxLinked(m, c, hole)
    ensures CtxSame(m, m', c)
  {
    if c.Frame? {
      Untouched(m, m', t, c.sib, c.node, 1 - c.dir);
      CtxUntouched(m, m', t, c.up, c.node);
    }
  }

  /** The node above the subtree got another child, and nothing else around it changed. */
  lemma {:induction false} RehungBy(m: Mem, m': Mem, t: set<Node>, c: Ctx, was: Node?, hole: Node?)
    requires CtxDistinct(c) && CtxLinked(m, c, was) && ChangedOnly(m, m', t) && t * CtxNodes(c) <= Opt(CtxNode(c))
    requires c.Frame? ==> m'[c.node] == SetChild(m[c.node], c.dir, hole)
    ensures Rehung(m, m', c, hole)
  {
    if c.Frame? {
      Untouched(m, m', t, c.sib, c.node, 1 - c.dir);
      CtxUntouched(m, m', t, c.up, c.node);
    }
  }

  lemma {:induction false} MovedBy(m: Mem, m': Mem, t: set<Node>, s: Shape, p: Node?, e: nat, q: Node?, d: nat)
    requires Distinct(s) && Linked(m, s, p, e) && ChangedOnly(m, m', t) && t * Nodes(s) <= Opt(Root(s))
    requires s.T? ==> m'[s.node] == m[s.node].(parent := q, ci := d)
    ensures Moved(m, m', s, q, d)
  {
    if s.T? {
      Untouched(m, m', t, s.l, s.node, 0);
      Untouched(m, m', t, s.r, s.node, 1);
    }
  }

  /** The pointers that a single rotation touches are different. */
  lemma {:induction false} OnceApart(m: Mem, c: Ctx, d: nat, a: Shape, x: Node, b: Shape, n: Node, y: Shape,
          root: Node?)
    requires d <= 1 && InPlace(m, c, Mk(d, Mk(d, a, x, b), n, y), root)
    ensures n in m && x in m && n != x && n !in Nodes(a) + Nodes(b) + Nodes(y) && x !in Nodes(a) + Nodes(b) + Nodes(y)
    ensures n !in CtxNodes(c) && x !in CtxNodes(c) && Nodes(a) !! CtxNodes(c) && Nodes(b) !! CtxNodes(c)
            && Nodes(y) !! CtxNodes(c)
    ensures Nodes(a) !! Nodes(b) && Nodes(a) !! Nodes(y) && Nodes(b) !! Nodes(y) && Distinct(b) && CtxDistinct(c)
    ensures Child(m[n], d) == x && Child(m[x], 1 - d) == Root(b) && m[n].parent == CtxNode(c) && m[n].ci <= 1
    ensures c.Frame? ==> m[n].ci == c.dir
    ensures CtxLinked(m, c, n) && Linked(m, a, x, d) && Linked(m, b, x, 1 - d) && Linked(m, y, n, 1 - d)
  {
    InPlaceIs(m, c, Mk(d, Mk(d, a, x, b), n, y), root);
    NodesMk(d, Mk(d, a, x, b), n, y);
    NodesMk(d, a, x, b);
    LinkedMk(m, d, Mk(d, a, x, b), n, y, CtxNode(c), CtxDir(c));
    LinkedMk(m, d, a, x, b, n, d);
    if c.Frame? { assert CtxNode(c) != null; }
  }

  lemma {:induction false} RootIn(s: Shape)
    ensures Opt(Root(s)) <= Nodes(s)
  {
  }

  /** A few nodes, some of b and some of c: they touch neither a nor y. */
  lemma {:induction false} Touches(few: set<Node>, rb: set<Node>, rc: set<Node>, a: set<Node>, b: set<Node>,
          y: set<Node>, c: set<Node>)
    requires few !! a && few !! b && few !! y && few !! c && rb <= b && rc <= c
    requires a !! b && a !! y && a !! c && b !! y && b !! c && y !! c
    ensures var t := few + rb + rc; t !! a && t !! y && t * b <= rb && t * c <= rc
  {
  }

  lemma {:induction false} OnceFields(m: Mem, m': Mem, c: Ctx, d: nat, a: Shape, x: Node, b: Shape, n: Node, y: Shape,
          root: Node?)
    requires d <= 1 && InPlace(m, c, Mk(d, Mk(d, a, x, b), n, y), root)
    requires n in m && x in m
    requires ChangedOnly(m, m', {n, x} + Opt(Root(b)) + Opt(CtxNode(c)))
    requires m'[n] == SetChild(m[n], d, Root(b)).(bal := Sign(d) - m[x].bal, ci := 1 - d, parent := x)
    requires m'[x] == SetChild(m[x], 1 - d, n).(bal := m[x].bal - Sign(d), ci := m[n].ci, parent := m[n].parent)
    requires b.T? ==> b.node in m && m'[b.node] == m[b.node].(parent := n, ci := d)
    requires c.Frame? ==> c.node in m && m'[c.node] == SetChild(m[c.node], c.dir, x)
    ensures RotatedOnce(m, m', c, d, a, x, b, n, y)
  {
    var t := {n, x} + Opt(Root(b)) + Opt(CtxNode(c));
    OnceApart(m, c, d, a, x, b, n, y, root);
    RootIn(b);
    Touches({n, x}, Opt(Root(b)), Opt(CtxNode(c)), Nodes(a), Nodes(b), Nodes(y), CtxNodes(c));
    Untouched(m, m', t, a, x, d);
    Untouched(m, m', t, y, n, 1 - d);
    MovedBy(m, m', t, b, x, 1 - d, n, d);
    RehungBy(m, m', t, c, n, x);
  }

  lemma {:induction false} TwiceApart(m: Mem, c: Ctx, d: nat, a: Shape, x: Node, b: Shape, g: Node, e: Shape, n: Node,
          y: Shape, root: Node?)
    requires d <= 1 && InPlace(m, c, Mk(d, Mk(d, a, x, Mk(d, b, g, e)), n, y), root)
    ensures g in m && g != n && g != x && g !in Nodes(a) + Nodes(b) + Nodes(e) + Nodes(y) + CtxNodes(c)
    ensures n !in Nodes(b) + Nodes(e) && x !in Nodes(b) + Nodes(e)
    ensures Nodes(b) !! Nodes(a) + Nodes(e) + Nodes(y) + CtxNodes(c) && Nodes(e) !! Nodes(a) + Nodes(y) + CtxNodes(c)
    ensures Distinct(b) && Distinct(e) && Child(m[g], d) == Root(b) && Child(m[g], 1 - d) == Root(e)
    ensures Bal(m, Mk(d, b, g, e)) ==> Bal(m, b) && Bal(m, e)
    ensures Linked(m, b, g, d) && Linked(m, e, g, 1 - d)
  {
    OnceApart(m, c, d, a, x, Mk(d, b, g, e), n, y, root);
    NodesMk(d, b, g, e);
    InPlaceIs(m, c, Mk(d, Mk(d, a, x, Mk(d, b, g, e)), n, y), root);
    LinkedMk(m, d, Mk(d, a, x, Mk(d, b, g, e)), n, y, CtxNode(c), CtxDir(c));
    LinkedMk(m, d, a, x, Mk(d, b, g, e), n, d);
    LinkedMk(m, d, b, g, e, x, 1 - d);
  }

  /** The nodes that a double rotation touches. */
  function TwiceSet(c: Ctx, x: Node, b: Shape, g: Node, e: Shape, n: Node): set<Node>
  {
    {n, x, g} + Opt(Root(b)) + Opt(Root(e)) + Opt(CtxNode(c))
  }

  lemma {:induction false} TwiceOuter(m: Mem, m': Mem, c: Ctx, d: nat, a: Shape, x: Node, b: Shape, g: Node, e: Shape,
          n: Node, y: Shape, root: Node?)
    requires d <= 1 && InPlace(m, c, Mk(d, Mk(d, a, x, Mk(d, b, g, e)), n, y), root)
    requires ChangedOnly(m, m', TwiceSet(c, x, b, g, e, n))
    ensures Same(m, m', a) && Same(m, m', y)
  {
    OnceApart(m, c, d, a, x, Mk(d, b, g, e), n, y, root);
    TwiceApart(m, c, d, a, x, b, g, e, n, y, root);
    RootIn(b);
    RootIn(e);
    Untouched(m, m', TwiceSet(c, x, b, g, e, n), a, x, d);
    Untouched(m, m', TwiceSet(c, x, b, g, e, n), y, n, 1 - d);
  }

  lemma {:induction false} TwiceInnerNear(m: Mem, m': Mem, c: Ctx, d: nat, a: Shape, x: Node, b: Shape, g: Node,
          e: Shape, n: Node, y: Shape, root: Node?)
    requires d <= 1 && InPlace(m, c, Mk(d, Mk(d, a, x, Mk(d, b, g, e)), n, y), root)
    requires ChangedOnly(m, m', TwiceSet(c, x, b, g, e, n))
    requires b.T? ==> b.node in m && m'[b.node] == m[b.node].(parent := x, ci := 1 - d)
    ensures Moved(m, m', b, x, 1 - d)
  {
    TwiceApart(m, c, d, a, x, b, g, e, n, y, root);
    RootIn(b);
    RootIn(e);
    MovedBy(m, m', TwiceSet(c, x, b, g, e, n), b, g, d, x, 1 - d);
  }

  lemma {:induction false} TwiceInnerFar(m: Mem, m': Mem, c: Ctx, d: nat, a: Shape, x: Node, b: Shape, g: Node,
          e: Shape, n: Node, y: Shape, root: Node?)
    requires d <= 1 && InPlace(m, c, Mk(d, Mk(d, a, x, Mk(d, b, g, e)), n, y), root)
    requires ChangedOnly(m, m', TwiceSet(c, x, b, g, e, n))
    requires e.T? ==> e.node in m && m'[e.node] == m[e.node].(parent := n, ci := d)
    ensures Moved(m, m', e, n, d)
  {
    TwiceApart(m, c, d, a, x, b, g, e, n, y, root);
    RootIn(b);
    RootIn(e);
    MovedBy(m, m', TwiceSet(c, x, b, g, e, n), e, g, 1 - d, n, d);
  }

  lemma {:induction false} TwiceAround(m: Mem, m': Mem, c: Ctx, d: nat, a: Shape, x: Node, b: Shape, g: Node,
          e: Shape, n: Node, y: Shape, root: Node?)
    requires d <= 1 && InPlace(m, c, Mk(d, Mk(d, a, x, Mk(d, b, g, e)), n, y), root)
    requires ChangedOnly(m, m', TwiceSet(c, x, b, g, e, n))
    requires c.Frame? ==> c.node in m && m'[c.node] == SetChild(m[c.node], c.dir, g)
    ensures Rehung(m, m', c, g)
  {
    OnceApart(m, c, d, a, x, Mk(d, b, g, e), n, y, root);
    TwiceApart(m, c, d, a, x, b, g, e, n, y, root);
    RootIn(b);
    RootIn(e);
    RehungBy(m, m', TwiceSet(c, x, b, g, e, n), c, n, g);
  }

  lemma {:induction false} TwiceFields(m: Mem, m': Mem, c: Ctx, d: nat, a: Shape, x: Node, b: Shape, g: Node,
          e: Shape, n: Node, y: Shape, root: Node?)
    requires d <= 1 && InPlace(m, c, Mk(d, Mk(d, a, x, Mk(d, b, g, e)), n, y), root)
    requires n in m && x in m && g in m
    requires ChangedOnly(m, m', {n, x, g} + Opt(Root(b)) + Opt(Root(e)) + Opt(CtxNode(c)))
    requires m'[n] == SetChild(m[n], d, Root(e)).(bal := NodeBal(d, m[g].bal), ci := 1 - d, parent := g)
    requires m'[x] == SetChild(m[x], 1 - d, Root(b)).(bal := ChildBal(d, m[g].bal), ci := d, parent := g)
    requires m'[g] == SetChild(SetChild(m[g], d, x), 1 - d, n).(bal := 0, ci := m[n].ci, parent := m[n].parent)
    requires b.T? ==> b.node in m && m'[b.node] == m[b.node].(parent := x, ci := 1 - d)
    requires e.T? ==> e.node in m && m'[e.node] == m[e.node].(parent := n, ci := d)
    requires c.Frame? ==> c.node in m && m'[c.node] == SetChild(m[c.node], c.dir, g)
    ensures RotatedTwice(m, m', c, d, a, x, b, g, e, n, y)
  {
    assert TwiceSet(c, x, b, g, e, n) == {n, x, g} + Opt(Root(b)) + Opt(Root(e)) + Opt(CtxNode(c));
    TwiceOuter(m, m', c, d, a, x, b, g, e, n, y, root);
    TwiceInnerNear(m, m', c, d, a, x, b, g, e, n, y, root);
    TwiceInnerFar(m, m', c, d, a, x, b, g, e, n, y, root);
    TwiceAround(m, m', c, d, a, x, b, g, e, n, y, root);
  }

  /** The subtree s inside c has become the balanced subtree t with the same nodes in the same order. */
  ghost predicate Rebalanced(m: Mem, m': Mem, c: Ctx, s: Shape, t: Shape, root: Node?, h: nat)
  {
    && InPlace(m', c, t, root) && Bal(m', t) && InOrder(t) == InOrder(s)
    && (CtxBal(m, c, h) ==> CtxBal(m', c, h))
  }

  /** A single rotation rebalances. */
  lemma {:induction false} OnceRebalances(m: Mem, m': Mem, c: Ctx, d: nat, a: Shape, x: Node, b: Shape, n: Node,
          y: Shape, root: Node?, h: nat)
    requires d <= 1 && InPlace(m, c, Mk(d, Mk(d, a, x, b), n, y), root) && x in m && n in m
    requires Heavy(m, d, Mk(d, a, x, b), n, y) && m[x].bal != -Sign(d)
    requires RotatedOnce(m, m', c, d, a, x, b, n, y)
    ensures var t := Mk(d, a, x, Mk(d, b, n, y));
            && Rebalanced(m, m', c, Mk(d, Mk(d, a, x, b), n, y), t, if c.Top? then x else root, h)
            && H(t) == H(y) + if m[x].bal == Sign(d) then 2 else 3
  {
    BalMk(m, d, a, x, b);
    InPlaceIs(m, c, Mk(d, Mk(d, a, x, b), n, y), root);
    OnceLinked(m, m', c, d, a, x, b, n, y, root);
    assert Linked(m, b, x, 1 - d) by {
      LinkedMk(m, d, Mk(d, a, x, b), n, y, CtxNode(c), CtxDir(c));
      LinkedMk(m, d, a, x, b, n, d);
    }
    OnceBal(m, m', c, d, a, x, b, n, y);
    OnceOrder(d, a, x, b, n, y);
    RehungKeeps(m, m', c, n, x, h);
  }

  /** A double rotation rebalances and always makes the subtree shorter. */
  lemma {:induction false} TwiceRebalances(m: Mem, m': Mem, c: Ctx, d: nat, a: Shape, x: Node, b: Shape, g: Node,
          e: Shape, n: Node, y: Shape, root: Node?, h: nat)
    requires d <= 1 && InPlace(m, c, Mk(d, Mk(d, a, x, Mk(d, b, g, e)), n, y), root) && x in m && n in m && g in m
    requires Heavy(m, d, Mk(d, a, x, Mk(d, b, g, e)), n, y) && m[x].bal == -Sign(d)
    requires RotatedTwice(m, m', c, d, a, x, b, g, e, n, y)
    ensures var t := Mk(d, Mk(d, a, x, b), g, Mk(d, e, n, y));
            && Rebalanced(m, m', c, Mk(d, Mk(d, a, x, Mk(d, b, g, e)), n, y), t, if c.Top? then g else root, h)
            && H(t) == H(y) + 2
  {
    BalMk(m, d, a, x, Mk(d, b, g, e));
    InPlaceIs(m, c, Mk(d, Mk(d, a, x, Mk(d, b, g, e)), n, y), root);
    TwiceApart(m, c, d, a, x, b, g, e, n, y, root);
    TwiceLinked(m, m', c, d, a, x, b, g, e, n, y, root);
    assert Linked(m, Mk(d, b, g, e), x, 1 - d) by {
      LinkedMk(m, d, Mk(d, a, x, Mk(d, b, g, e)), n, y, CtxNode(c), CtxDir(c));
      LinkedMk(m, d, a, x, Mk(d, b, g, e), n, d);
    }
    TwiceBal(m, m', c, d, a, x, b, g, e, n, y);
    TwiceOrder(d, a, x, b, g, e, n, y);
    RehungKeeps(m, m', c, n, g, h);
  }

  /** What the code of a single rotation does to the fields. */
  ghost predicate OnceDone(m: Mem, m': Mem, d: nat, n: Node, x: Node)
    requires d <= 1 && n in m && x in m
  {
    var b, p := Child(m[x], 1 - d), m[n].parent;
    && ChangedOnly(m, m', {n, x} + Opt(b) + Opt(p))
    && m'[n] == SetChild(m[n], d, b).(bal := Sign(d) - m[x].bal, ci := 1 - d, parent := x)
    && m'[x] == SetChild(m[x], 1 - d, n).(bal := m[x].bal - Sign(d), ci := m[n].ci, parent := p)
    && (b != null ==> b in m && m'[b] == m[b].(parent := n, ci := d))
    && (p != null ==> p in m && m'[p] == SetChild(m[p], m[n].ci, x))
  }

  lemma {:induction false} OnceCorrect(m: Mem, m': Mem, c: Ctx, d: nat, a: Shape, x: Node, b: Shape, n: Node,
          y: Shape, root: Node?, h: nat)
    requires d <= 1 && InPlace(m, c, Mk(d, Mk(d, a, x, b), n, y), root) && x in m && n in m
    requires Heavy(m, d, Mk(d, a, x, b), n, y) && m[x].bal != -Sign(d) && OnceDone(m, m', d, n, x)
    ensures var t := Mk(d, a, x, Mk(d, b, n, y));
            && Rebalanced(m, m', c, Mk(d, Mk(d, a, x, b), n, y), t, if c.Top? then x else root, h)
            && H(t) == H(y) + if m[x].bal == Sign(d) then 2 else 3
  {
    OnceApart(m, c, d, a, x, b, n, y, root);
    OnceFields(m, m', c, d, a, x, b, n, y, root);
    OnceRebalances(m, m', c, d, a, x, b, n, y, root, h);
  }

  /** What the code of a double rotation does to the fields. */
  ghost predicate TwiceDone(m: Mem, m': Mem, d: nat, n: Node, x: Node, g: Node)
    requires d <= 1 && n in m && x in m && g in m
  {
    var b, e, p := Child(m[g], d), Child(m[g], 1 - d), m[n].parent;
    && ChangedOnly(m, m', {n, x, g} + Opt(b) + Opt(e) + Opt(p))
    && m'[n] == SetChild(m[n], d, e).(bal := NodeBal(d, m[g].bal), ci := 1 - d, parent := g)
    && m'[x] == SetChild(m[x], 1 - d, b).(bal := ChildBal(d, m[g].bal), ci := d, parent := g)
    && m'[g] == SetChild(SetChild(m[g], d, x), 1 - d, n).(bal := 0, ci := m[n].ci, parent := p)
    && (b != null ==> b in m && m'[b] == m[b].(parent := x, ci := 1 - d))
    && (e != null ==> e in m && m'[e] == m[e].(parent := n, ci := d))
    && (p != null ==> p in m && m'[p] == SetChild(m[p], m[n].ci, g))
  }

  lemma {:induction false} TwiceCorrect(m: Mem, m': Mem, c: Ctx, d: nat, a: Shape, x: Node, b: Shape, g: Node,
          e: Shape, n: Node, y: Shape, root: Node?, h: nat)
    requires d <= 1 && InPlace(m, c, Mk(d, Mk(d, a, x, Mk(d, b, g, e)), n, y), root) && x in m && n in m && g in m
    requires Heavy(m, d, Mk(d, a, x, Mk(d, b, g, e)), n, y) && m[x].bal == -Sign(d) && TwiceDone(m, m', d, n, x, g)
    ensures var t := Mk(d, Mk(d, a, x, b), g, Mk(d, e, n, y));
            && Rebalanced(m, m', c, Mk(d, Mk(d, a, x, Mk(d, b, g, e)), n, y), t, if c.Top? then g else root, h)
            && H(t) == H(y) + 2
  {
    OnceApart(m, c, d, a, x, Mk(d, b, g, e), n, y, root);
    TwiceApart(m, c, d, a, x, b, g, e, n, y, root);
    TwiceFields(m, m', c, d, a, x, b, g, e, n, y, root);
    TwiceRebalances(m, m', c, d, a, x, b, g, e, n, y, root, h);
  }

  /** The pointers that the code of a single rotation follows, and that they differ. */
  lemma {:induction false} OncePointers(m: Mem, c: Ctx, d: nat, a: Shape, x: Node, b: Shape, n: Node, y: Shape,
          root: Node?)
    requires d <= 1 && InPlace(m, c, Mk(d, Mk(d, a, x, b), n, y), root)
    ensures n in m && x in m && n != x && Child(m[n], d) == x && Child(m[x], 1 - d) == Root(b)
    ensures var p, rb := m[n].parent, Child(m[x], 1 - d);
            && p == CtxNode(c) && p != n && p != x && rb != n && rb != x && (p != null ==> p in m && p != rb) && (rb != null ==> rb in m)
  {
    OnceApart(m, c, d, a, x, b, n, y, root);
  }

  lemma {:induction false} TwicePointers(m: Mem, c: Ctx, d: nat, a: Shape, x: Node, b: Shape, g: Node, e: Shape,
          n: Node, y: Shape, root: Node?)
    requires d <= 1 && InPlace(m, c, Mk(d, Mk(d, a, x, Mk(d, b, g, e)), n, y), root)
    ensures n in m && x in m && g in m && n != x && n != g && x != g && Child(m[n], d) == x && Child(m[x], 1 - d) == g
    ensures var p, rb, re := m[n].parent, Child(m[g], d), Child(m[g], 1 - d);
            && p == CtxNode(c) && p != n && p != x && p != g && (p != null ==> p in m && p != rb && p != re)
            && rb != n && rb != x && rb != g && re != n && re != x && re != g
            && (rb != null ==> rb in m && rb != re) && (re != null ==> re in m)
  {
    OncePointers(m, c, d, a, x, Mk(d, b, g, e), n, y, root);
    TwiceApart(m, c, d, a, x, b, g, e, n, y, root);
  }

  // ----- going up -----

  /** Node n has a new balance. */
  function SetBal(m: Mem, n: Node, v: int): Mem
    requires n in m
  {
    m[n := m[n].(bal := v)]
  }

  lemma {:induction false} SetBalSame(m: Mem, n: Node, v: int, s: Shape, p: Node?, d: nat)
    requires n in m && n !in Nodes(s) && Linked(m, s, p, d)
    ensures Same(m, SetBal(m, n, v), s)
  {
    if s.T? {
      SetBalSame(m, n, v, s.l, s.node, 0);
      SetBalSame(m, n, v, s.r, s.node, 1);
    }
  }

  lemma {:induction false} SetBalCtxSame(m: Mem, n: Node, v: int, c: Ctx, hole: Node?)
    requires n in m && n !in CtxNodes(c) && CtxLinked(m, c, hole)
    ensures CtxSame(m, SetBal(m, n, v), c)
  {
    if c.Frame? {
      SetBalSame(m, n, v, c.sib, c.node, 1 - c.dir);
      SetBalCtxSame(m, n, v, c.up, c.node);
    }
  }

  lemma {:induction false} NodeAbove(m: Mem, c: Ctx, s: Shape, root: Node?)
    requires c.Frame? && InPlace(m, c, s, root)
    ensures c.node in m && c.dir <= 1 && m[c.node].parent == CtxNode(c.up) && (c.up.Frame? ==> m[c.node].ci == c.up.dir)
  {
    InPlaceIs(m, c, s, root);
  }

  /** Changing the stored balance of the node above a subtree keeps the tree in place. */
  lemma {:induction false} UpStep(m: Mem, c: Ctx, s: Shape, root: Node?, v: int)
    requires c.Frame? && InPlace(m, c, s, root) && c.node in m
    ensures InPlace(SetBal(m, c.node, v), c.up, Mk(c.dir, s, c.node, c.sib), root)
  {
    var m', d, n := SetBal(m, c.node, v), c.dir, c.node;
    InPlaceIs(m, c, s, root);
    SetBalSame(m, n, v, s, n, d);
    SetBalSame(m, n, v, c.sib, n, 1 - d);
    SetBalCtxSame(m, n, v, c.up, n);
    KeepsShape(m, m', s, n, d);
    KeepsShape(m, m', c.sib, n, 1 - d);
    CtxKeeps(m, m', c.up, n);
    InPlaceIs(m', c, s, root);
  }

  lemma {:induction false} UpBal(m: Mem, c: Ctx, s: Shape, root: Node?, v: int, h: nat)
    requires c.Frame? && InPlace(m, c, s, root) && c.node in m && CtxBal(m, c, h) && Bal(m, s)
    ensures var m' := SetBal(m, c.node, v);
            CtxBal(m', c.up, 1 + Max(h, H(c.sib))) && Bal(m', s) && Bal(m', c.sib)
  {
    var m', d, n := SetBal(m, c.node, v), c.dir, c.node;
    InPlaceIs(m, c, s, root);
    SetBalSame(m, n, v, s, n, d);
    SetBalSame(m, n, v, c.sib, n, 1 - d);
    SetBalCtxSame(m, n, v, c.up, n);
    KeepsBal(m, m', s);
    KeepsBal(m, m', c.sib);
    CtxKeepsBal(m, m', c.up, 1 + Max(h, H(c.sib)));
  }

  /** The fields form a balanced tree of shape s. */
  ghost predicate WellFormed(m: Mem, s: Shape, root: Node?)
  {
    InPlace(m, Top, s, root) && Bal(m, s)
  }

  lemma {:induction false} InPlaceWhole(m: Mem, c: Ctx, s: Shape, root: Node?)
    requires InPlace(m, c, s, root)
    ensures InPlace(m, Top, Plug(c, s), root)
    decreases c
  {
    if c.Frame? { InPlaceWhole(m, c.up, Mk(c.dir, s, c.node, c.sib), root); }
  }

  lemma {:induction false} Whole(m: Mem, c: Ctx, s: Shape, root: Node?)
    requires InPlace(m, c, s, root) && Bal(m, s) && CtxBal(m, c, H(s))
    ensures WellFormed(m, Plug(c, s), root)
  {
    InPlaceWhole(m, c, s, root);
    InPlaceIs(m, c, s, root);
    PlugBal(m, c, s);
  }

  lemma {:induction false} SignCases(d: nat, x: int)
    ensures Sign(d) * x == 0 <==> x == 0
    ensures Sign(d) * x == Sign(d) <==> x == 1
    ensures Sign(d) * x == -Sign(d) <==> x == -1
  {
  }

  /** The change of a subtree ends at the node above, whose height stays the same. */
  lemma {:induction false} StopAt(m: Mem, c: Ctx, s: Shape, root: Node?, v: int, h: nat)
    requires c.Frame? && c.dir <= 1 && InPlace(m, c, s, root) && c.node in m && CtxBal(m, c, h) && Bal(m, s)
    requires v == Sign(c.dir) * (H(s) - H(c.sib)) && -1 <= v <= 1 && Max(H(s), H(c.sib)) == Max(h, H(c.sib))
    ensures WellFormed(SetBal(m, c.node, v), Plug(c, s), root)
  {
    var m', t := SetBal(m, c.node, v), Mk(c.dir, s, c.node, c.sib);
    UpStep(m, c, s, root, v);
    UpBal(m, c, s, root, v, h);
    BalMk(m', c.dir, s, c.node, c.sib);
    Whole(m', c.up, t, root);
  }

  // ----- growth -----

  /** The subtree s inside c has grown from height h by one level, and the balances around it are not
      corrected yet. Its own root is not balanced, unless it is a single new node. */
  ghost predicate Growing(m: Mem, c: Ctx, s: Shape, h: nat, root: Node?)
  {
    && InPlace(m, c, s, root) && Bal(m, s) && CtxBal(m, c, h)
    && H(s) == h + 1 && (h == 0 || m[s.node].bal != 0)
  }

  /** The side on which a balance of -2 or 2 is heavy. */
  function Side(balance: int): nat { if balance < 0 then 0 else 1 }

  /** The growth is absorbed by the node above. */
  lemma {:induction false} GrowStops(m: Mem, c: Ctx, s: Shape, h: nat, root: Node?)
    requires Growing(m, c, s, h, root) && c.Frame? && c.node in m && m[c.node].bal + Sign(c.dir) == 0
    ensures WellFormed(SetBal(m, c.node, 0), Plug(c, s), root)
  {
    NodeAbove(m, c, s, root);
    SignCases(c.dir, h - H(c.sib));
    StopAt(m, c, s, root, 0, h);
  }

  /** The growth is passed on. */
  lemma {:induction false} GrowGoesOn(m: Mem, c: Ctx, s: Shape, h: nat, root: Node?)
    requires Growing(m, c, s, h, root) && c.Frame? && c.node in m && m[c.node].bal == 0
    ensures Growing(SetBal(m, c.node, Sign(c.dir)), c.up, Mk(c.dir, s, c.node, c.sib), h + 1, root)
  {
    NodeAbove(m, c, s, root);
    UpStep(m, c, s, root, Sign(c.dir));
    UpBal(m, c, s, root, Sign(c.dir), h);
    assert H(c.sib) == h;
    BalMk(SetBal(m, c.node, Sign(c.dir)), c.dir, s, c.node, c.sib);
  }

  /** The growth calls for a rotation, which undoes it. */
  lemma {:induction false} GrowDue(m: Mem, c: Ctx, s: Shape, h: nat, root: Node?)
    requires Growing(m, c, s, h, root) && c.Frame? && c.node in m && m[c.node].bal + Sign(c.dir) != 0
             && m[c.node].bal != 0
    ensures c.dir <= 1 && m[c.node].bal == Sign(c.dir) && Heavy(m, c.dir, s, c.node, c.sib) && CtxBal(m, c.up, h + 1)
    ensures h > 0
  {
  }

  lemma {:induction false} RotatedWhole(m: Mem, m': Mem, c: Ctx, s: Shape, t: Shape, root: Node?, was: Node?, h: nat)
    requires Rebalanced(m, m', c, s, t, root, h) && CtxBal(m, c, h) && H(t) == h && InPlace(m, c, s, was)
    ensures WellFormed(m', Plug(c, t), root) && InOrder(Plug(c, t)) == InOrder(Plug(c, s))
  {
    Whole(m', c, t, root);
    InPlaceIs(m, c, s, was);
    PlugOrder(c, s);
    PlugOrder(c, t);
  }

  lemma {:induction false} SameNodes(s: Shape, t: Shape)
    requires InOrder(s) == InOrder(t)
    ensures Nodes(s) == Nodes(t)
  {
    forall n | n in Nodes(s) ensures n in Nodes(t) {
      NodesAreInOrder(s, n);
      NodesAreInOrder(t, n);
    }
    forall n | n in Nodes(t) ensures n in Nodes(s) {
      NodesAreInOrder(s, n);
      NodesAreInOrder(t, n);
    }
  }
}
