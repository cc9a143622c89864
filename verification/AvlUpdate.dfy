/** Adding and removing nodes of an AVL tree, as changes of the fields of a few nodes
    (bench/filebench/fb_avl.c). */
module AvlUpdate {
  import opened AvlShape
  import opened AvlRotate

  // ----- a place in a tree -----

  predicate CtxDirs(c: Ctx) { c.Top? || (c.dir <= 1 && CtxDirs(c.up)) }

  lemma {:induction false} InPlaceAt(m: Mem, c: Ctx, s: Shape, root: Node?)
    requires CtxDirs(c) && InPlace(m, Top, Plug(c, s), root)
    ensures InPlace(m, c, s, root)
    decreases c
  {
    if c.Frame? { InPlaceAt(m, c.up, Mk(c.dir, s, c.node, c.sib), root); }
  }

  lemma {:induction false} BalAt(m: Mem, c: Ctx, s: Shape)
    requires CtxDirs(c) && Bal(m, Plug(c, s))
    ensures CtxBal(m, c, H(s)) && Bal(m, s)
    decreases c
  {
    if c.Frame? {
      BalAt(m, c.up, Mk(c.dir, s, c.node, c.sib));
      BalMk(m, c.dir, s, c.node, c.sib);
    }
  }

  // ----- a new leaf -----

  /** What hanging a new node below the place c does to the fields. */
  ghost predicate LeafPut(m: Mem, m': Mem, c: Ctx, n: Node)
  {
    && ChangedOnly(m, m', {n} + Opt(CtxNode(c))) && n in m && n !in CtxNodes(c)
    && m'[n].left == null && m'[n].right == null && m'[n].parent == CtxNode(c) && m'[n].bal == 0
    && m'[n].ci <= 1 && (c.Frame? ==> m'[n].ci == c.dir)
    && (c.Frame? ==> c.node in m && m'[c.node] == SetChild(m[c.node], c.dir, n))
  }

  lemma {:induction false} LeafGrows(m: Mem, m': Mem, c: Ctx, n: Node, root: Node?)
    requires InPlace(m, c, E, root) && CtxBal(m, c, 0) && LeafPut(m, m', c, n)
    ensures Growing(m', c, T(E, n, E), 0, if c.Top? then n else root)
  {
    InPlaceIs(m, c, E, root);
    RehungBy(m, m', {n} + Opt(CtxNode(c)), c, null, n);
    RehungKeeps(m, m', c, null, n, 0);
    if c.Frame? { PlugRoot(c, E, T(E, n, E)); }
    var s := T(E, n, E);
    assert Nodes(s) == {n} && Distinct(s);
    LinkedMk(m', 0, E, n, E, CtxNode(c), CtxDir(c));
    assert CtxNode(c) != null ==> c.Frame?;
    InPlaceIs(m', c, s, if c.Top? then n else root);
  }

  // ----- one node in the place of another -----

  /** What putting node v in the place of node u does to the fields. */
  ghost predicate TookPlace(m: Mem, m': Mem, u: Node, v: Node)
    requires u in m
  {
    var l, r, p := m[u].left, m[u].right, m[u].parent;
    && ChangedOnly(m, m', {v} + Opt(l) + Opt(r) + Opt(p)) && v in m && m'[v] == m[u]
    && (l != null ==> l in m && m'[l] == m[l].(parent := v))
    && (r != null ==> r in m && m'[r] == m[r].(parent := v))
    && (p != null ==> p in m && m'[p] == SetChild(m[p], m[u].ci, v))
  }

  lemma {:induction false} PlaceTaken(m: Mem, m': Mem, c: Ctx, l: Shape, u: Node, r: Shape, v: Node, root: Node?,
          h: nat)
    requires InPlace(m, c, T(l, u, r), root) && u in m && v !in CtxNodes(c) + Nodes(T(l, u, r))
             && TookPlace(m, m', u, v)
    requires Bal(m, l) && Bal(m, r)
    ensures InPlace(m', c, T(l, v, r), if c.Top? then v else root) && Bal(m', l) && Bal(m', r)
    ensures CtxBal(m, c, h) ==> CtxBal(m', c, h)
  {
    var t := {v} + Opt(Root(l)) + Opt(Root(r)) + Opt(CtxNode(c));
    InPlaceIs(m, c, T(l, u, r), root);
    RootIn(l);
    RootIn(r);
    assert c.Frame? ==> CtxNode(c) in CtxNodes(c);
    MovedBy(m, m', t, l, u, 0, v, 0);
    MovedBy(m, m', t, r, u, 1, v, 1);
    RehungBy(m, m', t, c, u, v);
    MovedKeeps(m, m', l, u, 0, v, 0);
    MovedKeeps(m, m', r, u, 1, v, 1);
    RehungKeeps(m, m', c, u, v, h);
    if c.Frame? { PlugRoot(c, T(l, u, r), T(l, v, r)); }
    InPlaceIs(m', c, T(l, v, r), if c.Top? then v else root);
  }

  // ----- taking out a node with at most one child -----

  /** What replacing node u by its only subtree z does to the fields. */
  ghost predicate TakenOut(m: Mem, m': Mem, c: Ctx, u: Node, z: Node?)
    requires u in m
  {
    var p := m[u].parent;
    && ChangedOnly(m, m', Opt(z) + Opt(p))
    && (z != null ==> z in m && m'[z] == m[z].(parent := p, ci := m[u].ci))
    && (p != null ==> p in m && m'[p] == SetChild(m[p], m[u].ci, z))
  }

  lemma {:induction false} TakenOutFits(m: Mem, m': Mem, c: Ctx, d: nat, z: Shape, u: Node, root: Node?, h: nat)
    requires d <= 1 && InPlace(m, c, Mk(d, z, u, E), root) && u in m && TakenOut(m, m', c, u, Root(z)) && Bal(m, z)
    ensures InPlace(m', c, z, if c.Top? then Root(z) else root) && Bal(m', z)
    ensures CtxBal(m, c, h) ==> CtxBal(m', c, h)
  {
    var t := Opt(Root(z)) + Opt(CtxNode(c));
    InPlaceIs(m, c, Mk(d, z, u, E), root);
    NodesMk(d, z, u, E);
    LinkedMk(m, d, z, u, E, CtxNode(c), CtxDir(c));
    RootIn(z);
    assert c.Frame? ==> CtxNode(c) in CtxNodes(c);
    MovedBy(m, m', t, z, u, d, CtxNode(c), m[u].ci);
    MovedKeeps(m, m', z, u, d, CtxNode(c), m[u].ci);
    RehungBy(m, m', t, c, u, Root(z));
    RehungKeeps(m, m', c, u, Root(z), h);
    if c.Frame? { PlugRoot(c, Mk(d, z, u, E), z); }
    InPlaceIs(m', c, z, if c.Top? then Root(z) else root);
  }

  // ----- shrinking -----

  /** The subtree s inside c has shrunk from height h by one level, and the balances around it are not
      corrected yet. */
  ghost predicate Shrinking(m: Mem, c: Ctx, s: Shape, h: nat, root: Node?)
  {
    InPlace(m, c, s, root) && Bal(m, s) && CtxBal(m, c, h) && H(s) + 1 == h
  }

  /** The node above was balanced: it leans to the other side now and is as high as before. */
  lemma {:induction false} ShrinkStops(m: Mem, c: Ctx, s: Shape, h: nat, root: Node?)
    requires Shrinking(m, c, s, h, root) && c.Frame? && c.node in m && m[c.node].bal == 0
    ensures WellFormed(SetBal(m, c.node, -Sign(c.dir)), Plug(c, s), root)
  {
    NodeAbove(m, c, s, root);
    SignCases(c.dir, h - H(c.sib));
    StopAt(m, c, s, root, -Sign(c.dir), h);
  }

  /** The node above leaned to the side that has shrunk: it is balanced now and has shrunk too. */
  lemma {:induction false} ShrinkGoesOn(m: Mem, c: Ctx, s: Shape, h: nat, root: Node?)
    requires Shrinking(m, c, s, h, root) && c.Frame? && c.node in m && m[c.node].bal == Sign(c.dir)
    ensures Shrinking(SetBal(m, c.node, 0), c.up, Mk(c.dir, s, c.node, c.sib), h + 1, root)
  {
    NodeAbove(m, c, s, root);
    SignCases(c.dir, h - H(c.sib));
    UpStep(m, c, s, root, 0);
    UpBal(m, c, s, root, 0, h);
    BalMk(SetBal(m, c.node, 0), c.dir, s, c.node, c.sib);
  }

  /** The node above leaned to the other side: a rotation is due. */
  lemma {:induction false} ShrinkDue(m: Mem, c: Ctx, s: Shape, h: nat, root: Node?)
    requires Shrinking(m, c, s, h, root) && c.Frame? && c.node in m && m[c.node].bal != 0
             && m[c.node].bal != Sign(c.dir)
    ensures c.dir <= 1 && m[c.node].bal == -Sign(c.dir)
            && Mk(c.dir, s, c.node, c.sib) == Mk(1 - c.dir, c.sib, c.node, s)
    ensures Heavy(m, 1 - c.dir, c.sib, c.node, s) && CtxBal(m, c.up, h + 2) && H(s) + 1 == h
    ensures InPlace(m, c.up, Mk(1 - c.dir, c.sib, c.node, s), root) && c.sib.T? && c.sib.node in m
  {
    NodeAbove(m, c, s, root);
    InPlaceIs(m, c, s, root);
  }

  lemma {:induction false} PlugSame(c: Ctx, s: Shape, t: Shape)
    requires CtxDistinct(c) && InOrder(s) == InOrder(t)
    ensures InOrder(Plug(c, s)) == InOrder(Plug(c, t))
  {
    PlugOrder(c, s);
    PlugOrder(c, t);
  }

  // ----- the outermost node on one side -----

  /** The outermost node of x on side e. */
  function Last(x: Shape, e: nat): Node
    requires x.T?
  {
    if Sub(x, e).E? then x.node else Last(Sub(x, e), e)
  }

  /** The subtree that hangs below it. */
  function Rest(x: Shape, e: nat): Shape
    requires x.T? && e <= 1
  {
    if Sub(x, e).E? then Sub(x, 1 - e) else Rest(Sub(x, e), e)
  }

  /** What is around it, when x itself is inside c. */
  function Deep(c: Ctx, x: Shape, e: nat): Ctx
    requires x.T? && e <= 1
    decreases x
  {
    if Sub(x, e).E? then c else Deep(Frame(e, x.node, Sub(x, 1 - e), c), Sub(x, e), e)
  }

  /** The tree x with node v in its place, and the tree x without it. */
  function WithLast(x: Shape, e: nat, v: Node): Shape
    requires x.T? && e <= 1
  {
    if Sub(x, e).E? then Mk(e, E, v, Sub(x, 1 - e)) else Mk(e, WithLast(Sub(x, e), e, v), x.node, Sub(x, 1 - e))
  }

  function WithoutLast(x: Shape, e: nat): Shape
    requires x.T? && e <= 1
  {
    if Sub(x, e).E? then Sub(x, 1 - e) else Mk(e, WithoutLast(Sub(x, e), e), x.node, Sub(x, 1 - e))
  }

  lemma {:induction false} WithOwnLast(x: Shape, e: nat)
    requires x.T? && e <= 1
    ensures WithLast(x, e, Last(x, e)) == x
  {
    if Sub(x, e).T? { WithOwnLast(Sub(x, e), e); }
  }

  /** Seen from the outermost node or from x, it is the same tree. */
  lemma {:induction false} DeepPlace(m: Mem, c: Ctx, x: Shape, e: nat, v: Node, root: Node?)
    requires x.T? && e <= 1
    ensures InPlace(m, Deep(c, x, e), Mk(e, E, v, Rest(x, e)), root) <==> InPlace(m, c, WithLast(x, e, v), root)
    decreases x
  {
    if Sub(x, e).T? { DeepPlace(m, Frame(e, x.node, Sub(x, 1 - e), c), Sub(x, e), e, v, root); }
  }

  lemma {:induction false} DeepBal(m: Mem, c: Ctx, x: Shape, e: nat, v: Node)
    requires x.T? && e <= 1
    ensures var low, x' := Mk(e, E, v, Rest(x, e)), WithLast(x, e, v);
            CtxBal(m, Deep(c, x, e), H(low)) && Bal(m, low) <==> CtxBal(m, c, H(x')) && Bal(m, x')
    decreases x
  {
    if Sub(x, e).T? {
      var w := Sub(x, 1 - e);
      DeepBal(m, Frame(e, x.node, w, c), Sub(x, e), e, v);
      BalMk(m, e, WithLast(Sub(x, e), e, v), x.node, w);
    }
  }

  lemma {:induction false} DeepWithout(c: Ctx, x: Shape, e: nat)
    requires x.T? && e <= 1
    ensures Plug(Deep(c, x, e), Rest(x, e)) == Plug(c, WithoutLast(x, e))
    decreases x
  {
    if Sub(x, e).T? { DeepWithout(Frame(e, x.node, Sub(x, 1 - e), c), Sub(x, e), e); }
  }

  lemma {:induction false} LastOrder(x: Shape)
    requires x.T?
    ensures InOrder(x) == InOrder(WithoutLast(x, 1)) + [Last(x, 1)]
  {
    if x.r.T? {
      LastOrder(x.r);
      var w, n, l := InOrder(WithoutLast(x.r, 1)), [x.node], [Last(x, 1)];
      assert InOrder(x.l) + (n + (w + l)) == (InOrder(x.l) + (n + w)) + l;
    }
  }

  lemma {:induction false} FirstOrder(x: Shape)
    requires x.T?
    ensures InOrder(x) == [Last(x, 0)] + InOrder(WithoutLast(x, 0))
  {
    if x.l.T? {
      FirstOrder(x.l);
      var w, n, l := InOrder(WithoutLast(x.l, 0)), [x.node], [Last(x, 0)];
      assert (l + w) + (n + InOrder(x.r)) == l + (w + (n + InOrder(x.r)));
    }
  }

  /** Bringing up the neighbour of a node, on side d, in its place leaves the order without the node. */
  lemma {:induction false} SwapOrder(d: nat, x: Shape, n: Node, y: Shape)
    requires x.T? && d <= 1
    ensures var s, t := Mk(d, x, n, y), Mk(d, WithoutLast(x, 1 - d), Last(x, 1 - d), y);
            if d == 0 then InOrder(s) == InOrder(x) + ([n] + InOrder(y)) && InOrder(t) == InOrder(x) + InOrder(y)
            else InOrder(s) == InOrder(y) + ([n] + InOrder(x)) && InOrder(t) == InOrder(y) + InOrder(x)
  {
    if d == 0 { LastOrder(x); } else { FirstOrder(x); }
  }

  // ----- removing a node with two children -----

  lemma {:induction false} LastGone(x: Shape, e: nat, v: Node)
    requires x.T? && e <= 1 && Distinct(x) && v !in Nodes(x)
    ensures Last(x, e) in Nodes(x) && Last(x, e) !in Nodes(WithLast(x, e, v))
            && Nodes(WithLast(x, e, v)) <= Nodes(x) + {v}
  {
    if Sub(x, e).T? { LastGone(Sub(x, e), e, v); }
  }

  /** The pointers that putting another node in the place of u follows, and that they differ. */
  lemma {:induction false} PlacePointers(m: Mem, c: Ctx, d: nat, x: Shape, u: Node, y: Shape, root: Node?)
    requires d <= 1 && InPlace(m, c, Mk(d, x, u, y), root)
    ensures u in m && u in Nodes(Mk(d, x, u, y))
    ensures Child(m[u], d) == Root(x) && Child(m[u], 1 - d) == Root(y) && m[u].parent == CtxNode(c) && m[u].ci <= 1 && (c.Frame? ==> m[u].ci == c.dir)
    ensures var l, r, p := m[u].left, m[u].right, m[u].parent;
            && u != l && u != r && u != p && Opt(l) + Opt(r) <= Nodes(Mk(d, x, u, y)) && Opt(p) <= CtxNodes(c)
            && Opt(l) + Opt(r) + Opt(p) <= m.Keys
            && (l != null ==> l != r && l != p) && (r != null ==> r != p)
  {
    InPlaceIs(m, c, Mk(d, x, u, y), root);
    NodesMk(d, x, u, y);
    LinkedMk(m, d, x, u, y, CtxNode(c), CtxDir(c));
    RootIn(x);
    RootIn(y);
  }

  /** A node with at most one child, the root of z. */
  lemma {:induction false} LowPlace(m: Mem, c: Ctx, d: nat, z: Shape, u: Node, root: Node?)
    requires d <= 1 && Sound(m, c, Mk(d, z, u, E), root)
    ensures u in m && Root(z) == if m[u].left != null then m[u].left else m[u].right
    ensures m[u].parent == CtxNode(c) && (c.Frame? ==> m[u].ci == c.dir) && Opt(Root(z)) + Opt(m[u].parent) <= m.Keys
    ensures Root(z) != u && m[u].parent != u && (Root(z) != null ==> Root(z) != m[u].parent)
    ensures Bal(m, z) && CtxBal(m, c, H(z) + 1)
  {
    PlacePointers(m, c, d, z, u, E, root);
    BalMk(m, d, z, u, E);
  }

  lemma {:induction false} PlaceTakenMk(m: Mem, m': Mem, c: Ctx, d: nat, x: Shape, u: Node, y: Shape, v: Node,
          root: Node?, h: nat)
    requires d <= 1 && InPlace(m, c, Mk(d, x, u, y), root) && u in m && v !in CtxNodes(c) + Nodes(Mk(d, x, u, y))
             && TookPlace(m, m', u, v)
    requires Bal(m, x) && Bal(m, y)
    ensures InPlace(m', c, Mk(d, x, v, y), if c.Top? then v else root) && Bal(m', x) && Bal(m', y) && v in m' && m'[v] == m[u]
    ensures CtxBal(m, c, h) ==> CtxBal(m', c, h)
  {
    if d == 0 { PlaceTaken(m, m', c, x, u, y, v, root, h); } else { PlaceTaken(m, m', c, y, u, x, v, root, h); }
  }

  lemma {:induction false} FrameBal(m: Mem, c: Ctx, d: nat, x: Shape, n: Node, y: Shape)
    requires d <= 1
    ensures CtxBal(m, Frame(d, n, y, c), H(x)) && Bal(m, x) <==> CtxBal(m, c, H(Mk(d, x, n, y))) && Bal(m, Mk(d, x, n, y))
  {
    BalMk(m, d, x, n, y);
  }

  /** A balanced tree with s in its place inside c. */
  ghost predicate Sound(m: Mem, c: Ctx, s: Shape, root: Node?)
  {
    InPlace(m, c, s, root) && Bal(m, s) && CtxBal(m, c, H(s))
  }

  lemma {:induction false} FrameSound(m: Mem, c: Ctx, d: nat, x: Shape, n: Node, y: Shape, root: Node?)
    requires d <= 1
    ensures Sound(m, Frame(d, n, y, c), x, root) <==> Sound(m, c, Mk(d, x, n, y), root)
  {
    FrameBal(m, c, d, x, n, y);
  }

  lemma {:induction false} DeepSound(m: Mem, c: Ctx, x: Shape, e: nat, v: Node, root: Node?)
    requires x.T? && e <= 1
    ensures Sound(m, Deep(c, x, e), Mk(e, E, v, Rest(x, e)), root) <==> Sound(m, c, WithLast(x, e, v), root)
  {
    DeepPlace(m, c, x, e, v, root);
    DeepBal(m, c, x, e, v);
  }

  /** A node n with a subtree x on side d, and the outermost node v of x on the other side: the tree
      seen from n and seen from v. */
  lemma {:induction false} Lower(m: Mem, c: Ctx, d: nat, x: Shape, n: Node, y: Shape, v: Node, root: Node?)
    requires d <= 1 && x.T?
    ensures var e := 1 - d;
            Sound(m, Deep(Frame(d, n, y, c), x, e), Mk(e, E, v, Rest(x, e)), root) <==> Sound(m, c, Mk(d, WithLast(x, e, v), n, y), root)
  {
    DeepSound(m, Frame(d, n, y, c), x, 1 - d, v, root);
    FrameSound(m, c, d, WithLast(x, 1 - d, v), n, y, root);
  }

  /** Putting v in the place of u keeps a tree balanced. */
  lemma {:induction false} PlaceSound(m: Mem, m': Mem, c: Ctx, d: nat, x: Shape, u: Node, y: Shape, v: Node,
          root: Node?)
    requires d <= 1 && Sound(m, c, Mk(d, x, u, y), root) && u in m && v !in CtxNodes(c) + Nodes(Mk(d, x, u, y))
             && TookPlace(m, m', u, v)
    ensures Sound(m', c, Mk(d, x, v, y), if c.Top? then v else root)
  {
    BalMk(m, d, x, u, y);
    PlaceTakenMk(m, m', c, d, x, u, y, v, root, H(Mk(d, x, u, y)));
    BalMk(m', d, x, v, y);
  }

  lemma {:induction false} DeepNodes(c: Ctx, x: Shape, e: nat, v: Node)
    requires x.T? && e <= 1
    ensures CtxNodes(Deep(c, x, e)) + Nodes(Mk(e, E, v, Rest(x, e))) == CtxNodes(c) + Nodes(WithLast(x, e, v))
    decreases x
  {
    if Sub(x, e).T? {
      var w := Sub(x, 1 - e);
      DeepNodes(Frame(e, x.node, w, c), Sub(x, e), e, v);
      NodesMk(e, WithLast(Sub(x, e), e, v), x.node, w);
    }
  }

  /** The neighbour of n is part of the tree, and is free to take the place of n once v has its own. */
  lemma {:induction false} NeighbourFree(m: Mem, c: Ctx, d: nat, x: Shape, n: Node, y: Shape, v: Node, root: Node?)
    requires d <= 1 && x.T? && InPlace(m, c, Mk(d, x, n, y), root) && v !in CtxNodes(c) + Nodes(Mk(d, x, n, y))
    ensures var e := 1 - d;
            && v !in CtxNodes(Deep(Frame(d, n, y, c), x, e)) + Nodes(Mk(e, E, Last(x, e), Rest(x, e)))
            && Last(x, e) !in CtxNodes(c) + Nodes(Mk(d, WithLast(x, e, v), n, y)) && CtxDistinct(c)
  {
    var e := 1 - d;
    InPlaceIs(m, c, Mk(d, x, n, y), root);
    NodesMk(d, x, n, y);
    NodesMk(d, WithLast(x, e, v), n, y);
    LastGone(x, e, v);
    WithOwnLast(x, e);
    DeepNodes(Frame(d, n, y, c), x, e, Last(x, e));
  }

  /** The order that removing n leaves. */
  function OrderWithout(c: Ctx, d: nat, x: Shape, y: Shape): seq<Node>
  {
    Before(c) + ((if d == 0 then InOrder(x) + InOrder(y) else InOrder(y) + InOrder(x)) + After(c))
  }

  lemma {:induction false} SwappedOrder(c: Ctx, d: nat, x: Shape, y: Shape)
    requires d <= 1 && x.T? && CtxDistinct(c)
    ensures var e := 1 - d;
            InOrder(Plug(Deep(Frame(d, Last(x, e), y, c), x, e), Rest(x, e))) == OrderWithout(c, d, x, y)
  {
    var e := 1 - d;
    var b := Last(x, e);
    DeepWithout(Frame(d, b, y, c), x, e);
    SwapOrder(d, x, b, y);
    PlugOrder(c, Mk(d, WithoutLast(x, e), b, y));
  }

  // ----- more or fewer nodes in the memory -----

  /** A memory that holds the same for the nodes of s. */
  lemma {:induction false} OtherMemory(m: Mem, m': Mem, s: Shape, p: Node?, d: nat)
    requires Linked(m, s, p, d) && Bal(m, s) && Nodes(s) <= m'.Keys && forall k :: k in m && k in m' ==> m'[k] == m[k]
    ensures Linked(m', s, p, d) && Bal(m', s)
  {
    if s.T? {
      OtherMemory(m, m', s.l, s.node, 0);
      OtherMemory(m, m', s.r, s.node, 1);
    }
  }

  /** A place in a balanced tree. */
  lemma {:induction false} PlaceReady(m0: Mem, m: Mem, c: Ctx, s: Shape, root: Node?)
    requires WellFormed(m0, Plug(c, s), root) && CtxDirs(c) && Nodes(Plug(c, s)) <= m.Keys && forall k :: k in m0 && k in m ==> m[k] == m0[k]
    ensures Sound(m, c, s, root) && CtxDistinct(c) && Distinct(s) && CtxNodes(c) !! Nodes(s)
            && Nodes(Plug(c, s)) == CtxNodes(c) + Nodes(s)
    ensures InOrder(Plug(c, s)) == Before(c) + (InOrder(s) + After(c))
  {
    OtherMemory(m0, m, Plug(c, s), null, 0);
    InPlaceAt(m, c, s, root);
    BalAt(m, c, s);
    InPlaceIs(m, c, s, root);
    PlugNodes(c, s);
    PlugOrder(c, s);
  }

  lemma {:induction false} StillWellFormed(m: Mem, m': Mem, s: Shape, root: Node?)
    requires WellFormed(m, s, root) && Nodes(s) <= m'.Keys && forall k :: k in m && k in m' ==> m'[k] == m[k]
    ensures WellFormed(m', s, root)
  {
    OtherMemory(m, m', s, null, 0);
  }

  /** The nodes of a tree whose order lacks node n of the tree around place c. */
  lemma {:induction false} NodesWithout(c: Ctx, s: Shape, t: Shape)
    requires s.T? && CtxDistinct(c) && Distinct(s) && CtxNodes(c) !! Nodes(s)
    requires InOrder(t) == Before(c) + ((InOrder(s.l) + InOrder(s.r)) + After(c))
    ensures Nodes(t) == Nodes(Plug(c, s)) - {s.node}
    ensures |InOrder(t)| + 1 == |InOrder(Plug(c, s))|
  {
    PlugOrder(c, s);
    PlugNodes(c, s);
    forall k | k in Nodes(t) ensures k in Nodes(Plug(c, s)) - {s.node} {
      NodesAreInOrder(t, k);
      NodesAreInOrder(Plug(c, s), k);
      OuterNodes(c, k);
      NodesAreInOrder(s.l, k);
      NodesAreInOrder(s.r, k);
    }
    forall k | k in Nodes(Plug(c, s)) && k != s.node ensures k in Nodes(t) {
      NodesAreInOrder(t, k);
      NodesAreInOrder(Plug(c, s), k);
    }
  }

  lemma {:induction false} OuterNodes(c: Ctx, k: Node)
    ensures k in Before(c) || k in After(c) ==> k in CtxNodes(c)
  {
    if c.Frame? {
      OuterNodes(c.up, k);
      NodesAreInOrder(c.sib, k);
    }
  }
}
