/** The extent tree as a value: leaves hold extents, index nodes hold keys and the physical
    blocks of their children (kernfs/extents.c). A path is the sequence of index positions that
    lead from the root to a node. */
module ExtentTree {
  import opened ExtentSeq
  import opened LeafOps

  datatype Tree = Leaf(exts: seq<Extent>) | Index(kids: seq<Kid>)

  /** An index entry: the smallest logical block below it, the block that stores the child, the child. */
  datatype Kid = Kid(key: nat, blk: nat, sub: Tree)

  type Path = seq<nat>

  /** All extents of a tree, from left to right. */
  function Flat(t: Tree): seq<Extent>
    decreases t, 1
  {
    match t
    case Leaf(exts) => exts
    case Index(kids) => FlatKids(kids)
  }

  function FlatKids(kids: seq<Kid>): seq<Extent>
    decreases kids, 0
  {
    if kids == [] then [] else FlatKid(kids[0]) + FlatKids(kids[1..])
  }

  function FlatKid(k: Kid): seq<Extent>
    decreases k, 0
  {
    Flat(k.sub)
  }

  lemma {:induction false} FlatKidsConcat(a: seq<Kid>, b: seq<Kid>)
    ensures FlatKids(a + b) == FlatKids(a) + FlatKids(b)
  {
    if a == [] {
      assert a + b == b;
    } else {
      assert (a + b)[1..] == a[1..] + b;
      FlatKidsConcat(a[1..], b);
    }
  }

  lemma {:induction false} FlatKidsAround(kids: seq<Kid>, i: nat)
    requires i < |kids|
    ensures FlatKids(kids) == FlatKids(kids[..i]) + (Flat(kids[i].sub) + FlatKids(kids[i + 1..]))
  {
    assert kids == kids[..i] + ([kids[i]] + kids[i + 1..]);
    FlatKidsConcat(kids[..i], [kids[i]] + kids[i + 1..]);
    assert ([kids[i]] + kids[i + 1..])[1..] == kids[i + 1..];
  }

  predicate Empty(t: Tree)
  {
    match t
    case Leaf(exts) => exts == []
    case Index(kids) => kids == []
  }

  /** The key that an index entry for this node carries. */
  function MinKey(t: Tree): nat
    requires !Empty(t)
  {
    match t
    case Leaf(exts) => exts[0].lblk
    case Index(kids) => kids[0].key
  }

  /** Uniform depth d, at most cap entries in this node and B in the ones below it, no empty node
      below this one, and every key exact. */
  ghost predicate Shape(t: Tree, d: nat, cap: nat, B: nat)
    decreases d, 0
  {
    match t
    case Leaf(exts) => d == 0 && |exts| <= cap
    case Index(kids) =>
      && d > 0 && |kids| <= cap
      && forall i :: 0 <= i < |kids| ==> KidShape(kids[i], d - 1, B)
  }

  ghost predicate KidShape(k: Kid, d: nat, B: nat)
    decreases d, 1
  {
    !Empty(k.sub) && k.key == MinKey(k.sub) && Shape(k.sub, d, B, B)
  }

  lemma {:induction false} FirstKey(t: Tree, d: nat, cap: nat, B: nat)
    requires Shape(t, d, cap, B) && !Empty(t)
    ensures Flat(t) != [] && Flat(t)[0].lblk == MinKey(t)
    decreases d
  {
    if t.Index? {
      assert KidShape(t.kids[0], d - 1, B);
      FirstKey(t.kids[0].sub, d - 1, B, B);
      assert FlatKid(t.kids[0]) == Flat(t.kids[0].sub);
    }
  }

  lemma {:induction false} FirstKeyAt(kids: seq<Kid>, i: nat, d: nat, B: nat)
    requires i < |kids| && KidShape(kids[i], d, B)
    ensures FlatKids(kids[i..]) != [] && FlatKids(kids[i..])[0].lblk == kids[i].key
  {
    FirstKey(kids[i].sub, d, B, B);
    assert kids[i..][0] == kids[i];
    assert FlatKid(kids[i]) == Flat(kids[i].sub);
  }

  // ----- paths -----

  predicate IsPath(t: Tree, p: Path)
    decreases |p|
  {
    p == [] || (t.Index? && p[0] < |t.kids| && IsPath(t.kids[p[0]].sub, p[1..]))
  }

  function At(t: Tree, p: Path): Tree
    requires IsPath(t, p)
    decreases |p|
  {
    if p == [] then t else At(t.kids[p[0]].sub, p[1..])
  }

  /** The extents to the left of the node at p, and those to its right. */
  function Pre(t: Tree, p: Path): seq<Extent>
    requires IsPath(t, p)
    decreases |p|
  {
    if p == [] then [] else FlatKids(t.kids[..p[0]]) + Pre(t.kids[p[0]].sub, p[1..])
  }

  function Post(t: Tree, p: Path): seq<Extent>
    requires IsPath(t, p)
    decreases |p|
  {
    if p == [] then [] else Post(t.kids[p[0]].sub, p[1..]) + FlatKids(t.kids[p[0] + 1..])
  }

  lemma {:induction false} Regroup(a: seq<Extent>, b: seq<Extent>, c: seq<Extent>, d: seq<Extent>, e: seq<Extent>)
    ensures a + ((b + (c + d)) + e) == (a + b) + (c + (d + e))
  {
  }

  lemma {:induction false} FlatAround(t: Tree, p: Path)
    requires IsPath(t, p)
    ensures Flat(t) == Pre(t, p) + (Flat(At(t, p)) + Post(t, p))
    decreases |p|
  {
    if p != [] {
      FlatKidsAround(t.kids, p[0]);
      var i, sub := p[0], t.kids[p[0]].sub;
      FlatAround(sub, p[1..]);
      Regroup(FlatKids(t.kids[..i]), Pre(sub, p[1..]), Flat(At(sub, p[1..])), Post(sub, p[1..]),
              FlatKids(t.kids[i + 1..]));
    }
  }

  lemma {:induction false} AtShape(t: Tree, p: Path, d: nat, cap: nat, B: nat)
    requires IsPath(t, p) && Shape(t, d, cap, B)
    ensures |p| <= d
    ensures p == [] ==> At(t, p) == t
    ensures p != [] ==> !Empty(At(t, p)) && Shape(At(t, p), d - |p|, B, B)
    ensures |p| == d <==> At(t, p).Leaf?
    decreases |p|
  {
    if p != [] {
      assert KidShape(t.kids[p[0]], d - 1, B);
      AtShape(t.kids[p[0]].sub, p[1..], d - 1, B, B);
    }
  }

  /** Replace the node at p and make the keys above it exact again. */
  function Put(t: Tree, p: Path, s: Tree): (r: Tree)
    requires IsPath(t, p) && !Empty(s)
    ensures !Empty(r)
    decreases |p|
  {
    if p == [] then s
    else
      var k := t.kids[p[0]];
      var sub := Put(k.sub, p[1..], s);
      Index(t.kids[p[0] := Kid(MinKey(sub), k.blk, sub)])
  }

  lemma {:induction false} PutFlat(t: Tree, p: Path, s: Tree)
    requires IsPath(t, p) && !Empty(s)
    ensures Flat(Put(t, p, s)) == Pre(t, p) + (Flat(s) + Post(t, p))
    decreases |p|
  {
    if p != [] {
      var i, sub := p[0], t.kids[p[0]].sub;
      var kids' := Put(t, p, s).kids;
      FlatKidsAround(kids', i);
      PutFlat(sub, p[1..], s);
      assert kids'[..i] == t.kids[..i] && kids'[i + 1..] == t.kids[i + 1..];
      Regroup(FlatKids(t.kids[..i]), Pre(sub, p[1..]), Flat(s), Post(sub, p[1..]), FlatKids(t.kids[i + 1..]));
    }
  }

  lemma {:induction false} PutShape(t: Tree, p: Path, s: Tree, d: nat, cap: nat, B: nat)
    requires IsPath(t, p) && Shape(t, d, cap, B) && |p| <= d
    requires !Empty(s) && Shape(s, d - |p|, if p == [] then cap else B, B)
    ensures Shape(Put(t, p, s), d, cap, B)
    decreases |p|
  {
    if p != [] {
      assert KidShape(t.kids[p[0]], d - 1, B);
      PutShape(t.kids[p[0]].sub, p[1..], s, d - 1, B, B);
    }
  }

  lemma {:induction false} PutAt(t: Tree, p: Path, s: Tree)
    requires IsPath(t, p) && !Empty(s)
    ensures IsPath(Put(t, p, s), p) && At(Put(t, p, s), p) == s && Pre(Put(t, p, s), p) == Pre(t, p)
    decreases |p|
  {
    if p != [] {
      PutAt(t.kids[p[0]].sub, p[1..], s);
      assert Put(t, p, s).kids[..p[0]] == t.kids[..p[0]];
    }
  }

  /** Path p leads to a node to the left of the one that q leads to. */
  predicate Before(p: Path, q: Path)
    decreases |p|
  {
    p != [] && q != [] && (p[0] < q[0] || (p[0] == q[0] && Before(p[1..], q[1..])))
  }

  /** Replacing a node changes nothing to its left. */
  lemma {:induction false} PutKeepsLeft(t: Tree, p: Path, q: Path, s: Tree)
    requires IsPath(t, p) && IsPath(t, q) && Before(p, q) && !Empty(s)
    ensures IsPath(Put(t, q, s), p) && At(Put(t, q, s), p) == At(t, p) && Pre(Put(t, q, s), p) == Pre(t, p)
    decreases |p|
  {
    var kids' := Put(t, q, s).kids;
    assert kids'[..p[0]] == t.kids[..p[0]];
    if p[0] == q[0] { PutKeepsLeft(t.kids[p[0]].sub, p[1..], q[1..], s); }
  }

  // ----- search -----

  /** The last entry whose key is at most b, or the first entry. */
  function NearestKid(kids: seq<Kid>, b: nat): (i: nat)
    requires kids != []
    ensures i < |kids|
    ensures i > 0 ==> kids[i].key <= b
    ensures forall j :: i < j < |kids| ==> b < kids[j].key
  {
    if |kids| == 1 || kids[|kids| - 1].key <= b then |kids| - 1 else NearestKid(kids[..|kids| - 1], b)
  }

  function FindPath(t: Tree, b: nat, d: nat): (p: Path)
    decreases d
  {
    if d == 0 || t.Leaf? || t.kids == [] then []
    else var i := NearestKid(t.kids, b); [i] + FindPath(t.kids[i].sub, b, d - 1)
  }

  lemma {:induction false} FindPathIsPath(t: Tree, b: nat, d: nat, cap: nat, B: nat)
    requires Shape(t, d, cap, B) && (d > 0 ==> !Empty(t))
    ensures IsPath(t, FindPath(t, b, d)) && |FindPath(t, b, d)| == d
    ensures At(t, FindPath(t, b, d)).Leaf?
    ensures !Empty(t) ==> !Empty(At(t, FindPath(t, b, d)))
    decreases d
  {
    if d > 0 {
      var i := NearestKid(t.kids, b);
      assert KidShape(t.kids[i], d - 1, B);
      FindPathIsPath(t.kids[i].sub, b, d - 1, B, B);
      assert ([i] + FindPath(t.kids[i].sub, b, d - 1))[1..] == FindPath(t.kids[i].sub, b, d - 1);
    }
  }

  /** Searching down the tree finds the extent that a scan of all extents finds. */
  lemma {:induction false} FindIsNearest(t: Tree, b: nat, d: nat, cap: nat, B: nat)
    requires Shape(t, d, cap, B) && !Empty(t) && Sorted(Flat(t))
    ensures var p := FindPath(t, b, d);
            && IsPath(t, p) && At(t, p).Leaf? && At(t, p).exts != []
            && IsNearest(Flat(t), |Pre(t, p)| + Nearest(At(t, p).exts, b), b)
    decreases d
  {
    FindPathIsPath(t, b, d, cap, B);
    if d == 0 {
      NearestIs(t.exts, b);
    } else {
      var i := NearestKid(t.kids, b);
      var sub := t.kids[i].sub;
      var q := FindPath(sub, b, d - 1);
      assert ([i] + q)[1..] == q;
      assert KidShape(t.kids[i], d - 1, B);
      assert Sorted(Flat(sub)) by { KidSorted(t.kids, i); }
      FindIsNearest(sub, b, d - 1, B, B);
      var j := |Pre(sub, q)| + Nearest(At(sub, q).exts, b);
      FindBelow(t, b, d, cap, B, j);
    }
  }

  lemma {:induction false} FindBelow(t: Tree, b: nat, d: nat, cap: nat, B: nat, j: nat)
    requires d > 0 && Shape(t, d, cap, B) && !Empty(t)
    requires IsNearest(Flat(t.kids[NearestKid(t.kids, b)].sub), j, b)
    ensures IsNearest(Flat(t), |FlatKids(t.kids[..NearestKid(t.kids, b)])| + j, b)
  {
    var kids, i := t.kids, NearestKid(t.kids, b);
    assert KidShape(kids[i], d - 1, B);
    var l, m, r := FlatKids(kids[..i]), Flat(kids[i].sub), FlatKids(kids[i + 1..]);
    FlatKidsAround(kids, i);
    FirstKey(kids[i].sub, d - 1, B, B);
    if i + 1 < |kids| { FirstKeyAt(kids, i + 1, d - 1, B); }
    NearestInContext(l, m, r, j, b);
  }

  lemma {:induction false} SortedMiddle(l: seq<Extent>, m: seq<Extent>, r: seq<Extent>)
    requires Sorted(l + (m + r))
    ensures Sorted(l) && Sorted(m) && Sorted(r) && Meets(l, m) && Meets(m, r)
  {
    SortedConcat(l, m + r);
    SortedConcat(m, r);
  }

  lemma {:induction false} KidSorted(kids: seq<Kid>, i: nat)
    requires i < |kids| && Sorted(FlatKids(kids))
    ensures Sorted(Flat(kids[i].sub))
  {
    FlatKidsAround(kids, i);
    SortedMiddle(FlatKids(kids[..i]), Flat(kids[i].sub), FlatKids(kids[i + 1..]));
  }

  lemma {:induction false} NearestInContext(l: seq<Extent>, m: seq<Extent>, r: seq<Extent>, j: nat, b: nat)
    requires IsNearest(m, j, b)
    requires l != [] ==> m[0].lblk <= b
    requires r != [] ==> b < r[0].lblk
    ensures IsNearest(l + (m + r), |l| + j, b)
  {
  }

  // ----- the blocks that store the tree -----

  /** How many nodes below this one are stored in block b. */
  function Blocks(t: Tree, b: nat): nat
    decreases t, 1
  {
    match t
    case Leaf(_) => 0
    case Index(kids) => KidsBlocks(kids, b)
  }

  function KidsBlocks(kids: seq<Kid>, b: nat): nat
    decreases kids, 0
  {
    if kids == [] then 0 else KidBlocks(kids[0], b) + KidsBlocks(kids[1..], b)
  }

  function KidBlocks(k: Kid, b: nat): nat
    decreases k, 0
  {
    (if k.blk == b then 1 else 0) + Blocks(k.sub, b)
  }

  lemma {:induction false} KidsBlocksConcat(a: seq<Kid>, c: seq<Kid>, b: nat)
    ensures KidsBlocks(a + c, b) == KidsBlocks(a, b) + KidsBlocks(c, b)
  {
    if a == [] {
      assert a + c == c;
    } else {
      assert (a + c)[1..] == a[1..] + c;
      KidsBlocksConcat(a[1..], c, b);
    }
  }

  lemma {:induction false} KidsBlocksAround(kids: seq<Kid>, i: nat, b: nat)
    requires i < |kids|
    ensures KidsBlocks(kids, b) == KidsBlocks(kids[..i], b) + KidBlocks(kids[i], b) + KidsBlocks(kids[i + 1..], b)
  {
    assert kids == kids[..i] + ([kids[i]] + kids[i + 1..]);
    KidsBlocksConcat(kids[..i], [kids[i]] + kids[i + 1..], b);
    assert ([kids[i]] + kids[i + 1..])[1..] == kids[i + 1..];
  }

  lemma {:induction false} PutBlocks(t: Tree, p: Path, s: Tree, b: nat)
    requires IsPath(t, p) && !Empty(s)
    ensures Blocks(Put(t, p, s), b) + Blocks(At(t, p), b) == Blocks(t, b) + Blocks(s, b)
    decreases |p|
  {
    if p != [] {
      var i := p[0];
      var kids' := Put(t, p, s).kids;
      KidsBlocksAround(kids', i, b);
      KidsBlocksAround(t.kids, i, b);
      assert kids'[..i] == t.kids[..i] && kids'[i + 1..] == t.kids[i + 1..];
      PutBlocks(t.kids[i].sub, p[1..], s, b);
    }
  }
}
