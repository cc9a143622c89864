/** Insertion of an extent into the tree by every route: absorption into a neighbour, a shift
    inside the leaf, overflow into the next leaf, a split that may run up several levels, and
    growth of the tree by one level (kernfs/extents.c). */
module ExtentInsert {
  import opened ExtentSeq
  import opened LeafOps
  import opened Options
  import opened ExtentTree

  // ----- the leaf after a given one -----

  function Leftmost(t: Tree, d: nat): Path
    decreases d
  {
    if d == 0 || t.Leaf? || t.kids == [] then [] else [0] + Leftmost(t.kids[0].sub, d - 1)
  }

  function NextLeaf(t: Tree, p: Path, d: nat): Option<Path>
    requires IsPath(t, p) && |p| <= d
    decreases |p|
  {
    if p == [] then None
    else
      var i := p[0];
      match NextLeaf(t.kids[i].sub, p[1..], d - 1)
      case Some(q) => Some([i] + q)
      case None => if i + 1 < |t.kids| then Some([i + 1] + Leftmost(t.kids[i + 1].sub, d - 1)) else None
  }

  /** The key of the index entry to the right of the deepest entry of p that has one. */
  function NextKey(t: Tree, p: Path): Option<nat>
    requires IsPath(t, p)
    decreases |p|
  {
    if p == [] then None
    else
      match NextKey(t.kids[p[0]].sub, p[1..])
      case Some(k) => Some(k)
      case None => if p[0] + 1 < |t.kids| then Some(t.kids[p[0] + 1].key) else None
  }

  lemma {:induction false} LeftmostPath(t: Tree, d: nat, cap: nat, B: nat)
    requires Shape(t, d, cap, B) && (d > 0 ==> !Empty(t))
    ensures IsPath(t, Leftmost(t, d)) && |Leftmost(t, d)| == d
    ensures Pre(t, Leftmost(t, d)) == []
    decreases d
  {
    if d > 0 {
      assert KidShape(t.kids[0], d - 1, B);
      LeftmostPath(t.kids[0].sub, d - 1, B, B);
      assert ([0] + Leftmost(t.kids[0].sub, d - 1))[1..] == Leftmost(t.kids[0].sub, d - 1);
      assert t.kids[..0] == [];
    }
  }

  lemma {:induction false} FlatKidsSnoc(kids: seq<Kid>, i: nat)
    requires i < |kids|
    ensures FlatKids(kids[..i + 1]) == FlatKids(kids[..i]) + Flat(kids[i].sub)
  {
    assert kids[..i + 1] == kids[..i] + [kids[i]];
    FlatKidsConcat(kids[..i], [kids[i]]);
    assert FlatKids([kids[i]]) == FlatKid(kids[i]) + FlatKids([]);
  }

  /** The first leaf of the subtree next to the one that ends with the leaf at p. */
  lemma {:induction false} NextSubtree(t: Tree, p: Path, d: nat, B: nat)
    requires t.Index? && IsPath(t, p) && |p| == d && d > 0 && p[0] + 1 < |t.kids|
             && KidShape(t.kids[p[0] + 1], d - 1, B)
    requires Post(t.kids[p[0]].sub, p[1..]) == []
    ensures var q := [p[0] + 1] + Leftmost(t.kids[p[0] + 1].sub, d - 1);
            IsPath(t, q) && |q| == d && Pre(t, q) == Pre(t, p) + Flat(At(t, p))
  {
    var i := p[0];
    var next := Leftmost(t.kids[i + 1].sub, d - 1);
    LeftmostPath(t.kids[i + 1].sub, d - 1, B, B);
    assert ([i + 1] + next)[1..] == next;
    FlatAround(t.kids[i].sub, p[1..]);
    FlatKidsSnoc(t.kids, i);
  }

  /** The next leaf starts right where the leaf at p ends; when there is none, nothing follows. */
  lemma {:induction false} NextLeafFollows(t: Tree, p: Path, d: nat, cap: nat, B: nat)
    requires Shape(t, d, cap, B) && IsPath(t, p) && |p| == d
    ensures match NextLeaf(t, p, d)
            case Some(q) => IsPath(t, q) && |q| == d && Pre(t, q) == Pre(t, p) + Flat(At(t, p))
            case None => Post(t, p) == []
    decreases |p|
  {
    if p != [] {
      var i, sub := p[0], t.kids[p[0]].sub;
      assert KidShape(t.kids[i], d - 1, B);
      NextLeafFollows(sub, p[1..], d - 1, B, B);
      match NextLeaf(sub, p[1..], d - 1) {
        case Some(q) =>
          assert ([i] + q)[1..] == q;
        case None =>
          if i + 1 < |t.kids| {
            assert KidShape(t.kids[i + 1], d - 1, B);
            NextSubtree(t, p, d, B);
          } else {
            assert t.kids[i + 1..] == [];
          }
      }
    }
  }

  lemma {:induction false} NextLeafIsRight(t: Tree, p: Path, d: nat)
    requires IsPath(t, p) && |p| <= d && NextLeaf(t, p, d).Some?
    ensures Before(p, NextLeaf(t, p, d).value)
    decreases |p|
  {
    var sub := NextLeaf(t.kids[p[0]].sub, p[1..], d - 1);
    if sub.Some? {
      assert ([p[0]] + sub.value)[1..] == sub.value;
      NextLeafIsRight(t.kids[p[0]].sub, p[1..], d - 1);
    }
  }

  lemma {:induction false} KeysIncrease(kids: seq<Kid>, i: nat, d: nat, B: nat)
    requires i + 1 < |kids| && Sorted(FlatKids(kids))
    requires KidShape(kids[i], d, B) && KidShape(kids[i + 1], d, B)
    ensures kids[i].key < kids[i + 1].key
    ensures Spans(Flat(kids[i].sub), 0, kids[i + 1].key)
  {
    var l, m, r := FlatKids(kids[..i]), Flat(kids[i].sub), FlatKids(kids[i + 1..]);
    FlatKidsAround(kids, i);
    SortedMiddle(l, m, r);
    FirstKey(kids[i].sub, d, B, B);
    FirstKeyAt(kids, i + 1, d, B);
    FirstBeforeEnd(m);
  }

  lemma {:induction false} FirstBeforeEnd(s: seq<Extent>)
    requires Sorted(s) && s != []
    ensures s[0].lblk < s[|s| - 1].End()
  {
    SortedAt(s, 0);
    SortedAt(s, |s| - 1);
    if |s| > 1 { SortedPair(s, 0, |s| - 1); }
  }

  lemma {:induction false} FirstKidIs(kids: seq<Kid>, i: nat, b: nat, d: nat, B: nat)
    requires i < |kids| && Sorted(FlatKids(kids))
    requires forall k :: 0 <= k < |kids| ==> KidShape(kids[k], d, B)
    requires kids[i].key <= b && (i + 1 < |kids| ==> b < kids[i + 1].key)
    ensures NearestKid(kids, b) == i
  {
    var j := NearestKid(kids, b);
    if i < j {
      KeysIncreaseAll(kids, i + 1, j, d, B);
    }
  }

  lemma {:induction false} KeysIncreaseAll(kids: seq<Kid>, i: nat, j: nat, d: nat, B: nat)
    requires i <= j < |kids| && Sorted(FlatKids(kids))
    requires forall k :: 0 <= k < |kids| ==> KidShape(kids[k], d, B)
    ensures kids[i].key <= kids[j].key
    decreases j - i
  {
    if i < j {
      KeysIncrease(kids, i, d, B);
      KeysIncreaseAll(kids, i + 1, j, d, B);
    }
  }

  /** Searching for the smallest key of a tree leads to its leftmost leaf. */
  lemma {:induction false} FindLeftmost(t: Tree, d: nat, cap: nat, B: nat)
    requires Shape(t, d, cap, B) && !Empty(t) && Sorted(Flat(t))
    ensures FindPath(t, MinKey(t), d) == Leftmost(t, d)
    decreases d
  {
    if d > 0 {
      assert KidShape(t.kids[0], d - 1, B);
      if |t.kids| > 1 { KeysIncrease(t.kids, 0, d - 1, B); }
      FirstKidIs(t.kids, 0, MinKey(t), d - 1, B);
      KidSorted(t.kids, 0);
      FindLeftmost(t.kids[0].sub, d - 1, B, B);
    }
  }

  lemma {:induction false} KidSpans(kids: seq<Kid>, i: nat, hi: nat)
    requires i < |kids| && Sorted(FlatKids(kids)) && Spans(FlatKids(kids), 0, hi)
    ensures Spans(Flat(kids[i].sub), 0, hi)
  {
    var l, m, r := FlatKids(kids[..i]), Flat(kids[i].sub), FlatKids(kids[i + 1..]);
    FlatKidsAround(kids, i);
    SortedMiddle(l, m, r);
    if r != [] { FirstBeforeEnd(r); }
  }

  /** The next key lies between the keys of the node that it is searched in. */
  lemma {:induction false} NextKeyBounds(t: Tree, p: Path, d: nat, cap: nat, B: nat, hi: nat)
    requires Shape(t, d, cap, B) && Sorted(Flat(t)) && IsPath(t, p) && !Empty(t) && Spans(Flat(t), 0, hi)
    ensures NextKey(t, p).Some? ==> MinKey(t) <= NextKey(t, p).value < hi
    decreases |p|
  {
    if p != [] {
      var i, sub := p[0], t.kids[p[0]].sub;
      assert KidShape(t.kids[i], d - 1, B);
      KeysIncreaseAll(t.kids, 0, i, d - 1, B);
      if NextKey(sub, p[1..]).Some? {
        KidSorted(t.kids, i);
        KidSpans(t.kids, i, hi);
        NextKeyBounds(sub, p[1..], d - 1, B, B, hi);
      } else if i + 1 < |t.kids| {
        assert KidShape(t.kids[i + 1], d - 1, B);
        KeysIncreaseAll(t.kids, 0, i + 1, d - 1, B);
        FirstKey(t.kids[i + 1].sub, d - 1, B, B);
        KidSpans(t.kids, i + 1, hi);
        KidSorted(t.kids, i + 1);
        FirstBeforeEnd(Flat(t.kids[i + 1].sub));
      }
    }
  }

  /** Searching for the key to the right of a path leads to the next leaf. */
  lemma {:induction false} FindNextLeaf(t: Tree, p: Path, d: nat, cap: nat, B: nat)
    requires Shape(t, d, cap, B) && Sorted(Flat(t)) && IsPath(t, p) && |p| == d
    ensures match NextLeaf(t, p, d)
            case Some(q) => NextKey(t, p).Some? && FindPath(t, NextKey(t, p).value, d) == q
            case None => NextKey(t, p).None?
    decreases |p|
  {
    if p != [] {
      var i, sub := p[0], t.kids[p[0]].sub;
      assert KidShape(t.kids[i], d - 1, B);
      KidSorted(t.kids, i);
      FindNextLeaf(sub, p[1..], d - 1, B, B);
      if NextLeaf(sub, p[1..], d - 1).Some? {
        var k := NextKey(sub, p[1..]).value;
        if i + 1 < |t.kids| {
          KeysIncrease(t.kids, i, d - 1, B);
          NextKeyBounds(sub, p[1..], d - 1, B, B, t.kids[i + 1].key);
        } else {
          AnyBound(Flat(sub));
          NextKeyBounds(sub, p[1..], d - 1, B, B, EXT_MAX_BLOCKS);
        }
        FirstKidIs(t.kids, i, k, d - 1, B);
      } else if i + 1 < |t.kids| {
        assert KidShape(t.kids[i + 1], d - 1, B);
        if i + 2 < |t.kids| { KeysIncrease(t.kids, i + 1, d - 1, B); }
        FirstKidIs(t.kids, i + 1, t.kids[i + 1].key, d - 1, B);
        KidSorted(t.kids, i + 1);
        FindLeftmost(t.kids[i + 1].sub, d - 1, B, B);
      }
    }
  }

  lemma {:induction false} AnyBound(s: seq<Extent>)
    requires Sorted(s)
    ensures Spans(s, 0, EXT_MAX_BLOCKS)
  {
    if s != [] { SortedAt(s, |s| - 1); }
  }

  // ----- splitting and growing -----

  /** Whether an index node on the path has a free entry. */
  predicate HasRoom(t: Tree, p: Path, cap: nat, B: nat)
    requires IsPath(t, p)
    decreases |p|
  {
    p != [] && (|t.kids| < cap || HasRoom(t.kids[p[0]].sub, p[1..], B, B))
  }

  /** How many index nodes, from the leaf upwards, are split before one with a free entry is met. */
  function SplitLevels(t: Tree, p: Path, cap: nat, B: nat): (m: nat)
    requires IsPath(t, p)
    ensures m <= |p|
    decreases |p|
  {
    if p == [] then 0
    else
      var m := SplitLevels(t.kids[p[0]].sub, p[1..], B, B);
      if m == |p| - 1 && |t.kids| >= cap then m + 1 else m
  }

  /** An index node takes the entry that came up from its child i. A full node keeps the entries up
      to i and moves the others, behind the new entry, into a new node stored in block blk; the
      second result is the entry that the node above has to take. */
  function Absorb(kids: seq<Kid>, i: nat, up: Option<Kid>, cap: nat, blk: nat): (r: (Tree, Option<Kid>))
    requires i < |kids|
    ensures !Empty(r.0)
  {
    match up
    case None => (Index(kids), None)
    case Some(n) =>
      if |kids| < cap then (Index(kids[..i + 1] + ([n] + kids[i + 1..])), None)
      else (Index(kids[..i + 1]), Some(Kid(n.key, blk, Index([n] + kids[i + 1..]))))
  }

  /** Replace the leaf at p by `left` and add `right` after it, splitting the full index nodes above;
      the node split at height j moves its right part into block spare[j]. */
  function AddSibling(t: Tree, p: Path, left: Tree, right: Kid, cap: nat, B: nat, spare: seq<nat>)
    : (r: (Tree, Option<Kid>))
    requires IsPath(t, p) && !Empty(left) && |spare| > |p|
    ensures !Empty(r.0)
    decreases |p|
  {
    if p == [] then (left, Some(right))
    else
      var i := p[0];
      var (sub, up) := AddSibling(t.kids[i].sub, p[1..], left, right, B, B, spare);
      Absorb(t.kids[i := Kid(MinKey(sub), t.kids[i].blk, sub)], i, up, cap, spare[|p|])
  }

  function UpFlat(up: Option<Kid>): seq<Extent> { if up.Some? then Flat(up.value.sub) else [] }

  function UpBlocks(up: Option<Kid>, b: nat): nat { if up.Some? then KidBlocks(up.value, b) else 0 }

  lemma {:induction false} AbsorbFlat(kids: seq<Kid>, i: nat, up: Option<Kid>, cap: nat, blk: nat)
    requires i < |kids|
    ensures var (t, u) := Absorb(kids, i, up, cap, blk);
            Flat(t) + UpFlat(u) ==
            FlatKids(kids[..i]) + ((Flat(kids[i].sub) + UpFlat(up)) + FlatKids(kids[i + 1..]))
  {
    var l, r := FlatKids(kids[..i]), FlatKids(kids[i + 1..]);
    match up {
      case None =>
        FlatKidsAround(kids, i);
      case Some(n) =>
        FlatKidsSnoc(kids, i);
        FlatKidsConcat(kids[..i + 1], [n] + kids[i + 1..]);
        assert ([n] + kids[i + 1..])[1..] == kids[i + 1..];
        assert FlatKids([n] + kids[i + 1..]) == FlatKid(n) + r;
        assert (l + Flat(kids[i].sub)) + (Flat(n.sub) + r) == l + ((Flat(kids[i].sub) + Flat(n.sub)) + r);
    }
  }

  lemma {:induction false} AddSiblingFlat(t: Tree, p: Path, left: Tree, right: Kid, cap: nat, B: nat, spare: seq<nat>)
    requires IsPath(t, p) && !Empty(left) && |spare| > |p|
    ensures var (t', up) := AddSibling(t, p, left, right, cap, B, spare);
            Flat(t') + UpFlat(up) == Pre(t, p) + ((Flat(left) + Flat(right.sub)) + Post(t, p))
    decreases |p|
  {
    if p != [] {
      var i, s0 := p[0], t.kids[p[0]].sub;
      var (sub, up) := AddSibling(s0, p[1..], left, right, B, B, spare);
      AddSiblingFlat(s0, p[1..], left, right, B, B, spare);
      var kids := t.kids[i := Kid(MinKey(sub), t.kids[i].blk, sub)];
      assert kids[..i] == t.kids[..i] && kids[i + 1..] == t.kids[i + 1..];
      AbsorbFlat(kids, i, up, cap, spare[|p|]);
      Regroup(FlatKids(t.kids[..i]), Pre(s0, p[1..]), Flat(left) + Flat(right.sub), Post(s0, p[1..]),
              FlatKids(t.kids[i + 1..]));
    }
  }

  lemma {:induction false} AddSiblingShape(t: Tree, p: Path, left: Tree, right: Kid, d: nat, cap: nat, B: nat,
          spare: seq<nat>)
    requires IsPath(t, p) && |p| == d && Shape(t, d, cap, B) && cap <= B && |spare| > d
    requires !Empty(left) && Shape(left, 0, if p == [] then cap else B, B) && KidShape(right, 0, B)
    ensures var (t', up) := AddSibling(t, p, left, right, cap, B, spare);
            && Shape(t', d, cap, B)
            && (up.Some? ==> KidShape(up.value, d, B))
            && (up.None? <==> HasRoom(t, p, cap, B))
    decreases |p|
  {
    if p != [] {
      var i, s0 := p[0], t.kids[p[0]].sub;
      assert KidShape(t.kids[i], d - 1, B);
      AddSiblingShape(s0, p[1..], left, right, d - 1, B, B, spare);
      var (sub, up) := AddSibling(s0, p[1..], left, right, B, B, spare);
      assert KidShape(Kid(MinKey(sub), t.kids[i].blk, sub), d - 1, B);
    }
  }

  /** How often block b occurs among the first n blocks of `spare`. */
  function Occurs(spare: seq<nat>, n: nat, b: nat): nat
    requires n <= |spare|
  {
    if n == 0 then 0 else Occurs(spare, n - 1, b) + if spare[n - 1] == b then 1 else 0
  }

  lemma {:induction false} AbsorbBlocks(kids: seq<Kid>, i: nat, up: Option<Kid>, cap: nat, blk: nat, b: nat)
    requires i < |kids|
    ensures var (t, u) := Absorb(kids, i, up, cap, blk);
            Blocks(t, b) + UpBlocks(u, b) ==
            KidsBlocks(kids, b) + UpBlocks(up, b) + if u.Some? && blk == b then 1 else 0
  {
    if up.Some? {
      var n, r := up.value, kids[i + 1..];
      assert kids == kids[..i + 1] + r;
      KidsBlocksConcat(kids[..i + 1], r, b);
      KidsBlocksConcat(kids[..i + 1], [n] + r, b);
      assert ([n] + r)[1..] == r;
      var k := Kid(n.key, blk, Index([n] + r));
      assert KidBlocks(k, b) == (if blk == b then 1 else 0) + Blocks(k.sub, b);
    }
  }

  /** A split stores one new leaf and one new index node for each level that it splits. */
  lemma {:induction false} AddSiblingBlocks(t: Tree, p: Path, left: Tree, right: Kid, cap: nat, B: nat,
          spare: seq<nat>, b: nat)
    requires IsPath(t, p) && At(t, p).Leaf? && left.Leaf? && right.sub.Leaf?
    requires !Empty(left) && |spare| > |p| && right.blk == spare[0]
    ensures var (t', up) := AddSibling(t, p, left, right, cap, B, spare);
            && Blocks(t', b) + UpBlocks(up, b) == Blocks(t, b) + Occurs(spare, SplitLevels(t, p, cap, B) + 1, b)
            && (up.Some? <==> SplitLevels(t, p, cap, B) == |p|)
    decreases |p|
  {
    if p == [] {
      assert Occurs(spare, 1, b) == Occurs(spare, 0, b) + if spare[0] == b then 1 else 0;
      assert KidBlocks(right, b) == (if right.blk == b then 1 else 0) + Blocks(right.sub, b);
    } else {
      var i, s0 := p[0], t.kids[p[0]].sub;
      var (sub, up) := AddSibling(s0, p[1..], left, right, B, B, spare);
      AddSiblingBlocks(s0, p[1..], left, right, B, B, spare, b);
      var kids := t.kids[i := Kid(MinKey(sub), t.kids[i].blk, sub)];
      assert kids[..i] == t.kids[..i] && kids[i + 1..] == t.kids[i + 1..];
      KidsBlocksAround(kids, i, b);
      KidsBlocksAround(t.kids, i, b);
      AbsorbBlocks(kids, i, up, cap, spare[|p|], b);
    }
  }

  /** The tree with its root moved into block blk, below a new root with one entry. */
  function Grow(t: Tree, blk: nat): Tree
    requires !Empty(t)
  {
    Index([Kid(MinKey(t), blk, t)])
  }

  lemma {:induction false} GrowKeeps(t: Tree, blk: nat, d: nat, R: nat, B: nat, b: nat)
    requires Shape(t, d, R, B) && !Empty(t) && 1 <= R <= B
    ensures Shape(Grow(t, blk), d + 1, R, B) && Flat(Grow(t, blk)) == Flat(t)
    ensures Blocks(Grow(t, blk), b) == Blocks(t, b) + if blk == b then 1 else 0
  {
    CapMonotone(t, d, R, B, B);
    assert FlatKids(Grow(t, blk).kids[1..]) == [];
    assert FlatKid(Grow(t, blk).kids[0]) == Flat(t);
    assert KidBlocks(Grow(t, blk).kids[0], b) == (if blk == b then 1 else 0) + Blocks(t, b);
    assert KidsBlocks(Grow(t, blk).kids[1..], b) == 0;
  }

  lemma {:induction false} CapMonotone(t: Tree, d: nat, cap: nat, cap': nat, B: nat)
    requires Shape(t, d, cap, B) && cap <= cap'
    ensures Shape(t, d, cap', B)
  {
  }

  // ----- what the routes do to leaves -----

  predicate AtEnd(t: Tree, p: Path, e: Extent)
    requires IsPath(t, p)
  {
    At(t, p).Leaf? && At(t, p).exts != [] && e.lblk > At(t, p).exts[|At(t, p).exts| - 1].lblk
  }

  predicate NextHasRoom(t: Tree, p: Path, d: nat, B: nat)
    requires IsPath(t, p) && |p| <= d
  {
    match NextLeaf(t, p, d)
    case Some(q) => IsPath(t, q) && At(t, q).Leaf? && 0 < |At(t, q).exts| < B
    case None => false
  }

  /** Merging is skipped for the direct-I/O path. */
  function Settle(s: seq<Extent>, i: nat, preIO: bool): (r: seq<Extent>)
    requires i < |s|
    ensures 1 <= |r| <= |s|
  {
    if preIO then s else TryToMerge(s, i)
  }

  /** The leaf with `e` in it, where there is space for it. */
  function Placed(leaf: seq<Extent>, pos: nat, e: Extent, preIO: bool): (r: seq<Extent>)
    requires leaf != [] ==> pos < |leaf|
    ensures 1 <= |r| <= |leaf| + 1
  {
    var k := InsertPos(leaf, pos, e);
    Settle(InsertAt(leaf, k, e), k, preIO)
  }

  /** The two leaves that a full leaf and `e` become. */
  function SplitLeaf(leaf: seq<Extent>, pos: nat, e: Extent, preIO: bool): (r: (seq<Extent>, seq<Extent>))
    requires pos < |leaf|
    ensures 1 <= |r.0| <= |leaf| && 1 <= |r.1| <= |leaf|
  {
    if pos == |leaf| - 1 then (leaf, [e])
    else (Placed(leaf[..pos + 1], pos, e, preIO), leaf[pos + 1..])
  }

  /** A tree of one index entry whose leaf fits into the root goes back into the root. */
  function MergeUp(t: Tree, d: nat, preIO: bool, R: nat): (Tree, nat)
  {
    if CollapsesTo(t, d, preIO, R) then (t.kids[0].sub, 0) else (t, d)
  }

  predicate CollapsesTo(t: Tree, d: nat, preIO: bool, R: nat)
  {
    !preIO && d == 1 && t.Index? && |t.kids| == 1 && t.kids[0].sub.Leaf? && |t.kids[0].sub.exts| <= R
  }

  /** The tree with the leaf at p split. */
  function SplitTree(t: Tree, p: Path, pos: nat, e: Extent, preIO: bool, spare: seq<nat>, R: nat, B: nat): Tree
    requires IsPath(t, p) && At(t, p).Leaf? && pos < |At(t, p).exts| && |spare| > |p|
  {
    var s := SplitLeaf(At(t, p).exts, pos, e, preIO);
    AddSibling(t, p, Leaf(s.0), Kid(s.1[0].lblk, spare[0], Leaf(s.1)), R, B, spare).0
  }
}
