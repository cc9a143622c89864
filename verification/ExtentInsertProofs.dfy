/** Insertion adds exactly the new extent to the mapping and keeps the tree well formed, whatever
    route the extent takes (kernfs/extents.c). */
module ExtentInsertProofs {
  import opened ExtentSeq
  import opened LeafOps
  import opened Options
  import opened ExtentTree
  import opened ExtentInsert

  /** What every operation on an extent tree keeps: uniform depth, capacities, no empty node below
      the root, exact keys, extents in order and disjoint. */
  ghost predicate Inv(t: Tree, d: nat, R: nat, B: nat)
  {
    Shape(t, d, R, B) && (d > 0 ==> !Empty(t)) && Sorted(Flat(t))
  }

  /** `s'` is the run `s` with `e` put at its place k, up to merging of neighbours. */
  ghost predicate InsertedAt(s: seq<Extent>, k: nat, e: Extent, s': seq<Extent>)
  {
    Fits(s, k, e) && Sorted(s') && SameContents(InsertAt(s, k, e), s')
  }

  /** The mapping gains exactly the blocks of `e`, and so do the owned blocks. */
  ghost predicate Gains(s: seq<Extent>, e: Extent, s': seq<Extent>)
  {
    && (forall x: nat :: Lookup(s', x) == if e.Covers(x) then e.Target(x) else Lookup(s, x))
    && (forall p: nat :: Owns(s', p) == Owns(s, p) + if Holds(e, p) then 1 else 0)
    && Size(s') == Size(s) + e.len
  }

  lemma {:induction false} InsertedGains(s: seq<Extent>, k: nat, e: Extent, s': seq<Extent>)
    requires InsertedAt(s, k, e, s') && Avoids(s, e)
    ensures Gains(s, e, s')
  {
    forall x: nat ensures Lookup(s', x) == if e.Covers(x) then e.Target(x) else Lookup(s, x) {
      InsertLookup(s, k, e, x);
    }
    forall p: nat ensures Owns(s', p) == Owns(s, p) + if Holds(e, p) then 1 else 0 {
      InsertOwns(s, k, e, p);
    }
    InsertOwns(s, k, e, 0);
  }

  // ----- one leaf between its neighbours -----

  lemma {:induction false} SettleTidies(s: seq<Extent>, i: nat, preIO: bool)
    requires i < |s| && Sorted(s)
    ensures Tidied(s, Settle(s, i, preIO))
  {
    if !preIO { TryToMergeTidies(s, i); }
  }

  lemma {:induction false} InsertInMiddle(l: seq<Extent>, m: seq<Extent>, r: seq<Extent>, k: nat, e: Extent)
    requires k <= |m|
    ensures InsertAt(l + (m + r), |l| + k, e) == l + (InsertAt(m, k, e) + r)
  {
    var s := l + (m + r);
    assert s[..|l| + k] == l + m[..k];
    assert s[|l| + k..] == m[k..] + r;
  }

  /** `m'` is the leaf `m`, between `l` and `r`, with `e` put at its place k and tidied up. */
  ghost predicate LeafGains(l: seq<Extent>, m: seq<Extent>, r: seq<Extent>, k: nat, e: Extent, m': seq<Extent>)
  {
    k <= |m| && Fits(l + (m + r), |l| + k, e) && Tidied(InsertAt(m, k, e), m')
  }

  lemma {:induction false} LeafGainsFlat(l: seq<Extent>, m: seq<Extent>, r: seq<Extent>, k: nat, e: Extent,
          m': seq<Extent>)
    requires Sorted(l + (m + r)) && Avoids(l + (m + r), e) && e.Valid() && LeafGains(l, m, r, k, e, m')
    ensures InsertedAt(l + (m + r), |l| + k, e, l + (m' + r))
  {
    InsertInMiddle(l, m, r, k, e);
    InsertKeepsOrder(l + (m + r), |l| + k, e);
    TidyInContext(l, InsertAt(m, k, e), m', r);
  }

  lemma {:induction false} PartAvoids(l: seq<Extent>, m: seq<Extent>, r: seq<Extent>, e: Extent)
    requires Avoids(l + (m + r), e)
    ensures Avoids(m, e)
  {
    assert forall i :: 0 <= i < |m| ==> m[i] == (l + (m + r))[|l| + i];
  }

  /** A place in the leaf that the search found is a place in the whole run. */
  lemma {:induction false} CursorFits(l: seq<Extent>, m: seq<Extent>, r: seq<Extent>, pos: nat, k: nat, e: Extent)
    requires Sorted(l + (m + r)) && pos < |m| && IsNearest(l + (m + r), |l| + pos, e.lblk) && Fits(m, k, e)
    ensures Fits(l + (m + r), |l| + k, e)
  {
    var s := l + (m + r);
    if k == 0 && l != [] {
      SortedPair(s, |l| - 1, |l|);
      assert s[|l|] == m[0];
      if pos > 0 { SortedPair(s, |l|, |l| + pos); }
    }
    if k == |m| && r != [] {
      if pos + 1 < |m| { SortedPair(s, |l| + pos + 1, |l| + |m|); }
    }
  }

  lemma {:induction false} LocalNearest(l: seq<Extent>, m: seq<Extent>, r: seq<Extent>, pos: nat, b: nat)
    requires pos < |m| && IsNearest(l + (m + r), |l| + pos, b)
    ensures IsNearest(m, pos, b)
  {
  }

  lemma {:induction false} TidiedInsert(m: seq<Extent>, k: nat, e: Extent, preIO: bool)
    requires Sorted(m) && Avoids(m, e) && e.Valid() && Fits(m, k, e)
    ensures Tidied(InsertAt(m, k, e), Settle(InsertAt(m, k, e), k, preIO))
  {
    InsertKeepsOrder(m, k, e);
    SettleTidies(InsertAt(m, k, e), k, preIO);
  }

  /** Putting `e` next to the extent that the search found. */
  lemma {:induction false} PlacedGains(l: seq<Extent>, m: seq<Extent>, r: seq<Extent>, pos: nat, e: Extent, preIO: bool)
    requires Sorted(l + (m + r)) && Avoids(l + (m + r), e) && e.Valid()
    requires m != [] ==> pos < |m| && IsNearest(l + (m + r), |l| + pos, e.lblk)
    requires m == [] ==> l == [] && r == []
    ensures LeafGains(l, m, r, InsertPos(m, pos, e), e, Placed(m, pos, e, preIO))
  {
    var k := InsertPos(m, pos, e);
    SortedMiddle(l, m, r);
    PartAvoids(l, m, r, e);
    if m != [] {
      LocalNearest(l, m, r, pos, e.lblk);
      SortedAt(m, pos);
      assert Disjoint(m[pos], e);
      InsertPosFits(m, pos, e);
      CursorFits(l, m, r, pos, k, e);
    }
    TidiedInsert(m, k, e, preIO);
  }

  lemma {:induction false} FoldTidies(m: seq<Extent>, k: nat, e: Extent, t: seq<Extent>, i: nat, preIO: bool)
    requires Sorted(m) && Avoids(m, e) && e.Valid() && |t| == |m| && FoldedAt(m, k, e, t, i)
    ensures Tidied(InsertAt(m, k, e), Settle(t, i, preIO))
  {
    var w := InsertAt(m, k, e);
    InsertKeepsOrder(m, k, e);
    MergeStepTidies(w, i);
    SettleTidies(t, i, preIO);
    TidiedTwice(w, t, Settle(t, i, preIO));
  }

  /** Absorbing `e` into an extent next to the one that the search found. */
  lemma {:induction false} FoldGains(l: seq<Extent>, m: seq<Extent>, r: seq<Extent>, pos: nat, e: Extent,
          preIO: bool) returns (k: nat)
    requires Sorted(l + (m + r)) && Avoids(l + (m + r), e) && e.Valid()
    requires pos < |m| && IsNearest(l + (m + r), |l| + pos, e.lblk) && TryFold(m, pos, e).Some?
    ensures var f := TryFold(m, pos, e).value; LeafGains(l, m, r, k, e, Settle(f.0, f.1, preIO))
  {
    var f := TryFold(m, pos, e).value;
    SortedMiddle(l, m, r);
    PartAvoids(l, m, r, e);
    k := FoldIsInsert(m, pos, e);
    CursorFits(l, m, r, pos, k, e);
    FoldTidies(m, k, e, f.0, f.1, preIO);
  }

  lemma {:induction false} TidiedPrefix(a: seq<Extent>, a': seq<Extent>, b: seq<Extent>)
    requires Tidied(a, a') && Sorted(a + b)
    ensures Tidied(a + b, a' + b)
  {
    assert [] + (a + b) == a + b && [] + (a' + b) == a' + b;
    TidyInContext([], a, a', b);
  }

  lemma {:induction false} SplitTidies(m: seq<Extent>, pos: nat, e: Extent, preIO: bool)
    requires Sorted(m) && Avoids(m, e) && e.Valid() && |m| >= 2 && IsNearest(m, pos, e.lblk)
    ensures var s := SplitLeaf(m, pos, e, preIO); Tidied(InsertAt(m, InsertPos(m, pos, e), e), s.0 + s.1)
  {
    var s, k := SplitLeaf(m, pos, e, preIO), InsertPos(m, pos, e);
    SortedAt(m, pos);
    assert Disjoint(m[pos], e);
    InsertPosFits(m, pos, e);
    InsertKeepsOrder(m, k, e);
    if pos == |m| - 1 {
      assert m[..k] == m && [e] + m[k..] == [e];
      assert InsertAt(m, k, e) == s.0 + s.1;
    } else {
      var a, b := m[..pos + 1], m[pos + 1..];
      assert InsertAt(m, k, e) == InsertAt(a, k, e) + b;
      SortedConcat(InsertAt(a, k, e), b);
      SettleTidies(InsertAt(a, k, e), k, preIO);
      TidiedPrefix(InsertAt(a, k, e), s.0, b);
    }
  }

  /** A full leaf and `e`, divided into two leaves. */
  lemma {:induction false} SplitGains(l: seq<Extent>, m: seq<Extent>, r: seq<Extent>, pos: nat, e: Extent, preIO: bool)
    requires Sorted(l + (m + r)) && Avoids(l + (m + r), e) && e.Valid()
    requires pos < |m| && |m| >= 2 && IsNearest(l + (m + r), |l| + pos, e.lblk)
    ensures var s := SplitLeaf(m, pos, e, preIO); LeafGains(l, m, r, InsertPos(m, pos, e), e, s.0 + s.1)
  {
    PlacedGains(l, m, r, pos, e, true);
    SortedMiddle(l, m, r);
    PartAvoids(l, m, r, e);
    LocalNearest(l, m, r, pos, e.lblk);
    SplitTidies(m, pos, e, preIO);
  }

  // ----- the tree -----

  /** The cursor that a search for block b leaves: position pos of the leaf at p. */
  ghost predicate Cursor(t: Tree, d: nat, p: Path, pos: nat, b: nat)
  {
    && IsPath(t, p) && |p| == d && At(t, p).Leaf?
    && (At(t, p).exts != [] ==> pos < |At(t, p).exts| && IsNearest(Flat(t), |Pre(t, p)| + pos, b))
    && (At(t, p).exts == [] ==> d == 0)
  }

  lemma {:induction false} FindGivesCursor(t: Tree, b: nat, d: nat, R: nat, B: nat)
    requires Inv(t, d, R, B)
    ensures IsPath(t, FindPath(t, b, d)) && At(t, FindPath(t, b, d)).Leaf?
    ensures var p := FindPath(t, b, d);
            Cursor(t, d, p, if At(t, p).exts == [] then 0 else Nearest(At(t, p).exts, b), b)
  {
    FindPathIsPath(t, b, d, R, B);
    if !Empty(t) { FindIsNearest(t, b, d, R, B); }
  }

  ghost predicate Insertable(t: Tree, d: nat, e: Extent, R: nat, B: nat)
  {
    Inv(t, d, R, B) && e.Valid() && Avoids(Flat(t), e)
  }

  lemma {:induction false} PutGains(t: Tree, d: nat, p: Path, k: nat, e: Extent, m': seq<Extent>, R: nat, B: nat)
    requires Insertable(t, d, e, R, B) && IsPath(t, p) && |p| == d && At(t, p).Leaf?
    requires LeafGains(Pre(t, p), At(t, p).exts, Post(t, p), k, e, m')
    requires |m'| <= (if d == 0 then R else B)
    ensures Inv(Put(t, p, Leaf(m')), d, R, B) && Gains(Flat(t), e, Flat(Put(t, p, Leaf(m'))))
  {
    FlatAround(t, p);
    LeafGainsFlat(Pre(t, p), At(t, p).exts, Post(t, p), k, e, m');
    PutFlat(t, p, Leaf(m'));
    InsertedGains(Flat(t), |Pre(t, p)| + k, e, Flat(Put(t, p, Leaf(m'))));
    PutShape(t, p, Leaf(m'), d, R, B);
  }

  lemma {:induction false} MergeUpKeeps(t: Tree, d: nat, preIO: bool, R: nat, B: nat)
    requires Inv(t, d, R, B)
    ensures var (t', d') := MergeUp(t, d, preIO, R);
            Inv(t', d', R, B) && Flat(t') == Flat(t)
  {
    if CollapsesTo(t, d, preIO, R) {
      assert t.kids[1..] == [];
      assert FlatKids(t.kids) == FlatKid(t.kids[0]) + FlatKids(t.kids[1..]);
      assert FlatKids(t.kids) == Flat(t.kids[0].sub);
    }
  }

  lemma {:induction false} SplitTreeShape(t: Tree, d: nat, p: Path, pos: nat, e: Extent, preIO: bool, spare: seq<nat>,
          R: nat, B: nat)
    requires Shape(t, d, R, B) && IsPath(t, p) && |p| == d && At(t, p).Leaf? && d > 0 && |spare| > d
    requires pos < |At(t, p).exts| <= B && R <= B && HasRoom(t, p, R, B)
    ensures var t' := SplitTree(t, p, pos, e, preIO, spare, R, B);
            var s := SplitLeaf(At(t, p).exts, pos, e, preIO);
            Shape(t', d, R, B) && !Empty(t') && Flat(t') == Pre(t, p) + ((s.0 + s.1) + Post(t, p))
  {
    var s := SplitLeaf(At(t, p).exts, pos, e, preIO);
    var right := Kid(s.1[0].lblk, spare[0], Leaf(s.1));
    AddSiblingFlat(t, p, Leaf(s.0), right, R, B, spare);
    AddSiblingShape(t, p, Leaf(s.0), right, d, R, B, spare);
  }

  lemma {:induction false} SplitTreeGains(t: Tree, d: nat, p: Path, pos: nat, e: Extent, preIO: bool, spare: seq<nat>,
          R: nat, B: nat)
    requires Insertable(t, d, e, R, B) && Cursor(t, d, p, pos, e.lblk) && d > 0 && |spare| > d
    requires 2 <= |At(t, p).exts| <= B && R <= B && HasRoom(t, p, R, B)
    ensures var t' := SplitTree(t, p, pos, e, preIO, spare, R, B);
            Inv(t', d, R, B) && Gains(Flat(t), e, Flat(t'))
  {
    var l, m, r := Pre(t, p), At(t, p).exts, Post(t, p);
    var s, k := SplitLeaf(m, pos, e, preIO), InsertPos(m, pos, e);
    FlatAround(t, p);
    SplitGains(l, m, r, pos, e, preIO);
    LeafGainsFlat(l, m, r, k, e, s.0 + s.1);
    SplitTreeShape(t, d, p, pos, e, preIO, spare, R, B);
    InsertedGains(Flat(t), |l| + k, e, l + ((s.0 + s.1) + r));
  }

  /** Growing the tree keeps the cursor, and the old root has room once it has moved. */
  lemma {:induction false} GrowCursor(t: Tree, d: nat, p: Path, pos: nat, b: nat, home: nat, R: nat, B: nat)
    requires Inv(t, d, R, B) && Cursor(t, d, p, pos, b) && !Empty(t) && 1 <= R < B
    ensures Inv(Grow(t, home), d + 1, R, B) && Flat(Grow(t, home)) == Flat(t)
    ensures Cursor(Grow(t, home), d + 1, [0] + p, pos, b) && At(Grow(t, home), [0] + p) == At(t, p)
    ensures d > 0 ==> HasRoom(Grow(t, home), [0] + p, R, B)
    ensures Pre(Grow(t, home), [0] + p) == Pre(t, p) && Post(Grow(t, home), [0] + p) == Post(t, p)
  {
    GrowKeeps(t, home, d, R, B, 0);
    var g := Grow(t, home);
    assert ([0] + p)[1..] == p;
    assert g.kids[..0] == [] && g.kids[1..] == [];
  }

  lemma {:induction false} NextGains(t: Tree, d: nat, p: Path, pos: nat, e: Extent, preIO: bool, R: nat, B: nat)
    requires Insertable(t, d, e, R, B) && Cursor(t, d, p, pos, e.lblk)
    requires AtEnd(t, p, e) && NextHasRoom(t, p, d, B)
    ensures var q := NextLeaf(t, p, d).value;
            var t' := Put(t, q, Leaf(Placed(At(t, q).exts, 0, e, preIO)));
            Inv(t', d, R, B) && Gains(Flat(t), e, Flat(t'))
  {
    var q := NextLeaf(t, p, d).value;
    NextLeafFollows(t, p, d, R, B);
    var l, m, r := Pre(t, q), At(t, q).exts, Post(t, q);
    FlatAround(t, p);
    FlatAround(t, q);
    NextFront(t, p, pos, e);
    SortedMiddle(l, m, r);
    PartAvoids(l, m, r, e);
    TidiedInsert(m, 0, e, preIO);
    PutGains(t, d, q, 0, e, Placed(m, 0, e, preIO), R, B);
  }

  /** When `e` lies behind a leaf, its place is in front of the next one. */
  lemma {:induction false} NextFront(t: Tree, p: Path, pos: nat, e: Extent)
    requires IsPath(t, p) && At(t, p).Leaf? && Sorted(Flat(t)) && AtEnd(t, p, e)
    requires pos < |At(t, p).exts| && IsNearest(Flat(t), |Pre(t, p)| + pos, e.lblk)
    ensures Fits(Flat(t), |Pre(t, p)| + |At(t, p).exts|, e)
    ensures |Pre(t, p)| + |At(t, p).exts| < |Flat(t)| ==>
              e.lblk < Flat(t)[|Pre(t, p)| + |At(t, p).exts|].lblk
  {
    FlatAround(t, p);
    LastIsNearest(Pre(t, p), At(t, p).exts, Post(t, p), pos, e.lblk);
  }

  /** When the last extent of m starts in front of block b, it is the nearest one. */
  lemma {:induction false} LastIsNearest(l: seq<Extent>, m: seq<Extent>, r: seq<Extent>, pos: nat, b: nat)
    requires Sorted(l + (m + r)) && pos < |m| && IsNearest(l + (m + r), |l| + pos, b) && m[|m| - 1].lblk < b
    ensures pos + 1 == |m|
  {
    LocalNearest(l, m, r, pos, b);
    SortedMiddle(l, m, r);
    if pos + 2 < |m| {
      SortedPair(m, pos + 1, |m| - 1);
      SortedAt(m, pos + 1);
    }
  }

  ghost predicate InsertStep(t: Tree, d: nat, p: Path, pos: nat, e: Extent, R: nat, B: nat)
  {
    Insertable(t, d, e, R, B) && Cursor(t, d, p, pos, e.lblk) && 2 <= R < B
  }

  lemma {:induction false} FoldRoute(t: Tree, d: nat, p: Path, pos: nat, e: Extent, preIO: bool, R: nat, B: nat)
    requires InsertStep(t, d, p, pos, e, R, B) && At(t, p).exts != [] && TryFold(At(t, p).exts, pos, e).Some?
    ensures var f := TryFold(At(t, p).exts, pos, e).value;
            var t' := Put(t, p, Leaf(Settle(f.0, f.1, preIO)));
            Inv(t', d, R, B) && Gains(Flat(t), e, Flat(t'))
  {
    var f := TryFold(At(t, p).exts, pos, e).value;
    FlatAround(t, p);
    AtShape(t, p, d, R, B);
    var k := FoldGains(Pre(t, p), At(t, p).exts, Post(t, p), pos, e, preIO);
    PutGains(t, d, p, k, e, Settle(f.0, f.1, preIO), R, B);
  }

  lemma {:induction false} SpaceRoute(t: Tree, d: nat, p: Path, pos: nat, e: Extent, preIO: bool, R: nat, B: nat)
    requires InsertStep(t, d, p, pos, e, R, B) && |At(t, p).exts| < (if d == 0 then R else B)
    ensures var t' := Put(t, p, Leaf(Placed(At(t, p).exts, pos, e, preIO)));
            Inv(t', d, R, B) && Gains(Flat(t), e, Flat(t'))
  {
    var m := At(t, p).exts;
    FlatAround(t, p);
    PlacedGains(Pre(t, p), m, Post(t, p), pos, e, preIO);
    PutGains(t, d, p, InsertPos(m, pos, e), e, Placed(m, pos, e, preIO), R, B);
  }
}
