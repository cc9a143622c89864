/** Splitting an extent, and removing a range of blocks from a file (kernfs/extents.c). */
module ExtentSpace {
  import opened ExtentSeq
  import opened LeafOps
  import opened ExtentTree
  import opened ExtentInsert
  import opened ExtentInsertProofs
  import opened ExtentRemove
  import opened ExtentWalk
  import opened ExtentSearch
  import opened ExtentFile
  import opened ExtentTidy

  // ----- removing blocks from nodes -----

  /** Removing blocks start..end takes nothing of the extent, or its tail, or all of it. */
  predicate Removable(e: Extent, start: nat, end: nat)
  {
    e.End() <= start || end < e.lblk || e.End() <= end + 1
  }

  /** What removing blocks start..end leaves of one extent that ends after `start`, and what it takes
      away. An extent that reaches across `end` is an error. */
  method RmExtent(e: Extent, start: nat, end: nat) returns (ok: bool, keep: seq<Extent>, cut: seq<Extent>)
    requires start < e.End()
    ensures ok <==> Removable(e, start, end)
    ensures ok ==> keep == PunchOne(e, start, end) && cut == CutOne(e, start, end)
  {
    var from := if e.lblk > start then e.lblk else start;
    var to := if e.End() < end + 1 then e.End() else end + 1;
    if end < e.lblk {
      return true, [e], [];
    }
    if to != e.End() {
      return false, [e], [];
    }
    var num := if from != e.lblk then from - e.lblk else 0;
    cut := [Extent(from, e.End() - from, e.pblk + (e.len - (e.End() - from)), e.unwritten)];
    keep := if num == 0 then [] else [e.(len := num)];
    ok := true;
  }

  /** Remove blocks start..end from a leaf, last extent first; the removed parts are handed back for
      freeing. */
  method RmLeaf(exts: seq<Extent>, start: nat, end: nat) returns (ok: bool, left: seq<Extent>, freed: seq<Extent>)
    requires Sorted(exts)
    ensures ok <==> forall i :: 0 <= i < |exts| ==> Removable(exts[i], start, end)
    ensures ok ==> left == Punch(exts, start, end) && freed == Cut(exts, start, end)
  {
    left, freed := exts, [];
    var i := |exts|;
    assert exts[..i] == exts && exts[i..] == [];
    while i > 0 && exts[i - 1].End() > start
      invariant 0 <= i <= |exts|
      invariant forall j :: i <= j < |exts| ==> Removable(exts[j], start, end)
      invariant left == exts[..i] + Punch(exts[i..], start, end) && freed == Cut(exts[i..], start, end)
    {
      var keep, cut;
      ok, keep, cut := RmExtent(exts[i - 1], start, end);
      if !ok {
        return;
      }
      PunchFrom(exts, i - 1, start, end);
      PunchNext(exts, i - 1, Punch(exts[i..], start, end), keep);
      left := left[..i - 1] + (keep + left[i..]);
      freed := cut + freed;
      i := i - 1;
    }
    ok := true;
    FrontStays(exts, i, start, end);
  }

  lemma {:induction false} PunchNext(s: seq<Extent>, i: nat, done: seq<Extent>, keep: seq<Extent>)
    requires i < |s|
    ensures var left := s[..i + 1] + done; left[..i] + (keep + left[i + 1..]) == s[..i] + (keep + done)
  {
    assert s[..i + 1] + done == (s[..i] + [s[i]]) + done;
    LeafStep(s[..i], s[i], done, keep);
  }

  lemma {:induction false} PunchFrom(s: seq<Extent>, i: nat, start: nat, end: nat)
    requires i < |s|
    ensures Punch(s[i..], start, end) == PunchOne(s[i], start, end) + Punch(s[i + 1..], start, end)
    ensures Cut(s[i..], start, end) == CutOne(s[i], start, end) + Cut(s[i + 1..], start, end)
  {
    assert s[i..][1..] == s[i + 1..];
  }

  lemma {:induction false} LeafStep(a: seq<Extent>, e: Extent, rest: seq<Extent>, keep: seq<Extent>)
    ensures var left := (a + [e]) + rest;
            left[..|a|] + (keep + left[|a| + 1..]) == a + (keep + rest)
  {
  }

  lemma {:induction false} FrontStays(s: seq<Extent>, i: nat, start: nat, end: nat)
    requires Sorted(s) && i <= |s| && (i > 0 ==> s[i - 1].End() <= start)
    ensures Punch(s, start, end) == s[..i] + Punch(s[i..], start, end) && Cut(s, start, end) == Cut(s[i..], start, end)
    ensures forall j :: 0 <= j < i ==> s[j].End() <= start
  {
    forall j | 0 <= j < i ensures s[j].End() <= start {
      if j < i - 1 { SortedPair(s, j, i - 1); }
    }
    assert s == s[..i] + s[i..];
    PunchConcat(s[..i], s[i..], start, end);
    PunchUntouched(s[..i], start, end);
  }

  /** How often a subtree holds block b, as a node or as data. */
  function Held(t: Tree, b: nat): nat { Blocks(t, b) + Owns(Flat(t), b) }

  function HeldRow(kids: seq<Kid>, b: nat): nat { KidsBlocks(kids, b) + Owns(FlatKids(kids), b) }

  lemma {:induction false} HeldConcat(a: seq<Kid>, c: seq<Kid>, b: nat)
    ensures HeldRow(a + c, b) == HeldRow(a, b) + HeldRow(c, b)
  {
    KidsBlocksConcat(a, c, b);
    FlatKidsConcat(a, c);
    OwnsConcat(FlatKids(a), FlatKids(c), b);
  }

  lemma {:induction false} HeldThree(a: seq<Kid>, c: seq<Kid>, e: seq<Kid>, b: nat)
    ensures Held(Index(a + (c + e)), b) == HeldRow(a, b) + HeldRow(c, b) + HeldRow(e, b)
  {
    HeldConcat(a, c + e, b);
    HeldConcat(c, e, b);
  }

  lemma {:induction false} HeldOne(k: Kid, b: nat)
    ensures HeldRow([k], b) == (if k.blk == b then 1 else 0) + Held(k.sub, b)
  {
    assert [k][1..] == [];
    assert FlatKids([k]) == FlatKid(k) + FlatKids([]) == Flat(k.sub);
    assert KidsBlocks([k], b) == KidBlocks(k, b) + KidsBlocks([], b);
  }

  /** Nothing is lost when a child becomes `sub` and `freed` is handed back. */
  lemma {:induction false} HeldKeep(k: Kid, sub: Tree, freed: seq<Extent>, b: nat)
    requires Owns(freed, b) + Held(sub, b) == Held(k.sub, b)
    ensures Owns((if Empty(sub) then [Meta(k.blk)] else []) + freed, b) + HeldRow(Keep(k, sub), b) == HeldRow([k], b)
  {
    HeldOne(k, b);
    if Empty(sub) {
      EmptyFlat(sub);
      assert ([Meta(k.blk)] + freed)[1..] == freed;
    } else {
      assert [] + freed == freed;
      HeldOne(Kid(MinKey(sub), k.blk, sub), b);
    }
  }

  // ----- splitting an extent -----

  /** `s'` maps what `s` maps, except that the blocks of `ex` before `split` carry mark `unw1` and
      those from `split` on carry mark `unw2`; no block changes hands. */
  ghost predicate Marked(s: seq<Extent>, ex: Extent, split: nat, unw1: bool, unw2: bool, s': seq<Extent>)
  {
    && (forall x: nat :: Lookup(s', x) ==
          if ex.Covers(x) then To(ex.pblk + (x - ex.lblk), if x < split then unw1 else unw2) else Lookup(s, x))
    && (forall p: nat :: Owns(s', p) == Owns(s, p))
    && Size(s') == Size(s)
  }

  /** The two halves of an extent. */
  function Front(ex: Extent, split: nat, unw: bool): Extent
    requires ex.lblk <= split
  {
    ex.(len := split - ex.lblk, unwritten := unw)
  }

  function Back(ex: Extent, split: nat, unw: bool): Extent
    requires ex.Covers(split)
  {
    Extent(split, ex.len - (split - ex.lblk), ex.pblk + (split - ex.lblk), unw)
  }

  /** Where a split is asked for: `split` lies in extent `pos` of the leaf at p, and no half is to
      become unwritten unless the extent is. */
  ghost predicate SplitPoint(t: Tree, d: nat, p: Path, pos: nat, split: nat, unw1: bool, unw2: bool)
  {
    && Cursor(t, d, p, pos, split) && pos < |At(t, p).exts| && At(t, p).exts[pos].Covers(split)
    && (unw1 || unw2 ==> At(t, p).exts[pos].unwritten)
  }

  lemma {:induction false} SetFlat(t: Tree, p: Path, pos: nat, a: Extent)
    requires IsPath(t, p) && At(t, p).Leaf? && pos < |At(t, p).exts|
    ensures var t1, k := Put(t, p, Leaf(At(t, p).exts[pos := a])), |Pre(t, p)| + pos;
            && k < |Flat(t)| && Flat(t)[k] == At(t, p).exts[pos] && Flat(t1) == Flat(t)[k := a]
            && IsPath(t1, p) && At(t1, p) == Leaf(At(t, p).exts[pos := a]) && Pre(t1, p) == Pre(t, p)
  {
    var m' := At(t, p).exts[pos := a];
    FlatAround(t, p);
    PutFlat(t, p, Leaf(m'));
    PutAt(t, p, Leaf(m'));
  }

  lemma {:induction false} SetInv(t: Tree, d: nat, p: Path, pos: nat, a: Extent, R: nat, B: nat)
    requires Inv(t, d, R, B) && IsPath(t, p) && |p| == d && At(t, p).Leaf? && pos < |At(t, p).exts|
    requires a.Valid() && a.lblk == At(t, p).exts[pos].lblk && a.End() <= At(t, p).exts[pos].End()
    ensures Inv(Put(t, p, Leaf(At(t, p).exts[pos := a])), d, R, B)
  {
    var leaf := Leaf(At(t, p).exts[pos := a]);
    assert Sorted(Flat(Put(t, p, leaf))) by {
      SetFlat(t, p, pos, a);
      SetKeepsOrder(Flat(t), |Pre(t, p)| + pos, a);
    }
    AtShape(t, p, d, R, B);
    PutShape(t, p, leaf, d, R, B);
  }

  /** Shortening the extent makes room for its back half. */
  lemma {:induction false} FrontThenBack(s: seq<Extent>, k: nat, split: nat, unw1: bool, unw2: bool)
    requires Sorted(s) && k < |s| && s[k].lblk < split < s[k].End() && (unw1 || unw2 ==> s[k].unwritten)
    ensures Front(s[k], split, unw1).Valid() && Back(s[k], split, unw2).Valid()
    ensures Avoids(s[k := Front(s[k], split, unw1)], Back(s[k], split, unw2))
    ensures IsNearest(s, k, split) ==> IsNearest(s[k := Front(s[k], split, unw1)], k, split)
  {
    var s', b := s[k := Front(s[k], split, unw1)], Back(s[k], split, unw2);
    SortedAt(s, k);
    forall i | 0 <= i < |s'| ensures Disjoint(s'[i], b) {
      if i < k { SortedPair(s, i, k); } else if k < i { SortedPair(s, k, i); }
    }
  }

  /** Shortening an extent and inserting its back half only changes the marks. */
  lemma {:induction false} HalvesMark(s: seq<Extent>, k: nat, split: nat, unw1: bool, unw2: bool, s': seq<Extent>)
    requires Sorted(s) && k < |s| && s[k].lblk < split < s[k].End()
    requires Gains(s[k := Front(s[k], split, unw1)], Back(s[k], split, unw2), s')
    ensures Marked(s, s[k], split, unw1, unw2, s')
  {
    var a, b := Front(s[k], split, unw1), Back(s[k], split, unw2);
    forall x: nat
      ensures Lookup(s', x) == if s[k].Covers(x) then To(s[k].pblk + (x - s[k].lblk), if x < split then unw1 else unw2) else Lookup(s, x)
    {
      SetLookup(s, k, a, x);
    }
    forall p: nat ensures Owns(s', p) == Owns(s, p) { SetOwns(s, k, a, p); }
    SetOwns(s, k, a, 0);
  }

  lemma {:induction false} LedgerHalf(t: Tree, p: Path, pos: nat, split: nat, unw1: bool, unw2: bool,
          bitmap: set<nat>, others: set<nat>)
    requires IsPath(t, p) && At(t, p).Leaf? && pos < |At(t, p).exts| && At(t, p).exts[pos].Covers(split)
    requires Ledger(t, bitmap, others, [])
    ensures var m := At(t, p).exts;
            Ledger(Put(t, p, Leaf(m[pos := Front(m[pos], split, unw1)])), bitmap, others, [Back(m[pos], split, unw2)])
  {
    var m := At(t, p).exts;
    var a, e := Front(m[pos], split, unw1), Back(m[pos], split, unw2);
    var t1 := Put(t, p, Leaf(m[pos := a]));
    SetFlat(t, p, pos, a);
    forall b: nat
      ensures Blocks(t1, b) + Owns(Flat(t1), b) + Owns([e], b) == Blocks(t, b) + Owns(Flat(t), b) + Owns([], b)
    {
      PutBlocks(t, p, Leaf(m[pos := a]), b);
      SetOwns(Flat(t), |Pre(t, p)| + pos, a, b);
      assert Owns([e], b) == (if Holds(e, b) then 1 else 0) + Owns([], b);
    }
    LedgerMove(t, t1, bitmap, others, [], [e]);
  }

  /** Shortening the extent at a split point leaves a tree that takes the back half. */
  lemma {:induction false} HalfStep(t: Tree, d: nat, p: Path, pos: nat, split: nat, unw1: bool, unw2: bool, R: nat,
          B: nat)
    requires Inv(t, d, R, B) && 2 <= R < B && SplitPoint(t, d, p, pos, split, unw1, unw2)
    requires At(t, p).exts[pos].lblk < split
    ensures var m := At(t, p).exts;
            InsertStep(Put(t, p, Leaf(m[pos := Front(m[pos], split, unw1)])), d, p, pos, Back(m[pos], split, unw2), R, B)
  {
    var m := At(t, p).exts;
    FlatAround(t, p);
    SetFlat(t, p, pos, Front(m[pos], split, unw1));
    FrontThenBack(Flat(t), |Pre(t, p)| + pos, split, unw1, unw2);
    SetInv(t, d, p, pos, Front(m[pos], split, unw1), R, B);
  }

  /** Changing the mark of a whole extent and tidying up its leaf. */
  lemma {:induction false} MarkStep(t: Tree, d: nat, p: Path, pos: nat, split: nat, unw: bool, preIO: bool, R: nat,
          B: nat, bitmap: set<nat>, others: set<nat>)
    requires Inv(t, d, R, B) && SplitPoint(t, d, p, pos, split, false, unw) && split == At(t, p).exts[pos].lblk
    requires Ledger(t, bitmap, others, [])
    ensures var m := At(t, p).exts;
            var m' := Settle(m[pos := m[pos].(unwritten := unw)], pos, preIO);
            var t' := Put(t, p, Leaf(m'));
            && m'[0].lblk == m[0].lblk
            && Inv(t', d, R, B) && Marked(Flat(t), m[pos], m[pos].lblk, false, unw, Flat(t')) && Ledger(t', bitmap, others, [])
  {
    var m := At(t, p).exts;
    var a, k := m[pos].(unwritten := unw), |Pre(t, p)| + pos;
    var m1 := m[pos := a];
    var m' := Settle(m1, pos, preIO);
    var t1, t' := Put(t, p, Leaf(m1)), Put(t, p, Leaf(m'));
    SetFlat(t, p, pos, a);
    SortedAt(Flat(t), k);
    SetInv(t, d, p, pos, a, R, B);
    assert Inv(t', d, R, B) && SameContents(Flat(t1), Flat(t')) && m'[0].lblk == m1[0].lblk by {
      SettleInTree(t, d, p, pos, m1, preIO, R, B);
    }
    MarkLookups(Flat(t), k, unw, Flat(t'));
    forall b: nat
      ensures Blocks(t', b) + Owns(Flat(t'), b) + Owns([], b) == Blocks(t, b) + Owns(Flat(t), b) + Owns([], b)
    {
      PutBlocks(t, p, Leaf(m'), b);
    }
    LedgerMove(t, t', bitmap, others, [], []);
  }

  lemma {:induction false} MarkLookups(s: seq<Extent>, k: nat, unw: bool, s': seq<Extent>)
    requires Sorted(s) && k < |s| && SameContents(s[k := s[k].(unwritten := unw)], s')
    ensures Marked(s, s[k], s[k].lblk, false, unw, s')
  {
    var a := s[k].(unwritten := unw);
    forall x: nat
      ensures Lookup(s', x) == if s[k].Covers(x) then To(s[k].pblk + (x - s[k].lblk), unw) else Lookup(s, x)
    {
      SetLookup(s, k, a, x);
    }
    forall p: nat ensures Owns(s', p) == Owns(s, p) { SetOwns(s, k, a, p); }
    SetOwns(s, k, a, 0);
  }

  /** Merging neighbours inside a leaf keeps the tree well formed. */
  lemma {:induction false} SettleInTree(t: Tree, d: nat, p: Path, pos: nat, m1: seq<Extent>, preIO: bool, R: nat,
          B: nat)
    requires Shape(t, d, R, B) && IsPath(t, p) && |p| == d && At(t, p).Leaf? && pos < |m1| == |At(t, p).exts|
    requires Sorted(Flat(Put(t, p, Leaf(m1))))
    ensures var m' := Settle(m1, pos, preIO);
            var t' := Put(t, p, Leaf(m'));
            Inv(t', d, R, B) && SameContents(Flat(Put(t, p, Leaf(m1))), Flat(t')) && m'[0].lblk == m1[0].lblk
  {
    var m' := Settle(m1, pos, preIO);
    PutFlat(t, p, Leaf(m1));
    PutFlat(t, p, Leaf(m'));
    SortedMiddle(Pre(t, p), m1, Post(t, p));
    SettleTidies(m1, pos, preIO);
    TidyInContext(Pre(t, p), m1, m', Post(t, p));
    AtShape(t, p, d, R, B);
    PutShape(t, p, Leaf(m'), d, R, B);
  }

  lemma {:induction false} MarkedDone(t: Tree, d: nat, p: Path, pos: nat, unw: bool, x: nat, R: nat)
    requires IsPath(t, p) && At(t, p).Leaf? && pos < |At(t, p).exts| && At(t, p).exts[pos].Covers(x)
    ensures var m := At(t, p).exts;
            Merged(MergeUp(Put(t, p, Leaf(Settle(m[pos := m[pos].(unwritten := unw)], pos, false))), d, false, R).0, x, NoPairs(t))
  {
    var m := At(t, p).exts;
    var a := m[pos].(unwritten := unw);
    if NoPairs(t) { AtNoPairs(t, p); }
    ChangedMerged(t, p, m, pos, a, x, NoPairs(t));
    MergeUpMerged(Put(t, p, Leaf(Settle(m[pos := a], pos, false))), d, false, R, x, NoPairs(t));
  }

  /** Change the mark of extent `pos` of the leaf at `path`. */
  method MarkExtent(f: File, path: Path, pos: nat, ghost split: nat, unw: bool, preIO: bool)
    requires f.Valid([]) && SplitPoint(f.tree, f.depth, path, pos, split, false, unw)
    requires split == At(f.tree, path).exts[pos].lblk
    modifies f
    ensures f.Valid([])
    ensures Marked(old(Flat(f.tree)), old(At(f.tree, path)).exts[pos], split, false, unw, Flat(f.tree))
    ensures !preIO ==> Finished(f.tree, f.depth, f.R, split, old(NoPairs(f.tree)))
  {
    var leaf := At(f.tree, path).exts;
    if !preIO { MarkedDone(f.tree, f.depth, path, pos, unw, split, f.R); }
    MarkStep(f.tree, f.depth, path, pos, split, unw, preIO, f.R, f.B, f.bitmap, f.others);
    var exts := MergeInLeaf(leaf[pos := leaf[pos].(unwritten := unw)], pos, preIO);
    f.tree := StoreLeaf(f.tree, path, exts, false, f.depth, f.R, f.B);
    f.TryToMergeUp(preIO, []);
  }

  /** Split extent `pos` of the leaf at `path` at block `split`, or, when the extent starts there,
      just change its mark. */
  method SplitExtentAt(f: File, path: Path, pos: nat, split: nat, unw1: bool, unw2: bool, preIO: bool) returns (q: Path)
    requires f.Valid([]) && SplitPoint(f.tree, f.depth, path, pos, split, unw1, unw2)
    modifies f
    ensures f.Valid([])
    ensures Marked(old(Flat(f.tree)), old(At(f.tree, path)).exts[pos], split, unw1, unw2, Flat(f.tree))
    ensures preIO && old(At(f.tree, path)).exts[pos].lblk < split ==> CutsAt(f.tree, q, split - 1) && |q| == f.depth
    ensures !preIO ==> Finished(f.tree, f.depth, f.R, split, false)
  {
    if split == At(f.tree, path).exts[pos].lblk {
      MarkExtent(f, path, pos, split, unw2, preIO);
      return path;
    }
    q := SplitInside(f, path, pos, split, unw1, unw2, preIO);
  }

  /** Shorten extent `pos` of the leaf at `path` to its part in front of block `split`. */
  method Shorten(f: File, path: Path, pos: nat, split: nat, unw1: bool, ghost unw2: bool)
    requires f.Valid([]) && SplitPoint(f.tree, f.depth, path, pos, split, unw1, unw2)
             && At(f.tree, path).exts[pos].lblk < split
    modifies f`tree
    ensures var ex, k := old(At(f.tree, path)).exts[pos], |old(Pre(f.tree, path))| + pos;
            && f.Valid([Back(ex, split, unw2)]) && InsertStep(f.tree, f.depth, path, pos, Back(ex, split, unw2), f.R, f.B)
            && k < |old(Flat(f.tree))| && old(Flat(f.tree))[k] == ex && Flat(f.tree) == old(Flat(f.tree))[k := Front(ex, split, unw1)]
  {
    var leaf := At(f.tree, path).exts;
    var front := leaf[pos].(len := split - leaf[pos].lblk, unwritten := unw1);
    HalfStep(f.tree, f.depth, path, pos, split, unw1, unw2, f.R, f.B);
    LedgerHalf(f.tree, path, pos, split, unw1, unw2, f.bitmap, f.others);
    SetFlat(f.tree, path, pos, front);
    f.tree := StoreLeaf(f.tree, path, leaf[pos := front], false, f.depth, f.R, f.B);
  }

  /** Shorten extent `pos` to its part in front of block `split`, and insert the part behind. */
  method SplitInside(f: File, path: Path, pos: nat, split: nat, unw1: bool, unw2: bool, preIO: bool) returns (q: Path)
    requires f.Valid([]) && SplitPoint(f.tree, f.depth, path, pos, split, unw1, unw2)
             && At(f.tree, path).exts[pos].lblk < split
    modifies f
    ensures f.Valid([])
    ensures Marked(old(Flat(f.tree)), old(At(f.tree, path)).exts[pos], split, unw1, unw2, Flat(f.tree))
    ensures preIO ==> CutsAt(f.tree, q, split - 1) && |q| == f.depth
    ensures !preIO ==> Finished(f.tree, f.depth, f.R, split, false)
  {
    var ex := At(f.tree, path).exts[pos];
    ghost var s, k := Flat(f.tree), |Pre(f.tree, path)| + pos;
    Shorten(f, path, pos, split, unw1, unw2);
    var back := Extent(split, ex.len - (split - ex.lblk), ex.pblk + (split - ex.lblk), unw2);
    q := f.InsertExtent(path, pos, back, preIO);
    HalvesMark(s, k, split, unw1, unw2, Flat(f.tree));
  }

  // ----- removing a range of blocks -----

  /** Give removed data blocks and tree blocks back to the bitmap. */
  method FreeAll(f: File, ghost t: Tree, freed: seq<Extent>)
    requires Ledger(t, f.bitmap, f.others, freed) && f.used == |f.bitmap| && OwnAbove(f.bitmap, f.others, f.R)
    modifies f`bitmap, f`used
    ensures Ledger(t, f.bitmap, f.others, []) && f.used == |f.bitmap| && OwnAbove(f.bitmap, f.others, f.R)
  {
    var i := 0;
    assert freed[0..] == freed;
    while i < |freed|
      invariant 0 <= i <= |freed| && Ledger(t, f.bitmap, f.others, freed[i..])
      invariant f.used == |f.bitmap| && OwnAbove(f.bitmap, f.others, f.R)
    {
      assert freed[i..] == [freed[i]] + freed[i + 1..];
      LedgerFree(t, f.bitmap, f.others, freed[i + 1..], freed[i]);
      f.FreeBlocks(freed[i].pblk, freed[i].len);
      i := i + 1;
    }
    assert freed[i..] == [];
  }

  /** A change below the levels of the walk is a change of the whole tree. */
  lemma {:induction false} HeldBelow(ls: seq<Level>, x: Tree, y: Tree, c: nat, b: nat)
    requires OnEntries(ls) && c + Held(x, b) == Held(y, b)
    ensures c + Held(Assemble(ls, x), b) == Held(Assemble(ls, y), b)
    decreases |ls|
  {
    if ls != [] {
      var l := ls[|ls| - 1];
      HeldAt(l, x, b);
      HeldAt(l, y, b);
      var i, k := l.idx, l.kids[l.idx];
      HeldBelow(ls[..|ls| - 1], Index(l.kids[i := k.(sub := x)]), Index(l.kids[i := k.(sub := y)]), c, b);
    }
  }

  lemma {:induction false} HeldAt(l: Level, x: Tree, b: nat)
    requires OnEntry(l)
    ensures var i, k := l.idx, l.kids[l.idx];
            Held(Index(l.kids[i := k.(sub := x)]), b)
            == HeldRow(l.kids[..i], b) + (if k.blk == b then 1 else 0) + Held(x, b) + HeldRow(l.kids[i + 1..], b)
  {
    var i, k := l.idx, l.kids[l.idx].(sub := x);
    assert l.kids[i := k] == l.kids[..i] + ([k] + l.kids[i + 1..]);
    HeldThree(l.kids[..i], [k], l.kids[i + 1..], b);
    HeldOne(k, b);
  }

  lemma {:induction false} LedgerBelow(ls: seq<Level>, x: Tree, y: Tree, freed: seq<Extent>, bitmap: set<nat>,
          others: set<nat>)
    requires OnEntries(ls) && Ledger(Assemble(ls, y), bitmap, others, [])
    requires forall b: nat :: Owns(freed, b) + Held(x, b) == Held(y, b)
    ensures Ledger(Assemble(ls, x), bitmap, others, freed)
  {
    var t, t' := Assemble(ls, y), Assemble(ls, x);
    forall b: nat
      ensures Blocks(t', b) + Owns(Flat(t'), b) + Owns(freed, b) == Blocks(t, b) + Owns(Flat(t), b) + Owns([], b)
    {
      assert Owns(freed, b) + Held(x, b) == Held(y, b);
      HeldBelow(ls, x, y, Owns(freed, b), b);
    }
    LedgerMove(t, t', bitmap, others, [], freed);
  }

  /** An index entry is dropped, and its block handed back, when its child is empty. */
  lemma {:induction false} HeldBack(l: Level, sub: Tree, b: nat)
    requires OnEntry(l)
    ensures var i, k := l.idx, l.kids[l.idx];
            Owns(if Empty(sub) then [Meta(k.blk)] else [], b) + Held(Index(Joined(l, sub)), b)
            == Held(Index(l.kids[i := k.(sub := sub)]), b)
  {
    var i, k := l.idx, l.kids[l.idx];
    HeldAt(l, sub, b);
    HeldThree(l.kids[..i], Keep(k, sub), l.kids[i + 1..], b);
    var freed := if Empty(sub) then [Meta(k.blk)] else [];
    assert freed + [] == freed;
    HeldKeep(k.(sub := sub), sub, [], b);
    assert Keep(k.(sub := sub), sub) == Keep(k, sub);
    HeldOne(k.(sub := sub), b);
  }

  /** What the walk keeps: the levels lead to entries with visited ones behind them, and every used
      block is held exactly once by the tree that they are part of. */
  ghost predicate Walking(f: File, ls: seq<Level>, w: Work, d: nat, end: nat)
    reads f
  {
    && RowsOk(ls, d, f.B, end) && OnEntries(ls) && (w.Fresh? ==> FreshOk(w.node, d - |ls|, f.B, end))
    && Ledger(Assemble(ls, w.node), f.bitmap, f.others, []) && f.used == |f.bitmap| && OwnAbove(f.bitmap, f.others, f.R)
  }

  /** Remove the blocks of the range from a leaf, and free them. */
  method WalkLeaf(f: File, ghost ls: seq<Level>, exts: seq<Extent>, start: nat, end: nat, ghost d: nat)
    returns (left: seq<Extent>)
    requires Walking(f, ls, Fresh(Leaf(exts)), d, end)
    modifies f`bitmap, f`used
    ensures Walking(f, ls, Done(Leaf(left)), d, end) && left == Punch(exts, start, end)
  {
    var ok, freed;
    ok, left, freed := RmLeaf(exts, start, end);
    forall b: nat ensures Owns(freed, b) + Held(Leaf(left), b) == Held(Leaf(exts), b) { PunchOwns(exts, start, end, b); }
    LedgerBelow(ls, Leaf(left), Leaf(exts), freed, f.bitmap, f.others);
    FreeAll(f, Assemble(ls, Leaf(left)), freed);
  }

  /** Go back to a level whose child is finished: drop the entry of an empty child, and free its block. */
  method WalkBack(f: File, ghost ls: seq<Level>, l: Level, sub: Tree, ghost d: nat, ghost end: nat)
          returns (kids: seq<Kid>)
    requires Walking(f, ls + [l], Done(sub), d, end)
    modifies f`bitmap, f`used
    ensures OnEntry(l) && kids == Joined(l, sub) && Walking(f, ls, Done(Index(kids)), d, end)
            && LeftOk(l, d - |ls| - 1, f.B, end)
  {
    ghost var all := ls + [l];
    assert all[..|all| - 1] == ls && all[|all| - 1] == l;
    var k := l.kids[l.idx];
    kids := l.kids[..l.idx] + ((if Empty(sub) then [] else [Kid(MinKey(sub), k.blk, sub)]) + l.kids[l.idx + 1..]);
    var freed := if Empty(sub) then [Meta(k.blk)] else [];
    RowsOnEntries(ls, d, f.B, end);
    forall b: nat ensures Owns(freed, b) + Held(Index(kids), b) == Held(Index(l.kids[l.idx := k.(sub := sub)]), b) {
      HeldBack(l, sub, b);
    }
    LedgerBelow(ls, Index(kids), Index(l.kids[l.idx := k.(sub := sub)]), freed, f.bitmap, f.others);
    FreeAll(f, Assemble(ls, Index(kids)), freed);
  }

  /** Enter an index node that has entries, at its last one. */
  method WalkEnter(f: File, ls: seq<Level>, kids: seq<Kid>, ghost d: nat, ghost end: nat)
          returns (ls': seq<Level>, sub: Tree)
    requires Walking(f, ls, Fresh(Index(kids)), d, end) && kids != []
    ensures ls' == ls + [Level(kids, |kids| - 1, |kids|)] && sub == kids[|kids| - 1].sub
    ensures Walking(f, ls', Fresh(sub), d, end)
  {
    EnterOk(kids, d - |ls|, f.B, end);
    PushedRows(ls, Level(kids, |kids| - 1, |kids|), d, f.B, end);
    AssembleAt(ls, kids, |kids| - 1, |kids|);
    return ls + [Level(kids, |kids| - 1, |kids|)], kids[|kids| - 1].sub;
  }

  /** Go on to the entry in front of the one that is done. */
  method WalkNext(f: File, ls: seq<Level>, ghost l: Level, ghost sub: Tree, kids: seq<Kid>, idx: nat, ghost d: nat,
          ghost end: nat)
    returns (ls': seq<Level>, next: Tree)
    requires |ls| < d && LeftOk(l, d - |ls| - 1, f.B, end) && kids == Joined(l, sub) && idx + 1 == l.idx
    requires Walking(f, ls, Done(Index(kids)), d, end)
    ensures idx < |kids| && ls' == ls + [Level(kids, idx, |kids|)] && next == kids[idx].sub
    ensures Walking(f, ls', Fresh(next), d, end)
  {
    NextOk(l, sub, d - |ls| - 1, f.B, end);
    PushedRows(ls, Level(kids, idx, |kids|), d, f.B, end);
    AssembleAt(ls, kids, idx, |kids|);
    return ls + [Level(kids, idx, |kids|)], kids[idx].sub;
  }

  /** One step of the walk: into a node, over a leaf, or back to a level and from there to the entry
      in front or up. */
  method WalkStep(f: File, ls: seq<Level>, w: Work, start: nat, end: nat, ghost d: nat)
          returns (ls': seq<Level>, w': Work)
    requires Walking(f, ls, w, d, end) && (w.Fresh? || ls != [])
    modifies f`bitmap, f`used
    ensures Walking(f, ls', w', d, end)
    ensures OnEntries(ls) && OnEntries(ls')
    ensures Finish(ls', Value(w', start, end), start, end) == Finish(ls, Value(w, start, end), start, end)
    ensures Todo(ls', w') < Todo(ls, w) || (Todo(ls', w') == Todo(ls, w) && w.Done? && w'.Fresh?)
  {
    match w {
      case Fresh(Leaf(exts)) =>
        var left := WalkLeaf(f, ls, exts, start, end, d);
        return ls, Done(Leaf(left));
      case Fresh(Index(kids)) =>
        if kids == [] {
          return ls, Done(w.node);
        }
        EnterOutcome(ls, kids, start, end);
        var sub;
        ls', sub := WalkEnter(f, ls, kids, d, end);
        w' := Fresh(sub);
      case Done(sub) =>
        var l, above := ls[|ls| - 1], ls[..|ls| - 1];
        assert ls == above + [l];
        var kids := WalkBack(f, above, l, sub, d, end);
        if l.idx > 0 && |kids| != l.block {
          NextOutcome(above, l, sub, start, end);
          var next;
          ls', next := WalkNext(f, above, l, sub, kids, l.idx - 1, d, end);
          return ls', Fresh(next);
        }
        UpOutcome(above, l, sub, start, end);
        return above, Done(Index(kids));
    }
  }

  /** The levels of a path as the walk finds them: a search has left the block number of its entry in
      each of them, and a loop over all but the root writes over it. */
  method StartLevels(t: Tree, path: Path) returns (ls: seq<Level>)
    requires IsPath(t, path)
    ensures ls == Started(t, path)
  {
    ls := [];
    var node := t;
    assert path[0..] == path;
    for i := 0 to |path|
      invariant |ls| == i && IsPath(node, path[i..]) && ls + Searched(node, path[i..]) == Searched(t, path)
    {
      assert path[i..][0] == path[i] && path[i..][1..] == path[i + 1..];
      ls := ls + [Level(node.kids, path[i], node.kids[path[i]].blk)];
      node := node.kids[path[i]].sub;
    }
    var k := |path|;
    while k > 1
      invariant |ls| == |path| && (path != [] ==> 1 <= k <= |path|)
      invariant forall j :: 0 <= j < |ls| ==> ls[j] == if 1 <= j && k <= j then Reset(t, path)[j] else Searched(t, path)[j]
    {
      k := k - 1;
      SearchedAt(t, path, k);
      ls := ls[k := ls[k].(block := |ls[k].kids| + 1)];
    }
    StartedAt(t, path, ls);
  }

  /** The walk over the tree, from the leaf at `path` to its left. */
  method RmWalk(f: File, path: Path, start: nat, end: nat) returns (t': Tree)
    requires f.Valid([]) && CutsAt(f.tree, path, end) && |path| == f.depth
    modifies f`bitmap, f`used
    ensures t' == WalkTree(f.tree, path, start, end)
    ensures Ledger(t', f.bitmap, f.others, []) && f.used == |f.bitmap| && OwnAbove(f.bitmap, f.others, f.R)
  {
    StartedOk(f.tree, path, f.depth, f.R, f.B, end);
    StartedAssembles(f.tree, path);
    var ls := StartLevels(f.tree, path);
    var w := Fresh(At(f.tree, path));
    while w.Fresh? || ls != []
      invariant Walking(f, ls, w, f.depth, end)
      invariant Finish(ls, Value(w, start, end), start, end) == WalkTree(f.tree, path, start, end)
      decreases Todo(ls, w), if w.Done? then 1 else 0
    {
      ls, w := WalkStep(f, ls, w, start, end, f.depth);
    }
    t' := w.node;
  }

  /** Blocks start..end are unmapped and every other block keeps its mapping. */
  ghost predicate Unmaps(s: seq<Extent>, start: nat, end: nat, s': seq<Extent>)
  {
    forall x: nat :: Lookup(s', x) == if start <= x <= end then Hole else Lookup(s, x)
  }

  lemma {:induction false} SameMarks(s: seq<Extent>, k: nat, split: nat, s': seq<Extent>)
    requires Sorted(s) && k < |s| && Marked(s, s[k], split, s[k].unwritten, s[k].unwritten, s')
    ensures forall x: nat :: Lookup(s', x) == Lookup(s, x)
  {
    forall x: nat ensures Lookup(s', x) == Lookup(s, x) {
      if s[k].Covers(x) { LookupAt(s, k, x); }
    }
  }

  /** An extent that ends at or before block `end`, or starts after it, is the only one that could
      reach across `end` when a search for `end` finds it. */
  lemma {:induction false} NearestClean(s: seq<Extent>, k: nat, end: nat)
    requires Sorted(s) && IsNearest(s, k, end) && (s[k].End() <= end + 1 || end < s[k].lblk)
    ensures Clean(s, end)
  {
    forall i | 0 <= i < |s| ensures s[i].End() <= end + 1 || end < s[i].lblk {
      if i < k {
        SortedPair(s, i, k);
      } else if k + 1 < i {
        SortedPair(s, k + 1, i);
        SortedAt(s, k + 1);
      }
    }
  }

  /** The blocks of a tree lie behind the root's own block range, so none of their numbers is a number
      of entries of the root, and the walk leaves what it should. */
  lemma {:induction false} RootGoesOn(t: Tree, p: Path, start: nat, end: nat, bitmap: set<nat>, others: set<nat>,
          R: nat,
          B: nat, d: nat)
    requires Shape(t, d, R, B) && IsPath(t, p) && Ledger(t, bitmap, others, []) && OwnAbove(bitmap, others, R)
    ensures WalkTree(t, p, start, end) == RmPath(t, p, start, end)
  {
    if p != [] {
      var i, b := p[0], t.kids[p[0]].blk;
      assert t.kids == t.kids[..i] + ([t.kids[i]] + t.kids[i + 1..]);
      KidsBlocksConcat(t.kids[..i], [t.kids[i]] + t.kids[i + 1..], b);
      KidsBlocksConcat([t.kids[i]], t.kids[i + 1..], b);
      HeldOne(t.kids[i], b);
      assert Blocks(t, b) >= 1;
      assert In(bitmap, b) == 1 && In(others, b) == 0;
    }
    WalkIsRmPath(t, p, start, end);
  }

  /** What the walk leaves is a tree that maps what it should. */
  lemma {:induction false} WalkRemoves(t: Tree, d: nat, p: Path, start: nat, end: nat, R: nat, B: nat, bitmap: set<nat>,
          others: set<nat>)
    requires Inv(t, d, R, B) && CutsAt(t, p, end) && |p| == d && start <= end + 1
    requires Ledger(t, bitmap, others, []) && OwnAbove(bitmap, others, R)
    ensures var t' := WalkTree(t, p, start, end);
            if Empty(t') then Inv(Leaf([]), 0, R, B) && Unmaps(Flat(t), start, end, []) && (forall b: nat :: Held(t', b) == 0)
            else Inv(t', d, R, B) && Unmaps(Flat(t), start, end, Flat(t'))
  {
    RootGoesOn(t, p, start, end, bitmap, others, R, B, d);
    RemoveCorrect(t, d, p, start, end, R, B);
    if Empty(WalkTree(t, p, start, end)) { EmptyFlat(WalkTree(t, p, start, end)); }
  }

  /** The walk over the tree, started at the leaf at `path`; a tree left without entries becomes a leaf. */
  method RemoveFrom(f: File, path: Path, start: nat, end: nat)
    requires f.Valid([]) && start <= end + 1 && CutsAt(f.tree, path, end) && |path| == f.depth
    modifies f
    ensures f.Valid([]) && Unmaps(old(Flat(f.tree)), start, end, Flat(f.tree))
  {
    WalkRemoves(f.tree, f.depth, path, start, end, f.R, f.B, f.bitmap, f.others);
    var t' := RmWalk(f, path, start, end);
    if Empty(t') {
      f.tree, f.depth := Leaf([]), 0;
    } else {
      f.tree := t';
    }
  }

  /** Find the extent nearest to block b; position -1 stands for a file without extents. */
  method Locate(f: File, b: nat) returns (path: Path, pos: int)
    requires f.Valid([])
    ensures IsPath(f.tree, path) && |path| == f.depth && At(f.tree, path).Leaf? && -1 <= pos < |At(f.tree, path).exts|
    ensures pos == -1 ==> Flat(f.tree) == [] && f.depth == 0
    ensures pos >= 0 ==> Found(f.tree, f.depth, path, pos, b)
  {
    InvSearchable(f.tree, f.depth, f.R, f.B);
    path, pos := FindExtent(f.tree, f.depth, b);
    FindGivesCursor(f.tree, b, f.depth, f.R, f.B);
    FlatAround(f.tree, path);
  }

  ghost predicate Found(t: Tree, d: nat, p: Path, pos: nat, b: nat)
  {
    && Cursor(t, d, p, pos, b) && pos < |At(t, p).exts|
    && |Pre(t, p)| + pos < |Flat(t)| && Flat(t)[|Pre(t, p)| + pos] == At(t, p).exts[pos]
  }

  /** The cursor for a block is the cursor for the next one inside the same extent. */
  lemma {:induction false} SplitCursor(t: Tree, d: nat, p: Path, pos: nat, end: nat)
    requires Cursor(t, d, p, pos, end) && Sorted(Flat(t)) && pos < |At(t, p).exts|
    requires At(t, p).exts[pos].lblk <= end && end + 1 < At(t, p).exts[pos].End()
    ensures Cursor(t, d, p, pos, end + 1)
  {
    FlatAround(t, p);
    assert (Pre(t, p) + (At(t, p).exts + Post(t, p)))[|Pre(t, p)| + pos] == At(t, p).exts[pos];
    NearestOnward(Flat(t), |Pre(t, p)| + pos, end);
  }

  lemma {:induction false} NearestOnward(s: seq<Extent>, k: nat, b: nat)
    requires Sorted(s) && IsNearest(s, k, b) && s[k].lblk <= b && b + 1 < s[k].End()
    ensures IsNearest(s, k, b + 1)
  {
    if k + 1 < |s| { SortedPair(s, k, k + 1); }
  }

  /** Make sure that no extent reaches across block `end`, given the extent found for it. */
  method CutAt(f: File, path: Path, pos: nat, end: nat) returns (q: Path)
    requires f.Valid([]) && Found(f.tree, f.depth, path, pos, end)
    modifies f
    ensures f.Valid([]) && CutsAt(f.tree, q, end) && |q| == f.depth
    ensures forall x: nat :: Lookup(Flat(f.tree), x) == Lookup(old(Flat(f.tree)), x)
  {
    var ex := At(f.tree, path).exts[pos];
    ghost var s, k := Flat(f.tree), |Pre(f.tree, path)| + pos;
    if ex.lblk <= end && end + 1 < ex.End() {
      SplitCursor(f.tree, f.depth, path, pos, end);
      q := SplitExtentAt(f, path, pos, end + 1, ex.unwritten, ex.unwritten, true);
      SameMarks(s, k, end + 1, Flat(f.tree));
    } else {
      CursorDivides(f.tree, f.depth, path, pos, end);
      NearestClean(s, k, end);
      q := path;
    }
  }

  /** Unmap blocks start..end of a file and free them. */
  method RemoveSpace(f: File, start: nat, end: nat)
    requires f.Valid([]) && start <= end + 1 && end < EXT_MAX_BLOCKS - 1
    modifies f
    ensures f.Valid([]) && Unmaps(old(Flat(f.tree)), start, end, Flat(f.tree))
  {
    var path, pos := Locate(f, end);
    if pos == -1 {
      return;
    }
    path := CutAt(f, path, pos, end);
    RemoveFrom(f, path, start, end);
  }
}
