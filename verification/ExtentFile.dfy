/** One file's extent tree with the block bitmap that it allocates from, and the operations that
    change them in place (kernfs/extents.c). Tree nodes are nested values: writing a node back is
    replacing it at its path. */
module ExtentFile {
  import opened ExtentSeq
  import opened LeafOps
  import opened Options
  import opened ExtentTree
  import opened ExtentInsert
  import opened ExtentInsertProofs
  import opened ExtentRemove
  import opened ExtentSearch
  import opened ExtentSplit
  import opened ExtentTidy

  type Allocator = (set<nat>, nat) -> (nat, nat)

  /** Given the blocks in use and a count, the allocator returns a run of 1 to count free blocks. */
  ghost predicate GoodAllocator(alloc: Allocator, low: nat)
  {
    forall used: set<nat>, count: nat ::
      count >= 1 ==> 1 <= alloc(used, count).1 <= count && alloc(used, count).0 > low
                     && Range(alloc(used, count).0, alloc(used, count).1) !! used
  }

  function Range(p: nat, n: nat): (s: set<nat>)
    ensures forall b: nat :: b in s <==> p <= b < p + n
    ensures |s| == n
  {
    if n == 0 then {} else Range(p, n - 1) + {p + n - 1}
  }

  /** The blocks that the file holds are above `low`. */
  ghost predicate OwnAbove(bitmap: set<nat>, others: set<nat>, low: nat)
  {
    forall b: nat :: b in bitmap && b !in others ==> b > low
  }

  function In(s: set<nat>, b: nat): nat { if b in s then 1 else 0 }

  /** Every block of the bitmap is held exactly once: by someone else, by the tree as a node, by the
      tree as data, or by an extent that is not in the tree yet; and no other block is held. */
  ghost predicate Ledger(t: Tree, bitmap: set<nat>, others: set<nat>, loose: seq<Extent>)
  {
    forall b: nat {:trigger In(bitmap, b)} ::
      In(others, b) + Blocks(t, b) + Owns(Flat(t), b) + Owns(loose, b) == In(bitmap, b)
  }

  /** An allocated tree block that no index entry points to yet. */
  function Meta(b: nat): Extent { Extent(0, 1, b, false) }

  lemma {:induction false} LedgerAlloc(t: Tree, bitmap: set<nat>, others: set<nat>, loose: seq<Extent>, p: nat,
          n: nat, e: Extent)
    requires Ledger(t, bitmap, others, loose) && Range(p, n) !! bitmap && e.pblk == p && e.len == n
    ensures Ledger(t, bitmap + Range(p, n), others, [e] + loose)
  {
    forall b: nat
      ensures In(others, b) + Blocks(t, b) + Owns(Flat(t), b) + Owns([e] + loose, b) == In(bitmap + Range(p, n), b)
    {
      assert ([e] + loose)[1..] == loose;
      assert In(bitmap, b) == In(others, b) + Blocks(t, b) + Owns(Flat(t), b) + Owns(loose, b);
    }
  }

  lemma {:induction false} LedgerFree(t: Tree, bitmap: set<nat>, others: set<nat>, loose: seq<Extent>, e: Extent)
    requires Ledger(t, bitmap, others, [e] + loose)
    ensures Range(e.pblk, e.len) <= bitmap
    ensures Ledger(t, bitmap - Range(e.pblk, e.len), others, loose)
  {
    assert ([e] + loose)[1..] == loose;
    forall b: nat | b in Range(e.pblk, e.len) ensures b in bitmap {
      assert In(bitmap, b) >= Owns([e] + loose, b);
    }
    forall b: nat
      ensures In(others, b) + Blocks(t, b) + Owns(Flat(t), b) + Owns(loose, b) == In(bitmap - Range(e.pblk, e.len), b)
    {
      assert In(bitmap, b) == In(others, b) + Blocks(t, b) + Owns(Flat(t), b) + Owns([e] + loose, b);
    }
  }

  /** The tree takes over loose extents as data and as nodes. */
  lemma {:induction false} LedgerMove(t: Tree, t': Tree, bitmap: set<nat>, others: set<nat>, loose: seq<Extent>,
          loose': seq<Extent>)
    requires Ledger(t, bitmap, others, loose)
    requires forall b: nat {:trigger Blocks(t', b)} ::
               Blocks(t', b) + Owns(Flat(t'), b) + Owns(loose', b) == Blocks(t, b) + Owns(Flat(t), b) + Owns(loose, b)
    ensures Ledger(t', bitmap, others, loose')
  {
    forall b: nat
      ensures In(others, b) + Blocks(t', b) + Owns(Flat(t'), b) + Owns(loose', b) == In(bitmap, b)
    {
      assert In(bitmap, b) == In(others, b) + Blocks(t, b) + Owns(Flat(t), b) + Owns(loose, b);
    }
  }

  /** Merge extent i with its right neighbours for as long as they fit together. */
  method TryToMergeRight(s: seq<Extent>, i: nat) returns (t: seq<Extent>, merged: bool)
    requires i < |s|
    ensures t == MergeRight(s, i)
    ensures merged <==> i + 1 < |s| && CanMerge(s[i], s[i + 1])
    ensures i < |t| && (i + 1 < |t| ==> !CanMerge(t[i], t[i + 1]))
  {
    t, merged := s, false;
    while i + 1 < |t| && CanMerge(t[i], t[i + 1])
      invariant i < |t| <= |s|
      invariant MergeRight(t, i) == MergeRight(s, i)
      invariant merged ==> i + 1 < |s| && CanMerge(s[i], s[i + 1])
      invariant !merged ==> t == s
      decreases |t|
    {
      t := t[..i] + ([t[i].(len := t[i].len + t[i + 1].len)] + t[i + 2..]);
      merged := true;
    }
  }

  /** Merge extent i with its neighbours in the leaf, unless the caller is on the direct-I/O path. */
  method MergeInLeaf(s: seq<Extent>, i: nat, preIO: bool) returns (t: seq<Extent>)
    requires i < |s|
    ensures t == Settle(s, i, preIO)
    ensures !preIO && PairsAt(s, i) ==> NoPair(t)
  {
    t := s;
    if !preIO && PairsAt(s, i) { TryToMergeNoPair(s, i); }
    if !preIO {
      var merged := false;
      if i > 0 {
        t, merged := TryToMergeRight(s, i - 1);
      }
      if !merged {
        t, merged := TryToMergeRight(s, i);
      }
    }
  }

  /** The node at path p[..j], seen from its parent. */
  lemma {:induction false} PutStep(t: Tree, p: Path, j: nat, s: Tree)
    requires IsPath(t, p) && 0 < j <= |p| && !Empty(s)
    ensures IsPath(t, p[..j]) && IsPath(t, p[..j - 1]) && IsPath(At(t, p[..j]), p[j..])
    ensures At(t, p[..j - 1]).Index? && p[j - 1] < |At(t, p[..j - 1]).kids|
    ensures IsPath(At(t, p[..j - 1]), p[j - 1..])
    ensures var node := At(t, p[..j - 1]);
            var k, sub := node.kids[p[j - 1]], Put(At(t, p[..j]), p[j..], s);
            && k.sub == At(t, p[..j])
            && Put(node, p[j - 1..], s) == Index(node.kids[p[j - 1] := Kid(MinKey(sub), k.blk, sub)])
  {
    AtPrefix(t, p, j - 1);
    AtPrefix(t, p, j);
    assert p[..j] == p[..j - 1] + [p[j - 1]];
    assert p[j - 1..][1..] == p[j..];
    AtSnoc(t, p[..j - 1], p[j - 1]);
  }

  /** Write back the leaf at `path`, and the keys above it as long as the change is in front. */
  method StoreLeaf(t: Tree, path: Path, exts: seq<Extent>, first: bool, ghost d: nat, ghost cap: nat, ghost B: nat)
    returns (t': Tree)
    requires Shape(t, d, cap, B) && IsPath(t, path) && At(t, path).Leaf? && exts != []
    requires !first ==> At(t, path).exts != [] && At(t, path).exts[0].lblk == exts[0].lblk
    ensures t' == Put(t, path, Leaf(exts))
  {
    var border, fix, j := exts[0].lblk, first, |path|;
    t' := Leaf(exts);
    assert path[..j] == path && path[j..] == [];
    while j > 0
      invariant 0 <= j <= |path|
      invariant IsPath(t, path[..j]) && IsPath(At(t, path[..j]), path[j..])
      invariant t' == Put(At(t, path[..j]), path[j..], Leaf(exts))
      invariant fix ==> MinKey(t') == border
      invariant !fix ==> !Empty(At(t, path[..j])) && MinKey(t') == MinKey(At(t, path[..j]))
    {
      PutStep(t, path, j, Leaf(exts));
      KeyAt(t, path[..j - 1], path[j - 1], d, cap, B);
      var node := At(t, path[..j - 1]);
      var k := node.kids[path[j - 1]];
      t' := Index(node.kids[path[j - 1] := Kid(if fix then border else k.key, k.blk, t')]);
      fix := fix && path[j - 1] == 0;
      j := j - 1;
    }
    assert path[..0] == [] && path[0..] == path;
  }

  lemma {:induction false} KeyAt(t: Tree, p: Path, i: nat, d: nat, cap: nat, B: nat)
    requires Shape(t, d, cap, B) && IsPath(t, p) && At(t, p).Index? && i < |At(t, p).kids|
    ensures var k := At(t, p).kids[i]; !Empty(k.sub) && k.key == MinKey(k.sub)
    decreases |p|
  {
    if p == [] {
      assert KidShape(t.kids[i], d - 1, B);
    } else {
      assert KidShape(t.kids[p[0]], d - 1, B);
      KeyAt(t.kids[p[0]].sub, p[1..], i, d - 1, B, B);
    }
  }

  // ----- splitting -----

  function Cap(j: nat, R: nat, B: nat): nat { if j == 0 then R else B }

  /** Level j of the path is the lowest one whose index node has a free entry. */
  ghost predicate LowestRoom(t: Tree, p: Path, j: nat, R: nat, B: nat)
    requires IsPath(t, p)
  {
    && j < |p| && IsPath(t, p[..j]) && IsPath(t, p[..j + 1]) && IsPath(At(t, p[..j + 1]), p[j + 1..])
    && At(t, p[..j]).Index? && |At(t, p[..j]).kids| < Cap(j, R, B)
    && !HasRoom(At(t, p[..j + 1]), p[j + 1..], B, B)
  }

  /** Go up the path to the first index node with a free entry. */
  method FindRoom(t: Tree, path: Path, R: nat, B: nat) returns (at: Option<nat>)
    requires IsPath(t, path)
    ensures match at
            case Some(j) => LowestRoom(t, path, j, R, B)
            case None => !HasRoom(t, path, R, B)
  {
    var j := |path|;
    assert path[..j] == path && path[j..] == [];
    while j > 0
      invariant 0 <= j <= |path|
      invariant IsPath(t, path[..j]) && IsPath(At(t, path[..j]), path[j..])
      invariant !HasRoom(At(t, path[..j]), path[j..], Cap(j, R, B), B)
    {
      AtPrefix(t, path, j - 1);
      assert path[..j] == path[..j - 1] + [path[j - 1]];
      assert path[j - 1..][1..] == path[j..];
      AtSnoc(t, path[..j - 1], path[j - 1]);
      if |At(t, path[..j - 1]).kids| < Cap(j - 1, R, B) {
        return Some(j - 1);
      }
      j := j - 1;
    }
    assert path[..0] == [] && path[0..] == path;
    return None;
  }

  lemma {:induction false} LowestRoomLevels(t: Tree, p: Path, j: nat, R: nat, B: nat)
    requires IsPath(t, p) && LowestRoom(t, p, j, R, B)
    ensures HasRoom(t, p, R, B) && SplitLevels(t, p, R, B) == |p| - j - 1
    decreases |p|
  {
    var sub := t.kids[p[0]].sub;
    assert p[..j + 1][1..] == p[1..][..j];
    if j == 0 {
      var q := p[..1];
      assert q[1..] == [] && p[..0] == [];
      assert At(t, q) == At(sub, q[1..]) == sub;
      FullLevels(sub, p[1..], B, B);
    } else {
      assert p[..j][1..] == p[1..][..j - 1];
      assert p[j + 1..] == p[1..][j..];
      LowestRoomLevels(sub, p[1..], j - 1, B, B);
    }
  }

  lemma {:induction false} FullLevels(t: Tree, p: Path, cap: nat, B: nat)
    requires IsPath(t, p) && !HasRoom(t, p, cap, B)
    ensures SplitLevels(t, p, cap, B) == |p|
    decreases |p|
  {
    if p != [] { FullLevels(t.kids[p[0]].sub, p[1..], B, B); }
  }

  /** A split that a node on the path absorbs changes only that node. */
  lemma {:induction false} AddSiblingAt(t: Tree, p: Path, j: nat, left: Tree, right: Kid, cap: nat, B: nat,
          spare: seq<nat>)
    requires IsPath(t, p) && j <= |p| && !Empty(left) && |spare| > |p|
    requires IsPath(t, p[..j]) && IsPath(At(t, p[..j]), p[j..])
    requires AddSibling(At(t, p[..j]), p[j..], left, right, Cap(j, cap, B), B, spare).1.None?
    ensures var r := AddSibling(At(t, p[..j]), p[j..], left, right, Cap(j, cap, B), B, spare);
            AddSibling(t, p, left, right, cap, B, spare) == (Put(t, p[..j], r.0), None)
    decreases j
  {
    if j == 0 {
      assert p[..0] == [] && p[0..] == p;
    } else {
      assert p[..j][1..] == p[1..][..j - 1] && p[j..] == p[1..][j - 1..];
      AddSiblingAt(t.kids[p[0]].sub, p[1..], j - 1, left, right, B, B, spare);
    }
  }

  /** Insert the entry for the new node n, behind the one for the node l that was split, at level `at`. */
  method LinkNodes(t: Tree, path: Path, at: nat, l: Tree, n: Kid, ghost left: Tree, ghost right: Kid, R: nat, B: nat,
          ghost all: seq<nat>)
    returns (t': Tree)
    requires IsPath(t, path) && LowestRoom(t, path, at, R, B) && !Empty(left) && !Empty(l) && |all| > |path|
    requires IsPath(t, path[..at + 1]) && IsPath(At(t, path[..at + 1]), path[at + 1..])
    requires AddSibling(At(t, path[..at + 1]), path[at + 1..], left, right, B, B, all) == (l, Some(n))
    ensures t' == AddSibling(t, path, left, right, R, B, all).0
  {
    SplitStep(t, path, at + 1, left, right, Cap(at, R, B), B, all);
    var node := At(t, path[..at]);
    var i, k := path[at], node.kids[path[at]];
    t' := Put(t, path[..at], Index(node.kids[..i] + [Kid(MinKey(l), k.blk, l)] + ([n] + node.kids[i + 1..])));
    AddSiblingAt(t, path, at, left, right, R, B, all);
  }

  /** Split the leaf at `path` behind position `pos` and insert the entry for the new leaf, whose
      smallest block will be `border`, at level `at`. New nodes are stored in `spare`. */
  method SplitNodes(t: Tree, path: Path, pos: nat, border: nat, at: nat, spare: seq<nat>, R: nat, B: nat,
          ghost pad: seq<nat>)
    returns (t': Tree)
    requires IsPath(t, path) && LowestRoom(t, path, at, R, B) && At(t, path).Leaf? && pos < |At(t, path).exts|
    requires |spare| == |path| - at && |spare + pad| > |path|
    ensures var exts := At(t, path).exts;
            t' == AddSibling(t, path, Leaf(exts[..pos + 1]), Kid(border, spare[0], Leaf(exts[pos + 1..])), R, B, spare + pad).0
  {
    var exts := At(t, path).exts;
    ghost var left, right, all := Leaf(exts[..pos + 1]), Kid(border, spare[0], Leaf(exts[pos + 1..])), spare + pad;
    var l, n, j := Leaf(exts[..pos + 1]), Kid(border, spare[0], Leaf(exts[pos + 1..])), |path|;
    assert path[..j] == path && path[j..] == [];
    AtPrefix(t, path, at + 1);
    while j > at + 1
      invariant at < j <= |path|
      invariant IsPath(t, path[..j]) && IsPath(At(t, path[..j]), path[j..])
      invariant AddSibling(At(t, path[..j]), path[j..], left, right, B, B, all) == (l, Some(n))
      invariant !Empty(l) && n.key == border
    {
      SplitFull(t, path, at, j, left, right, R, B, all);
      var node := At(t, path[..j - 1]);
      var i, k := path[j - 1], node.kids[path[j - 1]];
      n := Kid(border, spare[|path| - j + 1], Index([n] + node.kids[i + 1..]));
      l := Index(node.kids[..i] + [Kid(MinKey(l), k.blk, l)]);
      j := j - 1;
    }
    t' := LinkNodes(t, path, at, l, n, left, right, R, B, all);
  }

  /** What a split of the child does to a node. */
  lemma {:induction false} SplitNode(node: Tree, q: Path, left: Tree, right: Kid, cap: nat, B: nat, spare: seq<nat>)
    requires IsPath(node, q) && q != [] && !Empty(left) && |spare| > |q|
    ensures var i := q[0];
            var r := AddSibling(node.kids[i].sub, q[1..], left, right, B, B, spare);
            var kept := node.kids[..i] + [Kid(MinKey(r.0), node.kids[i].blk, r.0)];
            r.1.Some? ==>
              AddSibling(node, q, left, right, cap, B, spare) ==
              if |node.kids| < cap then (Index(kept + ([r.1.value] + node.kids[i + 1..])), None)
              else (Index(kept), Some(Kid(r.1.value.key, spare[|q|], Index([r.1.value] + node.kids[i + 1..]))))
  {
    var i := q[0];
    var r := AddSibling(node.kids[i].sub, q[1..], left, right, B, B, spare);
    var k := Kid(MinKey(r.0), node.kids[i].blk, r.0);
    assert node.kids[i := k][..i + 1] == node.kids[..i] + [k];
    assert node.kids[i := k][i + 1..] == node.kids[i + 1..];
  }

  /** One level of a split: a full node passes an entry up, a node with room takes it. */
  lemma {:induction false} SplitStep(t: Tree, p: Path, j: nat, left: Tree, right: Kid, cap: nat, B: nat,
          spare: seq<nat>)
    requires IsPath(t, p) && 0 < j <= |p| && !Empty(left) && |spare| > |p|
    ensures IsPath(t, p[..j]) && IsPath(At(t, p[..j]), p[j..])
    ensures IsPath(t, p[..j - 1]) && IsPath(At(t, p[..j - 1]), p[j - 1..])
    ensures At(t, p[..j - 1]).Index? && p[j - 1] < |At(t, p[..j - 1]).kids|
    ensures var node, i := At(t, p[..j - 1]), p[j - 1];
            var r := AddSibling(At(t, p[..j]), p[j..], left, right, B, B, spare);
            var kept := node.kids[..i] + [Kid(MinKey(r.0), node.kids[i].blk, r.0)];
            r.1.Some? ==>
              AddSibling(node, p[j - 1..], left, right, cap, B, spare) ==
              if |node.kids| < cap then (Index(kept + ([r.1.value] + node.kids[i + 1..])), None)
              else (Index(kept), Some(Kid(r.1.value.key, spare[|p| - j + 1], Index([r.1.value] + node.kids[i + 1..]))))
  {
    PutStep(t, p, j, left);
    var q := p[j - 1..];
    assert q[1..] == p[j..] && q[0] == p[j - 1] && |q| == |p| - j + 1;
    SplitNode(At(t, p[..j - 1]), q, left, right, cap, B, spare);
  }

  /** One level of a split below the lowest node with room. */
  lemma {:induction false} SplitFull(t: Tree, p: Path, at: nat, j: nat, left: Tree, right: Kid, R: nat, B: nat,
          spare: seq<nat>)
    requires IsPath(t, p) && LowestRoom(t, p, at, R, B) && at + 1 < j <= |p| && !Empty(left) && |spare| > |p|
    ensures IsPath(t, p[..j]) && IsPath(At(t, p[..j]), p[j..])
    ensures IsPath(t, p[..j - 1]) && IsPath(At(t, p[..j - 1]), p[j - 1..])
    ensures At(t, p[..j - 1]).Index? && p[j - 1] < |At(t, p[..j - 1]).kids|
    ensures var node, i := At(t, p[..j - 1]), p[j - 1];
            var r := AddSibling(At(t, p[..j]), p[j..], left, right, B, B, spare);
            r.1.Some? ==>
              AddSibling(node, p[j - 1..], left, right, B, B, spare) ==
              (Index(node.kids[..i] + [Kid(MinKey(r.0), node.kids[i].blk, r.0)]),
               Some(Kid(r.1.value.key, spare[|p| - j + 1], Index([r.1.value] + node.kids[i + 1..]))))
  {
    SplitStep(t, p, j, left, right, B, B, spare);
    FullBelow(t, p, at, j - 1, R, B);
  }

  lemma {:induction false} FullAt(t: Tree, p: Path, m: nat, cap: nat, B: nat)
    requires IsPath(t, p) && !HasRoom(t, p, cap, B) && m < |p| && IsPath(t, p[..m])
    ensures At(t, p[..m]).Index? && |At(t, p[..m]).kids| >= Cap(m, cap, B)
    decreases m
  {
    if m == 0 {
      assert p[..0] == [];
    } else {
      assert p[..m][1..] == p[1..][..m - 1];
      FullAt(t.kids[p[0]].sub, p[1..], m - 1, B, B);
    }
  }

  lemma {:induction false} FullBelow(t: Tree, p: Path, j: nat, m: nat, R: nat, B: nat)
    requires IsPath(t, p) && LowestRoom(t, p, j, R, B) && j < m < |p| && IsPath(t, p[..m])
    ensures At(t, p[..m]).Index? && |At(t, p[..m]).kids| >= B
  {
    AtPrefix(t, p[..m], j + 1);
    assert p[..m][..j + 1] == p[..j + 1];
    assert p[..m][j + 1..] == p[j + 1..][..m - j - 1];
    FullAt(At(t, p[..j + 1]), p[j + 1..], m - j - 1, B, B);
  }

  // ----- which changes reach the front of a leaf -----

  lemma {:induction false} PlacedFirst(m: seq<Extent>, pos: nat, e: Extent, preIO: bool)
    requires Sorted(m) && Avoids(m, e) && e.Valid() && m != [] && IsNearest(m, pos, e.lblk) && InsertPos(m, pos, e) > 0
    ensures Placed(m, pos, e, preIO)[0].lblk == m[0].lblk
  {
    SortedAt(m, pos);
    assert Disjoint(m[pos], e);
    InsertPosFits(m, pos, e);
    TidiedInsert(m, InsertPos(m, pos, e), e, preIO);
  }

  lemma {:induction false} FoldFirst(m: seq<Extent>, pos: nat, e: Extent, preIO: bool)
    requires Sorted(m) && Avoids(m, e) && e.Valid() && IsNearest(m, pos, e.lblk) && pos > 0 && TryFold(m, pos, e).Some?
    ensures var f := TryFold(m, pos, e).value; Settle(f.0, f.1, preIO)[0].lblk == m[0].lblk
  {
    var f := TryFold(m, pos, e).value;
    var k := FoldIsInsert(m, pos, e);
    FoldTidies(m, k, e, f.0, f.1, preIO);
    SortedPair(m, 0, pos);
    SortedAt(m, 0);
  }

  lemma {:induction false} LeafFacts(t: Tree, d: nat, p: Path, pos: nat, e: Extent, R: nat, B: nat)
    requires InsertStep(t, d, p, pos, e, R, B)
    ensures Sorted(At(t, p).exts) && Avoids(At(t, p).exts, e)
    ensures At(t, p).exts != [] ==> IsNearest(At(t, p).exts, pos, e.lblk)
  {
    var l, m, r := Pre(t, p), At(t, p).exts, Post(t, p);
    FlatAround(t, p);
    SortedMiddle(l, m, r);
    PartAvoids(l, m, r, e);
    if m != [] { LocalNearest(l, m, r, pos, e.lblk); }
  }

  /** An insertion that stores no new node. */
  lemma {:induction false} LedgerInsert(t: Tree, p: Path, s: Tree, e: Extent, bitmap: set<nat>, others: set<nat>)
    requires IsPath(t, p) && At(t, p).Leaf? && s.Leaf? && !Empty(s)
    requires Ledger(t, bitmap, others, [e]) && Gains(Flat(t), e, Flat(Put(t, p, s)))
    ensures Ledger(Put(t, p, s), bitmap, others, [])
  {
    var t' := Put(t, p, s);
    forall b: nat
      ensures Blocks(t', b) + Owns(Flat(t'), b) + Owns([], b) == Blocks(t, b) + Owns(Flat(t), b) + Owns([e], b)
    {
      PutBlocks(t, p, s, b);
      assert Owns([e], b) == (if Holds(e, b) then 1 else 0) + Owns([], b);
    }
    LedgerMove(t, t', bitmap, others, [e], []);
  }

  /** A tree that is merged up gives its only leaf block back. */
  lemma {:induction false} LedgerMergeUp(t: Tree, bitmap: set<nat>, others: set<nat>, loose: seq<Extent>)
    requires t.Index? && |t.kids| == 1 && t.kids[0].sub.Leaf? && Ledger(t, bitmap, others, loose)
    ensures Range(t.kids[0].blk, 1) <= bitmap
    ensures Ledger(t.kids[0].sub, bitmap - Range(t.kids[0].blk, 1), others, loose)
  {
    var k := t.kids[0];
    var e := Meta(k.blk);
    assert t.kids[1..] == [] && ([e] + loose)[1..] == loose;
    assert FlatKids(t.kids) == FlatKid(k) + FlatKids(t.kids[1..]);
    assert Flat(t) == Flat(k.sub);
    forall b: nat
      ensures Blocks(k.sub, b) + Owns(Flat(k.sub), b) + Owns([e] + loose, b) == Blocks(t, b) + Owns(Flat(t), b) + Owns(loose, b)
    {
      assert KidsBlocks(t.kids, b) == KidBlocks(k, b) + KidsBlocks(t.kids[1..], b);
      assert Owns([e] + loose, b) == (if k.blk == b then 1 else 0) + Owns(loose, b);
    }
    LedgerMove(t, k.sub, bitmap, others, loose, [e] + loose);
    LedgerFree(k.sub, bitmap, others, loose, e);
  }

  // ----- making room -----

  /** The key of the leaf that a split adds. */
  function Border(leaf: seq<Extent>, pos: nat, e: Extent): nat
  {
    if pos + 1 < |leaf| then leaf[pos + 1].lblk else e.lblk
  }

  lemma {:induction false} BorderInside(l: seq<Extent>, m: seq<Extent>, r: seq<Extent>, pos: nat, e: Extent)
    requires Sorted(l + (m + r)) && Avoids(m, e) && e.Valid() && |m| >= 2
    requires pos < |m| && IsNearest(l + (m + r), |l| + pos, e.lblk)
    ensures m[0].lblk < Border(m, pos, e) && e.lblk <= Border(m, pos, e)
    ensures l != [] ==> m[0].lblk <= e.lblk
    ensures r != [] ==> Border(m, pos, e) < r[0].lblk && e.lblk < r[0].lblk
  {
    SortedMiddle(l, m, r);
    LocalNearest(l, m, r, pos, e.lblk);
    assert Disjoint(m[pos], e);
    SortedAt(m, pos);
    SortedAt(m, 0);
    if pos > 0 { SortedPair(m, 0, pos); }
    if pos + 1 < |m| {
      SortedPair(m, 0, pos + 1);
      SortedConcat(m[..pos + 1], m[pos + 1..]);
      assert m[..pos + 1] + m[pos + 1..] == m;
      FirstBeforeEnd(m[pos + 1..]);
    }
  }

  /** The search for `e` works on the tree that a split leaves. */
  lemma {:induction false} SplitReady(t: Tree, d: nat, p: Path, pos: nat, e: Extent, spare: seq<nat>, R: nat, B: nat)
    requires InsertStep(t, d, p, pos, e, R, B) && |At(t, p).exts| >= 2 && |spare| > d
    ensures var m := At(t, p).exts;
            && Splittable(t, p, d, Leaf(m[..pos + 1]), Kid(Border(m, pos, e), spare[0], Leaf(m[pos + 1..])), R, B, spare)
            && Leads(t, p, e.lblk)
  {
    var m := At(t, p).exts;
    LeafFacts(t, d, p, pos, e, R, B);
    FlatAround(t, p);
    BorderInside(Pre(t, p), m, Post(t, p), pos, e);
    InvSearchable(t, d, R, B);
    InsideOf(t, p, Border(m, pos, e), d, R, B);
    LeadsOf(t, p, e.lblk, d, R, B);
    SortedConcat(m[..pos + 1], m[pos + 1..]);
    assert m[..pos + 1] + m[pos + 1..] == m;
    assert !Empty(t) by { if Empty(t) { AtShape(t, p, d, R, B); } }
  }

  /** The tree between the split and the insertion. */
  function Halved(t: Tree, p: Path, pos: nat, e: Extent, spare: seq<nat>, R: nat, B: nat): Tree
    requires IsPath(t, p) && At(t, p).Leaf? && pos < |At(t, p).exts| && |spare| > |p|
  {
    var m := At(t, p).exts;
    AddSibling(t, p, Leaf(m[..pos + 1]), Kid(Border(m, pos, e), spare[0], Leaf(m[pos + 1..])), R, B, spare).0
  }

  ghost predicate SplitReadyFor(t: Tree, d: nat, p: Path, pos: nat, e: Extent, spare: seq<nat>, R: nat, B: nat)
  {
    InsertStep(t, d, p, pos, e, R, B) && |At(t, p).exts| >= 2 && |spare| > d && HasRoom(t, p, R, B)
  }

  lemma {:induction false} HalvedLeft(t: Tree, d: nat, p: Path, pos: nat, e: Extent, preIO: bool, spare: seq<nat>,
          R: nat, B: nat)
    requires SplitReadyFor(t, d, p, pos, e, spare, R, B) && pos + 1 < |At(t, p).exts|
    ensures var m, t1 := At(t, p).exts, Halved(t, p, pos, e, spare, R, B);
            && Searchable(t1, d) && FindPath(t1, e.lblk, d) == p && IsPath(t1, p)
            && At(t1, p) == Leaf(m[..pos + 1]) && Nearest(m[..pos + 1], e.lblk) == pos
            && Put(t1, p, Leaf(Placed(m[..pos + 1], pos, e, preIO))) == SplitTree(t, p, pos, e, preIO, spare, R, B)
  {
    var m := At(t, p).exts;
    var left, right := Leaf(m[..pos + 1]), Kid(Border(m, pos, e), spare[0], Leaf(m[pos + 1..]));
    SplitReady(t, d, p, pos, e, spare, R, B);
    SplitSearchable(t, p, d, left, right, R, B, spare);
    LeafFacts(t, d, p, pos, e, R, B);
    FindLeft(t, p, d, left, right, R, B, spare, e.lblk);
    PutLeft(t, p, left, Leaf(Placed(m[..pos + 1], pos, e, preIO)), right, R, B, spare);
    FrontNearest(m, pos, e.lblk);
  }

  lemma {:induction false} FrontNearest(m: seq<Extent>, pos: nat, b: nat)
    requires Sorted(m) && IsNearest(m, pos, b)
    ensures Nearest(m[..pos + 1], b) == pos
  {
  }

  lemma {:induction false} HalvedRight(t: Tree, d: nat, p: Path, pos: nat, e: Extent, preIO: bool, spare: seq<nat>,
          R: nat, B: nat)
    requires SplitReadyFor(t, d, p, pos, e, spare, R, B) && pos + 1 == |At(t, p).exts|
    ensures var t1, q := Halved(t, p, pos, e, spare, R, B), SibPath(t, p, R, B);
            && Searchable(t1, d) && FindPath(t1, e.lblk, d) == q && IsPath(t1, q) && At(t1, q) == Leaf([])
            && Put(t1, q, Leaf([e])) == SplitTree(t, p, pos, e, preIO, spare, R, B)
  {
    var m := At(t, p).exts;
    assert m[..pos + 1] == m && m[pos + 1..] == [];
    SplitReady(t, d, p, pos, e, spare, R, B);
    SplitSearchable(t, p, d, Leaf(m), Kid(e.lblk, spare[0], Leaf([])), R, B, spare);
    FindRight(t, p, d, Leaf(m), Kid(e.lblk, spare[0], Leaf([])), R, B, spare);
    PutRight(t, p, Leaf(m), Kid(e.lblk, spare[0], Leaf([])), Leaf([e]), R, B, spare);
  }

  function Metas(spare: seq<nat>): (s: seq<Extent>)
  {
    if spare == [] then [] else Metas(spare[..|spare| - 1]) + [Meta(spare[|spare| - 1])]
  }

  lemma {:induction false} MetasOwn(spare: seq<nat>, b: nat)
    ensures Owns(Metas(spare), b) == Occurs(spare, |spare|, b)
  {
    if spare != [] {
      var front := spare[..|spare| - 1];
      MetasOwn(front, b);
      OwnsConcat(Metas(front), [Meta(spare[|spare| - 1])], b);
      OccursPrefix(spare, front, |front|, b);
    }
  }

  lemma {:induction false} OccursPrefix(a: seq<nat>, c: seq<nat>, n: nat, b: nat)
    requires n <= |a| && n <= |c| && a[..n] == c[..n]
    ensures Occurs(a, n, b) == Occurs(c, n, b)
  {
    if n > 0 {
      assert a[..n - 1] == a[..n][..n - 1] && c[..n - 1] == c[..n][..n - 1];
      assert a[n - 1] == a[..n][n - 1] && c[n - 1] == c[..n][n - 1];
      OccursPrefix(a, c, n - 1, b);
    }
  }

  lemma {:induction false} LedgerMetas(t: Tree, bitmap: set<nat>, others: set<nat>, spare: seq<nat>, b0: nat, e: Extent)
    requires Ledger(t, bitmap, others, [Meta(b0)] + (Metas(spare) + [e]))
    ensures Ledger(t, bitmap, others, Metas(spare + [b0]) + [e])
  {
    var x, y := [Meta(b0)] + (Metas(spare) + [e]), Metas(spare + [b0]) + [e];
    assert (spare + [b0])[..|spare|] == spare;
    assert Metas(spare + [b0]) == Metas(spare) + [Meta(b0)];
    forall b: nat
      ensures Blocks(t, b) + Owns(Flat(t), b) + Owns(y, b) == Blocks(t, b) + Owns(Flat(t), b) + Owns(x, b)
    {
      OwnsConcat([Meta(b0)], Metas(spare) + [e], b);
      OwnsConcat(Metas(spare), [e], b);
      OwnsConcat(Metas(spare) + [Meta(b0)], [e], b);
      OwnsConcat(Metas(spare), [Meta(b0)], b);
    }
    LedgerMove(t, t, bitmap, others, x, y);
  }

  lemma {:induction false} LedgerSplit(t: Tree, p: Path, pos: nat, e: Extent, preIO: bool, spare: seq<nat>,
          pad: seq<nat>, R: nat, B: nat, bitmap: set<nat>, others: set<nat>)
    requires IsPath(t, p) && At(t, p).Leaf? && pos < |At(t, p).exts| && |spare + pad| > |p|
    requires HasRoom(t, p, R, B) && |spare| == SplitLevels(t, p, R, B) + 1
    requires Ledger(t, bitmap, others, Metas(spare) + [e])
    requires Gains(Flat(t), e, Flat(SplitTree(t, p, pos, e, preIO, spare + pad, R, B)))
    ensures Ledger(SplitTree(t, p, pos, e, preIO, spare + pad, R, B), bitmap, others, [])
  {
    var t' := SplitTree(t, p, pos, e, preIO, spare + pad, R, B);
    forall b: nat
      ensures Blocks(t', b) + Owns(Flat(t'), b) + Owns([], b) ==
              Blocks(t, b) + Owns(Flat(t), b) + Owns(Metas(spare) + [e], b)
    {
      var s := SplitLeaf(At(t, p).exts, pos, e, preIO);
      var right := Kid(s.1[0].lblk, (spare + pad)[0], Leaf(s.1));
      AddSiblingBlocks(t, p, Leaf(s.0), right, R, B, spare + pad, b);
      RoomIsNone(t, p, Leaf(s.0), right, R, B, spare + pad);
      OccursPrefix(spare + pad, spare, |spare|, b);
      MetasOwn(spare, b);
      OwnsConcat(Metas(spare), [e], b);
      assert Owns([e], b) == (if Holds(e, b) then 1 else 0) + Owns([], b);
    }
    LedgerMove(t, t', bitmap, others, Metas(spare) + [e], []);
  }

  lemma {:induction false} LedgerGrow(t: Tree, d: nat, home: nat, e: Extent, R: nat, B: nat, bitmap: set<nat>,
          others: set<nat>)
    requires Shape(t, d, R, B) && !Empty(t) && 1 <= R <= B && Ledger(t, bitmap, others, [Meta(home)] + [e])
    ensures Ledger(Grow(t, home), bitmap, others, [e])
  {
    var t' := Grow(t, home);
    forall b: nat
      ensures Blocks(t', b) + Owns(Flat(t'), b) + Owns([e], b) ==
              Blocks(t, b) + Owns(Flat(t), b) + Owns([Meta(home)] + [e], b)
    {
      GrowKeeps(t, home, d, R, B, b);
      OwnsConcat([Meta(home)], [e], b);
      assert Owns([Meta(home)], b) == (if home == b then 1 else 0) + Owns([], b);
    }
    LedgerMove(t, t', bitmap, others, [Meta(home)] + [e], [e]);
  }

  lemma {:induction false} NextPlace(t: Tree, d: nat, p: Path, pos: nat, q: Path, e: Extent, R: nat, B: nat)
    requires InsertStep(t, d, p, pos, e, R, B) && AtEnd(t, p, e) && NextLeaf(t, p, d) == Some(q)
    requires IsPath(t, q) && At(t, q).Leaf? && At(t, q).exts != []
    ensures InsertPos(At(t, q).exts, 0, e) == 0
  {
    NextLeafFollows(t, p, d, R, B);
    NextFront(t, p, pos, e);
    FlatAround(t, q);
  }

  lemma {:induction false} HalvedShape(t: Tree, d: nat, p: Path, pos: nat, e: Extent, spare: seq<nat>, R: nat, B: nat)
    requires SplitReadyFor(t, d, p, pos, e, spare, R, B) && pos + 1 < |At(t, p).exts| <= B
    ensures Shape(Halved(t, p, pos, e, spare, R, B), d, R, B)
  {
    var m := At(t, p).exts;
    AddSiblingShape(t, p, Leaf(m[..pos + 1]), Kid(Border(m, pos, e), spare[0], Leaf(m[pos + 1..])), d, R, B, spare);
  }

  lemma {:induction false} FrontFirst(m: seq<Extent>, pos: nat, e: Extent, preIO: bool)
    requires Sorted(m) && Avoids(m, e) && e.Valid() && IsNearest(m, pos, e.lblk)
    requires InsertPos(m[..pos + 1], pos, e) > 0
    ensures Placed(m[..pos + 1], pos, e, preIO)[0].lblk == m[0].lblk
  {
    var a := m[..pos + 1];
    assert a + m[pos + 1..] == m;
    SortedConcat(a, m[pos + 1..]);
    assert Avoids(a, e) by {
      forall i | 0 <= i < |a| ensures Disjoint(a[i], e) { assert Disjoint(m[i], e); }
    }
    PlacedFirst(a, pos, e, preIO);
  }

  lemma {:induction false} HalvedNoPairs(t: Tree, p: Path, pos: nat, e: Extent, spare: seq<nat>, R: nat, B: nat)
    requires IsPath(t, p) && At(t, p).Leaf? && pos < |At(t, p).exts| && |spare| > |p| && NoPairs(t)
    ensures NoPairs(Halved(t, p, pos, e, spare, R, B))
  {
    var m := At(t, p).exts;
    AtNoPairs(t, p);
    PartsNoPair(m, pos + 1);
    AddSiblingNoPairs(t, p, Leaf(m[..pos + 1]), Kid(Border(m, pos, e), spare[0], Leaf(m[pos + 1..])), R, B, spare);
  }

  /** The new extent is merged in the leaf of the split tree that the search finds. */
  lemma {:induction false} SplitMerged(t: Tree, p: Path, pos: nat, e: Extent, spare: seq<nat>, R: nat, B: nat, q: Path,
          near: seq<Extent>, k: nat)
    requires IsPath(t, p) && At(t, p).Leaf? && pos < |At(t, p).exts| && |spare| > |p| && e.len >= 1
    requires var half := Halved(t, p, pos, e, spare, R, B);
             IsPath(half, q) && At(half, q) == Leaf(near) && k <= |near|
    ensures Merged(Put(Halved(t, p, pos, e, spare, R, B), q, Leaf(TryToMerge(InsertAt(near, k, e), k))), e.lblk, NoPairs(t))
  {
    var half := Halved(t, p, pos, e, spare, R, B);
    if NoPairs(t) {
      HalvedNoPairs(t, p, pos, e, spare, R, B);
      AtNoPairs(half, q);
    }
    InsertedMerged(half, q, near, k, e, NoPairs(t));
  }

  lemma {:induction false} SplitTreeMerged(t: Tree, d: nat, p: Path, pos: nat, e: Extent, spare: seq<nat>, R: nat,
          B: nat)
    requires SplitReadyFor(t, d, p, pos, e, spare, R, B)
    ensures Merged(MergeUp(SplitTree(t, p, pos, e, false, spare, R, B), d, false, R).0, e.lblk, NoPairs(t))
  {
    var m := At(t, p).exts;
    LeafFacts(t, d, p, pos, e, R, B);
    if pos + 1 < |m| {
      var near := m[..pos + 1];
      HalvedLeft(t, d, p, pos, e, false, spare, R, B);
      SplitMerged(t, p, pos, e, spare, R, B, p, near, InsertPos(near, pos, e));
    } else {
      HalvedRight(t, d, p, pos, e, false, spare, R, B);
      SplitMerged(t, p, pos, e, spare, R, B, SibPath(t, p, R, B), [], 0);
      assert InsertAt([], 0, e) == [e];
    }
    MergeUpMerged(SplitTree(t, p, pos, e, false, spare, R, B), d, false, R, e.lblk, NoPairs(t));
  }

  /** Split the full leaf at `path`, search for `e` again and put it into the leaf found. */
  method SplitTreeFor(t: Tree, d: nat, path: Path, pos: nat, e: Extent, preIO: bool, at: nat, spare: seq<nat>, R: nat,
          B: nat, ghost pad: seq<nat>)
    returns (t': Tree, q: Path)
    requires SplitReadyFor(t, d, path, pos, e, spare + pad, R, B) && |At(t, path).exts| <= B
    requires LowestRoom(t, path, at, R, B) && |spare| == d - at
    ensures t' == SplitTree(t, path, pos, e, preIO, spare + pad, R, B)
    ensures |q| == d && (preIO ==> HoldsAt(t', q, e))
  {
    var leaf := At(t, path).exts;
    var border := if pos + 1 < |leaf| then leaf[pos + 1].lblk else e.lblk;
    var half := SplitNodes(t, path, pos, border, at, spare, R, B, pad);
    assert half == Halved(t, path, pos, e, spare + pad, R, B);
    if pos + 1 < |leaf| {
      HalvedLeft(t, d, path, pos, e, preIO, spare + pad, R, B);
    } else {
      HalvedRight(t, d, path, pos, e, preIO, spare + pad, R, B);
    }
    var qpos;
    q, qpos := FindExtent(half, d, e.lblk);
    if qpos == -1 {
      // the entry for the new leaf already carries its key
      t' := Put(half, q, Leaf([e]));
      PutAt(half, q, Leaf([e]));
    } else {
      HalvedShape(t, d, path, pos, e, spare + pad, R, B);
      LeafFacts(t, d, path, pos, e, R, B);
      var near := At(half, q).exts;
      var k := if e.lblk > near[qpos].lblk then qpos + 1 else qpos;
      if k > 0 { FrontFirst(leaf, pos, e, preIO); }
      var exts := MergeInLeaf(near[..k] + ([e] + near[k..]), k, preIO);
      t' := StoreLeaf(half, q, exts, k == 0, d, R, B);
      PutAt(half, q, Leaf(exts));
    }
  }

  ghost predicate HoldsAt(t: Tree, p: Path, e: Extent)
  {
    IsPath(t, p) && At(t, p).Leaf? && e in At(t, p).exts
  }

  lemma {:induction false} HeldIsIn(t: Tree, p: Path, e: Extent)
    requires HoldsAt(t, p, e)
    ensures e in Flat(t)
  {
    FlatAround(t, p);
  }

  lemma {:induction false} HeldDivides(t: Tree, p: Path, e: Extent)
    requires HoldsAt(t, p, e) && Sorted(Flat(t)) && e.lblk > 0
    ensures CutsAt(t, p, e.lblk - 1)
  {
    var i :| 0 <= i < |At(t, p).exts| && At(t, p).exts[i] == e;
    HoldsDivides(t, p, i, e.lblk - 1);
  }

  /** What follows a leaf, after its next leaf was replaced. */
  lemma {:induction false} PostOfNext(t: Tree, d: nat, p: Path, q: Path, m: seq<Extent>, R: nat, B: nat)
    requires Shape(t, d, R, B) && IsPath(t, p) && |p| == d && IsPath(t, q) && NextLeaf(t, p, d) == Some(q) && m != []
    ensures var t' := Put(t, q, Leaf(m));
            IsPath(t', p) && At(t', p) == At(t, p) && Post(t', p) == m + Post(t, q)
  {
    var t' := Put(t, q, Leaf(m));
    NextLeafIsRight(t, p, d);
    PutKeepsLeft(t, p, q, Leaf(m));
    NextLeafFollows(t, p, d, R, B);
    PutFlat(t, q, Leaf(m));
    FlatAround(t', p);
    SameTail(Pre(t, p), Flat(At(t, p)), Post(t', p), m + Post(t, q));
  }

  lemma {:induction false} SameTail(a: seq<Extent>, b: seq<Extent>, c: seq<Extent>, d: seq<Extent>)
    requires a + (b + c) == (a + b) + d
    ensures c == d
  {
    assert c == (a + (b + c))[|a| + |b|..];
    assert d == ((a + b) + d)[|a| + |b|..];
  }

  /** A leaf right in front of an extent that starts at `end` + 1. */
  lemma {:induction false} FrontDivides(t: Tree, p: Path, end: nat)
    requires IsPath(t, p) && At(t, p).Leaf? && At(t, p).exts != [] && Sorted(Flat(t)) && Post(t, p) != []
             && Post(t, p)[0].lblk == end + 1
    ensures CutsAt(t, p, end)
  {
    FlatAround(t, p);
    var a, b, c := Pre(t, p), At(t, p).exts, Post(t, p);
    var s := a + (b + c);
    assert s[|a| + |b|] == c[0];
    StartIsClean(s, |a| + |b|, end);
    assert s[|a| + (|b| - 1)] == b[|b| - 1];
    SortedPair(s, |a| + (|b| - 1), |a| + |b|);
    SidesOf(a, b, c, |b| - 1, end);
  }

  /** The leaf in front of a next leaf that begins with `e`. */
  lemma {:induction false} NextDivides(t: Tree, d: nat, p: Path, pos: nat, q: Path, e: Extent, m: seq<Extent>, R: nat,
          B: nat)
    requires InsertStep(t, d, p, pos, e, R, B) && AtEnd(t, p, e) && NextLeaf(t, p, d) == Some(q) && e.lblk > 0
    requires IsPath(t, q) && m != [] && m[0].lblk == e.lblk && Sorted(Flat(Put(t, q, Leaf(m))))
    ensures CutsAt(Put(t, q, Leaf(m)), p, e.lblk - 1)
  {
    PostOfNext(t, d, p, q, m, R, B);
    FrontDivides(Put(t, q, Leaf(m)), p, e.lblk - 1);
  }

  /** After the tree has grown, the search for `e` takes the old path below the new root. */
  lemma {:induction false} GrowFind(t: Tree, d: nat, p: Path, pos: nat, e: Extent, home: nat, R: nat, B: nat)
    requires InsertStep(t, d, p, pos, e, R, B) && |At(t, p).exts| >= 2
    ensures !Empty(t) && FindPath(Grow(t, home), e.lblk, d + 1) == [0] + p
    ensures Nearest(At(t, p).exts, e.lblk) == pos
  {
    var m := At(t, p).exts;
    SplitReady(t, d, p, pos, e, seq(d + 1, _ => 0), R, B);
    LeadsIsFind(t, p, e.lblk, d);
    LeafFacts(t, d, p, pos, e, R, B);
    NearestIs(m, e.lblk);
    var j := Nearest(m, e.lblk);
    if pos < j { NearestUnique(m, pos, j, e.lblk); } else if j < pos { NearestUnique(m, j, pos, e.lblk); }
  }

  lemma {:induction false} NextNonEmpty(t: Tree, d: nat, p: Path, q: Path, R: nat, B: nat)
    requires Inv(t, d, R, B) && IsPath(t, p) && |p| == d && d > 0 && IsPath(t, q) && |q| == d
    ensures At(t, q).Leaf? && At(t, q).exts != []
  {
    AtShape(t, q, d, R, B);
  }

  /** The leaf behind the one at p, if it has space. */
  method NextWithSpace(t: Tree, d: nat, p: Path, R: nat, B: nat) returns (next: Option<Path>)
    requires Inv(t, d, R, B) && IsPath(t, p) && |p| == d
    ensures if NextHasRoom(t, p, d, B) then next == NextLeaf(t, p, d) else next.None?
  {
    next := None;
    var key := NextLeafBlock(t, p);
    FindNextLeaf(t, p, d, R, B);
    if key.Some? {
      InvSearchable(t, d, R, B);
      var q, pos := FindExtent(t, d, key.value);
      if |At(t, q).exts| < B {
        NextNonEmpty(t, d, p, q, R, B);
        next := Some(q);
      }
    }
  }

  /** What putting `e` in front of the next leaf leaves. */
  lemma {:induction false} NextRoute(t: Tree, d: nat, p: Path, pos: nat, q: Path, e: Extent, preIO: bool, R: nat,
          B: nat, bitmap: set<nat>, others: set<nat>)
    requires InsertStep(t, d, p, pos, e, R, B) && AtEnd(t, p, e) && NextHasRoom(t, p, d, B)
    requires NextLeaf(t, p, d) == Some(q) && Ledger(t, bitmap, others, [e])
    ensures var t' := Put(t, q, Leaf(Settle([e] + At(t, q).exts, 0, preIO)));
            && Inv(t', d, R, B) && Gains(Flat(t), e, Flat(t')) && Ledger(t', bitmap, others, [])
            && (preIO ==> e in Flat(t')) && (preIO && e.lblk > 0 ==> CutsAt(t', p, e.lblk - 1))
  {
    NextGains(t, d, p, pos, e, preIO, R, B);
    NextPlace(t, d, p, pos, q, e, R, B);
    var leaf := At(t, q).exts;
    assert InsertAt(leaf, 0, e) == [e] + leaf;
    var exts := Settle([e] + leaf, 0, preIO);
    LedgerInsert(t, q, Leaf(exts), e, bitmap, others);
    if preIO {
      PutAt(t, q, Leaf(exts));
      HeldIsIn(Put(t, q, Leaf(exts)), q, e);
      if e.lblk > 0 { NextDivides(t, d, p, pos, q, e, exts, R, B); }
    }
  }

  // ----- merging in the routes of an insertion -----

  /** A leaf takes up `e` into an extent next to position `pos`. */
  predicate Absorbs(leaf: Tree, pos: nat, e: Extent)
  {
    && leaf.Leaf? && pos < |leaf.exts|
    && if pos + 1 < |leaf.exts| && leaf.exts[pos].End() < e.lblk then CanMerge(e, leaf.exts[pos + 1])
       else CanMerge(leaf.exts[pos], e) || CanMerge(e, leaf.exts[pos])
  }

  /** The leaf at p has space for `e`, or `e` belongs behind it and the next leaf has space. */
  predicate HasSpace(t: Tree, d: nat, p: Path, e: Extent, R: nat, B: nat)
    requires IsPath(t, p) && |p| <= d && At(t, p).Leaf?
  {
    |At(t, p).exts| < Cap(d, R, B) || (AtEnd(t, p, e) && NextHasRoom(t, p, d, B))
  }

  lemma {:induction false} AbsorbsIs(t: Tree, d: nat, p: Path, pos: nat, e: Extent, R: nat, B: nat)
    requires InsertStep(t, d, p, pos, e, R, B) && At(t, p).exts != []
    ensures pos < |At(t, p).exts| && (TryFold(At(t, p).exts, pos, e).Some? <==> Absorbs(At(t, p), pos, e))
  {
    LeafFacts(t, d, p, pos, e, R, B);
    FoldExact(At(t, p).exts, pos, e);
  }

  lemma {:induction false} FoldedDone(t: Tree, d: nat, p: Path, pos: nat, e: Extent, R: nat)
    requires IsPath(t, p) && At(t, p).Leaf? && pos < |At(t, p).exts| && e.len >= 1
    requires TryFold(At(t, p).exts, pos, e).Some?
    ensures var f := TryFold(At(t, p).exts, pos, e).value;
            Merged(MergeUp(Put(t, p, Leaf(Settle(f.0, f.1, false))), d, false, R).0, e.lblk, NoPairs(t))
  {
    var f := TryFold(At(t, p).exts, pos, e).value;
    if NoPairs(t) { AtNoPairs(t, p); }
    FoldedMerged(t, p, At(t, p).exts, pos, e, NoPairs(t));
    MergeUpMerged(Put(t, p, Leaf(Settle(f.0, f.1, false))), d, false, R, e.lblk, NoPairs(t));
  }

  lemma {:induction false} InsertedDone(t: Tree, d: nat, p: Path, s: seq<Extent>, k: nat, e: Extent, R: nat)
    requires IsPath(t, p) && At(t, p) == Leaf(s) && k <= |s| && e.len >= 1
    ensures Merged(MergeUp(Put(t, p, Leaf(Settle(s[..k] + ([e] + s[k..]), k, false))), d, false, R).0, e.lblk, NoPairs(t))
  {
    if NoPairs(t) { AtNoPairs(t, p); }
    InsertedMerged(t, p, s, k, e, NoPairs(t));
    MergeUpMerged(Put(t, p, Leaf(Settle(InsertAt(s, k, e), k, false))), d, false, R, e.lblk, NoPairs(t));
  }

  /** What putting `e` into a leaf with space leaves. */
  lemma {:induction false} LeafRoute(t: Tree, d: nat, p: Path, pos: nat, e: Extent, preIO: bool, R: nat, B: nat,
          bitmap: set<nat>, others: set<nat>)
    requires InsertStep(t, d, p, pos, e, R, B) && |At(t, p).exts| < Cap(d, R, B) && Ledger(t, bitmap, others, [e])
    ensures At(t, p).exts != [] ==> pos < |At(t, p).exts|
    ensures var m := At(t, p).exts;
            var k, exts := InsertPos(m, pos, e), Placed(m, pos, e, preIO);
            var t' := Put(t, p, Leaf(exts));
            && (k > 0 ==> m != [] && exts[0].lblk == m[0].lblk)
            && Inv(t', d, R, B) && Gains(Flat(t), e, Flat(t')) && Ledger(t', bitmap, others, [])
            && (preIO ==> e in Flat(t')) && (preIO && e.lblk > 0 ==> CutsAt(t', p, e.lblk - 1))
            && (!preIO ==> Merged(MergeUp(t', d, false, R).0, e.lblk, NoPairs(t)))
  {
    var m := At(t, p).exts;
    LeafFacts(t, d, p, pos, e, R, B);
    var k, exts := InsertPos(m, pos, e), Placed(m, pos, e, preIO);
    SpaceRoute(t, d, p, pos, e, preIO, R, B);
    if k > 0 { PlacedFirst(m, pos, e, preIO); }
    LedgerInsert(t, p, Leaf(exts), e, bitmap, others);
    if preIO {
      PutAt(t, p, Leaf(exts));
      assert exts[k] == e;
      HeldIsIn(Put(t, p, Leaf(exts)), p, e);
      if e.lblk > 0 { HeldDivides(Put(t, p, Leaf(exts)), p, e); }
    } else {
      InsertedDone(t, d, p, m, k, e, R);
    }
  }

  lemma {:induction false} FirstDone(t: Tree, d: nat, p: Path, s: seq<Extent>, e: Extent, R: nat)
    requires IsPath(t, p) && At(t, p) == Leaf(s) && e.len >= 1
    ensures Merged(MergeUp(Put(t, p, Leaf(Settle([e] + s, 0, false))), d, false, R).0, e.lblk, NoPairs(t))
  {
    InsertedDone(t, d, p, s, 0, e, R);
    assert s[..0] + ([e] + s[0..]) == [e] + s;
  }

  // ----- the file -----

  class File {
    const R: nat                      // entries that fit into the inode
    const B: nat                      // entries that fit into a block
    const alloc: Allocator
    ghost const others: set<nat>      // blocks that belong to someone else
    var tree: Tree
    var depth: nat
    var bitmap: set<nat>
    var used: nat

    ghost predicate Valid(loose: seq<Extent>)
      reads this
    {
      && 2 <= R < B && GoodAllocator(alloc, R)
      && Inv(tree, depth, R, B)
      && Ledger(tree, bitmap, others, loose) && OwnAbove(bitmap, others, R) && used == |bitmap|
    }

    constructor (R: nat, B: nat, alloc: Allocator, others: set<nat>)
      requires 2 <= R < B && GoodAllocator(alloc, R)
      ensures Valid([]) && Flat(tree) == [] && bitmap == others
      ensures this.R == R && this.B == B && this.others == others
    {
      this.R, this.B, this.alloc, this.others := R, B, alloc, others;
      tree, depth, bitmap, used := Leaf([]), 0, others, |others|;
    }

    /** Mark a run of free blocks as used. */
    method NewBlocks(count: nat) returns (p: nat, n: nat)
      requires count >= 1 && GoodAllocator(alloc, R) && used == |bitmap| && OwnAbove(bitmap, others, R)
      modifies this`bitmap, this`used
      ensures OwnAbove(bitmap, others, R)
      ensures 1 <= n <= count && p > R && (p, n) == alloc(old(bitmap), count)
      ensures Range(p, n) !! old(bitmap) && bitmap == old(bitmap) + Range(p, n) && used == |bitmap|
    {
      var run := alloc(bitmap, count);
      p, n := run.0, run.1;
      bitmap := bitmap + Range(p, n);
      used := used + n;
    }

    method FreeBlocks(p: nat, n: nat)
      requires Range(p, n) <= bitmap && used == |bitmap| && OwnAbove(bitmap, others, R)
      modifies this`bitmap, this`used
      ensures bitmap == old(bitmap) - Range(p, n) && used == |bitmap| && OwnAbove(bitmap, others, R)
    {
      assert |bitmap| == |bitmap - Range(p, n)| + |Range(p, n)| by {
        assert bitmap == (bitmap - Range(p, n)) + Range(p, n);
      }
      bitmap := bitmap - Range(p, n);
      used := used - n;
    }

    /** Move a single leaf that fits into the inode back into it. */
    method TryToMergeUp(preIO: bool, ghost loose: seq<Extent>)
      requires Valid(loose)
      modifies this
      ensures Valid(loose) && Flat(tree) == old(Flat(tree))
      ensures (tree, depth) == old(MergeUp(tree, depth, preIO, R))
      ensures (!preIO ==> Compact(tree, depth, R)) && bitmap <= old(bitmap) && depth <= old(depth)
    {
      MergeUpKeeps(tree, depth, preIO, R, B);
      if !preIO && depth == 1 && |tree.kids| == 1 && |tree.kids[0].sub.exts| <= R {
        LedgerMergeUp(tree, bitmap, others, loose);
        var blk := tree.kids[0].blk;
        tree, depth := tree.kids[0].sub, 0;
        FreeBlocks(blk, 1);
      }
    }

    /** Absorb `e` into an extent next to position `pos` of the leaf at `path`, if one fits. */
    method TryAbsorb(path: Path, pos: nat, e: Extent) returns (done: bool)
      requires Valid([e]) && InsertStep(tree, depth, path, pos, e, R, B)
      modifies this
      ensures done ==> Valid([]) && Gains(old(Flat(tree)), e, Flat(tree))
      ensures done <==> Absorbs(old(At(tree, path)), pos, e)
      ensures done ==> Finished(tree, depth, R, e.lblk, old(NoPairs(tree))) && bitmap <= old(bitmap) && depth <= old(depth)
      ensures !done ==> unchanged(this)
    {
      var leaf := At(tree, path).exts;
      if leaf == [] {
        return false;
      }
      var f := TryFold(leaf, pos, e);
      AbsorbsIs(tree, depth, path, pos, e, R, B);
      if f.None? {
        return false;
      }
      FoldedDone(tree, depth, path, pos, e, R);
      FoldRoute(tree, depth, path, pos, e, false, R, B);
      LeafFacts(tree, depth, path, pos, e, R, B);
      if pos > 0 { FoldFirst(leaf, pos, e, false); }
      var exts := MergeInLeaf(f.value.0, f.value.1, false);
      LedgerInsert(tree, path, Leaf(exts), e, bitmap, others);
      tree := StoreLeaf(tree, path, exts, pos == 0, depth, R, B);
      TryToMergeUp(false, []);
      return true;
    }

    /** Put `e` next to position `pos` of the leaf at `path`, which has space. */
    method InsertInLeaf(path: Path, pos: nat, e: Extent, preIO: bool) returns (q: Path)
      requires Valid([e]) && InsertStep(tree, depth, path, pos, e, R, B)
      requires |At(tree, path).exts| < Cap(depth, R, B)
      modifies this
      ensures Valid([]) && Gains(old(Flat(tree)), e, Flat(tree))
      ensures if preIO then e in Flat(tree) else Finished(tree, depth, R, e.lblk, old(NoPairs(tree)))
      ensures bitmap <= old(bitmap) && depth <= old(depth)
      ensures preIO && e.lblk > 0 ==> CutsAt(tree, q, e.lblk - 1) && |q| == depth
    {
      var leaf := At(tree, path).exts;
      var k := if leaf == [] then 0 else if e.lblk > leaf[pos].lblk then pos + 1 else pos;
      LeafRoute(tree, depth, path, pos, e, preIO, R, B, bitmap, others);
      var exts := MergeInLeaf(leaf[..k] + ([e] + leaf[k..]), k, preIO);
      tree := StoreLeaf(tree, path, exts, k == 0, depth, R, B);
      q := path;
      TryToMergeUp(preIO, []);
    }

    /** Put `e` in front of the next leaf, which has space. */
    method InsertInNext(path: Path, pos: nat, next: Path, e: Extent, preIO: bool) returns (q: Path)
      requires Valid([e]) && InsertStep(tree, depth, path, pos, e, R, B)
      requires AtEnd(tree, path, e) && NextHasRoom(tree, path, depth, B)
      requires NextLeaf(tree, path, depth) == Some(next)
      modifies this
      ensures Valid([]) && Gains(old(Flat(tree)), e, Flat(tree))
      ensures if preIO then e in Flat(tree) else Finished(tree, depth, R, e.lblk, old(NoPairs(tree)))
      ensures bitmap <= old(bitmap) && depth <= old(depth)
      ensures preIO && e.lblk > 0 ==> CutsAt(tree, q, e.lblk - 1) && |q| == depth
    {
      NextRoute(tree, depth, path, pos, next, e, preIO, R, B, bitmap, others);
      var exts := MergeInLeaf([e] + At(tree, next).exts, 0, preIO);
      if !preIO { FirstDone(tree, depth, next, At(tree, next).exts, e, R); }
      tree := StoreLeaf(tree, next, exts, true, depth, R, B);
      q := path;
      TryToMergeUp(preIO, []);
    }

    /** Allocate the blocks of a split. */
    method NewMetas(count: nat, ghost e: Extent) returns (spare: seq<nat>)
      requires Valid([e])
      modifies this`bitmap, this`used
      ensures |spare| == count && used == |bitmap| && Ledger(tree, bitmap, others, Metas(spare) + [e])
      ensures OwnAbove(bitmap, others, R)
    {
      spare := [];
      assert Metas([]) + [e] == [e];
      while |spare| < count
        invariant |spare| <= count && used == |bitmap| && OwnAbove(bitmap, others, R)
        invariant Ledger(tree, bitmap, others, Metas(spare) + [e])
      {
        ghost var before := bitmap;
        var b, n := NewBlocks(1);
        LedgerAlloc(tree, before, others, Metas(spare) + [e], b, n, Meta(b));
        LedgerMetas(tree, bitmap, others, spare, b, e);
        spare := spare + [b];
      }
    }

    /** Split the full leaf at `path` below level `at`, search for `e` again and insert it. */
    method SplitAndInsert(path: Path, pos: nat, e: Extent, preIO: bool, at: nat) returns (q: Path)
      requires Valid([e]) && InsertStep(tree, depth, path, pos, e, R, B)
      requires |At(tree, path).exts| >= B && LowestRoom(tree, path, at, R, B)
      modifies this
      ensures Valid([]) && Gains(old(Flat(tree)), e, Flat(tree))
      ensures if preIO then e in Flat(tree) else Finished(tree, depth, R, e.lblk, old(NoPairs(tree)))
      ensures depth <= old(depth)
      ensures preIO && e.lblk > 0 ==> CutsAt(tree, q, e.lblk - 1) && |q| == depth
    {
      LowestRoomLevels(tree, path, at, R, B);
      AtShape(tree, path, depth, R, B);
      var spare := NewMetas(depth - at, e);
      ghost var pad := seq(depth + 1, _ => 0);
      ghost var all := spare + pad;
      SplitTreeGains(tree, depth, path, pos, e, preIO, all, R, B);
      LedgerSplit(tree, path, pos, e, preIO, spare, pad, R, B, bitmap, others);
      if !preIO { SplitTreeMerged(tree, depth, path, pos, e, all, R, B); }
      tree, q := SplitTreeFor(tree, depth, path, pos, e, preIO, at, spare, R, B, pad);
      if preIO {
        HeldIsIn(tree, q, e);
        if e.lblk > 0 { HeldDivides(tree, q, e); }
      }
      TryToMergeUp(preIO, []);
    }

    /** Move the root into a block of its own, below a new root with one entry. */
    method GrowInDepth(ghost e: Extent)
      requires Valid([e]) && !Empty(tree)
      modifies this
      ensures Valid([e]) && depth == old(depth) + 1
      ensures exists home :: tree == Grow(old(tree), home)
    {
      ghost var before := bitmap;
      var home, n := NewBlocks(1);
      LedgerAlloc(tree, before, others, [e], home, n, Meta(home));
      LedgerGrow(tree, depth, home, e, R, B, bitmap, others);
      GrowKeeps(tree, home, depth, R, B, 0);
      tree, depth := Index([Kid(MinKey(tree), home, tree)]), depth + 1;
      assert tree == Grow(old(tree), home);
    }

    /** Grow the tree by one level and search for `e` again. */
    method GrowAndFind(path: Path, pos: nat, e: Extent) returns (q: Path, qpos: nat)
      requires Valid([e]) && InsertStep(tree, depth, path, pos, e, R, B) && |At(tree, path).exts| >= 2
      modifies this
      ensures Valid([e]) && InsertStep(tree, depth, q, qpos, e, R, B) && Flat(tree) == old(Flat(tree))
      ensures depth == old(depth) + 1 && At(tree, q) == At(old(tree), path)
      ensures depth > 1 ==> HasRoom(tree, q, R, B)
      ensures old(NoPairs(tree)) ==> NoPairs(tree)
    {
      ghost var t, d := tree, depth;
      GrowFind(t, d, path, pos, e, 0, R, B);
      GrowInDepth(e);
      ghost var home :| tree == Grow(t, home);
      if NoPairs(t) { GrowNoPairs(t, home); }
      GrowFind(t, d, path, pos, e, home, R, B);
      GrowCursor(t, d, path, pos, e.lblk, home, R, B);
      InvSearchable(tree, depth, R, B);
      q, qpos := FindExtent(tree, depth, e.lblk);
    }

    /** Make room for `e`, whose leaf at `path` is full, and insert it. The tree grows at most once. */
    method CreateNewLeaf(path0: Path, pos0: nat, e: Extent, preIO: bool) returns (q: Path)
      requires Valid([e]) && InsertStep(tree, depth, path0, pos0, e, R, B)
      requires |At(tree, path0).exts| >= Cap(depth, R, B)
      modifies this
      ensures Valid([]) && Gains(old(Flat(tree)), e, Flat(tree))
      ensures if preIO then e in Flat(tree) else Finished(tree, depth, R, e.lblk, old(NoPairs(tree)))
      ensures depth <= old(depth) + if old(HasRoom(tree, path0, R, B)) then 0 else 1
      ensures preIO && e.lblk > 0 ==> CutsAt(tree, q, e.lblk - 1) && |q| == depth
    {
      var path: Path, pos: nat := path0, pos0;
      while true
        invariant Valid([e]) && InsertStep(tree, depth, path, pos, e, R, B) && Flat(tree) == old(Flat(tree))
        invariant |At(tree, path).exts| >= Cap(depth, R, B) && (old(NoPairs(tree)) ==> NoPairs(tree))
        invariant (depth == old(depth) && path == path0 && tree == old(tree)) || (depth == old(depth) + 1 && !old(HasRoom(tree, path0, R, B)))
        invariant depth > old(depth) ==> HasRoom(tree, path, R, B)
        decreases if HasRoom(tree, path, R, B) then 0 else 1
      {
        var at := FindRoom(tree, path, R, B);
        if at.Some? {
          q := SplitAndInsert(path, pos, e, preIO, at.value);
          return;
        }
        path, pos := GrowAndFind(path, pos, e);
        if |At(tree, path).exts| < B {
          q := InsertInLeaf(path, pos, e, preIO);
          return;
        }
      }
    }

    /** Insert `e`, which no extent of the leaf at `path` absorbs: into the leaf, into the next one, or
        into a new one. Blocks are needed for a new leaf only. */
    method InsertApart(path: Path, pos: nat, e: Extent, preIO: bool) returns (q: Path)
      requires Valid([e]) && InsertStep(tree, depth, path, pos, e, R, B)
      modifies this
      ensures Valid([]) && Gains(old(Flat(tree)), e, Flat(tree))
      ensures if preIO then e in Flat(tree) else Finished(tree, depth, R, e.lblk, old(NoPairs(tree)))
      ensures depth <= old(depth) + if old(HasRoom(tree, path, R, B)) then 0 else 1
      ensures old(HasSpace(tree, depth, path, e, R, B)) ==> bitmap <= old(bitmap) && depth <= old(depth)
      ensures preIO && e.lblk > 0 ==> CutsAt(tree, q, e.lblk - 1) && |q| == depth
    {
      if |At(tree, path).exts| < Cap(depth, R, B) {
        q := InsertInLeaf(path, pos, e, preIO);
        return;
      }
      if AtEnd(tree, path, e) {
        var next := NextWithSpace(tree, depth, path, R, B);
        if next.Some? {
          q := InsertInNext(path, pos, next.value, e, preIO);
          return;
        }
      }
      q := CreateNewLeaf(path, pos, e, preIO);
    }

    /** Insert `e` next to position `pos` of the leaf at `path`. */
    method InsertExtent(path: Path, pos: nat, e: Extent, preIO: bool) returns (q: Path)
      requires Valid([e]) && InsertStep(tree, depth, path, pos, e, R, B)
      modifies this
      ensures Valid([]) && Gains(old(Flat(tree)), e, Flat(tree))
      ensures if preIO then e in Flat(tree) else Finished(tree, depth, R, e.lblk, old(NoPairs(tree)))
      ensures depth <= old(depth) + if old(HasRoom(tree, path, R, B)) then 0 else 1
      ensures (!preIO && Absorbs(old(At(tree, path)), pos, e)) || old(HasSpace(tree, depth, path, e, R, B)) ==>
                bitmap <= old(bitmap) && depth <= old(depth)
      ensures preIO && e.lblk > 0 ==> CutsAt(tree, q, e.lblk - 1) && |q| == depth
    {
      if !preIO {
        var done := TryAbsorb(path, pos, e);
        if done {
          return path;
        }
      }
      q := InsertApart(path, pos, e, preIO);
    }
  }
}
