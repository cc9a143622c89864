/** The searches that the extent tree runs inside one block and along a path (kernfs/extents.c). */
module ExtentSearch {
  import opened ExtentSeq
  import opened LeafOps
  import opened Options
  import opened ExtentTree
  import opened ExtentInsert
  import opened ExtentInsertProofs

  /** Index keys that grow from left to right. */
  ghost predicate KeysGrow(kids: seq<Kid>)
  {
    forall i, j :: 0 <= i < j < |kids| ==> kids[i].key < kids[j].key
  }

  lemma {:induction false} InvKeysGrow(kids: seq<Kid>, d: nat, B: nat)
    requires Sorted(FlatKids(kids)) && forall k :: 0 <= k < |kids| ==> KidShape(kids[k], d, B)
    ensures KeysGrow(kids)
  {
    forall i, j | 0 <= i < j < |kids| ensures kids[i].key < kids[j].key {
      KeysIncrease(kids, i, d, B);
      KeysIncreaseAll(kids, i + 1, j, d, B);
    }
  }

  lemma {:induction false} NearestKidUnique(kids: seq<Kid>, i: nat, b: nat)
    requires KeysGrow(kids) && i < |kids|
    requires i > 0 ==> kids[i].key <= b
    requires i + 1 < |kids| ==> b < kids[i + 1].key
    ensures NearestKid(kids, b) == i
  {
  }

  /** Binary search for the index entry that leads to block b. */
  method BinsearchIdx(kids: seq<Kid>, b: nat) returns (i: nat)
    requires kids != [] && KeysGrow(kids)
    ensures i == NearestKid(kids, b)
  {
    var l: int, r: int := 1, |kids| - 1;
    while l <= r
      invariant 1 <= l <= r + 2 && r < |kids| && l <= |kids|
      invariant l > 1 ==> kids[l - 1].key <= b
      invariant r + 1 < |kids| ==> b < kids[r + 1].key
      invariant l <= r + 1
      decreases r - l
    {
      var m := l + (r - l) / 2;
      if b < kids[m].key {
        r := m - 1;
      } else {
        l := m + 1;
      }
    }
    i := l - 1;
    NearestKidUnique(kids, i, b);
  }

  /** Binary search for the extent nearest to block b. */
  method Binsearch(exts: seq<Extent>, b: nat) returns (i: nat)
    requires exts != [] && Sorted(exts)
    ensures i == Nearest(exts, b)
  {
    var l: int, r: int := 1, |exts| - 1;
    while l <= r
      invariant 1 <= l <= r + 1 && r < |exts|
      invariant l > 1 ==> exts[l - 1].lblk <= b
      invariant r + 1 < |exts| ==> b < exts[r + 1].lblk
      decreases r - l
    {
      var m := l + (r - l) / 2;
      if b < exts[m].lblk {
        r := m - 1;
      } else {
        l := m + 1;
      }
    }
    i := l - 1;
    NearestIs(exts, b);
    var j := Nearest(exts, b);
    if i < j {
      NearestUnique(exts, i, j, b);
    } else if j < i {
      NearestUnique(exts, j, i, b);
    }
  }

  /** A tree that a search can walk down: also one whose new leaf is still empty. */
  ghost predicate Searchable(t: Tree, d: nat)
    decreases d
  {
    if d == 0 then t.Leaf? && Sorted(t.exts)
    else
      && t.Index? && t.kids != [] && KeysGrow(t.kids)
      && forall i :: 0 <= i < |t.kids| ==> Searchable(t.kids[i].sub, d - 1)
  }

  lemma {:induction false} InvSearchable(t: Tree, d: nat, cap: nat, B: nat)
    requires Shape(t, d, cap, B) && (d > 0 ==> !Empty(t)) && Sorted(Flat(t))
    ensures Searchable(t, d)
    decreases d
  {
    if d > 0 {
      InvKeysGrow(t.kids, d - 1, B);
      forall i | 0 <= i < |t.kids| ensures Searchable(t.kids[i].sub, d - 1) {
        assert KidShape(t.kids[i], d - 1, B);
        KidSorted(t.kids, i);
        InvSearchable(t.kids[i].sub, d - 1, B, B);
      }
    }
  }

  /** Walk from the root to the leaf for block b. Position -1 stands for an empty leaf. */
  method FindExtent(t: Tree, d: nat, b: nat) returns (path: Path, pos: int)
    requires Searchable(t, d)
    ensures path == FindPath(t, b, d) && IsPath(t, path) && |path| == d && At(t, path).Leaf?
    ensures var exts := At(t, path).exts; pos == if exts == [] then -1 else Nearest(exts, b)
  {
    path := [];
    var node, i := t, d;
    while i > 0
      invariant 0 <= i <= d && |path| == d - i
      invariant Reached(t, path, node, i, b, d)
    {
      var k := BinsearchIdx(node.kids, b);
      FindStep(t, path, node, i, b, d);
      path := path + [k];
      node := node.kids[k].sub;
      i := i - 1;
    }
    assert path + [] == path;
    if node.exts == [] {
      pos := -1;
    } else {
      pos := Binsearch(node.exts, b);
    }
  }

  /** The search for block b has come down to a node. */
  ghost predicate Reached(t: Tree, p: Path, node: Tree, i: nat, b: nat, d: nat)
  {
    Searchable(node, i) && IsPath(t, p) && At(t, p) == node && FindPath(t, b, d) == p + FindPath(node, b, i)
  }

  lemma {:induction false} FindStep(t: Tree, p: Path, node: Tree, i: nat, b: nat, d: nat)
    requires Reached(t, p, node, i, b, d) && i > 0
    ensures var k := NearestKid(node.kids, b); Reached(t, p + [k], node.kids[k].sub, i - 1, b, d)
  {
    var k := NearestKid(node.kids, b);
    AtSnoc(t, p, k);
    assert p + ([k] + FindPath(node.kids[k].sub, b, i - 1)) == (p + [k]) + FindPath(node.kids[k].sub, b, i - 1);
  }

  lemma {:induction false} AtSnoc(t: Tree, p: Path, k: nat)
    requires IsPath(t, p) && At(t, p).Index? && k < |At(t, p).kids|
    ensures IsPath(t, p + [k]) && At(t, p + [k]) == At(t, p).kids[k].sub
    decreases |p|
  {
    if p != [] {
      assert (p + [k])[1..] == p[1..] + [k];
      AtSnoc(t.kids[p[0]].sub, p[1..], k);
    } else {
      assert p + [k] == [k] && [k][1..] == [];
    }
  }

  lemma {:induction false} AtPrefix(t: Tree, p: Path, j: nat)
    requires IsPath(t, p) && j <= |p|
    ensures IsPath(t, p[..j]) && IsPath(At(t, p[..j]), p[j..])
    ensures At(At(t, p[..j]), p[j..]) == At(t, p)
    decreases j
  {
    if j > 0 {
      AtPrefix(t.kids[p[0]].sub, p[1..], j - 1);
      assert p[..j][1..] == p[1..][..j - 1];
      assert p[j..] == p[1..][j - 1..];
    } else {
      assert p[..0] == [] && p[0..] == p;
    }
  }

  // ----- what follows a path -----

  lemma {:induction false} NextKeySnoc(t: Tree, p: Path, k: nat)
    requires IsPath(t, p) && At(t, p).Index? && k < |At(t, p).kids| && IsPath(t, p + [k])
    ensures var kids := At(t, p).kids;
            NextKey(t, p + [k]) == if k + 1 < |kids| then Some(kids[k + 1].key) else NextKey(t, p)
    decreases |p|
  {
    if p != [] {
      assert (p + [k])[1..] == p[1..] + [k];
      NextKeySnoc(t.kids[p[0]].sub, p[1..], k);
    } else {
      assert p + [k] == [k] && [k][1..] == [];
    }
  }

  /** The first key to the right of a path is where the extents to its right begin. */
  lemma {:induction false} NextKeyIsPost(t: Tree, p: Path, d: nat, cap: nat, B: nat)
    requires Shape(t, d, cap, B) && IsPath(t, p)
    ensures match NextKey(t, p)
            case Some(k) => Post(t, p) != [] && Post(t, p)[0].lblk == k
            case None => Post(t, p) == []
    decreases |p|
  {
    if p != [] {
      var i := p[0];
      assert KidShape(t.kids[i], d - 1, B);
      NextKeyIsPost(t.kids[i].sub, p[1..], d - 1, B, B);
      if i + 1 < |t.kids| {
        assert KidShape(t.kids[i + 1], d - 1, B);
        FirstKeyAt(t.kids, i + 1, d - 1, B);
      }
    }
  }

  /** The first logical block of the next leaf, found by going up the path. */
  method NextLeafBlock(t: Tree, path: Path) returns (r: Option<nat>)
    requires IsPath(t, path)
    ensures r == NextKey(t, path)
  {
    var j := |path|;
    assert path[..j] == path;
    while j > 0
      invariant 0 <= j <= |path|
      invariant IsPath(t, path[..j]) && NextKey(t, path) == NextKey(t, path[..j])
    {
      AtPrefix(t, path, j - 1);
      var kids := At(t, path[..j - 1]).kids;
      assert path[..j] == path[..j - 1] + [path[j - 1]];
      NextKeySnoc(t, path[..j - 1], path[j - 1]);
      if path[j - 1] + 1 < |kids| {
        return Some(kids[path[j - 1] + 1].key);
      }
      j := j - 1;
    }
    return None;
  }

  /** The first mapped block behind extent `pos` of the leaf at `path`, or EXT_MAX_BLOCKS. */
  method NextAllocatedBlock(t: Tree, d: nat, path: Path, pos: int, ghost R: nat, ghost B: nat) returns (r: nat)
    requires Shape(t, d, R, B) && IsPath(t, path) && At(t, path).Leaf? && |path| == d
    requires -1 <= pos < |At(t, path).exts| && (pos == -1 ==> d == 0 && At(t, path).exts == [])
    ensures var k := |Pre(t, path)| + pos + 1;
            r == if k < |Flat(t)| then Flat(t)[k].lblk else EXT_MAX_BLOCKS
  {
    FlatAround(t, path);
    NextKeyIsPost(t, path, d, R, B);
    var exts := At(t, path).exts;
    if pos == -1 {
      assert path == [];
      return EXT_MAX_BLOCKS;
    }
    if pos + 1 < |exts| {
      return exts[pos + 1].lblk;
    }
    var key := NextLeafBlock(t, path);
    match key {
      case Some(k) => return k;
      case None => return EXT_MAX_BLOCKS;
    }
  }

  /** The hole around unmapped block b: where it starts and how long it is. */
  method DetermineHole(t: Tree, d: nat, path: Path, pos: int, b: nat, ghost R: nat, ghost B: nat)
          returns (start: nat, len: nat)
    requires Inv(t, d, R, B) && IsPath(t, path) && At(t, path).Leaf? && |path| == d && b < EXT_MAX_BLOCKS
    requires -1 <= pos < |At(t, path).exts| && (pos == -1 <==> At(t, path).exts == [])
    requires pos >= 0 ==> IsNearest(Flat(t), |Pre(t, path)| + pos, b) && !At(t, path).exts[pos].Covers(b)
    requires pos == -1 ==> d == 0
    ensures start <= b < start + len
    ensures forall x: nat :: start <= x < start + len ==> Lookup(Flat(t), x) == Hole
    ensures start + len < EXT_MAX_BLOCKS ==> Lookup(Flat(t), start + len).To?
    ensures start == b || start == 0 || Lookup(Flat(t), start - 1).To?
  {
    FlatAround(t, path);
    var exts := At(t, path).exts;
    var s := Flat(t);
    var k := |Pre(t, path)| + pos;
    if pos == -1 {
      start, len := 0, EXT_MAX_BLOCKS;
      assert path == [] && s == [];
    } else if b < exts[pos].lblk {
      start, len := b, exts[pos].lblk - b;
      assert s[k] == exts[pos];
      GapIsHole(s, k, start, start + len);
      EdgesMapped(s, k);
    } else {
      start := exts[pos].End();
      var next := NextAllocatedBlock(t, d, path, pos, R, B);
      assert s[k] == exts[pos];
      len := next - start;
      GapIsHole(s, k + 1, start, start + len);
      EdgesMapped(s, k);
      if k + 1 < |s| { EdgesMapped(s, k + 1); }
    }
  }

  lemma {:induction false} EdgesMapped(s: seq<Extent>, k: nat)
    requires Sorted(s) && k < |s|
    ensures Lookup(s, s[k].lblk).To? && s[k].End() > 0 && Lookup(s, s[k].End() - 1).To?
  {
    SortedAt(s, k);
    LookupAt(s, k, s[k].lblk);
    LookupAt(s, k, s[k].End() - 1);
  }

  /** Blocks behind extent k - 1 and in front of extent k are not mapped. */
  lemma {:induction false} GapIsHole(s: seq<Extent>, k: nat, lo: nat, hi: nat)
    requires Sorted(s) && k <= |s|
    requires k > 0 ==> s[k - 1].End() <= lo
    requires k < |s| ==> hi <= s[k].lblk
    ensures forall x: nat :: lo <= x < hi ==> Lookup(s, x) == Hole
  {
    forall x: nat | lo <= x < hi ensures Lookup(s, x) == Hole {
      forall i | 0 <= i < |s| ensures !s[i].Covers(x) {
        if i < k - 1 {
          SortedPair(s, i, k - 1);
          SortedAt(s, k - 1);
        } else if i > k {
          SortedPair(s, k, i);
          SortedAt(s, k);
        }
      }
      LookupHole(s, x);
    }
  }
}
