/** What merging leaves in the leaves of an extent tree (kernfs/extents.c). */
module ExtentTidy {
  import opened ExtentSeq
  import opened LeafOps
  import opened Options
  import opened ExtentTree
  import opened ExtentInsert

  /** No leaf holds two neighbours that could be merged. */
  predicate NoPairs(t: Tree)
    decreases t
  {
    match t
    case Leaf(exts) => NoPair(exts)
    case Index(kids) => forall i :: 0 <= i < |kids| ==> NoPairs(kids[i].sub)
  }

  /** The extent that covers block x cannot be merged with its right neighbour in the leaf. */
  ghost predicate MergedIn(t: Tree, p: Path, j: nat, x: nat)
  {
    && IsPath(t, p) && At(t, p).Leaf? && j < |At(t, p).exts| && At(t, p).exts[j].Covers(x)
    && (j + 1 < |At(t, p).exts| ==> !CanMerge(At(t, p).exts[j], At(t, p).exts[j + 1]))
  }

  /** A tree of one leaf that fits into the inode is in the inode. */
  predicate Compact(t: Tree, d: nat, R: nat)
  {
    d == 1 && t.Index? && |t.kids| == 1 && t.kids[0].sub.Leaf? ==> |t.kids[0].sub.exts| > R
  }

  ghost predicate Merged(t: Tree, x: nat, tidy: bool)
  {
    (exists p: Path, j: nat :: MergedIn(t, p, j, x)) && (tidy ==> NoPairs(t))
  }

  /** Merging is done around block x: the extent there has no right neighbour to merge with; if no leaf
      held such neighbours before, none does now; and a tree that fits into the inode is there. */
  ghost predicate Finished(t: Tree, d: nat, R: nat, x: nat, tidy: bool)
  {
    Merged(t, x, tidy) && Compact(t, d, R)
  }

  lemma {:induction false} AtNoPairs(t: Tree, p: Path)
    requires NoPairs(t) && IsPath(t, p)
    ensures NoPairs(At(t, p))
    decreases |p|
  {
    if p != [] { AtNoPairs(t.kids[p[0]].sub, p[1..]); }
  }

  lemma {:induction false} PutNoPairs(t: Tree, p: Path, s: Tree)
    requires NoPairs(t) && IsPath(t, p) && NoPairs(s) && !Empty(s)
    ensures NoPairs(Put(t, p, s))
    decreases |p|
  {
    if p != [] { PutNoPairs(t.kids[p[0]].sub, p[1..], s); }
  }

  lemma {:induction false} AbsorbNoPairs(kids: seq<Kid>, i: nat, up: Option<Kid>, cap: nat, blk: nat)
    requires i < |kids| && NoPairs(Index(kids)) && (up.Some? ==> NoPairs(up.value.sub))
    ensures var (t, u) := Absorb(kids, i, up, cap, blk); NoPairs(t) && (u.Some? ==> NoPairs(u.value.sub))
  {
    if up.Some? {
      var n := up.value;
      var all, front, back := kids[..i + 1] + ([n] + kids[i + 1..]), kids[..i + 1], [n] + kids[i + 1..];
      forall j | 0 <= j < |front| ensures NoPairs(front[j].sub) { assert front[j] == kids[j]; }
      forall j | 0 <= j < |back| ensures NoPairs(back[j].sub) { if j > 0 { assert back[j] == kids[i + j]; } }
      forall j | 0 <= j < |all| ensures NoPairs(all[j].sub) {
        if j <= i { assert all[j] == front[j]; } else { assert all[j] == back[j - i - 1]; }
      }
    }
  }

  lemma {:induction false} AddSiblingNoPairs(t: Tree, p: Path, left: Tree, right: Kid, cap: nat, B: nat,
          spare: seq<nat>)
    requires NoPairs(t) && IsPath(t, p) && !Empty(left) && |spare| > |p| && NoPairs(left) && NoPairs(right.sub)
    ensures var (r, up) := AddSibling(t, p, left, right, cap, B, spare); NoPairs(r) && (up.Some? ==> NoPairs(up.value.sub))
    decreases |p|
  {
    if p != [] {
      var i, k := p[0], t.kids[p[0]];
      AddSiblingNoPairs(k.sub, p[1..], left, right, B, B, spare);
      var (sub, up) := AddSibling(k.sub, p[1..], left, right, B, B, spare);
      var kids := t.kids[i := Kid(MinKey(sub), k.blk, sub)];
      assert NoPairs(Index(kids));
      AbsorbNoPairs(kids, i, up, cap, spare[|p|]);
    }
  }

  lemma {:induction false} PartsNoPair(s: seq<Extent>, i: nat)
    requires NoPair(s) && i <= |s|
    ensures NoPair(s[..i]) && NoPair(s[i..])
  {
    forall j | 0 <= j && j + 1 < |s[i..]| ensures !CanMerge(s[i..][j], s[i..][j + 1]) {
      assert s[i..][j] == s[i + j] && s[i..][j + 1] == s[(i + j) + 1];
    }
  }

  lemma {:induction false} GrowNoPairs(t: Tree, home: nat)
    requires NoPairs(t) && !Empty(t)
    ensures NoPairs(Grow(t, home))
  {
  }

  /** A leaf in which extent k was put or changed, merged and stored. */
  lemma {:induction false} StoredMerged(t: Tree, p: Path, w: seq<Extent>, k: nat, x: nat, tidy: bool)
    requires IsPath(t, p) && k < |w| && w[k].Covers(x) && (tidy ==> NoPairs(t) && PairsAt(w, k))
    ensures Merged(Put(t, p, Leaf(TryToMerge(w, k))), x, tidy)
  {
    var m, j := TryToMerge(w, k), MergedAt(w, k);
    TryToMergeDone(w, k);
    PutAt(t, p, Leaf(m));
    assert MergedIn(Put(t, p, Leaf(m)), p, j, x);
    if tidy {
      TryToMergeNoPair(w, k);
      PutNoPairs(t, p, Leaf(m));
    }
  }

  /** The same for an extent that is put into a leaf. */
  lemma {:induction false} InsertedMerged(t: Tree, p: Path, s: seq<Extent>, k: nat, e: Extent, tidy: bool)
    requires IsPath(t, p) && k <= |s| && e.len >= 1 && (tidy ==> NoPairs(t) && NoPair(s))
    ensures Merged(Put(t, p, Leaf(TryToMerge(InsertAt(s, k, e), k))), e.lblk, tidy)
  {
    if tidy { InsertPairs(s, k, e); }
    StoredMerged(t, p, InsertAt(s, k, e), k, e.lblk, tidy);
  }

  lemma {:induction false} SetPairs(s: seq<Extent>, k: nat, a: Extent)
    requires NoPair(s) && k < |s|
    ensures PairsAt(s[k := a], k)
  {
  }

  lemma {:induction false} ChangedMerged(t: Tree, p: Path, s: seq<Extent>, k: nat, a: Extent, x: nat, tidy: bool)
    requires IsPath(t, p) && k < |s| && a.Covers(x) && (tidy ==> NoPairs(t) && NoPair(s))
    ensures Merged(Put(t, p, Leaf(TryToMerge(s[k := a], k))), x, tidy)
  {
    if tidy { SetPairs(s, k, a); }
    StoredMerged(t, p, s[k := a], k, x, tidy);
  }

  /** An extent that is absorbed by a neighbour. */
  lemma {:induction false} FoldedMerged(t: Tree, p: Path, s: seq<Extent>, pos: nat, e: Extent, tidy: bool)
    requires IsPath(t, p) && pos < |s| && e.len >= 1 && TryFold(s, pos, e).Some? && (tidy ==> NoPairs(t) && NoPair(s))
    ensures var f := TryFold(s, pos, e).value; Merged(Put(t, p, Leaf(TryToMerge(f.0, f.1))), e.lblk, tidy)
  {
    var f := TryFold(s, pos, e).value;
    ChangedMerged(t, p, s, f.1, f.0[f.1], e.lblk, tidy);
    assert f.0 == s[f.1 := f.0[f.1]];
  }

  /** When an extent is absorbed. */
  lemma {:induction false} FoldExact(s: seq<Extent>, pos: nat, e: Extent)
    requires IsNearest(s, pos, e.lblk) && e.len >= 1
    ensures TryFold(s, pos, e).Some? <==>
              if pos + 1 < |s| && s[pos].End() < e.lblk then CanMerge(e, s[pos + 1])
              else CanMerge(s[pos], e) || CanMerge(e, s[pos])
  {
  }

  lemma {:induction false} MergeUpMerged(t: Tree, d: nat, preIO: bool, R: nat, x: nat, tidy: bool)
    requires Merged(t, x, tidy)
    ensures Merged(MergeUp(t, d, preIO, R).0, x, tidy)
  {
    if CollapsesTo(t, d, preIO, R) {
      var p: Path, j: nat :| MergedIn(t, p, j, x);
      var leaf := t.kids[0].sub;
      assert p != [] && p[0] == 0 && IsPath(leaf, p[1..]);
      assert p[1..] == [];
      assert MergedIn(leaf, [], j, x);
    }
  }
}
