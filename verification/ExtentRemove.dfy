/** Removal of a range of logical blocks: the walk from the leaf that holds the end of the range to
    the left, which drops emptied nodes and stops at the first node that survives (kernfs/extents.c). */
module ExtentRemove {
  import opened ExtentSeq
  import opened LeafOps
  import opened ExtentTree
  import opened ExtentInsert
  import opened ExtentInsertProofs

  /** What is left of an index entry whose child became `sub`: nothing when the child is empty. */
  function Keep(k: Kid, sub: Tree): seq<Kid>
  {
    if Empty(sub) then [] else [Kid(MinKey(sub), k.blk, sub)]
  }

  /** Remove start..end from a node that the walk enters from the right. */
  function RmNode(t: Tree, start: nat, end: nat): Tree
    decreases t, 1
  {
    match t
    case Leaf(exts) => Leaf(Punch(exts, start, end))
    case Index(kids) => Index(RmKids(kids, start, end))
  }

  /** Go through the children from the last to the first, up to and including the first that survives. */
  function RmKids(kids: seq<Kid>, start: nat, end: nat): seq<Kid>
    decreases kids, 0
  {
    if kids == [] then []
    else
      var k := kids[|kids| - 1];
      var sub := RmKid(k, start, end);
      if Empty(sub) then RmKids(kids[..|kids| - 1], start, end)
      else kids[..|kids| - 1] + Keep(k, sub)
  }

  function RmKid(k: Kid, start: nat, end: nat): Tree
    decreases k, 0
  {
    RmNode(k.sub, start, end)
  }

  /** Remove start..end from the leaf at p and from the nodes to its left. */
  function RmPath(t: Tree, p: Path, start: nat, end: nat): Tree
    requires IsPath(t, p)
    decreases |p|
  {
    if p == [] then RmNode(t, start, end)
    else
      var i := p[0];
      Index(RmKids(t.kids[..i], start, end)
            + (Keep(t.kids[i], RmPath(t.kids[i].sub, p[1..], start, end)) + t.kids[i + 1..]))
  }

  // ----- the nodes to the left of the path -----

  /** Extents that end at or before block `end`. */
  ghost predicate UpTo(s: seq<Extent>, end: nat)
  {
    forall i :: 0 <= i < |s| ==> s[i].End() <= end + 1
  }

  /** If anything survives in a run that ends at or before `end`, the run starts before `start`. */
  lemma {:induction false} SurvivorBefore(s: seq<Extent>, start: nat, end: nat)
    requires Sorted(s) && UpTo(s, end) && Punch(s, start, end) != []
    ensures s != [] && s[0].lblk < start
  {
    if s[0].lblk >= start {
      SortedAt(s, 0);
      assert PunchOne(s[0], start, end) == [];
      if |s| > 1 {
        assert forall i :: 0 <= i < |s[1..]| ==> s[1..][i] == s[i + 1];
        SurvivorBefore(s[1..], start, end);
      }
    }
  }

  /** Runs in front of an extent that starts before `start` are not touched. */
  lemma {:induction false} FrontUntouched(a: seq<Extent>, b: seq<Extent>, start: nat, end: nat)
    requires Sorted(a + b) && b != [] && b[0].lblk < start
    ensures Punch(a, start, end) == a && Cut(a, start, end) == []
  {
    forall i | 0 <= i < |a| ensures a[i].End() <= start {
      SortedPair(a + b, i, |a|);
    }
    PunchUntouched(a, start, end);
  }

  lemma {:induction false} UpToParts(a: seq<Extent>, b: seq<Extent>, end: nat)
    requires UpTo(a + b, end)
    ensures UpTo(a, end) && UpTo(b, end)
  {
    forall i | 0 <= i < |a| ensures a[i].End() <= end + 1 { assert a[i] == (a + b)[i]; }
    forall i | 0 <= i < |b| ensures b[i].End() <= end + 1 { assert b[i] == (a + b)[|a| + i]; }
  }

  lemma {:induction false} LastKid(kids: seq<Kid>)
    requires kids != []
    ensures FlatKids(kids) == FlatKids(kids[..|kids| - 1]) + Flat(kids[|kids| - 1].sub)
  {
    FlatKidsSnoc(kids, |kids| - 1);
    assert kids[..|kids|] == kids;
  }

  lemma {:induction false} KeepFlat(k: Kid, sub: Tree)
    ensures FlatKids(Keep(k, sub)) == if Empty(sub) then [] else Flat(sub)
  {
    if !Empty(sub) {
      var k' := Kid(MinKey(sub), k.blk, sub);
      assert [k'][1..] == [];
      assert FlatKids([k']) == FlatKid(k') + FlatKids([]);
    }
  }

  lemma {:induction false} EmptyFlat(t: Tree)
    requires Empty(t)
    ensures Flat(t) == []
  {
  }

  lemma {:induction false} RmNodeCorrect(t: Tree, d: nat, cap: nat, B: nat, start: nat, end: nat)
    requires Shape(t, d, cap, B) && Sorted(Flat(t)) && UpTo(Flat(t), end)
    ensures Flat(RmNode(t, start, end)) == Punch(Flat(t), start, end)
    ensures Shape(RmNode(t, start, end), d, cap, B)
    ensures Punch(Flat(t), start, end) == [] ==> Empty(RmNode(t, start, end))
    decreases d, 1, 0
  {
    match t {
      case Leaf(exts) => PunchKeepsOrder(exts, start, end);
      case Index(kids) => RmKidsCorrect(kids, d - 1, B, start, end);
    }
  }

  ghost predicate AllKids(kids: seq<Kid>, d: nat, B: nat)
  {
    forall i :: 0 <= i < |kids| ==> KidShape(kids[i], d, B)
  }

  /** The walk over the children of a node leaves what punching all their extents leaves, although
      it stops at the first child that survives. */
  lemma {:induction false} RmKidsCorrect(kids: seq<Kid>, d: nat, B: nat, start: nat, end: nat)
    requires AllKids(kids, d, B) && Sorted(FlatKids(kids)) && UpTo(FlatKids(kids), end)
    ensures var r := RmKids(kids, start, end);
            && FlatKids(r) == Punch(FlatKids(kids), start, end)
            && AllKids(r, d, B) && |r| <= |kids|
            && (Punch(FlatKids(kids), start, end) == [] ==> r == [])
    decreases d + 1, 0, |kids|
  {
    if kids != [] {
      var front, k := kids[..|kids| - 1], kids[|kids| - 1];
      var a, b := FlatKids(front), Flat(k.sub);
      LastKid(kids);
      SortedConcat(a, b);
      UpToParts(a, b, end);
      assert KidShape(k, d, B);
      RmNodeCorrect(k.sub, d, B, B, start, end);
      PunchConcat(a, b, start, end);
      var sub := RmNode(k.sub, start, end);
      assert sub == RmKid(k, start, end);
      if Empty(sub) {
        EmptyFlat(sub);
        RmKidsCorrect(front, d, B, start, end);
      } else {
        KeptKid(front, k, sub, d, B);
        SurvivorBefore(b, start, end);
        FrontUntouched(a, b, start, end);
      }
    }
  }

  lemma {:induction false} KeptKid(front: seq<Kid>, k: Kid, sub: Tree, d: nat, B: nat)
    requires AllKids(front, d, B) && !Empty(sub) && Shape(sub, d, B, B)
    ensures FlatKids(front + Keep(k, sub)) == FlatKids(front) + Flat(sub)
    ensures AllKids(front + Keep(k, sub), d, B) && Flat(sub) != []
  {
    FlatKidsConcat(front, Keep(k, sub));
    KeepFlat(k, sub);
    FirstKey(sub, d, B, B);
  }

  // ----- the path -----

  /** Extents that start after block `end`. */
  ghost predicate Beyond(s: seq<Extent>, end: nat)
  {
    forall i :: 0 <= i < |s| ==> end < s[i].lblk
  }

  /** The leaf at p divides the tree at block `end`: what is to its left ends at or before `end`,
      what is to its right starts after it. */
  ghost predicate Divides(t: Tree, p: Path, end: nat)
  {
    IsPath(t, p) && At(t, p).Leaf? && UpTo(Pre(t, p), end) && Beyond(Post(t, p), end)
  }

  /** The walk that removes blocks up to `end` can start at the leaf at p: no extent reaches across
      `end`, and the leaf divides the tree there. */
  ghost predicate CutsAt(t: Tree, p: Path, end: nat)
  {
    Divides(t, p, end) && Clean(Flat(t), end)
  }

  lemma {:induction false} StartIsClean(s: seq<Extent>, i: nat, end: nat)
    requires Sorted(s) && i < |s| && s[i].lblk == end + 1
    ensures Clean(s, end)
  {
    forall j | 0 <= j < |s| ensures s[j].End() <= end + 1 || end < s[j].lblk {
      if j < i { SortedPair(s, j, i); } else if i < j { SortedPair(s, i, j); }
    }
  }

  /** The runs on both sides of a position of a sorted run. */
  lemma {:induction false} SidesOf(l: seq<Extent>, m: seq<Extent>, r: seq<Extent>, i: nat, end: nat)
    requires Sorted(l + (m + r)) && i < |m|
    requires l != [] ==> m[i].lblk <= end + 1
    requires i + 1 < |m| ==> end < m[i + 1].lblk
    requires r != [] ==> end < r[0].lblk
    ensures UpTo(l, end) && Beyond(r, end)
  {
    var s := l + (m + r);
    forall j | 0 <= j < |l| ensures l[j].End() <= end + 1 { SortedPair(s, j, |l| + i); }
    forall j | 0 <= j < |r| ensures end < r[j].lblk {
      if j > 0 {
        SortedPair(s, |l| + |m|, |l| + |m| + j);
        SortedAt(s, |l| + |m|);
      }
    }
  }

  /** A leaf that holds the first extent after block `end` divides the tree there. */
  lemma {:induction false} HoldsDivides(t: Tree, p: Path, i: nat, end: nat)
    requires IsPath(t, p) && At(t, p).Leaf? && Sorted(Flat(t)) && i < |At(t, p).exts|
    requires At(t, p).exts[i].lblk == end + 1
    ensures CutsAt(t, p, end)
  {
    FlatAround(t, p);
    var l, m, r := Pre(t, p), At(t, p).exts, Post(t, p);
    var s := l + (m + r);
    StartIsClean(s, |l| + i, end);
    if i + 1 < |m| { SortedPair(s, |l| + i, |l| + i + 1); }
    if r != [] { SortedPair(s, |l| + i, |l| + |m|); }
    SidesOf(l, m, r, i, end);
  }

  /** So does the leaf that a search for `end` finds. */
  lemma {:induction false} CursorDivides(t: Tree, d: nat, p: Path, pos: nat, end: nat)
    requires Cursor(t, d, p, pos, end) && Sorted(Flat(t))
    ensures Divides(t, p, end)
  {
    FlatAround(t, p);
    var l, m, r := Pre(t, p), At(t, p).exts, Post(t, p);
    if m != [] {
      if r != [] && pos + 1 < |m| { SortedPair(l + (m + r), |l| + pos + 1, |l| + |m|); SortedAt(l + (m + r), |l| + pos + 1); }
      SidesOf(l, m, r, pos, end);
    }
  }

  lemma {:induction false} BeyondParts(a: seq<Extent>, b: seq<Extent>, end: nat)
    requires Beyond(a + b, end)
    ensures Beyond(a, end) && Beyond(b, end)
  {
    forall i | 0 <= i < |a| ensures end < a[i].lblk { assert a[i] == (a + b)[i]; }
    forall i | 0 <= i < |b| ensures end < b[i].lblk { assert b[i] == (a + b)[|a| + i]; }
  }

  lemma {:induction false} BeyondUntouched(s: seq<Extent>, start: nat, end: nat)
    requires Beyond(s, end)
    ensures Punch(s, start, end) == s && Cut(s, start, end) == []
  {
    PunchUntouched(s, start, end);
  }

  /** The extents around child i of an index node. */
  lemma {:induction false} PunchAround(kids: seq<Kid>, i: nat, start: nat, end: nat)
    requires i < |kids| && Beyond(FlatKids(kids[i + 1..]), end)
    ensures Punch(FlatKids(kids), start, end) ==
            Punch(FlatKids(kids[..i]), start, end) + (Punch(Flat(kids[i].sub), start, end) + FlatKids(kids[i + 1..]))
  {
    var l, m, r := FlatKids(kids[..i]), Flat(kids[i].sub), FlatKids(kids[i + 1..]);
    FlatKidsAround(kids, i);
    PunchConcat(l, m + r, start, end);
    PunchConcat(m, r, start, end);
    BeyondUntouched(r, start, end);
  }

  lemma {:induction false} AroundShape(l: seq<Kid>, k: Kid, sub: Tree, r: seq<Kid>, d: nat, B: nat)
    requires AllKids(l, d, B) && AllKids(r, d, B) && Shape(sub, d, B, B)
    ensures AllKids(l + (Keep(k, sub) + r), d, B)
    ensures FlatKids(l + (Keep(k, sub) + r)) == FlatKids(l) + (Flat(sub) + FlatKids(r))
  {
    FlatKidsConcat(l, Keep(k, sub) + r);
    FlatKidsConcat(Keep(k, sub), r);
    KeepFlat(k, sub);
    if Empty(sub) { EmptyFlat(sub); }
  }

  /** Removing along the path leaves what punching all extents of the tree leaves. */
  lemma {:induction false} RmPathCorrect(t: Tree, p: Path, d: nat, cap: nat, B: nat, start: nat, end: nat)
    requires Shape(t, d, cap, B) && Sorted(Flat(t)) && IsPath(t, p) && |p| == d
    requires UpTo(Pre(t, p), end) && Beyond(Post(t, p), end)
    ensures Flat(RmPath(t, p, start, end)) == Punch(Flat(t), start, end)
    ensures Shape(RmPath(t, p, start, end), d, cap, B)
    decreases |p|
  {
    if p == [] {
      PunchKeepsOrder(t.exts, start, end);
    } else {
      var i, k := p[0], t.kids[p[0]];
      var sub := RmPath(k.sub, p[1..], start, end);
      assert KidShape(k, d - 1, B);
      UpToParts(FlatKids(t.kids[..i]), Pre(k.sub, p[1..]), end);
      BeyondParts(Post(k.sub, p[1..]), FlatKids(t.kids[i + 1..]), end);
      KidSorted(t.kids, i);
      RmPathCorrect(k.sub, p[1..], d - 1, B, B, start, end);
      RmPathStep(t.kids, i, sub, d - 1, B, start, end);
    }
  }

  lemma {:induction false} RmPathStep(kids: seq<Kid>, i: nat, sub: Tree, d: nat, B: nat, start: nat, end: nat)
    requires i < |kids| && AllKids(kids, d, B) && Sorted(FlatKids(kids))
    requires UpTo(FlatKids(kids[..i]), end) && Beyond(FlatKids(kids[i + 1..]), end)
    requires Shape(sub, d, B, B) && Flat(sub) == Punch(Flat(kids[i].sub), start, end)
    ensures var kids' := RmKids(kids[..i], start, end) + (Keep(kids[i], sub) + kids[i + 1..]);
            && |kids'| <= |kids| && AllKids(kids', d, B)
            && FlatKids(kids') == Punch(FlatKids(kids), start, end)
  {
    assert Sorted(FlatKids(kids[..i])) by {
      FlatKidsAround(kids, i);
      SortedConcat(FlatKids(kids[..i]), Flat(kids[i].sub) + FlatKids(kids[i + 1..]));
    }
    RmKidsCorrect(kids[..i], d, B, start, end);
    PunchAround(kids, i, start, end);
    AroundShape(RmKids(kids[..i], start, end), kids[i], sub, kids[i + 1..], d, B);
  }

  /** A tree that lost all its extents goes back to an empty root leaf. */
  function RemoveTree(t: Tree, d: nat, p: Path, start: nat, end: nat): (Tree, nat)
    requires IsPath(t, p)
  {
    var t' := RmPath(t, p, start, end);
    if Empty(t') then (Leaf([]), 0) else (t', d)
  }

  /** The mapping loses exactly blocks start..end; what is freed is what they were mapped to. */
  ghost predicate Loses(s: seq<Extent>, start: nat, end: nat, s': seq<Extent>, cut: seq<Extent>)
  {
    && (forall x: nat :: Lookup(s', x) == if start <= x <= end then Hole else Lookup(s, x))
    && (forall x: nat :: Lookup(cut, x) == if start <= x <= end then Lookup(s, x) else Hole)
    && (forall p: nat :: Owns(s, p) == Owns(s', p) + Owns(cut, p))
    && Size(s) == Size(s') + Size(cut)
  }

  lemma {:induction false} PunchLoses(s: seq<Extent>, start: nat, end: nat)
    requires Sorted(s) && Clean(s, end) && start <= end + 1
    ensures Loses(s, start, end, Punch(s, start, end), Cut(s, start, end))
  {
    forall x: nat
      ensures Lookup(Punch(s, start, end), x) == if start <= x <= end then Hole else Lookup(s, x)
      ensures Lookup(Cut(s, start, end), x) == if start <= x <= end then Lookup(s, x) else Hole
    {
      PunchLookup(s, start, end, x);
    }
    forall p: nat ensures Owns(s, p) == Owns(Punch(s, start, end), p) + Owns(Cut(s, start, end), p) {
      PunchOwns(s, start, end, p);
    }
    PunchOwns(s, start, end, 0);
  }

  /** The removal walk, started at the leaf that holds `end`, keeps the tree well formed and unmaps
      exactly start..end. */
  lemma {:induction false} RemoveCorrect(t: Tree, d: nat, p: Path, start: nat, end: nat, R: nat, B: nat)
    requires Inv(t, d, R, B) && CutsAt(t, p, end) && |p| == d && start <= end + 1
    ensures var (t', d') := RemoveTree(t, d, p, start, end);
            Inv(t', d', R, B) && Loses(Flat(t), start, end, Flat(t'), Cut(Flat(t), start, end))
  {
    var t' := RmPath(t, p, start, end);
    RmPathCorrect(t, p, d, R, B, start, end);
    PunchKeepsOrder(Flat(t), start, end);
    PunchLoses(Flat(t), start, end);
    if Empty(t') { EmptyFlat(t'); }
  }
}
