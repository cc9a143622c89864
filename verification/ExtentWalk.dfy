/** The loop that walks over an extent tree and removes a range of blocks: a cursor and a saved entry
    count for every level of the path (kernfs/extents.c). */
module ExtentWalk {
  import opened ExtentSeq
  import opened LeafOps
  import opened ExtentTree
  import opened ExtentInsert
  import opened ExtentInsertProofs
  import opened ExtentRemove

  /** One level of the path: the entries of its index node, the entry that the walk is at, and the
      field in which the walk saves the number of entries. A search leaves the block number of the
      entry there. */
  datatype Level = Level(kids: seq<Kid>, idx: nat, block: nat)

  /** A node that the walk is about to enter, or one that it has finished. */
  datatype Work = Fresh(node: Tree) | Done(node: Tree)

  ghost predicate OnEntry(l: Level) { l.idx < |l.kids| }

  /** The entries of a level once the child that the walk was at has become `sub`. */
  ghost function Joined(l: Level, sub: Tree): seq<Kid>
    requires OnEntry(l)
  {
    l.kids[..l.idx] + (Keep(l.kids[l.idx], sub) + l.kids[l.idx + 1..])
  }

  /** Whether the walk goes on to the entry in front. */
  ghost predicate More(l: Level, kids: seq<Kid>) { l.idx > 0 && |kids| != l.block }

  // ----- what the walk computes -----

  /** What becomes of the node of a level once its child has become `sub`. */
  ghost function Above(l: Level, sub: Tree, start: nat, end: nat): Tree
    requires OnEntry(l)
  {
    var kids := Joined(l, sub);
    if More(l, kids) then Index(RmKids(kids[..l.idx], start, end) + kids[l.idx..]) else Index(kids)
  }

  ghost predicate OnEntries(ls: seq<Level>) { forall i :: 0 <= i < |ls| ==> OnEntry(ls[i]) }

  /** What becomes of the root once the child below the last level has become `sub`. */
  ghost function Finish(ls: seq<Level>, sub: Tree, start: nat, end: nat): Tree
    requires OnEntries(ls)
    decreases |ls|
  {
    if ls == [] then sub else Finish(ls[..|ls| - 1], Above(ls[|ls| - 1], sub, start, end), start, end)
  }

  ghost function Value(w: Work, start: nat, end: nat): Tree
  {
    match w
    case Fresh(t) => RmNode(t, start, end)
    case Done(t) => t
  }

  // ----- steps of the walk -----

  /** Entering an index node at its last entry. */
  lemma {:induction false} EnterStep(kids: seq<Kid>, start: nat, end: nat)
    requires kids != []
    ensures Above(Level(kids, |kids| - 1, |kids|), RmNode(kids[|kids| - 1].sub, start, end), start, end)
            == RmNode(Index(kids), start, end)
  {
    var n, k := |kids| - 1, kids[|kids| - 1];
    var sub := RmNode(k.sub, start, end);
    assert sub == RmKid(k, start, end);
    var front := kids[..n];
    assert kids[n + 1..] == [];
    assert Joined(Level(kids, n, n + 1), sub) == front + Keep(k, sub);
    if Empty(sub) {
      assert front + Keep(k, sub) == front && front[..n] == front && front[n..] == [];
    }
  }

  lemma {:induction false} RmKidsLast(front: seq<Kid>, k: Kid, start: nat, end: nat)
    ensures var sub := RmNode(k.sub, start, end);
            RmKids(front + [k], start, end) == if Empty(sub) then RmKids(front, start, end) else front + Keep(k, sub)
  {
    assert (front + [k])[..|front|] == front;
    assert RmKid(k, start, end) == RmNode(k.sub, start, end);
  }

  /** Entries in front of an entry k, and the entries behind it. */
  lemma {:induction false} Around(kids: seq<Kid>, i: nat, sub: Tree)
    requires i < |kids|
    ensures kids[..i + 1] == kids[..i] + [kids[i]]
    ensures var k, front, rest := kids[i], kids[..i], kids[i + 1..];
            var kids' := front + (Keep(k, sub) + rest);
            && kids'[..i] == front && kids'[i..] == Keep(k, sub) + rest
            && (Empty(sub) ==> kids'[i..] == rest && |kids'| == |kids| - 1)
            && (!Empty(sub) ==> |kids'| == |kids| && kids' == (front + Keep(k, sub)) + rest)
  {
  }

  /** Going on to the entry in front. */
  lemma {:induction false} NextStep(l: Level, sub: Tree, start: nat, end: nat)
    requires OnEntry(l) && More(l, Joined(l, sub))
    ensures var kids := Joined(l, sub);
            && l.idx - 1 < |kids|
            && Above(Level(kids, l.idx - 1, |kids|), RmNode(kids[l.idx - 1].sub, start, end), start, end)
               == Above(l, sub, start, end)
  {
    var kids, i := Joined(l, sub), l.idx - 1;
    EntryStep(kids, i, start, end);
  }

  lemma {:induction false} EntryStep(kids: seq<Kid>, i: nat, start: nat, end: nat)
    requires i < |kids|
    ensures Above(Level(kids, i, |kids|), RmNode(kids[i].sub, start, end), start, end)
            == Index(RmKids(kids[..i + 1], start, end) + kids[i + 1..])
  {
    var sub := RmNode(kids[i].sub, start, end);
    Around(kids, i, sub);
    RmKidsLast(kids[..i], kids[i], start, end);
    if i == 0 && Empty(sub) { assert RmKids(kids[..0], start, end) == []; }
  }

  // ----- the start of the walk -----

  /** The levels of a path, their counts reset so that no count of entries is equal to them. */
  ghost function Reset(t: Tree, p: Path): (ls: seq<Level>)
    requires IsPath(t, p)
    ensures |ls| == |p|
    decreases |p|
  {
    if p == [] then [] else [Level(t.kids, p[0], |t.kids| + 1)] + Reset(t.kids[p[0]].sub, p[1..])
  }

  /** The levels with which the walk starts: at the root the block number from the search stays. */
  ghost function Started(t: Tree, p: Path): (ls: seq<Level>)
    requires IsPath(t, p)
    ensures |ls| == |p|
  {
    if p == [] then [] else [Level(t.kids, p[0], t.kids[p[0]].blk)] + Reset(t.kids[p[0]].sub, p[1..])
  }

  /** The levels as a search leaves them. */
  ghost function Searched(t: Tree, p: Path): (ls: seq<Level>)
    requires IsPath(t, p)
    ensures |ls| == |p|
    decreases |p|
  {
    if p == [] then [] else [Level(t.kids, p[0], t.kids[p[0]].blk)] + Searched(t.kids[p[0]].sub, p[1..])
  }

  lemma {:induction false} SearchedAt(t: Tree, p: Path, k: nat)
    requires IsPath(t, p) && k < |p|
    ensures var l := Searched(t, p)[k]; Reset(t, p)[k] == l.(block := |l.kids| + 1)
    decreases |p|
  {
    if k > 0 { SearchedAt(t.kids[p[0]].sub, p[1..], k - 1); }
  }

  lemma {:induction false} StartedAt(t: Tree, p: Path, ls: seq<Level>)
    requires IsPath(t, p) && |ls| == |p|
    requires forall j :: 0 <= j < |ls| ==> ls[j] == if 1 <= j then Reset(t, p)[j] else Searched(t, p)[j]
    ensures ls == Started(t, p)
  {
    forall j | 0 <= j < |ls| ensures ls[j] == Started(t, p)[j] { }
  }

  lemma {:induction false} ResetOnEntries(t: Tree, p: Path)
    requires IsPath(t, p)
    ensures OnEntries(Reset(t, p)) && OnEntries(Started(t, p))
    decreases |p|
  {
    if p != [] { ResetOnEntries(t.kids[p[0]].sub, p[1..]); }
  }

  /** The tree that the walk leaves. */
  ghost function WalkTree(t: Tree, p: Path, start: nat, end: nat): Tree
    requires IsPath(t, p)
  {
    ResetOnEntries(t, p);
    Finish(Started(t, p), RmNode(At(t, p), start, end), start, end)
  }

  lemma {:induction false} FinishLast(ls: seq<Level>, l: Level, sub: Tree, start: nat, end: nat)
    requires OnEntry(l) && OnEntries(ls)
    ensures OnEntries(ls + [l])
    ensures Finish(ls + [l], sub, start, end) == Finish(ls, Above(l, sub, start, end), start, end)
  {
    var all := ls + [l];
    assert all[..|all| - 1] == ls && all[|all| - 1] == l;
  }

  lemma {:induction false} FinishFirst(l: Level, ls: seq<Level>, sub: Tree, start: nat, end: nat)
    requires OnEntry(l) && OnEntries(ls)
    ensures OnEntries([l] + ls)
    ensures Finish([l] + ls, sub, start, end) == Above(l, Finish(ls, sub, start, end), start, end)
    decreases |ls|
  {
    var all := [l] + ls;
    if ls == [] {
      assert all == [l] && all[..0] == [];
    } else {
      var front, m := ls[..|ls| - 1], ls[|ls| - 1];
      assert ls == front + [m] && all == ([l] + front) + [m];
      var up := Above(m, sub, start, end);
      FinishFirst(l, front, up, start, end);
      FinishLast(front, m, sub, start, end);
      FinishLast([l] + front, m, sub, start, end);
    }
  }

  /** A level whose count cannot be met goes on to the entries in front. */
  lemma {:induction false} AboveGoesOn(l: Level, sub: Tree, start: nat, end: nat)
    requires OnEntry(l) && l.block != |Joined(l, sub)|
    ensures Above(l, sub, start, end)
            == Index(RmKids(l.kids[..l.idx], start, end) + (Keep(l.kids[l.idx], sub) + l.kids[l.idx + 1..]))
  {
    var kids := Joined(l, sub);
    assert kids[..l.idx] == l.kids[..l.idx] && kids[l.idx..] == Keep(l.kids[l.idx], sub) + l.kids[l.idx + 1..];
  }

  lemma {:induction false} ResetGoesOn(t: Tree, p: Path, start: nat, end: nat)
    requires IsPath(t, p) && p != []
    ensures Above(Level(t.kids, p[0], |t.kids| + 1), RmPath(t.kids[p[0]].sub, p[1..], start, end), start, end)
            == RmPath(t, p, start, end)
  {
    AboveGoesOn(Level(t.kids, p[0], |t.kids| + 1), RmPath(t.kids[p[0]].sub, p[1..], start, end), start, end);
  }

  lemma {:induction false} ResetFinishes(t: Tree, p: Path, start: nat, end: nat)
    requires IsPath(t, p)
    ensures OnEntries(Reset(t, p))
    ensures Finish(Reset(t, p), RmNode(At(t, p), start, end), start, end) == RmPath(t, p, start, end)
    decreases |p|
  {
    ResetOnEntries(t, p);
    if p != [] {
      var sub, l, leaf := t.kids[p[0]].sub, Level(t.kids, p[0], |t.kids| + 1), RmNode(At(t, p), start, end);
      ResetFinishes(sub, p[1..], start, end);
      FinishFirst(l, Reset(sub, p[1..]), leaf, start, end);
      assert Finish(Reset(t, p), leaf, start, end) == Above(l, RmPath(sub, p[1..], start, end), start, end);
      ResetGoesOn(t, p, start, end);
    }
  }

  /** What the walk does at the root, once everything below is done. */
  lemma {:induction false} WalkAtRoot(t: Tree, p: Path, start: nat, end: nat)
    requires IsPath(t, p) && p != []
    ensures WalkTree(t, p, start, end)
            == Above(Level(t.kids, p[0], t.kids[p[0]].blk), RmPath(t.kids[p[0]].sub, p[1..], start, end), start, end)
  {
    var sub, l := t.kids[p[0]].sub, Level(t.kids, p[0], t.kids[p[0]].blk);
    ResetFinishes(sub, p[1..], start, end);
    FinishFirst(l, Reset(sub, p[1..]), RmNode(At(t, p), start, end), start, end);
  }

  /** The block number at the root is the number of entries that are left there. */
  predicate CountMet(t: Tree, p: Path, start: nat, end: nat)
    requires IsPath(t, p)
  {
    p != [] && t.kids[p[0]].blk ==
      |t.kids| - if Empty(RmPath(t.kids[p[0]].sub, p[1..], start, end)) then 1 else 0
  }

  /** Block numbers above the number of entries of the root let the walk go on at the root. */
  lemma {:induction false} WalkIsRmPath(t: Tree, p: Path, start: nat, end: nat)
    requires IsPath(t, p) && !CountMet(t, p, start, end)
    ensures WalkTree(t, p, start, end) == RmPath(t, p, start, end)
  {
    if p != [] {
      WalkAtRoot(t, p, start, end);
      AboveGoesOn(Level(t.kids, p[0], t.kids[p[0]].blk), RmPath(t.kids[p[0]].sub, p[1..], start, end), start, end);
    }
  }

  // ----- what holds at every step -----

  /** The entries in front of the one that the walk is at are still to be visited. */
  ghost predicate LeftOk(l: Level, d: nat, B: nat, end: nat)
  {
    && OnEntry(l) && AllKids(l.kids[..l.idx], d, B)
    && Sorted(FlatKids(l.kids[..l.idx])) && UpTo(FlatKids(l.kids[..l.idx]), end)
  }

  ghost predicate RowsOk(ls: seq<Level>, d: nat, B: nat, end: nat)
    decreases |ls|
  {
    |ls| <= d && (ls == [] || (RowsOk(ls[..|ls| - 1], d, B, end) && LeftOk(ls[|ls| - 1], d - |ls|, B, end)))
  }

  ghost predicate FreshOk(t: Tree, d: nat, B: nat, end: nat)
  {
    match t
    case Leaf(exts) => d == 0 && Sorted(exts) && Clean(exts, end)
    case Index(_) => Shape(t, d, B, B) && Sorted(Flat(t)) && UpTo(Flat(t), end)
  }

  lemma {:induction false} RowsOnEntries(ls: seq<Level>, d: nat, B: nat, end: nat)
    requires RowsOk(ls, d, B, end)
    ensures OnEntries(ls)
    decreases |ls|
  {
    if ls != [] {
      RowsOnEntries(ls[..|ls| - 1], d, B, end);
      forall i | 0 <= i < |ls| ensures OnEntry(ls[i]) { if i < |ls| - 1 { assert ls[i] == ls[..|ls| - 1][i]; } }
    }
  }

  /** The last of the entries that are still to be visited. */
  lemma {:induction false} LastLeft(row: seq<Kid>, d: nat, B: nat, end: nat)
    requires row != [] && AllKids(row, d, B) && Sorted(FlatKids(row)) && UpTo(FlatKids(row), end)
    ensures var k, front := row[|row| - 1], row[..|row| - 1];
            && AllKids(front, d, B) && Sorted(FlatKids(front)) && UpTo(FlatKids(front), end)
            && FreshOk(k.sub, d, B, end)
  {
    var k, front := row[|row| - 1], row[..|row| - 1];
    LastKid(row);
    SortedConcat(FlatKids(front), Flat(k.sub));
    UpToParts(FlatKids(front), Flat(k.sub), end);
    assert KidShape(k, d, B);
    assert Shape(k.sub, d, B, B);
  }

  lemma {:induction false} EnterOk(kids: seq<Kid>, d: nat, B: nat, end: nat)
    requires kids != [] && FreshOk(Index(kids), d, B, end)
    ensures d > 0 && LeftOk(Level(kids, |kids| - 1, |kids|), d - 1, B, end)
            && FreshOk(kids[|kids| - 1].sub, d - 1, B, end)
  {
    LastLeft(kids, d - 1, B, end);
  }

  lemma {:induction false} NextOk(l: Level, sub: Tree, d: nat, B: nat, end: nat)
    requires LeftOk(l, d, B, end) && l.idx > 0
    ensures var kids := Joined(l, sub);
            && l.idx - 1 < |kids| && LeftOk(Level(kids, l.idx - 1, |kids|), d, B, end)
            && FreshOk(kids[l.idx - 1].sub, d, B, end)
  {
    var kids, left := Joined(l, sub), l.kids[..l.idx];
    assert kids[..l.idx - 1] == left[..|left| - 1] && kids[l.idx - 1] == left[|left| - 1];
    LastLeft(left, d, B, end);
  }

  lemma {:induction false} RowsFirst(l: Level, ls: seq<Level>, d: nat, B: nat, end: nat)
    requires d > 0 && LeftOk(l, d - 1, B, end) && RowsOk(ls, d - 1, B, end)
    ensures RowsOk([l] + ls, d, B, end)
    decreases |ls|
  {
    var all := [l] + ls;
    if ls == [] {
      assert all == [l] && all[..0] == [];
    } else {
      assert all[..|all| - 1] == [l] + ls[..|ls| - 1] && all[|all| - 1] == ls[|ls| - 1];
      RowsFirst(l, ls[..|ls| - 1], d, B, end);
    }
  }

  lemma {:induction false} ResetOk(t: Tree, p: Path, d: nat, cap: nat, B: nat, end: nat)
    requires Shape(t, d, cap, B) && Sorted(Flat(t)) && |p| == d && CutsAt(t, p, end)
    ensures RowsOk(Reset(t, p), d, B, end)
    decreases |p|
  {
    if p != [] {
      AlongStep(t, p, end, d, cap, B);
      ResetOk(t.kids[p[0]].sub, p[1..], d - 1, B, B, end);
      RowOk(t, p, d, B, end, Reset(t.kids[p[0]].sub, p[1..]), |t.kids| + 1);
    }
  }

  lemma {:induction false} RowOk(t: Tree, p: Path, d: nat, B: nat, end: nat, ls: seq<Level>, block: nat)
    requires d > 0 && p != [] && IsPath(t, p) && AllKids(t.kids[..p[0]], d - 1, B)
    requires Sorted(FlatKids(t.kids[..p[0]])) && UpTo(FlatKids(t.kids[..p[0]]), end) && RowsOk(ls, d - 1, B, end)
    ensures RowsOk([Level(t.kids, p[0], block)] + ls, d, B, end)
  {
    RowsFirst(Level(t.kids, p[0], block), ls, d, B, end);
  }

  lemma {:induction false} FreshAt(t: Tree, p: Path, d: nat, cap: nat, B: nat, end: nat)
    requires Shape(t, d, cap, B) && Sorted(Flat(t)) && |p| == d && CutsAt(t, p, end)
    ensures FreshOk(At(t, p), 0, B, end)
    decreases |p|
  {
    if p != [] {
      AlongStep(t, p, end, d, cap, B);
      FreshAt(t.kids[p[0]].sub, p[1..], d - 1, B, B, end);
    }
  }

  /** The walk can start. */
  lemma {:induction false} StartedOk(t: Tree, p: Path, d: nat, cap: nat, B: nat, end: nat)
    requires Shape(t, d, cap, B) && Sorted(Flat(t)) && |p| == d && CutsAt(t, p, end)
    ensures RowsOk(Started(t, p), d, B, end) && FreshOk(At(t, p), 0, B, end)
  {
    FreshAt(t, p, d, cap, B, end);
    if p != [] {
      AlongStep(t, p, end, d, cap, B);
      ResetOk(t.kids[p[0]].sub, p[1..], d - 1, B, B, end);
      RowOk(t, p, d, B, end, Reset(t.kids[p[0]].sub, p[1..]), t.kids[p[0]].blk);
    }
  }

  // ----- how far the walk still has to go -----

  ghost function Cost(t: Tree): nat
    decreases t, 1
  {
    match t
    case Leaf(_) => 1
    case Index(kids) => 2 + KidsCost(kids)
  }

  ghost function KidsCost(kids: seq<Kid>): nat
    decreases kids, 0
  {
    if kids == [] then 0 else KidsCost(kids[..|kids| - 1]) + KidCost(kids[|kids| - 1])
  }

  ghost function KidCost(k: Kid): nat
    decreases k, 0
  {
    Cost(k.sub)
  }

  ghost function LevelsCost(ls: seq<Level>): nat
    requires OnEntries(ls)
    decreases |ls|
  {
    if ls == [] then 0
    else LevelsCost(ls[..|ls| - 1]) + KidsCost(ls[|ls| - 1].kids[..ls[|ls| - 1].idx]) + 1
  }

  ghost function Todo(ls: seq<Level>, w: Work): nat
    requires OnEntries(ls)
  {
    LevelsCost(ls) + if w.Fresh? then Cost(w.node) else 0
  }

  // ----- the tree that the levels are part of -----

  /** The tree at this point of the walk: `sub` in its place below the last level. */
  ghost function Assemble(ls: seq<Level>, sub: Tree): Tree
    requires OnEntries(ls)
    decreases |ls|
  {
    if ls == [] then sub
    else
      var l := ls[|ls| - 1];
      Assemble(ls[..|ls| - 1], Index(l.kids[l.idx := l.kids[l.idx].(sub := sub)]))
  }

  lemma {:induction false} AssembleFirst(l: Level, ls: seq<Level>, sub: Tree)
    requires OnEntry(l) && OnEntries(ls)
    ensures OnEntries([l] + ls)
    ensures Assemble([l] + ls, sub) == Index(l.kids[l.idx := l.kids[l.idx].(sub := Assemble(ls, sub))])
    decreases |ls|
  {
    var all := [l] + ls;
    if ls == [] {
      assert all == [l] && all[..0] == [];
    } else {
      var m := ls[|ls| - 1];
      assert all[..|all| - 1] == [l] + ls[..|ls| - 1] && all[|all| - 1] == m;
      AssembleFirst(l, ls[..|ls| - 1], Index(m.kids[m.idx := m.kids[m.idx].(sub := sub)]));
    }
  }

  lemma {:induction false} ResetAssembles(t: Tree, p: Path)
    requires IsPath(t, p)
    ensures OnEntries(Reset(t, p)) && Assemble(Reset(t, p), At(t, p)) == t
    decreases |p|
  {
    ResetOnEntries(t, p);
    if p != [] {
      ResetAssembles(t.kids[p[0]].sub, p[1..]);
      AssembleFirst(Level(t.kids, p[0], |t.kids| + 1), Reset(t.kids[p[0]].sub, p[1..]), At(t, p));
    }
  }

  lemma {:induction false} StartedAssembles(t: Tree, p: Path)
    requires IsPath(t, p)
    ensures OnEntries(Started(t, p)) && Assemble(Started(t, p), At(t, p)) == t
  {
    ResetOnEntries(t, p);
    if p != [] {
      ResetAssembles(t.kids[p[0]].sub, p[1..]);
      AssembleFirst(Level(t.kids, p[0], t.kids[p[0]].blk), Reset(t.kids[p[0]].sub, p[1..]), At(t, p));
    }
  }

  // ----- one step -----

  lemma {:induction false} PushedRows(ls: seq<Level>, l: Level, d: nat, B: nat, end: nat)
    requires RowsOk(ls, d, B, end) && |ls| < d && LeftOk(l, d - |ls| - 1, B, end)
    ensures RowsOk(ls + [l], d, B, end)
  {
    var all := ls + [l];
    assert all[..|all| - 1] == ls && all[|all| - 1] == l;
  }

  lemma {:induction false} AssembleLast(ls: seq<Level>, l: Level, sub: Tree)
    requires OnEntries(ls) && OnEntry(l)
    ensures OnEntries(ls + [l])
    ensures Assemble(ls + [l], sub) == Assemble(ls, Index(l.kids[l.idx := l.kids[l.idx].(sub := sub)]))
  {
    var all := ls + [l];
    assert all[..|all| - 1] == ls && all[|all| - 1] == l;
  }

  /** Going to an entry with its own child. */
  lemma {:induction false} AssembleAt(ls: seq<Level>, kids: seq<Kid>, idx: nat, block: nat)
    requires OnEntries(ls) && idx < |kids|
    ensures OnEntries(ls + [Level(kids, idx, block)])
    ensures Assemble(ls + [Level(kids, idx, block)], kids[idx].sub) == Assemble(ls, Index(kids))
  {
    AssembleLast(ls, Level(kids, idx, block), kids[idx].sub);
    assert kids[idx := kids[idx].(sub := kids[idx].sub)] == kids;
  }

  lemma {:induction false} CostLast(ls: seq<Level>, l: Level)
    requires OnEntries(ls) && OnEntry(l)
    ensures OnEntries(ls + [l]) && LevelsCost(ls + [l]) == LevelsCost(ls) + KidsCost(l.kids[..l.idx]) + 1
  {
    var all := ls + [l];
    assert all[..|all| - 1] == ls && all[|all| - 1] == l;
  }

  lemma {:induction false} LastCost(row: seq<Kid>)
    requires row != []
    ensures KidsCost(row) == KidsCost(row[..|row| - 1]) + Cost(row[|row| - 1].sub)
  {
    assert KidCost(row[|row| - 1]) == Cost(row[|row| - 1].sub);
  }

  /** Entering an index node: the outcome stays, and less is left to do. */
  lemma {:induction false} EnterOutcome(ls: seq<Level>, kids: seq<Kid>, start: nat, end: nat)
    requires OnEntries(ls) && kids != []
    ensures var ls', sub := ls + [Level(kids, |kids| - 1, |kids|)], kids[|kids| - 1].sub;
            && OnEntries(ls')
            && Finish(ls', RmNode(sub, start, end), start, end) == Finish(ls, RmNode(Index(kids), start, end), start, end)
            && Todo(ls', Fresh(sub)) < Todo(ls, Fresh(Index(kids)))
  {
    var l, sub := Level(kids, |kids| - 1, |kids|), kids[|kids| - 1].sub;
    FinishLast(ls, l, RmNode(sub, start, end), start, end);
    EnterStep(kids, start, end);
    CostLast(ls, l);
    LastCost(kids);
  }

  /** Going on to the entry in front: the outcome stays, and so does what is left to do. */
  lemma {:induction false} NextOutcome(ls: seq<Level>, l: Level, sub: Tree, start: nat, end: nat)
    requires OnEntries(ls) && OnEntry(l) && More(l, Joined(l, sub))
    ensures var kids := Joined(l, sub);
            && l.idx - 1 < |kids|
            && var ls', next := ls + [Level(kids, l.idx - 1, |kids|)], kids[l.idx - 1].sub;
            && OnEntries(ls') && OnEntries(ls + [l])
            && Finish(ls', RmNode(next, start, end), start, end) == Finish(ls + [l], sub, start, end)
            && Todo(ls', Fresh(next)) == Todo(ls + [l], Done(sub))
  {
    var kids, left := Joined(l, sub), l.kids[..l.idx];
    var l', next := Level(kids, l.idx - 1, |kids|), kids[l.idx - 1].sub;
    FinishLast(ls, l', RmNode(next, start, end), start, end);
    FinishLast(ls, l, sub, start, end);
    NextStep(l, sub, start, end);
    CostLast(ls, l');
    CostLast(ls, l);
    assert kids[..l.idx - 1] == left[..|left| - 1] && kids[l.idx - 1] == left[|left| - 1];
    LastCost(left);
  }

  /** Going up: the outcome stays, and less is left to do. */
  lemma {:induction false} UpOutcome(ls: seq<Level>, l: Level, sub: Tree, start: nat, end: nat)
    requires OnEntries(ls) && OnEntry(l) && !More(l, Joined(l, sub))
    ensures OnEntries(ls + [l])
    ensures Finish(ls, Index(Joined(l, sub)), start, end) == Finish(ls + [l], sub, start, end)
    ensures Todo(ls, Done(Index(Joined(l, sub)))) < Todo(ls + [l], Done(sub))
  {
    FinishLast(ls, l, sub, start, end);
    CostLast(ls, l);
  }

  // ----- exactly when the walk is right -----

  ghost predicate EndsBy(s: seq<Extent>, start: nat)
  {
    forall i :: 0 <= i < |s| ==> s[i].End() <= start
  }

  lemma {:induction false} NodeUntouched(t: Tree, d: nat, cap: nat, B: nat, start: nat, end: nat)
    requires Shape(t, d, cap, B) && EndsBy(Flat(t), start)
    ensures RmNode(t, start, end) == t
    decreases d, 1, 0
  {
    match t {
      case Leaf(exts) => PunchUntouched(exts, start, end);
      case Index(kids) => KidsUntouched(kids, d - 1, B, start, end);
    }
  }

  lemma {:induction false} KidsUntouched(kids: seq<Kid>, d: nat, B: nat, start: nat, end: nat)
    requires AllKids(kids, d, B) && EndsBy(FlatKids(kids), start)
    ensures RmKids(kids, start, end) == kids
    decreases d + 1, 0, |kids|
  {
    if kids != [] {
      var front, k := kids[..|kids| - 1], kids[|kids| - 1];
      LastKid(kids);
      var a, b := FlatKids(front), Flat(k.sub);
      forall i | 0 <= i < |b| ensures b[i].End() <= start { assert b[i] == (a + b)[|a| + i]; }
      assert KidShape(k, d, B);
      NodeUntouched(k.sub, d, B, B, start, end);
      assert RmKid(k, start, end) == k.sub;
      assert front + Keep(k, k.sub) == kids;
    }
  }

  lemma {:induction false} PunchTouched(s: seq<Extent>, start: nat, end: nat)
    requires Sorted(s) && UpTo(s, end) && start <= end + 1 && !EndsBy(s, start)
    ensures Punch(s, start, end) != s
  {
    var i :| 0 <= i < |s| && s[i].End() > start;
    SortedAt(s, i);
    LookupAt(s, i, s[i].End() - 1);
    PunchLookup(s, start, end, s[i].End() - 1);
  }

  lemma {:induction false} KidsTouched(kids: seq<Kid>, d: nat, B: nat, start: nat, end: nat)
    requires AllKids(kids, d, B) && Sorted(FlatKids(kids)) && UpTo(FlatKids(kids), end) && start <= end + 1
    requires !EndsBy(FlatKids(kids), start)
    ensures RmKids(kids, start, end) != kids
  {
    RmKidsCorrect(kids, d, B, start, end);
    PunchTouched(FlatKids(kids), start, end);
  }

  lemma {:induction false} AlongStep(t: Tree, p: Path, end: nat, d: nat, cap: nat, B: nat)
    requires Shape(t, d, cap, B) && Sorted(Flat(t)) && |p| == d > 0 && CutsAt(t, p, end)
    ensures var i, k := p[0], t.kids[p[0]];
            && Shape(k.sub, d - 1, B, B) && Sorted(Flat(k.sub)) && CutsAt(k.sub, p[1..], end)
            && AllKids(t.kids[..i], d - 1, B) && Sorted(FlatKids(t.kids[..i])) && UpTo(FlatKids(t.kids[..i]), end)
  {
    var i, k := p[0], t.kids[p[0]];
    FlatKidsAround(t.kids, i);
    SortedMiddle(FlatKids(t.kids[..i]), Flat(k.sub), FlatKids(t.kids[i + 1..]));
    KidsInFront(t, i, d, cap, B);
    CutsBelow(t, p, end);
  }

  lemma {:induction false} KidsInFront(t: Tree, i: nat, d: nat, cap: nat, B: nat)
    requires d > 0 && Shape(t, d, cap, B) && i < |t.kids|
    ensures AllKids(t.kids[..i], d - 1, B) && Shape(t.kids[i].sub, d - 1, B, B)
  {
    assert KidShape(t.kids[i], d - 1, B);
    forall j | 0 <= j < i ensures KidShape(t.kids[..i][j], d - 1, B) { assert t.kids[..i][j] == t.kids[j]; }
  }

  /** A cut through a tree cuts through the child on its path, and the children in front end before it. */
  lemma {:induction false} CutsBelow(t: Tree, p: Path, end: nat)
    requires p != [] && CutsAt(t, p, end)
    ensures CutsAt(t.kids[p[0]].sub, p[1..], end) && UpTo(FlatKids(t.kids[..p[0]]), end)
  {
    var i, k := p[0], t.kids[p[0]];
    var l, m, r := FlatKids(t.kids[..i]), Flat(k.sub), FlatKids(t.kids[i + 1..]);
    FlatKidsAround(t.kids, i);
    UpToParts(l, Pre(k.sub, p[1..]), end);
    BeyondParts(Post(k.sub, p[1..]), r, end);
    CleanMiddle(l, m, r, end);
  }

  lemma {:induction false} CleanMiddle(l: seq<Extent>, m: seq<Extent>, r: seq<Extent>, end: nat)
    requires Clean(l + (m + r), end)
    ensures Clean(m, end)
  {
    var s := l + (m + r);
    forall j | 0 <= j < |m| ensures m[j].End() <= end + 1 || end < m[j].lblk { assert m[j] == s[|l| + j]; }
  }

  /** A stale block number at the root leaves the entries in front alone. */
  lemma {:induction false} StaleWalk(t: Tree, p: Path, start: nat, end: nat)
    requires IsPath(t, p) && CountMet(t, p, start, end)
    ensures var rest := Keep(t.kids[p[0]], RmPath(t.kids[p[0]].sub, p[1..], start, end)) + t.kids[p[0] + 1..];
            && WalkTree(t, p, start, end) == Index(t.kids[..p[0]] + rest)
            && RmPath(t, p, start, end) == Index(RmKids(t.kids[..p[0]], start, end) + rest)
  {
    WalkAtRoot(t, p, start, end);
  }

  /** All extents lie in blocks start..end. */
  predicate Within(s: seq<Extent>, start: nat, end: nat)
  {
    forall i :: 0 <= i < |s| ==> start <= s[i].lblk && s[i].End() <= end + 1
  }

  /** The block number at the root is the number of its entries, counted without the path's entry if
      the range holds everything below it. */
  predicate Stale(t: Tree, p: Path, start: nat, end: nat)
    requires IsPath(t, p)
  {
    p != [] && t.kids[p[0]].blk == |t.kids| - if Within(Flat(t.kids[p[0]].sub), start, end) then 1 else 0
  }

  lemma {:induction false} PunchEmpty(s: seq<Extent>, start: nat, end: nat)
    requires Sorted(s) && Clean(s, end)
    ensures Punch(s, start, end) == [] <==> Within(s, start, end)
    decreases |s|
  {
    if s != [] {
      var rest := s[1..];
      assert forall i :: 0 <= i < |rest| ==> rest[i] == s[i + 1];
      assert forall i :: 1 <= i < |s| ==> s[i] == rest[i - 1];
      PunchEmpty(rest, start, end);
    }
  }

  lemma {:induction false} StaleIsMet(t: Tree, p: Path, d: nat, cap: nat, B: nat, start: nat, end: nat)
    requires Shape(t, d, cap, B) && Sorted(Flat(t)) && |p| == d && CutsAt(t, p, end)
    ensures Stale(t, p, start, end) <==> CountMet(t, p, start, end)
  {
    if p != [] {
      var sub := t.kids[p[0]].sub;
      AlongStep(t, p, end, d, cap, B);
      RmPathCorrect(sub, p[1..], d - 1, B, B, start, end);
      PunchEmpty(Flat(sub), start, end);
      var left := RmPath(sub, p[1..], start, end);
      if Empty(left) { EmptyFlat(left); } else { FirstKey(left, d - 1, B, B); }
    }
  }

  /** The walk leaves what it should unless the block number at the root happens to be the number of
      entries left there and an extent in front of the path's entry reaches past `start`. */
  lemma {:induction false} WalkExact(t: Tree, p: Path, d: nat, cap: nat, B: nat, start: nat, end: nat)
    requires Shape(t, d, cap, B) && Sorted(Flat(t)) && |p| == d && CutsAt(t, p, end) && start <= end + 1
    ensures WalkTree(t, p, start, end) == RmPath(t, p, start, end)
            <==> (Stale(t, p, start, end) ==> EndsBy(FlatKids(t.kids[..p[0]]), start))
  {
    StaleIsMet(t, p, d, cap, B, start, end);
    if Stale(t, p, start, end) {
      AlongStep(t, p, end, d, cap, B);
      var left := t.kids[..p[0]];
      StaleWalk(t, p, start, end);
      if EndsBy(FlatKids(left), start) {
        KidsUntouched(left, d - 1, B, start, end);
      } else {
        KidsTouched(left, d - 1, B, start, end);
        SameFront(RmKids(left, start, end), left,
                  Keep(t.kids[p[0]], RmPath(t.kids[p[0]].sub, p[1..], start, end)) + t.kids[p[0] + 1..]);
      }
    } else {
      WalkIsRmPath(t, p, start, end);
    }
  }

  lemma {:induction false} SameFront(a: seq<Kid>, b: seq<Kid>, c: seq<Kid>)
    ensures a + c == b + c ==> a == b
  {
    if a + c == b + c {
      assert |a| == |b|;
      assert a == (a + c)[..|a|] && b == (b + c)[..|b|];
    }
  }

  /** A root of two entries whose second one is stored in block 2: removing blocks 3 to 15 leaves the
      second leaf with its last extent, the walk takes 2 for the number of entries before, and stops
      in front of the first leaf. Block 3 stays mapped. */
  lemma {:induction false} StaleStops()
    ensures var a, b := Leaf([Extent(0, 5, 100, false)]), Leaf([Extent(10, 2, 200, false), Extent(20, 2, 300, false)]);
            var t := Index([Kid(0, 9, a), Kid(10, 2, b)]);
            && Shape(t, 1, 2, 3) && Sorted(Flat(t)) && CutsAt(t, [1], 15)
            && WalkTree(t, [1], 3, 15) != RmPath(t, [1], 3, 15)
            && Lookup(Flat(WalkTree(t, [1], 3, 15)), 3) == To(103, false)
  {
    var e0, e1, e2 := Extent(0, 5, 100, false), Extent(10, 2, 200, false), Extent(20, 2, 300, false);
    var a, b, p := Leaf([e0]), Leaf([e1, e2]), [1];
    var k0, k1 := Kid(0, 9, a), Kid(10, 2, b);
    var t := Index([k0, k1]);
    assert Shape(t, 1, 2, 3) by { assert KidShape(k0, 0, 3) && KidShape(k1, 0, 3); }
    StaleFlat(k0, k1, e0, e1, e2);
    assert p[1..] == [] && t.kids[..1] == [k0] && t.kids[2..] == [];
    assert [e1, e2][1..] == [e2] && [e2][1..] == [];
    assert Punch([e2], 3, 15) == [e2] + [] == [e2];
    assert Punch([e1, e2], 3, 15) == [] + [e2] == [e2];
    var sub := Leaf([e2]);
    assert RmPath(b, [], 3, 15) == sub;
    WalkAtRoot(t, p, 3, 15);
    var k2 := Kid(20, 2, sub);
    assert Joined(Level(t.kids, 1, 2), sub) == [k0] + ([k2] + []) == [k0, k2];
    assert WalkTree(t, p, 3, 15) == Index([k0, k2]);
    assert [k0, k2][1..] == [k2] && Flat(Index([k0, k2])) == [e0] + FlatKids([k2]);
    assert Lookup(Flat(Index([k0, k2])), 3) == e0.Target(3);
    WalkExact(t, p, 1, 2, 3, 3, 15);
    assert FlatKids([k0])[0] == e0;
  }

  lemma {:induction false} StaleFlat(k0: Kid, k1: Kid, e0: Extent, e1: Extent, e2: Extent)
    requires e0 == Extent(0, 5, 100, false) && e1 == Extent(10, 2, 200, false) && e2 == Extent(20, 2, 300, false)
    requires k0 == Kid(0, 9, Leaf([e0])) && k1 == Kid(10, 2, Leaf([e1, e2]))
    ensures var t := Index([k0, k1]);
            Flat(t) == [e0, e1, e2] && Sorted(Flat(t)) && CutsAt(t, [1], 15) && FlatKids([k0]) == [e0]
  {
    var t, p := Index([k0, k1]), [1];
    assert [k0, k1][1..] == [k1] && [k1][1..] == [] && [k0][1..] == [];
    assert FlatKid(k1) == Flat(k1.sub) == [e1, e2] && FlatKid(k0) == Flat(k0.sub) == [e0];
    assert FlatKids([k1]) == [e1, e2] + FlatKids([]) == [e1, e2];
    assert FlatKids([k0]) == [e0] + FlatKids([]) == [e0];
    assert Flat(t) == [e0] + [e1, e2] == [e0, e1, e2];
    assert Sorted([e0, e1, e2]) by {
      assert [e0, e1, e2][1..] == [e1, e2] && [e1, e2][1..] == [e2] && [e2][1..] == [];
      assert Sorted([e2]) && Sorted([e1, e2]);
    }
    assert p[1..] == [] && t.kids[..1] == [k0] && t.kids[2..] == [];
    assert Pre(t, p) == [e0] + [] == [e0];
    assert Post(t, p) == [] + [] == [];
  }
}
