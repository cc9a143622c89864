/** The tree between a split and the insertion that made the split necessary: its new leaf may still
    be empty, and the search for the new extent is repeated on it (kernfs/extents.c). */
module ExtentSplit {
  import opened ExtentSeq
  import opened LeafOps
  import opened Options
  import opened ExtentTree
  import opened ExtentInsert
  import opened ExtentInsertProofs
  import opened ExtentSearch

  function Zeros(n: nat): Path { if n == 0 then [] else [0] + Zeros(n - 1) }

  /** Where the new leaf of a split ends up. */
  function SibPath(t: Tree, p: Path, cap: nat, B: nat): Path
    requires IsPath(t, p)
    decreases |p|
  {
    if p == [] then []
    else if HasRoom(t.kids[p[0]].sub, p[1..], B, B) then [p[0]] + SibPath(t.kids[p[0]].sub, p[1..], B, B)
    else [p[0] + 1] + Zeros(|p| - 1)
  }

  lemma {:induction false} RoomIsNone(t: Tree, p: Path, left: Tree, right: Kid, cap: nat, B: nat, spare: seq<nat>)
    requires IsPath(t, p) && !Empty(left) && |spare| > |p|
    ensures AddSibling(t, p, left, right, cap, B, spare).1.None? <==> HasRoom(t, p, cap, B)
    decreases |p|
  {
    if p != [] { RoomIsNone(t.kids[p[0]].sub, p[1..], left, right, B, B, spare); }
  }

  /** Changing the left leaf after the split is splitting with the changed leaf. */
  lemma {:induction false} PutLeft(t: Tree, p: Path, left: Tree, left': Tree, right: Kid, cap: nat, B: nat,
          spare: seq<nat>)
    requires IsPath(t, p) && !Empty(left) && !Empty(left') && |spare| > |p|
    ensures var r, r' := AddSibling(t, p, left, right, cap, B, spare), AddSibling(t, p, left', right, cap, B, spare);
            IsPath(r.0, p) && At(r.0, p) == left && Put(r.0, p, left') == r'.0 && r'.1 == r.1
    decreases |p|
  {
    if p != [] {
      var i, s0 := p[0], t.kids[p[0]].sub;
      PutLeft(s0, p[1..], left, left', right, B, B, spare);
      var (sub, up) := AddSibling(s0, p[1..], left, right, B, B, spare);
      var (sub', up') := AddSibling(s0, p[1..], left', right, B, B, spare);
      AbsorbPut(t.kids, i, sub, sub', up, cap, spare[|p|]);
    }
  }

  lemma {:induction false} AbsorbPut(kids: seq<Kid>, i: nat, sub: Tree, sub': Tree, up: Option<Kid>, cap: nat, blk: nat)
    requires i < |kids| && !Empty(sub) && !Empty(sub')
    ensures var k, k' := Kid(MinKey(sub), kids[i].blk, sub), Kid(MinKey(sub'), kids[i].blk, sub');
            var r, r' := Absorb(kids[i := k], i, up, cap, blk), Absorb(kids[i := k'], i, up, cap, blk);
            && i < |r.0.kids| && r.0.kids[i] == k
            && r'.0 == Index(r.0.kids[i := k']) && r'.1 == r.1
  {
    var k, k' := Kid(MinKey(sub), kids[i].blk, sub), Kid(MinKey(sub'), kids[i].blk, sub');
    assert kids[i := k][i + 1..] == kids[i + 1..] == kids[i := k'][i + 1..];
    assert kids[i := k][..i + 1] == kids[..i] + [k];
    assert kids[i := k'][..i + 1] == kids[..i] + [k'];
  }

  /** Where the new leaf is while no node has taken the entry for it, and what filling it does. */
  lemma {:induction false} FillUp(t: Tree, p: Path, left: Tree, right: Kid, y: Tree, cap: nat, B: nat, spare: seq<nat>)
    requires IsPath(t, p) && !Empty(left) && !Empty(y) && |spare| > |p| && !HasRoom(t, p, cap, B)
    ensures var right' := Kid(MinKey(y), right.blk, y);
            var r, r' := AddSibling(t, p, left, right, cap, B, spare), AddSibling(t, p, left, right', cap, B, spare);
            && r.1.Some? && r'.1.Some? && r.0 == r'.0
            && IsPath(r.1.value.sub, Zeros(|p|)) && At(r.1.value.sub, Zeros(|p|)) == right.sub
            && r'.1.value == Kid(MinKey(y), r.1.value.blk, Put(r.1.value.sub, Zeros(|p|), y))
            && MinKey(r'.1.value.sub) == MinKey(y)
    decreases |p|
  {
    if p != [] {
      var right' := Kid(MinKey(y), right.blk, y);
      var i, s0 := p[0], t.kids[p[0]].sub;
      FillUp(s0, p[1..], left, right, y, B, B, spare);
      var (sub, up) := AddSibling(s0, p[1..], left, right, B, B, spare);
      var (sub', up') := AddSibling(s0, p[1..], left, right', B, B, spare);
      var z := Zeros(|p| - 1);
      assert ([0] + z)[1..] == z;
      AbsorbFill(t.kids[i := Kid(MinKey(sub), t.kids[i].blk, sub)], i, up.value, up'.value, cap, spare[|p|]);
    }
  }

  /** Filling the new leaf after the split is splitting with the filled leaf. */
  lemma {:induction false} PutRight(t: Tree, p: Path, left: Tree, right: Kid, y: Tree, cap: nat, B: nat,
          spare: seq<nat>)
    requires IsPath(t, p) && !Empty(left) && !Empty(y) && |spare| > |p| && HasRoom(t, p, cap, B)
    ensures var right' := Kid(MinKey(y), right.blk, y);
            var r, r' := AddSibling(t, p, left, right, cap, B, spare), AddSibling(t, p, left, right', cap, B, spare);
            var q := SibPath(t, p, cap, B);
            IsPath(r.0, q) && At(r.0, q) == right.sub && Put(r.0, q, y) == r'.0
    decreases |p|
  {
    var right' := Kid(MinKey(y), right.blk, y);
    var i, s0 := p[0], t.kids[p[0]].sub;
    var (sub, up) := AddSibling(s0, p[1..], left, right, B, B, spare);
    var (sub', up') := AddSibling(s0, p[1..], left, right', B, B, spare);
    var k := Kid(MinKey(sub), t.kids[i].blk, sub);
    RoomIsNone(s0, p[1..], left, right, B, B, spare);
    RoomIsNone(s0, p[1..], left, right', B, B, spare);
    if HasRoom(s0, p[1..], B, B) {
      PutRight(s0, p[1..], left, right, y, B, B, spare);
      var q := SibPath(s0, p[1..], B, B);
      assert ([i] + q)[1..] == q;
      var k' := Kid(MinKey(sub'), t.kids[i].blk, sub');
      assert t.kids[i := k][i := k'] == t.kids[i := k'];
    } else {
      FillUp(s0, p[1..], left, right, y, B, B, spare);
      var z := Zeros(|p| - 1);
      assert ([i + 1] + z)[1..] == z;
      AbsorbFill(t.kids[i := k], i, up.value, up'.value, cap, spare[|p|]);
    }
  }

  lemma {:induction false} AbsorbFill(kids: seq<Kid>, i: nat, n: Kid, n': Kid, cap: nat, blk: nat)
    requires i < |kids|
    ensures var r, r' := Absorb(kids, i, Some(n), cap, blk), Absorb(kids, i, Some(n'), cap, blk);
            if |kids| < cap then
              |r.0.kids| > i + 1 && r.0.kids[i + 1] == n && r'.0 == Index(r.0.kids[i + 1 := n'])
            else
              && r.0 == r'.0 && r.1.value.sub.kids != [] && r.1.value.sub.kids[0] == n
              && r'.1.value == Kid(n'.key, blk, Index(r.1.value.sub.kids[0 := n']))
  {
    var w := kids[..i + 1] + ([n] + kids[i + 1..]);
    assert w[i + 1 := n'] == kids[..i + 1] + ([n'] + kids[i + 1..]);
    assert ([n] + kids[i + 1..])[0 := n'] == [n'] + kids[i + 1..];
  }

  // ----- searching again -----

  /** The path is the one that a search for block b takes. */
  predicate Leads(t: Tree, p: Path, b: nat)
    requires IsPath(t, p)
    decreases |p|
  {
    p == [] ||
    (&& (p[0] > 0 ==> t.kids[p[0]].key <= b) && (p[0] + 1 < |t.kids| ==> b < t.kids[p[0] + 1].key)
     && Leads(t.kids[p[0]].sub, p[1..], b))
  }

  /** Block b belongs behind the start of every node on the path and in front of what follows it. */
  predicate Inside(t: Tree, p: Path, b: nat)
    requires IsPath(t, p)
    decreases |p|
  {
    p == [] ||
    (&& t.kids[p[0]].key < b && (p[0] + 1 < |t.kids| ==> b < t.kids[p[0] + 1].key)
     && Inside(t.kids[p[0]].sub, p[1..], b))
  }

  lemma {:induction false} LeadsIsFind(t: Tree, p: Path, b: nat, d: nat)
    requires Searchable(t, d) && IsPath(t, p) && |p| == d && Leads(t, p, b)
    ensures FindPath(t, b, d) == p
    decreases d
  {
    if d > 0 {
      NearestKidUnique(t.kids, p[0], b);
      LeadsIsFind(t.kids[p[0]].sub, p[1..], b, d - 1);
      assert [p[0]] + p[1..] == p;
    }
  }

  /** The smallest key of a tree is at most that of any node below. */
  lemma {:induction false} MinBelow(t: Tree, p: Path, d: nat, cap: nat, B: nat)
    requires Shape(t, d, cap, B) && Sorted(Flat(t)) && IsPath(t, p) && !Empty(t)
    ensures !Empty(At(t, p)) && Flat(At(t, p)) != [] && MinKey(t) <= Flat(At(t, p))[0].lblk
    decreases |p|
  {
    if p == [] {
      FirstKey(t, d, cap, B);
    } else {
      assert KidShape(t.kids[p[0]], d - 1, B);
      KidSorted(t.kids, p[0]);
      KeysIncreaseAll(t.kids, 0, p[0], d - 1, B);
      MinBelow(t.kids[p[0]].sub, p[1..], d - 1, B, B);
    }
  }

  lemma {:induction false} PostBelow(t: Tree, p: Path, r: seq<Extent>, b: nat)
    requires IsPath(t, p) && Sorted(Flat(t)) && Meets(Flat(t), r)
    requires Post(t, p) + r != [] ==> b < (Post(t, p) + r)[0].lblk
    ensures r != [] ==> b < r[0].lblk
    ensures Post(t, p) != [] ==> b < Post(t, p)[0].lblk
  {
    if Post(t, p) != [] {
      FlatAround(t, p);
      var a := Pre(t, p) + Flat(At(t, p));
      assert Flat(t) == a + Post(t, p);
      SortedConcat(a, Post(t, p));
      FirstBeforeEnd(Post(t, p));
    }
  }

  lemma {:induction false} KidMeets(kids: seq<Kid>, i: nat)
    requires i < |kids| && Sorted(FlatKids(kids))
    ensures Meets(Flat(kids[i].sub), FlatKids(kids[i + 1..])) && Sorted(Flat(kids[i].sub))
  {
    FlatKidsAround(kids, i);
    SortedMiddle(FlatKids(kids[..i]), Flat(kids[i].sub), FlatKids(kids[i + 1..]));
  }

  lemma {:induction false} NextAbove(t: Tree, p: Path, b: nat, d: nat, cap: nat, B: nat)
    requires Shape(t, d, cap, B) && Sorted(Flat(t)) && IsPath(t, p) && p != []
    requires Post(t, p) != [] ==> b < Post(t, p)[0].lblk
    ensures p[0] + 1 < |t.kids| ==> b < t.kids[p[0] + 1].key
    ensures var sub := t.kids[p[0]].sub; Post(sub, p[1..]) != [] ==> b < Post(sub, p[1..])[0].lblk
  {
    var i, sub, r := p[0], t.kids[p[0]].sub, FlatKids(t.kids[p[0] + 1..]);
    KidMeets(t.kids, i);
    assert Post(t, p) == Post(sub, p[1..]) + r;
    PostBelow(sub, p[1..], r, b);
    if i + 1 < |t.kids| {
      assert KidShape(t.kids[i + 1], d - 1, B);
      FirstKeyAt(t.kids, i + 1, d - 1, B);
    }
  }

  lemma {:induction false} FirstInFront(t: Tree, i: nat, d: nat, cap: nat, B: nat)
    requires d > 0 && Shape(t, d, cap, B) && 0 < i < |t.kids|
    ensures FlatKids(t.kids[..i]) != []
  {
    assert KidShape(t.kids[0], d - 1, B);
    FirstKey(t.kids[0].sub, d - 1, B, B);
    assert t.kids[..i][0] == t.kids[0] && FlatKid(t.kids[0]) == Flat(t.kids[0].sub);
  }

  lemma {:induction false} LeadsOf(t: Tree, p: Path, b: nat, d: nat, cap: nat, B: nat)
    requires Shape(t, d, cap, B) && Sorted(Flat(t)) && IsPath(t, p) && Flat(At(t, p)) != []
    requires Pre(t, p) != [] ==> Flat(At(t, p))[0].lblk <= b
    requires Post(t, p) != [] ==> b < Post(t, p)[0].lblk
    ensures Leads(t, p, b)
    decreases |p|
  {
    if p != [] {
      var i, k := p[0], t.kids[p[0]];
      assert KidShape(k, d - 1, B);
      KidSorted(t.kids, i);
      NextAbove(t, p, b, d, cap, B);
      if i > 0 {
        FirstInFront(t, i, d, cap, B);
        MinBelow(k.sub, p[1..], d - 1, B, B);
      }
      LeadsOf(k.sub, p[1..], b, d - 1, B, B);
    }
  }

  lemma {:induction false} InsideOf(t: Tree, p: Path, b: nat, d: nat, cap: nat, B: nat)
    requires Shape(t, d, cap, B) && Sorted(Flat(t)) && IsPath(t, p) && Flat(At(t, p)) != []
    requires Flat(At(t, p))[0].lblk < b
    requires Post(t, p) != [] ==> b < Post(t, p)[0].lblk
    ensures Inside(t, p, b)
    decreases |p|
  {
    if p != [] {
      var k := t.kids[p[0]];
      InsideStep(t, p, b, d, cap, B);
      assert Inside(k.sub, p[1..], b) by { InsideOf(k.sub, p[1..], b, d - 1, B, B); }
    }
  }

  lemma {:induction false} InsideStep(t: Tree, p: Path, b: nat, d: nat, cap: nat, B: nat)
    requires Shape(t, d, cap, B) && Sorted(Flat(t)) && IsPath(t, p) && p != [] && Flat(At(t, p)) != []
    requires Flat(At(t, p))[0].lblk < b
    requires Post(t, p) != [] ==> b < Post(t, p)[0].lblk
    ensures var k := t.kids[p[0]];
            && Shape(k.sub, d - 1, B, B) && Sorted(Flat(k.sub)) && k.key < b && (p[0] + 1 < |t.kids| ==> b < t.kids[p[0] + 1].key)
            && (Post(k.sub, p[1..]) != [] ==> b < Post(k.sub, p[1..])[0].lblk)
  {
    var k := t.kids[p[0]];
    assert KidShape(k, d - 1, B);
    assert Sorted(Flat(k.sub)) by { KidSorted(t.kids, p[0]); }
    NextAbove(t, p, b, d, cap, B);
    assert k.key < b by { MinBelow(k.sub, p[1..], d - 1, B, B); }
  }

  lemma {:induction false} FindZeros(t: Tree, b: nat, d: nat)
    requires Searchable(t, d) && (d > 0 ==> ChainKey(t, b, d))
    ensures FindPath(t, b, d) == Zeros(d)
    decreases d
  {
    if d > 0 {
      NearestKidUnique(t.kids, 0, b);
      FindZeros(t.kids[0].sub, b, d - 1);
    }
  }

  /** Every leftmost entry has key b. */
  predicate ChainKey(t: Tree, b: nat, d: nat)
    decreases d
  {
    d == 0 || (t.Index? && t.kids != [] && t.kids[0].key == b && ChainKey(t.kids[0].sub, b, d - 1))
  }

  /** A node on the way of a split, and the entry that comes up from it. */
  ghost predicate SplitOk(t: Tree, d: nat, t': Tree, up: Option<Kid>, border: nat)
  {
    && Searchable(t', d) && !Empty(t') && !Empty(t) && MinKey(t') == MinKey(t)
    && (up.Some? ==> up.value.key == border && Searchable(up.value.sub, d) && ChainKey(up.value.sub, border, d))
  }

  lemma {:induction false} SplitSearchable(t: Tree, p: Path, d: nat, left: Tree, right: Kid, cap: nat, B: nat,
          spare: seq<nat>)
    requires Shape(t, d, cap, B) && Searchable(t, d) && IsPath(t, p) && |p| == d && |spare| > d
    requires !Empty(t) && !Empty(At(t, p)) && Inside(t, p, right.key)
    requires left.Leaf? && !Empty(left) && Sorted(left.exts) && MinKey(left) == MinKey(At(t, p))
    requires right.sub.Leaf? && Sorted(right.sub.exts)
    ensures var r := AddSibling(t, p, left, right, cap, B, spare);
            SplitOk(t, d, r.0, r.1, right.key)
    decreases d
  {
    if d > 0 {
      var i, s0 := p[0], t.kids[p[0]].sub;
      assert KidShape(t.kids[i], d - 1, B);
      SplitSearchable(s0, p[1..], d - 1, left, right, B, B, spare);
      var (sub, up) := AddSibling(s0, p[1..], left, right, B, B, spare);
      assert t.kids[i := Kid(MinKey(sub), t.kids[i].blk, sub)] == t.kids[i := t.kids[i].(sub := sub)];
      AbsorbSearchable(t.kids, i, sub, up, cap, spare[|p|], d - 1, right.key);
    }
  }

  lemma {:induction false} AbsorbSearchable(kids: seq<Kid>, i: nat, sub: Tree, up: Option<Kid>, cap: nat, blk: nat,
          d: nat, border: nat)
    requires i < |kids| && KeysGrow(kids) && !Empty(sub) && Searchable(sub, d)
    requires forall j :: 0 <= j < |kids| ==> Searchable(kids[j].sub, d)
    requires kids[i].key < border && (i + 1 < |kids| ==> border < kids[i + 1].key)
    requires up.Some? ==> up.value.key == border && Searchable(up.value.sub, d) && ChainKey(up.value.sub, border, d)
    ensures var r := Absorb(kids[i := kids[i].(sub := sub)], i, up, cap, blk);
            && Searchable(r.0, d + 1) && MinKey(r.0) == kids[0].key
            && (r.1.Some? ==> r.1.value.key == border && Searchable(r.1.value.sub, d + 1) && ChainKey(r.1.value.sub, border, d + 1))
  {
    var kids' := kids[i := kids[i].(sub := sub)];
    assert RowOk(kids', d);
    if up.Some? {
      if |kids| < cap { RowGains(kids', i, up.value, d); } else { RowHalves(kids', i, up.value, d); }
    }
  }

  ghost predicate RowOk(kids: seq<Kid>, d: nat)
  {
    kids != [] && KeysGrow(kids) && forall j :: 0 <= j < |kids| ==> Searchable(kids[j].sub, d)
  }

  lemma {:induction false} RowGains(kids: seq<Kid>, i: nat, n: Kid, d: nat)
    requires i < |kids| && RowOk(kids, d) && kids[i].key < n.key && (i + 1 < |kids| ==> n.key < kids[i + 1].key) && Searchable(n.sub, d)
    ensures RowOk(kids[..i + 1] + ([n] + kids[i + 1..]), d)
  {
  }

  lemma {:induction false} RowHalves(kids: seq<Kid>, i: nat, n: Kid, d: nat)
    requires i < |kids| && RowOk(kids, d) && (i + 1 < |kids| ==> n.key < kids[i + 1].key) && Searchable(n.sub, d)
    ensures RowOk(kids[..i + 1], d) && RowOk([n] + kids[i + 1..], d)
  {
  }

  ghost predicate Splittable(t: Tree, p: Path, d: nat, left: Tree, right: Kid, cap: nat, B: nat, spare: seq<nat>)
  {
    && Shape(t, d, cap, B) && Searchable(t, d) && IsPath(t, p) && |p| == d && |spare| > d
    && !Empty(t) && !Empty(At(t, p)) && Inside(t, p, right.key)
    && left.Leaf? && !Empty(left) && Sorted(left.exts) && MinKey(left) == MinKey(At(t, p))
    && right.sub.Leaf? && Sorted(right.sub.exts)
  }

  /** A block that belongs in front of the new leaf is still searched in the old one. */
  lemma {:induction false} FindLeft(t: Tree, p: Path, d: nat, left: Tree, right: Kid, cap: nat, B: nat,
          spare: seq<nat>, b: nat)
    requires Splittable(t, p, d, left, right, cap, B, spare) && Leads(t, p, b) && b < right.key
    ensures FindPath(AddSibling(t, p, left, right, cap, B, spare).0, b, d) == p
    decreases d
  {
    SplitSearchable(t, p, d, left, right, cap, B, spare);
    if d > 0 {
      var i, s0 := p[0], t.kids[p[0]].sub;
      assert KidShape(t.kids[i], d - 1, B);
      FindLeft(s0, p[1..], d - 1, left, right, B, B, spare, b);
      SplitSearchable(s0, p[1..], d - 1, left, right, B, B, spare);
      var (sub, up) := AddSibling(s0, p[1..], left, right, B, B, spare);
      AbsorbNearest(t.kids, i, sub, up, cap, spare[|p|], b);
      NearestKidUnique(AddSibling(t, p, left, right, cap, B, spare).0.kids, i, b);
      assert [i] + p[1..] == p;
    }
  }

  lemma {:induction false} AbsorbNearest(kids: seq<Kid>, i: nat, sub: Tree, up: Option<Kid>, cap: nat, blk: nat, b: nat)
    requires i < |kids| && !Empty(sub) && MinKey(sub) == kids[i].key
    requires (i > 0 ==> kids[i].key <= b) && (i + 1 < |kids| ==> b < kids[i + 1].key)
    requires up.Some? ==> b < up.value.key
    ensures var kids' := Absorb(kids[i := Kid(MinKey(sub), kids[i].blk, sub)], i, up, cap, blk).0.kids;
            && i < |kids'| && kids'[i].sub == sub && kids'[i].key == kids[i].key
            && (i + 1 < |kids'| ==> b < kids'[i + 1].key)
  {
  }

  /** The block that the new leaf was made for is searched in the new leaf. */
  lemma {:induction false} FindRight(t: Tree, p: Path, d: nat, left: Tree, right: Kid, cap: nat, B: nat,
          spare: seq<nat>)
    requires Splittable(t, p, d, left, right, cap, B, spare) && HasRoom(t, p, cap, B)
    ensures FindPath(AddSibling(t, p, left, right, cap, B, spare).0, right.key, d) == SibPath(t, p, cap, B)
    decreases d
  {
    SplitSearchable(t, p, d, left, right, cap, B, spare);
    var i, s0 := p[0], t.kids[p[0]].sub;
    assert KidShape(t.kids[i], d - 1, B);
    SplitSearchable(s0, p[1..], d - 1, left, right, B, B, spare);
    RoomIsNone(s0, p[1..], left, right, B, B, spare);
    var (sub, up) := AddSibling(s0, p[1..], left, right, B, B, spare);
    var kids' := AddSibling(t, p, left, right, cap, B, spare).0.kids;
    if HasRoom(s0, p[1..], B, B) {
      FindRight(s0, p[1..], d - 1, left, right, B, B, spare);
      NearestKidUnique(kids', i, right.key);
    } else {
      AbsorbFill(t.kids[i := Kid(MinKey(sub), t.kids[i].blk, sub)], i, up.value, up.value, cap, spare[|p|]);
      FindZeros(up.value.sub, right.key, d - 1);
      NearestKidUnique(kids', i + 1, right.key);
    }
  }
}
