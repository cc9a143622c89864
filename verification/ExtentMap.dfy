/** Looking up, converting and allocating the blocks of a file (kernfs/extents.c). */
module ExtentMap {
  import opened ExtentSeq
  import opened LeafOps
  import opened ExtentTree
  import opened ExtentInsert
  import opened ExtentInsertProofs
  import opened ExtentSearch
  import opened ExtentFile
  import opened ExtentTidy
  import opened ExtentSpace

  // ----- how far an allocation may reach -----

  /** Where the extent behind the one nearest to block b starts. */
  function NextStart(s: seq<Extent>, b: nat): nat
  {
    if s == [] || Nearest(s, b) + 1 == |s| then EXT_MAX_BLOCKS else s[Nearest(s, b) + 1].lblk
  }

  /** The number of blocks that an allocation of `len` blocks at the unmapped block b asks for. */
  function Clip(s: seq<Extent>, b: nat, len: nat): int
  {
    if NextStart(s, b) - b < len then NextStart(s, b) - b else len
  }

  /** An unwritten extent is one block shorter at most. */
  function Capped(len: nat, preIO: bool): nat
  {
    if preIO && len > EXT_UNWRITTEN_MAX_LEN then EXT_UNWRITTEN_MAX_LEN else len
  }

  /** The allocation starts behind some extent, or ends before the first one. */
  predicate Safe(s: seq<Extent>, b: nat, len: nat)
  {
    s == [] || s[0].lblk <= b || b + len <= s[0].lblk
  }

  lemma {:induction false} NearestIsBehind(s: seq<Extent>, b: nat)
    requires Sorted(s) && s != [] && s[0].lblk <= b && Lookup(s, b) == Hole
    ensures s[Nearest(s, b)].End() <= b
  {
    NearestIs(s, b);
    var k := Nearest(s, b);
    if b < s[k].End() { LookupAt(s, k, b); }
  }

  lemma {:induction false} ClipAvoids(s: seq<Extent>, b: nat, len: nat, e: Extent)
    requires Sorted(s) && Lookup(s, b) == Hole && Safe(s, b, len) && e.lblk == b && e.len <= Clip(s, b, len)
    ensures Avoids(s, e)
  {
    if s != [] {
      var k := Nearest(s, b);
      NearestIs(s, b);
      if s[0].lblk <= b { NearestIsBehind(s, b); }
      forall i | 0 <= i < |s| ensures Disjoint(s[i], e) {
        SortedAt(s, 0);
        if b < s[0].lblk {
          if i > 0 { SortedPair(s, 0, i); }
        } else if i < k {
          SortedPair(s, i, k);
          SortedAt(s, k);
        } else if k + 1 < i {
          SortedPair(s, k + 1, i);
          SortedAt(s, k + 1);
        }
      }
    }
  }

  /** Clipping against the next extent keeps an allocation off every extent exactly when it starts
      behind some extent or ends before the first one. */
  lemma {:induction false} ClipExact(s: seq<Extent>, b: nat, len: nat)
    requires Sorted(s) && Lookup(s, b) == Hole && 1 <= len && b + len <= EXT_MAX_BLOCKS
    ensures (forall e: Extent :: e.lblk == b && 1 <= e.len <= Clip(s, b, len) ==> Avoids(s, e)) <==> Safe(s, b, len)
  {
    if Safe(s, b, len) {
      forall e: Extent | e.lblk == b && 1 <= e.len <= Clip(s, b, len) ensures Avoids(s, e) { ClipAvoids(s, b, len, e); }
    } else {
      NearestIs(s, b);
      var k := Nearest(s, b);
      SortedAt(s, 0);
      if k > 0 { SortedPair(s, 0, k); }
      if 1 < |s| { SortedPair(s, 0, 1); }
      var e := Extent(b, Clip(s, b, len), 0, false);
      assert !Disjoint(s[0], e);
    }
  }

  /** As many blocks are asked for as possible: the request, or what one extent of its kind can hold, or
      what is free up to the next extent. */
  lemma {:induction false} WantIsLargest(s: seq<Extent>, b: nat, len: nat, preIO: bool)
    requires Sorted(s) && Lookup(s, b) == Hole && 1 <= len <= EXT_INIT_MAX_LEN && b + len <= EXT_MAX_BLOCKS
    requires Safe(s, b, Capped(len, preIO))
    ensures var n := Clip(s, b, Capped(len, preIO));
            && 1 <= n <= len && Extent(b, n, 0, preIO).Valid() && Avoids(s, Extent(b, n, 0, preIO))
            && (n == len || !Extent(b, n + 1, 0, preIO).Valid() || !Avoids(s, Extent(b, n + 1, 0, preIO)))
  {
    var len', n := Capped(len, preIO), Clip(s, b, Capped(len, preIO));
    if s != [] {
      NearestIs(s, b);
      SortedAt(s, 0);
    }
    ClipAvoids(s, b, len', Extent(b, n, 0, preIO));
    if n < len' {
      var k := Nearest(s, b) + 1;
      SortedAt(s, k);
      assert !Disjoint(s[k], Extent(b, n + 1, 0, preIO));
    }
  }

  /** An allocation in front of the first extent that runs into it. */
  lemma {:induction false} ClipMissesFirst()
    ensures var s := [Extent(5, 1, 100, false), Extent(20, 1, 200, false)];
            && Sorted(s) && Lookup(s, 3) == Hole && Clip(s, 3, 10) == 10
            && !Avoids(s, Extent(3, 10, 300, false))
  {
    var s := [Extent(5, 1, 100, false), Extent(20, 1, 200, false)];
    assert s[1..] == [Extent(20, 1, 200, false)] && s[..1] == [Extent(5, 1, 100, false)];
    assert Sorted(s[1..]);
    assert Nearest(s, 3) == Nearest(s[..1], 3) == 0;
    assert !Disjoint(s[0], Extent(3, 10, 300, false));
  }

  // ----- the request -----

  /** The answer to a request: the returned count, and the physical block, length and flags that the
      request structure carries afterwards. */
  datatype Answer = Answer(count: nat, pblk: nat, len: nat, found: bool, isNew: bool)

  /** Block b was mapped: the answer describes a contiguous part of the mapping. A request to create
      turns unwritten blocks into written ones from b to the end of their extent, and changes
      nothing else. */
  ghost predicate Hit(s: seq<Extent>, b: nat, len: nat, create: bool, a: Answer, s': seq<Extent>)
  {
    && Lookup(s, b).To? && a.found && !a.isNew && a.count == a.len <= len && (len >= 1 ==> a.count >= 1)
    && var t := Lookup(s, b);
       && (forall x: nat :: b <= x < b + a.count ==> Lookup(s, x) == To(t.pblk + (x - b), t.unwritten))
       && a.pblk == (if t.unwritten && !create then 0 else t.pblk)
       && exists k :: 0 <= k < |s| && HitIn(s, s[k], b, len, create, a, s')
  }

  /** The answer covers the rest of the extent, or the request when that is shorter; on an unwritten
      extent, a creating request marks the whole rest of it as written. */
  ghost predicate HitIn(s: seq<Extent>, ex: Extent, b: nat, len: nat, create: bool, a: Answer, s': seq<Extent>)
  {
    && ex.Covers(b) && a.count == (if ex.End() - b > len then len else ex.End() - b)
    && if ex.unwritten && create then Converted(s, b, ex.End() - b, ex.pblk + (b - ex.lblk), s') else s' == s
  }

  ghost predicate Converted(s: seq<Extent>, b: nat, rest: nat, p: nat, s': seq<Extent>)
  {
    && (forall x: nat :: b <= x < b + rest ==> Lookup(s, x) == To(p + (x - b), true))
    && (forall x: nat :: Lookup(s', x) == if b <= x < b + rest then To(p + (x - b), false) else Lookup(s, x))
  }

  /** The number of blocks from b to the end of the extent that covers b. */
  function Rest(s: seq<Extent>, b: nat): nat
  {
    if s == [] then 0 else if s[0].Covers(b) then s[0].End() - b else Rest(s[1..], b)
  }

  lemma {:induction false} RestAt(s: seq<Extent>, k: nat, b: nat)
    requires Sorted(s) && k < |s| && s[k].Covers(b)
    ensures Rest(s, b) == s[k].End() - b
    decreases |s|
  {
    if k > 0 {
      SortedPair(s, 0, k);
      RestAt(s[1..], k - 1, b);
    }
  }

  lemma {:induction false} RestOfHole(s: seq<Extent>, b: nat)
    requires Sorted(s) && Lookup(s, b) == Hole
    ensures Rest(s, b) == 0
    decreases |s|
  {
    if s != [] { RestOfHole(s[1..], b); }
  }

  /** A lookup marks blocks behind the requested ones as written exactly when it creates, the extent
      is unwritten, and more of it is left than was asked for. */
  lemma {:induction false} ConversionExact(s: seq<Extent>, b: nat, len: nat, create: bool, a: Answer, s': seq<Extent>)
    requires Sorted(s) && Hit(s, b, len, create, a, s')
    ensures (forall x: nat :: !(b <= x < b + len) ==> Lookup(s', x) == Lookup(s, x))
            <==> (create && Lookup(s, b).unwritten ==> Rest(s, b) <= len)
  {
    var k :| 0 <= k < |s| && HitIn(s, s[k], b, len, create, a, s');
    RestAt(s, k, b);
    LookupAt(s, k, b);
    if create && s[k].unwritten && s[k].End() > b + len {
      LookupAt(s, k, b + len);
      assert Lookup(s', b + len) != Lookup(s, b + len);
    }
  }

  /** One block asked for in an unwritten extent of ten: the seven behind it count as written, too. */
  lemma {:induction false} ConversionSpills()
    ensures var s, s' := [Extent(0, 10, 100, true)], [Extent(0, 2, 100, true), Extent(2, 8, 102, false)];
            && Sorted(s) && Hit(s, 2, 1, true, Answer(1, 102, 1, true, false), s')
            && Lookup(s, 5) == To(105, true) && Lookup(s', 5) == To(105, false)
  {
    var e, e0, e1 := Extent(0, 10, 100, true), Extent(0, 2, 100, true), Extent(2, 8, 102, false);
    var s, s', a := [e], [e0, e1], Answer(1, 102, 1, true, false);
    assert s[1..] == [] && s'[1..] == [e1] && [e1][1..] == [];
    assert forall x: nat :: Lookup(s, x) == if x < 10 then To(100 + x, true) else Hole;
    assert forall x: nat :: Lookup([e1], x) == if 2 <= x < 10 then To(100 + x, false) else Hole;
    assert forall x: nat :: Lookup(s', x) == if x < 2 then To(100 + x, true) else if x < 10 then To(100 + x, false) else Hole;
    assert Converted(s, 2, 8, 102, s');
    assert HitIn(s, s[0], 2, 1, true, a, s');
  }

  /** Block b is not mapped and nothing is created: the answer describes a part of the hole. The
      returned count is what was left of the extent that a log-structured request has just dropped,
      and 0 for other requests. */
  ghost predicate Miss(s: seq<Extent>, b: nat, len: nat, rest: nat, a: Answer, s': seq<Extent>)
  {
    && s' == s && !a.found && !a.isNew && a.count == rest && a.pblk == 0 && a.len <= len && (len >= 1 ==> a.len >= 1)
    && (forall x: nat :: b <= x < b + a.len ==> Lookup(s, x) == Hole)
    && (a.len < len && b + a.len < EXT_MAX_BLOCKS ==> Lookup(s, b + a.len).To?)
  }

  /** Unmapped blocks from b on are mapped to a run of physical blocks from p on. */
  ghost predicate Created(s: seq<Extent>, b: nat, len: nat, preIO: bool, a: Answer, p: nat, s': seq<Extent>)
  {
    && !a.found && a.isNew && a.count == a.len && 1 <= a.count <= len && a.pblk == (if preIO then 0 else p)
    && (forall x: nat :: b <= x < b + a.count ==> Lookup(s, x) == Hole)
    && (forall x: nat :: Lookup(s', x) == if b <= x < b + a.count then To(p + (x - b), preIO) else Lookup(s, x))
  }

  lemma {:induction false} HitRun(s: seq<Extent>, k: nat, b: nat)
    requires Sorted(s) && k < |s| && s[k].Covers(b)
    ensures forall x: nat :: b <= x < s[k].End() ==> Lookup(s, x) == To(s[k].pblk + (b - s[k].lblk) + (x - b), s[k].unwritten)
  {
    forall x: nat | b <= x < s[k].End()
      ensures Lookup(s, x) == To(s[k].pblk + (b - s[k].lblk) + (x - b), s[k].unwritten)
    {
      LookupAt(s, k, x);
    }
  }

  lemma {:induction false} MarkedConverts(s: seq<Extent>, k: nat, b: nat, s': seq<Extent>)
    requires Sorted(s) && k < |s| && s[k].Covers(b) && s[k].unwritten && Marked(s, s[k], b, true, false, s')
    ensures Converted(s, b, s[k].End() - b, s[k].pblk + (b - s[k].lblk), s')
  {
    HitRun(s, k, b);
    forall x: nat | s[k].Covers(x) && x < b ensures Lookup(s, x) == To(s[k].pblk + (x - s[k].lblk), true) {
      LookupAt(s, k, x);
    }
  }

  /** A request for a block that extent `pos` of the leaf at `path` covers. */
  method MapFound(f: File, path: Path, pos: nat, b: nat, len: nat, create: bool, preIO: bool) returns (a: Answer)
    requires f.Valid([]) && Found(f.tree, f.depth, path, pos, b) && At(f.tree, path).exts[pos].Covers(b)
    modifies f
    ensures f.Valid([]) && Hit(old(Flat(f.tree)), b, len, create, a, Flat(f.tree))
  {
    var ex := At(f.tree, path).exts[pos];
    ghost var s, k := Flat(f.tree), |Pre(f.tree, path)| + pos;
    HitRun(s, k, b);
    var rest := ex.End() - b;
    var block := ex.pblk + (b - ex.lblk);
    if ex.unwritten {
      if create {
        var q := SplitExtentAt(f, path, pos, b, true, false, preIO);
        MarkedConverts(s, k, b, Flat(f.tree));
      } else {
        block := 0;
      }
    }
    var count := if rest > len then len else rest;
    a := Answer(count, block, count, true, false);
    assert HitIn(s, s[k], b, len, create, a, Flat(f.tree));
  }

  /** What a search found for a block that no extent covers. */
  ghost predicate Missed(t: Tree, d: nat, p: Path, pos: int, b: nat)
  {
    && IsPath(t, p) && |p| == d && At(t, p).Leaf? && -1 <= pos < |At(t, p).exts|
    && (pos == -1 ==> Flat(t) == [] && d == 0)
    && (pos >= 0 ==> Found(t, d, p, pos, b) && !At(t, p).exts[pos].Covers(b))
  }

  lemma {:induction false} MissedHole(t: Tree, d: nat, p: Path, pos: int, b: nat)
    requires Missed(t, d, p, pos, b) && Sorted(Flat(t))
    ensures Lookup(Flat(t), b) == Hole
    ensures pos >= 0 ==> Flat(t) != [] && Nearest(Flat(t), b) == |Pre(t, p)| + pos
  {
    if pos >= 0 {
      var s, k := Flat(t), |Pre(t, p)| + pos;
      forall i | 0 <= i < |s| ensures !s[i].Covers(b) {
        if i < k { SortedPair(s, i, k); } else if k + 1 < i { SortedPair(s, k + 1, i); SortedAt(s, k + 1); }
      }
      LookupHole(s, b);
      NearestIs(s, b);
      var j := Nearest(s, b);
      if j < k { NearestUnique(s, j, k, b); } else if k < j { NearestUnique(s, k, j, b); }
    }
  }

  /** A request that creates nothing, for a block that is not mapped. */
  method MapHole(f: File, path: Path, pos: int, b: nat, len: nat, rest: nat) returns (a: Answer)
    requires f.Valid([]) && Missed(f.tree, f.depth, path, pos, b) && b < EXT_MAX_BLOCKS
    ensures Miss(Flat(f.tree), b, len, rest, a, Flat(f.tree))
  {
    FlatAround(f.tree, path);
    var start, hole := DetermineHole(f.tree, f.depth, path, pos, b, f.R, f.B);
    if start != b {
      hole := hole - (b - start);
    }
    a := Answer(rest, 0, if hole < len then hole else len, false, false);
  }

  lemma {:induction false} NewExtent(s: seq<Extent>, b: nat, len: nat, e: Extent)
    requires Sorted(s) && Lookup(s, b) == Hole && Safe(s, b, len) && b + len <= EXT_MAX_BLOCKS
    requires e.lblk == b && 1 <= e.len <= Clip(s, b, len) && len <= EXT_INIT_MAX_LEN && (e.unwritten ==> len <= EXT_UNWRITTEN_MAX_LEN)
    ensures e.Valid() && Avoids(s, e)
    ensures forall x: nat :: b <= x < e.End() ==> Lookup(s, x) == Hole
  {
    ClipAvoids(s, b, len, e);
    forall x: nat | b <= x < e.End() ensures Lookup(s, x) == Hole {
      forall i | 0 <= i < |s| ensures !s[i].Covers(x) { assert Disjoint(s[i], e); }
      LookupHole(s, x);
    }
  }

  /** The number of blocks to ask the allocator for. */
  method WantBlocks(f: File, path: Path, pos: int, b: nat, len: nat) returns (want: nat)
    requires f.Valid([]) && Missed(f.tree, f.depth, path, pos, b) && 1 <= len && b < EXT_MAX_BLOCKS
    ensures 1 <= want == Clip(Flat(f.tree), b, len)
  {
    MissedHole(f.tree, f.depth, path, pos, b);
    FlatAround(f.tree, path);
    var next := NextAllocatedBlock(f.tree, f.depth, path, pos, f.R, f.B);
    want := if next - b > len then len else next - b;
  }

  /** The new extent can be inserted where the search ended. */
  lemma {:induction false} NewStep(t: Tree, d: nat, p: Path, pos: int, b: nat, len: nat, e: Extent, R: nat, B: nat)
    requires Inv(t, d, R, B) && 2 <= R < B && Missed(t, d, p, pos, b)
    requires Safe(Flat(t), b, len) && b + len <= EXT_MAX_BLOCKS
    requires e.lblk == b && 1 <= e.len <= Clip(Flat(t), b, len) && len <= EXT_INIT_MAX_LEN
    requires e.unwritten ==> len <= EXT_UNWRITTEN_MAX_LEN
    ensures InsertStep(t, d, p, if pos == -1 then 0 else pos, e, R, B)
    ensures forall x: nat :: b <= x < e.End() ==> Lookup(Flat(t), x) == Hole
  {
    MissedHole(t, d, p, pos, b);
    NewExtent(Flat(t), b, len, e);
    FlatAround(t, p);
  }

  /** Allocate the blocks of an extent that is to be inserted where the search ended. */
  method Reserve(f: File, path: Path, pos: int, b: nat, len: nat, preIO: bool) returns (e: Extent)
    requires f.Valid([]) && Missed(f.tree, f.depth, path, pos, b) && (preIO ==> len <= EXT_UNWRITTEN_MAX_LEN)
    requires 1 <= len <= EXT_INIT_MAX_LEN && b + len <= EXT_MAX_BLOCKS && Safe(Flat(f.tree), b, len)
    modifies f`bitmap, f`used
    ensures f.Valid([e]) && InsertStep(f.tree, f.depth, path, if pos == -1 then 0 else pos, e, f.R, f.B)
    ensures e.lblk == b && e.unwritten == preIO && 1 <= e.len <= len && forall x: nat :: b <= x < e.End() ==> Lookup(Flat(f.tree), x) == Hole
    ensures Range(e.pblk, e.len) !! old(f.bitmap)
    ensures var want := Clip(Flat(f.tree), b, len); want >= 1 && (e.pblk, e.len) == f.alloc(old(f.bitmap), want)
  {
    var want := WantBlocks(f, path, pos, b, len);
    var block, count := f.NewBlocks(want);
    e := Extent(b, count, block, preIO);
    NewStep(f.tree, f.depth, path, pos, b, len, e, f.R, f.B);
    LedgerAlloc(f.tree, old(f.bitmap), f.others, [], block, count, e);
    assert [e] + [] == [e];
  }

  /** A request that creates blocks, for a block that is not mapped. */
  method MapNew(f: File, path: Path, pos: int, b: nat, len0: nat, preIO: bool) returns (a: Answer, ghost p: nat)
    requires f.Valid([]) && Missed(f.tree, f.depth, path, pos, b)
    requires 1 <= len0 <= EXT_INIT_MAX_LEN && b + len0 <= EXT_MAX_BLOCKS && Safe(Flat(f.tree), b, Capped(len0, preIO))
    modifies f
    ensures f.Valid([]) && Created(old(Flat(f.tree)), b, len0, preIO, a, p, Flat(f.tree))
    ensures Range(p, a.count) !! old(f.bitmap)
    ensures !preIO ==> Finished(f.tree, f.depth, f.R, b, old(NoPairs(f.tree)))
    ensures var want := Clip(old(Flat(f.tree)), b, Capped(len0, preIO)); want >= 1 && (p, a.count) == f.alloc(old(f.bitmap), want)
  {
    ghost var s := Flat(f.tree);
    var e := Reserve(f, path, pos, b, Capped(len0, preIO), preIO);
    var q := f.InsertExtent(path, if pos == -1 then 0 else pos, e, preIO);
    p := e.pblk;
    a := Answer(e.len, if preIO then 0 else e.pblk, e.len, false, true);
    GainIsCreated(s, e, len0, a, Flat(f.tree));
  }

  lemma {:induction false} GainIsCreated(s: seq<Extent>, e: Extent, len: nat, a: Answer, s': seq<Extent>)
    requires Gains(s, e, s') && 1 <= e.len <= len && forall x: nat :: e.lblk <= x < e.End() ==> Lookup(s, x) == Hole
    requires a == Answer(e.len, if e.unwritten then 0 else e.pblk, e.len, false, true)
    ensures Created(s, e.lblk, len, e.unwritten, a, e.pblk, s')
  {
  }

  /** After blocks b to b + len - 1 have been unmapped, an allocation there is safe. */
  lemma {:induction false} UnmappedIsSafe(s: seq<Extent>, b: nat, len: nat)
    requires Sorted(s) && forall x: nat :: b <= x < b + len ==> Lookup(s, x) == Hole
    ensures Safe(s, b, len)
  {
    if s != [] {
      SortedAt(s, 0);
      if b < s[0].lblk < b + len { LookupAt(s, 0, s[0].lblk); }
    }
  }

  /** Search for block b in a file that may map it. */
  method Seek(f: File, b: nat) returns (path: Path, pos: int, hit: bool)
    requires f.Valid([])
    ensures hit <==> Lookup(Flat(f.tree), b).To?
    ensures hit ==> pos >= 0 && Found(f.tree, f.depth, path, pos, b) && At(f.tree, path).exts[pos].Covers(b)
    ensures !hit ==> Missed(f.tree, f.depth, path, pos, b)
  {
    path, pos := Locate(f, b);
    if pos == -1 {
      return path, pos, false;
    }
    hit := At(f.tree, path).exts[pos].Covers(b);
    if hit {
      LookupAt(Flat(f.tree), |Pre(f.tree, path)| + pos, b);
    } else {
      MissedHole(f.tree, f.depth, path, pos, b);
    }
  }

  /** What the file maps once a log-structured request has dropped the old blocks. */
  ghost predicate Dropped(s: seq<Extent>, b: nat, len: nat, logAlloc: bool, mid: seq<Extent>)
    requires logAlloc ==> len >= 1
  {
    if logAlloc && Lookup(s, b).To? then Unmaps(s, b, b + len - 1, mid) else mid == s
  }

  /** Drop the blocks that a log-structured request is about to replace, and search again. */
  method DropBlocks(f: File, path0: Path, pos0: nat, b: nat, len: nat) returns (remain: nat, path: Path, pos: int)
    requires f.Valid([]) && Found(f.tree, f.depth, path0, pos0, b) && At(f.tree, path0).exts[pos0].Covers(b)
    requires 1 <= len && b + len < EXT_MAX_BLOCKS
    modifies f
    ensures f.Valid([]) && Unmaps(old(Flat(f.tree)), b, b + len - 1, Flat(f.tree)) && remain == Rest(old(Flat(f.tree)), b)
    ensures Missed(f.tree, f.depth, path, pos, b) && Safe(Flat(f.tree), b, len)
  {
    remain := At(f.tree, path0).exts[pos0].End() - b;
    RestAt(Flat(f.tree), |Pre(f.tree, path0)| + pos0, b);
    RemoveSpace(f, b, b + len - 1);
    UnmappedIsSafe(Flat(f.tree), b, len);
    var hit;
    path, pos, hit := Seek(f, b);
  }

  /** Look up block b of a file and, if asked to, map up to `len` blocks from there on. */
  method GetBlocks(f: File, b: nat, len: nat, create: bool, preIO: bool, logAlloc: bool)
    returns (a: Answer, ghost p: nat, ghost mid: seq<Extent>)
    requires f.Valid([]) && b < EXT_MAX_BLOCKS
    requires create || logAlloc ==> 1 <= len <= EXT_INIT_MAX_LEN && b + len < EXT_MAX_BLOCKS
    requires create ==> Safe(Flat(f.tree), b, Capped(len, preIO))
    modifies f
    ensures f.Valid([]) && Dropped(old(Flat(f.tree)), b, len, logAlloc, mid)
    ensures if Lookup(mid, b).To? then Hit(mid, b, len, create, a, Flat(f.tree))
            else if create then Created(mid, b, len, preIO, a, p, Flat(f.tree))
            else Miss(mid, b, len, if logAlloc then Rest(old(Flat(f.tree)), b) else 0, a, Flat(f.tree))
    ensures a.isNew && !preIO ==> Finished(f.tree, f.depth, f.R, b, !logAlloc && old(NoPairs(f.tree)))
    ensures a.isNew && !logAlloc ==>
              && Range(p, a.count) !! old(f.bitmap)
              && var want := Clip(mid, b, Capped(len, preIO)); want >= 1 && (p, a.count) == f.alloc(old(f.bitmap), want)
  {
    p, mid := 0, Flat(f.tree);
    var path, pos, hit := Seek(f, b);
    var remain := 0;
    if hit {
      if !logAlloc {
        a := MapFound(f, path, pos, b, len, create, preIO);
        return;
      }
      remain, path, pos := DropBlocks(f, path, pos, b, len);
      mid := Flat(f.tree);
    } else {
      MissedHole(f.tree, f.depth, path, pos, b);
      RestOfHole(mid, b);
    }
    if !create {
      a := MapHole(f, path, pos, b, len, remain);
    } else {
      a, p := MapNew(f, path, pos, b, len, preIO);
    }
  }
}
