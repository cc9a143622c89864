/** How one log entry is written into the blocks of a file (kernfs/digest.c). */
module DigestBlocks {
  import opened ExtentSeq
  import opened ExtentTree
  import opened ExtentFile
  import opened ExtentSpace
  import opened ExtentMap
  import opened DigestModel

  const BLOCK_SIZE: nat := 4096

  type Block = seq<Byte>

  /** What the device stores; blocks that were never written hold zeros. */
  type Disk = map<nat, Block>

  function ZeroBlock(): Block { seq(BLOCK_SIZE, _ => 0) }

  function BlockOf(disk: Disk, p: nat): Block { if p in disk then disk[p] else ZeroBlock() }

  ghost predicate DiskOk(disk: Disk) { forall p: nat :: |BlockOf(disk, p)| == BLOCK_SIZE }

  /** Logical block l of a file: what its physical block stores, or zeros for a hole. */
  function FileBlock(s: seq<Extent>, disk: Disk, l: nat): Block
  {
    match Lookup(s, l)
    case Hole => ZeroBlock()
    case To(p, unwritten) => if unwritten then ZeroBlock() else BlockOf(disk, p)
  }

  /** No extent of the file is marked unwritten. */
  ghost predicate AllWritten(s: seq<Extent>)
  {
    forall l: nat :: Lookup(s, l).To? ==> !Lookup(s, l).unwritten
  }

  // ----- no two logical blocks share a physical one -----

  lemma {:induction false} OwnsOne(s: seq<Extent>, i: nat, p: nat)
    requires i < |s| && Holds(s[i], p)
    ensures Owns(s, p) >= 1
  {
    if i > 0 { OwnsOne(s[1..], i - 1, p); }
  }

  lemma {:induction false} OwnsTwo(s: seq<Extent>, i: nat, j: nat, p: nat)
    requires i < j < |s| && Holds(s[i], p) && Holds(s[j], p)
    ensures Owns(s, p) >= 2
  {
    if i == 0 { OwnsOne(s[1..], j - 1, p); } else { OwnsTwo(s[1..], i - 1, j - 1, p); }
  }

  lemma {:induction false} Injective(s: seq<Extent>, x: nat, y: nat)
    requires Sorted(s) && Lookup(s, x).To? && Lookup(s, y).To? && Lookup(s, x).pblk == Lookup(s, y).pblk
    requires Owns(s, Lookup(s, x).pblk) <= 1
    ensures x == y
  {
    var p := Lookup(s, x).pblk;
    LookupDomain(s, x);
    LookupDomain(s, y);
    var i :| 0 <= i < |s| && s[i].Covers(x);
    var j :| 0 <= j < |s| && s[j].Covers(y);
    LookupAt(s, i, x);
    LookupAt(s, j, y);
    if i < j { OwnsTwo(s, i, j, p); } else if j < i { OwnsTwo(s, j, i, p); }
  }

  lemma {:induction false} LedgerOnce(t: Tree, bitmap: set<nat>, others: set<nat>, p: nat)
    requires Ledger(t, bitmap, others, [])
    ensures Owns(Flat(t), p) <= 1
  {
    assert In(bitmap, p) <= 1;
  }

  // ----- a run of whole blocks -----

  function PutRun(disk: Disk, p: nat, blocks: seq<Block>): Disk
  {
    if blocks == [] then disk
    else PutRun(disk, p, blocks[..|blocks| - 1])[p + |blocks| - 1 := blocks[|blocks| - 1]]
  }

  lemma {:induction false} PutRunAt(disk: Disk, p: nat, blocks: seq<Block>, q: nat)
    ensures BlockOf(PutRun(disk, p, blocks), q) == if p <= q < p + |blocks| then blocks[q - p] else BlockOf(disk, q)
  {
    if blocks != [] { PutRunAt(disk, p, blocks[..|blocks| - 1], q); }
  }

  lemma {:induction false} PutRunOk(disk: Disk, p: nat, blocks: seq<Block>)
    requires DiskOk(disk) && forall i :: 0 <= i < |blocks| ==> |blocks[i]| == BLOCK_SIZE
    ensures DiskOk(PutRun(disk, p, blocks))
  {
    forall q: nat ensures |BlockOf(PutRun(disk, p, blocks), q)| == BLOCK_SIZE {
      PutRunAt(disk, p, blocks, q);
      assert |BlockOf(disk, q)| == BLOCK_SIZE;
    }
  }

  /** The mapping of n logical blocks from b on leads to n physical blocks from p on. */
  ghost predicate MapsRun(s: seq<Extent>, b: nat, n: nat, p: nat)
  {
    forall x: nat :: b <= x < b + n ==> Lookup(s, x) == To(p + (x - b), false)
  }

  /** The mapping changed at most from b to b + n - 1. */
  ghost predicate SameOutside(s: seq<Extent>, b: nat, n: nat, s': seq<Extent>)
  {
    forall x: nat :: !(b <= x < b + n) ==> Lookup(s', x) == Lookup(s, x)
  }

  /** Blocks b to b + n - 1 are mapped now, and otherwise those that were. */
  ghost predicate Adds(s: seq<Extent>, b: nat, n: nat, s': seq<Extent>)
  {
    forall x: nat :: Lookup(s', x).To? <==> Lookup(s, x).To? || b <= x < b + n
  }

  lemma {:induction false} RunAdds(s: seq<Extent>, b: nat, n: nat, p: nat, s': seq<Extent>)
    requires MapsRun(s', b, n, p) && SameOutside(s, b, n, s')
    ensures Adds(s, b, n, s')
  {
    forall x: nat ensures Lookup(s', x).To? <==> Lookup(s, x).To? || b <= x < b + n {
      if b <= x < b + n { assert Lookup(s', x) == To(p + (x - b), false); } else { assert Lookup(s', x) == Lookup(s, x); }
    }
  }

  /** What was mapped keeps its physical block. */
  ghost predicate Extends(s: seq<Extent>, s': seq<Extent>)
  {
    forall x: nat :: Lookup(s, x).To? ==> Lookup(s', x) == Lookup(s, x)
  }

  /** Physical block q holds a logical block of the file. */
  ghost predicate Maps(s: seq<Extent>, q: nat) { exists x: nat :: Lookup(s, x).To? && Lookup(s, x).pblk == q }

  /** The device changed at most in blocks of the file. */
  ghost predicate Spares(s: seq<Extent>, disk0: Disk, disk: Disk)
  {
    forall q: nat :: !Maps(s, q) ==> BlockOf(disk, q) == BlockOf(disk0, q)
  }

  lemma {:induction false} StillMaps(s: seq<Extent>, s': seq<Extent>, q: nat)
    requires Extends(s, s') && Maps(s, q)
    ensures Maps(s', q)
  {
    var x: nat :| Lookup(s, x).To? && Lookup(s, x).pblk == q;
    assert Lookup(s', x) == Lookup(s, x);
  }

  lemma {:induction false} SparesTwice(s1: seq<Extent>, disk0: Disk, disk1: Disk, s2: seq<Extent>, disk2: Disk)
    requires Spares(s1, disk0, disk1) && Extends(s1, s2) && Spares(s2, disk1, disk2)
    ensures Spares(s2, disk0, disk2)
  {
    forall q: nat ensures Maps(s1, q) ==> Maps(s2, q) {
      if Maps(s1, q) { StillMaps(s1, s2, q); }
    }
  }

  lemma {:induction false} RunSpares(s: seq<Extent>, disk: Disk, b: nat, p: nat, run: seq<Block>)
    requires MapsRun(s, b, |run|, p)
    ensures Spares(s, disk, PutRun(disk, p, run))
  {
    forall q: nat ensures Maps(s, q) || BlockOf(PutRun(disk, p, run), q) == BlockOf(disk, q) {
      PutRunAt(disk, p, run, q);
      if p <= q < p + |run| { assert Lookup(s, b + (q - p)) == To(q, false); }
    }
  }

  lemma {:induction false} MappedIsOwned(s: seq<Extent>, x: nat, q: nat)
    requires Sorted(s) && Lookup(s, x).To? && Lookup(s, x).pblk == q
    ensures Owns(s, q) >= 1
  {
    LookupDomain(s, x);
    var i :| 0 <= i < |s| && s[i].Covers(x);
    LookupAt(s, i, x);
    OwnsOne(s, i, q);
  }

  /** Blocks of others are not blocks of the file. */
  lemma {:induction false} OthersUnmapped(t: Tree, bitmap: set<nat>, others: set<nat>, q: nat)
    requires Ledger(t, bitmap, others, []) && Sorted(Flat(t)) && q in others
    ensures !Maps(Flat(t), q)
  {
    var s := Flat(t);
    assert Owns(s, q) == 0 by { assert In(bitmap, q) <= 1 && In(others, q) == 1; }
    if x: nat :| Lookup(s, x).To? && Lookup(s, x).pblk == q { MappedIsOwned(s, x, q); }
  }

  /** Ask for blocks that are to be written: they end up mapped, and nothing else changes. One block
      that was not mapped is the one that the allocator hands out. */
  method BlocksToWrite(f: File, b: nat, n: nat) returns (count: nat, p: nat)
    requires f.Valid([]) && AllWritten(Flat(f.tree)) && Safe(Flat(f.tree), b, n)
    requires 1 <= n <= EXT_INIT_MAX_LEN && b + n < EXT_MAX_BLOCKS
    modifies f
    ensures f.Valid([]) && AllWritten(Flat(f.tree)) && 1 <= count <= n
    ensures MapsRun(Flat(f.tree), b, count, p) && SameOutside(old(Flat(f.tree)), b, count, Flat(f.tree))
    ensures Lookup(old(Flat(f.tree)), b).To? ==> SameOutside(old(Flat(f.tree)), b, 0, Flat(f.tree))
    ensures Lookup(old(Flat(f.tree)), b) == Hole && n == 1 ==> p == f.alloc(old(f.bitmap), 1).0
    ensures Extends(old(Flat(f.tree)), Flat(f.tree))
  {
    var a, q, mid := GetBlocks(f, b, n, true, false, false);
    count, p := a.count, a.pblk;
    assert a.isNew && n == 1 ==> Clip(mid, b, 1) == 1;
  }

  /** Writing a run of physical blocks changes exactly the logical blocks that are mapped to it. */
  lemma {:induction false} RunWritten(s: seq<Extent>, disk: Disk, b: nat, p: nat, blocks: seq<Block>, l: nat)
    requires Sorted(s) && MapsRun(s, b, |blocks|, p) && forall q: nat :: Owns(s, q) <= 1
    ensures FileBlock(s, PutRun(disk, p, blocks), l) ==
            if b <= l < b + |blocks| then blocks[l - b] else FileBlock(s, disk, l)
  {
    if Lookup(s, l).To? {
      var q := Lookup(s, l).pblk;
      PutRunAt(disk, p, blocks, q);
      if p <= q < p + |blocks| {
        assert Lookup(s, b + (q - p)).pblk == q;
        Injective(s, l, b + (q - p));
      }
    }
  }

  /** After the first block of a range is mapped, the rest of the range is safe to allocate. */
  lemma {:induction false} SafeOnward(s: seq<Extent>, b: nat, c: nat, n: nat)
    requires Sorted(s) && Lookup(s, b).To? && b <= c
    ensures Safe(s, c, n)
  {
    LookupDomain(s, b);
    var i :| 0 <= i < |s| && s[i].Covers(b);
    if i > 0 { SortedPair(s, 0, i); SortedAt(s, 0); }
  }

  lemma {:induction false} StepWritten(s: seq<Extent>, s': seq<Extent>, disk: Disk, b: nat, p: nat, run: seq<Block>,
          t: Tree, bitmap: set<nat>, others: set<nat>)
    requires Sorted(s') && s' == Flat(t) && Ledger(t, bitmap, others, [])
    requires MapsRun(s', b, |run|, p) && SameOutside(s, b, |run|, s')
    ensures forall l: nat :: FileBlock(s', PutRun(disk, p, run), l) ==
              if b <= l < b + |run| then run[l - b] else FileBlock(s, disk, l)
  {
    forall q: nat ensures Owns(s', q) <= 1 { LedgerOnce(t, bitmap, others, q); }
    forall l: nat
      ensures FileBlock(s', PutRun(disk, p, run), l) == if b <= l < b + |run| then run[l - b] else FileBlock(s, disk, l)
    {
      RunWritten(s', disk, b, p, run, l);
    }
  }

  /** The logical blocks from b on hold the given blocks, and the others what they held. */
  ghost predicate RunDone(s1: seq<Extent>, disk1: Disk, s2: seq<Extent>, disk2: Disk, b: nat, blocks: seq<Block>)
  {
    forall l: nat :: FileBlock(s2, disk2, l) == if b <= l < b + |blocks| then blocks[l - b] else FileBlock(s1, disk1, l)
  }

  /** Write as many of the blocks as one run of physical blocks takes. */
  method WriteRun(f: File, disk0: Disk, b: nat, blocks: seq<Block>) returns (disk: Disk, count: nat)
    requires f.Valid([]) && AllWritten(Flat(f.tree)) && Safe(Flat(f.tree), b, |blocks|)
    requires 1 <= |blocks| <= EXT_INIT_MAX_LEN && b + |blocks| < EXT_MAX_BLOCKS
    requires DiskOk(disk0) && forall i :: 0 <= i < |blocks| ==> |blocks[i]| == BLOCK_SIZE
    modifies f
    ensures f.Valid([]) && AllWritten(Flat(f.tree)) && DiskOk(disk) && 1 <= count <= |blocks|
    ensures forall l: nat :: FileBlock(Flat(f.tree), disk, l) ==
              if b <= l < b + count then blocks[l - b] else FileBlock(old(Flat(f.tree)), disk0, l)
    ensures Adds(old(Flat(f.tree)), b, count, Flat(f.tree))
    ensures Extends(old(Flat(f.tree)), Flat(f.tree)) && Spares(Flat(f.tree), disk0, disk)
  {
    ghost var s := Flat(f.tree);
    var p;
    count, p := BlocksToWrite(f, b, |blocks|);
    StepWritten(s, Flat(f.tree), disk0, b, p, blocks[..count], f.tree, f.bitmap, f.others);
    PutRunOk(disk0, p, blocks[..count]);
    RunAdds(s, b, count, p, Flat(f.tree));
    RunSpares(Flat(f.tree), disk0, b, p, blocks[..count]);
    disk := PutRun(disk0, p, blocks[..count]);
  }

  /** Write whole blocks from logical block b on, run by run, as the extents allow. */
  method WriteBlocks(f: File, disk0: Disk, b: nat, blocks: seq<Block>) returns (disk: Disk)
    requires f.Valid([]) && AllWritten(Flat(f.tree)) && Safe(Flat(f.tree), b, |blocks|)
    requires |blocks| <= EXT_INIT_MAX_LEN && b + |blocks| < EXT_MAX_BLOCKS
    requires DiskOk(disk0) && forall i :: 0 <= i < |blocks| ==> |blocks[i]| == BLOCK_SIZE
    modifies f
    ensures f.Valid([]) && AllWritten(Flat(f.tree)) && DiskOk(disk)
    ensures RunDone(old(Flat(f.tree)), disk0, Flat(f.tree), disk, b, blocks)
    ensures Adds(old(Flat(f.tree)), b, |blocks|, Flat(f.tree))
    ensures Extends(old(Flat(f.tree)), Flat(f.tree)) && Spares(Flat(f.tree), disk0, disk)
  {
    disk := disk0;
    var done := 0;
    while done < |blocks|
      invariant 0 <= done <= |blocks| && f.Valid([]) && AllWritten(Flat(f.tree)) && DiskOk(disk)
      invariant Safe(Flat(f.tree), b + done, |blocks| - done) && Adds(old(Flat(f.tree)), b, done, Flat(f.tree))
      invariant Extends(old(Flat(f.tree)), Flat(f.tree)) && Spares(Flat(f.tree), disk0, disk)
      invariant forall l: nat :: FileBlock(Flat(f.tree), disk, l) ==
                  if b <= l < b + done then blocks[l - b] else FileBlock(old(Flat(f.tree)), disk0, l)
    {
      var count;
      ghost var s1, disk1 := Flat(f.tree), disk;
      disk, count := WriteRun(f, disk, b + done, blocks[done..]);
      SparesTwice(s1, disk0, disk1, Flat(f.tree), disk);
      SafeOnward(Flat(f.tree), b + done, b + done + count, |blocks| - done - count);
      done := done + count;
    }
  }

  // ----- a part of one block -----

  function Patch(blk: Block, at: nat, data: seq<Byte>): Block
    requires at + |data| <= |blk|
  {
    blk[..at] + (data + blk[at + |data|..])
  }

  /** What logical block b holds before a part of it is written: what the file held there or, when the
      block is a hole, what its new physical block still stores. */
  function Under(s: seq<Extent>, disk: Disk, b: nat, spare: nat): Block
  {
    if Lookup(s, b).To? then FileBlock(s, disk, b) else BlockOf(disk, spare)
  }

  /** Write a part of logical block b. */
  method WritePart(f: File, disk0: Disk, b: nat, at: nat, data: seq<Byte>) returns (disk: Disk)
    requires f.Valid([]) && AllWritten(Flat(f.tree)) && Safe(Flat(f.tree), b, 1) && b + 1 < EXT_MAX_BLOCKS
    requires DiskOk(disk0) && at + |data| <= BLOCK_SIZE
    modifies f
    ensures f.Valid([]) && AllWritten(Flat(f.tree)) && Adds(old(Flat(f.tree)), b, 1, Flat(f.tree)) && DiskOk(disk)
    ensures Extends(old(Flat(f.tree)), Flat(f.tree)) && Spares(Flat(f.tree), disk0, disk)
    ensures var base := Under(old(Flat(f.tree)), disk0, b, f.alloc(old(f.bitmap), 1).0);
            && |base| == BLOCK_SIZE
            && forall l: nat :: FileBlock(Flat(f.tree), disk, l) ==
                 if l == b then Patch(base, at, data) else FileBlock(old(Flat(f.tree)), disk0, l)
  {
    ghost var s := Flat(f.tree);
    var count, p := BlocksToWrite(f, b, 1);
    assert Lookup(Flat(f.tree), b) == To(p, false);
    RunAdds(s, b, 1, p, Flat(f.tree));
    var blk := Patch(BlockOf(disk0, p), at, data);
    StepWritten(s, Flat(f.tree), disk0, b, p, [blk], f.tree, f.bitmap, f.others);
    disk := disk0[p := blk];
    assert [blk][..0] == [];
    assert disk == PutRun(disk0, p, [blk]);
    RunSpares(Flat(f.tree), disk0, b, p, [blk]);
    forall q: nat ensures |BlockOf(disk, q)| == BLOCK_SIZE {
      assert |BlockOf(disk0, q)| == BLOCK_SIZE;
    }
  }

  // ----- one log entry -----

  function BlockCount(length: nat): nat
  {
    if length < BLOCK_SIZE then 1 else length / BLOCK_SIZE + if length % BLOCK_SIZE != 0 then 1 else 0
  }

  /** The first block is written on its own when the entry is short or starts inside a block. */
  predicate HasHead(offset: nat, length: nat)
  {
    length < BLOCK_SIZE || offset % BLOCK_SIZE != 0
  }

  function HeadLen(offset: nat, length: nat): nat
  {
    if !HasHead(offset, length) then 0
    else if length < BLOCK_SIZE - offset % BLOCK_SIZE then length else BLOCK_SIZE - offset % BLOCK_SIZE
  }

  /** The number of blocks that are written whole. */
  function BodyCount(offset: nat, length: nat): nat
  {
    if HasHead(offset, length) then BlockCount(length) - 1 else BlockCount(length)
  }

  function BodyStart(offset: nat, length: nat): nat { (offset + HeadLen(offset, length)) / BLOCK_SIZE }

  /** The part of the log that the entry is read from. */
  predicate Readable(offset: nat, length: nat, src: seq<Byte>)
  {
    && offset % BLOCK_SIZE + length <= |src|
    && HeadLen(offset, length) + BodyCount(offset, length) * BLOCK_SIZE <= |src|
  }

  lemma {:induction false} BodyAligned(offset: nat, length: nat)
    requires BodyCount(offset, length) > 0
    ensures var start := offset + HeadLen(offset, length);
            start % BLOCK_SIZE == 0 && start / BLOCK_SIZE == offset / BLOCK_SIZE + (if HasHead(offset, length) then 1 else 0)
  {
    var q := offset / BLOCK_SIZE;
    assert offset == BLOCK_SIZE * q + offset % BLOCK_SIZE;
    if HasHead(offset, length) {
      assert offset + HeadLen(offset, length) == BLOCK_SIZE * (q + 1);
    }
  }

  /** What the entry leaves at position x, where `before` was. */
  function Effect(offset: nat, length: nat, src: seq<Byte>, x: nat, before: Byte): Byte
    requires Readable(offset, length, src)
  {
    var n1, n2 := HeadLen(offset, length), BodyCount(offset, length);
    if offset <= x < offset + n1 then src[offset % BLOCK_SIZE + (x - offset)]
    else if offset + n1 <= x < offset + n1 + n2 * BLOCK_SIZE then src[x - offset]
    else before
  }

  /** What writing the data of the entry at `offset` leaves at position x. */
  function Pwrite(offset: nat, length: nat, src: seq<Byte>, x: nat, before: Byte): Byte
    requires offset % BLOCK_SIZE + length <= |src|
  {
    if offset <= x < offset + length then src[offset % BLOCK_SIZE + (x - offset)] else before
  }

  /** The entry lies inside one block, or consists of whole blocks. */
  predicate Simple(offset: nat, length: nat)
  {
    offset % BLOCK_SIZE + length <= BLOCK_SIZE || (offset % BLOCK_SIZE == 0 && length % BLOCK_SIZE == 0)
  }

  lemma {:induction false} SimpleExtent(offset: nat, length: nat)
    requires Simple(offset, length)
    ensures HeadLen(offset, length) + BodyCount(offset, length) * BLOCK_SIZE == length
    ensures BodyCount(offset, length) > 0 ==> offset % BLOCK_SIZE == 0 && HeadLen(offset, length) == 0
  {
    assert length == BLOCK_SIZE * (length / BLOCK_SIZE) + length % BLOCK_SIZE;
    if length >= BLOCK_SIZE {
      assert offset % BLOCK_SIZE == 0;
    }
  }

  // ----- digesting an entry -----

  function FileByte(s: seq<Extent>, disk: Disk, x: nat): Byte
    requires DiskOk(disk)
  {
    BlockFits(s, disk, x / BLOCK_SIZE);
    FileBlock(s, disk, x / BLOCK_SIZE)[x % BLOCK_SIZE]
  }

  lemma {:induction false} BlockFits(s: seq<Extent>, disk: Disk, l: nat)
    requires DiskOk(disk)
    ensures |FileBlock(s, disk, l)| == BLOCK_SIZE
  {
    if Lookup(s, l).To? { assert |BlockOf(disk, Lookup(s, l).pblk)| == BLOCK_SIZE; }
  }

  /** The n blocks of a buffer that start at position d. */
  function Slices(src: seq<Byte>, d: nat, n: nat): (r: seq<Block>)
    requires d + n * BLOCK_SIZE <= |src|
    ensures |r| == n && forall i :: 0 <= i < n ==> |r[i]| == BLOCK_SIZE
    decreases n
  {
    if n == 0 then []
    else
      assert n * BLOCK_SIZE == BLOCK_SIZE + (n - 1) * BLOCK_SIZE;
      [src[d..d + BLOCK_SIZE]] + Slices(src, d + BLOCK_SIZE, n - 1)
  }

  lemma {:induction false} SlicesAt(src: seq<Byte>, d: nat, n: nat, i: nat, r: nat)
    requires d + n * BLOCK_SIZE <= |src| && i < n && r < BLOCK_SIZE
    ensures d + BLOCK_SIZE * i + r < |src| && Slices(src, d, n)[i][r] == src[d + BLOCK_SIZE * i + r]
    decreases n
  {
    assert n * BLOCK_SIZE == BLOCK_SIZE + (n - 1) * BLOCK_SIZE;
    if i > 0 {
      assert BLOCK_SIZE * i == BLOCK_SIZE + BLOCK_SIZE * (i - 1);
      SlicesAt(src, d + BLOCK_SIZE, n - 1, i - 1, r);
    }
  }

  /** Byte x lies in one of n blocks that start at a block boundary exactly when its block does. */
  lemma {:induction false} InRun(x: nat, start: nat, n: nat)
    requires start % BLOCK_SIZE == 0
    ensures start <= x < start + n * BLOCK_SIZE <==> start / BLOCK_SIZE <= x / BLOCK_SIZE < start / BLOCK_SIZE + n
    ensures start <= x ==> x - start == BLOCK_SIZE * (x / BLOCK_SIZE - start / BLOCK_SIZE) + x % BLOCK_SIZE
  {
    var l, b := x / BLOCK_SIZE, start / BLOCK_SIZE;
    assert x == BLOCK_SIZE * l + x % BLOCK_SIZE && start == BLOCK_SIZE * b;
    assert x - start == BLOCK_SIZE * (l - b) + x % BLOCK_SIZE;
    assert BLOCK_SIZE * (l - b) == BLOCK_SIZE * (l - b - n) + n * BLOCK_SIZE;
  }

  /** Byte x lies in the first part of an entry exactly when it lies in the entry's first block, at a
      position that the part covers. */
  lemma {:induction false} InHead(x: nat, offset: nat, n: nat)
    requires offset % BLOCK_SIZE + n <= BLOCK_SIZE
    ensures offset <= x < offset + n <==> x / BLOCK_SIZE == offset / BLOCK_SIZE && offset % BLOCK_SIZE <= x % BLOCK_SIZE < offset % BLOCK_SIZE + n
    ensures offset <= x < offset + n ==> x - offset == x % BLOCK_SIZE - offset % BLOCK_SIZE
  {
    var l, b := x / BLOCK_SIZE, offset / BLOCK_SIZE;
    assert x == BLOCK_SIZE * l + x % BLOCK_SIZE && offset == BLOCK_SIZE * b + offset % BLOCK_SIZE;
    assert x - offset == BLOCK_SIZE * (l - b) + (x % BLOCK_SIZE - offset % BLOCK_SIZE);
  }

  /** The blocks of the file after the first part and after the whole entry. */
  ghost predicate HeadDone(s0: seq<Extent>, disk0: Disk, s1: seq<Extent>, disk1: Disk, base: Block, offset: nat,
          length: nat, src: seq<Byte>)
    requires Readable(offset, length, src)
  {
    && |base| == BLOCK_SIZE
    && forall l: nat :: FileBlock(s1, disk1, l) ==
         if HasHead(offset, length) && l == offset / BLOCK_SIZE
         then Patch(base, offset % BLOCK_SIZE, src[offset % BLOCK_SIZE..offset % BLOCK_SIZE + HeadLen(offset, length)])
         else FileBlock(s0, disk0, l)
  }

  ghost predicate BodyDone(s1: seq<Extent>, disk1: Disk, s2: seq<Extent>, disk2: Disk, offset: nat, length: nat,
          src: seq<Byte>)
    requires Readable(offset, length, src)
  {
    RunDone(s1, disk1, s2, disk2, BodyStart(offset, length), Slices(src, HeadLen(offset, length), BodyCount(offset, length)))
  }

  lemma {:induction false} BodyByte(s1: seq<Extent>, disk1: Disk, s2: seq<Extent>, disk2: Disk, offset: nat,
          length: nat, src: seq<Byte>, x: nat)
    requires Readable(offset, length, src) && DiskOk(disk1) && DiskOk(disk2)
    requires BodyDone(s1, disk1, s2, disk2, offset, length, src)
    ensures var start, n2 := offset + HeadLen(offset, length), BodyCount(offset, length);
            FileByte(s2, disk2, x) ==
            if start <= x < start + n2 * BLOCK_SIZE then src[x - offset] else FileByte(s1, disk1, x)
  {
    var n1, n2 := HeadLen(offset, length), BodyCount(offset, length);
    if n2 > 0 {
      BodyAligned(offset, length);
      InRun(x, offset + n1, n2);
      var b := (offset + n1) / BLOCK_SIZE;
      if b <= x / BLOCK_SIZE < b + n2 { SlicesAt(src, n1, n2, x / BLOCK_SIZE - b, x % BLOCK_SIZE); }
    }
  }

  lemma {:induction false} HeadByte(s0: seq<Extent>, disk0: Disk, s1: seq<Extent>, disk1: Disk, base: Block,
          offset: nat, length: nat, src: seq<Byte>, x: nat)
    requires Readable(offset, length, src) && DiskOk(disk0) && DiskOk(disk1)
    requires HeadDone(s0, disk0, s1, disk1, base, offset, length, src)
    ensures FileByte(s1, disk1, x) ==
            if offset <= x < offset + HeadLen(offset, length) then src[offset % BLOCK_SIZE + (x - offset)]
            else if HasHead(offset, length) && x / BLOCK_SIZE == offset / BLOCK_SIZE then base[x % BLOCK_SIZE]
            else FileByte(s0, disk0, x)
  {
    InHead(x, offset, HeadLen(offset, length));
  }

  /** The file system that a file and an entry have to fit into. */
  ghost predicate EntryFits(s: seq<Extent>, disk: Disk, offset: nat, length: nat, src: seq<Byte>)
  {
    && AllWritten(s) && DiskOk(disk) && Readable(offset, length, src)
    && BlockCount(length) <= EXT_INIT_MAX_LEN && offset / BLOCK_SIZE + BlockCount(length) < EXT_MAX_BLOCKS
    && Safe(s, offset / BLOCK_SIZE, BlockCount(length))
  }

  /** What the first block of an entry holds apart from the entry. */
  function Base(s: seq<Extent>, disk: Disk, offset: nat, length: nat, spare: nat): Block
  {
    if HasHead(offset, length) then Under(s, disk, offset / BLOCK_SIZE, spare) else FileBlock(s, disk, offset / BLOCK_SIZE)
  }

  /** Write the first part of an entry, if it has one. */
  method WriteHead(f: File, disk0: Disk, offset: nat, length: nat, src: seq<Byte>) returns (disk: Disk, n: nat)
    requires f.Valid([]) && EntryFits(Flat(f.tree), disk0, offset, length, src)
    modifies f
    ensures f.Valid([]) && AllWritten(Flat(f.tree)) && DiskOk(disk) && n == HeadLen(offset, length)
    ensures HeadDone(old(Flat(f.tree)), disk0, Flat(f.tree), disk,
                     Base(old(Flat(f.tree)), disk0, offset, length, f.alloc(old(f.bitmap), 1).0), offset, length, src)
    ensures Adds(old(Flat(f.tree)), offset / BLOCK_SIZE, if HasHead(offset, length) then 1 else 0, Flat(f.tree))
    ensures Extends(old(Flat(f.tree)), Flat(f.tree)) && Spares(Flat(f.tree), disk0, disk)
    ensures BodyCount(offset, length) > 0 ==> Safe(Flat(f.tree), BodyStart(offset, length), BodyCount(offset, length))
  {
    var at := offset % BLOCK_SIZE;
    if length < BLOCK_SIZE || at != 0 {
      n := if length < BLOCK_SIZE - at then length else BLOCK_SIZE - at;
      disk := WritePart(f, disk0, offset / BLOCK_SIZE, at, src[at..at + n]);
      if BodyCount(offset, length) > 0 {
        BodyAligned(offset, length);
        SafeOnward(Flat(f.tree), offset / BLOCK_SIZE, BodyStart(offset, length), BodyCount(offset, length));
      }
    } else {
      disk, n := disk0, 0;
      BlockFits(Flat(f.tree), disk0, offset / BLOCK_SIZE);
    }
  }

  lemma {:induction false} BodyInside(offset: nat, length: nat)
    ensures BodyStart(offset, length) + BodyCount(offset, length) <= offset / BLOCK_SIZE + BlockCount(length)
  {
    if BodyCount(offset, length) > 0 {
      BodyAligned(offset, length);
    } else {
      var q := offset / BLOCK_SIZE;
      assert offset + HeadLen(offset, length) <= BLOCK_SIZE * (q + 1);
    }
  }

  /** Write the whole blocks of an entry: `left` blocks from block b on, behind the first n bytes. */
  method WriteBody(f: File, disk0: Disk, b: nat, left: nat, n: nat, src: seq<Byte>) returns (disk: Disk)
    requires f.Valid([]) && AllWritten(Flat(f.tree)) && DiskOk(disk0) && n + left * BLOCK_SIZE <= |src|
    requires left <= EXT_INIT_MAX_LEN && b + left < EXT_MAX_BLOCKS && (left > 0 ==> Safe(Flat(f.tree), b, left))
    modifies f
    ensures f.Valid([]) && AllWritten(Flat(f.tree)) && DiskOk(disk)
    ensures RunDone(old(Flat(f.tree)), disk0, Flat(f.tree), disk, b, Slices(src, n, left))
    ensures Adds(old(Flat(f.tree)), b, left, Flat(f.tree))
    ensures Extends(old(Flat(f.tree)), Flat(f.tree)) && Spares(Flat(f.tree), disk0, disk)
  {
    disk := WriteBlocks(f, disk0, b, Slices(src, n, left));
  }

  lemma {:induction false} EntryByte(s0: seq<Extent>, disk0: Disk, s1: seq<Extent>, disk1: Disk, s2: seq<Extent>,
          disk2: Disk, base: Block, offset: nat, length: nat, src: seq<Byte>, x: nat)
    requires Readable(offset, length, src) && DiskOk(disk0) && DiskOk(disk1) && DiskOk(disk2)
    requires HeadDone(s0, disk0, s1, disk1, base, offset, length, src)
    requires !HasHead(offset, length) ==> base == FileBlock(s0, disk0, offset / BLOCK_SIZE)
    requires BodyDone(s1, disk1, s2, disk2, offset, length, src)
    ensures FileByte(s2, disk2, x) ==
            Effect(offset, length, src, x,
                   if x / BLOCK_SIZE == offset / BLOCK_SIZE then base[x % BLOCK_SIZE] else FileByte(s0, disk0, x))
  {
    BodyByte(s1, disk1, s2, disk2, offset, length, src, x);
    HeadByte(s0, disk0, s1, disk1, base, offset, length, src, x);
  }
}
