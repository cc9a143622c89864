/** Log entries digested into the blocks of a file, compared with the digest of its contents
    (kernfs/digest.c). */
module DigestFiles {
  import opened Numbers
  import opened ExtentSeq
  import opened ExtentTree
  import opened ExtentFile
  import opened ExtentSpace
  import opened ExtentMap
  import opened DigestModel
  import opened DigestBlocks

  // ----- contents -----

  function Contents(s: seq<Extent>, disk: Disk, size: nat): seq<Byte>
    requires DiskOk(disk)
  {
    seq(size, x requires x >= 0 => FileByte(s, disk, x))
  }

  /** The blocks hold zeros past the end of the file. */
  ghost predicate TailZero(s: seq<Extent>, disk: Disk, size: nat)
    requires DiskOk(disk)
  {
    forall x: nat :: x >= size ==> FileByte(s, disk, x) == 0
  }

  lemma {:induction false} ContentsAt(s: seq<Extent>, disk: Disk, size: nat, x: nat)
    requires DiskOk(disk) && TailZero(s, disk, size)
    ensures ByteAt(Contents(s, disk, size), x) == FileByte(s, disk, x)
  {
    if x < size { assert Contents(s, disk, size)[x] == FileByte(s, disk, x); }
  }

  /** The blocks of a file hold the bytes c and zeros behind them. */
  ghost predicate Stores(s: seq<Extent>, disk: Disk, c: seq<Byte>)
    requires DiskOk(disk)
  {
    forall x: nat :: FileByte(s, disk, x) == ByteAt(c, x)
  }

  lemma {:induction false} StoresExact(s: seq<Extent>, disk: Disk, c: seq<Byte>)
    requires DiskOk(disk)
    ensures Stores(s, disk, c) <==> Contents(s, disk, |c|) == c && TailZero(s, disk, |c|)
  {
    if Stores(s, disk, c) {
      forall x: nat | x < |c| ensures Contents(s, disk, |c|)[x] == c[x] { assert FileByte(s, disk, x) == ByteAt(c, x); }
      forall x: nat | x >= |c| ensures FileByte(s, disk, x) == 0 { assert FileByte(s, disk, x) == ByteAt(c, x); }
    } else if Contents(s, disk, |c|) == c && TailZero(s, disk, |c|) {
      forall x: nat ensures FileByte(s, disk, x) == ByteAt(c, x) { ContentsAt(s, disk, |c|, x); }
    }
  }

  // ----- one entry -----

  /** The data that an entry carries. */
  function ChunkOf(offset: nat, length: nat, src: seq<Byte>): Chunk
    requires offset % BLOCK_SIZE + length <= |src|
  {
    Chunk(offset, src[offset % BLOCK_SIZE..offset % BLOCK_SIZE + length])
  }

  lemma {:induction false} OverlayAt(c: seq<Byte>, offset: nat, length: nat, src: seq<Byte>, x: nat)
    requires offset % BLOCK_SIZE + length <= |src|
    ensures ByteAt(Overlay(c, ChunkOf(offset, length, src)), x) == Pwrite(offset, length, src, x, ByteAt(c, x))
  {
    var w := ChunkOf(offset, length, src);
    if offset <= x < offset + length { assert w.data[x - offset] == src[offset % BLOCK_SIZE + (x - offset)]; }
  }

  /** What position x of the file holds after an entry was digested. */
  function After(s: seq<Extent>, disk: Disk, offset: nat, length: nat, spare: nat, src: seq<Byte>, x: nat): Byte
    requires DiskOk(disk) && Readable(offset, length, src)
  {
    BaseFits(s, disk, offset, length, spare);
    var base := Base(s, disk, offset, length, spare);
    Effect(offset, length, src, x, if x / BLOCK_SIZE == offset / BLOCK_SIZE then base[x % BLOCK_SIZE] else FileByte(s, disk, x))
  }

  lemma {:induction false} BaseFits(s: seq<Extent>, disk: Disk, offset: nat, length: nat, spare: nat)
    requires DiskOk(disk)
    ensures |Base(s, disk, offset, length, spare)| == BLOCK_SIZE
  {
    BlockFits(s, disk, offset / BLOCK_SIZE);
    assert |BlockOf(disk, spare)| == BLOCK_SIZE;
  }

  /** The block that the first part of an entry goes to was mapped before, or holds zeros apart from
      that part. */
  predicate Quiet(s: seq<Extent>, disk: Disk, offset: nat, length: nat, spare: nat)
    requires DiskOk(disk)
  {
    HasHead(offset, length) && Lookup(s, offset / BLOCK_SIZE) == Hole ==> ZeroAround(offset, length, BlockOf(disk, spare))
  }

  predicate ZeroAround(offset: nat, length: nat, blk: Block)
  {
    var o := offset % BLOCK_SIZE;
    forall r :: 0 <= r < |blk| && !(o <= r < o + HeadLen(offset, length)) ==> blk[r] == 0
  }

  /** The entry has the effect of one write of its data, whatever the data is. */
  ghost predicate LikePwrite(s: seq<Extent>, disk: Disk, c: seq<Byte>, offset: nat, length: nat, spare: nat)
    requires DiskOk(disk)
  {
    forall src: seq<Byte>, x: nat | Readable(offset, length, src) ::
      After(s, disk, offset, length, spare, src, x) == ByteAt(Overlay(c, ChunkOf(offset, length, src)), x)
  }

  lemma {:induction false} SimpleQuiet(s: seq<Extent>, disk: Disk, c: seq<Byte>, offset: nat, length: nat, spare: nat,
          src: seq<Byte>, x: nat)
    requires DiskOk(disk) && Stores(s, disk, c) && Readable(offset, length, src)
    requires Simple(offset, length) && Quiet(s, disk, offset, length, spare)
    ensures After(s, disk, offset, length, spare, src, x) == ByteAt(Overlay(c, ChunkOf(offset, length, src)), x)
  {
    SimpleExtent(offset, length);
    OverlayAt(c, offset, length, src, x);
    assert FileByte(s, disk, x) == ByteAt(c, x);
    InHead(x, offset, HeadLen(offset, length));
    BaseFits(s, disk, offset, length, spare);
  }

  /** Data of which only byte k is not zero. */
  function OneAt(k: nat, v: Byte, n: nat): seq<Byte> { seq(n, i => if i == k then v else 0) }

  lemma {:induction false} SpanningFails(s: seq<Extent>, disk: Disk, c: seq<Byte>, offset: nat, length: nat, spare: nat)
    requires DiskOk(disk) && offset % BLOCK_SIZE != 0 && BLOCK_SIZE < offset % BLOCK_SIZE + length
    ensures !LikePwrite(s, disk, c, offset, length, spare)
  {
    var o, n1 := offset % BLOCK_SIZE, BLOCK_SIZE - offset % BLOCK_SIZE;
    var x := offset + n1;
    var v: Byte := if FileByte(s, disk, x) == 1 then 2 else 1;
    var src := OneAt(BLOCK_SIZE, v, o + length + n1 + BodyCount(offset, length) * BLOCK_SIZE + BLOCK_SIZE);
    assert HeadLen(offset, length) == n1;
    assert x / BLOCK_SIZE != offset / BLOCK_SIZE by { assert offset == BLOCK_SIZE * (offset / BLOCK_SIZE) + o; }
    OverlayAt(c, offset, length, src, x);
    assert Readable(offset, length, src);
    assert After(s, disk, offset, length, spare, src, x) != v;
  }

  lemma {:induction false} RaggedFails(s: seq<Extent>, disk: Disk, c: seq<Byte>, offset: nat, length: nat, spare: nat)
    requires DiskOk(disk) && offset % BLOCK_SIZE == 0 && BLOCK_SIZE < length && length % BLOCK_SIZE != 0
    ensures !LikePwrite(s, disk, c, offset, length, spare)
  {
    var n2, x := length / BLOCK_SIZE + 1, offset + length;
    assert length == BLOCK_SIZE * (length / BLOCK_SIZE) + length % BLOCK_SIZE;
    assert n2 * BLOCK_SIZE == BLOCK_SIZE * (length / BLOCK_SIZE) + BLOCK_SIZE;
    var v: Byte := if ByteAt(c, x) == 1 then 2 else 1;
    var src := OneAt(length, v, n2 * BLOCK_SIZE + length);
    OverlayAt(c, offset, length, src, x);
    assert Readable(offset, length, src);
    assert After(s, disk, offset, length, spare, src, x) == v;
  }

  lemma {:induction false} NoisyFails(s: seq<Extent>, disk: Disk, c: seq<Byte>, offset: nat, length: nat, spare: nat)
    requires DiskOk(disk) && Stores(s, disk, c) && Simple(offset, length) && !Quiet(s, disk, offset, length, spare)
    ensures !LikePwrite(s, disk, c, offset, length, spare)
  {
    var blk, o := BlockOf(disk, spare), offset % BLOCK_SIZE;
    var r :| 0 <= r < |blk| && !(o <= r < o + HeadLen(offset, length)) && blk[r] != 0;
    assert |blk| == BLOCK_SIZE;
    var b := offset / BLOCK_SIZE;
    var x := BLOCK_SIZE * b + r;
    assert x / BLOCK_SIZE == b && x % BLOCK_SIZE == r;
    SimpleExtent(offset, length);
    var src := OneAt(0, 0, o + length);
    InHead(x, offset, HeadLen(offset, length));
    OverlayAt(c, offset, length, src, x);
    assert FileByte(s, disk, x) == 0 == ByteAt(c, x);
    assert Readable(offset, length, src);
    assert After(s, disk, offset, length, spare, src, x) == blk[r];
  }

  /** An entry is digested as one write of its data, whatever the data is, exactly when it lies inside
      one block or consists of whole blocks, and the block for its first part is mapped or zero apart
      from that part. */
  lemma {:induction false} DigestExact(s: seq<Extent>, disk: Disk, c: seq<Byte>, offset: nat, length: nat, spare: nat)
    requires DiskOk(disk) && Stores(s, disk, c)
    ensures LikePwrite(s, disk, c, offset, length, spare)
            <==> Simple(offset, length) && Quiet(s, disk, offset, length, spare)
  {
    if Simple(offset, length) {
      if Quiet(s, disk, offset, length, spare) {
        forall src: seq<Byte>, x: nat | Readable(offset, length, src)
          ensures After(s, disk, offset, length, spare, src, x) == ByteAt(Overlay(c, ChunkOf(offset, length, src)), x)
        {
          SimpleQuiet(s, disk, c, offset, length, spare, src, x);
        }
      } else {
        NoisyFails(s, disk, c, offset, length, spare);
      }
    } else if offset % BLOCK_SIZE != 0 {
      SpanningFails(s, disk, c, offset, length, spare);
    } else {
      RaggedFails(s, disk, c, offset, length, spare);
    }
  }

  /** One byte is written at position 100 of a file without extents, into a block that still holds
      ones: position 0 changes from 0 to 1. */
  lemma {:induction false} HoleShowsOldBytes(spare: nat, src: seq<Byte>)
    requires |src| >= 101
    ensures var disk := map[spare := seq(BLOCK_SIZE, _ => 1)];
            && DiskOk(disk) && Stores([], disk, []) && Simple(100, 1) && Readable(100, 1, src)
            && FileByte([], disk, 0) == 0 && After([], disk, 100, 1, spare, src, 0) == 1
  {
  }

  /** Digest one log entry: write its first part, then its whole blocks, and let the file grow. The
      file holds what a write of the data leaves, if the conditions for that are met. */
  method WriteEntry(f: File, disk0: Disk, size0: nat, offset: nat, length: nat, src: seq<Byte>)
          returns (disk: Disk, size: nat)
    requires f.Valid([]) && EntryFits(Flat(f.tree), disk0, offset, length, src)
    modifies f
    ensures f.Valid([]) && AllWritten(Flat(f.tree)) && DiskOk(disk) && size == Max(size0, offset + length)
    ensures Adds(old(Flat(f.tree)), offset / BLOCK_SIZE, BlockCount(length), Flat(f.tree))
    ensures Extends(old(Flat(f.tree)), Flat(f.tree)) && Spares(Flat(f.tree), disk0, disk)
    ensures forall x: nat :: FileByte(Flat(f.tree), disk, x) ==
              After(old(Flat(f.tree)), disk0, offset, length, f.alloc(old(f.bitmap), 1).0, src, x)
    ensures Simple(offset, length) && Quiet(old(Flat(f.tree)), disk0, offset, length, f.alloc(old(f.bitmap), 1).0)
            && TailZero(old(Flat(f.tree)), disk0, size0) ==>
              && Present(Contents(Flat(f.tree), disk, size))
                 == DigestFile(Present(Contents(old(Flat(f.tree)), disk0, size0)), ChunkOf(offset, length, src))
              && TailZero(Flat(f.tree), disk, size)
  {
    size := if size0 < offset + length then offset + length else size0;
    var n;
    ghost var s0, spare := Flat(f.tree), f.alloc(f.bitmap, 1).0;
    disk, n := WriteHead(f, disk0, offset, length, src);
    ghost var s1, disk1 := Flat(f.tree), disk;
    var b := (offset + n) / BLOCK_SIZE;
    var left := BlockCount(length) - if length < BLOCK_SIZE || offset % BLOCK_SIZE != 0 then 1 else 0;
    BodyInside(offset, length);
    disk := WriteBody(f, disk, b, left, n, src);
    SparesTwice(s1, disk0, disk1, Flat(f.tree), disk);
    EntryAdds(s0, s1, Flat(f.tree), offset, length, b, left);
    EntryDone(s0, disk0, s1, disk1, Flat(f.tree), disk, offset, length, spare, src, n, b, left);
    if Simple(offset, length) && Quiet(s0, disk0, offset, length, spare) && TailZero(s0, disk0, size0) {
      EntryRefines(s0, disk0, size0, Flat(f.tree), disk, offset, length, spare, src);
    }
  }

  lemma {:induction false} EntryAdds(s0: seq<Extent>, s1: seq<Extent>, s2: seq<Extent>, offset: nat, length: nat,
          b: nat,
          left: nat)
    requires Adds(s0, offset / BLOCK_SIZE, if HasHead(offset, length) then 1 else 0, s1)
    requires b == BodyStart(offset, length) && left == BodyCount(offset, length) && Adds(s1, b, left, s2)
    ensures Adds(s0, offset / BLOCK_SIZE, BlockCount(length), s2)
  {
    if BodyCount(offset, length) > 0 { BodyAligned(offset, length); }
  }

  lemma {:induction false} EntryDone(s0: seq<Extent>, disk0: Disk, s1: seq<Extent>, disk1: Disk, s2: seq<Extent>,
          disk2: Disk, offset: nat, length: nat, spare: nat, src: seq<Byte>, n: nat, b: nat, left: nat)
    requires Readable(offset, length, src) && DiskOk(disk0) && DiskOk(disk1) && DiskOk(disk2)
    requires HeadDone(s0, disk0, s1, disk1, Base(s0, disk0, offset, length, spare), offset, length, src)
    requires n == HeadLen(offset, length) && b == BodyStart(offset, length) && left == BodyCount(offset, length)
    requires RunDone(s1, disk1, s2, disk2, b, Slices(src, n, left))
    ensures forall x: nat :: FileByte(s2, disk2, x) == After(s0, disk0, offset, length, spare, src, x)
  {
    assert BodyDone(s1, disk1, s2, disk2, offset, length, src);
    forall x: nat ensures FileByte(s2, disk2, x) == After(s0, disk0, offset, length, spare, src, x) {
      EntryByte(s0, disk0, s1, disk1, s2, disk2, Base(s0, disk0, offset, length, spare), offset, length, src, x);
    }
  }

  lemma {:induction false} EntryRefines(s0: seq<Extent>, disk0: Disk, size0: nat, s: seq<Extent>, disk: Disk,
          offset: nat, length: nat, spare: nat, src: seq<Byte>)
    requires DiskOk(disk0) && DiskOk(disk) && Readable(offset, length, src) && TailZero(s0, disk0, size0)
    requires Simple(offset, length) && Quiet(s0, disk0, offset, length, spare)
    requires forall x: nat :: FileByte(s, disk, x) == After(s0, disk0, offset, length, spare, src, x)
    ensures var size := Max(size0, offset + length);
            && Contents(s, disk, size) == Overlay(Contents(s0, disk0, size0), ChunkOf(offset, length, src))
            && TailZero(s, disk, size)
  {
    var c := Contents(s0, disk0, size0);
    StoresExact(s0, disk0, c);
    var c' := Overlay(c, ChunkOf(offset, length, src));
    forall x: nat ensures FileByte(s, disk, x) == ByteAt(c', x) {
      SimpleQuiet(s0, disk0, c, offset, length, spare, src, x);
      assert FileByte(s, disk, x) == After(s0, disk0, offset, length, spare, src, x);
    }
    StoresExact(s, disk, c');
  }

  // ----- a new size -----

  /** The number of blocks that a file of a size has. */
  function BlocksOf(size: nat): nat { size / BLOCK_SIZE + if size % BLOCK_SIZE != 0 then 1 else 0 }

  /** A block that a file loses when its size becomes smaller. */
  predicate CutOff(size0: nat, size: nat, l: nat) { size < size0 && BlocksOf(size) <= l <= size0 / BLOCK_SIZE }

  ghost predicate Trims(s: seq<Extent>, size0: nat, size: nat, s': seq<Extent>)
  {
    forall l: nat :: Lookup(s', l) == if CutOff(size0, size, l) then Hole else Lookup(s, l)
  }

  /** What was behind the new end in the last block that is kept is zero. */
  predicate NothingBehind(c: seq<Byte>, size: nat)
  {
    forall x :: size <= x < |c| && x / BLOCK_SIZE < BlocksOf(size) ==> c[x] == 0
  }

  lemma {:induction false} InsideKept(x: nat, size: nat)
    requires x < size
    ensures x / BLOCK_SIZE < BlocksOf(size)
  {
    assert x == BLOCK_SIZE * (x / BLOCK_SIZE) + x % BLOCK_SIZE && size == BLOCK_SIZE * (size / BLOCK_SIZE) + size % BLOCK_SIZE;
  }

  lemma {:induction false} TrimmedByte(s: seq<Extent>, disk: Disk, size0: nat, size: nat, s': seq<Extent>, x: nat)
    requires DiskOk(disk) && Trims(s, size0, size, s')
    ensures FileByte(s', disk, x) == if CutOff(size0, size, x / BLOCK_SIZE) then 0 else FileByte(s, disk, x)
  {
    assert Lookup(s', x / BLOCK_SIZE) == if CutOff(size0, size, x / BLOCK_SIZE) then Hole else Lookup(s, x / BLOCK_SIZE);
  }

  lemma {:induction false} TrimmedContents(s: seq<Extent>, disk: Disk, size0: nat, size: nat, s': seq<Extent>)
    requires DiskOk(disk) && TailZero(s, disk, size0) && Trims(s, size0, size, s')
    ensures Contents(s', disk, size) == Resize(Contents(s, disk, size0), size)
  {
    var c := Contents(s, disk, size0);
    forall x: nat | x < size ensures Contents(s', disk, size)[x] == ByteAt(c, x) {
      InsideKept(x, size);
      TrimmedByte(s, disk, size0, size, s', x);
      ContentsAt(s, disk, size0, x);
    }
    assert Contents(s', disk, size) == Resize(c, size);
  }

  lemma {:induction false} TrimmedTail(s: seq<Extent>, disk: Disk, size0: nat, size: nat, s': seq<Extent>)
    requires DiskOk(disk) && TailZero(s, disk, size0) && Trims(s, size0, size, s')
    ensures TailZero(s', disk, size) <==> NothingBehind(Contents(s, disk, size0), size)
  {
    var c := Contents(s, disk, size0);
    if NothingBehind(c, size) {
      forall x: nat | x >= size ensures FileByte(s', disk, x) == 0 {
        TrimmedByte(s, disk, size0, size, s', x);
        if x < size0 {
          assert x / BLOCK_SIZE <= size0 / BLOCK_SIZE;
          assert c[x] == FileByte(s, disk, x);
        }
      }
    } else {
      var x :| size <= x < |c| && x / BLOCK_SIZE < BlocksOf(size) && c[x] != 0;
      TrimmedByte(s, disk, size0, size, s', x);
      assert FileByte(s', disk, x) == c[x];
    }
  }

  lemma {:induction false} TrimOrder(size0: nat, size: nat)
    requires size < size0
    ensures BlocksOf(size) <= size0 / BLOCK_SIZE + 1
  {
    assert size == BLOCK_SIZE * (size / BLOCK_SIZE) + size % BLOCK_SIZE;
  }

  /** Digest a snapshot of the inode: a file that becomes shorter loses the blocks behind its new last
      one. Its contents are cut, or filled up with zeros; and they would be filled up with zeros again
      exactly when nothing is left behind the end in the last block. */
  method SetSize(f: File, disk: Disk, size0: nat, size: nat)
    requires f.Valid([]) && AllWritten(Flat(f.tree)) && DiskOk(disk) && size0 / BLOCK_SIZE < EXT_MAX_BLOCKS - 1
    modifies f
    ensures f.Valid([]) && AllWritten(Flat(f.tree)) && Trims(old(Flat(f.tree)), size0, size, Flat(f.tree))
    ensures TailZero(old(Flat(f.tree)), disk, size0) ==>
              && Present(Contents(Flat(f.tree), disk, size)) == DigestInode(Present(Contents(old(Flat(f.tree)), disk, size0)), size)
              && (TailZero(Flat(f.tree), disk, size) <==> NothingBehind(Contents(old(Flat(f.tree)), disk, size0), size))
  {
    ghost var s := Flat(f.tree);
    if size < size0 {
      TrimOrder(size0, size);
      var start := size / BLOCK_SIZE + if size % BLOCK_SIZE != 0 then 1 else 0;
      RemoveSpace(f, start, size0 / BLOCK_SIZE);
    }
    assert Trims(s, size0, size, Flat(f.tree));
    if TailZero(s, disk, size0) {
      TrimmedContents(s, disk, size0, size, Flat(f.tree));
      TrimmedTail(s, disk, size0, size, Flat(f.tree));
    }
  }

  /** A file of two bytes is cut to one byte and grows to two bytes again: the second byte is still
      there. */
  lemma {:induction false} CutShowsOldBytes()
    ensures var s, disk := [Extent(0, 1, 7, false)], map[7 := [5, 5] + seq(BLOCK_SIZE - 2, _ => 0)];
            && DiskOk(disk) && TailZero(s, disk, 2) && Trims(s, 2, 1, s) && Trims(s, 1, 2, s)
            && Contents(s, disk, 2) == [5, 5] && DigestInode(DigestInode(Present([5, 5]), 1), 2) == Present([5, 0])
  {
    var s, disk := [Extent(0, 1, 7, false)], map[7 := [5, 5] + seq(BLOCK_SIZE - 2, _ => 0)];
    assert s[1..] == [];
    forall l: nat ensures Lookup(s, l) == if l == 0 then To(7, false) else Hole { }
    forall p: nat ensures |BlockOf(disk, p)| == BLOCK_SIZE { }
    forall x: nat | x >= 2 ensures FileByte(s, disk, x) == 0 { }
    assert FileByte(s, disk, 0) == 5 && FileByte(s, disk, 1) == 5;
    assert Contents(s, disk, 2) == [5, 5];
    assert Resize([5, 5], 1) == [5] && Resize([5], 2) == [5, 0];
  }

  // ----- an unlink -----

  /** Only blocks that hold bytes of a file of this size are mapped. */
  ghost predicate MappedBelow(s: seq<Extent>, size: nat)
  {
    forall l: nat :: Lookup(s, l).To? ==> l < BlocksOf(size)
  }

  /** The file has no partial last block behind its first one, or that block is a hole. */
  predicate WholeBlocks(s: seq<Extent>, size: nat)
  {
    size < BLOCK_SIZE || size % BLOCK_SIZE == 0 || Lookup(s, size / BLOCK_SIZE) == Hole
  }

  /** The last block that an unlink unmaps. */
  function UnlinkEnd(size: nat): nat { if size / BLOCK_SIZE == 0 then 0 else size / BLOCK_SIZE - 1 }

  lemma {:induction false} NothingMapped(s: seq<Extent>)
    requires Sorted(s)
    ensures s == [] <==> forall l: nat :: Lookup(s, l) == Hole
  {
    if s != [] { LookupAt(s, 0, s[0].lblk); }
  }

  lemma {:induction false} UnlinkMaps(s: seq<Extent>, size: nat, s': seq<Extent>)
    requires MappedBelow(s, size) && (if size > 0 then Unmaps(s, 0, UnlinkEnd(size), s') else s' == s)
    ensures (forall l: nat :: Lookup(s', l) == Hole) <==> WholeBlocks(s, size)
  {
    var last := size / BLOCK_SIZE;
    assert size == BLOCK_SIZE * last + size % BLOCK_SIZE;
    if WholeBlocks(s, size) {
      forall l: nat ensures Lookup(s', l) == Hole {
        if Lookup(s, l).To? { assert l < BlocksOf(size); }
      }
    } else {
      assert Lookup(s', last) == Lookup(s, last);
    }
  }

  /** A file without extents holds no block, and one with extents holds some. */
  lemma {:induction false} AllGivenBack(t: Tree, d: nat, R: nat, B: nat, bitmap: set<nat>, others: set<nat>)
    requires Shape(t, d, R, B) && Sorted(Flat(t)) && Ledger(t, bitmap, others, [])
    ensures bitmap == others <==> Flat(t) == []
  {
    if Flat(t) == [] {
      if !Empty(t) { FirstKey(t, d, R, B); }
      forall b: nat ensures b in bitmap <==> b in others { assert In(bitmap, b) == In(others, b); }
    } else {
      var p := Flat(t)[0].pblk;
      SortedAt(Flat(t), 0);
      OwnsOne(Flat(t), 0, p);
      assert In(bitmap, p) == 1 && In(others, p) == 0;
    }
  }

  /** Unlink a file of a size: unmap its blocks from the first one on. All its blocks are given back
      exactly when it has no partial last block behind its first one. */
  method UnlinkFile(f: File, size: nat)
    requires f.Valid([]) && MappedBelow(Flat(f.tree), size) && size / BLOCK_SIZE < EXT_MAX_BLOCKS
    modifies f
    ensures f.Valid([])
    ensures if size > 0 then Unmaps(old(Flat(f.tree)), 0, UnlinkEnd(size), Flat(f.tree)) else Flat(f.tree) == old(Flat(f.tree))
    ensures f.bitmap == f.others <==> WholeBlocks(old(Flat(f.tree)), size)
  {
    ghost var s := Flat(f.tree);
    if size > 0 {
      var end := size / BLOCK_SIZE;
      RemoveSpace(f, 0, if end == 0 then end else end - 1);
    }
    UnlinkMaps(s, size, Flat(f.tree));
    NothingMapped(Flat(f.tree));
    AllGivenBack(f.tree, f.depth, f.R, f.B, f.bitmap, f.others);
  }

  /** A file of a block and a byte: its second block stays mapped. */
  lemma {:induction false} UnlinkLeavesBlock()
    ensures var s, s', size := [Extent(0, 2, 100, false)], [Extent(1, 1, 101, false)], BLOCK_SIZE + 1;
            Sorted(s) && MappedBelow(s, size) && Unmaps(s, 0, UnlinkEnd(size), s') && Lookup(s', 1) == To(101, false)
  {
    var s, s' := [Extent(0, 2, 100, false)], [Extent(1, 1, 101, false)];
    assert s[1..] == [] && s'[1..] == [];
    assert forall l: nat :: Lookup(s, l) == if l < 2 then To(100 + l, false) else Hole;
    assert forall l: nat :: Lookup(s', l) == if l == 1 then To(101, false) else Hole;
  }

  // ----- a run of entries -----

  /** A log entry of one file: data, with what the log holds around it, or a snapshot with a size. */
  datatype Op = Data(offset: nat, length: nat, src: seq<Byte>) | Size(size: nat)

  predicate OpOk(op: Op) { op.Data? ==> Readable(op.offset, op.length, op.src) }

  predicate OpsOk(ops: seq<Op>) { forall i :: 0 <= i < |ops| ==> OpOk(ops[i]) }

  /** The entry of the log as the digest of contents sees it. */
  function EntryOf(i: nat, op: Op): Entry
    requires OpOk(op)
  {
    match op
    case Data(offset, length, src) => Write(i, ChunkOf(offset, length, src))
    case Size(size) => Snap(i, false, size)
  }

  function EntriesOf(i: nat, ops: seq<Op>): seq<Entry>
    requires OpsOk(ops)
  {
    seq(|ops|, k requires 0 <= k < |ops| => EntryOf(i, ops[k]))
  }

  function SizeAfter(size0: nat, ops: seq<Op>): nat
  {
    if ops == [] then size0
    else
      var size := SizeAfter(size0, ops[..|ops| - 1]);
      match ops[|ops| - 1]
      case Data(offset, length, _) => Max(size, offset + length)
      case Size(n) => n
  }

  /** Whether logical block l is mapped after the entries. */
  ghost predicate MappedAfter(s0: seq<Extent>, size0: nat, ops: seq<Op>, l: nat)
  {
    if ops == [] then Lookup(s0, l).To?
    else
      var front := ops[..|ops| - 1];
      match ops[|ops| - 1]
      case Data(offset, length, _) =>
        MappedAfter(s0, size0, front, l) || offset / BLOCK_SIZE <= l < offset / BLOCK_SIZE + BlockCount(length)
      case Size(n) => MappedAfter(s0, size0, front, l) && !CutOff(SizeAfter(size0, front), n, l)
  }

  /** The blocks of data that is written in front of all mapped blocks do not reach any of them. */
  ghost predicate Clear(s0: seq<Extent>, size0: nat, ops: seq<Op>, b: nat, n: nat)
  {
    || (exists l: nat :: l <= b && MappedAfter(s0, size0, ops, l))
    || (forall l: nat :: b <= l < b + n ==> !MappedAfter(s0, size0, ops, l))
  }

  /** Each entry fits into the file at its turn. */
  ghost predicate OpsFit(s0: seq<Extent>, size0: nat, ops: seq<Op>)
  {
    ops == [] ||
    var front, op := ops[..|ops| - 1], ops[|ops| - 1];
    && OpsFit(s0, size0, front) && OpOk(op)
    && match op
       case Data(offset, length, _) =>
         && BlockCount(length) <= EXT_INIT_MAX_LEN && offset / BLOCK_SIZE + BlockCount(length) < EXT_MAX_BLOCKS
         && Clear(s0, size0, front, offset / BLOCK_SIZE, BlockCount(length))
       case Size(_) => SizeAfter(size0, front) / BLOCK_SIZE < EXT_MAX_BLOCKS - 1
  }

  lemma {:induction false} FitsFront(s0: seq<Extent>, size0: nat, ops: seq<Op>, k: nat)
    requires OpsFit(s0, size0, ops) && k <= |ops|
    ensures OpsFit(s0, size0, ops[..k])
    decreases |ops|
  {
    if k == |ops| {
      assert ops[..k] == ops;
    } else {
      assert ops[..|ops| - 1][..k] == ops[..k];
      FitsFront(s0, size0, ops[..|ops| - 1], k);
    }
  }

  lemma {:induction false} FitsOk(s0: seq<Extent>, size0: nat, ops: seq<Op>)
    requires OpsFit(s0, size0, ops)
    ensures OpsOk(ops)
    decreases |ops|
  {
    if ops != [] {
      FitsOk(s0, size0, ops[..|ops| - 1]);
      forall i | 0 <= i < |ops| ensures OpOk(ops[i]) { if i < |ops| - 1 { assert ops[i] == ops[..|ops| - 1][i]; } }
    }
  }

  /** The contents that the digest of the entries leaves, one after the other. */
  function DigestOps(n: Node, ops: seq<Op>): Node
    requires OpsOk(ops)
  {
    if ops == [] then n else DigestEntry(DigestOps(n, ops[..|ops| - 1]), EntryOf(0, ops[|ops| - 1]))
  }

  /** The entry leaves nothing but what it should: data lies inside one block or consists of whole
      blocks, and is not put beside old bytes `was` of a new block; a smaller size leaves nothing
      behind the end. */
  ghost predicate Clean(s0: seq<Extent>, size0: nat, c0: seq<Byte>, ops: seq<Op>, op: Op, was: Block)
    requires OpsOk(ops)
  {
    match op
    case Data(offset, length, _) =>
      && Simple(offset, length)
      && (HasHead(offset, length) && !MappedAfter(s0, size0, ops, offset / BLOCK_SIZE) ==> ZeroAround(offset, length, was))
    case Size(n) => DigestOps(Present(c0), ops).Present? && NothingBehind(DigestOps(Present(c0), ops).data, n)
  }

  ghost predicate AllClean(s0: seq<Extent>, size0: nat, c0: seq<Byte>, ops: seq<Op>, olds: seq<Block>)
    requires OpsOk(ops) && |olds| == |ops|
  {
    ops == [] ||
    var front := ops[..|ops| - 1];
    AllClean(s0, size0, c0, front, olds[..|ops| - 1]) && Clean(s0, size0, c0, front, ops[|ops| - 1], olds[|ops| - 1])
  }

  lemma {:induction false} ClearIsSafe(s: seq<Extent>, s0: seq<Extent>, size0: nat, ops: seq<Op>, b: nat, n: nat)
    requires Sorted(s) && (forall l: nat :: Lookup(s, l).To? <==> MappedAfter(s0, size0, ops, l)) && Clear(s0, size0, ops, b, n)
    ensures Safe(s, b, n)
  {
    if l: nat :| l <= b && MappedAfter(s0, size0, ops, l) {
      SafeOnward(s, l, b, n);
    } else {
      forall l: nat | b <= l < b + n ensures Lookup(s, l) == Hole { assert !MappedAfter(s0, size0, ops, l); }
      UnmappedIsSafe(s, b, n);
    }
  }

  /** What holds of the file between two entries. */
  ghost predicate Reached(s0: seq<Extent>, size0: nat, c0: seq<Byte>, ops: seq<Op>, olds: seq<Block>, s: seq<Extent>,
          disk: Disk, size: nat)
    requires DiskOk(disk) && OpsOk(ops)
  {
    && |olds| == |ops| && size == SizeAfter(size0, ops) && AllWritten(s)
    && (forall l: nat :: Lookup(s, l).To? <==> MappedAfter(s0, size0, ops, l))
    && (AllClean(s0, size0, c0, ops, olds) ==>
          Present(Contents(s, disk, size)) == DigestOps(Present(c0), ops) && TailZero(s, disk, size))
  }

  /** Blocks that belong to someone else stay as they are. */
  ghost predicate SparesOthers(others: set<nat>, disk0: Disk, disk: Disk)
  {
    forall q :: q in others ==> BlockOf(disk, q) == BlockOf(disk0, q)
  }

  /** Digest one entry; `was` is what the block stored that a hole under its first part got. */
  method DigestOp(f: File, disk0: Disk, size0: nat, op: Op, ghost s0: seq<Extent>, ghost z0: nat, ghost c0: seq<Byte>,
          ghost front: seq<Op>, ghost olds: seq<Block>)
    returns (disk: Disk, size: nat, ghost was: Block)
    requires f.Valid([]) && DiskOk(disk0) && OpsFit(s0, z0, front + [op]) && OpsOk(front) && OpOk(op)
    requires Reached(s0, z0, c0, front, olds, Flat(f.tree), disk0, size0)
    modifies f
    ensures f.Valid([]) && DiskOk(disk) && OpsOk(front + [op])
    ensures Reached(s0, z0, c0, front + [op], olds + [was], Flat(f.tree), disk, size)
    ensures SparesOthers(f.others, disk0, disk)
  {
    ghost var ops, s, spare := front + [op], Flat(f.tree), f.alloc(f.bitmap, 1).0;
    assert ops[..|ops| - 1] == front && ops[|ops| - 1] == op;
    ghost var all := olds + [BlockOf(disk0, spare)];
    assert all[..|all| - 1] == olds && all[|all| - 1] == BlockOf(disk0, spare);
    was := BlockOf(disk0, spare);
    match op {
      case Data(offset, length, src) =>
        ClearIsSafe(s, s0, z0, front, offset / BLOCK_SIZE, BlockCount(length));
        disk, size := WriteEntry(f, disk0, size0, offset, length, src);
        forall q | q in f.others ensures BlockOf(disk, q) == BlockOf(disk0, q) {
          OthersUnmapped(f.tree, f.bitmap, f.others, q);
        }
      case Size(n) =>
        SetSize(f, disk0, size0, n);
        disk, size := disk0, n;
    }
  }

  /** Digest the entries of a file in log order. The blocks then hold what the digest of contents
      leaves, if every entry is clean at its turn. */
  method DigestEntries(f: File, disk0: Disk, size0: nat, ops: seq<Op>)
          returns (disk: Disk, size: nat, ghost olds: seq<Block>)
    requires f.Valid([]) && AllWritten(Flat(f.tree)) && DiskOk(disk0) && TailZero(Flat(f.tree), disk0, size0)
    requires OpsFit(Flat(f.tree), size0, ops)
    modifies f
    ensures f.Valid([]) && DiskOk(disk) && OpsOk(ops)
    ensures Reached(old(Flat(f.tree)), size0, Contents(old(Flat(f.tree)), disk0, size0), ops, olds, Flat(f.tree), disk, size)
    ensures SparesOthers(f.others, disk0, disk)
  {
    ghost var s0, c0 := Flat(f.tree), Contents(Flat(f.tree), disk0, size0);
    disk, size, olds := disk0, size0, [];
    assert ops[..0] == [];
    for i := 0 to |ops|
      invariant f.Valid([]) && DiskOk(disk) && OpsOk(ops[..i])
      invariant Reached(s0, size0, c0, ops[..i], olds, Flat(f.tree), disk, size)
      invariant SparesOthers(f.others, disk0, disk)
    {
      assert ops[..i] + [ops[i]] == ops[..i + 1];
      FitsFront(s0, size0, ops, i + 1);
      FitsOk(s0, size0, ops[..i + 1]);
      assert ops[..i + 1][i] == ops[i];
      ghost var was;
      disk, size, was := DigestOp(f, disk, size, ops[i], s0, size0, c0, ops[..i], olds);
      olds := olds + [was];
    }
    assert ops[..|ops|] == ops;
  }

  /** The digest of the entries of one inode in log order, as the whole log is digested. */
  lemma {:induction false} DigestOpsIsLog(fs: FileSystem, i: nat, ops: seq<Op>)
    requires OpsOk(ops)
    ensures NodeOf(DigestLog(fs, EntriesOf(i, ops)), i) == DigestOps(NodeOf(fs, i), ops)
    decreases |ops|
  {
    if ops != [] {
      var front := ops[..|ops| - 1];
      assert EntriesOf(i, ops)[..|ops| - 1] == EntriesOf(i, front);
      DigestOpsIsLog(fs, i, front);
    }
  }

  /** Entries of whole blocks, or that write parts of mapped blocks only, and sizes that do not shrink
      the file are clean whatever the disk holds. */
  lemma {:induction false} PlainIsClean(s0: seq<Extent>, size0: nat, c0: seq<Byte>, ops: seq<Op>, olds: seq<Block>)
    requires OpsOk(ops) && |olds| == |ops| && |c0| == size0
    requires forall i :: 0 <= i < |ops| ==> Plain(s0, size0, ops[..i], ops[i])
    ensures AllClean(s0, size0, c0, ops, olds) && DigestOps(Present(c0), ops).Present?
            && |DigestOps(Present(c0), ops).data| == SizeAfter(size0, ops)
    decreases |ops|
  {
    if ops != [] {
      var front := ops[..|ops| - 1];
      forall i | 0 <= i < |front| ensures Plain(s0, size0, front[..i], front[i]) {
        assert front[..i] == ops[..i] && front[i] == ops[i];
        assert Plain(s0, size0, ops[..i], ops[i]);
      }
      PlainIsClean(s0, size0, c0, front, olds[..|ops| - 1]);
      assert Plain(s0, size0, ops[..|ops| - 1], ops[|ops| - 1]);
    }
  }

  ghost predicate Plain(s0: seq<Extent>, size0: nat, front: seq<Op>, op: Op)
  {
    match op
    case Data(offset, length, _) =>
      Simple(offset, length) && (HasHead(offset, length) ==> MappedAfter(s0, size0, front, offset / BLOCK_SIZE))
    case Size(n) => n >= SizeAfter(size0, front)
  }
}
