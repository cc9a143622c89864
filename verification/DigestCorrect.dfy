/** The coalesced replay list changes the file system as the log does, entry by entry, and exactly
    when (kernfs/digest.c). */
module DigestCorrect {
  import opened Numbers
  import opened Options
  import opened DigestModel
  import opened DigestProofs

  // ----- one life, entry by entry -----

  function Base(n: Node): seq<Byte> { if n.Present? then n.data else [] }

  function LenAfter(len: nat, life: seq<Entry>): nat
  {
    if life == [] then len
    else
      match life[|life| - 1]
      case Snap(_, _, size) => size
      case Write(_, w) => Max(LenAfter(len, life[..|life| - 1]), w.End())
      case Unlink(_) => 0
  }

  /** A snapshot cuts the file before position x, and no later write sets it. */
  predicate Erased(life: seq<Entry>, x: nat)
  {
    life != [] &&
    var front, e := life[..|life| - 1], life[|life| - 1];
    match e
    case Snap(_, _, size) => size <= x || Erased(front, x)
    case Write(_, w) => !(w.off <= x < w.End()) && Erased(front, x)
    case Unlink(_) => false
  }

  /** One by one, the entries of a life leave a file whose length the last snapshot and the writes
      after it determine. It holds what the writes alone leave, with zeros where it was cut. */
  lemma {:induction false} LifeBytes(n: Node, i: nat, life: seq<Entry>)
    requires !n.Stray? && WellFormed(n, life) && IsLife(i, life) && life != []
    ensures n.Absent? ==> life[0].Snap?
    ensures DigestNode(n, life).Present? && |DigestNode(n, life).data| == LenAfter(|Base(n)|, life)
    ensures forall x: nat :: ByteAt(DigestNode(n, life).data, x) ==
              if Erased(life, x) then 0 else ByteAt(Writes(Base(n), Chunks(life)), x)
    decreases |life|
  {
    var front, e := life[..|life| - 1], life[|life| - 1];
    if front == [] {
      assert Chunks(front) == [] && Writes(Base(n), []) == Base(n);
      assert !Erased(front, 0) && LenAfter(|Base(n)|, front) == |Base(n)|;
    } else {
      LifeBytes(n, i, front);
    }
    forall x: nat
      ensures ByteAt(DigestNode(n, life).data, x) == if Erased(life, x) then 0 else ByteAt(Writes(Base(n), Chunks(life)), x)
    {
      LastByte(n, front, e, x);
      assert front + [e] == life;
    }
  }

  lemma {:induction false} ErasedMore(front: seq<Entry>, e: Entry, x: nat)
    requires !e.Unlink?
    ensures e.Snap? ==> Erased(front + [e], x) == (e.size <= x || Erased(front, x))
    ensures e.Write? ==> Erased(front + [e], x) == (!(e.chunk.off <= x < e.chunk.End()) && Erased(front, x))
  {
    assert (front + [e])[..|front|] == front;
  }

  lemma {:induction false} WritesMore(s: seq<Byte>, ws: seq<Chunk>, w: Chunk)
    ensures Writes(s, ws + [w]) == Overlay(Writes(s, ws), w)
  {
    assert (ws + [w])[..|ws|] == ws;
  }

  /** A write of w, where the file holds d and the writes alone would have left c. */
  lemma {:induction false} WriteByte(d: seq<Byte>, c: seq<Byte>, w: Chunk, erased: bool, x: nat)
    requires ByteAt(d, x) == if erased then 0 else ByteAt(c, x)
    ensures ByteAt(Overlay(d, w), x) == if erased && !(w.off <= x < w.End()) then 0 else ByteAt(Overlay(c, w), x)
  {
  }

  lemma {:induction false} LastByte(n: Node, front: seq<Entry>, e: Entry, x: nat)
    requires !n.Stray? && WellFormed(n, front + [e]) && !e.Unlink? && (front == [] || DigestNode(n, front).Present?)
    requires ByteAt(Base(DigestNode(n, front)), x) == if Erased(front, x) then 0 else ByteAt(Writes(Base(n), Chunks(front)), x)
    ensures DigestNode(n, front + [e]).Present?
    ensures ByteAt(DigestNode(n, front + [e]).data, x) ==
            if Erased(front + [e], x) then 0 else ByteAt(Writes(Base(n), Chunks(front + [e])), x)
  {
    assert (front + [e])[..|front|] == front;
    var n1, ws := DigestNode(n, front), Chunks(front);
    ChunksSnoc(front, e);
    ErasedMore(front, e, x);
    if e.Write? {
      WritesMore(Base(n), ws, e.chunk);
      WriteByte(Base(n1), Writes(Base(n), ws), e.chunk, Erased(front, x), x);
    } else {
      assert DigestNode(n, front + [e]).data == Resize(Base(n1), e.size);
    }
  }

  // ----- one life, by its items -----

  function Grown(s: seq<Byte>, size: Option<nat>): seq<Byte>
  {
    match size
    case None => s
    case Some(m) => Resize(s, m)
  }

  /** What the items of a life leave of a file: the last snapshot and all writes, in the order in which
      the life began. */
  function ListLeaves(b: seq<Byte>, life: seq<Entry>): seq<Byte>
  {
    if life != [] && life[0].Snap? then Writes(Grown(b, LastSnap(life)), Chunks(life))
    else Grown(Writes(b, Chunks(life)), LastSnap(life))
  }

  lemma {:induction false} ReplayWritesIs(s: seq<Byte>, ws: seq<Chunk>)
    ensures ReplayWrites(Present(s), ws) == Present(Writes(s, ws))
  {
    if ws != [] { ReplayWritesIs(s, ws[..|ws| - 1]); }
  }

  lemma {:induction false} ReplayOne(n: Node, x: Item, s: seq<Item>)
    ensures ReplayNode(n, [x] + s) == ReplayNode(ReplayItem(n, x), s)
  {
    assert ([x] + s)[1..] == s;
  }

  lemma {:induction false} ReplayFile(k: Key, life: seq<Entry>, b: seq<Byte>)
    ensures ReplayNode(Present(b), FileItem(k, life)) == Present(Writes(b, Chunks(life)))
  {
    if Chunks(life) != [] {
      var f := F(k, Chunks(life));
      assert [f] + [] == [f];
      ReplayOne(Present(b), f, []);
      ReplayWritesIs(b, Chunks(life));
    }
  }

  lemma {:induction false} LifeLeaves(n: Node, i: nat, k: Key, life: seq<Entry>)
    requires !n.Stray? && IsLife(i, life) && life != [] && (n.Absent? ==> life[0].Snap?)
    ensures ReplayNode(n, LifeItems(k, life)) == Present(ListLeaves(Base(n), life))
  {
    var b := Base(n);
    LifeHolds(i, k, life);
    if life[0].Snap? {
      var m := LastSnap(life).value;
      ReplayOne(n, I(k, life[0].create, m), FileItem(k, life));
      ReplayFile(k, life, Resize(b, m));
    } else {
      ReplayNodeConcat(n, FileItem(k, life), SnapItem(k, life));
      ReplayFile(k, life, b);
      if LastSnap(life).Some? {
        var x := I(k, false, LastSnap(life).value);
        assert [x] + [] == [x];
        ReplayOne(Present(Writes(b, Chunks(life))), x, []);
      }
    }
  }

  // ----- exactly when they agree -----

  function MaxEnd(ws: seq<Chunk>): nat { if ws == [] then 0 else Max(MaxEnd(ws[..|ws| - 1]), ws[|ws| - 1].End()) }

  /** The length that the items of a life leave: a life that begins with a snapshot has its last one
      applied before all writes, another life after them. */
  function ListLen(len: nat, life: seq<Entry>): nat
  {
    match LastSnap(life)
    case None => Max(len, MaxEnd(Chunks(life)))
    case Some(m) => if life[0].Snap? then Max(m, MaxEnd(Chunks(life))) else m
  }

  predicate Touches(ws: seq<Chunk>, x: nat)
  {
    ws != [] && (ws[|ws| - 1].off <= x < ws[|ws| - 1].End() || Touches(ws[..|ws| - 1], x))
  }

  /** The items take the byte at position x from a write, or from the old file of length len in front of
      the last recorded size. */
  predicate Supplied(len: nat, life: seq<Entry>, x: nat)
  {
    Touches(Chunks(life), x) || (x < len && (LastSnap(life).Some? ==> x < LastSnap(life).value))
  }

  /** The last recorded size and the ends of the writes give the length that the entries leave, and what
      writes or the old file supply for a position that was cut off is zero. */
  predicate Covered(b: seq<Byte>, life: seq<Entry>)
  {
    && ListLen(|b|, life) == LenAfter(|b|, life)
    && forall x :: 0 <= x < LenAfter(|b|, life) && Erased(life, x) && Supplied(|b|, life, x) ==>
         ByteAt(Writes(b, Chunks(life)), x) == 0
  }

  lemma {:induction false} WritesLen(s: seq<Byte>, ws: seq<Chunk>)
    ensures |Writes(s, ws)| == Max(|s|, MaxEnd(ws))
    decreases |ws|
  {
    if ws != [] { WritesLen(s, ws[..|ws| - 1]); }
  }

  lemma {:induction false} LeavesLen(i: nat, b: seq<Byte>, life: seq<Entry>)
    requires IsLife(i, life)
    ensures |ListLeaves(b, life)| == ListLen(|b|, life)
  {
    if life != [] { FirstStays(i, life); }
    WritesLen(b, Chunks(life));
    if LastSnap(life).Some? { WritesLen(Resize(b, LastSnap(life).value), Chunks(life)); }
  }

  lemma {:induction false} WritesAgree(a: seq<Byte>, b: seq<Byte>, ws: seq<Chunk>, x: nat)
    requires ByteAt(a, x) == ByteAt(b, x) || Touches(ws, x)
    ensures ByteAt(Writes(a, ws), x) == ByteAt(Writes(b, ws), x)
    decreases |ws|
  {
    if ws != [] {
      var w := ws[|ws| - 1];
      if !(w.off <= x < w.End()) { WritesAgree(a, b, ws[..|ws| - 1], x); }
    }
  }

  lemma {:induction false} WritesUntouched(s: seq<Byte>, ws: seq<Chunk>, x: nat)
    requires !Touches(ws, x)
    ensures ByteAt(Writes(s, ws), x) == ByteAt(s, x)
    decreases |ws|
  {
    if ws != [] { WritesUntouched(s, ws[..|ws| - 1], x); }
  }

  /** A position behind the last snapshot that is not erased was written. */
  lemma {:induction false} NotErased(i: nat, life: seq<Entry>, x: nat)
    requires IsLife(i, life) && LastSnap(life).Some? && LastSnap(life).value <= x && !Erased(life, x)
    ensures Touches(Chunks(life), x)
    decreases |life|
  {
    var front, e := life[..|life| - 1], life[|life| - 1];
    assert life == front + [e];
    ChunksSnoc(front, e);
    if e.Write? {
      assert Chunks(life)[..|Chunks(front)|] == Chunks(front);
      if !(e.chunk.off <= x < e.chunk.End()) { NotErased(i, front, x); }
    }
  }

  lemma {:induction false} SnapFirstByte(b: seq<Byte>, m: nat, life: seq<Entry>, x: nat)
    requires LastSnap(life) == Some(m)
    ensures ByteAt(Writes(Resize(b, m), Chunks(life)), x) ==
            if Supplied(|b|, life, x) then ByteAt(Writes(b, Chunks(life)), x) else 0
  {
    var ws := Chunks(life);
    if Touches(ws, x) {
      WritesAgree(Resize(b, m), b, ws, x);
    } else {
      WritesUntouched(Resize(b, m), ws, x);
      WritesUntouched(b, ws, x);
    }
  }

  lemma {:induction false} WriteFirstByte(b: seq<Byte>, life: seq<Entry>, x: nat)
    requires LastSnap(life).Some? ==> x < LastSnap(life).value
    ensures !Supplied(|b|, life, x) ==> ByteAt(Writes(b, Chunks(life)), x) == 0
  {
    if !Supplied(|b|, life, x) { WritesUntouched(b, Chunks(life), x); }
  }

  /** Each byte that the items leave: what the writes alone leave, or zero where nothing is supplied. */
  lemma {:induction false} LeavesByte(i: nat, b: seq<Byte>, life: seq<Entry>, x: nat)
    requires IsLife(i, life)
    ensures x < |ListLeaves(b, life)| ==>
              ListLeaves(b, life)[x] == if Supplied(|b|, life, x) then ByteAt(Writes(b, Chunks(life)), x) else 0
  {
    if life != [] && life[0].Snap? {
      FirstStays(i, life);
      var m := LastSnap(life).value;
      SnapFirstByte(b, m, life, x);
      assert ListLeaves(b, life) == Writes(Resize(b, m), Chunks(life));
    } else {
      assert ListLeaves(b, life) == Grown(Writes(b, Chunks(life)), LastSnap(life));
      if x < |ListLeaves(b, life)| { WriteFirstByte(b, life, x); }
    }
  }

  /** Where nothing is supplied and nothing was cut off there is nothing. */
  lemma {:induction false} NeitherByte(i: nat, b: seq<Byte>, life: seq<Entry>, x: nat)
    requires IsLife(i, life) && !Erased(life, x) && !Supplied(|b|, life, x)
    ensures ByteAt(Writes(b, Chunks(life)), x) == 0
  {
    WritesUntouched(b, Chunks(life), x);
    if LastSnap(life).Some? && LastSnap(life).value <= x { NotErased(i, life, x); }
  }

  /** The items of a life do what its entries do, exactly when the life is covered. */
  lemma {:induction false} LifeExact(n: Node, i: nat, k: Key, life: seq<Entry>)
    requires !n.Stray? && WellFormed(n, life) && IsLife(i, life)
    ensures ReplayNode(n, LifeItems(k, life)) == DigestNode(n, life) <==> Covered(Base(n), life)
  {
    if life == [] {
      assert Chunks([]) == [] && LastSnap([]) == None;
    } else {
      LifeBytes(n, i, life);
      LifeLeaves(n, i, k, life);
      LeavesLen(i, Base(n), life);
      SameBytes(i, Base(n), life, DigestNode(n, life).data);
    }
  }

  lemma {:induction false} SameBytes(i: nat, b: seq<Byte>, life: seq<Entry>, d: seq<Byte>)
    requires IsLife(i, life) && |ListLeaves(b, life)| == ListLen(|b|, life) && |d| == LenAfter(|b|, life)
    requires forall x: nat :: ByteAt(d, x) == if Erased(life, x) then 0 else ByteAt(Writes(b, Chunks(life)), x)
    ensures ListLeaves(b, life) == d <==> Covered(b, life)
  {
    var r := ListLeaves(b, life);
    if r == d {
      forall x: nat | x < |d| && Erased(life, x) && Supplied(|b|, life, x) ensures ByteAt(Writes(b, Chunks(life)), x) == 0 {
        LeavesByte(i, b, life, x);
        assert r[x] == ByteAt(d, x);
      }
    }
    if Covered(b, life) {
      forall x: nat | x < |r| ensures r[x] == d[x] {
        assert d[x] == ByteAt(d, x);
        LeavesByte(i, b, life, x);
        if !Erased(life, x) && !Supplied(|b|, life, x) { NeitherByte(i, b, life, x); }
      }
      assert r == d;
    }
  }

  // ----- all lives of a number -----

  lemma {:induction false} UnlinksGone(n: Node, d: seq<Item>, k: Key)
    requires !n.Stray? && d != [] && Unlinks(d, k)
    ensures ReplayNode(n, d) == Absent
    decreases |d|
  {
    if |d| > 1 { UnlinksGone(Absent, d[1..], k); } else { assert d[1..] == []; }
  }

  lemma {:induction false} GraveIsGone(n: Node, k: Key, es: seq<Entry>)
    requires !n.Stray?
    ensures ReplayNode(n, Grave(n, k, es)) == if HadUnlink(es) && n.Present? then Absent else n
  {
    if n.Present? {
      GraveIs(n, k, es);
      var d := Grave(n, k, es);
      if HadUnlink(es) {
        if Recorded(n, es) { UnlinksGone(ReplayItem(n, d[0]), d[1..], k); } else { UnlinksGone(n, d, k); }
      }
    }
  }

  lemma {:induction false} WritesOnAbsent(ws: seq<Chunk>)
    requires ws != []
    ensures ReplayWrites(Absent, ws) == Stray
    decreases |ws|
  {
    if |ws| > 1 { WritesOnAbsent(ws[..|ws| - 1]); } else { assert ws[..|ws| - 1] == []; }
  }

  lemma {:induction false} FileOnAbsent(k: Key, life: seq<Entry>)
    ensures ReplayNode(Absent, FileItem(k, life)) == if Chunks(life) == [] then Absent else Stray
  {
    if Chunks(life) != [] {
      WritesOnAbsent(Chunks(life));
      var f := F(k, Chunks(life));
      assert [f] + [] == [f];
      ReplayOne(Absent, f, []);
    }
  }

  /** The items of a life that clashes leave no file. */
  lemma {:induction false} ClashLoses(n: Node, i: nat, v: nat, es: seq<Entry>)
    requires NodeLog(n, i, v, es) && Clash(n, es)
    ensures ReplayNode(n, CompileNode(v, es).0) == if Chunks(Life(es)) == [] then Absent else Stray
    ensures DigestNode(n, es).Present?
  {
    var k, k' := Key(i, v), Key(i, VersionAfter(v, es));
    CompileShape(n, i, v, es);
    ReplayNodeConcat(n, Grave(n, k, es), FileItem(k', Life(es)));
    GraveIsGone(n, k, es);
    assert DigestNode(n, es).Present? by { LifeFacts(n, i, es); }
    FileOnAbsent(k', Life(es));
  }

  /** The last life does not clash with an old one, and is covered. */
  predicate Kept(n: Node, es: seq<Entry>)
  {
    !Clash(n, es) && Covered(if HadUnlink(es) then [] else Base(n), Life(es))
  }

  /** The list of one inode does what its entries do, exactly when its last life is kept. */
  lemma {:induction false} NodeExact(n: Node, i: nat, v: nat, es: seq<Entry>)
    requires NodeLog(n, i, v, es)
    ensures ReplayNode(n, CompileNode(v, es).0) == DigestNode(n, es) <==> Kept(n, es)
  {
    if Clash(n, es) {
      ClashLoses(n, i, v, es);
    } else {
      var k, k' := Key(i, v), Key(i, VersionAfter(v, es));
      CompileShape(n, i, v, es);
      ReplayNodeConcat(n, Grave(n, k, es), LifeItems(k', Life(es)));
      GraveIsGone(n, k, es);
      LifeFacts(n, i, es);
      LifeStart(n, i, es);
      LifeExact(if HadUnlink(es) then Absent else n, i, k', Life(es));
    }
  }

  // ----- logs in which files only grow -----

  lemma {:induction false} WritesGrow(a: seq<Byte>, b: seq<Byte>, ws: seq<Chunk>)
    requires |a| <= |b|
    ensures |Writes(a, ws)| <= |Writes(b, ws)| && |b| <= |Writes(b, ws)|
  {
    if ws != [] { WritesGrow(a, b, ws[..|ws| - 1]); }
  }

  lemma {:induction false} GrownMore(b: seq<Byte>, last: Option<nat>, ws: seq<Chunk>, size: nat)
    requires (last.Some? ==> |b| <= last.value) && |Writes(Grown(b, last), ws)| <= size
    ensures |b| <= size && Resize(Writes(Grown(b, last), ws), size) == Writes(Resize(b, size), ws)
  {
    var g := Grown(b, last);
    WritesGrow(b, g, ws);
    ResizeWrites(g, ws, size);
    if last.Some? { ResizeTwice(b, last.value, size); }
  }

  /** One by one, the entries of a life grow the file to the last snapshot and apply all writes. */
  lemma {:induction false} LifeData(n: Node, i: nat, life: seq<Entry>)
    requires !n.Stray? && WellFormed(n, life) && IsLife(i, life) && life != [] && Grows(n, life)
    ensures n.Absent? ==> life[0].Snap?
    ensures DigestNode(n, life) == Present(Writes(Grown(Base(n), LastSnap(life)), Chunks(life)))
    ensures LastSnap(life).Some? ==> |Base(n)| <= LastSnap(life).value
    decreases |life|
  {
    var front, e := life[..|life| - 1], life[|life| - 1];
    assert life == front + [e];
    ChunksSnoc(front, e);
    if front == [] {
      assert Chunks([]) == [] && LastSnap([]) == None && DigestNode(n, []) == n;
      if e.Write? { WritesMore(Base(n), [], e.chunk); }
    } else {
      LifeData(n, i, front);
      var last, ws := LastSnap(front), Chunks(front);
      if e.Write? { WritesMore(Grown(Base(n), last), ws, e.chunk); } else { GrownMore(Base(n), last, ws, e.size); }
    }
  }

  /** The file outgrows its last snapshot exactly when a later write does. */
  lemma {:induction false} OutgrownIs(i: nat, len: nat, life: seq<Entry>)
    requires IsLife(i, life) && LastSnap(life).Some?
    ensures LenAfter(len, life) <= LastSnap(life).value <==> TailFits(life)
    decreases |life|
  {
    if life[|life| - 1].Write? { OutgrownIs(i, len, life[..|life| - 1]); }
  }

  /** The items of a life in which the file only grows do what its entries do, exactly when the writes
      after its last snapshot are covered. */
  lemma {:induction false} LifeCorrect(n: Node, i: nat, k: Key, life: seq<Entry>)
    requires !n.Stray? && WellFormed(n, life) && IsLife(i, life) && Grows(n, life)
    ensures ReplayNode(n, LifeItems(k, life)) == DigestNode(n, life) <==> TailCovered(life)
  {
    if life != [] {
      var b, ws := Base(n), Chunks(life);
      LifeData(n, i, life);
      LifeHolds(i, k, life);
      LifeLeaves(n, i, k, life);
      if life[0].Write? && LastSnap(life).Some? {
        var m := LastSnap(life).value;
        LifeBytes(n, i, life);
        OutgrownIs(i, |b|, life);
        WritesGrow(b, Resize(b, m), ws);
        if |Writes(Resize(b, m), ws)| <= m { ResizeWrites(b, ws, m); }
      }
    }
  }

  lemma {:induction false} LifeGrows(n: Node, i: nat, es: seq<Entry>)
    requires OneInode(n, i, es) && Grows(n, es)
    ensures Grows(if HadUnlink(es) then Absent else n, Life(es))
    decreases |es|
  {
    if es != [] {
      var front, e := es[..|es| - 1], es[|es| - 1];
      LifeGrows(n, i, front);
      LifeStart(n, i, front);
      if !e.Unlink? { LifeStep(es); }
    }
  }

  lemma {:induction false} GrowingCovered(n: Node, i: nat, k: Key, life: seq<Entry>)
    requires !n.Stray? && WellFormed(n, life) && IsLife(i, life) && Grows(n, life)
    ensures Covered(Base(n), life) <==> TailCovered(life)
  {
    LifeExact(n, i, k, life);
    LifeCorrect(n, i, k, life);
  }

  lemma {:induction false} FewCreations(n: Node, i: nat, es: seq<Entry>)
    requires OneInode(n, i, es) && Creates(es) < VERSIONS
    ensures !Clash(n, es)
  {
    LifeFacts(n, i, es);
  }

  /** Without shrinking snapshots and without as many creations as there are versions, only writes
      after the last snapshot can be lost. */
  lemma {:induction false} GrowingKept(n: Node, i: nat, v: nat, es: seq<Entry>)
    requires NodeLog(n, i, v, es) && Grows(n, es) && Creates(es) < VERSIONS
    ensures Kept(n, es) <==> TailCovered(Life(es))
  {
    FewCreations(n, i, es);
    assert IsLife(i, Life(es)) by { LifeFacts(n, i, es); }
    LifeStart(n, i, es);
    LifeGrows(n, i, es);
    GrowingCovered(if HadUnlink(es) then Absent else n, i, Key(i, v), Life(es));
  }

  // ----- the whole file system -----

  /** A log that fits the file system. */
  ghost predicate LogFits(fs: FileSystem, vs: Versions, log: seq<Entry>)
  {
    forall i: nat :: !NodeOf(fs, i).Stray? && WellFormed(NodeOf(fs, i), EntriesOf(log, i)) && VerOf(vs, i) < VERSIONS
  }

  lemma {:induction false} EntriesAreOf(log: seq<Entry>, i: nat)
    ensures forall j :: 0 <= j < |EntriesOf(log, i)| ==> EntriesOf(log, i)[j].inum == i
  {
    if log != [] { EntriesAreOf(log[..|log| - 1], i); }
  }

  lemma {:induction false} InodeExact(fs: FileSystem, vs: Versions, log: seq<Entry>, i: nat)
    requires LogFits(fs, vs, log)
    ensures NodeOf(Replay(fs, Compile(vs, log).0), i) == NodeOf(DigestLog(fs, log), i)
            <==> Kept(NodeOf(fs, i), EntriesOf(log, i))
  {
    ReplayAt(fs, Compile(vs, log).0, i);
    CompileAt(vs, log, i);
    DigestLogAt(fs, log, i);
    EntriesAreOf(log, i);
    NodeExact(NodeOf(fs, i), i, VerOf(vs, i), EntriesOf(log, i));
  }

  ghost predicate SameFiles(a: FileSystem, b: FileSystem)
  {
    forall i: nat :: NodeOf(a, i) == NodeOf(b, i)
  }

  ghost predicate AllKept(fs: FileSystem, log: seq<Entry>)
  {
    forall i: nat :: Kept(NodeOf(fs, i), EntriesOf(log, i))
  }

  /** Applying the coalesced list to any file system gives the file system that the log gives entry
      by entry, exactly when every inode's last life is kept. */
  lemma {:induction false} CoalescingCorrect(fs: FileSystem, vs: Versions, log: seq<Entry>)
    requires LogFits(fs, vs, log)
    ensures SameFiles(Replay(fs, Compile(vs, log).0), DigestLog(fs, log)) <==> AllKept(fs, log)
  {
    var a, b := Replay(fs, Compile(vs, log).0), DigestLog(fs, log);
    if SameFiles(a, b) {
      forall i: nat ensures Kept(NodeOf(fs, i), EntriesOf(log, i)) {
        assert NodeOf(a, i) == NodeOf(b, i);
        InodeExact(fs, vs, log, i);
      }
    }
    if AllKept(fs, log) {
      forall i: nat ensures NodeOf(a, i) == NodeOf(b, i) {
        InodeExact(fs, vs, log, i);
        assert Kept(NodeOf(fs, i), EntriesOf(log, i));
      }
    }
  }

  ghost predicate AllTailsCovered(log: seq<Entry>)
  {
    forall i: nat :: TailCovered(Life(EntriesOf(log, i)))
  }

  /** In a log in which files only grow, with fewer creations of any inode than there are versions, the
      condition does not depend on the files. */
  lemma {:induction false} GrowingCorrect(fs: FileSystem, vs: Versions, log: seq<Entry>)
    requires LogFits(fs, vs, log)
    requires forall i: nat :: Grows(NodeOf(fs, i), EntriesOf(log, i)) && Creates(EntriesOf(log, i)) < 0x1_0000
    ensures AllKept(fs, log) <==> AllTailsCovered(log)
  {
    forall i: nat ensures Kept(NodeOf(fs, i), EntriesOf(log, i)) <==> TailCovered(Life(EntriesOf(log, i))) {
      EntriesAreOf(log, i);
      GrowingKept(NodeOf(fs, i), i, VerOf(vs, i), EntriesOf(log, i));
    }
    if AllKept(fs, log) {
      forall i: nat ensures TailCovered(Life(EntriesOf(log, i))) { assert Kept(NodeOf(fs, i), EntriesOf(log, i)); }
    }
    if AllTailsCovered(log) {
      forall i: nat ensures Kept(NodeOf(fs, i), EntriesOf(log, i)) { assert TailCovered(Life(EntriesOf(log, i))); }
    }
  }

  // ----- logs that are not kept -----

  /** One more entry. */
  lemma {:induction false} Snoc(n: Node, v: nat, es: seq<Entry>, e: Entry)
    ensures DigestNode(n, es + [e]) == DigestEntry(DigestNode(n, es), e)
    ensures WellFormed(n, es + [e]) == (WellFormed(n, es) && Allowed(DigestNode(n, es), e))
    ensures Grows(n, es + [e]) == (Grows(n, es) && (e.Snap? && DigestNode(n, es).Present? ==> |DigestNode(n, es).data| <= e.size))
    ensures Creates(es + [e]) == Creates(es) + if e.Snap? && e.create then 1 else 0
    ensures var (s, v1) := CompileNode(v, es);
            CompileNode(v, es + [e]) == (Coalesce(s, NextVer(v1, e), e), NextVer(v1, e))
    ensures Life(es + [e]) == if e.Unlink? then [] else Life(es) + [e]
    ensures HadUnlink(es + [e]) == (e.Unlink? || HadUnlink(es))
    ensures HadUnlink(es) ==> FirstLife(es + [e]) == FirstLife(es)
  {
    assert (es + [e])[..|es|] == es;
  }

  /** A file that is written, recorded and written again loses the end of the second write. */
  lemma {:induction false} UncoveredLosesTail()
    ensures var es := [Write(1, Chunk(0, [7]))] + [Snap(1, false, 1)] + [Write(1, Chunk(1, [8]))];
            && NodeLog(Present([]), 1, 0, es)
            && ReplayNode(Present([]), CompileNode(0, es).0) != DigestNode(Present([]), es)
  {
    var a, b, c := Write(1, Chunk(0, [7])), Snap(1, false, 1), Write(1, Chunk(1, [8]));
    var n := Present([]);
    Snoc(n, 0, [], a);
    assert [] + [a] == [a];
    Snoc(n, 0, [a], b);
    Snoc(n, 0, [a] + [b], c);
    ChunksSnoc([a], b);
    ChunksSnoc([a] + [b], c);
    assert ([a] + [b] + [c])[..2] == [a] + [b];
    NodeExact(n, 1, 0, [a] + [b] + [c]);
    GrowingKept(n, 1, 0, [a] + [b] + [c]);
  }

  lemma {:induction false} ShrinkingList()
    ensures var es, k := [Snap(1, false, 0)] + [Write(1, Chunk(1, [2]))] + [Snap(1, false, 2)], Key(1, 0);
            CompileNode(0, es).0 == [I(k, false, 2)] + [F(k, [Chunk(1, [2])])]
  {
    var a, b, c := Snap(1, false, 0), Write(1, Chunk(1, [2])), Snap(1, false, 2);
    var n, k := Absent, Key(1, 0);
    Snoc(n, 0, [], a);
    assert [] + [a] == [a];
    Snoc(n, 0, [a], b);
    Snoc(n, 0, [a] + [b], c);
    var x := I(k, false, 0);
    assert CompileNode(0, [a]).0 == [x] && [x][1..] == [] && !HasF([x], k);
    Cons(x, [F(k, [b.chunk])], k, 2, b.chunk);
  }

  lemma {:induction false} ShrinkingLog()
    ensures var es, n := [Snap(1, false, 0)] + [Write(1, Chunk(1, [2]))] + [Snap(1, false, 2)], Present([1, 1]);
            NodeLog(n, 1, 0, es) && DigestNode(n, es) == Present([0, 2])
  {
    var a, b, c := Snap(1, false, 0), Write(1, Chunk(1, [2])), Snap(1, false, 2);
    var n := Present([1, 1]);
    Snoc(n, 0, [], a);
    assert [] + [a] == [a];
    Snoc(n, 0, [a], b);
    Snoc(n, 0, [a] + [b], c);
    assert Overlay([], b.chunk) == [0, 2] && Resize([0, 2], 2) == [0, 2];
  }

  /** A snapshot that shrinks the file before it grows again: the list keeps bytes that the log
      cut off. */
  lemma {:induction false} ShrinkingKeepsBytes()
    ensures var es, n := [Snap(1, false, 0)] + [Write(1, Chunk(1, [2]))] + [Snap(1, false, 2)], Present([1, 1]);
            && NodeLog(n, 1, 0, es) && DigestNode(n, es) == Present([0, 2])
            && ReplayNode(n, CompileNode(0, es).0) == Present([1, 2])
  {
    var n, k, w := Present([1, 1]), Key(1, 0), Chunk(1, [2]);
    var x, f := I(k, false, 2), F(k, [w]);
    ShrinkingList();
    ShrinkingLog();
    assert [f] + [] == [f] && [w][..0] == [];
    ReplayOne(n, x, [f]);
    ReplayOne(Present([1, 1]), f, []);
    assert Resize([1, 1], 2) == [1, 1] && Overlay([1, 1], w) == [1, 2];
    ReplayWritesIs([1, 1], [w]);
  }

  function Cycles(i: nat, m: nat): seq<Entry>
  {
    if m == 0 then [] else Cycles(i, m - 1) + [Snap(i, true, 0)] + [Unlink(i)]
  }

  /** An existing file is recorded and unlinked, and its number is used m times for files that are
      unlinked again. */
  function Reused(i: nat, m: nat): seq<Entry>
  {
    [Snap(i, false, 0)] + [Unlink(i)] + Cycles(i, m)
  }

  /** The entries fit an empty file and end with the inode free after m creations. */
  ghost predicate UsedUp(i: nat, es: seq<Entry>, m: nat)
  {
    && WellFormed(Present([]), es) && DigestNode(Present([]), es) == Absent && Creates(es) == m
    && HadUnlink(es) && LastSnap(FirstLife(es)) == Some(0) && Life(es) == []
  }

  lemma {:induction false} FirstUse(i: nat)
    ensures UsedUp(i, [Snap(i, false, 0)] + [Unlink(i)], 0)
  {
    var n, a, b := Present([]), Snap(i, false, 0), Unlink(i);
    Snoc(n, 0, [], a);
    assert [] + [a] == [a];
    Snoc(n, 0, [a], b);
    assert ([a] + [b])[..1] == [a];
    assert FirstLife([a] + [b]) == FirstLife([a]) == [a];
  }

  lemma {:induction false} OneMoreUse(i: nat, es: seq<Entry>, m: nat)
    requires UsedUp(i, es, m)
    ensures UsedUp(i, (es + [Snap(i, true, 0)]) + [Unlink(i)], m + 1)
  {
    Snoc(Present([]), 0, es, Snap(i, true, 0));
    Snoc(Present([]), 0, es + [Snap(i, true, 0)], Unlink(i));
  }

  lemma {:induction false} ReusedMore(i: nat, m: nat)
    requires m > 0
    ensures Reused(i, m) == (Reused(i, m - 1) + [Snap(i, true, 0)]) + [Unlink(i)]
  {
  }

  lemma {:induction false} ReusedFits(i: nat, m: nat)
    ensures UsedUp(i, Reused(i, m), m)
    ensures forall j :: 0 <= j < |Reused(i, m)| ==> Reused(i, m)[j].inum == i
  {
    if m == 0 {
      FirstUse(i);
      assert Reused(i, m) == [Snap(i, false, 0)] + [Unlink(i)];
    } else {
      var es := Reused(i, m - 1);
      ReusedFits(i, m - 1);
      OneMoreUse(i, es, m - 1);
      ReusedMore(i, m);
    }
  }

  /** The versions of one inode wrap around: after 2^16 creations a new file takes the place of the
      first one in the list, in front of its unlink, and is lost. */
  lemma {:induction false} WrapLosesFile(i: nat)
    ensures var n, es := Present([]), Reused(i, VERSIONS - 1) + [Snap(i, true, 7)];
            && NodeLog(n, i, 0, es) && Creates(es) == 0x1_0000
            && DigestNode(n, es).Present? && ReplayNode(n, CompileNode(0, es).0) == Absent
  {
    var n, front, e := Present([]), Reused(i, VERSIONS - 1), Snap(i, true, 7);
    var es := front + [e];
    Snoc(n, 0, front, e);
    ReusedFits(i, VERSIONS - 1);
    assert Life(es) == [] + [e] && [] + [e] == [e] && [e][..0] == [];
    ClashLoses(n, i, 0, es);
  }
}
