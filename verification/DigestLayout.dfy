/** Which logs are coalesced rightly whatever their data is: a condition on offsets and sizes
    (kernfs/digest.c). */
module DigestLayout {
  import opened Numbers
  import opened Options
  import opened DigestModel
  import opened DigestProofs
  import opened DigestCorrect

  // ----- a condition on offsets and sizes -----

  /** No position that a snapshot cut off is supplied by a write or by the old file, and the length is
      right. */
  predicate Harmless(len: nat, life: seq<Entry>)
  {
    && ListLen(len, life) == LenAfter(len, life)
    && forall x :: 0 <= x < LenAfter(len, life) && Erased(life, x) ==> !Supplied(len, life, x)
  }

  /** The last life of an inode does not clash with an old one, and is harmless. */
  predicate SafeLayout(n: Node, es: seq<Entry>)
  {
    !Clash(n, es) && Harmless(if HadUnlink(es) then 0 else |Base(n)|, Life(es))
  }

  lemma {:induction false} SafeIsKept(n: Node, es: seq<Entry>)
    requires SafeLayout(n, es)
    ensures Kept(n, es)
  {
  }

  // ----- data without zeros -----

  predicate NoZero(s: seq<Byte>) { forall k :: 0 <= k < |s| ==> s[k] != 0 }

  predicate NoZeros(es: seq<Entry>) { forall j :: 0 <= j < |es| && es[j].Write? ==> NoZero(es[j].chunk.data) }

  predicate NoZeroChunks(ws: seq<Chunk>) { forall j :: 0 <= j < |ws| ==> NoZero(ws[j].data) }

  lemma {:induction false} ChunksNoZero(es: seq<Entry>)
    requires NoZeros(es)
    ensures NoZeroChunks(Chunks(es))
    decreases |es|
  {
    if es != [] {
      assert forall j :: 0 <= j < |es| - 1 ==> es[..|es| - 1][j] == es[j];
      ChunksNoZero(es[..|es| - 1]);
    }
  }

  lemma {:induction false} LifeNoZero(es: seq<Entry>)
    requires NoZeros(es)
    ensures NoZeros(Life(es))
    decreases |es|
  {
    if es != [] {
      assert forall j :: 0 <= j < |es| - 1 ==> es[..|es| - 1][j] == es[j];
      LifeNoZero(es[..|es| - 1]);
    }
  }

  lemma {:induction false} EntriesNoZero(log: seq<Entry>, i: nat)
    requires NoZeros(log)
    ensures NoZeros(EntriesOf(log, i))
    decreases |log|
  {
    if log != [] {
      assert forall j :: 0 <= j < |log| - 1 ==> log[..|log| - 1][j] == log[j];
      EntriesNoZero(log[..|log| - 1], i);
    }
  }

  lemma {:induction false} SuppliedByte(b: seq<Byte>, ws: seq<Chunk>, x: nat)
    requires NoZero(b) && NoZeroChunks(ws) && (Touches(ws, x) || x < |b|)
    ensures ByteAt(Writes(b, ws), x) != 0
    decreases |ws|
  {
    if ws != [] {
      var front, w := ws[..|ws| - 1], ws[|ws| - 1];
      assert forall j :: 0 <= j < |front| ==> front[j] == ws[j];
      if w.off <= x < w.End() {
        assert w.data[x - w.off] != 0;
      } else {
        SuppliedByte(b, front, x);
      }
    }
  }

  /** For data without zeros the condition is exact. */
  lemma {:induction false} KeptIsSafe(n: Node, es: seq<Entry>)
    requires Kept(n, es) && NoZeros(es) && NoZero(Base(n))
    ensures SafeLayout(n, es)
  {
    var b, life := if HadUnlink(es) then [] else Base(n), Life(es);
    LifeNoZero(es);
    ChunksNoZero(life);
    forall x: nat | x < LenAfter(|b|, life) && Erased(life, x) ensures !Supplied(|b|, life, x) {
      if Supplied(|b|, life, x) { SuppliedByte(b, Chunks(life), x); }
    }
  }

  // ----- logs that differ in their data only -----

  predicate SameEntry(e: Entry, e': Entry)
  {
    if e.Write? then
      e'.Write? && e'.inum == e.inum && e'.chunk.off == e.chunk.off && |e'.chunk.data| == |e.chunk.data|
    else e' == e
  }

  predicate SameLog(a: seq<Entry>, b: seq<Entry>)
  {
    |a| == |b| && forall j :: 0 <= j < |a| ==> SameEntry(a[j], b[j])
  }

  predicate SameNode(n: Node, n': Node)
  {
    if n.Present? then n'.Present? && |n'.data| == |n.data| else n' == n
  }

  lemma {:induction false} SameFronts(a: seq<Entry>, b: seq<Entry>)
    requires SameLog(a, b) && a != []
    ensures SameLog(a[..|a| - 1], b[..|b| - 1]) && SameEntry(a[|a| - 1], b[|b| - 1])
    ensures a == a[..|a| - 1] + [a[|a| - 1]] && b == b[..|b| - 1] + [b[|b| - 1]]
  {
    assert forall j :: 0 <= j < |a| - 1 ==> a[..|a| - 1][j] == a[j] && b[..|b| - 1][j] == b[j];
  }

  lemma {:induction false} SameMore(a: seq<Entry>, b: seq<Entry>, e: Entry, e': Entry)
    requires SameLog(a, b) && SameEntry(e, e')
    ensures SameLog(a + [e], b + [e'])
  {
  }

  lemma {:induction false} ChunkMore(ws: seq<Chunk>, w: Chunk, x: nat)
    ensures MaxEnd(ws + [w]) == Max(MaxEnd(ws), w.End())
    ensures Touches(ws + [w], x) <==> w.off <= x < w.End() || Touches(ws, x)
  {
    assert (ws + [w])[..|ws|] == ws;
  }

  /** What a condition on a life looks at: its snapshots and its lengths, and the places of its writes. */
  lemma {:induction false} SizesLayout(len: nat, a: seq<Entry>, b: seq<Entry>, x: nat)
    requires SameLog(a, b)
    ensures LastSnap(a) == LastSnap(b) && LenAfter(len, a) == LenAfter(len, b) && (Erased(a, x) <==> Erased(b, x))
    decreases |a|
  {
    if a != [] {
      SameFronts(a, b);
      SizesLayout(len, a[..|a| - 1], b[..|b| - 1], x);
    }
  }

  lemma {:induction false} ChunksLayout(a: seq<Entry>, b: seq<Entry>, x: nat)
    requires SameLog(a, b)
    ensures MaxEnd(Chunks(a)) == MaxEnd(Chunks(b)) && (Touches(Chunks(a), x) <==> Touches(Chunks(b), x))
    decreases |a|
  {
    if a != [] {
      SameFronts(a, b);
      var fa, fb, e, e' := a[..|a| - 1], b[..|b| - 1], a[|a| - 1], b[|b| - 1];
      ChunksLayout(fa, fb, x);
      ChunksSnoc(fa, e);
      ChunksSnoc(fb, e');
      if e.Write? {
        ChunkMore(Chunks(fa), e.chunk, x);
        ChunkMore(Chunks(fb), e'.chunk, x);
      }
    }
  }

  lemma {:induction false} HarmlessLayout(len: nat, a: seq<Entry>, b: seq<Entry>)
    requires SameLog(a, b) && Harmless(len, a)
    ensures Harmless(len, b)
  {
    SizesLayout(len, a, b, 0);
    ChunksLayout(a, b, 0);
    assert a != [] ==> SameEntry(a[0], b[0]);
    forall x: nat | x < LenAfter(len, b) && Erased(b, x) ensures !Supplied(len, b, x) {
      SizesLayout(len, a, b, x);
      ChunksLayout(a, b, x);
    }
  }

  lemma {:induction false} LivesLayout(a: seq<Entry>, b: seq<Entry>)
    requires SameLog(a, b)
    ensures HadUnlink(a) == HadUnlink(b) && Creates(a) == Creates(b)
    ensures SameLog(Life(a), Life(b)) && SameLog(FirstLife(a), FirstLife(b))
    decreases |a|
  {
    if a != [] {
      SameFronts(a, b);
      LivesLayout(a[..|a| - 1], b[..|b| - 1]);
      SameMore(Life(a[..|a| - 1]), Life(b[..|b| - 1]), a[|a| - 1], b[|b| - 1]);
    }
  }

  lemma {:induction false} StateLayout(n: Node, n': Node, a: seq<Entry>, b: seq<Entry>)
    requires SameNode(n, n') && SameLog(a, b)
    ensures SameNode(DigestNode(n, a), DigestNode(n', b)) && (WellFormed(n, a) ==> WellFormed(n', b))
    decreases |a|
  {
    if a != [] {
      SameFronts(a, b);
      StateLayout(n, n', a[..|a| - 1], b[..|b| - 1]);
    }
  }

  lemma {:induction false} SafeSame(n: Node, n': Node, a: seq<Entry>, b: seq<Entry>)
    requires SameNode(n, n') && SameLog(a, b) && SafeLayout(n, a)
    ensures SafeLayout(n', b)
  {
    LivesLayout(a, b);
    SizesLayout(0, FirstLife(a), FirstLife(b), 0);
    HarmlessLayout(if HadUnlink(a) then 0 else |Base(n)|, Life(a), Life(b));
  }

  lemma {:induction false} SameBack(n: Node, n': Node, a: seq<Entry>, b: seq<Entry>)
    requires SameNode(n, n') && SameLog(a, b)
    ensures SameNode(n', n) && SameLog(b, a)
  {
    forall j | 0 <= j < |b| ensures SameEntry(b[j], a[j]) { assert SameEntry(a[j], b[j]); }
  }

  // ----- data that shows a difference -----

  function Ones(n: nat): seq<Byte> { seq(n, _ => 1) }

  function FillEntry(e: Entry): Entry
  {
    if e.Write? then e.(chunk := Chunk(e.chunk.off, Ones(|e.chunk.data|))) else e
  }

  function FillLog(es: seq<Entry>): seq<Entry> { seq(|es|, j requires 0 <= j < |es| => FillEntry(es[j])) }

  function FillNode(n: Node): Node { if n.Present? then Present(Ones(|n.data|)) else n }

  function FillFiles(fs: FileSystem): FileSystem { map i | i in fs :: FillNode(fs[i]) }

  lemma {:induction false} Filled(es: seq<Entry>)
    ensures SameLog(es, FillLog(es)) && NoZeros(FillLog(es))
  {
  }

  // ----- exactly the logs that are safe -----

  /** The list of an inode does what its entries do for every file of the same length and all data of the
      same layout, exactly when the layout is safe. */
  lemma {:induction false} NodeLayout(n: Node, i: nat, v: nat, es: seq<Entry>)
    requires NodeLog(n, i, v, es)
    ensures (forall n': Node, es': seq<Entry> | SameNode(n, n') && SameLog(es, es') ::
               ReplayNode(n', CompileNode(v, es').0) == DigestNode(n', es'))
            <==> SafeLayout(n, es)
  {
    if SafeLayout(n, es) {
      forall n': Node, es': seq<Entry> | SameNode(n, n') && SameLog(es, es')
        ensures ReplayNode(n', CompileNode(v, es').0) == DigestNode(n', es')
      {
        NodeSame(n, n', i, v, es, es');
        SafeSame(n, n', es, es');
        SafeIsKept(n', es');
        NodeExact(n', i, v, es');
      }
    } else {
      var n', es' := FillNode(n), FillLog(es);
      Filled(es);
      assert SameNode(n, n');
      NodeSame(n, n', i, v, es, es');
      NodeExact(n', i, v, es');
      if Kept(n', es') {
        KeptIsSafe(n', es');
        SameBack(n, n', es, es');
        SafeSame(n', n, es', es);
      }
    }
  }

  lemma {:induction false} NodeSame(n: Node, n': Node, i: nat, v: nat, es: seq<Entry>, es': seq<Entry>)
    requires NodeLog(n, i, v, es) && SameNode(n, n') && SameLog(es, es')
    ensures NodeLog(n', i, v, es')
  {
    StateLayout(n, n', es, es');
    forall j | 0 <= j < |es'| ensures es'[j].inum == i { assert SameEntry(es[j], es'[j]); }
  }

  ghost predicate SameSizes(fs: FileSystem, fs': FileSystem)
  {
    forall i: nat :: SameNode(NodeOf(fs, i), NodeOf(fs', i))
  }

  ghost predicate AllSafe(fs: FileSystem, log: seq<Entry>)
  {
    forall i: nat :: SafeLayout(NodeOf(fs, i), EntriesOf(log, i))
  }

  lemma {:induction false} EntriesLayout(log: seq<Entry>, log': seq<Entry>, i: nat)
    requires SameLog(log, log')
    ensures SameLog(EntriesOf(log, i), EntriesOf(log', i))
    decreases |log|
  {
    if log != [] {
      SameFronts(log, log');
      var a, b := EntriesOf(log[..|log| - 1], i), EntriesOf(log'[..|log'| - 1], i);
      EntriesLayout(log[..|log| - 1], log'[..|log'| - 1], i);
      SameMore(a, b, log[|log| - 1], log'[|log'| - 1]);
    }
  }

  lemma {:induction false} FitsLayout(fs: FileSystem, fs': FileSystem, vs: Versions, log: seq<Entry>, log': seq<Entry>)
    requires LogFits(fs, vs, log) && SameSizes(fs, fs') && SameLog(log, log')
    ensures LogFits(fs', vs, log')
  {
    forall i: nat
      ensures !NodeOf(fs', i).Stray? && WellFormed(NodeOf(fs', i), EntriesOf(log', i)) && VerOf(vs, i) < VERSIONS
    {
      assert SameNode(NodeOf(fs, i), NodeOf(fs', i)) && WellFormed(NodeOf(fs, i), EntriesOf(log, i));
      EntriesLayout(log, log', i);
      StateLayout(NodeOf(fs, i), NodeOf(fs', i), EntriesOf(log, i), EntriesOf(log', i));
    }
  }

  lemma {:induction false} SafeKeepsAll(fs: FileSystem, fs': FileSystem, log: seq<Entry>, log': seq<Entry>)
    requires AllSafe(fs, log) && SameSizes(fs, fs') && SameLog(log, log')
    ensures AllKept(fs', log')
  {
    forall i: nat ensures Kept(NodeOf(fs', i), EntriesOf(log', i)) {
      assert SameNode(NodeOf(fs, i), NodeOf(fs', i)) && SafeLayout(NodeOf(fs, i), EntriesOf(log, i));
      EntriesLayout(log, log', i);
      SafeSame(NodeOf(fs, i), NodeOf(fs', i), EntriesOf(log, i), EntriesOf(log', i));
      SafeIsKept(NodeOf(fs', i), EntriesOf(log', i));
    }
  }

  lemma {:induction false} SafeIsAllKept(fs: FileSystem, log: seq<Entry>)
    requires AllSafe(fs, log)
    ensures AllKept(fs, log)
  {
    forall i: nat ensures Kept(NodeOf(fs, i), EntriesOf(log, i)) {
      assert SafeLayout(NodeOf(fs, i), EntriesOf(log, i));
      SafeIsKept(NodeOf(fs, i), EntriesOf(log, i));
    }
  }

  lemma {:induction false} FilledShows(fs: FileSystem, log: seq<Entry>)
    requires AllKept(FillFiles(fs), FillLog(log))
    ensures AllSafe(fs, log)
  {
    var fs', log' := FillFiles(fs), FillLog(log);
    Filled(log);
    forall i: nat ensures SafeLayout(NodeOf(fs, i), EntriesOf(log, i)) {
      var n, n', es, es' := NodeOf(fs, i), NodeOf(fs', i), EntriesOf(log, i), EntriesOf(log', i);
      assert n' == FillNode(n) && Kept(n', es');
      EntriesNoZero(log', i);
      KeptIsSafe(n', es');
      EntriesLayout(log, log', i);
      SameBack(n, n', es, es');
      SafeSame(n', n, es', es);
    }
  }

  /** The log and its list leave the same files. */
  ghost predicate Agree(fs: FileSystem, vs: Versions, log: seq<Entry>)
  {
    SameFiles(Replay(fs, Compile(vs, log).0), DigestLog(fs, log))
  }

  /** Coalescing is right for all files of the same lengths and all data of the same layout, exactly when
      every inode's layout is safe: a condition on lengths, offsets and recorded sizes alone. */
  lemma {:induction false} LayoutExact(fs: FileSystem, vs: Versions, log: seq<Entry>)
    requires LogFits(fs, vs, log)
    ensures (forall fs': FileSystem, log': seq<Entry> | SameSizes(fs, fs') && SameLog(log, log') :: Agree(fs', vs, log'))
            <==> AllSafe(fs, log)
  {
    if AllSafe(fs, log) {
      forall fs': FileSystem, log': seq<Entry> | SameSizes(fs, fs') && SameLog(log, log') ensures Agree(fs', vs, log') {
        FitsLayout(fs, fs', vs, log, log');
        SafeKeepsAll(fs, fs', log, log');
        CoalescingCorrect(fs', vs, log');
      }
    } else {
      var fs', log' := FillFiles(fs), FillLog(log);
      Filled(log);
      assert SameSizes(fs, fs');
      FitsLayout(fs, fs', vs, log, log');
      CoalescingCorrect(fs', vs, log');
      if Agree(fs', vs, log') { FilledShows(fs, log); }
    }
  }
}
