/** What the coalesced replay list holds for each inode, by the lives of its number
    (kernfs/digest.c). */
module DigestProofs {
  import opened Options
  import opened DigestModel

  // ----- which logs are considered -----

  /** Entry e is possible for an inode in state n: only free numbers are created, and everything else
      concerns an existing file. */
  predicate Allowed(n: Node, e: Entry)
  {
    match e
    case Snap(_, create, _) => if create then n.Absent? else n.Present?
    case Write(_, _) => n.Present?
    case Unlink(_) => n.Present?
  }

  predicate WellFormed(n: Node, es: seq<Entry>)
  {
    es == [] || (WellFormed(n, es[..|es| - 1]) && Allowed(DigestNode(n, es[..|es| - 1]), es[|es| - 1]))
  }

  /** No snapshot shrinks the file. */
  predicate Grows(n: Node, es: seq<Entry>)
  {
    es == [] ||
    (var n1, e := DigestNode(n, es[..|es| - 1]), es[|es| - 1];
     Grows(n, es[..|es| - 1]) && (e.Snap? && n1.Present? ==> |n1.data| <= e.size))
  }

  function Creates(es: seq<Entry>): nat
  {
    if es == [] then 0
    else Creates(es[..|es| - 1]) + if es[|es| - 1].Snap? && es[|es| - 1].create then 1 else 0
  }

  // ----- the lives of an inode number -----

  predicate HadUnlink(es: seq<Entry>)
  {
    es != [] && (es[|es| - 1].Unlink? || HadUnlink(es[..|es| - 1]))
  }

  /** The entries after the last unlink. */
  function Life(es: seq<Entry>): seq<Entry>
  {
    if es == [] || es[|es| - 1].Unlink? then [] else Life(es[..|es| - 1]) + [es[|es| - 1]]
  }

  /** The entries before the first unlink. */
  function FirstLife(es: seq<Entry>): seq<Entry>
  {
    if es == [] then []
    else if HadUnlink(es[..|es| - 1]) || es[|es| - 1].Unlink? then FirstLife(es[..|es| - 1])
    else es
  }

  function LastSnap(es: seq<Entry>): Option<nat>
  {
    if es == [] then None
    else if es[|es| - 1].Snap? then Some(es[|es| - 1].size)
    else LastSnap(es[..|es| - 1])
  }

  function Chunks(es: seq<Entry>): seq<Chunk>
  {
    if es == [] then []
    else Chunks(es[..|es| - 1]) + if es[|es| - 1].Write? then [es[|es| - 1].chunk] else []
  }

  /** The writes after the last snapshot end within the size that it records. */
  predicate TailFits(es: seq<Entry>)
  {
    if es == [] || es[|es| - 1].Snap? then true
    else
      && TailFits(es[..|es| - 1])
      && (es[|es| - 1].Write? && LastSnap(es).Some? ==> es[|es| - 1].chunk.End() <= LastSnap(es).value)
  }

  /** When a file was written before its first snapshot, its list item for writes comes first, and
      the snapshot must cover the writes that follow it. */
  predicate TailCovered(life: seq<Entry>)
  {
    life != [] && life[0].Write? && LastSnap(life).Some? ==> TailFits(life)
  }

  /** Entries of one inode: a creation can only come first, an unlink not at all. */
  predicate IsLife(i: nat, life: seq<Entry>)
  {
    life == [] ||
    (var e := life[|life| - 1];
     IsLife(i, life[..|life| - 1]) && e.inum == i && !e.Unlink? && (|life| > 1 ==> !(e.Snap? && e.create)))
  }

  // ----- facts about lives -----

  ghost predicate OneInode(n: Node, i: nat, es: seq<Entry>)
  {
    !n.Stray? && WellFormed(n, es) && forall j :: 0 <= j < |es| ==> es[j].inum == i
  }

  /** Without an unlink there is only one life. */
  lemma {:induction false} OnlyLife(es: seq<Entry>)
    requires !HadUnlink(es)
    ensures Life(es) == es == FirstLife(es)
  {
    if es != [] {
      OnlyLife(es[..|es| - 1]);
      assert es == es[..|es| - 1] + [es[|es| - 1]];
    }
  }

  lemma {:induction false} LifeStep(es: seq<Entry>)
    requires es != [] && !es[|es| - 1].Unlink?
    ensures Life(es) == Life(es[..|es| - 1]) + [es[|es| - 1]]
    ensures Life(es) != [] && Life(es)[..|Life(es)| - 1] == Life(es[..|es| - 1])
            && Life(es)[|Life(es)| - 1] == es[|es| - 1]
  {
  }

  /** The state that a log leads to, by the life that has not ended. */
  lemma {:induction false} LifeState(n: Node, i: nat, es: seq<Entry>)
    requires OneInode(n, i, es)
    ensures Life(es) == [] ==> DigestNode(n, es) == (if HadUnlink(es) then Absent else n)
    ensures Life(es) != [] ==> DigestNode(n, es).Present?
  {
    if es != [] {
      LifeState(n, i, es[..|es| - 1]);
      if !es[|es| - 1].Unlink? { LifeStep(es); }
    }
  }

  /** A life has no creation but at its beginning. */
  lemma {:induction false} LifeIs(n: Node, i: nat, es: seq<Entry>)
    requires OneInode(n, i, es)
    ensures IsLife(i, Life(es))
  {
    if es != [] {
      LifeIs(n, i, es[..|es| - 1]);
      LifeState(n, i, es[..|es| - 1]);
      if !es[|es| - 1].Unlink? { LifeStep(es); }
    }
  }

  /** A life that follows another one, or an absent file, begins with a creation. */
  lemma {:induction false} LifeBegins(n: Node, i: nat, es: seq<Entry>)
    requires OneInode(n, i, es) && Life(es) != [] && (HadUnlink(es) || n.Absent?)
    ensures Life(es)[0].Snap? && Life(es)[0].create && Creates(es) > 0
  {
    var front := es[..|es| - 1];
    LifeState(n, i, front);
    LifeStep(es);
    if Life(front) != [] {
      LifeBegins(n, i, front);
      assert Life(es)[0] == Life(front)[0];
    }
  }

  /** A file that exists is not created again before it is unlinked. */
  lemma {:induction false} NoCreation(n: Node, i: nat, es: seq<Entry>)
    requires OneInode(n, i, es) && !HadUnlink(es) && n.Present?
    ensures Creates(es) == 0 && (es != [] ==> !(es[0].Snap? && es[0].create))
  {
    if es != [] {
      var front := es[..|es| - 1];
      NoCreation(n, i, front);
      LifeState(n, i, front);
      if front != [] { assert es[0] == front[0]; }
    }
  }

  lemma {:induction false} LifeFacts(n: Node, i: nat, es: seq<Entry>)
    requires OneInode(n, i, es)
    ensures IsLife(i, Life(es))
    ensures Life(es) == [] ==> DigestNode(n, es) == (if HadUnlink(es) then Absent else n)
    ensures Life(es) == [] && !HadUnlink(es) ==> es == []
    ensures Life(es) != [] ==> DigestNode(n, es).Present?
    ensures Life(es) != [] && (HadUnlink(es) || n.Absent?) ==> Life(es)[0].Snap? && Life(es)[0].create && Creates(es) > 0
    ensures !HadUnlink(es) ==> Life(es) == es == FirstLife(es)
    ensures !HadUnlink(es) && n.Present? ==> Creates(es) == 0 && (es != [] ==> !(es[0].Snap? && es[0].create))
  {
    LifeState(n, i, es);
    LifeIs(n, i, es);
    if Life(es) != [] && (HadUnlink(es) || n.Absent?) { LifeBegins(n, i, es); }
    if !HadUnlink(es) && n.Present? { NoCreation(n, i, es); }
    if !HadUnlink(es) { OnlyLife(es); }
  }

  /** The state that the last life starts from, and that the rest of the log begins with it. */
  lemma {:induction false} LifeStart(n: Node, i: nat, es: seq<Entry>)
    requires OneInode(n, i, es)
    ensures var start := if HadUnlink(es) then Absent else n;
            WellFormed(start, Life(es)) && DigestNode(start, Life(es)) == DigestNode(n, es)
  {
    if es != [] {
      var front, e := es[..|es| - 1], es[|es| - 1];
      LifeStart(n, i, front);
      if e.Unlink? {
        LifeFacts(n, i, front);
      } else {
        LifeStep(es);
      }
    }
  }

  // ----- what the list holds -----

  function SnapItem(k: Key, es: seq<Entry>): seq<Item>
  {
    if LastSnap(es).Some? then [I(k, false, LastSnap(es).value)] else []
  }

  function FileItem(k: Key, es: seq<Entry>): seq<Item>
  {
    if Chunks(es) == [] then [] else [F(k, Chunks(es))]
  }

  /** The items for one life, in the order in which their first entries came. */
  function LifeItems(k: Key, life: seq<Entry>): seq<Item>
  {
    if life == [] then []
    else if life[0].Snap? then
      [I(k, life[0].create, if LastSnap(life).Some? then LastSnap(life).value else 0)] + FileItem(k, life)
    else FileItem(k, life) + SnapItem(k, life)
  }

  lemma {:induction false} LifeHolds(i: nat, k: Key, life: seq<Entry>)
    requires IsLife(i, life) && life != []
    ensures !life[0].Unlink?
    ensures life[0].Snap? ==> LastSnap(life).Some?
    ensures life[0].Write? ==> Chunks(life) != []
    ensures HasI(LifeItems(k, life), k) == LastSnap(life).Some?
    ensures HasF(LifeItems(k, life), k) == (Chunks(life) != [])
    ensures Created(LifeItems(k, life), k) == (life[0].Snap? && life[0].create)
  {
    FirstStays(i, life);
  }

  lemma {:induction false} FirstStays(i: nat, life: seq<Entry>)
    requires IsLife(i, life) && life != []
    ensures life[0].Snap? ==> LastSnap(life).Some?
    ensures life[0].Write? ==> Chunks(life) != []
    ensures !life[0].Unlink?
  {
    if |life| > 1 {
      FirstStays(i, life[..|life| - 1]);
    }
  }

  /** The list functions on a list that starts with x. */
  lemma {:induction false} Cons(x: Item, s: seq<Item>, k: Key, size: nat, w: Chunk)
    ensures SetI([x] + s, k, size) == if x.I? && x.key == k then [I(k, x.create, size)] + s else [x] + SetI(s, k, size)
    ensures AddTo([x] + s, k, w) == if x.F? && x.key == k then [F(k, x.chunks + [w])] + s else [x] + AddTo(s, k, w)
    ensures DropI([x] + s, k) == if x.I? && x.key == k then s else [x] + DropI(s, k)
    ensures DropF([x] + s, k) == if x.F? && x.key == k then s else [x] + DropF(s, k)
  {
    assert ([x] + s)[1..] == s;
  }

  lemma {:induction false} ChunksSnoc(life: seq<Entry>, e: Entry)
    ensures Chunks(life + [e]) == if e.Write? then Chunks(life) + [e.chunk] else Chunks(life)
    ensures LastSnap(life + [e]) == if e.Snap? then Some(e.size) else LastSnap(life)
  {
    assert (life + [e])[..|life|] == life;
  }

  lemma {:induction false} LifeSnaps(i: nat, v: nat, life: seq<Entry>, e: Entry)
    requires IsLife(i, life) && life != [] && e.inum == i && e.Snap? && !e.create
    ensures Coalesce(LifeItems(Key(i, v), life), v, e) == LifeItems(Key(i, v), life + [e])
  {
    var k, w := Key(i, v), Chunk(0, []);
    LifeHolds(i, k, life);
    ChunksSnoc(life, e);
    assert (life + [e])[0] == life[0];
    if life[0].Snap? {
      Cons(I(k, life[0].create, LastSnap(life).value), FileItem(k, life), k, e.size, w);
    } else if LastSnap(life).Some? {
      var n := I(k, false, LastSnap(life).value);
      Cons(F(k, Chunks(life)), [n], k, e.size, w);
      assert [n] + [] == [n];
      Cons(n, [], k, e.size, w);
    } else {
      assert LifeItems(k, life) == FileItem(k, life);
    }
  }

  lemma {:induction false} LifeWrites(i: nat, v: nat, life: seq<Entry>, e: Entry)
    requires IsLife(i, life) && life != [] && e.inum == i && e.Write?
    ensures Coalesce(LifeItems(Key(i, v), life), v, e) == LifeItems(Key(i, v), life + [e])
  {
    var k, w := Key(i, v), e.chunk;
    LifeHolds(i, k, life);
    ChunksSnoc(life, e);
    assert (life + [e])[0] == life[0];
    var f := F(k, Chunks(life));
    if life[0].Write? {
      Cons(f, SnapItem(k, life), k, 0, w);
    } else if Chunks(life) != [] {
      var n := I(k, life[0].create, LastSnap(life).value);
      Cons(n, [f], k, 0, w);
      assert [f] + [] == [f];
      Cons(f, [], k, 0, w);
    } else {
      assert LifeItems(k, life) == [I(k, life[0].create, LastSnap(life).value)];
      assert Chunks(life) + [w] == [w];
    }
  }

  /** The end of a life that began in the log leaves nothing. */
  lemma {:induction false} BornAndGone(i: nat, v: nat, life: seq<Entry>)
    requires IsLife(i, life) && life != [] && life[0].Snap? && life[0].create
    ensures Coalesce(LifeItems(Key(i, v), life), v, Unlink(i)) == []
  {
    var k, w := Key(i, v), Chunk(0, []);
    LifeHolds(i, k, life);
    Cons(I(k, true, LastSnap(life).value), FileItem(k, life), k, 0, w);
  }

  /** The end of a life that began before the log leaves its snapshot and an unlink. */
  lemma {:induction false} OldAndGone(i: nat, v: nat, life: seq<Entry>)
    requires IsLife(i, life) && life != [] && !(life[0].Snap? && life[0].create)
    ensures Coalesce(LifeItems(Key(i, v), life), v, Unlink(i)) == SnapItem(Key(i, v), life) + [U(Key(i, v))]
  {
    var k, w := Key(i, v), Chunk(0, []);
    LifeHolds(i, k, life);
    var f, n, u := FileItem(k, life), SnapItem(k, life), [U(k)];
    if life[0].Snap? {
      assert LifeItems(k, life) + u == n + (f + u);
      Cons(n[0], f + u, k, 0, w);
      FileDropped(k, life, u);
    } else {
      assert LifeItems(k, life) + u == f + (n + u);
      assert !HasF(u, k);
      if n == [] { assert n + u == u; } else { assert (n + u)[1..] == u; }
      FileDropped(k, life, n + u);
    }
  }

  lemma {:induction false} FileDropped(k: Key, life: seq<Entry>, s: seq<Item>)
    requires !HasF(s, k)
    ensures DropF(FileItem(k, life) + s, k) == s
  {
    if Chunks(life) == [] {
      assert [] + s == s;
      NothingDropped(s, k);
    } else {
      Cons(F(k, Chunks(life)), s, k, 0, Chunk(0, []));
    }
  }

  lemma {:induction false} NothingDropped(s: seq<Item>, k: Key)
    requires !HasF(s, k)
    ensures DropF(s, k) == s
  {
    if s != [] { NothingDropped(s[1..], k); }
  }

  // ----- items of other versions in front -----

  /** No snapshot and no writes for k, at most unlinks. */
  predicate Without(s: seq<Item>, k: Key) { s == [] || ((s[0].U? || s[0].key != k) && Without(s[1..], k)) }

  lemma {:induction false} FrontIgnored(d: seq<Item>, s: seq<Item>, k: Key, size: nat, w: Chunk)
    requires Without(d, k)
    ensures HasI(d + s, k) == HasI(s, k) && HasF(d + s, k) == HasF(s, k) && Created(d + s, k) == Created(s, k)
    ensures SetI(d + s, k, size) == d + SetI(s, k, size) && AddTo(d + s, k, w) == d + AddTo(s, k, w)
    ensures DropI(d + s, k) == d + DropI(s, k) && DropF(d + s, k) == d + DropF(s, k)
  {
    if d == [] {
      assert d + s == s;
      assert [] + SetI(s, k, size) == SetI(s, k, size) && [] + AddTo(s, k, w) == AddTo(s, k, w);
      assert [] + DropI(s, k) == DropI(s, k) && [] + DropF(s, k) == DropF(s, k);
    } else {
      assert (d + s)[1..] == d[1..] + s;
      FrontIgnored(d[1..], s, k, size, w);
      Regrouped(d, SetI(s, k, size));
      Regrouped(d, AddTo(s, k, w));
      Regrouped(d, DropI(s, k));
      Regrouped(d, DropF(s, k));
    }
  }

  lemma {:induction false} Regrouped(d: seq<Item>, s: seq<Item>)
    requires d != []
    ensures [d[0]] + (d[1..] + s) == d + s
  {
  }

  lemma {:induction false} CoalesceBehind(d: seq<Item>, s: seq<Item>, v: nat, e: Entry)
    requires Without(d, Key(e.inum, v))
    ensures Coalesce(d + s, v, e) == d + Coalesce(s, v, e)
  {
    var k := Key(e.inum, v);
    match e {
      case Snap(_, create, size) =>
        FrontIgnored(d, s, k, size, Chunk(0, []));
        assert d + s + [I(k, create, size)] == d + (s + [I(k, create, size)]);
      case Write(_, w) =>
        FrontIgnored(d, s, k, 0, w);
        assert d + s + [F(k, [w])] == d + (s + [F(k, [w])]);
      case Unlink(_) =>
        FrontIgnored(d, s, k, 0, Chunk(0, []));
        assert d + s + [U(k)] == d + (s + [U(k)]);
        FrontIgnored(d, if Created(s, k) then DropI(s, k) else s + [U(k)], k, 0, Chunk(0, []));
    }
  }

  // ----- the list of one inode -----

  function VersionAfter(v: nat, es: seq<Entry>): nat { (v + Creates(es)) % VERSIONS }

  /** The entries of one inode that a log may hold, given its state before. */
  ghost predicate NodeLog(n: Node, i: nat, v: nat, es: seq<Entry>)
  {
    !n.Stray? && WellFormed(n, es) && (forall j :: 0 <= j < |es| ==> es[j].inum == i) && v < VERSIONS
  }

  /** An old life was recorded before it ended. */
  predicate Recorded(n: Node, es: seq<Entry>) { n.Present? && HadUnlink(es) && LastSnap(FirstLife(es)).Some? }

  /** The current life has the version that an old, recorded life had: the versions have wrapped
      around. */
  predicate Clash(n: Node, es: seq<Entry>)
  {
    Recorded(n, es) && Life(es) != [] && Creates(es) % VERSIONS == 0
  }

  /** What is left of lives that ended: of one that began before the log its last snapshot and an
      unlink. Lives that clash with it write their snapshots over that one and add unlinks. */
  function Grave(n: Node, k: Key, es: seq<Entry>): seq<Item>
  {
    if es == [] || n.Absent? then []
    else
      var front, e := es[..|es| - 1], es[|es| - 1];
      var d := Grave(n, k, front);
      if !HadUnlink(front) then (if e.Unlink? then SnapItem(k, FirstLife(es)) + [U(k)] else [])
      else if Clash(n, front) && e.Unlink? then d + [U(k)]
      else if Clash(n, es) && e.Snap? then SetI(d, k, e.size)
      else d
  }

  predicate Unlinks(d: seq<Item>, k: Key) { d == [] || (d[0] == U(k) && Unlinks(d[1..], k)) }

  predicate IsGrave(d: seq<Item>, k: Key, recorded: bool)
  {
    if recorded then d != [] && d[0].I? && d[0].key == k && !d[0].create && d[1..] != [] && Unlinks(d[1..], k)
    else d != [] && Unlinks(d, k)
  }

  lemma {:induction false} UnlinksMore(d: seq<Item>, k: Key)
    requires Unlinks(d, k)
    ensures Unlinks(d + [U(k)], k)
  {
    if d == [] {
      assert d + [U(k)] == [U(k)];
    } else {
      assert (d + [U(k)])[1..] == d[1..] + [U(k)];
      UnlinksMore(d[1..], k);
    }
  }

  lemma {:induction false} FirstLifeStep(es: seq<Entry>)
    requires es != []
    ensures HadUnlink(es[..|es| - 1]) ==> FirstLife(es) == FirstLife(es[..|es| - 1]) && HadUnlink(es)
  {
  }

  lemma {:induction false} GraveIs(n: Node, k: Key, es: seq<Entry>)
    requires n.Present?
    ensures if HadUnlink(es) then IsGrave(Grave(n, k, es), k, Recorded(n, es)) else Grave(n, k, es) == []
    decreases |es|
  {
    if es != [] {
      var front, e := es[..|es| - 1], es[|es| - 1];
      GraveIs(n, k, front);
      FirstLifeStep(es);
      var d := Grave(n, k, front);
      if !HadUnlink(front) {
        assert [U(k)][1..] == [] && ([I(k, false, 0)] + [U(k)])[1..] == [U(k)];
        if e.Unlink? && LastSnap(FirstLife(es)).Some? {
          assert Grave(n, k, es)[1..] == [U(k)];
        } else {
          assert [] + [U(k)] == [U(k)];
        }
      } else if Clash(n, front) && e.Unlink? {
        UnlinksMore(d[1..], k);
        assert (d + [U(k)])[1..] == d[1..] + [U(k)];
      } else if Clash(n, es) && e.Snap? {
        assert ([I(k, d[0].create, e.size)] + d[1..])[1..] == d[1..];
      }
    }
  }

  lemma {:induction false} UnlinksIgnored(d: seq<Item>, k: Key, k': Key)
    requires Unlinks(d, k)
    ensures Without(d, k')
  {
    if d != [] { UnlinksIgnored(d[1..], k, k'); }
  }

  /** Items behind a grave of another version, or of a life that was not recorded, do not see it. */
  lemma {:induction false} GraveIgnored(d: seq<Item>, k: Key, recorded: bool, k': Key)
    requires IsGrave(d, k, recorded) && (recorded ==> k' != k)
    ensures Without(d, k')
  {
    UnlinksIgnored(if recorded then d[1..] else d, k, k');
  }

  lemma {:induction false} SameVersion(v: nat, c: nat)
    requires v < VERSIONS
    ensures (v + c) % VERSIONS == v <==> c % VERSIONS == 0
  {
  }

  /** The items for the current life, behind the grave. */
  function Current(n: Node, k: Key, es: seq<Entry>): seq<Item>
  {
    if Clash(n, es) then FileItem(k, Life(es)) else LifeItems(k, Life(es))
  }

  /** Coalescing keeps, for one inode, what is left of an old life that ended and the items of the
      life that has not ended; every life in between has vanished, unless it clashed. */
  lemma {:induction false} CompileShape(n: Node, i: nat, v: nat, es: seq<Entry>)
    requires NodeLog(n, i, v, es)
    ensures var v' := VersionAfter(v, es);
            CompileNode(v, es) == (Grave(n, Key(i, v), es) + Current(n, Key(i, v'), es), v')
    decreases |es|
  {
    if es == [] {
      assert VersionAfter(v, es) == v;
      assert Grave(n, Key(i, v), es) + Current(n, Key(i, v), es) == [];
    } else {
      var front, e := es[..|es| - 1], es[|es| - 1];
      CompileShape(n, i, v, front);
      assert es == front + [e];
      VersionStep(v, front, e);
      ShapeStep(n, i, v, front, e);
    }
  }

  /** What one more entry of the inode makes of the list. */
  ghost predicate Continues(n: Node, i: nat, v: nat, front: seq<Entry>, e: Entry)
  {
    var k, k', es := Key(i, v), Key(i, VersionAfter(v, front + [e])), front + [e];
    Coalesce(Grave(n, k, front) + Current(n, Key(i, VersionAfter(v, front)), front), k'.ver, e)
    == Grave(n, k, es) + Current(n, k', es)
  }

  lemma {:induction false} ShapeStep(n: Node, i: nat, v: nat, front: seq<Entry>, e: Entry)
    requires NodeLog(n, i, v, front + [e]) && NodeLog(n, i, v, front)
    ensures Continues(n, i, v, front, e)
  {
    VersionStep(v, front, e);
    assert (front + [e])[..|front|] == front && (front + [e])[|front|] == e;
    SameVersion(v, Creates(front));
    SameVersion(v, Creates(front + [e]));
    LifeFacts(n, i, front);
    if e.Snap? && e.create {
      BirthStep(n, i, v, front, e);
    } else if e.Unlink? {
      DeathStep(n, i, v, front);
    } else {
      MiddleStep(n, i, v, front, e);
    }
  }

  lemma {:induction false} VersionStep(v: nat, front: seq<Entry>, e: Entry)
    ensures VersionAfter(v, front + [e]) == NextVer(VersionAfter(v, front), e)
  {
    assert (front + [e])[..|front|] == front;
  }

  lemma {:induction false} OneEntry(k: Key, e: Entry)
    requires !e.Unlink? && e.inum == k.inum
    ensures LifeItems(k, [e]) == Coalesce([], k.ver, e)
    ensures [] + LifeItems(k, []) == [] && [] + LifeItems(k, [e]) == LifeItems(k, [e])
  {
    assert Coalesce([], k.ver, e) == [if e.Snap? then I(k, e.create, e.size) else F(k, [e.chunk])];
    ChunksSnoc([], e);
    assert [] + [e] == [e];
    if e.Write? { assert [] + [e.chunk] == [e.chunk]; }
  }

  /** A grave that the entries of the current version do not see. */
  lemma {:induction false} GraveUnseen(n: Node, i: nat, v: nat, es: seq<Entry>)
    requires NodeLog(n, i, v, es) && Life(es) != [] && !Clash(n, es)
    ensures Without(Grave(n, Key(i, v), es), Key(i, VersionAfter(v, es)))
  {
    SameVersion(v, Creates(es));
    if n.Present? {
      GraveIs(n, Key(i, v), es);
      if HadUnlink(es) { GraveIgnored(Grave(n, Key(i, v), es), Key(i, v), Recorded(n, es), Key(i, VersionAfter(v, es))); }
    }
  }

  lemma {:induction false} BirthStep(n: Node, i: nat, v: nat, front: seq<Entry>, e: Entry)
    requires NodeLog(n, i, v, front + [e]) && NodeLog(n, i, v, front) && e.Snap? && e.create
    ensures Continues(n, i, v, front, e)
  {
    assert (front + [e])[..|front|] == front && (front + [e])[|front|] == e;
    LifeFacts(n, i, front);
    assert [] + [e] == [e];
    if Clash(n, front + [e]) { BirthOfClash(n, i, v, front, e); } else { BirthOfLife(n, i, v, front, e); }
  }

  /** A creation with the version of a recorded old life. */
  lemma {:induction false} BirthOfClash(n: Node, i: nat, v: nat, front: seq<Entry>, e: Entry)
    requires NodeLog(n, i, v, front + [e]) && e.Snap? && e.create && Life(front) == [] && Clash(n, front + [e])
    ensures Continues(n, i, v, front, e)
  {
    var es, k := front + [e], Key(i, v);
    assert es[..|es| - 1] == front && es[|es| - 1] == e;
    assert Life(es) == [] + [e] && [] + [e] == [e];
    var d := Grave(n, k, front);
    SameVersion(v, Creates(es));
    GraveIs(n, k, front);
    FirstLifeStep(es);
    ChunksSnoc([], e);
    assert d + [] == d && SetI(d, k, e.size) + [] == SetI(d, k, e.size);
  }

  lemma {:induction false} BirthOfLife(n: Node, i: nat, v: nat, front: seq<Entry>, e: Entry)
    requires NodeLog(n, i, v, front + [e]) && e.Snap? && e.create && Life(front) == [] && !Clash(n, front + [e])
    requires HadUnlink(front) || Grave(n, Key(i, v), front) == []
    ensures Continues(n, i, v, front, e)
  {
    var es, k := front + [e], Key(i, v);
    assert es[..|es| - 1] == front && es[|es| - 1] == e;
    assert Life(es) == [] + [e] && [] + [e] == [e];
    var d, k' := Grave(n, k, front), Key(i, VersionAfter(v, es));
    GraveUnseen(n, i, v, es);
    assert d + [] == d && Grave(n, k, es) == d;
    CoalesceBehind(d, [], k'.ver, e);
    OneEntry(k', e);
  }

  /** Snapshots of a life that clashes go to the grave. */
  lemma {:induction false} ClashSnap(d: seq<Item>, k: Key, life: seq<Entry>, e: Entry)
    requires IsGrave(d, k, true) && e.inum == k.inum && e.Snap?
    ensures Coalesce(d + FileItem(k, life), k.ver, e) == SetI(d, k, e.size) + FileItem(k, life)
  {
    var f := FileItem(k, life);
    assert d == [d[0]] + d[1..] && d + f == [d[0]] + (d[1..] + f);
    Cons(d[0], d[1..] + f, k, e.size, Chunk(0, []));
    assert HasI(d + f, k);
    assert SetI(d, k, e.size) + f == [I(k, false, e.size)] + (d[1..] + f);
  }

  /** Its writes go behind it. */
  lemma {:induction false} ClashWrite(d: seq<Item>, k: Key, life: seq<Entry>, w: Chunk)
    requires IsGrave(d, k, true)
    ensures Coalesce(d + FileItem(k, life), k.ver, Write(k.inum, w)) == d + [F(k, Chunks(life) + [w])]
  {
    var f := FileItem(k, life);
    assert d == [d[0]] + d[1..] && d + f == [d[0]] + (d[1..] + f);
    UnlinksIgnored(d[1..], k, k);
    FrontIgnored(d[1..], f, k, 0, w);
    assert (d + f)[1..] == d[1..] + f;
    assert HasF(d + f, k) == HasF(f, k) == (Chunks(life) != []);
    if Chunks(life) == [] {
      assert d + f == d && Chunks(life) + [w] == [w];
    } else {
      assert f == [F(k, Chunks(life))] + [];
      Cons(F(k, Chunks(life)), [], k, 0, w);
      Cons(d[0], d[1..] + f, k, 0, w);
      assert [d[0]] + (d[1..] + [F(k, Chunks(life) + [w])]) == d + [F(k, Chunks(life) + [w])];
    }
  }

  lemma {:induction false} MiddleStep(n: Node, i: nat, v: nat, front: seq<Entry>, e: Entry)
    requires NodeLog(n, i, v, front + [e]) && NodeLog(n, i, v, front) && !(e.Snap? && e.create) && !e.Unlink?
    ensures Continues(n, i, v, front, e)
  {
    var es := front + [e];
    assert es[..|es| - 1] == front && e == es[|es| - 1];
    if Life(front) == [] {
      MiddleOfNone(n, i, v, front, e);
    } else if Clash(n, front) {
      MiddleOfClash(n, i, v, front, e);
    } else {
      UnseenStep(n, i, v, front, e);
    }
  }

  lemma {:induction false} MiddleOfNone(n: Node, i: nat, v: nat, front: seq<Entry>, e: Entry)
    requires NodeLog(n, i, v, front + [e]) && NodeLog(n, i, v, front) && !(e.Snap? && e.create) && !e.Unlink?
    requires Life(front) == []
    ensures Continues(n, i, v, front, e)
  {
    var es := front + [e];
    assert es[..|es| - 1] == front && e == es[|es| - 1];
    LifeFacts(n, i, front);
    VersionStep(v, front, e);
    assert front == [] && Grave(n, Key(i, v), es) == [];
    assert Life(es) == [] + [e] && [] + [e] == [e];
    OneEntry(Key(i, VersionAfter(v, es)), e);
  }

  /** A life that clashes goes on to clash. */
  lemma {:induction false} ClashGoesOn(n: Node, i: nat, v: nat, front: seq<Entry>, e: Entry)
    requires NodeLog(n, i, v, front + [e]) && !(e.Snap? && e.create) && !e.Unlink?
    requires Life(front) != [] && Clash(n, front)
    ensures var es, k, d := front + [e], Key(i, v), Grave(n, Key(i, v), front);
            && Clash(n, es) && Life(es) == Life(front) + [e] && e.inum == i && IsGrave(d, k, true)
            && VersionAfter(v, es) == VersionAfter(v, front) == v
            && Grave(n, k, es) == if e.Snap? then SetI(d, k, e.size) else d
  {
    var es := front + [e];
    assert es[..|es| - 1] == front && e == es[|es| - 1];
    LifeStep(es);
    FirstLifeStep(es);
    VersionStep(v, front, e);
    SameVersion(v, Creates(front));
    GraveIs(n, Key(i, v), front);
  }

  lemma {:induction false} MiddleOfClash(n: Node, i: nat, v: nat, front: seq<Entry>, e: Entry)
    requires NodeLog(n, i, v, front + [e]) && NodeLog(n, i, v, front) && !(e.Snap? && e.create) && !e.Unlink?
    requires Life(front) != [] && Clash(n, front)
    ensures Continues(n, i, v, front, e)
  {
    var k, life := Key(i, v), Life(front);
    ClashGoesOn(n, i, v, front, e);
    ChunksSnoc(life, e);
    if e.Snap? { ClashSnap(Grave(n, k, front), k, life, e); } else { ClashWrite(Grave(n, k, front), k, life, e.chunk); }
  }

  lemma {:induction false} UnseenStep(n: Node, i: nat, v: nat, front: seq<Entry>, e: Entry)
    requires NodeLog(n, i, v, front + [e]) && NodeLog(n, i, v, front) && !(e.Snap? && e.create) && !e.Unlink?
    requires Life(front) != [] && !Clash(n, front)
    ensures Continues(n, i, v, front, e)
  {
    var es := front + [e];
    assert es[..|es| - 1] == front && e == es[|es| - 1];
    var k, k', life := Key(i, v), Key(i, VersionAfter(v, front)), Life(front);
    LifeFacts(n, i, front);
    LifeStep(es);
    FirstLifeStep(es);
    VersionStep(v, front, e);
    var d := Grave(n, k, front);
    assert !Clash(n, es) && Grave(n, k, es) == d by { if n.Present? { GraveIs(n, k, front); } }
    GraveUnseen(n, i, v, front);
    CoalesceBehind(d, LifeItems(k', life), k'.ver, e);
    assert Coalesce(LifeItems(k', life), k'.ver, e) == LifeItems(k', life + [e]) by {
      if e.Snap? { LifeSnaps(i, k'.ver, life, e); } else { LifeWrites(i, k'.ver, life, e); }
    }
  }

  lemma {:induction false} DeathStep(n: Node, i: nat, v: nat, front: seq<Entry>)
    requires NodeLog(n, i, v, front + [Unlink(i)]) && NodeLog(n, i, v, front)
    ensures Continues(n, i, v, front, Unlink(i))
  {
    VersionStep(v, front, Unlink(i));
    if Life(front) == [] {
      DeathOfOld(n, i, v, front);
    } else if Clash(n, front) {
      DeathOfClash(n, i, v, front);
    } else {
      DeathOfLife(n, i, v, front);
    }
  }

  /** The first entry of an inode unlinks it. */
  lemma {:induction false} DeathOfOld(n: Node, i: nat, v: nat, front: seq<Entry>)
    requires NodeLog(n, i, v, front + [Unlink(i)]) && NodeLog(n, i, v, front) && Life(front) == []
    ensures Continues(n, i, v, front, Unlink(i))
  {
    var es := front + [Unlink(i)];
    assert es[..|es| - 1] == front;
    var k := Key(i, v);
    LifeFacts(n, i, front);
    assert Grave(n, k, front) == [] && front == [] && LifeItems(k, []) == [];
    assert VersionAfter(v, []) == v && LastSnap(FirstLife(es)) == None;
    assert [] + [U(k)] == [U(k)] && [U(k)] + [] == [U(k)];
    NothingDropped([U(k)], k);
  }

  /** An unlink ends a life that clashes: its writes are dropped, and the grave gets an unlink. */
  lemma {:induction false} DeathOfClash(n: Node, i: nat, v: nat, front: seq<Entry>)
    requires NodeLog(n, i, v, front + [Unlink(i)]) && NodeLog(n, i, v, front) && Clash(n, front)
    ensures Continues(n, i, v, front, Unlink(i))
  {
    var es, k := front + [Unlink(i)], Key(i, v);
    assert es[..|es| - 1] == front;
    SameVersion(v, Creates(front));
    GraveIs(n, k, front);
    VersionStep(v, front, Unlink(i));
    GraveEnds(Grave(n, k, front), k, Life(front));
    assert (Grave(n, k, front) + [U(k)]) + [] == Grave(n, k, front) + [U(k)];
  }

  lemma {:induction false} GraveEnds(d: seq<Item>, k: Key, life: seq<Entry>)
    requires IsGrave(d, k, true)
    ensures Coalesce(d + FileItem(k, life), k.ver, Unlink(k.inum)) == d + [U(k)]
  {
    var f, u := FileItem(k, life), [U(k)];
    assert d == [d[0]] + d[1..] && d + f == [d[0]] + (d[1..] + f);
    assert !Created(d + f, k);
    assert (d + f) + u == [d[0]] + (d[1..] + (f + u));
    UnlinksIgnored(d[1..], k, k);
    Cons(d[0], d[1..] + (f + u), k, 0, Chunk(0, []));
    FrontIgnored(d[1..], f + u, k, 0, Chunk(0, []));
    assert u[1..] == [];
    FileDropped(k, life, u);
    assert [d[0]] + (d[1..] + u) == d + u;
  }

  /** An unlink ends a life. */
  lemma {:induction false} DeathOfLife(n: Node, i: nat, v: nat, front: seq<Entry>)
    requires NodeLog(n, i, v, front + [Unlink(i)]) && NodeLog(n, i, v, front) && Life(front) != [] && !Clash(n, front)
    ensures Continues(n, i, v, front, Unlink(i))
  {
    var es := front + [Unlink(i)];
    assert es[..|es| - 1] == front;
    var k, k', life := Key(i, v), Key(i, VersionAfter(v, front)), Life(front);
    LifeFacts(n, i, front);
    VersionStep(v, front, Unlink(i));
    GraveAtEnd(n, i, v, front);
    assert Coalesce(Grave(n, k, front) + LifeItems(k', life), k'.ver, Unlink(i))
        == Grave(n, k, front) + Coalesce(LifeItems(k', life), k'.ver, Unlink(i)) by {
      GraveUnseen(n, i, v, front);
      CoalesceBehind(Grave(n, k, front), LifeItems(k', life), k'.ver, Unlink(i));
    }
    if life[0].Snap? && life[0].create { BornAndGone(i, k'.ver, life); } else { OldAndGone(i, k'.ver, life); }
  }

  /** What an unlink of a life that does not clash adds to the grave. */
  lemma {:induction false} GraveAtEnd(n: Node, i: nat, v: nat, front: seq<Entry>)
    requires NodeLog(n, i, v, front) && Life(front) != [] && !Clash(n, front)
    ensures var es, k, life := front + [Unlink(i)], Key(i, v), Life(front);
            Grave(n, k, es) == Grave(n, k, front) +
                               if life[0].Snap? && life[0].create then [] else SnapItem(k, life) + [U(k)]
  {
    var es, k := front + [Unlink(i)], Key(i, v);
    assert es[..|es| - 1] == front && es[|es| - 1] == Unlink(i);
    LifeFacts(n, i, front);
    if n.Present? { GraveIs(n, k, front); }
    assert Grave(n, k, front) + [] == Grave(n, k, front);
    assert [] + (SnapItem(k, front) + [U(k)]) == SnapItem(k, front) + [U(k)];
  }
}
