/** What one log entry does to a file, and what a coalesced replay list does (kernfs/digest.c).
    A file system is an inode number to contents mapping; block numbers play no part here. */
module DigestModel {
  import opened Numbers

  newtype Byte = x: int | 0 <= x < 256

  // ----- file contents -----

  /** The byte that a read at position i returns; past the end of the file there are zeros. */
  function ByteAt(s: seq<Byte>, i: nat): Byte { if i < |s| then s[i] else 0 }

  function Resize(s: seq<Byte>, n: nat): seq<Byte> { seq(n, i requires i >= 0 => ByteAt(s, i)) }

  datatype Chunk = Chunk(off: nat, data: seq<Byte>) {
    function End(): nat { off + |data| }
  }

  function Overlay(s: seq<Byte>, w: Chunk): seq<Byte>
  {
    seq(Max(|s|, w.End()), i requires i >= 0 => if w.off <= i < w.End() then w.data[i - w.off] else ByteAt(s, i))
  }

  function Writes(s: seq<Byte>, ws: seq<Chunk>): seq<Byte>
  {
    if ws == [] then s else Overlay(Writes(s, ws[..|ws| - 1]), ws[|ws| - 1])
  }

  lemma {:induction false} ResizeTwice(s: seq<Byte>, m: nat, n: nat)
    requires |s| <= m <= n
    ensures Resize(Resize(s, m), n) == Resize(s, n)
  {
  }

  lemma {:induction false} ResizeOverlay(s: seq<Byte>, w: Chunk, n: nat)
    requires |s| <= n && w.End() <= n
    ensures Resize(Overlay(s, w), n) == Overlay(Resize(s, n), w)
  {
  }

  /** Growing a file after some writes is growing it before them. */
  lemma {:induction false} ResizeWrites(s: seq<Byte>, ws: seq<Chunk>, n: nat)
    requires |Writes(s, ws)| <= n
    ensures Resize(Writes(s, ws), n) == Writes(Resize(s, n), ws)
  {
    if ws != [] {
      ResizeWrites(s, ws[..|ws| - 1], n);
      ResizeOverlay(Writes(s, ws[..|ws| - 1]), ws[|ws| - 1], n);
    }
  }

  // ----- log entries, one after the other -----

  /** A log entry. A snapshot carries the size of the inode; directory entries are writes too. */
  datatype Entry =
    | Snap(inum: nat, create: bool, size: nat)
    | Write(inum: nat, chunk: Chunk)
    | Unlink(inum: nat)

  /** An inode number is free, holds a file, or was written while it was free. Such a write hits an
      assertion, or lands in the unlinked inode when that is still cached; no file comes of it. */
  datatype Node = Absent | Present(data: seq<Byte>) | Stray

  /** Take over a snapshot of the inode; the inode is allocated if it does not exist. */
  function DigestInode(n: Node, size: nat): Node
  {
    match n
    case Absent => Present(Resize([], size))
    case Present(s) => Present(Resize(s, size))
    case Stray => Stray
  }

  /** Write data into a file that has to exist. */
  function DigestFile(n: Node, w: Chunk): Node
  {
    match n
    case Absent => Stray
    case Present(s) => Present(Overlay(s, w))
    case Stray => Stray
  }

  function DigestUnlink(n: Node): Node { if n.Stray? then Stray else Absent }

  function DigestEntry(n: Node, e: Entry): Node
  {
    match e
    case Snap(_, _, size) => DigestInode(n, size)
    case Write(_, w) => DigestFile(n, w)
    case Unlink(_) => DigestUnlink(n)
  }

  type FileSystem = map<nat, Node>

  function NodeOf(fs: FileSystem, i: nat): Node { if i in fs then fs[i] else Absent }

  /** The reference semantics: digest the entries in log order. */
  function DigestLog(fs: FileSystem, log: seq<Entry>): FileSystem
  {
    if log == [] then fs
    else
      var fs1, e := DigestLog(fs, log[..|log| - 1]), log[|log| - 1];
      fs1[e.inum := DigestEntry(NodeOf(fs1, e.inum), e)]
  }

  // ----- the replay list -----

  datatype Key = Key(inum: nat, ver: nat)

  datatype Item =
    | I(key: Key, create: bool, size: nat)     // the latest snapshot of an inode
    | F(key: Key, chunks: seq<Chunk>)          // all writes to a file
    | U(key: Key)                              // an unlink

  predicate HasI(s: seq<Item>, k: Key) { s != [] && ((s[0].I? && s[0].key == k) || HasI(s[1..], k)) }

  predicate HasF(s: seq<Item>, k: Key) { s != [] && ((s[0].F? && s[0].key == k) || HasF(s[1..], k)) }

  /** The list holds a snapshot item for k that began with the creation of the inode. */
  predicate Created(s: seq<Item>, k: Key)
  {
    s != [] && if s[0].I? && s[0].key == k then s[0].create else Created(s[1..], k)
  }

  function SetI(s: seq<Item>, k: Key, size: nat): seq<Item>
  {
    if s == [] then []
    else if s[0].I? && s[0].key == k then [I(k, s[0].create, size)] + s[1..]
    else [s[0]] + SetI(s[1..], k, size)
  }

  function AddTo(s: seq<Item>, k: Key, w: Chunk): seq<Item>
  {
    if s == [] then []
    else if s[0].F? && s[0].key == k then [F(k, s[0].chunks + [w])] + s[1..]
    else [s[0]] + AddTo(s[1..], k, w)
  }

  function DropI(s: seq<Item>, k: Key): seq<Item>
  {
    if s == [] then [] else if s[0].I? && s[0].key == k then s[1..] else [s[0]] + DropI(s[1..], k)
  }

  function DropF(s: seq<Item>, k: Key): seq<Item>
  {
    if s == [] then [] else if s[0].F? && s[0].key == k then s[1..] else [s[0]] + DropF(s[1..], k)
  }

  const VERSIONS: nat := 0x1_0000

  /** The version of the inode that entry e belongs to, given the version before e. */
  function NextVer(v: nat, e: Entry): nat
  {
    if e.Snap? && e.create then (v + 1) % VERSIONS else v
  }

  /** The list after entry e of version v. */
  function Coalesce(s: seq<Item>, v: nat, e: Entry): seq<Item>
  {
    var k := Key(e.inum, v);
    match e
    case Snap(_, create, size) => if HasI(s, k) then SetI(s, k, size) else s + [I(k, create, size)]
    case Write(_, w) => if HasF(s, k) then AddTo(s, k, w) else s + [F(k, [w])]
    case Unlink(_) => DropF(if Created(s, k) then DropI(s, k) else s + [U(k)], k)
  }

  type Versions = map<nat, nat>

  function VerOf(vs: Versions, i: nat): nat { if i in vs then vs[i] else 0 }

  /** The replay list and the version table after a whole log. */
  function Compile(vs: Versions, log: seq<Entry>): (seq<Item>, Versions)
  {
    if log == [] then ([], vs)
    else
      var (s, vs1) := Compile(vs, log[..|log| - 1]);
      var e := log[|log| - 1];
      var v := NextVer(VerOf(vs1, e.inum), e);
      (Coalesce(s, v, e), vs1[e.inum := v])
  }

  function ReplayItem(n: Node, x: Item): Node
  {
    match x
    case I(_, _, size) => DigestInode(n, size)
    case F(_, ws) => ReplayWrites(n, ws)
    case U(_) => DigestUnlink(n)
  }

  function ReplayWrites(n: Node, ws: seq<Chunk>): Node
  {
    if ws == [] then n else DigestFile(ReplayWrites(n, ws[..|ws| - 1]), ws[|ws| - 1])
  }

  /** Apply a replay list in order. */
  function Replay(fs: FileSystem, s: seq<Item>): FileSystem
  {
    if s == [] then fs
    else
      var fs1, x := Replay(fs, s[..|s| - 1]), s[|s| - 1];
      fs1[x.key.inum := ReplayItem(NodeOf(fs1, x.key.inum), x)]
  }

  // ----- one inode at a time -----

  /** The entries of a log, and the items of a list, that concern inode i. */
  function EntriesOf(log: seq<Entry>, i: nat): seq<Entry>
  {
    if log == [] then []
    else EntriesOf(log[..|log| - 1], i) + if log[|log| - 1].inum == i then [log[|log| - 1]] else []
  }

  function ItemsOf(s: seq<Item>, i: nat): seq<Item>
  {
    if s == [] then [] else (if s[0].key.inum == i then [s[0]] else []) + ItemsOf(s[1..], i)
  }

  function DigestNode(n: Node, es: seq<Entry>): Node
  {
    if es == [] then n else DigestEntry(DigestNode(n, es[..|es| - 1]), es[|es| - 1])
  }

  function ReplayNode(n: Node, s: seq<Item>): Node
    decreases s
  {
    if s == [] then n else ReplayNode(ReplayItem(n, s[0]), s[1..])
  }

  /** The list and the version for the entries of one inode. */
  function CompileNode(v: nat, es: seq<Entry>): (seq<Item>, nat)
  {
    if es == [] then ([], v)
    else
      var (s, v1) := CompileNode(v, es[..|es| - 1]);
      var v2 := NextVer(v1, es[|es| - 1]);
      (Coalesce(s, v2, es[|es| - 1]), v2)
  }

  lemma {:induction false} DigestLogAt(fs: FileSystem, log: seq<Entry>, i: nat)
    ensures NodeOf(DigestLog(fs, log), i) == DigestNode(NodeOf(fs, i), EntriesOf(log, i))
  {
    if log != [] {
      DigestLogAt(fs, log[..|log| - 1], i);
      var es, e := EntriesOf(log[..|log| - 1], i), log[|log| - 1];
      if e.inum == i { assert (es + [e])[..|es|] == es; } else { assert es + [] == es; }
    }
  }

  lemma {:induction false} ItemsOfConcat(a: seq<Item>, b: seq<Item>, i: nat)
    ensures ItemsOf(a + b, i) == ItemsOf(a, i) + ItemsOf(b, i)
  {
    if a == [] {
      assert a + b == b;
    } else {
      assert (a + b)[0] == a[0] && (a + b)[1..] == a[1..] + b;
      ItemsOfConcat(a[1..], b, i);
      var x := if a[0].key.inum == i then [a[0]] else [];
      assert x + (ItemsOf(a[1..], i) + ItemsOf(b, i)) == (x + ItemsOf(a[1..], i)) + ItemsOf(b, i);
    }
  }

  lemma {:induction false} ReplayNodeConcat(n: Node, a: seq<Item>, b: seq<Item>)
    ensures ReplayNode(n, a + b) == ReplayNode(ReplayNode(n, a), b)
    decreases a
  {
    if a == [] {
      assert a + b == b;
    } else {
      assert (a + b)[1..] == a[1..] + b;
      ReplayNodeConcat(ReplayItem(n, a[0]), a[1..], b);
    }
  }

  lemma {:induction false} ReplayAt(fs: FileSystem, s: seq<Item>, i: nat)
    ensures NodeOf(Replay(fs, s), i) == ReplayNode(NodeOf(fs, i), ItemsOf(s, i))
  {
    if s != [] {
      var front, x := s[..|s| - 1], s[|s| - 1];
      ReplayAt(fs, front, i);
      assert s == front + [x];
      ItemsOfConcat(front, [x], i);
      ReplayNodeConcat(NodeOf(fs, i), ItemsOf(front, i), ItemsOf([x], i));
    }
  }

  // ----- compiling for one inode -----

  lemma {:induction false} ItemsOfFirst(x: Item, s: seq<Item>, i: nat)
    ensures ItemsOf([x] + s, i) == (if x.key.inum == i then [x] else []) + ItemsOf(s, i)
  {
    assert ([x] + s)[1..] == s;
  }

  lemma {:induction false} FirstItem(s: seq<Item>, i: nat)
    requires s != []
    ensures s[0].key.inum == i ==> ItemsOf(s, i) != [] && ItemsOf(s, i)[0] == s[0] && ItemsOf(s, i)[1..] == ItemsOf(s[1..], i)
    ensures s[0].key.inum != i ==> ItemsOf(s, i) == ItemsOf(s[1..], i)
  {
  }

  lemma {:induction false} OwnLookups(s: seq<Item>, k: Key)
    ensures HasI(ItemsOf(s, k.inum), k) == HasI(s, k) && HasF(ItemsOf(s, k.inum), k) == HasF(s, k)
    ensures Created(ItemsOf(s, k.inum), k) == Created(s, k)
  {
    if s != [] {
      OwnLookups(s[1..], k);
      FirstItem(s, k.inum);
    }
  }

  lemma {:induction false} SetIAt(s: seq<Item>, k: Key, size: nat, i: nat)
    ensures ItemsOf(SetI(s, k, size), i) == if k.inum == i then SetI(ItemsOf(s, i), k, size) else ItemsOf(s, i)
  {
    if s != [] {
      SetIAt(s[1..], k, size, i);
      FirstItem(s, i);
      if s[0].I? && s[0].key == k {
        ItemsOfFirst(I(k, s[0].create, size), s[1..], i);
      } else {
        ItemsOfFirst(s[0], SetI(s[1..], k, size), i);
      }
    }
  }

  lemma {:induction false} AddToAt(s: seq<Item>, k: Key, w: Chunk, i: nat)
    ensures ItemsOf(AddTo(s, k, w), i) == if k.inum == i then AddTo(ItemsOf(s, i), k, w) else ItemsOf(s, i)
  {
    if s != [] {
      AddToAt(s[1..], k, w, i);
      FirstItem(s, i);
      if s[0].F? && s[0].key == k {
        ItemsOfFirst(F(k, s[0].chunks + [w]), s[1..], i);
      } else {
        ItemsOfFirst(s[0], AddTo(s[1..], k, w), i);
      }
    }
  }

  lemma {:induction false} DropIAt(s: seq<Item>, k: Key, i: nat)
    ensures ItemsOf(DropI(s, k), i) == if k.inum == i then DropI(ItemsOf(s, i), k) else ItemsOf(s, i)
  {
    if s != [] {
      DropIAt(s[1..], k, i);
      FirstItem(s, i);
      ItemsOfFirst(s[0], DropI(s[1..], k), i);
    }
  }

  lemma {:induction false} DropFAt(s: seq<Item>, k: Key, i: nat)
    ensures ItemsOf(DropF(s, k), i) == if k.inum == i then DropF(ItemsOf(s, i), k) else ItemsOf(s, i)
  {
    if s != [] {
      DropFAt(s[1..], k, i);
      FirstItem(s, i);
      ItemsOfFirst(s[0], DropF(s[1..], k), i);
    }
  }

  lemma {:induction false} CoalesceAt(s: seq<Item>, v: nat, e: Entry, i: nat)
    ensures ItemsOf(Coalesce(s, v, e), i) == if e.inum == i then Coalesce(ItemsOf(s, i), v, e) else ItemsOf(s, i)
  {
    var k := Key(e.inum, v);
    OwnLookups(s, k);
    match e {
      case Snap(_, create, size) =>
        ItemsOfConcat(s, [I(k, create, size)], i);
        SetIAt(s, k, size, i);
      case Write(_, w) =>
        ItemsOfConcat(s, [F(k, [w])], i);
        AddToAt(s, k, w, i);
      case Unlink(_) =>
        ItemsOfConcat(s, [U(k)], i);
        DropIAt(s, k, i);
        assert ItemsOf([U(k)], i) == if e.inum == i then [U(k)] else [];
        var s1 := if Created(s, k) then DropI(s, k) else s + [U(k)];
        DropFAt(s1, k, i);
        assert ItemsOf(s, i) + [] == ItemsOf(s, i);
    }
  }

  /** Coalescing a log treats every inode as if it were alone in the log. */
  lemma {:induction false} CompileAt(vs: Versions, log: seq<Entry>, i: nat)
    ensures var (s, vs') := Compile(vs, log);
            CompileNode(VerOf(vs, i), EntriesOf(log, i)) == (ItemsOf(s, i), VerOf(vs', i))
  {
    if log != [] {
      var front, e := log[..|log| - 1], log[|log| - 1];
      CompileAt(vs, front, i);
      var (s, vs1) := Compile(vs, front);
      CoalesceAt(s, NextVer(VerOf(vs1, e.inum), e), e, i);
      var es := EntriesOf(front, i);
      if e.inum == i { assert (es + [e])[..|es|] == es; } else { assert es + [] == es; }
    }
  }
}
