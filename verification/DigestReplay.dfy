/** The replay list as the digest keeps it: a list of nodes, and hash tables that find the node of
    a key (kernfs/digest.c). */
module DigestReplay {
  import opened DigestModel
  import opened DigestProofs
  import opened DigestCorrect
  import opened DigestLayout

  /** A node of the list. What it records is stored with the hash table entry of its key. */
  datatype Ref = IRef(key: Key) | FRef(key: Key) | URef(key: Key)

  datatype Snapshot = Snapshot(create: bool, size: nat)

  type Inodes = map<Key, Snapshot>
  type Files = map<Key, seq<Chunk>>

  /** Take one node out of the list. */
  function Unlinked(list: seq<Ref>, r: Ref): seq<Ref>
  {
    if list == [] then [] else if list[0] == r then list[1..] else [list[0]] + Unlinked(list[1..], r)
  }

  ghost predicate Distinct(list: seq<Ref>)
  {
    list == [] || ((list[0].URef? || list[0] !in list[1..]) && Distinct(list[1..]))
  }

  /** The tables hold exactly the keys of the nodes in the list, and no key has two nodes. */
  ghost predicate Tabled(list: seq<Ref>, inodes: Inodes, files: Files)
  {
    && Distinct(list)
    && (forall k: Key :: IRef(k) in list <==> k in inodes)
    && (forall k: Key :: FRef(k) in list <==> k in files)
  }

  function ItemAt(r: Ref, inodes: Inodes, files: Files): Item
  {
    match r
    case IRef(k) => if k in inodes then I(k, inodes[k].create, inodes[k].size) else I(k, false, 0)
    case FRef(k) => F(k, if k in files then files[k] else [])
    case URef(k) => U(k)
  }

  function Items(list: seq<Ref>, inodes: Inodes, files: Files): seq<Item>
  {
    if list == [] then [] else [ItemAt(list[0], inodes, files)] + Items(list[1..], inodes, files)
  }

  // ----- the tables speak for the list -----

  lemma {:induction false} ItemsConcat(a: seq<Ref>, b: seq<Ref>, inodes: Inodes, files: Files)
    ensures Items(a + b, inodes, files) == Items(a, inodes, files) + Items(b, inodes, files)
  {
    if a == [] {
      assert a + b == b;
    } else {
      assert (a + b)[1..] == a[1..] + b;
      ItemsConcat(a[1..], b, inodes, files);
    }
  }

  lemma {:induction false} ItemsFirst(list: seq<Ref>, inodes: Inodes, files: Files)
    requires list != []
    ensures var s := Items(list, inodes, files);
            s != [] && s[0] == ItemAt(list[0], inodes, files) && s[1..] == Items(list[1..], inodes, files)
  {
  }

  /** Two pairs of tables that agree on the nodes of a list give it the same items. */
  lemma {:induction false} SameTables(list: seq<Ref>, inodes: Inodes, files: Files, inodes': Inodes, files': Files)
    requires forall r :: r in list ==> ItemAt(r, inodes, files) == ItemAt(r, inodes', files')
    ensures Items(list, inodes, files) == Items(list, inodes', files')
  {
    if list != [] { SameTables(list[1..], inodes, files, inodes', files'); }
  }

  lemma {:induction false} Finds(list: seq<Ref>, inodes: Inodes, files: Files, k: Key)
    requires Distinct(list)
    ensures HasI(Items(list, inodes, files), k) <==> IRef(k) in list
    ensures HasF(Items(list, inodes, files), k) <==> FRef(k) in list
    ensures Created(Items(list, inodes, files), k) <==> IRef(k) in list && k in inodes && inodes[k].create
  {
    if list != [] {
      Finds(list[1..], inodes, files, k);
      ItemsFirst(list, inodes, files);
    }
  }

  lemma {:induction false} SetsI(list: seq<Ref>, inodes: Inodes, files: Files, k: Key, size: nat)
    requires Distinct(list) && IRef(k) in list && k in inodes
    ensures Items(list, inodes[k := inodes[k].(size := size)], files) == SetI(Items(list, inodes, files), k, size)
  {
    var inodes' := inodes[k := inodes[k].(size := size)];
    ItemsFirst(list, inodes, files);
    if list[0] == IRef(k) {
      SameTables(list[1..], inodes, files, inodes', files);
    } else {
      SetsI(list[1..], inodes, files, k, size);
    }
  }

  lemma {:induction false} AddsTo(list: seq<Ref>, inodes: Inodes, files: Files, k: Key, w: Chunk)
    requires Distinct(list) && FRef(k) in list && k in files
    ensures Items(list, inodes, files[k := files[k] + [w]]) == AddTo(Items(list, inodes, files), k, w)
  {
    var files' := files[k := files[k] + [w]];
    ItemsFirst(list, inodes, files);
    if list[0] == FRef(k) {
      SameTables(list[1..], inodes, files, inodes, files');
    } else {
      AddsTo(list[1..], inodes, files, k, w);
    }
  }

  lemma {:induction false} DropsI(list: seq<Ref>, inodes: Inodes, files: Files, k: Key)
    requires Distinct(list) && IRef(k) in list
    ensures Items(Unlinked(list, IRef(k)), inodes - {k}, files) == DropI(Items(list, inodes, files), k)
  {
    ItemsFirst(list, inodes, files);
    if list[0] == IRef(k) {
      SameTables(list[1..], inodes, files, inodes - {k}, files);
    } else {
      DropsI(list[1..], inodes, files, k);
      assert ([list[0]] + Unlinked(list[1..], IRef(k)))[1..] == Unlinked(list[1..], IRef(k));
    }
  }

  lemma {:induction false} DropsF(list: seq<Ref>, inodes: Inodes, files: Files, k: Key)
    requires Distinct(list) && FRef(k) in list
    ensures Items(Unlinked(list, FRef(k)), inodes, files - {k}) == DropF(Items(list, inodes, files), k)
  {
    ItemsFirst(list, inodes, files);
    if list[0] == FRef(k) {
      SameTables(list[1..], inodes, files, inodes, files - {k});
    } else {
      DropsF(list[1..], inodes, files, k);
      assert ([list[0]] + Unlinked(list[1..], FRef(k)))[1..] == Unlinked(list[1..], FRef(k));
    }
  }

  lemma {:induction false} UnlinkedIs(list: seq<Ref>, r: Ref)
    requires Distinct(list) && r in list && !r.URef?
    ensures Distinct(Unlinked(list, r)) && forall q :: q in Unlinked(list, r) <==> q in list && q != r
  {
    if list[0] != r {
      UnlinkedIs(list[1..], r);
      assert ([list[0]] + Unlinked(list[1..], r))[1..] == Unlinked(list[1..], r);
    }
  }

  lemma {:induction false} DistinctSnoc(list: seq<Ref>, r: Ref)
    requires Distinct(list) && (r.URef? || r !in list)
    ensures Distinct(list + [r]) && forall q :: q in list + [r] <==> q in list || q == r
  {
    if list != [] {
      DistinctSnoc(list[1..], r);
      assert (list + [r])[1..] == list[1..] + [r];
    }
  }

  // ----- the list -----

  class ReplayList {
    var versions: Versions
    var list: seq<Ref>
    var inodes: Inodes
    var files: Files

    ghost predicate Valid()
      reads this
    {
      Tabled(list, inodes, files)
    }

    ghost function Content(): seq<Item>
      reads this
    {
      Items(list, inodes, files)
    }

    constructor (versions: Versions)
      ensures Valid() && Content() == [] && this.versions == versions
    {
      this.versions, list, inodes, files := versions, [], map[], map[];
    }

    method AppendInode(k: Key, create: bool, size: nat)
      requires Valid() && k !in inodes
      modifies this`list, this`inodes
      ensures Valid() && Content() == old(Content()) + [I(k, create, size)]
    {
      var inodes' := inodes[k := Snapshot(create, size)];
      DistinctSnoc(list, IRef(k));
      ItemsConcat(list, [IRef(k)], inodes', files);
      SameTables(list, inodes, files, inodes', files);
      list, inodes := list + [IRef(k)], inodes';
    }

    method AppendFile(k: Key, w: Chunk)
      requires Valid() && k !in files
      modifies this`list, this`files
      ensures Valid() && Content() == old(Content()) + [F(k, [w])]
    {
      var files' := files[k := [w]];
      DistinctSnoc(list, FRef(k));
      ItemsConcat(list, [FRef(k)], inodes, files');
      SameTables(list, inodes, files, inodes, files');
      list, files := list + [FRef(k)], files';
    }

    /** Erase the writes to a file. */
    method EraseFile(k: Key)
      requires Valid()
      modifies this`list, this`files
      ensures Valid() && Content() == DropF(old(Content()), k)
    {
      Finds(list, inodes, files, k);
      if k in files {
        DropsF(list, inodes, files, k);
        UnlinkedIs(list, FRef(k));
        list, files := Unlinked(list, FRef(k)), files - {k};
      } else {
        NothingDropped(Content(), k);
      }
    }

    /** Erase the items of an inode that was created and unlinked, or record its unlink. */
    method AddUnlink(k: Key)
      requires Valid()
      modifies this`list, this`inodes, this`files
      ensures Valid()
      ensures Content() == DropF(if Created(old(Content()), k) then DropI(old(Content()), k) else old(Content()) + [U(k)], k)
    {
      Finds(list, inodes, files, k);
      if k in inodes && inodes[k].create {
        DropsI(list, inodes, files, k);
        UnlinkedIs(list, IRef(k));
        list, inodes := Unlinked(list, IRef(k)), inodes - {k};
      } else {
        ItemsConcat(list, [URef(k)], inodes, files);
        DistinctSnoc(list, URef(k));
        assert Items([URef(k)], inodes, files) == [U(k)];
        list := list + [URef(k)];
      }
      EraseFile(k);
    }

    /** Work one log entry into the list. */
    method Add(e: Entry)
      requires Valid()
      modifies this
      ensures Valid()
      ensures var v := NextVer(VerOf(old(versions), e.inum), e);
              Content() == Coalesce(old(Content()), v, e) && versions == old(versions)[e.inum := v]
    {
      if e.Snap? && e.create {
        versions := versions[e.inum := (VerOf(versions, e.inum) + 1) % VERSIONS];
      } else {
        versions := versions[e.inum := VerOf(versions, e.inum)];
      }
      var k := Key(e.inum, versions[e.inum]);
      Finds(list, inodes, files, k);
      match e {
        case Snap(_, create, size) =>
          if k in inodes {
            SetsI(list, inodes, files, k, size);
            inodes := inodes[k := inodes[k].(size := size)];
          } else {
            AppendInode(k, create, size);
          }
        case Write(_, w) =>
          if k in files {
            AddsTo(list, inodes, files, k, w);
            files := files[k := files[k] + [w]];
          } else {
            AppendFile(k, w);
          }
        case Unlink(_) =>
          AddUnlink(k);
      }
    }

    /** Work a whole log into an empty list. */
    method AddLog(log: seq<Entry>)
      requires Valid() && Content() == []
      modifies this
      ensures Valid() && (Content(), versions) == Compile(old(versions), log)
    {
      var i := 0;
      while i < |log|
        invariant 0 <= i <= |log| && Valid()
        invariant (Content(), versions) == Compile(old(versions), log[..i])
      {
        assert log[..i + 1][..i] == log[..i];
        Add(log[i]);
        i := i + 1;
      }
      assert log[..i] == log;
    }

    /** Apply the list to a file system and empty it. */
    method Digest(fs0: FileSystem) returns (fs: FileSystem)
      requires Valid()
      modifies this
      ensures fs == Replay(fs0, old(Content()))
      ensures Valid() && Content() == [] && versions == old(versions)
    {
      assert forall i :: 0 <= i < |list| ==> Listed(list[i], inodes, files);
      fs := DigestList(fs0, list, inodes, files);
      list, inodes, files := [], map[], map[];
    }
  }

  ghost predicate Listed(r: Ref, inodes: Inodes, files: Files)
  {
    match r
    case IRef(k) => k in inodes
    case FRef(k) => k in files
    case URef(_) => true
  }

  /** Apply the items that the nodes of a list stand for, in order. */
  method DigestList(fs0: FileSystem, list: seq<Ref>, inodes: Inodes, files: Files) returns (fs: FileSystem)
    requires forall i :: 0 <= i < |list| ==> Listed(list[i], inodes, files)
    ensures fs == Replay(fs0, Items(list, inodes, files))
  {
    ghost var items := Items(list, inodes, files);
    ItemsLength(list, inodes, files);
    fs := fs0;
    var i := 0;
    while i < |list|
      invariant 0 <= i <= |list| == |items| && fs == Replay(fs0, items[..i])
    {
      ItemsIndex(list, inodes, files, i);
      assert items[..i + 1][..i] == items[..i];
      var n := DigestItem(NodeOf(fs, list[i].key.inum), list[i], inodes, files);
      fs := fs[list[i].key.inum := n];
      i := i + 1;
    }
    assert items[..i] == items;
  }

  /** Apply the item that a node of the list stands for. */
  method DigestItem(n0: Node, r: Ref, inodes: Inodes, files: Files) returns (n: Node)
    requires Listed(r, inodes, files)
    ensures n == ReplayItem(n0, ItemAt(r, inodes, files))
  {
    match r {
      case IRef(k) => n := DigestInode(n0, inodes[k].size);
      case FRef(k) => n := DigestWrites(n0, files[k]);
      case URef(_) => n := DigestUnlink(n0);
    }
  }

  method DigestWrites(n0: Node, ws: seq<Chunk>) returns (n: Node)
    ensures n == ReplayWrites(n0, ws)
  {
    n := n0;
    var j := 0;
    while j < |ws|
      invariant 0 <= j <= |ws| && n == ReplayWrites(n0, ws[..j])
    {
      assert ws[..j + 1][..j] == ws[..j];
      n := DigestFile(n, ws[j]);
      j := j + 1;
    }
    assert ws[..j] == ws;
  }

  lemma {:induction false} ItemsLength(list: seq<Ref>, inodes: Inodes, files: Files)
    ensures |Items(list, inodes, files)| == |list|
  {
    if list != [] { ItemsLength(list[1..], inodes, files); }
  }

  lemma {:induction false} ItemsIndex(list: seq<Ref>, inodes: Inodes, files: Files, i: nat)
    requires i < |list|
    ensures i < |Items(list, inodes, files)| && Items(list, inodes, files)[i] == ItemAt(list[i], inodes, files)
  {
    if i > 0 { ItemsIndex(list[1..], inodes, files, i - 1); }
  }

  /** Digest the entries of a log one by one. */
  method DigestEach(fs0: FileSystem, log: seq<Entry>) returns (fs: FileSystem)
    ensures fs == DigestLog(fs0, log)
  {
    fs := fs0;
    var i := 0;
    while i < |log|
      invariant 0 <= i <= |log| && fs == DigestLog(fs0, log[..i])
    {
      assert log[..i + 1][..i] == log[..i];
      var e := log[i];
      fs := fs[e.inum := DigestEntry(NodeOf(fs, e.inum), e)];
      i := i + 1;
    }
    assert log[..i] == log;
  }

  /** Digest a log through the replay list: the file system ends up as if the entries had been
      digested one by one, exactly when every inode's last life is kept; a safe layout is enough for that. */
  method DigestCoalesced(r: ReplayList, fs0: FileSystem, log: seq<Entry>) returns (fs: FileSystem)
    requires r.Valid() && r.Content() == [] && LogFits(fs0, r.versions, log)
    modifies r
    ensures SameFiles(fs, DigestLog(fs0, log)) <==> AllKept(fs0, log)
    ensures AllSafe(fs0, log) ==> SameFiles(fs, DigestLog(fs0, log))
    ensures r.Valid() && r.Content() == []
  {
    r.AddLog(log);
    fs := r.Digest(fs0);
    CoalescingCorrect(fs0, old(r.versions), log);
    if AllSafe(fs0, log) { SafeIsAllKept(fs0, log); }
  }
}
