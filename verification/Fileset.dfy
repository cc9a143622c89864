/** The files of a benchmark fileset: which of three AVL trees each entry is in, and which entries are
    handed out to threads (bench/filebench/fileset.c). */
module Fileset {
  import opened AvlShape
  import opened AvlUpdate
  import opened AvlTree
  import opened AvlSearch

  /** The state flags and open count of an entry. */
  datatype Flags = Flags(free: bool, extant: bool, busy: bool, open: int)

  type Table = map<Node, Flags>

  ghost function Idle(flags: Table): set<Node> { set n | n in flags && !flags[n].busy }

  // ----- the order in which entries are tried -----

  /** How many nodes come before the first one whose key is at least `index`. */
  function Below(o: seq<Node>, index: int): (k: nat)
    ensures k <= |o|
  {
    if o == [] || o[0].key >= index then 0 else 1 + Below(o[1..], index)
  }

  /** The place of the first node whose key is at least `index`, or else of the first node. */
  function StartOf(o: seq<Node>, index: int): (k: nat)
    requires o != []
    ensures k < |o|
  {
    if Below(o, index) == |o| then 0 else Below(o, index)
  }

  /** The nodes in order from place k, and on from the first one after the last. */
  function Rotated(o: seq<Node>, k: nat): seq<Node>
    requires k <= |o|
  {
    o[k..] + o[..k]
  }

  /** The first node of a sequence that is in a set. */
  ghost function FirstIn(q: seq<Node>, s: set<Node>): (n: Node?)
    ensures n == null <==> forall m :: m in q ==> m !in s
    ensures n != null ==> n in q && n in s
  {
    if q == [] then null else if q[0] in s then q[0] else FirstIn(q[1..], s)
  }

  lemma {:induction false} BelowAt(o: seq<Node>, index: int, k: nat)
    requires k <= |o| && (forall i :: 0 <= i < k ==> o[i].key < index) && (k < |o| ==> o[k].key >= index)
    ensures Below(o, index) == k
    decreases k
  {
    if k > 0 {
      BelowAt(o[1..], index, k - 1);
    }
  }

  /** Nothing before the first node in a set is in it. */
  lemma {:induction false} FirstInIs(q: seq<Node>, s: set<Node>, j: nat)
    requires j <= |q| && forall i :: 0 <= i < j ==> q[i] !in s
    ensures j < |q| && q[j] in s ==> FirstIn(q, s) == q[j]
    ensures j == |q| ==> FirstIn(q, s) == null
    decreases j
  {
    if j > 0 {
      FirstInIs(q[1..], s, j - 1);
    }
  }

  lemma {:induction false} KeysTell(o: seq<Node>, i: nat, j: nat)
    requires Increasing(o) && i < |o| && j < |o|
    ensures o[i] == o[j] <==> i == j
  {
  }

  lemma {:induction false} FoundAt(t: Tree, n: Node)
    requires t.Valid() && Increasing(InOrder(t.shape)) && n in t.nodes
    ensures var o := InOrder(t.shape); o != [] && o[StartOf(o, n.key)] == n
  {
    var o := InOrder(t.shape);
    NodesAreInOrder(t.shape, n);
    var k :| 0 <= k < |o| && o[k] == n;
    BelowAt(o, n.key, k);
  }

  lemma {:induction false} MissedAt(t: Tree, c: Ctx, index: int)
    requires t.Valid() && CtxDirs(c) && Plug(c, E) == t.shape && AllBelow(Before(c), index) && AllAbove(After(c), index)
    ensures var o := InOrder(t.shape);
            o != [] ==> o[StartOf(o, index)] == if After(c) == [] then o[0] else After(c)[0]
    ensures InOrder(t.shape) == [] ==> After(c) == []
  {
    var o := InOrder(t.shape);
    assert o == Before(c) + After(c) by { PlaceReady(View(t.nodes), View(t.nodes), c, E, t.root); }
    BelowSplit(o, Before(c), After(c), index);
  }

  lemma {:induction false} BelowSplit(o: seq<Node>, b: seq<Node>, a: seq<Node>, index: int)
    requires o == b + a && AllBelow(b, index) && AllAbove(a, index)
    ensures Below(o, index) == |b| && (a != [] ==> o[|b|] == a[0])
  {
    BelowAt(o, index, |b|);
  }

  /** The first entry at or after an index, or else the first entry of all. */
  method FindEntry(t: Tree, index: int) returns (entry: Node?)
    requires t.Valid() && Increasing(InOrder(t.shape))
    ensures var o := InOrder(t.shape); entry == if o == [] then null else o[StartOf(o, index)]
  {
    var found, parent, which;
    ghost var c;
    found, parent, which, c := Find(t, index);
    if found != null {
      FoundAt(t, found);
      return found;
    }
    MissedAt(t, c, index);
    entry := Nearest(t, parent, which, 1, c);
    if entry != null {
      return entry;
    }
    entry := End(t, 0);
  }

  /** The node after place j of the rotated order. */
  lemma {:induction false} RotatedNext(o: seq<Node>, k: nat, j: nat, m: nat)
    requires Increasing(o) && k < |o| && j < |o| && m < |o| && o[m] == Rotated(o, k)[j]
    ensures var next := if m + 1 < |o| then o[m + 1] else o[0];
            (next == o[k] <==> j + 1 == |o|) && (j + 1 < |o| ==> next == Rotated(o, k)[j + 1])
  {
    var i := if k + j < |o| then k + j else k + j - |o|;
    KeysTell(o, i, m);
    KeysTell(o, if m + 1 < |o| then m + 1 else 0, k);
  }

  /** The entry after another one, and the first entry after the last. */
  method Next(t: Tree, e: Node, ghost k: nat, ghost j: nat) returns (next: Node)
    requires t.Valid() && Increasing(InOrder(t.shape)) && k < |InOrder(t.shape)| && j < |InOrder(t.shape)|
    requires e == Rotated(InOrder(t.shape), k)[j]
    ensures var o := InOrder(t.shape);
            (next == o[k] <==> j + 1 == |o|) && (j + 1 < |o| ==> next == Rotated(o, k)[j + 1])
  {
    assert e in InOrder(t.shape);
    NodesAreInOrder(t.shape, e);
    var after := Walk(t, e, 1);
    if after == null {
      after := End(t, 0);
    }
    RotatedNext(InOrder(t.shape), k, j, IndexOf(t.shape, e));
    next := after;
  }

  /** From an entry on, the first idle one in the order of the tree, round once. */
  method NextIdle(t: Tree, start: Node, flags: Table, ghost k: nat) returns (entry: Node?)
    requires t.Valid() && Increasing(InOrder(t.shape)) && k < |InOrder(t.shape)| && start == InOrder(t.shape)[k]
    requires forall n :: n in InOrder(t.shape) ==> n in flags
    ensures entry == FirstIn(Rotated(InOrder(t.shape), k), Idle(flags))
  {
    ghost var q := Rotated(InOrder(t.shape), k);
    ghost var j := 0;
    entry := start;
    while flags[entry].busy
      invariant j < |q| && entry == q[j] && entry in flags && forall i :: 0 <= i < j ==> q[i] !in Idle(flags)
      decreases |q| - j
    {
      var next := Next(t, entry, k, j);
      if next == start {
        FirstInIs(q, Idle(flags), j + 1);
        return null;
      }
      entry, j := next, j + 1;
    }
    FirstInIs(q, Idle(flags), j);
  }

  // ----- what the threads did -----

  /** A file made, an entry handed out, or an entry given back: with its existence set, if `known`, to
      `extant`, and its open count changed by `opens`. */
  datatype Event =
    | Populated(node: Node)
    | Picked(node: Node)
    | Released(node: Node, known: bool, extant: bool, opens: int)

  /** The flags of an entry that is given back. */
  function Given(f: Flags, known: bool, extant: bool, opens: int): Flags
  {
    if known then Flags(false, extant, false, f.open + opens) else f.(busy := false, open := f.open + opens)
  }

  /** Files are made before any is handed out, only idle entries are handed out, and only entries of the
      fileset are given back. */
  ghost predicate Fits(flags: Table, e: Event)
  {
    match e
    case Populated(n) => n !in flags && n.key == |flags| && Idle(flags) == flags.Keys
    case Picked(n) => n in flags && !flags[n].busy
    case Released(n, _, _, _) => n in flags
  }

  ghost function Then(flags: Table, e: Event): Table
    requires Fits(flags, e)
  {
    match e
    case Populated(n) => flags[n := Flags(true, false, false, 0)]
    case Picked(n) => flags[n := flags[n].(busy := true)]
    case Released(n, known, extant, opens) => flags[n := Given(flags[n], known, extant, opens)]
  }

  ghost predicate Legal(h: seq<Event>)
    decreases |h|, 0
  {
    h == [] || (Legal(h[..|h| - 1]) && Fits(TableOf(h[..|h| - 1]), h[|h| - 1]))
  }

  /** The flags of all entries after a run. */
  ghost function TableOf(h: seq<Event>): Table
    requires Legal(h)
    decreases |h|, 1
  {
    if h == [] then map[] else Then(TableOf(h[..|h| - 1]), h[|h| - 1])
  }

  /** The change of the idle count. */
  ghost function IdleStep(flags: Table, e: Event): int
    requires Fits(flags, e)
  {
    if e.Populated? then 1 else if e.Picked? then -1 else if flags[e.node].busy then 1 else 0
  }

  ghost function IdleCount(h: seq<Event>): int
    requires Legal(h)
  {
    if h == [] then 0 else IdleCount(h[..|h| - 1]) + IdleStep(TableOf(h[..|h| - 1]), h[|h| - 1])
  }

  lemma {:induction false} LegalStep(h: seq<Event>, e: Event)
    requires Legal(h) && Fits(TableOf(h), e)
    ensures Legal(h + [e]) && TableOf(h + [e]) == Then(TableOf(h), e)
            && IdleCount(h + [e]) == IdleCount(h) + IdleStep(TableOf(h), e)
  {
    assert (h + [e])[..|h|] == h;
  }

  lemma {:induction false} IdleThen(flags: Table, e: Event)
    requires Fits(flags, e)
    ensures |Idle(Then(flags, e))| == |Idle(flags)| + IdleStep(flags, e)
  {
    var n := e.node;
    if e.Populated? {
      assert Idle(Then(flags, e)) == Idle(flags) + {n};
    } else if e.Picked? {
      assert Idle(Then(flags, e)) == Idle(flags) - {n};
    } else {
      assert Idle(Then(flags, e)) == Idle(flags) + {n};
    }
  }

  /** The idle count is the number of entries that are not handed out. */
  lemma {:induction false} IdleIs(h: seq<Event>)
    requires Legal(h)
    ensures IdleCount(h) == |Idle(TableOf(h))|
    decreases |h|
  {
    if h != [] {
      IdleIs(h[..|h| - 1]);
      IdleThen(TableOf(h[..|h| - 1]), h[|h| - 1]);
    }
  }

  ghost predicate KeysApart(flags: Table)
  {
    (forall n :: n in flags ==> 0 <= n.key < |flags|) && forall m, n :: m in flags && n in flags && m.key == n.key ==> m == n
  }

  lemma {:induction false} KeysThen(flags: Table, e: Event)
    requires Fits(flags, e) && KeysApart(flags)
    ensures KeysApart(Then(flags, e))
  {
    if e.Populated? {
      assert Then(flags, e).Keys == flags.Keys + {e.node};
    } else {
      assert Then(flags, e).Keys == flags.Keys;
    }
  }

  /** No two entries of a fileset have the same index. */
  lemma {:induction false} KeysAreApart(h: seq<Event>)
    requires Legal(h)
    ensures KeysApart(TableOf(h))
    decreases |h|
  {
    if h != [] {
      KeysAreApart(h[..|h| - 1]);
      KeysThen(TableOf(h[..|h| - 1]), h[|h| - 1]);
    }
  }

  /** With all entries idle, their count is an index that no entry has. */
  lemma {:induction false} NextIndex(h: seq<Event>)
    requires Legal(h) && forall m :: m in TableOf(h) ==> !TableOf(h)[m].busy
    ensures Idle(TableOf(h)) == TableOf(h).Keys && IdleCount(h) == |TableOf(h)|
    ensures forall m :: m in TableOf(h) ==> m.key != IdleCount(h)
  {
    IdleIs(h);
    KeysAreApart(h);
    assert Idle(TableOf(h)) == TableOf(h).Keys;
  }

  /** An entry that was picked and is idle now was given back in between. */
  lemma {:induction false} ReleasedSince(h: seq<Event>, n: Node, i: nat)
    requires Legal(h) && i < |h| && h[i] == Picked(n) && n in TableOf(h) && !TableOf(h)[n].busy
    ensures exists k :: i < k < |h| && h[k].Released? && h[k].node == n
    decreases |h|
  {
    var g, e := h[..|h| - 1], h[|h| - 1];
    if e.Released? && e.node == n {
      assert h[|h| - 1].node == n;
    } else if i < |g| {
      assert g[i] == h[i];
      PickedIsIn(g, n, i);
      ReleasedSince(g, n, i);
      var k :| i < k < |g| && g[k].Released? && g[k].node == n;
      assert h[k] == g[k];
    }
  }

  lemma {:induction false} PickedIsIn(h: seq<Event>, n: Node, i: nat)
    requires Legal(h) && i < |h| && h[i] == Picked(n)
    ensures n in TableOf(h)
    decreases |h|
  {
    if i < |h| - 1 {
      PickedIsIn(h[..|h| - 1], n, i);
    }
  }

  /** No entry is handed out twice without being given back in between. */
  lemma {:induction false} NeverTwice(h: seq<Event>, n: Node, i: nat, j: nat)
    requires Legal(h) && i < j < |h| && h[i] == Picked(n) && h[j] == Picked(n)
    ensures exists k :: i < k < j && h[k].Released? && h[k].node == n
    decreases |h|
  {
    var g := h[..|h| - 1];
    assert g[i] == h[i];
    if j == |h| - 1 {
      ReleasedSince(g, n, i);
      var k :| i < k < |g| && g[k].Released? && g[k].node == n;
      assert h[k] == g[k];
    } else {
      assert g[j] == h[j];
      NeverTwice(g, n, i, j);
      var k :| i < k < j && g[k].Released? && g[k].node == n;
      assert h[k] == g[k];
    }
  }

  // ----- the three trees of a fileset -----

  const FREE := 0
  const EXIST := 1
  const NOEX := 2

  /** The tree that an entry belongs to. */
  function Home(f: Flags): (i: nat)
    ensures i < 3
  {
    if f.free then FREE else if f.extant then EXIST else NOEX
  }

  ghost function Members(flags: Table, i: nat): set<Node> { set n | n in flags && Home(flags[n]) == i }

  lemma {:induction false} MembersFree(flags: Table, n: Node, f: Flags)
    requires n !in flags && f.free && forall m :: m in flags ==> m.key != n.key
    ensures Members(flags[n := f], FREE) == Members(flags, FREE) + {n}
            && Members(flags[n := f], EXIST) == Members(flags, EXIST)
    ensures Members(flags[n := f], NOEX) == Members(flags, NOEX)
    ensures Members(flags, FREE) !! Members(flags, EXIST) && Members(flags, FREE) !! Members(flags, NOEX)
    ensures n !in Members(flags, FREE) + Members(flags, EXIST) + Members(flags, NOEX)
    ensures forall m :: m in Members(flags, FREE) ==> m.key != n.key
  {
  }

  lemma {:induction false} HomeMoves(flags: Table, n: Node, f: Flags, i: nat, j: nat, k: nat)
    requires n in flags && Home(flags[n]) == i && Home(f) == j && i != j && i != k && j != k && KeysApart(flags)
    ensures forall m :: m in Members(flags, j) ==> m.key != n.key
    ensures Members(flags[n := f], i) == Members(flags, i) - {n} && Members(flags[n := f], j) == Members(flags, j) + {n}
    ensures Members(flags[n := f], k) == Members(flags, k) && n in Members(flags, i)
    ensures Members(flags, i) !! Members(flags, j) && Members(flags, i) !! Members(flags, k)
            && Members(flags, j) !! Members(flags, k)
  {
  }

  lemma {:induction false} SameHome(flags: Table, n: Node, f: Flags)
    requires n in flags && Home(f) == Home(flags[n])
    ensures Members(flags[n := f], FREE) == Members(flags, FREE)
    ensures Members(flags[n := f], EXIST) == Members(flags, EXIST)
    ensures Members(flags[n := f], NOEX) == Members(flags, NOEX)
  {
  }

  /** A tree in order, with given nodes. */
  ghost predicate Holds(t: Tree, ns: set<Node>)
    reads t, t.nodes
  {
    t.Valid() && Increasing(InOrder(t.shape)) && t.nodes == ns
  }

  lemma {:induction false} CutIncreases(o: seq<Node>, k: nat)
    requires Increasing(o) && k < |o|
    ensures Increasing(o[..k] + o[k + 1..])
  {
  }

  method TakeOut(t: Tree, n: Node)
    requires Holds(t, t.nodes) && n in t.nodes
    modifies t, t.nodes
    ensures Holds(t, old(t.nodes) - {n})
  {
    ghost var o, k := InOrder(t.shape), IndexOf(t.shape, n);
    RemoveNode(t, n);
    CutIncreases(o, k);
  }

  method PutIn(t: Tree, n: Node)
    requires Holds(t, t.nodes) && n !in t.nodes && forall m :: m in t.nodes ==> m.key != n.key
    modifies t, n, t.nodes
    ensures Holds(t, old(t.nodes) + {n})
  {
    var added;
    ghost var k;
    added, k := Add(t, n);
  }

  method PutBeside(t: Tree, u: Tree, v: Tree, n: Node, ghost a: set<Node>, ghost b: set<Node>, ghost c: set<Node>)
    requires t != u && t != v && a !! b && a !! c && n !in a + b + c
    requires Holds(t, a) && Holds(u, b) && Holds(v, c) && forall m :: m in a ==> m.key != n.key
    modifies t, n, t.nodes
    ensures Holds(t, a + {n}) && Holds(u, b) && Holds(v, c)
  {
    ghost var x, y := View(u.nodes), View(v.nodes);
    PutIn(t, n);
    assert View(u.nodes) == x && View(v.nodes) == y;
  }

  /** Move an entry from one tree to another. */
  method MoveEntry(src: Tree, dst: Tree, n: Node)
    requires src != dst && Holds(src, src.nodes) && Holds(dst, dst.nodes)
    requires src.nodes !! dst.nodes && n in src.nodes && forall m :: m in dst.nodes ==> m.key != n.key
    modifies src, dst, src.nodes, dst.nodes
    ensures Holds(src, old(src.nodes) - {n}) && Holds(dst, old(dst.nodes) + {n})
  {
    TakeOut(src, n);
    PutIn(dst, n);
  }

  method MoveBeside(src: Tree, dst: Tree, rest: Tree, n: Node, ghost a: set<Node>, ghost b: set<Node>,
          ghost c: set<Node>)
    requires src != dst && src != rest && dst != rest && a !! b && a !! c && b !! c
    requires Holds(src, a) && Holds(dst, b) && Holds(rest, c) && n in a && forall m :: m in b ==> m.key != n.key
    modifies src, dst, src.nodes, dst.nodes
    ensures Holds(src, a - {n}) && Holds(dst, b + {n}) && Holds(rest, c)
  {
    ghost var v := View(rest.nodes);
    MoveEntry(src, dst, n);
    assert View(rest.nodes) == v;
  }

  /** Move an entry from tree i to tree j, as its new flags f ask; the tree k stays. */
  method Rehome(src: Tree, i: nat, dst: Tree, j: nat, rest: Tree, k: nat, n: Node, ghost table: Table, ghost f: Flags)
    requires src != dst && src != rest && dst != rest && i != j && i != k && j != k && KeysApart(table)
    requires Holds(src, Members(table, i)) && Holds(dst, Members(table, j)) && Holds(rest, Members(table, k))
    requires n in table && Home(table[n]) == i && Home(f) == j
    modifies src, dst, src.nodes, dst.nodes
    ensures Holds(src, Members(table[n := f], i)) && Holds(dst, Members(table[n := f], j))
            && Holds(rest, Members(table[n := f], k))
  {
    HomeMoves(table, n, f, i, j, k);
    MoveBeside(src, dst, rest, n, Members(table, i), Members(table, j), Members(table, k));
  }

  /** The flags of an entry that is given back, and the change of the idle count. */
  method Renew(before: Flags, known: bool, extant: bool, opens: int) returns (f: Flags, step: int)
    ensures f == Given(before, known, extant, opens) && step == if before.busy then 1 else 0
  {
    f, step := before, 0;
    if known {
      if extant {
        if f.free {
          f := f.(extant := true, free := false);
        } else if !f.extant {
          f := f.(extant := true);
        }
      } else {
        if f.free {
          f := f.(extant := false, free := false);
        } else if f.extant {
          f := f.(extant := false);
        }
      }
    }
    f := f.(open := f.open + opens);
    if f.busy {
      f := f.(busy := false);
      step := 1;
    }
  }

  /** Entry n is idle, its open count is changed, and it exists or not as said, if anything was said; no
      other entry changes. */
  ghost predicate GivenBack(flags: Table, n: Node, known: bool, extant: bool, opens: int, flags': Table)
    requires n in flags
  {
    && flags'.Keys == flags.Keys && (forall m :: m in flags && m != n ==> flags'[m] == flags[m])
    && !flags'[n].busy && flags'[n].open == flags[n].open + opens
    && (known ==> !flags'[n].free && flags'[n].extant == extant)
    && (!known ==> flags'[n].free == flags[n].free && flags'[n].extant == flags[n].extant)
  }

  lemma {:induction false} GivenIsBack(flags: Table, n: Node, known: bool, extant: bool, opens: int)
    requires n in flags
    ensures GivenBack(flags, n, known, extant, opens, flags[n := Given(flags[n], known, extant, opens)])
  {
    assert flags[n := Given(flags[n], known, extant, opens)].Keys == flags.Keys;
  }

  /** A request for an entry: a free one, or else one that does not exist, or else one that exists; by
      index, or else in rotation. */
  datatype Ask = Ask(unique: bool, noexist: bool, byIndex: bool, tid: nat, index: nat, random: nat)

  /** The places where the next picks in rotation start, for existing entries one for each thread. */
  datatype Rotors = Rotors(noex: int, exist: seq<int>)

  /** The index from which a search starts. */
  function From(r: Rotors, ask: Ask): int
    requires ask.tid < |r.exist|
  {
    if ask.unique then (if ask.index > 0 then ask.index else ask.random)
    else if ask.byIndex then ask.index
    else if ask.noexist then r.noex
    else r.exist[ask.tid]
  }

  /** The rotors after a search that starts at the entry with a key. */
  function Turned(r: Rotors, ask: Ask, key: int): Rotors
    requires ask.tid < |r.exist|
  {
    if ask.unique || ask.byIndex then r
    else if ask.noexist then r.(noex := key + 1)
    else r.(exist := r.exist[ask.tid := key + 1])
  }

  ghost predicate Outcome(o: seq<Node>, idle: set<Node>, ask: Ask, r0: Rotors, entry: Node?, r: Rotors)
    requires ask.tid < |r0.exist|
  {
    if o == [] then entry == null && r == r0
    else
      var k := StartOf(o, From(r0, ask));
      entry == FirstIn(Rotated(o, k), idle) && r == Turned(r0, ask, o[k].key)
  }

  // ----- what a pick means -----

  /** The entries that a request asks for: free ones, or else ones that do or do not exist. */
  predicate Wanted(f: Flags, ask: Ask) { if ask.unique then f.free else !f.free && f.extant != ask.noexist }

  ghost function AllWanted(flags: Table, ask: Ask): set<Node> { set n | n in flags && Wanted(flags[n], ask) }

  ghost function IdleWanted(flags: Table, ask: Ask): set<Node>
  {
    set n | n in flags && Wanted(flags[n], ask) && !flags[n].busy
  }

  /** Of the entries ns, n has the smallest key at or after the index, or else the smallest key of all. */
  ghost predicate FirstAround(ns: set<Node>, index: int, n: Node)
  {
    && n in ns
    && forall m :: m in ns ==> if n.key >= index then m.key >= index ==> n.key <= m.key else m.key < index && n.key <= m.key
  }

  /** An idle entry of those asked for is handed out, the first one at or after the index asked for, or
      none if all of them are busy. A pick in rotation sets its own rotor, and no other, behind the first
      entry at or after the old rotor, be it busy or idle. */
  ghost predicate Chosen(flags: Table, ask: Ask, r0: Rotors, entry: Node?, r: Rotors)
    requires ask.tid < |r0.exist|
  {
    var start := if ask.unique && ask.index == 0 then ask.random
                 else if ask.unique || ask.byIndex then ask.index
                 else if ask.noexist then r0.noex else r0.exist[ask.tid];
    && (entry == null ==> forall n :: n in flags && Wanted(flags[n], ask) ==> flags[n].busy)
    && (entry != null ==> FirstAround(IdleWanted(flags, ask), start, entry))
    && (ask.unique || ask.byIndex || AllWanted(flags, ask) == {} ==> r == r0)
    && (!ask.unique && !ask.byIndex && AllWanted(flags, ask) != {} ==>
          exists n :: n in flags && FirstAround(AllWanted(flags, ask), start, n)
                      && r == if ask.noexist then r0.(noex := n.key + 1) else r0.(exist := r0.exist[ask.tid := n.key + 1]))
  }

  lemma {:induction false} MembersWanted(flags: Table, ask: Ask)
    ensures Members(flags, if ask.unique then FREE else if ask.noexist then NOEX else EXIST) == AllWanted(flags, ask)
  {
    forall n | n in flags
      ensures Wanted(flags[n], ask) <==> Home(flags[n]) == if ask.unique then FREE else if ask.noexist then NOEX else EXIST
    {
    }
  }

  lemma {:induction false} InOrderSet(s: Shape)
    ensures (set n | n in InOrder(s)) == Nodes(s)
  {
    if s.T? {
      InOrderSet(s.l);
      InOrderSet(s.r);
    }
  }

  lemma {:induction false} BelowIs(o: seq<Node>, index: int)
    ensures forall i :: 0 <= i < Below(o, index) ==> o[i].key < index
    ensures Below(o, index) < |o| ==> o[Below(o, index)].key >= index
  {
    if o != [] && o[0].key < index { BelowIs(o[1..], index); }
  }

  lemma {:induction false} FirstInAt(q: seq<Node>, s: set<Node>) returns (j: nat)
    requires FirstIn(q, s) != null
    ensures j < |q| && q[j] == FirstIn(q, s) && forall i :: 0 <= i < j ==> q[i] !in s
  {
    j := 0;
    while q[j] !in s
      invariant j < |q| && forall i :: 0 <= i < j ==> q[i] !in s
      decreases |q| - j
    {
      if j + 1 == |q| { FirstInIs(q, s, |q|); }
      j := j + 1;
    }
    FirstInIs(q, s, j);
  }

  /** Going round from the first node at or after an index. */
  lemma {:induction false} FirstIsAround(o: seq<Node>, s: set<Node>, index: int, ns: set<Node>)
    requires Increasing(o) && o != [] && FirstIn(Rotated(o, StartOf(o, index)), s) != null
    requires forall n :: n in ns <==> n in o && n in s
    ensures FirstAround(ns, index, FirstIn(Rotated(o, StartOf(o, index)), s))
  {
    var k := StartOf(o, index);
    var q := Rotated(o, k);
    var n: Node := FirstIn(q, s);
    var j := FirstInAt(q, s);
    BelowIs(o, index);
    assert n in o by { assert o == o[..k] + o[k..]; }
    forall m | m in ns
      ensures if n.key >= index then m.key >= index ==> n.key <= m.key else m.key < index && n.key <= m.key
    {
      var a :| 0 <= a < |o| && o[a] == m;
      RotatedKeys(o, k, a, j, index, s);
    }
  }

  lemma {:induction false} RotatedKeys(o: seq<Node>, k: nat, a: nat, j: nat, index: int, s: set<Node>)
    requires Increasing(o) && o != [] && k == StartOf(o, index) && a < |o| && j < |o| && o[a] in s
    requires forall i :: 0 <= i < j ==> Rotated(o, k)[i] !in s
    ensures var n, m := Rotated(o, k)[j], o[a];
            if n.key >= index then m.key >= index ==> n.key <= m.key else m.key < index && n.key <= m.key
  {
    BelowIs(o, index);
    var q := Rotated(o, k);
    var i := if a >= k then a - k else a + (|o| - k);
    assert q[i] == o[a];
    assert i >= j;
    var c := if j < |o| - k then k + j else j - (|o| - k);
    assert q[j] == o[c];
  }

  lemma {:induction false} InRotated(o: seq<Node>, k: nat, n: Node)
    requires k <= |o|
    ensures n in Rotated(o, k) <==> n in o
  {
    assert o == o[..k] + o[k..];
  }

  /** What the search of the tree of wanted entries means for the flags. */
  lemma {:induction false} EntryIs(o: seq<Node>, flags: Table, ask: Ask, index: int, entry: Node?)
    requires Increasing(o) && o != [] && (set n | n in o) == AllWanted(flags, ask)
    requires entry == FirstIn(Rotated(o, StartOf(o, index)), Idle(flags))
    ensures entry == null ==> forall n :: n in flags && Wanted(flags[n], ask) ==> flags[n].busy
    ensures entry != null ==> FirstAround(IdleWanted(flags, ask), index, entry)
  {
    var k := StartOf(o, index);
    if entry == null {
      forall n | n in flags && Wanted(flags[n], ask) ensures flags[n].busy {
        assert n in AllWanted(flags, ask) && n in o;
        InRotated(o, k, n);
        assert n !in Idle(flags);
      }
    } else {
      forall n ensures n in IdleWanted(flags, ask) <==> n in o && n in Idle(flags) {
        assert n in o <==> n in AllWanted(flags, ask);
      }
      FirstIsAround(o, Idle(flags), index, IdleWanted(flags, ask));
    }
  }

  lemma {:induction false} StartIs(o: seq<Node>, ns: set<Node>, index: int)
    requires Increasing(o) && o != [] && (set n | n in o) == ns
    ensures FirstAround(ns, index, o[StartOf(o, index)])
  {
    var k := StartOf(o, index);
    var q := Rotated(o, k);
    assert q[0] == o[k] && o[k] in ns;
    FirstInIs(q, ns, 0);
    FirstIsAround(o, ns, index, ns);
  }

  lemma {:induction false} ChosenIs(o: seq<Node>, flags: Table, ask: Ask, r0: Rotors, entry: Node?, r: Rotors)
    requires ask.tid < |r0.exist| && Increasing(o) && Outcome(o, Idle(flags), ask, r0, entry, r)
    requires (set n | n in o) == AllWanted(flags, ask)
    ensures Chosen(flags, ask, r0, entry, r)
  {
    var all := AllWanted(flags, ask);
    assert all == {} ==> forall n :: n in flags ==> !Wanted(flags[n], ask) by {
      assert forall n :: n in flags && Wanted(flags[n], ask) ==> n in all;
    }
    if o == [] {
      assert all == {};
    } else {
      var index := From(r0, ask);
      EntryIs(o, flags, ask, index, entry);
      StartIs(o, all, index);
      assert o[StartOf(o, index)] in all;
    }
  }

  /** The rotor that a pick in rotation uses. */
  function Rotor(r: Rotors, ask: Ask): int
    requires ask.tid < |r.exist|
  {
    if ask.noexist then r.noex else r.exist[ask.tid]
  }

  /** After a pick in rotation the rotor is right behind the entry handed out exactly when the search
      did not have to pass over a busy entry. */
  lemma {:induction false} RotorExact(o: seq<Node>, idle: set<Node>, ask: Ask, r0: Rotors, entry: Node, r: Rotors)
    requires Increasing(o) && o != [] && ask.tid < |r0.exist| && !ask.unique && !ask.byIndex
    requires Outcome(o, idle, ask, r0, entry, r)
    ensures |r.exist| == |r0.exist| && (Rotor(r, ask) == entry.key + 1 <==> o[StartOf(o, From(r0, ask))] in idle)
  {
    var k := StartOf(o, From(r0, ask));
    assert Rotated(o, k)[0] == o[k];
    if o[k] !in idle { OtherKey(o, k, entry); }
  }

  lemma {:induction false} OtherKey(o: seq<Node>, k: nat, n: Node)
    requires Increasing(o) && k < |o| && n in Rotated(o, k) && n != o[k]
    ensures n.key != o[k].key
  {
    assert o == o[..k] + o[k..];
    var j :| 0 <= j < |o| && o[j] == n;
  }

  /** The first of two entries is busy: the second one is handed out, and the next search starts with
      it again. */
  lemma {:induction false} RotorStays(a: Node, b: Node)
    requires a.key == 0 && b.key == 1
    ensures var o, ask, r := [a, b], Ask(false, false, false, 0, 0, 0), Rotors(0, [1]);
            && Increasing(o) && Outcome(o, {b}, ask, Rotors(0, [0]), b, r) && o[StartOf(o, From(r, ask))] == b
  {
    var o := [a, b];
    BelowAt(o, 0, 0);
    BelowAt(o, 1, 1);
    assert Rotated(o, 0) == o && o[1..] == [b];
    assert FirstIn(o, {b}) == FirstIn([b], {b}) == b;
    assert [0][0 := 1] == [1];
  }

  class Fileset {
    const free: Tree
    const exist: Tree
    const noex: Tree
    var flags: Table
    var idle: int
    var rotors: Rotors
    ghost var history: seq<Event>

    /** Each entry is in the one tree that its flags say. */
    ghost predicate Placed(table: Table)
      reads free, exist, noex, free.nodes, exist.nodes, noex.nodes
    {
      && free != exist && free != noex && exist != noex
      && Holds(free, Members(table, FREE)) && Holds(exist, Members(table, EXIST)) && Holds(noex, Members(table, NOEX))
    }

    twostate lemma {:induction false} PlacedStill(table: Table)
      requires old(Placed(table)) && unchanged(free) && unchanged(exist) && unchanged(noex)
      requires unchanged(free.nodes) && unchanged(exist.nodes) && unchanged(noex.nodes)
      ensures Placed(table)
    {
      assert View(free.nodes) == old(View(free.nodes));
      assert View(exist.nodes) == old(View(exist.nodes));
      assert View(noex.nodes) == old(View(noex.nodes));
    }

    /** The flags and the idle count are what the run so far made them, and each entry is in its tree. */
    ghost predicate Valid()
      reads this, free, exist, noex, free.nodes, exist.nodes, noex.nodes
    {
      Legal(history) && flags == TableOf(history) && idle == IdleCount(history) && Placed(flags)
    }

    constructor (threads: nat)
      ensures Valid() && history == [] && |rotors.exist| == threads
    {
      free := new Tree();
      exist := new Tree();
      noex := new Tree();
      flags, idle, rotors, history := map[], 0, Rotors(0, seq(threads, i => 0)), [];
    }

    method AddFree(n: Node, ghost table: Table, ghost f: Flags)
      requires Placed(table) && n !in table && f.free && forall m :: m in table ==> m.key != n.key
      modifies free, n, free.nodes
      ensures Placed(table[n := f])
    {
      MembersFree(table, n, f);
      PutBeside(free, exist, noex, n, Members(table, FREE), Members(table, EXIST), Members(table, NOEX));
    }

    /** Take note of a step whose effect on the trees is done. */
    method Note(ghost e: Event, table: Table, count: int)
      requires Legal(history) && Fits(TableOf(history), e) && Placed(table)
      requires table == Then(TableOf(history), e) && count == IdleCount(history) + IdleStep(TableOf(history), e)
      modifies this`flags, this`idle, this`history
      ensures Valid() && flags == table && idle == count && history == old(history) + [e]
    {
      LegalStep(history, e);
      flags, idle, history := table, count, history + [e];
      PlacedStill(table);
    }

    /** A new file, free and idle, under the next index. */
    method PopulateFile() returns (n: Node)
      requires Valid() && forall m :: m in flags ==> !flags[m].busy
      modifies this`flags, this`idle, this`history, free, free.nodes
      ensures Valid() && fresh(n) && n.key == old(idle) && history == old(history) + [Populated(n)]
      ensures flags == old(flags)[n := Flags(true, false, false, 0)] && idle == old(idle) + 1
    {
      NextIndex(history);
      n := new Node(idle);
      var f := Flags(true, false, false, 0);
      AddFree(n, flags, f);
      Note(Populated(n), flags[n := f], idle + 1);
    }

    /** Put an entry that is to exist, or not to exist, into its tree. */
    method SetExists(n: Node, extant: bool, ghost f: Flags)
      requires Placed(flags) && KeysApart(flags) && n in flags && !f.free && f.extant == extant
      modifies free, exist, noex, free.nodes, exist.nodes, noex.nodes
      ensures Placed(flags[n := f])
    {
      if extant {
        if flags[n].free {
          Rehome(free, FREE, exist, EXIST, noex, NOEX, n, flags, f);
        } else if !flags[n].extant {
          Rehome(noex, NOEX, exist, EXIST, free, FREE, n, flags, f);
        } else {
          SameHome(flags, n, f);
        }
      } else {
        if flags[n].free {
          Rehome(free, FREE, noex, NOEX, exist, EXIST, n, flags, f);
        } else if flags[n].extant {
          Rehome(exist, EXIST, noex, NOEX, free, FREE, n, flags, f);
        } else {
          SameHome(flags, n, f);
        }
      }
    }

    method SetPlace(n: Node, known: bool, extant: bool, ghost opens: int, ghost f: Flags)
      requires Valid() && n in flags && f == Given(flags[n], known, extant, opens)
      modifies free, exist, noex, free.nodes, exist.nodes, noex.nodes
      ensures Placed(flags[n := f])
    {
      assert KeysApart(flags) by { KeysAreApart(history); }
      if known {
        SetExists(n, extant, f);
      } else {
        SameHome(flags, n, f);
      }
    }

    method Release(n: Node, known: bool, extant: bool, opens: int)
      requires Valid() && n in flags
      modifies this`flags, this`idle, this`history, free, exist, noex, free.nodes, exist.nodes, noex.nodes
      ensures Valid() && history == old(history) + [Released(n, known, extant, opens)]
      ensures flags == old(flags)[n := Given(old(flags)[n], known, extant, opens)]
      ensures idle == old(idle) + if old(flags)[n].busy then 1 else 0
    {
      var f, step := Renew(flags[n], known, extant, opens);
      SetPlace(n, known, extant, opens, f);
      Note(Released(n, known, extant, opens), flags[n := f], idle + step);
    }

    /** Give an entry back: set whether it exists, if `known`, and change its open count. */
    method Unbusy(n: Node?, known: bool, extant: bool, opens: int)
      requires Valid() && (n != null ==> n in flags)
      modifies this`flags, this`idle, this`history, free, exist, noex, free.nodes, exist.nodes, noex.nodes
      ensures Valid() && history == if n == null then old(history) else old(history) + [Released(n, known, extant, opens)]
      ensures n == null ==> flags == old(flags) && idle == old(idle)
      ensures n != null ==> GivenBack(old(flags), n, known, extant, opens, flags)
      ensures n != null ==> idle == old(idle) + if old(flags)[n].busy then 1 else 0
    {
      if n != null {
        GivenIsBack(flags, n, known, extant, opens);
        Release(n, known, extant, opens);
      }
    }

    function Source(ask: Ask): Tree { if ask.unique then free else if ask.noexist then noex else exist }

    /** The entry from which the search starts; a pick in rotation moves its rotor past it. */
    method StartEntry(t: Tree, ask: Ask) returns (start: Node)
      requires t.Valid() && Increasing(InOrder(t.shape)) && InOrder(t.shape) != [] && ask.tid < |rotors.exist|
      modifies this`rotors
      ensures var o := InOrder(t.shape); start == o[StartOf(o, From(old(rotors), ask))] && rotors == Turned(old(rotors), ask, start.key)
    {
      var entry: Node?;
      if ask.unique {
        entry := FindEntry(t, if ask.index > 0 then ask.index else ask.random);
      } else if ask.byIndex {
        entry := FindEntry(t, ask.index);
      } else if ask.noexist {
        entry := FindEntry(t, rotors.noex);
        rotors := rotors.(noex := entry.key + 1);
      } else {
        entry := FindEntry(t, rotors.exist[ask.tid]);
        rotors := rotors.(exist := rotors.exist[ask.tid := entry.key + 1]);
      }
      start := entry;
    }

    /** The idle entry that a search of a tree ends with. */
    method Choose(t: Tree, ask: Ask) returns (entry: Node?)
      requires t.Valid() && Increasing(InOrder(t.shape)) && InOrder(t.shape) != [] && ask.tid < |rotors.exist|
      requires forall n :: n in t.nodes ==> n in flags
      modifies this`rotors
      ensures Outcome(InOrder(t.shape), Idle(flags), ask, old(rotors), entry, rotors)
    {
      ghost var o := InOrder(t.shape);
      ghost var k := StartOf(o, From(rotors, ask));
      var start := StartEntry(t, ask);
      forall n | n in o ensures n in flags { NodesAreInOrder(t.shape, n); }
      entry := NextIdle(t, start, flags, k);
    }

    method MarkBusy(entry: Node)
      requires Valid() && entry in Idle(flags)
      modifies this`flags, this`idle, this`history
      ensures Valid() && history == old(history) + [Picked(entry)]
      ensures flags == old(flags)[entry := old(flags)[entry].(busy := true)] && idle == old(idle) - 1
    {
      var f := flags[entry].(busy := true);
      SameHome(flags, entry, f);
      Note(Picked(entry), flags[entry := f], idle - 1);
    }

    lemma {:induction false} TreeIsWanted(ask: Ask)
      requires Valid()
      ensures Increasing(InOrder(Source(ask).shape))
      ensures (set n | n in InOrder(Source(ask).shape)) == AllWanted(flags, ask)
    {
      MembersWanted(flags, ask);
      InOrderSet(Source(ask).shape);
    }

    /** The entry that a request gets; the tree asked for is searched for an idle one. */
    method Search(ask: Ask) returns (entry: Node?)
      requires Valid() && ask.tid < |rotors.exist|
      modifies this`rotors
      ensures Outcome(InOrder(Source(ask).shape), Idle(flags), ask, old(rotors), entry, rotors)
      ensures Chosen(flags, ask, old(rotors), entry, rotors) && (entry != null ==> entry in Idle(flags))
    {
      ghost var o := InOrder(Source(ask).shape);
      TreeIsWanted(ask);
      entry := null;
      if flags != map[] && Source(ask).numNodes != 0 {
        entry := Choose(Source(ask), ask);
      }
      ChosenIs(o, flags, ask, old(rotors), entry, rotors);
    }

    /** Hand out the cyclically first idle entry of the tree asked for, at or after the index asked for;
        with none there, none is handed out. */
    method Pick(ask: Ask) returns (entry: Node?)
      requires Valid() && ask.tid < |rotors.exist| && (flags != map[] ==> idle > 0)
      modifies this
      ensures Valid() && history == if entry == null then old(history) else old(history) + [Picked(entry)]
      ensures Outcome(InOrder(Source(ask).shape), Idle(old(flags)), ask, old(rotors), entry, rotors)
      ensures Chosen(old(flags), ask, old(rotors), entry, rotors)
      ensures entry == null ==> flags == old(flags) && idle == old(idle)
      ensures entry != null ==>
                entry in old(flags) && flags == old(flags)[entry := old(flags)[entry].(busy := true)] && idle == old(idle) - 1
    {
      entry := Search(ask);
      PlacedStill(flags);
      if entry != null {
        MarkBusy(entry);
      }
    }
  }

  /** A pick fails only when every entry of the tree is handed out. */
  lemma {:induction false} FailsWhenAllBusy(t: Tree, k: nat, flags: Table)
    requires t.Valid() && k <= |InOrder(t.shape)| && forall n :: n in t.nodes ==> n in flags
    ensures FirstIn(Rotated(InOrder(t.shape), k), Idle(flags)) == null <==> forall n :: n in t.nodes ==> flags[n].busy
  {
    var o := InOrder(t.shape);
    forall n ensures n in Rotated(o, k) <==> n in t.nodes {
      NodesAreInOrder(t.shape, n);
      assert o == o[..k] + o[k..];
    }
  }
}
