/** Extents and sorted runs of extents: the contents of one leaf block, or of a whole
    extent tree read from left to right (kernfs/extents.h, kernfs/extents.c). */
module ExtentSeq {

  const EXT_MAX_BLOCKS: nat := 0xffff_ffff
  const EXT_INIT_MAX_LEN: nat := 0x8000
  const EXT_UNWRITTEN_MAX_LEN: nat := EXT_INIT_MAX_LEN - 1

  /** One extent: `len` logical blocks from `lblk`, stored in `len` physical blocks from `pblk`. */
  datatype Extent = Extent(lblk: nat, len: nat, pblk: nat, unwritten: bool) {
    function End(): nat { lblk + len }

    predicate Valid() {
      && 1 <= len <= (if unwritten then EXT_UNWRITTEN_MAX_LEN else EXT_INIT_MAX_LEN)
      && End() <= EXT_MAX_BLOCKS
    }

    predicate Covers(b: nat) { lblk <= b < End() }

    function Target(b: nat): Target
      requires Covers(b)
    {
      To(pblk + (b - lblk), unwritten)
    }
  }

  /** What a logical block is mapped to: a hole, or a physical block with its unwritten mark. */
  datatype Target = Hole | To(pblk: nat, unwritten: bool)

  /** The mapping that a run of extents stands for. */
  function Lookup(s: seq<Extent>, b: nat): Target
  {
    if s == [] then Hole
    else if s[0].Covers(b) then s[0].Target(b)
    else Lookup(s[1..], b)
  }

  /** Valid extents in increasing order that do not overlap. */
  ghost predicate Sorted(s: seq<Extent>)
  {
    s == [] || (s[0].Valid() && (|s| > 1 ==> s[0].End() <= s[1].lblk) && Sorted(s[1..]))
  }

  predicate Meets(a: seq<Extent>, b: seq<Extent>)
  {
    a != [] && b != [] ==> a[|a| - 1].End() <= b[0].lblk
  }

  /** Two runs joined are in order exactly when both are and they meet in order. */
  lemma {:induction false} SortedConcat(a: seq<Extent>, b: seq<Extent>)
    ensures Sorted(a + b) <==> Sorted(a) && Sorted(b) && Meets(a, b)
  {
    if a == [] {
      assert a + b == b;
    } else {
      assert (a + b)[1..] == a[1..] + b;
      SortedConcat(a[1..], b);
    }
  }

  lemma {:induction false} SortedAt(s: seq<Extent>, i: nat)
    requires Sorted(s) && i < |s|
    ensures s[i].Valid()
  {
    if i > 0 { SortedAt(s[1..], i - 1); }
  }

  lemma {:induction false} SortedPair(s: seq<Extent>, i: nat, j: nat)
    requires Sorted(s) && i < j < |s|
    ensures s[i].End() <= s[j].lblk
    decreases i + j
  {
    if i > 0 {
      SortedPair(s[1..], i - 1, j - 1);
    } else if j > 1 {
      SortedPair(s[1..], 0, j - 1);
      SortedAt(s[1..], 0);
    }
  }

  predicate Disjoint(e: Extent, f: Extent) { e.End() <= f.lblk || f.End() <= e.lblk }

  ghost predicate Avoids(s: seq<Extent>, e: Extent)
  {
    forall i :: 0 <= i < |s| ==> Disjoint(s[i], e)
  }

  predicate Holds(e: Extent, p: nat) { e.pblk <= p < e.pblk + e.len }

  /** How many times a run of extents owns physical block p. */
  function Owns(s: seq<Extent>, p: nat): nat
  {
    if s == [] then 0 else (if Holds(s[0], p) then 1 else 0) + Owns(s[1..], p)
  }

  /** The number of blocks that a run of extents maps. */
  function Size(s: seq<Extent>): nat
  {
    if s == [] then 0 else s[0].len + Size(s[1..])
  }

  lemma {:induction false} OwnsConcat(a: seq<Extent>, b: seq<Extent>, p: nat)
    ensures Owns(a + b, p) == Owns(a, p) + Owns(b, p)
  {
    if a == [] {
      assert a + b == b;
    } else {
      assert (a + b)[1..] == a[1..] + b;
      OwnsConcat(a[1..], b, p);
    }
  }

  lemma {:induction false} SizeConcat(a: seq<Extent>, b: seq<Extent>)
    ensures Size(a + b) == Size(a) + Size(b)
  {
    if a == [] {
      assert a + b == b;
    } else {
      assert (a + b)[1..] == a[1..] + b;
      SizeConcat(a[1..], b);
    }
  }

  lemma {:induction false} LookupConcat(a: seq<Extent>, b: seq<Extent>, x: nat)
    ensures Lookup(a + b, x) == if Lookup(a, x).To? then Lookup(a, x) else Lookup(b, x)
  {
    if a == [] {
      assert a + b == b;
    } else {
      assert (a + b)[1..] == a[1..] + b;
      LookupConcat(a[1..], b, x);
    }
  }

  /** A run maps a block exactly when one of its extents covers it. */
  lemma {:induction false} LookupDomain(s: seq<Extent>, x: nat)
    ensures Lookup(s, x).To? <==> exists i :: 0 <= i < |s| && s[i].Covers(x)
  {
    if s != [] {
      LookupDomain(s[1..], x);
      if i :| 0 <= i < |s| && s[i].Covers(x) {
        if i > 0 { assert s[1..][i - 1].Covers(x); }
      }
    }
  }

  lemma {:induction false} LookupAt(s: seq<Extent>, i: nat, x: nat)
    requires Sorted(s) && i < |s| && s[i].Covers(x)
    ensures Lookup(s, x) == s[i].Target(x)
  {
    if i > 0 {
      SortedPair(s, 0, i);
      LookupAt(s[1..], i - 1, x);
    }
  }

  lemma {:induction false} LookupHole(s: seq<Extent>, x: nat)
    requires forall i :: 0 <= i < |s| ==> !s[i].Covers(x)
    ensures Lookup(s, x) == Hole
  {
    LookupDomain(s, x);
  }
}
