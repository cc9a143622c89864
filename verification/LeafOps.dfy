/** What the extent tree does inside one leaf block: search, insertion, merging of
    neighbours and punching of a range (kernfs/extents.c). */
module LeafOps {
  import opened ExtentSeq
  import opened Options

  /** Two runs that map the same blocks and own the same physical blocks. */
  ghost predicate SameContents(s: seq<Extent>, t: seq<Extent>)
  {
    && (forall x: nat :: Lookup(s, x) == Lookup(t, x))
    && (forall p: nat :: Owns(s, p) == Owns(t, p))
    && Size(s) == Size(t)
  }

  predicate Spans(s: seq<Extent>, lo: nat, hi: nat)
  {
    s != [] ==> lo <= s[0].lblk && s[|s| - 1].End() <= hi
  }

  /** `m'` holds what the run `m` holds, in order and within the same bounds. */
  ghost predicate Tidied(m: seq<Extent>, m': seq<Extent>)
  {
    && m != [] && m' != [] && Sorted(m') && SameContents(m, m')
    && m[0].lblk == m'[0].lblk && m'[|m'| - 1].End() == m[|m| - 1].End()
  }

  // ----- insertion at a place -----

  function InsertAt(s: seq<Extent>, k: nat, e: Extent): (t: seq<Extent>)
    requires k <= |s|
    ensures |t| == |s| + 1
  {
    s[..k] + ([e] + s[k..])
  }

  /** The place where `e` keeps the run in order. */
  predicate Fits(s: seq<Extent>, k: nat, e: Extent)
  {
    && k <= |s|
    && (k > 0 ==> s[k - 1].lblk <= e.lblk)
    && (k < |s| ==> e.lblk <= s[k].lblk)
  }

  lemma {:induction false} InsertKeepsOrder(s: seq<Extent>, k: nat, e: Extent)
    requires Sorted(s) && e.Valid() && Avoids(s, e) && Fits(s, k, e)
    ensures Sorted(InsertAt(s, k, e))
  {
    var a, b := s[..k], s[k..];
    assert a + b == s;
    SortedConcat(a, b);
    SortedConcat(a, [e] + b);
    SortedConcat([e], b);
    if k > 0 { SortedAt(s, k - 1); assert Disjoint(s[k - 1], e); }
    if k < |s| { SortedAt(s, k); assert Disjoint(s[k], e); }
  }

  lemma {:induction false} InsertOwns(s: seq<Extent>, k: nat, e: Extent, p: nat)
    requires k <= |s|
    ensures Owns(InsertAt(s, k, e), p) == Owns(s, p) + if Holds(e, p) then 1 else 0
    ensures Size(InsertAt(s, k, e)) == Size(s) + e.len
  {
    assert s[..k] + s[k..] == s;
    assert ([e] + s[k..])[1..] == s[k..];
    OwnsConcat(s[..k], [e] + s[k..], p);
    OwnsConcat(s[..k], s[k..], p);
    SizeConcat(s[..k], [e] + s[k..]);
    SizeConcat(s[..k], s[k..]);
  }

  lemma {:induction false} InsertLookup(s: seq<Extent>, k: nat, e: Extent, x: nat)
    requires k <= |s| && Avoids(s, e)
    ensures Lookup(InsertAt(s, k, e), x) == if e.Covers(x) then e.Target(x) else Lookup(s, x)
  {
    assert s[..k] + s[k..] == s;
    LookupConcat(s[..k], [e] + s[k..], x);
    LookupConcat(s[..k], s[k..], x);
    assert ([e] + s[k..])[1..] == s[k..];
    if e.Covers(x) {
      forall i | 0 <= i < |s[..k]| ensures !s[..k][i].Covers(x) { assert Disjoint(s[i], e); }
      LookupHole(s[..k], x);
    }
  }

  // ----- merging -----

  predicate CanMerge(e: Extent, f: Extent)
  {
    && e.unwritten == f.unwritten
    && e.End() == f.lblk
    && e.len + f.len <= EXT_INIT_MAX_LEN
    && (e.unwritten ==> e.len + f.len <= EXT_UNWRITTEN_MAX_LEN)
    && e.pblk + e.len == f.pblk
  }

  function Join(e: Extent, f: Extent): Extent
  {
    e.(len := e.len + f.len)
  }

  /** Two extents can be merged exactly when one extent can stand for both: it is valid, and maps each
      block to where the two map it. */
  lemma {:induction false} MergeExact(e: Extent, f: Extent)
    requires e.Valid() && f.Valid()
    ensures CanMerge(e, f) <==>
              && e.End() == f.lblk && Join(e, f).Valid()
              && forall x: nat :: Join(e, f).Covers(x) ==> Join(e, f).Target(x) == if e.Covers(x) then e.Target(x) else f.Target(x)
  {
    if e.End() == f.lblk && Join(e, f).Valid() {
      assert Join(e, f).Covers(f.lblk) && !e.Covers(f.lblk);
      assert Join(e, f).Target(f.lblk) == To(e.pblk + e.len, e.unwritten) && f.Target(f.lblk) == To(f.pblk, f.unwritten);
    }
  }

  /** The run with extents i and i + 1 replaced by one. */
  function MergeStep(s: seq<Extent>, i: nat): (t: seq<Extent>)
    requires i + 1 < |s|
    ensures |t| == |s| - 1
  {
    s[..i] + ([Join(s[i], s[i + 1])] + s[i + 2..])
  }

  lemma {:induction false} MergeStepParts(s: seq<Extent>, i: nat)
    requires i + 1 < |s|
    ensures s == s[..i] + ([s[i]] + ([s[i + 1]] + s[i + 2..]))
    ensures ([s[i]] + ([s[i + 1]] + s[i + 2..]))[1..] == [s[i + 1]] + s[i + 2..]
    ensures ([s[i + 1]] + s[i + 2..])[1..] == s[i + 2..]
    ensures ([Join(s[i], s[i + 1])] + s[i + 2..])[1..] == s[i + 2..]
  {
  }

  lemma {:induction false} MergeStepOwns(s: seq<Extent>, i: nat, p: nat)
    requires i + 1 < |s| && CanMerge(s[i], s[i + 1])
    ensures Owns(s, p) == Owns(MergeStep(s, i), p)
    ensures Size(s) == Size(MergeStep(s, i))
  {
    var a, b, r, j := s[i], s[i + 1], s[i + 2..], Join(s[i], s[i + 1]);
    MergeStepParts(s, i);
    OwnsConcat(s[..i], [a] + ([b] + r), p);
    OwnsConcat(s[..i], [j] + r, p);
    SizeConcat(s[..i], [a] + ([b] + r));
    SizeConcat(s[..i], [j] + r);
  }

  lemma {:induction false} MergeStepLookup(s: seq<Extent>, i: nat, x: nat)
    requires i + 1 < |s| && CanMerge(s[i], s[i + 1])
    ensures Lookup(s, x) == Lookup(MergeStep(s, i), x)
  {
    var a, b, r, j := s[i], s[i + 1], s[i + 2..], Join(s[i], s[i + 1]);
    MergeStepParts(s, i);
    LookupConcat(s[..i], [a] + ([b] + r), x);
    LookupConcat(s[..i], [j] + r, x);
  }

  lemma {:induction false} MergeStepOrder(s: seq<Extent>, i: nat)
    requires i + 1 < |s| && CanMerge(s[i], s[i + 1]) && Sorted(s)
    ensures Sorted(MergeStep(s, i))
  {
    var a, b, r, j := s[i], s[i + 1], s[i + 2..], Join(s[i], s[i + 1]);
    MergeStepParts(s, i);
    SortedConcat(s[..i], [a] + ([b] + r));
    SortedConcat(s[..i], [j] + r);
    SortedConcat([j], r);
  }

  lemma {:induction false} MergeStepTidies(s: seq<Extent>, i: nat)
    requires i + 1 < |s| && CanMerge(s[i], s[i + 1]) && Sorted(s)
    ensures Tidied(s, MergeStep(s, i))
  {
    forall x: nat ensures Lookup(s, x) == Lookup(MergeStep(s, i), x) { MergeStepLookup(s, i, x); }
    forall p: nat ensures Owns(s, p) == Owns(MergeStep(s, i), p) { MergeStepOwns(s, i, p); }
    MergeStepOwns(s, i, 0);
    MergeStepOrder(s, i);
  }

  lemma {:induction false} TidiedTwice(a: seq<Extent>, b: seq<Extent>, c: seq<Extent>)
    requires Tidied(a, b) && Tidied(b, c)
    ensures Tidied(a, c)
  {
  }

  /** Merge extent i with its right neighbours for as long as they fit together. */
  function MergeRight(s: seq<Extent>, i: nat): (t: seq<Extent>)
    requires i < |s|
    ensures i < |t| <= |s|
    decreases |s|
  {
    if i + 1 < |s| && CanMerge(s[i], s[i + 1]) then MergeRight(MergeStep(s, i), i) else s
  }

  lemma {:induction false} MergeRightTidies(s: seq<Extent>, i: nat)
    requires i < |s| && Sorted(s)
    ensures Tidied(s, MergeRight(s, i))
    decreases |s|
  {
    if i + 1 < |s| && CanMerge(s[i], s[i + 1]) {
      MergeStepTidies(s, i);
      MergeRightTidies(MergeStep(s, i), i);
      TidiedTwice(s, MergeStep(s, i), MergeRight(s, i));
    }
  }

  /** Merge extent i with its left neighbour and, failing that, with its right ones. */
  function TryToMerge(s: seq<Extent>, i: nat): (t: seq<Extent>)
    requires i < |s|
    ensures 1 <= |t| <= |s|
  {
    if i > 0 && CanMerge(s[i - 1], s[i]) then MergeRight(s, i - 1) else MergeRight(s, i)
  }

  lemma {:induction false} TryToMergeTidies(s: seq<Extent>, i: nat)
    requires i < |s| && Sorted(s)
    ensures Tidied(s, TryToMerge(s, i))
  {
    if i > 0 && CanMerge(s[i - 1], s[i]) { MergeRightTidies(s, i - 1); } else { MergeRightTidies(s, i); }
  }

  // ----- what merging achieves -----

  /** No two neighbours can be merged. */
  predicate NoPair(s: seq<Extent>) { forall i :: 0 <= i && i + 1 < |s| ==> !CanMerge(s[i], s[i + 1]) }

  /** No two neighbours can be merged, unless extent k is one of them. */
  predicate PairsAt(s: seq<Extent>, k: nat)
  {
    forall i :: 0 <= i && i + 1 < |s| && i != k && i + 1 != k ==> !CanMerge(s[i], s[i + 1])
  }

  lemma {:induction false} InsertPairs(s: seq<Extent>, k: nat, e: Extent)
    requires NoPair(s) && k <= |s|
    ensures PairsAt(InsertAt(s, k, e), k)
  {
    var w := InsertAt(s, k, e);
    forall i | 0 <= i && i + 1 < |w| && i != k && i + 1 != k ensures !CanMerge(w[i], w[i + 1]) {
      if i + 1 < k {
        assert w[i] == s[i] && w[i + 1] == s[i + 1];
      } else {
        assert w[i] == s[i - 1] && w[i + 1] == s[i];
        assert s[i] == s[(i - 1) + 1];
      }
    }
  }

  /** What extent i has become, and what is left around it. */
  lemma {:induction false} MergeRightIs(s: seq<Extent>, i: nat)
    requires i < |s|
    ensures var t := MergeRight(s, i);
            && t[..i] == s[..i] && t[i + 1..] == s[|s| - (|t| - i - 1)..] && |t| <= |s|
            && t[i] == s[i].(len := t[i].len) && t[i].len >= s[i].len
            && (i + 1 < |t| ==> !CanMerge(t[i], t[i + 1]))
    decreases |s|
  {
    if i + 1 < |s| && CanMerge(s[i], s[i + 1]) {
      var w := MergeStep(s, i);
      MergeRightIs(w, i);
      assert w[..i] == s[..i] && w[i] == Join(s[i], s[i + 1]) && w[i + 1..] == s[i + 2..];
      var m := |MergeRight(s, i)| - i - 1;
      assert m <= |s| - i - 2;
      assert w[|w| - m..] == s[|s| - m..] by {
        assert w[i + 1..][|w| - m - i - 1..] == w[|w| - m..];
        assert s[i + 2..][|s| - m - i - 2..] == s[|s| - m..];
      }
    } else {
      assert s[i + 1..] == s[|s| - (|s| - i - 1)..];
    }
  }

  lemma {:induction false} ShorterMerges(a: Extent, b: Extent, c: Extent)
    requires CanMerge(a, c) && c == b.(len := c.len) && c.len >= b.len
    ensures CanMerge(a, b)
  {
  }

  /** Where the extent that covers extent i is, after merging it with its neighbours. */
  function MergedAt(s: seq<Extent>, i: nat): nat
    requires i < |s|
  {
    if i > 0 && CanMerge(s[i - 1], s[i]) then i - 1 else i
  }

  /** After merging, extent i is part of one that cannot be merged with its right neighbour. It can be
      merged with its left one only if two neighbours in front of it could have been merged before. */
  lemma {:induction false} TryToMergeDone(s: seq<Extent>, i: nat)
    requires i < |s|
    ensures var t, j := TryToMerge(s, i), MergedAt(s, i);
            && j < |t| && t[j].lblk <= s[i].lblk && s[i].End() <= t[j].End()
            && (j + 1 < |t| ==> !CanMerge(t[j], t[j + 1]))
            && (j > 0 && CanMerge(t[j - 1], t[j]) ==> i >= 2 && CanMerge(s[i - 2], s[i - 1]))
  {
    var t, j := TryToMerge(s, i), MergedAt(s, i);
    MergeRightIs(s, j);
    if j < i {
      MergeRightIs(MergeStep(s, j), j);
      assert MergeStep(s, j)[j] == Join(s[j], s[i]);
    }
    if j > 0 && CanMerge(t[j - 1], t[j]) {
      assert t[j - 1] == t[..j][j - 1] == s[..j][j - 1] == s[j - 1];
      ShorterMerges(s[j - 1], s[j], t[j]);
    }
  }

  lemma {:induction false} PairElsewhere(s: seq<Extent>, t: seq<Extent>, i: nat, j: nat, m: nat, k: nat)
    requires PairsAt(s, i) && j < |t| && j <= i < m <= |s| && t[..j] == s[..j] && t[j + 1..] == s[m..]
    requires k + 1 < |t| && (k + 1 < j || k > j)
    ensures !CanMerge(t[k], t[k + 1])
  {
    if k + 1 < j {
      assert t[k] == t[..j][k] && t[k + 1] == t[..j][k + 1];
      assert s[k] == s[..j][k] && s[k + 1] == s[..j][k + 1];
    } else {
      var n := k - j - 1;
      assert t[k] == t[j + 1..][n] && t[k + 1] == t[j + 1..][n + 1];
      assert s[m + n] == s[m..][n] && s[(m + n) + 1] == s[m..][n + 1];
    }
  }

  lemma {:induction false} MergedEnds(s: seq<Extent>, i: nat)
    requires i < |s|
    ensures var t, j := TryToMerge(s, i), MergedAt(s, i);
            j < |t| && |t| - j - 1 < |s| - i && t[..j] == s[..j] && t[j + 1..] == s[|s| - (|t| - j - 1)..]
  {
    var j := MergedAt(s, i);
    MergeRightIs(s, j);
    if j < i { MergeRightIs(MergeStep(s, j), j); }
  }

  /** Where only extent i could be merged before, nothing can be merged afterwards. */
  lemma {:induction false} TryToMergeNoPair(s: seq<Extent>, i: nat)
    requires i < |s| && PairsAt(s, i)
    ensures NoPair(TryToMerge(s, i))
  {
    var t, j := TryToMerge(s, i), MergedAt(s, i);
    TryToMergeDone(s, i);
    MergedEnds(s, i);
    assert i >= 2 ==> !CanMerge(s[i - 2], s[(i - 2) + 1]);
    forall k | 0 <= k && k + 1 < |t| ensures !CanMerge(t[k], t[k + 1]) {
      if k + 1 < j || k > j { PairElsewhere(s, t, i, j, |s| - (|t| - j - 1), k); }
    }
  }

  /** Tidying up the middle of a run keeps the order and the contents of the whole. */
  lemma {:induction false} TidyInContext(l: seq<Extent>, m: seq<Extent>, m': seq<Extent>, r: seq<Extent>)
    requires Sorted(l + (m + r)) && Tidied(m, m')
    ensures Sorted(l + (m' + r)) && SameContents(l + (m + r), l + (m' + r))
  {
    SortedConcat(l, m + r);
    SortedConcat(m, r);
    SortedConcat(l, m' + r);
    SortedConcat(m', r);
    SameInContext(l, m, m', r);
  }

  lemma {:induction false} SameInContext(l: seq<Extent>, m: seq<Extent>, m': seq<Extent>, r: seq<Extent>)
    requires SameContents(m, m')
    ensures SameContents(l + (m + r), l + (m' + r))
  {
    forall x: nat ensures Lookup(l + (m + r), x) == Lookup(l + (m' + r), x) {
      LookupConcat(l, m + r, x);
      LookupConcat(m, r, x);
      LookupConcat(l, m' + r, x);
      LookupConcat(m', r, x);
    }
    forall p: nat ensures Owns(l + (m + r), p) == Owns(l + (m' + r), p) {
      OwnsConcat(l, m + r, p);
      OwnsConcat(m, r, p);
      OwnsConcat(l, m' + r, p);
      OwnsConcat(m', r, p);
    }
    SizeConcat(l, m + r);
    SizeConcat(m, r);
    SizeConcat(l, m' + r);
    SizeConcat(m', r);
  }

  // ----- search -----

  /** The position that a search for block b returns: the last extent that starts at or before b,
      or the first extent. */
  function Nearest(s: seq<Extent>, b: nat): (i: nat)
    requires s != []
    ensures i < |s|
  {
    if |s| == 1 || s[|s| - 1].lblk <= b then |s| - 1 else Nearest(s[..|s| - 1], b)
  }

  predicate IsNearest(s: seq<Extent>, i: nat, b: nat)
  {
    && i < |s|
    && (i > 0 ==> s[i].lblk <= b)
    && (i + 1 < |s| ==> b < s[i + 1].lblk)
  }

  lemma {:induction false} NearestIs(s: seq<Extent>, b: nat)
    requires s != []
    ensures IsNearest(s, Nearest(s, b), b)
  {
    if |s| > 1 && b < s[|s| - 1].lblk { NearestIs(s[..|s| - 1], b); }
  }

  lemma {:induction false} NearestUnique(s: seq<Extent>, i: nat, j: nat, b: nat)
    requires Sorted(s) && IsNearest(s, i, b) && IsNearest(s, j, b)
    ensures !(i < j)
  {
    if i + 1 < j < |s| {
      SortedPair(s, i + 1, j);
    }
  }

  // ----- where a new extent goes -----

  /** Absorb `e` into an extent next to position `pos`; the result also names the grown extent. */
  function TryFold(s: seq<Extent>, pos: nat, e: Extent): (r: Option<(seq<Extent>, nat)>)
    requires pos < |s|
    ensures r.Some? ==> |r.value.0| == |s| && r.value.1 < |s|
  {
    if pos + 1 < |s| && s[pos].End() < e.lblk then
      TryPrepend(s, pos + 1, e)
    else
      var i := if pos > 0 && e.End() < s[pos].lblk then pos - 1 else pos;
      if CanMerge(s[i], e) then Some((s[i := Join(s[i], e)], i)) else TryPrepend(s, i, e)
  }

  function TryPrepend(s: seq<Extent>, i: nat, e: Extent): (r: Option<(seq<Extent>, nat)>)
    requires i < |s|
    ensures r.Some? ==> |r.value.0| == |s| && r.value.1 < |s|
  {
    if CanMerge(e, s[i]) then Some((s[i := Join(e, s[i])], i)) else None
  }

  /** Where a leaf takes a new extent, given the extent nearest to it. */
  function InsertPos(s: seq<Extent>, pos: nat, e: Extent): (k: nat)
    requires s != [] ==> pos < |s|
    ensures k <= |s|
  {
    if s == [] then 0 else if e.lblk > s[pos].lblk then pos + 1 else pos
  }

  lemma {:induction false} InsertPosFits(s: seq<Extent>, pos: nat, e: Extent)
    requires s != [] ==> IsNearest(s, pos, e.lblk)
    ensures (s != [] && e.lblk == s[pos].lblk) || Fits(s, InsertPos(s, pos, e), e)
  {
  }

  /** `t` is `s` with `e` inserted at its place k and merged there with a neighbour at i or i + 1. */
  ghost predicate FoldedAt(s: seq<Extent>, k: nat, e: Extent, t: seq<Extent>, i: nat)
  {
    && Fits(s, k, e)
    && i < |s|
    && CanMerge(InsertAt(s, k, e)[i], InsertAt(s, k, e)[i + 1])
    && t == MergeStep(InsertAt(s, k, e), i)
  }

  lemma {:induction false} AppendIsInsert(s: seq<Extent>, i: nat, e: Extent)
    requires i < |s| && Sorted(s) && CanMerge(s[i], e)
    ensures FoldedAt(s, i + 1, e, s[i := Join(s[i], e)], i)
  {
    if i + 1 < |s| { SortedPair(s, i, i + 1); }
    var w := InsertAt(s, i + 1, e);
    assert w[i] == s[i] && w[i + 1] == e && w[..i] == s[..i] && w[i + 2..] == s[i + 1..];
  }

  lemma {:induction false} PrependIsInsert(s: seq<Extent>, i: nat, e: Extent)
    requires i < |s| && Sorted(s) && Avoids(s, e) && e.Valid() && CanMerge(e, s[i])
    ensures FoldedAt(s, i, e, s[i := Join(e, s[i])], i)
  {
    if i > 0 { SortedPair(s, i - 1, i); SortedAt(s, i - 1); assert Disjoint(s[i - 1], e); }
    var w := InsertAt(s, i, e);
    assert w[i] == e && w[i + 1] == s[i] && w[..i] == s[..i] && w[i + 2..] == s[i + 1..];
  }

  /** Absorbing an extent is inserting it in order and merging it with that neighbour. */
  lemma {:induction false} FoldIsInsert(s: seq<Extent>, pos: nat, e: Extent) returns (k: nat)
    requires pos < |s| && Sorted(s) && Avoids(s, e) && e.Valid() && TryFold(s, pos, e).Some?
    ensures FoldedAt(s, k, e, TryFold(s, pos, e).value.0, TryFold(s, pos, e).value.1)
  {
    var i := TryFold(s, pos, e).value.1;
    if TryPrepend(s, i, e) == TryFold(s, pos, e) {
      k := i;
      PrependIsInsert(s, i, e);
    } else {
      k := i + 1;
      AppendIsInsert(s, i, e);
    }
  }

  // ----- changing one extent -----

  lemma {:induction false} SetKeepsOrder(s: seq<Extent>, k: nat, a: Extent)
    requires Sorted(s) && k < |s| && a.Valid() && a.lblk == s[k].lblk && a.End() <= s[k].End()
    ensures Sorted(s[k := a])
  {
    var l, r := s[..k], s[k + 1..];
    assert s == l + ([s[k]] + r) && s[k := a] == l + ([a] + r);
    SortedConcat(l, [s[k]] + r);
    SortedConcat([s[k]], r);
    SortedConcat(l, [a] + r);
    SortedConcat([a], r);
  }

  lemma {:induction false} SetLookup(s: seq<Extent>, k: nat, a: Extent, x: nat)
    requires Sorted(s) && k < |s| && a.lblk == s[k].lblk && a.End() <= s[k].End()
    ensures Lookup(s[k := a], x) ==
            if a.Covers(x) then a.Target(x) else if s[k].Covers(x) then Hole else Lookup(s, x)
  {
    var l, r := s[..k], s[k + 1..];
    assert s == l + ([s[k]] + r) && s[k := a] == l + ([a] + r);
    LookupConcat(l, [s[k]] + r, x);
    LookupConcat(l, [a] + r, x);
    assert ([s[k]] + r)[1..] == r && ([a] + r)[1..] == r;
    if s[k].Covers(x) {
      forall i | 0 <= i < |l| ensures !l[i].Covers(x) { SortedPair(s, i, k); }
      LookupHole(l, x);
      forall i | 0 <= i < |r| ensures !r[i].Covers(x) { SortedPair(s, k, k + 1 + i); }
      LookupHole(r, x);
    }
  }

  lemma {:induction false} SetOwns(s: seq<Extent>, k: nat, a: Extent, p: nat)
    requires k < |s|
    ensures Owns(s[k := a], p) + (if Holds(s[k], p) then 1 else 0) == Owns(s, p) + if Holds(a, p) then 1 else 0
    ensures Size(s[k := a]) + s[k].len == Size(s) + a.len
  {
    var l, r := s[..k], s[k + 1..];
    assert s == l + ([s[k]] + r) && s[k := a] == l + ([a] + r);
    assert ([s[k]] + r)[1..] == r && ([a] + r)[1..] == r;
    OwnsConcat(l, [s[k]] + r, p);
    OwnsConcat(l, [a] + r, p);
    SizeConcat(l, [s[k]] + r);
    SizeConcat(l, [a] + r);
  }

  // ----- punching a range -----

  /** What removing blocks start..end leaves of one extent. */
  function PunchOne(e: Extent, start: nat, end: nat): seq<Extent>
  {
    if e.End() <= start || end < e.lblk then [e]
    else if e.lblk < start then [e.(len := start - e.lblk)]
    else []
  }

  /** The part of an extent that removing blocks start..end takes away. */
  function CutOne(e: Extent, start: nat, end: nat): seq<Extent>
  {
    if e.End() <= start || end < e.lblk then []
    else if e.lblk < start then
      [Extent(start, e.End() - start, e.pblk + (start - e.lblk), e.unwritten)]
    else [e]
  }

  function Punch(s: seq<Extent>, start: nat, end: nat): seq<Extent>
  {
    if s == [] then [] else PunchOne(s[0], start, end) + Punch(s[1..], start, end)
  }

  function Cut(s: seq<Extent>, start: nat, end: nat): seq<Extent>
  {
    if s == [] then [] else CutOne(s[0], start, end) + Cut(s[1..], start, end)
  }

  /** No extent reaches past `end` from at or before it. */
  ghost predicate Clean(s: seq<Extent>, end: nat)
  {
    forall i :: 0 <= i < |s| ==> s[i].End() <= end + 1 || end < s[i].lblk
  }

  lemma {:induction false} PunchConcat(a: seq<Extent>, b: seq<Extent>, start: nat, end: nat)
    ensures Punch(a + b, start, end) == Punch(a, start, end) + Punch(b, start, end)
    ensures Cut(a + b, start, end) == Cut(a, start, end) + Cut(b, start, end)
  {
    if a == [] {
      assert a + b == b;
    } else {
      var rest := a[1..];
      assert a + b == [a[0]] + (rest + b) && (a + b)[1..] == rest + b;
      PunchConcat(rest, b, start, end);
      Assoc(PunchOne(a[0], start, end), Punch(rest, start, end), Punch(b, start, end));
      Assoc(CutOne(a[0], start, end), Cut(rest, start, end), Cut(b, start, end));
    }
  }

  lemma {:induction false} Assoc(x: seq<Extent>, y: seq<Extent>, z: seq<Extent>)
    ensures x + (y + z) == (x + y) + z
  {
  }

  lemma {:induction false} PunchUntouched(s: seq<Extent>, start: nat, end: nat)
    requires forall i :: 0 <= i < |s| ==> s[i].End() <= start || end < s[i].lblk
    ensures Punch(s, start, end) == s && Cut(s, start, end) == []
  {
    if s != [] { PunchUntouched(s[1..], start, end); }
  }

  lemma {:induction false} PunchKeepsOrder(s: seq<Extent>, start: nat, end: nat)
    requires Sorted(s)
    ensures Sorted(Punch(s, start, end)) && |Punch(s, start, end)| <= |s|
    ensures s != [] ==> Spans(Punch(s, start, end), s[0].lblk, s[|s| - 1].End())
  {
    if s != [] {
      var one, rest := PunchOne(s[0], start, end), Punch(s[1..], start, end);
      PunchKeepsOrder(s[1..], start, end);
      SortedConcat(one, rest);
      if |s| > 1 {
        SortedPair(s, 0, |s| - 1);
        SortedAt(s, |s| - 1);
      }
    }
  }

  lemma {:induction false} PunchOneLookup(e: Extent, start: nat, end: nat, x: nat)
    requires e.Valid() && (e.End() <= end + 1 || end < e.lblk) && start <= end + 1
    ensures Lookup(PunchOne(e, start, end), x) ==
            if e.Covers(x) && !(start <= x <= end) then e.Target(x) else Hole
    ensures Lookup(CutOne(e, start, end), x) ==
            if e.Covers(x) && start <= x <= end then e.Target(x) else Hole
  {
  }

  /** Punching unmaps exactly blocks start..end, and what it cuts out is what they mapped to. */
  lemma {:induction false} PunchLookup(s: seq<Extent>, start: nat, end: nat, x: nat)
    requires Sorted(s) && Clean(s, end) && start <= end + 1
    ensures Lookup(Punch(s, start, end), x) == if start <= x <= end then Hole else Lookup(s, x)
    ensures Lookup(Cut(s, start, end), x) == if start <= x <= end then Lookup(s, x) else Hole
  {
    if s != [] {
      var e := s[0];
      PunchOneLookup(e, start, end, x);
      PunchLookup(s[1..], start, end, x);
      if e.Covers(x) {
        forall i | 0 <= i < |s[1..]| ensures !s[1..][i].Covers(x) { SortedPair(s, 0, i + 1); }
        LookupHole(s[1..], x);
      }
      LookupConcat(PunchOne(e, start, end), Punch(s[1..], start, end), x);
      LookupConcat(CutOne(e, start, end), Cut(s[1..], start, end), x);
    }
  }

  lemma {:induction false} PunchOneOwns(e: Extent, start: nat, end: nat, p: nat)
    ensures Owns([e], p) == Owns(PunchOne(e, start, end), p) + Owns(CutOne(e, start, end), p)
    ensures e.len == Size(PunchOne(e, start, end)) + Size(CutOne(e, start, end))
  {
  }

  /** Every block owned before is still owned or was cut out. */
  lemma {:induction false} PunchOwns(s: seq<Extent>, start: nat, end: nat, p: nat)
    ensures Owns(s, p) == Owns(Punch(s, start, end), p) + Owns(Cut(s, start, end), p)
    ensures Size(s) == Size(Punch(s, start, end)) + Size(Cut(s, start, end))
  {
    if s != [] {
      var e := s[0];
      PunchOneOwns(e, start, end, p);
      PunchOwns(s[1..], start, end, p);
      OwnsConcat(PunchOne(e, start, end), Punch(s[1..], start, end), p);
      OwnsConcat(CutOne(e, start, end), Cut(s[1..], start, end), p);
      SizeConcat(PunchOne(e, start, end), Punch(s[1..], start, end));
      SizeConcat(CutOne(e, start, end), Cut(s[1..], start, end));
    }
  }
}
