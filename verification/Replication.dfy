/** Replication of a circular log and the test that holds a digest back until its log blocks have
    arrived (kernfs/fs.c, libfs/src/distributed/replication.c). */
module Replication {

  /** A place in the log: how often the log had wrapped around, and the block. */
  datatype Pos = Pos(version: nat, block: nat)

  predicate Below(a: Pos, b: Pos) { a.version < b.version || (a.version == b.version && a.block < b.block) }

  /** The log occupies blocks first to limit - 1. */
  datatype Log = Log(first: nat, limit: nat)

  /** Where replication continues after n more blocks. */
  function Advance(log: Log, p: Pos, n: nat): Pos
  {
    if p.block + n > log.limit then Pos(p.version + 1, log.first + n) else Pos(p.version, p.block + n)
  }

  /** A message with n blocks, replicated from p on, carries block q. */
  predicate Carries(log: Log, p: Pos, n: nat, q: Pos)
  {
    if p.block + n > log.limit then q.version == p.version + 1 && log.first <= q.block < log.first + n
    else q.version == p.version && p.block <= q.block < p.block + n
  }

  lemma {:induction false} BelowTwice(a: Pos, b: Pos, c: Pos)
    requires Below(a, b) && (Below(b, c) || b == c)
    ensures Below(a, c)
  {
  }

  // ----- runs of messages -----

  function Frontier(log: Log, p: Pos, ns: seq<nat>): Pos
  {
    if ns == [] then p else Advance(log, Frontier(log, p, ns[..|ns| - 1]), ns[|ns| - 1])
  }

  /** Block q has arrived with one of the messages. */
  predicate Arrived(log: Log, p: Pos, ns: seq<nat>, q: Pos)
  {
    ns != [] && (Arrived(log, p, ns[..|ns| - 1], q) || Carries(log, Frontier(log, p, ns[..|ns| - 1]), ns[|ns| - 1], q))
  }

  /** Every message, whether the log wraps around or not, moves the frontier forward. */
  lemma {:induction false} FrontierMoves(log: Log, p: Pos, ns: seq<nat>, ms: seq<nat>)
    requires forall k :: 0 <= k < |ms| ==> ms[k] > 0
    ensures Frontier(log, p, ns + ms) == Frontier(log, p, ns) || Below(Frontier(log, p, ns), Frontier(log, p, ns + ms))
    ensures ms != [] ==> Below(Frontier(log, p, ns), Frontier(log, p, ns + ms))
  {
    if ms == [] {
      assert ns + ms == ns;
    } else {
      var front, n := ms[..|ms| - 1], ms[|ms| - 1];
      assert (ns + ms)[..|ns + ms| - 1] == ns + front;
      FrontierMoves(log, p, ns, front);
      var f := Frontier(log, p, ns + front);
      assert Below(f, Advance(log, f, n));
      if front != [] { BelowTwice(Frontier(log, p, ns), f, Advance(log, f, n)); }
    }
  }

  /** A block that is below the frontier and arrives at all has arrived already. */
  lemma {:induction false} BelowHasArrived(log: Log, p: Pos, ns: seq<nat>, ms: seq<nat>, q: Pos)
    requires forall k :: 0 <= k < |ms| ==> ms[k] > 0
    requires Below(q, Frontier(log, p, ns)) && Arrived(log, p, ns + ms, q)
    ensures Arrived(log, p, ns, q)
  {
    if ms == [] {
      assert ns + ms == ns;
    } else {
      var front, n := ms[..|ms| - 1], ms[|ms| - 1];
      assert (ns + ms)[..|ns + ms| - 1] == ns + front && (ns + ms)[|ns + ms| - 1] == n;
      FrontierMoves(log, p, ns, front);
      var f := Frontier(log, p, ns + front);
      BelowTwice(q, Frontier(log, p, ns), f);
      BelowHasArrived(log, p, ns, front, q);
    }
  }

  // ----- the log without wrapping -----

  /** `last(v)` is the last block that version v of the log uses: the writer starts the next version
      when a log header with its blocks does not fit any more. */
  ghost predicate Uses(log: Log, last: nat -> nat)
  {
    1 <= log.first && forall v: nat :: log.first <= last(v) < log.limit
  }

  /** How many blocks the versions before v have. */
  ghost function Base(log: Log, last: nat -> nat, v: nat): nat
    requires Uses(log, last)
  {
    if v == 0 then 0 else Base(log, last, v - 1) + (last(v - 1) - log.first + 1)
  }

  /** A place on the log: a block, or the place right behind the last block of a version. */
  ghost predicate Place(log: Log, last: nat -> nat, p: Pos) { log.first <= p.block <= last(p.version) + 1 }

  ghost predicate Block(log: Log, last: nat -> nat, q: Pos) { log.first <= q.block <= last(q.version) }

  /** The number of log blocks in front of a place, over all versions. */
  ghost function Index(log: Log, last: nat -> nat, p: Pos): nat
    requires Uses(log, last) && Place(log, last, p)
  {
    Base(log, last, p.version) + (p.block - log.first)
  }

  lemma {:induction false} BaseGrows(log: Log, last: nat -> nat, v: nat, w: nat)
    requires Uses(log, last) && v < w
    ensures Base(log, last, v) + (last(v) - log.first + 1) <= Base(log, last, w)
    decreases w
  {
    if v < w - 1 { BaseGrows(log, last, v, w - 1); }
  }

  /** A block is below a place exactly when its number is smaller. */
  lemma {:induction false} BelowIsLess(log: Log, last: nat -> nat, q: Pos, p: Pos)
    requires Uses(log, last) && Block(log, last, q) && Place(log, last, p)
    ensures Below(q, p) <==> Index(log, last, q) < Index(log, last, p)
  {
    if q.version < p.version {
      BaseGrows(log, last, q.version, p.version);
    } else if p.version < q.version {
      BaseGrows(log, last, p.version, q.version);
    }
  }

  /** A message with n blocks ends inside a version, or starts the next one. */
  ghost predicate FitsMessage(log: Log, last: nat -> nat, p: Pos, n: nat)
  {
    && n > 0
    && if p.block + n > log.limit then p.block == last(p.version) + 1 && log.first + n - 1 <= last(p.version + 1)
       else p.block + n - 1 <= last(p.version)
  }

  lemma {:induction false} MessageMoves(log: Log, last: nat -> nat, p: Pos, n: nat)
    requires Uses(log, last) && Place(log, last, p) && FitsMessage(log, last, p, n)
    ensures Place(log, last, Advance(log, p, n))
    ensures Index(log, last, Advance(log, p, n)) == Index(log, last, p) + n
  {
    if p.block + n > log.limit {
      assert Base(log, last, p.version + 1) == Base(log, last, p.version) + (last(p.version) - log.first + 1);
    }
  }

  /** The n blocks of a message lie in one version: that of the frontier or, when it is used up, the next. */
  ghost predicate InOneVersion(log: Log, last: nat -> nat, p: Pos, n: nat)
  {
    && n > 0
    && (p.block + n - 1 <= last(p.version) || (p.block == last(p.version) + 1 && log.first + n - 1 <= last(p.version + 1)))
  }

  /** The frontier after such a message is right exactly when a message that starts a version reaches past
      the limit of the log from where the old version ended. One that holds the header that did not fit
      there does. */
  lemma {:induction false} MessageExact(log: Log, last: nat -> nat, p: Pos, n: nat)
    requires Uses(log, last) && Place(log, last, p) && InOneVersion(log, last, p, n)
    ensures Place(log, last, Advance(log, p, n)) && Index(log, last, Advance(log, p, n)) == Index(log, last, p) + n
            <==> (p.block == last(p.version) + 1 ==> p.block + n > log.limit)
    ensures FitsMessage(log, last, p, n) <==> (p.block == last(p.version) + 1 ==> p.block + n > log.limit)
  {
    if FitsMessage(log, last, p, n) { MessageMoves(log, last, p, n); }
  }

  /** The blocks of version v from `from` on are those with the next numbers. */
  lemma {:induction false} Stretch(log: Log, last: nat -> nat, p: Pos, n: nat, q: Pos)
    requires Uses(log, last) && Place(log, last, p) && p.block + n - 1 <= last(p.version) && Block(log, last, q)
    ensures q.version == p.version && p.block <= q.block < p.block + n
            <==> Index(log, last, p) <= Index(log, last, q) < Index(log, last, p) + n
  {
    if q.version < p.version {
      BaseGrows(log, last, q.version, p.version);
    } else if p.version < q.version {
      BaseGrows(log, last, p.version, q.version);
    }
  }

  /** A message carries the next n blocks of the log. */
  lemma {:induction false} CarriesNext(log: Log, last: nat -> nat, p: Pos, n: nat, q: Pos)
    requires Uses(log, last) && Place(log, last, p) && FitsMessage(log, last, p, n) && Block(log, last, q)
    ensures Carries(log, p, n, q) <==> Index(log, last, p) <= Index(log, last, q) < Index(log, last, p) + n
  {
    if p.block + n > log.limit {
      var p' := Pos(p.version + 1, log.first);
      assert Base(log, last, p.version + 1) == Base(log, last, p.version) + (last(p.version) - log.first + 1);
      Stretch(log, last, p', n, q);
    } else {
      Stretch(log, last, p, n, q);
    }
  }

  ghost predicate FitsMessages(log: Log, last: nat -> nat, p: Pos, ns: seq<nat>)
  {
    ns == [] || (FitsMessages(log, last, p, ns[..|ns| - 1])
                 && FitsMessage(log, last, Frontier(log, p, ns[..|ns| - 1]), ns[|ns| - 1]))
  }

  function Sum(ns: seq<nat>): nat { if ns == [] then 0 else Sum(ns[..|ns| - 1]) + ns[|ns| - 1] }

  /** The frontier counts the blocks that were sent, and the blocks in front of it are those that have
      arrived. */
  lemma {:induction false} ArrivedExactly(log: Log, last: nat -> nat, p: Pos, ns: seq<nat>, q: Pos)
    requires Uses(log, last) && Place(log, last, p) && FitsMessages(log, last, p, ns) && Block(log, last, q)
    ensures Place(log, last, Frontier(log, p, ns))
            && Index(log, last, Frontier(log, p, ns)) == Index(log, last, p) + Sum(ns)
    ensures Arrived(log, p, ns, q) <==> Index(log, last, p) <= Index(log, last, q) < Index(log, last, Frontier(log, p, ns))
    decreases |ns|
  {
    if ns != [] {
      var front, n := ns[..|ns| - 1], ns[|ns| - 1];
      ArrivedExactly(log, last, p, front, q);
      MessageMoves(log, last, Frontier(log, p, front), n);
      CarriesNext(log, last, Frontier(log, p, front), n, q);
    }
  }

  // ----- a digest -----

  /** A digest of log headers, each with its number of blocks, from block `start` on. A positive `end`
      is the last block that is used before the log wraps around. */
  datatype Request = Request(start: nat, sizes: seq<nat>, end: nat)

  predicate Wraps(d: Request) { d.end != 0 && d.start + Sum(d.sizes) - 1 > d.end }

  predicate Proper(log: Log, d: Request) { Sum(d.sizes) > 0 && (Wraps(d) ==> log.first <= d.start <= d.end) }

  /** The last block of a digest that starts in version v, as the test before it computes it. */
  function LastOf(log: Log, d: Request, v: nat): Pos
    requires Proper(log, d)
  {
    if Wraps(d) then Pos(v + 1, d.start + Sum(d.sizes) - 1 - (d.end - log.first + 1))
    else Pos(v, d.start + Sum(d.sizes) - 1)
  }

  /** Block q belongs to the digest. */
  predicate Covers(log: Log, d: Request, v: nat, q: Pos)
    requires Proper(log, d)
  {
    if Wraps(d) then (q.version == v && d.start <= q.block <= d.end)
                     || (q.version == v + 1 && log.first <= q.block <= LastOf(log, d, v).block)
    else q.version == v && d.start <= q.block < d.start + Sum(d.sizes)
  }

  function NextHeader(cur: nat, size: nat, first: nat, end: nat): nat
  {
    if cur + size - 1 == end then first else cur + size
  }

  /** Where the loop over the log headers ends, and whether it saw the next header move back. */
  function Headers(cur: nat, sizes: seq<nat>, first: nat, end: nat): (nat, bool)
  {
    if sizes == [] then (cur, false)
    else
      var (c, rotated) := Headers(cur, sizes[..|sizes| - 1], first, end);
      var next := NextHeader(c, sizes[|sizes| - 1], first, end);
      (next, rotated || c > next)
  }

  // ----- the state machine of a replica -----

  /** How far replication has come, and from where on the next digest is expected to start. */
  datatype State = State(front: Pos, next: Pos)

  datatype Step = Message(n: nat) | Digest(d: Request)

  /** The test that a digest waits for. */
  predicate Passes(log: Log, s: State, d: Request)
    requires Proper(log, d)
  {
    Below(LastOf(log, d, s.next.version), s.front)
  }

  /** The record of where the next digest starts, after a digest. */
  function Record(p: Pos, start: nat, rotated: bool): Pos
  {
    Pos(p.version + if rotated || p.block > start then 1 else 0, start)
  }

  function Digested(log: Log, p: Pos, d: Request): Pos
  {
    var (start, rotated) := Headers(d.start, d.sizes, log.first, d.end); Record(p, start, rotated)
  }

  function Then(log: Log, s: State, step: Step): State
  {
    match step
    case Message(n) => s.(front := Advance(log, s.front, n))
    case Digest(d) => s.(next := Digested(log, s.next, d))
  }

  function After(log: Log, s: State, steps: seq<Step>): State
  {
    if steps == [] then s else Then(log, After(log, s, steps[..|steps| - 1]), steps[|steps| - 1])
  }

  /** The digest starts at place p, and its headers stay in version v, or they fill it up to its last
      block and go on with the next version. There they end before block `start`: the writer does not
      write over blocks that wait for a digest. */
  ghost predicate FitsDigest(log: Log, last: nat -> nat, p: Pos, d: Request)
  {
    && d.start == p.block && d.sizes != [] && (forall i :: 0 <= i < |d.sizes| ==> d.sizes[i] > 0)
    && if d.end == 0 then d.start + Sum(d.sizes) - 1 <= last(p.version)
       else
         && d.start <= d.end == last(p.version)
         && (d.start + Sum(d.sizes) - 1 >= d.end ==>
               && (exists k :: 0 < k <= |d.sizes| && FillsUp(d, k))
               && log.first + (d.start + Sum(d.sizes) - 1 - d.end) <= d.start
               && log.first + (d.start + Sum(d.sizes) - 1 - d.end) <= last(p.version + 1) + 1)
  }

  predicate FillsUp(d: Request, k: nat) { k <= |d.sizes| && d.start + Sum(d.sizes[..k]) - 1 == d.end }

  /** One header fills the whole log. */
  predicate OneHeader(log: Log, d: Request)
  {
    d.sizes != [] && d.start == log.first && d.start + d.sizes[0] - 1 == d.end
  }

  ghost predicate Legal(log: Log, last: nat -> nat, s: State, step: Step)
  {
    match step
    case Message(n) => FitsMessage(log, last, s.front, n)
    case Digest(d) => FitsDigest(log, last, s.next, d) && !OneHeader(log, d) && Proper(log, d) && Passes(log, s, d)
  }

  ghost predicate LegalRun(log: Log, last: nat -> nat, s: State, steps: seq<Step>)
  {
    steps == [] || (LegalRun(log, last, s, steps[..|steps| - 1])
                    && Legal(log, last, After(log, s, steps[..|steps| - 1]), steps[|steps| - 1]))
  }

  // ----- the header loop -----

  lemma {:induction false} SumPrefix(ns: seq<nat>, k: nat)
    requires k <= |ns|
    ensures Sum(ns[..k]) <= Sum(ns)
    ensures (forall i :: 0 <= i < |ns| ==> ns[i] > 0) && k < |ns| ==> Sum(ns[..k]) < Sum(ns)
    decreases |ns|
  {
    if k == |ns| {
      assert ns[..k] == ns;
    } else {
      assert ns[..|ns| - 1][..k] == ns[..k];
      SumPrefix(ns[..|ns| - 1], k);
    }
  }

  /** Headers that end before block `end`, or that know of no end. */
  lemma {:induction false} HeadersInside(cur: nat, sizes: seq<nat>, first: nat, end: nat)
    requires first <= cur && 1 <= cur && (end == 0 || cur + Sum(sizes) <= end)
    requires forall i :: 0 <= i < |sizes| ==> sizes[i] > 0
    ensures Headers(cur, sizes, first, end) == (cur + Sum(sizes), false)
    decreases |sizes|
  {
    if sizes != [] {
      SumPrefix(sizes, |sizes| - 1);
      HeadersInside(cur, sizes[..|sizes| - 1], first, end);
    }
  }

  /** Headers of which the first k fill the version up, with the others far from its end. */
  lemma {:induction false} HeadersTurn(d: Request, sizes: seq<nat>, k: nat, first: nat)
    requires 1 <= first <= d.start <= d.end && 0 < k <= |sizes| && d.start + Sum(sizes[..k]) - 1 == d.end
    requires first + (d.start + Sum(sizes) - 1 - d.end) <= d.start && forall i :: 0 <= i < |sizes| ==> sizes[i] > 0
    ensures Headers(d.start, sizes, first, d.end)
            == (first + (d.start + Sum(sizes) - 1 - d.end), d.start > first || sizes[0] < d.end - d.start + 1)
    decreases |sizes|
  {
    var front, n := sizes[..|sizes| - 1], sizes[|sizes| - 1];
    SumPrefix(sizes, |sizes| - 1);
    if k == |sizes| {
      assert sizes[..k] == sizes;
      HeadersInside(d.start, front, first, d.end);
      if |sizes| > 1 {
        SumPrefix(sizes, 1);
        assert sizes[..1][..0] == [] && Sum(sizes[..1]) == Sum([]) + sizes[0];
      } else {
        assert front == [];
      }
    } else {
      assert front[..k] == sizes[..k];
      SumPrefix(sizes, k);
      HeadersTurn(d, front, k, first);
    }
  }

  // ----- one digest -----

  /** The loop over the headers turns at the end of the version, and sees it unless one header fills
      the whole log. */
  lemma {:induction false} Turns(log: Log, last: nat -> nat, p: Pos, d: Request)
    requires Uses(log, last) && Place(log, last, p) && FitsDigest(log, last, p, d)
    ensures Digested(log, p, d) ==
            if d.end != 0 && d.start + Sum(d.sizes) - 1 >= d.end then
              Pos(p.version + if OneHeader(log, d) then 0 else 1, log.first + (d.start + Sum(d.sizes) - 1 - d.end))
            else Pos(p.version, p.block + Sum(d.sizes))
  {
    if d.end != 0 && d.start + Sum(d.sizes) - 1 >= d.end {
      var k :| 0 < k <= |d.sizes| && FillsUp(d, k);
      HeadersTurn(d, d.sizes, k, log.first);
      assert d.sizes[..1][..0] == [] && Sum(d.sizes[..1]) == Sum([]) + d.sizes[0];
      assert d.sizes[..k][..1] == d.sizes[..1];
      SumPrefix(d.sizes[..k], 1);
    } else {
      HeadersInside(d.start, d.sizes, log.first, d.end);
    }
  }

  /** After a digest the record says where the next digest starts, with the right version, exactly
      when no single header fills the whole log. */
  lemma {:induction false} RecordExact(log: Log, last: nat -> nat, p: Pos, d: Request)
    requires Uses(log, last) && Place(log, last, p) && FitsDigest(log, last, p, d)
    ensures Place(log, last, Digested(log, p, d))
    ensures Index(log, last, Digested(log, p, d)) == Index(log, last, p) + Sum(d.sizes) <==> !OneHeader(log, d)
  {
    Turns(log, last, p, d);
    SumPrefix(d.sizes, 1);
    assert d.sizes[..1][..0] == [] && Sum(d.sizes[..1]) == Sum([]) + d.sizes[0];
    assert Base(log, last, p.version + 1) == Base(log, last, p.version) + (last(p.version) - log.first + 1);
  }

  /** Version 0 is one header of eight blocks: its digest leaves the record at version 0. */
  lemma {:induction false} OneHeaderFills()
    ensures var log, d := Log(1, 9), Request(1, [8], 8);
            && FitsDigest(log, v => 8, Pos(0, 1), d) && Digested(log, Pos(0, 1), d) == Pos(0, 1)
  {
    var d := Request(1, [8], 8);
    assert d.sizes[..0] == [] && d.sizes[..1] == d.sizes && Sum(d.sizes) == Sum([]) + 8;
    assert FillsUp(d, 1);
    assert Headers(1, [], 1, 8) == (1, false);
  }

  /** A digest covers the next blocks of the log. */
  lemma {:induction false} CoversNext(log: Log, last: nat -> nat, p: Pos, d: Request, q: Pos)
    requires Uses(log, last) && Place(log, last, p) && FitsDigest(log, last, p, d) && Proper(log, d)
             && Block(log, last, q)
    ensures Covers(log, d, p.version, q) <==> Index(log, last, p) <= Index(log, last, q) < Index(log, last, p) + Sum(d.sizes)
  {
    if Wraps(d) {
      var p' := Pos(p.version + 1, log.first);
      assert Base(log, last, p.version + 1) == Base(log, last, p.version) + (last(p.version) - log.first + 1);
      Stretch(log, last, p, d.end - d.start + 1, q);
      Stretch(log, last, p', Sum(d.sizes) - (d.end - d.start + 1), q);
    } else {
      Stretch(log, last, p, Sum(d.sizes), q);
    }
  }

  /** The test passes exactly when all blocks of the digest are in front of the frontier: it neither
      lets a digest through too early nor holds it back once they are there. */
  lemma {:induction false} TestExact(log: Log, last: nat -> nat, s: State, d: Request)
    requires Uses(log, last) && Place(log, last, s.front) && Place(log, last, s.next)
    requires FitsDigest(log, last, s.next, d) && Proper(log, d)
    ensures Passes(log, s, d) <==> Index(log, last, s.next) + Sum(d.sizes) <= Index(log, last, s.front)
  {
    var v := s.next.version;
    assert Base(log, last, v + 1) == Base(log, last, v) + (last(v) - log.first + 1);
    BelowIsLess(log, last, LastOf(log, d, v), s.front);
  }

  lemma {:induction false} CoveredUpToLast(log: Log, d: Request, v: nat, q: Pos)
    requires Proper(log, d) && Covers(log, d, v, q)
    ensures q == LastOf(log, d, v) || Below(q, LastOf(log, d, v))
  {
  }

  /** Whatever the lengths of the messages: a digest that passes the test finds all its blocks that are
      ever replicated, and it would pass the test at any later time too. */
  lemma {:induction false} TestIsSound(log: Log, p: Pos, ns: seq<nat>, ms: seq<nat>, next: Pos, d: Request, q: Pos)
    requires (forall k :: 0 <= k < |ms| ==> ms[k] > 0) && Proper(log, d)
    requires Passes(log, State(Frontier(log, p, ns), next), d)
    requires Covers(log, d, next.version, q) && Arrived(log, p, ns + ms, q)
    ensures Arrived(log, p, ns, q) && Passes(log, State(Frontier(log, p, ns + ms), next), d)
  {
    var end := LastOf(log, d, next.version);
    CoveredUpToLast(log, d, next.version, q);
    if q != end { BelowTwice(q, end, Frontier(log, p, ns)); }
    BelowHasArrived(log, p, ns, ms, q);
    FrontierMoves(log, p, ns, ms);
    BelowTwice(end, Frontier(log, p, ns), Frontier(log, p, ns + ms));
  }

  // ----- every run -----

  function Sent(steps: seq<Step>): seq<nat>
  {
    if steps == [] then []
    else
      var rest, step := Sent(steps[..|steps| - 1]), steps[|steps| - 1];
      if step.Message? then rest + [step.n] else rest
  }

  function Done(steps: seq<Step>): nat
  {
    if steps == [] then 0
    else
      var step := steps[|steps| - 1];
      Done(steps[..|steps| - 1]) + if step.Digest? then Sum(step.d.sizes) else 0
  }

  /** The frontier of a run is that of its messages. */
  lemma {:induction false} RunFrontier(log: Log, last: nat -> nat, s: State, steps: seq<Step>)
    requires LegalRun(log, last, s, steps)
    ensures After(log, s, steps).front == Frontier(log, s.front, Sent(steps))
            && FitsMessages(log, last, s.front, Sent(steps))
    decreases |steps|
  {
    if steps != [] {
      var front, step := steps[..|steps| - 1], steps[|steps| - 1];
      RunFrontier(log, last, s, front);
      if step.Message? {
        assert Sent(steps)[..|Sent(steps)| - 1] == Sent(front);
      }
    }
  }

  /** In every run the frontier counts the blocks that were sent and the record those that were
      digested; the record is a place of its version, and it never passes the frontier. */
  lemma {:induction false} RunSafe(log: Log, last: nat -> nat, p: Pos, steps: seq<Step>)
    requires Uses(log, last) && Place(log, last, p) && LegalRun(log, last, State(p, p), steps)
    ensures var s := After(log, State(p, p), steps);
            && Place(log, last, s.front) && Place(log, last, s.next)
            && Index(log, last, s.front) == Index(log, last, p) + Sum(Sent(steps))
            && Index(log, last, s.next) == Index(log, last, p) + Done(steps)
            && Index(log, last, s.next) <= Index(log, last, s.front)
    decreases |steps|
  {
    if steps != [] {
      var front, step := steps[..|steps| - 1], steps[|steps| - 1];
      RunSafe(log, last, p, front);
      var s := After(log, State(p, p), front);
      match step {
        case Message(n) =>
          MessageMoves(log, last, s.front, n);
          assert Sent(steps)[..|Sent(steps)| - 1] == Sent(front);
        case Digest(d) =>
          RecordExact(log, last, s.next, d);
          TestExact(log, last, s, d);
      }
    }
  }

  /** Whenever a digest of a run starts, all its blocks have arrived. */
  lemma {:induction false} DigestsArrived(log: Log, last: nat -> nat, p: Pos, steps: seq<Step>, d: Request, q: Pos)
    requires Uses(log, last) && Place(log, last, p) && LegalRun(log, last, State(p, p), steps)
    requires Legal(log, last, After(log, State(p, p), steps), Digest(d)) && Block(log, last, q)
    requires Covers(log, d, After(log, State(p, p), steps).next.version, q)
    ensures Arrived(log, p, Sent(steps), q)
  {
    var s := After(log, State(p, p), steps);
    RunSafe(log, last, p, steps);
    RunFrontier(log, last, State(p, p), steps);
    CoversNext(log, last, s.next, d, q);
    TestExact(log, last, s, d);
    ArrivedExactly(log, last, p, Sent(steps), q);
  }

  /** Step i of a run is a digest, and it covers block q. */
  predicate DigestsAt(log: Log, s: State, steps: seq<Step>, i: nat, q: Pos)
  {
    && i < |steps| && steps[i].Digest? && Proper(log, steps[i].d)
    && Covers(log, steps[i].d, After(log, s, steps[..i]).next.version, q)
  }

  /** Which blocks a step of a run digests. */
  lemma {:induction false} DigestsNext(log: Log, last: nat -> nat, p: Pos, steps: seq<Step>, i: nat, q: Pos)
    requires Uses(log, last) && Place(log, last, p) && LegalRun(log, last, State(p, p), steps) && Block(log, last, q)
    requires i < |steps|
    ensures DigestsAt(log, State(p, p), steps, i, q)
            <==> Index(log, last, p) + Done(steps[..i]) <= Index(log, last, q) < Index(log, last, p) + Done(steps[..i + 1])
    decreases |steps|
  {
    if i < |steps| - 1 {
      var front := steps[..|steps| - 1];
      assert front[..i] == steps[..i] && front[..i + 1] == steps[..i + 1];
      DigestsNext(log, last, p, front, i, q);
    } else {
      assert steps[..i + 1] == steps;
      RunSafe(log, last, p, steps[..i]);
      if steps[i].Digest? { CoversNext(log, last, After(log, State(p, p), steps[..i]).next, steps[i].d, q); }
    }
  }

  lemma {:induction false} DoneGrows(steps: seq<Step>, i: nat, j: nat)
    requires i <= j <= |steps|
    ensures Done(steps[..i]) <= Done(steps[..j])
    decreases j
  {
    if i < j {
      assert steps[..j][..j - 1] == steps[..j - 1];
      DoneGrows(steps, i, j - 1);
    }
  }

  /** No block of the log is digested twice. */
  lemma {:induction false} DigestedOnce(log: Log, last: nat -> nat, p: Pos, steps: seq<Step>, i: nat, j: nat, q: Pos)
    requires Uses(log, last) && Place(log, last, p) && LegalRun(log, last, State(p, p), steps) && Block(log, last, q)
    requires DigestsAt(log, State(p, p), steps, i, q) && DigestsAt(log, State(p, p), steps, j, q)
    ensures i == j
  {
    DigestsNext(log, last, p, steps, i, q);
    DigestsNext(log, last, p, steps, j, q);
    if i < j { DoneGrows(steps, i + 1, j); } else if j < i { DoneGrows(steps, j + 1, i); }
  }

  /** And none is left out: every block in front of the record has been digested, and no other. */
  lemma {:induction false} DigestedExactly(log: Log, last: nat -> nat, p: Pos, steps: seq<Step>, q: Pos)
    requires Uses(log, last) && Place(log, last, p) && LegalRun(log, last, State(p, p), steps) && Block(log, last, q)
    ensures (exists i: nat :: DigestsAt(log, State(p, p), steps, i, q))
            <==> Index(log, last, p) <= Index(log, last, q) < Index(log, last, p) + Done(steps)
  {
    assert steps[..0] == [] && steps[..|steps|] == steps;
    if i: nat :| DigestsAt(log, State(p, p), steps, i, q) {
      DigestsNext(log, last, p, steps, i, q);
      DoneGrows(steps, 0, i);
      DoneGrows(steps, i + 1, |steps|);
    } else if Index(log, last, p) <= Index(log, last, q) < Index(log, last, p) + Done(steps) {
      var i := 0;
      while i < |steps|
        invariant i <= |steps| && Index(log, last, p) + Done(steps[..i]) <= Index(log, last, q)
      {
        DigestsNext(log, last, p, steps, i, q);
        assert !DigestsAt(log, State(p, p), steps, i, q);
        i := i + 1;
      }
      assert false;
    }
  }

  // ----- a digest that starts in the next version -----

  /** The replica has digested version v up to its last block before the writer wrapped around. The
      next digest starts at the first block of version v + 1, with the old end. */
  ghost predicate Late(log: Log, last: nat -> nat, s: State, d: Request)
  {
    && s.next.block == last(s.next.version) + 1 && d.start == log.first && d.end == last(s.next.version)
    && d.sizes != [] && (forall i :: 0 <= i < |d.sizes| ==> d.sizes[i] > 0)
    && log.first + Sum(d.sizes) - 1 <= last(s.next.version + 1)
  }

  /** The test of such a digest passes whatever has arrived when the digest is not longer than the old
      version. A longer one is held back, but only until blocks have arrived that lie the length of the
      old version in front of its last one. */
  lemma {:induction false} LatePasses(log: Log, last: nat -> nat, s: State, d: Request)
    requires Uses(log, last) && Place(log, last, s.front) && Place(log, last, s.next) && Late(log, last, s, d)
    requires Index(log, last, s.next) <= Index(log, last, s.front)
    ensures Proper(log, d)
    ensures var v, end := s.next.version, d.start + Sum(d.sizes) - 1;
            && (Passes(log, s, d) <==> end <= d.end || Below(Pos(v + 1, end - (d.end - log.first + 1)), s.front))
            && (Below(Pos(v + 1, end), s.front) ==> Passes(log, s, d))
  {
    SumPrefix(d.sizes, 0);
    var v := s.next.version;
    if s.front.version < v { BaseGrows(log, last, s.front.version, v); }
    assert Base(log, last, v + 1) == Base(log, last, v) + (last(v) - log.first + 1);
  }

  /** Headers that start at the first block, with an end from the version before: where the loop turns,
      it loses blocks. */
  lemma {:induction false} LateHeaders(sizes: seq<nat>, first: nat, end: nat)
    requires 1 <= first <= end && forall i :: 0 <= i < |sizes| ==> sizes[i] > 0
    ensures var (c, rotated) := Headers(first, sizes, first, end);
            && first <= c <= first + Sum(sizes) && c != end + 1 && (rotated ==> c < first + Sum(sizes))
            && (first + Sum(sizes) <= end ==> c == first + Sum(sizes))
    decreases |sizes|
  {
    if sizes != [] {
      SumPrefix(sizes, |sizes| - 1);
      LateHeaders(sizes[..|sizes| - 1], first, end);
    }
  }

  /** After such a digest the record is right again exactly when the digest stayed in front of the old
      version's last block. */
  lemma {:induction false} LateExact(log: Log, last: nat -> nat, s: State, d: Request)
    requires Uses(log, last) && Place(log, last, s.next) && Late(log, last, s, d)
    ensures Digested(log, s.next, d) == Pos(s.next.version + 1, log.first + Sum(d.sizes))
            <==> log.first + Sum(d.sizes) <= last(s.next.version)
  {
    LateHeaders(d.sizes, log.first, d.end);
  }

  /** Eight blocks arrive and are digested, then the log wraps around: a digest of the next three
      passes the test although none of them has arrived. */
  lemma {:induction false} LateWitness()
    ensures var log, last, p, d := Log(1, 10), (v: nat) => 8, Pos(0, 1), Request(1, [3], 8);
            var steps := [Message(8), Digest(Request(1, [3, 5], 0))];
            && Uses(log, last) && LegalRun(log, last, State(p, p), steps)
            && var s := After(log, State(p, p), steps);
            && Late(log, last, s, d) && Proper(log, d) && Passes(log, s, d) && !Below(Pos(1, 1), s.front)
  {
    var log, last, p, d0 := Log(1, 10), (v: nat) => 8, Pos(0, 1), Request(1, [3, 5], 0);
    var steps := [Message(8), Digest(d0)];
    assert steps[..1] == [Message(8)] && steps[..1][..0] == [];
    assert [3, 5][..1] == [3] && [3][..0] == [];
    assert Sum([3]) == 3 && Sum([3, 5]) == 8;
    var s0, s1 := State(p, p), State(Pos(0, 9), p);
    assert After(log, s0, []) == s0;
    assert After(log, s0, steps[..1]) == Then(log, s0, Message(8)) == s1;
    assert LegalRun(log, last, s0, steps[..1]);
    assert Headers(1, [], 1, 0) == (1, false) && Headers(1, [3], 1, 0) == (4, false);
    assert Headers(1, [3, 5], 1, 0) == (9, false);
    assert After(log, s0, steps) == Then(log, s1, Digest(d0)) == State(Pos(0, 9), Pos(0, 9));
    assert Legal(log, last, s1, Digest(d0));
  }

  // ----- what a replica keeps about its peer -----

  class Peer {
    const log: Log
    var localStart: nat
    var availVersion: nat
    var startVersion: nat
    var startDigest: nat
    var remoteEnd: nat
    var toDigest: int
    var digesting: bool

    constructor (log: Log, start: nat)
      ensures this.log == log && View() == State(Pos(0, start), Pos(0, start)) && !digesting
    {
      this.log, localStart, availVersion, startVersion, startDigest := log, start, 0, 0, start;
      remoteEnd, toDigest, digesting := 0, 0, false;
    }

    function View(): State
      reads this
    {
      State(Pos(availVersion, localStart), Pos(startVersion, startDigest))
    }

    /** Note the arrival of n log blocks. */
    method HandleReplicate(n: nat)
      requires n > 0
      modifies this`localStart, this`availVersion
      ensures View() == Then(log, old(View()), Message(n)) && Below(old(View()).front, View().front)
    {
      if localStart + n > log.limit {
        localStart := log.first + n;
        availVersion := availVersion + 1;
      } else {
        localStart := localStart + n;
      }
    }

    /** May a digest of cnt blocks begin? The version of its start is taken from the record. */
    method MayDigest(d: Request, cnt: nat) returns (go: bool)
      requires Proper(log, d) && cnt == Sum(d.sizes)
      ensures go <==> Passes(log, View(), d)
    {
      var digestEnd, endVersion := d.start + cnt - 1, startVersion;
      if d.end != 0 && digestEnd > d.end {
        endVersion := startVersion + 1;
        digestEnd := d.start + cnt - 1 - (d.end - log.first + 1);
      }
      if endVersion == availVersion {
        go := localStart > digestEnd;
      } else {
        go := endVersion < availVersion;
      }
    }

    /** Take over the state of a finished digest and clear the mark. A start that moved back means
        that the log has wrapped around; the sender may use all of the log when no wrap is left. */
    method UpdateDigestState(start: nat, count: int, rotated: bool, nic: bool)
      modifies this`startDigest, this`startVersion, this`remoteEnd, this`toDigest, this`digesting
      ensures View() == old(View()).(next := Record(old(View()).next, start, rotated)) && !digesting
      ensures remoteEnd == if startVersion > old(startVersion) && startVersion == availVersion then 0 else old(remoteEnd)
      ensures toDigest == if nic then old(toDigest) - count else old(toDigest)
    {
      var turned := rotated || startDigest > start;
      startDigest, digesting := start, false;
      if nic {
        toDigest := toDigest - count;
      }
      if turned {
        startVersion := startVersion + 1;
        if startVersion == availVersion {
          remoteEnd := 0;
        }
      }
    }

    /** The loop over the log headers of a digest. */
    method DigestLogs(d: Request) returns (next: nat, rotated: bool)
      ensures (next, rotated) == Headers(d.start, d.sizes, log.first, d.end)
    {
      next, rotated := d.start, false;
      assert d.sizes[..0] == [];
      for i := 0 to |d.sizes|
        invariant (next, rotated) == Headers(d.start, d.sizes[..i], log.first, d.end)
      {
        assert d.sizes[..i + 1][..i] == d.sizes[..i];
        var header := if next + d.sizes[i] - 1 == d.end then log.first else next + d.sizes[i];
        if next > header {
          rotated := true;
        }
        next := header;
      }
      assert d.sizes[..|d.sizes|] == d.sizes;
    }

    /** Wait for replication: look at the frontier again and again until the digest may begin. `seen`
        holds the messages that arrive between two looks. */
    method WaitForReplication(d: Request, cnt: nat, seen: seq<nat>) returns (k: nat, ok: bool)
      requires Proper(log, d) && cnt == Sum(d.sizes) && forall i :: 0 <= i < |seen| ==> seen[i] > 0
      modifies this`localStart, this`availVersion
      ensures k <= |seen| && View() == After(log, old(View()), Messages(seen[..k]))
      ensures ok ==> Passes(log, View(), d)
      ensures !ok ==> k == |seen|
      ensures forall j :: 0 <= j < k ==> !Passes(log, After(log, old(View()), Messages(seen[..j])), d)
    {
      k := 0;
      while true
        invariant k <= |seen| && View() == After(log, old(View()), Messages(seen[..k]))
        invariant forall j :: 0 <= j < k ==> !Passes(log, After(log, old(View()), Messages(seen[..j])), d)
        decreases |seen| - k
      {
        ok := MayDigest(d, cnt);
        if ok || k == |seen| {
          return;
        }
        HandleReplicate(seen[k]);
        assert Messages(seen[..k + 1])[..k] == Messages(seen[..k]);
        k := k + 1;
      }
    }

    /** Serve a digest request: wait, digest, and take over the new state. */
    method HandleDigest(d: Request, cnt: nat, count: int, nic: bool, seen: seq<nat>) returns (k: nat, ok: bool)
      requires Proper(log, d) && cnt == Sum(d.sizes) && forall i :: 0 <= i < |seen| ==> seen[i] > 0
      modifies this
      ensures k <= |seen| && (ok ==> Passes(log, After(log, old(View()), Messages(seen[..k])), d))
      ensures View() == After(log, old(View()), Messages(seen[..k]) + if ok then [Digest(d)] else [])
      ensures forall j :: 0 <= j < k ==> !Passes(log, After(log, old(View()), Messages(seen[..j])), d)
      ensures digesting == if ok then false else old(digesting)
      ensures toDigest == if ok && nic then old(toDigest) - count else old(toDigest)
      ensures remoteEnd == if startVersion > old(startVersion) && startVersion == availVersion then 0 else old(remoteEnd)
      ensures !ok ==> startVersion == old(startVersion) && startDigest == old(startDigest)
    {
      k, ok := WaitForReplication(d, cnt, seen);
      ghost var steps := Messages(seen[..k]);
      assert steps + [] == steps && (steps + [Digest(d)])[..|steps|] == steps;
      if ok {
        digesting := true;
        var next, rotated := DigestLogs(d);
        UpdateDigestState(next, count, rotated, nic);
      }
    }
  }

  function Messages(ns: seq<nat>): seq<Step> { seq(|ns|, i requires 0 <= i < |ns| => Message(ns[i])) }
}
