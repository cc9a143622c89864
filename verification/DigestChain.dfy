/** Digest requests that travel down a chain of kernel file systems, and their completions that
    travel back (kernfs/fs.c). */
module DigestChain {

  /** How far one node has got with one request. */
  datatype Stage = NotYet | Arrived | Marked | Relayed | Digested | Persisted | Ready | Responded

  function Rank(x: Stage): nat
  {
    match x
    case NotYet => 0 case Arrived => 1 case Marked => 2 case Relayed => 3
    case Digested => 4 case Persisted => 5 case Ready => 6 case Responded => 7
  }

  /** Row r of `rows` says how far each node has got with request r. Each node has one digesting
      mark. Requests and completions are on their way to a node. */
  datatype State = State(rows: seq<seq<Stage>>, marks: seq<bool>, requests: set<(nat, nat)>, completions: set<(nat, nat)>) {
    function At(i: nat, r: nat): Stage
      requires r < |rows| && i < |rows[r]|
    {
      rows[r][i]
    }

    /** The state with node i at stage x of request r. */
    function To(i: nat, r: nat, x: Stage): State
      requires r < |rows| && i < |rows[r]|
    {
      this.(rows := rows[r := rows[r][i := x]])
    }
  }

  ghost predicate Square(s: State) { forall r :: 0 <= r < |s.rows| ==> |s.rows[r]| == |s.marks| }

  datatype Step =
    | Submit                        // a client hands a new request to the first node
    | Receive(i: nat, r: nat)
    | SetMark(i: nat, r: nat)       // wait for the mark to be clear, and set it
    | Relay(i: nat, r: nat)         // pass the request on, unless this node is the last
    | Digest(i: nat, r: nat)
    | Persist(i: nat, r: nat)
    | Wait(i: nat, r: nat)          // the last node clears its mark; the others wait until theirs is clear
    | Respond(i: nat, r: nat)
    | Complete(i: nat, r: nat)      // the completion of the next node arrives and clears the mark

  predicate Last(s: State, i: nat) { i + 1 == |s.marks| }

  predicate InRange(s: State, i: nat, r: nat) { r < |s.rows| && i < |s.marks| && i < |s.rows[r]| }

  predicate Enabled(s: State, a: Step)
  {
    match a
    case Submit => true
    case Receive(i, r) => InRange(s, i, r) && (i, r) in s.requests
    case SetMark(i, r) => InRange(s, i, r) && s.At(i, r) == Arrived && !s.marks[i]
    case Relay(i, r) => InRange(s, i, r) && s.At(i, r) == Marked
    case Digest(i, r) => InRange(s, i, r) && s.At(i, r) == Relayed
    case Persist(i, r) => InRange(s, i, r) && s.At(i, r) == Digested
    case Wait(i, r) => InRange(s, i, r) && s.At(i, r) == Persisted && (Last(s, i) || !s.marks[i])
    case Respond(i, r) => InRange(s, i, r) && s.At(i, r) == Ready
    case Complete(i, r) => InRange(s, i, r) && (i, r) in s.completions
  }

  function Apply(s: State, a: Step): State
    requires Enabled(s, a)
  {
    match a
    case Submit =>
      s.(rows := s.rows + [seq(|s.marks|, _ => NotYet)],
         requests := if s.marks == [] then s.requests else s.requests + {(0, |s.rows|)})
    case Receive(i, r) => s.To(i, r, Arrived).(requests := s.requests - {(i, r)})
    case SetMark(i, r) => s.To(i, r, Marked).(marks := s.marks[i := true])
    case Relay(i, r) =>
      var t := s.To(i, r, Relayed);
      if Last(s, i) then t else t.(requests := s.requests + {(i + 1, r)})
    case Digest(i, r) => s.To(i, r, Digested)
    case Persist(i, r) => s.To(i, r, Persisted)
    case Wait(i, r) =>
      var t := s.To(i, r, Ready);
      if Last(s, i) then t.(marks := s.marks[i := false]) else t
    case Respond(i, r) =>
      var t := s.To(i, r, Responded);
      if i == 0 then t else t.(completions := s.completions + {(i - 1, r)})
    case Complete(i, r) => s.(completions := s.completions - {(i, r)}, marks := s.marks[i := false])
  }

  // ----- what every step keeps -----

  /** Node i has set its mark for request r and the mark has not been cleared since. */
  predicate Holds(s: State, i: nat, r: nat)
    requires InRange(s, i, r)
  {
    && Rank(Marked) <= Rank(s.At(i, r)) <= Rank(Persisted)
    && (i + 1 < |s.rows[r]| ==> s.At(i + 1, r) != Responded || (i, r) in s.completions)
  }

  /** What is known about request r at node i and between nodes i and i + 1. */
  predicate Linked(s: State, i: nat, r: nat)
    requires InRange(s, i, r)
  {
    && ((i, r) in s.requests ==> s.At(i, r) == NotYet)
    && (i == 0 && s.At(i, r) == NotYet ==> (i, r) in s.requests)
    && ((i, r) in s.completions ==> i + 1 < |s.rows[r]| && s.At(i + 1, r) == Responded && Rank(s.At(i, r)) < Rank(Ready))
    && (i + 1 < |s.rows[r]| ==>
          && (Rank(s.At(i, r)) < Rank(Relayed) ==> s.At(i + 1, r) == NotYet && (i + 1, r) !in s.requests)
          && (Rank(s.At(i, r)) >= Rank(Relayed) && s.At(i + 1, r) == NotYet ==> (i + 1, r) in s.requests)
          && (Rank(s.At(i, r)) >= Rank(Ready) ==> s.At(i + 1, r) == Responded))
  }

  /** `owners` names, for every node whose mark is set, the request that the mark was set for. */
  ghost predicate Inv(s: State, owners: seq<int>)
  {
    && Square(s) && |owners| == |s.marks|
    && (forall m :: m in s.requests || m in s.completions ==> m.1 < |s.rows| && m.0 < |s.marks|)
    && (forall i: nat, r: nat :: r < |s.rows| && i < |s.rows[r]| ==> Linked(s, i, r))
    && (forall i: nat, r: nat :: r < |s.rows| && i < |s.rows[r]| ==> (Holds(s, i, r) <==> owners[i] == r))
    && (forall i: nat :: i < |s.marks| ==> (s.marks[i] <==> owners[i] >= 0) && owners[i] < |s.rows|)
  }

  /** The owner of node i's mark after a step, given the owner before. */
  function OwnerAfter(s: State, owner: int, a: Step, i: nat): int
    requires Enabled(s, a)
  {
    match a
    case SetMark(j, r) => if i == j then r else owner
    case Wait(j, r) => if i == j && Last(s, j) then -1 else owner
    case Complete(j, r) => if i == j then -1 else owner
    case _ => owner
  }

  /** A step of node a.i for request a.r, seen at node i and request r. */
  lemma {:induction false} StepLinked(s: State, a: Step, i: nat, r: nat)
    requires Square(s) && a != Submit && Enabled(s, a) && InRange(s, i, r)
    requires Linked(s, i, r) && Linked(s, a.i, a.r) && (a.i > 0 ==> Linked(s, a.i - 1, a.r))
    requires a.Wait? && !Last(s, a.i) ==> !Holds(s, a.i, a.r)
    ensures InRange(Apply(s, a), i, r) && Linked(Apply(s, a), i, r)
  {
    NextCell(s, a, i, r);
    if i + 1 < |s.rows[r]| { NextCell(s, a, i + 1, r); }
  }

  lemma {:induction false} NextCell(s: State, a: Step, i: nat, r: nat)
    requires Square(s) && a != Submit && Enabled(s, a) && InRange(s, i, r)
    ensures var s' := Apply(s, a);
            InRange(s', i, r) && |s'.rows[r]| == |s.rows[r]| && ((i, r) != (a.i, a.r) ==> s'.At(i, r) == s.At(i, r))
  {
  }

  /** What a step may rely on at the node that takes it. */
  ghost predicate OwnerFits(s: State, a: Step, owner: int)
    requires Square(s) && a != Submit && Enabled(s, a)
  {
    match a
    case SetMark(i, r) => owner < 0
    case Complete(i, r) => owner == r
    case Wait(i, r) => if Last(s, i) then owner == r else owner < 0
    case _ => true
  }

  lemma {:induction false} StepHolds(s: State, a: Step, i: nat, r: nat, owner: int)
    requires Square(s) && a != Submit && Enabled(s, a) && InRange(s, i, r)
    requires Linked(s, i, r) && Linked(s, a.i, a.r) && (a.i > 0 ==> Linked(s, a.i - 1, a.r))
    requires (Holds(s, i, r) <==> owner == r) && (i == a.i ==> OwnerFits(s, a, owner))
    ensures InRange(Apply(s, a), i, r) && (Holds(Apply(s, a), i, r) <==> OwnerAfter(s, owner, a, i) == r)
  {
    NextCell(s, a, i, r);
    if i + 1 < |s.rows[r]| { NextCell(s, a, i + 1, r); }
  }

  lemma {:induction false} OwnerIsFit(s: State, owners: seq<int>, a: Step)
    requires Inv(s, owners) && a != Submit && Enabled(s, a)
    ensures InRange(s, a.i, a.r) && OwnerFits(s, a, owners[a.i])
  {
    assert Linked(s, a.i, a.r);
    assert Holds(s, a.i, a.r) <==> owners[a.i] == a.r;
  }

  function OwnersAfter(s: State, owners: seq<int>, a: Step): seq<int>
    requires Enabled(s, a)
  {
    seq(|owners|, i requires 0 <= i < |owners| => OwnerAfter(s, owners[i], a, i))
  }

  lemma {:induction false} StepFrame(s: State, owners: seq<int>, a: Step)
    requires Inv(s, owners) && a != Submit && Enabled(s, a)
    ensures var s', o' := Apply(s, a), OwnersAfter(s, owners, a);
            && Square(s') && |o'| == |s'.marks| && |s'.rows| == |s.rows|
            && (forall m :: m in s'.requests || m in s'.completions ==> m.1 < |s'.rows| && m.0 < |s'.marks|)
            && (forall i: nat :: i < |s'.marks| ==> (s'.marks[i] <==> o'[i] >= 0) && o'[i] < |s'.rows|)
  {
    OwnerIsFit(s, owners, a);
  }

  /** Every step of every node keeps the invariant. */
  lemma {:induction false} StepKeeps(s: State, owners: seq<int>, a: Step)
    requires Inv(s, owners) && a != Submit && Enabled(s, a)
    ensures Inv(Apply(s, a), OwnersAfter(s, owners, a))
  {
    var s', o' := Apply(s, a), OwnersAfter(s, owners, a);
    StepFrame(s, owners, a);
    OwnerIsFit(s, owners, a);
    assert Linked(s, a.i, a.r);
    assert Holds(s, a.i, a.r) <==> owners[a.i] == a.r;
    if a.i > 0 { assert Linked(s, a.i - 1, a.r); }
    forall i: nat, r: nat | r < |s'.rows| && i < |s'.rows[r]| ensures Linked(s', i, r) {
      assert InRange(s, i, r) && Linked(s, i, r);
      StepLinked(s, a, i, r);
    }
    forall i: nat, r: nat | r < |s'.rows| && i < |s'.rows[r]| ensures Holds(s', i, r) <==> o'[i] == r {
      assert InRange(s, i, r) && Linked(s, i, r);
      assert Holds(s, i, r) <==> owners[i] == r;
      StepHolds(s, a, i, r, owners[i]);
    }
  }

  /** A new request keeps it too. */
  lemma {:induction false} SubmitKeeps(s: State, owners: seq<int>)
    requires Inv(s, owners)
    ensures Inv(Apply(s, Submit), owners)
  {
    var s' := Apply(s, Submit);
    forall i: nat, r: nat | r < |s'.rows| && i < |s'.rows[r]| ensures Linked(s', i, r) {
      if r < |s.rows| { assert Linked(s, i, r); }
    }
    forall i: nat, r: nat | r < |s'.rows| && i < |s'.rows[r]| ensures Holds(s', i, r) <==> owners[i] == r {
      if r < |s.rows| { assert Holds(s, i, r) <==> owners[i] == r; }
    }
  }

  // ----- runs -----

  function Init(n: nat): State { State([], seq(n, _ => false), {}, {}) }

  /** Every step of the run is possible when it is taken. */
  predicate IsRun(s: State, run: seq<Step>)
    decreases |run|
  {
    run == [] || (Enabled(s, run[0]) && IsRun(Apply(s, run[0]), run[1..]))
  }

  function After(s: State, run: seq<Step>): State
    requires IsRun(s, run)
    decreases |run|
  {
    if run == [] then s else After(Apply(s, run[0]), run[1..])
  }

  lemma {:induction false} RunKeeps(s: State, owners: seq<int>, run: seq<Step>) returns (owners': seq<int>)
    requires Inv(s, owners) && IsRun(s, run)
    ensures Inv(After(s, run), owners') && |After(s, run).marks| == |s.marks|
    decreases |run|
  {
    if run == [] {
      owners' := owners;
    } else if run[0] == Submit {
      SubmitKeeps(s, owners);
      owners' := RunKeeps(Apply(s, Submit), owners, run[1..]);
    } else {
      StepKeeps(s, owners, run[0]);
      owners' := RunKeeps(Apply(s, run[0]), OwnersAfter(s, owners, run[0]), run[1..]);
    }
  }

  lemma {:induction false} Reachable(n: nat, run: seq<Step>) returns (owners: seq<int>)
    requires IsRun(Init(n), run)
    ensures Inv(After(Init(n), run), owners) && |After(Init(n), run).marks| == n
  {
    owners := RunKeeps(Init(n), seq(n, _ => -1), run);
  }

  // ----- what happened before -----

  /** The step that takes node i to stage x of request r. */
  function StepTo(x: Stage, i: nat, r: nat): Step
    requires x != NotYet
  {
    match x
    case Arrived => Receive(i, r)
    case Marked => SetMark(i, r)
    case Relayed => Relay(i, r)
    case Digested => Digest(i, r)
    case Persisted => Persist(i, r)
    case Ready => Wait(i, r)
    case Responded => Respond(i, r)
  }

  lemma {:induction false} RunPrefix(s: State, run: seq<Step>, k: nat)
    requires IsRun(s, run) && k < |run|
    ensures IsRun(s, run[..k]) && Enabled(After(s, run[..k]), run[k])
    ensures IsRun(s, run[..k + 1]) && After(s, run[..k + 1]) == Apply(After(s, run[..k]), run[k])
    decreases |run|
  {
    var s' := Apply(s, run[0]);
    if k == 0 {
      assert run[..0] == [] && run[..1] == [run[0]] && run[..1][1..] == [];
    } else {
      RunPrefix(s', run[1..], k - 1);
      assert run[..k][1..] == run[1..][..k - 1] && run[..k + 1][1..] == run[1..][..k];
    }
  }

  lemma {:induction false} RunWhole(s: State, run: seq<Step>)
    requires IsRun(s, run) && run != []
    ensures IsRun(s, run[..|run| - 1]) && Enabled(After(s, run[..|run| - 1]), run[|run| - 1])
    ensures After(s, run) == Apply(After(s, run[..|run| - 1]), run[|run| - 1])
  {
    RunPrefix(s, run, |run| - 1);
    assert run[..|run|] == run;
  }

  /** Step a is among the first k steps of the run. */
  predicate Happened(run: seq<Step>, k: nat, a: Step) { k <= |run| && a in run[..k] }

  /** What one step does to the stage of a node. */
  lemma {:induction false} CellStep(s: State, a: Step, i: nat, r: nat)
    requires Square(s) && Enabled(s, a) && InRange(Apply(s, a), i, r)
    ensures Square(Apply(s, a))
    ensures var x' := Apply(s, a).At(i, r);
            || (!InRange(s, i, r) && x' == NotYet)
            || (InRange(s, i, r) && x' == s.At(i, r))
            || (InRange(s, i, r) && x' != NotYet && a == StepTo(x', i, r) && Rank(x') <= Rank(s.At(i, r)) + 1)
  {
  }

  /** A node has got to a stage only through the steps that lead there. */
  lemma {:induction false} StagesHappened(n: nat, run: seq<Step>, i: nat, r: nat, x: Stage)
    requires IsRun(Init(n), run) && InRange(After(Init(n), run), i, r) && Square(After(Init(n), run))
    requires x != NotYet && Rank(x) <= Rank(After(Init(n), run).At(i, r))
    ensures Happened(run, |run|, StepTo(x, i, r))
    decreases |run|
  {
    if run != [] {
      var front, a := run[..|run| - 1], run[|run| - 1];
      RunWhole(Init(n), run);
      var owners := Reachable(n, front);
      var s := After(Init(n), front);
      CellStep(s, a, i, r);
      assert run == front + [a];
      if a != StepTo(x, i, r) { StagesHappened(n, front, i, r, x); }
    }
  }

  /** A node takes the steps of a request in order: it receives the request, sets its mark, passes the
      request on, digests, persists, waits and answers. */
  lemma {:induction false} StepsInOrder(n: nat, run: seq<Step>, k: nat, i: nat, r: nat, x: Stage, y: Stage)
    requires IsRun(Init(n), run) && k < |run| && y != NotYet && run[k] == StepTo(y, i, r)
    requires x != NotYet && Rank(x) < Rank(y)
    ensures Happened(run, k, StepTo(x, i, r))
  {
    RunPrefix(Init(n), run, k);
    var owners := Reachable(n, run[..k]);
    StagesHappened(n, run[..k], i, r, x);
    assert run[..k][..k] == run[..k];
  }

  /** A node receives a request only after the node in front has passed it on. */
  lemma {:induction false} RelayedFirst(n: nat, run: seq<Step>, k: nat, i: nat, r: nat)
    requires IsRun(Init(n), run) && k < |run| && run[k] == Receive(i + 1, r)
    ensures Happened(run, k, Relay(i, r))
  {
    RunPrefix(Init(n), run, k);
    var owners := Reachable(n, run[..k]);
    assert Linked(After(Init(n), run[..k]), i, r);
    StagesHappened(n, run[..k], i, r, Relayed);
    assert run[..k][..k] == run[..k];
  }

  lemma {:induction false} AnswerMeans(s: State, owners: seq<int>, i: nat, j: nat, r: nat)
    requires Inv(s, owners) && InRange(s, i, r) && i <= j < |s.rows[r]| && s.At(i, r) == Responded
    ensures s.At(j, r) == Responded
    decreases j - i
  {
    if i < j {
      assert Linked(s, i, r);
      AnswerMeans(s, owners, i + 1, j, r);
    }
  }

  /** In every run, a node that has answered a request, and every node after it in the chain, has
      digested and persisted the request. */
  lemma {:induction false} AnswersAreDurable(n: nat, run: seq<Step>, i: nat, j: nat, r: nat)
    requires IsRun(Init(n), run) && i <= j && InRange(After(Init(n), run), i, r) && InRange(After(Init(n), run), j, r)
    requires After(Init(n), run).At(i, r) == Responded
    ensures Rank(After(Init(n), run).At(j, r)) >= Rank(Persisted)
    ensures Happened(run, |run|, Digest(j, r)) && Happened(run, |run|, Persist(j, r))
  {
    var owners := Reachable(n, run);
    AnswerMeans(After(Init(n), run), owners, i, j, r);
    StagesHappened(n, run, j, r, Digested);
    StagesHappened(n, run, j, r, Persisted);
  }

  /** The wait of a node ends only after every node behind it has answered. */
  lemma {:induction false} NextAnswersFirst(n: nat, run: seq<Step>, k: nat, i: nat, j: nat, r: nat)
    requires IsRun(Init(n), run) && k < |run| && run[k] == Wait(i, r) && i < j < n
    ensures Happened(run, k, Respond(j, r))
  {
    RunPrefix(Init(n), run, k);
    var s := After(Init(n), run[..k]);
    var owners := Reachable(n, run[..k]);
    OwnerIsFit(s, owners, Wait(i, r));
    assert Holds(s, i, r) <==> owners[i] == r;
    AnswerMeans(s, owners, i + 1, j, r);
    StagesHappened(n, run[..k], j, r, Responded);
    assert run[..k][..k] == run[..k];
  }

  /** A completion reaches a node only after the next node has answered. */
  lemma {:induction false} CompletedAfterAnswer(n: nat, run: seq<Step>, k: nat, i: nat, r: nat)
    requires IsRun(Init(n), run) && k < |run| && run[k] == Complete(i, r)
    ensures Happened(run, k, Respond(i + 1, r))
  {
    RunPrefix(Init(n), run, k);
    var owners := Reachable(n, run[..k]);
    assert Linked(After(Init(n), run[..k]), i, r);
    StagesHappened(n, run[..k], i + 1, r, Responded);
    assert run[..k][..k] == run[..k];
  }

  /** In every run a node works on one request at a time, from setting its mark to clearing it. */
  lemma {:induction false} OneAtATime(n: nat, run: seq<Step>, i: nat, q: nat, r: nat)
    requires IsRun(Init(n), run) && InRange(After(Init(n), run), i, q) && InRange(After(Init(n), run), i, r)
    requires Holds(After(Init(n), run), i, q) && Holds(After(Init(n), run), i, r)
    ensures q == r
  {
    var owners := Reachable(n, run);
  }

  lemma {:induction false} HappenedEarlier(run: seq<Step>, k: nat, m: nat, a: Step)
    requires Happened(run, k, a) && k <= m <= |run|
    ensures Happened(run, m, a)
  {
    var i :| 0 <= i < |run[..k]| && run[..k][i] == a;
    assert run[..m][i] == a;
  }

  /** When a node answers a request, it and every node after it in the chain have persisted the request
      before, and digested it before that. */
  lemma {:induction false} DurableBeforeAnswer(n: nat, run: seq<Step>, k: nat, i: nat, j: nat, r: nat) returns (p: nat)
    requires IsRun(Init(n), run) && k < |run| && run[k] == Respond(i, r) && i <= j < n
    ensures p < k && run[p] == Persist(j, r) && Happened(run, p, Digest(j, r))
  {
    if i == j {
      StepsInOrder(n, run, k, i, r, Persisted, Responded);
    } else {
      StepsInOrder(n, run, k, i, r, Ready, Responded);
      var w :| 0 <= w < |run[..k]| && run[..k][w] == Wait(i, r);
      NextAnswersFirst(n, run, w, i, j, r);
      var q :| 0 <= q < |run[..w]| && run[..w][q] == Respond(j, r);
      StepsInOrder(n, run, q, j, r, Persisted, Responded);
      HappenedEarlier(run, q, k, Persist(j, r));
    }
    var m :| 0 <= m < |run[..k]| && run[..k][m] == Persist(j, r);
    p := m;
    StepsInOrder(n, run, p, j, r, Digested, Persisted);
  }

  // ----- progress -----

  /** No node can take a step. */
  ghost predicate Idle(s: State) { forall a: Step :: a != Submit ==> !Enabled(s, a) }

  /** Going down the chain, an idle node that has not answered must wait for the next one. */
  lemma {:induction false} NobodyWaits(s: State, owners: seq<int>, i: nat, r: nat)
    requires Inv(s, owners) && Idle(s) && InRange(s, i, r)
    ensures s.At(i, r) == NotYet || s.At(i, r) == Responded
    decreases |s.marks| - i
  {
    var x := s.At(i, r);
    assert !Enabled(s, Relay(i, r)) && !Enabled(s, Digest(i, r)) && !Enabled(s, Persist(i, r)) && !Enabled(s, Respond(i, r));
    assert !Enabled(s, SetMark(i, r)) && !Enabled(s, Wait(i, r));
    if x == Arrived || x == Persisted {
      assert s.marks[i];
      var q := owners[i];
      assert Holds(s, i, q);
      assert !Enabled(s, Relay(i, q)) && !Enabled(s, Digest(i, q)) && !Enabled(s, Persist(i, q)) && !Enabled(s, Wait(i, q));
      assert !Enabled(s, Complete(i, q));
      assert Linked(s, i, q);
      assert !Enabled(s, Receive(i + 1, q));
      NobodyWaits(s, owners, i + 1, q);
    }
  }

  /** In every run no completion is lost: when no node can go on, every request has been answered. */
  lemma {:induction false} NeverStuck(n: nat, run: seq<Step>, r: nat)
    requires IsRun(Init(n), run) && InRange(After(Init(n), run), 0, r) && Idle(After(Init(n), run))
    ensures After(Init(n), run).At(0, r) == Responded
  {
    var s := After(Init(n), run);
    var owners := Reachable(n, run);
    NobodyWaits(s, owners, 0, r);
    assert Linked(s, 0, r);
    assert !Enabled(s, Receive(0, r));
  }

  /** The work left for one request, and for all. */
  function RowWork(row: seq<Stage>): nat
  {
    if row == [] then 0 else (7 - Rank(row[0])) + RowWork(row[1..])
  }

  function RowsWork(rows: seq<seq<Stage>>): nat
  {
    if rows == [] then 0 else RowWork(rows[0]) + RowsWork(rows[1..])
  }

  function Work(s: State): nat { 2 * RowsWork(s.rows) + |s.requests| + |s.completions| }

  lemma {:induction false} RowStep(row: seq<Stage>, i: nat, x: Stage)
    requires i < |row| && Rank(x) > Rank(row[i])
    ensures RowWork(row[i := x]) < RowWork(row)
  {
    if i > 0 {
      assert row[i := x][1..] == row[1..][i - 1 := x];
      RowStep(row[1..], i - 1, x);
    }
  }

  lemma {:induction false} RowsStep(rows: seq<seq<Stage>>, r: nat, row: seq<Stage>)
    requires r < |rows| && RowWork(row) < RowWork(rows[r])
    ensures RowsWork(rows[r := row]) < RowsWork(rows)
  {
    if r > 0 {
      assert rows[r := row][1..] == rows[1..][r - 1 := row];
      RowsStep(rows[1..], r - 1, row);
    }
  }

  lemma {:induction false} StepWorks(s: State, a: Step)
    requires a != Submit && Enabled(s, a) && (a.Receive? ==> s.At(a.i, a.r) == NotYet)
    ensures Work(Apply(s, a)) < Work(s)
  {
    var s' := Apply(s, a);
    if !a.Complete? {
      RowStep(s.rows[a.r], a.i, s'.At(a.i, a.r));
      RowsStep(s.rows, a.r, s'.rows[a.r]);
    }
  }

  /** Without new requests every run ends. */
  lemma {:induction false} RunsEnd(s: State, owners: seq<int>, run: seq<Step>)
    requires Inv(s, owners) && IsRun(s, run) && forall k :: 0 <= k < |run| ==> run[k] != Submit
    ensures |run| <= Work(s)
    decreases |run|
  {
    if run != [] {
      var a := run[0];
      assert Enabled(s, a);
      if a.Receive? { assert Linked(s, a.i, a.r); }
      StepWorks(s, a);
      StepKeeps(s, owners, a);
      RunsEnd(Apply(s, a), OwnersAfter(s, owners, a), run[1..]);
    }
  }
}
