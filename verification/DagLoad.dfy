/** Sequential loading of the DAG: the turn-taking in `Miner::initEpoch` of `libethcore/Miner.cpp`,
    as interleaved atomic steps of `n` miners over the static `s_dagLoadIndex`. */
module DagLoad {
  import opened Arith

  /** Where a miner stands in `initEpoch`. */
  datatype Pc =
    | Idle       // not in initEpoch
    | Waiting    // in the loop that waits for its turn
    | Loading    // inside initEpoch_internal
    | Storing    // about to store m_index + 1
    | Wrapping   // about to compare with the number of miners

  /** `turn` is `s_dagLoadIndex`. `loads[i]` counts miner `i`'s completed loads and `entered` lists who
      entered `initEpoch_internal`, in order; both only record. */
  datatype S = S(turn: nat, pc: seq<Pc>, loads: seq<nat>, entered: seq<nat>)

  ghost predicate Init(s: S, n: nat) {
    && s.turn == 0 && s.entered == [] && |s.pc| == n && |s.loads| == n
    && forall i | 0 <= i < n :: s.pc[i] == Idle && s.loads[i] == 0
  }

  /** No miner has completed fewer loads than miner `i`: it starts a new round only when everyone
      is done with the last one. */
  ghost predicate RoundOver(s: S, i: nat)
    requires i < |s.pc| == |s.loads|
  {
    forall j | 0 <= j < |s.loads| :: s.loads[i] <= s.loads[j]
  }

  /** One step of miner `i`, which is not stopping. A new load may start at any time. */
  ghost predicate MinerNext(s: S, t: S, i: nat)
    requires i < |s.pc| == |s.loads|
  {
    match s.pc[i]
    case Idle => t == s.(pc := s.pc[i := Waiting])
    case Waiting =>
      t == if s.turn < i then s else s.(pc := s.pc[i := Loading], entered := s.entered + [i])
    case Loading => t == s.(pc := s.pc[i := Storing])
    case Storing => t == s.(pc := s.pc[i := Wrapping], turn := i + 1)
    case Wrapping =>
      t == s.(pc := s.pc[i := Idle], loads := s.loads[i := s.loads[i] + 1],
              turn := if |s.pc| == s.turn then 0 else s.turn)
  }

  /** One step of any miner, with loads grouped in rounds. */
  ghost predicate Next(s: S, t: S) {
    && |s.pc| == |s.loads|
    && exists i: nat | i < |s.pc| :: MinerNext(s, t, i) && (s.pc[i] == Idle ==> RoundOver(s, i))
  }

  ghost predicate Run(r: seq<S>, n: nat) {
    r != [] && Init(r[0], n) && forall i | 0 < i < |r| :: StepTo(r, i)
  }

  ghost predicate StepTo(r: seq<S>, i: nat)
    requires 0 < i < |r|
  {
    Next(r[i - 1], r[i])
  }

  predicate Inside(p: Pc) {
    p == Loading || p == Storing
  }

  /** A miner whose turn in this round is over: it has stored the next turn and is, or is not yet,
      past the comparison that may wrap it. */
  predicate Served(pc: Pc, loads: nat, round: nat) {
    (pc == Wrapping && loads == round) || (pc == Idle && loads == round + 1)
  }

  /** A miner whose turn in this round is still to come. */
  predicate Queued(pc: Pc, loads: nat, round: nat) {
    (pc == Idle || pc == Waiting) && loads == round
  }

  /** In round `round` it is miner `p`'s turn: those before it have been served, those after it are
      queued, and only it can be inside `initEpoch_internal`. With `p == n` everyone has been served
      and someone has yet to wrap. */
  ghost predicate At(s: S, n: nat, round: nat, p: nat) {
    && |s.pc| == n && |s.loads| == n && p <= n
    && (forall i | 0 <= i < p :: Served(s.pc[i], s.loads[i], round))
    && (forall i | p < i < n :: Queued(s.pc[i], s.loads[i], round))
    && (if p < n
        then s.turn == p && (Queued(s.pc[p], s.loads[p], round) || (Inside(s.pc[p]) && s.loads[p] == round))
        else (s.turn == 0 || (s.turn == n && s.pc[n - 1] == Wrapping)) && exists i | 0 <= i < n :: s.loads[i] == round)
    && |s.entered| == n * round + p + (if p < n && Inside(s.pc[p]) then 1 else 0)
  }

  ghost predicate InOrder(entered: seq<nat>, n: nat)
    requires n > 0
  {
    forall k | 0 <= k < |entered| :: entered[k] == k % n
  }

  lemma InitAt(s: S, n: nat)
    requires n > 0 && Init(s, n)
    ensures At(s, n, 0, 0) && InOrder(s.entered, n)
  {
  }

  lemma OnlyTurnEnters(s: S, t: S, n: nat, round: nat, p: nat)
    requires At(s, n, round, p) && p < n && InOrder(s.entered, n) && t.entered == s.entered + [p]
    requires !Inside(s.pc[p])
    ensures InOrder(t.entered, n)
  {
    DivModUnique(n * round + p, n, round, p);
  }

  /** Queueing up, entering and finishing the load do not move the turn. */
  lemma PlainStepAt(s: S, t: S, i: nat, n: nat, round: nat, p: nat)
    requires n > 0 && At(s, n, round, p) && InOrder(s.entered, n)
    requires i < n && MinerNext(s, t, i) && (s.pc[i] == Idle ==> RoundOver(s, i))
    requires s.pc[i] != Wrapping && s.pc[i] != Storing
    ensures At(t, n, round, p) && InOrder(t.entered, n)
  {
    if s.pc[i] == Idle {
      if p < n {
        assert s.loads[i] <= s.loads[p];
      } else {
        assert false;
      }
    } else if s.pc[i] == Waiting && s.turn >= i {
      assert i == p;
      OnlyTurnEnters(s, t, n, round, p);
    }
  }

  /** Storing the next turn serves the miner whose turn it is. */
  lemma StoreAt(s: S, t: S, i: nat, n: nat, round: nat, p: nat)
    requires n > 0 && At(s, n, round, p) && i < n && MinerNext(s, t, i) && s.pc[i] == Storing
    ensures At(t, n, round, p + 1) && t.entered == s.entered
  {
    assert i == p;
    assert t.loads[i] == round;
  }

  /** Wrapping completes a load; the last one to complete a round starts the next. */
  lemma WrapAt(s: S, t: S, i: nat, n: nat, round: nat, p: nat)
    requires n > 0 && At(s, n, round, p) && i < n && MinerNext(s, t, i) && s.pc[i] == Wrapping
    ensures At(t, n, round, p) || (p == n && At(t, n, round + 1, 0))
    ensures t.entered == s.entered
  {
    MulSplit(n, round, 1);
    if p == n && forall j | 0 <= j < n :: t.loads[j] != round {
      assert t.turn == 0;
      assert forall j | 0 <= j < n :: Served(t.pc[j], t.loads[j], round);
    }
  }

  /** Every step keeps the shape. */
  lemma StepAt(s: S, t: S, n: nat, round: nat, p: nat) returns (round': nat, p': nat)
    requires n > 0 && At(s, n, round, p) && InOrder(s.entered, n) && Next(s, t)
    ensures At(t, n, round', p') && InOrder(t.entered, n)
  {
    var i: nat :| i < |s.pc| && MinerNext(s, t, i) && (s.pc[i] == Idle ==> RoundOver(s, i));
    round', p' := round, p;
    if s.pc[i] == Storing {
      StoreAt(s, t, i, n, round, p);
      p' := p + 1;
    } else if s.pc[i] == Wrapping {
      WrapAt(s, t, i, n, round, p);
      if !At(t, n, round, p) {
        round', p' := round + 1, 0;
      }
    } else {
      PlainStepAt(s, t, i, n, round, p);
    }
  }

  lemma {:induction false} RunAt(r: seq<S>, n: nat, k: nat) returns (round: nat, p: nat)
    requires n > 0 && Run(r, n) && k < |r|
    ensures At(r[k], n, round, p) && InOrder(r[k].entered, n)
    decreases k
  {
    if k == 0 {
      InitAt(r[0], n);
      round, p := 0, 0;
    } else {
      round, p := RunAt(r, n, k - 1);
      assert StepTo(r, k);
      round, p := StepAt(r[k - 1], r[k], n, round, p);
    }
  }

  /** For any number of miners and of rounds, in every interleaving: at most one miner is inside
      `initEpoch_internal`, and miners enter it in index order, round after round. */
  lemma OneAtATimeInOrder(r: seq<S>, n: nat, k: nat, i: nat, j: nat)
    requires n > 0 && Run(r, n) && k < |r| && i < |r[k].pc| && j < |r[k].pc|
    ensures r[k].pc[i] == Loading && r[k].pc[j] == Loading ==> i == j
    ensures InOrder(r[k].entered, n)
  {
    var round, p := RunAt(r, n, k);
  }

  /** Whenever every miner has completed the same number of loads and none is at it, the turn is
      back at 0. */
  lemma TurnReturnsToZero(r: seq<S>, n: nat, k: nat)
    requires n > 0 && Run(r, n) && k < |r| && |r[k].loads| == n && |r[k].pc| == n
    requires forall i | 0 <= i < n :: r[k].loads[i] == r[k].loads[0] && (r[k].pc[i] == Idle || r[k].pc[i] == Waiting)
    ensures r[k].turn == 0
  {
    var round, p := RunAt(r, n, k);
    assert p < n ==> r[k].loads[p] == r[k].loads[0];
  }

  /** Some miner can always move on, so a round never gets stuck. */
  lemma SomeoneCanProceed(r: seq<S>, n: nat, k: nat) returns (i: nat, t: S)
    requires n > 0 && Run(r, n) && k < |r|
    ensures i < |r[k].pc| == |r[k].loads| && MinerNext(r[k], t, i) && t != r[k] && Next(r[k], t)
  {
    var round, p := RunAt(r, n, k);
    var s := r[k];
    if p < n {
      i := p;
      forall j | 0 <= j < n ensures s.loads[i] <= s.loads[j] {
        assert j < p ==> Served(s.pc[j], s.loads[j], round);
        assert j > p ==> Queued(s.pc[j], s.loads[j], round);
      }
    } else {
      i :| 0 <= i < n && s.loads[i] == round;
      assert Served(s.pc[i], s.loads[i], round);
    }
    t := Moved(s, i);
    assert MinerNext(s, t, i);
  }

  /** The state after the next step of a miner whose turn has come. */
  function Moved(s: S, i: nat): (t: S)
    requires i < |s.pc| == |s.loads| && (i <= s.turn || s.pc[i] == Wrapping)
    ensures t.pc != s.pc
  {
    var next := match s.pc[i]
      case Idle => s.(pc := s.pc[i := Waiting])
      case Waiting => s.(pc := s.pc[i := Loading], entered := s.entered + [i])
      case Loading => s.(pc := s.pc[i := Storing])
      case Storing => s.(pc := s.pc[i := Wrapping], turn := i + 1)
      case Wrapping =>
        s.(pc := s.pc[i := Idle], loads := s.loads[i := s.loads[i] + 1],
           turn := if |s.pc| == s.turn then 0 else s.turn);
    assert next.pc[i] != s.pc[i];
    next
  }

  // ---- progress

  /** How far a miner has come: five steps to a load. */
  function Done(pc: Pc, loads: nat): nat {
    5 * loads + match pc case Idle => 0 case Waiting => 1 case Loading => 2 case Storing => 3 case Wrapping => 4
  }

  function DoneBy(s: S, i: nat): nat
    requires i < |s.pc| == |s.loads|
  {
    Done(s.pc[i], s.loads[i])
  }

  /** ... and all of them together. */
  function Total(pc: seq<Pc>, loads: seq<nat>): nat
    requires |pc| == |loads|
    decreases |pc|
  {
    if pc == [] then 0
    else
      var n := |pc| - 1;
      Total(pc[..n], loads[..n]) + Done(pc[n], loads[n])
  }

  lemma {:induction false} TotalUpdate(pc: seq<Pc>, loads: seq<nat>, i: nat, p: Pc, l: nat)
    requires i < |pc| == |loads| && Done(p, l) == Done(pc[i], loads[i]) + 1
    ensures Total(pc[i := p], loads[i := l]) == Total(pc, loads) + 1
    decreases |pc|
  {
    var n := |pc| - 1;
    if i < n {
      assert pc[i := p][..n] == pc[..n][i := p] && loads[i := l][..n] == loads[..n][i := l];
      TotalUpdate(pc[..n], loads[..n], i, p, l);
    } else {
      assert pc[i := p][..n] == pc[..n] && loads[i := l][..n] == loads[..n];
    }
  }

  /** Totals of miners that are all at least, or at most, so far. */
  function Times(n: nat, v: nat): nat {
    if n == 0 then 0 else Times(n - 1, v) + v
  }

  lemma {:induction false} TimesMono(n: nat, v: nat, w: nat)
    requires v <= w
    ensures Times(n, v) <= Times(n, w)
    ensures n > 0 && v < w ==> Times(n, v) < Times(n, w)
    ensures n > 0 ==> Times(n, v) >= v
    decreases n
  {
    if n > 0 {
      TimesMono(n - 1, v, w);
    }
  }

  ghost predicate Between(pc: seq<Pc>, loads: seq<nat>, lo: nat, hi: nat)
    requires |pc| == |loads|
  {
    forall i | 0 <= i < |pc| :: lo <= Done(pc[i], loads[i]) <= hi
  }

  lemma {:induction false} TotalBounds(pc: seq<Pc>, loads: seq<nat>, lo: nat, hi: nat)
    requires |pc| == |loads| && Between(pc, loads, lo, hi)
    ensures Times(|pc|, lo) <= Total(pc, loads) <= Times(|pc|, hi)
    decreases |pc|
  {
    if pc != [] {
      var n := |pc| - 1;
      assert Between(pc[..n], loads[..n], lo, hi);
      TotalBounds(pc[..n], loads[..n], lo, hi);
    }
  }

  /** When all are at least so far and the total is no more than that, all are just so far. */
  lemma {:induction false} TotalTight(pc: seq<Pc>, loads: seq<nat>, lo: nat, hi: nat, i: nat)
    requires i < |pc| == |loads| && Between(pc, loads, lo, hi)
    ensures Total(pc, loads) <= Times(|pc|, lo) ==> Done(pc[i], loads[i]) == lo
    ensures Total(pc, loads) >= Times(|pc|, hi) ==> Done(pc[i], loads[i]) == hi
    decreases |pc|
  {
    var n := |pc| - 1;
    assert Between(pc[..n], loads[..n], lo, hi);
    TotalBounds(pc[..n], loads[..n], lo, hi);
    if i < n {
      TotalTight(pc[..n], loads[..n], lo, hi, i);
    }
  }

  /** A step of a miner that does something. */
  ghost predicate Moves(s: S, t: S, i: nat) {
    && i < |s.pc| == |s.loads| && MinerNext(s, t, i) && t != s
    && (s.pc[i] == Idle ==> RoundOver(s, i))
  }

  lemma MoveCounts(s: S, t: S, i: nat)
    requires Moves(s, t, i)
    ensures |t.pc| == |t.loads| == |s.pc| && Total(t.pc, t.loads) == Total(s.pc, s.loads) + 1
    ensures forall j | 0 <= j < |s.pc| :: DoneBy(t, j) == DoneBy(s, j) + if j == i then 1 else 0
  {
    assert t.pc == s.pc[i := t.pc[i]] && t.loads == s.loads[i := t.loads[i]];
    TotalUpdate(s.pc, s.loads, i, t.pc[i], t.loads[i]);
  }

  /** The miner could do something. */
  ghost predicate CanMove(s: S, i: nat) {
    && i < |s.pc| == |s.loads|
    && match s.pc[i]
       case Idle => RoundOver(s, i)
       case Waiting => s.turn >= i
       case _ => true
  }

  /** An infinite run of rounds without a stop, in which every miner that can do something comes to do something. */
  ghost predicate FairRun(run: nat -> S, n: nat) {
    && Init(run(0), n) && (forall k: nat :: Steps(run, k)) && (forall k: nat, i: nat :: Scheduled(run, k, i))
  }

  ghost predicate Steps(run: nat -> S, k: nat) {
    run(k + 1) == run(k) || exists i: nat :: MovesAt(run, k, i)
  }

  ghost predicate MovesAt(run: nat -> S, k: nat, i: nat) {
    Moves(run(k), run(k + 1), i)
  }

  ghost predicate Scheduled(run: nat -> S, k: nat, i: nat) {
    CanMove(run(k), i) ==> exists m: nat :: m >= k && MovesAt(run, m, i)
  }

  /** Somewhere in a round, as every state of a run of rounds is. */
  ghost predicate InRound(s: S, n: nat) {
    exists round: nat, p: nat :: At(s, n, round, p) && InOrder(s.entered, n)
  }

  lemma MoveIsNext(s: S, t: S, i: nat)
    requires Moves(s, t, i)
    ensures Next(s, t)
  {
  }

  lemma {:induction false} FairAt(run: nat -> S, n: nat, k: nat)
    requires n > 0 && FairRun(run, n)
    ensures InRound(run(k), n)
    decreases k
  {
    if k == 0 {
      InitAt(run(0), n);
    } else {
      FairAt(run, n, k - 1);
      assert Steps(run, k - 1);
      if run(k) != run(k - 1) {
        var i: nat :| MovesAt(run, k - 1, i);
        MoveIsNext(run(k - 1), run(k), i);
        var round: nat, p: nat :| At(run(k - 1), n, round, p) && InOrder(run(k - 1).entered, n);
        round, p := StepAt(run(k - 1), run(k), n, round, p);
      }
    }
  }

  lemma SomeoneCanMove(s: S, n: nat) returns (i: nat)
    requires n > 0 && InRound(s, n)
    ensures i < n && CanMove(s, i)
  {
    var round: nat, p: nat :| At(s, n, round, p) && InOrder(s.entered, n);
    if p < n {
      i := p;
      forall j | 0 <= j < n ensures s.loads[i] <= s.loads[j] {
        assert j < p ==> Served(s.pc[j], s.loads[j], round);
        assert j > p ==> Queued(s.pc[j], s.loads[j], round);
      }
    } else {
      i :| 0 <= i < n && s.loads[i] == round;
      assert Served(s.pc[i], s.loads[i], round);
    }
  }

  ghost function TotalAt(run: nat -> S, n: nat, k: nat): nat
    requires n > 0 && FairRun(run, n)
  {
    FairAt(run, n, k);
    Total(run(k).pc, run(k).loads)
  }

  /** The total goes up by one or stays. */
  lemma TotalStep(run: nat -> S, n: nat, k: nat)
    requires n > 0 && FairRun(run, n)
    ensures TotalAt(run, n, k) <= TotalAt(run, n, k + 1) <= TotalAt(run, n, k) + 1
    ensures forall i: nat :: MovesAt(run, k, i) ==> TotalAt(run, n, k + 1) == TotalAt(run, n, k) + 1
  {
    assert Steps(run, k);
    forall i: nat | MovesAt(run, k, i) ensures TotalAt(run, n, k + 1) == TotalAt(run, n, k) + 1 {
      MoveCounts(run(k), run(k + 1), i);
    }
    if run(k + 1) != run(k) {
      var i: nat :| MovesAt(run, k, i);
    }
  }

  lemma {:induction false} TotalGrows(run: nat -> S, n: nat, j: nat, k: nat)
    requires n > 0 && FairRun(run, n) && j <= k
    ensures TotalAt(run, n, j) <= TotalAt(run, n, k)
    decreases k
  {
    if j < k {
      TotalGrows(run, n, j, k - 1);
      TotalStep(run, n, k - 1);
    }
  }

  /** Nothing stops a fair run: the total passes every number, and since it goes up by ones it meets every one. */
  lemma {:induction false} TotalMeets(run: nat -> S, n: nat, goal: nat) returns (k: nat)
    requires n > 0 && FairRun(run, n)
    ensures TotalAt(run, n, k) == goal
    decreases goal
  {
    if goal == 0 {
      k := 0;
      InitTotal(run(0).pc, run(0).loads);
    } else {
      var j := TotalMeets(run, n, goal - 1);
      FairAt(run, n, j);
      var i := SomeoneCanMove(run(j), n);
      assert Scheduled(run, j, i);
      var m: nat :| m >= j && MovesAt(run, m, i);
      TotalGrows(run, n, j, m);
      TotalStep(run, n, m);
      k := FirstAbove(run, n, goal, j, m + 1);
    }
  }

  lemma {:induction false} InitTotal(pc: seq<Pc>, loads: seq<nat>)
    requires |pc| == |loads| && forall i | 0 <= i < |pc| :: pc[i] == Idle && loads[i] == 0
    ensures Total(pc, loads) == 0
    decreases |pc|
  {
    if pc != [] {
      InitTotal(pc[..|pc| - 1], loads[..|pc| - 1]);
    }
  }

  lemma FirstAbove(run: nat -> S, n: nat, goal: nat, j: nat, m: nat) returns (k: nat)
    requires n > 0 && FairRun(run, n) && j <= m && TotalAt(run, n, j) < goal <= TotalAt(run, n, m)
    ensures j < k <= m && TotalAt(run, n, k) == goal
  {
    k := j;
    while TotalAt(run, n, k) < goal
      invariant j <= k <= m && TotalAt(run, n, k) <= goal
      invariant k == j ==> TotalAt(run, n, k) < goal
      decreases m - k
    {
      if k == m {
        assert false;
      }
      TotalStep(run, n, k);
      k := k + 1;
    }
  }

  /** In a round, every miner is between the beginning of this round's load and the beginning of the next. */
  lemma RoundBounds(s: S, n: nat, round: nat, p: nat)
    requires n > 0 && At(s, n, round, p)
    ensures Between(s.pc, s.loads, 5 * round, 5 * round + 5)
  {
    forall i | 0 <= i < n ensures 5 * round <= Done(s.pc[i], s.loads[i]) <= 5 * round + 5 {
      assert i < p ==> Served(s.pc[i], s.loads[i], round);
      assert i > p ==> Queued(s.pc[i], s.loads[i], round);
    }
  }

  /** Everyone has completed `rounds` loads and nobody is at another; then the turn is 0. */
  ghost predicate BetweenRounds(s: S, n: nat, rounds: nat) {
    && |s.pc| == |s.loads| == n && s.turn == 0
    && forall i | 0 <= i < n :: s.pc[i] == Idle && s.loads[i] == rounds
  }

  lemma DoneTimesFive(pc: Pc, loads: nat, r: nat)
    requires Done(pc, loads) == 5 * r
    ensures pc == Idle && loads == r
  {
  }

  /** The total is that of so many whole rounds only between two rounds. */
  lemma WholeRounds(s: S, n: nat, rounds: nat)
    requires n > 0 && InRound(s, n) && |s.pc| == |s.loads| && Total(s.pc, s.loads) == Times(n, 5 * rounds)
    ensures BetweenRounds(s, n, rounds)
  {
    var round: nat, p: nat :| At(s, n, round, p) && InOrder(s.entered, n);
    WhichRound(s, n, round, p, rounds);
    RoundBounds(s, n, round, p);
    forall i | 0 <= i < n ensures s.pc[i] == Idle && s.loads[i] == rounds {
      TotalTight(s.pc, s.loads, 5 * round, 5 * round + 5, i);
      DoneTimesFive(s.pc[i], s.loads[i], round);
    }
    NobodyServed(s, n, round, p);
  }

  lemma WhichRound(s: S, n: nat, round: nat, p: nat, rounds: nat)
    requires n > 0 && At(s, n, round, p) && Total(s.pc, s.loads) == Times(n, 5 * rounds)
    ensures rounds == round
  {
    RoundBounds(s, n, round, p);
    TotalBounds(s.pc, s.loads, 5 * round, 5 * round + 5);
    AllAtEnd(s, n, round, p);
    if rounds < round {
      TimesMono(n, 5 * rounds, 5 * round);
    } else if rounds > round {
      TimesMono(n, 5 * round + 5, 5 * rounds);
    }
  }

  lemma NobodyServed(s: S, n: nat, round: nat, p: nat)
    requires n > 0 && At(s, n, round, p) && s.pc[0] == Idle && s.loads[0] == round
    ensures s.turn == 0
  {
    assert p > 0 ==> Served(s.pc[0], s.loads[0], round);
  }

  /** A round never has everyone at its end: the last one to get there begins the next. */
  lemma AllAtEnd(s: S, n: nat, round: nat, p: nat)
    requires n > 0 && At(s, n, round, p)
    ensures Total(s.pc, s.loads) < Times(n, 5 * round + 5)
  {
    RoundBounds(s, n, round, p);
    TotalBounds(s.pc, s.loads, 5 * round, 5 * round + 5);
    if Total(s.pc, s.loads) >= Times(n, 5 * round + 5) {
      forall i | 0 <= i < n ensures s.pc[i] == Idle && s.loads[i] == round + 1 {
        TotalTight(s.pc, s.loads, 5 * round, 5 * round + 5, i);
        DoneTimesFive(s.pc[i], s.loads[i], round + 1);
      }
    }
  }

  /** Between two rounds again and again: in every fair run every number of rounds comes to be completed, and the
      turn is then back at 0. */
  lemma EveryRoundEnds(run: nat -> S, n: nat, rounds: nat) returns (k: nat)
    requires n > 0 && FairRun(run, n)
    ensures BetweenRounds(run(k), n, rounds)
  {
    k := TotalMeets(run, n, Times(n, 5 * rounds));
    FairAt(run, n, k);
    WholeRounds(run(k), n, rounds);
  }

  /** A miner's own steps come one at a time. */
  lemma DoneStep(run: nat -> S, n: nat, k: nat, i: nat)
    requires n > 0 && FairRun(run, n) && i < n
    ensures |run(k).pc| == |run(k).loads| == n == |run(k + 1).pc| == |run(k + 1).loads|
    ensures DoneBy(run(k), i) <= DoneBy(run(k + 1), i) <= DoneBy(run(k), i) + 1
  {
    FairAt(run, n, k);
    FairAt(run, n, k + 1);
    assert Steps(run, k);
    if run(k + 1) != run(k) {
      var j: nat :| MovesAt(run, k, j);
      MoveCounts(run(k), run(k + 1), j);
    }
  }

  lemma {:induction false} DoneGrows(run: nat -> S, n: nat, j: nat, k: nat, i: nat)
    requires n > 0 && FairRun(run, n) && i < n && j <= k
    ensures |run(j).pc| == |run(j).loads| == n == |run(k).pc| == |run(k).loads|
    ensures DoneBy(run(j), i) <= DoneBy(run(k), i)
    decreases k
  {
    FairAt(run, n, j);
    if j < k {
      DoneGrows(run, n, j, k - 1, i);
      DoneStep(run, n, k - 1, i);
    }
  }

  /** In every fair run, every miner that waits for its turn comes to load. */
  lemma EveryWaiterLoads(run: nat -> S, n: nat, k: nat, i: nat) returns (j: nat)
    requires n > 0 && FairRun(run, n) && i < n && |run(k).pc| == n && run(k).pc[i] == Waiting
    ensures j > k && |run(j).pc| == n && run(j).pc[i] == Loading
  {
    DoneStep(run, n, k, i);
    var l := run(k).loads[i];
    var end := EveryRoundEnds(run, n, l + 1);
    if end < k {
      DoneGrows(run, n, end, k, i);
      assert false;
    }
    j := k;
    while run(j).pc[i] != Loading
      invariant k <= j <= end && |run(j).pc| == |run(j).loads| == n
      invariant 5 * l + 1 <= DoneBy(run(j), i) <= 5 * l + 2
      decreases end - j
    {
      assert DoneBy(run(j), i) == 5 * l + 1;
      DoneStep(run, n, j, i);
      j := j + 1;
    }
  }

  // ---- such runs exist: two miners that load in turn, for ever

  function InTurn(m: nat): (e: seq<nat>)
    ensures |e| == m
  {
    if m == 0 then [] else InTurn(m - 1) + [(m - 1) % 2]
  }

  /** Step `r` of ten of round `q`. */
  function RoundStep(q: nat, r: nat): S
    requires r <= 10
  {
    var e := InTurn(2 * q + (if r >= 2 then 1 else 0) + (if r >= 7 then 1 else 0));
    var p0 := if r == 1 then Waiting else if r == 2 then Loading else if r == 3 then Storing
              else if r == 4 then Wrapping else Idle;
    var p1 := if r == 6 then Waiting else if r == 7 then Loading else if r == 8 then Storing
              else if r == 9 then Wrapping else Idle;
    S(if r == 9 then 2 else if 4 <= r < 9 then 1 else 0, [p0, p1],
      [if r >= 5 then q + 1 else q, if r == 10 then q + 1 else q], e)
  }

  function Two(k: nat): S {
    RoundStep(k / 10, k % 10)
  }

  lemma NewRound(q: nat)
    ensures RoundStep(q, 10) == RoundStep(q + 1, 0)
  {
  }

  lemma RoundMoves(q: nat, r: nat)
    requires r < 10
    ensures Moves(RoundStep(q, r), RoundStep(q, r + 1), if r < 5 then 0 else 1)
  {
    var s, t := RoundStep(q, r), RoundStep(q, r + 1);
    var i := if r < 5 then 0 else 1;
    assert t.pc == s.pc[i := t.pc[i]] && t.loads == s.loads[i := t.loads[i]];
  }

  lemma TwoMoves(k: nat)
    ensures MovesAt(Two, k, if k % 10 < 5 then 0 else 1)
  {
    RoundMoves(k / 10, k % 10);
    NewRound(k / 10);
    NextStep(k);
  }

  lemma NextStep(k: nat)
    ensures if k % 10 == 9 then (k + 1) / 10 == k / 10 + 1 && (k + 1) % 10 == 0
            else (k + 1) / 10 == k / 10 && (k + 1) % 10 == k % 10 + 1
  {
  }

  lemma TwoScheduled(k: nat, i: nat)
    ensures Scheduled(Two, k, i)
  {
    if i < 2 {
      var r := k % 10;
      var m: nat := if (i == 0) == (r < 5) then k else if i == 0 then k + (10 - r) else k + (5 - r);
      assert i == if m % 10 < 5 then 0 else 1;
      TwoMoves(m);
      assert m >= k && MovesAt(Two, m, i);
    }
  }

  lemma TwoIsFair()
    ensures FairRun(Two, 2) && Two(1).pc == [Waiting, Idle] && Two(9).turn == 2
  {
    forall k: nat ensures Steps(Two, k) {
      TwoMoves(k);
    }
    forall k: nat, i: nat ensures Scheduled(Two, k, i) {
      TwoScheduled(k, i);
    }
    assert Two(0) == RoundStep(0, 0);
  }

  /** A step of some miner, whether or not the last round is over. */
  ghost predicate FreeNext(s: S, t: S) {
    |s.pc| == |s.loads| && exists i: nat | i < |s.pc| :: MinerNext(s, t, i)
  }

  ghost predicate FreeRun(r: seq<S>, n: nat) {
    r != [] && Init(r[0], n) && forall i | 0 < i < |r| :: FreeNext(r[i - 1], r[i])
  }

  lemma Extend(r: seq<S>, n: nat, i: nat, t: S) returns (r': seq<S>)
    requires FreeRun(r, n) && i < |r[|r| - 1].pc| == |r[|r| - 1].loads| && MinerNext(r[|r| - 1], t, i)
    ensures FreeRun(r', n) && r'[|r'| - 1] == t
  {
    r' := r + [t];
    assert FreeNext(r[|r| - 1], t);
  }

  /** The grouping in rounds is needed, because the guard lets through every miner whose turn has
      passed: here miner 0 starts its second load while miner 1 is at its first. */
  lemma OverlappingRoundsCollide() returns (r: seq<S>)
    ensures FreeRun(r, 2) && r[|r| - 1].pc == [Loading, Loading]
  {
    r := [S(0, [Idle, Idle], [0, 0], [])];
    r := Extend(r, 2, 0, S(0, [Waiting, Idle], [0, 0], []));
    r := Extend(r, 2, 0, S(0, [Loading, Idle], [0, 0], [0]));
    r := Extend(r, 2, 0, S(0, [Storing, Idle], [0, 0], [0]));
    r := Extend(r, 2, 0, S(1, [Wrapping, Idle], [0, 0], [0]));
    r := Extend(r, 2, 0, S(1, [Idle, Idle], [1, 0], [0]));
    r := Extend(r, 2, 1, S(1, [Idle, Waiting], [1, 0], [0]));
    r := Extend(r, 2, 1, S(1, [Idle, Loading], [1, 0], [0, 1]));
    r := Extend(r, 2, 0, S(1, [Waiting, Loading], [1, 0], [0, 1]));
    r := Extend(r, 2, 0, S(1, [Loading, Loading], [1, 0], [0, 1, 0]));
  }

  // ---- a miner that stops

  /** Miner `c`, told to stop, leaves `initEpoch` when its turn has come, without passing the turn on. Its thread ends,
      so it takes no further step. */
  ghost predicate StopNext(s: S, t: S, c: nat) {
    c < |s.pc| == |s.loads| && s.pc[c] == Waiting && s.turn >= c && t == s.(pc := s.pc[c := Idle])
  }

  /** A step of any miner but `c`, with loads started at any time, and other miners told to stop as well. */
  ghost predicate OthersNext(s: S, t: S, c: nat) {
    |s.pc| == |s.loads| && exists i: nat | i < |s.pc| && i != c :: OneNext(s, t, i)
  }

  ghost predicate OneNext(s: S, t: S, i: nat)
    requires i < |s.pc| == |s.loads|
  {
    MinerNext(s, t, i) || StopNext(s, t, i)
  }

  ghost predicate OthersStep(r: seq<S>, k: nat, c: nat)
    requires 0 < k < |r|
  {
    OthersNext(r[k - 1], r[k], c)
  }

  ghost predicate OthersRun(r: seq<S>, c: nat) {
    r != [] && forall k | 0 < k < |r| :: OthersStep(r, k, c)
  }

  /** The turn is not beyond `c`, and no miner after `c` is inside to move it there. */
  ghost predicate Shut(s: S, n: nat, c: nat) {
    && |s.pc| == |s.loads| == n && s.turn <= c < n
    && forall i | c < i < n :: !Inside(s.pc[i])
  }

  /** Whatever the other miners do, among them those before `c` that load again and those that stop too, the way stays
      shut, and only miners before `c` enter. */
  lemma ShutStays(s: S, t: S, n: nat, c: nat)
    requires Shut(s, n, c) && OthersNext(s, t, c)
    ensures Shut(t, n, c)
    ensures t.entered == s.entered || exists i: nat | i < c :: t.entered == s.entered + [i]
  {
    var i: nat :| i < |s.pc| && i != c && OneNext(s, t, i);
  }

  predicate AllBelow(e: seq<nat>, from: nat, c: nat) {
    forall k | from <= k < |e| :: e[k] < c
  }

  /** From then on no later miner gets through, however long it waits. */
  lemma {:induction false} ShutForGood(r: seq<S>, n: nat, c: nat, k: nat)
    requires OthersRun(r, c) && k < |r| && Shut(r[0], n, c)
    ensures Shut(r[k], n, c) && AllBelow(r[k].entered, |r[0].entered|, c)
    decreases k
  {
    if k > 0 {
      ShutForGood(r, n, c, k - 1);
      assert OthersStep(r, k, c);
      ShutStays(r[k - 1], r[k], n, c);
    }
  }

  /** A stop in a run of rounds happens exactly at the miner's turn. It shuts the way, and the miners after it are
      just those that have not loaded in this round. */
  lemma StopShuts(r: seq<S>, n: nat, c: nat, t: S)
    requires n > 0 && Run(r, n) && StopNext(r[|r| - 1], t, c)
    ensures Shut(t, n, c) && t.turn == c
    ensures forall i | 0 <= i < n && i != c :: i > c <==> Queued(t.pc[i], t.loads[i], t.loads[c])
    ensures forall i | 0 <= i < c :: Served(t.pc[i], t.loads[i], t.loads[c])
  {
    var round, p := RunAt(r, n, |r| - 1);
  }

  /** Miner `i` can still enter after the stop. */
  ghost predicate CanEnter(t: S, c: nat, i: nat) {
    exists r :: OthersRun(r, c) && r[0] == t && Enters(r[|r| - 1], i)
  }

  ghost predicate Enters(s: S, i: nat) {
    i < |s.pc| && s.pc[i] == Loading
  }

  /** Steps of one miner up to `initEpoch_internal`, with the turn far enough. */
  lemma {:induction false} WalkIn(s: S, i: nat, c: nat, left: nat) returns (r: seq<S>)
    requires i < |s.pc| == |s.loads| && i != c && i <= s.turn < |s.pc|
    requires match s.pc[i] case Loading => left == 0 case Waiting => left == 1 case Idle => left == 2
             case Wrapping => left == 3 case Storing => false
    ensures OthersRun(r, c) && r[0] == s && Enters(r[|r| - 1], i)
    decreases left
  {
    if left == 0 {
      r := [s];
    } else {
      var t := Moved(s, i);
      assert OneNext(s, t, i);
      var rest := WalkIn(t, i, c, left - 1);
      r := [s] + rest;
      forall k | 0 < k < |r| ensures OthersStep(r, k, c) {
        if k == 1 {
          assert OthersNext(s, t, c);
        } else {
          assert OthersStep(rest, k - 1, c);
        }
      }
    }
  }

  /** Exactly the miners before the one that stopped can ever enter again. */
  lemma EntersAfterStopIff(r: seq<S>, n: nat, c: nat, t: S, i: nat)
    requires n > 0 && Run(r, n) && StopNext(r[|r| - 1], t, c) && i < n && i != c
    ensures CanEnter(t, c, i) <==> i < c
  {
    StopShuts(r, n, c, t);
    if i < c {
      EarlierCanEnter(t, n, c, i);
    } else {
      LaterCannotEnter(t, n, c, i);
    }
  }

  lemma EarlierCanEnter(t: S, n: nat, c: nat, i: nat)
    requires Shut(t, n, c) && t.turn == c && i < c && Served(t.pc[i], t.loads[i], t.loads[c])
    ensures CanEnter(t, c, i)
  {
    var r := WalkIn(t, i, c, if t.pc[i] == Idle then 2 else 3);
  }

  lemma LaterCannotEnter(t: S, n: nat, c: nat, i: nat)
    requires Shut(t, n, c) && c < i < n
    ensures !CanEnter(t, c, i)
  {
    forall r | OthersRun(r, c) && r[0] == t ensures !Enters(r[|r| - 1], i) {
      ShutForGood(r, n, c, |r| - 1);
    }
  }

  /** So a stop blocks someone for good exactly when a miner after it has not loaded yet, which is whenever it is not
      the last. */
  lemma StopBlocksIff(r: seq<S>, n: nat, c: nat, t: S)
    requires n > 0 && Run(r, n) && StopNext(r[|r| - 1], t, c)
    ensures (exists i: nat | i < n && i != c :: !CanEnter(t, c, i)) <==> c + 1 < n
  {
    forall i: nat | i < n && i != c ensures CanEnter(t, c, i) <==> i < c {
      EntersAfterStopIff(r, n, c, t, i);
    }
    if c + 1 < n {
      assert !CanEnter(t, c, c + 1);
    }
  }
}
