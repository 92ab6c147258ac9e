/** The worker thread of `libdevcore/Worker.cpp` and the threads that control it, as interleaved
    atomic steps. Controllers hold the mutex `x_work` for the whole of each operation, so at most
    one is under way; the worker thread takes no lock. */
module Worker {

  datatype WorkerState = Starting | Started | Stopping | Stopped | Killing

  /** Where the thread body stands. */
  datatype WorkerPc =
    | NoThread                      // m_work is null
    | AtGuard                       // about to test the outer loop's guard
    | AtClaim                       // about to exchange Starting for Started
    | InLoop(left: nat)             // inside workLoop(), `left` steps before it next asks shouldStop()
    | AtExchange                    // workLoop() is over, about to exchange in Stopped
    | AtRestore(ex: WorkerState)    // holds the exchanged value, about to restore it if need be
    | AtWait                        // in the inner wait loop
    | Exited

  /** Where the controller that holds the mutex stands. */
  datatype ControlPc =
    | Unlocked
    | StartEnter | StartSpawn | StartWait
    | TriggerEnter
    | StopEnter | StopWait
    | KillEnter | KillJoin | Destroyed

  /** `begun` counts the calls of `workLoop()`. */
  datatype S = S(state: WorkerState, worker: WorkerPc, control: ControlPc, begun: nat)

  ghost predicate Init(s: S) {
    s == S(Starting, NoThread, Unlocked, 0)
  }

  /** One atomic step of the worker thread. */
  ghost predicate WorkerNext(s: S, t: S) {
    && t.control == s.control
    && match s.worker
       case NoThread => false
       case AtGuard =>
         t == s.(worker := if s.state == Killing then Exited else AtClaim)
       case AtClaim =>
         && t.worker.InLoop? && t.begun == s.begun + 1
         && t.state == (if s.state == Starting then Started else s.state)
       case InLoop(left) =>
         && t.state == s.state && t.begun == s.begun
         && (|| t.worker == AtExchange
             || (left > 0 && t.worker == InLoop(left - 1))
             || (left == 0 && s.state == Started && t.worker.InLoop?))
       case AtExchange =>
         t == s.(worker := AtRestore(s.state), state := Stopped)
       case AtRestore(ex) =>
         t == s.(worker := AtWait, state := if ex == Killing || ex == Starting then ex else s.state)
       case AtWait =>
         t == s.(worker := if s.state == Stopped then AtWait else AtGuard)
       case Exited => false
  }

  /** One atomic step of a controller. */
  ghost predicate ControlNext(s: S, t: S) {
    match s.control
    case Unlocked =>
      t.control in {StartEnter, TriggerEnter, StopEnter, KillEnter} && t == s.(control := t.control)
    case StartEnter =>
      if s.worker != NoThread then
        t == s.(control := StartWait, state := if s.state == Stopped then Starting else s.state)
      else
        t == s.(control := StartSpawn, state := Starting)
    case StartSpawn =>
      t == s.(control := StartWait, worker := AtGuard)
    case StartWait =>
      t == if s.state == Starting then s else s.(control := Unlocked)
    case TriggerEnter =>
      t == s.(control := Unlocked,
              state := if s.worker != NoThread && s.state == Started then Stopping else s.state)
    case StopEnter =>
      if s.worker == NoThread then t == s.(control := Unlocked)
      else t == s.(control := StopWait, state := if s.state == Started then Stopping else s.state)
    case StopWait =>
      t == if s.state == Stopped then s.(control := Unlocked) else s
    case KillEnter =>
      if s.worker == NoThread then t == s.(control := Destroyed)
      else t == s.(control := KillJoin, state := Killing)
    case KillJoin =>
      t == if s.worker == Exited then s.(control := Destroyed, worker := NoThread) else s
    case Destroyed => false
  }

  ghost predicate Next(s: S, t: S) {
    WorkerNext(s, t) || ControlNext(s, t)
  }

  /** A finite run: any interleaving, from the start. */
  ghost predicate Run(r: seq<S>) {
    && r != [] && Init(r[0])
    && forall i | 0 < i < |r| :: StepTo(r, i)
  }

  ghost predicate StepTo(r: seq<S>, i: nat)
    requires 0 < i < |r|
  {
    Next(r[i - 1], r[i])
  }

  // ---- the invariant

  /** The one window where a stored Killing is not in `m_state`. */
  predicate Restoring(s: S) {
    s.worker == AtRestore(Killing) && s.state == Stopped
  }

  /** Which values `m_state` may have, by the worker's position. */
  predicate StateAgrees(s: S) {
    match s.worker
    case NoThread => s.control != Destroyed ==> s.state == Starting
    case AtGuard => s.state == Starting || s.state == Killing
    case AtClaim => s.state == Starting || s.state == Killing
    case InLoop(_) => s.state == Started || s.state == Stopping || s.state == Killing
    case AtExchange => s.state == Started || s.state == Stopping || s.state == Killing
    case AtRestore(ex) =>
      if ex == Killing then s.state == Stopped
      else (ex == Started || ex == Stopping) && (s.state == Stopped || s.state == Starting || s.state == Killing)
    case AtWait => s.state == Stopped || s.state == Starting || s.state == Killing
    case Exited => s.state == Killing
  }

  /** What each operation under way may rely on. */
  predicate ControlAgrees(s: S) {
    && (s.control in {StartSpawn, Destroyed} ==> s.worker == NoThread)
    && (s.control in {StartWait, StopWait, KillJoin} ==> s.worker != NoThread)
    && (s.control == StopWait ==> s.state == Stopping || s.state == Stopped)
    && (s.control == KillJoin <==> s.worker != NoThread && (s.state == Killing || Restoring(s)))
    && (s.worker != NoThread && s.state == Starting ==> s.control == StartWait)
  }

  predicate Inv(s: S) {
    StateAgrees(s) && ControlAgrees(s)
  }

  lemma InvWorker(s: S, t: S)
    requires Inv(s) && WorkerNext(s, t)
    ensures Inv(t)
  {
    match s.worker
    case AtGuard =>
    case AtClaim =>
    case InLoop(left) =>
    case AtExchange =>
    case AtRestore(ex) =>
    case AtWait =>
  }

  lemma InvControl(s: S, t: S)
    requires Inv(s) && ControlNext(s, t)
    ensures Inv(t)
  {
  }

  lemma {:induction false} RunInv(r: seq<S>, i: nat)
    requires Run(r) && i < |r|
    ensures Inv(r[i])
  {
    if i > 0 {
      RunInv(r, i - 1);
      assert StepTo(r, i);
      if WorkerNext(r[i - 1], r[i]) {
        InvWorker(r[i - 1], r[i]);
      } else {
        InvControl(r[i - 1], r[i]);
      }
    }
  }

  // ---- safety over whole runs

  /** The value the worker exchanges out is never Starting, so that half of the restore is dead. */
  lemma StartingNeverExchangedOut(r: seq<S>, i: nat)
    requires Run(r) && i < |r|
    ensures r[i].worker != AtRestore(Starting)
  {
    RunInv(r, i);
  }

  /** Once there is a thread, no controller takes `m_state` out of Starting. */
  lemma OnlyWorkerLeavesStarting(r: seq<S>, i: nat)
    requires Run(r) && 0 < i < |r|
    requires r[i - 1].worker != NoThread && r[i - 1].state == Starting && r[i].state != Starting
    ensures WorkerNext(r[i - 1], r[i]) && r[i - 1].worker == AtClaim && r[i].state == Started
  {
    RunInv(r, i - 1);
    assert StepTo(r, i);
  }

  /** Stopped is only ever seen while the worker is past its exchange. */
  lemma StoppedMeansPastExchange(r: seq<S>, i: nat)
    requires Run(r) && i < |r| && r[i].state == Stopped && r[i].control != Destroyed
    ensures r[i].worker.AtRestore? || r[i].worker.AtWait?
  {
    RunInv(r, i);
  }

  /** From the store of Killing until the object is gone, Killing is in `m_state` or is in the
      worker's hand and next to be restored. */
  lemma {:induction false} KillingIsKept(r: seq<S>, i: nat, j: nat)
    requires Run(r) && i <= j < |r| && r[i].control == KillJoin
    ensures r[j].control == Destroyed || (r[j].control == KillJoin && (r[j].state == Killing || Restoring(r[j])))
    decreases j
  {
    RunInv(r, j);
    if i < j {
      KillingIsKept(r, i, j - 1);
      assert StepTo(r, j);
    }
  }

  /** The calls of `workLoop()` that have begun or are next to begin. */
  function Begins(s: S): nat {
    s.begun + if s.worker == AtClaim then 1 else 0
  }

  /** ... and at most one more `workLoop()` begins. */
  lemma {:induction false} KillAllowsOneMore(r: seq<S>, i: nat, j: nat)
    requires Run(r) && i <= j < |r| && r[i].control == KillJoin
    ensures Begins(r[j]) <= Begins(r[i]) <= r[i].begun + 1 && r[j].begun <= Begins(r[j])
    decreases j
  {
    if i < j {
      KillAllowsOneMore(r, i, j - 1);
      KillingIsKept(r, i, j - 1);
      RunInv(r, j - 1);
      assert StepTo(r, j);
      OneMoreStep(r[j - 1], r[j]);
    }
  }

  lemma OneMoreStep(s: S, t: S)
    requires Inv(s) && Next(s, t) && s.control in {KillJoin, Destroyed}
    ensures Begins(t) <= Begins(s)
  {
  }

  /** The worker is outside `workLoop()` and nothing but a start can bring it back in. */
  predicate Outside(s: S) {
    match s.worker
    case NoThread => s.control != StartSpawn
    case AtRestore(ex) => ex != Killing && s.state in {Stopped, Killing}
    case AtWait => s.state == Stopped || s.state == Killing
    case AtGuard => s.state == Killing
    case Exited => true
    case _ => false
  }

  /** `stopWorking` returns only when the worker is outside. */
  lemma StopReturnsOutside(r: seq<S>, i: nat)
    requires Run(r) && 0 < i < |r| && r[i - 1].control in {StopEnter, StopWait} && r[i].control == Unlocked
    ensures Outside(r[i])
  {
    RunInv(r, i - 1);
    assert StepTo(r, i);
  }

  /** ... and it then stays outside, and begins no `workLoop()`, until some later start. */
  lemma {:induction false} StaysOutside(r: seq<S>, i: nat, j: nat)
    requires Run(r) && i <= j < |r| && Outside(r[i])
    requires forall k | i <= k < j :: r[k].control != StartEnter
    ensures Outside(r[j]) && r[j].begun == r[i].begun
    decreases j
  {
    if i < j {
      StaysOutside(r, i, j - 1);
      RunInv(r, j - 1);
      assert StepTo(r, j);
      OutsideStep(r[j - 1], r[j]);
    }
  }

  lemma OutsideStep(s: S, t: S)
    requires Inv(s) && Next(s, t) && Outside(s) && s.control != StartEnter
    ensures Outside(t) && t.begun == s.begun
  {
  }

  /** The state of affairs inside `startWorking`, entered when `b` calls had begun. */
  predicate Starts(s: S, b: nat, effective: bool) {
    if effective then
      || (s.state == Starting && s.begun == b)
      || (s.state in {Started, Stopped} && s.begun == b + 1)
    else
      s.state in {Started, Stopping, Stopped} && s.begun == b
  }

  lemma {:induction false} StartsThroughout(r: seq<S>, i: nat, k: nat)
    requires Run(r) && i < k < |r| && r[i].control == StartEnter
    requires forall m | i < m <= k :: r[m].control in {StartSpawn, StartWait}
    ensures Starts(r[k], r[i].begun, r[i].worker == NoThread || r[i].state == Stopped)
    decreases k
  {
    RunInv(r, k - 1);
    RunInv(r, k);
    assert StepTo(r, k);
    if k > i + 1 {
      StartsThroughout(r, i, k - 1);
    }
  }

  /** A call of `startWorking` makes one `workLoop()` begin before it returns if the worker had no
      thread yet or was Stopped, and otherwise none: a start that meets an unfinished stop is lost. */
  lemma StartBeginsIff(r: seq<S>, i: nat, j: nat)
    requires Run(r) && i + 1 < j < |r| && r[i].control == StartEnter
    requires forall m | i < m < j :: r[m].control in {StartSpawn, StartWait}
    requires r[j].control == Unlocked
    ensures r[j].begun == r[i].begun + if r[i].worker == NoThread || r[i].state == Stopped then 1 else 0
  {
    StartsThroughout(r, i, j - 1);
    RunInv(r, j - 1);
    assert StepTo(r, j);
  }

  // ---- progress

  /** A controller is blocked in one of the three waits. */
  predicate Blocked(s: S) {
    || (s.control == StartWait && s.state == Starting)
    || (s.control == StopWait && s.state != Stopped)
    || (s.control == KillJoin && s.worker != Exited)
  }

  /** How many phases the worker still has to go through before the wait can end ... */
  function Phase(s: S): nat {
    match s.worker
    case AtClaim => if s.control == StartWait then 0 else 6
    case InLoop(_) => 5
    case AtExchange => 4
    case AtRestore(_) => 3
    case AtWait => 2
    case AtGuard => 1
    case _ => 0
  }

  /** ... and how many steps in the present one. */
  function Left(s: S): nat {
    if s.worker.InLoop? then s.worker.left else 0
  }

  /** Whatever the worker does while someone waits for it brings the end of the wait nearer; and
      while it does nothing, the one who waits changes nothing. */
  lemma BlockedProgress(s: S, t: S)
    requires Inv(s) && Blocked(s)
    ensures WorkerNext(s, t) && Blocked(t) ==>
              Phase(t) < Phase(s) || (Phase(t) == Phase(s) && Left(t) < Left(s))
    ensures ControlNext(s, t) ==> t == s
  {
  }

  /** An infinite run in which the worker thread keeps being scheduled. */
  ghost predicate FairRun(run: nat -> S) {
    && Init(run(0))
    && (forall n: nat :: Steps(run, n))
    && (forall n: nat :: Scheduled(run, n))
  }

  /** While someone waits, the worker thread gets to run. */
  ghost predicate Scheduled(run: nat -> S, n: nat) {
    Blocked(run(n)) ==> exists m: nat :: m >= n && WorkerMoves(run, m)
  }

  /** A step of worker or controller, or none: nobody has to do anything, and once the object is destroyed nobody
      can. */
  ghost predicate Steps(run: nat -> S, n: nat) {
    Next(run(n), run(n + 1)) || run(n + 1) == run(n)
  }

  ghost predicate WorkerMoves(run: nat -> S, m: nat) {
    WorkerNext(run(m), run(m + 1))
  }

  lemma {:induction false} FairInv(run: nat -> S, n: nat)
    requires FairRun(run)
    ensures Inv(run(n))
    decreases n
  {
    if n > 0 {
      FairInv(run, n - 1);
      assert Steps(run, n - 1);
      if WorkerNext(run(n - 1), run(n)) {
        InvWorker(run(n - 1), run(n));
      } else if ControlNext(run(n - 1), run(n)) {
        InvControl(run(n - 1), run(n));
      }
    }
  }

  /** Without a move of the worker, a blocked controller stays where it is. */
  predicate Idle(s: S, t: S) {
    Blocked(s) ==> t == s
  }

  lemma NoMoveIsIdle(run: nat -> S, k: nat)
    requires FairRun(run) && !WorkerMoves(run, k)
    ensures Idle(run(k), run(k + 1))
  {
    FairInv(run, k);
    assert Steps(run, k);
    if Blocked(run(k)) {
      BlockedProgress(run(k), run(k + 1));
    }
  }

  lemma {:induction false} IdleStutters(run: nat -> S, i: nat, m: nat)
    requires Blocked(run(i)) && i <= m
    requires forall k: nat | i <= k < m :: Idle(run(k), run(k + 1))
    ensures run(m) == run(i)
    decreases m
  {
    if i < m {
      IdleStutters(run, i, m - 1);
      assert Idle(run(m - 1), run(m - 1 + 1));
    }
  }

  /** The first move of the worker at or after `i`. */
  lemma FirstMove(run: nat -> S, i: nat, m: nat) returns (f: nat)
    requires i <= m && WorkerMoves(run, m)
    ensures i <= f <= m && WorkerMoves(run, f) && forall k: nat | i <= k < f :: !WorkerMoves(run, k)
  {
    f := i;
    while !WorkerMoves(run, f)
      invariant i <= f <= m
      invariant forall k: nat | i <= k < f :: !WorkerMoves(run, k)
      decreases m - f
    {
      f := f + 1;
    }
  }

  /** Free, or nearer to it. */
  predicate Nearer(s: S, t: S) {
    Blocked(t) ==> Phase(t) < Phase(s) || (Phase(t) == Phase(s) && Left(t) < Left(s))
  }

  lemma MoveIsNearer(run: nat -> S, f: nat)
    requires FairRun(run) && Blocked(run(f)) && WorkerMoves(run, f)
    ensures Nearer(run(f), run(f + 1))
  {
    FairInv(run, f);
    BlockedProgress(run(f), run(f + 1));
  }

  lemma SomeMove(run: nat -> S, i: nat) returns (f: nat)
    requires FairRun(run) && Blocked(run(i))
    ensures i <= f && WorkerMoves(run, f) && forall k: nat | i <= k < f :: Idle(run(k), run(k + 1))
  {
    assert Scheduled(run, i);
    var m: nat :| m >= i && WorkerMoves(run, m);
    f := FirstMove(run, i, m);
    forall k: nat | i <= k < f ensures Idle(run(k), run(k + 1)) {
      NoMoveIsIdle(run, k);
    }
  }

  lemma NextMove(run: nat -> S, i: nat) returns (j: nat)
    requires FairRun(run) && Blocked(run(i))
    ensures i < j && Nearer(run(i), run(j)) && run(j).control == run(i).control
  {
    var f := SomeMove(run, i);
    IdleStutters(run, i, f);
    MoveIsNearer(run, f);
    j := f + 1;
  }

  /** In every fair run, every wait of a controller ends. */
  lemma {:induction false} EveryWaitEnds(run: nat -> S, i: nat) returns (j: nat)
    requires FairRun(run) && Blocked(run(i))
    ensures i < j && !Blocked(run(j)) && run(j).control == run(i).control
    decreases Phase(run(i)), Left(run(i))
  {
    j := NextMove(run, i);
    if Blocked(run(j)) {
      j := EveryWaitEnds(run, j);
    }
  }

  /** A wait that is over stays over until the controller looks. */
  lemma OverStaysOver(s: S, t: S)
    requires Inv(s) && s.control in {StartWait, StopWait, KillJoin} && !Blocked(s) && WorkerNext(s, t)
    ensures t.control == s.control && !Blocked(t)
  {
  }

  predicate Waits(c: ControlPc) {
    c in {StartWait, StopWait, KillJoin}
  }

  ghost predicate ControlMoves(run: nat -> S, m: nat) {
    ControlNext(run(m), run(m + 1))
  }

  /** A controller whose wait is over gets to run. */
  ghost predicate Looks(run: nat -> S, n: nat) {
    Waits(run(n).control) && !Blocked(run(n)) ==> exists m: nat :: m >= n && ControlMoves(run, m)
  }

  /** A fair run in which controllers keep being scheduled too. */
  ghost predicate FairToBoth(run: nat -> S) {
    FairRun(run) && forall n: nat :: Looks(run, n)
  }

  /** Where a call that waits returns to. */
  function ReturnOf(c: ControlPc): ControlPc {
    if c == KillJoin then Destroyed else Unlocked
  }

  /** When a controller whose wait is over moves, its call returns; until then the wait stays over. */
  lemma LookReturns(run: nat -> S, i: nat)
    requires FairRun(run) && Waits(run(i).control) && !Blocked(run(i))
    ensures if ControlMoves(run, i) then run(i + 1).control == ReturnOf(run(i).control)
            else run(i + 1).control == run(i).control && !Blocked(run(i + 1))
  {
    FairInv(run, i);
    assert Steps(run, i);
    if !ControlMoves(run, i) && WorkerNext(run(i), run(i + 1)) {
      OverStaysOver(run(i), run(i + 1));
    }
  }

  lemma {:induction false} ReturnsBy(run: nat -> S, i: nat, m: nat) returns (j: nat)
    requires FairRun(run) && Waits(run(i).control) && !Blocked(run(i)) && i <= m && ControlMoves(run, m)
    ensures i < j <= m + 1 && run(j).control == ReturnOf(run(i).control)
    decreases m - i
  {
    LookReturns(run, i);
    if ControlMoves(run, i) {
      j := i + 1;
    } else {
      j := ReturnsBy(run, i + 1, m);
    }
  }

  /** In every run fair to worker and controllers, every call returns: `startWorking` and `stopWorking` release the
      mutex, and the destructor's `join` comes back with the thread gone. */
  lemma EveryCallReturns(run: nat -> S, i: nat) returns (j: nat)
    requires FairToBoth(run) && Waits(run(i).control)
    ensures i < j && run(j).control == ReturnOf(run(i).control)
    ensures run(i).control == KillJoin ==> run(j).worker == NoThread
  {
    var k := i;
    if Blocked(run(i)) {
      k := EveryWaitEnds(run, i);
    }
    assert Looks(run, k);
    var m: nat :| m >= k && ControlMoves(run, m);
    j := ReturnsBy(run, k, m);
    FairInv(run, j);
  }

  // ---- a whole life: the worker is started, and the object is destroyed

  function Life(n: nat): S {
    if n == 0 then S(Starting, NoThread, Unlocked, 0)
    else if n == 1 then S(Starting, NoThread, StartEnter, 0)
    else if n == 2 then S(Starting, NoThread, StartSpawn, 0)
    else if n == 3 then S(Starting, AtGuard, StartWait, 0)
    else if n == 4 then S(Starting, AtClaim, StartWait, 0)
    else if n == 5 then S(Started, InLoop(0), StartWait, 1)
    else if n == 6 then S(Started, InLoop(0), Unlocked, 1)
    else if n == 7 then S(Started, InLoop(0), KillEnter, 1)
    else if n == 8 then S(Killing, InLoop(0), KillJoin, 1)
    else if n == 9 then S(Killing, AtExchange, KillJoin, 1)
    else if n == 10 then S(Stopped, AtRestore(Killing), KillJoin, 1)
    else if n == 11 then S(Killing, AtWait, KillJoin, 1)
    else if n == 12 then S(Killing, AtGuard, KillJoin, 1)
    else if n == 13 then S(Killing, Exited, KillJoin, 1)
    else S(Killing, NoThread, Destroyed, 1)
  }

  lemma LifeSteps(n: nat)
    ensures Steps(Life, n)
    ensures Blocked(Life(n)) ==> WorkerMoves(Life, n)
    ensures Waits(Life(n).control) && !Blocked(Life(n)) ==> ControlMoves(Life, n)
  {
    var s, t := Life(n), Life(n + 1);
    if n < 3 || 5 <= n < 8 || n == 13 {
      assert ControlNext(s, t);
    } else if n < 13 {
      assert WorkerNext(s, t);
    }
  }

  /** There are such runs, with a wait of each kind: in this one a start waits, and the destructor's join, which has
      to see Killing through the window in which it is not in `m_state`. */
  lemma LifeIsFair()
    ensures FairToBoth(Life) && Life(3).control == StartWait && Blocked(Life(3))
    ensures Life(8).control == KillJoin && Blocked(Life(8)) && Restoring(Life(10))
  {
    forall n: nat ensures Steps(Life, n) && Scheduled(Life, n) && Looks(Life, n) {
      LifeSteps(n);
    }
  }

  // ---- a start that is lost

  lemma Extend(r: seq<S>, t: S) returns (r': seq<S>)
    requires Run(r) && Next(r[|r| - 1], t)
    ensures Run(r') && r' == r + [t]
  {
    r' := r + [t];
    forall i | 0 < i < |r'| ensures StepTo(r', i) {
      if i < |r| {
        assert StepTo(r, i);
      }
    }
  }

  /** The worker is started and told to stop; before it has noticed, it is started again. That call, entered at 9,
      returns at 11, and no `workLoop()` begins, then or later: the worker ends up waiting. */
  lemma LostStart() returns (r: seq<S>)
    ensures Run(r) && |r| == 15 && r[9].control == StartEnter && r[9].state == Stopping && r[11].control == Unlocked
    ensures r[9].begun == 1 && r[14] == S(Stopped, AtWait, Unlocked, 1)
  {
    r := [S(Starting, NoThread, Unlocked, 0)];
    r := Extend(r, S(Starting, NoThread, StartEnter, 0));
    r := Extend(r, S(Starting, NoThread, StartSpawn, 0));
    r := Extend(r, S(Starting, AtGuard, StartWait, 0));
    r := Extend(r, S(Starting, AtClaim, StartWait, 0));
    r := Extend(r, S(Started, InLoop(0), StartWait, 1));
    r := LostStartRest(r);
  }

  lemma LostStartRest(r: seq<S>) returns (r': seq<S>)
    requires Run(r) && |r| == 6 && r[5] == S(Started, InLoop(0), StartWait, 1)
    ensures Run(r') && |r'| == 15 && r'[9].control == StartEnter && r'[9].state == Stopping && r'[11].control == Unlocked
    ensures r'[9].begun == 1 && r'[14] == S(Stopped, AtWait, Unlocked, 1)
  {
    r' := Extend(r, S(Started, InLoop(0), Unlocked, 1));
    r' := Extend(r', S(Started, InLoop(0), TriggerEnter, 1));
    r' := Extend(r', S(Stopping, InLoop(0), Unlocked, 1));
    r' := LostStartEnd(r');
  }

  lemma LostStartEnd(r: seq<S>) returns (r': seq<S>)
    requires Run(r) && |r| == 9 && r[8] == S(Stopping, InLoop(0), Unlocked, 1)
    ensures Run(r') && |r'| == 15 && r'[9].control == StartEnter && r'[9].state == Stopping && r'[11].control == Unlocked
    ensures r'[9].begun == 1 && r'[14] == S(Stopped, AtWait, Unlocked, 1)
  {
    r' := Extend(r, S(Stopping, InLoop(0), StartEnter, 1));
    r' := Extend(r', S(Stopping, InLoop(0), StartWait, 1));
    r' := Extend(r', S(Stopping, InLoop(0), Unlocked, 1));
    r' := Extend(r', S(Stopping, AtExchange, Unlocked, 1));
    r' := Extend(r', S(Stopped, AtRestore(Stopping), Unlocked, 1));
    r' := Extend(r', S(Stopped, AtWait, Unlocked, 1));
  }
}
