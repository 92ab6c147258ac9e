/** The work loop of `libethash-fpga/FPGAMiner.cpp` against its device. The device's queue is in order
    and reads block, so what a read returns is what the launches enqueued before it have found; the
    device is therefore its buffers after all commands so far. */
module FpgaMiners {
  import opened Arith
  import opened Work

  const MAX_SEARCH_RESULTS: nat := 4

  /** A result slot: the work item that found it, and the mix. */
  datatype Hit = Hit(gid: nat, mix: nat)

  /** One execution of the search kernel: the package it was meant for, what the device had, the epoch of its dataset
      among it, and what it found. */
  datatype Launch = Launch(given: WorkPackage, header: nat, target: nat, dag: int, startNonce: nat, found: seq<Hit>)

  /** What one turn of the loop meets: the work package, whether `initEpoch` succeeds if called, what the
      fresh result counter then holds, and what the kernel will find. */
  datatype Turn = Turn(work: WorkPackage, epochOk: bool, garbage: nat, finds: seq<Hit>)

  function Nonce(start: nat, gid: nat): (x: nat)
    ensures x < TWO64
  {
    (start + gid) % TWO64
  }

  /** The hits that fit the result buffer. */
  function Stored(found: seq<Hit>): (r: seq<Hit>)
    ensures r <= found && |r| == if |found| <= MAX_SEARCH_RESULTS then |found| else MAX_SEARCH_RESULTS
  {
    if |found| <= MAX_SEARCH_RESULTS then found else found[..MAX_SEARCH_RESULTS]
  }

  /** `s` is result `h` of a launch that began at `start`. */
  predicate IsHit(s: Solution, h: Hit, start: nat) {
    s.nonce == Nonce(start, h.gid) && s.mixHash == h.mix
  }

  /** A solution belongs to a launch: the package that launch was given, with the start nonce that launch
      had, and a nonce and mix that launch has found. */
  predicate BelongsTo(s: Solution, l: Launch) {
    && s.work == l.given.(startNonce := l.startNonce) && s.work.header == l.header
    && exists k: nat | k < |Stored(l.found)| :: IsHit(s, l.found[k], l.startNonce)
  }

  /** Every solution belongs to the launch that `origin` names for it. */
  predicate Paired(submitted: seq<Solution>, origin: seq<nat>, launches: seq<Launch>) {
    && |origin| == |submitted|
    && forall k | 0 <= k < |submitted| :: origin[k] < |launches| && BelongsTo(submitted[k], launches[origin[k]])
  }

  /** Launch after launch: under the same header the nonces go on where the last launch ended; a new
      header, and the first launch, starts at its package's own start nonce, with its own boundary. */
  predicate Follows(prev: Option<Launch>, next: Launch, globalWorkSize: nat) {
    && next.header != 0 && next.given.header == next.header
    && if prev.Some? && next.header == prev.value.header
       then next.startNonce == Nonce(prev.value.startNonce, globalWorkSize) && next.target == prev.value.target
       else next.startNonce == next.given.startNonce && next.target == TargetOf(next.given.boundary)
  }

  function Last(launches: seq<Launch>): Option<Launch> {
    if launches == [] then None else Some(launches[|launches| - 1])
  }

  /** The launch before launch `k`. */
  function Before(launches: seq<Launch>, k: nat): Option<Launch>
    requires k < |launches|
  {
    if k == 0 then None else Some(launches[k - 1])
  }

  predicate Chained(launches: seq<Launch>, globalWorkSize: nat) {
    forall k | 0 <= k < |launches| :: FollowsAt(launches, k, globalWorkSize)
  }

  predicate FollowsAt(launches: seq<Launch>, k: nat, globalWorkSize: nat)
    requires k < |launches|
  {
    Follows(Before(launches, k), launches[k], globalWorkSize)
  }


  /** `m_lastNonce` after reporting. */
  function LastNonce(work: WorkPackage, results: seq<Hit>, last: nat): nat {
    if results == [] then last else Nonce(work.startNonce, results[|results| - 1].gid)
  }

  /** The solutions reported: one per result, except that a nonce is not reported twice in a row. */
  function Reported(work: WorkPackage, results: seq<Hit>, last: nat): seq<Solution> {
    if results == [] then []
    else
      var n := |results| - 1;
      var before := Reported(work, results[..n], last);
      var nonce := Nonce(work.startNonce, results[n].gid);
      if nonce == LastNonce(work, results[..n], last) then before
      else before + [Solution(nonce, results[n].mix, work)]
  }

  /** Each reported solution is one of the results. */
  lemma {:induction false} ReportedSound(work: WorkPackage, results: seq<Hit>, last: nat, s: Solution) returns (k: nat)
    requires s in Reported(work, results, last)
    ensures k < |results| && s.work == work && IsHit(s, results[k], work.startNonce)
    decreases |results|
  {
    var n := |results| - 1;
    if s in Reported(work, results[..n], last) {
      k := ReportedSound(work, results[..n], last, s);
    } else {
      k := n;
    }
  }

  function Repeated(n: nat, x: nat): (s: seq<nat>)
    ensures |s| == n && forall k | 0 <= k < n :: s[k] == x
  {
    seq(n, _ => x)
  }

  /** Reporting what launch `last` found keeps every solution paired with its launch. */
  lemma PairMore(submitted: seq<Solution>, origin: seq<nat>, launches: seq<Launch>, last: nat, nonce: nat)
    requires Paired(submitted, origin, launches) && last < |launches|
    requires launches[last].given.header == launches[last].header
    ensures var l := launches[last];
            var out := Reported(l.given.(startNonce := l.startNonce), Stored(l.found), nonce);
            Paired(submitted + out, origin + Repeated(|out|, last), launches)
  {
    var l := launches[last];
    var work := l.given.(startNonce := l.startNonce);
    var out := Reported(work, Stored(l.found), nonce);
    forall s | s in out ensures BelongsTo(s, l) {
      var k := ReportedSound(work, Stored(l.found), nonce, s);
      assert IsHit(s, l.found[k], l.startNonce);
    }
  }

  lemma PairedStays(submitted: seq<Solution>, origin: seq<nat>, launches: seq<Launch>, l: Launch)
    requires Paired(submitted, origin, launches)
    ensures Paired(submitted, origin, launches + [l])
  {
  }

  lemma ChainMore(launches: seq<Launch>, l: Launch, g: nat)
    requires Chained(launches, g) && Follows(Last(launches), l, g)
    ensures Chained(launches + [l], g)
  {
    forall k | 0 <= k < |launches + [l]| ensures FollowsAt(launches + [l], k, g) {
      if k < |launches| {
        assert FollowsAt(launches, k, g);
      }
    }
  }

  // ---- which turns launch, and what is reported of a launch

  /** Of the first `n` turns, those with work have made one launch each, in order. */
  ghost predicate Scheduled(turns: seq<Turn>, when: seq<nat>, launches: seq<Launch>, n: nat) {
    && n <= |turns| && |when| == |launches|
    && (forall k | 0 <= k < |when| :: when[k] < n && MadeIn(launches[k], turns[when[k]]))
    && (forall j, k | 0 <= j < k < |when| :: when[j] < when[k])
    && (forall t | 0 <= t < n :: turns[t].work.header != 0 <==> t in when)
  }

  predicate MadeIn(l: Launch, turn: Turn) {
    l.given == turn.work && l.found == turn.finds
  }

  lemma ScheduleIdle(turns: seq<Turn>, when: seq<nat>, launches: seq<Launch>, n: nat)
    requires Scheduled(turns, when, launches, n) && n < |turns| && turns[n].work.header == 0
    ensures Scheduled(turns, when, launches, n + 1)
  {
  }

  lemma ScheduleMore(turns: seq<Turn>, when: seq<nat>, launches: seq<Launch>, n: nat, l: Launch)
    requires Scheduled(turns, when, launches, n) && n < |turns| && turns[n].work.header != 0 && MadeIn(l, turns[n])
    ensures Scheduled(turns, when + [n], launches + [l], n + 1)
  {
    forall t | 0 <= t < n + 1 ensures turns[t].work.header != 0 <==> t in when + [n] {
    }
  }

  // ---- the loop as a function

  /** What has happened so far: the launches, the solutions submitted, from which launch each of these comes,
      and in which turn each launch was made. */
  datatype Log = Log(launches: seq<Launch>, submitted: seq<Solution>, origin: seq<nat>, when: seq<nat>)

  /** The log after turn `n` has reported `out` and launched `l`. */
  function Extended(log: Log, out: seq<Solution>, l: Launch, n: nat): Log {
    Log(log.launches + [l], log.submitted + out, log.origin + Repeated(|out|, Latest(log)), log.when + [n])
  }

  /** The launch whose results a turn reports. */
  function Latest(log: Log): nat {
    if log.launches == [] then 0 else |log.launches| - 1
  }

  /** The loop between two turns: its variables, the device's buffers with the results not read yet, and the log. */
  datatype Loop = Loop(current: WorkPackage, startNonce: nat, last: nat, header: nat, target: nat, dag: int, unread: seq<Hit>,
                       log: Log)

  function Begin(before: nat, header: nat, target: nat, dag: int): Loop {
    Loop(NO_WORK, 0, before, header, target, dag, [], Log([], [], [], []))
  }

  /** The turn brings a new header and epoch whose setup fails, which ends the loop. */
  predicate EpochFails(m: Loop, turn: Turn) {
    turn.work.header != 0 && m.current.header != turn.work.header && m.current.epoch != turn.work.epoch && !turn.epochOk
  }

  /** Launching under the header of the turn: where it starts, and what the device then has. */
  function LaunchOf(m: Loop, turn: Turn): Launch {
    var w := turn.work;
    if m.current.header != w.header then
      var dag := if m.current.epoch != w.epoch then w.epoch else m.dag;
      Launch(w, w.header, TargetOf(w.boundary), dag, w.startNonce, turn.finds)
    else Launch(w, m.header, m.target, m.dag, m.startNonce, turn.finds)
  }

  /** A turn that does not fail. */
  function Turned(m: Loop, turn: Turn, n: nat, g: nat): Loop {
    if turn.work.header == 0 then m.(unread := [])
    else
      var l := LaunchOf(m, turn);
      Loop(turn.work.(startNonce := l.startNonce), Nonce(l.startNonce, g), LastNonce(m.current, m.unread, m.last),
           l.header, l.target, l.dag, Stored(turn.finds), Extended(m.log, Reported(m.current, m.unread, m.last), l, n))
  }

  /** The loop after `n` turns from `m`. */
  function After(m: Loop, turns: seq<Turn>, n: nat, g: nat): Loop
    requires n <= |turns|
    decreases n
  {
    if n == 0 then m else Turned(After(m, turns, n - 1, g), turns[n - 1], n - 1, g)
  }

  /** Turn `k` ends the loop. */
  predicate FailsAt(m: Loop, turns: seq<Turn>, k: nat, g: nat)
    requires k < |turns|
  {
    EpochFails(After(m, turns, k, g), turns[k])
  }

  /** A loop about to begin. */
  predicate Fresh(m: Loop) {
    m == Begin(m.last, m.header, m.target, m.dag)
  }

  // ---- what holds of it, for any turns

  /** The loop's variables and the device belong to the last launch: its results are still there, or have been
      read in an idle turn. */
  predicate Linked(m: Loop, n: nat, g: nat) {
    && |m.log.when| == |m.log.launches|
    && match Last(m.log.launches)
       case None => m.current == NO_WORK && m.unread == []
       case Some(l) =>
         && m.header == l.header && m.target == l.target && m.dag == l.dag && l.given.header == l.header
         && m.current == l.given.(startNonce := l.startNonce) && m.startNonce == Nonce(l.startNonce, g)
         && m.unread == (if m.log.when[|m.log.when| - 1] + 1 == n then Stored(l.found) else [])
  }

  lemma TurnLinks(m: Loop, turn: Turn, n: nat, g: nat)
    requires Linked(m, n, g)
    requires m.log.when != [] ==> m.log.when[|m.log.when| - 1] < n
    ensures Linked(Turned(m, turn, n, g), n + 1, g)
    ensures var t := Turned(m, turn, n, g); t.log.when != [] ==> t.log.when[|t.log.when| - 1] < n + 1
  {
  }

  lemma {:induction false} AlwaysLinked(m: Loop, turns: seq<Turn>, n: nat, g: nat)
    requires Fresh(m) && n <= |turns|
    ensures Linked(After(m, turns, n, g), n, g)
    ensures var t := After(m, turns, n, g); t.log.when != [] ==> t.log.when[|t.log.when| - 1] < n
    decreases n
  {
    if n > 0 {
      AlwaysLinked(m, turns, n - 1, g);
      TurnLinks(After(m, turns, n - 1, g), turns[n - 1], n - 1, g);
    }
  }

  /** Each submitted solution belongs to the launch that found it. */
  lemma {:induction false} SubmittedPaired(m: Loop, turns: seq<Turn>, n: nat, g: nat)
    requires Fresh(m) && n <= |turns|
    ensures var log := After(m, turns, n, g).log; Paired(log.submitted, log.origin, log.launches)
    decreases n
  {
    if n > 0 {
      SubmittedPaired(m, turns, n - 1, g);
      AlwaysLinked(m, turns, n - 1, g);
      TurnPairs(After(m, turns, n - 1, g), turns[n - 1], n - 1, g);
    }
  }

  lemma TurnPairs(m: Loop, turn: Turn, n: nat, g: nat)
    requires Linked(m, n, g) && Paired(m.log.submitted, m.log.origin, m.log.launches)
    ensures var log := Turned(m, turn, n, g).log; Paired(log.submitted, log.origin, log.launches)
  {
    if turn.work.header != 0 {
      var out := Reported(m.current, m.unread, m.last);
      if m.unread != [] {
        PairMore(m.log.submitted, m.log.origin, m.log.launches, |m.log.launches| - 1, m.last);
      }
      var l := LaunchOf(m, turn);
      PairedStays(m.log.submitted + out, Extended(m.log, out, l, n).origin, m.log.launches, l);
    }
  }

  /** Launches follow one another without gap while the header stays. */
  lemma {:induction false} LaunchesChained(m: Loop, turns: seq<Turn>, n: nat, g: nat)
    requires Fresh(m) && n <= |turns|
    ensures Chained(After(m, turns, n, g).log.launches, g)
    decreases n
  {
    if n > 0 {
      LaunchesChained(m, turns, n - 1, g);
      AlwaysLinked(m, turns, n - 1, g);
      var before := After(m, turns, n - 1, g);
      if turns[n - 1].work.header != 0 {
        ChainMore(before.log.launches, LaunchOf(before, turns[n - 1]), g);
      }
    }
  }

  /** Every turn with work makes one launch, and no other turn does. */
  lemma TurnsScheduled(m: Loop, turns: seq<Turn>, n: nat, g: nat)
    requires Fresh(m) && n <= |turns|
    ensures OnSchedule(After(m, turns, n, g), turns, n)
  {
    var t, k := m, 0;
    while k < n
      invariant 0 <= k <= n && t == After(m, turns, k, g) && OnSchedule(t, turns, k)
    {
      var next := Turned(t, turns[k], k, g);
      TurnSchedules(t, turns, k, g, next);
      t, k := next, k + 1;
    }
  }

  ghost predicate OnSchedule(m: Loop, turns: seq<Turn>, n: nat) {
    Scheduled(turns, m.log.when, m.log.launches, n)
  }

  lemma TurnSchedules(m: Loop, turns: seq<Turn>, n: nat, g: nat, t: Loop)
    requires n < |turns| && OnSchedule(m, turns, n) && t == Turned(m, turns[n], n, g)
    ensures OnSchedule(t, turns, n + 1)
  {
    if turns[n].work.header == 0 {
      ScheduleIdle(turns, m.log.when, m.log.launches, n);
    } else {
      ScheduleMore(turns, m.log.when, m.log.launches, n, LaunchOf(m, turns[n]));
    }
  }

  // ---- which dataset a launch works on

  /** The dataset is loaded anew exactly when header and epoch both change. */
  predicate DagFollows(prev: Option<Launch>, next: Launch) {
    next.dag ==
    if prev.Some? && (next.header == prev.value.header || next.given.epoch == prev.value.given.epoch)
    then prev.value.dag else next.given.epoch
  }

  predicate DagFollowsAt(launches: seq<Launch>, k: nat)
    requires k < |launches|
  {
    DagFollows(Before(launches, k), launches[k])
  }

  predicate DagChained(launches: seq<Launch>) {
    forall k | 0 <= k < |launches| :: DagFollowsAt(launches, k)
  }

  predicate HasEpoch(turns: seq<Turn>) {
    forall k | 0 <= k < |turns| :: turns[k].work.header != 0 ==> turns[k].work.epoch >= 0
  }

  lemma DagMore(launches: seq<Launch>, l: Launch)
    requires DagChained(launches) && DagFollows(Last(launches), l)
    ensures DagChained(launches + [l])
  {
    forall k | 0 <= k < |launches + [l]| ensures DagFollowsAt(launches + [l], k) {
      if k < |launches| {
        assert DagFollowsAt(launches, k);
      }
    }
  }

  lemma {:induction false} DagsChained(m: Loop, turns: seq<Turn>, n: nat, g: nat)
    requires Fresh(m) && n <= |turns| && HasEpoch(turns)
    ensures DagChained(After(m, turns, n, g).log.launches)
    decreases n
  {
    if n > 0 {
      DagsChained(m, turns, n - 1, g);
      AlwaysLinked(m, turns, n - 1, g);
      var before := After(m, turns, n - 1, g);
      if turns[n - 1].work.header != 0 {
        DagMore(before.log.launches, LaunchOf(before, turns[n - 1]));
      }
    }
  }

  /** Every launch works on the dataset of its own package's epoch. */
  predicate RightDags(launches: seq<Launch>) {
    forall k | 0 <= k < |launches| :: launches[k].dag == launches[k].given.epoch
  }

  /** No package comes with the header of the one before and another epoch. */
  predicate EpochsFit(launches: seq<Launch>) {
    forall k | 0 < k < |launches| :: EpochFitsAt(launches, k)
  }

  predicate EpochFitsAt(launches: seq<Launch>, k: nat)
    requires 0 < k < |launches|
  {
    launches[k].header == launches[k - 1].header ==> launches[k].given.epoch == launches[k - 1].given.epoch
  }

  lemma {:induction false} DagRightUpTo(launches: seq<Launch>, k: nat)
    requires DagChained(launches) && EpochsFit(launches) && k < |launches|
    ensures launches[k].dag == launches[k].given.epoch
    decreases k
  {
    assert DagFollowsAt(launches, k);
    if k > 0 {
      DagRightUpTo(launches, k - 1);
      assert EpochFitsAt(launches, k);
    }
  }

  /** Over every run: all launches work on the right dataset if and only if no package repeats a header with another
      epoch. */
  lemma DagsRightIff(m: Loop, turns: seq<Turn>, n: nat, g: nat)
    requires Fresh(m) && n <= |turns| && HasEpoch(turns)
    ensures var launches := After(m, turns, n, g).log.launches; RightDags(launches) <==> EpochsFit(launches)
  {
    DagsChained(m, turns, n, g);
    var launches := After(m, turns, n, g).log.launches;
    if EpochsFit(launches) {
      forall k | 0 <= k < |launches| ensures launches[k].dag == launches[k].given.epoch {
        DagRightUpTo(launches, k);
      }
    }
    if RightDags(launches) {
      forall k | 0 < k < |launches| ensures EpochFitsAt(launches, k) {
        assert DagFollowsAt(launches, k);
        assert launches[k].dag == launches[k].given.epoch && launches[k - 1].dag == launches[k - 1].given.epoch;
      }
    }
  }

  /** A turn ends the loop exactly when it has work whose setup fails, with header and epoch both other than those of
      the last launch. */
  lemma FailsIff(m: Loop, turns: seq<Turn>, k: nat, g: nat)
    requires Fresh(m) && k < |turns| && HasEpoch(turns)
    ensures FailsAt(m, turns, k, g) <==>
              && turns[k].work.header != 0 && !turns[k].epochOk
              && var last := Last(After(m, turns, k, g).log.launches);
                 last.None? || (last.value.header != turns[k].work.header && last.value.given.epoch != turns[k].work.epoch)
  {
    AlwaysLinked(m, turns, k, g);
    assert turns[k].work.header != 0 ==> turns[k].work.epoch >= 0;
  }

  // ---- which results are submitted

  /** The solutions submitted for launch `k`. */
  function SubmittedFor(submitted: seq<Solution>, origin: seq<nat>, k: nat): seq<Solution>
    requires |origin| == |submitted|
    decreases |submitted|
  {
    if submitted == [] then []
    else
      var n := |submitted| - 1;
      SubmittedFor(submitted[..n], origin[..n], k) + if origin[n] == k then [submitted[n]] else []
  }

  lemma {:induction false} SubmittedForJoin(a: seq<Solution>, oa: seq<nat>, b: seq<Solution>, ob: seq<nat>, k: nat)
    requires |oa| == |a| && |ob| == |b|
    ensures SubmittedFor(a + b, oa + ob, k) == SubmittedFor(a, oa, k) + SubmittedFor(b, ob, k)
    decreases |b|
  {
    if b == [] {
      assert a + b == a && oa + ob == oa;
    } else {
      var n := |b| - 1;
      assert (a + b)[..|a| + n] == a + b[..n] && (oa + ob)[..|a| + n] == oa + ob[..n];
      SubmittedForJoin(a, oa, b[..n], ob[..n], k);
    }
  }

  lemma {:induction false} SubmittedForOne(out: seq<Solution>, j: nat, k: nat)
    ensures SubmittedFor(out, Repeated(|out|, j), k) == if j == k then out else []
    decreases |out|
  {
    if out != [] {
      var n := |out| - 1;
      assert Repeated(|out|, j)[..n] == Repeated(n, j);
      SubmittedForOne(out[..n], j, k);
      assert out == out[..n] + [out[n]];
    }
  }

  lemma {:induction false} SubmittedForNone(submitted: seq<Solution>, origin: seq<nat>, k: nat)
    requires |origin| == |submitted| && k !in origin
    ensures SubmittedFor(submitted, origin, k) == []
    decreases |submitted|
  {
    if submitted != [] {
      SubmittedForNone(submitted[..|submitted| - 1], origin[..|submitted| - 1], k);
    }
  }

  /** The turn after turn `at` has work, and is completed. */
  predicate Collected(turns: seq<Turn>, at: nat, n: nat)
    requires n <= |turns|
  {
    at + 1 < n && turns[at + 1].work.header != 0
  }

  /** The nonce remembered when the results of launch `k` are reported: that of the last solution submitted for an
      earlier launch, of whatever job, or the one remembered before the loop began. */
  function Remembered(submitted: seq<Solution>, origin: seq<nat>, k: nat, before: nat): nat
    requires |origin| == |submitted|
    decreases |submitted|
  {
    if submitted == [] then before
    else
      var n := |submitted| - 1;
      if origin[n] < k then submitted[n].nonce else Remembered(submitted[..n], origin[..n], k, before)
  }

  lemma {:induction false} RememberedKept(a: seq<Solution>, oa: seq<nat>, b: seq<Solution>, j: nat, k: nat, before: nat)
    requires |oa| == |a| && k <= j
    ensures Remembered(a + b, oa + Repeated(|b|, j), k, before) == Remembered(a, oa, k, before)
    decreases |b|
  {
    var ob := Repeated(|b|, j);
    if b == [] {
      assert a + b == a && oa + ob == oa;
    } else {
      var n := |b| - 1;
      assert (a + b)[..|a| + n] == a + b[..n] && (oa + ob)[..|a| + n] == oa + Repeated(n, j);
      RememberedKept(a, oa, b[..n], j, k, before);
    }
  }

  predicate Logged(log: Log) {
    |log.launches| == |log.when| && |log.origin| == |log.submitted|
  }

  /** What is submitted for launch `k`: its results as reported with the nonce remembered by then, if they were
      collected, and nothing otherwise. */
  predicate Submits(log: Log, k: nat, collected: bool, before: nat)
    requires k < |log.launches| && Logged(log)
  {
    var l := log.launches[k];
    SubmittedFor(log.submitted, log.origin, k)
    == if collected
       then Reported(l.given.(startNonce := l.startNonce), Stored(l.found),
                     Remembered(log.submitted, log.origin, k, before))
       else []
  }

  /** The log has grown by one turn. */
  lemma ExtendedFor(log: Log, out: seq<Solution>, l: Launch, n: nat, k: nat)
    requires |log.origin| == |log.submitted|
    ensures var e := Extended(log, out, l, n);
            && |e.origin| == |e.submitted|
            && SubmittedFor(e.submitted, e.origin, k)
               == SubmittedFor(log.submitted, log.origin, k) + (if k == Latest(log) then out else [])
            && (k <= Latest(log) ==> forall b ::
                  Remembered(e.submitted, e.origin, k, b) == Remembered(log.submitted, log.origin, k, b))
  {
    forall b | k <= Latest(log)
      ensures Remembered(log.submitted + out, log.origin + Repeated(|out|, Latest(log)), k, b)
           == Remembered(log.submitted, log.origin, k, b)
    {
      RememberedKept(log.submitted, log.origin, out, Latest(log), k, b);
    }
    SubmittedForJoin(log.submitted, log.origin, out, Repeated(|out|, Latest(log)), k);
    SubmittedForOne(out, Latest(log), k);
  }

  /** A turn reports the results of the last launch only. */
  lemma OthersKept(log: Log, out: seq<Solution>, l: Launch, n: nat, k: nat, collected: bool, before: nat)
    requires Logged(log) && k < |log.launches| && Submits(log, k, collected, before) && (k == Latest(log) ==> out == [])
    ensures Logged(Extended(log, out, l, n)) && Submits(Extended(log, out, l, n), k, collected, before)
  {
    ExtendedFor(log, out, l, n, k);
  }

  /** `last` is the nonce of the last solution submitted. */
  predicate RemembersLast(submitted: seq<Solution>, last: nat, before: nat) {
    last == if submitted == [] then before else submitted[|submitted| - 1].nonce
  }

  lemma {:induction false} NoneYet(submitted: seq<Solution>, origin: seq<nat>, k: nat)
    requires |origin| == |submitted| && SubmittedFor(submitted, origin, k) == []
    ensures k !in origin
    decreases |submitted|
  {
    if submitted != [] {
      var n := |submitted| - 1;
      NoneYet(submitted[..n], origin[..n], k);
      assert origin == origin[..n] + [origin[n]];
    }
  }

  lemma LatestCollected(p: Loop, l: Launch, n: nat, k: nat, before: nat)
    requires Logged(p.log) && k == Latest(p.log) < |p.log.launches| && Submits(p.log, k, false, before)
    requires RemembersLast(p.log.submitted, p.last, before)
    requires Known(p.log)
    requires var prev := p.log.launches[k];
             p.current == prev.given.(startNonce := prev.startNonce) && p.unread == Stored(prev.found)
    ensures var e := Extended(p.log, Reported(p.current, p.unread, p.last), l, n);
            Logged(e) && Submits(e, k, true, before)
  {
    NoneYet(p.log.submitted, p.log.origin, k);
    assert Remembered(p.log.submitted, p.log.origin, k, before) == p.last;
    ExtendedFor(p.log, Reported(p.current, p.unread, p.last), l, n, k);
  }

  /** Where launch `k` stands when turn `n` begins: it is the last one and was made in the turn before, or the turn
      after it is over, and that had no work if it is still the last. */
  predicate Placed(turns: seq<Turn>, when: seq<nat>, n: nat, k: nat)
    requires n <= |turns| && k < |when|
  {
    && when[k] < n && (k < |when| - 1 ==> when[k] + 1 < n)
    && (k == |when| - 1 && when[k] + 1 < n ==> turns[when[k] + 1].work.header == 0)
  }

  lemma LaunchPlaced(turns: seq<Turn>, when: seq<nat>, launches: seq<Launch>, n: nat, k: nat)
    requires Scheduled(turns, when, launches, n) && k < |when|
    ensures Placed(turns, when, n, k)
  {
    if k < |when| - 1 {
      assert when[k] < when[|when| - 1];
    } else if when[k] + 1 < n {
      assert forall j | 0 <= j < |when| :: when[j] != when[k] + 1;
      assert when[k] + 1 !in when;
    }
  }

  /** Nothing is submitted for a launch not yet made. */
  predicate Known(log: Log) {
    forall i | 0 <= i < |log.origin| :: log.origin[i] < |log.launches|
  }

  /** A turn with work, by whether launch `k` was made in the turn before. */
  lemma TurnCollects(p: Loop, l: Launch, n: nat, k: nat, was: bool, now: bool, before: nat)
    requires Logged(p.log) && k < |p.log.launches| && Submits(p.log, k, was, before)
    requires RemembersLast(p.log.submitted, p.last, before)
    requires Known(p.log)
    requires k == Latest(p.log) ==>
               var prev := p.log.launches[k];
               && p.current == prev.given.(startNonce := prev.startNonce)
               && p.unread == (if p.log.when[k] + 1 == n then Stored(prev.found) else [])
    requires if k == Latest(p.log) && p.log.when[k] + 1 == n then !was && now else now == was
    ensures var e := Extended(p.log, Reported(p.current, p.unread, p.last), l, n); Logged(e) && Submits(e, k, now, before)
  {
    if k == Latest(p.log) && p.log.when[k] + 1 == n {
      LatestCollected(p, l, n, k, before);
    } else {
      OthersKept(p.log, Reported(p.current, p.unread, p.last), l, n, k, was, before);
    }
  }

  /** For a launch just made nothing has been submitted. */
  lemma NewLaunch(turn: Turn, n: nat, g: nat, p: Loop, before: nat)
    requires turn.work.header != 0 && Logged(p.log) && Known(p.log) && (p.log.launches == [] ==> p.unread == [])
    ensures var e := Turned(p, turn, n, g).log;
            && Logged(e) && |e.launches| == |p.log.launches| + 1 && e.when[|p.log.launches|] == n
            && Submits(e, |p.log.launches|, false, before)
  {
    var k := |p.log.launches|;
    ExtendedFor(p.log, Reported(p.current, p.unread, p.last), LaunchOf(p, turn), n, k);
    SubmittedForNone(p.log.submitted, p.log.origin, k);
  }

  /** What is submitted for launch `k` after `n` turns. */
  predicate Right(turns: seq<Turn>, n: nat, log: Log, k: nat, before: nat)
    requires n <= |turns|
  {
    && Logged(log) && k < |log.launches| && log.when[k] < n
    && Submits(log, k, Collected(turns, log.when[k], n), before)
  }

  /** What a turn can rely on. */
  predicate Ready(p: Loop, n: nat, g: nat, before: nat) {
    Logged(p.log) && Linked(p, n, g) && Known(p.log) && RemembersLast(p.log.submitted, p.last, before)
  }

  lemma AlwaysReady(m: Loop, turns: seq<Turn>, n: nat, g: nat)
    requires Fresh(m) && n <= |turns|
    ensures Ready(After(m, turns, n, g), n, g, m.last)
  {
    AlwaysLinked(m, turns, n, g);
    SubmittedPaired(m, turns, n, g);
    RememberedNonce(m, turns, n, g);
  }

  lemma AlwaysPlaced(m: Loop, turns: seq<Turn>, n: nat, g: nat, k: nat)
    requires Fresh(m) && n <= |turns| && k < |After(m, turns, n, g).log.when|
    ensures Placed(turns, After(m, turns, n, g).log.when, n, k)
  {
    TurnsScheduled(m, turns, n, g);
    var log := After(m, turns, n, g).log;
    LaunchPlaced(turns, log.when, log.launches, n, k);
  }

  lemma RightActive(turns: seq<Turn>, n: nat, g: nat, p: Loop, k: nat, before: nat)
    requires n < |turns| && turns[n].work.header != 0 && Right(turns, n, p.log, k, before)
    requires Ready(p, n, g, before) && Placed(turns, p.log.when, n, k)
    ensures Right(turns, n + 1, Turned(p, turns[n], n, g).log, k, before)
  {
    var at := p.log.when[k];
    TurnCollects(p, LaunchOf(p, turns[n]), n, k, Collected(turns, at, n), Collected(turns, at, n + 1), before);
  }

  lemma RightIdle(turns: seq<Turn>, n: nat, log: Log, k: nat, before: nat)
    requires n < |turns| && turns[n].work.header == 0 && Right(turns, n, log, k, before)
    ensures Right(turns, n + 1, log, k, before)
  {
  }

  /** Over every run, exactly what is submitted for each launch. */
  lemma SubmittedExactly(m: Loop, turns: seq<Turn>, n: nat, g: nat, k: nat)
    requires Fresh(m) && n <= |turns| && k < |After(m, turns, n, g).log.launches|
    ensures Right(turns, n, After(m, turns, n, g).log, k, m.last)
  {
    var t, i := m, 0;
    while i < n
      invariant 0 <= i <= n && t == After(m, turns, i, g)
      invariant k < |t.log.launches| ==> Right(turns, i, t.log, k, m.last)
    {
      var next := Turned(t, turns[i], i, g);
      if k < |next.log.launches| {
        StaysRight(m, turns, i, g, t, k, next);
      }
      t, i := next, i + 1;
    }
  }

  lemma StaysRight(m: Loop, turns: seq<Turn>, n: nat, g: nat, p: Loop, k: nat, t: Loop)
    requires Fresh(m) && n < |turns| && p == After(m, turns, n, g) && t == Turned(p, turns[n], n, g)
    requires k < |t.log.launches| && (k < |p.log.launches| ==> Right(turns, n, p.log, k, m.last))
    ensures Right(turns, n + 1, t.log, k, m.last)
  {
    AlwaysReady(m, turns, n, g);
    if k < |p.log.launches| {
      AlwaysPlaced(m, turns, n, g, k);
    }
    TurnRight(turns, n, g, p, k, m.last, t);
  }

  lemma TurnRight(turns: seq<Turn>, n: nat, g: nat, p: Loop, k: nat, before: nat, t: Loop)
    requires n < |turns| && t == Turned(p, turns[n], n, g) && k < |t.log.launches|
    requires Ready(p, n, g, before)
    requires k < |p.log.launches| ==> Right(turns, n, p.log, k, before) && Placed(turns, p.log.when, n, k)
    ensures Right(turns, n + 1, t.log, k, before)
  {
    if turns[n].work.header == 0 {
      RightIdle(turns, n, p.log, k, before);
    } else if k < |p.log.launches| {
      RightActive(turns, n, g, p, k, before);
    } else {
      NewLaunch(turns[n], n, g, p, before);
    }
  }

  /** The nonce remembered is that of the solution submitted last, for whatever job. */
  lemma {:induction false} RememberedNonce(m: Loop, turns: seq<Turn>, n: nat, g: nat)
    requires Fresh(m) && n <= |turns|
    ensures RemembersLast(After(m, turns, n, g).log.submitted, After(m, turns, n, g).last, m.last)
    decreases n
  {
    if n > 0 {
      RememberedNonce(m, turns, n - 1, g);
      TurnRemembers(After(m, turns, n - 1, g), turns[n - 1], n - 1, g, m.last);
    }
  }

  lemma TurnRemembers(m: Loop, turn: Turn, n: nat, g: nat, before: nat)
    requires RemembersLast(m.log.submitted, m.last, before)
    ensures var t := Turned(m, turn, n, g); RemembersLast(t.log.submitted, t.last, before)
  {
    LastReported(m.current, m.unread, m.last);
  }

  lemma {:induction false} LastReported(work: WorkPackage, results: seq<Hit>, last: nat)
    ensures RemembersLast(Reported(work, results, last), LastNonce(work, results, last), last)
    decreases |results|
  {
    if results != [] {
      LastReported(work, results[..|results| - 1], last);
    }
  }

  /** `x` is the nonce of a result, ... */
  predicate Finds(results: seq<Hit>, start: nat, x: nat) {
    exists i | 0 <= i < |results| :: Nonce(start, results[i].gid) == x
  }

  /** ... and every result with that nonce comes before all others and repeats the nonce remembered from before. */
  predicate Repeats(results: seq<Hit>, start: nat, x: nat, last: nat) {
    && x == last
    && forall i, j | 0 <= j < i < |results| && Nonce(start, results[i].gid) == x :: Nonce(start, results[j].gid) == x
  }

  predicate HasNonce(out: seq<Solution>, x: nat) {
    exists i | 0 <= i < |out| :: out[i].nonce == x
  }

  lemma HasNonceMore(out: seq<Solution>, s: Solution, x: nat)
    ensures HasNonce(out + [s], x) <==> HasNonce(out, x) || s.nonce == x
  {
    if HasNonce(out, x) {
      var i :| 0 <= i < |out| && out[i].nonce == x;
      assert (out + [s])[i].nonce == x;
    }
    assert (out + [s])[|out|] == s;
  }

  lemma FindsMore(results: seq<Hit>, h: Hit, start: nat, x: nat)
    ensures Finds(results + [h], start, x) <==> Finds(results, start, x) || Nonce(start, h.gid) == x
  {
    if Finds(results, start, x) {
      var i :| 0 <= i < |results| && Nonce(start, results[i].gid) == x;
      assert (results + [h])[i] == results[i];
    }
    assert (results + [h])[|results|] == h;
  }

  lemma RepeatsMore(results: seq<Hit>, h: Hit, start: nat, x: nat, last: nat)
    ensures Nonce(start, h.gid) != x ==> (Repeats(results + [h], start, x, last) <==> Repeats(results, start, x, last))
    ensures Nonce(start, h.gid) == x && results == [] ==> (Repeats(results + [h], start, x, last) <==> x == last)
    ensures Nonce(start, h.gid) == x && results != [] && Nonce(start, results[|results| - 1].gid) != x ==>
              !Repeats(results + [h], start, x, last)
    ensures Nonce(start, h.gid) == x && results != [] && Nonce(start, results[|results| - 1].gid) == x ==>
              (Repeats(results + [h], start, x, last) <==> Repeats(results, start, x, last))
  {
    var all, n := results + [h], |results|;
    assert forall i | 0 <= i < n :: all[i] == results[i];
    assert all[n] == h;
    if results != [] {
      assert all[n - 1] == results[n - 1];
    }
  }

  /** A nonce found is reported, unless it repeats. */
  lemma {:induction false} ReportedIff(work: WorkPackage, results: seq<Hit>, last: nat, x: nat)
    ensures HasNonce(Reported(work, results, last), x)
            <==> Finds(results, work.startNonce, x) && !Repeats(results, work.startNonce, x, last)
    decreases |results|
  {
    if results != [] {
      var n := |results| - 1;
      var pre, h := results[..n], results[n];
      assert results == pre + [h];
      ReportedIff(work, pre, last, x);
      FindsMore(pre, h, work.startNonce, x);
      RepeatsMore(pre, h, work.startNonce, x, last);
      HasNonceMore(Reported(work, pre, last), Solution(Nonce(work.startNonce, h.gid), h.mix, work), x);
      if pre != [] {
        assert Finds(pre, work.startNonce, Nonce(work.startNonce, pre[n - 1].gid));
      }
    }
  }

  /** Over every run: a nonce is submitted for a launch if and only if the launch found it and the device stored it,
      the turn right after the launch has work, and it does not repeat the nonce remembered from earlier launches. */
  lemma ResultSubmittedIff(m: Loop, turns: seq<Turn>, n: nat, g: nat, k: nat, x: nat)
    requires Fresh(m) && n <= |turns| && k < |After(m, turns, n, g).log.launches|
    ensures SubmittedIff(turns, n, After(m, turns, n, g).log, k, m.last, x)
  {
    SubmittedExactly(m, turns, n, g, k);
    RightIff(turns, n, After(m, turns, n, g).log, k, m.last, x);
  }

  ghost predicate SubmittedIff(turns: seq<Turn>, n: nat, log: Log, k: nat, before: nat, x: nat)
    requires n <= |turns|
  {
    && Logged(log) && k < |log.launches|
    && var l := log.launches[k];
       HasNonce(SubmittedFor(log.submitted, log.origin, k), x) <==>
         && Finds(Stored(l.found), l.startNonce, x) && Collected(turns, log.when[k], n)
         && !Repeats(Stored(l.found), l.startNonce, x, Remembered(log.submitted, log.origin, k, before))
  }

  lemma RightIff(turns: seq<Turn>, n: nat, log: Log, k: nat, before: nat, x: nat)
    requires n <= |turns| && Right(turns, n, log, k, before)
    ensures SubmittedIff(turns, n, log, k, before, x)
  {
    var l := log.launches[k];
    ReportedIff(l.given.(startNonce := l.startNonce), Stored(l.found),
                Remembered(log.submitted, log.origin, k, before), x);
  }

  /** When the nonces of a launch are all different, only its first result can be dropped for repeating. */
  lemma OnlyFirstRepeats(results: seq<Hit>, start: nat, h: nat, last: nat)
    requires h < |results|
    requires forall i, j | 0 <= j < i < |results| :: Nonce(start, results[i].gid) != Nonce(start, results[j].gid)
    ensures Repeats(results, start, Nonce(start, results[h].gid), last)
            <==> h == 0 && Nonce(start, results[0].gid) == last
  {
    var x := Nonce(start, results[h].gid);
    assert h > 0 ==> Nonce(start, results[0].gid) != x;
    assert forall i | 0 <= i < |results| && Nonce(start, results[i].gid) == x :: i == h;
  }

  // ---- two runs that lose a result

  /** A package that repeats a header with another epoch hides the change: the next job, of that epoch, is searched on
      the old dataset. */
  lemma StaleDag(m: Loop, g: nat)
    requires Fresh(m)
    ensures var a := Job(1, []);
            var b := a.(work := a.work.(epoch := 1));
            var c := b.(work := b.work.(header := 2));
            var launches := After(m, [a, b, c], 3, g).log.launches;
            |launches| == 3 && launches[2].given.epoch == 1 && launches[2].dag == 0
  {
    var a := Job(1, []);
    var b := a.(work := a.work.(epoch := 1));
    var c := b.(work := b.work.(header := 2));
    ThreeTurns(m, a, b, c, g);
    var m1 := Turned(m, a, 0, g);
    var m2 := Turned(m1, b, 1, g);
    assert m1.dag == 0 && m2.dag == 0 && m2.current.epoch == 1;
  }

  function Job(header: nat, finds: seq<Hit>): Turn {
    Turn(NO_WORK.(header := header, epoch := 0), true, 0, finds)
  }

  lemma ThreeTurns(m: Loop, a: Turn, b: Turn, c: Turn, g: nat)
    ensures After(m, [a, b, c], 3, g) == Turned(Turned(Turned(m, a, 0, g), b, 1, g), c, 2, g)
  {
    var turns := [a, b, c];
    assert After(m, turns, 1, g) == Turned(After(m, turns, 0, g), a, 0, g);
    assert After(m, turns, 2, g) == Turned(After(m, turns, 1, g), b, 1, g);
  }

  lemma ReportedSingle(work: WorkPackage, h: Hit, last: nat)
    ensures Reported(work, [h], last)
            == if Nonce(work.startNonce, h.gid) == last then [] else [Solution(Nonce(work.startNonce, h.gid), h.mix, work)]
    ensures LastNonce(work, [h], last) == Nonce(work.startNonce, h.gid)
  {
    assert [h][..0] == [];
  }

  /** The nonce remembered survives a change of job: both jobs find their item 5, and though the turn after each has
      work, only the first job's solution is submitted. */
  lemma DroppedAcrossJobs(m: Loop, g: nat, x: nat, y: nat)
    requires Fresh(m) && m.last != 5
    ensures var log := After(m, [Job(1, [Hit(5, x)]), Job(2, [Hit(5, y)]), Job(2, [])], 3, g).log;
            log.submitted == [Solution(5, x, Job(1, []).work)] && SubmittedFor(log.submitted, log.origin, 1) == []
  {
    var a, b, c := Job(1, [Hit(5, x)]), Job(2, [Hit(5, y)]), Job(2, []);
    ThreeTurns(m, a, b, c, g);
    var m1 := Turned(m, a, 0, g);
    var m2 := Turned(m1, b, 1, g);
    ReportedSingle(m1.current, Hit(5, x), m1.last);
    ReportedSingle(m2.current, Hit(5, y), m2.last);
    assert m1.log.submitted == [] && m1.log.origin == [];
    var m3 := Turned(m2, c, 2, g);
    assert m3.log.submitted == m2.log.submitted == [Solution(5, x, a.work)] && m3.log.origin == [0];
    SubmittedForNone(m3.log.submitted, m3.log.origin, 1);
  }

  /** Results read in a turn without work are gone. */
  lemma LostWhileIdle(m: Loop, g: nat, x: nat)
    requires Fresh(m)
    ensures After(m, [Job(1, [Hit(5, x)]), Job(0, []), Job(1, [])], 3, g).log.submitted == []
  {
    var a, b, c := Job(1, [Hit(5, x)]), Job(0, []), Job(1, []);
    ThreeTurns(m, a, b, c, g);
    var m1 := Turned(m, a, 0, g);
    assert m1.log.submitted == [];
    var m2 := Turned(m1, b, 1, g);
    assert m2.unread == [] && m2.log == m1.log;
    var m3 := Turned(m2, c, 2, g);
    assert m3.log.submitted == m2.log.submitted + Reported(m2.current, m2.unread, m2.last);
    assert Reported(m2.current, m2.unread, m2.last) == [];
    assert m3.log.submitted == [];
    assert m3 == After(m, [a, b, c], 3, g);
  }

  // ---- the loop itself

  class FpgaMiner {
    const globalWorkSize: nat
    const noExit: bool
    var lastNonce: nat
    // the device
    var ready: bool          // there is a command queue
    var header: nat          // header buffer
    var target: nat          // kernel argument
    var dag: int             // the epoch the dataset was loaded for
    var count: nat           // result counter
    var rslt: seq<Hit>       // result slots in use

    ghost predicate Valid()
      reads this
    {
      count > 0 ==> ready && |rslt| == if count > MAX_SEARCH_RESULTS then MAX_SEARCH_RESULTS else count
    }

    constructor (globalWorkSize: nat, noExit: bool)
      ensures this.globalWorkSize == globalWorkSize && this.noExit == noExit
      ensures Valid() && !ready && count == 0 && lastNonce == 0
    {
      this.globalWorkSize, this.noExit := globalWorkSize, noExit;
      lastNonce, ready, header, target, dag, count, rslt := 0, false, 0, 0, -1, 0, [];
    }

    /** The results on the device that have not been read. */
    ghost function Unread(): seq<Hit>
      reads this
    {
      if count > 0 then rslt else []
    }

    ghost function State(current: WorkPackage, startNonce: nat, log: Log): Loop
      reads this
    {
      Loop(current, startNonce, lastNonce, header, target, dag, Unread(), log)
    }

    /** Read the results and reset the counter. */
    method ReadResults() returns (results: seq<Hit>)
      requires Valid()
      modifies this`count
      ensures count == 0 && results == old(Unread())
    {
      results := [];
      if ready {
        var n := count;
        if n > 0 {
          if n > MAX_SEARCH_RESULTS {
            n := MAX_SEARCH_RESULTS;
          }
          results := rslt[..n];
          if noExit {
            count := 0;
          }
        }
        if !noExit {
          count := 0;
        }
      }
    }

    /** A new header: with a new epoch the device is set up anew, if that succeeds; then header, counter and
        target are written. */
    method SwitchJob(newEpoch: bool, turn: Turn) returns (ok: bool)
      modifies this`ready, this`count, this`rslt, this`header, this`target, this`dag
      ensures ok == (newEpoch ==> turn.epochOk)
      ensures ok ==> header == turn.work.header && target == TargetOf(turn.work.boundary) && count == 0
      ensures ok ==> ready == (old(ready) || newEpoch) && dag == if newEpoch then turn.work.epoch else old(dag)
      ensures !ok ==> header == old(header) && target == old(target) && ready == old(ready)
    {
      if newEpoch {
        if !turn.epochOk {
          return false;
        }
        ready, count, rslt, dag := true, turn.garbage, [], turn.work.epoch;
      }
      header := turn.work.header;
      count := 0;
      target := TargetOf(turn.work.boundary);
      ok := true;
    }

    /** The kernel: its hits go behind those already counted. */
    method RunKernel(finds: seq<Hit>)
      modifies this`count, this`rslt
      ensures count == old(count) + |finds|
      ensures old(count) == 0 ==> rslt == Stored(finds)
    {
      rslt := Stored((if count <= |rslt| then rslt[..count] else rslt) + finds);
      count := count + |finds|;
      assert old(count) == 0 ==> old(rslt)[..0] + finds == finds;
    }

    /** Report the results of the launch that `current` describes. */
    method Report(current: WorkPackage, results: seq<Hit>) returns (out: seq<Solution>)
      modifies this`lastNonce
      ensures out == Reported(current, results, old(lastNonce))
      ensures lastNonce == LastNonce(current, results, old(lastNonce))
    {
      out := [];
      var i := 0;
      while i < |results|
        invariant 0 <= i <= |results|
        invariant out == Reported(current, results[..i], old(lastNonce))
        invariant lastNonce == LastNonce(current, results[..i], old(lastNonce))
      {
        assert results[..i + 1][..i] == results[..i];
        var nonce := Nonce(current.startNonce, results[i].gid);
        if nonce != lastNonce {
          lastNonce := nonce;
          out := out + [Solution(nonce, results[i].mix, current)];
        }
        i := i + 1;
      }
      assert results[..i] == results;
    }

    /** One turn of `workLoop`; `going` is false when setting up a new epoch fails, which ends the loop. */
    method TakeTurn(turn: Turn, n: nat, current: WorkPackage, startNonce: nat, log: Log)
      returns (going: bool, current': WorkPackage, startNonce': nat, log': Log)
      requires Valid() && (ready <==> current.epoch != -1) && (!ready ==> current.header == 0)
      requires turn.work.header != 0 ==> turn.work.epoch >= 0
      modifies this
      ensures going <==> !EpochFails(old(State(current, startNonce, log)), turn)
      ensures !going ==> log' == log
      ensures going ==> Valid() && (ready <==> current'.epoch != -1) && (!ready ==> current'.header == 0)
      ensures going ==>
                State(current', startNonce', log') == Turned(old(State(current, startNonce, log)), turn, n, globalWorkSize)
    {
      going, current', startNonce', log' := true, current, startNonce, log;
      var results := ReadResults();
      var w := turn.work;
      if w.header == 0 {
        return;
      }
      if current.header != w.header {
        going := SwitchJob(current.epoch != w.epoch, turn);
        if !going {
          return;
        }
        startNonce' := w.startNonce;
      }
      RunKernel(turn.finds);
      var out := Report(current, results);
      log' := Extended(log, out, Launch(w, header, target, dag, startNonce', turn.finds), n);
      current' := w.(startNonce := startNonce');
      startNonce' := Nonce(startNonce', globalWorkSize);
    }

    /** `workLoop`: over every sequence of turns, with idle turns, repeated jobs and new jobs in any order, it
        takes the turns before the first that fails, and its log is that of `After`. */
    method WorkLoop(turns: seq<Turn>) returns (done: nat, log: Log)
      requires Valid() && !ready
      requires forall i | 0 <= i < |turns| :: turns[i].work.header != 0 ==> turns[i].work.epoch >= 0
      modifies this
      ensures done <= |turns| && log == After(old(Start()), turns, done, globalWorkSize).log
      ensures forall k | 0 <= k < done :: !FailsAt(old(Start()), turns, k, globalWorkSize)
      ensures done < |turns| ==> FailsAt(old(Start()), turns, done, globalWorkSize)
    {
      ghost var m := Start();
      var startNonce := 0;
      var current := NO_WORK;
      log := Log([], [], [], []);
      done := 0;
      while done < |turns|
        invariant done <= |turns| && Valid() && (ready <==> current.epoch != -1) && (!ready ==> current.header == 0)
        invariant State(current, startNonce, log) == After(m, turns, done, globalWorkSize)
        invariant forall k | 0 <= k < done :: !FailsAt(m, turns, k, globalWorkSize)
        decreases |turns| - done
      {
        var going;
        going, current, startNonce, log := TakeTurn(turns[done], done, current, startNonce, log);
        assert going <==> !FailsAt(m, turns, done, globalWorkSize);
        if !going {
          break;
        }
        done := done + 1;
      }
    }

    /** The loop before its first turn. */
    ghost function Start(): Loop
      reads this
    {
      Begin(lastNonce, header, target, dag)
    }
  }

  // ---- coverage

  /** The starts of launches under one header form an arithmetic progression. */
  lemma {:induction false} Progression(launches: seq<Launch>, g: nat, a: nat, b: nat)
    requires Chained(launches, g) && a <= b < |launches| && launches[a].startNonce < TWO64
    requires forall k | a <= k <= b :: launches[k].header == launches[a].header
    ensures launches[b].startNonce == Nonce(launches[a].startNonce, Steps(b - a, g))
    decreases b
  {
    if a < b {
      Progression(launches, g, a, b - 1);
      assert FollowsAt(launches, b, g);
      StepOn(launches[a].startNonce, b - a - 1, g);
    }
  }

  /** The nonces that `n` launches of `g` work items take, `n * g`. */
  function Steps(n: nat, g: nat): (r: nat)
    decreases n
  {
    if n == 0 then 0 else Steps(n - 1, g) + g
  }

  lemma StepOn(s: nat, n: nat, g: nat)
    ensures Nonce(Nonce(s, Steps(n, g)), g) == Nonce(s, Steps(n + 1, g))
  {
  }

  /** Position `d` within `n` launches, by launch and work item. */
  lemma Locate(d: nat, n: nat, g: nat) returns (q: nat, r: nat)
    requires g > 0 && d < Steps(n, g)
    ensures q < n && r < g && d == Steps(q, g) + r
    decreases n
  {
    if d < Steps(n - 1, g) {
      q, r := Locate(d, n - 1, g);
    } else {
      q, r := n - 1, d - Steps(n - 1, g);
    }
  }

  /** Without gap: every nonce from the start of launch `a` to the end of launch `b` is tried by one of the
      launches in between. */
  lemma NoGap(launches: seq<Launch>, g: nat, a: nat, b: nat, d: nat) returns (k: nat, gid: nat)
    requires Chained(launches, g) && a <= b < |launches| && launches[a].startNonce < TWO64
    requires forall k | a <= k <= b :: launches[k].header == launches[a].header
    requires g > 0 && d < Steps(b - a + 1, g)
    ensures a <= k <= b && gid < g && Nonce(launches[a].startNonce, d) == Nonce(launches[k].startNonce, gid)
  {
    var q;
    q, gid := Locate(d, b - a + 1, g);
    k := a + q;
    Progression(launches, g, a, k);
    NonceSum(launches[a].startNonce, Steps(q, g), gid);
  }

  lemma NonceSum(s: nat, x: nat, y: nat)
    ensures Nonce(Nonce(s, x), y) == Nonce(s, x + y)
  {
  }

  /** Without overlap: as long as the launches together stay within the nonce space, no nonce is tried
      twice. */
  lemma NoOverlap(launches: seq<Launch>, g: nat, a: nat, j: nat, x: nat, k: nat, y: nat)
    requires Chained(launches, g) && a <= j < |launches| && a <= k < |launches| && launches[a].startNonce < TWO64
    requires forall i | a <= i < |launches| :: launches[i].header == launches[a].header
    requires Steps(|launches| - a, g) <= TWO64 && x < g && y < g
    requires Nonce(launches[j].startNonce, x) == Nonce(launches[k].startNonce, y)
    ensures j == k && x == y
  {
    Offset(launches, g, a, j, x);
    Offset(launches, g, a, k, y);
    SameOffset(launches[a].startNonce, Steps(j - a, g) + x, Steps(k - a, g) + y);
    SameSpot(j - a, x, k - a, y, g);
  }

  /** Where work item `x` of launch `j` stands, counted from the start of launch `a`. */
  lemma Offset(launches: seq<Launch>, g: nat, a: nat, j: nat, x: nat)
    requires Chained(launches, g) && a <= j < |launches| && launches[a].startNonce < TWO64 && x < g
    requires forall i | a <= i <= j :: launches[i].header == launches[a].header
    ensures Nonce(launches[j].startNonce, x) == Nonce(launches[a].startNonce, Steps(j - a, g) + x)
    ensures Steps(j - a, g) + x < Steps(|launches| - a, g)
  {
    Progression(launches, g, a, j);
    NonceSum(launches[a].startNonce, Steps(j - a, g), x);
    Within(|launches| - a, j - a, x, g);
  }

  lemma {:induction false} StepsMono(m: nat, n: nat, g: nat)
    requires m <= n
    ensures Steps(m, g) <= Steps(n, g)
    decreases n
  {
    if m < n {
      StepsMono(m, n - 1, g);
    }
  }

  lemma Within(n: nat, i: nat, x: nat, g: nat)
    requires i < n && x < g
    ensures Steps(i, g) + x < Steps(n, g)
  {
    StepsMono(i + 1, n, g);
  }

  lemma SameSpot(i: nat, x: nat, j: nat, y: nat, g: nat)
    requires x < g && y < g && Steps(i, g) + x == Steps(j, g) + y
    ensures i == j && x == y
  {
    if i < j {
      Within(j, i, x, g);
    } else if j < i {
      Within(i, j, y, g);
    }
  }
}
