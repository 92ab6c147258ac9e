/** Connection rotation in `libpoolprotocols/PoolManager.cpp`. Pools are identified by number; `bad` are those
    marked unrecoverable, `exits` those whose host is "exit". */
module PoolManagers {
  import opened Arith

  datatype Action = Stay | Connect(pool: nat) | Exit | Throws

  /** The rotation's own state. */
  datatype Rotation = Rotation(connections: seq<nat>, active: nat, attempt: nat, switches: nat)

  function Without<T>(s: seq<T>, i: nat): seq<T>
    requires i < |s|
  {
    s[..i] + s[i + 1..]
  }

  /** An index brought back into range. */
  function Wrap(i: nat, n: nat): nat {
    if i >= n then 0 else i
  }

  /** Which pool is to be tried next: the active one, or its successor when it is given up or has been tried
      often enough; a lone pool that has been tried often enough is dropped. */
  function Selected(r: Rotation, retries: nat, bad: set<nat>): Rotation
    requires r.connections != []
  {
    var a := Wrap(r.active, |r.connections|);
    if r.connections[a] in bad then
      var left := Without(r.connections, a);
      Rotation(left, Wrap(a, |left|), 0, r.switches + 1)
    else if r.attempt >= retries then
      if |r.connections| == 1 then r.(connections := [], active := a)
      else Rotation(r.connections, Wrap(a + 1, |r.connections|), 0, r.switches + 1)
    else r.(active := a)
  }

  /** `rotateConnect` without a connected client. */
  function Rotate(r: Rotation, retries: nat, bad: set<nat>, exits: set<nat>): (Rotation, Action) {
    if r.connections == [] then (r.(active := 0), Throws)
    else
      var s := Selected(r, retries, bad);
      if s.connections != [] && s.active < |s.connections| && s.connections[s.active] !in exits
      then (s.(attempt := s.attempt + 1), Connect(s.connections[s.active]))
      else (s, Exit)
  }

  /** The rotation after `k` calls, each because the attempt before failed. */
  function RotateTimes(r: Rotation, retries: nat, bad: set<nat>, exits: set<nat>, k: nat): Rotation
    decreases k, retries
  {
    if k == 0 then r else Rotate(RotateTimes(r, retries, bad, exits, k - 1), retries, bad, exits).0
  }

  /** What the `k`-th call, counted from one, does. */
  function Attempt(r: Rotation, retries: nat, bad: set<nat>, exits: set<nat>, k: nat): Action
    requires k > 0
  {
    Rotate(RotateTimes(r, retries, bad, exits, k - 1), retries, bad, exits).1
  }

  // ---- fairness

  ghost predicate Healthy(c: seq<nat>, bad: set<nat>, exits: set<nat>) {
    forall i | 0 <= i < |c| :: c[i] !in bad && c[i] !in exits
  }

  /** `(k - 1) / retries` and its remainder, one call further. */
  lemma NextTurn(k: nat, retries: nat, n: nat, a: nat)
    requires k > 0 && retries > 0 && n > 0 && a < n
    ensures if (k - 1) % retries + 1 < retries
            then k % retries == (k - 1) % retries + 1 && (a + k / retries) % n == (a + (k - 1) / retries) % n
            else k % retries == 0 && (a + k / retries) % n == Wrap((a + (k - 1) / retries) % n + 1, n)
    ensures (k - 1) % retries < retries
  {
    var q, r := (k - 1) / retries, (k - 1) % retries;
    ModBound(k - 1, retries);
    if r + 1 < retries {
      DivModUnique(k, retries, q, r + 1);
    } else {
      MulSplit(retries, q, 1);
      DivModUnique(k, retries, q + 1, 0);
      NextMod(a + q, n);
      assert a + k / retries == a + q + 1;
    }
  }

  lemma NextMod(x: int, n: nat)
    requires n > 0
    ensures 0 <= x % n < n && (x + 1) % n == Wrap(x % n + 1, n)
  {
    ModBound(x, n);
    if x % n + 1 < n {
      DivModUnique(x + 1, n, x / n, x % n + 1);
    } else {
      MulSplit(n, x / n, 1);
      DivModUnique(x + 1, n, x / n + 1, 0);
    }
  }

  /** One call on several healthy pools: the same pool again, or the next one. */
  lemma RotateHealthy(r: Rotation, retries: nat, bad: set<nat>, exits: set<nat>)
    requires |r.connections| >= 2 && r.active < |r.connections| && retries > 0 && Healthy(r.connections, bad, exits)
    ensures var (s, action) := Rotate(r, retries, bad, exits);
            && s.connections == r.connections
            && s.active == (if r.attempt < retries then r.active else Wrap(r.active + 1, |r.connections|))
            && s.attempt == (if r.attempt < retries then r.attempt + 1 else 1)
            && s.active < |s.connections| && action == Connect(s.connections[s.active])
  {
  }

  /** How often the pool of the `k`-th attempt has then been tried in a row ... */
  function Tries(k: nat, retries: nat): nat
    requires k > 0
  {
    if k == 1 then 1 else if Tries(k - 1, retries) < retries then Tries(k - 1, retries) + 1 else 1
  }

  /** ... and which of `n` pools it is, starting from pool `a`. */
  function Place(a: nat, k: nat, retries: nat, n: nat): nat
    requires k > 0
    decreases k
  {
    if k == 1 then a
    else if Tries(k - 1, retries) < retries then Place(a, k - 1, retries, n)
    else Wrap(Place(a, k - 1, retries, n) + 1, n)
  }

  /** Where the rotation stands after `k` failed attempts on several healthy pools. */
  lemma {:induction false} AfterFailures(r: Rotation, retries: nat, bad: set<nat>, exits: set<nat>, k: nat)
    requires |r.connections| >= 2 && r.active < |r.connections| && r.attempt == 0 && retries > 0 && k > 0
    requires Healthy(r.connections, bad, exits)
    ensures var s := RotateTimes(r, retries, bad, exits, k);
            && s.connections == r.connections && s.active < |r.connections|
            && s.active == Place(r.active, k, retries, |r.connections|) && s.attempt == Tries(k, retries)
    ensures Attempt(r, retries, bad, exits, k) == Connect(r.connections[RotateTimes(r, retries, bad, exits, k).active])
    decreases k
  {
    if k > 1 {
      AfterFailures(r, retries, bad, exits, k - 1);
    }
    RotateHealthy(RotateTimes(r, retries, bad, exits, k - 1), retries, bad, exits);
  }

  lemma {:induction false} PlaceFormula(a: nat, k: nat, retries: nat, n: nat)
    requires k > 0 && retries > 0 && a < n
    ensures Place(a, k, retries, n) == (a + (k - 1) / retries) % n && Tries(k, retries) == (k - 1) % retries + 1
    decreases k
  {
    if k == 1 {
      DivModUnique(0, retries, 0, 0);
      DivModUnique(a, n, 0, a);
    } else {
      PlaceFormula(a, k - 1, retries, n);
      NextTurn(k - 1, retries, n, a);
    }
  }

  /** Consecutive failures try every pool exactly `retries` times, in cyclic order from the active one: the
      `k`-th attempt goes to the pool `(k - 1) / retries` places further on. */
  lemma FairRotation(r: Rotation, retries: nat, bad: set<nat>, exits: set<nat>, k: nat)
    requires |r.connections| >= 2 && r.active < |r.connections| && r.attempt == 0 && retries > 0 && k > 0
    requires Healthy(r.connections, bad, exits)
    ensures 0 <= (r.active + (k - 1) / retries) % |r.connections| < |r.connections|
    ensures Attempt(r, retries, bad, exits, k)
         == Connect(r.connections[(r.active + (k - 1) / retries) % |r.connections|])
  {
    AfterFailures(r, retries, bad, exits, k);
    PlaceFormula(r.active, k, retries, |r.connections|);
  }

  /** With no retries allowed, which the command line lets through, the active pool is passed over. */
  lemma NoRetriesSkipsActive(r: Rotation, bad: set<nat>, exits: set<nat>)
    requires |r.connections| >= 2 && r.active < |r.connections| && Healthy(r.connections, bad, exits)
    ensures Attempt(r, 0, bad, exits, 1) == Connect(r.connections[Wrap(r.active + 1, |r.connections|)])
  {
    assert RotateTimes(r, 0, bad, exits, 0) == r;
  }

  /** A lone pool is tried `retries` times and then dropped, which ends the rotation. */
  lemma {:induction false} LonePoolDropped(r: Rotation, retries: nat, bad: set<nat>, exits: set<nat>, k: nat)
    requires |r.connections| == 1 && r.active == 0 && r.attempt == 0 && 0 < k <= retries + 1
    requires Healthy(r.connections, bad, exits)
    ensures Attempt(r, retries, bad, exits, k) == if k <= retries then Connect(r.connections[0]) else Exit
    ensures var s := RotateTimes(r, retries, bad, exits, k);
            if k <= retries then s.connections == r.connections && s.active == 0 && s.attempt == k
            else s.connections == []
    decreases k
  {
    if k == 1 {
      assert RotateTimes(r, retries, bad, exits, 0) == r;
    } else {
      LonePoolDropped(r, retries, bad, exits, k - 1);
    }
  }

  predicate From(s: seq<nat>, t: set<nat>) {
    forall j | 0 <= j < |s| :: s[j] in t
  }

  lemma WithoutFrom(s: seq<nat>, i: nat, t: set<nat>)
    requires i < |s| && From(s, t)
    ensures From(Without(s, i), t)
  {
  }

  /** When all pools are marked unrecoverable, each call drops one, and the last call ends the rotation. */
  lemma {:induction false} AllBadShrinks(r: Rotation, retries: nat, bad: set<nat>, exits: set<nat>, k: nat)
    requires 0 < k <= |r.connections| && r.active < |r.connections| && From(r.connections, bad - exits)
    ensures var s := RotateTimes(r, retries, bad, exits, k);
            && |s.connections| == |r.connections| - k && (s.connections != [] ==> s.active < |s.connections|)
            && From(s.connections, bad - exits)
    ensures Attempt(r, retries, bad, exits, k).Exit? <==> k == |r.connections|
    ensures !Attempt(r, retries, bad, exits, k).Throws?
    decreases k
  {
    if k > 1 {
      AllBadShrinks(r, retries, bad, exits, k - 1);
    }
    RotateBad(RotateTimes(r, retries, bad, exits, k - 1), retries, bad, exits);
  }

  lemma RotateBad(r: Rotation, retries: nat, bad: set<nat>, exits: set<nat>)
    requires r.active < |r.connections| && From(r.connections, bad - exits)
    ensures var (s, action) := Rotate(r, retries, bad, exits);
            && |s.connections| == |r.connections| - 1 && (s.connections != [] ==> s.active < |s.connections|)
            && From(s.connections, bad - exits) && (action.Exit? <==> |r.connections| == 1) && !action.Throws?
  {
    WithoutFrom(r.connections, r.active, bad - exits);
  }

  // ---- one call, pool by pool

  /** What a call comes to for the pool it arrives at: an exit pool ends the rotation. */
  predicate GoesTo(s: Rotation, action: Action, pool: nat, exits: set<nat>) {
    && s.active < |s.connections| && s.connections[s.active] == pool
    && action == if pool in exits then Exit else Connect(pool)
  }

  /** An unrecoverable active pool is taken off the list, it alone, and the one after it is next; with none left the
      rotation ends. */
  lemma BadPoolDropped(r: Rotation, retries: nat, bad: set<nat>, exits: set<nat>)
    requires r.active < |r.connections| && r.connections[r.active] in bad
    ensures var (s, action) := Rotate(r, retries, bad, exits);
            && |s.connections| == |r.connections| - 1
            && (forall j | 0 <= j < |s.connections| :: s.connections[j] == r.connections[if j < r.active then j else j + 1])
            && (if |r.connections| == 1 then action == Exit
                else GoesTo(s, action, r.connections[Wrap(r.active + 1, |r.connections|)], exits))
            && s.attempt == if action.Connect? then 1 else 0
  {
  }

  /** A pool that is not unrecoverable is tried again while it has tries left, and otherwise the one after it; the list
      stays, but for a lone pool without tries left. */
  lemma GoodPoolKept(r: Rotation, retries: nat, bad: set<nat>, exits: set<nat>)
    requires r.active < |r.connections| && r.connections[r.active] !in bad
    ensures var (s, action) := Rotate(r, retries, bad, exits);
            if r.attempt < retries then
              && s.connections == r.connections && GoesTo(s, action, r.connections[r.active], exits)
              && s.attempt == r.attempt + if action.Connect? then 1 else 0
            else if |r.connections| == 1 then s.connections == [] && action == Exit
            else
              && s.connections == r.connections
              && GoesTo(s, action, r.connections[Wrap(r.active + 1, |r.connections|)], exits)
              && s.attempt == if action.Connect? then 1 else 0
  {
  }

  /** Over any number of calls, whatever pools are unrecoverable or exit pools: a pool that is neither given up nor
      alone with its tries used up stays on the list. */
  lemma HealthyPoolSurvives(r: Rotation, retries: nat, bad: set<nat>, exits: set<nat>, k: nat, c: nat)
    returns (j: nat)
    requires r.active < |r.connections| && c in r.connections && c !in bad
    ensures || c in RotateTimes(r, retries, bad, exits, k).connections
            || (j < k && UsedUp(RotateTimes(r, retries, bad, exits, j), retries, c))
  {
    var u := r;
    j := 0;
    while j < k && !UsedUp(u, retries, c)
      invariant j <= k && u == RotateTimes(r, retries, bad, exits, j)
      invariant u.active < |u.connections| && c in u.connections
    {
      SurvivesOnce(u, retries, bad, exits, c);
      u := Rotate(u, retries, bad, exits).0;
      j := j + 1;
    }
  }

  /** The only pool left, with no tries left. */
  predicate UsedUp(r: Rotation, retries: nat, c: nat) {
    r.connections == [c] && r.attempt >= retries
  }

  lemma SurvivesOnce(r: Rotation, retries: nat, bad: set<nat>, exits: set<nat>, c: nat)
    requires r.active < |r.connections| && c in r.connections && c !in bad && !UsedUp(r, retries, c)
    ensures var s := Rotate(r, retries, bad, exits).0; s.active < |s.connections| && c in s.connections
  {
    var s := Rotate(r, retries, bad, exits).0;
    var i :| 0 <= i < |r.connections| && r.connections[i] == c;
    if r.connections[r.active] in bad {
      BadPoolDropped(r, retries, bad, exits);
      assert s.connections[if i < r.active then i else i - 1] == c;
    } else {
      GoodPoolKept(r, retries, bad, exits);
      assert |r.connections| == 1 ==> r.connections == [c];
    }
  }

  // ---- the manager

  datatype Outcome = Ok | Error

  class PoolManager {
    const retries: nat
    const exits: set<nat>
    var connections: seq<nat>
    var activeIdx: nat
    var attempt: nat
    var switches: nat
    var running: bool
    var stopping: bool
    var asyncPending: bool
    var connected: bool        // there is a client and it is connected
    var trying: bool           // a client has been told to connect and has not reported a disconnection yet

    ghost predicate Valid()
      reads this
    {
      && (if connections == [] then activeIdx == 0 else activeIdx < |connections|)
      && (trying ==> connections != []) && (connected ==> trying)
    }

    ghost function State(): Rotation
      reads this
    {
      Rotation(connections, activeIdx, attempt, switches)
    }

    constructor (connections: seq<nat>, retries: nat, exits: set<nat>)
      ensures Valid() && State() == Rotation(connections, 0, 0, 0) && !connected && !trying && !stopping
      ensures this.retries == retries && this.exits == exits
    {
      this.connections, this.retries, this.exits := connections, retries, exits;
      activeIdx, attempt, switches := 0, 0, 0;
      running, stopping, asyncPending, connected, trying := false, false, false, false, false;
    }

    /** `rotateConnect`: every access to the list is in range, unless the list is empty to begin with. */
    method RotateConnect(bad: set<nat>) returns (action: Action)
      requires Valid()
      modifies this
      ensures Valid() && connected == old(connected) && asyncPending == old(asyncPending) && stopping == old(stopping)
      ensures old(connected) ==> action == Stay && State() == old(State()) && trying
      ensures !old(connected) ==> (State(), action) == Rotate(old(State()), retries, bad, exits)
      ensures !old(connected) ==> (action.Throws? <==> old(connections) == []) && (trying <==> action.Connect?)
    {
      if connected {
        return Stay;
      }
      trying := false;
      if activeIdx >= |connections| {
        activeIdx := 0;
      }
      if |connections| == 0 {
        return Throws;
      }
      Select(bad);
      if connections != [] && connections[activeIdx] !in exits {
        attempt := attempt + 1;
        trying := true;
        return Connect(connections[activeIdx]);
      }
      running := false;
      return Exit;
    }

    /** The part of `rotateConnect` that chooses the pool. */
    method Select(bad: set<nat>)
      requires activeIdx < |connections|
      modifies this`connections, this`activeIdx, this`attempt, this`switches
      ensures State() == Selected(old(State()), retries, bad)
      ensures if connections == [] then activeIdx == 0 else activeIdx < |connections|
    {
      if connections[activeIdx] in bad {
        connections := connections[..activeIdx] + connections[activeIdx + 1..];
        attempt := 0;
        if activeIdx >= |connections| {
          activeIdx := 0;
        }
        switches := switches + 1;
      } else if attempt >= retries {
        if |connections| == 1 {
          connections := connections[..activeIdx] + connections[activeIdx + 1..];
          assert connections == [];
        } else {
          attempt := 0;
          activeIdx := activeIdx + 1;
          if activeIdx >= |connections| {
            activeIdx := 0;
          }
          switches := switches + 1;
        }
      }
    }

    /** `start` */
    method Start()
      requires Valid()
      modifies this`running, this`asyncPending, this`switches
      ensures Valid() && running && asyncPending && switches == old(switches) + 1
    {
      running, asyncPending := true, true;
      switches := switches + 1;
    }

    /** The client reports a connection. */
    method OnConnected()
      requires Valid() && trying
      modifies this`attempt, this`connected, this`asyncPending
      ensures Valid() && connected && attempt == 0 && !asyncPending
    {
      attempt := 0;
      connected := true;
      asyncPending := false;
    }

    /** The client reports a disconnection; unless the manager is stopping, a rotation follows. */
    method OnDisconnected() returns (rotates: bool)
      requires Valid()
      modifies this`connected, this`trying, this`running, this`asyncPending
      ensures Valid() && !connected && !trying && rotates == !stopping
      ensures asyncPending == (old(asyncPending) || rotates) && running == (old(running) && !stopping)
    {
      connected, trying := false, false;
      if stopping {
        running := false;
      } else {
        asyncPending := true;
      }
      rotates := !stopping;
    }

    /** `stop`; `disconnects` says that the client is told to disconnect. */
    method Stop() returns (disconnects: bool)
      requires Valid()
      modifies this`asyncPending, this`stopping
      ensures Valid() && stopping == (old(stopping) || running) && asyncPending == (old(asyncPending) || running)
      ensures disconnects == (running && connected)
    {
      disconnects := false;
      if running {
        asyncPending, stopping := true, true;
        disconnects := connected;
      }
    }

    /** `addConnection` */
    method AddConnection(pool: nat)
      requires Valid()
      modifies this`connections
      ensures Valid() && connections == old(connections) + [pool]
    {
      connections := connections + [pool];
    }

    /** `removeConnection`: refused for the active connection; otherwise the active pool stays the active one. */
    method RemoveConnection(idx: nat) returns (outcome: Outcome)
      requires Valid()
      modifies this`connections, this`activeIdx
      ensures Valid()
      ensures outcome == Ok <==> !asyncPending && idx < |old(connections)| && idx != old(activeIdx)
      ensures outcome == Ok ==> connections == Without(old(connections), idx)
                                && activeIdx < |connections| && connections[activeIdx] == old(connections[activeIdx])
      ensures outcome == Error ==> connections == old(connections) && activeIdx == old(activeIdx)
    {
      if asyncPending || idx >= |connections| || idx == activeIdx {
        return Error;
      }
      connections := connections[..idx] + connections[idx + 1..];
      if activeIdx > idx {
        activeIdx := activeIdx - 1;
      }
      return Ok;
    }

    /** `setActiveConnection` by index; `disconnects` says that the client is told to disconnect. */
    method SetActiveConnection(idx: nat) returns (outcome: Outcome, disconnects: bool)
      requires Valid()
      modifies this`activeIdx, this`attempt, this`switches, this`asyncPending
      ensures Valid()
      ensures outcome == Ok <==> idx < |connections| && !old(asyncPending)
      ensures outcome == Ok ==> activeIdx == idx
      ensures disconnects <==> outcome == Ok && idx != old(activeIdx)
      ensures asyncPending <==> old(asyncPending) || disconnects
      ensures disconnects ==> attempt == 0 && switches == old(switches) + 1
      ensures !disconnects ==> attempt == old(attempt) && switches == old(switches) && activeIdx == old(activeIdx)
    {
      if idx >= |connections| {
        return Error, false;
      }
      if asyncPending {
        return Error, false;
      }
      asyncPending := true;
      if idx != activeIdx {
        switches := switches + 1;
        activeIdx := idx;
        attempt := 0;
        return Ok, true;
      }
      asyncPending := false;
      return Ok, false;
    }

    /** `failovertimer_elapsed`: back to the primary pool. */
    method FailoverElapsed() returns (disconnects: bool)
      requires Valid()
      modifies this`activeIdx, this`attempt, this`switches
      ensures Valid() && (disconnects <==> running && old(activeIdx) != 0)
      ensures disconnects ==> activeIdx == 0 && attempt == 0 && switches == old(switches) + 1
      ensures !disconnects ==> activeIdx == old(activeIdx) && attempt == old(attempt) && switches == old(switches)
    {
      if running && activeIdx != 0 {
        activeIdx, attempt := 0, 0;
        switches := switches + 1;
        return true;
      }
      return false;
    }
  }

  /** What can happen once rotation has begun. `bad` is what is marked unrecoverable by then. */
  datatype Event =
    | ClientConnects
    | ClientDisconnects
    | PostedRotation(bad: set<nat>)
    | Remove(idx: nat)
    | SetActive(idx: nat)
    | Failover
    | Add(pool: nat)
    | StopRequested

  /** Over every run from a non-empty list, in any order of events: the active index is in range whenever the list
      is not empty, and no rotation ever runs on an empty list. A rotation is posted by the start and by every
      disconnection until a stop is requested, and runs any time later, so that after the request at most one more
      does. */
  method RunManager(m: PoolManager, events: seq<Event>) returns (threw: bool, late: nat)
    requires m.Valid() && m.connections != [] && !m.connected && !m.stopping
    modifies m
    ensures m.Valid() && !threw
    ensures late <= 1
  {
    m.Start();
    var posted := true;
    threw, late := false, 0;
    var i := 0;
    while i < |events|
      invariant m.Valid() && !threw && (posted ==> m.connections != [])
      invariant if m.stopping then late + (if posted then 1 else 0) <= 1 else late == 0
      decreases |events| - i
    {
      match events[i] {
        case ClientConnects =>
          if m.trying && !m.connected {
            m.OnConnected();
          }
        case ClientDisconnects =>
          if m.trying {
            var rotates := m.OnDisconnected();
            posted := posted || rotates;
          }
        case PostedRotation(bad) =>
          if posted {
            posted := false;
            late := if m.stopping then late + 1 else late;
            var action := m.RotateConnect(bad);
            threw := threw || action.Throws?;
          }
        case Remove(idx) =>
          var outcome := m.RemoveConnection(idx);
        case SetActive(idx) =>
          var outcome, disconnects := m.SetActiveConnection(idx);
        case Failover =>
          var disconnects := m.FailoverElapsed();
        case Add(pool) =>
          m.AddConnection(pool);
        case StopRequested =>
          var disconnects := m.Stop();
      }
      i := i + 1;
    }
  }
}
