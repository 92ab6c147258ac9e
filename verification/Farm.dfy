/** The farm of `libethcore/Farm.cpp`: its miners, the nonce segment each one works on, and the
    accounting of solutions, together with the request ids by which
    `libpoolprotocols/stratum/EthStratumClient.cpp` finds the miner a reply belongs to. */
module Farms {
  import opened Arith
  import opened NonceSegments
  import opened Work

  datatype Accounting = Accepted | Rejected | Wasted | Failed

  /** `SolutionAccountType`: 32-bit counters. */
  datatype Account = Account(accepted: nat, rejected: nat, wasted: nat, failed: nat) {
    function Count(k: Accounting): nat {
      match k
      case Accepted => accepted
      case Rejected => rejected
      case Wasted => wasted
      case Failed => failed
    }

    /** One more of kind `k`, modulo 2^32. */
    function Bump(k: Accounting): (r: Account)
      ensures forall j :: r.Count(j) == if j == k then (Count(j) + 1) % TWO32 else Count(j)
    {
      match k
      case Accepted => this.(accepted := (accepted + 1) % TWO32)
      case Rejected => this.(rejected := (rejected + 1) % TWO32)
      case Wasted => this.(wasted := (wasted + 1) % TWO32)
      case Failed => this.(failed := (failed + 1) % TWO32)
    }
  }

  const NO_SOLUTIONS := Account(0, 0, 0, 0)

  /** The miners' counters of kind `k`, added up. */
  function Total(accounts: seq<Account>, k: Accounting): nat {
    if accounts == [] then 0 else Total(accounts[..|accounts| - 1], k) + accounts[|accounts| - 1].Count(k)
  }

  /** Every farm counter is the sum of the miners' counters, in 32 bits. */
  predicate Conserved(farm: Account, accounts: seq<Account>) {
    forall k: Accounting :: farm.Count(k) == Total(accounts, k) % TWO32
  }

  lemma {:induction false} TotalUpdate(accounts: seq<Account>, i: nat, a: Account, j: Accounting)
    requires i < |accounts|
    ensures Total(accounts[i := a], j) == Total(accounts, j) - accounts[i].Count(j) + a.Count(j)
    decreases |accounts|
  {
    var n := |accounts| - 1;
    if i < n {
      assert accounts[i := a][..n] == accounts[..n][i := a];
      TotalUpdate(accounts[..n], i, a, j);
    } else {
      assert accounts[i := a][..n] == accounts[..n];
    }
  }

  lemma TotalBump(accounts: seq<Account>, i: nat, k: Accounting, j: Accounting)
    requires i < |accounts|
    ensures Total(accounts[i := accounts[i].Bump(k)], j) % TWO32
         == if j == k then (Total(accounts, j) % TWO32 + 1) % TWO32 else Total(accounts, j) % TWO32
  {
    var c := accounts[i].Count(j);
    TotalUpdate(accounts, i, accounts[i].Bump(k), j);
    if j == k {
      BumpMod(Total(accounts, j), c);
    }
  }

  lemma BumpMod(t: int, c: nat)
    ensures (t - c + (c + 1) % TWO32) % TWO32 == (t % TWO32 + 1) % TWO32
  {
    AddMultiple(t + 1, TWO32, -((c + 1) / TWO32));
    AddMultiple(t % TWO32 + 1, TWO32, t / TWO32);
  }

  lemma TotalMore(accounts: seq<Account>, k: Accounting)
    ensures Total(accounts + [NO_SOLUTIONS], k) == Total(accounts, k)
  {
    assert (accounts + [NO_SOLUTIONS])[..|accounts|] == accounts;
  }

  datatype Device = Fpga | Other

  /** How many of the devices get a miner. */
  function Fpgas(devices: seq<Device>): nat {
    if devices == [] then 0 else Fpgas(devices[..|devices| - 1]) + if devices[|devices| - 1].Fpga? then 1 else 0
  }

  /** It is the number of FPGA devices. */
  lemma {:induction false} FpgasCount(devices: seq<Device>)
    ensures Fpgas(devices) == multiset(devices)[Fpga]
    decreases |devices|
  {
    if devices != [] {
      var n := |devices| - 1;
      FpgasCount(devices[..n]);
      assert devices == devices[..n] + [devices[n]];
    }
  }

  class Farm {
    const devices: seq<Device>
    const ergodicity: nat
    const noEval: bool
    var miners: seq<WorkPackage>        // the work package each miner was given last
    var isMining: bool
    var nonceScrambler: nat
    var segmentWidth: nat
    var farmSolutions: Account
    var minerSolutions: seq<Account>    // only ever grows

    ghost predicate Valid()
      reads this
    {
      && (|miners| == 0 || |miners| == Fpgas(devices)) && (isMining ==> |miners| == Fpgas(devices))
      && |miners| <= |minerSolutions|
      && Conserved(farmSolutions, minerSolutions)
      && nonceScrambler < TWO64
      && Fpgas(devices) * Pow2(segmentWidth) <= TWO64
    }

    /** The miners' packages start at consecutive segments from `start` on. */
    ghost predicate Divided(start: nat)
      reads this
    {
      forall i | 0 <= i < |miners| :: miners[i].startNonce == SegmentStart(start, segmentWidth, i)
    }

    constructor (devices: seq<Device>, ergodicity: nat, noEval: bool, scrambler: nat)
      requires scrambler < TWO64 && Fpgas(devices) <= TWO32
      ensures Valid() && this.devices == devices && this.ergodicity == ergodicity && this.noEval == noEval
      ensures !isMining && minerSolutions == [] && segmentWidth == 32
    {
      this.devices, this.ergodicity, this.noEval := devices, ergodicity, noEval;
      miners, isMining := [], false;
      nonceScrambler, segmentWidth := scrambler, 32;
      farmSolutions, minerSolutions := NO_SOLUTIONS, [];
      DefaultWidthFits(Fpgas(devices));
    }

    static lemma DefaultWidthFits(n: nat)
      requires n <= TWO32
      ensures n * Pow2(32) <= TWO64
    {
      assert Pow2(8) == 0x100;
      assert Pow2(16) == 0x1_0000;
      assert Pow2(24) == 0x100_0000;
    }

    /** `setWork`. An extranonce job divides its residual space among the miners; any other job starts at
        the scrambler and keeps the width of the last extranonce job. `random` is what a shuffle draws. */
    method SetWork(newWp: WorkPackage, random: nat)
      requires Valid() && random < TWO64
      requires newWp.exSizeBytes > 0 ==>
                 newWp.exSizeBytes <= 16 && 0 < |miners| < 2 * Pow2(64 - 4 * newWp.exSizeBytes)
      modifies this`miners, this`nonceScrambler, this`segmentWidth
      ensures Valid() && |miners| == |old(miners)|
      ensures nonceScrambler == if ergodicity == 2 && newWp.exSizeBytes == 0 then random else old(nonceScrambler)
      ensures segmentWidth == if newWp.exSizeBytes > 0 then SegmentWidth(64 - 4 * newWp.exSizeBytes, |miners|)
                              else old(segmentWidth)
      ensures Divided(if newWp.exSizeBytes > 0 then newWp.startNonce else nonceScrambler)
      ensures forall i | 0 <= i < |miners| :: miners[i] == newWp.(startNonce := miners[i].startNonce)
    {
      if ergodicity == 2 && newWp.exSizeBytes == 0 {
        nonceScrambler := random;
      }
      var startNonce;
      if newWp.exSizeBytes > 0 {
        startNonce := newWp.startNonce;
        segmentWidth := SegmentWidth(64 - newWp.exSizeBytes * 4, |miners|);
        WidthFits(newWp.exSizeBytes, |miners|);
      } else {
        startNonce := nonceScrambler;
      }
      var i := 0;
      while i < |miners|
        invariant 0 <= i <= |miners| == |old(miners)|
        invariant forall j | 0 <= j < i :: miners[j] == newWp.(startNonce := SegmentStart(startNonce, segmentWidth, j))
        modifies this`miners
      {
        miners := miners[i := newWp.(startNonce := SegmentStart(startNonce, segmentWidth, i))];
        i := i + 1;
      }
    }

    /** `start`: miners are created in device order; each brings a telemetry entry of its own, beside those
        of miners stopped before. */
    method Start()
      requires Valid()
      modifies this`miners, this`isMining, this`minerSolutions
      ensures Valid() && isMining && |miners| == Fpgas(devices)
      ensures old(isMining) || |old(miners)| > 0 ==> miners == old(miners) && minerSolutions == old(minerSolutions)
      ensures !old(isMining) && |old(miners)| == 0 ==>
                minerSolutions == old(minerSolutions) + seq(Fpgas(devices), _ => NO_SOLUTIONS)
    {
      if isMining {
        return;
      }
      if |miners| == 0 {
        var it := 0;
        while it < |devices|
          invariant 0 <= it <= |devices|
          invariant |miners| == Fpgas(devices[..it])
          invariant minerSolutions == old(minerSolutions) + seq(|miners|, _ => NO_SOLUTIONS)
          invariant Conserved(farmSolutions, minerSolutions)
          modifies this`miners, this`minerSolutions
        {
          assert devices[..it + 1][..it] == devices[..it];
          if devices[it].Fpga? {
            forall k: Accounting { TotalMore(minerSolutions, k); }
            miners := miners + [NO_WORK];
            minerSolutions := minerSolutions + [NO_SOLUTIONS];
          }
          it := it + 1;
        }
        assert devices[..it] == devices;
      }
      isMining := true;
    }

    /** `stop`: the miners go, their telemetry stays. */
    method Stop()
      requires Valid()
      modifies this`miners, this`isMining
      ensures Valid() && !isMining
      ensures miners == if old(isMining) then [] else old(miners)
    {
      if isMining {
        miners := [];
        isMining := false;
      }
    }

    /** `accountSolution`. The farm's counter goes up first, so conservation is kept exactly when the miner
        has a telemetry entry; otherwise the call ends in an exception and the farm is one ahead. */
    method AccountSolution(minerIdx: nat, k: Accounting) returns (ok: bool)
      requires Valid()
      modifies this`farmSolutions, this`minerSolutions
      ensures farmSolutions == old(farmSolutions).Bump(k)
      ensures ok <==> minerIdx < |old(minerSolutions)|
      ensures ok <==> Valid()
      ensures minerSolutions == if ok then old(minerSolutions)[minerIdx := old(minerSolutions)[minerIdx].Bump(k)]
                                else old(minerSolutions)
    {
      ghost var was := minerSolutions;
      assert farmSolutions.Count(k) == Total(was, k) % TWO32;
      farmSolutions := farmSolutions.Bump(k);
      if minerIdx >= |minerSolutions| {
        assert farmSolutions.Count(k) != Total(was, k) % TWO32;
        return false;
      }
      minerSolutions := minerSolutions[minerIdx := minerSolutions[minerIdx].Bump(k)];
      forall j: Accounting ensures farmSolutions.Count(j) == Total(minerSolutions, j) % TWO32 {
        TotalBump(was, minerIdx, k, j);
      }
      ok := true;
    }

    /** `submitProofAsync`. A solution whose recomputed value is above its boundary is accounted as failed
        and goes no further; any other is handed on, with the recomputed mix hash. */
    method SubmitProofAsync(s: Solution, midx: nat, value: nat, mixHash: nat) returns (found: Option<Solution>)
      requires Valid() && midx < |minerSolutions|
      modifies this`farmSolutions, this`minerSolutions
      ensures Valid() && |minerSolutions| == |old(minerSolutions)|
      ensures found.None? <==> !noEval && value > s.work.boundary
      ensures found.None? ==> farmSolutions == old(farmSolutions).Bump(Failed)
                              && minerSolutions == old(minerSolutions[midx := minerSolutions[midx].Bump(Failed)])
      ensures found.Some? ==> farmSolutions == old(farmSolutions) && minerSolutions == old(minerSolutions)
                              && found.value == if noEval then s else s.(mixHash := mixHash)
      ensures TargetOf(value) < TargetOf(s.work.boundary) ==> found.Some?
      ensures !noEval && TargetOf(value) > TargetOf(s.work.boundary) ==> found.None?
    {
      TargetDecides(value, s.work.boundary);
      if !noEval {
        if value > s.work.boundary {
          var ok := AccountSolution(midx, Failed);
          return None;
        }
        return Some(s.(mixHash := mixHash));
      }
      return Some(s);
    }
  }

  /** Even with an extranonce job, all segments together fit the nonce space. */
  lemma WidthFits(exSize: nat, n: nat)
    requires 0 < exSize <= 16 && 0 < n < 2 * Pow2(64 - 4 * exSize)
    ensures n * Pow2(SegmentWidth(64 - 4 * exSize, n)) <= TWO64
  {
    var k := 64 - 4 * exSize;
    Pow2Of64();
    Pow2Mono(k + 1, 64);
  }

  // ---- whole runs

  /** `m_solution_submitted_max_id` of the stratum client. `sent` are the miners whose solutions have been submitted
      since the last reset. */
  class SubmissionIds {
    var maxId: nat
    ghost var sent: set<nat>

    ghost predicate Valid()
      reads this
    {
      && (forall i | i in sent :: 40 + i <= maxId)
      && (if maxId == 0 then sent == {} else maxId >= 40 && maxId - 40 in sent)
    }

    constructor ()
      ensures Valid() && sent == {}
    {
      maxId, sent := 0, {};
    }

    /** On connecting and disconnecting. */
    method Reset()
      modifies this
      ensures Valid() && sent == {}
    {
      maxId, sent := 0, {};
    }

    /** The id under which a solution of miner `midx` is submitted. */
    method Submit(midx: nat) returns (id: nat)
      requires Valid()
      modifies this
      ensures Valid() && sent == old(sent) + {midx} && id == 40 + midx
    {
      id := 40 + midx;
      maxId := if maxId > id then maxId else id;
      sent := sent + {midx};
    }

    /** The miner index a reply is accounted to. The id of any submission since the last reset gives back its miner,
        and no id leads beyond the last miner that submitted. */
    method MinerOf(id: nat) returns (idx: Option<nat>)
      requires Valid()
      ensures forall i | i in sent :: id == 40 + i ==> idx == Some(i)
      ensures idx.Some? ==> exists i | i in sent :: idx.value <= i
      ensures idx == if 40 <= id <= maxId then Some(id - 40) else None
    {
      if id >= 40 && id <= maxId {
        return Some(id - 40);
      }
      return None;
    }
  }

  /** Solutions submitted in any order, and the replies to them in any order: each finds its miner. */
  method IdsRoundTrip(ids: SubmissionIds, miners: seq<nat>, replies: seq<nat>) returns (found: seq<Option<nat>>)
    requires ids.Valid() && forall k | 0 <= k < |replies| :: replies[k] < |miners|
    modifies ids
    ensures |found| == |replies| && forall k | 0 <= k < |replies| :: found[k] == Some(miners[replies[k]])
  {
    var tags: seq<nat> := [];
    var n := 0;
    while n < |miners|
      invariant 0 <= n <= |miners| && |tags| == n && ids.Valid()
      invariant forall k | 0 <= k < n :: tags[k] == 40 + miners[k] && miners[k] in ids.sent
    {
      var id := ids.Submit(miners[n]);
      tags := tags + [id];
      n := n + 1;
    }
    found := [];
    while |found| < |replies|
      invariant |found| <= |replies| && ids.Valid()
      invariant forall k | 0 <= k < |miners| :: tags[k] == 40 + miners[k] && miners[k] in ids.sent
      invariant forall k | 0 <= k < |found| :: found[k] == Some(miners[replies[k]])
      decreases |replies| - |found|
    {
      var m := replies[|found|];
      assert miners[m] in ids.sent;
      var idx := ids.MinerOf(tags[m]);
      found := found + [idx];
    }
  }

  /** What the client looks at in a reply to a submission: its own mode, and the reply's error, boolean result and error
      code. */
  datatype Reply = Reply(mode: nat, errorFree: bool, result: Option<bool>, code: string)

  /** A solution is accepted unless there is an error, which in mode 3 may be a mere warning with a code of two hundred
      and something, or, in the other modes, the result `false`. */
  predicate IsAccepted(r: Reply) {
    if r.mode == 3 then r.errorFree || (|r.code| > 0 && r.code[0] == '2') else r.errorFree && r.result != Some(false)
  }

  /** A reply to a submission: if its id is that of one, the farm's counter of solutions accepted, or rejected, and the
      miner's go up, and no other. */
  method AccountReply(farm: Farm, ids: SubmissionIds, id: nat, r: Reply) returns (ok: bool)
    requires farm.Valid() && ids.Valid() && forall i | i in ids.sent :: i < |farm.minerSolutions|
    modifies farm`farmSolutions, farm`minerSolutions
    ensures ok && farm.Valid() && |farm.minerSolutions| == |old(farm.minerSolutions)|
    ensures id < 40 || id > ids.maxId ==>
              farm.farmSolutions == old(farm.farmSolutions) && farm.minerSolutions == old(farm.minerSolutions)
    ensures 40 <= id <= ids.maxId ==>
              var was, now := old(farm.farmSolutions), farm.farmSolutions;
              && now.wasted == was.wasted && now.failed == was.failed
              && now.accepted == (if IsAccepted(r) then (was.accepted + 1) % TWO32 else was.accepted)
              && now.rejected == (if IsAccepted(r) then was.rejected else (was.rejected + 1) % TWO32)
    ensures 40 <= id <= ids.maxId ==>
              && id - 40 < |farm.minerSolutions|
              && var was, now := old(farm.minerSolutions)[id - 40], farm.minerSolutions[id - 40];
                 && now.accepted == (if IsAccepted(r) then (was.accepted + 1) % TWO32 else was.accepted)
                 && now.rejected == (if IsAccepted(r) then was.rejected else (was.rejected + 1) % TWO32)
    ensures forall i | 0 <= i < |farm.minerSolutions| && i + 40 != id :: farm.minerSolutions[i] == old(farm.minerSolutions)[i]
  {
    ok := true;
    var idx := ids.MinerOf(id);
    if idx.Some? {
      var success := r.errorFree;
      if r.mode != 3 {
        if success && r.result.Some? {
          success := r.result.value;
        }
      } else if !success && r.code != [] && r.code[0] == '2' {
        success := true;
      }
      ok := farm.AccountSolution(idx.value, if success then Accepted else Rejected);
    }
  }

  /** What can happen to farm and client. A proof comes from a miner there is or was. */
  datatype Event =
    | Start
    | Stop
    | NewWork(wp: WorkPackage, random: nat)
    | Proof(s: Solution, midx: nat, value: nat, mixHash: nat)
    | SubmitReply(id: nat, reply: Reply)
    | Reconnect

  /** Over any run of starts, stops, jobs, proofs and replies, on any ids, with reconnections in between:
      all accounting hits an existing entry, the counters stay conserved, and the segments keep fitting. */
  method RunFarm(farm: Farm, ids: SubmissionIds, events: seq<Event>) returns (allAccounted: bool)
    requires farm.Valid() && ids.Valid() && ids.sent == {}
    modifies farm, ids
    ensures farm.Valid() && allAccounted
    ensures forall i | i in ids.sent :: i < |farm.minerSolutions|
  {
    allAccounted := true;
    var n := 0;
    while n < |events|
      invariant farm.Valid() && allAccounted
      invariant ids.Valid() && forall i | i in ids.sent :: i < |farm.minerSolutions|
    {
      match events[n] {
      case Start => farm.Start();
      case Stop => farm.Stop();
      case NewWork(wp, random) =>
        if random < TWO64 && (wp.exSizeBytes > 0 ==>
             wp.exSizeBytes <= 16 && 0 < |farm.miners| < 2 * Pow2(64 - 4 * wp.exSizeBytes)) {
          farm.SetWork(wp, random);
        }
      case Proof(s, midx, value, mixHash) =>
        if midx < |farm.minerSolutions| {
          var found := farm.SubmitProofAsync(s, midx, value, mixHash);
          if found.Some? {
            var id := ids.Submit(midx);
          }
        }
      case SubmitReply(id, reply) =>
        var ok := AccountReply(farm, ids, id, reply);
        allAccounted := allAccounted && ok;
      case Reconnect => ids.Reset();
      }
      n := n + 1;
    }
  }

  /** Whatever jobs came before, no two miners share a nonce of the segments they were given last. */
  lemma MinersNeverOverlap(farm: Farm, start: nat, i: nat, x: nat, j: nat, y: nat)
    requires farm.Valid() && farm.Divided(start) && i < |farm.miners| && j < |farm.miners|
    requires x < Pow2(farm.segmentWidth) && y < Pow2(farm.segmentWidth)
    requires (farm.miners[i].startNonce + x) % TWO64 == (farm.miners[j].startNonce + y) % TWO64
    ensures i == j && x == y
  {
    SegmentsDisjoint(start, farm.segmentWidth, Fpgas(farm.devices), i, x, j, y);
  }
}
