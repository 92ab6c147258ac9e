/** From the farm's division of the nonce space to the nonces a device actually tries: what
    `libethcore/Farm.cpp`, `libethash-fpga/FPGAMiner.cpp` and the extranonce of the stratum client guarantee
    together. Nothing ties the work size to the width of a segment, nor the number of launches, so every statement
    says exactly how far the launches of a job may go. */
module NonceUse {
  import opened Arith
  import opened Hex
  import opened NonceSegments
  import opened Work
  import F = FpgaMiners
  import Farms

  /** `x` is one of the `size` nonces from `start` on. */
  ghost predicate Covered(start: nat, size: nat, x: nat) {
    exists d: nat | d < size :: F.Nonce(start, d) == x
  }

  // ---- the launches of one job

  /** Launches `a` to `b` are the first ones under their header, one after the other. */
  ghost predicate OfJob(launches: seq<F.Launch>, a: nat, b: nat) {
    && a <= b < |launches|
    && (forall k | a <= k <= b :: launches[k].header == launches[a].header)
    && (a > 0 ==> launches[a - 1].header != launches[a].header)
  }

  /** One of these launches tries `x`. */
  ghost predicate Tried(launches: seq<F.Launch>, a: nat, b: nat, g: nat, x: nat)
    requires b < |launches|
  {
    exists k: nat, gid: nat | a <= k <= b && gid < g :: F.Nonce(launches[k].startNonce, gid) == x
  }

  /** They try exactly the nonces from the start of their package on, one work size per launch. */
  lemma TriedIff(launches: seq<F.Launch>, g: nat, a: nat, b: nat, x: nat)
    requires F.Chained(launches, g) && OfJob(launches, a, b) && launches[a].given.startNonce < TWO64
    ensures Tried(launches, a, b, g, x) <==> Covered(launches[a].given.startNonce, F.Steps(b - a + 1, g), x)
  {
    assert F.FollowsAt(launches, a, g);
    var start := launches[a].startNonce;
    if Tried(launches, a, b, g, x) {
      var k: nat, gid: nat :| a <= k <= b && gid < g && F.Nonce(launches[k].startNonce, gid) == x;
      F.Progression(launches, g, a, k);
      F.NonceSum(start, F.Steps(k - a, g), gid);
      F.Within(b - a + 1, k - a, gid, g);
    }
    if Covered(start, F.Steps(b - a + 1, g), x) {
      var d: nat :| d < F.Steps(b - a + 1, g) && F.Nonce(start, d) == x;
      NothingFromNothing(b - a + 1, g);
      var k, gid := F.NoGap(launches, g, a, b, d);
    }
  }

  lemma {:induction false} NothingFromNothing(n: nat, g: nat)
    ensures g == 0 ==> F.Steps(n, g) == 0
    ensures g > 0 && n > 0 ==> F.Steps(n, g) > 0
    decreases n
  {
    if n > 0 {
      NothingFromNothing(n - 1, g);
    }
  }

  // ---- how far they may go

  /** A stretch stays within another from the same start exactly when it is no longer, or the other is all there is. */
  lemma CoveredWithinIff(start: nat, size: nat, limit: nat)
    ensures (forall x | Covered(start, size, x) :: Covered(start, limit, x)) <==> size <= limit || TWO64 <= limit
  {
    if TWO64 <= limit {
      forall x | Covered(start, size, x) ensures Covered(start, limit, x) {
        var d: nat :| d < size && F.Nonce(start, d) == x;
        Reduced(start, d);
      }
    } else if size > limit {
      assert Covered(start, size, F.Nonce(start, limit));
      NotCovered(start, limit);
    } else {
      forall x | Covered(start, size, x) ensures Covered(start, limit, x) {
        var d: nat :| d < size && F.Nonce(start, d) == x;
      }
    }
  }

  lemma Reduced(start: nat, d: nat)
    ensures d % TWO64 < TWO64 && F.Nonce(start, d % TWO64) == F.Nonce(start, d)
  {
    AddMultiple(start + d % TWO64, TWO64, d / TWO64);
  }

  lemma NotCovered(start: nat, limit: nat)
    requires limit < TWO64
    ensures !Covered(start, limit, F.Nonce(start, limit))
  {
    if Covered(start, limit, F.Nonce(start, limit)) {
      var d: nat :| d < limit && F.Nonce(start, d) == F.Nonce(start, limit);
      SameOffset(start, d, limit);
    }
  }

  /** Some nonce is in both stretches. */
  ghost predicate Meet(start: nat, size: nat, other: nat, otherSize: nat) {
    exists x :: Covered(start, size, x) && Covered(other, otherSize, x)
  }

  /** Two stretches, the second starting `gap` after the first, meet exactly when the first reaches the second or the
      second, going round, the first. */
  lemma MeetIff(start: nat, size: nat, gap: nat, otherSize: nat)
    requires start < TWO64 && 0 < size && 0 < otherSize && 0 < gap < TWO64
    ensures Meet(start, size, F.Nonce(start, gap), otherSize) <==> size > gap || gap + otherSize > TWO64
  {
    var other := F.Nonce(start, gap);
    Around(start);
    Around(other);
    if size > gap {
      assert Covered(start, size, other) && Covered(other, otherSize, other);
    } else if gap + otherSize > TWO64 {
      F.NonceSum(start, gap, TWO64 - gap);
      assert Covered(start, size, start) && Covered(other, otherSize, start);
    } else {
      forall x | Covered(start, size, x) ensures !Covered(other, otherSize, x) {
        Apart(start, size, gap, otherSize, x);
      }
    }
  }

  lemma Around(start: nat)
    requires start < TWO64
    ensures F.Nonce(start, 0) == start == F.Nonce(start, TWO64)
  {
  }

  lemma Apart(start: nat, size: nat, gap: nat, otherSize: nat, x: nat)
    requires size <= gap && gap + otherSize <= TWO64 && Covered(start, size, x)
    ensures !Covered(F.Nonce(start, gap), otherSize, x)
  {
    var other := F.Nonce(start, gap);
    if Covered(other, otherSize, x) {
      var d: nat :| d < size && F.Nonce(start, d) == x;
      var e: nat :| e < otherSize && F.Nonce(other, e) == x;
      F.NonceSum(start, gap, e);
      SameOffset(start, d, gap + e);
    }
  }

  /** The segment of miner `j` starts so far after that of miner `i`. */
  function Gap(width: nat, i: nat, j: nat): (d: nat)
    requires i <= j
    ensures Distance(width, j, 0) == Distance(width, i, 0) + d
  {
    Distribute(i, j - i, Pow2(width));
    Distance(width, j - i, 0)
  }

  lemma NextStart(start: nat, width: nat, i: nat, j: nat)
    requires i <= j
    ensures SegmentStart(start, width, j) == F.Nonce(SegmentStart(start, width, i), Gap(width, i, j))
  {
    NonceAtSum(start, width, i, Gap(width, i, j));
    assert Distance(width, i, Gap(width, i, j)) == Distance(width, j, 0);
  }

  lemma GapBound(width: nat, n: nat, i: nat, j: nat)
    requires n * Pow2(width) <= TWO64 && i < j < n
    ensures 0 < Gap(width, i, j) < TWO64
  {
    SegmentBound(n, width, j, 0);
    PosMul(j - i, Pow2(width));
  }

  // ---- the extranonce

  /** Inside the residual space the prefix is kept. */
  lemma ResidualKeeps(enonce: string, m: nat, e: nat, x: nat)
    requires IsLowerHex(enonce) && IsHex(enonce) && |enonce| + m == 16 && e < Pow(16, m)
    requires x == (ExtraNonce(enonce) + e) % TWO64
    ensures Prefixed(enonce, x)
  {
    ResidualQuotient(enonce, m, e);
    IsPrefixed(enonce, m, x);
  }

  lemma IsPrefixed(enonce: string, m: nat, x: nat)
    requires IsLowerHex(enonce) && IsHex(enonce) && |enonce| + m == 16 && x < TWO64
    requires x / Pow(16, m) == Value(enonce)
    ensures Prefixed(enonce, x)
  {
    PrefixedIff(enonce, m, x);
  }

  lemma ResidualQuotient(enonce: string, m: nat, e: nat)
    requires IsLowerHex(enonce) && IsHex(enonce) && |enonce| + m == 16 && e < Pow(16, m)
    ensures ((ExtraNonce(enonce) + e) % TWO64) / Pow(16, m) == Value(enonce)
  {
    ExtraNonceValue(enonce, m);
    SplitSpace(|enonce|, m);
    QuotientKept(Value(enonce), Pow(16, |enonce|), Pow(16, m), e, TWO64);
  }

  lemma QuotientKept(v: nat, a: nat, p: nat, e: nat, whole: nat)
    requires v < a && e < p && whole == a * p
    ensures whole > 0 && ((v * p + e) % whole) / p == v
  {
    Under(v, a, p, e);
    MulMono(p, 0, v);
    DivModUnique(v * p + e, whole, 0, v * p + e);
  }

  /** Outside it, it is lost. */
  lemma ResidualLost(enonce: string, m: nat, e: nat, x: nat)
    requires IsLowerHex(enonce) && IsHex(enonce) && |enonce| + m == 16 && Pow(16, m) <= e < TWO64
    requires x == (ExtraNonce(enonce) + e) % TWO64
    ensures !Prefixed(enonce, x)
  {
    BeyondQuotient(enonce, m, e);
    NotPrefixed(enonce, m, x);
  }

  lemma BeyondQuotient(enonce: string, m: nat, e: nat)
    requires IsLowerHex(enonce) && IsHex(enonce) && |enonce| + m == 16 && Pow(16, m) <= e < TWO64
    ensures ((ExtraNonce(enonce) + e) % TWO64) / Pow(16, m) != Value(enonce)
  {
    ExtraNonceValue(enonce, m);
    SplitSpace(|enonce|, m);
    QuotientLost(Value(enonce), Pow(16, |enonce|), Pow(16, m), e, TWO64);
  }

  lemma QuotientLost(v: nat, a: nat, p: nat, e: nat, whole: nat)
    requires v < a && 0 < p <= e < whole == a * p
    ensures whole > 0 && ((v * p + e) % whole) / p != v
  {
    Quotient(e, a, p);
    var q, r := e / p, e % p;
    if q == 0 {
      assert false;
    }
    Distribute(v, q, p);
    if v + q < a {
      QuotientKept(v + q, a, p, r, whole);
    } else {
      Distribute(v + q - a, a, p);
      MulMono(p, 0, v + q - a);
      AddMultiple((v + q - a) * p + r, whole, 1);
      QuotientKept(v + q - a, a, p, r, whole);
    }
  }

  lemma FromSegment(start: nat, width: nat, i: nat, d: nat)
    ensures F.Nonce(SegmentStart(start, width, i), d) == (start + (Distance(width, i, 0) + d)) % TWO64
  {
    NonceAtSum(start, width, i, d);
  }

  /** All nonces of a stretch from miner `i`'s segment on keep the prefix exactly when it ends within the residual
      space. */
  lemma PrefixStretchIff(enonce: string, m: nat, width: nat, i: nat, size: nat)
    requires IsLowerHex(enonce) && IsHex(enonce) && 0 < |enonce| && |enonce| + m == 16
    requires Distance(width, i, 0) < TWO64 && 0 < size
    ensures (forall x | Covered(SegmentStart(ExtraNonce(enonce), width, i), size, x) :: Prefixed(enonce, x))
            <==> Distance(width, i, 0) + size <= Pow(16, m)
  {
    var start, from, p := SegmentStart(ExtraNonce(enonce), width, i), Distance(width, i, 0), Pow(16, m);
    if from + size <= p {
      forall x | Covered(start, size, x) ensures Prefixed(enonce, x) {
        var d: nat :| d < size && F.Nonce(start, d) == x;
        KeptAt(enonce, m, width, i, d, x);
      }
    } else {
      ResidualSmaller(|enonce|, m);
      var d: nat := if from < p then p - from else 0;
      LostAt(enonce, m, width, i, d, F.Nonce(start, d));
      assert Covered(start, size, F.Nonce(start, d));
    }
  }

  lemma ResidualSmaller(l: nat, m: nat)
    requires l > 0 && l + m == 16
    ensures Pow(16, m) < TWO64
  {
    SplitSpace(l, m);
    PowMono(16, 1, l);
    MulMono(Pow(16, m), 2, Pow(16, l));
  }

  lemma KeptAt(enonce: string, m: nat, width: nat, i: nat, d: nat, x: nat)
    requires IsLowerHex(enonce) && IsHex(enonce) && |enonce| + m == 16 && Distance(width, i, 0) + d < Pow(16, m)
    requires x == F.Nonce(SegmentStart(ExtraNonce(enonce), width, i), d)
    ensures Prefixed(enonce, x)
  {
    FromSegment(ExtraNonce(enonce), width, i, d);
    ResidualKeeps(enonce, m, Distance(width, i, 0) + d, x);
  }

  lemma LostAt(enonce: string, m: nat, width: nat, i: nat, d: nat, x: nat)
    requires IsLowerHex(enonce) && IsHex(enonce) && |enonce| + m == 16
    requires Pow(16, m) <= Distance(width, i, 0) + d < TWO64
    requires x == F.Nonce(SegmentStart(ExtraNonce(enonce), width, i), d)
    ensures !Prefixed(enonce, x)
  {
    FromSegment(ExtraNonce(enonce), width, i, d);
    ResidualLost(enonce, m, Distance(width, i, 0) + d, x);
  }

  // ---- the work loop on the farm's packages

  /** The launches of one job in a run of the work loop, on the package the farm gave miner `i`. */
  ghost predicate OnPackage(m: F.Loop, turns: seq<F.Turn>, n: nat, g: nat, a: nat, b: nat, farm: Farms.Farm, i: nat)
    reads farm
  {
    && F.Fresh(m) && n <= |turns| && i < |farm.miners|
    && var launches := F.After(m, turns, n, g).log.launches;
       OfJob(launches, a, b) && launches[a].given == farm.miners[i]
  }

  /** The nonces they try are those from the segment's start on. */
  lemma TriedFromSegment(m: F.Loop, turns: seq<F.Turn>, n: nat, g: nat, a: nat, b: nat, farm: Farms.Farm, start: nat,
                         i: nat, x: nat)
    requires OnPackage(m, turns, n, g, a, b, farm, i) && farm.Divided(start)
    ensures Tried(F.After(m, turns, n, g).log.launches, a, b, g, x)
            <==> Covered(SegmentStart(start, farm.segmentWidth, i), F.Steps(b - a + 1, g), x)
  {
    F.LaunchesChained(m, turns, n, g);
    TriedIff(F.After(m, turns, n, g).log.launches, g, a, b, x);
  }

  /** Over every run: all nonces a miner tries for a job lie in its segment if and only if its launches together are
      no longer than the segment, or the segment is the whole nonce space. */
  lemma StaysInSegmentIff(m: F.Loop, turns: seq<F.Turn>, n: nat, g: nat, a: nat, b: nat, farm: Farms.Farm, start: nat,
                          i: nat)
    requires OnPackage(m, turns, n, g, a, b, farm, i) && farm.Divided(start)
    ensures (forall x | Tried(F.After(m, turns, n, g).log.launches, a, b, g, x) ::
               Covered(SegmentStart(start, farm.segmentWidth, i), Pow2(farm.segmentWidth), x))
            <==> F.Steps(b - a + 1, g) <= Pow2(farm.segmentWidth) || TWO64 <= Pow2(farm.segmentWidth)
  {
    var launches, size := F.After(m, turns, n, g).log.launches, F.Steps(b - a + 1, g);
    var from := SegmentStart(start, farm.segmentWidth, i);
    forall x ensures Tried(launches, a, b, g, x) <==> Covered(from, size, x) {
      TriedFromSegment(m, turns, n, g, a, b, farm, start, i, x);
    }
    CoveredWithinIff(from, size, Pow2(farm.segmentWidth));
  }

  /** Two miners of a farm try a common nonce for a job. */
  ghost predicate Collide(la: seq<F.Launch>, a: nat, b: nat, lc: seq<F.Launch>, c: nat, d: nat, g: nat)
    requires b < |la| && d < |lc|
  {
    exists x :: Tried(la, a, b, g, x) && Tried(lc, c, d, g, x)
  }

  /** Over every pair of runs: two miners of a farm try a common nonce for a job if and only if the launches of the one
      reach the other's segment, or those of the other go round to the first's. */
  lemma MinersCollideIff(m: F.Loop, turns: seq<F.Turn>, n: nat, a: nat, b: nat, i: nat,
                         m': F.Loop, turns': seq<F.Turn>, n': nat, c: nat, d: nat, j: nat,
                         g: nat, farm: Farms.Farm, start: nat)
    requires OnPackage(m, turns, n, g, a, b, farm, i) && OnPackage(m', turns', n', g, c, d, farm, j)
    requires farm.Valid() && farm.Divided(start) && i < j && g > 0
    ensures Collide(F.After(m, turns, n, g).log.launches, a, b, F.After(m', turns', n', g).log.launches, c, d, g)
            <==> (|| F.Steps(b - a + 1, g) > Gap(farm.segmentWidth, i, j)
                  || Gap(farm.segmentWidth, i, j) + F.Steps(d - c + 1, g) > TWO64)
  {
    var w := farm.segmentWidth;
    var la, lc := F.After(m, turns, n, g).log.launches, F.After(m', turns', n', g).log.launches;
    var from, to := SegmentStart(start, w, i), SegmentStart(start, w, j);
    forall x ensures Tried(la, a, b, g, x) <==> Covered(from, F.Steps(b - a + 1, g), x) {
      TriedFromSegment(m, turns, n, g, a, b, farm, start, i, x);
    }
    forall x ensures Tried(lc, c, d, g, x) <==> Covered(to, F.Steps(d - c + 1, g), x) {
      TriedFromSegment(m', turns', n', g, c, d, farm, start, j, x);
    }
    CollideIsMeet(la, a, b, lc, c, d, g, from, F.Steps(b - a + 1, g), to, F.Steps(d - c + 1, g));
    NextStart(start, w, i, j);
    GapBound(w, |farm.miners|, i, j);
    NothingFromNothing(b - a + 1, g);
    NothingFromNothing(d - c + 1, g);
    MeetIff(from, F.Steps(b - a + 1, g), Gap(w, i, j), F.Steps(d - c + 1, g));
  }

  lemma CollideIsMeet(la: seq<F.Launch>, a: nat, b: nat, lc: seq<F.Launch>, c: nat, d: nat, g: nat,
                      from: nat, size: nat, to: nat, size': nat)
    requires b < |la| && d < |lc|
    requires forall x :: Tried(la, a, b, g, x) <==> Covered(from, size, x)
    requires forall x :: Tried(lc, c, d, g, x) <==> Covered(to, size', x)
    ensures Collide(la, a, b, lc, c, d, g) <==> Meet(from, size, to, size')
  {
    if Collide(la, a, b, lc, c, d, g) {
      var x :| Tried(la, a, b, g, x) && Tried(lc, c, d, g, x);
      assert Covered(from, size, x) && Covered(to, size', x);
    }
    if Meet(from, size, to, size') {
      var x :| Covered(from, size, x) && Covered(to, size', x);
      assert Tried(la, a, b, g, x) && Tried(lc, c, d, g, x);
    }
  }

  /** Over every run: on an extranonce job all nonces a miner tries are completed by their suffix if and only if its
      launches end within the residual space. */
  lemma SubmissionsCompleteIff(m: F.Loop, turns: seq<F.Turn>, n: nat, g: nat, a: nat, b: nat, farm: Farms.Farm, i: nat,
                               enonce: string, r: nat)
    requires IsLowerHex(enonce) && IsHex(enonce) && 0 < |enonce| && |enonce| + r == 16
    requires OnPackage(m, turns, n, g, a, b, farm, i) && farm.Valid() && farm.Divided(ExtraNonce(enonce)) && g > 0
    ensures (forall x | Tried(F.After(m, turns, n, g).log.launches, a, b, g, x) ::
               enonce + Suffix(x, |enonce|) == ToHex(x, 16))
            <==> Distance(farm.segmentWidth, i, 0) + F.Steps(b - a + 1, g) <= Pow(16, r)
  {
    var launches, start, size := F.After(m, turns, n, g).log.launches, ExtraNonce(enonce), F.Steps(b - a + 1, g);
    var from := SegmentStart(start, farm.segmentWidth, i);
    forall x ensures Tried(launches, a, b, g, x) <==> Covered(from, size, x) {
      TriedFromSegment(m, turns, n, g, a, b, farm, start, i, x);
    }
    forall x: nat ensures Prefixed(enonce, x) <==> enonce + Suffix(x, |enonce|) == ToHex(x, 16) {
      SuffixCompletes(enonce, x);
    }
    SegmentBound(|farm.miners|, farm.segmentWidth, i, 0);
    NothingFromNothing(b - a + 1, g);
    PrefixStretchIff(enonce, r, farm.segmentWidth, i, size);
  }

  /** What the loop submits for a launch, the launch has tried. */
  lemma SubmittedIsTried(m: F.Loop, turns: seq<F.Turn>, n: nat, g: nat, a: nat, b: nat, k: nat)
    requires F.Fresh(m) && n <= |turns|
    requires forall t | 0 <= t < n :: forall h: F.Hit | h in turns[t].finds :: h.gid < g
    requires var log := F.After(m, turns, n, g).log;
             k < |log.submitted| && b < |log.launches| && |log.origin| == |log.submitted| && a <= log.origin[k] <= b
    ensures var log := F.After(m, turns, n, g).log; Tried(log.launches, a, b, g, log.submitted[k].nonce)
  {
    F.SubmittedPaired(m, turns, n, g);
    F.TurnsScheduled(m, turns, n, g);
    var log := F.After(m, turns, n, g).log;
    var o := log.origin[k];
    var l := log.launches[o];
    assert F.BelongsTo(log.submitted[k], l) && F.MadeIn(l, turns[log.when[o]]);
    var h: nat :| h < |F.Stored(l.found)| && F.IsHit(log.submitted[k], l.found[h], l.startNonce);
    assert l.found[h] in turns[log.when[o]].finds;
  }

  // ---- a first launch that leaves its segment

  /** Segments one nonce wide and a work size of two: already the first launches of miners 0 and 1 try a common
      nonce. */
  lemma FirstLaunchesCollide(m: F.Loop, header: nat, start: nat)
    requires F.Fresh(m) && header > 0
    ensures var w := NO_WORK.(header := header, epoch := 0, startNonce := SegmentStart(start, 0, 0));
            var v := w.(startNonce := SegmentStart(start, 0, 1));
            var la := F.After(m, [F.Turn(w, true, 0, [])], 1, 2).log.launches;
            var lc := F.After(m, [F.Turn(v, true, 0, [])], 1, 2).log.launches;
            |la| == 1 && |lc| == 1 && Collide(la, 0, 0, lc, 0, 0, 2)
  {
    var s0, s1 := SegmentStart(start, 0, 0), SegmentStart(start, 0, 1);
    var w := NO_WORK.(header := header, epoch := 0, startNonce := s0);
    var v := w.(startNonce := s1);
    var la := FirstLaunch(m, w, 2);
    var lc := FirstLaunch(m, v, 2);
    NonceAtSum(start, 0, 0, 1);
    assert F.Nonce(s0, 1) == s1 == F.Nonce(s1, 0);
    assert Tried(la, 0, 0, 2, s1) && Tried(lc, 0, 0, 2, s1);
  }

  lemma FirstLaunch(m: F.Loop, w: WorkPackage, g: nat) returns (launches: seq<F.Launch>)
    requires F.Fresh(m) && w.header > 0
    ensures launches == F.After(m, [F.Turn(w, true, 0, [])], 1, g).log.launches
    ensures |launches| == 1 && launches[0].startNonce == w.startNonce
  {
    var turn := F.Turn(w, true, 0, []);
    assert F.After(m, [turn], 0, g) == m;
    launches := F.Turned(m, turn, 0, g).log.launches;
  }
}
