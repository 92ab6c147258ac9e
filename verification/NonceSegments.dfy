/** The nonce space and its division among miners: the extranonce of
    `libpoolprotocols/stratum/EthStratumClient.cpp` and the segments of `Farm::setWork` in
    `libethcore/Farm.cpp`. `log2` and `pow` are exact. */
module NonceSegments {
  import opened Arith
  import opened Hex

  lemma Pow2Of64()
    ensures Pow2(64) == TWO64
  {
    assert Pow2(8) == 0x100;
    assert Pow2(16) == 0x1_0000;
    assert Pow2(24) == 0x100_0000;
    assert Pow2(32) == 0x1_0000_0000;
    assert Pow2(40) == 0x100_0000_0000;
    assert Pow2(48) == 0x1_0000_0000_0000;
    assert Pow2(56) == 0x100_0000_0000_0000;
  }

  /** A nonce is sixteen hex digits: those of the extranonce and those left. */
  lemma SplitSpace(l: nat, m: nat)
    requires l + m == 16
    ensures TWO64 == Pow(16, l) * Pow(16, m)
  {
    Pow2Of64();
    Pow16(l + m);
    PowAdd(16, l, m);
  }

  /** `(unsigned) log2(pow(2, k) / n)`: the base-two logarithm of the quotient rounded towards zero. It
      is defined as long as the logarithm is above -1, that is for `n < 2 * 2^k`. */
  function SegmentWidth(k: nat, n: nat): (w: nat)
    requires 0 < n < 2 * Pow2(k)
    ensures n <= Pow2(k) ==> n * Pow2(w) <= Pow2(k) < 2 * (n * Pow2(w))
    ensures n > Pow2(k) ==> w == 0
    ensures w <= k
    decreases k
  {
    if Pow2(k) < 2 * n then 0
    else
      var w := SegmentWidth(k - 1, n);
      Doubled(n, Pow2(w));
      1 + w
  }

  lemma Doubled(n: nat, p: nat)
    ensures n * (2 * p) == 2 * (n * p)
  {
  }

  /** How far position `off` of miner `i`'s segment is from the start. */
  function Distance(width: nat, i: nat, off: nat): (d: nat)
  {
    MulMono(Pow2(width), 0, i);
    i * Pow2(width) + off
  }

  /** The first nonce of miner `i`: `start + ((uint64_t) i << width)`. */
  function SegmentStart(start: nat, width: nat, i: nat): (x: nat)
    ensures x < TWO64
  {
    (start + Distance(width, i, 0)) % TWO64
  }

  /** Position `off` in the segment of miner `i`. */
  function NonceAt(start: nat, width: nat, i: nat, off: nat): (x: nat)
    ensures x < TWO64
  {
    (SegmentStart(start, width, i) + off) % TWO64
  }

  lemma NonceAtSum(start: nat, width: nat, i: nat, off: nat)
    ensures NonceAt(start, width, i, off) == (start + Distance(width, i, off)) % TWO64
  {
    var x := start + Distance(width, i, 0);
    AddMultiple(x % TWO64 + off, TWO64, x / TWO64);
  }

  lemma NonceInRange(start: nat, width: nat, i: nat, off: nat)
    requires start + Distance(width, i, off) < TWO64
    ensures NonceAt(start, width, i, off) == start + Distance(width, i, off)
  {
    NonceAtSum(start, width, i, off);
  }

  /** Position within the whole allotment of `n` segments. */
  lemma SegmentBound(n: nat, width: nat, i: nat, off: nat)
    requires i < n && off < Pow2(width)
    ensures Distance(width, i, off) < n * Pow2(width)
  {
    MulMono(Pow2(width), i + 1, n);
    MulSplit(Pow2(width), i, 1);
  }

  lemma SegmentApart(width: nat, i: nat, x: nat, j: nat, y: nat)
    requires x < Pow2(width) && y < Pow2(width)
    requires Distance(width, i, x) == Distance(width, j, y)
    ensures i == j && x == y
  {
    var p := Pow2(width);
    DivModUnique(i * p + x, p, i, x);
    DivModUnique(j * p + y, p, j, y);
  }

  /** Segments of miners that fit the nonce space together share no nonce, modulo 2^64. */
  lemma SegmentsDisjoint(start: nat, width: nat, n: nat, i: nat, x: nat, j: nat, y: nat)
    requires n * Pow2(width) <= TWO64 && i < n && j < n && x < Pow2(width) && y < Pow2(width)
    requires NonceAt(start, width, i, x) == NonceAt(start, width, j, y)
    ensures i == j && x == y
  {
    var a, b := Distance(width, i, x), Distance(width, j, y);
    NonceAtSum(start, width, i, x);
    NonceAtSum(start, width, j, y);
    SegmentBound(n, width, i, x);
    SegmentBound(n, width, j, y);
    SameOffset(start, a, b);
    SegmentApart(width, i, x, j, y);
  }

  // ---- the extranonce

  /** The largest hex string is kept, shorter ones are filled up with zeros: `enonce.resize(16, '0')`. */
  function Resized(enonce: string): (s: string)
    ensures |s| == 16
  {
    if |enonce| >= 16 then enonce[..16] else enonce + ZeroDigits(16 - |enonce|)
  }

  function ZeroDigits(n: nat): (s: string)
    ensures |s| == n && forall k | 0 <= k < n :: s[k] == '0'
  {
    seq(n, _ => '0')
  }

  /** `processExtranonce` on hex digits: the start nonce. */
  function ExtraNonce(enonce: string): (x: nat)
    requires IsHex(enonce)
  {
    assert IsHex(Resized(enonce));
    Value(Resized(enonce))
  }

  lemma {:induction false} ValueZeros(s: string, n: nat)
    requires IsHex(s)
    ensures IsHex(s + ZeroDigits(n)) && Value(s + ZeroDigits(n)) == Value(s) * Pow(16, n)
    decreases n
  {
    var z := s + ZeroDigits(n);
    if n == 0 {
      assert z == s;
    } else {
      ValueZeros(s, n - 1);
      assert z[..|z| - 1] == s + ZeroDigits(n - 1);
      MulAssoc(16, Value(s), Pow(16, n - 1));
      MulAssoc(Value(s), 16, Pow(16, n - 1));
    }
  }

  /** The extranonce sits in the leading digits. */
  lemma ExtraNonceValue(enonce: string, m: nat)
    requires IsLowerHex(enonce) && IsHex(enonce) && |enonce| + m == 16
    ensures Value(enonce) < Pow(16, |enonce|)
    ensures ExtraNonce(enonce) == Value(enonce) * Pow(16, m)
  {
    ValueToHex(enonce);
    ResizedValue(enonce, m);
  }

  lemma ResizedValue(enonce: string, m: nat)
    requires IsHex(enonce) && |enonce| + m == 16
    ensures ExtraNonce(enonce) == Value(enonce) * Pow(16, m)
  {
    ValueZeros(enonce, m);
    assert Resized(enonce) == enonce + ZeroDigits(m);
  }

  /** What `submitSolution` sends: the nonce's digits after the extranonce's. */
  function Suffix(nonce: nat, exSize: nat): (s: string)
    requires exSize <= 16
  {
    ToHex(nonce, 16)[exSize..]
  }

  /** The leading digits of a nonce spell the nonce without its last `m` digits. */
  lemma LeadingDigits(s: string, m: nat, x: nat)
    requires IsLowerHex(s) && IsHex(s) && x < Pow(16, |s|) * Pow(16, m)
    ensures ToHex(x, |s| + m)[..|s|] == s <==> x / Pow(16, m) == Value(s)
  {
    var p := Pow(16, m);
    var u, r := x / p, x % p;
    Quotient(x, Pow(16, |s|), p);
    HeadDigits(u, r, |s|, m);
    SameDigits(s, u);
  }

  lemma HeadDigits(u: nat, r: nat, l: nat, m: nat)
    requires r < Pow(16, m)
    ensures ToHex(u * Pow(16, m) + r, l + m)[..l] == ToHex(u, l)
  {
    ToHexSplit(u, r, l, m);
    TakeDrop(ToHex(u, l), ToHex(r, m));
  }

  lemma SameDigits(s: string, u: nat)
    requires IsLowerHex(s) && IsHex(s) && u < Pow(16, |s|)
    ensures ToHex(u, |s|) == s <==> u == Value(s)
  {
    ToHexValue(u, |s|);
    ValueToHex(s);
  }

  lemma Quotient(x: nat, a: nat, p: nat)
    requires p > 0 && x < a * p
    ensures 0 <= x / p < a && 0 <= x % p < p && x == (x / p) * p + x % p
  {
    ModBound(x, p);
    if x / p >= a {
      MulMono(p, a, x / p);
      assert false;
    }
    if x / p < 0 {
      MulMono(p, x / p, -1);
      assert false;
    }
  }

  lemma TakeDrop(a: string, b: string)
    ensures a + (a + b)[|a|..] == a + b && (a + b)[..|a|] == a
  {
  }

  /** The nonce's digits begin with the extranonce. */
  predicate Prefixed(enonce: string, nonce: nat)
    requires |enonce| <= 16
  {
    ToHex(nonce, 16)[..|enonce|] == enonce
  }

  /** Then extranonce and submitted suffix together are the nonce. */
  lemma SuffixCompletes(enonce: string, nonce: nat)
    requires |enonce| <= 16
    ensures Prefixed(enonce, nonce) <==> enonce + Suffix(nonce, |enonce|) == ToHex(nonce, 16)
  {
    var text := ToHex(nonce, 16);
    assert text == text[..|enonce|] + text[|enonce|..];
    if enonce + Suffix(nonce, |enonce|) == text {
      TakeDrop(enonce, Suffix(nonce, |enonce|));
    }
  }

  lemma PrefixedIff(enonce: string, m: nat, nonce: nat)
    requires IsLowerHex(enonce) && IsHex(enonce) && |enonce| + m == 16 && nonce < TWO64
    ensures Prefixed(enonce, nonce) <==> nonce / Pow(16, m) == Value(enonce)
  {
    SplitSpace(|enonce|, m);
    LeadingDigits(enonce, m, nonce);
  }

  /** With the miners fitting the residual space, so does every position in their segments. */
  lemma SegmentWithin(m: nat, n: nat, i: nat, off: nat)
    requires i < n <= Pow2(4 * m) && off < Pow2(SegmentWidth(4 * m, n))
    ensures Distance(SegmentWidth(4 * m, n), i, off) < Pow(16, m)
  {
    SegmentBound(n, SegmentWidth(4 * m, n), i, off);
    Pow16(m);
  }

  lemma Under(v: nat, a: nat, p: nat, d: nat)
    requires v < a && d < p
    ensures v * p + d < a * p && (v * p + d) / p == v
  {
    MulMono(p, v + 1, a);
    MulSplit(p, v, 1);
    DivModUnique(v * p + d, p, v, d);
  }

  /** Every nonce in every miner's segment keeps the extranonce as its hex prefix, so that extranonce
      and submitted suffix together are the nonce. */
  lemma SegmentKeepsPrefix(enonce: string, m: nat, n: nat, i: nat, off: nat)
    requires IsLowerHex(enonce) && IsHex(enonce) && |enonce| + m == 16 && i < n <= Pow2(4 * m)
    requires off < Pow2(SegmentWidth(4 * m, n))
    ensures var nonce := NonceAt(ExtraNonce(enonce), SegmentWidth(4 * m, n), i, off);
            Prefixed(enonce, nonce) && enonce + Suffix(nonce, |enonce|) == ToHex(nonce, 16)
  {
    var nonce := NonceAt(ExtraNonce(enonce), SegmentWidth(4 * m, n), i, off);
    SegmentQuotient(enonce, m, n, i, off);
    PrefixedIff(enonce, m, nonce);
    SuffixCompletes(enonce, nonce);
  }

  lemma SegmentQuotient(enonce: string, m: nat, n: nat, i: nat, off: nat)
    requires IsLowerHex(enonce) && IsHex(enonce) && |enonce| + m == 16 && i < n <= Pow2(4 * m)
    requires off < Pow2(SegmentWidth(4 * m, n))
    ensures NonceAt(ExtraNonce(enonce), SegmentWidth(4 * m, n), i, off) / Pow(16, m) == Value(enonce)
  {
    var w := SegmentWidth(4 * m, n);
    ExtraNonceValue(enonce, m);
    SegmentWithin(m, n, i, off);
    SplitSpace(|enonce|, m);
    Under(Value(enonce), Pow(16, |enonce|), Pow(16, m), Distance(w, i, off));
    NonceInRange(ExtraNonce(enonce), w, i, off);
  }

  lemma NextBlock(v: nat, a: nat, p: nat, whole: nat)
    requires v < a && p > 0 && whole == a * p && a > 1
    ensures ((v * p + p) % whole) / p != v
  {
    Distribute(v, 1, p);
    var u := if v + 1 == a then 0 else v + 1;
    if v + 1 < a {
      Under(v + 1, a, p, 0);
      DivModUnique(u * p, whole, 0, u * p);
    } else {
      PosMul(a, p);
      DivModUnique(whole, whole, 1, 0);
    }
    DivModUnique(u * p, p, u, 0);
  }

  lemma NextQuotient(enonce: string, m: nat)
    requires IsLowerHex(enonce) && IsHex(enonce) && 0 < |enonce| && |enonce| + m == 16
    ensures ((ExtraNonce(enonce) + Pow(16, m)) % TWO64) / Pow(16, m) != Value(enonce)
  {
    ExtraNonceValue(enonce, m);
    SplitSpace(|enonce|, m);
    PowMono(16, 1, |enonce|);
    NextBlock(Value(enonce), Pow(16, |enonce|), Pow(16, m), TWO64);
  }

  /** Past the residual space the prefix is lost: this is the nonce right after it. */
  lemma PrefixLost(enonce: string, m: nat, x: nat)
    requires IsLowerHex(enonce) && IsHex(enonce) && 0 < |enonce| && |enonce| + m == 16
    requires x == (ExtraNonce(enonce) + Pow(16, m)) % TWO64
    ensures !Prefixed(enonce, x)
  {
    NextQuotient(enonce, m);
    NotPrefixed(enonce, m, x);
  }

  lemma NotPrefixed(enonce: string, m: nat, x: nat)
    requires IsLowerHex(enonce) && IsHex(enonce) && |enonce| + m == 16 && x < TWO64
    requires x / Pow(16, m) != Value(enonce)
    ensures !Prefixed(enonce, x)
  {
    PrefixedIff(enonce, m, x);
  }

  /** All miners' segments keep the prefix exactly when the miners fit the residual space. */
  lemma PrefixKeptIff(enonce: string, m: nat, n: nat)
    requires IsLowerHex(enonce) && IsHex(enonce) && 0 < |enonce| && |enonce| + m == 16 && 0 < n < 2 * Pow2(4 * m)
    ensures (n <= Pow2(4 * m)) <==>
            (forall i: nat, off: nat | i < n && off < Pow2(SegmentWidth(4 * m, n)) ::
               Prefixed(enonce, NonceAt(ExtraNonce(enonce), SegmentWidth(4 * m, n), i, off)))
  {
    var w := SegmentWidth(4 * m, n);
    if n <= Pow2(4 * m) {
      forall i: nat, off: nat | i < n && off < Pow2(w)
        ensures Prefixed(enonce, NonceAt(ExtraNonce(enonce), w, i, off))
      {
        SegmentKeepsPrefix(enonce, m, n, i, off);
      }
    } else {
      LostBeyond(enonce, m);
      var i: nat, off: nat := Pow2(4 * m), 0;
      assert w == 0 && Pow2(w) == 1;
      assert i < n && off < Pow2(w) && !Prefixed(enonce, NonceAt(ExtraNonce(enonce), w, i, off));
    }
  }

  lemma LostBeyond(enonce: string, m: nat)
    requires IsLowerHex(enonce) && IsHex(enonce) && 0 < |enonce| && |enonce| + m == 16
    ensures !Prefixed(enonce, NonceAt(ExtraNonce(enonce), 0, Pow2(4 * m), 0))
  {
    Pow16(m);
    NonceAtSum(ExtraNonce(enonce), 0, Pow2(4 * m), 0);
    TimesOne(Pow2(4 * m));
    PrefixLost(enonce, m, NonceAt(ExtraNonce(enonce), 0, Pow2(4 * m), 0));
  }

  lemma TimesOne(x: nat)
    ensures Distance(0, x, 0) == x
  {
  }
}
