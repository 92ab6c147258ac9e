/** What the other modules share: word sizes, optional values, and a few facts on division and powers. */
module Arith {

  const TWO32: nat := 0x1_0000_0000
  const TWO64: nat := 0x1_0000_0000_0000_0000

  datatype Option<T> = None | Some(value: T)

  function Concat<T>(parts: seq<seq<T>>): seq<T> {
    if parts == [] then [] else Concat(parts[..|parts| - 1]) + parts[|parts| - 1]
  }

  lemma MulMono(m: nat, a: int, b: int)
    requires a <= b
    ensures m * a <= m * b
  {
  }

  lemma MulSplit(m: int, a: int, b: int)
    ensures m * (a + b) == m * a + m * b
  {
  }

  lemma MulAssoc(a: int, b: int, c: int)
    ensures a * (b * c) == (a * b) * c
  {
  }

  /** Quotient and remainder are the only pair of their kind. */
  lemma DivModUnique(n: int, m: nat, k: int, r: int)
    requires m > 0 && n == m * k + r && 0 <= r < m
    ensures n / m == k && n % m == r
  {
    var q, p := n / m, n % m;
    assert n == m * q + p && 0 <= p < m;
    if k > q {
      MulMono(m, 1, k - q);
      MulSplit(m, q, k - q);
      assert false;
    } else if k < q {
      MulMono(m, 1, q - k);
      MulSplit(m, k, q - k);
      assert false;
    }
  }

  lemma ModBound(n: int, m: nat)
    requires m > 0
    ensures 0 <= n % m < m && n == m * (n / m) + n % m
  {
  }

  /** Quotient and remainder of natural numbers. */
  lemma Divide(n: nat, m: nat) returns (k: nat, r: nat)
    requires m > 0
    ensures n == m * k + r && r < m
  {
    ModBound(n, m);
    if n / m < 0 {
      MulMono(m, n / m, -1);
      assert false;
    }
    k, r := n / m, n % m;
  }

  lemma MultipleMod(m: nat, k: int)
    requires m > 0
    ensures (m * k) % m == 0 && (m * k) / m == k
  {
    DivModUnique(m * k, m, k, 0);
  }

  lemma AddMultiple(n: int, m: nat, k: int)
    requires m > 0
    ensures (n + m * k) % m == n % m && (n + m * k) / m == n / m + k
  {
    ModBound(n, m);
    MulSplit(m, n / m, k);
    DivModUnique(n + m * k, m, n / m + k, n % m);
  }

  function Pow(b: nat, e: nat): (p: nat)
    requires b > 0
    ensures p > 0
    decreases e, b
  {
    if e == 0 then 1 else PosMul(b, Pow(b, e - 1)); b * Pow(b, e - 1)
  }

  lemma PosMul(a: nat, b: nat)
    requires a > 0 && b > 0
    ensures a * b > 0
  {
  }

  lemma {:induction false} PowAdd(b: nat, m: nat, n: nat)
    requires b > 0
    ensures Pow(b, m + n) == Pow(b, m) * Pow(b, n)
    decreases m
  {
    if m > 0 {
      PowAdd(b, m - 1, n);
      MulAssoc(b, Pow(b, m - 1), Pow(b, n));
    }
  }

  lemma {:induction false} PowMono(b: nat, m: nat, n: nat)
    requires b > 0 && m <= n
    ensures Pow(b, m) <= Pow(b, n)
    decreases n
  {
    if m < n {
      PowMono(b, m, n - 1);
      MulMono(Pow(b, n - 1), 1, b);
    }
  }

  function Pow2(k: nat): (p: nat)
    ensures p > 0
  {
    if k == 0 then 1 else 2 * Pow2(k - 1)
  }

  lemma {:induction false} Pow2Add(m: nat, n: nat)
    ensures Pow2(m + n) == Pow2(m) * Pow2(n)
    decreases m
  {
    if m > 0 {
      Pow2Add(m - 1, n);
      MulAssoc(2, Pow2(m - 1), Pow2(n));
    }
  }

  lemma {:induction false} Pow2Mono(m: nat, n: nat)
    requires m <= n
    ensures Pow2(m) <= Pow2(n)
    decreases n
  {
    if m < n {
      Pow2Mono(m, n - 1);
    }
  }

  /** Four bits are one hex digit. */
  lemma {:induction false} Pow16(k: nat)
    ensures Pow(16, k) == Pow2(4 * k)
    decreases k
  {
    if k > 0 {
      Pow16(k - 1);
      assert Pow2(4 * k) == 2 * Pow2(4 * k - 1) == 4 * Pow2(4 * k - 2) == 8 * Pow2(4 * k - 3);
    }
  }

  /** Adding to one start, within the nonce space, different distances lead to different places. */
  lemma SameOffset(start: nat, a: nat, b: nat)
    requires a < TWO64 && b < TWO64 && (start + a) % TWO64 == (start + b) % TWO64
    ensures a == b
  {
  }
}
