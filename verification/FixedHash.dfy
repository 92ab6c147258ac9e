/** The fixed-size hash of `libdevcore/FixedHash.h`: N bytes that are also a big-endian number. */
module FixedHashes {
  import opened Arith
  import opened Hex

  function Repeat(b: Byte, n: nat): (s: seq<Byte>)
    ensures |s| == n
  {
    seq(n, _ => b)
  }

  lemma {:induction false} ZerosValue(n: nat)
    ensures BigEndian(Repeat(0, n)) == 0
    decreases n
  {
    if n > 0 {
      ZerosValue(n - 1);
      assert Repeat(0, n)[..n - 1] == Repeat(0, n - 1);
    }
  }

  lemma {:induction false} OnesValue(n: nat)
    ensures BigEndian(Repeat(255, n)) + 1 == Pow(256, n)
    decreases n
  {
    if n > 0 {
      OnesValue(n - 1);
      assert Repeat(255, n)[..n - 1] == Repeat(255, n - 1);
    }
  }

  lemma BigEndianMore(a: seq<Byte>, b: Byte)
    ensures BigEndian(a + [b]) == 256 * BigEndian(a) + b
  {
    assert (a + [b])[..|a|] == a;
  }

  /** The first byte that differs decides the order of the numbers. */
  lemma FirstDifferenceDecides(a: seq<Byte>, b: seq<Byte>, i: nat)
    requires |a| == |b| && i < |a| && a[..i] == b[..i] && a[i] < b[i]
    ensures BigEndian(a) < BigEndian(b)
  {
    var n := |a| - i - 1;
    var ha, hb := a[..i] + [a[i]], b[..i] + [b[i]];
    assert a == ha + a[i + 1..] && b == hb + b[i + 1..];
    BigEndianMore(a[..i], a[i]);
    BigEndianMore(b[..i], b[i]);
    BigEndianJoin(ha, a[i + 1..]);
    BigEndianJoin(hb, b[i + 1..]);
    BigEndianBound(a[i + 1..]);
    LeadingDecides(BigEndian(ha), BigEndian(hb), Pow(256, n), BigEndian(a[i + 1..]), BigEndian(b[i + 1..]));
  }

  lemma LeadingDecides(x: nat, y: nat, p: nat, r: nat, q: nat)
    requires x < y && r < p
    ensures x * p + r < y * p + q
  {
    MulMono(p, x + 1, y);
    MulSplit(p, x, 1);
  }

  /** Adding one: a tail of 255s turns to zeros and the byte before it goes up. */
  lemma IncrementValue(a: seq<Byte>, b: Byte, n: nat)
    requires b < 255
    ensures BigEndian(a + [b + 1] + Repeat(0, n)) == BigEndian(a + [b] + Repeat(255, n)) + 1
  {
    BigEndianJoin(a + [b], Repeat(255, n));
    BigEndianJoin(a + [b + 1], Repeat(0, n));
    BigEndianMore(a, b);
    BigEndianMore(a, b + 1);
    OnesValue(n);
    ZerosValue(n);
    Distribute(BigEndian(a + [b]), 1, Pow(256, n));
  }

  /** From byte `i` on, `was` has only 255s and `now` only zeros; before it they agree. */
  ghost predicate Carried(was: seq<Byte>, now: seq<Byte>, i: nat) {
    && i <= |was| == |now| && was[..i] == now[..i]
    && was[i..] == Repeat(255, |was| - i) && now[i..] == Repeat(0, |was| - i)
  }

  /** The carry stops at byte `i`. */
  lemma CarryStops(was: seq<Byte>, now: seq<Byte>, i: nat, b: Byte)
    requires i < |was| && Carried(was, now, i + 1) && was[i] == b < 255
    ensures BigEndian(now[i := b + 1]) == (BigEndian(was) + 1) % Pow(256, |was|)
  {
    var r := now[i := b + 1];
    CarryShape(was, now, i, b);
    IncrementValue(was[..i], b, |was| - i - 1);
    BelowModulus(r, BigEndian(was) + 1);
  }

  lemma CarryShape(was: seq<Byte>, now: seq<Byte>, i: nat, b: Byte)
    requires i < |was| && Carried(was, now, i + 1) && was[i] == b < 255
    ensures was == was[..i] + [b] + Repeat(255, |was| - i - 1)
    ensures now[i := b + 1] == was[..i] + [b + 1] + Repeat(0, |was| - i - 1)
  {
    assert was[..i] == was[..i + 1][..i] == now[..i + 1][..i];
    assert was == was[..i] + [b] + was[i + 1..];
    assert now[i := b + 1] == now[..i] + [b + 1] + now[i + 1..];
  }

  lemma BelowModulus(r: seq<Byte>, v: nat)
    requires v == BigEndian(r)
    ensures v % Pow(256, |r|) == v
  {
    BigEndianBound(r);
    DivModUnique(v, Pow(256, |r|), 0, v);
  }

  lemma CarryGoesOn(was: seq<Byte>, now: seq<Byte>, i: nat)
    requires i < |was| && Carried(was, now, i + 1) && was[i] == 255
    ensures Carried(was, now[i := 0], i)
  {
    assert was[..i] == was[..i + 1][..i] == now[..i + 1][..i];
    assert was[i..] == [255] + was[i + 1..] && now[i := 0][i..] == [0] + now[i + 1..];
  }

  /** The carry runs through. */
  lemma CarryRunsThrough(was: seq<Byte>, now: seq<Byte>)
    requires Carried(was, now, 0)
    ensures BigEndian(now) == (BigEndian(was) + 1) % Pow(256, |was|)
  {
    var n := |was|;
    assert was == was[0..] && now == now[0..];
    OnesValue(n);
    ZerosValue(n);
    DivModUnique(Pow(256, n), Pow(256, n), 1, 0);
  }

  // ---- strings of another length

  datatype ConstructFromHashType = AlignLeft | AlignRight | FailIfDifferent

  /** `n` bytes made of `b`: cropped, or filled up with zeros, at the other end. */
  function Aligned(b: seq<Byte>, n: nat, policy: ConstructFromHashType): (r: seq<Byte>)
    ensures |r| == n
  {
    if |b| == n then b
    else
      match policy
      case FailIfDifferent => Repeat(0, n)
      case AlignRight => if |b| < n then Repeat(0, n - |b|) + b else b[|b| - n..]
      case AlignLeft => if |b| < n then b + Repeat(0, n - |b|) else b[..n]
  }

  /** Aligned right, the number is kept as far as it fits: modulo 256^N. */
  lemma AlignRightValue(b: seq<Byte>, n: nat)
    ensures BigEndian(Aligned(b, n, AlignRight)) == BigEndian(b) % Pow(256, n)
  {
    var r := Aligned(b, n, AlignRight);
    if |b| < n {
      BigEndianJoin(Repeat(0, n - |b|), b);
      ZerosValue(n - |b|);
      BelowModulus(r, BigEndian(b));
    } else {
      assert b == b[..|b| - n] + r;
      LowBytes(b[..|b| - n], r);
    }
  }

  lemma LowBytes(h: seq<Byte>, r: seq<Byte>)
    ensures BigEndian(h + r) % Pow(256, |r|) == BigEndian(r)
  {
    BigEndianJoin(h, r);
    BigEndianBound(r);
    DivModUnique(BigEndian(h + r), Pow(256, |r|), BigEndian(h), BigEndian(r));
  }

  /** Aligned left, it is scaled: by the power of 256 that makes up for the difference in length. */
  lemma AlignLeftValue(b: seq<Byte>, n: nat)
    ensures |b| <= n ==> BigEndian(Aligned(b, n, AlignLeft)) == BigEndian(b) * Pow(256, n - |b|)
    ensures |b| >= n ==> BigEndian(Aligned(b, n, AlignLeft)) == BigEndian(b) / Pow(256, |b| - n)
  {
    var r := Aligned(b, n, AlignLeft);
    if |b| < n {
      BigEndianJoin(b, Repeat(0, n - |b|));
      ZerosValue(n - |b|);
    } else {
      var t := b[n..];
      assert b == r + t;
      BigEndianJoin(r, t);
      BigEndianBound(t);
      DivModUnique(BigEndian(b), Pow(256, |b| - n), BigEndian(r), BigEndian(t));
    }
  }

  /** The copying loop, over an array of zeros. */
  method CopyAligned(d: array<Byte>, b: seq<Byte>, right: bool)
    requires d[..] == Repeat(0, d.Length) && |b| != d.Length
    modifies d
    ensures d[..] == Aligned(b, d.Length, if right then AlignRight else AlignLeft)
  {
    var n, m := d.Length, |b|;
    assert forall j | 0 <= j < n :: d[..][j] == 0;
    var c := if m < n then m else n;
    var i := 0;
    while i < c
      invariant 0 <= i <= c
      invariant right ==> forall j | 0 <= j < n :: d[j] == if n - i <= j then b[m - n + j] else 0
      invariant !right ==> forall j | 0 <= j < n :: d[j] == if j < i then b[j] else 0
    {
      d[if right then n - 1 - i else i] := b[if right then m - 1 - i else i];
      i := i + 1;
    }
  }

  class FixedHash {
    const data: array<Byte>

    ghost function Value(): (v: nat)
      reads data
    {
      BigEndian(data[..])
    }

    /** From the arithmetic type of N bytes. */
    constructor FromArith(n: nat, arith: nat)
      ensures fresh(data) && data.Length == n && Value() == arith % Pow(256, n)
    {
      var d := new Byte[n];
      ToBigEndian(arith, d);
      data := d;
    }

    /** From bytes: themselves if there are exactly N, and otherwise by the policy given. */
    constructor FromBytes(n: nat, b: seq<Byte>, policy: ConstructFromHashType)
      ensures fresh(data) && data[..] == Aligned(b, n, policy)
    {
      var d := new Byte[n](_ => 0);
      assert d[..] == Repeat(0, n);
      if |b| == n {
        forall i | 0 <= i < n { d[i] := b[i]; }
      } else if policy != FailIfDifferent {
        CopyAligned(d, b, policy == AlignRight);
      }
      data := d;
    }

    /** Convert to the arithmetic type. */
    method ToArith() returns (v: nat)
      ensures v == Value() && v < Pow(256, data.Length)
    {
      v := FromBigEndian(data[..]);
      BigEndianBound(data[..]);
    }

    /** `operator==` */
    method Equals(c: FixedHash) returns (r: bool)
      requires data.Length == c.data.Length
      ensures r <==> Value() == c.Value()
      ensures r <==> data[..] == c.data[..]
    {
      r := data[..] == c.data[..];
      if Value() == c.Value() {
        BigEndianInjective(data[..], c.data[..]);
      }
    }

    /** `operator<` */
    method LessThan(c: FixedHash) returns (r: bool)
      requires data.Length == c.data.Length
      ensures r <==> Value() < c.Value()
    {
      var i := 0;
      while i < data.Length
        invariant 0 <= i <= data.Length && data[..i] == c.data[..i]
      {
        assert data[..][..i] == c.data[..][..i];
        if data[i] < c.data[i] {
          FirstDifferenceDecides(data[..], c.data[..], i);
          return true;
        }
        if data[i] > c.data[i] {
          FirstDifferenceDecides(c.data[..], data[..], i);
          return false;
        }
        i := i + 1;
      }
      assert data[..] == c.data[..];
      return false;
    }

    /** `operator>=` */
    method AtLeast(c: FixedHash) returns (r: bool)
      requires data.Length == c.data.Length
      ensures r <==> Value() >= c.Value()
    {
      var less := LessThan(c);
      r := !less;
    }

    /** `operator<=` */
    method AtMost(c: FixedHash) returns (r: bool)
      requires data.Length == c.data.Length
      ensures r <==> Value() <= c.Value()
    {
      r := Equals(c);
      if !r {
        r := LessThan(c);
      }
    }

    /** `operator>` */
    method GreaterThan(c: FixedHash) returns (r: bool)
      requires data.Length == c.data.Length
      ensures r <==> Value() > c.Value()
    {
      var atMost := AtMost(c);
      r := !atMost;
    }

    /** `operator++`: one more, modulo 256^N. */
    method Increment()
      modifies data
      ensures Value() == (old(Value()) + 1) % Pow(256, data.Length)
    {
      ghost var was := data[..];
      var i := data.Length;
      while i > 0
        invariant 0 <= i <= data.Length
        invariant Carried(was, data[..], i)
      {
        i := i - 1;
        ghost var now := data[..];
        assert now[i] == now[..i + 1][i] == was[i];
        data[i] := if data[i] == 255 then 0 else data[i] + 1;
        if data[i] != 0 {
          CarryStops(was, now, i, was[i]);
          assert data[..] == now[i := was[i] + 1];
          return;
        }
        CarryGoesOn(was, now, i);
        assert data[..] == now[i := 0];
      }
      CarryRunsThrough(was, data[..]);
    }

    /** `hex` */
    method HexText(prefix: bool) returns (s: string)
      ensures s == (if prefix then "0x" else "") + HexOf(data[..])
    {
      s := ToHexBytes(data[..], prefix);
    }
  }

  /** The constructor from a string: `null` stands for the exception. */
  method FromString(n: nat, s: string) returns (h: FixedHash?)
    ensures h == null <==> !IsHex(s[PrefixLength(s)..])
    ensures h != null ==> fresh(h) && fresh(h.data) && h.data.Length == n
    ensures h != null ==> var t := s[PrefixLength(s)..];
              h.Value() == if (|t| + 1) / 2 == n then Hex.Value(t) else 0
  {
    var r := FromHex(s, true);
    if r.BadHexCharacter? {
      return null;
    }
    h := new FixedHash.FromBytes(n, r.bytes, FailIfDifferent);
    ZerosValue(n);
  }

  // ---- round trips

  /** To the arithmetic type and back. */
  method ArithRoundTrip(h: FixedHash) returns (g: FixedHash)
    ensures g.data[..] == h.data[..]
  {
    var v := h.ToArith();
    g := new FixedHash.FromArith(h.data.Length, v);
    DivModUnique(v, Pow(256, h.data.Length), 0, v);
    BigEndianInjective(g.data[..], h.data[..]);
  }

  lemma HexOfHasNoPrefix(bs: seq<Byte>)
    ensures PrefixLength(HexOf(bs)) == 0
  {
    HexOfValue(bs);
  }

  /** Printed with or without "0x" and read back. */
  method HexRoundTrip(h: FixedHash, prefix: bool) returns (g: FixedHash?)
    ensures g != null && g.data[..] == h.data[..]
  {
    var s := h.HexText(prefix);
    HexOfHasNoPrefix(h.data[..]);
    HexOfValue(h.data[..]);
    assert s[PrefixLength(s)..] == HexOf(h.data[..]);
    g := FromString(h.data.Length, s);
    BigEndianInjective(g.data[..], h.data[..]);
  }
}
