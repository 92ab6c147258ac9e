/** Positional notation: big-endian bytes and hexadecimal text, as `libdevcore/CommonData.h` and
    `libdevcore/CommonData.cpp` read and write them. */
module Hex {
  import opened Arith

  type Byte = b: int | 0 <= b < 256

  // ---- big-endian bytes

  /** The number that `bs` is, most significant byte first. */
  function BigEndian(bs: seq<Byte>): (v: nat)
  {
    if bs == [] then 0 else 256 * BigEndian(bs[..|bs| - 1]) + bs[|bs| - 1]
  }

  lemma {:induction false} BigEndianBound(bs: seq<Byte>)
    ensures BigEndian(bs) < Pow(256, |bs|)
    decreases |bs|
  {
    if bs != [] {
      BigEndianBound(bs[..|bs| - 1]);
    }
  }

  lemma {:induction false} BigEndianJoin(a: seq<Byte>, b: seq<Byte>)
    ensures BigEndian(a + b) == BigEndian(a) * Pow(256, |b|) + BigEndian(b)
    decreases |b|
  {
    if b == [] {
      assert a + b == a;
    } else {
      var n := |b| - 1;
      assert (a + b)[..|a| + n] == a + b[..n];
      BigEndianJoin(a, b[..n]);
      MulAssoc(256, BigEndian(a), Pow(256, n));
      MulAssoc(BigEndian(a), 256, Pow(256, n));
    }
  }

  /** Equally long strings with equal values are equal. */
  lemma {:induction false} BigEndianInjective(a: seq<Byte>, b: seq<Byte>)
    requires |a| == |b| && BigEndian(a) == BigEndian(b)
    ensures a == b
    decreases |a|
  {
    if a != [] {
      var n := |a| - 1;
      BigEndianInjective(a[..n], b[..n]);
      assert a == a[..n] + [a[n]] && b == b[..n] + [b[n]];
    }
  }

  /** Moving the low byte of `v` in front of `tail` keeps the number they spell together. */
  lemma ShiftByte(val: nat, v: nat, tail: seq<Byte>)
    requires val == v * Pow(256, |tail|) + BigEndian(tail)
    ensures val == (v / 256) * Pow(256, |tail| + 1) + BigEndian([v % 256] + tail)
  {
    var p := Pow(256, |tail|);
    BigEndianJoin([v % 256], tail);
    assert [v % 256][..0] == [] && BigEndian([v % 256]) == v % 256;
    assert v == 256 * (v / 256) + v % 256;
    MulAssoc(v / 256, 256, p);
    Distribute(256 * (v / 256), v % 256, p);
  }

  lemma Distribute(a: int, b: int, c: int)
    ensures (a + b) * c == a * c + b * c
  {
  }

  /** `toBigEndian`: `out` receives the low bytes of `val`. */
  method ToBigEndian(val: nat, out: array<Byte>)
    modifies out
    ensures BigEndian(out[..]) == val % Pow(256, out.Length)
  {
    var v: nat, i := val, out.Length;
    while i != 0
      invariant 0 <= i <= out.Length
      invariant val == v * Pow(256, |out[i..]|) + BigEndian(out[i..])
    {
      ghost var tail := out[i..];
      ShiftByte(val, v, tail);
      out[i - 1] := v % 256;
      assert out[i - 1..] == [v % 256] + tail;
      v, i := v / 256, i - 1;
    }
    assert out[0..] == out[..];
    BigEndianBound(out[..]);
    DivModUnique(val, Pow(256, out.Length), v, BigEndian(out[..]));
  }

  /** `fromBigEndian`, in a type wide enough for the string. */
  method FromBigEndian(bytes: seq<Byte>) returns (ret: nat)
    ensures ret == BigEndian(bytes)
  {
    ret := 0;
    var i := 0;
    while i < |bytes|
      invariant 0 <= i <= |bytes| && ret == BigEndian(bytes[..i])
    {
      assert bytes[..i + 1][..i] == bytes[..i];
      ret := ret * 256 + bytes[i];
      i := i + 1;
    }
    assert bytes[..i] == bytes;
  }

  // ---- hexadecimal digits

  function Digit(d: nat): (c: char)
    requires d < 16
  {
    "0123456789abcdef"[d]
  }

  /** `fromHex` on a character, without throwing: -1 when it is no hex digit. */
  function FromHexChar(c: char): (v: int)
    ensures -1 <= v < 16
  {
    if '0' <= c <= '9' then c as int - '0' as int
    else if 'a' <= c <= 'f' then c as int - 'a' as int + 10
    else if 'A' <= c <= 'F' then c as int - 'A' as int + 10
    else -1
  }

  predicate IsHex(s: string) {
    forall i | 0 <= i < |s| :: FromHexChar(s[i]) != -1
  }

  predicate IsLowerHex(s: string) {
    forall i | 0 <= i < |s| :: FromHexChar(s[i]) != -1 && !('A' <= s[i] <= 'F')
  }

  lemma DigitRoundTrip(d: nat, c: char)
    requires d < 16
    ensures FromHexChar(Digit(d)) == d && !('A' <= Digit(d) <= 'F')
    ensures FromHexChar(c) != -1 && !('A' <= c <= 'F') ==> Digit(FromHexChar(c)) == c
  {
  }

  /** The digits are the ASCII ones, capital letters being read too. */
  lemma DigitIsAscii(d: nat)
    requires d < 16
    ensures Digit(d) as int == if d < 10 then '0' as int + d else 'a' as int + (d - 10)
    ensures d >= 10 ==> FromHexChar(('A' as int + (d - 10)) as char) == d
  {
  }

  /** The number a hex string spells. */
  function Value(s: string): (v: nat)
    requires IsHex(s)
  {
    if s == [] then 0 else 16 * Value(s[..|s| - 1]) + FromHexChar(s[|s| - 1])
  }

  /** The low `n` hex digits of `v`, padded with zeros: `std::hex << std::setw(n)` for `v < 16^n`. */
  function ToHex(v: nat, n: nat): (s: string)
    ensures |s| == n
    decreases n, v
  {
    if n == 0 then [] else ToHex(v / 16, n - 1) + [Digit(v % 16)]
  }

  lemma {:induction false} ToHexValue(v: nat, n: nat)
    requires v < Pow(16, n)
    ensures IsLowerHex(ToHex(v, n)) && IsHex(ToHex(v, n)) && Value(ToHex(v, n)) == v
    decreases n
  {
    if n > 0 {
      var u, d := v / 16, v % 16;
      ShiftDown(v, Pow(16, n - 1));
      ToHexValue(u, n - 1);
      ToHexValueMore(v, u, d, n - 1);
    }
  }

  lemma ShiftDown(v: nat, p: nat)
    requires v < 16 * p
    ensures v / 16 < p && v == 16 * (v / 16) + v % 16 && v % 16 < 16
  {
  }

  lemma ToHexValueMore(w: nat, v: nat, d: nat, n: nat)
    requires d < 16 && w == 16 * v + d && v < Pow(16, n)
    requires IsLowerHex(ToHex(v, n)) && IsHex(ToHex(v, n)) && Value(ToHex(v, n)) == v
    ensures IsLowerHex(ToHex(w, n + 1)) && IsHex(ToHex(w, n + 1)) && Value(ToHex(w, n + 1)) == w
  {
    DigitRoundTrip(d, '0');
    ToHexMore(w, v, d, n);
    ValueMore(ToHex(v, n), Digit(d));
  }

  /** Printing what a lower-case string spells gives the string back. */
  lemma {:induction false} ValueToHex(s: string)
    requires IsLowerHex(s)
    ensures IsHex(s) && Value(s) < Pow(16, |s|) && ToHex(Value(s), |s|) == s
    decreases |s|
  {
    if s != [] {
      var n := |s| - 1;
      ValueToHex(s[..n]);
      DigitRoundTrip(0, s[n]);
      ToHexMore(Value(s), Value(s[..n]), FromHexChar(s[n]), n);
      assert s == s[..n] + [s[n]];
    }
  }

  lemma ToHexMore(w: nat, v: nat, d: nat, n: nat)
    requires d < 16 && w == 16 * v + d && v < Pow(16, n)
    ensures w < Pow(16, n + 1) && ToHex(w, n + 1) == ToHex(v, n) + [Digit(d)]
  {
    DivModUnique(w, 16, v, d);
  }

  lemma ValueMore(s: string, c: char)
    requires IsHex(s) && FromHexChar(c) != -1
    ensures IsHex(s + [c]) && Value(s + [c]) == 16 * Value(s) + FromHexChar(c)
    ensures IsLowerHex(s) && !('A' <= c <= 'F') ==> IsLowerHex(s + [c])
  {
    assert (s + [c])[..|s|] == s;
  }

  /** High digits and low digits print separately. */
  lemma {:induction false} ToHexSplit(v: nat, r: nat, m: nat, n: nat)
    requires r < Pow(16, n)
    ensures ToHex(v * Pow(16, n) + r, m + n) == ToHex(v, m) + ToHex(r, n)
    decreases n
  {
    if n == 0 {
      assert ToHex(v, m) + ToHex(r, 0) == ToHex(v, m);
    } else {
      var p, w := Pow(16, n - 1), v * Pow(16, n) + r;
      DropDigit(v, p, r);
      ToHexSplit(v, r / 16, m, n - 1);
      ToHexLast(w, v * p + r / 16, r % 16, m + n);
      ToHexLast(r, r / 16, r % 16, n);
      assert ToHex(v, m) + ToHex(r, n) == ToHex(v, m) + ToHex(r / 16, n - 1) + [Digit(r % 16)];
    }
  }

  lemma ToHexLast(w: nat, q: nat, d: nat, n: nat)
    requires w / 16 == q && w % 16 == d && n > 0
    ensures ToHex(w, n) == ToHex(q, n - 1) + [Digit(d)]
  {
  }

  lemma DropDigit(v: nat, p: nat, r: nat)
    ensures v * (16 * p) + r >= 0 && (v * (16 * p) + r) % 16 == r % 16
    ensures (v * (16 * p) + r) / 16 == v * p + r / 16
  {
    MulMono(v, 0, 16 * p);
    MulAssoc(v, 16, p);
    MulAssoc(16, v, p);
    DivModUnique(v * (16 * p) + r, 16, v * p + r / 16, r % 16);
  }

  // ---- hexadecimal strings of bytes

  /** Two digits a byte. */
  function HexOf(bs: seq<Byte>): (s: string)
    ensures |s| == 2 * |bs|
  {
    if bs == [] then [] else HexOf(bs[..|bs| - 1]) + [Digit(bs[|bs| - 1] / 16), Digit(bs[|bs| - 1] % 16)]
  }

  /** A byte string and its hex text spell the same number. */
  lemma {:induction false} HexOfValue(bs: seq<Byte>)
    ensures IsHex(HexOf(bs)) && Value(HexOf(bs)) == BigEndian(bs)
    decreases |bs|
  {
    if bs != [] {
      var n := |bs| - 1;
      HexOfValue(bs[..n]);
      DigitRoundTrip(bs[n] / 16, '0');
      DigitRoundTrip(bs[n] % 16, '0');
      var s, h, l := HexOf(bs[..n]), Digit(bs[n] / 16), Digit(bs[n] % 16);
      ValueMore(s, h);
      ValueMore(s + [h], l);
      assert s + [h] + [l] == HexOf(bs);
    }
  }

  /** `toHex` over a collection of bytes, with or without "0x". */
  method ToHexBytes(data: seq<Byte>, prefix: bool) returns (s: string)
    ensures s == (if prefix then "0x" else "") + HexOf(data)
  {
    var ret := "";
    var i := 0;
    while i < |data|
      invariant 0 <= i <= |data| && ret == HexOf(data[..i])
    {
      assert data[..i + 1][..i] == data[..i];
      ret := ret + [Digit(data[i] / 16), Digit(data[i] % 16)];
      i := i + 1;
    }
    assert data[..i] == data;
    s := if prefix then "0x" + ret else ret;
  }

  datatype Decoded = Bytes(bytes: seq<Byte>) | BadHexCharacter

  /** How many characters the "0x" takes. */
  function PrefixLength(s: string): (p: nat)
    ensures p <= |s|
  {
    if |s| >= 2 && s[0] == '0' && s[1] == 'x' then 2 else 0
  }

  /** The bytes `ret` spell what the first `k` characters of `t` do. */
  ghost predicate Spells(ret: seq<Byte>, t: string, k: nat) {
    && k <= |t| && IsHex(t[..k])
    && |ret| == (k + 1) / 2 && BigEndian(ret) == Value(t[..k])
  }

  lemma SpellMore(ret: seq<Byte>, t: string, k: nat, h: int, l: int)
    requires Spells(ret, t, k) && k + 2 <= |t|
    requires h == FromHexChar(t[k]) != -1 && l == FromHexChar(t[k + 1]) != -1
    ensures Spells(ret + [h * 16 + l], t, k + 2)
  {
    assert t[..k + 2][..k + 1] == t[..k + 1] && t[..k + 1][..k] == t[..k];
    assert (ret + [h * 16 + l])[..|ret|] == ret;
  }

  lemma SpellFirst(t: string, h: int)
    requires t != [] && h == FromHexChar(t[0]) != -1
    ensures Spells([h], t, 1)
  {
    assert t[..1][..0] == [] && [h][..0] == [];
  }

  /** `fromHex` on a string. It succeeds exactly when everything after an optional "0x" is hex digits,
      and then the bytes spell the same number, an odd leading digit taking a byte of its own.
      Otherwise it throws, or, asked not to, returns no bytes at all. */
  method FromHex(s: string, throws: bool) returns (r: Decoded)
    ensures var t := s[PrefixLength(s)..];
            if IsHex(t) then r.Bytes? && |r.bytes| == (|t| + 1) / 2 && BigEndian(r.bytes) == Value(t)
            else if throws then r == BadHexCharacter else r == Bytes([])
  {
    var ok, ret := DecodeDigits(s[PrefixLength(s)..]);
    if ok {
      return Bytes(ret);
    }
    return if throws then BadHexCharacter else Bytes([]);
  }

  /** The digits proper. The prefix being of even length, whether there is an odd digit can be told without it. */
  method DecodeDigits(t: string) returns (ok: bool, ret: seq<Byte>)
    ensures ok <==> IsHex(t)
    ensures ok ==> |ret| == (|t| + 1) / 2 && BigEndian(ret) == Value(t)
  {
    var i := 0;
    ret := [];
    if |t| % 2 == 1 {
      var h := FromHexChar(t[i]);
      if h == -1 {
        return false, [];
      }
      SpellFirst(t, h);
      ret := [h];
      i := i + 1;
    }
    while i < |t|
      invariant 0 <= i <= |t| && (|t| - i) % 2 == 0 && Spells(ret, t, i)
    {
      var h := FromHexChar(t[i]);
      var l := FromHexChar(t[i + 1]);
      if h == -1 || l == -1 {
        return false, [];
      }
      SpellMore(ret, t, i, h, l);
      ret := ret + [h * 16 + l];
      i := i + 2;
    }
    assert t[..i] == t;
    ok := true;
  }
}
