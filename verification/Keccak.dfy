/** 64-bit words and their little-endian bytes. The sponge below keeps every `uint64_t` as its
    eight bytes, least significant first; the lemmas here are what makes that exact: each word
    operation `kec.cpp` uses is, byte by byte, the operation the sponge uses. */
module Words64 {

  function Pack(b0: bv8, b1: bv8, b2: bv8, b3: bv8, b4: bv8, b5: bv8, b6: bv8, b7: bv8): (w: bv64)
  {
    (b0 as bv64) | ((b1 as bv64) << 8) | ((b2 as bv64) << 16) | ((b3 as bv64) << 24)
    | ((b4 as bv64) << 32) | ((b5 as bv64) << 40) | ((b6 as bv64) << 48) | ((b7 as bv64) << 56)
  }

  /** `^` and `|` on words are `^` and `|` on their bytes. */
  lemma PackIsBytewise(a0: bv8, a1: bv8, a2: bv8, a3: bv8, a4: bv8, a5: bv8, a6: bv8, a7: bv8,
                       b0: bv8, b1: bv8, b2: bv8, b3: bv8, b4: bv8, b5: bv8, b6: bv8, b7: bv8)
    ensures Pack(a0 | b0, a1 | b1, a2 | b2, a3 | b3, a4 | b4, a5 | b5, a6 | b6, a7 | b7)
         == Pack(a0, a1, a2, a3, a4, a5, a6, a7) | Pack(b0, b1, b2, b3, b4, b5, b6, b7)
    ensures Pack(a0 ^ b0, a1 ^ b1, a2 ^ b2, a3 ^ b3, a4 ^ b4, a5 ^ b5, a6 ^ b6, a7 ^ b7)
         == Pack(a0, a1, a2, a3, a4, a5, a6, a7) ^ Pack(b0, b1, b2, b3, b4, b5, b6, b7)
  {
  }

  /** `(uint64_t) b << 8*k` has byte `b` at position `k` and zeros elsewhere. */
  lemma ShiftedByte(b: bv8)
    ensures (b as bv64) == Pack(b, 0, 0, 0, 0, 0, 0, 0)
    ensures (b as bv64) << 8 == Pack(0, b, 0, 0, 0, 0, 0, 0)
    ensures (b as bv64) << 16 == Pack(0, 0, b, 0, 0, 0, 0, 0)
    ensures (b as bv64) << 24 == Pack(0, 0, 0, b, 0, 0, 0, 0)
    ensures (b as bv64) << 32 == Pack(0, 0, 0, 0, b, 0, 0, 0)
    ensures (b as bv64) << 40 == Pack(0, 0, 0, 0, 0, b, 0, 0)
    ensures (b as bv64) << 48 == Pack(0, 0, 0, 0, 0, 0, b, 0)
    ensures (b as bv64) << 56 == Pack(0, 0, 0, 0, 0, 0, 0, b)
    ensures 0x8000_0000_0000_0000 == Pack(0, 0, 0, 0, 0, 0, 0, 0x80)
  {
  }

  /** The bytes `kec_finalize` writes out for a word are the bytes it was packed from. */
  lemma UnpackInverts(b0: bv8, b1: bv8, b2: bv8, b3: bv8, b4: bv8, b5: bv8, b6: bv8, b7: bv8, w: bv64)
    requires w == Pack(b0, b1, b2, b3, b4, b5, b6, b7)
    ensures var t1 := (w & 0xffff_ffff) as bv32;
            var t2 := (((w >> 16) >> 16) & 0xffff_ffff) as bv32;
            && (t1 & 0xff) as bv8 == b0 && ((t1 >> 8) & 0xff) as bv8 == b1
            && ((t1 >> 16) & 0xff) as bv8 == b2 && ((t1 >> 24) & 0xff) as bv8 == b3
            && (t2 & 0xff) as bv8 == b4 && ((t2 >> 8) & 0xff) as bv8 == b5
            && ((t2 >> 16) & 0xff) as bv8 == b6 && ((t2 >> 24) & 0xff) as bv8 == b7
  {
  }
}

/** The sponge of section 4 of FIPS 202 with the padding pad10*1 of its section 5.1, on byte
    strings, with no domain suffix (legacy Keccak). The permutation is a parameter. */
module Sponge {
  import opened Arith

  /** The 1600-bit state as its 200 bytes: lane `i` is bytes `8*i .. 8*i+8`. */
  type State = s: seq<bv8> | |s| == 200 witness seq(200, _ => 0)

  type Permutation = State -> State

  function Zeros(n: nat): (z: seq<bv8>)
    ensures |z| == n
  {
    seq(n, _ => 0)
  }

  const ZERO: State := Zeros(200)

  /** The state with `bs` XORed into it from byte `off` on. */
  function XorAt(s: State, off: nat, bs: seq<bv8>): (r: State)
    requires off + |bs| <= 200
    decreases |bs|
  {
    if bs == [] then s
    else
      var n := |bs| - 1;
      var r := XorAt(s, off, bs[..n]);
      r[off + n := r[off + n] ^ bs[n]]
  }

  lemma {:induction false} XorAtIndex(s: State, off: nat, bs: seq<bv8>, j: nat)
    requires off + |bs| <= 200 && j < 200
    ensures XorAt(s, off, bs)[j] == if off <= j < off + |bs| then s[j] ^ bs[j - off] else s[j]
    decreases |bs|
  {
    if bs != [] {
      var n := |bs| - 1;
      XorAtIndex(s, off, bs[..n], j);
    }
  }

  /** A padding of `q` bytes: the two one-bits are 0x01 and 0x80, and share one byte when there
      is only one. */
  function PadBytes(q: nat): (p: seq<bv8>)
    requires q > 0
    ensures |p| == q
  {
    if q == 1 then [0x81] else [0x01] + Zeros(q - 2) + [0x80]
  }

  /** pad10*1 for a message of `len` bytes, as bytes. */
  function Pad(rate: nat, len: nat): (p: seq<bv8>)
    requires rate > 0
  {
    ModBound(len, rate);
    PadBytes(rate - len % rate)
  }

  /** The padding completes the message's last block. */
  lemma PadFills(rate: nat, len: nat)
    requires rate > 0
    ensures 0 < |Pad(rate, len)| <= rate
    ensures (len + |Pad(rate, len)|) % rate == 0
  {
    ModBound(len, rate);
    MulSplit(rate, len / rate, 1);
    MultipleMod(rate, len / rate + 1);
  }

  /** The absorbing phase, block by block. */
  function Absorb(f: Permutation, rate: nat, s: State, data: seq<bv8>): (r: State)
    requires 0 < rate <= 200
    decreases |data|
  {
    if |data| < rate then s else Absorb(f, rate, f(XorAt(s, 0, data[..rate])), data[rate..])
  }

  function Squeeze(f: Permutation, rate: nat, s: State, d: nat): (r: seq<bv8>)
    requires 0 < rate <= 200
    ensures |r| == d
    decreases d
  {
    if d <= rate then s[..d] else s[..rate] + Squeeze(f, rate, f(s), d - rate)
  }

  /** The sponge function: pad, absorb block by block, squeeze `d` bytes. */
  function Hash(f: Permutation, rate: nat, msg: seq<bv8>, d: nat): (r: seq<bv8>)
    requires 0 < rate <= 200
    ensures |r| == d
  {
    Squeeze(f, rate, Absorb(f, rate, ZERO, msg + Pad(rate, |msg|)), d)
  }

  // ---- the padding, bit by bit

  /** Bits of a byte, least significant first, as FIPS 202 orders them (its appendix B.1). */
  function Bits(b: bv8): seq<bool> {
    [b & 1 != 0, b & 2 != 0, b & 4 != 0, b & 8 != 0,
     b & 16 != 0, b & 32 != 0, b & 64 != 0, b & 128 != 0]
  }

  function BitString(bs: seq<bv8>): (r: seq<bool>)
    ensures |r| == 8 * |bs|
  {
    if bs == [] then [] else BitString(bs[..|bs| - 1]) + Bits(bs[|bs| - 1])
  }

  function Falses(n: nat): (z: seq<bool>)
    ensures |z| == n
  {
    seq(n, _ => false)
  }

  /** pad10*1(x, m) of section 5.1: one, then (-m - 2) mod x zeros, then one. */
  function Pad10Star1(x: nat, m: int): (r: seq<bool>)
    requires x > 0
  {
    ModBound(-m - 2, x);
    [true] + Falses((-m - 2) % x) + [true]
  }

  lemma {:induction false} BitStringZeros(bs: seq<bv8>, n: nat)
    ensures BitString(bs + Zeros(n)) == BitString(bs) + Falses(8 * n)
  {
    if n == 0 {
      assert bs + Zeros(n) == bs;
    } else {
      var z := bs + Zeros(n);
      assert z[..|z| - 1] == bs + Zeros(n - 1);
      BitStringZeros(bs, n - 1);
    }
  }

  lemma SingleBits(b: bv8)
    ensures BitString([b]) == Bits(b)
  {
    assert [b][..0] == [];
    assert BitString([b]) == BitString([]) + Bits(b);
  }

  lemma PadLength(rate: nat, len: nat)
    requires rate > 0
    ensures (-(8 * len) - 2) % (8 * rate) == 8 * (rate - len % rate) - 2
  {
    var j := 8 * (rate - len % rate) - 2;
    ModBound(len, rate);
    assert -(8 * len) - 2 == (8 * rate) * (-(len / rate) - 1) + j;
    DivModUnique(-(8 * len) - 2, 8 * rate, -(len / rate) - 1, j);
  }

  lemma PadBits(q: nat)
    requires q >= 2
    ensures BitString(PadBytes(q)) == [true] + Falses(8 * q - 2) + [true]
  {
    var front := [0x01] + Zeros(q - 2);
    var p := front + [0x80];
    assert p[..|p| - 1] == front;
    BitStringZeros([0x01], q - 2);
    SingleBits(0x01);
    PadEndBits();
  }

  lemma PadEndBits()
    ensures Bits(0x01) == [true] + Falses(7) && Bits(0x80) == Falses(7) + [true]
  {
  }

  /** The byte padding is exactly pad10*1 on the message's bit string. */
  lemma PadIsPad10Star1(rate: nat, len: nat)
    requires rate > 0
    ensures BitString(Pad(rate, len)) == Pad10Star1(8 * rate, 8 * len)
  {
    var q := rate - len % rate;
    ModBound(len, rate);
    PadLength(rate, len);
    if q == 1 {
      SingleBits(0x81);
      assert Bits(0x81) == [true] + Falses(6) + [true];
    } else {
      PadBits(q);
    }
  }
}
