/** The incremental hashing context of `libethash-fpga/includes/kec.cpp`. */
module KeccakContext {
  import opened Arith
  import opened Sponge

  // ---- absorbing word by word

  /** A `uint64_t` as its bytes. */
  type Word = w: seq<bv8> | |w| == 8 witness Zeros(8)

  /** `u.s` and `wordIndex`. */
  datatype Cursor = Cursor(state: State, wordIndex: nat)

  const START := Cursor(ZERO, 0)

  /** XOR one word in at the word index; permute when the last rate word has been filled. */
  function AbsorbWord(f: Permutation, rateWords: nat, c: Cursor, word: Word): (r: Cursor)
    requires 0 < rateWords <= 25 && c.wordIndex < rateWords
    ensures r.wordIndex < rateWords
  {
    var s := XorAt(c.state, 8 * c.wordIndex, word);
    if c.wordIndex + 1 == rateWords then Cursor(f(s), 0) else Cursor(s, c.wordIndex + 1)
  }

  function AbsorbWords(f: Permutation, rateWords: nat, c: Cursor, ws: seq<Word>): (r: Cursor)
    requires 0 < rateWords <= 25 && c.wordIndex < rateWords
    ensures r.wordIndex < rateWords
    decreases |ws|
  {
    if ws == [] then c
    else AbsorbWord(f, rateWords, AbsorbWords(f, rateWords, c, ws[..|ws| - 1]), ws[|ws| - 1])
  }

  /** The bytes of a string of words. */
  function Flat(ws: seq<Word>): (bs: seq<bv8>)
    ensures |bs| == 8 * |ws|
    decreases |ws|
  {
    if ws == [] then [] else Flat(ws[..|ws| - 1]) + ws[|ws| - 1]
  }

  /** `saved` while the bytes `tail` wait for their word to fill up. */
  function Saved(tail: seq<bv8>): (w: Word)
    requires |tail| <= 8
  {
    tail + Zeros(8 - |tail|)
  }

  lemma SavedMore(tail: seq<bv8>, b: bv8)
    requires |tail| < 8
    ensures Saved(tail)[|tail| := Saved(tail)[|tail|] | b] == Saved(tail + [b])
  {
    assert Saved(tail)[|tail|] == 0;
    assert 0 | b == b;
  }

  lemma {:induction false} FlatJoin(a: seq<Word>, b: seq<Word>)
    ensures Flat(a + b) == Flat(a) + Flat(b)
    decreases |b|
  {
    if b == [] {
      assert a + b == a;
    } else {
      var n := |b| - 1;
      assert (a + b)[..|a| + n] == a + b[..n];
      FlatJoin(a, b[..n]);
    }
  }

  lemma {:induction false} AbsorbJoin(f: Permutation, rateWords: nat, c: Cursor, a: seq<Word>, b: seq<Word>)
    requires 0 < rateWords <= 25 && c.wordIndex < rateWords
    ensures AbsorbWords(f, rateWords, c, a + b)
         == AbsorbWords(f, rateWords, AbsorbWords(f, rateWords, c, a), b)
    decreases |b|
  {
    if b == [] {
      assert a + b == a;
    } else {
      var n := |b| - 1;
      assert (a + b)[..|a| + n] == a + b[..n];
      AbsorbJoin(f, rateWords, c, a, b[..n]);
    }
  }

  lemma FlatMore(ws: seq<Word>, word: Word)
    ensures Flat(ws + [word]) == Flat(ws) + word
  {
    assert (ws + [word])[..|ws|] == ws;
  }

  lemma TakeMore(s: seq<bv8>, i: nat, n: nat)
    requires i + n <= |s|
    ensures s[..i + n] == s[..i] + s[i..i + n]
  {
  }

  lemma Rejoin(a: seq<bv8>, s: seq<bv8>, n: nat)
    requires n <= |s|
    ensures (a + []) + s == (a + s[..n]) + ([] + s[n..])
  {
  }

  lemma AbsorbMore(f: Permutation, rateWords: nat, ws: seq<Word>, word: Word)
    requires 0 < rateWords <= 25
    ensures AbsorbWords(f, rateWords, START, ws + [word])
         == AbsorbWord(f, rateWords, AbsorbWords(f, rateWords, START, ws), word)
  {
    assert (ws + [word])[..|ws|] == ws;
  }

  lemma {:induction false} XorJoin(s: State, a: seq<bv8>, b: seq<bv8>)
    requires |a| + |b| <= 200
    ensures XorAt(XorAt(s, 0, a), |a|, b) == XorAt(s, 0, a + b)
    decreases |b|
  {
    if b == [] {
      assert a + b == a;
    } else {
      var n := |b| - 1;
      assert (a + b)[..|a| + n] == a + b[..n];
      XorJoin(s, a, b[..n]);
    }
  }

  // ---- word at a time is block at a time

  /** Fewer words than the rate only XOR themselves in. */
  lemma {:induction false} PartialBlock(f: Permutation, rateWords: nat, s: State, ws: seq<Word>)
    requires |ws| < rateWords <= 25
    ensures AbsorbWords(f, rateWords, Cursor(s, 0), ws) == Cursor(XorAt(s, 0, Flat(ws)), |ws|)
    decreases |ws|
  {
    if ws != [] {
      var n := |ws| - 1;
      PartialBlock(f, rateWords, s, ws[..n]);
      XorJoin(s, Flat(ws[..n]), ws[n]);
    }
  }

  /** A full block of words is one step of the sponge. */
  lemma FullBlock(f: Permutation, rateWords: nat, s: State, ws: seq<Word>)
    requires 0 < |ws| == rateWords <= 25
    ensures AbsorbWords(f, rateWords, Cursor(s, 0), ws) == Cursor(f(XorAt(s, 0, Flat(ws))), 0)
  {
    var n := |ws| - 1;
    PartialBlock(f, rateWords, s, ws[..n]);
    XorJoin(s, Flat(ws[..n]), ws[n]);
  }

  /** Whole blocks: the word-at-a-time absorber computes the sponge's absorbing phase. */
  lemma {:induction false} WordsAreBlocks(f: Permutation, rateWords: nat, s: State, ws: seq<Word>, k: nat)
    requires 0 < rateWords <= 25 && |ws| == rateWords * k
    ensures AbsorbWords(f, rateWords, Cursor(s, 0), ws) == Cursor(Absorb(f, 8 * rateWords, s, Flat(ws)), 0)
    decreases k
  {
    if k > 0 {
      MulSplit(rateWords, k - 1, 1);
      MulMono(rateWords, 0, k - 1);
      var first, rest := ws[..rateWords], ws[rateWords..];
      assert ws == first + rest;
      AbsorbJoin(f, rateWords, Cursor(s, 0), first, rest);
      FlatJoin(first, rest);
      FullBlock(f, rateWords, s, first);
      WordsAreBlocks(f, rateWords, f(XorAt(s, 0, Flat(first))), rest, k - 1);
      AbsorbStep(f, 8 * rateWords, s, Flat(first), Flat(rest));
    }
  }

  lemma AbsorbStep(f: Permutation, rate: nat, s: State, a: seq<bv8>, b: seq<bv8>)
    requires 0 < rate == |a| <= 200
    ensures Absorb(f, rate, s, a + b) == Absorb(f, rate, f(XorAt(s, 0, a)), b)
  {
    assert (a + b)[..rate] == a && (a + b)[rate..] == b;
  }

  // ---- finishing

  /** What `kec_finalize` XORs in before the last permutation. */
  function Finished(c: Cursor, tail: seq<bv8>, rateWords: nat): (r: State)
    requires c.wordIndex < rateWords <= 25 && |tail| < 8
  {
    XorAt(XorAt(c.state, 8 * c.wordIndex, Saved(tail + [0x01])), 8 * rateWords - 8,
          [0, 0, 0, 0, 0, 0, 0, 0x80])
  }

  /** XORing the pending bytes with both pad bits is XORing in the padded last block. */
  lemma LastBlock(s: State, rateWords: nat, a: seq<bv8>, n: nat, b: seq<bv8>)
    requires n < rateWords <= 25 && |a| == 8 * n && |b| < 8
    ensures var p := PadBytes(8 * rateWords - |a + b|);
            Finished(Cursor(XorAt(s, 0, a), n), b, rateWords) == XorAt(s, 0, a + b + p)
  {
    var rate, last := 8 * rateWords, a + b;
    var p := PadBytes(rate - |last|);
    var base := last + [0x01] + Zeros(rate - |last| - 1);
    PadIsOneThenTop(last, p, base);
    OneBit(s, a, b, base);
    TopBit(s, base, last + p);
  }

  lemma PadIsOneThenTop(last: seq<bv8>, p: seq<bv8>, base: seq<bv8>)
    requires |p| > 0 && p == PadBytes(|p|)
    requires base == last + [0x01] + Zeros(|p| - 1)
    ensures last + p == base[|base| - 1 := base[|base| - 1] ^ 0x80]
  {
  }

  lemma OneBit(s: State, a: seq<bv8>, b: seq<bv8>, base: seq<bv8>)
    requires |b| < 8 && |a| + 8 <= |base| <= 200
    requires base == a + b + [0x01] + Zeros(|base| - |a| - |b| - 1)
    ensures XorAt(XorAt(s, 0, a), |a|, Saved(b + [0x01])) == XorAt(s, 0, base)
  {
    var word := Saved(b + [0x01]);
    XorJoin(s, a, word);
    assert base == (a + word) + Zeros(|base| - |a + word|);
    XorZeros(s, a + word, base);
  }

  lemma XorZeros(s: State, a: seq<bv8>, b: seq<bv8>)
    requires |a| <= |b| <= 200 && b == a + Zeros(|b| - |a|)
    ensures XorAt(s, 0, a) == XorAt(s, 0, b)
  {
    forall j | 0 <= j < 200 ensures XorAt(s, 0, a)[j] == XorAt(s, 0, b)[j] {
      XorAtIndex(s, 0, a, j);
      XorAtIndex(s, 0, b, j);
    }
  }

  lemma TopBit(s: State, base: seq<bv8>, block: seq<bv8>)
    requires 8 <= |base| <= 200
    requires block == base[|base| - 1 := base[|base| - 1] ^ 0x80]
    ensures XorAt(XorAt(s, 0, base), |base| - 8, [0, 0, 0, 0, 0, 0, 0, 0x80]) == XorAt(s, 0, block)
  {
    var t: seq<bv8> := [0, 0, 0, 0, 0, 0, 0, 0x80];
    var n := |base|;
    forall j | 0 <= j < 200 ensures XorAt(XorAt(s, 0, base), n - 8, t)[j] == XorAt(s, 0, block)[j] {
      XorAtIndex(s, 0, base, j);
      XorAtIndex(s, 0, block, j);
      XorAtIndex(XorAt(s, 0, base), n - 8, t, j);
      if j == n - 1 {
        assert (s[j] ^ base[j]) ^ 0x80 == s[j] ^ (base[j] ^ 0x80);
      } else if n - 8 <= j < n {
        assert t[j - (n - 8)] == 0;
      }
    }
  }

  lemma {:induction false} AbsorbLast(f: Permutation, rate: nat, s: State, a: seq<bv8>, b: seq<bv8>, k: nat)
    requires 0 < rate <= 200 && |a| == rate * k && |b| == rate
    ensures Absorb(f, rate, s, a + b) == f(XorAt(Absorb(f, rate, s, a), 0, b))
    decreases k
  {
    if k == 0 {
      assert a + b == b && b[..rate] == b && b[rate..] == [];
    } else {
      MulSplit(rate, k - 1, 1);
      MulMono(rate, 0, k - 1);
      assert (a + b)[..rate] == a[..rate] && (a + b)[rate..] == a[rate..] + b;
      AbsorbLast(f, rate, f(XorAt(s, 0, a[..rate])), a[rate..], b, k - 1);
    }
  }

  /** Padding only looks at how far the message reaches into its last block. */
  lemma PadLast(rate: nat, k: nat, len: nat, n: nat)
    requires n < rate && len == rate * k + n
    ensures Pad(rate, len) == PadBytes(rate - n)
  {
    DivModUnique(len, rate, k, n);
  }

  lemma AfterBlocks(f: Permutation, rateWords: nat, blocks: seq<Word>, rest: seq<Word>, s: State)
    requires |rest| < rateWords <= 25 && AbsorbWords(f, rateWords, START, blocks) == Cursor(s, 0)
    ensures AbsorbWords(f, rateWords, START, blocks + rest) == Cursor(XorAt(s, 0, Flat(rest)), |rest|)
  {
    AbsorbJoin(f, rateWords, START, blocks, rest);
    PartialBlock(f, rateWords, s, rest);
  }

  /** Finishing `blocks + rest + tail` is one sponge step on the padded `rest + tail`. */
  lemma FinishLast(f: Permutation, rateWords: nat, blocks: seq<Word>, rest: seq<Word>, tail: seq<bv8>, s: State)
    requires |rest| < rateWords <= 25 && |tail| < 8
    requires AbsorbWords(f, rateWords, START, blocks) == Cursor(s, 0)
    ensures var last := Flat(rest) + tail;
            Finished(AbsorbWords(f, rateWords, START, blocks + rest), tail, rateWords)
            == XorAt(s, 0, last + PadBytes(8 * rateWords - |last|))
  {
    AfterBlocks(f, rateWords, blocks, rest, s);
    LastBlock(s, rateWords, Flat(rest), |rest|, tail);
  }

  /** The sponge on whole blocks and a last, shorter one. */
  lemma SpongeEnds(f: Permutation, rate: nat, s: State, blocks: seq<bv8>, k: nat, last: seq<bv8>)
    requires 0 < rate <= 200 && |blocks| == rate * k && |last| < rate
    ensures Absorb(f, rate, s, blocks + last + Pad(rate, |blocks + last|))
         == f(XorAt(Absorb(f, rate, s, blocks), 0, last + PadBytes(rate - |last|)))
  {
    var p := PadBytes(rate - |last|);
    PadLast(rate, k, |blocks + last|, |last|);
    AbsorbLast(f, rate, s, blocks, last + p, k);
    assert blocks + last + p == blocks + (last + p);
  }

  lemma FinishBlocks(f: Permutation, rateWords: nat, blocks: seq<Word>, k: nat, rest: seq<Word>, tail: seq<bv8>)
    requires |rest| < rateWords <= 25 && |tail| < 8 && |blocks| == rateWords * k
    ensures var msg := Flat(blocks) + (Flat(rest) + tail);
            f(Finished(AbsorbWords(f, rateWords, START, blocks + rest), tail, rateWords))
            == Absorb(f, 8 * rateWords, ZERO, msg + Pad(8 * rateWords, |msg|))
  {
    WordsAreBlocks(f, rateWords, ZERO, blocks, k);
    FinishLast(f, rateWords, blocks, rest, tail, Absorb(f, 8 * rateWords, ZERO, Flat(blocks)));
    var last := Flat(rest) + tail;
    MulAssoc(8, rateWords, k);
    SpongeEnds(f, 8 * rateWords, ZERO, Flat(blocks), k, last);
  }

  /** Absorbing a whole message word by word and finishing it is the sponge's absorbing phase on
      the padded message. */
  lemma FinishIsSponge(f: Permutation, rateWords: nat, ws: seq<Word>, tail: seq<bv8>)
    requires 0 < rateWords <= 25 && |tail| < 8
    ensures var msg := Flat(ws) + tail;
            f(Finished(AbsorbWords(f, rateWords, START, ws), tail, rateWords))
            == Absorb(f, 8 * rateWords, ZERO, msg + Pad(8 * rateWords, |msg|))
  {
    var blocks, k, rest := SplitWords(rateWords, ws, tail);
    FinishBlocks(f, rateWords, blocks, k, rest, tail);
  }

  lemma SplitWords(rateWords: nat, ws: seq<Word>, tail: seq<bv8>)
    returns (blocks: seq<Word>, k: nat, rest: seq<Word>)
    requires 0 < rateWords
    ensures ws == blocks + rest && |blocks| == rateWords * k && |rest| < rateWords
    ensures Flat(ws) + tail == Flat(blocks) + (Flat(rest) + tail)
  {
    var r;
    k, r := Divide(|ws|, rateWords);
    MulMono(rateWords, 0, k);
    blocks, rest := ws[..|ws| - r], ws[|ws| - r..];
    assert ws == blocks + rest;
    FlatSplit(blocks, rest, tail);
  }

  lemma FlatSplit(a: seq<Word>, b: seq<Word>, tail: seq<bv8>)
    ensures Flat(a + b) + tail == Flat(a) + (Flat(b) + tail)
  {
    FlatJoin(a, b);
    Reassociate(Flat(a), Flat(b), tail);
  }

  lemma Reassociate(a: seq<bv8>, b: seq<bv8>, c: seq<bv8>)
    ensures (a + b) + c == a + (b + c)
  {
  }

  // ---- the context itself

  /** `sha3_context`. The union `u` is its 200 bytes. `words` and `tail` are everything fed in so
      far: the words already in the state and the bytes waiting in `saved`. */
  class Sha3Context {
    const f: Permutation
    const sb: array<bv8>
    var saved: Word
    var byteIndex: nat
    var wordIndex: nat
    var capacityWords: nat
    ghost var words: seq<Word>
    ghost var tail: seq<bv8>

    ghost predicate Shape()
      reads this
    {
      sb.Length == 200 && capacityWords < 25 && wordIndex < 25 - capacityWords
    }

    /** The state is that of absorbing `words`. */
    ghost predicate HoldsWords()
      reads `wordIndex, `capacityWords, `words, sb
    {
      && sb.Length == 200 && capacityWords < 25 && wordIndex < 25 - capacityWords
      && Cursor(sb[..], wordIndex) == AbsorbWords(f, 25 - capacityWords, START, words)
    }

    /** `tail` waits in `saved`. */
    ghost predicate HoldsTail()
      reads `saved, `byteIndex, `tail
    {
      |tail| < 8 && saved == Saved(tail) && byteIndex == |tail|
    }

    ghost predicate Valid()
      reads this, sb
    {
      HoldsWords() && HoldsTail()
    }

    /** The message fed in so far. */
    ghost function Absorbed(): seq<bv8>
      reads this
    {
      Flat(words) + tail
    }

    /** `kec_init`: an all-zero context with capacity twice the digest. */
    constructor (f: Permutation, bitSize: nat)
      requires bitSize < 800
      ensures Valid() && fresh(sb)
      ensures this.f == f && capacityWords == 2 * bitSize / 64 && Absorbed() == []
    {
      this.f := f;
      sb := new bv8[200](_ => 0);
      saved := Zeros(8);
      byteIndex, wordIndex := 0, 0;
      capacityWords := 2 * bitSize / 64;
      words, tail := [], [];
      new;
      assert sb[..] == ZERO;
    }

    /** `u.s[off / 8] ^= word` */
    method XorWord(off: nat, word: Word)
      requires sb.Length == 200 && off + 8 <= 200
      modifies sb
      ensures sb[..] == XorAt(old(sb[..]), off, word)
    {
      var k := 0;
      while k < 8
        invariant 0 <= k <= 8
        invariant forall j | 0 <= j < 200 ::
                    sb[j] == if off <= j < off + k then old(sb[j]) ^ word[j - off] else old(sb[j])
      {
        sb[off + k] := sb[off + k] ^ word[k];
        k := k + 1;
      }
      forall j | 0 <= j < 200 ensures sb[..][j] == XorAt(old(sb[..]), off, word)[j] {
        XorAtIndex(old(sb[..]), off, word, j);
      }
    }

    /** `keccakf(u.s)` */
    method Permute()
      requires sb.Length == 200
      modifies sb
      ensures sb[..] == f(old(sb[..]))
    {
      var r := f(sb[..]);
      forall j | 0 <= j < 200 { sb[j] := r[j]; }
    }

    /** One turn of the word loop of `kec_update`. */
    method AbsorbOne(word: Word)
      requires Shape()
      modifies this`wordIndex, sb
      ensures Shape()
      ensures Cursor(sb[..], wordIndex)
           == AbsorbWord(f, 25 - capacityWords, Cursor(old(sb[..]), old(wordIndex)), word)
    {
      XorWord(8 * wordIndex, word);
      wordIndex := wordIndex + 1;
      if wordIndex == 25 - capacityWords {
        Permute();
        wordIndex := 0;
      }
    }

    method Feed(word: Word)
      requires HoldsWords()
      modifies this`wordIndex, this`words, sb
      ensures HoldsWords() && words == old(words) + [word]
    {
      AbsorbMore(f, 25 - capacityWords, words, word);
      AbsorbOne(word);
      words := words + [word];
    }

    /** The whole words of `buf`. */
    method AbsorbAll(buf: seq<bv8>)
      requires HoldsWords()
      modifies this`wordIndex, this`words, sb
      ensures HoldsWords() && Flat(words) == old(Flat(words)) + buf[..8 * (|buf| / 8)]
    {
      var n := |buf| / 8;
      var i := 0;
      while i < n
        invariant 0 <= i <= n && HoldsWords()
        invariant Flat(words) == old(Flat(words)) + buf[..8 * i]
      {
        FlatMore(words, buf[8 * i..8 * i + 8]);
        Feed(buf[8 * i..8 * i + 8]);
        TakeMore(buf, 8 * i, 8);
        i := i + 1;
      }
    }

    /** `saved |= b << 8*byteIndex++` for each byte. */
    method Save(bytes: seq<bv8>)
      requires HoldsTail() && |tail| + |bytes| < 8
      modifies this`saved, this`byteIndex, this`tail
      ensures HoldsTail() && tail == old(tail) + bytes
    {
      var k := 0;
      while k < |bytes|
        invariant 0 <= k <= |bytes| && HoldsTail() && tail == old(tail) + bytes[..k]
      {
        SaveOne(bytes[k]);
        k := k + 1;
      }
    }

    method SaveOne(b: bv8)
      requires HoldsTail() && |tail| < 7
      modifies this`saved, this`byteIndex, this`tail
      ensures HoldsTail() && tail == old(tail) + [b]
    {
      SavedMore(tail, b);
      saved := saved[byteIndex := saved[byteIndex] | b];
      byteIndex := byteIndex + 1;
      tail := tail + [b];
    }

    /** `kec_update`. The carry loop never lowers its counter `old_tail`, so once entered it does
        not end; `done` is false exactly then. Otherwise all of `buf` has been absorbed. */
    method Update(buf: seq<bv8>) returns (done: bool)
      requires Valid()
      modifies this`saved, this`byteIndex, this`wordIndex, this`words, this`tail, sb
      ensures Valid()
      ensures done <==> old(byteIndex) == 0 || old(byteIndex) + |buf| < 8
      ensures done ==> Absorbed() == old(Absorbed()) + buf
    {
      var oldTail := (8 - byteIndex) % 8;
      if |buf| < oldTail {
        Save(buf);
        return true;
      }
      if oldTail != 0 {
        return false;
      }
      var n := 8 * (|buf| / 8);
      AbsorbAll(buf);
      Save(buf[n..]);
      Rejoin(old(Flat(words)), buf, n);
      done := true;
    }

    /** `saved ^ (1 << 8*byteIndex)` */
    method Marked() returns (t: Word)
      requires Valid()
      ensures t == Saved(tail + [0x01])
    {
      assert saved[byteIndex] == 0;
      t := saved[byteIndex := saved[byteIndex] ^ 0x01];
    }

    /** `kec_finalize`: both pad bits, then the last permutation. The state is then the sponge's
        after absorbing the padded message. */
    method Finalize()
      requires Valid()
      modifies sb
      ensures var rate := 8 * (25 - capacityWords);
              sb[..] == Absorb(f, rate, ZERO, Absorbed() + Pad(rate, |Absorbed()|))
    {
      ghost var c, rw := Cursor(sb[..], wordIndex), 25 - capacityWords;
      ghost var goal := Absorb(f, 8 * rw, ZERO, Absorbed() + Pad(8 * rw, |Absorbed()|));
      assert f(Finished(c, tail, rw)) == goal by {
        FinishIsSponge(f, rw, words, tail);
      }
      FinishRaw();
      assert sb[..] == goal;
    }

    method FinishRaw()
      requires Valid()
      modifies sb
      ensures sb[..] == f(Finished(Cursor(old(sb[..]), wordIndex), tail, 25 - capacityWords))
    {
      ghost var c := Cursor(sb[..], wordIndex);
      var t := Marked();
      XorWord(8 * wordIndex, t);
      XorWord(8 * (25 - capacityWords) - 8, [0, 0, 0, 0, 0, 0, 0, 0x80]);
      assert sb[..] == Finished(c, tail, 25 - capacityWords);
      Permute();
    }
  }

  lemma {:induction false} XorZeroState(bs: seq<bv8>)
    requires |bs| <= 200
    ensures XorAt(ZERO, 0, bs) == bs + Zeros(200 - |bs|)
  {
    forall j | 0 <= j < 200 ensures XorAt(ZERO, 0, bs)[j] == (bs + Zeros(200 - |bs|))[j] {
      XorAtIndex(ZERO, 0, bs, j);
      if j < |bs| {
        assert 0 ^ bs[j] == bs[j];
      }
    }
  }

  /** A message shorter than the rate is hashed by one permutation, of the message, its padding and zeros for the
      capacity. */
  lemma HashShort(f: Permutation, rate: nat, msg: seq<bv8>, d: nat)
    requires |msg| < rate <= 200 && d <= rate
    ensures Hash(f, rate, msg, d) == f(msg + PadBytes(rate - |msg|) + Zeros(200 - rate))[..d]
  {
    var block := msg + PadBytes(rate - |msg|);
    PadLast(rate, 0, |msg|, |msg|);
    HashOneBlock(f, rate, msg, d);
    assert block == block + [];
    AbsorbStep(f, rate, ZERO, block, []);
    XorZeroState(block);
  }

  /** A digest no longer than the rate is the front of the state. */
  lemma HashOneBlock(f: Permutation, rate: nat, msg: seq<bv8>, d: nat)
    requires 0 < rate <= 200 && d <= rate
    ensures Hash(f, rate, msg, d) == Absorb(f, rate, ZERO, msg + Pad(rate, |msg|))[..d]
  {
  }

  /** `kec_HashBuffer`: for every message, the sponge at the rate that belongs to the digest size,
      cut to the digest. */
  method HashBuffer(f: Permutation, bitSize: nat, msg: seq<bv8>, outBytes: nat) returns (out: seq<bv8>)
    requires bitSize == 256 || bitSize == 512
    ensures out == Hash(f, 200 - bitSize / 4, msg, if outBytes > bitSize / 8 then bitSize / 8 else outBytes)
  {
    var size := if outBytes > bitSize / 8 then bitSize / 8 else outBytes;
    var state := AbsorbMessage(f, bitSize, msg);
    HashOneBlock(f, 200 - bitSize / 4, msg, size);
    out := state[..size];
  }

  /** A context from beginning to end. */
  method AbsorbMessage(f: Permutation, bitSize: nat, msg: seq<bv8>) returns (state: State)
    requires bitSize == 256 || bitSize == 512
    ensures var rate := 200 - bitSize / 4; state == Absorb(f, rate, ZERO, msg + Pad(rate, |msg|))
  {
    var c := new Sha3Context(f, bitSize);
    var done := c.Update(msg);
    assert c.Absorbed() == msg;
    c.Finalize();
    state := c.sb[..];
  }

  // ---- chunked absorption

  /** The carry loop of `kec_update` after `n` turns, by its counter and its byte index. */
  datatype Carry = Carry(oldTail: nat, byteIndex: nat)

  function CarryAfter(c: Carry, n: nat): Carry
    decreases n
  {
    if n == 0 || c.oldTail == 0 then c else CarryAfter(c.(byteIndex := c.byteIndex + 1), n - 1)
  }

  /** Entered once, the loop is never left: after any number of turns its guard still holds. */
  lemma {:induction false} CarryNeverEnds(c: Carry, n: nat)
    requires c.oldTail != 0
    ensures CarryAfter(c, n).oldTail == c.oldTail && CarryAfter(c, n).byteIndex == c.byteIndex + n
    decreases n
  {
    if n > 0 {
      CarryNeverEnds(c.(byteIndex := c.byteIndex + 1), n - 1);
    }
  }

  /** Words and pending bytes are determined by the message. */
  lemma {:induction false} FlatUnique(a: seq<Word>, s: seq<bv8>, b: seq<Word>, t: seq<bv8>)
    requires |s| < 8 && |t| < 8 && Flat(a) + s == Flat(b) + t
    ensures a == b && s == t
    decreases |a|
  {
    assert 8 * |a| + |s| == 8 * |b| + |t|;
    assert Flat(a) == (Flat(a) + s)[..8 * |a|] && s == (Flat(a) + s)[8 * |a|..];
    assert Flat(b) == (Flat(b) + t)[..8 * |b|] && t == (Flat(b) + t)[8 * |b|..];
    if a != [] {
      var n := |a| - 1;
      assert Flat(a)[..8 * n] == Flat(a[..n]) && Flat(b)[..8 * n] == Flat(b[..n]);
      assert Flat(a)[8 * n..] == a[n] && Flat(b)[8 * n..] == b[n];
      FlatUnique(a[..n], [], b[..n], []);
    }
  }

  /** Everything a context holds, apart from the ghost record of its input. */
  datatype View = View(saved: Word, state: seq<bv8>, byteIndex: nat, wordIndex: nat)

  ghost function ViewOf(c: Sha3Context): View
    reads c, c.sb
  {
    View(c.saved, c.sb[..], c.byteIndex, c.wordIndex)
  }

  /** Contexts of one kind that absorbed the same message hold the same, however it was cut. */
  lemma SameMessageSameContext(c: Sha3Context, d: Sha3Context)
    requires c.Valid() && d.Valid() && c.f == d.f && c.capacityWords == d.capacityWords
    requires c.Absorbed() == d.Absorbed()
    ensures ViewOf(c) == ViewOf(d)
  {
    FlatUnique(c.words, c.tail, d.words, d.tail);
  }

  /** Every chunk starts on a word boundary, or ends before the word it starts in does. */
  predicate Chunkable(chunks: seq<seq<bv8>>) {
    forall i | 0 <= i < |chunks| :: FitsAt(chunks, i)
  }

  predicate FitsAt(chunks: seq<seq<bv8>>, i: nat)
    requires i < |chunks|
  {
    Fits(|Concat(chunks[..i])|, |chunks[i]|)
  }

  predicate Fits(before: nat, len: nat) {
    before % 8 == 0 || before % 8 + len < 8
  }

  lemma Pending(words: seq<Word>, tail: seq<bv8>)
    requires |tail| < 8
    ensures |Flat(words) + tail| % 8 == |tail|
  {
  }

  lemma ConcatNext(chunks: seq<seq<bv8>>, i: nat)
    requires i < |chunks|
    ensures Concat(chunks[..i + 1]) == Concat(chunks[..i]) + chunks[i]
  {
    assert chunks[..i + 1][..i] == chunks[..i];
  }

  /** One more chunk. */
  method UpdateNext(c: Sha3Context, ghost before: seq<bv8>, chunk: seq<bv8>) returns (done: bool)
    requires c.Valid() && c.Absorbed() == before
    modifies c`saved, c`byteIndex, c`wordIndex, c`words, c`tail, c.sb
    ensures done <==> Fits(|before|, |chunk|)
    ensures done ==> c.Valid() && c.Absorbed() == before + chunk
  {
    Pending(c.words, c.tail);
    done := c.Update(chunk);
  }

  /** Any sequence of updates ends, and then has absorbed the concatenation as one update would,
      exactly when the chunks are `Chunkable`. */
  method UpdateAll(c: Sha3Context, chunks: seq<seq<bv8>>) returns (done: bool)
    requires c.Valid() && c.Absorbed() == []
    modifies c`saved, c`byteIndex, c`wordIndex, c`words, c`tail, c.sb
    ensures done <==> Chunkable(chunks)
    ensures done ==> c.Valid() && c.Absorbed() == Concat(chunks)
  {
    var i := 0;
    while i < |chunks|
      invariant 0 <= i <= |chunks| && c.Valid() && c.Absorbed() == Concat(chunks[..i])
      invariant forall j | 0 <= j < i :: FitsAt(chunks, j)
    {
      var ok := UpdateNext(c, Concat(chunks[..i]), chunks[i]);
      assert ok <==> FitsAt(chunks, i);
      if !ok {
        return false;
      }
      ConcatNext(chunks, i);
      i := i + 1;
    }
    assert chunks[..i] == chunks;
    done := true;
  }

  /** Chunked absorption leaves exactly the context of one update on the concatenation. */
  method ChunkedAgreesWithOne(f: Permutation, bitSize: nat, chunks: seq<seq<bv8>>)
    returns (done: bool, c: Sha3Context, d: Sha3Context)
    requires bitSize < 800
    ensures done <==> Chunkable(chunks)
    ensures done ==> ViewOf(c) == ViewOf(d) && d.Absorbed() == Concat(chunks)
    ensures done ==> c.wordIndex < 25 - 2 * bitSize / 64
  {
    c := new Sha3Context(f, bitSize);
    d := new Sha3Context(f, bitSize);
    done := UpdateAll(c, chunks);
    var whole := UpdateNext(d, [], Concat(chunks));
    if done {
      assert [] + Concat(chunks) == Concat(chunks);
      SameMessageSameContext(c, d);
    }
  }
}
