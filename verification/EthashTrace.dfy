/** Ethash word by word: what `libethash-fpga/fpga_ethash.cpp` computes, said of the words themselves and of the
    whole sequence of intermediate nodes and mixes. A result is right exactly when there is such a sequence. */
module EthashTrace {
  import opened Arith
  import opened Ethash

  /** `fnv_hash` bit by bit: the product with the prime modulo 2^32, exclusive or the second word. */
  lemma FnvIsBitwise(x: U32, y: U32, i: nat)
    requires i < 32
    ensures Bit(Fnv(x, y), i) == (Bit((x * 0x01000193) % 0x1_0000_0000, i) + Bit(y, i)) % 2
  {
    XorIsBitwise((x * 0x01000193) % 0x1_0000_0000, y, 32, i);
  }

  // ---- a dataset item

  /** The cache node that is parent `i` of a node. */
  ghost function Parent(k: Primitives, cache: seq<Node>, index: U32, i: nat, node: Node): Node
    requires cache != [] && i < 256
  {
    var x := k.fnv(k.xor(index, i), node[i % 16]);
    ModBound(x, |cache|);
    cache[x % |cache|]
  }

  /** `b` is `a` with parent `i` mixed into every word. */
  ghost predicate ItemStep(k: Primitives, cache: seq<Node>, index: U32, i: nat, a: Node, b: Node)
    requires cache != [] && i < 256
  {
    forall w | 0 <= w < 16 :: b[w] == k.fnv(a[w], Parent(k, cache, index, i, a)[w])
  }

  ghost predicate ItemStepAt(k: Primitives, cache: seq<Node>, index: U32, t: seq<Node>, i: nat)
    requires cache != [] && |t| == 257 && i < 256
  {
    ItemStep(k, cache, index, i, t[i], t[i + 1])
  }

  /** The node the item starts from: a cache node with the index in its first word, hashed. */
  ghost function ItemStart(k: Primitives, cache: seq<Node>, index: U32): Node
    requires cache != []
  {
    ModBound(index, |cache|);
    var init := cache[index % |cache|];
    k.h512([k.xor(init[0], index)] + init[1..])
  }

  /** The item with all its intermediate nodes. */
  ghost predicate ItemTrace(k: Primitives, cache: seq<Node>, index: U32, t: seq<Node>, item: Node)
    requires cache != []
  {
    && |t| == 257 && t[0] == ItemStart(k, cache, index)
    && (forall i | 0 <= i < 256 :: ItemStepAt(k, cache, index, t, i))
    && item == k.h512(t[256])
  }

  /** Some sequence of intermediate nodes leads to `item`. */
  ghost predicate IsItem(k: Primitives, cache: seq<Node>, index: U32, item: Node)
    requires cache != []
  {
    exists t :: ItemTrace(k, cache, index, t, item)
  }

  lemma StartIs(k: Primitives, cache: seq<Node>, index: U32)
    requires cache != []
    ensures DagItem(k, cache, index) == k.h512(MixParents(k, cache, index, ItemStart(k, cache, index), 256))
  {
    var init := cache[Reduce(index, |cache|)];
    assert init[0 := k.xor(init[0], index)] == [k.xor(init[0], index)] + init[1..];
  }

  lemma MixStep(k: Primitives, cache: seq<Node>, index: U32, start: Node, i: nat)
    requires cache != [] && i < 256
    ensures ItemStep(k, cache, index, i, MixParents(k, cache, index, start, i), MixParents(k, cache, index, start, i + 1))
  {
  }

  lemma StepUnique(k: Primitives, cache: seq<Node>, index: U32, i: nat, a: Node, b: Node, c: Node)
    requires cache != [] && i < 256 && ItemStep(k, cache, index, i, a, b) && ItemStep(k, cache, index, i, a, c)
    ensures b == c
  {
    forall w | 0 <= w < 16 ensures b[w] == c[w] {
    }
  }

  lemma {:induction false} TraceIsMix(k: Primitives, cache: seq<Node>, index: U32, t: seq<Node>, n: nat)
    requires cache != [] && |t| == 257 && n <= 256
    requires forall i | 0 <= i < 256 :: ItemStepAt(k, cache, index, t, i)
    ensures t[n] == MixParents(k, cache, index, t[0], n)
    decreases n
  {
    if n > 0 {
      TraceIsMix(k, cache, index, t, n - 1);
      assert ItemStepAt(k, cache, index, t, n - 1);
      MixStep(k, cache, index, t[0], n - 1);
      StepUnique(k, cache, index, n - 1, t[n - 1], t[n], MixParents(k, cache, index, t[0], n));
    }
  }

  lemma BuildItemTrace(k: Primitives, cache: seq<Node>, index: U32, n: nat) returns (t: seq<Node>)
    requires cache != [] && n <= 256
    ensures |t| == n + 1 && forall i | 0 <= i <= n :: t[i] == MixParents(k, cache, index, ItemStart(k, cache, index), i)
    decreases n
  {
    var start := ItemStart(k, cache, index);
    if n == 0 {
      t := [start];
    } else {
      t := BuildItemTrace(k, cache, index, n - 1);
      t := t + [MixParents(k, cache, index, start, n)];
    }
  }

  lemma ItemHasTrace(k: Primitives, cache: seq<Node>, index: U32) returns (t: seq<Node>)
    requires cache != []
    ensures ItemTrace(k, cache, index, t, DagItem(k, cache, index))
  {
    t := BuildItemTrace(k, cache, index, 256);
    forall i | 0 <= i < 256 ensures ItemStepAt(k, cache, index, t, i) {
      MixStep(k, cache, index, t[0], i);
    }
    StartIs(k, cache, index);
  }

  /** A node is dataset item `index` if and only if a sequence of intermediate nodes leads to it. */
  lemma ItemIff(k: Primitives, cache: seq<Node>, index: U32, item: Node)
    requires cache != []
    ensures item == DagItem(k, cache, index) <==> IsItem(k, cache, index, item)
  {
    if item == DagItem(k, cache, index) {
      var t := ItemHasTrace(k, cache, index);
    }
    if t :| ItemTrace(k, cache, index, t, item) {
      TraceIsMix(k, cache, index, t, 256);
      StartIs(k, cache, index);
    }
  }

  // ---- the kernel's hash

  /** The dataset node that word `w` of the mix meets in access `i`. */
  ghost function NodeFor(k: Primitives, dag: seq<Node>, s0: U32, pages: nat, i: nat, mix: seq<U32>, w: nat): Node
    requires |mix| == 32 && 0 < 2 * pages <= |dag| && i < 64 && w < 32
  {
    var x := k.fnv(k.xor(s0, i), mix[i % 32]);
    ModBound(x, pages);
    dag[2 * (x % pages) + w / 16]
  }

  /** `b` is `a` with a page of two nodes mixed in: every word, with the word at the same place of the page. */
  ghost predicate HashStep(k: Primitives, dag: seq<Node>, s0: U32, pages: nat, i: nat, a: seq<U32>, b: seq<U32>)
    requires 0 < 2 * pages <= |dag| && i < 64
  {
    && |a| == 32 && |b| == 32
    && forall w | 0 <= w < 32 :: b[w] == k.fnv(a[w], NodeFor(k, dag, s0, pages, i, a, w)[w % 16])
  }

  ghost predicate HashStepAt(k: Primitives, dag: seq<Node>, s0: U32, pages: nat, t: seq<seq<U32>>, i: nat)
    requires 0 < 2 * pages <= |dag| && |t| == 65 && i < 64
  {
    HashStep(k, dag, s0, pages, i, t[i], t[i + 1])
  }

  /** The first mix repeats the seed hash. */
  ghost predicate FirstMix(s: Node, mix: seq<U32>) {
    |mix| == 32 && forall w | 0 <= w < 32 :: mix[w] == s[w % 16]
  }

  /** Every word of the digest is made of four words of the last mix. */
  ghost predicate Digested(k: Primitives, mix: seq<U32>, c: seq<U32>) {
    && |mix| == 32 && |c| == 8
    && forall j | 0 <= j < 8 ::
         c[j] == k.fnv(k.fnv(k.fnv(mix[4 * j], mix[4 * j + 1]), mix[4 * j + 2]), mix[4 * j + 3])
  }

  /** The hash with all its intermediate mixes. */
  ghost predicate HashTrace(k: Primitives, dag: seq<Node>, seed: seq<U32>, pages: nat, t: seq<seq<U32>>, ret: ReturnValue)
    requires 0 < 2 * pages <= |dag|
  {
    var s := k.h512(seed);
    && |t| == 65 && FirstMix(s, t[0])
    && (forall i | 0 <= i < 64 :: HashStepAt(k, dag, s[0], pages, t, i))
    && Digested(k, t[64], ret.mixHash) && ret.result == k.h256(s + ret.mixHash)
  }

  lemma AccessStep(k: Primitives, dag: seq<Node>, s0: U32, mix: seq<U32>, pages: nat, i: nat)
    requires |mix| == 32 && 0 < 2 * pages <= |dag| && i < 64
    ensures HashStep(k, dag, s0, pages, i, mix, Access(k, dag, s0, mix, pages, i))
  {
    var b := Access(k, dag, s0, mix, pages, i);
    forall w | 0 <= w < 32 ensures b[w] == k.fnv(mix[w], NodeFor(k, dag, s0, pages, i, mix, w)[w % 16]) {
      if w < 16 {
        assert w / 16 == 0 && w % 16 == w;
      } else {
        assert w / 16 == 1 && w % 16 == w - 16;
      }
    }
  }

  lemma HashStepUnique(k: Primitives, dag: seq<Node>, s0: U32, pages: nat, i: nat, a: seq<U32>, b: seq<U32>, c: seq<U32>)
    requires 0 < 2 * pages <= |dag| && i < 64
    requires HashStep(k, dag, s0, pages, i, a, b) && HashStep(k, dag, s0, pages, i, a, c)
    ensures b == c
  {
    forall w | 0 <= w < 32 ensures b[w] == c[w] {
    }
  }

  lemma {:induction false} TraceIsAccesses(k: Primitives, dag: seq<Node>, s0: U32, pages: nat, t: seq<seq<U32>>, n: nat)
    requires 0 < 2 * pages <= |dag| && |t| == 65 && n <= 64 && |t[0]| == 32
    requires forall i | 0 <= i < 64 :: HashStepAt(k, dag, s0, pages, t, i)
    ensures t[n] == Accesses(k, dag, s0, t[0], pages, n)
    decreases n
  {
    if n > 0 {
      TraceIsAccesses(k, dag, s0, pages, t, n - 1);
      assert HashStepAt(k, dag, s0, pages, t, n - 1);
      AccessStep(k, dag, s0, t[n - 1], pages, n - 1);
      HashStepUnique(k, dag, s0, pages, n - 1, t[n - 1], t[n], Access(k, dag, s0, t[n - 1], pages, n - 1));
    }
  }

  lemma FirstIsTwice(s: Node, mix: seq<U32>)
    ensures FirstMix(s, mix) <==> mix == Twice(s)
  {
    assert |Twice(s)| == 32 && forall w | 0 <= w < 32 :: Twice(s)[w] == s[w % 16];
    if FirstMix(s, mix) {
      assert forall w | 0 <= w < 32 :: mix[w] == Twice(s)[w];
    }
  }

  lemma DigestIsCompress(k: Primitives, mix: seq<U32>, c: seq<U32>)
    requires |mix| == 32
    ensures Digested(k, mix, c) <==> c == Compress(k, mix)
  {
    var d := Compress(k, mix);
    assert Digested(k, mix, d);
    if Digested(k, mix, c) {
      assert forall j | 0 <= j < 8 :: c[j] == d[j];
    }
  }

  lemma BuildHashTrace(k: Primitives, dag: seq<Node>, s: Node, pages: nat, n: nat) returns (t: seq<seq<U32>>)
    requires 0 < 2 * pages <= |dag| && n <= 64
    ensures |t| == n + 1 && forall i | 0 <= i <= n :: t[i] == Accesses(k, dag, s[0], Twice(s), pages, i)
    decreases n
  {
    if n == 0 {
      t := [Twice(s)];
    } else {
      t := BuildHashTrace(k, dag, s, pages, n - 1);
      t := t + [Accesses(k, dag, s[0], Twice(s), pages, n)];
    }
  }

  lemma HashHasTrace(k: Primitives, dag: seq<Node>, seed: seq<U32>, pages: nat) returns (t: seq<seq<U32>>)
    requires 0 < 2 * pages <= |dag|
    ensures HashTrace(k, dag, seed, pages, t, Hashimoto(k, dag, seed, pages))
  {
    var s := k.h512(seed);
    t := BuildHashTrace(k, dag, s, pages, 64);
    FirstIsTwice(s, t[0]);
    forall i | 0 <= i < 64 ensures HashStepAt(k, dag, s[0], pages, t, i) {
      AccessStep(k, dag, s[0], t[i], pages, i);
      assert t[i + 1] == Accesses(k, dag, s[0], Twice(s), pages, i + 1);
    }
    DigestIsCompress(k, t[64], Compress(k, t[64]));
  }

  lemma TraceIsHash(k: Primitives, dag: seq<Node>, seed: seq<U32>, pages: nat, t: seq<seq<U32>>, ret: ReturnValue)
    requires 0 < 2 * pages <= |dag| && HashTrace(k, dag, seed, pages, t, ret)
    ensures ret == Hashimoto(k, dag, seed, pages)
  {
    var s := k.h512(seed);
    FirstIsTwice(s, t[0]);
    TraceIsAccesses(k, dag, s[0], pages, t, 64);
    DigestIsCompress(k, t[64], ret.mixHash);
  }

  /** A result is the hash of a seed over a dataset if and only if a sequence of intermediate mixes leads to it. */
  lemma HashIff(k: Primitives, dag: seq<Node>, seed: seq<U32>, pages: nat, ret: ReturnValue)
    requires 0 < 2 * pages <= |dag|
    ensures ret == Hashimoto(k, dag, seed, pages) <==> exists t :: HashTrace(k, dag, seed, pages, t, ret)
  {
    if ret == Hashimoto(k, dag, seed, pages) {
      var t := HashHasTrace(k, dag, seed, pages);
    }
    if t :| HashTrace(k, dag, seed, pages, t, ret) {
      TraceIsHash(k, dag, seed, pages, t, ret);
    }
  }

  /** The nodes of a dataset, each with its trace. */
  ghost predicate IsDataset(k: Primitives, cache: seq<Node>, dag: seq<Node>)
    requires cache != [] && |dag| <= TWO32
  {
    forall j | 0 <= j < |dag| :: IsItem(k, cache, j, dag[j])
  }

  lemma DagIsDataset(k: Primitives, cache: seq<Node>, n: nat)
    requires cache != [] && n <= TWO32
    ensures IsDataset(k, cache, Dag(k, cache, n))
  {
    var dag := Dag(k, cache, n);
    forall j | 0 <= j < |dag| ensures IsItem(k, cache, j, dag[j]) {
      DagAt(k, cache, n, j);
      var t := ItemHasTrace(k, cache, j);
    }
  }

  /** The kernel without a table: for any cache, size and seed it accepts, its result is the last of a sequence of
      mixes over pages whose nodes are each the last of a sequence of nodes over the cache. */
  method HashFromCache(k: Primitives, cache: seq<Node>, fullSize: nat, seed: seq<U32>)
    returns (ret: Option<ReturnValue>, ghost dag: seq<Node>, ghost t: seq<seq<U32>>)
    requires MIX_BYTES <= fullSize && fullSize / HASH_BYTES < TWO32 && cache != []
    ensures ret.None? <==> fullSize % 32 != 0
    ensures ret.Some? ==> |dag| == 2 * (fullSize / MIX_BYTES) && |dag| <= TWO32 && IsDataset(k, cache, dag)
    ensures ret.Some? ==> HashTrace(k, dag, seed, fullSize / MIX_BYTES, t, ret.value)
  {
    dag, t := [], [];
    ret := KrnlEthash(k, None, cache, fullSize, seed);
    if ret.Some? {
      dag := Dag(k, cache, 2 * (fullSize / MIX_BYTES));
      DagIsDataset(k, cache, |dag|);
      t := HashHasTrace(k, dag, seed, fullSize / MIX_BYTES);
    }
  }
}
