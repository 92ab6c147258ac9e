/** Ethash as `libethash-fpga/fpga_ethash.cpp` computes it: dataset items from the light cache, the
    full dataset, and the search kernel's hash, from either. A `hash_node` and the mix are flat
    arrays of `uint32_t` words; the two Keccak digests are parameters. */
module Ethash {
  import opened Arith

  const NODE_WORDS: nat := 16
  const MIX_WORDS: nat := 32
  const MIX_NODES: nat := 2
  const HASH_BYTES: nat := 64
  const MIX_BYTES: nat := 128
  const DATASET_PARENTS: nat := 256
  const ACCESSES: nat := 64
  const FNV_PRIME: nat := 0x01000193

  /** `uint32_t` */
  type U32 = x: int | 0 <= x < 0x1_0000_0000

  type Node = n: seq<U32> | |n| == 16 witness seq(16, _ => 0)
  type Digest256 = d: seq<U32> | |d| == 8 witness seq(8, _ => 0)

  /** What the algorithms are built from: `kec_HashBuffer(512, ...)` and `kec_HashBuffer(256, ...)` on
      whole words, `fnv_hash`, and `^`. `Standard` fills in the last two. */
  datatype Primitives = Primitives(
    h512: seq<U32> -> Node,
    h256: seq<U32> -> Digest256,
    fnv: (U32, U32) -> U32,
    xor: (U32, U32) -> U32)

  function Standard(h512: seq<U32> -> Node, h256: seq<U32> -> Digest256): Primitives {
    Primitives(h512, h256, Fnv, Xor)
  }

  datatype ReturnValue = ReturnValue(mixHash: seq<U32>, result: seq<U32>)

  /** Exclusive or of the low `bits` bits. */
  function XorBits(x: nat, y: nat, bits: nat): (r: nat)
    ensures r < Pow2(bits)
    decreases bits, x
  {
    if bits == 0 then 0 else (x % 2 + y % 2) % 2 + 2 * XorBits(x / 2, y / 2, bits - 1)
  }

  function Bit(x: nat, i: nat): nat
    decreases i
  {
    if i == 0 then x % 2 else Bit(x / 2, i - 1)
  }

  /** `XorBits` is exclusive or, bit by bit. */
  lemma {:induction false} XorIsBitwise(x: nat, y: nat, bits: nat, i: nat)
    requires i < bits
    ensures Bit(XorBits(x, y, bits), i) == (Bit(x, i) + Bit(y, i)) % 2
    decreases bits
  {
    if i > 0 {
      XorIsBitwise(x / 2, y / 2, bits - 1, i - 1);
    }
  }

  lemma Pow2Of32()
    ensures Pow2(32) == TWO32
  {
    assert Pow2(8) == 256;
    assert Pow2(16) == 0x1_0000;
    assert Pow2(24) == 0x100_0000;
  }

  function Xor(x: U32, y: U32): U32 {
    Pow2Of32();
    XorBits(x, y, 32)
  }

  function Fnv(x: U32, y: U32): U32 {
    Xor((x * FNV_PRIME) % TWO32, y)
  }

  /** A 32-bit unsigned value reduced to an index. */
  function Reduce(x: U32, n: nat): (i: nat)
    requires n > 0
    ensures i < n
  {
    ModBound(x, n);
    x % n
  }

  // ---- the dataset

  function FnvAt(k: Primitives, a: Node, b: Node, w: nat): U32
    requires w < 16
  {
    k.fnv(a[w], b[w])
  }

  /** Word-wise FNV of two nodes. */
  function FnvNode(k: Primitives, a: Node, b: Node): Node {
    seq(16, w requires 0 <= w < 16 => FnvAt(k, a, b, w))
  }

  /** A node after its first `n` parents have been mixed in. */
  function MixParents(k: Primitives, cache: seq<Node>, index: U32, start: Node, n: nat): Node
    requires cache != [] && n <= DATASET_PARENTS
    decreases n, start
  {
    if n == 0 then start
    else
      var node := MixParents(k, cache, index, start, n - 1);
      FnvNode(k, node, cache[Reduce(k.fnv(k.xor(index, n - 1), node[(n - 1) % 16]), |cache|)])
  }

  /** Dataset item `index`. */
  function DagItem(k: Primitives, cache: seq<Node>, index: U32): Node
    requires cache != []
  {
    var init := cache[Reduce(index, |cache|)];
    k.h512(MixParents(k, cache, index, k.h512(init[0 := k.xor(init[0], index)]), DATASET_PARENTS))
  }

  /** The first `n` dataset items. */
  function Dag(k: Primitives, cache: seq<Node>, n: nat): (r: seq<Node>)
    requires cache != [] && n <= TWO32
    ensures |r| == n
  {
    if n == 0 then [] else Dag(k, cache, n - 1) + [DagItem(k, cache, n - 1)]
  }

  /** Item `i` of a dataset does not depend on the dataset's size. */
  lemma {:induction false} DagAt(k: Primitives, cache: seq<Node>, n: nat, i: nat)
    requires cache != [] && i < n <= TWO32
    ensures Dag(k, cache, n)[i] == DagItem(k, cache, i)
    decreases n
  {
    if i < n - 1 {
      DagAt(k, cache, n - 1, i);
    }
  }

  lemma {:induction false} DagPrefix(k: Primitives, cache: seq<Node>, m: nat, n: nat)
    requires cache != [] && m <= n <= TWO32
    ensures Dag(k, cache, n)[..m] == Dag(k, cache, m)
    decreases n
  {
    if m < n {
      DagPrefix(k, cache, m, n - 1);
      assert Dag(k, cache, n)[..m] == Dag(k, cache, n - 1)[..m];
    }
  }

  /** `words[w] = fnv_hash(words[w], node->words[w])` for the sixteen words from `off` on. */
  method FnvInto(k: Primitives, words: array<U32>, off: nat, node: Node)
    requires off + 16 <= words.Length
    modifies words
    ensures words[off..off + 16] == FnvNode(k, old(words[off..off + 16]), node)
    ensures forall j | 0 <= j < words.Length && !(off <= j < off + 16) :: words[j] == old(words[j])
  {
    var w := 0;
    while w != NODE_WORDS
      invariant 0 <= w <= 16
      invariant forall j | 0 <= j < words.Length ::
                  words[j] == if off <= j < off + w then k.fnv(old(words[j]), node[j - off]) else old(words[j])
    {
      words[off + w] := k.fnv(words[off + w], node[w]);
      w := w + 1;
    }
  }

  /** `compute_dag_item`: the node is built up in place. */
  method ComputeDagItem(k: Primitives, cache: seq<Node>, index: U32) returns (item: Node)
    requires cache != []
    ensures item == DagItem(k, cache, index)
  {
    var init := cache[Reduce(index, |cache|)];
    var start := k.h512(init[0 := k.xor(init[0], index)]);
    var ret := new U32[16](w requires 0 <= w < 16 => start[w]);
    assert ret[..] == start;
    var i := 0;
    while i != DATASET_PARENTS
      invariant 0 <= i <= DATASET_PARENTS
      invariant ret[..] == MixParents(k, cache, index, start, i)
    {
      var parent := Reduce(k.fnv(k.xor(index, i), ret[i % 16]), |cache|);
      ghost var node: Node := ret[..];
      FnvInto(k, ret, 0, cache[parent]);
      assert ret[..] == ret[0..16] && node == node[0..16];
      i := i + 1;
    }
    item := k.h512(ret[..]);
  }

  /** Whether the loop of `compute_full_dag` asks the callback before item `n`. */
  predicate Polled(maxN: nat, n: nat)
    requires maxN >= 100
  {
    n % (maxN / 100) == 0
  }

  /** The callback is asked before the first item and then every so many, `maxN / 100`, and never in between. */
  lemma PolledEvery(maxN: nat, n: nat, d: nat)
    requires maxN >= 100
    ensures Polled(maxN, 0) && (Polled(maxN, n) ==> Polled(maxN, n + maxN / 100))
    ensures Polled(maxN, n) && 0 < d < maxN / 100 ==> !Polled(maxN, n + d)
  {
    var c := maxN / 100;
    MultipleMod(c, 0);
    AddMultiple(n, c, 1);
    if Polled(maxN, n) && 0 < d < c {
      ModBound(n, c);
      DivModUnique(n + d, c, n / c, d);
    }
  }

  /** `progress_change` and `progress` before item `n`, with exact arithmetic. */
  function Change(maxN: nat): real {
    if maxN == 0 then 0.0 else 1.0 / maxN as real
  }

  function Progress(maxN: nat, n: nat): real {
    if n == 0 then 0.0 else Progress(maxN, n - 1) + Change(maxN)
  }

  /** The per cent the callback is told, rounded up. */
  function Percent(progress: real): int {
    -(-progress * 100.0).Floor
  }

  /** It is the share of items done. */
  lemma {:induction false} ProgressIsShare(maxN: nat, n: nat)
    ensures Progress(maxN, n) == n as real * Change(maxN)
    decreases n
  {
    if n > 0 {
      ProgressIsShare(maxN, n - 1);
    }
  }

  /** So it goes from 0 to 100. */
  lemma PercentRange(maxN: nat, n: nat)
    requires 0 < maxN && n <= maxN
    ensures 0 <= Percent(Progress(maxN, n)) <= 100 && (n == maxN ==> Percent(Progress(maxN, n)) == 100)
    ensures var share := n as real * (1.0 / maxN as real);
            (Percent(Progress(maxN, n)) - 1) as real < share * 100.0 <= Percent(Progress(maxN, n)) as real
  {
    ProgressIsShare(maxN, n);
    Share(n as real, maxN as real, Change(maxN));
  }

  lemma Share(n: real, m: real, c: real)
    requires 0.0 <= n <= m && 0.0 < c && m * c == 1.0
    ensures 0.0 <= n * c <= 1.0 && (n == m ==> n * c == 1.0)
  {
  }

  /** `compute_full_dag`. It stops early only at an item where the callback, asked with the progress
      so far, refuses; otherwise the table is the whole dataset. */
  method ComputeFullDag(k: Primitives, mem: array<Node>, fullSize: nat, cache: seq<Node>,
                        callback: Option<int -> bool>)
    returns (ok: bool, done: nat)
    requires cache != [] && fullSize / HASH_BYTES < TWO32 && fullSize / HASH_BYTES <= mem.Length
    requires callback.Some? ==> fullSize / HASH_BYTES == 0 || fullSize / HASH_BYTES >= 100
    modifies mem
    ensures fullSize % MIX_BYTES != 0 ==> !ok && done == 0
    ensures done <= fullSize / HASH_BYTES && mem[..done] == Dag(k, cache, done)
    ensures forall j | done <= j < mem.Length :: mem[j] == old(mem[j])
    ensures ok ==> done == fullSize / HASH_BYTES
    ensures !ok && fullSize % MIX_BYTES == 0 ==>
              done < fullSize / HASH_BYTES && callback.Some?
              && Polled(fullSize / HASH_BYTES, done) && callback.value(Percent(Progress(fullSize / HASH_BYTES, done)))
  {
    if fullSize % MIX_BYTES != 0 || fullSize % HASH_BYTES != 0 {
      return false, 0;
    }
    var maxN := fullSize / HASH_BYTES;
    var progress := 0.0;
    var n := 0;
    while n != maxN
      invariant 0 <= n <= maxN
      invariant progress == Progress(maxN, n)
      invariant mem[..n] == Dag(k, cache, n)
      invariant forall j | n <= j < mem.Length :: mem[j] == old(mem[j])
    {
      if callback.Some? && n % (maxN / 100) == 0 && callback.value(Percent(progress)) {
        return false, n;
      }
      progress := progress + Change(maxN);
      var item := ComputeDagItem(k, cache, n);
      mem[n] := item;
      assert mem[..n + 1] == mem[..n] + [item];
      n := n + 1;
    }
    return true, n;
  }

  // ---- hashing

  /** The page that access `i` reads. */
  function Page(k: Primitives, s0: U32, mix: seq<U32>, i: nat, pages: nat): (p: nat)
    requires |mix| == 32 && pages > 0 && i < ACCESSES
    ensures p < pages
  {
    Reduce(k.fnv(k.xor(s0, i), mix[i % 32]), pages)
  }

  /** The mix after access `i`: both nodes of the page are mixed in. */
  function Access(k: Primitives, dag: seq<Node>, s0: U32, mix: seq<U32>, pages: nat, i: nat): (r: seq<U32>)
    requires |mix| == 32 && 0 < 2 * pages <= |dag| && i < ACCESSES
    ensures |r| == 32
  {
    var p := Page(k, s0, mix, i, pages);
    FnvNode(k, mix[..16], dag[2 * p]) + FnvNode(k, mix[16..], dag[2 * p + 1])
  }

  /** The mix after the first `n` accesses to the dataset `dag`. */
  function Accesses(k: Primitives, dag: seq<Node>, s0: U32, mix: seq<U32>, pages: nat, n: nat): (r: seq<U32>)
    requires |mix| == 32 && 0 < 2 * pages <= |dag| && n <= ACCESSES
    ensures |r| == 32
    decreases n, mix
  {
    if n == 0 then mix
    else
      Access(k, dag, s0, Accesses(k, dag, s0, mix, pages, n - 1), pages, n - 1)
  }

  function Fnv4(k: Primitives, a: U32, b: U32, c: U32, d: U32): U32 {
    k.fnv(k.fnv(k.fnv(a, b), c), d)
  }

  /** Four mix words to one. */
  function Compress(k: Primitives, mix: seq<U32>): Digest256
    requires |mix| == 32
  {
    seq(8, i requires 0 <= i < 8 => Fnv4(k, mix[4 * i], mix[4 * i + 1], mix[4 * i + 2], mix[4 * i + 3]))
  }

  function Twice(s: seq<U32>): seq<U32> { s + s }

  /** The reference: Hashimoto over a dataset given as a table. */
  function Hashimoto(k: Primitives, dag: seq<Node>, seed: seq<U32>, pages: nat): ReturnValue
    requires 0 < 2 * pages <= |dag|
  {
    var s := k.h512(seed);
    var c := Compress(k, Accesses(k, dag, s[0], Twice(s), pages, ACCESSES));
    ReturnValue(c, k.h256(s + c))
  }

  /** The mix only depends on the pages that can be addressed. */
  lemma {:induction false} AccessesLocal(k: Primitives, a: seq<Node>, b: seq<Node>, s0: U32, mix: seq<U32>, pages: nat,
                                         n: nat)
    requires |mix| == 32 && 0 < 2 * pages <= |a| && 2 * pages <= |b| && n <= ACCESSES
    requires a[..2 * pages] == b[..2 * pages]
    ensures Accesses(k, a, s0, mix, pages, n) == Accesses(k, b, s0, mix, pages, n)
    decreases n
  {
    if n > 0 {
      AccessesLocal(k, a, b, s0, mix, pages, n - 1);
      AccessLocal(k, a, b, s0, Accesses(k, a, s0, mix, pages, n - 1), pages, n - 1);
    }
  }

  lemma AccessLocal(k: Primitives, a: seq<Node>, b: seq<Node>, s0: U32, mix: seq<U32>, pages: nat, i: nat)
    requires |mix| == 32 && 0 < 2 * pages <= |a| && 2 * pages <= |b| && i < ACCESSES
    requires a[..2 * pages] == b[..2 * pages]
    ensures Access(k, a, s0, mix, pages, i) == Access(k, b, s0, mix, pages, i)
  {
    var p := Page(k, s0, mix, i, pages);
    assert a[2 * p] == a[..2 * pages][2 * p] && a[2 * p + 1] == a[..2 * pages][2 * p + 1];
  }

  /** Node `n` of page `index`, looked up or computed on the spot. */
  method FetchNode(k: Primitives, table: Option<seq<Node>>, cache: seq<Node>, index: nat, n: nat, pages: nat,
                   ghost dag: seq<Node>)
    returns (node: Node)
    requires n < 2 && index < pages && 2 * pages < TWO32 && |dag| == 2 * pages
    requires table.Some? ==> 2 * pages <= |table.value| && dag == table.value[..2 * pages]
    requires table.None? ==> cache != [] && dag == Dag(k, cache, 2 * pages)
    ensures node == dag[2 * index + n]
  {
    if table.Some? {
      node := table.value[MIX_NODES * index + n];
    } else {
      node := ComputeDagItem(k, cache, index * MIX_NODES + n);
      DagAt(k, cache, 2 * pages, index * MIX_NODES + n);
    }
  }

  /** One access of the kernel: page lookup, from the table or from the cache, and mixing in place.
      `words` is the kernel's `s_mix`: the seed hash and, from word 16 on, the mix. */
  method MixPage(k: Primitives, table: Option<seq<Node>>, cache: seq<Node>, words: array<U32>, i: nat, pages: nat,
                 ghost dag: seq<Node>)
    requires words.Length == 48 && i < ACCESSES && 0 < 2 * pages < TWO32 && |dag| == 2 * pages
    requires table.Some? ==> 2 * pages <= |table.value| && dag == table.value[..2 * pages]
    requires table.None? ==> cache != [] && dag == Dag(k, cache, 2 * pages)
    modifies words
    ensures words[..16] == old(words[..16])
    ensures words[16..] == Access(k, dag, old(words[0]), old(words[16..]), pages, i)
  {
    var index := Reduce(k.fnv(k.xor(words[0], i), words[16 + i % 32]), pages);
    ghost var m := words[16..];
    assert index == Page(k, words[0], m, i, pages);
    var n := 0;
    while n != MIX_NODES
      invariant 0 <= n <= 2
      invariant words[..16] == old(words[..16])
      invariant words[16..32] == if n > 0 then FnvNode(k, m[..16], dag[2 * index]) else m[..16]
      invariant words[32..48] == if n > 1 then FnvNode(k, m[16..], dag[2 * index + 1]) else m[16..]
    {
      var node := FetchNode(k, table, cache, index, n, pages, dag);
      MixNode(k, words, n, node);
      n := n + 1;
    }
    assert words[16..] == words[16..32] + words[32..48];
  }

  /** Mixing in node 0 or node 1 of a page changes that half of the mix only. */
  method MixNode(k: Primitives, words: array<U32>, n: nat, node: Node)
    requires words.Length == 48 && n < 2
    modifies words
    ensures words[..16] == old(words[..16])
    ensures words[16..32] == if n == 0 then FnvNode(k, old(words[16..32]), node) else old(words[16..32])
    ensures words[32..48] == if n == 1 then FnvNode(k, old(words[32..48]), node) else old(words[32..48])
  {
    if n == 0 {
      FnvInto(k, words, 16, node);
    } else {
      FnvInto(k, words, 32, node);
    }
  }

  /** Compression in place: word `w/4` is overwritten only after words up to `w+3` were read. */
  method CompressInto(k: Primitives, words: array<U32>)
    requires words.Length == 48
    modifies words
    ensures words[..16] == old(words[..16])
    ensures words[16..24] == Compress(k, old(words[16..]))
  {
    ghost var m := words[16..];
    var w := 0;
    while w != MIX_WORDS
      invariant 0 <= w <= 32 && w % 4 == 0
      invariant words[..16] == old(words[..16])
      invariant forall j | 0 <= j < w / 4 :: words[16 + j] == Fnv4(k, m[4 * j], m[4 * j + 1], m[4 * j + 2], m[4 * j + 3])
      invariant forall j | w <= j < 32 :: words[16 + j] == m[j]
    {
      var reduction := words[16 + w];
      reduction := k.fnv(reduction, words[16 + w + 1]);
      reduction := k.fnv(reduction, words[16 + w + 2]);
      reduction := k.fnv(reduction, words[16 + w + 3]);
      words[16 + w / 4] := reduction;
      w := w + 4;
    }
  }

  /** The seed hash, and twice more as the starting mix. */
  method Replicate(words: array<U32>, s: Node)
    requires words.Length == 48
    modifies words
    ensures words[..16] == s && words[16..] == Twice(s)
  {
    forall j | 0 <= j < 16 { words[j] := s[j]; }
    var w := 0;
    while w != MIX_WORDS
      invariant 0 <= w <= 32
      invariant words[..16] == s
      invariant forall j | 0 <= j < w :: words[16 + j] == s[j % 16]
    {
      words[16 + w] := words[w % NODE_WORDS];
      w := w + 1;
    }
    assert forall j | 0 <= j < 32 :: Twice(s)[j] == s[j % 16];
  }

  /** `krnl_ethash_func`: `None` when the size is refused. With a table it hashes over the table,
      without one over the dataset the cache defines. */
  method KrnlEthash(k: Primitives, table: Option<seq<Node>>, cache: seq<Node>, fullSize: nat, seed: seq<U32>)
    returns (ret: Option<ReturnValue>)
    requires MIX_BYTES <= fullSize && fullSize / HASH_BYTES < TWO32
    requires table.Some? ==> 2 * (fullSize / MIX_BYTES) <= |table.value|
    requires table.None? ==> cache != []
    ensures ret.None? <==> fullSize % MIX_WORDS != 0
    ensures ret.Some? ==>
              var pages := fullSize / MIX_BYTES;
              ret.value == Hashimoto(k, if table.Some? then table.value else Dag(k, cache, 2 * pages), seed, pages)
  {
    if fullSize % MIX_WORDS != 0 {
      return None;
    }
    var pages := fullSize / (4 * MIX_WORDS);
    ghost var source := if table.Some? then table.value else Dag(k, cache, 2 * pages);
    ghost var dag := source[..2 * pages];
    HashimotoLocal(k, dag, source, seed, pages);
    var r := HashPages(k, table, cache, seed, pages, dag);
    ret := Some(r);
  }

  /** Hashing only looks at the pages it may address. */
  lemma HashimotoLocal(k: Primitives, a: seq<Node>, b: seq<Node>, seed: seq<U32>, pages: nat)
    requires 0 < 2 * pages <= |a| && 2 * pages <= |b| && a[..2 * pages] == b[..2 * pages]
    ensures Hashimoto(k, a, seed, pages) == Hashimoto(k, b, seed, pages)
  {
    var s := k.h512(seed);
    AccessesLocal(k, a, b, s[0], Twice(s), pages, ACCESSES);
  }

  /** The kernel once the size is accepted. */
  method HashPages(k: Primitives, table: Option<seq<Node>>, cache: seq<Node>, seed: seq<U32>, pages: nat,
                   ghost dag: seq<Node>)
    returns (ret: ReturnValue)
    requires 0 < 2 * pages < TWO32 && |dag| == 2 * pages
    requires table.Some? ==> 2 * pages <= |table.value| && dag == table.value[..2 * pages]
    requires table.None? ==> cache != [] && dag == Dag(k, cache, 2 * pages)
    ensures ret == Hashimoto(k, dag, seed, pages)
  {
    var s := k.h512(seed);
    var words := new U32[48];
    Replicate(words, s);
    AccessAll(k, table, cache, words, pages, dag);
    CompressInto(k, words);
    assert words[..24] == words[..16] + words[16..24];
    ret := ReturnValue(words[16..24], k.h256(words[..24]));
  }

  /** The 64 dataset accesses. */
  method AccessAll(k: Primitives, table: Option<seq<Node>>, cache: seq<Node>, words: array<U32>, pages: nat,
                   ghost dag: seq<Node>)
    requires words.Length == 48 && 0 < 2 * pages < TWO32 && |dag| == 2 * pages
    requires table.Some? ==> 2 * pages <= |table.value| && dag == table.value[..2 * pages]
    requires table.None? ==> cache != [] && dag == Dag(k, cache, 2 * pages)
    modifies words
    ensures words[..16] == old(words[..16])
    ensures words[16..] == Accesses(k, dag, old(words[0]), old(words[16..]), pages, ACCESSES)
  {
    ghost var s0, mix := words[0], words[16..];
    var i := 0;
    while i != ACCESSES
      invariant 0 <= i <= ACCESSES
      invariant words[..16] == old(words[..16]) && words[0] == s0
      invariant words[16..] == Accesses(k, dag, s0, mix, pages, i)
    {
      ghost var next := Access(k, dag, s0, words[16..], pages, i);
      assert Accesses(k, dag, s0, mix, pages, i + 1) == next;
      MixPage(k, table, cache, words, i, pages, dag);
      assert words[0] == words[..16][0];
      i := i + 1;
    }
  }

  /** The precomputed dataset and the light cache give the same hash, for every size the table
      builder accepts. */
  lemma FullEqualsLight(k: Primitives, cache: seq<Node>, table: seq<Node>, fullSize: nat, seed: seq<U32>)
    requires cache != [] && MIX_BYTES <= fullSize && fullSize / HASH_BYTES < TWO32
    requires table == Dag(k, cache, fullSize / HASH_BYTES)
    ensures 2 * (fullSize / MIX_BYTES) <= |table|
    ensures var pages := fullSize / MIX_BYTES;
            Hashimoto(k, table, seed, pages) == Hashimoto(k, Dag(k, cache, 2 * pages), seed, pages)
  {
    var pages := fullSize / MIX_BYTES;
    var light := Dag(k, cache, 2 * pages);
    DagPrefix(k, cache, 2 * pages, fullSize / HASH_BYTES);
    assert light[..2 * pages] == light;
    HashimotoLocal(k, table, light, seed, pages);
  }

  /** The same for the code: a table built by `compute_full_dag`, for any size it accepts, and the light cache
      make the kernel return the same. */
  method FullAgreesWithLight(k: Primitives, cache: seq<Node>, fullSize: nat, seed: seq<U32>)
    returns (full: Option<ReturnValue>, light: Option<ReturnValue>)
    requires cache != [] && 0 < fullSize && fullSize % MIX_BYTES == 0 && fullSize / HASH_BYTES < TWO32
    ensures full.Some? && full == light
  {
    var table := BuildTable(k, cache, fullSize);
    PagesPositive(fullSize);
    FullEqualsLight(k, cache, table, fullSize, seed);
    full := KrnlEthash(k, Some(table), cache, fullSize, seed);
    light := KrnlEthash(k, None, cache, fullSize, seed);
  }

  lemma PagesPositive(fullSize: nat)
    requires 0 < fullSize && fullSize % MIX_BYTES == 0
    ensures MIX_BYTES <= fullSize && fullSize % MIX_WORDS == 0 && 0 < fullSize / MIX_BYTES
  {
    var q := fullSize / MIX_BYTES;
    assert fullSize == 128 * q;
    DivModUnique(fullSize, MIX_WORDS, 4 * q, 0);
  }

  /** The whole table, with nobody to stop it. */
  method BuildTable(k: Primitives, cache: seq<Node>, fullSize: nat) returns (table: seq<Node>)
    requires cache != [] && fullSize % MIX_BYTES == 0 && fullSize / HASH_BYTES < TWO32
    ensures table == Dag(k, cache, fullSize / HASH_BYTES)
  {
    var zero := cache[0];
    var mem := new Node[fullSize / HASH_BYTES](_ => zero);
    var ok, done := ComputeFullDag(k, mem, fullSize, cache, None);
    assert mem[..done] == mem[..];
    table := mem[..];
  }
}
