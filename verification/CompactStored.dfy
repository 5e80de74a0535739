/**
 What the writer of compressed files stores, in plain numbers: which clusters share a block, the words of the index, and
 the payload blocks.
 */
module CompactStored {
  import opened Core
  import opened Arith
  import opened CompactFormat
  import opened CompactWriter

  // ---- Which clusters share a block ------------------------------------------------------------------------

  /** Compressing pays off: the result is shorter and fits one block. */
  predicate Pays(algo: Algo, blockSize: nat, input: bytes) {
    input != [] && algo.Compressor? && |algo.compress(input)| < |input| && |algo.compress(input)| <= blockSize
  }

  /** Clusters `2 * j` and `2 * j + 1`, as far as there are. */
  function PairSpan(clusters: seq<bytes>, j: nat): bytes
    requires 2 * j < |clusters|
  {
    clusters[2 * j] + if 2 * j + 1 < |clusters| then clusters[2 * j + 1] else []
  }

  /** Blocks of pair `j`: one when it pays off as a whole or is a lone cluster. */
  function PairBlocks(algo: Algo, blockSize: nat, clusters: seq<bytes>, j: nat): nat
    requires 2 * j < |clusters|
  {
    if Pays(algo, blockSize, PairSpan(clusters, j)) || 2 * j + 1 == |clusters| then 1 else 2
  }

  function BlocksBefore(algo: Algo, blockSize: nat, clusters: seq<bytes>, j: nat): nat
    requires 2 * j < |clusters| + 2
    decreases j
  {
    if j == 0 then 0 else BlocksBefore(algo, blockSize, clusters, j - 1) + PairBlocks(algo, blockSize, clusters, j - 1)
  }

  /** A cluster by itself: compressed where that pays off, as it is otherwise. */
  predicate StoredAlone(p: Pcluster, algo: Algo, blockSize: nat, cluster: bytes) {
    p.clusters == 1 && p.head == Pays(algo, blockSize, cluster) && p.payload == if p.head then algo.compress(cluster) else cluster
  }

  /** What the pclusters from `at` on say about pair `j`. */
  predicate PairStored(ps: seq<Pcluster>, at: nat, algo: Algo, blockSize: nat, clusters: seq<bytes>, j: nat)
    requires 2 * j < |clusters|
  {
    var span := PairSpan(clusters, j);
    && at + PairBlocks(algo, blockSize, clusters, j) <= |ps|
    && if Pays(algo, blockSize, span) then ps[at] == Pcluster(true, Min(2, |clusters| - 2 * j), algo.compress(span))
       else && StoredAlone(ps[at], algo, blockSize, clusters[2 * j])
            && (2 * j + 1 < |clusters| ==> StoredAlone(ps[at + 1], algo, blockSize, clusters[2 * j + 1]))
  }

  lemma {:induction false} FitsIff(algo: Algo, blockSize: nat, input: bytes)
    ensures FitsBlock(algo, blockSize, input) == if Pays(algo, blockSize, input) then Some(algo.compress(input)) else None
  {
  }

  lemma {:induction false} FirstPair(algo: Algo, blockSize: nat, clusters: seq<bytes>)
    requires clusters != [] && AllWithin(clusters, blockSize)
    ensures var n := Min(2, |clusters|);
            var ps := PackPair(algo, blockSize, clusters[..n]);
            |ps| == PairBlocks(algo, blockSize, clusters, 0) && PairStored(ps, 0, algo, blockSize, clusters, 0)
  {
    hide FitsBlock, Pays;
    FitsIff(algo, blockSize, PairSpan(clusters, 0));
    FitsIff(algo, blockSize, clusters[0]);
    assert clusters[0] in clusters;
    if |clusters| > 1 {
      FitsIff(algo, blockSize, clusters[1]);
      assert clusters[1] in clusters;
    } else {
      assert clusters[0] + [] == clusters[0];
    }
  }

  /** Pairs and blocks of a file without its first pair. */
  lemma {:induction false} LaterPair(algo: Algo, blockSize: nat, clusters: seq<bytes>, j: nat)
    requires |clusters| >= 2 && 2 * j + 2 < |clusters|
    ensures PairSpan(clusters, j + 1) == PairSpan(clusters[2..], j)
    ensures PairBlocks(algo, blockSize, clusters, j + 1) == PairBlocks(algo, blockSize, clusters[2..], j)
  {
  }

  lemma {:induction false} LaterBlocks(algo: Algo, blockSize: nat, clusters: seq<bytes>, j: nat)
    requires |clusters| >= 2 && 2 * j < |clusters|
    ensures BlocksBefore(algo, blockSize, clusters, j + 1)
         == PairBlocks(algo, blockSize, clusters, 0) + BlocksBefore(algo, blockSize, clusters[2..], j)
    decreases j
  {
    hide PairBlocks;
    if j > 0 {
      LaterBlocks(algo, blockSize, clusters, j - 1);
      LaterPair(algo, blockSize, clusters, j - 1);
    }
  }

  /** Every pair of clusters is one block when that pays off, and otherwise each cluster is a block of its own. */
  lemma {:induction false} PairsStored(algo: Algo, blockSize: nat, clusters: seq<bytes>, j: nat)
    requires 2 * j < |clusters| && AllWithin(clusters, blockSize)
    ensures PairStored(PackClusters(algo, blockSize, clusters), BlocksBefore(algo, blockSize, clusters, j), algo, blockSize, clusters, j)
    decreases j
  {
    hide PackPair, PairBlocks, Pays, StoredAlone, PairSpan;
    var n := Min(2, |clusters|);
    var first, all := PackPair(algo, blockSize, clusters[..n]), PackClusters(algo, blockSize, clusters);
    var rest := PackClusters(algo, blockSize, clusters[n..]);
    FirstPair(algo, blockSize, clusters);
    if j > 0 {
      AllWithinTail(clusters, blockSize);
      PairsStored(algo, blockSize, clusters[2..], j - 1);
      LaterBlocks(algo, blockSize, clusters, j - 1);
      StoredBehind(first, rest, BlocksBefore(algo, blockSize, clusters[2..], j - 1), algo, blockSize, clusters, j - 1);
    } else {
      StoredInFront(first, rest, algo, blockSize, clusters);
    }
  }

  lemma {:induction false} StoredBehind(
    first: seq<Pcluster>, rest: seq<Pcluster>, at: nat, algo: Algo, blockSize: nat, clusters: seq<bytes>, j: nat)
    requires |clusters| >= 2 && 2 * j + 2 < |clusters| && PairStored(rest, at, algo, blockSize, clusters[2..], j)
    ensures PairStored(first + rest, |first| + at, algo, blockSize, clusters, j + 1)
  {
    hide Pays, StoredAlone;
    LaterPair(algo, blockSize, clusters, j);
    TwoBlocks(algo, blockSize, clusters[2..], j);
    hide PairSpan, PairBlocks;
  }

  lemma {:induction false} StoredInFront(first: seq<Pcluster>, rest: seq<Pcluster>, algo: Algo, blockSize: nat, clusters: seq<bytes>)
    requires clusters != [] && PairStored(first, 0, algo, blockSize, clusters, 0)
    ensures PairStored(first + rest, 0, algo, blockSize, clusters, 0)
  {
    hide Pays, StoredAlone, PairSpan;
    TwoBlocks(algo, blockSize, clusters, 0);
    hide PairBlocks;
  }

  lemma {:induction false} TwoBlocks(algo: Algo, blockSize: nat, clusters: seq<bytes>, j: nat)
    requires 2 * j < |clusters|
    ensures 1 <= PairBlocks(algo, blockSize, clusters, j) <= 2
    ensures !Pays(algo, blockSize, PairSpan(clusters, j)) && 2 * j + 1 < |clusters| ==> PairBlocks(algo, blockSize, clusters, j) == 2
  {
  }

  lemma {:induction false} AllWithinTail(clusters: seq<bytes>, blockSize: nat)
    requires |clusters| >= 2 && AllWithin(clusters, blockSize)
    ensures AllWithin(clusters[2..], blockSize)
  {
  }

  /** A file takes the blocks of its pairs. */
  lemma {:induction false} BlocksTotal(algo: Algo, blockSize: nat, clusters: seq<bytes>, pairs: nat)
    requires AllWithin(clusters, blockSize) && 2 * pairs - 1 <= |clusters| <= 2 * pairs
    ensures |PackClusters(algo, blockSize, clusters)| == BlocksBefore(algo, blockSize, clusters, pairs)
    decreases pairs
  {
    hide PackPair, PairBlocks, PairStored;
    if pairs > 0 {
      FirstPair(algo, blockSize, clusters);
      if pairs > 1 {
        AllWithinTail(clusters, blockSize);
        BlocksTotal(algo, blockSize, clusters[2..], pairs - 1);
        LaterBlocks(algo, blockSize, clusters, pairs - 1);
      } else {
        assert clusters[Min(2, |clusters|)..] == [];
        assert BlocksBefore(algo, blockSize, clusters, 0) == 0;
      }
    }
  }

  /** Cluster `c` of a file: `blockSize` bytes of it, or what is left. */
  lemma {:induction false} ClusterIs(data: bytes, blockSize: nat, c: nat)
    requires blockSize > 0 && c < |Clusters(data, blockSize)|
    ensures var from := c * blockSize;
            0 <= from < |data| && Clusters(data, blockSize)[c] == data[from..Min(from + blockSize, |data|)]
    decreases c
  {
    if c > 0 {
      var n := Min(blockSize, |data|);
      ClusterIs(data[n..], blockSize, c - 1);
      MulDistributes(c - 1, 1, blockSize);
      var from := (c - 1) * blockSize;
      assert n == blockSize && data[n..][from..Min(from + blockSize, |data| - n)] == data[from + n..Min(from + n + blockSize, |data|)];
    }
  }

  // ---- The index -------------------------------------------------------------------------------------------

  /** The word of the first cluster of pair `j`: type 1 when it is compressed, else zero. */
  function FirstWord(algo: Algo, blockSize: nat, clusters: seq<bytes>, j: nat): nat
    requires 2 * j < |clusters|
  {
    if Pays(algo, blockSize, PairSpan(clusters, j)) || Pays(algo, blockSize, clusters[2 * j]) then 0x1000 else 0
  }

  /** The word of the second: type 2 at distance 1 when it shares the first one's block. */
  function SecondWord(algo: Algo, blockSize: nat, clusters: seq<bytes>, j: nat): nat
    requires 2 * j < |clusters|
  {
    if 2 * j + 1 == |clusters| then 0
    else if Pays(algo, blockSize, PairSpan(clusters, j)) then 0x2001
    else if Pays(algo, blockSize, clusters[2 * j + 1]) then 0x1000 else 0
  }

  predicate PackSays(index: bytes, j: nat, first: nat, second: nat, anchor: nat) {
    && 8 * j + 8 <= |index| && Get16(index, 8 * j) == first && Get16(index, 8 * j + 2) == second && Get32(index, 8 * j + 4) == anchor
  }

  lemma {:induction false} PackReads(first: nat, second: nat, block: nat)
    requires first < U16_LIMIT && second < U16_LIMIT
    ensures PackSays(Pack(first, second, block), 0, first, second, Max(block - 1, 0) % 0x1_0000_0000)
  {
    hide Le16, Le32, Get16, Get32;
    var b := Pack(first, second, block);
    assert b[0..2] == Le16(first) && b[2..4] == Le16(second) && b[4..8] == Le32(Anchor(block));
    Read16(b, 0, first);
    Read16(b, 2, second);
    Read32(b, 4, Anchor(block));
  }

  lemma {:induction false} PackShifted(a: bytes, b: bytes, j: nat, first: nat, second: nat, anchor: nat)
    requires |a| == 8 && PackSays(b, j, first, second, anchor)
    ensures PackSays(a + b, j + 1, first, second, anchor)
  {
  }

  lemma {:induction false} PackInFront(a: bytes, b: bytes, first: nat, second: nat, anchor: nat)
    requires PackSays(a, 0, first, second, anchor)
    ensures PackSays(a + b, 0, first, second, anchor)
  {
  }

  /** The index of the first pair alone is one pack. */
  lemma {:induction false} FirstPack(algo: Algo, blockSize: nat, clusters: seq<bytes>, block: nat)
    requires clusters != [] && AllWithin(clusters, blockSize)
    ensures var n := Min(2, |clusters|);
            var ps := PackPair(algo, blockSize, clusters[..n]);
            && |IndexEntries(ps)| == n
            && EncodedIndex(ps, block) == Pack(FirstWord(algo, blockSize, clusters, 0), SecondWord(algo, blockSize, clusters, 0), block)
  {
    hide Pays, PackPair, Pack, PairSpan, FitsBlock, IndexEntries, EncodedIndex, EntriesOf;
    var n := Min(2, |clusters|);
    var ps := PackPair(algo, blockSize, clusters[..n]);
    FirstPair(algo, blockSize, clusters);
    if n == 1 {
      LoneSpan(clusters);
    }
    if |ps| == 1 {
      OneEntries(ps[0], block);
      assert ps == [ps[0]];
    } else {
      TwoEntries(ps[0], ps[1], block);
      assert ps == [ps[0], ps[1]];
    }
  }

  lemma {:induction false} LoneSpan(clusters: seq<bytes>)
    requires |clusters| == 1
    ensures PairSpan(clusters, 0) == clusters[0]
  {
  }

  lemma {:induction false} PacksShort(es: seq<Entry>, blocks: seq<nat>)
    requires 1 <= |es| <= 2 && |es| == |blocks| && Encodable(es)
    ensures Packs(es, blocks) == Pack(EncodeEntry(es[0]), if |es| == 2 then EncodeEntry(es[1]) else 0, blocks[0])
  {
    hide Pack, EncodeEntry;
    if |es| == 2 {
      assert es[2..] == [] && blocks[2..] == [] && Packs([], []) == [];
    }
  }

  lemma {:induction false} OneEntries(p: Pcluster, block: nat)
    requires 1 <= p.clusters <= 2 && (!p.head ==> p.clusters == 1)
    ensures |IndexEntries([p])| == p.clusters && EncodedIndex([p], block)
         == Pack(if p.head then 0x1000 else 0, if p.clusters == 2 then 0x2001 else 0, block)
  {
    hide Pack, Packs;
    assert [p][1..] == [] && IndexEntries([]) == [];
    assert IndexEntries([p]) == EntriesOf(p) + [] == EntriesOf(p);
    assert Copies(block, 1) == [block] && Copies(block, 2) == [block, block];
    assert EntryBlocks([p], block) == Copies(block, |EntriesOf(p)|) + [] == Copies(block, |EntriesOf(p)|);
    IndexEntriesEncodable([p]);
    PacksShort(IndexEntries([p]), EntryBlocks([p], block));
  }

  lemma {:induction false} TwoEntries(p: Pcluster, q: Pcluster, block: nat)
    requires p.clusters == q.clusters == 1
    ensures |IndexEntries([p, q])| == 2
    ensures EncodedIndex([p, q], block) == Pack(if p.head then 0x1000 else 0, if q.head then 0x1000 else 0, block)
  {
    hide Pack, Packs;
    assert [p, q][1..] == [q] && [q][1..] == [] && IndexEntries([]) == [];
    IndexEntriesEncodable([p, q]);
    assert Copies(block, 1) == [block] && Copies(block + 1, 1) == [block + 1];
    assert EntryBlocks([q], block + 1) == Copies(block + 1, 1) + [];
    assert EntryBlocks([p, q], block) == Copies(block, 1) + EntryBlocks([q], block + 1);
    assert IndexEntries([q]) == EntriesOf(q) + [] == EntriesOf(q);
    assert IndexEntries([p, q]) == EntriesOf(p) + IndexEntries([q]);
    PacksShort(IndexEntries([p, q]), EntryBlocks([p, q], block));
  }

  /** Pack `j` of the index of a file: its two words, and the block in front of the pair's first one. */
  lemma {:induction false} IndexSays(algo: Algo, blockSize: nat, clusters: seq<bytes>, block: nat, j: nat)
    requires 2 * j < |clusters| && AllWithin(clusters, blockSize)
    ensures PackSays(EncodedIndex(PackClusters(algo, blockSize, clusters), block), j, FirstWord(algo, blockSize, clusters, j),
                     SecondWord(algo, blockSize, clusters, j),
                     Max(block + BlocksBefore(algo, blockSize, clusters, j) - 1, 0) % 0x1_0000_0000)
    decreases j
  {
    hide PackPair, Pays, PairSpan, Pack, EncodedIndex, PackSays, IndexEntries;
    var n := Min(2, |clusters|);
    var first, rest := PackPair(algo, blockSize, clusters[..n]), PackClusters(algo, blockSize, clusters[n..]);
    FirstPair(algo, blockSize, clusters);
    FirstPack(algo, blockSize, clusters, block);
    if n == 2 {
      EncodedIndexAppend(first, rest, block);
    } else {
      assert clusters[1..] == [];
      assert first + [] == first;
    }
    if j == 0 {
      PackReads(FirstWord(algo, blockSize, clusters, 0), SecondWord(algo, blockSize, clusters, 0), block);
      if n == 2 {
        PackInFront(EncodedIndex(first, block), EncodedIndex(rest, block + |first|), FirstWord(algo, blockSize, clusters, 0),
                    SecondWord(algo, blockSize, clusters, 0), Max(block - 1, 0) % 0x1_0000_0000);
      }
    } else {
      AllWithinTail(clusters, blockSize);
      IndexSays(algo, blockSize, clusters[2..], block + |first|, j - 1);
      LaterPair(algo, blockSize, clusters, j - 1);
      LaterBlocks(algo, blockSize, clusters, j - 1);
      LaterWords(algo, blockSize, clusters, j - 1);
      PackShifted(EncodedIndex(first, block), EncodedIndex(rest, block + |first|), j - 1, FirstWord(algo, blockSize, clusters, j),
                  SecondWord(algo, blockSize, clusters, j),
                  Max(block + BlocksBefore(algo, blockSize, clusters, j) - 1, 0) % 0x1_0000_0000);
    }
  }

  lemma {:induction false} LaterWords(algo: Algo, blockSize: nat, clusters: seq<bytes>, j: nat)
    requires |clusters| >= 2 && 2 * j + 2 < |clusters|
    ensures FirstWord(algo, blockSize, clusters, j + 1) == FirstWord(algo, blockSize, clusters[2..], j)
    ensures SecondWord(algo, blockSize, clusters, j + 1) == SecondWord(algo, blockSize, clusters[2..], j)
  {
    hide Pays;
  }

  // ---- Payloads --------------------------------------------------------------------------------------------

  /** Block `k` of the payload: its bytes, and zeros behind them. */
  lemma {:induction false} PayloadAt(ps: seq<Pcluster>, blockSize: nat, k: nat)
    requires AllPacked(ps, blockSize) && k < |ps|
    ensures |ps[k].payload| <= blockSize && k * blockSize + blockSize <= |Payloads(ps, blockSize)|
    ensures HasAt(Payloads(ps, blockSize), k * blockSize, ps[k].payload + Zeros(blockSize - |ps[k].payload|))
    decreases k
  {
    assert Packed(ps[0], blockSize) && Packed(ps[k], blockSize);
    var first, rest := PaddedPayload(ps[0], blockSize), Payloads(ps[1..], blockSize);
    var part := ps[k].payload + Zeros(blockSize - |ps[k].payload|);
    if k > 0 {
      PayloadAt(ps[1..], blockSize, k - 1);
      MulDistributes(k - 1, 1, blockSize);
      ShiftedAt(first, rest, (k - 1) * blockSize, part);
    } else {
      InFront(first, rest);
    }
    hide HasAt, PaddedPayload, Packed;
  }

  lemma {:induction false} InFront(a: bytes, b: bytes)
    ensures HasAt(a + b, 0, a)
  {
  }

  lemma {:induction false} ShiftedAt(a: bytes, b: bytes, at: nat, part: bytes)
    requires HasAt(b, at, part)
    ensures HasAt(a + b, |a| + at, part)
  {
    assert (a + b)[|a| + at..|a| + at + |part|] == b[at..at + |part|];
  }
}
