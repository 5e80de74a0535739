/**
 What the compressed-compact writer stores, every reader gets back: the index decodes to the entries that
 were encoded, the entries resolve to one segment per pcluster, and the segments stand for the file.
 */
module CompactRoundTrip {
  import opened Core
  import opened Arith
  import opened OutFile
  import opened CompactFormat
  import opened CompactWriter
  import opened CompactReader
  import Lz4

  // ---- What packing means ------------------------------------------------------------------------

  /** `ps` stores `data`: each pcluster its next one or two clusters, compressed or as they are. */
  ghost predicate Stores(algo: Algo, blockSize: nat, ps: seq<Pcluster>, data: bytes)
    decreases |ps|
  {
    if ps == [] then data == []
    else
      var p, n := ps[0], SpanLength(ps[0], blockSize, data);
      && data != []
      && Packed(p, blockSize)
      && (p.clusters - 1) * blockSize < n
      && (if p.head then FitsBlock(algo, blockSize, data[..n]) == Some(p.payload) else p.payload == data[..n])
      && Stores(algo, blockSize, ps[1..], data[n..])
  }

  function SpanLength(p: Pcluster, blockSize: nat, data: bytes): nat {
    Min(p.clusters * blockSize, |data|)
  }

  lemma {:induction false} StoresPair(algo: Algo, blockSize: nat, pair: seq<bytes>, data: bytes, n: nat, rest: seq<Pcluster>)
    requires blockSize > 0 && 1 <= |pair| <= 2 && data != []
    requires n == Min(2 * blockSize, |data|)
    requires if |data| <= blockSize then pair == [data] else pair == [data[..blockSize], data[blockSize..n]]
    requires Stores(algo, blockSize, rest, data[n..])
    ensures Stores(algo, blockSize, PackPair(algo, blockSize, pair) + rest, data)
  {
    hide FitsBlock, Stores;
    var ps := PackPair(algo, blockSize, pair);
    assert 1 * blockSize == blockSize && blockSize * MAX_CLUSTERS_PER_PCLUSTER == 2 * blockSize;
    if |ps| == 1 {
      assert data[..n] == if |pair| == 1 then pair[0] else pair[0] + pair[1];
      assert ps == [ps[0]];
      StoresMore(algo, blockSize, ps[0], rest, data);
    } else {
      StoresTwo(algo, blockSize, pair, data, n, rest);
    }
  }

  lemma {:induction false} StoresTwo(algo: Algo, blockSize: nat, pair: seq<bytes>, data: bytes, n: nat, rest: seq<Pcluster>)
    requires blockSize > 0 && blockSize < |data| && n == Min(2 * blockSize, |data|)
    requires pair == [data[..blockSize], data[blockSize..n]]
    requires Stores(algo, blockSize, rest, data[n..])
    ensures Stores(algo, blockSize, [PackSingle(algo, blockSize, pair[0]), PackSingle(algo, blockSize, pair[1])] + rest, data)
  {
    hide FitsBlock, Stores;
    var first, second := PackSingle(algo, blockSize, pair[0]), PackSingle(algo, blockSize, pair[1]);
    var tail := data[blockSize..];
    assert 1 * blockSize == blockSize;
    assert tail[n - blockSize..] == data[n..] && tail[..n - blockSize] == data[blockSize..n];
    StoresMore(algo, blockSize, second, rest, tail);
    StoresMore(algo, blockSize, first, [second] + rest, data);
    assert [first, second] + rest == [first] + ([second] + rest);
  }

  lemma {:induction false} StoresMore(algo: Algo, blockSize: nat, p: Pcluster, rest: seq<Pcluster>, data: bytes)
    requires data != [] && Packed(p, blockSize)
    requires (p.clusters - 1) * blockSize < SpanLength(p, blockSize, data)
    requires var span := data[..SpanLength(p, blockSize, data)];
             if p.head then FitsBlock(algo, blockSize, span) == Some(p.payload) else p.payload == span
    requires Stores(algo, blockSize, rest, data[SpanLength(p, blockSize, data)..])
    ensures Stores(algo, blockSize, [p] + rest, data)
  {
    hide FitsBlock;
    assert ([p] + rest)[1..] == rest;
  }

  /** Packing all clusters of a file stores it. */
  lemma {:induction false} PackClustersStores(algo: Algo, blockSize: nat, data: bytes)
    requires blockSize > 0
    ensures Stores(algo, blockSize, PackClusters(algo, blockSize, Clusters(data, blockSize)), data)
    decreases |data|
  {
    hide FitsBlock, PackPair, Stores;
    if data == [] {
      StoresNothing(algo, blockSize);
    } else {
      var n := Min(2 * blockSize, |data|);
      PackClustersStores(algo, blockSize, data[n..]);
      var all, rest := Clusters(data, blockSize), Clusters(data[n..], blockSize);
      FirstPair(data, blockSize, n);
      var k := Min(2, |all|);
      StoresPair(algo, blockSize, all[..k], data, n, PackClusters(algo, blockSize, rest));
    }
  }

  lemma {:induction false} StoresNothing(algo: Algo, blockSize: nat)
    ensures Stores(algo, blockSize, [], [])
  {
  }

  lemma {:induction false} FirstPair(data: bytes, blockSize: nat, n: nat)
    requires blockSize > 0 && data != [] && n == Min(2 * blockSize, |data|)
    ensures var all := Clusters(data, blockSize);
            var k := Min(2, |all|);
            && all != []
            && all[k..] == Clusters(data[n..], blockSize)
            && (if |data| <= blockSize then all[..k] == [data] else all[..k] == [data[..blockSize], data[blockSize..n]])
  {
    hide Clusters;
    ClustersStep(data, blockSize);
    var m := Min(blockSize, |data|);
    var tail := data[m..];
    if |data| <= blockSize {
      assert data[..m] == data && tail == [] && data[n..] == [];
      ClustersNone(blockSize);
    } else {
      ClustersStep(tail, blockSize);
      assert tail[..n - blockSize] == data[blockSize..n] && tail[n - blockSize..] == data[n..];
    }
  }

  // ---- The index decodes to what was encoded -----------------------------------------------------

  function SecondEntry(es: seq<Entry>, k: nat): nat
    requires Encodable(es)
  {
    if 2 * k + 1 < |es| then EncodeEntry(es[2 * k + 1]) else 0
  }

  lemma {:induction false} PackAt(es: seq<Entry>, blocks: seq<nat>, k: nat)
    requires |es| == |blocks| && Encodable(es) && 2 * k < |es|
    ensures SecondEntry(es, k) < U16_LIMIT
    ensures HasAt(Packs(es, blocks), 8 * k, Pack(EncodeEntry(es[2 * k]), SecondEntry(es, k), blocks[2 * k]))
    decreases k
  {
    hide Pack, EncodeEntry;
    var pack := Pack(EncodeEntry(es[2 * k]), SecondEntry(es, k), blocks[2 * k]);
    if k == 0 {
      if |es| > 1 {
        HasAtPart(Packs(es, blocks), 0, pack + Packs(es[2..], blocks[2..]), 0, pack);
      }
    } else {
      PackAt(es[2..], blocks[2..], k - 1);
      var head := Packs(es, blocks)[..8];
      assert Packs(es, blocks) == head + Packs(es[2..], blocks[2..]);
      HasAtPart(Packs(es, blocks), 8, Packs(es[2..], blocks[2..]), 8 * (k - 1), pack);
    }
  }

  lemma {:induction false} SliceGet32(image: bytes, at: nat)
    requires at + 4 <= |image|
    ensures Get32(Slice(image, at, 4).value, 0) == Get16(image, at) + U16_LIMIT * Get16(image, at + 2)
  {
  }

  /** The three 32-bit reads a pack is good for. */
  lemma {:induction false} ReadPack(image: bytes, at: nat, first: nat, second: nat, block: nat)
    requires first < U16_LIMIT && second < U16_LIMIT
    requires HasAt(image, at, Pack(first, second, block))
    ensures at + 8 <= |image|
    ensures Get32(Slice(image, at, 4).value, 0) == first + U16_LIMIT * second
    ensures Get32(Slice(image, at + 2, 4).value, 0) == second + U16_LIMIT * (Anchor(block) % U16_LIMIT)
    ensures Get32(Slice(image, at + 4, 4).value, 0) == Anchor(block)
  {
    hide Anchor;
    var anchor := Anchor(block);
    var pack := Le16(first) + Le16(second) + Le32(anchor);
    HasAtPart(image, at, pack, 0, Le16(first));
    HasAtPart(image, at, pack, 2, Le16(second));
    HasAtPart(image, at, pack, 4, Le32(anchor));
    hide Le16, Le32, Get16, HasAt;
    Read16(image, at, first);
    Read16(image, at + 2, second);
    Read32(image, at + 4, anchor);
    SliceGet32(image, at);
    SliceGet32(image, at + 2);
    SliceGet32(image, at + 4);
  }

  /** Kind and value come out of the low sixteen bits, whatever follows them. */
  lemma {:induction false} DecodeFields(e: Entry, raw: nat)
    requires EncodableEntry(e) && raw % U16_LIMIT == EncodeEntry(e)
    ensures raw % 0x1000 == e.value && raw / 0x1000 % 4 == e.kind
  {
    var high := raw / U16_LIMIT;
    DivUnique(raw, high * 16 + e.kind, e.value, 0x1000);
  }

  /** What the packing guarantees about entries and the blocks they name. */
  predicate PairedAt(es: seq<Entry>, blocks: seq<nat>, i: nat)
    requires i < |es| == |blocks|
  {
    if i % 2 == 0 then es[i].kind != NONHEAD
    else es[i].kind != NONHEAD ==> es[i - 1].kind != NONHEAD && blocks[i] == blocks[i - 1] + 1
  }

  predicate Paired(es: seq<Entry>, blocks: seq<nat>)
    requires |es| == |blocks|
  {
    forall i :: 0 <= i < |es| ==> PairedAt(es, blocks, i)
  }

  /** A decoded entry carries the encoded kind and value and, unless a filler, its own physical block. */
  predicate Decoded(d: CompactEntry, e: Entry, i: nat, block: nat) {
    d.lcn == i && d.kind == e.kind && d.value == e.value && (e.kind != NONHEAD ==> d.pblk == block)
  }

  lemma {:induction false} PackPosition(index: nat, i: nat)
    requires index % 8 == 0
    ensures (index + i * 4) / 8 * 8 == index + 8 * (i / 2)
    ensures (index + i * 4 - (index + i * 4) / 8 * 8) / 4 == i % 2
  {
  }

  /** The two 32-bit reads behind entry `i`, and the entry they make. */
  lemma {:induction false} RawWord(
    image: bytes, unit: nat, index: nat, es: seq<Entry>, blocks: seq<nat>, before: seq<CompactEntry>, i: nat)
    returns (raw: nat)
    requires unit > 0
    requires i < |es| == |blocks| && Encodable(es) && index % 8 == 0
    requires HasAt(image, index, Packs(es, blocks))
    ensures raw == EncodeEntry(es[i]) + U16_LIMIT * Upper(es, blocks, i)
    ensures EntryAt(image, unit, index, before, i)
         == DecodeEntry(raw, Anchor(blocks[i / 2 * 2]), unit, before, i, i % 2)
  {
    hide Packs, Pack, Get32, HasAt, Anchor, DecodeEntry, EncodeEntry;
    var k := i / 2;
    var at := index + 8 * k;
    PackAt(es, blocks, k);
    HasAtPart(image, index, Packs(es, blocks), 8 * k, Pack(EncodeEntry(es[2 * k]), SecondEntry(es, k), blocks[2 * k]));
    ReadPack(image, at, EncodeEntry(es[2 * k]), SecondEntry(es, k), blocks[2 * k]);
    PackPosition(index, i);
    raw := Get32(Slice(image, at + i % 2 * 2, 4).value, 0);
  }

  /** What follows entry `i` in its word: the second entry of its pack, or the low half of the anchor. */
  function Upper(es: seq<Entry>, blocks: seq<nat>, i: nat): nat
    requires i < |es| == |blocks| && Encodable(es)
  {
    if i % 2 == 0 then SecondEntry(es, i / 2) else Anchor(blocks[i - 1]) % U16_LIMIT
  }

  lemma {:induction false} RawEntry(
    image: bytes, unit: nat, index: nat, es: seq<Entry>, blocks: seq<nat>, before: seq<CompactEntry>, i: nat)
    returns (raw: nat)
    requires unit > 0
    requires i < |es| == |blocks| && Encodable(es) && index % 8 == 0
    requires HasAt(image, index, Packs(es, blocks))
    ensures raw % U16_LIMIT == EncodeEntry(es[i])
    ensures EntryAt(image, unit, index, before, i)
         == DecodeEntry(raw, Anchor(blocks[i / 2 * 2]), unit, before, i, i % 2)
  {
    hide *;
    raw := RawWord(image, unit, index, es, blocks, before, i);
    LowEntry(es, i, Upper(es, blocks, i));
  }

  lemma {:induction false} LowEntry(es: seq<Entry>, i: nat, upper: nat)
    requires i < |es| && Encodable(es)
    ensures EncodableEntry(es[i]) && (EncodeEntry(es[i]) + U16_LIMIT * upper) % U16_LIMIT == EncodeEntry(es[i])
  {
    EncodableAt(es, i);
    hide Encodable, EncodeEntry, EncodableEntry;
    DivUnique(EncodeEntry(es[i]) + U16_LIMIT * upper, upper, EncodeEntry(es[i]), U16_LIMIT);
  }

  /** A raw word whose low half is `e` decodes to `e`, at the block after the anchor or the one after that. */
  lemma {:induction false} DecodeEntryOf(e: Entry, raw: nat, block: nat, before: seq<CompactEntry>, i: nat)
    requires EncodableEntry(e) && raw % U16_LIMIT == EncodeEntry(e)
    requires 1 <= block <= U32_LIMIT && |before| == i
    requires i % 2 == 1 && e.kind != NONHEAD ==> before[i - 1].kind != NONHEAD
    ensures var entry := DecodeEntry(raw, Anchor(block), 0x1000, before, i, i % 2);
            entry.Ok? && Decoded(entry.value, e, i, block + i % 2)
  {
    DecodeFields(e, raw);
    assert Anchor(block) == block - 1;
  }

  lemma {:induction false} EntryDecodes(
    image: bytes, index: nat, es: seq<Entry>, blocks: seq<nat>, before: seq<CompactEntry>, i: nat)
    requires i < |es| == |blocks| && Encodable(es) && Paired(es, blocks)
    requires index % 8 == 0 && HasAt(image, index, Packs(es, blocks))
    requires forall k :: 0 <= k < |blocks| ==> 1 <= blocks[k] <= U32_LIMIT
    requires |before| == i && forall k :: 0 <= k < i ==> Decoded(before[k], es[k], k, blocks[k])
    ensures var entry := EntryAt(image, 0x1000, index, before, i);
            entry.Ok? && Decoded(entry.value, es[i], i, blocks[i])
  {
    hide Packs, EncodeEntry, HasAt, Encodable, EntryAt, DecodeEntry, Anchor;
    var raw := RawEntry(image, 0x1000, index, es, blocks, before, i);
    EncodableAt(es, i);
    assert PairedAt(es, blocks, i);
    if i % 2 == 1 {
      assert Decoded(before[i - 1], es[i - 1], i - 1, blocks[i - 1]);
    }
    DecodeEntryOf(es[i], raw, blocks[i / 2 * 2], before, i);
  }

  lemma {:induction false} EncodableAt(es: seq<Entry>, i: nat)
    requires Encodable(es) && i < |es|
    ensures EncodableEntry(es[i])
  {
  }

  /** With 4 KiB blocks or smaller, the whole index reads back as it was encoded. */
  lemma {:induction false} IndexDecodes(image: bytes, index: nat, es: seq<Entry>, blocks: seq<nat>, n: nat)
    returns (decoded: seq<CompactEntry>)
    requires n <= |es| == |blocks| && Encodable(es) && Paired(es, blocks)
    requires index % 8 == 0 && HasAt(image, index, Packs(es, blocks))
    requires forall k :: 0 <= k < |blocks| ==> 1 <= blocks[k] <= U32_LIMIT
    ensures |decoded| == n && forall k :: 0 <= k < n ==> Decoded(decoded[k], es[k], k, blocks[k])
    ensures Entries(image, 0x1000, index, n) == Ok(decoded)
    decreases n
  {
    hide EntryAt, HasAt, Packs;
    if n == 0 {
      decoded := [];
    } else {
      var before := IndexDecodes(image, index, es, blocks, n - 1);
      EntryDecodes(image, index, es, blocks, before, n - 1);
      decoded := before + [EntryAt(image, 0x1000, index, before, n - 1).value];
    }
  }

  lemma {:induction false} PairEntries(algo: Algo, blockSize: nat, pair: seq<bytes>, first: nat)
    requires 1 <= |pair| <= 2
    ensures var ps := PackPair(algo, blockSize, pair);
            && |IndexEntries(ps)| == |pair| && Paired(IndexEntries(ps), EntryBlocks(ps, first))
            && (forall b :: b in EntryBlocks(ps, first) ==> first <= b < first + |ps|)
  {
    hide FitsBlock;
    var ps := PackPair(algo, blockSize, pair);
    if |ps| == 1 {
      assert ps == [ps[0]];
      assert EntryBlocks(ps, first) == Copies(first, |EntriesOf(ps[0])|) + EntryBlocks([], first + 1);
      assert IndexEntries(ps) == EntriesOf(ps[0]) + IndexEntries([]);
      if |pair| == 2 {
        assert Copies(first, 2) == Copies(first, 1) + [first];
      }
    } else {
      assert ps == [ps[0], ps[1]] && ps[1..] == [ps[1]] && ps[1..][1..] == [];
      assert EntryBlocks(ps, first) == [first] + ([first + 1] + []);
      assert IndexEntries(ps) == EntriesOf(ps[0]) + (EntriesOf(ps[1]) + []);
    }
  }

  /** Pairing is positional, so every pack of the index starts with a HEAD or PLAIN entry. */
  lemma {:induction false} PackedIsPaired(algo: Algo, blockSize: nat, clusters: seq<bytes>, first: nat)
    ensures var ps := PackClusters(algo, blockSize, clusters);
            && Paired(IndexEntries(ps), EntryBlocks(ps, first))
            && (forall b :: b in EntryBlocks(ps, first) ==> first <= b < first + |ps|)
    decreases |clusters|
  {
    hide PackPair;
    if clusters != [] {
      var n := Min(2, |clusters|);
      var here, rest := PackPair(algo, blockSize, clusters[..n]), PackClusters(algo, blockSize, clusters[n..]);
      PairEntries(algo, blockSize, clusters[..n], first);
      PackedIsPaired(algo, blockSize, clusters[n..], first + |here|);
      IndexEntriesAppend(here, rest);
      EntryBlocksAppend(here, rest, first);
      PairedAppend(IndexEntries(here), EntryBlocks(here, first), IndexEntries(rest), EntryBlocks(rest, first + |here|));
    }
  }

  lemma {:induction false} PairedAppend(e1: seq<Entry>, b1: seq<nat>, e2: seq<Entry>, b2: seq<nat>)
    requires |e1| == |b1| && |e2| == |b2| && (e2 == [] || |e1| == 2)
    requires Paired(e1, b1) && Paired(e2, b2)
    ensures Paired(e1 + e2, b1 + b2)
  {
    forall i | 0 <= i < |e1 + e2|
      ensures PairedAt(e1 + e2, b1 + b2, i)
    {
      if i < |e1| {
        assert PairedAt(e1, b1, i);
      } else {
        assert PairedAt(e2, b2, i - 2);
      }
    }
  }

  // ---- The entries resolve to one segment per pcluster -------------------------------------------

  function SegmentOf(p: Pcluster, pos: nat, block: nat, blockSize: nat, size: nat, algorithm: nat): Segment {
    var end := Min(pos + p.clusters * blockSize, size);
    if p.head then Segment(HEAD1, pos, end, block, 1, algorithm) else Segment(PLAIN, pos, end, block, 0, 0)
  }

  function SegmentsOf(ps: seq<Pcluster>, lcn: nat, block: nat, blockSize: nat, size: nat, algorithm: nat): seq<Segment> {
    if ps == [] then []
    else
      [SegmentOf(ps[0], lcn * blockSize, block, blockSize, size, algorithm)]
      + SegmentsOf(ps[1..], lcn + ps[0].clusters, block + 1, blockSize, size, algorithm)
  }

  /** The decoded index, read against the encoded one. */
  predicate DecodedIndex(ds: seq<CompactEntry>, es: seq<Entry>, blocks: seq<nat>) {
    |ds| == |es| == |blocks| && forall k :: 0 <= k < |es| ==> Decoded(ds[k], es[k], k, blocks[k])
  }

  /** Where pclusters `ps` start in the index, in the file and on disk. */
  ghost predicate At(
    algo: Algo, blockSize: nat, es: seq<Entry>, ps: seq<Pcluster>, lcn: nat, data: bytes, size: nat)
  {
    && lcn <= |es| && es[lcn..] == IndexEntries(ps)
    && Stores(algo, blockSize, ps, data)
    && (ps != [] ==> lcn * blockSize + |data| == size)
  }

  lemma {:induction false} StoresEmpty(algo: Algo, blockSize: nat, ps: seq<Pcluster>, data: bytes)
    requires Stores(algo, blockSize, ps, data)
    ensures ps == [] <==> data == []
  {
    hide FitsBlock;
  }

  lemma {:induction false} AtNext(algo: Algo, blockSize: nat, es: seq<Entry>, ps: seq<Pcluster>, lcn: nat, data: bytes, size: nat)
    requires blockSize > 0 && ps != [] && At(algo, blockSize, es, ps, lcn, data, size)
    ensures var p, n := ps[0], SpanLength(ps[0], blockSize, data);
            && lcn + p.clusters <= |es| && Packed(p, blockSize)
            && es[lcn..lcn + p.clusters] == EntriesOf(p)
            && lcn * blockSize + n == Min(lcn * blockSize + p.clusters * blockSize, size)
            && n > 0
            && (ps[1..] != [] ==>
                  && At(algo, blockSize, es, ps[1..], lcn + p.clusters, data[n..], size)
                  && lcn + p.clusters < |es| && es[lcn + p.clusters].kind != NONHEAD
                  && n == p.clusters * blockSize)
            && (ps[1..] == [] ==> lcn + p.clusters == |es| && n == |data|)
  {
    hide FitsBlock, IndexEntries, EntriesOf;
    var p, n := ps[0], SpanLength(ps[0], blockSize, data);
    EntriesNext(blockSize, es, ps, lcn);
    StoresEmpty(algo, blockSize, ps[1..], data[n..]);
    if ps[1..] != [] {
      MulDistributes(lcn, p.clusters, blockSize);
    }
  }

  lemma {:induction false} EntriesNext(blockSize: nat, es: seq<Entry>, ps: seq<Pcluster>, lcn: nat)
    requires ps != [] && Packed(ps[0], blockSize) && lcn <= |es| && es[lcn..] == IndexEntries(ps)
    ensures var next := lcn + ps[0].clusters;
            && next <= |es| && es[lcn..next] == EntriesOf(ps[0]) && es[next..] == IndexEntries(ps[1..])
            && (ps[1..] == [] ==> next == |es|)
            && (ps[1..] != [] ==> next < |es| && es[next].kind != NONHEAD)
  {
    var here, later := EntriesOf(ps[0]), IndexEntries(ps[1..]);
    var next := lcn + ps[0].clusters;
    assert |here| == ps[0].clusters;
    assert es[lcn..] == here + later;
    assert es[lcn..next] == es[lcn..][..ps[0].clusters] == here;
    assert es[next..] == es[lcn..][ps[0].clusters..] == later;
    if ps[1..] != [] {
      assert later[0] == EntriesOf(ps[1])[0];
      assert es[next] == es[next..][0];
    }
  }

  /** Entry `lcn` of the decoded index heads pcluster `ps[0]`: the extent the resolver makes of it. */
  lemma {:induction false} HeadResolves(
    algo: Algo, blockSize: nat, ds: seq<CompactEntry>, es: seq<Entry>, blocks: seq<nat>, ps: seq<Pcluster>,
    lcn: nat, data: bytes, inode: CompactInode, cursor: Option<nat>, block: nat)
    requires 0 < blockSize <= 0x1000 && ps != [] && DecodedIndex(ds, es, blocks)
    requires At(algo, blockSize, es, ps, lcn, data, inode.size)
    requires cursor == Some(block) || (cursor == None && lcn < |ds| && ds[lcn].pblk == block)
    ensures lcn + ps[0].clusters <= |ds|
    ensures NextSegment(ds, lcn, cursor, inode, blockSize)
         == Ok(([SegmentOf(ps[0], lcn * blockSize, block, blockSize, inode.size, inode.algorithms % 16)], Some(block + 1)))
    ensures forall k :: lcn < k < lcn + ps[0].clusters ==> ds[k].kind == NONHEAD
    ensures |ds| > lcn + ps[0].clusters <==> ps[1..] != []
    ensures ps[0].head || LogicalStart(ds[lcn], blockSize) < PlainEnd(ds, lcn + 1, blockSize, inode.size)
  {
    hide FitsBlock, Stores;
    AtNext(algo, blockSize, es, ps, lcn, data, inode.size);
    var p := ps[0];
    var next := lcn + p.clusters;
    assert EntriesOf(p)[0] == es[lcn..next][0] == es[lcn];
    assert Decoded(ds[lcn], es[lcn], lcn, blocks[lcn]);
    if p.clusters == 2 {
      assert EntriesOf(p)[1] == es[lcn..next][1] == es[lcn + 1];
      assert Decoded(ds[lcn + 1], es[lcn + 1], lcn + 1, blocks[lcn + 1]);
    }
    if next < |ds| {
      assert Decoded(ds[next], es[next], next, blocks[next]);
      assert next * blockSize == lcn * blockSize + p.clusters * blockSize;
      assert ds[next].value == 0;
    }
    assert p.clusters * blockSize <= 2 * blockSize by { MulMonotone(p.clusters, 2, blockSize); }
    if p.head {
      assert HeadEnd(ds, next, blockSize, inode.size) == HeadEnd(ds, lcn + 1, blockSize, inode.size);
      assert FillerBlocks(ds, next) == FillerBlocks(ds, lcn + 1) == 1;
      assert HeadEnd(ds, next, blockSize, inode.size) == Min(lcn * blockSize + p.clusters * blockSize, inode.size);
    } else {
      assert PlainEnd(ds, next, blockSize, inode.size) == Min(lcn * blockSize + p.clusters * blockSize, inode.size);
    }
  }

  lemma {:induction false} SkipFillers(
    ds: seq<CompactEntry>, i: nat, j: nat, cursor: Option<nat>, inode: CompactInode, blockSize: nat)
    requires i <= j <= |ds| && forall k :: i <= k < j ==> ds[k].kind == NONHEAD
    ensures SegmentsFrom(ds, i, cursor, inode, blockSize) == SegmentsFrom(ds, j, cursor, inode, blockSize)
    ensures NoEmptyPlain(ds, i, inode, blockSize) == NoEmptyPlain(ds, j, inode, blockSize)
    decreases j - i
  {
    if i < j {
      SkipFillers(ds, i + 1, j, cursor, inode, blockSize);
      PrependNothing(SegmentsFrom(ds, i + 1, cursor, inode, blockSize));
    }
  }

  lemma {:induction false} IndexResolves(
    algo: Algo, blockSize: nat, ds: seq<CompactEntry>, es: seq<Entry>, blocks: seq<nat>, ps: seq<Pcluster>,
    lcn: nat, data: bytes, inode: CompactInode, cursor: Option<nat>, block: nat)
    requires 0 < blockSize <= 0x1000 && DecodedIndex(ds, es, blocks)
    requires At(algo, blockSize, es, ps, lcn, data, inode.size)
    requires cursor == Some(block) || (cursor == None && (lcn < |ds| ==> ds[lcn].pblk == block))
    ensures SegmentsFrom(ds, lcn, cursor, inode, blockSize)
         == Ok(SegmentsOf(ps, lcn, block, blockSize, inode.size, inode.algorithms % 16))
    ensures NoEmptyPlain(ds, lcn, inode, blockSize)
    decreases |ps|
  {
    hide NextSegment, FitsBlock, Stores, HeadEnd, PlainEnd, SegmentOf, LogicalStart;
    if ps == [] {
      assert es[lcn..] == [];
    } else {
      HeadResolvesAt(algo, blockSize, ds, es, blocks, ps, lcn, data, inode, cursor, block);
      var next := lcn + ps[0].clusters;
      SkipFillers(ds, lcn + 1, next, Some(block + 1), inode, blockSize);
      var rest := data[SpanLength(ps[0], blockSize, data)..];
      IndexResolves(algo, blockSize, ds, es, blocks, ps[1..], next, rest, inode, Some(block + 1), block + 1);
    }
  }

  lemma {:induction false} HeadResolvesAt(
    algo: Algo, blockSize: nat, ds: seq<CompactEntry>, es: seq<Entry>, blocks: seq<nat>, ps: seq<Pcluster>,
    lcn: nat, data: bytes, inode: CompactInode, cursor: Option<nat>, block: nat)
    requires 0 < blockSize <= 0x1000 && ps != [] && DecodedIndex(ds, es, blocks)
    requires At(algo, blockSize, es, ps, lcn, data, inode.size)
    requires cursor == Some(block) || (cursor == None && (lcn < |ds| ==> ds[lcn].pblk == block))
    ensures lcn < lcn + ps[0].clusters <= |ds|
    ensures NextSegment(ds, lcn, cursor, inode, blockSize)
         == Ok(([SegmentOf(ps[0], lcn * blockSize, block, blockSize, inode.size, inode.algorithms % 16)], Some(block + 1)))
    ensures forall k :: lcn < k < lcn + ps[0].clusters ==> ds[k].kind == NONHEAD
    ensures ds[lcn].kind == PLAIN ==> LogicalStart(ds[lcn], blockSize) < PlainEnd(ds, lcn + 1, blockSize, inode.size)
    ensures At(algo, blockSize, es, ps[1..], lcn + ps[0].clusters, data[SpanLength(ps[0], blockSize, data)..], inode.size)
  {
    hide FitsBlock, Stores, LogicalStart, PlainEnd, NextSegment, SegmentOf;
    AtNext(algo, blockSize, es, ps, lcn, data, inode.size);
    HeadResolves(algo, blockSize, ds, es, blocks, ps, lcn, data, inode, cursor, block);
    assert es[lcn] == es[lcn..lcn + ps[0].clusters][0];
    assert Decoded(ds[lcn], es[lcn], lcn, blocks[lcn]);
    if ps[1..] == [] {
      var n := SpanLength(ps[0], blockSize, data);
      assert es[|es|..] == [] && data[n..] == [];
      StoresNothing(algo, blockSize);
    }
  }

  // ---- The segments stand for the file -----------------------------------------------------------

  /** Decompressing a zero-padded payload block gives back the span it was compressed from. */
  ghost predicate Undoes(algo: Algo, inflate: Inflate, algorithm: nat, blockSize: nat) {
    forall span: bytes :: FitsBlock(algo, blockSize, span).Some? ==>
      var payload := FitsBlock(algo, blockSize, span).value;
      inflate(algorithm, payload + Zeros(blockSize - |payload|), |span|) == Some(span)
  }

  lemma {:induction false} FirstSegmentReads(
    algo: Algo, inflate: Inflate, algorithm: nat, blockSize: nat, image: bytes, p: Pcluster, pos: nat, block: nat, whole: bytes)
    requires 0 < blockSize <= 0x1000 && Undoes(algo, inflate, algorithm, blockSize)
    requires pos < |whole| && Packed(p, blockSize)
    requires var n := SpanLength(p, blockSize, whole[pos..]);
             if p.head then FitsBlock(algo, blockSize, whole[pos..][..n]) == Some(p.payload) else p.payload == whole[pos..][..n]
    requires HasAt(image, block * blockSize, PaddedPayload(p, blockSize))
    ensures var s := SegmentOf(p, pos, block, blockSize, |whole|, algorithm);
            && s.start == pos < s.end <= |whole|
            && s.end == pos + SpanLength(p, blockSize, whole[pos..])
            && SegmentBytes(image, blockSize, inflate, s) == Some(whole[pos..s.end])
  {
    hide FitsBlock;
    var n := SpanLength(p, blockSize, whole[pos..]);
    var padded := PaddedPayload(p, blockSize);
    assert p.clusters * blockSize >= blockSize by { MulMonotone(1, p.clusters, blockSize); }
    assert whole[pos..][..n] == whole[pos..pos + n];
    var at := block * blockSize;
    if p.head {
      assert Slice(image, at, blockSize) == Some(padded);
      HeadBytes(inflate, algorithm, blockSize, image, padded, pos, pos + n, block, whole[pos..pos + n]);
    } else {
      HasAtPart(image, at, padded, 0, p.payload);
    }
  }

  lemma {:induction false} HeadBytes(
    inflate: Inflate, algorithm: nat, blockSize: nat, image: bytes, padded: bytes, pos: nat, end: nat, block: nat, span: bytes)
    requires 0 < blockSize <= 0x1000 && pos <= end && |span| == end - pos
    requires Slice(image, block * blockSize, blockSize) == Some(padded)
    requires inflate(algorithm, padded, |span|) == Some(span)
    ensures SegmentBytes(image, blockSize, inflate, Segment(HEAD1, pos, end, block, 1, algorithm)) == Some(span)
  {
    assert blockSize * 1 == blockSize;
  }

  lemma {:induction false} PayloadIsFile(
    algo: Algo, inflate: Inflate, algorithm: nat, blockSize: nat, image: bytes, ps: seq<Pcluster>,
    lcn: nat, block: nat, whole: bytes)
    requires 0 < blockSize <= 0x1000 && Undoes(algo, inflate, algorithm, blockSize) && AllPacked(ps, blockSize)
    requires ps != [] ==> lcn * blockSize <= |whole| && Stores(algo, blockSize, ps, whole[lcn * blockSize..])
    requires Carries(image, block * blockSize, Payloads(ps, blockSize))
    ensures FileFrom(image, blockSize, inflate, SegmentsOf(ps, lcn, block, blockSize, |whole|, algorithm),
                     if ps == [] then |whole| else lcn * blockSize, whole)
    decreases |ps|
  {
    hide FitsBlock, PaddedPayload, SegmentOf, SegmentBytes, Undoes, Stores, Payloads, Carries, FileFrom, SpanLength;
    if ps == [] {
      FileFromNothing(image, blockSize, inflate, whole);
    } else {
      var pos := lcn * blockSize;
      PayloadsSplit(image, block, ps, blockSize);
      StoresFirst(algo, blockSize, ps, whole[pos..]);
      FirstSegmentReads(algo, inflate, algorithm, blockSize, image, ps[0], pos, block, whole);
      var n := SpanLength(ps[0], blockSize, whole[pos..]);
      var next := lcn + ps[0].clusters;
      MulDistributes(lcn, ps[0].clusters, blockSize);
      assert whole[pos..][n..] == whole[pos + n..];
      StoresEmpty(algo, blockSize, ps[1..], whole[pos + n..]);
      PayloadIsFile(algo, inflate, algorithm, blockSize, image, ps[1..], next, block + 1, whole);
      FileFromCons(image, blockSize, inflate, SegmentOf(ps[0], pos, block, blockSize, |whole|, algorithm),
                   SegmentsOf(ps[1..], next, block + 1, blockSize, |whole|, algorithm), pos, whole);
    }
  }

  lemma {:induction false} FileFromNothing(image: bytes, blockSize: nat, inflate: Inflate, content: bytes)
    ensures FileFrom(image, blockSize, inflate, [], |content|, content)
  {
  }

  lemma {:induction false} FileFromCons(
    image: bytes, blockSize: nat, inflate: Inflate, s: Segment, rest: seq<Segment>, pos: nat, content: bytes)
    requires s.start == pos < s.end <= |content|
    requires SegmentBytes(image, blockSize, inflate, s) == Some(content[pos..s.end])
    requires FileFrom(image, blockSize, inflate, rest, s.end, content)
    ensures FileFrom(image, blockSize, inflate, [s] + rest, pos, content)
  {
    hide SegmentBytes;
    assert ([s] + rest)[1..] == rest;
  }

  lemma {:induction false} StoresFirst(algo: Algo, blockSize: nat, ps: seq<Pcluster>, data: bytes)
    requires ps != [] && Stores(algo, blockSize, ps, data)
    ensures var p, n := ps[0], SpanLength(ps[0], blockSize, data);
            && data != []
            && (if p.head then FitsBlock(algo, blockSize, data[..n]) == Some(p.payload) else p.payload == data[..n])
            && Stores(algo, blockSize, ps[1..], data[n..])
            && (ps[1..] != [] ==> n == p.clusters * blockSize)
  {
    hide FitsBlock;
    StoresEmpty(algo, blockSize, ps[1..], data[SpanLength(ps[0], blockSize, data)..]);
  }

  lemma {:induction false} PayloadsSplit(image: bytes, block: nat, ps: seq<Pcluster>, blockSize: nat)
    requires blockSize > 0 && ps != [] && AllPacked(ps, blockSize)
    requires Carries(image, block * blockSize, Payloads(ps, blockSize))
    ensures Packed(ps[0], blockSize) && AllPacked(ps[1..], blockSize)
    ensures HasAt(image, block * blockSize, PaddedPayload(ps[0], blockSize))
    ensures Carries(image, (block + 1) * blockSize, Payloads(ps[1..], blockSize))
  {
    hide PaddedPayload;
    assert Packed(ps[0], blockSize);
    var first, later := PaddedPayload(ps[0], blockSize), Payloads(ps[1..], blockSize);
    assert (block + 1) * blockSize == block * blockSize + blockSize;
    HasAtPart(image, block * blockSize, first + later, 0, first);
    HasAtPart(image, block * blockSize, first + later, blockSize, later);
  }

  // ---- Main results ------------------------------------------------------------------------------

  /** `image` carries the packed index of `data` at `index` and its payload from block `first` on. */
  ghost predicate Stored(image: bytes, data: bytes, blockSize: nat, algo: Algo, index: nat, first: nat)
    requires blockSize > 0 && first + DivCeil(|data|, blockSize) <= U32_LIMIT
  {
    var ps := PackClusters(algo, blockSize, Clusters(data, blockSize));
    && AllPacked(ps, blockSize)
    && Carries(image, index, EncodedIndex(ps, first))
    && Carries(image, first * blockSize, Payloads(ps, blockSize))
  }

  /** An image that carries the packed index and payload of `data` holds the file `data`. */
  lemma {:induction false} StoredFileHolds(
    image: bytes, data: bytes, blockSize: nat, algo: Algo, inflate: Inflate, inode: CompactInode, first: nat)
    returns (segs: seq<Segment>)
    requires 0 < blockSize <= 0x1000 && Undoes(algo, inflate, inode.algorithms % 16, blockSize)
    requires 1 <= first && first + DivCeil(|data|, blockSize) <= U32_LIMIT
    requires inode.size == |data| && inode.index % 8 == 0
    requires Stored(image, data, blockSize, algo, inode.index, first)
    ensures Holds(image, blockSize, inflate, inode, segs, data)
    ensures PlainsCarryData(image, blockSize, inode)
  {
    hide FitsBlock, Clusters, PackClusters, Payloads, Packs, Entries, SegmentsFrom, FileFrom, NoEmptyPlain, Stores,
         Paired, Encodable, Undoes, DecodedIndex;
    var ps := PackClusters(algo, blockSize, Clusters(data, blockSize));
    var es, blocks := IndexEntries(ps), EntryBlocks(ps, first);
    var ds := PackedIndexDecodes(image, data, blockSize, algo, inode.index, first);
    ClustersShape(data, blockSize);
    PackClustersStores(algo, blockSize, data);
    StoresEmpty(algo, blockSize, ps, data);
    segs := SegmentsOf(ps, 0, first, blockSize, |data|, inode.algorithms % 16);
    assert es[0..] == es && data[0..] == data && 0 * blockSize == 0;
    IndexResolves(algo, blockSize, ds, es, blocks, ps, 0, data, inode, None, first);
    PayloadIsFile(algo, inflate, inode.algorithms % 16, blockSize, image, ps, 0, first, data);
  }

  /** The index of a packed file reads back entry by entry, and its first entry names the first block. */
  lemma {:induction false} PackedIndexDecodes(
    image: bytes, data: bytes, blockSize: nat, algo: Algo, index: nat, first: nat)
    returns (ds: seq<CompactEntry>)
    requires 0 < blockSize <= 0x1000 && index % 8 == 0
    requires 1 <= first && first + DivCeil(|data|, blockSize) <= U32_LIMIT
    requires Carries(image, index, EncodedIndex(PackClusters(algo, blockSize, Clusters(data, blockSize)), first))
    ensures var ps := PackClusters(algo, blockSize, Clusters(data, blockSize));
            && |IndexEntries(ps)| == DivCeil(|data|, blockSize)
            && Entries(image, LowUnit(blockSize), index, DivCeil(|data|, blockSize)) == Ok(ds)
            && DecodedIndex(ds, IndexEntries(ps), EntryBlocks(ps, first))
            && (|ds| > 0 ==> ds[0].pblk == first)
  {
    hide FitsBlock, Clusters, PackClusters, Packs, Entries, Stores, Paired;
    var clusters := Clusters(data, blockSize);
    var ps := PackClusters(algo, blockSize, clusters);
    var es, blocks := IndexEntries(ps), EntryBlocks(ps, first);
    ClustersShape(data, blockSize);
    PackClustersShape(algo, blockSize, clusters);
    PackedIsPaired(algo, blockSize, clusters, first);
    IndexEntriesEncodable(ps);
    if ps == [] {
      ds := [];
      EntriesStart(image, 0x1000, index);
    } else {
      CarriesNonEmpty(image, index, ps, first);
      BlocksInRange(blocks, first, |ps|);
      ds := IndexDecodes(image, index, es, blocks, |es|);
      if |ds| > 0 {
        FirstEntryBlock(ps, first);
        assert Decoded(ds[0], es[0], 0, blocks[0]);
      }
    }
  }

  lemma {:induction false} BlocksInRange(blocks: seq<nat>, first: nat, n: nat)
    requires forall b :: b in blocks ==> first <= b < first + n
    ensures forall k :: 0 <= k < |blocks| ==> first <= blocks[k] < first + n
  {
    forall k | 0 <= k < |blocks|
      ensures first <= blocks[k] < first + n
    {
      assert blocks[k] in blocks;
    }
  }

  lemma {:induction false} CarriesNonEmpty(image: bytes, index: nat, ps: seq<Pcluster>, first: nat)
    requires ps != [] && Carries(image, index, EncodedIndex(ps, first))
    ensures HasAt(image, index, EncodedIndex(ps, first))
  {
    EncodedIndexLength(ps, first);
    assert |EntriesOf(ps[0])| > 0;
  }

  lemma {:induction false} FirstEntryBlock(ps: seq<Pcluster>, first: nat)
    requires IndexEntries(ps) != []
    ensures EntryBlocks(ps, first)[0] == first && IndexEntries(ps)[0].kind != NONHEAD
  {
    assert Copies(first, 2) == Copies(first, 1) + [first];
    assert Copies(first, 1) == [] + [first];
  }

  /**
   End to end: a file streamed through the compressor and read back by the full reader is the file, for
   every content, whatever the compressor does, as long as the decompressor undoes it.
   */
  method StoreAndLoad(
    out: File, data: bytes, blockSize: nat, algo: Algo, inflate: Inflate, algorithms: nat, first: nat, index: nat)
    returns (loaded: array<byte>)
    requires 0 < blockSize <= 0x1000 && Undoes(algo, inflate, algorithms % 16, blockSize)
    requires 1 <= first && first + DivCeil(|data|, blockSize) <= U32_LIMIT
    requires index % 8 == 0 && index + IndexLength(DivCeil(|data|, blockSize)) <= first * blockSize
    modifies out
    ensures fresh(loaded) && loaded[..] == data
  {
    var inode := CompactInode(|data|, algorithms, index);
    var r, cursor, indexOff := StreamCompressedFile(out, data, blockSize, algo, first, first * blockSize, index);
    ghost var segs := StoredFileHolds(out.content, data, blockSize, algo, inflate, inode, first);
    loaded := new byte[|data|](_ => 0);
    var read := ReadCompactData(out.content, blockSize, inflate, inode, loaded, segs, data);
  }

  /** The reader's own LZ4 decoder as the decompressor of algorithm 0. */
  function Lz4Inflate(algorithm: nat, input: bytes, size: nat): Option<bytes> {
    match Lz4.Decode(input, size)
    case Ok(plain) => Some(plain)
    case Err(_) => None
  }

  /** For LZ4 the contract only asks that unpadded blocks decode: padding never matters. */
  lemma {:induction false} Lz4Undoes(algo: Algo, blockSize: nat)
    requires algo.Compressor?
    requires forall span: bytes :: Lz4.Decode(algo.compress(span), |span|) == Ok(span)
    ensures Undoes(algo, Lz4Inflate, 0, blockSize)
  {
    forall span: bytes | FitsBlock(algo, blockSize, span).Some?
      ensures var payload := FitsBlock(algo, blockSize, span).value;
              Lz4Inflate(0, payload + Zeros(blockSize - |payload|), |span|) == Some(span)
    {
      var payload := FitsBlock(algo, blockSize, span).value;
      assert payload == algo.compress(span);
      Lz4.DecodeIgnoresPadding(payload, Zeros(blockSize - |payload|), |span|);
    }
  }

  // ---- Block sizes the format cannot carry -------------------------------------------------------

  /** With blocks of 8 KiB and more the reader splits entries at another bit than the writer. */
  lemma {:induction false} HeadMisread(
    image: bytes, blockSize: nat, index: nat, es: seq<Entry>, blocks: seq<nat>, ds: seq<CompactEntry>, i: nat)
    requires blockSize > 0 && blockSize % 0x2000 == 0
    requires i < |es| == |blocks| == |ds| && Encodable(es) && es[i] == Entry(HEAD1, 0)
    requires index % 8 == 0 && HasAt(image, index, Packs(es, blocks))
    requires Entries(image, LowUnit(blockSize), index, |es|) == Ok(ds)
    ensures ds[i].value != 0
  {
    hide Entries, Packs, EntryAt, HasAt, Anchor;
    var before := EntriesAt(image, blockSize, index, |es|, ds, i);
    var raw := RawEntry(image, blockSize, index, es, blocks, before, i);
    assert raw % 0x2000 == 0x1000;
    ModKeepsRest(raw, blockSize, 0x2000);
  }

  lemma {:induction false} EntriesAt(
    image: bytes, blockSize: nat, index: nat, n: nat, ds: seq<CompactEntry>, i: nat)
    returns (before: seq<CompactEntry>)
    requires 0x1000 <= blockSize && i < n == |ds|
    requires Entries(image, blockSize, index, n) == Ok(ds)
    ensures before == ds[..i] && EntryAt(image, blockSize, index, before, i) == Ok(ds[i])
    decreases n
  {
    hide EntryAt;
    if i == n - 1 {
      before := ds[..i];
      assert Entries(image, blockSize, index, n - 1).value == before;
    } else {
      before := EntriesAt(image, blockSize, index, n - 1, Entries(image, blockSize, index, n - 1).value, i);
    }
  }

  // ---- Indexes without compressed extents ----------------------------------------------------------

  /** No entry starts a compressed extent. */
  predicate AllPlain(es: seq<Entry>) {
    forall i :: 0 <= i < |es| ==> es[i] == Entry(PLAIN, 0)
  }

  /** Pclusters are all plain, or their index has a HEAD entry. */
  lemma {:induction false} PlainOrHead(ps: seq<Pcluster>, first: nat) returns (head: nat)
    ensures AllPlain(IndexEntries(ps)) || (head < |IndexEntries(ps)| && IndexEntries(ps)[head] == Entry(HEAD1, 0))
    ensures AllPlain(IndexEntries(ps)) ==> forall i :: 0 <= i < |IndexEntries(ps)| ==> EntryBlocks(ps, first)[i] == first + i
    decreases |ps|
  {
    head := 0;
    if ps != [] {
      var rest := IndexEntries(ps[1..]);
      var later := PlainOrHead(ps[1..], first + 1);
      if !ps[0].head {
        assert IndexEntries(ps) == [Entry(PLAIN, 0)] + rest;
        assert Copies(first, 1) == [] + [first];
        head := later + 1;
        PlainBehind(rest);
      } else {
        assert IndexEntries(ps)[0] == Entry(HEAD1, 0);
      }
    }
  }

  lemma {:induction false} PlainBehind(rest: seq<Entry>)
    ensures AllPlain([Entry(PLAIN, 0)] + rest) <==> AllPlain(rest)
  {
    var es := [Entry(PLAIN, 0)] + rest;
    if AllPlain(es) {
      forall i | 0 <= i < |rest|
        ensures rest[i] == Entry(PLAIN, 0)
      {
        assert es[i + 1] == rest[i];
      }
    }
  }

  /**
   The second entry of every pack finds only zeros below the anchor bits its kind and value reach into. That is so for
   all packs exactly when it is for the first, and for the step of two blocks from one pack to the next.
   */
  predicate PlainsReadBack(blockSize: nat, first: nat, n: nat)
    requires blockSize > 0 && first > 0
  {
    n < 2 || ((first - 1) * U16_LIMIT % (4 * blockSize) == 0 && (n < 4 || 2 * U16_LIMIT % (4 * blockSize) == 0))
  }

  /** Power-of-two block sizes above 4 KiB. */
  predicate LargeBlock(blockSize: nat) {
    blockSize > 0 && blockSize % 0x2000 == 0 && U32_LIMIT % (4 * blockSize) == 0
  }

  lemma {:induction false} SumOfMultiples(a: nat, b: nat, m: nat)
    requires m > 0 && b % m == 0
    ensures (a + b) % m == a % m
  {
    var q := b / m;
    assert b == q * m;
    DivUnique(a + b, a / m + q, a % m, m);
  }

  lemma {:induction false} MultipleOfMultiple(j: nat, a: nat, m: nat)
    requires m > 0 && a % m == 0
    ensures j * a % m == 0
  {
    var q := a / m;
    assert a == q * m;
    MulAssociates(j, q, m);
    DivUnique(j * a, j * q, 0, m);
  }

  /** The low half of the anchor is all that counts. */
  lemma {:induction false} LowHalf(a: nat, blockSize: nat)
    requires LargeBlock(blockSize)
    ensures a % U16_LIMIT * U16_LIMIT % (4 * blockSize) == a * U16_LIMIT % (4 * blockSize)
  {
    var high, low, m := a / U16_LIMIT, a % U16_LIMIT, 4 * blockSize;
    assert a * U16_LIMIT == low * U16_LIMIT + high * U32_LIMIT;
    MultipleOfMultiple(high, U32_LIMIT, m);
    SumOfMultiples(low * U16_LIMIT, high * U32_LIMIT, m);
  }

  /** Every pack's anchor passes exactly when the closed form holds. */
  lemma {:induction false} EveryAnchor(blockSize: nat, first: nat, n: nat)
    requires LargeBlock(blockSize) && first > 0
    ensures PlainsReadBack(blockSize, first, n)
            <==> forall j: nat :: 2 * j + 1 < n ==> AnchorClear(blockSize, first, j)
  {
    var m := 4 * blockSize;
    if PlainsReadBack(blockSize, first, n) {
      forall j: nat | 2 * j + 1 < n
        ensures AnchorClear(blockSize, first, j)
      {
        if j > 0 {
          MultipleOfMultiple(j, 2 * U16_LIMIT, m);
        }
        assert (first - 1 + 2 * j) * U16_LIMIT == (first - 1) * U16_LIMIT + j * (2 * U16_LIMIT);
        SumOfMultiples((first - 1) * U16_LIMIT, j * (2 * U16_LIMIT), m);
      }
    } else if n >= 2 && AnchorClear(blockSize, first, 0) {
      SumOfMultiples(2 * U16_LIMIT, (first - 1) * U16_LIMIT, m);
      assert (first - 1 + 2) * U16_LIMIT == 2 * U16_LIMIT + (first - 1) * U16_LIMIT;
      assert !AnchorClear(blockSize, first, 1);
    } else if n >= 2 {
      assert 2 * 0 + 1 < n;
    }
  }

  predicate AnchorClear(blockSize: nat, first: nat, j: nat)
    requires blockSize > 0 && first > 0
  {
    (first - 1 + 2 * j) * U16_LIMIT % (4 * blockSize) == 0
  }

  /** A word reads as a plain entry exactly when nothing is in its value and kind bits. */
  lemma {:induction false} PlainWordIff(raw: nat, anchor: nat, blockSize: nat, before: seq<CompactEntry>, i: nat)
    requires blockSize > 0 && |before| == i && (i % 2 == 1 ==> before[i - 1].kind == PLAIN)
    ensures var entry := DecodeEntry(raw, anchor, blockSize, before, i, i % 2);
            (entry.Ok? && Decoded(entry.value, Entry(PLAIN, 0), i, anchor + 1 + i % 2)) <==> raw % (4 * blockSize) == 0
  {
    var value, kind := raw % blockSize, raw / blockSize % 4;
    WordBits(raw, blockSize);
    if i % 2 == 1 {
      assert WalkBack(before, i - 1, 1, 1) == WalkBack(before, i - 1, 0, 2) == Some(2);
    }
  }

  lemma {:induction false} WordBits(raw: nat, blockSize: nat)
    requires blockSize > 0
    ensures raw % (4 * blockSize) == 0 <==> raw % blockSize == 0 && raw / blockSize % 4 == 0
  {
    var q, value := raw / blockSize, raw % blockSize;
    assert raw == q * blockSize + value;
    var high, kind := q / 4, q % 4;
    assert q * blockSize == high * (4 * blockSize) + kind * blockSize;
    MulMonotone(kind, 3, blockSize);
    DivUnique(raw, high, kind * blockSize + value, 4 * blockSize);
    if kind > 0 {
      MulMonotone(1, kind, blockSize);
    }
  }

  /** Entry `i` of an index of plain entries reads back exactly when it is the first of its pack or the anchor is clear. */
  lemma {:induction false} PlainEntryIff(
    image: bytes, blockSize: nat, index: nat, es: seq<Entry>, blocks: seq<nat>, first: nat, before: seq<CompactEntry>, i: nat)
    requires LargeBlock(blockSize) && i < |es| == |blocks| && AllPlain(es) && index % 8 == 0
    requires 1 <= first && first + |es| <= U32_LIMIT && forall k :: 0 <= k < |es| ==> blocks[k] == first + k
    requires Encodable(es) && HasAt(image, index, Packs(es, blocks))
    requires |before| == i && (i % 2 == 1 ==> before[i - 1].kind == PLAIN)
    ensures var entry := EntryAt(image, blockSize, index, before, i);
            (entry.Ok? && Decoded(entry.value, es[i], i, blocks[i])) <==> (i % 2 == 1 ==> AnchorClear(blockSize, first, i / 2))
  {
    hide *;
    LargeUnit(blockSize);
    var raw := RawWord(image, blockSize, index, es, blocks, before, i);
    var anchor := first + i / 2 * 2 - 1;
    AnchorOf(blocks[i / 2 * 2]);
    PlainFirst(es, i);
    PlainUpper(es, blocks, first, i);
    PlainWordIff(raw, anchor, blockSize, before, i);
    if i % 2 == 1 {
      PlainAnchor(anchor, blockSize, first, i / 2);
    } else {
      ZeroWord(blockSize);
    }
  }

  lemma {:induction false} PlainUpper(es: seq<Entry>, blocks: seq<nat>, first: nat, i: nat)
    requires i < |es| == |blocks| && AllPlain(es) && Encodable(es)
    requires 1 <= first && first + |es| <= U32_LIMIT && forall k :: 0 <= k < |es| ==> blocks[k] == first + k
    ensures Upper(es, blocks, i) == if i % 2 == 0 then 0 else (first + i - 2) % U16_LIMIT
  {
    hide Anchor, Encodable, AllPlain, EncodeEntry, SecondEntry;
    if i % 2 == 0 {
      PlainSecond(es, i / 2);
    } else {
      AnchorOf(blocks[i - 1]);
    }
  }

  lemma {:induction false} PlainFirst(es: seq<Entry>, i: nat)
    requires AllPlain(es) && i < |es|
    ensures EncodableEntry(es[i]) && es[i] == Entry(PLAIN, 0) && EncodeEntry(es[i]) == 0
  {
  }

  lemma {:induction false} PlainSecond(es: seq<Entry>, k: nat)
    requires AllPlain(es) && Encodable(es)
    ensures SecondEntry(es, k) == 0
  {
    hide Encodable, AllPlain, EncodeEntry;
    if 2 * k + 1 < |es| {
      PlainFirst(es, 2 * k + 1);
    }
  }

  lemma {:induction false} AnchorOf(block: nat)
    requires 1 <= block <= U32_LIMIT
    ensures Anchor(block) == block - 1
  {
  }

  lemma {:induction false} ZeroWord(blockSize: nat)
    requires blockSize > 0
    ensures 0 % (4 * blockSize) == 0
  {
  }

  lemma {:induction false} PlainAnchor(anchor: nat, blockSize: nat, first: nat, j: nat)
    requires LargeBlock(blockSize) && first > 0 && anchor == first - 1 + 2 * j
    ensures U16_LIMIT * (anchor % U16_LIMIT) % (4 * blockSize) == 0 <==> AnchorClear(blockSize, first, j)
  {
    LowHalf(anchor, blockSize);
  }

  /** Where all anchors are clear the index of plain entries reads back. */
  lemma {:induction false} PlainsDecode(
    image: bytes, blockSize: nat, index: nat, es: seq<Entry>, blocks: seq<nat>, first: nat, n: nat)
    returns (decoded: seq<CompactEntry>)
    requires LargeBlock(blockSize) && n <= |es| == |blocks| && AllPlain(es) && index % 8 == 0
    requires 1 <= first && first + |es| <= U32_LIMIT && forall k :: 0 <= k < |es| ==> blocks[k] == first + k
    requires Encodable(es) && HasAt(image, index, Packs(es, blocks))
    requires forall j: nat :: 2 * j + 1 < |es| ==> AnchorClear(blockSize, first, j)
    ensures |decoded| == n && forall k :: 0 <= k < n ==> Decoded(decoded[k], es[k], k, blocks[k])
    ensures Entries(image, blockSize, index, n) == Ok(decoded)
    decreases n
  {
    hide EntryAt, HasAt, Packs, AnchorClear;
    if n == 0 {
      decoded := [];
    } else {
      var i := n - 1;
      var before := PlainsDecode(image, blockSize, index, es, blocks, first, i);
      if i % 2 == 1 {
        assert Decoded(before[i - 1], es[i - 1], i - 1, blocks[i - 1]);
        assert 2 * (i / 2) + 1 == i;
      }
      PlainEntryIff(image, blockSize, index, es, blocks, first, before, i);
      decoded := before + [EntryAt(image, blockSize, index, before, i).value];
    }
  }

  /** Where one is not, it does not. */
  lemma {:induction false} PlainMisread(
    image: bytes, blockSize: nat, index: nat, es: seq<Entry>, blocks: seq<nat>, first: nat, ds: seq<CompactEntry>, j: nat)
    requires LargeBlock(blockSize) && |es| == |blocks| == |ds| && AllPlain(es) && index % 8 == 0
    requires 1 <= first && first + |es| <= U32_LIMIT && forall k :: 0 <= k < |es| ==> blocks[k] == first + k
    requires Encodable(es) && HasAt(image, index, Packs(es, blocks))
    requires 2 * j + 1 < |es| && !AnchorClear(blockSize, first, j)
    requires Entries(image, LowUnit(blockSize), index, |es|) == Ok(ds)
    ensures !DecodedIndex(ds, es, blocks)
  {
    hide *;
    var i := 2 * j + 1;
    assert i / 2 == j && i % 2 == 1;
    if Decoded(ds[i - 1], es[i - 1], i - 1, blocks[i - 1]) {
      PlainFirst(es, i - 1);
      DecodedKind(ds[i - 1], es[i - 1], i - 1, blocks[i - 1]);
      LargeUnit(blockSize);
      var before := EntriesAt(image, blockSize, index, |es|, ds, i);
      PlainEntryIff(image, blockSize, index, es, blocks, first, before, i);
      NotDecoded(ds, es, blocks, i);
    } else {
      NotDecoded(ds, es, blocks, i - 1);
    }
  }

  lemma {:induction false} DecodedKind(d: CompactEntry, e: Entry, i: nat, block: nat)
    requires Decoded(d, e, i, block)
    ensures d.kind == e.kind
  {
  }

  lemma {:induction false} LargeUnit(blockSize: nat)
    requires LargeBlock(blockSize)
    ensures LowUnit(blockSize) == blockSize >= 0x1000
  {
  }

  /** Always with 8 and 16 KiB blocks, on every other first block with 32 KiB, and never for four clusters above that. */
  lemma {:induction false} PlainsBySize(blockSize: nat, first: nat, n: nat)
    requires LargeBlock(blockSize) && first > 0
    ensures blockSize == 0x2000 || blockSize == 0x4000 ==> PlainsReadBack(blockSize, first, n)
    ensures blockSize == 0x8000 ==> (PlainsReadBack(blockSize, first, n) <==> n < 2 || first % 2 == 1)
    ensures blockSize > 0x8000 && n >= 4 ==> !PlainsReadBack(blockSize, first, n)
  {
    if blockSize == 0x2000 {
      MultipleOfMultiple(first - 1, U16_LIMIT, 0x8000);
      assert 2 * U16_LIMIT % 0x8000 == 0;
    } else if blockSize == 0x4000 {
      MultipleOfMultiple(first - 1, U16_LIMIT, U16_LIMIT);
      assert 2 * U16_LIMIT % U16_LIMIT == 0;
    } else if blockSize == 0x8000 {
      Parity(first - 1);
      assert 2 * U16_LIMIT % 0x2_0000 == 0;
    } else if blockSize > 0x8000 {
      DivUnique(2 * U16_LIMIT, 0, 2 * U16_LIMIT, 4 * blockSize);
    }
  }

  lemma {:induction false} Parity(a: nat)
    ensures a * U16_LIMIT % 0x2_0000 == 0 <==> a % 2 == 0
  {
    DivUnique(a * U16_LIMIT, a / 2, a % 2 * U16_LIMIT, 0x2_0000);
  }

  /**
   The index of a file reads back exactly for block sizes up to 4 KiB, and above that when the file has no compressed
   extent and its anchors keep clear of the bits its second entries reach into: always with 8 and 16 KiB blocks.
   */
  lemma {:induction false} IndexReadsBackIff(
    image: bytes, blockSize: nat, index: nat, algo: Algo, clusters: seq<bytes>, first: nat)
    requires 0 < blockSize && (blockSize <= 0x1000 || LargeBlock(blockSize))
    requires index % 8 == 0 && 1 <= first && first + |clusters| <= U32_LIMIT && AllWithin(clusters, blockSize)
    requires HasAt(image, index, EncodedIndex(PackClusters(algo, blockSize, clusters), first))
    ensures var ps := PackClusters(algo, blockSize, clusters);
            (exists ds :: Entries(image, LowUnit(blockSize), index, |IndexEntries(ps)|) == Ok(ds)
                          && DecodedIndex(ds, IndexEntries(ps), EntryBlocks(ps, first)))
            <==> blockSize <= 0x1000 || (AllPlain(IndexEntries(ps)) && PlainsReadBack(blockSize, first, |clusters|))
  {
    hide PackClusters, Packs, Entries, PlainsReadBack, AnchorClear, AllPlain, HasAt, DecodedIndex;
    var ps := PackClusters(algo, blockSize, clusters);
    var es, blocks := IndexEntries(ps), EntryBlocks(ps, first);
    IndexEntriesEncodable(ps);
    PackClustersShape(algo, blockSize, clusters);
    PackedIsPaired(algo, blockSize, clusters, first);
    if blockSize <= 0x1000 {
      BlocksInRange(blocks, first, |ps|);
      var ds := IndexDecodes(image, index, es, blocks, |es|);
      WholeDecoded(ds, es, blocks);
    } else {
      LargeIndexIff(image, blockSize, index, ps, first);
    }
  }

  lemma {:induction false} WholeDecoded(ds: seq<CompactEntry>, es: seq<Entry>, blocks: seq<nat>)
    requires |ds| == |es| == |blocks| && forall k :: 0 <= k < |es| ==> Decoded(ds[k], es[k], k, blocks[k])
    ensures DecodedIndex(ds, es, blocks)
  {
  }

  lemma {:induction false} LargeIndexIff(image: bytes, blockSize: nat, index: nat, ps: seq<Pcluster>, first: nat)
    requires LargeBlock(blockSize) && index % 8 == 0 && 1 <= first && first + |IndexEntries(ps)| <= U32_LIMIT
    requires HasAt(image, index, EncodedIndex(ps, first))
    ensures (exists ds :: Entries(image, LowUnit(blockSize), index, |IndexEntries(ps)|) == Ok(ds)
                          && DecodedIndex(ds, IndexEntries(ps), EntryBlocks(ps, first)))
            <==> AllPlain(IndexEntries(ps)) && PlainsReadBack(blockSize, first, |IndexEntries(ps)|)
  {
    hide Packs, Entries, PlainsReadBack, AnchorClear, AllPlain, HasAt, DecodedIndex;
    var es, blocks := IndexEntries(ps), EntryBlocks(ps, first);
    IndexEntriesEncodable(ps);
    EveryAnchor(blockSize, first, |es|);
    var head := PlainOrHead(ps, first);
    if AllPlain(es) && PlainsReadBack(blockSize, first, |es|) {
      var ds := PlainsDecode(image, blockSize, index, es, blocks, first, |es|);
      WholeDecoded(ds, es, blocks);
    } else {
      forall ds | Entries(image, LowUnit(blockSize), index, |es|) == Ok(ds)
        ensures !DecodedIndex(ds, es, blocks)
      {
        if |ds| != |es| {
          OtherLength(ds, es, blocks);
        } else if AllPlain(es) {
          var j: nat :| 2 * j + 1 < |es| && !AnchorClear(blockSize, first, j);
          PlainMisread(image, blockSize, index, es, blocks, first, ds, j);
        } else {
          HeadMisread(image, blockSize, index, es, blocks, ds, head);
          assert !Decoded(ds[head], es[head], head, blocks[head]);
          NotDecoded(ds, es, blocks, head);
        }
      }
    }
  }

  lemma {:induction false} OtherLength(ds: seq<CompactEntry>, es: seq<Entry>, blocks: seq<nat>)
    requires |ds| != |es|
    ensures !DecodedIndex(ds, es, blocks)
  {
  }

  lemma {:induction false} NotDecoded(ds: seq<CompactEntry>, es: seq<Entry>, blocks: seq<nat>, i: nat)
    requires i < |es| == |ds| == |blocks| && !Decoded(ds[i], es[i], i, blocks[i])
    ensures !DecodedIndex(ds, es, blocks)
  {
    hide Decoded;
  }

  /** One 8 KiB cluster that compresses to a byte: its index cannot be read back. */
  lemma {:induction false} LargeBlockIsMisread()
    ensures var ps := PackClusters(Compressor(_ => [1]), 0x2000, [Zeros(0x2000)]);
            && IndexEntries(ps) == [Entry(HEAD1, 0)]
            && !exists ds :: Entries(EncodedIndex(ps, 1), LowUnit(0x2000), 0, 1) == Ok(ds)
                             && DecodedIndex(ds, IndexEntries(ps), EntryBlocks(ps, 1))
  {
    var algo, cluster := Compressor(_ => [1]), Zeros(0x2000);
    var clusters := [cluster];
    assert clusters[..1] == clusters && clusters[1..] == [];
    assert PackClusters(algo, 0x2000, []) == [];
    var ps := PackClusters(algo, 0x2000, clusters);
    assert ps == PackPair(algo, 0x2000, clusters) == [Pcluster(true, 1, [1])];
    assert ps[1..] == [] && IndexEntries(ps) == [Entry(HEAD1, 0)];
    var image := EncodedIndex(ps, 1);
    assert image[0..|image|] == image;
    hide PackClusters, EncodedIndex, Entries, DecodedIndex;
    assert !AllPlain(IndexEntries(ps)) by { assert IndexEntries(ps)[0].kind == HEAD1; }
    IndexReadsBackIff(image, 0x2000, 0, algo, clusters, 1);
  }
}
