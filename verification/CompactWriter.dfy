/**
 Writer of EROFS compressed-compact files: logical clusters are paired, packed into pclusters of one
 physical block each, indexed in 8-byte packs (two 16-bit entries and an anchor) and streamed in batches.
 */
module CompactWriter {
  import opened Core
  import opened OutFile
  import opened Arith
  import opened CompactFormat

  const MAX_CLUSTERS_PER_PCLUSTER := 2

  /** The compressor is a parameter; nothing about it is assumed on the writing side. */
  datatype Algo = NoCompression | Compressor(compress: bytes -> bytes)

  datatype Pcluster = Pcluster(head: bool, clusters: nat, payload: bytes)

  datatype Entry = Entry(kind: nat, value: nat)

  datatype WriteError = PclusterTooLarge

  // ---- Packing ---------------------------------------------------------------------------------

  function CompressPcluster(algo: Algo, input: bytes): (r: Option<bytes>)
    ensures r.Some? ==> |r.value| < |input|
  {
    if input == [] || algo.NoCompression? then None
    else
      var compressed := algo.compress(input);
      if |compressed| < |input| then Some(compressed) else None
  }

  /** Compressed form of a span, when it pays off and fits one block. */
  function FitsBlock(algo: Algo, blockSize: nat, span: bytes): (r: Option<bytes>)
    ensures r.Some? ==> |r.value| <= blockSize && algo.Compressor? && r.value == algo.compress(span)
  {
    match CompressPcluster(algo, span)
    case Some(c) => if |c| <= blockSize then Some(c) else None
    case None => None
  }

  function PackSingle(algo: Algo, blockSize: nat, cluster: bytes): Pcluster {
    match FitsBlock(algo, blockSize, cluster)
    case Some(c) => Pcluster(true, 1, c)
    case None => Pcluster(false, 1, cluster)
  }

  function PackPair(algo: Algo, blockSize: nat, pair: seq<bytes>): seq<Pcluster>
    requires 1 <= |pair| <= 2
  {
    var span := if |pair| == 1 then pair[0] else pair[0] + pair[1];
    var joint := if |span| <= blockSize * MAX_CLUSTERS_PER_PCLUSTER then FitsBlock(algo, blockSize, span) else None;
    if joint.Some? then [Pcluster(true, |pair|, joint.value)]
    else if |pair| == 1 then [Pcluster(false, 1, span)]
    else [PackSingle(algo, blockSize, pair[0]), PackSingle(algo, blockSize, pair[1])]
  }

  function PackClusters(algo: Algo, blockSize: nat, clusters: seq<bytes>): seq<Pcluster> {
    if clusters == [] then []
    else
      var n := Min(2, |clusters|);
      PackPair(algo, blockSize, clusters[..n]) + PackClusters(algo, blockSize, clusters[n..])
  }

  // ---- Index -----------------------------------------------------------------------------------

  /** What `pack_clusters` guarantees about every pcluster it emits. */
  predicate Packed(p: Pcluster, blockSize: nat) {
    1 <= p.clusters <= 2 && (!p.head ==> p.clusters == 1) && |p.payload| <= blockSize
  }

  predicate AllPacked(ps: seq<Pcluster>, blockSize: nat) {
    forall p :: p in ps ==> Packed(p, blockSize)
  }

  function EntriesOf(p: Pcluster): seq<Entry> {
    if !p.head then [Entry(PLAIN, 0)]
    else if p.clusters <= 1 then [Entry(HEAD1, 0)]
    else [Entry(HEAD1, 0), Entry(NONHEAD, 1)]
  }

  function IndexEntries(ps: seq<Pcluster>): seq<Entry> {
    if ps == [] then [] else EntriesOf(ps[0]) + IndexEntries(ps[1..])
  }

  function Copies(block: nat, n: nat): (b: seq<nat>)
    ensures |b| == n
  {
    if n == 0 then [] else Copies(block, n - 1) + [block]
  }

  /** Physical block of every entry: each pcluster owns the next one. */
  function EntryBlocks(ps: seq<Pcluster>, first: nat): (b: seq<nat>)
    ensures |b| == |IndexEntries(ps)|
  {
    if ps == [] then []
    else Copies(first, |EntriesOf(ps[0])|) + EntryBlocks(ps[1..], first + 1)
  }

  predicate EncodableEntry(e: Entry) {
    e.kind < 4 && e.value < 0x1000
  }

  function EncodeEntry(e: Entry): (r: nat)
    requires EncodableEntry(e)
    ensures r < U16_LIMIT
  {
    e.kind * 0x1000 + e.value
  }

  predicate Encodable(es: seq<Entry>) {
    forall i :: 0 <= i < |es| ==> EncodableEntry(es[i])
  }

  /** Anchor of the pack that starts at physical block `block`. */
  function Anchor(block: nat): (a: nat)
    ensures a < U32_LIMIT
  {
    Max(block - 1, 0) % U32_LIMIT
  }

  function Pack(first: nat, second: nat, block: nat): (b: bytes)
    requires first < U16_LIMIT && second < U16_LIMIT
    ensures |b| == 8
  {
    Le16(first) + Le16(second) + Le32(Anchor(block))
  }

  function Packs(es: seq<Entry>, blocks: seq<nat>): bytes
    requires |es| == |blocks| && Encodable(es)
  {
    if |es| == 0 then []
    else if |es| == 1 then Pack(EncodeEntry(es[0]), 0, blocks[0])
    else
      Pack(EncodeEntry(es[0]), EncodeEntry(es[1]), blocks[0]) + Packs(es[2..], blocks[2..])
  }

  lemma {:induction false} PacksLength(es: seq<Entry>, blocks: seq<nat>)
    requires |es| == |blocks| && Encodable(es)
    ensures |Packs(es, blocks)| == IndexLength(|es|)
    decreases |es|
  {
    hide Pack, EncodeEntry;
    if |es| > 1 {
      PacksLength(es[2..], blocks[2..]);
    }
  }

  lemma {:induction false} IndexEntriesEncodable(ps: seq<Pcluster>)
    ensures Encodable(IndexEntries(ps))
  {
    if ps != [] {
      IndexEntriesEncodable(ps[1..]);
    }
  }

  /** Index bytes of a whole pcluster run whose first payload block is `first`. */
  function EncodedIndex(ps: seq<Pcluster>, first: nat): bytes {
    IndexEntriesEncodable(ps);
    Packs(IndexEntries(ps), EntryBlocks(ps, first))
  }

  /** Payload blocks of a pcluster run, each zero-padded to the block size. */
  function PaddedPayload(p: Pcluster, blockSize: nat): (b: bytes)
    requires Packed(p, blockSize)
    ensures |b| == blockSize
  {
    p.payload + Zeros(blockSize - |p.payload|)
  }

  function Payloads(ps: seq<Pcluster>, blockSize: nat): (b: bytes)
    requires AllPacked(ps, blockSize)
  {
    if ps == [] then [] else PaddedPayload(ps[0], blockSize) + Payloads(ps[1..], blockSize)
  }

  // ---- Packing facts -----------------------------------------------------------------------------

  /** Logical clusters of a file: whole blocks, the last one possibly short. */
  function Clusters(data: bytes, blockSize: nat): (c: seq<bytes>)
    requires blockSize > 0
    decreases |data|
  {
    if data == [] then []
    else
      var n := Min(blockSize, |data|);
      [data[..n]] + Clusters(data[n..], blockSize)
  }

  predicate AllWithin(clusters: seq<bytes>, blockSize: nat) {
    forall c :: c in clusters ==> |c| <= blockSize
  }

  /** Every pcluster takes one block, and entries count logical clusters. */
  lemma {:induction false} PackClustersShape(algo: Algo, blockSize: nat, clusters: seq<bytes>)
    requires AllWithin(clusters, blockSize)
    ensures var ps := PackClusters(algo, blockSize, clusters);
            && AllPacked(ps, blockSize)
            && |IndexEntries(ps)| == |clusters|
            && |ps| <= |clusters|
    decreases |clusters|
  {
    hide PackPair, EntriesOf;
    if clusters != [] {
      var n := Min(2, |clusters|);
      var here, rest := PackPair(algo, blockSize, clusters[..n]), PackClusters(algo, blockSize, clusters[n..]);
      PackClustersShape(algo, blockSize, clusters[n..]);
      IndexEntriesAppend(here, rest);
      PackPairShape(algo, blockSize, clusters[..n]);
    }
  }

  lemma {:induction false} PackPairShape(algo: Algo, blockSize: nat, pair: seq<bytes>)
    requires 1 <= |pair| <= 2 && AllWithin(pair, blockSize)
    ensures var ps := PackPair(algo, blockSize, pair);
            AllPacked(ps, blockSize) && |IndexEntries(ps)| == |pair| && |ps| <= |pair|
  {
    hide FitsBlock;
    var ps := PackPair(algo, blockSize, pair);
    assert |ps| == 1 ==> ps == [ps[0]] && |EntriesOf(ps[0])| == |pair|;
    assert |ps| == 2 ==> |pair| == 2 && |EntriesOf(ps[0])| == |EntriesOf(ps[1])| == 1;
    if |ps| == 2 {
      assert IndexEntries(ps[1..]) == EntriesOf(ps[1]) + IndexEntries(ps[1..][1..]);
    } else {
      assert IndexEntries(ps[1..]) == [];
    }
  }

  lemma {:induction false} IndexEntriesAppend(a: seq<Pcluster>, b: seq<Pcluster>)
    ensures IndexEntries(a + b) == IndexEntries(a) + IndexEntries(b)
    decreases |a|
  {
    if a == [] {
      assert a + b == b;
    } else {
      IndexEntriesAppend(a[1..], b);
      assert (a + b)[1..] == a[1..] + b;
    }
  }

  lemma {:induction false} EntryBlocksAppend(a: seq<Pcluster>, b: seq<Pcluster>, first: nat)
    ensures EntryBlocks(a + b, first) == EntryBlocks(a, first) + EntryBlocks(b, first + |a|)
    decreases |a|
  {
    hide Copies, EntriesOf;
    if a == [] {
      assert a + b == b;
    } else {
      EntryBlocksAppend(a[1..], b, first + 1);
      assert (a + b)[1..] == a[1..] + b;
    }
  }

  lemma {:induction false} PacksAppend(e1: seq<Entry>, b1: seq<nat>, e2: seq<Entry>, b2: seq<nat>)
    requires |e1| == |b1| && |e2| == |b2| && |e1| % 2 == 0
    requires Encodable(e1) && Encodable(e2)
    ensures Encodable(e1 + e2)
    ensures Packs(e1 + e2, b1 + b2) == Packs(e1, b1) + Packs(e2, b2)
    decreases |e1|
  {
    hide Pack, EncodeEntry;
    if e1 == [] {
      assert e1 + e2 == e2 && b1 + b2 == b2;
    } else {
      PacksAppend(e1[2..], b1[2..], e2, b2);
      assert (e1 + e2)[2..] == e1[2..] + e2 && (b1 + b2)[2..] == b1[2..] + b2;
    }
  }

  /** An index splits wherever an even number of clusters precedes. */
  lemma {:induction false} EncodedIndexAppend(a: seq<Pcluster>, b: seq<Pcluster>, first: nat)
    requires |IndexEntries(a)| % 2 == 0
    ensures EncodedIndex(a + b, first) == EncodedIndex(a, first) + EncodedIndex(b, first + |a|)
  {
    IndexEntriesAppend(a, b);
    EntryBlocksAppend(a, b, first);
    IndexEntriesEncodable(a);
    IndexEntriesEncodable(b);
    PacksAppend(IndexEntries(a), EntryBlocks(a, first), IndexEntries(b), EntryBlocks(b, first + |a|));
  }

  lemma {:induction false} PackClustersAppend(algo: Algo, blockSize: nat, a: seq<bytes>, b: seq<bytes>)
    requires |a| % 2 == 0
    ensures PackClusters(algo, blockSize, a + b) == PackClusters(algo, blockSize, a) + PackClusters(algo, blockSize, b)
    decreases |a|
  {
    hide PackPair;
    if a == [] {
      assert a + b == b;
    } else {
      PackClustersAppend(algo, blockSize, a[2..], b);
      assert (a + b)[2..] == a[2..] + b && (a + b)[..2] == a[..2];
    }
  }

  lemma {:induction false} PayloadsAppend(a: seq<Pcluster>, b: seq<Pcluster>, blockSize: nat)
    requires AllPacked(a, blockSize) && AllPacked(b, blockSize)
    ensures AllPacked(a + b, blockSize)
    ensures Payloads(a + b, blockSize) == Payloads(a, blockSize) + Payloads(b, blockSize)
    decreases |a|
  {
    if a == [] {
      assert a + b == b;
    } else {
      PayloadsAppend(a[1..], b, blockSize);
      assert (a + b)[1..] == a[1..] + b;
    }
  }

  lemma {:induction false} PayloadsLength(ps: seq<Pcluster>, blockSize: nat)
    requires AllPacked(ps, blockSize)
    ensures |Payloads(ps, blockSize)| == |ps| * blockSize
    decreases |ps|
  {
    if ps != [] {
      PayloadsLength(ps[1..], blockSize);
    }
  }

  // ---- Encoding and streaming ------------------------------------------------------------------

  lemma {:induction false} EntryBlocksStep(ps: seq<Pcluster>, i: nat, cursor: nat)
    requires i < |ps| && 1 <= ps[i].clusters <= 2 && (!ps[i].head ==> ps[i].clusters == 1)
    ensures EntryBlocks(ps[i..], cursor) == Copies(cursor, ps[i].clusters) + EntryBlocks(ps[i + 1..], cursor + 1)
  {
    assert ps[i..][0] == ps[i] && ps[i..][1..] == ps[i + 1..];
  }

  /** A HEAD group shares one block among all its entries. */
  method PushShared(start: seq<nat>, block: nat, n: nat) returns (blocks: seq<nat>)
    ensures blocks == start + Copies(block, n)
  {
    blocks := start;
    for k := 0 to n
      invariant blocks == start + Copies(block, k)
    {
      blocks := blocks + [block];
    }
  }

  /** PLAIN clusters take one block each. */
  method PushPlain(start: seq<nat>, first: nat, n: nat) returns (blocks: seq<nat>, cursor: nat)
    requires n == 1
    ensures blocks == start + Copies(first, n) && cursor == first + n
  {
    blocks, cursor := start, first;
    for k := 0 to n
      invariant blocks == start + Copies(first, k) && cursor == first + k
    {
      blocks := blocks + [cursor];
      cursor := cursor + 1;
    }
  }

  method AssignBlocks(ps: seq<Pcluster>, first: nat) returns (blocks: seq<nat>, payloadBlocks: nat)
    requires forall i :: 0 <= i < |ps| ==> 1 <= ps[i].clusters <= 2 && (!ps[i].head ==> ps[i].clusters == 1)
    ensures blocks == EntryBlocks(ps, first)
    ensures payloadBlocks == |ps|
  {
    hide EntryBlocks;
    blocks := [];
    var cursor := first;
    payloadBlocks := 0;
    assert ps[0..] == ps;
    for i := 0 to |ps|
      invariant cursor == first + i && payloadBlocks == i
      invariant EntryBlocks(ps, first) == blocks + EntryBlocks(ps[i..], cursor)
    {
      EntryBlocksStep(ps, i, cursor);
      if ps[i].head {
        blocks := PushShared(blocks, cursor, ps[i].clusters);
        cursor := cursor + 1;
        payloadBlocks := payloadBlocks + 1;
      } else {
        blocks, cursor := PushPlain(blocks, cursor, ps[i].clusters);
        payloadBlocks := payloadBlocks + ps[i].clusters;
      }
    }
    EntryBlocksEmpty(cursor);
    assert ps[|ps|..] == [];
  }

  lemma {:induction false} EntryBlocksEmpty(cursor: nat)
    ensures EntryBlocks([], cursor) == []
  {
  }

  lemma {:induction false} PacksStep(es: seq<Entry>, blocks: seq<nat>, k: nat)
    requires k < |es| == |blocks| && Encodable(es)
    ensures Packs(es[k..], blocks[k..])
         == Pack(EncodeEntry(es[k]), if k + 1 < |es| then EncodeEntry(es[k + 1]) else 0, blocks[k])
          + Packs(es[Min(k + 2, |es|)..], blocks[Min(k + 2, |es|)..])
  {
    hide Pack, EncodeEntry;
    if k + 1 < |es| {
      assert es[k..][2..] == es[k + 2..] && blocks[k..][2..] == blocks[k + 2..];
    }
  }

  /** `encode_pclusters`: index bytes and number of payload blocks of a pcluster run. */
  method EncodePclusters(ps: seq<Pcluster>, first: nat) returns (out: bytes, payloadBlocks: nat)
    requires forall i :: 0 <= i < |ps| ==> 1 <= ps[i].clusters <= 2 && (!ps[i].head ==> ps[i].clusters == 1)
    ensures out == EncodedIndex(ps, first)
    ensures payloadBlocks == |ps|
  {
    hide Packs, Pack, EntryBlocks, IndexEntries;
    var entries := IndexEntries(ps);
    IndexEntriesEncodable(ps);
    var blocks;
    blocks, payloadBlocks := AssignBlocks(ps, first);
    out := [];
    var k := 0;
    assert entries[0..] == entries && blocks[0..] == blocks;
    while k < |entries|
      invariant 0 <= k <= |entries|
      invariant Packs(entries, blocks) == out + Packs(entries[k..], blocks[k..])
    {
      PacksStep(entries, blocks, k);
      var second := if k + 1 < |entries| then EncodeEntry(entries[k + 1]) else 0;
      out := out + Pack(EncodeEntry(entries[k]), second, blocks[k]);
      k := Min(k + 2, |entries|);
    }
    PacksEmpty(entries[k..], blocks[k..]);
  }

  lemma {:induction false} PacksEmpty(es: seq<Entry>, blocks: seq<nat>)
    requires |es| == |blocks| == 0
    ensures Packs(es, blocks) == []
  {
  }

  method WritePaddedBlock(out: File, dest: nat, data: bytes, blockSize: nat) returns (r: Result<(), WriteError>)
    requires blockSize > 0
    modifies out
    ensures r.Ok? <==> |data| <= blockSize
    ensures r.Ok? ==> out.content == Overwrite(old(out.content), dest, data + Zeros(blockSize - |data|))
    ensures r.Err? ==> out.content == old(out.content)
  {
    if |data| > blockSize {
      return Err(PclusterTooLarge);
    }
    out.WriteAt(dest, data);
    var pad := blockSize - |data|;
    if pad > 0 {
      OverwriteTwice(old(out.content), dest, data, Zeros(pad));
      out.WriteAt(dest + |data|, Zeros(pad));
    } else {
      assert data + Zeros(0) == data;
    }
    return Ok(());
  }

  // ---- Streaming a file ------------------------------------------------------------------------

  lemma {:induction false} ClustersShape(data: bytes, blockSize: nat)
    requires blockSize > 0
    ensures |Clusters(data, blockSize)| == DivCeil(|data|, blockSize)
    ensures AllWithin(Clusters(data, blockSize), blockSize)
    decreases |data|
  {
    if data != [] {
      var n := Min(blockSize, |data|);
      ClustersShape(data[n..], blockSize);
      DivCeilStep(|data|, blockSize);
    } else {
      DivCeilUnique(0, 0, blockSize);
    }
  }

  lemma {:induction false} ClustersNone(blockSize: nat)
    requires blockSize > 0
    ensures Clusters([], blockSize) == []
  {
  }

  lemma {:induction false} ClustersStep(data: bytes, blockSize: nat)
    requires blockSize > 0 && data != []
    ensures var m := Min(blockSize, |data|);
            Clusters(data, blockSize) == [data[..m]] + Clusters(data[m..], blockSize)
  {
  }

  lemma {:induction false} ClusterAt(data: bytes, blockSize: nat, i: nat)
    requires blockSize > 0 && i < |Clusters(data, blockSize)|
    ensures i * blockSize < |data|
    ensures Clusters(data, blockSize)[i] == data[i * blockSize..Min(i * blockSize + blockSize, |data|)]
    decreases i
  {
    hide Clusters;
    if data == [] {
      ClustersNone(blockSize);
    } else {
      ClustersStep(data, blockSize);
      if i > 0 {
        var rest := data[Min(blockSize, |data|)..];
        var from := (i - 1) * blockSize;
        ClusterAt(rest, blockSize, i - 1);
        assert i * blockSize == from + blockSize;
        assert rest[from..Min(from + blockSize, |rest|)] == data[from + blockSize..Min(from + 2 * blockSize, |data|)];
      }
    }
  }

  /**
   `after` is `before`, no shorter, with the index of `ps` at `indexAt`, their payload blocks at `payloadAt` (the
   offset of block `first`), and nothing else changed.
   */
  ghost predicate Streamed(
    before: bytes, after: bytes, ps: seq<Pcluster>, blockSize: nat, first: nat, indexAt: nat, payloadAt: nat)
    requires AllPacked(ps, blockSize)
  {
    var index, payload := EncodedIndex(ps, first), Payloads(ps, blockSize);
    && Carries(after, indexAt, index)
    && Carries(after, payloadAt, payload) && |after| >= |before|
    && forall i: nat ::
         (i < indexAt || indexAt + |index| <= i) && (i < payloadAt || payloadAt + |payload| <= i)
         ==> ByteAt(after, i) == ByteAt(before, i)
  }

  lemma {:induction false} StreamedMore(
    before: bytes, now: bytes, ps: seq<Pcluster>, more: seq<Pcluster>, blockSize: nat, first: nat, indexAt: nat, payloadAt: nat)
    requires AllPacked(ps, blockSize) && AllPacked(more, blockSize)
    requires |IndexEntries(ps)| % 2 == 0
    requires Streamed(before, now, ps, blockSize, first, indexAt, payloadAt)
    requires indexAt + |EncodedIndex(ps + more, first)| <= payloadAt
    ensures AllPacked(ps + more, blockSize)
    ensures EncodedIndex(ps + more, first) == EncodedIndex(ps, first) + EncodedIndex(more, first + |ps|)
    ensures Payloads(ps + more, blockSize) == Payloads(ps, blockSize) + Payloads(more, blockSize)
    ensures var indexed := Overwrite(now, indexAt + |EncodedIndex(ps, first)|, EncodedIndex(more, first + |ps|));
            var stored := Overwrite(indexed, payloadAt + |Payloads(ps, blockSize)|, Payloads(more, blockSize));
            Streamed(before, stored, ps + more, blockSize, first, indexAt, payloadAt)
  {
    hide EncodedIndex, Payloads, Carries, Overwrite, ByteAt;
    var index, payload := EncodedIndex(ps, first), Payloads(ps, blockSize);
    var index', payload' := EncodedIndex(more, first + |ps|), Payloads(more, blockSize);
    EncodedIndexAppend(ps, more, first);
    PayloadsAppend(ps, more, blockSize);
    var indexed := Overwrite(now, indexAt + |index|, index');
    CarriesMore(now, indexAt, index, index');
    CarriesElsewhere(now, indexAt + |index|, index', payloadAt, payload);
    CarriesMore(indexed, payloadAt, payload, payload');
    CarriesElsewhere(indexed, payloadAt + |payload|, payload', indexAt, index + index');
    OverwriteAt(now, indexAt + |index|, index');
    OverwriteAt(indexed, payloadAt + |payload|, payload');
  }

  lemma {:induction false} PayloadsSnoc(ps: seq<Pcluster>, i: nat, blockSize: nat)
    requires AllPacked(ps, blockSize) && i < |ps|
    ensures AllPacked(ps[..i], blockSize) && AllPacked(ps[..i + 1], blockSize)
    ensures Payloads(ps[..i + 1], blockSize) == Payloads(ps[..i], blockSize) + PaddedPayload(ps[i], blockSize)
    ensures |Payloads(ps[..i], blockSize)| == i * blockSize
  {
    hide PaddedPayload;
    assert ps[..i + 1] == ps[..i] + [ps[i]];
    assert Packed(ps[i], blockSize);
    PayloadsAppend(ps[..i], [ps[i]], blockSize);
    PayloadsLength(ps[..i], blockSize);
    assert [ps[i]][1..] == [];
  }

  method WritePayloads(out: File, start: nat, ps: seq<Pcluster>, blockSize: nat)
    returns (r: Result<(), WriteError>, cursor: nat)
    requires blockSize > 0 && AllPacked(ps, blockSize)
    modifies out
    ensures r.Ok? && cursor == start + |Payloads(ps, blockSize)|
    ensures out.content == Overwrite(old(out.content), start, Payloads(ps, blockSize))
  {
    hide Overwrite, Payloads;
    cursor := start;
    ghost var before := out.content;
    PayloadsOfNone(before, start, blockSize);
    assert ps[..0] == [];
    for i := 0 to |ps|
      invariant cursor == start + i * blockSize
      invariant AllPacked(ps[..i], blockSize)
      invariant out.content == Overwrite(before, start, Payloads(ps[..i], blockSize))
    {
      PayloadsSnoc(ps, i, blockSize);
      OverwriteTwice(before, start, Payloads(ps[..i], blockSize), PaddedPayload(ps[i], blockSize));
      var w := WritePaddedBlock(out, cursor, ps[i].payload, blockSize);
      cursor := cursor + blockSize;
      assert (i + 1) * blockSize == i * blockSize + blockSize;
    }
    assert ps[..|ps|] == ps;
    PayloadsLength(ps, blockSize);
    r := Ok(());
  }

  lemma {:induction false} PayloadsOfNone(content: bytes, start: nat, blockSize: nat)
    ensures Overwrite(content, start, Payloads([], blockSize)) == content
  {
  }

  /** State of the batch loop once the first `lcn` clusters are written. */
  ghost predicate Progress(
    before: bytes, after: bytes, algo: Algo, all: seq<bytes>, lcn: int, ps: seq<Pcluster>, blockSize: nat,
    first: nat, indexAt: nat, payloadAt: nat, indexOff: nat, cursor: nat)
  {
    && 0 <= lcn <= |all|
    && ps == PackClusters(algo, blockSize, all[..lcn])
    && AllPacked(ps, blockSize)
    && Streamed(before, after, ps, blockSize, first, indexAt, payloadAt)
    && cursor == payloadAt + |Payloads(ps, blockSize)|
    && indexOff == indexAt + |EncodedIndex(ps, first)|
  }

  /** A batch that starts at an even cluster takes its packed form no matter what came before. */
  lemma {:induction false} BatchPacks(algo: Algo, all: seq<bytes>, base: nat, lcn: nat, blockSize: nat, first: nat)
    requires base % 2 == 0 && base <= lcn <= |all| && AllWithin(all, blockSize)
    ensures var ps, more := PackClusters(algo, blockSize, all[..base]), PackClusters(algo, blockSize, all[base..lcn]);
            && ps + more == PackClusters(algo, blockSize, all[..lcn])
            && AllPacked(ps, blockSize) && AllPacked(more, blockSize)
            && |IndexEntries(ps)| == base
            && |EncodedIndex(ps + more, first)| == |EncodedIndex(ps, first)| + |EncodedIndex(more, first + |ps|)|
               == IndexLength(lcn)
  {
    hide PackClusters, EncodedIndex;
    assert all[..base] + all[base..lcn] == all[..lcn];
    PackClustersAppend(algo, blockSize, all[..base], all[base..lcn]);
    PackClustersShape(algo, blockSize, all[..base]);
    PackClustersShape(algo, blockSize, all[base..lcn]);
    PackClustersShape(algo, blockSize, all[..lcn]);
    EncodedIndexAppend(PackClusters(algo, blockSize, all[..base]), PackClusters(algo, blockSize, all[base..lcn]), first);
    EncodedIndexLength(PackClusters(algo, blockSize, all[..lcn]), first);
  }

  lemma {:induction false} EncodedIndexLength(ps: seq<Pcluster>, first: nat)
    ensures |EncodedIndex(ps, first)| == IndexLength(|IndexEntries(ps)|)
  {
    IndexEntriesEncodable(ps);
    PacksLength(IndexEntries(ps), EntryBlocks(ps, first));
  }

  lemma {:induction false} CursorBlock(ps: seq<Pcluster>, blockSize: nat, first: nat, payloadAt: nat)
    requires blockSize > 0 && AllPacked(ps, blockSize) && payloadAt == first * blockSize
    ensures (payloadAt + |Payloads(ps, blockSize)|) / blockSize == first + |ps|
  {
    PayloadsLength(ps, blockSize);
    assert first * blockSize + |ps| * blockSize == (first + |ps|) * blockSize + 0;
    DivUnique(payloadAt + |Payloads(ps, blockSize)|, first + |ps|, 0, blockSize);
  }

  /** One batch: pack, encode, write the index bytes and then the payload blocks. */
  method EmitBatch(
    out: File, algo: Algo, blockSize: nat, clusters: seq<bytes>, indexOff0: nat, cursor0: nat,
    ghost before: bytes, ghost all: seq<bytes>, ghost base: nat, ghost lcn: nat, ghost ps: seq<Pcluster>,
    ghost first: nat, ghost indexAt: nat, ghost payloadAt: nat)
    returns (blockBase: nat, indexOff: nat, cursor: nat, ghost more: seq<Pcluster>)
    requires Progress(before, out.content, algo, all, base, ps, blockSize, first, indexAt, payloadAt, indexOff0, cursor0)
    requires base % 2 == 0 && base <= lcn <= |all| && clusters == all[base..lcn] && AllWithin(all, blockSize)
    requires blockSize > 0 && payloadAt == first * blockSize && indexAt + IndexLength(|all|) <= payloadAt
    modifies out
    ensures more == PackClusters(algo, blockSize, clusters)
    ensures blockBase == first + |ps|
    ensures Progress(before, out.content, algo, all, lcn, ps + more, blockSize, first, indexAt, payloadAt, indexOff, cursor)
  {
    hide PackClusters, EncodedIndex, Payloads, Streamed, Overwrite, IndexLength, IndexEntries, AllPacked, AllWithin;
    BatchPacks(algo, all, base, lcn, blockSize, first);
    var pcl := PackClusters(algo, blockSize, clusters);
    more := pcl;
    CursorBlock(ps, blockSize, first, payloadAt);
    blockBase := cursor0 / blockSize;
    IndexLengthMonotone(lcn, |all|);
    StreamedMore(before, out.content, ps, more, blockSize, first, indexAt, payloadAt);
    PackedShapes(pcl, blockSize);
    var indexBytes, payloadBlocks := EncodePclusters(pcl, blockBase);
    out.WriteAt(indexOff0, indexBytes);
    indexOff := indexOff0 + |indexBytes|;
    var w;
    w, cursor := WritePayloads(out, cursor0, pcl, blockSize);
  }

  lemma {:induction false} IndexLengthMonotone(a: nat, b: nat)
    requires a <= b
    ensures IndexLength(a) <= IndexLength(b)
  {
    DivCeilMonotone(a, b, 2);
  }

  lemma {:induction false} PackedShapes(ps: seq<Pcluster>, blockSize: nat)
    requires AllPacked(ps, blockSize)
    ensures forall i :: 0 <= i < |ps| ==> 1 <= ps[i].clusters <= 2 && (!ps[i].head ==> ps[i].clusters == 1)
  {
    forall i | 0 <= i < |ps|
      ensures Packed(ps[i], blockSize)
    {
    }
  }

  /** Clusters per batch: an even number, about half a megabyte of input. */
  function BatchClusters(blockSize: nat): (n: nat)
    requires blockSize > 0
    ensures 2 <= n <= 128 && n % 2 == 0
  {
    Max(1, Min(64, 512 * 1024 / blockSize)) * MAX_CLUSTERS_PER_PCLUSTER
  }

  function LastOf(clusters: seq<bytes>): Option<bytes> {
    if clusters == [] then None else Some(clusters[|clusters| - 1])
  }

  function AllButLast(clusters: seq<bytes>): seq<bytes> {
    if clusters == [] then [] else clusters[..|clusters| - 1]
  }

  /** Clusters `[from, from + take)` read one by one behind those already at hand. */
  method ReadClusters(data: bytes, blockSize: nat, start: seq<bytes>, ghost base: nat, from: nat, take: nat)
    returns (clusters: seq<bytes>)
    requires blockSize > 0 && base <= from && from + take <= |Clusters(data, blockSize)|
    requires start == Clusters(data, blockSize)[base..from]
    ensures clusters == Clusters(data, blockSize)[base..from + take]
  {
    hide Clusters;
    ghost var all := Clusters(data, blockSize);
    clusters := start;
    for index := 0 to take
      invariant clusters == all[base..from + index]
    {
      ClusterAt(data, blockSize, from + index);
      var off := (from + index) * blockSize;
      var len := Min(|data| - off, blockSize);
      clusters := clusters + [data[off..off + len]];
    }
  }

  /**
   Reads the next batch behind a cluster carried over from the previous one. An odd batch before the end
   would hand its last cluster on; since batches hold an even number of clusters, none ever does.
   */
  method NextBatch(data: bytes, blockSize: nat, carried: Option<bytes>, base: nat)
    returns (clusters: seq<bytes>, carry: Option<bytes>, lcn: int)
    requires blockSize > 0 && base < |Clusters(data, blockSize)| == DivCeil(|data|, blockSize) && base % 2 == 0
    requires carried.Some? ==> carried.value == Clusters(data, blockSize)[base]
    ensures base < lcn <= DivCeil(|data|, blockSize)
    ensures clusters == Clusters(data, blockSize)[base..lcn]
    ensures lcn % 2 == 0 || lcn == DivCeil(|data|, blockSize)
    ensures carry.None?
  {
    hide Clusters, BatchClusters, DivCeil;
    var total := DivCeil(|data|, blockSize);
    var batchClusters := BatchClusters(blockSize);
    clusters, carry, lcn := [], None, base;
    if carried.Some? {
      clusters := [carried.value];
      lcn := lcn + 1;
    }
    var take := Min(total - lcn, Max(0, batchClusters - |clusters|));
    clusters := ReadClusters(data, blockSize, clusters, base, lcn, take);
    lcn := lcn + take;
    if |clusters| % 2 == 1 && lcn < total {
      carry := LastOf(clusters);
      clusters := AllButLast(clusters);
      lcn := lcn - 1;
    }
  }

  /**
   `stream_compressed_file`: batches of whole pairs. Whatever the batch size, the file ends up with
   exactly the index and the payload blocks that packing all clusters at once would give.
   */
  method StreamCompressedFile(
    out: File, data: bytes, blockSize: nat, algo: Algo, ghost first: nat, payloadAt: nat, indexAt: nat)
    returns (r: Result<nat, WriteError>, cursor: nat, indexOff: nat)
    requires blockSize > 0 && payloadAt == first * blockSize
    requires indexAt + IndexLength(DivCeil(|data|, blockSize)) <= payloadAt
    modifies out
    ensures var ps := PackClusters(algo, blockSize, Clusters(data, blockSize));
            && AllPacked(ps, blockSize)
            && r == Ok(if data == [] then 0 else first)
            && Streamed(old(out.content), out.content, ps, blockSize, first, indexAt, payloadAt)
            && cursor == payloadAt + |ps| * blockSize
            && |ps| <= DivCeil(|data|, blockSize)
    ensures indexOff == indexAt + IndexLength(DivCeil(|data|, blockSize))
  {
    hide PackClusters, EncodedIndex, Payloads, Streamed, Clusters, IndexLength, AllWithin, AllPacked, BatchClusters, Progress, DivCeil;
    var total := DivCeil(|data|, blockSize);
    ghost var all, before := Clusters(data, blockSize), out.content;
    ClustersShape(data, blockSize);
    NothingStreamed(before, algo, all, blockSize, first, indexAt, payloadAt);
    AllStreamed(data, algo, all, blockSize, first);
    cursor, indexOff := payloadAt, indexAt;
    if total == 0 {
      return Ok(0), cursor, indexOff;
    }
    var lcn: int := 0;
    var carry: Option<bytes> := None;
    var firstBlock, wroteAny := 0, false;
    ghost var ps: seq<Pcluster> := [];
    while carry.Some? || lcn < total
      invariant 0 <= lcn <= total && (lcn % 2 == 0 || lcn == total) && carry.None?
      invariant Progress(before, out.content, algo, all, lcn, ps, blockSize, first, indexAt, payloadAt, indexOff, cursor)
      invariant (ps == [] <==> lcn == 0) && wroteAny == (lcn > 0) && (wroteAny ==> firstBlock == first)
      decreases total - lcn
    {
      ghost var base := lcn;
      var clusters;
      clusters, carry, lcn := NextBatch(data, blockSize, carry, lcn);
      if clusters == [] {
        break;
      }
      var blockBase;
      ghost var more;
      blockBase, indexOff, cursor, more := EmitBatch(
        out, algo, blockSize, clusters, indexOff, cursor, before, all, base, lcn, ps, first, indexAt, payloadAt);
      if !wroteAny {
        firstBlock, wroteAny := blockBase, true;
      }
      ps := ps + more;
      PackClustersNonEmpty(algo, blockSize, all[..lcn]);
    }
    AllProgress(before, out.content, algo, all, ps, blockSize, first, indexAt, payloadAt, indexOff, cursor);
    return Ok(firstBlock), cursor, indexOff;
  }

  lemma {:induction false} AllProgress(
    before: bytes, after: bytes, algo: Algo, all: seq<bytes>, ps: seq<Pcluster>, blockSize: nat,
    first: nat, indexAt: nat, payloadAt: nat, indexOff: nat, cursor: nat)
    requires Progress(before, after, algo, all, |all|, ps, blockSize, first, indexAt, payloadAt, indexOff, cursor)
    ensures ps == PackClusters(algo, blockSize, all)
    ensures AllPacked(ps, blockSize) && Streamed(before, after, ps, blockSize, first, indexAt, payloadAt)
    ensures cursor == payloadAt + |Payloads(ps, blockSize)| && indexOff == indexAt + |EncodedIndex(ps, first)|
  {
    assert all[..|all|] == all;
  }

  lemma {:induction false} AllStreamed(data: bytes, algo: Algo, all: seq<bytes>, blockSize: nat, first: nat)
    requires blockSize > 0 && all == Clusters(data, blockSize)
    ensures all[..|all|] == all && (|all| == 0 <==> data == [])
    ensures var ps := PackClusters(algo, blockSize, all);
            && AllPacked(ps, blockSize) && |ps| <= |all|
            && |EncodedIndex(ps, first)| == IndexLength(|all|)
            && |Payloads(ps, blockSize)| == |ps| * blockSize
  {
    ClustersShape(data, blockSize);
    PackClustersShape(algo, blockSize, all);
    EncodedIndexLength(PackClusters(algo, blockSize, all), first);
    PayloadsLength(PackClusters(algo, blockSize, all), blockSize);
  }

  lemma {:induction false} PackClustersNonEmpty(algo: Algo, blockSize: nat, clusters: seq<bytes>)
    ensures PackClusters(algo, blockSize, clusters) == [] <==> clusters == []
  {
    hide FitsBlock;
  }

  lemma {:induction false} NothingStreamed(content: bytes, algo: Algo, all: seq<bytes>, blockSize: nat, first: nat, indexAt: nat, payloadAt: nat)
    ensures Progress(content, content, algo, all, 0, [], blockSize, first, indexAt, payloadAt, indexAt, payloadAt)
  {
  }
}
