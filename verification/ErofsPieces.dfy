/**
 The parts of a compressed EROFS image: inodes with their areas, map headers and indexes, the xattr table, directories
 and payloads, what each of them is and where it lies. No two of them meet.
 */
module ErofsPieces {
  import opened Core
  import opened Arith
  import opened CompactFormat
  import opened Spans
  import opened ErofsLayout
  import W = CompactWriter
  import D = ErofsDir

  const MAGIC: nat := 0xE0F5_E1E2
  const SUPER_BYTES: nat := 128
  const DIRECTORY: nat := 4
  const PLAIN_LAYOUT: nat := 0
  const COMPACT_LAYOUT: nat := 3

  const DOT: bytes := [46]
  const DOT_DOT: bytes := [46, 46]

  // ---- Nodes in preorder -----------------------------------------------------------------------------------

  predicate IsDir(n: Item) {
    n.info.mode / 0x1000 % 16 == DIRECTORY
  }

  /** `nodes`. */
  function Preorder(n: Item): (l: seq<Item>)
    ensures l != [] && l[0] == n
    decreases n
  {
    [n] + PreorderAll(n.children)
  }

  function PreorderAll(nodes: seq<Item>): seq<Item>
    decreases nodes
  {
    if nodes == [] then [] else Preorder(nodes[0]) + PreorderAll(nodes[1..])
  }

  function SlotRange(n: Item): Span {
    Span(n.nid, n.nid + Slots(n))
  }

  function SlotRanges(l: seq<Item>): (r: seq<Span>)
    ensures |r| == |l|
  {
    seq(|l|, i requires 0 <= i < |l| => SlotRange(l[i]))
  }

  lemma {:induction false} RangesJoin(a: seq<Item>, b: seq<Item>)
    ensures SlotRanges(a + b) == SlotRanges(a) + SlotRanges(b)
  {
  }

  /** The numbered nodes take consecutive stretches of slots in preorder. */
  lemma {:induction false} RangesInOrder(n: Item, next: nat, parent: nat, meta: nat, blockSize: nat)
    ensures var r := Assigned(n, next, parent, meta, blockSize);
            InOrder(SlotRanges(Preorder(r.0)), next, r.1)
    decreases n
  {
    hide FirstClear, Slots, InOrder;
    var nid := FirstClear(next, meta, blockSize, Slots(n));
    var r := Assigned(n, next, parent, meta, blockSize);
    SlotsSame(n, r.0);
    AllRangesInOrder(n.children, nid + Slots(n), nid, meta, blockSize);
    RangesJoin([r.0], PreorderAll(r.0.children));
    assert SlotRanges([r.0]) == [SlotRange(r.0)];
    SpanFirst(SlotRange(r.0), SlotRanges(PreorderAll(r.0.children)), r.1);
    OrderedWider(SlotRanges(Preorder(r.0)), nid, r.1, next, r.1);
  }

  lemma {:induction false} AllRangesInOrder(nodes: seq<Item>, next: nat, parent: nat, meta: nat, blockSize: nat)
    ensures var r := AssignedAll(nodes, next, parent, meta, blockSize);
            InOrder(SlotRanges(PreorderAll(r.0)), next, r.1)
    decreases nodes
  {
    hide Assigned, Preorder, InOrder, Slots;
    if nodes == [] {
      OrderedNothing(next);
      assert SlotRanges([]) == [];
    } else {
      var first := Assigned(nodes[0], next, parent, meta, blockSize);
      var rest := AssignedAll(nodes[1..], first.1, parent, meta, blockSize);
      RangesInOrder(nodes[0], next, parent, meta, blockSize);
      AllRangesInOrder(nodes[1..], first.1, parent, meta, blockSize);
      assert ([first.0] + rest.0)[1..] == rest.0;
      RangesJoin(Preorder(first.0), PreorderAll(rest.0));
      OrderedJoin(SlotRanges(Preorder(first.0)), SlotRanges(PreorderAll(rest.0)), next, first.1, rest.1);
    }
  }

  /** What a node occupies is part of what its tree does. */
  lemma {:induction false} NodeInTree(n: Item, base: nat, m: Item, s: Span)
    requires m in Preorder(n) && s in NodeSpans(m, base)
    ensures s in TreeSpans(n, base)
    decreases n
  {
    hide NodeSpans;
    if m != n {
      NodeInAll(n.children, base, m, s);
    }
  }

  lemma {:induction false} NodeInAll(nodes: seq<Item>, base: nat, m: Item, s: Span)
    requires m in PreorderAll(nodes) && s in NodeSpans(m, base)
    ensures s in AllSpans(nodes, base)
    decreases nodes
  {
    hide NodeSpans, Preorder, TreeSpans;
    if m in Preorder(nodes[0]) {
      NodeInTree(nodes[0], base, m, s);
    } else {
      NodeInAll(nodes[1..], base, m, s);
    }
  }

  // ---- What is written -------------------------------------------------------------------------------------

  /** Identification fields that are passed through. */
  datatype Labels = Labels(compat: nat, time: nat, volume: bytes, roCompat: nat)

  /**
   The image to be written: numbered nodes in preorder, the next free slot, the first metadata block, the shared xattr
   table, compressor and its number.
   */
  datatype Plan = Plan(list: seq<Item>, next: nat, meta: nat, blockSize: nat, xattr: bytes, algo: W.Algo, algorithm: byte)

  function DirEntries(n: Item): seq<D.Entry> {
    [D.Entry(n.nid, DOT, 2), D.Entry(n.parent, DOT_DOT, 2)]
    + seq(|n.children|, i requires 0 <= i < |n.children| =>
            D.Entry(n.children[i].nid, n.children[i].info.name, if IsDir(n.children[i]) then 2 else 1))
  }

  /** `directory_bytes` of a directory; nothing when an entry does not fit a block. */
  function DirData(n: Item, blockSize: nat): bytes {
    if D.DirBlock(blockSize) && D.EntriesFit(DirEntries(n)) then D.DirectoryBytes(DirEntries(n), blockSize) else []
  }

  /** Lengths of the directories among the nodes. */
  function DirLengths(l: seq<Item>, blockSize: nat): seq<nat>
    decreases |l|
  {
    if l == [] then []
    else
      var k := |l| - 1;
      DirLengths(l[..k], blockSize) + if IsDir(l[k]) then [|DirData(l[k], blockSize)|] else []
  }

  function Pclusters(n: Item, p: Plan): seq<W.Pcluster>
    requires p.blockSize > 0
  {
    W.PackClusters(p.algo, p.blockSize, W.Clusters(n.info.content, p.blockSize))
  }

  /** Payload blocks of the compressed files among the nodes. */
  function PayloadCounts(l: seq<Item>, p: Plan): seq<nat>
    requires p.blockSize > 0
    decreases |l|
  {
    if l == [] then []
    else
      var k := |l| - 1;
      PayloadCounts(l[..k], p) + if l[k].clusters > 0 then [|Pclusters(l[k], p)|] else []
  }

  lemma {:induction false} PayloadBlocksSnoc(payloads: seq<nat>, n: nat)
    ensures PayloadBlocks(payloads + [n]) == PayloadBlocks(payloads) + n
    decreases |payloads|
  {
    if payloads == [] {
      assert [] + [n] == [n] && PayloadBlocks([n]) == n + PayloadBlocks([]);
    } else {
      assert (payloads + [n])[1..] == payloads[1..] + [n];
      PayloadBlocksSnoc(payloads[1..], n);
    }
  }

  function StartBlock(p: Plan): nat
    requires p.blockSize > 0
  {
    p.meta + DivCeil(p.next * SLOT, p.blockSize)
  }

  function FirstDir(p: Plan): nat
    requires p.blockSize > 0
  {
    StartBlock(p) + DivCeil(|p.xattr|, p.blockSize)
  }

  /** First block of the directory that node `i` is, or of the next one. */
  function DirBlock(p: Plan, i: nat): nat
    requires p.blockSize > 0 && i <= |p.list|
  {
    FirstDir(p) + DirBlocks(DirLengths(p.list[..i], p.blockSize), p.blockSize)
  }

  /** First payload block of the compressed file that node `i` is, or of the next one. */
  function PayloadBlock(p: Plan, i: nat): nat
    requires p.blockSize > 0 && i <= |p.list|
  {
    DirBlock(p, |p.list|) + PayloadBlocks(PayloadCounts(p.list[..i], p))
  }

  function EndBlock(p: Plan): nat
    requires p.blockSize > 0
  {
    PayloadBlock(p, |p.list|)
  }

  lemma {:induction false} DirBlockStep(p: Plan, i: nat)
    requires p.blockSize > 0 && i < |p.list|
    ensures DirBlock(p, i + 1) == DirBlock(p, i) + if IsDir(p.list[i]) then DivCeil(|DirData(p.list[i], p.blockSize)|, p.blockSize) else 0
  {
    hide DirData, DivCeil, IsDir, FirstDir;
    var before, n := DirLengths(p.list[..i], p.blockSize), p.list[i];
    assert p.list[..i + 1][..i] == p.list[..i];
    if IsDir(n) {
      var more := before + [|DirData(n, p.blockSize)|];
      assert more[..|more| - 1] == before;
    } else {
      assert before + [] == before;
    }
  }

  lemma {:induction false} PayloadBlockStep(p: Plan, i: nat)
    requires p.blockSize > 0 && i < |p.list|
    ensures PayloadBlock(p, i + 1) == PayloadBlock(p, i) + if p.list[i].clusters > 0 then |Pclusters(p.list[i], p)| else 0
  {
    hide DirBlock, Pclusters;
    var before, n := PayloadCounts(p.list[..i], p), p.list[i];
    assert p.list[..i + 1][..i] == p.list[..i];
    if n.clusters > 0 {
      PayloadBlocksSnoc(before, |Pclusters(n, p)|);
    } else {
      assert before + [] == before;
    }
  }

  lemma {:induction false} DirBlocksRise(p: Plan, i: nat, j: nat)
    requires p.blockSize > 0 && i <= j <= |p.list|
    ensures FirstDir(p) <= DirBlock(p, i) <= DirBlock(p, j)
    decreases j
  {
    hide *;
    DirsBehindFirst(p, i);
    if i < j {
      DirBlocksRise(p, i, j - 1);
      DirBlockStep(p, j - 1);
    }
  }

  lemma {:induction false} DirsBehindFirst(p: Plan, i: nat)
    requires p.blockSize > 0 && i <= |p.list|
    ensures FirstDir(p) <= DirBlock(p, i)
  {
    hide FirstDir, DirLengths, DirBlocks;
  }

  lemma {:induction false} PayloadBlocksRise(p: Plan, i: nat, j: nat)
    requires p.blockSize > 0 && i <= j <= |p.list|
    ensures DirBlock(p, |p.list|) <= PayloadBlock(p, i) <= PayloadBlock(p, j)
    decreases j
  {
    hide *;
    PayloadsBehindDirs(p, i);
    if i < j {
      PayloadBlocksRise(p, i, j - 1);
      PayloadBlockStep(p, j - 1);
    }
  }

  lemma {:induction false} PayloadsBehindDirs(p: Plan, i: nat)
    requires p.blockSize > 0 && i <= |p.list|
    ensures DirBlock(p, |p.list|) <= PayloadBlock(p, i)
  {
    hide DirBlock, PayloadCounts, PayloadBlocks;
  }

  function SlotAt(p: Plan, n: Item): nat {
    p.meta * p.blockSize + n.nid * SLOT
  }

  /** Where the map header of a compressed file starts. */
  function DataAt(p: Plan, n: Item): nat {
    AlignUp8(SlotAt(p, n) + SLOT + AreaLength(n))
  }

  function SizeOf(n: Item, blockSize: nat): nat {
    if IsDir(n) then |DirData(n, blockSize)| else |n.info.content|
  }

  /** A compact inode and its xattr area; fields are truncated to their widths. */
  function InodeBytes(n: Item, size: nat, raw: nat): (b: bytes)
    ensures |b| == SLOT + |n.info.area|
  {
    InodeHead(n, size) + InodeTail(n, raw) + n.info.area
  }

  function InodeHead(n: Item, size: nat): (b: bytes)
    ensures |b| == 16
  {
    Le16(if n.clusters > 0 then 2 * COMPACT_LAYOUT else PLAIN_LAYOUT) + Le16(if n.context then 2 else 0)
    + Le16(n.info.mode % U16_LIMIT) + Le16(1) + Le32(size % U32_LIMIT) + Zeros(4)
  }

  function InodeTail(n: Item, raw: nat): (b: bytes)
    ensures |b| == 16
  {
    Le32(raw % U32_LIMIT) + Le32(n.nid % U32_LIMIT) + Le16(n.info.uid % U16_LIMIT) + Le16(n.info.gid % U16_LIMIT) + Zeros(4)
  }

  /** `map_header`. */
  function MapHeader(algorithm: byte): (b: bytes)
    ensures |b| == MAP_HEADER
  {
    Zeros(4) + Le16(0) + [algorithm, 0]
  }

  /** The first 48 bytes of the superblock. */
  function SuperHead(bits: nat, root: nat, nodes: nat, labels: Labels, blocks: nat, meta: nat, xattr: nat): (b: bytes)
    ensures |b| == 48
  {
    Le32(MAGIC) + Zeros(4) + Le32(labels.compat % U32_LIMIT) + [(bits % 0x100) as byte, 0] + Le16(root % U16_LIMIT)
    + Le64(nodes % U64_LIMIT) + Le64(labels.time % U64_LIMIT) + Zeros(4)
    + Le32(blocks % U32_LIMIT) + Le32(meta % U32_LIMIT) + Le32(xattr % U32_LIMIT)
  }

  function SuperBytes(bits: nat, root: nat, nodes: nat, labels: Labels, blocks: nat, meta: nat, xattr: nat): (b: bytes)
    requires |labels.volume| == 16
    ensures |b| == SUPER_BYTES
  {
    SuperHead(bits, root, nodes, labels, blocks, meta, xattr) + Zeros(16) + labels.volume + Zeros(20)
    + Le32(labels.roCompat % U32_LIMIT) + Zeros(24)
  }

  // ---- Pieces in the order they are written ----------------------------------------------------------------

  /** A stretch of the image and what is written there; nothing where the node has no such part. */
  datatype Piece = Piece(at: nat, data: bytes)

  function InodePiece(p: Plan, i: nat): Piece
    requires p.blockSize > 0 && i < |p.list|
  {
    var n := p.list[i];
    Piece(SlotAt(p, n), InodeBytes(n, SizeOf(n, p.blockSize), if IsDir(n) then DirBlock(p, i) else 0))
  }

  function DirPiece(p: Plan, i: nat): Piece
    requires p.blockSize > 0 && i < |p.list|
  {
    if IsDir(p.list[i]) then Piece(ByteOf(DirBlock(p, i), p.blockSize), DirData(p.list[i], p.blockSize)) else Piece(0, [])
  }

  function HeaderPiece(p: Plan, i: nat): Piece
    requires i < |p.list|
  {
    if p.list[i].clusters > 0 then Piece(DataAt(p, p.list[i]), MapHeader(p.algorithm)) else Piece(0, [])
  }

  function IndexPiece(p: Plan, i: nat): Piece
    requires p.blockSize > 0 && i < |p.list|
  {
    if p.list[i].clusters > 0
    then Piece(DataAt(p, p.list[i]) + MAP_HEADER, W.EncodedIndex(Pclusters(p.list[i], p), PayloadBlock(p, i)))
    else Piece(0, [])
  }

  function PayloadPiece(p: Plan, i: nat): Piece
    requires p.blockSize > 0 && i < |p.list|
  {
    var ps := Pclusters(p.list[i], p);
    if p.list[i].clusters > 0 && W.AllPacked(ps, p.blockSize)
    then Piece(ByteOf(PayloadBlock(p, i), p.blockSize), W.Payloads(ps, p.blockSize))
    else Piece(0, [])
  }

  /** A part of node `node`, or the xattr table. */
  datatype Part = Inode(node: nat) | Header(node: nat) | Index(node: nat) | Table | Directory(node: nat) | Payload(node: nat)

  function PieceOf(p: Plan, part: Part): Piece
    requires p.blockSize > 0 && (part.Table? || part.node < |p.list|)
  {
    match part
    case Table => Piece(ByteOf(StartBlock(p), p.blockSize), p.xattr)
    case Inode(i) => InodePiece(p, i)
    case Directory(i) => DirPiece(p, i)
    case Header(i) => HeaderPiece(p, i)
    case Index(i) => IndexPiece(p, i)
    case Payload(i) => PayloadPiece(p, i)
  }

  function PieceCount(p: Plan): nat {
    1 + 5 * |p.list|
  }

  /** The writing order: xattr table, inodes, directories, then each file's map header, index and payload. */
  function PartAt(p: Plan, k: nat): (part: Part)
    requires k < PieceCount(p)
    ensures part.Table? || part.node < |p.list|
  {
    var n := |p.list|;
    if k == 0 then Table
    else if k <= n then Inode(k - 1)
    else if k <= 2 * n then Directory(k - 1 - n)
    else
      var i, which := (k - 1 - 2 * n) / 3, (k - 1 - 2 * n) % 3;
      if which == 0 then Header(i) else if which == 1 then Index(i) else Payload(i)
  }

  lemma {:induction false} PartsDiffer(p: Plan, j: nat, k: nat)
    requires j < PieceCount(p) && k < PieceCount(p) && j != k
    ensures PartAt(p, j) != PartAt(p, k)
  {
  }

  // ---- Nothing is written twice ----------------------------------------------------------------------------

  /** Nodes as numbering and marking leave them. */
  predicate Shaped(n: Item, blockSize: nat)
    requires blockSize > 0
  {
    && n.nid > 0 && |n.info.area| == AreaLength(n) && n.info.mode < U16_LIMIT
    && n.clusters == if IsDir(n) then 0 else DivCeil(|n.info.content|, blockSize)
  }

  predicate Laid(p: Plan) {
    && p.blockSize > 0 && p.blockSize % 512 == 0 && p.list != []
    && InOrder(SlotRanges(p.list), 1, p.next)
    && forall i :: 0 <= i < |p.list| ==> Shaped(p.list[i], p.blockSize)
  }

  /** The zone a part lies in: a node's slots, the xattr table, a directory's or a payload's blocks. */
  function ZoneClass(part: Part): nat {
    match part
    case Table => 1
    case Directory(_) => 2
    case Payload(_) => 3
    case _ => 0
  }

  function ZoneOf(p: Plan, c: nat, i: nat): Span
    requires p.blockSize > 0 && i < |p.list|
  {
    if c == 0 then Span(SlotAt(p, p.list[i]), SlotAt(p, p.list[i]) + Slots(p.list[i]) * SLOT)
    else if c == 1 then Span(ByteOf(StartBlock(p), p.blockSize), ByteOf(FirstDir(p), p.blockSize))
    else if c == 2 then Span(ByteOf(DirBlock(p, i), p.blockSize), ByteOf(DirBlock(p, i + 1), p.blockSize))
    else Span(ByteOf(PayloadBlock(p, i), p.blockSize), ByteOf(PayloadBlock(p, i + 1), p.blockSize))
  }

  lemma {:induction false} ByteOfMonotone(a: nat, b: nat, blockSize: nat)
    requires a <= b
    ensures ByteOf(a, blockSize) <= ByteOf(b, blockSize)
  {
    MulMonotone(a, b, blockSize);
  }

  /** The slots of all nodes end in front of the first block behind the inodes. */
  lemma {:induction false} SlotsEnd(p: Plan, i: nat)
    requires Laid(p) && i < |p.list|
    ensures SlotAt(p, p.list[i]) + Slots(p.list[i]) * SLOT <= ByteOf(StartBlock(p), p.blockSize)
  {
    hide InOrder, Slots, Shaped, DivCeil;
    OrderedBounds(SlotRanges(p.list), 1, p.next, i);
    assert SlotRanges(p.list)[i] == SlotRange(p.list[i]);
    DivCeilMeaning(p.next * SLOT, p.blockSize);
    MulDistributes(p.meta, DivCeil(p.next * SLOT, p.blockSize), p.blockSize);
  }

  lemma {:induction false} SlotsFollow(p: Plan, i: nat, j: nat)
    requires Laid(p) && i < j < |p.list|
    ensures SlotAt(p, p.list[i]) + Slots(p.list[i]) * SLOT <= SlotAt(p, p.list[j])
  {
    hide InOrder, Slots, Shaped;
    OrderedApart(SlotRanges(p.list), 1, p.next, i, j);
    assert SlotRanges(p.list)[i] == SlotRange(p.list[i]) && SlotRanges(p.list)[j] == SlotRange(p.list[j]);
  }

  /** Zones follow each other: all slots, the table, the directories, the payloads, each kind in preorder. */
  lemma {:induction false} ZonesFollow(p: Plan, c: nat, i: nat, d: nat, j: nat)
    requires Laid(p) && i < |p.list| && j < |p.list| && d <= 3
    requires c < d || (c == d && c != 1 && i < j)
    ensures ZoneOf(p, c, i).until <= ZoneOf(p, d, j).from
  {
    hide Laid, Slots, DirBlock, PayloadBlock, FirstDir, StartBlock, ByteOf, SlotAt;
    LaidBlocks(p);
    var n, bs := |p.list|, p.blockSize;
    StartFirst(p);
    DirBlocksRise(p, 0, j);
    DirBlocksRise(p, i + 1, n);
    PayloadBlocksRise(p, 0, j);
    ByteOfMonotone(StartBlock(p), FirstDir(p), bs);
    ByteOfMonotone(FirstDir(p), DirBlock(p, j), bs);
    ByteOfMonotone(DirBlock(p, i + 1), DirBlock(p, n), bs);
    ByteOfMonotone(DirBlock(p, n), PayloadBlock(p, j), bs);
    ByteOfMonotone(FirstDir(p), PayloadBlock(p, j), bs);
    if c == 0 {
      SlotsEnd(p, i);
      ByteOfMonotone(StartBlock(p), DirBlock(p, j), bs);
      ByteOfMonotone(StartBlock(p), PayloadBlock(p, j), bs);
      if d == 0 {
        SlotsFollow(p, i, j);
      }
    } else if c == d {
      DirBlocksRise(p, i + 1, j);
      PayloadBlocksRise(p, i + 1, j);
      ByteOfMonotone(DirBlock(p, i + 1), DirBlock(p, j), bs);
      ByteOfMonotone(PayloadBlock(p, i + 1), PayloadBlock(p, j), bs);
    }
  }

  lemma {:induction false} LaidBlocks(p: Plan)
    requires Laid(p)
    ensures p.blockSize > 0 && p.blockSize % 512 == 0
  {
  }

  lemma {:induction false} StartFirst(p: Plan)
    requires p.blockSize > 0
    ensures StartBlock(p) <= FirstDir(p)
  {
  }

  /** Where the parts of a node lie in its slots. */
  lemma {:induction false} PartsOfSlots(p: Plan, i: nat)
    requires Laid(p) && i < |p.list|
    ensures var n := p.list[i];
            var at := SlotAt(p, n);
            && at % 8 == 0 && DataAt(p, n) == at + SLOT + AreaLength(n)
            && SLOT + AreaLength(n) <= Slots(n) * SLOT
            && (n.clusters > 0 ==> SLOT + AreaLength(n) + MAP_HEADER + IndexLength(n.clusters) <= Slots(n) * SLOT)
  {
    hide Laid, IndexLength, Slots, AlignUp8, AreaLength;
    LaidBlocks(p);
    var n := p.list[i];
    Multiple512(p.blockSize);
    MultipleOf8(p.meta, p.blockSize);
    SlotAligned(p.meta * p.blockSize, n.nid);
    AlignedEnd(SlotAt(p, n), n);
    SlotsRoom(n);
  }

  lemma {:induction false} SlotAligned(base: nat, nid: nat)
    requires base % 8 == 0
    ensures (base + nid * SLOT) % 8 == 0
  {
  }

  lemma {:induction false} SlotsRoom(n: Item)
    ensures SLOT + AreaLength(n) <= Slots(n) * SLOT
    ensures n.clusters > 0 ==> SLOT + AreaLength(n) + MAP_HEADER + IndexLength(n.clusters) <= Slots(n) * SLOT
  {
    hide IndexLength;
    if n.clusters > 0 {
      DivCeilMeaning(AlignUp8(SLOT + AreaLength(n)) + MAP_HEADER + IndexLength(n.clusters), SLOT);
    }
  }

  lemma {:induction false} IndexPieceLength(p: Plan, i: nat)
    requires Laid(p) && i < |p.list| && p.list[i].clusters > 0
    ensures W.AllPacked(Pclusters(p.list[i], p), p.blockSize)
    ensures |IndexPiece(p, i).data| == IndexLength(p.list[i].clusters)
    ensures |PayloadPiece(p, i).data| == |Pclusters(p.list[i], p)| * p.blockSize
    ensures p.list[i].clusters == DivCeil(|p.list[i].info.content|, p.blockSize) && |Pclusters(p.list[i], p)| <= p.list[i].clusters
    ensures Pclusters(p.list[i], p) != []
  {
    hide InOrder, IndexLength, PayloadBlock, DataAt, DivCeil;
    var n := p.list[i];
    assert Shaped(n, p.blockSize);
    hide Shaped;
    var clusters := W.Clusters(n.info.content, p.blockSize);
    W.ClustersShape(n.info.content, p.blockSize);
    W.PackClustersShape(p.algo, p.blockSize, clusters);
    W.PackClustersNonEmpty(p.algo, p.blockSize, clusters);
    hide W.PackClusters, W.Payloads, W.EncodedIndex, W.Clusters;
    W.EncodedIndexLength(Pclusters(n, p), PayloadBlock(p, i));
    W.PayloadsLength(Pclusters(n, p), p.blockSize);
  }

  /** Every piece lies in its zone. */
  lemma {:induction false} PieceInZone(p: Plan, part: Part)
    requires Laid(p) && (part.Table? || part.node < |p.list|)
    ensures var piece, zone := PieceOf(p, part), ZoneOf(p, ZoneClass(part), if part.Table? then 0 else part.node);
            piece.data != [] ==> zone.from <= piece.at && piece.at + |piece.data| <= zone.until
  {
    var bs := p.blockSize;
    hide InOrder, Slots, DirBlock, PayloadBlock, InodeBytes, DirData, MapHeader, Pclusters, DivCeil, IndexLength, SizeOf, DataAt;
    hide W.EncodedIndex, W.Payloads, W.AllPacked;
    match part {
      case Table =>
        BlocksHold(StartBlock(p), |p.xattr|, bs);
      case Directory(i) =>
        DirBlockStep(p, i);
        BlocksHold(DirBlock(p, i), |DirData(p.list[i], bs)|, bs);
      case Payload(i) =>
        if p.list[i].clusters > 0 {
          IndexPieceLength(p, i);
          PayloadBlockStep(p, i);
          MulDistributes(PayloadBlock(p, i), |Pclusters(p.list[i], p)|, bs);
        }
      case Inode(i) =>
        PartsOfSlots(p, i);
        assert Shaped(p.list[i], bs);
      case Header(i) =>
        PartsOfSlots(p, i);
      case Index(i) =>
        PartsOfSlots(p, i);
        if p.list[i].clusters > 0 {
          IndexPieceLength(p, i);
        }
    }
  }

  predicate PiecesApart(a: Piece, b: Piece) {
    a.data == [] || b.data == [] || a.at + |a.data| <= b.at || b.at + |b.data| <= a.at
  }

  /** Two parts of one node in its slots. */
  lemma {:induction false} SlotPartsApart(p: Plan, a: Part, b: Part)
    requires Laid(p) && ZoneClass(a) == ZoneClass(b) == 0 && a.node == b.node < |p.list| && a != b
    ensures PiecesApart(PieceOf(p, a), PieceOf(p, b))
  {
    var i := a.node;
    hide InOrder, Slots, DirBlock, PayloadBlock, InodeBytes, MapHeader, W.EncodedIndex, Pclusters, IndexLength, SizeOf, DataAt;
    PartsOfSlots(p, i);
    assert Shaped(p.list[i], p.blockSize);
  }

  /** No two parts meet. */
  lemma {:induction false} PartsApart(p: Plan, a: Part, b: Part)
    requires Laid(p) && (a.Table? || a.node < |p.list|) && (b.Table? || b.node < |p.list|) && a != b
    ensures PiecesApart(PieceOf(p, a), PieceOf(p, b))
  {
    hide PieceOf, ZoneOf, Laid;
    LaidBlocks(p);
    LaidNodes(p);
    PieceInZone(p, a);
    PieceInZone(p, b);
    var i, j := if a.Table? then 0 else a.node, if b.Table? then 0 else b.node;
    var c, d := ZoneClass(a), ZoneClass(b);
    if c < d || (c == d && i < j) {
      ZonesFollow(p, c, i, d, j);
    } else if d < c || (c == d && j < i) {
      ZonesFollow(p, d, j, c, i);
    } else {
      SlotPartsApart(p, a, b);
    }
  }

  lemma {:induction false} LaidNodes(p: Plan)
    requires Laid(p)
    ensures p.list != []
  {
  }
}
