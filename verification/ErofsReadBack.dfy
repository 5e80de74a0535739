/** Reading a compressed EROFS image from its superblock on: inodes, directories, files, and the whole tree. */
module ErofsReadBack {
  import opened Core
  import opened Arith
  import opened OutFile
  import opened Bitmaps
  import opened CompactFormat
  import opened Buffers
  import opened Spans
  import opened ErofsLayout
  import opened ErofsImage
  import opened ErofsPieces
  import W = CompactWriter
  import R = CompactReader
  import C = CompactRoundTrip
  import D = ErofsDir

  datatype ReadError =
    | PastEnd
    | BadMagic
    | BadBlockSize
    | NoBlocks
    | BadDirectory
    | TooDeep
    | UnsupportedLayout
    | BadFile

  // ---- The superblock --------------------------------------------------------------------------------------

  datatype Superblock = Superblock(blockSize: nat, root: nat, meta: nat, inodes: nat, xattr: nat)

  function ReadSuper(image: bytes): Result<Superblock, ReadError> {
    match Slice(image, SUPER_FROM, SUPER_BYTES)
    case None => Err(PastEnd)
    case Some(data) =>
      var bits := data[12] as nat;
      if Get32(data, 0) != MAGIC then Err(BadMagic)
      else if bits < 9 || bits > 20 then Err(BadBlockSize)
      else if Get32(data, 36) == 0 then Err(NoBlocks)
      else Ok(Superblock(Pow2(bits), Get16(data, 14), Get32(data, 40), Get64(data, 16), Get32(data, 44)))
  }

  const INLINE_LAYOUT: nat := 2

  // ---- Inodes ----------------------------------------------------------------------------------------------

  /** An inode as the reader sees it; `algorithms` is the algorithm byte of a map header. */
  datatype FoundInode = FoundInode(
    mode: nat, uid: nat, gid: nat, size: nat, layout: nat, dataOffset: nat, raw: nat, advise: nat, algorithms: nat, clusterBits: nat)

  function AlignUp4(v: nat): nat {
    (v + 3) / 4 * 4
  }

  /** Where inode and xattr area end. */
  function AreaEnd(offset: nat, data: bytes): nat
    requires |data| == 64
  {
    var count := Get16(data, 2);
    offset + (if Get16(data, 0) % 2 == 1 then 64 else 32) + if count == 0 then 0 else 8 + count * 4
  }

  function InodeAt(data: bytes, dataOffset: nat, advise: nat, algorithms: nat, clusterBits: nat): FoundInode
    requires |data| == 64
  {
    var format := Get16(data, 0);
    var extended := format % 2 == 1;
    FoundInode(Get16(data, 4), if extended then Get32(data, 24) else Get16(data, 24),
               if extended then Get32(data, 28) else Get16(data, 26), if extended then Get64(data, 8) else Get32(data, 8),
               format / 2 % 8, dataOffset, Get32(data, 16), advise, algorithms, clusterBits)
  }

  function ReadInode(image: bytes, s: Superblock, nid: nat): Result<FoundInode, ReadError> {
    var offset := s.meta * s.blockSize + nid * SLOT;
    match Slice(image, offset, 64)
    case None => Err(PastEnd)
    case Some(data) =>
      var end := AreaEnd(offset, data);
      if Get16(data, 0) / 2 % 8 == COMPACT_LAYOUT then
        match Slice(image, AlignUp8(end), MAP_HEADER)
        case None => Err(PastEnd)
        case Some(header) =>
          Ok(InodeAt(data, AlignUp8(end), Get16(header, 4), header[6] as nat, header[7] as nat % 8))
      else Ok(InodeAt(data, AlignUp4(end), 0, 0, 0))
  }

  /** `read_data` of a plain or inline inode. */
  function PlainData(image: bytes, s: Superblock, inode: FoundInode): (r: Result<bytes, ReadError>)
    requires s.blockSize > 0
    ensures r.Ok? ==> |r.value| == inode.size
  {
    if inode.size == 0 then Ok([])
    else if inode.layout == PLAIN_LAYOUT then OrPastEnd(Slice(image, inode.raw * s.blockSize, inode.size))
    else if inode.layout == INLINE_LAYOUT then
      var full := if inode.raw == 0 then 0 else inode.size / s.blockSize * s.blockSize;
      FullBlocksBound(inode.size, s.blockSize);
      match OrPastEnd(if full == 0 then Some([]) else Slice(image, inode.raw * s.blockSize, full))
      case Err(e) => Err(e)
      case Ok(head) =>
        match OrPastEnd(if full == inode.size then Some([]) else Slice(image, inode.dataOffset, inode.size - full))
        case Err(e) => Err(e)
        case Ok(tail) => Ok(head + tail)
    else Err(UnsupportedLayout)
  }

  function OrPastEnd(data: Option<bytes>): Result<bytes, ReadError> {
    match data
    case None => Err(PastEnd)
    case Some(found) => Ok(found)
  }

  lemma {:induction false} FullBlocksBound(size: nat, blockSize: nat)
    requires blockSize > 0
    ensures size / blockSize * blockSize <= size
  {
    assert size == size / blockSize * blockSize + size % blockSize;
  }

  /** What a compressed file's readers take from an inode. */
  function CompactOf(inode: FoundInode): R.CompactInode {
    R.CompactInode(inode.size, inode.algorithms, inode.dataOffset + MAP_HEADER)
  }

  // ---- The superblock is found -----------------------------------------------------------------------------

  /** The geometry of a finished image. */
  function SuperFields(p: Plan): Superblock
    requires p.blockSize > 0 && p.list != []
  {
    Superblock(p.blockSize, p.list[0].nid, p.meta, |p.list| % U64_LIMIT, if p.xattr == [] then 0 else StartBlock(p))
  }

  lemma {:induction false} SliceGets(image: bytes, base: nat, n: nat, at: nat)
    requires base + n <= |image| && at + 2 <= n
    ensures Get16(Slice(image, base, n).value, at) == Get16(image, base + at)
    ensures at + 4 <= n ==> Get32(Slice(image, base, n).value, at) == Get32(image, base + at)
    ensures at + 8 <= n ==> Get64(Slice(image, base, n).value, at) == Get64(image, base + at)
  {
  }

  /** The fields of the superblock the reader takes. */
  lemma {:induction false} HeadFields(bits: nat, root: nat, nodes: nat, labels: Labels, blocks: nat, meta: nat, xattr: nat)
    ensures var head := SuperHead(bits, root, nodes, labels, blocks, meta, xattr);
            && HasAt(head, 0, Le32(MAGIC)) && head[12] == (bits % 0x100) as byte && HasAt(head, 14, Le16(root % U16_LIMIT))
            && HasAt(head, 16, Le64(nodes % U64_LIMIT)) && HasAt(head, 36, Le32(blocks % U32_LIMIT))
            && HasAt(head, 40, Le32(meta % U32_LIMIT)) && HasAt(head, 44, Le32(xattr % U32_LIMIT))
  {
    hide Le16, Le32, Le64;
  }

  lemma {:induction false} ReadHead(
    data: bytes, bits: nat, root: nat, nodes: nat, labels: Labels, blocks: nat, meta: nat, xattr: nat)
    requires bits < 0x100 && HasAt(data, 0, SuperHead(bits, root, nodes, labels, blocks, meta, xattr))
    ensures |data| >= 48 && Get32(data, 0) == MAGIC && data[12] as nat == bits && Get16(data, 14) == root % U16_LIMIT
    ensures Get64(data, 16) == nodes % U64_LIMIT && Get32(data, 36) == blocks % U32_LIMIT
    ensures Get32(data, 40) == meta % U32_LIMIT && Get32(data, 44) == xattr % U32_LIMIT
  {
    HeadFields(bits, root, nodes, labels, blocks, meta, xattr);
    var head := SuperHead(bits, root, nodes, labels, blocks, meta, xattr);
    assert data[12] == data[0..48][12] == head[12];
    hide Le16, Le32, Le64, HasAt, SuperHead, Get16, Get32, Get64;
    HasAtPart(data, 0, head, 0, Le32(MAGIC));
    HasAtPart(data, 0, head, 14, Le16(root % U16_LIMIT));
    HasAtPart(data, 0, head, 16, Le64(nodes % U64_LIMIT));
    HasAtPart(data, 0, head, 36, Le32(blocks % U32_LIMIT));
    HasAtPart(data, 0, head, 40, Le32(meta % U32_LIMIT));
    HasAtPart(data, 0, head, 44, Le32(xattr % U32_LIMIT));
    Read32(data, 0, MAGIC);
    Read16(data, 14, root % U16_LIMIT);
    Read64(data, 16, nodes % U64_LIMIT);
    Read32(data, 36, blocks % U32_LIMIT);
    Read32(data, 40, meta % U32_LIMIT);
    Read32(data, 44, xattr % U32_LIMIT);
  }

  /** Numbers of the superblock fit their fields. */
  ghost predicate SuperFits(p: Plan)
    requires p.blockSize > 0 && p.list != []
  {
    && p.list[0].nid < U16_LIMIT && 0 < EndBlock(p) < U32_LIMIT && p.meta < U32_LIMIT && StartBlock(p) < U32_LIMIT
  }

  lemma {:induction false} SuperReads(image: bytes, p: Plan, bits: nat, labels: Labels)
    requires p.blockSize > 0 && p.list != [] && |labels.volume| == 16 && 9 <= bits <= 16 && p.blockSize == Pow2(bits)
    requires SuperFits(p) && HasAt(image, SUPER_FROM, SuperOf(p, bits, labels))
    ensures ReadSuper(image) == Ok(SuperFields(p))
  {
    hide EndBlock, StartBlock, SuperHead, Pow2, Get16, Get32, Get64, Le32;
    var data := image[SUPER_FROM..SUPER_FROM + SUPER_BYTES];
    var head := SuperHead(bits, p.list[0].nid, |p.list|, labels, EndBlock(p), p.meta, if p.xattr == [] then 0 else StartBlock(p));
    assert data[0..48] == head;
    ReadHead(data, bits, p.list[0].nid, |p.list|, labels, EndBlock(p), p.meta, if p.xattr == [] then 0 else StartBlock(p));
  }

  // ---- Inodes are found ------------------------------------------------------------------------------------

  /** Node `i` as the reader finds it. */
  function InodeOf(p: Plan, i: nat): FoundInode
    requires p.blockSize > 0 && i < |p.list|
  {
    var n := p.list[i];
    var compact := n.clusters > 0;
    FoundInode(n.info.mode, n.info.uid % U16_LIMIT, n.info.gid % U16_LIMIT, SizeOf(n, p.blockSize),
               if compact then COMPACT_LAYOUT else PLAIN_LAYOUT,
               if compact then DataAt(p, n) else AlignUp4(SlotAt(p, n) + SLOT + AreaLength(n)),
               if IsDir(n) then DirBlock(p, i) else 0, 0, if compact then p.algorithm as nat else 0, 0)
  }

  lemma {:induction false} InodeFields(n: Item, size: nat, raw: nat)
    ensures var data := InodeBytes(n, size, raw);
            && HasAt(data, 0, Le16(if n.clusters > 0 then 2 * COMPACT_LAYOUT else PLAIN_LAYOUT))
            && HasAt(data, 2, Le16(if n.context then 2 else 0)) && HasAt(data, 4, Le16(n.info.mode % U16_LIMIT))
            && HasAt(data, 8, Le32(size % U32_LIMIT)) && HasAt(data, 16, Le32(raw % U32_LIMIT))
            && HasAt(data, 24, Le16(n.info.uid % U16_LIMIT)) && HasAt(data, 26, Le16(n.info.gid % U16_LIMIT))
  {
    hide Le16, Le32;
    var head, tail := InodeHead(n, size), InodeTail(n, raw);
    var data := InodeBytes(n, size, raw);
    assert data[0..16] == head && data[16..32] == tail;
    assert head[0..2] == Le16(if n.clusters > 0 then 2 * COMPACT_LAYOUT else PLAIN_LAYOUT);
    assert head[2..4] == Le16(if n.context then 2 else 0);
    assert head[4..6] == Le16(n.info.mode % U16_LIMIT) && head[8..12] == Le32(size % U32_LIMIT);
    assert tail[0..4] == Le32(raw % U32_LIMIT);
    assert tail[8..10] == Le16(n.info.uid % U16_LIMIT) && tail[10..12] == Le16(n.info.gid % U16_LIMIT);
    assert data[0..2] == head[0..2] && data[2..4] == head[2..4] && data[4..6] == head[4..6] && data[8..12] == head[8..12];
    assert data[16..20] == tail[0..4] && data[24..26] == tail[8..10] && data[26..28] == tail[10..12];
  }

  /** What the 64 bytes at a slot say. */
  ghost predicate SlotSays(image: bytes, offset: nat, n: Item, size: nat, raw: nat) {
    && offset + 64 <= |image|
    && var data := Slice(image, offset, 64).value;
       && Get16(data, 0) == (if n.clusters > 0 then 2 * COMPACT_LAYOUT else PLAIN_LAYOUT)
       && Get16(data, 2) == (if n.context then 2 else 0) && Get16(data, 4) == n.info.mode && Get32(data, 8) == size
       && Get32(data, 16) == raw && Get16(data, 24) == n.info.uid % U16_LIMIT && Get16(data, 26) == n.info.gid % U16_LIMIT
  }

  /** The fields of an inode on the image, read from the 64 bytes at its slot. */
  lemma {:induction false} ReadFields(image: bytes, offset: nat, n: Item, size: nat, raw: nat)
    requires HasAt(image, offset, InodeBytes(n, size, raw)) && offset + 64 <= |image|
    requires size < U32_LIMIT && raw < U32_LIMIT && n.info.mode < U16_LIMIT
    ensures SlotSays(image, offset, n, size, raw)
  {
    InodeFields(n, size, raw);
    hide InodeBytes, Le16, Le32, HasAt, Get16, Get32, Get64;
    var all := InodeBytes(n, size, raw);
    var format, count: nat := if n.clusters > 0 then 2 * COMPACT_LAYOUT else PLAIN_LAYOUT, if n.context then 2 else 0;
    var mode := n.info.mode % U16_LIMIT;
    HasAtPart(image, offset, all, 0, Le16(format));
    HasAtPart(image, offset, all, 2, Le16(count));
    HasAtPart(image, offset, all, 4, Le16(mode));
    HasAtPart(image, offset, all, 8, Le32(size % U32_LIMIT));
    HasAtPart(image, offset, all, 16, Le32(raw % U32_LIMIT));
    HasAtPart(image, offset, all, 24, Le16(n.info.uid % U16_LIMIT));
    HasAtPart(image, offset, all, 26, Le16(n.info.gid % U16_LIMIT));
    Read16(image, offset, format);
    Read16(image, offset + 2, count);
    Read16(image, offset + 4, mode);
    Read32(image, offset + 8, size % U32_LIMIT);
    Read32(image, offset + 16, raw % U32_LIMIT);
    Read16(image, offset + 24, n.info.uid % U16_LIMIT);
    Read16(image, offset + 26, n.info.gid % U16_LIMIT);
    SliceGets(image, offset, 64, 0);
    SliceGets(image, offset, 64, 2);
    SliceGets(image, offset, 64, 4);
    SliceGets(image, offset, 64, 8);
    SliceGets(image, offset, 64, 16);
    SliceGets(image, offset, 64, 24);
    SliceGets(image, offset, 64, 26);
  }

  lemma {:induction false} ReadHeader(image: bytes, at: nat, algorithm: byte)
    requires HasAt(image, at, MapHeader(algorithm))
    ensures Slice(image, at, MAP_HEADER) == Some(MapHeader(algorithm))
    ensures var header := MapHeader(algorithm); Get16(header, 4) == 0 && header[6] == algorithm && header[7] == 0
  {
  }

  /** All of an image that everything has its place in. */
  ghost predicate Whole(image: bytes, p: Plan)
    requires p.blockSize > 0
  {
    && Laid(p) && IsDir(p.list[0]) && Intact(image, p, PieceCount(p)) && |image| == ByteOf(EndBlock(p), p.blockSize)
    && !TooWide(p) && forall i :: 0 <= i < |p.list| ==>
         SizeOf(p.list[i], p.blockSize) < U32_LIMIT && (IsDir(p.list[i]) ==> DirData(p.list[i], p.blockSize) != [])
  }

  lemma {:induction false} PartThere(image: bytes, p: Plan, part: Part)
    requires p.blockSize > 0 && Whole(image, p) && (part.Table? || part.node < |p.list|)
    ensures Carries(image, PieceOf(p, part).at, PieceOf(p, part).data)
  {
    hide *;
    WholeMeans(image, p);
    if part.Table? {
      TableIs(p);
      WasThere(image, p, PieceCount(p), 0);
    } else {
      PartOrder(p, part.node);
      var n, i := |p.list|, part.node;
      AllPieces(p);
      match part {
        case Inode(_) => WasThere(image, p, PieceCount(p), 1 + i);
        case Directory(_) => WasThere(image, p, PieceCount(p), 1 + n + i);
        case Header(_) => WasThere(image, p, PieceCount(p), 1 + 2 * n + 3 * i);
        case Index(_) => WasThere(image, p, PieceCount(p), 2 + 2 * n + 3 * i);
        case Payload(_) => WasThere(image, p, PieceCount(p), 3 + 2 * n + 3 * i);
      }
    }
  }

  lemma {:induction false} WholeMeans(image: bytes, p: Plan)
    requires p.blockSize > 0 && Whole(image, p)
    ensures Laid(p) && p.list != [] && IsDir(p.list[0]) && Intact(image, p, PieceCount(p)) && !TooWide(p)
    ensures |image| == ByteOf(EndBlock(p), p.blockSize)
    ensures forall i :: 0 <= i < |p.list| ==>
              SizeOf(p.list[i], p.blockSize) < U32_LIMIT && (IsDir(p.list[i]) ==> DirData(p.list[i], p.blockSize) != [])
  {
    hide Intact, TooWide, SizeOf, DirData, IsDir, EndBlock, Shaped, InOrder;
  }

  /** Behind the last slot there is at least the root's directory. */
  lemma {:induction false} RoomBehindSlot(image: bytes, p: Plan, i: nat)
    requires p.blockSize > 0 && Whole(image, p) && i < |p.list|
    ensures SlotAt(p, p.list[i]) + 64 <= |image|
    ensures EndBlock(p) > StartBlock(p)
  {
    hide *;
    WholeMeans(image, p);
    LaidBlocks(p);
    SlotsEnd(p, i);
    StartFirst(p);
    DirBlockStep(p, 0);
    DirBlocksRise(p, 0, 1);
    DirBlocksRise(p, 1, |p.list|);
    PayloadBlocksRise(p, 0, |p.list|);
    EndIs(p);
    DivCeilAtMost(|DirData(p.list[0], p.blockSize)|, 0, p.blockSize);
    NextBlock(StartBlock(p), EndBlock(p), p.blockSize);
    SomeSlot(p.list[i]);
  }

  lemma {:induction false} SomeSlot(n: Item)
    ensures Slots(n) * SLOT >= SLOT
  {
  }

  lemma {:induction false} NextBlock(a: nat, b: nat, blockSize: nat)
    requires a < b && blockSize >= 512
    ensures ByteOf(a, blockSize) + 512 <= ByteOf(b, blockSize)
  {
    MulMonotone(a + 1, b, blockSize);
    MulDistributes(a, 1, blockSize);
  }

  /** Every node's number leads to its inode, with sizes and places as the layout has them. */
  lemma {:induction false} InodeFound(image: bytes, p: Plan, i: nat)
    requires p.blockSize > 0 && Whole(image, p) && i < |p.list|
    ensures ReadInode(image, SuperFields(p), p.list[i].nid) == Ok(InodeOf(p, i))
  {
    hide *;
    WholeMeans(image, p);
    RoomBehindSlot(image, p, i);
    NodeShape(p, i);
    PartsOfSlots(p, i);
    NumbersFit(p, i);
    PartThere(image, p, Part.Inode(i));
    InodeIs(p, i);
    var n, s := p.list[i], SuperFields(p);
    var raw := if IsDir(n) then DirBlock(p, i) else 0;
    InodePieceIs(p, i);
    InodeThere(image, SlotAt(p, n), n, SizeOf(n, p.blockSize), raw);
    ReadFields(image, SlotAt(p, n), n, SizeOf(n, p.blockSize), raw);
    if n.clusters > 0 {
      HeaderThere(image, p, i);
      ReadHeader(image, DataAt(p, n), p.algorithm);
      CompactFound(image, s, n, SlotAt(p, n), DataAt(p, n), p.algorithm, SizeOf(n, p.blockSize), raw);
    } else {
      PlainFound(image, s, n, SlotAt(p, n), SizeOf(n, p.blockSize), raw);
    }
    InodeOfIs(p, i);
  }

  lemma {:induction false} InodePieceIs(p: Plan, i: nat)
    requires p.blockSize > 0 && i < |p.list|
    ensures var n := p.list[i];
            && InodePiece(p, i) == Piece(SlotAt(p, n), InodeBytes(n, SizeOf(n, p.blockSize), if IsDir(n) then DirBlock(p, i) else 0))
            && SlotAt(p, n) == SuperFields(p).meta * SuperFields(p).blockSize + n.nid * SLOT
  {
    hide InodeBytes, SizeOf, DirBlock, StartBlock, IsDir;
  }

  lemma {:induction false} InodeOfIs(p: Plan, i: nat)
    requires p.blockSize > 0 && i < |p.list|
    ensures var n := p.list[i];
            var raw := if IsDir(n) then DirBlock(p, i) else 0;
            InodeOf(p, i)
            == if n.clusters > 0
               then FoundAs(n, SizeOf(n, p.blockSize), COMPACT_LAYOUT, DataAt(p, n), raw, p.algorithm as nat)
               else FoundAs(n, SizeOf(n, p.blockSize), PLAIN_LAYOUT, AlignUp4(SlotAt(p, n) + SLOT + AreaLength(n)), raw, 0)
  {
    hide SizeOf, DirBlock, IsDir, DataAt, AlignUp4;
  }

  function FoundAs(n: Item, size: nat, layout: nat, dataOffset: nat, raw: nat, algorithms: nat): FoundInode {
    FoundInode(n.info.mode, n.info.uid % U16_LIMIT, n.info.gid % U16_LIMIT, size, layout, dataOffset, raw, 0, algorithms, 0)
  }

  lemma {:induction false} CompactFound(
    image: bytes, s: Superblock, n: Item, offset: nat, dataOffset: nat, algorithm: byte, size: nat, raw: nat)
    requires n.clusters > 0 && offset == s.meta * s.blockSize + n.nid * SLOT && SlotSays(image, offset, n, size, raw)
    requires offset % 8 == 0 && dataOffset == offset + SLOT + AreaLength(n)
    requires Slice(image, dataOffset, MAP_HEADER) == Some(MapHeader(algorithm))
    requires var header := MapHeader(algorithm); Get16(header, 4) == 0 && header[6] == algorithm && header[7] == 0
    ensures ReadInode(image, s, n.nid) == Ok(FoundAs(n, size, COMPACT_LAYOUT, dataOffset, raw, algorithm as nat))
  {
    AlignedEnd(offset, n);
    SlotIs(image, offset, n, size, raw, dataOffset, algorithm as nat);
    hide Get16, Get32, Get64, MapHeader, AreaEnd, InodeAt, FoundAs, AlignUp8, AlignUp4, SlotSays;
  }

  /** What the 64 bytes make of the inode. */
  lemma {:induction false} SlotIs(image: bytes, offset: nat, n: Item, size: nat, raw: nat, dataOffset: nat, algorithms: nat)
    requires SlotSays(image, offset, n, size, raw)
    ensures offset + 64 <= |image|
    ensures var data := Slice(image, offset, 64).value;
            && AreaEnd(offset, data) == offset + SLOT + AreaLength(n)
            && Get16(data, 0) / 2 % 8 == (if n.clusters > 0 then COMPACT_LAYOUT else PLAIN_LAYOUT)
            && InodeAt(data, dataOffset, 0, algorithms, 0)
               == FoundAs(n, size, if n.clusters > 0 then COMPACT_LAYOUT else PLAIN_LAYOUT, dataOffset, raw, algorithms)
  {
    hide Get16, Get32, Get64, Slice;
    XattrSize(n);
  }

  lemma {:induction false} PlainFound(image: bytes, s: Superblock, n: Item, offset: nat, size: nat, raw: nat)
    requires n.clusters == 0 && offset == s.meta * s.blockSize + n.nid * SLOT && SlotSays(image, offset, n, size, raw)
    ensures ReadInode(image, s, n.nid)
         == Ok(FoundAs(n, size, PLAIN_LAYOUT, AlignUp4(offset + SLOT + AreaLength(n)), raw, 0))
  {
    SlotIs(image, offset, n, size, raw, AlignUp4(offset + SLOT + AreaLength(n)), 0);
    hide Get16, Get32, Get64, AreaEnd, InodeAt, FoundAs, AlignUp8, AlignUp4, SlotSays;
  }

  lemma {:induction false} NodeShape(p: Plan, i: nat)
    requires Laid(p) && i < |p.list|
    ensures Shaped(p.list[i], p.blockSize) && p.list[i].info.mode < U16_LIMIT && |p.list[i].info.area| == AreaLength(p.list[i])
    ensures p.list[i].clusters > 0 ==> !IsDir(p.list[i])
  {
    hide InOrder, DivCeil;
  }

  lemma {:induction false} InodeThere(image: bytes, at: nat, n: Item, size: nat, raw: nat)
    requires Carries(image, at, InodeBytes(n, size, raw))
    ensures HasAt(image, at, InodeBytes(n, size, raw))
  {
    hide InodeHead, InodeTail;
  }

  lemma {:induction false} HeaderThere(image: bytes, p: Plan, i: nat)
    requires p.blockSize > 0 && Whole(image, p) && i < |p.list| && p.list[i].clusters > 0
    ensures HasAt(image, DataAt(p, p.list[i]), MapHeader(p.algorithm))
  {
    PartThere(image, p, Header(i));
    FileIs(p, i);
    hide PieceOf, DataAt, Whole;
    assert |MapHeader(p.algorithm)| == MAP_HEADER;
  }

  lemma {:induction false} XattrSize(n: Item)
    ensures (if n.context then 8 + 2 * 4 else 0) == AreaLength(n)
  {
  }

  // ---- Directories and files -------------------------------------------------------------------------------

  /** A directory's inode leads to its bytes. */
  lemma {:induction false} DirectoryFound(image: bytes, p: Plan, i: nat)
    requires p.blockSize > 0 && Whole(image, p) && i < |p.list| && IsDir(p.list[i])
    ensures InodeOf(p, i).size > 0 && PlainData(image, SuperFields(p), InodeOf(p, i)) == Ok(DirData(p.list[i], p.blockSize))
  {
    hide *;
    WholeMeans(image, p);
    NodeShape(p, i);
    PartThere(image, p, Directory(i));
    DirIs(p, i);
    DirFields(p, i);
    PlainIs(image, SuperFields(p), InodeOf(p, i), ByteOf(DirBlock(p, i), p.blockSize), DirData(p.list[i], p.blockSize));
  }

  lemma {:induction false} DirFields(p: Plan, i: nat)
    requires Laid(p) && i < |p.list| && IsDir(p.list[i])
    ensures var inode := InodeOf(p, i);
            && inode.layout == PLAIN_LAYOUT && inode.size == |DirData(p.list[i], p.blockSize)|
            && SuperFields(p).blockSize == p.blockSize && inode.raw * p.blockSize == ByteOf(DirBlock(p, i), p.blockSize)
  {
    NodeShape(p, i);
    hide Laid, Shaped, DirBlock, DirData, IsDir, DataAt, AlignUp4, SlotAt, StartBlock;
    LaidBlocks(p);
  }

  lemma {:induction false} PlainIs(image: bytes, s: Superblock, inode: FoundInode, at: nat, data: bytes)
    requires s.blockSize > 0 && inode.layout == PLAIN_LAYOUT && inode.size == |data| > 0 && inode.raw * s.blockSize == at
    requires Carries(image, at, data)
    ensures PlainData(image, s, inode) == Ok(data)
  {
  }

  /** Names the reader shows unchanged and does not skip. */
  predicate GoodName(name: bytes) {
    name != [] && name[|name| - 1] != 0 && name != DOT && name != DOT_DOT
  }

  /** Only directories have children, and children have good names. */
  predicate GoodTree(n: Item)
    decreases n
  {
    (!IsDir(n) ==> n.children == []) && AllGood(n.children)
  }

  predicate AllGood(nodes: seq<Item>)
    decreases nodes
  {
    nodes == [] || (GoodName(nodes[0].info.name) && GoodTree(nodes[0]) && AllGood(nodes[1..]))
  }

  lemma {:induction false} GoodAt(nodes: seq<Item>, k: nat)
    requires AllGood(nodes) && k < |nodes|
    ensures GoodName(nodes[k].info.name) && GoodTree(nodes[k])
    decreases |nodes|
  {
    hide GoodName, GoodTree;
    if k > 0 {
      GoodAt(nodes[1..], k - 1);
    }
  }

  /** The directory of a node with good children lists itself, its parent and its children. */
  lemma {:induction false} DirectoryLists(n: Item, blockSize: nat)
    requires D.DirBlock(blockSize) && NumbersBelow(n, U64_LIMIT) && GoodTree(n)
    requires n.nid > 0 && n.parent > 0 && forall k :: 0 <= k < |n.children| ==> n.children[k].nid > 0
    requires DirData(n, blockSize) != []
    ensures D.ParseFrom(DirData(n, blockSize), 0, blockSize) == Ok(DirEntries(n))
  {
    hide *;
    var es := DirEntries(n);
    EntriesBelow(n);
    SomeEntries(n);
    forall k | 0 <= k < |es|
      ensures D.ReadsBack(es[k]) && es[k].name != []
    {
      EntryGood(n, k);
    }
    DirDataIs(n, blockSize);
    NamesFit(es, blockSize);
    D.DirectoryReadsBackIff(es, blockSize);
  }

  lemma {:induction false} DirDataIs(n: Item, blockSize: nat)
    requires D.DirBlock(blockSize) && D.EntriesFit(DirEntries(n))
    ensures DirData(n, blockSize) == D.DirectoryBytes(DirEntries(n), blockSize)
  {
    hide D.DirectoryBytes, DirEntries, D.EntriesFit, D.DirBlock;
  }

  lemma {:induction false} NamesFit(es: seq<D.Entry>, blockSize: nat)
    requires forall k :: 0 <= k < |es| ==> es[k].name != []
    ensures D.OffsetsFit(es, blockSize)
  {
  }

  lemma {:induction false} EntryGood(n: Item, k: nat)
    requires GoodTree(n) && k < |DirEntries(n)|
    requires n.nid > 0 && n.parent > 0 && forall i :: 0 <= i < |n.children| ==> n.children[i].nid > 0
    ensures D.ReadsBack(DirEntries(n)[k]) && DirEntries(n)[k].name != []
  {
    if k >= 2 {
      GoodAt(n.children, k - 2);
    }
  }

  /** An image holds a compressed file for all readers. */
  lemma {:induction false} FileHeld(image: bytes, p: Plan, i: nat, inflate: R.Inflate) returns (segs: seq<R.Segment>)
    requires p.blockSize > 0 && Whole(image, p) && i < |p.list| && p.list[i].clusters > 0
    requires p.blockSize <= 0x1000 && C.Undoes(p.algo, inflate, p.algorithm as nat % 16, p.blockSize)
    ensures InodeOf(p, i).layout == COMPACT_LAYOUT && InodeOf(p, i).size == |p.list[i].info.content|
    ensures R.Holds(image, p.blockSize, inflate, CompactOf(InodeOf(p, i)), segs, p.list[i].info.content)
    ensures R.PlainsCarryData(image, p.blockSize, CompactOf(InodeOf(p, i)))
  {
    hide *;
    var n := p.list[i];
    WholeMeans(image, p);
    NodeShape(p, i);
    NumbersFit(p, i);
    IndexPieceLength(p, i);
    PartThere(image, p, Index(i));
    PartThere(image, p, Payload(i));
    StreamParts(p, i);
    StreamFits(p, i);
    FileFields(p, i);
    FileStored(image, n.info.content, p, i);
    segs := C.StoredFileHolds(image, n.info.content, p.blockSize, p.algo, inflate, CompactOf(InodeOf(p, i)), PayloadBlock(p, i));
  }

  lemma {:induction false} FileFields(p: Plan, i: nat)
    requires Laid(p) && i < |p.list| && p.list[i].clusters > 0
    ensures var inode := InodeOf(p, i);
            && inode.layout == COMPACT_LAYOUT && inode.size == |p.list[i].info.content|
            && CompactOf(inode) == R.CompactInode(|p.list[i].info.content|, p.algorithm as nat, DataAt(p, p.list[i]) + MAP_HEADER)
            && (DataAt(p, p.list[i]) + MAP_HEADER) % 8 == 0
  {
    hide Laid, Slots, DirBlock, IsDir, SlotAt, DataAt, DirData, IndexLength, AlignUp4, Shaped, AreaLength;
    NodeShape(p, i);
    PartsOfSlots(p, i);
    HeaderEnd(SlotAt(p, p.list[i]), p.list[i]);
  }

  lemma {:induction false} HeaderEnd(at: nat, n: Item)
    requires at % 8 == 0
    ensures (at + SLOT + AreaLength(n) + MAP_HEADER) % 8 == 0
  {
  }

  lemma {:induction false} FileStored(image: bytes, data: bytes, p: Plan, i: nat)
    requires p.blockSize > 0 && i < |p.list| && p.list[i].clusters > 0 && data == p.list[i].info.content
    requires W.AllPacked(Pclusters(p.list[i], p), p.blockSize)
    requires Pclusters(p.list[i], p) == W.PackClusters(p.algo, p.blockSize, W.Clusters(data, p.blockSize))
    requires ByteOf(PayloadBlock(p, i), p.blockSize) == PayloadBlock(p, i) * p.blockSize
    requires Carries(image, DataAt(p, p.list[i]) + MAP_HEADER, W.EncodedIndex(Pclusters(p.list[i], p), PayloadBlock(p, i)))
    requires Carries(image, ByteOf(PayloadBlock(p, i), p.blockSize), W.Payloads(Pclusters(p.list[i], p), p.blockSize))
    requires PayloadBlock(p, i) + DivCeil(|data|, p.blockSize) <= U32_LIMIT
    ensures C.Stored(image, data, p.blockSize, p.algo, DataAt(p, p.list[i]) + MAP_HEADER, PayloadBlock(p, i))
  {
    hide W.AllPacked, Pclusters, W.PackClusters, W.Clusters, PayloadBlock, DataAt, W.EncodedIndex, W.Payloads, Carries, DivCeil, ByteOf;
  }

  // ---- The whole tree --------------------------------------------------------------------------------------

  const MAX_DEPTH: nat := 512

  /** A node of the tree the reader builds. */
  datatype Found = Found(nid: nat, name: bytes, mode: nat, uid: nat, gid: nat, size: nat, layout: nat, children: seq<Found>)

  function WithChildren(inode: FoundInode, nid: nat, name: bytes, children: seq<Found>): Found {
    Found(nid, name, inode.mode, inode.uid, inode.gid, inode.size, inode.layout, children)
  }

  /** The tree below a node, down to the depth the reader goes. */
  function FoundTree(image: bytes, s: Superblock, nid: nat, name: bytes, depth: nat): Result<Found, ReadError>
    requires s.blockSize > 0
    decreases Max(MAX_DEPTH + 1 - depth, 0), 0, 0
  {
    if depth > MAX_DEPTH then Err(TooDeep)
    else
      match ReadInode(image, s, nid)
      case Err(e) => Err(e)
      case Ok(inode) =>
        if inode.size > 0 && inode.mode / 0x1000 % 16 == DIRECTORY then
          match DirectoryEntries(image, s, inode)
          case Err(e) => Err(e)
          case Ok(entries) =>
            match FoundChildren(image, s, entries, depth)
            case Err(e) => Err(e)
            case Ok(children) => Ok(WithChildren(inode, nid, name, children))
        else Ok(WithChildren(inode, nid, name, []))
  }

  function DirectoryEntries(image: bytes, s: Superblock, inode: FoundInode): Result<seq<D.Entry>, ReadError>
    requires s.blockSize > 0
  {
    match PlainData(image, s, inode)
    case Err(e) => Err(e)
    case Ok(data) =>
      match D.ParseFrom(data, 0, s.blockSize)
      case Err(_) => Err(BadDirectory)
      case Ok(entries) => Ok(entries)
  }

  function FoundChildren(image: bytes, s: Superblock, entries: seq<D.Entry>, depth: nat): Result<seq<Found>, ReadError>
    requires s.blockSize > 0 && depth <= MAX_DEPTH
    decreases MAX_DEPTH - depth, 1, |entries|
  {
    if entries == [] then Ok([])
    else if entries[0].name == DOT || entries[0].name == DOT_DOT then FoundChildren(image, s, entries[1..], depth)
    else
      match FoundTree(image, s, entries[0].nid, entries[0].name, depth + 1)
      case Err(e) => Err(e)
      case Ok(child) => Appended([child], FoundChildren(image, s, entries[1..], depth))
  }

  lemma {:induction false} AppendTwice(done: seq<Found>, child: Found, r: Result<seq<Found>, ReadError>)
    ensures Appended(done, Appended([child], r)) == Appended(done + [child], r)
  {
    if r.Ok? {
      assert done + ([child] + r.value) == done + [child] + r.value;
    }
  }

  lemma {:induction false} AppendNothing(r: Result<seq<Found>, ReadError>)
    ensures Appended([], r) == r
  {
    if r.Ok? {
      assert [] + r.value == r.value;
    }
  }

  /** `tree_depth`. */
  method ReadTree(image: bytes, s: Superblock, nid: nat, name: bytes, depth: nat) returns (r: Result<Found, ReadError>)
    requires s.blockSize > 0
    ensures r == FoundTree(image, s, nid, name, depth)
    decreases Max(MAX_DEPTH + 1 - depth, 0)
  {
    hide ReadInode, PlainData, D.ParseFrom, D.ParseBlock;
    if depth > MAX_DEPTH {
      return Err(TooDeep);
    }
    var inode := ReadInode(image, s, nid);
    if inode.Err? {
      return Err(inode.error);
    }
    var children: seq<Found> := [];
    if inode.value.size > 0 && inode.value.mode / 0x1000 % 16 == DIRECTORY {
      var data := PlainData(image, s, inode.value);
      if data.Err? {
        return Err(data.error);
      }
      var entries := D.Parse(data.value, s.blockSize);
      if entries.Err? {
        return Err(BadDirectory);
      }
      var es := entries.value;
      assert DirectoryEntries(image, s, inode.value) == Ok(es);
      ghost var all := FoundChildren(image, s, es, depth);
      AppendNothing(all);
      assert es[0..] == es;
      for i := 0 to |es|
        invariant Appended(children, FoundChildren(image, s, es[i..], depth)) == all
      {
        assert es[i..][1..] == es[i + 1..] && es[i..][0] == es[i];
        if es[i].name != DOT && es[i].name != DOT_DOT {
          var child := ReadTree(image, s, es[i].nid, es[i].name, depth + 1);
          if child.Err? {
            return Err(child.error);
          }
          AppendTwice(children, child.value, FoundChildren(image, s, es[i + 1..], depth));
          children := children + [child.value];
        }
      }
      assert es[|es|..] == [] && children + [] == children;
    }
    return Ok(WithChildren(inode.value, nid, name, children));
  }

  /** What the reader makes of a written node, without its children. */
  function Childless(n: Item, blockSize: nat): Found {
    Found(n.nid, n.info.name, n.info.mode, n.info.uid % U16_LIMIT, n.info.gid % U16_LIMIT, SizeOf(n, blockSize),
          if n.clusters > 0 then COMPACT_LAYOUT else PLAIN_LAYOUT, [])
  }

  /** And with them. */
  function AsFound(n: Item, blockSize: nat): Found
    decreases n
  {
    Childless(n, blockSize).(children := AllAsFound(n.children, blockSize))
  }

  function AllAsFound(nodes: seq<Item>, blockSize: nat): seq<Found>
    decreases nodes
  {
    if nodes == [] then [] else [AsFound(nodes[0], blockSize)] + AllAsFound(nodes[1..], blockSize)
  }

  function Height(n: Item): nat
    decreases n
  {
    Heights(n.children)
  }

  function Heights(nodes: seq<Item>): nat
    decreases nodes
  {
    if nodes == [] then 0 else Max(1 + Height(nodes[0]), Heights(nodes[1..]))
  }

  /** The reader finds the inode of a node and, for a directory, its entries. */
  ghost predicate NodeFound(image: bytes, s: Superblock, n: Item)
    requires s.blockSize > 0
  {
    var r := ReadInode(image, s, n.nid);
    && r.Ok? && WithChildren(r.value, n.nid, n.info.name, []) == Childless(n, s.blockSize)
    && (if IsDir(n) then r.value.size > 0 && DirectoryEntries(image, s, r.value) == Ok(DirEntries(n)) else n.children == [])
  }

  function ChildEntries(nodes: seq<Item>): (es: seq<D.Entry>)
    ensures |es| == |nodes|
  {
    seq(|nodes|, i requires 0 <= i < |nodes| => D.Entry(nodes[i].nid, nodes[i].info.name, if IsDir(nodes[i]) then 2 else 1))
  }

  lemma {:induction false} TreeFound(image: bytes, s: Superblock, n: Item, depth: nat)
    requires s.blockSize > 0 && GoodTree(n) && forall m :: m in Preorder(n) ==> NodeFound(image, s, m)
    ensures FoundTree(image, s, n.nid, n.info.name, depth)
         == if depth + Height(n) <= MAX_DEPTH then Ok(AsFound(n, s.blockSize)) else Err(TooDeep)
    decreases n, 1
  {
    hide ReadInode, PlainData, D.ParseFrom, DirectoryEntries, SizeOf, IsDir, GoodName, FoundChildren, Heights, DirEntries;
    if depth <= MAX_DEPTH {
      assert NodeFound(image, s, n);
      var inode := ReadInode(image, s, n.nid).value;
      if IsDir(n) {
        DirMode(n);
        DotsSkipped(image, s, n, depth);
        ChildrenFound(image, s, n.children, depth);
      } else {
        DirMode(n);
        NoHeight();
      }
    }
  }

  lemma {:induction false} NoHeight()
    ensures Heights([]) == 0 && forall blockSize: nat :: AllAsFound([], blockSize) == []
  {
  }

  lemma {:induction false} DirMode(n: Item)
    ensures IsDir(n) <==> n.info.mode / 0x1000 % 16 == DIRECTORY
  {
  }

  lemma {:induction false} DotsSkipped(image: bytes, s: Superblock, n: Item, depth: nat)
    requires s.blockSize > 0 && depth <= MAX_DEPTH
    ensures FoundChildren(image, s, DirEntries(n), depth) == FoundChildren(image, s, ChildEntries(n.children), depth)
  {
    hide FoundTree, IsDir;
    var es := DirEntries(n);
    assert es[1..][1..] == ChildEntries(n.children);
    assert es[1..][0].name == DOT_DOT;
  }

  lemma {:induction false} ChildrenFound(image: bytes, s: Superblock, nodes: seq<Item>, depth: nat)
    requires s.blockSize > 0 && depth <= MAX_DEPTH && AllGood(nodes)
    requires forall m :: m in PreorderAll(nodes) ==> NodeFound(image, s, m)
    ensures FoundChildren(image, s, ChildEntries(nodes), depth)
         == if depth + Heights(nodes) <= MAX_DEPTH then Ok(AllAsFound(nodes, s.blockSize)) else Err(TooDeep)
    decreases nodes, 0
  {
    hide NodeFound, FoundTree, AsFound, Height, IsDir, GoodTree;
    if nodes != [] {
      var es := ChildEntries(nodes);
      assert es[1..] == ChildEntries(nodes[1..]);
      TreeFound(image, s, nodes[0], depth + 1);
      ChildrenFound(image, s, nodes[1..], depth);
    }
  }

  // ---- Numbering and marking keep what the reader needs ----------------------------------------------------

  lemma {:induction false} NumberedTree(n: Item, next: nat, parent: nat, meta: nat, blockSize: nat)
    requires blockSize > 0 && GoodTree(n)
    ensures var r := Assigned(Marked(n, blockSize), next, parent, meta, blockSize).0;
            && r.info == n.info && Height(r) == Height(n) && forall m :: m in Preorder(r) ==> GoodTree(m)
    decreases n
  {
    hide FirstClear, Slots, GoodName, DivCeil;
    var own := Marked(n, blockSize);
    var nid := FirstClear(next, meta, blockSize, Slots(own));
    NumberedTrees(n.children, nid + Slots(own), nid, meta, blockSize);
  }

  lemma {:induction false} NumberedTrees(nodes: seq<Item>, next: nat, parent: nat, meta: nat, blockSize: nat)
    requires blockSize > 0 && AllGood(nodes)
    ensures var r := AssignedAll(AllMarked(nodes, blockSize), next, parent, meta, blockSize).0;
            && |r| == |nodes| && Heights(r) == Heights(nodes) && AllGood(r) && forall m :: m in PreorderAll(r) ==> GoodTree(m)
    decreases nodes
  {
    hide Assigned, Marked, Preorder, GoodTree, GoodName, Height;
    if nodes != [] {
      var all := AllMarked(nodes, blockSize);
      var first := Assigned(all[0], next, parent, meta, blockSize);
      assert all[1..] == AllMarked(nodes[1..], blockSize);
      NumberedTree(nodes[0], next, parent, meta, blockSize);
      SelfInPreorder(first.0);
      NumberedTrees(nodes[1..], first.1, parent, meta, blockSize);
      var rest := AssignedAll(all[1..], first.1, parent, meta, blockSize);
      assert ([first.0] + rest.0)[1..] == rest.0;
    }
  }

  lemma {:induction false} SelfInPreorder(n: Item)
    ensures n in Preorder(n)
  {
  }

  /** Every node of a whole image is found. */
  lemma {:induction false} EveryNodeFound(image: bytes, p: Plan, i: nat)
    requires p.blockSize > 0 && Whole(image, p) && i < |p.list| && D.DirBlock(p.blockSize)
    requires GoodTree(p.list[i]) && NumbersBelow(p.list[i], U64_LIMIT)
    ensures SuperFields(p).blockSize == p.blockSize && NodeFound(image, SuperFields(p), p.list[i])
  {
    hide *;
    var n := p.list[i];
    WholeMeans(image, p);
    InodeFound(image, p, i);
    ChildlessIs(p, i);
    if IsDir(n) {
      DirectoryFound(image, p, i);
      ChildrenNumbered(n);
      DirectoryLists(n, p.blockSize);
      DirectoryIs(image, p, i);
    } else {
      NoChildren(n);
    }
    NodeIsFound(image, SuperFields(p), n, InodeOf(p, i));
  }

  lemma {:induction false} ChildlessIs(p: Plan, i: nat)
    requires p.blockSize > 0 && i < |p.list|
    ensures SuperFields(p).blockSize == p.blockSize
    ensures WithChildren(InodeOf(p, i), p.list[i].nid, p.list[i].info.name, []) == Childless(p.list[i], p.blockSize)
  {
    hide SizeOf, DirBlock, StartBlock, IsDir, DataAt, AlignUp4;
  }

  lemma {:induction false} ChildrenNumbered(n: Item)
    requires NumbersBelow(n, U64_LIMIT)
    ensures n.nid > 0 && n.parent > 0 && forall k :: 0 <= k < |n.children| ==> n.children[k].nid > 0
  {
  }

  lemma {:induction false} NoChildren(n: Item)
    requires GoodTree(n) && !IsDir(n)
    ensures n.children == []
  {
  }

  lemma {:induction false} DirectoryIs(image: bytes, p: Plan, i: nat)
    requires p.blockSize > 0 && i < |p.list| && SuperFields(p).blockSize == p.blockSize
    requires PlainData(image, SuperFields(p), InodeOf(p, i)) == Ok(DirData(p.list[i], p.blockSize))
    requires D.ParseFrom(DirData(p.list[i], p.blockSize), 0, p.blockSize) == Ok(DirEntries(p.list[i]))
    ensures DirectoryEntries(image, SuperFields(p), InodeOf(p, i)) == Ok(DirEntries(p.list[i]))
  {
    hide PlainData, D.ParseFrom, DirData, DirEntries, SuperFields, InodeOf;
  }

  lemma {:induction false} NodeIsFound(image: bytes, s: Superblock, n: Item, inode: FoundInode)
    requires s.blockSize > 0 && ReadInode(image, s, n.nid) == Ok(inode)
    requires WithChildren(inode, n.nid, n.info.name, []) == Childless(n, s.blockSize)
    requires if IsDir(n) then inode.size > 0 && DirectoryEntries(image, s, inode) == Ok(DirEntries(n)) else n.children == []
    ensures NodeFound(image, s, n)
  {
    hide ReadInode, DirectoryEntries, DirEntries, IsDir, Childless;
  }

  // ---- The superblock decides ------------------------------------------------------------------------------

  /** The root's slot is one of the first 36, and in front of the first block behind the inodes. */
  lemma {:induction false} RootNumber(root: Item, meta: nat, blockSize: nat, xattr: bytes, algo: W.Algo, algorithm: byte)
    requires blockSize > 0
    ensures PlanOf(root, meta, blockSize, xattr, algo, algorithm).list[0].nid <= 36
  {
    hide Slots, MayStart, Marked, AssignedAll;
    var marked := Marked(root, blockSize);
    var nid := FirstClear(1, meta, blockSize, Slots(marked));
    if nid > 1 {
      assert !MayStart(nid - 1, meta, blockSize, Slots(marked));
      StillInFront(nid - 1, meta, blockSize, Slots(marked));
    }
  }

  lemma {:induction false} SuperFitsWhole(image: bytes, p: Plan)
    requires p.blockSize > 0 && Laid(p) && !TooWide(p) && p.list[0].nid < U16_LIMIT && IsDir(p.list[0])
    requires EndBlock(p) > 0
    ensures SuperFits(p)
  {
    hide *;
    LaidBlocks(p);
    LaidNodes(p);
    NumbersFit(p, 0);
    DirBlocksRise(p, 0, |p.list|);
    PayloadBlocksRise(p, 0, |p.list|);
    EndIs(p);
    MetaFirst(p);
    SuperFitsIs(p);
  }

  lemma {:induction false} MetaFirst(p: Plan)
    requires p.blockSize > 0
    ensures p.meta <= StartBlock(p)
  {
  }

  lemma {:induction false} SuperFitsIs(p: Plan)
    requires p.blockSize > 0 && p.list != []
    requires p.list[0].nid < U16_LIMIT && 0 < EndBlock(p) < U32_LIMIT && p.meta < U32_LIMIT && StartBlock(p) < U32_LIMIT
    ensures SuperFits(p)
  {
    hide EndBlock, StartBlock;
  }

  /**
   A finished image has a superblock that reads back exactly when it ends behind byte 1024; otherwise the file is cut in
   front of it.
   */
  lemma {:induction false} SuperReadsIff(image: bytes, p: Plan, bits: nat, labels: Labels)
    requires 9 <= bits <= 16 && p.blockSize == Pow2(bits) && |labels.volume| == 16
    requires Laid(p) && p.list != [] && SuperFits(p) && Built(image, p, bits, labels)
    ensures ByteOf(EndBlock(p), p.blockSize) > SUPER_FROM ==> ReadSuper(image) == Ok(SuperFields(p))
    ensures ByteOf(EndBlock(p), p.blockSize) <= SUPER_FROM ==> ReadSuper(image) == Err(PastEnd)
  {
    hide *;
    LaidBlocks(p);
    BuiltMeans(image, p, bits, labels);
    BlocksOf512(EndBlock(p), p.blockSize);
    if ByteOf(EndBlock(p), p.blockSize) > SUPER_FROM {
      SuperReads(image, p, bits, labels);
    } else {
      TooShort(image);
    }
  }

  lemma {:induction false} BuiltMeans(image: bytes, p: Plan, bits: nat, labels: Labels)
    requires p.blockSize > 0 && p.list != [] && |labels.volume| == 16 && Built(image, p, bits, labels)
    ensures |image| == ByteOf(EndBlock(p), p.blockSize)
    ensures ByteOf(EndBlock(p), p.blockSize) >= SUPER_UNTIL ==> HasAt(image, SUPER_FROM, SuperOf(p, bits, labels))
    ensures ByteOf(StartBlock(p), p.blockSize) >= SUPER_UNTIL ==> Intact(image, p, PieceCount(p))
  {
    hide EndBlock, StartBlock, Intact, SuperOf, HasAt, ByteOf;
  }

  lemma {:induction false} BlocksOf512(block: nat, blockSize: nat)
    requires blockSize > 0 && blockSize % 512 == 0
    ensures ByteOf(block, blockSize) > SUPER_FROM ==> ByteOf(block, blockSize) >= SUPER_UNTIL
  {
    var q := blockSize / 512;
    assert blockSize == q * 512;
    MulAssociates(block, q, 512);
  }

  lemma {:induction false} TooShort(image: bytes)
    requires |image| <= SUPER_FROM
    ensures ReadSuper(image) == Err(PastEnd)
  {
  }

  /** Blocks behind the inodes, as the layout counts them. */
  lemma {:induction false} EndCounts(p: Plan)
    requires p.blockSize > 0
    ensures EndBlock(p) == StartBlock(p) + BlocksBehind(p.blockSize, |p.xattr|, DirLengths(p.list, p.blockSize), PayloadCounts(p.list, p))
  {
    hide DivCeil, DirLengths, DirBlocks, PayloadCounts, PayloadBlocks, StartBlock;
    assert p.list[..|p.list|] == p.list;
  }

  function RegionsOf(p: Plan): seq<Span>
    requires p.blockSize > 0
  {
    RegionSpans(Placed(p.meta, DivCeil(p.next * SLOT, p.blockSize), p.blockSize, |p.xattr|, DirLengths(p.list, p.blockSize)),
                p.blockSize, |p.xattr|, DirLengths(p.list, p.blockSize), PayloadCounts(p.list, p))
  }

  /**
   The image of a tree is sound exactly when the first block behind the inodes does not start in front of the end of the
   superblock: in front of it, either the file ends before the superblock or the superblock lies on one of the regions.
   */
  lemma {:induction false} SoundIff(image: bytes, p: Plan, bits: nat, labels: Labels)
    requires 9 <= bits <= 16 && p.blockSize == Pow2(bits) && |labels.volume| == 16
    requires Laid(p) && IsDir(p.list[0]) && DirData(p.list[0], p.blockSize) != [] && SuperFits(p) && Built(image, p, bits, labels)
    ensures ReadSuper(image).Ok? && AllOffSuper(RegionsOf(p)) <==> ByteOf(StartBlock(p), p.blockSize) >= SUPER_UNTIL
  {
    hide Laid, Built, RegionsOf, AllOffSuper, ReadSuper, SuperFits, EndBlock, StartBlock, ByteOf, IsDir, DirData, Pow2, SuperFields;
    LaidBlocks(p);
    LaidNodes(p);
    SuperReadsIff(image, p, bits, labels);
    RootTakesBlock(p);
    RegionsIff(p);
    ByteOfMonotone(StartBlock(p), EndBlock(p), p.blockSize);
  }

  lemma {:induction false} RegionsIff(p: Plan)
    requires Laid(p)
    ensures AllOffSuper(RegionsOf(p))
       <==> ByteOf(StartBlock(p), p.blockSize) >= SUPER_UNTIL || ByteOf(EndBlock(p), p.blockSize) <= SUPER_FROM
  {
    hide Laid, AllOffSuper, RegionSpans, Placed, DirLengths, PayloadCounts, BlocksBehind, DivCeil, EndBlock;
    LaidBlocks(p);
    EndCounts(p);
    SomeSlots(p);
    BehindOffSuperIff(p.meta, DivCeil(p.next * SLOT, p.blockSize), p.blockSize, |p.xattr|, DirLengths(p.list, p.blockSize),
                      PayloadCounts(p.list, p));
  }

  lemma {:induction false} SomeSlots(p: Plan)
    requires Laid(p)
    ensures DivCeil(p.next * SLOT, p.blockSize) > 0
  {
    hide Shaped, InOrder, DivCeil;
    OrderedFrom(SlotRanges(p.list), 1, p.next);
    DivCeilAtMost(p.next * SLOT, 0, p.blockSize);
  }

  lemma {:induction false} RootTakesBlock(p: Plan)
    requires Laid(p) && IsDir(p.list[0]) && DirData(p.list[0], p.blockSize) != []
    ensures EndBlock(p) > StartBlock(p)
  {
    hide *;
    LaidBlocks(p);
    LaidNodes(p);
    StartFirst(p);
    DirBlockStep(p, 0);
    DirBlocksRise(p, 0, 1);
    DirBlocksRise(p, 1, |p.list|);
    PayloadBlocksRise(p, 0, |p.list|);
    EndIs(p);
    DivCeilAtMost(|DirData(p.list[0], p.blockSize)|, 0, p.blockSize);
  }

  // ---- Building and reading --------------------------------------------------------------------------------

  lemma {:induction false} NothingRefused(p: Plan)
    requires Laid(p) && D.DirBlock(p.blockSize) && forall e :: !Refused(e, p)
    requires forall i :: 0 <= i < |p.list| ==> NumbersBelow(p.list[i], U64_LIMIT)
    ensures !TooWide(p) && forall i :: 0 <= i < |p.list| ==>
              SizeOf(p.list[i], p.blockSize) < U32_LIMIT && (IsDir(p.list[i]) ==> DirData(p.list[i], p.blockSize) != [])
  {
    hide Laid, TooWide, TooLong, SizeOf, IsDir, DirData, NumbersBelow, D.DirBlock;
    LaidBlocks(p);
    assert !Refused(NumberOverflow, p) && !Refused(DirectoryUnfit, p) && !Refused(FileTooLarge, p);
    forall i | 0 <= i < |p.list| && IsDir(p.list[i])
      ensures DirData(p.list[i], p.blockSize) != []
    {
      EmptyIffTooLong(p.list[i], p.blockSize);
    }
  }

  lemma {:induction false} WholeIs(image: bytes, p: Plan)
    requires Laid(p) && IsDir(p.list[0]) && Intact(image, p, PieceCount(p)) && |image| == ByteOf(EndBlock(p), p.blockSize)
    requires !TooWide(p) && forall i :: 0 <= i < |p.list| ==>
               SizeOf(p.list[i], p.blockSize) < U32_LIMIT && (IsDir(p.list[i]) ==> DirData(p.list[i], p.blockSize) != [])
    ensures Whole(image, p)
  {
    hide Laid, Intact, TooWide, SizeOf, IsDir, DirData, EndBlock, ByteOf;
  }

  /** Every number leads to its inode, and every compressed file of blocks up to 4 KiB is there for all readers. */
  ghost predicate NodesReadBack(image: bytes, p: Plan, inflate: R.Inflate)
    requires p.blockSize > 0 && p.list != []
  {
    forall i :: 0 <= i < |p.list| ==>
      && ReadInode(image, SuperFields(p), p.list[i].nid) == Ok(InodeOf(p, i))
      && (p.list[i].clusters > 0 && p.blockSize <= 0x1000 && C.Undoes(p.algo, inflate, p.algorithm as nat % 16, p.blockSize) ==>
            FileReadable(image, p, i, inflate))
  }

  ghost predicate FileReadable(image: bytes, p: Plan, i: nat, inflate: R.Inflate)
    requires p.blockSize > 0 && i < |p.list|
  {
    && InodeOf(p, i).layout == COMPACT_LAYOUT && InodeOf(p, i).size == |p.list[i].info.content|
    && R.PlainsCarryData(image, p.blockSize, CompactOf(InodeOf(p, i)))
    && exists segs :: R.Holds(image, p.blockSize, inflate, CompactOf(InodeOf(p, i)), segs, p.list[i].info.content)
  }

  lemma {:induction false} AllNodesReadBack(image: bytes, p: Plan, inflate: R.Inflate)
    requires p.blockSize > 0 && Whole(image, p) && p.list != []
    ensures NodesReadBack(image, p, inflate)
  {
    hide Whole, ReadInode, InodeOf, C.Undoes, R.Holds, R.PlainsCarryData, SuperFields, CompactOf;
    forall i | 0 <= i < |p.list|
      ensures ReadInode(image, SuperFields(p), p.list[i].nid) == Ok(InodeOf(p, i))
    {
      InodeFound(image, p, i);
    }
    forall i | 0 <= i < |p.list| && p.list[i].clusters > 0 && p.blockSize <= 0x1000
               && C.Undoes(p.algo, inflate, p.algorithm as nat % 16, p.blockSize)
      ensures FileReadable(image, p, i, inflate)
    {
      var segs := FileHeld(image, p, i, inflate);
    }
  }

  /** The tree below the root is what the reader builds, unless it is too deep for it. */
  ghost predicate TreeReadsBack(image: bytes, p: Plan, height: nat)
    requires p.blockSize > 0 && p.list != []
  {
    var root := p.list[0];
    && ReadSuper(image) == Ok(SuperFields(p)) && SuperFields(p).blockSize == p.blockSize && SuperFields(p).root == root.nid
    && FoundTree(image, SuperFields(p), root.nid, root.info.name, 0)
       == if height <= MAX_DEPTH then Ok(AsFound(root, p.blockSize)) else Err(TooDeep)
  }

  lemma {:induction false} WholeTree(
    image: bytes, root: Item, meta: nat, blockSize: nat, xattr: bytes, algo: W.Algo, algorithm: byte)
    requires blockSize > 0 && D.DirBlock(blockSize) && GoodTree(root)
    requires var p := PlanOf(root, meta, blockSize, xattr, algo, algorithm);
             && Whole(image, p) && ReadSuper(image) == Ok(SuperFields(p))
             && forall i :: 0 <= i < |p.list| ==> NumbersBelow(p.list[i], U64_LIMIT)
    ensures TreeReadsBack(image, PlanOf(root, meta, blockSize, xattr, algo, algorithm), Height(root))
  {
    hide *;
    var p := PlanOf(root, meta, blockSize, xattr, algo, algorithm);
    var tree := Assigned(Marked(root, blockSize), 1, 1, meta, blockSize);
    PlanIs(root, meta, blockSize, xattr, algo, algorithm, tree.0, tree.1);
    NumberedTree(root, 1, 1, meta, blockSize);
    SelfInPreorder(tree.0);
    SuperBlockSize(p);
    forall m | m in Preorder(tree.0)
      ensures NodeFound(image, SuperFields(p), m)
    {
      var i :| 0 <= i < |p.list| && p.list[i] == m;
      EveryNodeFound(image, p, i);
    }
    TreeFound(image, SuperFields(p), tree.0, 0);
    TreeIs(image, p, Height(root));
  }

  lemma {:induction false} SuperBlockSize(p: Plan)
    requires p.blockSize > 0 && p.list != []
    ensures SuperFields(p).blockSize == p.blockSize && SuperFields(p).root == p.list[0].nid
  {
    hide StartBlock;
  }

  lemma {:induction false} TreeIs(image: bytes, p: Plan, height: nat)
    requires p.blockSize > 0 && p.list != [] && ReadSuper(image) == Ok(SuperFields(p))
    requires SuperFields(p).blockSize == p.blockSize && SuperFields(p).root == p.list[0].nid
    requires FoundTree(image, SuperFields(p), p.list[0].nid, p.list[0].info.name, 0)
          == if height <= MAX_DEPTH then Ok(AsFound(p.list[0], p.blockSize)) else Err(TooDeep)
    ensures TreeReadsBack(image, p, height)
  {
    hide FoundTree, AsFound, ReadSuper, SuperFields;
  }

  /**
   `rebuild_compressed` read back. The image is sound exactly when the first block behind the inodes does not start in
   front of the end of the superblock; then its superblock, every inode, every directory down to the reader's depth and,
   with blocks up to 4 KiB, every file reads back.
   */
  method Rebuild(
    root: Item, meta: nat, bits: nat, xattr: bytes, algo: W.Algo, algorithm: byte, labels: Labels, ghost inflate: R.Inflate)
    returns (r: Result<(), BuildError>, out: File, ghost p: Plan)
    requires 9 <= bits <= 16 && Ready(root) && IsDir(root) && GoodTree(root) && |labels.volume| == 16
    ensures fresh(out) && p == PlanOf(root, meta, Pow2(bits), xattr, algo, algorithm) && Laid(p) && p.list != []
    ensures r.Err? ==> Refused(r.error, p)
    ensures r.Ok? <==> forall e :: !Refused(e, p)
    ensures r.Ok? ==>
              && |out.content| == ByteOf(EndBlock(p), p.blockSize)
              && (ReadSuper(out.content).Ok? <==> |out.content| > SUPER_FROM)
              && (ReadSuper(out.content).Ok? && AllOffSuper(RegionsOf(p)) <==> ByteOf(StartBlock(p), p.blockSize) >= SUPER_UNTIL)
    ensures r.Ok? ==> Built(out.content, p, bits, labels) && forall i :: 0 <= i < |p.list| ==> NumbersBelow(p.list[i], U64_LIMIT)
    ensures r.Ok? && ByteOf(StartBlock(p), p.blockSize) >= SUPER_UNTIL ==>
              Whole(out.content, p) && TreeReadsBack(out.content, p, Height(root)) && NodesReadBack(out.content, p, inflate)
  {
    hide *;
    var blockSize := Pow2(bits);
    BlockSizes(bits);
    r, out, p := BuildImage(root, meta, bits, xattr, algo, algorithm, labels);
    LaidBlocks(p);
    LaidNodes(p);
    PlanFields(root, meta, blockSize, xattr, algo, algorithm);
    if r.Ok? {
      RebuiltIsSound(out.content, root, meta, bits, xattr, algo, algorithm, labels, inflate);
    }
  }

  lemma {:induction false} RebuiltIsSound(
    image: bytes, root: Item, meta: nat, bits: nat, xattr: bytes, algo: W.Algo, algorithm: byte, labels: Labels, inflate: R.Inflate)
    requires 9 <= bits <= 16 && Ready(root) && IsDir(root) && GoodTree(root) && |labels.volume| == 16
    requires var p := PlanOf(root, meta, Pow2(bits), xattr, algo, algorithm);
             && Laid(p) && p.list != [] && p.blockSize == Pow2(bits) && (forall e :: !Refused(e, p)) && Built(image, p, bits, labels)
    ensures var p := PlanOf(root, meta, Pow2(bits), xattr, algo, algorithm);
            && |image| == ByteOf(EndBlock(p), p.blockSize)
            && (ReadSuper(image).Ok? <==> |image| > SUPER_FROM)
            && (ReadSuper(image).Ok? && AllOffSuper(RegionsOf(p)) <==> ByteOf(StartBlock(p), p.blockSize) >= SUPER_UNTIL)
            && (forall i :: 0 <= i < |p.list| ==> NumbersBelow(p.list[i], U64_LIMIT))
            && (ByteOf(StartBlock(p), p.blockSize) >= SUPER_UNTIL ==>
                  Whole(image, p) && TreeReadsBack(image, p, Height(root)) && NodesReadBack(image, p, inflate))
  {
    hide *;
    var blockSize, p := Pow2(bits), PlanOf(root, meta, Pow2(bits), xattr, algo, algorithm);
    BlockSizes(bits);
    LaidBlocks(p);
    PlanFields(root, meta, blockSize, xattr, algo, algorithm);
    PlanLaid(root, meta, blockSize, xattr, algo, algorithm);
    StartNarrow(p);
    NumbersIn64(p);
    NothingRefused(p);
    RootNumber(root, meta, blockSize, xattr, algo, algorithm);
    RootIsDir(root, meta, blockSize, xattr, algo, algorithm);
    BuiltMeans(image, p, bits, labels);
    RootTakesBlock(p);
    SmallNumber(p.list[0].nid);
    SuperFitsWhole(image, p);
    SuperReadsIff(image, p, bits, labels);
    SoundIff(image, p, bits, labels);
    if ByteOf(StartBlock(p), p.blockSize) >= SUPER_UNTIL {
      WholeIs(image, p);
      WholeTree(image, root, meta, blockSize, xattr, algo, algorithm);
      AllNodesReadBack(image, p, inflate);
    }
  }

  lemma {:induction false} SmallNumber(nid: nat)
    requires nid <= 36
    ensures nid < U16_LIMIT
  {
  }

  lemma {:induction false} StartNarrow(p: Plan)
    requires Laid(p) && forall e :: !Refused(e, p)
    ensures StartBlock(p) < U32_LIMIT
  {
    hide Laid, TooWide, StartBlock, TooLong, SizeOf;
    LaidBlocks(p);
    assert !Refused(NumberOverflow, p);
    if StartBlock(p) >= U32_LIMIT {
      WideStart(p);
    }
  }

  lemma {:induction false} RootIsDir(root: Item, meta: nat, blockSize: nat, xattr: bytes, algo: W.Algo, algorithm: byte)
    requires blockSize > 0 && IsDir(root)
    ensures IsDir(PlanOf(root, meta, blockSize, xattr, algo, algorithm).list[0])
  {
    hide FirstClear, Slots;
  }

  /** A file with bytes is stored compressed. */
  lemma {:induction false} FileSizeIs(image: bytes, p: Plan, i: nat)
    requires p.blockSize > 0 && Whole(image, p) && i < |p.list| && !IsDir(p.list[i])
    ensures InodeOf(p, i).size == |p.list[i].info.content|
    ensures p.list[i].info.content != [] ==> p.list[i].clusters > 0 && InodeOf(p, i).layout == COMPACT_LAYOUT
  {
    hide Intact, InOrder, DirData, DataAt, DirBlock, AlignUp4, SlotAt, DivCeil, EndBlock, TooWide;
    var n := p.list[i];
    assert Shaped(n, p.blockSize);
    DivCeilAtMost(|n.info.content|, 0, p.blockSize);
  }

  lemma {:induction false} CompactSize(inode: FoundInode)
    ensures CompactOf(inode).size == inode.size
  {
  }

  /** `inode::read` and `read_data` on a file. */
  method ReadFile(image: bytes, s: Superblock, inflate: R.Inflate, nid: nat, ghost p: Plan, ghost i: nat)
    returns (r: Result<array<byte>, ReadError>)
    requires s.blockSize > 0
    ensures r.Ok? ==> fresh(r.value)
    ensures p.blockSize > 0 && Whole(image, p) && i < |p.list| && s == SuperFields(p) && s.blockSize == p.blockSize
            && nid == p.list[i].nid && !IsDir(p.list[i])
            && p.blockSize <= 0x1000 && C.Undoes(p.algo, inflate, p.algorithm as nat % 16, p.blockSize) ==>
              r.Ok? && r.value[..] == p.list[i].info.content
  {
    hide *;
    ghost var good := p.blockSize > 0 && Whole(image, p) && i < |p.list| && s == SuperFields(p) && s.blockSize == p.blockSize
                      && nid == p.list[i].nid && !IsDir(p.list[i])
                      && p.blockSize <= 0x1000 && C.Undoes(p.algo, inflate, p.algorithm as nat % 16, p.blockSize);
    if good {
      InodeFound(image, p, i);
      FileSizeIs(image, p, i);
    }
    var inode := ReadInode(image, s, nid);
    if inode.Err? {
      return Err(inode.error);
    }
    var data := new byte[inode.value.size](_ => 0);
    if inode.value.size == 0 {
      return Ok(data);
    }
    if inode.value.layout == COMPACT_LAYOUT {
      ghost var segs: seq<R.Segment>, content: bytes := [], [];
      if good {
        content := p.list[i].info.content;
        segs := FileHeld(image, p, i, inflate);
      }
      CompactSize(inode.value);
      var read := R.ReadCompactData(image, s.blockSize, inflate, CompactOf(inode.value), data, segs, content);
      if read.Err? {
        return Err(BadFile);
      }
      return Ok(data);
    }
    var plain := PlainData(image, s, inode.value);
    if plain.Err? {
      return Err(plain.error);
    }
    CopyInto(data, 0, plain.value);
    return Ok(data);
  }

  // ---- An image without a superblock -----------------------------------------------------------------------

  const LONE_DIRECTORY: Item := Item(0, 0, false, 0, Info([], 0x4000, 0, 0, [], []), [])

  /** Number, parent and children of the only node of the numbered tree. */
  lemma {:induction false} LonePlan(algo: W.Algo, algorithm: byte)
    ensures PlanOf(LONE_DIRECTORY, 0, 512, [], algo, algorithm)
         == Plan([LONE_DIRECTORY.(nid := 1, parent := 1)], 2, 0, 512, [], algo, algorithm)
  {
    assert MayStart(1, 0, 512, 1);
    assert FirstClear(1, 0, 512, 1) == 1;
    assert AssignedAll([], 2, 1, 0, 512) == ([], 2);
    assert AllMarked([], 512) == [];
    assert Marked(LONE_DIRECTORY, 512) == LONE_DIRECTORY;
    assert Assigned(LONE_DIRECTORY, 1, 1, 0, 512) == (LONE_DIRECTORY.(nid := 1, parent := 1), 2);
    assert PreorderAll([]) == [];
  }

  /** Its directory has the two dot entries in 27 bytes. */
  lemma {:induction false} LoneData(n: Item)
    requires n == LONE_DIRECTORY.(nid := 1, parent := 1)
    ensures |DirData(n, 512)| == 27 && IsDir(n) && NumbersBelow(n, U64_LIMIT)
  {
    var es := DirEntries(n);
    assert es == [D.Entry(1, DOT, 2), D.Entry(1, DOT_DOT, 2)];
    EntriesBelow(n);
    assert D.BlockEnd(es, 0, 2, 3, 512) == 2;
    assert D.BlockEnd(es, 0, 1, 1, 512) == 2;
    assert D.BlockEnd(es, 0, 0, 0, 512) == 2;
    assert D.FirstEnd(es, 0, 512) == 2;
    assert es[0..2] == es;
    D.FirstEndFits(es, 0, 512);
    assert D.Names(es, 0) == [] && D.Names(es, 1) == DOT && D.Names(es, 2) == DOT + DOT_DOT;
    assert D.Pack(es, 2, 512) == Some([]);
  }

  /** With 512-byte blocks the image of a lone root directory ends at byte 1024 and has no superblock. */
  method BuildLoneRoot(algo: W.Algo, algorithm: byte, labels: Labels) returns (out: File)
    requires |labels.volume| == 16
    ensures fresh(out) && |out.content| == 1024 && ReadSuper(out.content) == Err(PastEnd)
  {
    LonePlan(algo, algorithm);
    assert Pow2(9) == 512 by { assert Pow2(3) == 8; assert Pow2(6) == 64; }
    assert Ready(LONE_DIRECTORY);
    ghost var n, plan := LONE_DIRECTORY.(nid := 1, parent := 1), PlanOf(LONE_DIRECTORY, 0, 512, [], algo, algorithm);
    LoneData(n);
    LoneEnd(plan);
    hide *;
    var r;
    ghost var p;
    r, out, p := BuildImage(LONE_DIRECTORY, 0, 9, [], algo, algorithm, labels);
    BuiltMeans(out.content, p, 9, labels);
    TooShort(out.content);
  }

  lemma {:induction false} LoneEnd(p: Plan)
    requires p.list == [LONE_DIRECTORY.(nid := 1, parent := 1)] && p.next == 2 && p.meta == 0 && p.blockSize == 512 && p.xattr == []
    ensures ByteOf(EndBlock(p), 512) == 1024 && forall e :: !Refused(e, p)
  {
    hide *;
    var n := p.list[0];
    LoneData(n);
    LoneBlocks(p);
    LoneFits(p);
    NotRefused(p);
  }

  lemma {:induction false} LoneFits(p: Plan)
    requires p.list == [LONE_DIRECTORY.(nid := 1, parent := 1)] && p.blockSize == 512
    ensures !(exists i :: 0 <= i < |p.list| && TooLong(p.list[i], p.blockSize))
    ensures !(exists i :: 0 <= i < |p.list| && SizeOf(p.list[i], p.blockSize) >= U32_LIMIT)
  {
    LoneData(p.list[0]);
    hide DirData, TooLong;
    EmptyIffTooLong(p.list[0], 512);
  }

  lemma {:induction false} LoneBlocks(p: Plan)
    requires p.list == [LONE_DIRECTORY.(nid := 1, parent := 1)] && p.next == 2 && p.meta == 0 && p.blockSize == 512 && p.xattr == []
    ensures ByteOf(EndBlock(p), 512) == 1024 && !TooWide(p)
  {
    hide DirData, DirLengths, PayloadCounts, Pclusters, DirBlocks, PayloadBlocks, DivCeil;
    LoneData(p.list[0]);
    LoneStart(p);
    DivCeilUnique(27, 1, 512);
    DirBlockStep(p, 0);
    NoPayloadYet(p);
    PayloadBlockStep(p, 0);
    EndIs(p);
    hide DirBlock, PayloadBlock, EndBlock;
    assert p.list[..0] == [] && p.list[..1] == p.list;
    ClusterTotalStep(p.list, 0);
    assert ClusterTotal(p.list[..0]) == 0;
  }

  lemma {:induction false} LoneStart(p: Plan)
    requires |p.list| == 1 && p.next == 2 && p.meta == 0 && p.blockSize == 512 && p.xattr == []
    ensures DirBlock(p, 0) == 1
  {
    DivCeilUnique(64, 1, 512);
    DivCeilUnique(0, 0, 512);
    assert p.list[..0] == [];
  }

  // ---- The parent of the root ------------------------------------------------------------------------------

  /** The root's parent is number 1, which is the root itself exactly when the metadata does not start at byte 1024. */
  lemma {:induction false} RootIsOwnParentIff(
    root: Item, meta: nat, blockSize: nat, xattr: bytes, algo: W.Algo, algorithm: byte)
    requires blockSize > 0 && blockSize % 512 == 0 && IsDir(root) && ByteOf(meta, blockSize) + 96 < U64_LIMIT
    ensures var n := PlanOf(root, meta, blockSize, xattr, algo, algorithm).list[0];
            n.parent == n.nid <==> ByteOf(meta, blockSize) != SUPER_FROM
  {
    hide AssignedAll, AllMarked;
    var marked := Marked(root, blockSize);
    assert 1 <= Slots(marked) <= 2;
    BlocksOf512(meta, blockSize);
    Base512(meta, blockSize);
    assert MayStart(1, meta, blockSize, Slots(marked)) <==> ByteOf(meta, blockSize) != SUPER_FROM;
    assert FirstClear(1, meta, blockSize, Slots(marked)) == 1 <==> MayStart(1, meta, blockSize, Slots(marked));
  }

  lemma {:induction false} Base512(meta: nat, blockSize: nat)
    requires blockSize > 0 && blockSize % 512 == 0
    ensures ByteOf(meta, blockSize) < SUPER_FROM ==> ByteOf(meta, blockSize) <= 512
  {
    var q := blockSize / 512;
    assert blockSize == q * 512;
    MulAssociates(meta, q, 512);
  }
}
