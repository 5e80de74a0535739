/**
 Inodes and extent trees on disk: what the builder writes into an inode slot and into tree blocks, and what
 the reader makes of it.
 */
module Ext4Inode {
  import opened Core
  import opened Arith
  import opened OutFile
  import opened Spans
  import opened Ext4Alloc
  import opened Ext4Extents

  const INODE_EXTENTS := 0x80000

  // ---- Fields and entries of a node ----------------------------------------------------------------------

  /** One field of a node: `put16`, `put32` or `write_at` inside the node's region. */
  method PutField(image: File, base: nat, len: nat, offset: nat, data: bytes)
    requires base + len <= |image.content| && offset + |data| <= len
    modifies image
    ensures OnlyRegion(old(image.content), image.content, base, len)
    ensures Region(image.content, base, len) == Overwrite(Region(old(image.content), base, len), offset, data)
  {
    OverwriteInRegion(image.content, base, len, offset, data);
    image.WriteAt(base + offset, data);
  }

  /** The four fields of a node header in one stretch. */
  method PutHeader(image: File, base: nat, len: nat, entries: nat, capacity: nat, depth: nat)
    requires base + len <= |image.content| && 12 <= len
    requires entries < U16_LIMIT && capacity < U16_LIMIT && depth < U16_LIMIT
    modifies image
    ensures OnlyRegion(old(image.content), image.content, base, len)
    ensures Region(image.content, base, len)
         == Overwrite(Region(old(image.content), base, len), 0, HeaderBytes(entries, capacity, depth))
  {
    hide Overwrite, Le16, Region;
    ghost var node := Region(image.content, base, len);
    PutField(image, base, len, 0, Le16(EXTENT_MAGIC));
    PutField(image, base, len, 2, Le16(entries));
    OverwriteTwice(node, 0, Le16(EXTENT_MAGIC), Le16(entries));
    PutField(image, base, len, 4, Le16(capacity));
    OverwriteTwice(node, 0, Le16(EXTENT_MAGIC) + Le16(entries), Le16(capacity));
    PutField(image, base, len, 6, Le16(depth));
    OverwriteTwice(node, 0, Le16(EXTENT_MAGIC) + Le16(entries) + Le16(capacity), Le16(depth));
  }

  /** `write_extent`. */
  method PutExtent(image: File, base: nat, len: nat, offset: nat, e: Extent)
    requires base + len <= |image.content| && offset + 12 <= len && Storable(e)
    modifies image
    ensures OnlyRegion(old(image.content), image.content, base, len)
    ensures Region(image.content, base, len) == Overwrite(Region(old(image.content), base, len), offset, ExtentBytes(e))
  {
    hide Overwrite, Le16, Le32, Region;
    ghost var node := Region(image.content, base, len);
    PutField(image, base, len, offset, Le32(e.logical));
    PutField(image, base, len, offset + 4, Le16(e.length));
    OverwriteTwice(node, offset, Le32(e.logical), Le16(e.length));
    PutField(image, base, len, offset + 6, Le16(0));
    OverwriteTwice(node, offset, Le32(e.logical) + Le16(e.length), Le16(0));
    PutField(image, base, len, offset + 8, Le32(e.start));
    OverwriteTwice(node, offset, Le32(e.logical) + Le16(e.length) + Le16(0), Le32(e.start));
  }

  method PutIndex(image: File, base: nat, len: nat, offset: nat, logical: nat, block: nat)
    requires base + len <= |image.content| && offset + 12 <= len && logical < U32_LIMIT && block < U32_LIMIT
    modifies image
    ensures OnlyRegion(old(image.content), image.content, base, len)
    ensures Region(image.content, base, len) == Overwrite(Region(old(image.content), base, len), offset, IndexBytes(logical, block))
  {
    hide Overwrite, Le16, Le32, Region;
    ghost var node := Region(image.content, base, len);
    PutField(image, base, len, offset, Le32(logical));
    PutField(image, base, len, offset + 4, Le32(block));
    OverwriteTwice(node, offset, Le32(logical), Le32(block));
    PutField(image, base, len, offset + 8, Le16(0));
    OverwriteTwice(node, offset, Le32(logical) + Le32(block), Le16(0));
  }

  // ---- Nodes ---------------------------------------------------------------------------------------------

  /** Header fields and the first `n` entries of a leaf. */
  ghost predicate LeafSoFar(node: bytes, extents: seq<Extent>, n: nat, count: nat) {
    && n <= |extents| && AllStorable(extents) && 12 + 12 * n <= |node|
    && Get16(node, 0) == EXTENT_MAGIC && Get16(node, 2) == count && Get16(node, 6) == 0
    && forall j :: 0 <= j < n ==> HasAt(node, 12 + 12 * j, ExtentBytes(extents[j]))
  }

  lemma {:induction false} HeaderReads(node: bytes, entries: nat, capacity: nat, depth: nat)
    requires |node| >= 12 && entries < U16_LIMIT && capacity < U16_LIMIT && depth < U16_LIMIT
    ensures var after := Overwrite(node, 0, HeaderBytes(entries, capacity, depth));
            && |after| == |node|
            && Get16(after, 0) == EXTENT_MAGIC && Get16(after, 2) == entries && Get16(after, 6) == depth
  {
    var a, b, c, d := Le16(EXTENT_MAGIC), Le16(entries), Le16(capacity), Le16(depth);
    var after := Overwrite(node, 0, a + b + c + d);
    assert after[0..8] == a + b + c + d;
    HasAtPart(after, 0, a + b + c + d, 0, a);
    HasAtPart(after, 0, a + b + c + d, 2, b);
    HasAtPart(after, 0, a + b + c + d, 6, d);
    hide Le16, Get16, HasAt, Overwrite;
    Read16(after, 0, EXTENT_MAGIC);
    Read16(after, 2, entries);
    Read16(after, 6, depth);
  }

  lemma {:induction false} BehindKeepsHeader(node: bytes, offset: nat, data: bytes)
    requires 12 <= offset && offset + |data| <= |node|
    ensures var after := Overwrite(node, offset, data);
            && |after| == |node|
            && Get16(after, 0) == Get16(node, 0) && Get16(after, 2) == Get16(node, 2) && Get16(after, 6) == Get16(node, 6)
  {
  }

  lemma {:induction false} LeafGrows(node: bytes, extents: seq<Extent>, n: nat, count: nat)
    requires LeafSoFar(node, extents, n, count) && n < |extents| && 12 + 12 * n + 12 <= |node|
    ensures LeafSoFar(Overwrite(node, 12 + 12 * n, ExtentBytes(extents[n])), extents, n + 1, count)
  {
    hide ExtentBytes, Get16;
    var data := ExtentBytes(extents[n]);
    var after := Overwrite(node, 12 + 12 * n, data);
    BehindKeepsHeader(node, 12 + 12 * n, data);
    forall j | 0 <= j < n + 1
      ensures HasAt(after, 12 + 12 * j, ExtentBytes(extents[j]))
    {
      if j < n {
        OverwriteKeeps(node, 12 + 12 * n, data, 12 + 12 * j, ExtentBytes(extents[j]));
      } else {
        assert after[12 + 12 * n..12 + 12 * n + 12] == data;
      }
    }
  }

  lemma {:induction false} LeafComplete(node: bytes, extents: seq<Extent>)
    requires LeafSoFar(node, extents, |extents|, |extents|) && |extents| < U16_LIMIT
    ensures IsLeaf(node, extents)
  {
  }

  /** Entries of a leaf, one by one behind a header that is already there. */
  method PutLeafEntries(image: File, base: nat, len: nat, extents: seq<Extent>)
    requires base + len <= |image.content| && 12 + 12 * |extents| <= len && |extents| < U16_LIMIT
    requires LeafSoFar(Region(image.content, base, len), extents, 0, |extents|)
    modifies image
    ensures OnlyRegion(old(image.content), image.content, base, len)
    ensures IsLeaf(Region(image.content, base, len), extents)
  {
    hide LeafSoFar, Overwrite, ExtentBytes, Region;
    for i := 0 to |extents|
      invariant OnlyRegion(old(image.content), image.content, base, len)
      invariant LeafSoFar(Region(image.content, base, len), extents, i, |extents|)
    {
      StorableAt(Region(image.content, base, len), extents, i, |extents|);
      LeafGrows(Region(image.content, base, len), extents, i, |extents|);
      PutExtent(image, base, len, 12 + i * 12, extents[i]);
    }
    LeafComplete(Region(image.content, base, len), extents);
  }

  lemma {:induction false} StorableAt(node: bytes, extents: seq<Extent>, i: nat, count: nat)
    requires LeafSoFar(node, extents, i, count) && i < |extents|
    ensures Storable(extents[i])
  {
  }

  // ---- Index nodes ---------------------------------------------------------------------------------------

  predicate FitsTree(extents: seq<Extent>, tree: seq<nat>) {
    && |tree| == TreeCount(|extents|) && |extents| <= MAX_EXTENTS && AllStorable(extents)
    && forall i :: 0 <= i < |tree| ==> tree[i] < U32_LIMIT
  }

  /** Header fields and the first `n` entries of an index node. */
  ghost predicate IndexSoFar(node: bytes, extents: seq<Extent>, tree: seq<nat>, n: nat) {
    && n <= |tree| && 12 + 12 * |tree| <= |node|
    && Get16(node, 0) == EXTENT_MAGIC && Get16(node, 2) == |tree| && Get16(node, 6) == 1
    && forall i :: 0 <= i < n ==> PointsTo(node, extents, tree[i], i)
  }

  ghost predicate PointsTo(node: bytes, extents: seq<Extent>, block: nat, i: nat) {
    && block < U32_LIMIT && i * TREE_ENTRIES < |extents| && extents[i * TREE_ENTRIES].logical < U32_LIMIT
    && HasAt(node, 12 + 12 * i, IndexBytes(extents[i * TREE_ENTRIES].logical, block))
  }

  lemma {:induction false} IndexGrows(node: bytes, extents: seq<Extent>, tree: seq<nat>, n: nat)
    requires FitsTree(extents, tree) && n < |tree| && IndexSoFar(node, extents, tree, n)
    ensures n * TREE_ENTRIES < |extents| && extents[n * TREE_ENTRIES].logical < U32_LIMIT
    ensures IndexSoFar(Overwrite(node, 12 + 12 * n, IndexBytes(extents[n * TREE_ENTRIES].logical, tree[n])), extents, tree, n + 1)
  {
    hide IndexBytes, Get16, TreeCount;
    TreeCountFacts(|extents|);
    assert Storable(extents[n * TREE_ENTRIES]);
    var data := IndexBytes(extents[n * TREE_ENTRIES].logical, tree[n]);
    var after := Overwrite(node, 12 + 12 * n, data);
    BehindKeepsHeader(node, 12 + 12 * n, data);
    forall i | 0 <= i < n + 1
      ensures PointsTo(after, extents, tree[i], i)
    {
      if i < n {
        assert PointsTo(node, extents, tree[i], i);
        OverwriteKeeps(node, 12 + 12 * n, data, 12 + 12 * i, IndexBytes(extents[i * TREE_ENTRIES].logical, tree[i]));
      } else {
        assert after[12 + 12 * n..12 + 12 * n + 10] == data;
      }
    }
  }

  method PutIndexEntries(image: File, base: nat, len: nat, extents: seq<Extent>, tree: seq<nat>)
    requires base + len <= |image.content| && 12 + 12 * |tree| <= len && FitsTree(extents, tree)
    requires IndexSoFar(Region(image.content, base, len), extents, tree, 0)
    modifies image
    ensures OnlyRegion(old(image.content), image.content, base, len)
    ensures IndexSoFar(Region(image.content, base, len), extents, tree, |tree|)
  {
    hide IndexSoFar, Overwrite, IndexBytes, Region;
    for i := 0 to |tree|
      invariant OnlyRegion(old(image.content), image.content, base, len)
      invariant IndexSoFar(Region(image.content, base, len), extents, tree, i)
    {
      IndexGrows(Region(image.content, base, len), extents, tree, i);
      PutIndex(image, base, len, 12 + i * 12, extents[i * TREE_ENTRIES].logical, tree[i]);
    }
  }

  // ---- Tree blocks ---------------------------------------------------------------------------------------

  predicate Distinct(blocks: seq<nat>) {
    forall i, j :: 0 <= i < j < |blocks| ==> blocks[i] != blocks[j]
  }

  function BlockSpan(block: nat, blockSize: nat): Span {
    Span(block * blockSize, block * blockSize + blockSize)
  }

  function TreeSpans(tree: seq<nat>, blockSize: nat): (r: seq<Span>)
    ensures |r| == |tree|
  {
    seq(|tree|, i requires 0 <= i < |tree| => BlockSpan(tree[i], blockSize))
  }

  predicate InImage(content: bytes, blockSize: nat, blocks: seq<nat>) {
    forall i :: 0 <= i < |blocks| ==> BlockSpan(blocks[i], blockSize).until <= |content|
  }

  /** Tree block `i` holds its share of the extents. */
  ghost predicate LeafAt(content: bytes, blockSize: nat, extents: seq<Extent>, block: nat, i: nat) {
    && i * TREE_ENTRIES <= |extents| && block * blockSize + blockSize <= |content|
    && IsLeaf(Region(content, block * blockSize, blockSize), Chunk(extents, i))
  }

  ghost predicate LeavesAt(content: bytes, blockSize: nat, extents: seq<Extent>, tree: seq<nat>, n: nat)
    requires n <= |tree|
  {
    forall i :: 0 <= i < n ==> LeafAt(content, blockSize, extents, tree[i], i)
  }

  /** `write_extent_trees`. */
  method WriteExtentTrees(image: File, extents: seq<Extent>, tree: seq<nat>, blockSize: nat)
    requires blockSize >= 4096 && FitsTree(extents, tree) && Distinct(tree) && InImage(image.content, blockSize, tree)
    modifies image
    ensures OnlyWithin(old(image.content), image.content, TreeSpans(tree, blockSize))
    ensures LeavesAt(image.content, blockSize, extents, tree, |tree|)
  {
    hide *;
    ghost var before := image.content;
    TreesStart(before, blockSize, extents, tree);
    for i := 0 to |tree|
      invariant OnlyWithin(before, image.content, TreeSpans(tree, blockSize))
      invariant LeavesAt(image.content, blockSize, extents, tree, i)
      invariant InImage(image.content, blockSize, tree)
    {
      ghost var now := image.content;
      ChunkFits(now, blockSize, extents, tree, i);
      WriteLeaf(image, tree[i], Chunk(extents, i), blockSize);
      OneMoreLeaf(before, now, image.content, blockSize, extents, tree, i);
    }
  }

  lemma {:induction false} TreesStart(content: bytes, blockSize: nat, extents: seq<Extent>, tree: seq<nat>)
    ensures OnlyWithin(content, content, TreeSpans(tree, blockSize)) && LeavesAt(content, blockSize, extents, tree, 0)
  {
  }

  lemma {:induction false} ChunkFits(content: bytes, blockSize: nat, extents: seq<Extent>, tree: seq<nat>, i: nat)
    requires FitsTree(extents, tree) && InImage(content, blockSize, tree) && i < |tree|
    ensures i * TREE_ENTRIES < |extents| && tree[i] * blockSize + blockSize <= |content|
    ensures AllStorable(Chunk(extents, i)) && |Chunk(extents, i)| <= TREE_ENTRIES
  {
    TreeCountFacts(|extents|);
    assert BlockSpan(tree[i], blockSize).until <= |content|;
  }

  lemma {:induction false} OneMoreLeaf(
    before: bytes, now: bytes, after: bytes, blockSize: nat, extents: seq<Extent>, tree: seq<nat>, i: nat)
    requires i < |tree| && Distinct(tree) && i * TREE_ENTRIES <= |extents|
    requires tree[i] * blockSize + blockSize <= |now|
    requires OnlyWithin(before, now, TreeSpans(tree, blockSize)) && LeavesAt(now, blockSize, extents, tree, i)
    requires InImage(now, blockSize, tree)
    requires OnlyRegion(now, after, tree[i] * blockSize, blockSize)
    requires IsLeaf(Region(after, tree[i] * blockSize, blockSize), Chunk(extents, i))
    ensures OnlyWithin(before, after, TreeSpans(tree, blockSize)) && LeavesAt(after, blockSize, extents, tree, i + 1)
    ensures InImage(after, blockSize, tree)
  {
    hide IsLeaf, Region, OnlyWithin, OnlyRegion;
    var all := TreeSpans(tree, blockSize);
    OnlyRegionLength(now, after, tree[i] * blockSize, blockSize);
    InsideOne(BlockSpan(tree[i], blockSize), all, i);
    RegionWithin(now, after, tree[i] * blockSize, blockSize, all);
    WithinTwice(before, now, after, all);
    forall k | 0 <= k < i
      ensures LeafAt(after, blockSize, extents, tree[k], k)
    {
      assert LeafAt(now, blockSize, extents, tree[k], k);
      BlocksApart(tree[k], tree[i], blockSize);
      OutsideRegion(now, after, tree[i] * blockSize, blockSize, tree[k] * blockSize, blockSize);
    }
  }

  lemma {:induction false} BlocksApart(a: nat, b: nat, blockSize: nat)
    requires a != b
    ensures SpansApart(BlockSpan(a, blockSize), BlockSpan(b, blockSize))
  {
    if a < b {
      MulMonotone(a + 1, b, blockSize);
      MulDistributes(a, 1, blockSize);
    } else {
      MulMonotone(b + 1, a, blockSize);
      MulDistributes(b, 1, blockSize);
    }
  }

  /** One tree block: header, then the entries. */
  method WriteLeaf(image: File, block: nat, extents: seq<Extent>, blockSize: nat)
    requires blockSize >= 4096 && AllStorable(extents) && |extents| <= TREE_ENTRIES
    requires block * blockSize + blockSize <= |image.content|
    modifies image
    ensures OnlyRegion(old(image.content), image.content, block * blockSize, blockSize)
    ensures IsLeaf(Region(image.content, block * blockSize, blockSize), extents)
  {
    hide Region, Overwrite, IsLeaf;
    ghost var node := Region(image.content, block * blockSize, blockSize);
    HeaderReads(node, |extents|, TREE_ENTRIES, 0);
    PutHeader(image, block * blockSize, blockSize, |extents|, TREE_ENTRIES, 0);
    PutLeafEntries(image, block * blockSize, blockSize, extents);
  }

  // ---- The inode -----------------------------------------------------------------------------------------

  const AREA_AT := 40
  const AREA_LENGTH := 60
  const IFLNK := 10
  const INLINE_LINK := 60

  /** The attributes of a node the builder stores. */
  datatype Attributes = Attributes(mode: nat, uid: nat, gid: nat, links: nat) {
    predicate InRange() {
      mode < U16_LIMIT && uid < U32_LIMIT && gid < U32_LIMIT && links < U16_LIMIT
    }

    predicate IsLink() {
      mode / 0x1000 == IFLNK
    }
  }

  /** What the reader takes from an inode slot. */
  datatype Inode = Inode(mode: nat, uid: nat, gid: nat, size: nat, flags: nat, area: bytes) {
    predicate IsLink() {
      mode / 0x1000 == IFLNK
    }
  }

  /** The fields `read` takes from a slot of at least 128 bytes. */
  function ParseInode(raw: bytes): (i: Inode)
    requires |raw| >= 128
    ensures |i.area| == AREA_LENGTH
  {
    Inode(
      Get16(raw, 0), Get16(raw, 2) + Get16(raw, 120) * U16_LIMIT, Get16(raw, 24) + Get16(raw, 122) * U16_LIMIT,
      Get32(raw, 4) + Get32(raw, 108) * U32_LIMIT, Get32(raw, 32), raw[AREA_AT..AREA_AT + AREA_LENGTH])
  }

  /** Bytes 0..8 of a slot. */
  function Head(a: Attributes, size: nat): (b: bytes)
    requires a.InRange()
    ensures |b| == 8
  {
    Le16(a.mode) + Le16(a.uid % U16_LIMIT) + Le32(size % U32_LIMIT)
  }

  /** Bytes 24..36 of a slot. */
  function Tail(a: Attributes, blocks: nat, flags: nat): (b: bytes)
    requires a.InRange() && flags < U32_LIMIT
    ensures |b| == 12
  {
    Le16(a.gid % U16_LIMIT) + Le16(a.links) + Le32(blocks % U32_LIMIT) + Le32(flags)
  }

  /** A zeroed slot of `n` bytes with the fields filled in. */
  function FilledSlot(n: nat, a: Attributes, size: nat, blocks: nat, flags: nat): (raw: bytes)
    requires n >= 128 && a.InRange() && flags < U32_LIMIT
    ensures |raw| == n
  {
    Overwrite(Overwrite(Zeros(n), 0, Head(a, size)), 24, Tail(a, blocks, flags))
  }

  ghost predicate SlotHolds(raw: bytes, a: Attributes, size: nat, blocks: nat, flags: nat) {
    && |raw| >= 128 && a.InRange() && flags < U32_LIMIT
    && HasAt(raw, 0, Head(a, size)) && HasAt(raw, 24, Tail(a, blocks, flags))
    && forall i :: 100 <= i < |raw| ==> raw[i] == 0
  }

  lemma {:induction false} FilledSlotHolds(n: nat, a: Attributes, size: nat, blocks: nat, flags: nat)
    requires n >= 128 && a.InRange() && flags < U32_LIMIT
    ensures SlotHolds(FilledSlot(n, a, size, blocks, flags), a, size, blocks, flags)
    ensures FilledSlot(n, a, size, blocks, flags)[AREA_AT..AREA_AT + AREA_LENGTH] == Zeros(AREA_LENGTH)
  {
    hide Le16, Le32, Head, Tail;
    var head, tail := Head(a, size), Tail(a, blocks, flags);
    var first := Overwrite(Zeros(n), 0, head);
    assert first[0..8] == head;
    OverwriteKeeps(first, 24, tail, 0, head);
    var raw := Overwrite(first, 24, tail);
    assert raw[24..36] == tail;
    assert forall i :: 40 <= i < n ==> raw[i] == 0;
  }

  /** Rewriting the block area leaves the fields. */
  lemma {:induction false} SlotKept(before: bytes, after: bytes, a: Attributes, size: nat, blocks: nat, flags: nat)
    requires SlotHolds(before, a, size, blocks, flags) && |after| == |before|
    requires after[..AREA_AT] == before[..AREA_AT] && after[AREA_AT + AREA_LENGTH..] == before[AREA_AT + AREA_LENGTH..]
    ensures SlotHolds(after, a, size, blocks, flags)
  {
    hide Head, Tail;
    forall i | 100 <= i < |after|
      ensures after[i] == 0
    {
      assert after[i] == after[100..][i - 100] == before[100..][i - 100];
    }
    assert after[0..8] == after[..AREA_AT][0..8] == before[0..8];
    assert after[24..36] == after[..AREA_AT][24..36] == before[24..36];
  }

  /** The reader gets the stored attributes back, the owner only modulo 2^16 and the size modulo 2^32. */
  lemma {:induction false} SlotParses(raw: bytes, a: Attributes, size: nat, blocks: nat, flags: nat)
    requires SlotHolds(raw, a, size, blocks, flags)
    ensures var i := ParseInode(raw);
            && i.mode == a.mode && i.uid == a.uid % U16_LIMIT && i.gid == a.gid % U16_LIMIT
            && i.size == size % U32_LIMIT && i.flags == flags
    ensures Get16(raw, 26) == a.links && Get32(raw, 28) == blocks % U32_LIMIT
  {
    var h0, h1, h2 := Le16(a.mode), Le16(a.uid % U16_LIMIT), Le32(size % U32_LIMIT);
    var t0, t1, t2, t3 := Le16(a.gid % U16_LIMIT), Le16(a.links), Le32(blocks % U32_LIMIT), Le32(flags);
    HeadParts(raw, 0, h0, h1, h2);
    TailParts(raw, 24, t0, t1, t2, t3);
    assert Get32(raw, 108) == 0 && Get16(raw, 120) == 0 && Get16(raw, 122) == 0;
    hide Le16, Le32, Get16, Get32, HasAt;
    Read16(raw, 0, a.mode);
    Read16(raw, 2, a.uid % U16_LIMIT);
    Read32(raw, 4, size % U32_LIMIT);
    Read16(raw, 24, a.gid % U16_LIMIT);
    Read16(raw, 26, a.links);
    Read32(raw, 28, blocks % U32_LIMIT);
    Read32(raw, 32, flags);
  }

  lemma {:induction false} HeadParts(raw: bytes, at: nat, a: bytes, b: bytes, c: bytes)
    requires HasAt(raw, at, a + b + c) && |a| == 2 && |b| == 2
    ensures HasAt(raw, at, a) && HasAt(raw, at + 2, b) && HasAt(raw, at + 4, c)
  {
    HasAtPart(raw, at, a + b + c, 0, a);
    HasAtPart(raw, at, a + b + c, 2, b);
    HasAtPart(raw, at, a + b + c, 4, c);
  }

  lemma {:induction false} TailParts(raw: bytes, at: nat, a: bytes, b: bytes, c: bytes, d: bytes)
    requires HasAt(raw, at, a + b + c + d) && |a| == 2 && |b| == 2 && |c| == 4
    ensures HasAt(raw, at, a) && HasAt(raw, at + 2, b) && HasAt(raw, at + 4, c) && HasAt(raw, at + 8, d)
  {
    HasAtPart(raw, at, a + b + c + d, 0, a);
    HasAtPart(raw, at, a + b + c + d, 2, b);
    HasAtPart(raw, at, a + b + c + d, 4, c);
    HasAtPart(raw, at, a + b + c + d, 8, d);
  }

  /** The fields of a zeroed slot; the extents flag is stored only for nodes with extents. */
  method PutFields(image: File, p: nat, inodeSize: nat, a: Attributes, size: nat, blocks: nat, extents: bool)
    requires 128 <= inodeSize && p + inodeSize <= |image.content| && a.InRange()
    requires Region(image.content, p, inodeSize) == Zeros(inodeSize)
    modifies image
    ensures OnlyRegion(old(image.content), image.content, p, inodeSize)
    ensures Region(image.content, p, inodeSize) == FilledSlot(inodeSize, a, size, blocks, if extents then INODE_EXTENTS else 0)
  {
    hide Overwrite, Le16, Le32, Region;
    ghost var slot, head := Zeros(inodeSize), Head(a, size);
    var mode, uid, low := Le16(a.mode), Le16(a.uid % U16_LIMIT), Le32(size % U32_LIMIT);
    var gid, links, count := Le16(a.gid % U16_LIMIT), Le16(a.links), Le32(blocks % U32_LIMIT);
    PutField(image, p, inodeSize, 0, mode);
    PutField(image, p, inodeSize, 2, uid);
    OverwriteTwice(slot, 0, mode, uid);
    PutField(image, p, inodeSize, 4, low);
    OverwriteTwice(slot, 0, mode + uid, low);
    ghost var first := Overwrite(slot, 0, head);
    PutField(image, p, inodeSize, 24, gid);
    PutField(image, p, inodeSize, 26, links);
    OverwriteTwice(first, 24, gid, links);
    PutField(image, p, inodeSize, 28, count);
    OverwriteTwice(first, 24, gid + links, count);
    if extents {
      PutField(image, p, inodeSize, 32, Le32(INODE_EXTENTS));
      OverwriteTwice(first, 24, gid + links + count, Le32(INODE_EXTENTS));
    } else {
      FlagsStayZero(inodeSize, head, gid + links + count);
    }
  }

  lemma {:induction false} FlagsStayZero(n: nat, head: bytes, tail: bytes)
    requires n >= 128 && |head| == 8 && |tail| == 8
    ensures var first := Overwrite(Zeros(n), 0, head);
            Overwrite(first, 24, tail) == Overwrite(first, 24, tail + Le32(0))
  {
    var first := Overwrite(Zeros(n), 0, head);
    assert Le32(0) == [0, 0, 0, 0];
    hide Le32, Overwrite;
    OverwriteAt(Zeros(n), 0, head);
    OverwriteAt(first, 24, tail);
    OverwriteAt(first, 24, tail + Le32(0));
    var a, b := Overwrite(first, 24, tail), Overwrite(first, 24, tail + Le32(0));
    forall i | 0 <= i < n
      ensures a[i] == b[i]
    {
      assert a[i] == ByteAt(a, i) && b[i] == ByteAt(b, i);
    }
  }

  /** The block area after the header: the depth is stored only above tree blocks, and is zero otherwise. */
  method PutAreaHeader(image: File, base: nat, entries: nat, index: bool)
    requires base + AREA_LENGTH <= |image.content| && entries < U16_LIMIT
    requires Region(image.content, base, AREA_LENGTH) == Zeros(AREA_LENGTH)
    modifies image
    ensures OnlyRegion(old(image.content), image.content, base, AREA_LENGTH)
    ensures Region(image.content, base, AREA_LENGTH)
         == Overwrite(Zeros(AREA_LENGTH), 0, HeaderBytes(entries, 4, if index then 1 else 0))
  {
    hide Overwrite, Le16, Region;
    ghost var node := Zeros(AREA_LENGTH);
    PutField(image, base, AREA_LENGTH, 0, Le16(EXTENT_MAGIC));
    PutField(image, base, AREA_LENGTH, 2, Le16(entries));
    OverwriteTwice(node, 0, Le16(EXTENT_MAGIC), Le16(entries));
    PutField(image, base, AREA_LENGTH, 4, Le16(4));
    OverwriteTwice(node, 0, Le16(EXTENT_MAGIC) + Le16(entries), Le16(4));
    if index {
      PutField(image, base, AREA_LENGTH, 6, Le16(1));
      OverwriteTwice(node, 0, Le16(EXTENT_MAGIC) + Le16(entries) + Le16(4), Le16(1));
    } else {
      DepthStaysZero(Le16(EXTENT_MAGIC) + Le16(entries) + Le16(4));
    }
  }

  lemma {:induction false} DepthStaysZero(head: bytes)
    requires |head| == 6
    ensures Overwrite(Zeros(AREA_LENGTH), 0, head) == Overwrite(Zeros(AREA_LENGTH), 0, head + Le16(0))
  {
  }

  /** The block area of a node: its only extent, or the index over its tree blocks. */
  ghost predicate AreaHolds(area: bytes, extents: seq<Extent>, tree: seq<nat>) {
    if tree == [] then IsLeaf(area, extents) else IndexSoFar(area, extents, tree, |tree|)
  }

  method WriteArea(image: File, base: nat, extents: seq<Extent>, tree: seq<nat>)
    requires base + AREA_LENGTH <= |image.content| && FitsTree(extents, tree)
    requires Region(image.content, base, AREA_LENGTH) == Zeros(AREA_LENGTH)
    modifies image
    ensures OnlyRegion(old(image.content), image.content, base, AREA_LENGTH)
    ensures AreaHolds(Region(image.content, base, AREA_LENGTH), extents, tree)
  {
    hide Overwrite, Region, IsLeaf, LeafSoFar, IndexSoFar, TreeCount, AllStorable;
    TreeCountFacts(|extents|);
    if tree == [] {
      PutAreaHeader(image, base, |extents|, false);
      LeafStarts(Zeros(AREA_LENGTH), extents);
      PutLeafEntries(image, base, AREA_LENGTH, extents);
    } else {
      PutAreaHeader(image, base, |tree|, true);
      IndexStarts(Zeros(AREA_LENGTH), extents, tree);
      PutIndexEntries(image, base, AREA_LENGTH, extents, tree);
    }
  }

  lemma {:induction false} LeafStarts(node: bytes, extents: seq<Extent>)
    requires |node| == AREA_LENGTH && AllStorable(extents) && |extents| < U16_LIMIT
    ensures LeafSoFar(Overwrite(node, 0, HeaderBytes(|extents|, 4, 0)), extents, 0, |extents|)
  {
    hide Get16, Overwrite, HeaderBytes;
    HeaderReads(node, |extents|, 4, 0);
  }

  lemma {:induction false} IndexStarts(node: bytes, extents: seq<Extent>, tree: seq<nat>)
    requires |node| == AREA_LENGTH && |tree| <= 4
    ensures IndexSoFar(Overwrite(node, 0, HeaderBytes(|tree|, 4, 1)), extents, tree, 0)
  {
    hide Get16, Overwrite, HeaderBytes;
    HeaderReads(node, |tree|, 4, 1);
  }

  /** Blocks an inode accounts for, in 512-byte sectors. */
  function Sectors(extents: seq<Extent>, tree: seq<nat>, blockSize: nat): nat {
    (TotalLength(RunsOf(extents)) + |tree|) * (blockSize / 512)
  }

  predicate Inline(a: Attributes, size: nat) {
    a.IsLink() && size <= INLINE_LINK
  }

  /** What a written slot tells the reader. */
  ghost predicate InodeWritten(
    raw: bytes, a: Attributes, size: nat, target: bytes, extents: seq<Extent>, tree: seq<nat>, blockSize: nat)
  {
    && |raw| >= 128
    && (var area := raw[AREA_AT..AREA_AT + AREA_LENGTH];
        if Inline(a, size)
        then SlotHolds(raw, a, size, 0, 0) && HasAt(area, 0, target)
        else SlotHolds(raw, a, size, Sectors(extents, tree, blockSize), INODE_EXTENTS) && AreaHolds(area, extents, tree))
  }

  /** `write_inode`, on a slot that is still zero. */
  method WriteInode(
    image: File, p: nat, inodeSize: nat, a: Attributes, size: nat, target: bytes, extents: seq<Extent>, tree: seq<nat>,
    blockSize: nat)
    requires 128 <= inodeSize && p + inodeSize <= |image.content| && a.InRange()
    requires Region(image.content, p, inodeSize) == Zeros(inodeSize)
    requires FitsTree(extents, tree) && (Inline(a, size) ==> |target| == size)
    modifies image
    ensures OnlyRegion(old(image.content), image.content, p, inodeSize)
    ensures InodeWritten(Region(image.content, p, inodeSize), a, size, target, extents, tree, blockSize)
  {
    hide Overwrite, Region, OnlyRegion, SlotHolds, FilledSlot, AreaHolds, FitsTree, Sectors;
    ghost var before := image.content;
    var isInline := Inline(a, size);
    var blocks := if isInline then 0 else Sectors(extents, tree, blockSize);
    ghost var flags := if isInline then 0 else INODE_EXTENTS;
    PutFields(image, p, inodeSize, a, size, blocks, !isInline);
    FilledSlotHolds(inodeSize, a, size, blocks, flags);
    ghost var filled := image.content;
    assert |filled| == |before| by { OnlyRegionLength(before, filled, p, inodeSize); }
    AreaOfSlot(filled, p, inodeSize);
    if isInline {
      PutField(image, p + AREA_AT, AREA_LENGTH, 0, target);
      TargetStored(Region(filled, p + AREA_AT, AREA_LENGTH), target);
    } else {
      WriteArea(image, p + AREA_AT, extents, tree);
    }
    AreaInSlot(filled, image.content, p, inodeSize);
    OnlyRegionTwice(before, filled, image.content, p, inodeSize);
    SlotKept(Region(filled, p, inodeSize), Region(image.content, p, inodeSize), a, size, blocks, flags);
  }

  lemma {:induction false} TargetStored(area: bytes, target: bytes)
    requires |target| <= |area|
    ensures HasAt(Overwrite(area, 0, target), 0, target)
  {
  }

  lemma {:induction false} AreaOfSlot(content: bytes, p: nat, inodeSize: nat)
    requires inodeSize >= 128 && p + inodeSize <= |content|
    ensures Region(content, p + AREA_AT, AREA_LENGTH) == Region(content, p, inodeSize)[AREA_AT..AREA_AT + AREA_LENGTH]
  {
  }

  /** A block area rewritten inside its slot. */
  lemma {:induction false} AreaInSlot(before: bytes, after: bytes, p: nat, inodeSize: nat)
    requires inodeSize >= 128 && p + inodeSize <= |before| && OnlyRegion(before, after, p + AREA_AT, AREA_LENGTH)
    ensures OnlyRegion(before, after, p, inodeSize)
    ensures Region(after, p, inodeSize)[..AREA_AT] == Region(before, p, inodeSize)[..AREA_AT]
    ensures Region(after, p, inodeSize)[AREA_AT + AREA_LENGTH..] == Region(before, p, inodeSize)[AREA_AT + AREA_LENGTH..]
    ensures Region(after, p, inodeSize)[AREA_AT..AREA_AT + AREA_LENGTH] == Region(after, p + AREA_AT, AREA_LENGTH)
  {
    var base, end := p + AREA_AT, p + AREA_AT + AREA_LENGTH;
    forall i | 0 <= i < |before| && (i < base || end <= i)
      ensures after[i] == before[i]
    {
      if i < base {
        assert after[i] == after[..base][i] == before[..base][i];
      } else {
        assert after[i] == after[end..][i - end] == before[end..][i - end];
      }
    }
  }

  /** An index area and the tree blocks it points to make a written tree. */
  lemma {:induction false} TreeOnDisk(image: bytes, blockSize: nat, area: bytes, extents: seq<Extent>, tree: seq<nat>)
    requires |area| == AREA_LENGTH && AreaHolds(area, extents, tree) && FitsTree(extents, tree)
    requires LeavesAt(image, blockSize, extents, tree, |tree|)
    ensures TreeWritten(image, blockSize, area, extents, tree)
  {
    hide IsLeaf, TreeCount, Get16, HasAt, IndexBytes;
    forall i | 0 <= i < |tree|
      ensures TreeAt(image, blockSize, area, extents, tree[i], i)
    {
      assert PointsTo(area, extents, tree[i], i);
      assert LeafAt(image, blockSize, extents, tree[i], i);
    }
  }
}
