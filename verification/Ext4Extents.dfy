/**
 On-disk extent trees: the node format, the recursive collector of the reader, and what it finds in the
 trees the builder writes.
 */
module Ext4Extents {
  import opened Core
  import opened Arith
  import opened Ext4Alloc

  const EXTENT_MAGIC := 0xf30a
  const MAX_DEPTH := 16

  /** An extent as the reader sees it. */
  datatype DiskExtent = DiskExtent(logical: nat, physical: nat, length: nat, unwritten: bool)

  datatype ExtentError = TooDeepTree | BadNode | BadDepth | PastImage

  // ---- Format ----------------------------------------------------------------------------------------

  predicate Storable(e: Extent) {
    e.logical < U32_LIMIT && e.start < U32_LIMIT && e.length <= MAX_EXTENT
  }

  function ExtentBytes(e: Extent): (b: bytes)
    requires Storable(e)
    ensures |b| == 12
  {
    Le32(e.logical) + Le16(e.length) + Le16(0) + Le32(e.start)
  }

  function IndexBytes(logical: nat, block: nat): (b: bytes)
    requires logical < U32_LIMIT && block < U32_LIMIT
    ensures |b| == 10
  {
    Le32(logical) + Le32(block) + Le16(0)
  }

  /** Leaf and index headers; the last field of the header is never written nor read. */
  function HeaderBytes(entries: nat, capacity: nat, depth: nat): (b: bytes)
    requires entries < U16_LIMIT && capacity < U16_LIMIT && depth < U16_LIMIT
    ensures |b| == 8
  {
    Le16(EXTENT_MAGIC) + Le16(entries) + Le16(capacity) + Le16(depth)
  }

  function ReadExtent(node: bytes, offset: nat): DiskExtent
    requires offset + 12 <= |node|
  {
    var raw := Get16(node, offset + 4);
    DiskExtent(
      Get32(node, offset), Get16(node, offset + 6) * U32_LIMIT + Get32(node, offset + 8), raw % 0x8000, raw / 0x8000 == 1)
  }

  function ReadChild(node: bytes, offset: nat): nat
    requires offset + 12 <= |node|
  {
    Get16(node, offset + 8) * U32_LIMIT + Get32(node, offset + 4)
  }

  function ToDisk(e: Extent): DiskExtent {
    DiskExtent(e.logical, e.start, e.length, false)
  }

  function AllToDisk(extents: seq<Extent>): (r: seq<DiskExtent>)
    ensures |r| == |extents| && forall i :: 0 <= i < |r| ==> r[i] == ToDisk(extents[i])
  {
    seq(|extents|, i requires 0 <= i < |extents| => ToDisk(extents[i]))
  }

  // ---- The collector -----------------------------------------------------------------------------------

  function Collect(image: bytes, blockSize: nat, node: bytes, depth: nat, entries: nat)
    : Result<seq<DiskExtent>, ExtentError>
    decreases depth, 1, 0
  {
    if depth > MAX_DEPTH then Err(TooDeepTree)
    else if |node| < 12 || Get16(node, 0) != EXTENT_MAGIC then Err(BadNode)
    else CollectFrom(image, blockSize, node, depth, 0, Min((|node| - 12) / 12, entries))
  }

  /** Entries `index..available` of a node. */
  function CollectFrom(image: bytes, blockSize: nat, node: bytes, depth: nat, index: nat, available: nat)
    : Result<seq<DiskExtent>, ExtentError>
    requires 12 <= |node| && available <= (|node| - 12) / 12
    decreases depth, 0, available - index
  {
    if index >= available then Ok([])
    else
      match CollectEntry(image, blockSize, node, depth, index)
      case Err(e) => Err(e)
      case Ok(here) =>
        match CollectFrom(image, blockSize, node, depth, index + 1, available)
        case Err(e) => Err(e)
        case Ok(rest) => Ok(here + rest)
  }

  function CollectEntry(image: bytes, blockSize: nat, node: bytes, depth: nat, index: nat)
    : Result<seq<DiskExtent>, ExtentError>
    requires 12 + index * 12 + 12 <= |node|
    decreases depth, 0, 0
  {
    var offset := 12 + index * 12;
    if depth == 0 then Ok([ReadExtent(node, offset)])
    else
      match Slice(image, ReadChild(node, offset) * blockSize, blockSize)
      case None => Err(PastImage)
      case Some(child) =>
        if |child| < 8 || Get16(child, 6) >= depth then Err(BadDepth)
        else Collect(image, blockSize, child, Get16(child, 6), Get16(child, 2))
  }

  /** `collect_extents`: pushes the extents of a node, recursing into child blocks. */
  method CollectExtents(image: bytes, blockSize: nat, node: bytes, depth: nat, entries: nat, found: seq<DiskExtent>)
    returns (r: Result<seq<DiskExtent>, ExtentError>)
    ensures var c := Collect(image, blockSize, node, depth, entries);
            r == if c.Ok? then Ok(found + c.value) else Err(c.error)
    decreases depth
  {
    hide ReadExtent, ReadChild, Get16, CollectEntry;
    if depth > MAX_DEPTH {
      return Err(TooDeepTree);
    }
    if |node| < 12 || Get16(node, 0) != EXTENT_MAGIC {
      return Err(BadNode);
    }
    var available := Min((|node| - 12) / 12, entries);
    var extents := found;
    for index := 0 to available
      invariant Appended(extents, CollectFrom(image, blockSize, node, depth, index, available))
             == Appended(found, CollectFrom(image, blockSize, node, depth, 0, available))
    {
      var entry := CollectOne(image, blockSize, node, depth, index, extents);
      StepAppended(image, blockSize, node, depth, index, available, extents);
      if entry.Err? {
        return Err(entry.error);
      }
      extents := entry.value;
    }
    AppendNothing(extents);
    return Ok(extents);
  }

  lemma {:induction false} AppendNothing(found: seq<DiskExtent>)
    ensures Appended<DiskExtent, ExtentError>(found, Ok([])) == Ok(found)
  {
    assert found + [] == found;
  }

  lemma {:induction false} StepAppended(
    image: bytes, blockSize: nat, node: bytes, depth: nat, index: nat, available: nat, extents: seq<DiskExtent>)
    requires 12 <= |node| && index < available <= (|node| - 12) / 12
    ensures var here := Appended(extents, CollectEntry(image, blockSize, node, depth, index));
            Appended(extents, CollectFrom(image, blockSize, node, depth, index, available))
            == if here.Ok? then Appended(here.value, CollectFrom(image, blockSize, node, depth, index + 1, available)) else here
  {
    hide CollectEntry;
    var here := CollectEntry(image, blockSize, node, depth, index);
    var rest := CollectFrom(image, blockSize, node, depth, index + 1, available);
    if here.Ok? && rest.Ok? {
      assert extents + (here.value + rest.value) == extents + here.value + rest.value;
    }
  }

  method CollectOne(image: bytes, blockSize: nat, node: bytes, depth: nat, index: nat, found: seq<DiskExtent>)
    returns (r: Result<seq<DiskExtent>, ExtentError>)
    requires 12 + index * 12 + 12 <= |node|
    ensures r == Appended(found, CollectEntry(image, blockSize, node, depth, index))
    decreases depth, 0
  {
    hide ReadExtent, ReadChild, Get16, Collect;
    var offset := 12 + index * 12;
    if depth == 0 {
      return Ok(found + [ReadExtent(node, offset)]);
    }
    var child := Slice(image, ReadChild(node, offset) * blockSize, blockSize);
    if child.None? {
      return Err(PastImage);
    }
    if |child.value| < 8 || Get16(child.value, 6) >= depth {
      return Err(BadDepth);
    }
    r := CollectExtents(image, blockSize, child.value, Get16(child.value, 6), Get16(child.value, 2), found);
  }

  // ---- What the builder writes -------------------------------------------------------------------------

  predicate AllStorable(extents: seq<Extent>) {
    forall i :: 0 <= i < |extents| ==> Storable(extents[i])
  }

  /** The `i`-th tree block's share of the extents. */
  function Chunk(extents: seq<Extent>, i: nat): seq<Extent>
    requires i * TREE_ENTRIES <= |extents|
  {
    extents[i * TREE_ENTRIES..Min(i * TREE_ENTRIES + TREE_ENTRIES, |extents|)]
  }

  /** Depth-0 node: header and one entry per extent. */
  ghost predicate IsLeaf(node: bytes, extents: seq<Extent>) {
    && AllStorable(extents) && |extents| < U16_LIMIT
    && 12 + 12 * |extents| <= |node|
    && Get16(node, 0) == EXTENT_MAGIC && Get16(node, 2) == |extents| && Get16(node, 6) == 0
    && forall j :: 0 <= j < |extents| ==> HasAt(node, 12 + 12 * j, ExtentBytes(extents[j]))
  }

  /** Depth-1 node: one index entry per tree block, each tree block a leaf with its share. */
  ghost predicate IsIndex(image: bytes, blockSize: nat, node: bytes, extents: seq<Extent>, tree: seq<nat>) {
    && 12 + 12 * |tree| <= |node| && |tree| < U16_LIMIT
    && Get16(node, 0) == EXTENT_MAGIC && Get16(node, 2) == |tree| && Get16(node, 6) == 1
    && forall i :: 0 <= i < |tree| ==> TreeAt(image, blockSize, node, extents, tree[i], i)
  }

  ghost predicate TreeAt(image: bytes, blockSize: nat, node: bytes, extents: seq<Extent>, block: nat, i: nat) {
    && block < U32_LIMIT && 12 + 12 * i + 12 <= |node|
    && i * TREE_ENTRIES < |extents| && extents[i * TREE_ENTRIES].logical < U32_LIMIT
    && HasAt(node, 12 + 12 * i, IndexBytes(extents[i * TREE_ENTRIES].logical, block))
    && block * blockSize + blockSize <= |image|
    && IsLeaf(image[block * blockSize..block * blockSize + blockSize], Chunk(extents, i))
  }

  lemma {:induction false} ReadExtentOf(node: bytes, offset: nat, e: Extent)
    requires Storable(e) && HasAt(node, offset, ExtentBytes(e))
    ensures ReadExtent(node, offset) == ToDisk(e)
  {
    var a, b, c, d := Le32(e.logical), Le16(e.length), Le16(0), Le32(e.start);
    HasAtPart(node, offset, a + b + c + d, 0, a);
    HasAtPart(node, offset, a + b + c + d, 4, b);
    HasAtPart(node, offset, a + b + c + d, 6, c);
    HasAtPart(node, offset, a + b + c + d, 8, d);
    hide Le16, Le32, Get16, Get32, HasAt;
    Read32(node, offset, e.logical);
    Read16(node, offset + 4, e.length);
    Read16(node, offset + 6, 0);
    Read32(node, offset + 8, e.start);
  }

  lemma {:induction false} ReadChildOf(node: bytes, offset: nat, logical: nat, block: nat)
    requires logical < U32_LIMIT && block < U32_LIMIT && offset + 12 <= |node|
    requires HasAt(node, offset, IndexBytes(logical, block))
    ensures ReadChild(node, offset) == block
  {
    var a, b, c := Le32(logical), Le32(block), Le16(0);
    HasAtPart(node, offset, a + b + c, 4, b);
    HasAtPart(node, offset, a + b + c, 8, c);
    hide Le16, Le32, Get16, Get32, HasAt;
    Read32(node, offset + 4, block);
    Read16(node, offset + 8, 0);
  }

  lemma {:induction false} LeafCollectsFrom(image: bytes, blockSize: nat, node: bytes, extents: seq<Extent>, index: nat)
    requires IsLeaf(node, extents) && index <= |extents|
    ensures CollectFrom(image, blockSize, node, 0, index, |extents|) == Ok(AllToDisk(extents[index..]))
    decreases |extents| - index
  {
    hide ReadExtent, ExtentBytes, HasAt, Get16;
    if index < |extents| {
      LeafCollectsFrom(image, blockSize, node, extents, index + 1);
      ReadExtentOf(node, 12 + 12 * index, extents[index]);
      assert AllToDisk(extents[index..]) == [ToDisk(extents[index])] + AllToDisk(extents[index + 1..]);
    }
  }

  lemma {:induction false} LeafCollects(image: bytes, blockSize: nat, node: bytes, extents: seq<Extent>)
    requires IsLeaf(node, extents)
    ensures Collect(image, blockSize, node, 0, Get16(node, 2)) == Ok(AllToDisk(extents))
  {
    hide CollectFrom, Get16;
    LeafCollectsFrom(image, blockSize, node, extents, 0);
    assert extents[0..] == extents;
  }

  /** The extents tree blocks `i..` hold. */
  function Behind(extents: seq<Extent>, i: nat, count: nat): seq<Extent>
    requires i <= count && (count > 0 ==> (count - 1) * TREE_ENTRIES < |extents|)
  {
    extents[Min(i * TREE_ENTRIES, |extents|)..Min(count * TREE_ENTRIES, |extents|)]
  }

  lemma {:induction false} IndexCollectsFrom(
    image: bytes, blockSize: nat, node: bytes, extents: seq<Extent>, tree: seq<nat>, index: nat)
    requires IsIndex(image, blockSize, node, extents, tree) && index <= |tree|
    requires |tree| > 0 ==> (|tree| - 1) * TREE_ENTRIES < |extents|
    requires blockSize >= 4096
    ensures CollectFrom(image, blockSize, node, 1, index, |tree|) == Ok(AllToDisk(Behind(extents, index, |tree|)))
    decreases |tree| - index
  {
    hide ReadChild, IndexBytes, HasAt, Get16, Collect, IsLeaf;
    if index < |tree| {
      assert TreeAt(image, blockSize, node, extents, tree[index], index);
      IndexCollectsFrom(image, blockSize, node, extents, tree, index + 1);
      var child := image[tree[index] * blockSize..tree[index] * blockSize + blockSize];
      ReadChildOf(node, 12 + 12 * index, extents[index * TREE_ENTRIES].logical, tree[index]);
      LeafHeader(child, Chunk(extents, index));
      LeafCollects(image, blockSize, child, Chunk(extents, index));
      var here, rest := Chunk(extents, index), Behind(extents, index + 1, |tree|);
      assert here + rest == Behind(extents, index, |tree|);
      assert AllToDisk(here) + AllToDisk(rest) == AllToDisk(Behind(extents, index, |tree|));
    }
  }

  lemma {:induction false} LeafHeader(node: bytes, extents: seq<Extent>)
    requires IsLeaf(node, extents)
    ensures |node| >= 12 && Get16(node, 6) == 0
  {
  }

  /** What of a file's extents the written tree covers: all of them, or all but the last. */
  function Covered(extents: seq<Extent>): (r: seq<Extent>) {
    if |extents| <= 1 then extents else extents[..Min(|extents|, TreeCount(|extents|) * TREE_ENTRIES)]
  }

  /** The tree of a file, as `write_inode` and `write_extent_trees` leave it around the inode's block area. */
  ghost predicate TreeWritten(image: bytes, blockSize: nat, area: bytes, extents: seq<Extent>, tree: seq<nat>) {
    && |area| == 60 && |tree| == TreeCount(|extents|) && |extents| <= MAX_EXTENTS
    && if tree == [] then IsLeaf(area, extents) else IsIndex(image, blockSize, area, extents, tree)
  }

  lemma {:induction false} TreeCountFacts(n: nat)
    requires n <= MAX_EXTENTS
    ensures TreeCount(n) <= 4
    ensures TreeCount(n) == 0 <==> n <= 1
    ensures n > 1 ==> (TreeCount(n) - 1) * TREE_ENTRIES < n
    ensures n > 1 ==> (n <= TreeCount(n) * TREE_ENTRIES <==> n % TREE_ENTRIES != 1)
    ensures n > 1 && n % TREE_ENTRIES == 1 ==> TreeCount(n) * TREE_ENTRIES == n - 1
  {
  }

  /** The reader finds the extents the tree covers, in order. */
  lemma {:induction false} CollectFindsCovered(image: bytes, blockSize: nat, area: bytes, extents: seq<Extent>, tree: seq<nat>)
    requires blockSize >= 4096 && TreeWritten(image, blockSize, area, extents, tree)
    ensures Collect(image, blockSize, area, Get16(area, 6), Get16(area, 2)) == Ok(AllToDisk(Covered(extents)))
  {
    hide CollectFrom, Get16, TreeCount;
    TreeCountFacts(|extents|);
    if tree == [] {
      LeafCollects(image, blockSize, area, extents);
    } else {
      IndexCollectsFrom(image, blockSize, area, extents, tree, 0);
      assert Behind(extents, 0, |tree|) == Covered(extents);
    }
  }

  /**
   The tree reads back exactly unless the extent count is 1 modulo 340 (and more than 1): the builder then
   allots one block too few, and the last extent is lost.
   */
  lemma {:induction false} TreeReadsBackIff(image: bytes, blockSize: nat, area: bytes, extents: seq<Extent>, tree: seq<nat>)
    requires blockSize >= 4096 && TreeWritten(image, blockSize, area, extents, tree)
    ensures Collect(image, blockSize, area, Get16(area, 6), Get16(area, 2)) == Ok(AllToDisk(extents))
       <==> |extents| <= 1 || |extents| % TREE_ENTRIES != 1
  {
    hide Collect, Get16, TreeCount;
    TreeCountFacts(|extents|);
    CollectFindsCovered(image, blockSize, area, extents, tree);
    assert |AllToDisk(Covered(extents))| == |AllToDisk(extents)| <==> |Covered(extents)| == |extents|;
    if |extents| > 1 && |extents| % TREE_ENTRIES != 1 {
      assert Covered(extents) == extents;
    }
  }

  // ---- A tree that loses an extent -------------------------------------------------------------------------

  /** 341 blocks of a file, every other block of the disk. */
  function Scattered(): (r: seq<Extent>)
    ensures |r| == 341
  {
    seq(341, i requires 0 <= i < 341 => Extent(i, 2 * i + 1, 1))
  }

  function LeafEntries(extents: seq<Extent>): (b: bytes)
    requires AllStorable(extents)
    ensures |b| == 12 * |extents|
  {
    if extents == [] then []
    else
      var k := |extents| - 1;
      assert Storable(extents[k]) && forall i :: 0 <= i < k ==> extents[..k][i] == extents[i];
      LeafEntries(extents[..k]) + ExtentBytes(extents[k])
  }

  lemma {:induction false} LeafEntryAt(extents: seq<Extent>, j: nat)
    requires AllStorable(extents) && j < |extents|
    ensures HasAt(LeafEntries(extents), 12 * j, ExtentBytes(extents[j]))
    decreases |extents|
  {
    hide ExtentBytes;
    var k := |extents| - 1;
    assert forall i :: 0 <= i < k ==> extents[..k][i] == extents[i];
    var all, front := LeafEntries(extents), LeafEntries(extents[..k]);
    if j < k {
      LeafEntryAt(extents[..k], j);
      assert all[..12 * k] == front;
      assert HasAt(all, 0, front);
      HasAtPart(all, 0, front, 12 * j, ExtentBytes(extents[j]));
    } else {
      assert all[12 * k..12 * k + 12] == ExtentBytes(extents[k]);
    }
  }

  /** A full tree block. */
  function LeafBlock(extents: seq<Extent>): (b: bytes)
    requires AllStorable(extents) && |extents| == TREE_ENTRIES
    ensures |b| == 4096
  {
    HeaderBytes(TREE_ENTRIES, TREE_ENTRIES, 0) + Zeros(4) + LeafEntries(extents) + Zeros(4)
  }

  lemma {:induction false} LeafBlockIsLeaf(extents: seq<Extent>)
    requires AllStorable(extents) && |extents| == TREE_ENTRIES
    ensures IsLeaf(LeafBlock(extents), extents)
  {
    var node, entries := LeafBlock(extents), LeafEntries(extents);
    HeaderReads(node, TREE_ENTRIES, TREE_ENTRIES, 0, Zeros(4) + entries + Zeros(4));
    assert node[12..12 + 12 * TREE_ENTRIES] == entries;
    hide LeafBlock, LeafEntries, ExtentBytes, Get16;
    forall j | 0 <= j < |extents|
      ensures HasAt(node, 12 + 12 * j, ExtentBytes(extents[j]))
    {
      LeafEntryAt(extents, j);
      HasAtPart(node, 12, entries, 12 * j, ExtentBytes(extents[j]));
    }
  }

  lemma {:induction false} HeaderReads(node: bytes, entries: nat, capacity: nat, depth: nat, rest: bytes)
    requires entries < U16_LIMIT && capacity < U16_LIMIT && depth < U16_LIMIT
    requires node == HeaderBytes(entries, capacity, depth) + rest
    ensures Get16(node, 0) == EXTENT_MAGIC && Get16(node, 2) == entries && Get16(node, 6) == depth
  {
    var header := HeaderBytes(entries, capacity, depth);
    hide Le16, Get16;
    assert node[0..2] == header[0..2] == Le16(EXTENT_MAGIC);
    assert node[2..4] == header[2..4] == Le16(entries);
    assert node[6..8] == header[6..8] == Le16(depth);
    Read16(node, 0, EXTENT_MAGIC);
    Read16(node, 2, entries);
    Read16(node, 6, depth);
  }

  /** The tree the builder writes for 341 extents: one block behind one index entry. */
  function ScatteredArea(): (b: bytes)
    ensures |b| == 60
  {
    HeaderBytes(1, 4, 1) + Zeros(4) + IndexBytes(0, 0) + Zeros(38)
  }

  /** A written tree of 341 extents from which the reader gets 340. */
  lemma {:induction false} ScatteredLosesExtent()
    ensures AllStorable(Scattered()[..TREE_ENTRIES])
    ensures var image, area := LeafBlock(Scattered()[..TREE_ENTRIES]), ScatteredArea();
            && TreeWritten(image, 4096, area, Scattered(), [0])
            && Collect(image, 4096, area, Get16(area, 6), Get16(area, 2)) != Ok(AllToDisk(Scattered()))
  {
    var extents, shown, area := Scattered(), Scattered()[..TREE_ENTRIES], ScatteredArea();
    assert forall i :: 0 <= i < TREE_ENTRIES ==> shown[i] == extents[i] && Storable(extents[i]);
    var image := LeafBlock(shown);
    LeafBlockIsLeaf(shown);
    HeaderReads(area, 1, 4, 1, Zeros(4) + IndexBytes(0, 0) + Zeros(38));
    assert area[12..22] == IndexBytes(0, 0);
    assert image[0..4096] == image;
    hide LeafBlock, ScatteredArea, Collect, Get16, IsLeaf, IndexBytes;
    assert Chunk(extents, 0) == shown;
    assert TreeAt(image, 4096, area, extents, 0, 0);
    TreeReadsBackIff(image, 4096, area, extents, [0]);
  }
}
