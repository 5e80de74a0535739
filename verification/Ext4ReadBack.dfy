/** Reading a built image from its superblock on: every file gives its bytes, every directory its entries. */
module Ext4ReadBack {
  import opened Core
  import opened Arith
  import opened OutFile
  import opened Spans
  import opened Bitmaps
  import opened Ext4Plan
  import opened Ext4Alloc
  import opened Ext4Build
  import opened Ext4Inode
  import opened Ext4Content
  import opened Ext4Image
  import opened Ext4Super
  import opened Ext4Accounting
  import opened Ext4Groups
  import opened Ext4Owners
  import opened Ext4Footprints
  import opened Ext4Whole
  import T = Ext4Tree
  import D = Ext4Dir

  // ---- From the superblock to an inode ---------------------------------------------------------------------

  /** The geometry stored in a built image. */
  function SuperOf(p: Plan): Superblock
    requires Sane(p.profile)
  {
    BuiltSuper(p.profile, p.Totals())
  }

  lemma {:induction false} BuiltParts(content: bytes, p: Plan, layout: Layout)
    requires Built(content, p, layout)
    ensures p.Fits() && Sane(p.profile) && p.Groups() > 0 && |content| == ImageSize(p) && p.profile.inodeSize >= 128
    ensures GroupOnDisk(content, p, 0)
    ensures |p.all| + RESERVED_UNNAMED <= p.Groups() * p.profile.inodesPerGroup
  {
    FitsSane(p);
    hide GroupOnDisk, Placements, AllOnDisk, LaidOut, NodesFit, Numbered, MetaBlocks, LastGroupBlocks, Pow2;
    GroupExists(p, 0);
  }

  lemma {:induction false} SuperFound(content: bytes, p: Plan, layout: Layout)
    requires Built(content, p, layout)
    ensures Sane(p.profile) && ReadSuper(content) == Ok(SuperOf(p))
  {
    BuiltParts(content, p, layout);
    assert p.total > 0 && p.profile.blockSize >= 4096;
    hide Built, Plan.Fits, Plan.Groups, TableHolds, BlockBits, InodeBits, SuperFields, Holds, Region, ReadSuper, Plan.Totals, TotalsFit;
    MulMonotone(1, p.total, p.profile.blockSize);
    FirstSuperAt(p);
    SuperReadsBack(content, p.profile, p.Totals());
  }

  lemma {:induction false} FirstSuperAt(p: Plan)
    requires Sane(p.profile)
    ensures SuperOffset(p, 0) == SUPER_AT
  {
    hide DivCeil;
    assert p.Meta(0).super == 0;
  }

  /** The descriptor of a group, in the table of the first group, names its inode table. */
  lemma {:induction false} DescriptorFound(content: bytes, p: Plan, g: nat)
    requires p.Fits() && g < p.Groups() && p.Groups() > 0 && GroupOnDisk(content, p, 0)
    ensures DescriptorOffset(SuperOf(p), g) + DESCRIPTOR_LENGTH <= |content|
    ensures TableOf(Region(content, DescriptorOffset(SuperOf(p), g), DESCRIPTOR_LENGTH), false) == p.Meta(g).inodeTable
  {
    hide Plan.Fits, Plan.Groups, GroupOnDisk, BlockAt, Plan.Meta, TableHolds, DescriptorOffset, TableOf, SuperOf;
    LargeBlocks(p);
    TableStart(p);
    TablePart(content, p);
    var at, len := BlockAt(p.Meta(0).descriptors, p.profile.blockSize), DESCRIPTOR_LENGTH * p.Groups();
    DescriptorInside(content, p, at, len, g);
  }

  lemma {:induction false} DescriptorInside(content: bytes, p: Plan, at: nat, len: nat, g: nat)
    requires p.Fits() && g < p.Groups() && at + len <= |content| && len == DESCRIPTOR_LENGTH * p.Groups()
    requires TableHolds(Region(content, at, len), p, p.Groups())
    ensures at + DESCRIPTOR_LENGTH * g + DESCRIPTOR_LENGTH <= |content|
    ensures TableOf(Region(content, at + DESCRIPTOR_LENGTH * g, DESCRIPTOR_LENGTH), false) == p.Meta(g).inodeTable
  {
    FitsSane(p);
    hide Plan.Fits, Plan.Groups, Get32, Plan.Meta, Plan.Counts, DescriptorAt, Region;
    var table := Region(content, at, len);
    assert DescriptorAt(table, g, p.Meta(g), p.Counts(g));
    DescriptorReads(table, g, p.Meta(g), p.Counts(g));
    SameNumber(content, at, len, DESCRIPTOR_LENGTH * g);
  }

  lemma {:induction false} LargeBlocks(p: Plan)
    requires p.Fits()
    ensures Sane(p.profile) && p.profile.blockSize >= 4096
  {
  }

  lemma {:induction false} TableStart(p: Plan)
    requires Sane(p.profile) && p.profile.blockSize >= 4096
    ensures BlockAt(p.Meta(0).descriptors, p.profile.blockSize) == p.profile.blockSize
    ensures forall g: nat :: DescriptorOffset(SuperOf(p), g) == p.profile.blockSize + DESCRIPTOR_LENGTH * g
  {
    hide DivCeil, DescriptorBlocks, Plan.Totals;
    assert p.Meta(0).descriptors == 1;
  }

  lemma {:induction false} TablePart(content: bytes, p: Plan)
    requires p.Fits() && p.Groups() > 0 && GroupOnDisk(content, p, 0)
    ensures var at := BlockAt(p.Meta(0).descriptors, p.profile.blockSize);
            && at + DESCRIPTOR_LENGTH * p.Groups() <= |content|
            && TableHolds(Region(content, at, DESCRIPTOR_LENGTH * p.Groups()), p, p.Groups())
  {
    hide TableHolds, BlockBits, InodeBits, Holds, Region;
  }

  /** Byte 8 of a descriptor, in the table and on its own. */
  lemma {:induction false} SameNumber(content: bytes, at: nat, len: nat, offset: nat)
    requires at + len <= |content| && offset + DESCRIPTOR_LENGTH <= len
    ensures Get32(Region(content, at, len), offset + 8) == Get32(Region(content, at + offset, DESCRIPTOR_LENGTH), 8)
  {
  }

  /** Every node's number leads to its slot. */
  lemma {:induction false} InodeFound(content: bytes, p: Plan, layout: Layout, i: nat)
    requires Built(content, p, layout) && i < |p.all|
    ensures Sane(p.profile) && p.profile.inodeSize >= 128 && p.all[i].nid > 0 && SlotOf(p, i) + p.profile.inodeSize <= |content|
    ensures ReadInode(content, SuperOf(p), p.all[i].nid) == Ok(ParseInode(Region(content, SlotOf(p, i), p.profile.inodeSize)))
  {
    BuiltParts(content, p, layout);
    hide Built, GroupOnDisk, ParseInode, Pow2;
    GroupExists(p, i);
    SlotInTable(p, i);
    var g := GroupOf(p.all[i].nid, p.profile.inodesPerGroup);
    HeadFirst(p, g);
    DescriptorFound(content, p, g);
    OffsetFound(content, p, i);
  }

  lemma {:induction false} OffsetFound(content: bytes, p: Plan, i: nat)
    requires p.Fits() && Sane(p.profile) && i < |p.all| && p.all[i].nid > 0
    requires p.all[i].nid <= p.Groups() * p.profile.inodesPerGroup
    requires var g := GroupOf(p.all[i].nid, p.profile.inodesPerGroup);
             && DescriptorOffset(SuperOf(p), g) + DESCRIPTOR_LENGTH <= |content|
             && TableOf(Region(content, DescriptorOffset(SuperOf(p), g), DESCRIPTOR_LENGTH), false) == p.Meta(g).inodeTable
    ensures InodeOffset(content, SuperOf(p), p.all[i].nid) == Ok(SlotOf(p, i))
  {
    NotWide();
    CommonProduct(p);
    hide Plan.Fits, DivCeil, Bit, TableOf, GroupOf, IndexOf, SlotAt, DescriptorOffset, Plan.Meta;
  }

  lemma {:induction false} CommonProduct(p: Plan)
    requires Sane(p.profile)
    ensures p.Groups() * p.profile.inodesPerGroup == p.profile.inodesPerGroup * DivCeil(p.total, p.profile.blocksPerGroup)
  {
    hide DivCeil;
  }

  // ---- Files -----------------------------------------------------------------------------------------------

  /** What a reader sees of node `i`. */
  function ShownBytes(p: Plan, layout: Layout, i: nat): bytes
    requires Placeable(p, layout) && i < |p.all|
  {
    var n := PlacementAt(p, layout, i);
    if Inline(n.attributes, |n.data|) then n.data else Visible(n.data, p.profile.blockSize, n.extents)
  }

  predicate Readable(sb: Superblock) {
    sb.inodesPerGroup > 0 && sb.blocksPerGroup > 0 && sb.descriptorSize >= 32 && sb.inodeSize >= 128
  }

  /**
   The inode of a node has its mode, its owner and group as far as 16 bits hold them, and the size of these bytes; both
   readers show these bytes.
   */
  ghost predicate ReadsAs(image: bytes, sb: Superblock, n: T.Node, shown: bytes, limit: nat)
    requires Readable(sb)
  {
    var r := ReadInode(image, sb, n.nid);
    && r.Ok? && r.value.mode == n.mode && r.value.size == |shown|
    && r.value.uid == n.uid % 0x1_0000 && r.value.gid == n.gid % 0x1_0000
    && Prefix(image, sb.blockSize, r.value, limit) == Ok(shown[..Min(|shown|, limit)])
    && Streamed(image, sb.blockSize, r.value) == Ok(shown)
  }

  lemma {:induction false} SuperReadable(content: bytes, p: Plan, layout: Layout)
    requires Built(content, p, layout)
    ensures Sane(p.profile) && Readable(SuperOf(p)) && SuperOf(p).blockSize == p.profile.blockSize
  {
    BuiltParts(content, p, layout);
  }

  /** The extents of node `i` all fit the tree the builder writes, or it has none. */
  predicate TreeCoversAll(layout: Layout, i: nat)
    requires i < |layout.files|
  {
    |layout.files[i]| <= 1 || |layout.files[i]| % TREE_ENTRIES != 1
  }

  lemma {:induction false} BuiltNode(content: bytes, p: Plan, layout: Layout, i: nat)
    requires Built(content, p, layout) && i < |p.all|
    ensures Placeable(p, layout) && OnDisk(content, PlacementAt(p, layout, i), p.profile.blockSize, p.profile.inodeSize)
    ensures p.profile.blockSize >= 4096 && |PlacementAt(p, layout, i).data| < U32_LIMIT
    ensures |layout.files[i]| <= MAX_EXTENTS && PlacementAt(p, layout, i).data == BytesOf(p.all[i], p.profile.blockSize)
  {
    assert Buildable(p, layout);
    BuildableNode(p, layout, i);
    hide Buildable, Ready, GroupsOnDisk, OnDisk, Plan.Groups, OwnersKnown, MapsBlocks, TreeCount;
    assert Placements(p, layout)[i] == PlacementAt(p, layout, i);
  }

  /**
   Every node of a built image reads back through its number, with both readers: all of its bytes unless its
   extent count is 1 modulo 340, in which case the bytes of the last extent read as zeros.
   */
  lemma {:induction false} FilesReadBack(content: bytes, p: Plan, layout: Layout, i: nat, limit: nat)
    requires Built(content, p, layout) && i < |p.all|
    ensures Sane(p.profile) && Placeable(p, layout) && Readable(SuperOf(p))
    ensures ReadSuper(content) == Ok(SuperOf(p))
    ensures ReadsAs(content, SuperOf(p), p.all[i], ShownBytes(p, layout, i), limit)
    ensures TreeCoversAll(layout, i) ==> ShownBytes(p, layout, i) == BytesOf(p.all[i], p.profile.blockSize)
  {
    SuperReadable(content, p, layout);
    SuperFound(content, p, layout);
    InodeFound(content, p, layout, i);
    BuiltNode(content, p, layout, i);
    hide Built, OnDisk, NodeOnDisk, BytesOf, SlotOf, NodesFit, ParseInode, ReadInode, Prefix, Streamed, Visible, Region, Inline, Readable, SuperOf;
    var n := PlacementAt(p, layout, i);
    OwnerOf(p.all[i]);
    OnDiskMeans(content, n, p.profile.blockSize, p.profile.inodeSize);
    NodeReadsBack(content, p.profile.blockSize, n.slot, p.profile.inodeSize, n.attributes, n.data, n.extents, n.tree, limit);
    VisibleIff(p.profile.blockSize, n.extents, n.data);
  }

  lemma {:induction false} OwnerOf(n: T.Node)
    ensures AttributesOf(n).mode == n.mode && AttributesOf(n).uid == n.uid && AttributesOf(n).gid == n.gid
  {
  }

  lemma {:induction false} OnDiskMeans(content: bytes, n: Placement, blockSize: nat, inodeSize: nat)
    requires OnDisk(content, n, blockSize, inodeSize)
    ensures NodeOnDisk(content, blockSize, n.slot, inodeSize, n.attributes, n.data, n.extents, n.tree)
  {
  }

  /** First byte of the last extent. */
  function LastLow(extents: seq<Extent>, blockSize: nat): nat {
    if extents == [] then 0 else Low(extents[|extents| - 1], blockSize)
  }

  /** The exact condition, for a node with blocks: the lost extent, if there is one, must be all zero. */
  lemma {:induction false} FileReadsBackIff(content: bytes, p: Plan, layout: Layout, i: nat)
    requires Built(content, p, layout) && i < |p.all| && Placeable(p, layout)
    requires !Inline(AttributesOf(p.all[i]), |BytesOf(p.all[i], p.profile.blockSize)|)
    ensures var data, extents, bs := BytesOf(p.all[i], p.profile.blockSize), layout.files[i], p.profile.blockSize;
            ShownBytes(p, layout, i) == data <==> TreeCoversAll(layout, i) || AllZero(data, LastLow(extents, bs), |data|)
  {
    hide *;
    BuiltNode(content, p, layout, i);
    ShownIs(p, layout, i);
    ShownIff(BytesOf(p.all[i], p.profile.blockSize), p.profile.blockSize, layout, i);
  }

  lemma {:induction false} ShownIff(data: bytes, blockSize: nat, layout: Layout, i: nat)
    requires i < |layout.files| && |layout.files[i]| <= MAX_EXTENTS
    ensures Visible(data, blockSize, layout.files[i]) == data
       <==> TreeCoversAll(layout, i) || AllZero(data, LastLow(layout.files[i], blockSize), |data|)
  {
    hide Visible, AllZero, Low;
    VisibleIff(blockSize, layout.files[i], data);
  }

  lemma {:induction false} ShownIs(p: Plan, layout: Layout, i: nat)
    requires Placeable(p, layout) && i < |p.all|
    ensures i < |layout.files| && D.DirBlock(p.profile.blockSize) && (p.all[i].IsDir() ==> D.EntriesFit(DirEntries(p.all[i])))
    ensures !Inline(AttributesOf(p.all[i]), |BytesOf(p.all[i], p.profile.blockSize)|) ==>
              ShownBytes(p, layout, i) == Visible(BytesOf(p.all[i], p.profile.blockSize), p.profile.blockSize, layout.files[i])
  {
    assert NodeFits(p.all[i], p.profile.blockSize);
    hide BytesOf, AttributesOf, Inline, Visible, SlotOf, D.DirBlock, D.EntriesFit;
  }

  /** Without sharing the condition cannot fail on an image of at most 340 groups. */
  lemma {:induction false} SmallImagesCover(content: bytes, p: Plan, layout: Layout, i: nat)
    requires Built(content, p, layout) && i < |p.all| && !p.shared && p.Groups() <= TREE_ENTRIES
    ensures i < |layout.files| && TreeCoversAll(layout, i)
  {
    hide *;
    FilesStaySmall(content, p, layout, i);
    FewAreCovered(layout, i, p.Groups());
  }

  lemma {:induction false} FewAreCovered(layout: Layout, i: nat, groups: nat)
    requires i < |layout.files| && |layout.files[i]| <= groups <= TREE_ENTRIES
    ensures TreeCoversAll(layout, i)
  {
  }

  /** Without sharing a file never has more extents than the image has groups. */
  lemma {:induction false} FilesStaySmall(content: bytes, p: Plan, layout: Layout, i: nat)
    requires Built(content, p, layout) && i < |p.all| && !p.shared
    ensures p.profile.blocksPerGroup > 0 && i < |layout.files| && |layout.files[i]| <= p.Groups()
  {
    BuiltParts(content, p, layout);
    hide *;
    BuiltSpread(content, p, layout, i);
    OwnedFits(p, layout, i, false);
    FewExtents(layout.files[i], p);
  }

  lemma {:induction false} BuiltSpread(content: bytes, p: Plan, layout: Layout, i: nat)
    requires Built(content, p, layout) && i < |p.all| && !p.shared
    ensures Sane(p.profile) && OwnersKnown(p, layout) && i < |layout.files| == |layout.trees|
    ensures Spread(layout.files[i], p.profile.blocksPerGroup) && OwnedRuns(layout, i, false) == RunsOf(layout.files[i])
  {
    assert Buildable(p, layout);
    LayoutOwners(p, layout);
    hide Plan.Groups, OwnersKnown, Partition, Count, NodesFit, Numbered, MetaBlocks, Spread, FileNodes, DataBlocks, GroupsOnDisk, AllOnDisk, Placements;
    assert AllSpread(layout.files, p.profile.blocksPerGroup);
  }

  lemma {:induction false} FewExtents(extents: seq<Extent>, p: Plan)
    requires Sane(p.profile) && Spread(extents, p.profile.blocksPerGroup)
    requires RunsFit(RunsOf(extents), p.profile.blocksPerGroup, MetaOf(p), p.total)
    ensures |extents| <= p.Groups()
  {
    hide RunsFit, Spread, Plan.Groups, MetaOf;
    if extents != [] {
      SpreadBound(extents, p.profile.blocksPerGroup);
      LastGroupOf(extents, p);
      assert extents[0].start / p.profile.blocksPerGroup >= 0;
    }
  }

  lemma {:induction false} LastGroupOf(extents: seq<Extent>, p: Plan)
    requires Sane(p.profile) && extents != [] && RunsFit(RunsOf(extents), p.profile.blocksPerGroup, MetaOf(p), p.total)
    ensures extents[|extents| - 1].start / p.profile.blocksPerGroup < p.Groups()
  {
    hide IsMeta, DivCeil;
    var k, bpg := |extents| - 1, p.profile.blocksPerGroup;
    assert RunsOf(extents)[k] == Run(extents[k].start, extents[k].length);
    DivCeilMeaning(p.total, bpg);
    GroupArithmetic(extents[k].start, bpg);
    if extents[k].start / bpg >= DivCeil(p.total, bpg) {
      MulMonotone(DivCeil(p.total, bpg), extents[k].start / bpg, bpg);
    }
  }

  // ---- Directories -----------------------------------------------------------------------------------------

  datatype ListError = NoInode(inode: InodeError) | NotDirectory | NoData(data: ReadError) | BadEntries(dir: D.DirError) | TooLarge

  const READ_LIMIT: nat := 16 * 1024 * 1024 * 1024

  /** `dir::read`: the inode, its data, its records. */
  function ListDirectory(image: bytes, sb: Superblock, number: nat): Result<seq<D.Entry>, ListError>
    requires Readable(sb)
  {
    match ReadInode(image, sb, number)
    case Err(e) => Err(NoInode(e))
    case Ok(inode) =>
      if inode.mode / 0x4000 % 2 == 0 then Err(NotDirectory)
      else if inode.size > READ_LIMIT then Err(TooLarge)
      else
        match Prefix(image, sb.blockSize, inode, inode.size)
        case Err(e) => Err(NoData(e))
        case Ok(data) =>
          match D.ParseFrom(data, 0)
          case Err(e) => Err(BadEntries(e))
          case Ok(entries) => Ok(entries)
  }

  lemma {:induction false} DirectoryBytesOf(p: Plan, layout: Layout, i: nat)
    requires Placeable(p, layout) && i < |p.all| && p.all[i].IsDir()
    ensures D.DirBlock(p.profile.blockSize) && D.EntriesFit(DirEntries(p.all[i])) && p.all[i].mode / 0x4000 % 2 == 1
    ensures BytesOf(p.all[i], p.profile.blockSize) == D.DirectoryBytes(DirEntries(p.all[i]), p.profile.blockSize)
    ensures |BytesOf(p.all[i], p.profile.blockSize)| < U32_LIMIT
  {
    assert NodeFits(p.all[i], p.profile.blockSize);
  }

  /**
   A directory of a built image whose tree covers its extents lists itself, its parent and its children in order, exactly
   unless its last record has a 64 KiB block of its own.
   */
  lemma {:induction false} DirectoriesList(content: bytes, p: Plan, layout: Layout, i: nat)
    requires Built(content, p, layout) && i < |p.all| && p.all[i].IsDir() && i < |layout.files| && TreeCoversAll(layout, i)
    ensures Sane(p.profile) && Readable(SuperOf(p)) && D.DirBlock(p.profile.blockSize) && D.EntriesFit(DirEntries(p.all[i]))
    ensures ListDirectory(content, SuperOf(p), p.all[i].nid) == Ok(DirEntries(p.all[i]))
       <==> D.LastLengthFits(DirEntries(p.all[i]), p.profile.blockSize)
  {
    BuiltNode(content, p, layout, i);
    DirectoryBytesOf(p, layout, i);
    FilesReadBack(content, p, layout, i, |BytesOf(p.all[i], p.profile.blockSize)|);
    SuperReadable(content, p, layout);
    hide Built, Placeable, ReadsAs, BytesOf, ShownBytes, NodesFit, D.DirBlock, D.EntriesFit, D.LastLengthFits, D.DirectoryBytes, D.ParseFrom, DirEntries, ListDirectory, Readable, SuperOf;
    D.DirectoryReadsBackIff(DirEntries(p.all[i]), p.profile.blockSize);
    ListFound(content, SuperOf(p), p.all[i], BytesOf(p.all[i], p.profile.blockSize));
  }

  /** A directory inode whose bytes read back lists what its bytes parse to. */
  lemma {:induction false} ListFound(image: bytes, sb: Superblock, n: T.Node, data: bytes)
    requires Readable(sb) && ReadsAs(image, sb, n, data, |data|) && n.mode / 0x4000 % 2 == 1 && |data| < U32_LIMIT
    ensures ListDirectory(image, sb, n.nid) == match D.ParseFrom(data, 0) case Err(e) => Err(BadEntries(e)) case Ok(entries) => Ok(entries)
  {
    hide D.ParseFrom, ReadInode, Prefix, Streamed;
    assert data[..Min(|data|, |data|)] == data;
  }

  // ---- The whole builder -----------------------------------------------------------------------------------

  /** All bytes of node `i` come back through its number, with both readers. */
  ghost predicate ReadsBack(content: bytes, p: Plan, i: nat)
    requires Sane(p.profile) && NodesFit(p.all, p.profile.blockSize) && i < |p.all| && Readable(SuperOf(p))
  {
    forall limit: nat :: ReadsAs(content, SuperOf(p), p.all[i], BytesOf(p.all[i], p.profile.blockSize), limit)
  }

  /** What a finished image gives: every node whose tree covers its extents reads back. */
  ghost predicate AllReadBack(content: bytes, p: Plan, layout: Layout) {
    && Sane(p.profile) && NodesFit(p.all, p.profile.blockSize) && Readable(SuperOf(p)) && |layout.files| == |p.all|
    && ReadSuper(content) == Ok(SuperOf(p))
    && forall i :: 0 <= i < |p.all| && TreeCoversAll(layout, i) ==> ReadsBack(content, p, i)
  }

  lemma {:induction false} EveryNodeReadsBack(content: bytes, p: Plan, layout: Layout)
    requires Built(content, p, layout)
    ensures AllReadBack(content, p, layout)
  {
    SuperReadable(content, p, layout);
    SuperFound(content, p, layout);
    BuiltLengths(content, p, layout);
    hide Built, NodesFit, ReadsAs, Readable, SuperOf, ReadSuper, BytesOf;
    forall i | 0 <= i < |p.all| && TreeCoversAll(layout, i)
      ensures ReadsBack(content, p, i)
    {
      forall limit: nat
        ensures ReadsAs(content, SuperOf(p), p.all[i], BytesOf(p.all[i], p.profile.blockSize), limit)
      {
        FilesReadBack(content, p, layout, i, limit);
      }
    }
  }

  lemma {:induction false} BuiltLengths(content: bytes, p: Plan, layout: Layout)
    requires Built(content, p, layout)
    ensures Sane(p.profile) && NodesFit(p.all, p.profile.blockSize) && |layout.files| == |p.all|
  {
    hide NodesFit, Buildable, GroupsOnDisk, AllOnDisk, Placements;
  }

  /** `rebuild_groups_to` on a tree numbered by `assign`, with or without shared blocks. */
  method Rebuild(
    q: Profile, total: nat, root: T.Node, shared: bool, hash: bytes -> nat, log: nat, compat: nat, roCompat: nat)
    returns (r: Result<Layout, AllocError>, image: File, ghost p: Plan)
    requires Sane(q) && 0 < total < U32_LIMIT && q.blocksPerGroup <= 32768 && q.blockSize >= 4096 && 128 <= q.inodeSize < U16_LIMIT
    requires q.blocksPerGroup <= 8 * q.blockSize && q.inodesPerGroup <= 8 * q.blockSize
    requires log <= MAX_LOG && q.blockSize == 1024 * Pow2(log) && compat < U32_LIMIT && roCompat < U32_LIMIT
    requires NodesFit(AllNodes(root), q.blockSize)
    requires |AllNodes(root)| + RESERVED_UNNAMED <= DivCeil(total, q.blocksPerGroup) * q.inodesPerGroup < U32_LIMIT
    ensures fresh(image)
    ensures r.Ok? ==>
              && p.profile == q && p.total == total && p.all == AllNodes(root) && p.shared == shared
              && Built(image.content, p, r.value) && AllReadBack(image.content, p, r.value)
    ensures r.Err? ==> MayFail(r.error, q, total, AllNodes(root), shared)
    ensures LastGroupBlocks(total, q.blocksPerGroup) < MetaBlocks(q, DivCeil(total, q.blocksPerGroup)) ==> r == Err(NoRoomForTable)
  {
    hide Built, AllReadBack, NodesFit, Pow2, DivCeil, MayFail, T.Assigned, T.Collect, LastGroupBlocks, MetaBlocks;
    var numbered := T.Assign(root, T.ROOT, 0);
    var all := T.Collect(numbered);
    T.NumbersExact(root);
    NumberedAll(all);
    r, image, p := BuildImage(q, total, all, shared, hash, log, compat, roCompat);
    if r.Ok? {
      EveryNodeReadsBack(image.content, p, r.value);
    }
  }

  /** The nodes of a tree, numbered. */
  function AllNodes(root: T.Node): seq<T.Node> {
    T.Collect(T.Assigned(root, T.ROOT, 0))
  }

  lemma {:induction false} NumberedAll(all: seq<T.Node>)
    requires all != [] && forall i :: 0 <= i < |all| ==> all[i].nid == T.NidOf(i)
    ensures Numbered(all)
  {
  }
}
