/**
 A file that does not come back: with shared blocks a file of 341 scattered blocks gets 341 extents, one more than the
 tree block the builder allots to it can hold. The image is built without an error.
 */
module Ext4Fragments {
  import opened Core
  import opened Arith
  import opened OutFile
  import opened Bitmaps
  import opened Ext4Plan
  import opened Ext4Alloc
  import opened Ext4Build
  import opened Ext4Extents
  import opened Ext4Inode
  import opened Ext4Content
  import opened Ext4Image
  import opened Ext4Super
  import opened Ext4Accounting
  import opened Ext4Groups
  import opened Ext4Footprints
  import opened Ext4Whole
  import opened Ext4ReadBack
  import S = Ext4Shared
  import T = Ext4Tree
  import D = Ext4Dir

  const BLOCK: nat := 4096

  /** 341 blocks of ones with a zero block between any two. */
  const SCATTERED_BLOCKS: nat := 681

  function ScatteredByte(p: nat): byte {
    if p / BLOCK % 2 == 0 then 1 else 0
  }

  function ScatteredContent(): (r: bytes)
    ensures |r| == SCATTERED_BLOCKS * BLOCK
    ensures forall p :: 0 <= p < |r| ==> r[p] == ScatteredByte(p)
  {
    seq(SCATTERED_BLOCKS * BLOCK, p requires 0 <= p < SCATTERED_BLOCKS * BLOCK => ScatteredByte(p))
  }

  // ---- Its extents -----------------------------------------------------------------------------------------

  lemma {:induction false} EvenBlockStarts(k: nat)
    requires 2 * k < SCATTERED_BLOCKS
    ensures 2 * k * BLOCK < |ScatteredContent()| && ScatteredContent()[2 * k * BLOCK] == 1
  {
    DivUnique(2 * k * BLOCK, 2 * k, 0, BLOCK);
    assert ScatteredByte(2 * k * BLOCK) == 1;
  }

  lemma {:induction false} OddBlockIsZero(k: nat)
    ensures IsZero(S.BlockOf(ScatteredContent(), 2 * k + 1, BLOCK))
  {
    var content, logical := ScatteredContent(), 2 * k + 1;
    var block := S.BlockOf(content, logical, BLOCK);
    forall i | 0 <= i < |block|
      ensures block[i] == 0
    {
      assert block[i] == ByteAt(content, logical * BLOCK + i);
      DivUnique(logical * BLOCK + i, logical, i, BLOCK);
    }
  }

  /** Extents that cover no zero block are single even blocks. */
  lemma {:induction false} SingleBlocks(extents: seq<Extent>, i: nat)
    requires S.NoZeroBlocks(extents, ScatteredContent(), BLOCK) && i < |extents| && extents[i].length > 0
    ensures extents[i].length == 1 && extents[i].logical % 2 == 0
  {
    hide S.BlockOf, IsZero, ScatteredContent;
    var e := extents[i];
    var odd := if e.logical % 2 == 1 then e.logical else e.logical + 1;
    OddBlockIsZero(odd / 2);
    assert odd == 2 * (odd / 2) + 1;
    assert !S.Covers(e, odd);
    assert S.Covers(e, e.logical);
  }

  lemma {:induction false} NotInHole(content: bytes, from: nat, until: nat, at: nat)
    requires AllZero(content, from, until) && from <= at < |content| && content[at] != 0
    ensures until <= at
  {
  }

  /** Every even block needs an extent of its own. */
  lemma {:induction false} ExtentPlace(image: bytes, extents: seq<Extent>, i: nat)
    requires S.NoZeroBlocks(extents, ScatteredContent(), BLOCK) && S.InFileOrder(extents, SCATTERED_BLOCKS)
    requires FileOnDisk(image, BLOCK, extents, ScatteredContent()) && i <= |extents|
    ensures i <= 341 && Cursor(extents, i, BLOCK, |ScatteredContent()|) == if i == 0 then 0 else (2 * i - 1) * BLOCK
    ensures i < |extents| ==> extents[i].logical == 2 * i
    decreases i
  {
    var content := ScatteredContent();
    hide S.NoZeroBlocks, HasAt, ScatteredContent;
    if i > 0 {
      ExtentPlace(image, extents, i - 1);
      SingleBlocks(extents, i - 1);
      assert extents[i - 1].logical == 2 * (i - 1);
      assert Cursor(extents, i, BLOCK, |content|) == High(extents[i - 1], BLOCK, |content|);
    }
    if i < |extents| {
      SingleBlocks(extents, i);
      assert PieceOnDisk(image, BLOCK, extents, content, i);
      if 2 * i < SCATTERED_BLOCKS {
        EvenBlockStarts(i);
        NotInHole(content, Cursor(extents, i, BLOCK, |content|), Low(extents[i], BLOCK), 2 * i * BLOCK);
      }
    }
  }

  lemma {:induction false} ScatteredExtents(image: bytes, extents: seq<Extent>)
    requires S.NoZeroBlocks(extents, ScatteredContent(), BLOCK) && S.InFileOrder(extents, SCATTERED_BLOCKS)
    requires FileOnDisk(image, BLOCK, extents, ScatteredContent())
    ensures |extents| == 341 && extents[340].logical == 680
  {
    hide S.NoZeroBlocks, S.InFileOrder, PieceOnDisk, ScatteredContent;
    var n := |extents|;
    ExtentPlace(image, extents, n);
    if n < 341 {
      EvenBlockStarts(n);
      NotInHole(ScatteredContent(), Cursor(extents, n, BLOCK, |ScatteredContent()|), |ScatteredContent()|, 2 * n * BLOCK);
    }
    ExtentPlace(image, extents, 340);
  }

  lemma {:induction false} FewInOrder(extents: seq<Extent>, i: nat, until: nat)
    requires S.InFileOrder(extents, until) && i < |extents|
    ensures i <= extents[i].logical < until
    decreases i
  {
    if i > 0 {
      FewInOrder(extents, i - 1, until);
      assert extents[i - 1].logical + extents[i - 1].length <= extents[i].logical;
    }
  }

  // ---- The tree --------------------------------------------------------------------------------------------

  /** A root directory with the file in it. */
  function ScatteredRoot(): T.Node {
    T.Node(0, 0, [], 0x41ed, 0, 0, [], [ScatteredFile()])
  }

  function ScatteredFile(): T.Node {
    T.Node(0, 0, [97], 0x81a4, 0, 0, ScatteredContent(), [])
  }

  function NumberedFile(): T.Node {
    ScatteredFile().(nid := 11, parent := 2)
  }

  function NumberedRoot(): T.Node {
    ScatteredRoot().(nid := 2, parent := 2, children := [NumberedFile()])
  }

  lemma {:induction false} ScatteredNodes()
    ensures AllNodes(ScatteredRoot()) == [NumberedRoot(), NumberedFile()]
  {
    hide ScatteredContent;
    var file := ScatteredFile();
    assert T.AssignedAll([], 12, 11) == [];
    assert T.Assigned(file, 11, 2) == NumberedFile();
    assert [file][1..] == [];
    assert T.AssignedAll([file], 11, 2) == [NumberedFile()] + T.AssignedAll([], 12, 2);
    assert T.Assigned(ScatteredRoot(), 2, 0) == NumberedRoot();
    assert T.Collect(NumberedFile()) == [NumberedFile()];
    assert [NumberedFile()][1..] == [];
    assert T.CollectAll([NumberedFile()]) == T.Collect(NumberedFile()) + T.CollectAll([]);
    assert T.CollectAll(NumberedRoot().children) == [NumberedFile()];
  }

  lemma {:induction false} RootFits()
    ensures NodeFits(NumberedRoot(), BLOCK) && |BytesOf(NumberedRoot(), BLOCK)| == BLOCK
  {
    hide ScatteredContent;
    var entries := DirEntries(NumberedRoot());
    assert |entries| == 3 && |entries[0].name| == 1 && |entries[1].name| == 2 && |entries[2].name| == 1;
    assert entries[0].inode == 2 && entries[1].inode == 2 && entries[2].inode == 11;
    assert D.EntriesFit(entries);
    forall i | 0 <= i < 3
      ensures D.MinLength(entries[i]) <= 12
    {
    }
    D.FirstStarts(entries, BLOCK);
    assert D.MinTotal(entries, 3) == 0;
    assert D.MinTotal(entries, 2) <= 12 && D.MinTotal(entries, 1) <= 24 && D.MinTotal(entries, 0) <= 36;
    D.FitsOneBlock(entries, 0, 0, BLOCK);
  }

  lemma {:induction false} FileFits()
    ensures NodeFits(NumberedFile(), BLOCK) && BytesOf(NumberedFile(), BLOCK) == ScatteredContent()
    ensures SharedNodeOf(NumberedFile(), BLOCK) == S.Shared(ScatteredContent())
    ensures !Inline(AttributesOf(NumberedFile()), |ScatteredContent()|) && !NumberedFile().IsDir()
  {
    hide ScatteredContent;
  }

  const GEOMETRY := Profile(4096, 32768, 1024, 256)

  lemma {:induction false} TwoNodesFit()
    ensures NodesFit(AllNodes(ScatteredRoot()), BLOCK) && |AllNodes(ScatteredRoot())| == 2
  {
    ScatteredNodes();
    RootFits();
    FileFits();
    hide NodeFits, AllNodes, ScatteredContent;
    var all := AllNodes(ScatteredRoot());
    assert all[0] == NumberedRoot() && all[1] == NumberedFile();
  }

  /** One group has room for the 682 blocks of the two nodes. */
  lemma {:induction false} NothingFails(e: AllocError)
    requires NodesFit(AllNodes(ScatteredRoot()), BLOCK)
    ensures DivCeil(32768, 32768) == 1
    ensures !MayFail(e, GEOMETRY, 32768, AllNodes(ScatteredRoot()), true)
  {
    var all := AllNodes(ScatteredRoot());
    ScatteredNodes();
    RootFits();
    FileFits();
    DivCeilUnique(32768, 1, 32768);
    MetaSize();
    DivUnique(32768, 1, 0, 32768);
    hide AllNodes, NodeFits, NodesFit, MetaBlocks, DivCeil, ScatteredContent;
    assert all[0] == NumberedRoot() && all[1] == NumberedFile();
    NodeNeeds(GEOMETRY, all[0]);
    NodeNeeds(GEOMETRY, all[1]);
    DivCeilUnique(BLOCK, 1, BLOCK);
    DivCeilUnique(SCATTERED_BLOCKS * BLOCK, SCATTERED_BLOCKS, BLOCK);
    DemandOf(all);
    hide DataBlocks, NeedBlocks;
    assert forall i :: 0 <= i < 2 ==> !ManyBlocks(GEOMETRY, all[i]);
  }

  lemma {:induction false} DemandOf(all: seq<T.Node>)
    requires |all| == 2 && NodesFit(all, BLOCK)
    ensures DataBlocks(GEOMETRY, FileNodes(all, BLOCK))
         == NeedBlocks(GEOMETRY, FileNodeOf(all[0], BLOCK)) + NeedBlocks(GEOMETRY, FileNodeOf(all[1], BLOCK))
  {
    hide NeedBlocks, NodeFits, FileNodeOf;
    var nodes := FileNodes(all, BLOCK);
    assert nodes[..1][..0] == [] && nodes[..1] == [nodes[0]];
    assert DataBlocks(GEOMETRY, nodes[..1]) == DataBlocks(GEOMETRY, nodes[..1][..0]) + NeedBlocks(GEOMETRY, nodes[0]);
  }

  lemma {:induction false} MetaSize()
    ensures MetaBlocks(GEOMETRY, 1) == 68
  {
    DivCeilUnique(32, 1, 4096);
    DivCeilUnique(1024 * 256, 64, 4096);
  }

  // ---- The image -------------------------------------------------------------------------------------------

  /** In any image of this tree with shared blocks, the last block of ones is gone. */
  lemma {:induction false} ScatteredFileIsLost(content: bytes, p: Plan, layout: Layout)
    requires Built(content, p, layout) && p.shared && p.profile == GEOMETRY && p.all == AllNodes(ScatteredRoot())
    ensures AllReadBack(content, p, layout) && |p.all| == 2 && |layout.files[1]| == 341 && !ReadsBack(content, p, 1)
  {
    EveryNodeReadsBack(content, p, layout);
    ScatteredNodes();
    assert p.all[1] == NumberedFile();
    FileFits();
    ScatteredLayout(content, p, layout);
    BuiltNode(content, p, layout, 1);
    FilesReadBack(content, p, layout, 1, 0);
    FileReadsBackIff(content, p, layout, 1);
    LastBlockCounts();
    hide Built, AllReadBack, AllNodes, NodesFit, NodeFits, ShownBytes, BytesOf, ReadInode, Prefix, Streamed, SharedNodeOf, OnDisk, Placeable, ScatteredContent, AllZero, ReadsAs;
    if ReadsBack(content, p, 1) {
      SameShown(content, SuperOf(p), p.all[1], ShownBytes(p, layout, 1), BytesOf(p.all[1], p.profile.blockSize), 0);
    }
  }

  /** An inode shows one content only. */
  lemma {:induction false} SameShown(image: bytes, sb: Superblock, n: T.Node, a: bytes, b: bytes, limit: nat)
    requires Readable(sb) && ReadsAs(image, sb, n, a, limit) && ReadsAs(image, sb, n, b, limit)
    ensures a == b
  {
    hide ReadInode, Prefix, Streamed;
  }

  lemma {:induction false} LastBlockCounts()
    ensures !AllZero(ScatteredContent(), 680 * BLOCK, |ScatteredContent()|)
  {
    EvenBlockStarts(340);
    hide ScatteredContent;
    assert 2 * 340 * BLOCK == 680 * BLOCK;
  }

  lemma {:induction false} ScatteredLayout(content: bytes, p: Plan, layout: Layout)
    requires Built(content, p, layout) && p.shared && p.profile == GEOMETRY && |p.all| == 2 && p.all[1] == NumberedFile()
    ensures |layout.files| == 2 && |layout.files[1]| == 341 && LastLow(layout.files[1], BLOCK) == 680 * BLOCK
  {
    BuiltIsBuildable(content, p, layout);
    FileFits();
    SharedLaidOutNode(p, layout, 1);
    BuiltNode(content, p, layout, 1);
    var n := PlacementAt(p, layout, 1);
    assert n.data == ScatteredContent() && n.extents == layout.files[1] && n.attributes == AttributesOf(NumberedFile());
    OnDiskMeans(content, n, BLOCK, p.profile.inodeSize);
    NodeData(content, BLOCK, n.slot, p.profile.inodeSize, n.attributes, n.data, n.extents, n.tree);
    hide Built, Buildable, NodeFits, SharedNodeOf, BytesOf, OnDisk, NodeOnDisk, Placeable, FileOnDisk, ScatteredContent;
    ShapeOfScattered(layout.files[1], p.total);
    ScatteredExtents(content, layout.files[1]);
  }

  lemma {:induction false} BuiltIsBuildable(content: bytes, p: Plan, layout: Layout)
    requires Built(content, p, layout)
    ensures Buildable(p, layout)
  {
    hide Buildable, GroupsOnDisk, AllOnDisk, Placeable, Placements;
  }

  lemma {:induction false} ShapeOfScattered(extents: seq<Extent>, total: nat)
    requires S.NodeShaped(S.Shared(ScatteredContent()), extents, total, BLOCK)
    ensures S.NoZeroBlocks(extents, ScatteredContent(), BLOCK) && S.InFileOrder(extents, SCATTERED_BLOCKS)
  {
    DivCeilUnique(SCATTERED_BLOCKS * BLOCK, SCATTERED_BLOCKS, BLOCK);
    hide ScatteredContent, DivCeil, S.NoZeroBlocks;
    if |extents| > SCATTERED_BLOCKS {
      FewInOrder(extents, SCATTERED_BLOCKS, SCATTERED_BLOCKS);
    }
  }

  /** The build succeeds, for any hash, and the file does not come back. */
  method BuildScattered(hash: bytes -> nat) returns (r: Result<Layout, AllocError>, image: File, ghost p: Plan)
    ensures r.Ok? && Built(image.content, p, r.value) && AllReadBack(image.content, p, r.value)
    ensures p.shared && p.all == AllNodes(ScatteredRoot()) && |p.all| == 2 && !ReadsBack(image.content, p, 1)
  {
    TwoNodesFit();
    assert Pow2(2) == 4;
    hide Built, AllReadBack, ReadsBack, NodesFit, MayFail, AllNodes, ScatteredContent;
    NothingFails(NoFreeBlocks);
    r, image, p := Rebuild(GEOMETRY, 32768, ScatteredRoot(), true, hash, 2, 0, 0);
    if r.Err? {
      NothingFails(r.error);
    }
    ScatteredFileIsLost(image.content, p, r.value);
  }
}
