/**
 Which block of a finished ext4 image is whose, in plain numbers: the bits of both bitmaps, the blocks of every file, the
 bytes they hold, and what sharing keeps.
 */
module Ext4Blocks {
  import opened Core
  import opened Arith
  import OutFile
  import opened Spans
  import opened Bitmaps
  import opened Ext4Plan
  import opened Ext4Alloc
  import opened Ext4Build
  import opened Ext4Inode
  import opened Ext4Content
  import opened Ext4Image
  import opened Ext4Super
  import opened Ext4Accounting
  import opened Ext4Groups
  import opened Ext4Owners
  import opened Ext4SharedLayout
  import opened Ext4Footprints
  import opened Ext4Whole
  import opened Ext4ReadBack
  import opened Ext4Stored
  import S = Ext4Shared
  import T = Ext4Tree
  import D = Ext4Dir

  // ---- Owners ----------------------------------------------------------------------------------------------

  predicate InExtents(b: nat, extents: seq<Extent>) {
    exists x :: 0 <= x < |extents| && extents[x].start <= b < extents[x].start + extents[x].length
  }

  /** Block `b` is a data block of some file or directory, or one of its tree blocks. */
  ghost predicate Taken(layout: Layout, b: nat) {
    || (exists i :: 0 <= i < |layout.files| && InExtents(b, layout.files[i]))
    || exists i :: 0 <= i < |layout.trees| && b in layout.trees[i]
  }

  /** Superblock copy, descriptors of all groups, two bitmaps and the inode table, in blocks. */
  function HeadBlocks(q: Profile, groups: nat): nat
    requires q.blockSize > 0
  {
    3 + DivCeil(32 * groups, q.blockSize) + DivCeil(q.inodesPerGroup * q.inodeSize, q.blockSize)
  }

  lemma {:induction false} OwnedIsIn(b: nat, extents: seq<Extent>)
    ensures Owned(b, RunsOf(extents)) <==> InExtents(b, extents)
  {
    var runs := RunsOf(extents);
    if Owned(b, runs) {
      var i :| 0 <= i < |runs| && InRun(b, runs[i]);
      assert extents[i].start <= b < extents[i].start + extents[i].length;
    }
    if InExtents(b, extents) {
      var x :| 0 <= x < |extents| && extents[x].start <= b < extents[x].start + extents[x].length;
      assert InRun(b, runs[x]);
    }
  }

  lemma {:induction false} OwnedEither(b: nat, a: seq<Run>, c: seq<Run>)
    ensures Owned(b, a + c) <==> Owned(b, a) || Owned(b, c)
  {
    var all := a + c;
    if Owned(b, a) {
      var i :| 0 <= i < |a| && InRun(b, a[i]);
      assert InRun(b, all[i]);
    }
    if Owned(b, c) {
      var i :| 0 <= i < |c| && InRun(b, c[i]);
      assert InRun(b, all[|a| + i]);
    }
    if Owned(b, all) {
      var i :| 0 <= i < |all| && InRun(b, all[i]);
      assert if i < |a| then InRun(b, a[i]) else InRun(b, c[i - |a|]);
    }
  }

  lemma {:induction false} OwnedByFile(b: nat, files: seq<seq<Extent>>)
    ensures Owned(b, FileRuns(files)) <==> exists i :: 0 <= i < |files| && InExtents(b, files[i])
    decreases |files|
  {
    hide Owned, InExtents, RunsOf;
    if files == [] {
      NothingOwned(b);
    } else {
      var k := |files| - 1;
      OwnedByFile(b, files[..k]);
      OwnedEither(b, FileRuns(files[..k]), RunsOf(files[k]));
      OwnedIsIn(b, files[k]);
      if exists i :: 0 <= i < |files| && InExtents(b, files[i]) {
        var i :| 0 <= i < |files| && InExtents(b, files[i]);
        assert i < k ==> InExtents(b, files[..k][i]);
      }
    }
  }

  lemma {:induction false} NothingOwned(b: nat)
    ensures !Owned(b, [])
  {
  }

  lemma {:induction false} OwnedByTree(b: nat, tree: seq<nat>)
    ensures Owned(b, TreeRuns(tree)) <==> b in tree
  {
    var runs := TreeRuns(tree);
    if Owned(b, runs) {
      var i :| 0 <= i < |runs| && InRun(b, runs[i]);
      assert tree[i] == b;
    }
    if b in tree {
      var i :| 0 <= i < |tree| && tree[i] == b;
      assert InRun(b, runs[i]);
    }
  }

  lemma {:induction false} OwnedByTrees(b: nat, trees: seq<seq<nat>>)
    ensures Owned(b, AllTreeRuns(trees)) <==> exists i :: 0 <= i < |trees| && b in trees[i]
    decreases |trees|
  {
    hide Owned, TreeRuns;
    if trees == [] {
      NothingOwned(b);
    } else {
      var k := |trees| - 1;
      OwnedByTrees(b, trees[..k]);
      OwnedEither(b, AllTreeRuns(trees[..k]), TreeRuns(trees[k]));
      OwnedByTree(b, trees[k]);
      if exists i :: 0 <= i < |trees| && b in trees[i] {
        var i :| 0 <= i < |trees| && b in trees[i];
        assert i < k ==> b in trees[..k][i];
      }
    }
  }

  lemma {:induction false} PlainUsed(p: Plan, layout: Layout, b: nat)
    requires Buildable(p, layout) && !p.shared && b < |p.used|
    ensures Sane(p.profile)
    ensures p.used[b] <==> IsMeta(b, p.profile.blocksPerGroup, MetaOf(p)) || Taken(layout, b)
  {
    hide DivCeil, MetaBlocks, LastGroupBlocks, Pow2, NodesFit, Numbered, Placed, AllSpread, Count, MetaCount, DataBlocks, IsMeta, Owned, InExtents, FileRuns, AllTreeRuns;
    var runs, trees := FileRuns(layout.files), AllTreeRuns(layout.trees);
    var next :| Partition(p.used, next, runs + trees, p.profile.blocksPerGroup, MetaOf(p));
    OwnedEither(b, runs, trees);
    OwnedByFile(b, layout.files);
    OwnedByTrees(b, layout.trees);
  }

  lemma {:induction false} SharedUsed(p: Plan, layout: Layout, b: nat)
    requires Buildable(p, layout) && p.shared && b < |p.used|
    ensures Sane(p.profile)
    ensures p.used[b] <==> IsMeta(b, p.profile.blocksPerGroup, MetaOf(p)) || Taken(layout, b)
  {
    hide DivCeil, MetaBlocks, LastGroupBlocks, Pow2, NodesFit, Numbered, Count, MetaCount, IsMeta, Owned, InExtents, AllTreeRuns, OwnOff, S.NodeShaped, S.StoredOnce, SharedNodeOf;
    hide AllOwned, S.NothingLost;
    var trees := AllTreeRuns(layout.trees);
    var next, runs :| Partition(p.used, next, runs + trees, p.profile.blocksPerGroup, MetaOf(p))
      && (forall i :: 0 <= i < |p.all| ==> AllOwned(layout.files[i], runs)) && S.NothingLost(runs, layout.files);
    OwnedEither(b, runs, trees);
    OwnedByTrees(b, layout.trees);
    OwnedByMapped(b, runs, layout.files);
  }

  lemma {:induction false} OwnedByMapped(b: nat, runs: seq<Run>, files: seq<seq<Extent>>)
    requires (forall i :: 0 <= i < |files| ==> AllOwned(files[i], runs)) && S.NothingLost(runs, files)
    ensures Owned(b, runs) <==> exists i :: 0 <= i < |files| && InExtents(b, files[i])
  {
    hide Owned, InExtents, RunsOf;
    if Owned(b, runs) {
      var i :| 0 <= i < |files| && Owned(b, RunsOf(files[i]));
      OwnedIsIn(b, files[i]);
    }
    if exists i :: 0 <= i < |files| && InExtents(b, files[i]) {
      var i :| 0 <= i < |files| && InExtents(b, files[i]);
      var x := ExtentWith(b, files[i]);
      assert AllOwned(files[i], runs) && InRun(b, Run(files[i][x].start, files[i][x].length));
    }
  }

  lemma {:induction false} ExtentWith(b: nat, extents: seq<Extent>) returns (x: nat)
    requires InExtents(b, extents)
    ensures x < |extents| && extents[x].start <= b < extents[x].start + extents[x].length
  {
    x :| 0 <= x < |extents| && extents[x].start <= b < extents[x].start + extents[x].length;
  }

  /** A block of an image is in use exactly when it is in the head of its group or belongs to a file. */
  lemma {:induction false} UsedIff(p: Plan, layout: Layout, b: nat)
    requires Buildable(p, layout) && b < |p.used|
    ensures Sane(p.profile)
    ensures p.used[b] <==> b % p.profile.blocksPerGroup < HeadBlocks(p.profile, p.Groups()) || Taken(layout, b)
  {
    hide *;
    if p.shared {
      SharedUsed(p, layout, b);
    } else {
      PlainUsed(p, layout, b);
    }
    HeadIsMeta(p, b);
  }

  lemma {:induction false} HeadIsMeta(p: Plan, b: nat)
    requires Sane(p.profile)
    ensures IsMeta(b, p.profile.blocksPerGroup, MetaOf(p)) <==> b % p.profile.blocksPerGroup < HeadBlocks(p.profile, p.Groups())
  {
    hide DivCeil;
  }

  // ---- Bitmaps ---------------------------------------------------------------------------------------------

  /** Bit `k` of the bitmap in block `block`. */
  predicate BitSet(image: bytes, block: nat, blockSize: nat, k: nat) {
    block * blockSize + k / 8 < |image| && image[block * blockSize + k / 8] as nat / Pow2(k % 8) % 2 == 1
  }

  /** The bit of block `b` in the bitmap of its group. */
  predicate BlockBit(image: bytes, q: Profile, groups: nat, b: nat)
    requires Sane(q)
  {
    BitSet(image, BitmapBlock(q, groups, b / q.blocksPerGroup), q.blockSize, b % q.blocksPerGroup)
  }

  /** The bit of an inode number in the bitmap of its group, one block behind the other bitmap. */
  predicate InodeBit(image: bytes, q: Profile, groups: nat, number: nat)
    requires Sane(q) && number > 0
  {
    BitSet(image, BitmapBlock(q, groups, (number - 1) / q.inodesPerGroup) + 1, q.blockSize, (number - 1) % q.inodesPerGroup)
  }

  lemma {:induction false} BitInImage(image: bytes, block: nat, blockSize: nat, k: nat)
    requires BlockAt(block, blockSize) + blockSize <= |image| && k < 8 * blockSize
    ensures BitSet(image, block, blockSize, k) <==> BitAt(Region(image, BlockAt(block, blockSize), blockSize), k)
  {
    BitIs(image[block * blockSize + k / 8] as nat, k % 8);
    hide Bit, Pow2;
  }

  /**
   The bit of a block in its group's bitmap, on the image: set exactly when the block is in the head of the group or
   belongs to a file.
   */
  lemma {:induction false} BlockBitIff(content: bytes, p: Plan, layout: Layout, b: nat)
    requires Built(content, p, layout) && p.profile.blocksPerGroup > 0 && b < p.total
    ensures Sane(p.profile)
    ensures BlockBit(content, p.profile, p.Groups(), b)
       <==> b % p.profile.blocksPerGroup < HeadBlocks(p.profile, p.Groups()) || Taken(layout, b)
  {
    BuiltGroups(content, p, layout);
    BuiltBuildable(content, p, layout);
    hide *;
    NumberedPlan(p);
    GroupOfBlock(p, b);
    BlockArithmetic(b, p.profile.blocksPerGroup);
    UsedIff(p, layout, b);
    BitOfUsed(content, p, b, b / p.profile.blocksPerGroup, b % p.profile.blocksPerGroup);
    BlockBitIs(content, p.profile, p.Groups(), b, b / p.profile.blocksPerGroup, b % p.profile.blocksPerGroup);
  }

  lemma {:induction false} BlockArithmetic(b: nat, bpg: nat)
    requires bpg > 0
    ensures b == b / bpg * bpg + b % bpg && b % bpg < bpg && b / bpg >= 0
  {
  }

  lemma {:induction false} BlockBitIs(image: bytes, q: Profile, groups: nat, b: nat, g: nat, k: nat)
    requires Sane(q) && g == b / q.blocksPerGroup && k == b % q.blocksPerGroup
    ensures BlockBit(image, q, groups, b) <==> BitSet(image, BitmapBlock(q, groups, g), q.blockSize, k)
  {
    hide BitSet, BitmapBlock;
  }

  lemma {:induction false} BitOfUsed(content: bytes, p: Plan, b: nat, g: nat, k: nat)
    requires p.Fits() && Sane(p.profile) && b < |p.used| && g < p.Groups() && k < p.profile.blocksPerGroup
    requires b == g * p.profile.blocksPerGroup + k && GroupOnDisk(content, p, g)
    ensures BitSet(content, BitmapBlock(p.profile, p.Groups(), g), p.profile.blockSize, k) <==> p.used[b]
  {
    hide *;
    var q := p.profile;
    BitmapParts(content, p, g);
    MetaPlaces(p, g);
    WideEnough(p);
    BitInImage(content, p.Meta(g).blockBitmap, q.blockSize, k);
    GroupStartIs(g, q.blocksPerGroup);
    UsedBit(Region(content, BlockAt(p.Meta(g).blockBitmap, q.blockSize), q.blockSize), p.used, b, g, k, q.blocksPerGroup);
  }

  lemma {:induction false} GroupStartIs(g: nat, bpg: nat)
    ensures GroupStart(g, bpg) == g * bpg
  {
  }

  lemma {:induction false} BuiltBuildable(content: bytes, p: Plan, layout: Layout)
    requires Built(content, p, layout)
    ensures Buildable(p, layout)
  {
    hide Buildable, Placeable, GroupsOnDisk, AllOnDisk;
  }

  lemma {:induction false} GroupOfBlock(p: Plan, b: nat)
    requires Sane(p.profile) && b < p.total
    ensures b / p.profile.blocksPerGroup < p.Groups()
  {
    hide DivCeil;
    DivCeilMeaning(p.total, p.profile.blocksPerGroup);
    GroupArithmetic(b, p.profile.blocksPerGroup);
    if b / p.profile.blocksPerGroup >= DivCeil(p.total, p.profile.blocksPerGroup) {
      MulMonotone(DivCeil(p.total, p.profile.blocksPerGroup), b / p.profile.blocksPerGroup, p.profile.blocksPerGroup);
    }
  }

  lemma {:induction false} WideEnough(p: Plan)
    requires p.Fits()
    ensures Sane(p.profile) && p.profile.blocksPerGroup <= 8 * p.profile.blockSize && p.profile.inodesPerGroup <= 8 * p.profile.blockSize
  {
    hide Numbered, MetaBlocks, LastGroupBlocks, Pow2;
  }

  lemma {:induction false} UsedBit(block: bytes, used: seq<bool>, b: nat, g: nat, k: nat, bpg: nat)
    requires k < bpg <= 8 * |block| && b < |used| && b == GroupStart(g, bpg) + k
    requires BlockBits(block, GroupUsed(used, g, bpg), bpg)
    ensures BitAt(block, k) <==> used[b]
  {
    hide BitAt;
    assert GroupUsed(used, g, bpg)[k] == used[b];
  }

  /** The bit of an inode number in its group's bitmap: set exactly for the first ten numbers and those of nodes. */
  lemma {:induction false} InodeBitIff(content: bytes, p: Plan, layout: Layout, number: nat)
    requires Built(content, p, layout) && Sane(p.profile) && 0 < number <= p.Groups() * p.profile.inodesPerGroup
    requires p.profile.inodesPerGroup >= 10
    ensures InodeBit(content, p.profile, p.Groups(), number) <==> number <= 10 || NumberOf(p.all, number)
  {
    hide *;
    BuiltGroups(content, p, layout);
    NumberGroup(p, number);
    var g, k := PlaceOfNumber(number, p.profile.inodesPerGroup);
    BitOfNumber(content, p, number, g, k);
    InodeBitIs(content, p.profile, p.Groups(), number, g, k);
  }

  lemma {:induction false} NumberGroup(p: Plan, number: nat)
    requires Sane(p.profile) && 0 < number <= p.Groups() * p.profile.inodesPerGroup
    ensures p.profile.inodesPerGroup > 0 && GroupOf(number, p.profile.inodesPerGroup) < p.Groups()
  {
    hide Plan.Groups, GroupOf;
    GroupBelow(number, p.Groups(), p.profile.inodesPerGroup);
  }

  /** Inode number of place `k` in group `g`. */
  predicate NumberAt(number: nat, ipg: nat, g: nat, k: nat) {
    number == g * ipg + k + 1
  }

  /** A node has this number. */
  ghost predicate NumberOf(all: seq<T.Node>, number: nat) {
    exists i :: 0 <= i < |all| && all[i].nid == number
  }

  lemma {:induction false} PlaceOfNumber(number: nat, ipg: nat) returns (g: nat, k: nat)
    requires number > 0 && ipg > 0
    ensures g == GroupOf(number, ipg) && k < ipg && NumberAt(number, ipg, g, k)
  {
    g, k := (number - 1) / ipg, (number - 1) % ipg;
  }

  lemma {:induction false} InodeBitIs(image: bytes, q: Profile, groups: nat, number: nat, g: nat, k: nat)
    requires Sane(q) && number > 0 && NumberAt(number, q.inodesPerGroup, g, k) && k < q.inodesPerGroup
    ensures InodeBit(image, q, groups, number) <==> BitSet(image, BitmapBlock(q, groups, g) + 1, q.blockSize, k)
  {
    DivUnique(number - 1, g, k, q.inodesPerGroup);
    hide BitSet, BitmapBlock;
  }

  lemma {:induction false} BitOfNumber(content: bytes, p: Plan, number: nat, g: nat, k: nat)
    requires p.Fits() && Sane(p.profile) && g < p.Groups() && k < p.profile.inodesPerGroup && p.profile.inodesPerGroup >= 10
    requires NumberAt(number, p.profile.inodesPerGroup, g, k) && GroupOnDisk(content, p, g)
    ensures BitSet(content, BitmapBlock(p.profile, p.Groups(), g) + 1, p.profile.blockSize, k) <==> number <= 10 || NumberOf(p.all, number)
  {
    hide *;
    var q := p.profile;
    NumberedPlan(p);
    BitmapParts(content, p, g);
    MetaPlaces(p, g);
    WideEnough(p);
    BitInImage(content, p.Meta(g).inodeBitmap, q.blockSize, k);
    NumberBit(Region(content, BlockAt(p.Meta(g).inodeBitmap, q.blockSize), q.blockSize), p.all, number, g, k, q.inodesPerGroup);
  }

  lemma {:induction false} NumberBit(block: bytes, all: seq<T.Node>, number: nat, g: nat, k: nat, ipg: nat)
    requires k < ipg && 10 <= ipg <= 8 * |block| && NumberAt(number, ipg, g, k) && Numbered(all) && InodeBits(block, all, g, ipg)
    ensures BitAt(block, k) <==> number <= 10 || NumberOf(all, number)
  {
    HasIndexOf(all, number);
    ReservedNumber(number, g, k, ipg);
    hide BitAt, Numbered;
  }

  lemma {:induction false} ReservedNumber(number: nat, g: nat, k: nat, ipg: nat)
    requires k < ipg && ipg >= 10 && number == g * ipg + k + 1
    ensures g == 0 && k < 10 <==> number <= 10
  {
    if g > 0 {
      MulMonotone(1, g, ipg);
    }
  }

  lemma {:induction false} HasIndexOf(all: seq<T.Node>, number: nat)
    requires Numbered(all)
    ensures NidTaken(all, number) <==> NumberOf(all, number)
  {
    if NidTaken(all, number) {
      var i := if number == 2 then 0 else number - 10;
      assert all[i].nid == number;
    }
  }

  // ---- Blocks of a file ------------------------------------------------------------------------------------

  lemma {:induction false} MapsLength(extents: seq<Extent>, n: nat)
    requires MapsBlocks(extents, n)
    ensures LengthSum(extents) == n
  {
    MapsBlocksTotal(extents, n);
    LengthsSummed(extents);
  }

  /** A short link's node, which keeps its target in the inode. */
  predicate InSlot(n: T.Node, size: nat) {
    n.mode / 0x1000 == 10 && size <= 60
  }

  /**
   The blocks of a node: none for a link of at most 60 bytes, otherwise without sharing and for directories as many as
   its bytes fill; and a tree block for every 340 extents behind the first, the last such count rounded up.
   */
  lemma {:induction false} BlocksTaken(p: Plan, layout: Layout, i: nat)
    requires Buildable(p, layout) && i < |p.all|
    ensures Sane(p.profile) && NodeFits(p.all[i], p.profile.blockSize) && |layout.files| == |layout.trees| == |p.all|
    ensures var n, bs := p.all[i], p.profile.blockSize;
            var size, extents := |BytesOf(n, bs)|, |layout.files[i]|;
            && (InSlot(n, size) ==> extents == 0)
            && (!InSlot(n, size) && (!p.shared || n.mode / 0x1000 == 4 || size == 0) ==>
                  size <= LengthSum(layout.files[i]) * bs < size + bs)
            && extents <= 1360 && extents <= 1 + 340 * |layout.trees[i]|
            && (layout.trees[i] != [] ==> 1 + 340 * (|layout.trees[i]| - 1) < extents)
  {
    hide *;
    if p.shared {
      SharedLaidOutNode(p, layout, i);
      SharedTaken(p.all[i], layout.files[i], p.total, p.profile.blockSize);
    } else {
      PlainNode(p, layout, i);
      PlainTaken(p.profile, p.all[i], layout.files[i]);
    }
    TreesTaken(|layout.files[i]|);
  }

  lemma {:induction false} PlainNode(p: Plan, layout: Layout, i: nat)
    requires Buildable(p, layout) && !p.shared && i < |p.all|
    ensures Sane(p.profile) && NodeFits(p.all[i], p.profile.blockSize) && |layout.files| == |layout.trees| == |p.all|
    ensures MapsBlocks(layout.files[i], NeedBlocks(p.profile, FileNodeOf(p.all[i], p.profile.blockSize)))
    ensures |layout.files[i]| <= MAX_EXTENTS && |layout.trees[i]| == TreeCount(|layout.files[i]|)
  {
    hide DivCeil, MetaBlocks, LastGroupBlocks, Pow2, Numbered, AllSpread, Count, MetaCount, DataBlocks, Partition, NodeFits, NeedBlocks, FileNodeOf, MapsBlocks, TreeCount;
    assert FileNodes(p.all, p.profile.blockSize)[i] == FileNodeOf(p.all[i], p.profile.blockSize);
  }

  lemma {:induction false} TreesTaken(n: nat)
    ensures n <= 1 + 340 * TreeCount(n) && (TreeCount(n) > 0 ==> 1 + 340 * (TreeCount(n) - 1) < n)
    ensures MAX_EXTENTS == 1360
  {
    DivCeilMeaning(Max(n - 1, 0), 340);
  }

  lemma {:induction false} SlotKind(n: T.Node, size: nat)
    ensures Inline(AttributesOf(n), size) <==> InSlot(n, size)
    ensures n.IsDir() <==> n.mode / 0x1000 == 4
  {
    hide DirChildren;
  }

  lemma {:induction false} PlainTaken(q: Profile, n: T.Node, extents: seq<Extent>)
    requires Sane(q) && NodeFits(n, q.blockSize) && MapsBlocks(extents, NeedBlocks(q, FileNodeOf(n, q.blockSize)))
    ensures var size := |BytesOf(n, q.blockSize)|;
            if InSlot(n, size) then extents == [] else size <= LengthSum(extents) * q.blockSize < size + q.blockSize
  {
    var size := |BytesOf(n, q.blockSize)|;
    SlotKind(n, size);
    hide BytesOf, AttributesOf, NodeFits, InSlot, DivCeil;
    MapsLength(extents, NeedBlocks(q, FileNodeOf(n, q.blockSize)));
    DivCeilMeaning(size, q.blockSize);
  }

  lemma {:induction false} SharedTaken(n: T.Node, extents: seq<Extent>, total: nat, blockSize: nat)
    requires blockSize > 0 && NodeFits(n, blockSize) && S.NodeShaped(SharedNodeOf(n, blockSize), extents, total, blockSize)
    ensures var size := |BytesOf(n, blockSize)|;
            if InSlot(n, size) then extents == []
            else n.mode / 0x1000 == 4 || size == 0 ==> size <= LengthSum(extents) * blockSize < size + blockSize
  {
    var size := |BytesOf(n, blockSize)|;
    SlotKind(n, size);
    hide BytesOf, AttributesOf, NodeFits, InSlot, DivCeil, S.NoZeroBlocks, S.InFileOrder;
    DivCeilMeaning(size, blockSize);
    var node := SharedNodeOf(n, blockSize);
    if node.Own? {
      MapsLength(extents, DivCeil(size, blockSize));
    }
  }

  // ---- Bytes of a file -------------------------------------------------------------------------------------

  /** Extent `x` covers block `k` of the file. */
  predicate Reaches(extents: seq<Extent>, x: nat, k: nat) {
    x < |extents| && extents[x].logical <= k < extents[x].logical + extents[x].length
  }

  /**
   Every byte of a file or directory of a finished image is in the block its extents give for it, or zero where they give
   none.
   */
  lemma {:induction false} EveryByteThere(content: bytes, p: Plan, layout: Layout, i: nat, at: nat)
    requires Built(content, p, layout) && i < |p.all|
    ensures Placeable(p, layout) && NodeFits(p.all[i], p.profile.blockSize)
    ensures var data := BytesOf(p.all[i], p.profile.blockSize);
            at < |data| && !InSlot(p.all[i], |data|) ==> ByteHeld(content, p.profile.blockSize, layout.files[i], data, at)
  {
    hide *;
    SuperReadable(content, p, layout);
    BuiltParts(content, p, layout);
    BuiltNode(content, p, layout, i);
    PlacedAt(content, p, layout, i);
    BuiltFits(content, p, layout, i);
    var data := BytesOf(p.all[i], p.profile.blockSize);
    SlotKind(p.all[i], |data|);
    if at < |data| && !InSlot(p.all[i], |data|) {
      OnDiskFile(content, p.profile.blockSize, SlotOf(p, i), p.profile.inodeSize, AttributesOf(p.all[i]), data, layout.files[i], layout.trees[i]);
      FileByte(content, p.profile.blockSize, layout.files[i], data, at);
    }
  }

  lemma {:induction false} BuiltFits(content: bytes, p: Plan, layout: Layout, i: nat)
    requires Built(content, p, layout) && i < |p.all|
    ensures Placeable(p, layout) && NodeFits(p.all[i], p.profile.blockSize)
  {
    hide NodeFits, Buildable, GroupsOnDisk, AllOnDisk;
  }

  /** Byte `r` of block `b` is `v`. */
  predicate ByteIn(image: bytes, b: int, blockSize: nat, r: nat, v: byte) {
    b >= 0 && b * blockSize + r < |image| && image[b * blockSize + r] == v
  }

  /** Byte `at` of a file is where an extent has its block, and zero where none has it. */
  ghost predicate ByteHeld(image: bytes, blockSize: nat, extents: seq<Extent>, data: bytes, at: nat)
    requires blockSize > 0 && at < |data|
  {
    && (forall x: nat :: Reaches(extents, x, at / blockSize) ==>
          ByteIn(image, extents[x].start + (at / blockSize - extents[x].logical), blockSize, at % blockSize, data[at]))
    && ((forall x: nat :: !Reaches(extents, x, at / blockSize)) ==> data[at] == 0)
  }

  lemma {:induction false} OnDiskFile(
    image: bytes, blockSize: nat, at: nat, inodeSize: nat, a: Attributes, data: bytes, extents: seq<Extent>, tree: seq<nat>)
    requires NodeOnDisk(image, blockSize, at, inodeSize, a, data, extents, tree) && !Inline(a, |data|)
    ensures FileOnDisk(image, blockSize, extents, data)
  {
    hide FileOnDisk, AreaHolds, LeavesAt, SlotHolds, Sectors, Inline;
  }

  lemma {:induction false} FileByte(image: bytes, blockSize: nat, extents: seq<Extent>, data: bytes, at: nat)
    requires blockSize > 0 && FileOnDisk(image, blockSize, extents, data) && at < |data|
    ensures ByteHeld(image, blockSize, extents, data, at)
  {
    hide PieceOnDisk, ByteIn;
    forall x: nat | Reaches(extents, x, at / blockSize)
      ensures ByteIn(image, extents[x].start + (at / blockSize - extents[x].logical), blockSize, at % blockSize, data[at])
    {
      assert PieceOnDisk(image, blockSize, extents, data, x);
      PieceByte(image, blockSize, extents, data, x, at);
    }
    if forall x: nat :: !Reaches(extents, x, at / blockSize) {
      UnreachedZero(image, blockSize, extents, data, |extents|, at);
    }
  }

  lemma {:induction false} PieceByte(image: bytes, blockSize: nat, extents: seq<Extent>, data: bytes, x: nat, at: nat)
    requires blockSize > 0 && x < |extents| && PieceOnDisk(image, blockSize, extents, data, x) && at < |data|
    requires Reaches(extents, x, at / blockSize)
    ensures ByteIn(image, extents[x].start + (at / blockSize - extents[x].logical), blockSize, at % blockSize, data[at])
  {
    var e := extents[x];
    GroupArithmetic(at, blockSize);
    MulMonotone(e.logical, at / blockSize, blockSize);
    MulMonotone(at / blockSize + 1, e.logical + e.length, blockSize);
    MulDistributes(at / blockSize, 1, blockSize);
    S.SamePlace(e, at / blockSize - e.logical, at, blockSize);
    var low, high := Low(e, blockSize), High(e, blockSize, |data|);
    assert low <= at < high;
    assert data[at] == data[low..high][at - low];
  }

  /** A byte that no extent reaches lies in a gap, and gaps are zero. */
  lemma {:induction false} UnreachedZero(image: bytes, blockSize: nat, extents: seq<Extent>, data: bytes, n: nat, at: nat)
    requires blockSize > 0 && FileOnDisk(image, blockSize, extents, data) && at < |data| && n <= |extents|
    requires forall x: nat :: !Reaches(extents, x, at / blockSize)
    requires n < |extents| ==> at < Low(extents[n], blockSize)
    ensures data[at] == 0
    decreases n
  {
    if at >= Cursor(extents, n, blockSize, |data|) {
      assert n < |extents| ==> PieceOnDisk(image, blockSize, extents, data, n);
    } else {
      assert PieceOnDisk(image, blockSize, extents, data, n - 1);
      var e := extents[n - 1];
      if at >= Low(e, blockSize) {
        S.BlockBetween(at, e.logical, e.logical + e.length, blockSize);
        assert Reaches(extents, n - 1, at / blockSize);
      } else {
        UnreachedZero(image, blockSize, extents, data, n - 1, at);
      }
    }
  }

  // ---- Sharing ---------------------------------------------------------------------------------------------

  /** A file whose blocks go through the index: not a directory, not empty, not a short link. */
  predicate ThroughIndex(n: T.Node) {
    n.mode / 0x1000 != 4 && n.content != [] && !InSlot(n, |n.content|)
  }

  /** Block `k` of a file, zero behind its end. */
  function FileBlock(data: bytes, k: nat, blockSize: nat): (b: bytes)
    ensures |b| == blockSize
  {
    seq(blockSize, r requires 0 <= r < blockSize => if k * blockSize + r < |data| then data[k * blockSize + r] else 0)
  }

  lemma {:induction false} BlockIs(data: bytes, k: nat, blockSize: nat)
    ensures S.BlockOf(data, k, blockSize) == FileBlock(data, k, blockSize)
  {
    var a, b := S.BlockOf(data, k, blockSize), FileBlock(data, k, blockSize);
    forall r | 0 <= r < blockSize
      ensures a[r] == b[r]
    {
      assert a[r] == OutFile.ByteAt(data, k * blockSize + r);
    }
  }

  lemma {:induction false} IndexedNode(n: T.Node, blockSize: nat)
    requires NodeFits(n, blockSize) && ThroughIndex(n)
    ensures SharedNodeOf(n, blockSize) == S.Shared(n.content)
  {
    SlotKind(n, |n.content|);
    hide NodeFits, AttributesOf;
  }

  /**
   With sharing a file of fewer than 1360 extents has a hole exactly where its block is zero, and equal blocks, of
   whichever files, are one block of the image.
   */
  lemma {:induction false} HoleIff(content: bytes, p: Plan, layout: Layout, i: nat, k: nat)
    requires Built(content, p, layout) && p.shared && i < |p.all| && ThroughIndex(p.all[i])
    ensures Placeable(p, layout)
    ensures var bs, extents, data := p.profile.blockSize, layout.files[i], p.all[i].content;
            |extents| < 1360 ==> ((exists x: nat :: Reaches(extents, x, k)) <==> !IsZero(FileBlock(data, k, bs)))
  {
    BuiltBuildable(content, p, layout);
    hide *;
    SharedLaidOutNode(p, layout, i);
    BuiltFits(content, p, layout, i);
    IndexedNode(p.all[i], p.profile.blockSize);
    ContentOf(p.all[i], p.profile.blockSize);
    var bs, extents, data := p.profile.blockSize, layout.files[i], p.all[i].content;
    if |extents| < 1360 {
      ShapedCovers(data, extents, p.total, bs, k);
      BlockIs(data, k, bs);
      if forall x: nat :: !Reaches(extents, x, k) {
        UnreachedBlock(content, p, layout, i, k);
      }
    }
  }

  /** A block of the file that no extent reaches is zero. */
  lemma {:induction false} UnreachedBlock(content: bytes, p: Plan, layout: Layout, i: nat, k: nat)
    requires Built(content, p, layout) && i < |p.all| && ThroughIndex(p.all[i])
    requires Placeable(p, layout) && forall x: nat :: !Reaches(layout.files[i], x, k)
    ensures Sane(p.profile) && IsZero(FileBlock(p.all[i].content, k, p.profile.blockSize))
  {
    hide *;
    BuiltFits(content, p, layout, i);
    PlaceableSane(p, layout);
    ContentOf(p.all[i], p.profile.blockSize);
    var bs, extents, data := p.profile.blockSize, layout.files[i], p.all[i].content;
    forall r: nat | r < bs
      ensures ZeroIn(data, k, bs, r)
    {
      if k * bs + r < |data| {
        EveryByteThere(content, p, layout, i, k * bs + r);
        ByteZero(content, bs, extents, data, k, r);
      } else {
        BehindEnd(data, k, bs, r);
      }
    }
    ZeroBlock(data, k, bs);
  }

  lemma {:induction false} PlaceableSane(p: Plan, layout: Layout)
    requires Placeable(p, layout)
    ensures Sane(p.profile) && p.profile.blockSize > 0 && |layout.files| == |p.all|
  {
    hide NodesFit;
  }

  lemma {:induction false} ContentOf(n: T.Node, blockSize: nat)
    requires NodeFits(n, blockSize) && ThroughIndex(n)
    ensures BytesOf(n, blockSize) == n.content && !InSlot(n, |n.content|)
  {
    hide InSlot;
  }

  predicate ZeroIn(data: bytes, k: nat, blockSize: nat, r: nat) {
    k * blockSize + r < |data| ==> data[k * blockSize + r] == 0
  }

  lemma {:induction false} BehindEnd(data: bytes, k: nat, blockSize: nat, r: nat)
    requires k * blockSize + r >= |data|
    ensures ZeroIn(data, k, blockSize, r)
  {
  }

  lemma {:induction false} ByteZero(image: bytes, blockSize: nat, extents: seq<Extent>, data: bytes, k: nat, r: nat)
    requires r < blockSize && k * blockSize + r < |data| && ByteHeld(image, blockSize, extents, data, k * blockSize + r)
    requires forall x: nat :: !Reaches(extents, x, k)
    ensures ZeroIn(data, k, blockSize, r)
  {
    hide ByteIn, Reaches;
    DivUnique(k * blockSize + r, k, r, blockSize);
  }

  lemma {:induction false} ZeroBlock(data: bytes, k: nat, blockSize: nat)
    requires forall r: nat :: r < blockSize ==> ZeroIn(data, k, blockSize, r)
    ensures IsZero(FileBlock(data, k, blockSize))
  {
    forall r: nat | r < blockSize
      ensures FileBlock(data, k, blockSize)[r] == 0
    {
      assert ZeroIn(data, k, blockSize, r);
    }
  }

  lemma {:induction false} ShapedCovers(data: bytes, extents: seq<Extent>, total: nat, blockSize: nat, k: nat)
    requires blockSize > 0 && S.NodeShaped(S.Shared(data), extents, total, blockSize) && |extents| < 1360
    ensures forall x: nat :: Reaches(extents, x, k) ==> !IsZero(S.BlockOf(data, k, blockSize))
  {
    hide S.BlockOf, IsZero, DivCeil, S.InFileOrder;
    assert S.NoZeroBlocks(extents, data, blockSize);
    forall x: nat | Reaches(extents, x, k)
      ensures !IsZero(S.BlockOf(data, k, blockSize))
    {
      assert S.Covers(extents[x], k);
    }
  }

  lemma {:induction false} EqualBlocksAreOne(p: Plan, layout: Layout, i: nat, j: nat, x: nat, y: nat, k: nat, l: nat)
    requires Buildable(p, layout) && p.shared && i < |p.all| && j < |p.all| && ThroughIndex(p.all[i]) && ThroughIndex(p.all[j])
    requires |layout.files| == |p.all| && forall m :: 0 <= m < |p.all| ==> |layout.files[m]| < 1360
    requires Reaches(layout.files[i], x, k) && Reaches(layout.files[j], y, l)
    requires FileBlock(p.all[i].content, k, p.profile.blockSize) == FileBlock(p.all[j].content, l, p.profile.blockSize)
    ensures var e, f := layout.files[i][x], layout.files[j][y]; e.start + (k - e.logical) == f.start + (l - f.logical)
  {
    hide *;
    SharedLaidOutNode(p, layout, i);
    SharedLaidOutNode(p, layout, j);
    IndexedNode(p.all[i], p.profile.blockSize);
    IndexedNode(p.all[j], p.profile.blockSize);
    BlockIs(p.all[i].content, k, p.profile.blockSize);
    BlockIs(p.all[j].content, l, p.profile.blockSize);
    OnceOf(p, layout);
    SameBlock(SharedNodes(p.all, p.profile.blockSize), layout.files, p.profile.blockSize, i, j, x, y, k, l);
  }

  lemma {:induction false} OnceOf(p: Plan, layout: Layout)
    requires Buildable(p, layout) && p.shared
    requires |layout.files| == |p.all| && forall m :: 0 <= m < |p.all| ==> |layout.files[m]| < 1360
    ensures Sane(p.profile) && NodesFit(p.all, p.profile.blockSize)
    ensures S.StoredOnce(SharedNodes(p.all, p.profile.blockSize), layout.files, p.profile.blockSize)
    ensures forall m :: 0 <= m < |p.all| ==> SharedNodes(p.all, p.profile.blockSize)[m] == SharedNodeOf(p.all[m], p.profile.blockSize)
  {
    hide S.StoredOnce, S.NodeShaped, OwnOff, SharedPartition, NodeFits, SharedNodeOf, DivCeil, MetaBlocks, LastGroupBlocks, Numbered, Pow2, TreeCount;
    assert MAX_EXTENTS == 1360;
  }

  lemma {:induction false} SameBlock(
    nodes: seq<S.SharedNode>, files: seq<seq<Extent>>, blockSize: nat, i: nat, j: nat, x: nat, y: nat, k: nat, l: nat)
    requires |files| == |nodes| && S.StoredOnce(nodes, files, blockSize) && i < |nodes| && j < |nodes|
    requires nodes[i].Shared? && nodes[j].Shared? && Reaches(files[i], x, k) && Reaches(files[j], y, l)
    requires S.BlockOf(nodes[i].content, k, blockSize) == S.BlockOf(nodes[j].content, l, blockSize)
    ensures var e, f := files[i][x], files[j][y]; e.start + (k - e.logical) == f.start + (l - f.logical)
  {
    hide S.BlockOf;
    assert S.Covers(files[i][x], k) && S.Covers(files[j][y], l);
    assert S.BlockUnder(files[i][x], k) == S.BlockUnder(files[j][y], l);
  }
}
