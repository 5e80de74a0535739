/**
 What a finished ext4 image says in plain numbers: superblock copies, descriptors, bitmaps, inode slots and directory
 listings, at the offsets of the format and against the tree and the blocks themselves.
 */
module Ext4Stored {
  import opened Core
  import opened Arith
  import opened OutFile
  import opened Spans
  import opened Bitmaps
  import opened Ext4Plan
  import opened Ext4Alloc
  import opened Ext4Inode
  import opened Ext4Content
  import opened Ext4Image
  import opened Ext4Super
  import opened Ext4Accounting
  import opened Ext4Groups
  import opened Ext4Footprints
  import opened Ext4Whole
  import opened Ext4ReadBack
  import T = Ext4Tree
  import D = Ext4Dir

  // ---- Bitmaps ---------------------------------------------------------------------------------------------

  /** First block of the block bitmap of a group: behind the superblock copy and the descriptors of all groups. */
  function BitmapBlock(q: Profile, groups: nat, g: nat): nat
    requires q.blockSize > 0
  {
    g * q.blocksPerGroup + 1 + DivCeil(32 * groups, q.blockSize)
  }

  /** Clear bits of the block bitmaps of the first `n` groups, on the image. */
  ghost function ClearBlocks(content: bytes, p: Plan, n: nat): nat
    requires Sane(p.profile)
  {
    if n == 0 then 0 else ClearBlocks(content, p, n - 1) + ClearIn(content, BitmapBlock(p.profile, p.Groups(), n - 1), p.profile.blockSize, p.profile.blocksPerGroup)
  }

  /** Clear bits of the inode bitmaps of the first `n` groups, on the image. */
  ghost function ClearInodeBits(content: bytes, p: Plan, n: nat): nat
    requires Sane(p.profile)
  {
    if n == 0 then 0
    else ClearInodeBits(content, p, n - 1) + ClearIn(content, BitmapBlock(p.profile, p.Groups(), n - 1) + 1, p.profile.blockSize, p.profile.inodesPerGroup)
  }

  /** Clear bits among the first `n` of the block `block`. */
  ghost function ClearIn(content: bytes, block: nat, blockSize: nat, n: nat): nat {
    if block * blockSize + blockSize <= |content| && n <= 8 * blockSize
    then ClearBits(content[block * blockSize..block * blockSize + blockSize], n)
    else 0
  }

  /** Free blocks and free inodes of a group are the clear bits of its two bitmaps. */
  lemma {:induction false} BitmapsCount(content: bytes, p: Plan, g: nat)
    requires p.Fits() && g < p.Groups() && GroupOnDisk(content, p, g)
    ensures Sane(p.profile) && GroupStart(g, p.profile.blocksPerGroup) <= |p.used|
    ensures var q, block := p.profile, BitmapBlock(p.profile, p.Groups(), g);
            && ClearIn(content, block, q.blockSize, q.blocksPerGroup) == FreeBlocksIn(p.used, g, q.blocksPerGroup)
            && ClearIn(content, block + 1, q.blockSize, q.inodesPerGroup) == FreeInodesIn(p.all, g, q.inodesPerGroup)
    ensures p.Meta(g).blockBitmap == BitmapBlock(p.profile, p.Groups(), g) && p.Meta(g).inodeBitmap == BitmapBlock(p.profile, p.Groups(), g) + 1
  {
    FitsSane(p);
    MetaPlaces(p, g);
    GroupFacts(p, p.used, g);
    BitmapParts(content, p, g);
    hide Plan.Fits, Plan.Groups, GroupOnDisk, BlockBits, InodeBits, BitmapBlock, ClearBits, GroupUsed, FreeBlocksIn, FreeInodesIn, Plan.Meta, GroupStart, GroupEnd;
    hide ClearIn, BlockAt, Region;
    var q, m := p.profile, p.Meta(g);
    BlockCounterExact(Region(content, BlockAt(m.blockBitmap, q.blockSize), q.blockSize), p.used, g, q.blocksPerGroup);
    InodeCounterExact(Region(content, BlockAt(m.inodeBitmap, q.blockSize), q.blockSize), p.all, g, q.inodesPerGroup);
    ClearInIs(content, m.blockBitmap, q.blockSize, q.blocksPerGroup);
    ClearInIs(content, m.inodeBitmap, q.blockSize, q.inodesPerGroup);
  }

  lemma {:induction false} ClearInIs(content: bytes, block: nat, blockSize: nat, n: nat)
    requires BlockAt(block, blockSize) + blockSize <= |content| && n <= 8 * blockSize
    ensures ClearIn(content, block, blockSize, n) == ClearBits(Region(content, BlockAt(block, blockSize), blockSize), n)
  {
    hide ClearBits;
  }

  lemma {:induction false} MetaPlaces(p: Plan, g: nat)
    requires Sane(p.profile)
    ensures var m, block := p.Meta(g), BitmapBlock(p.profile, p.Groups(), g);
            && m.super == g * p.profile.blocksPerGroup && m.descriptors == g * p.profile.blocksPerGroup + 1
            && m.blockBitmap == block && m.inodeBitmap == block + 1 && m.inodeTable == block + 2
  {
    hide DivCeil;
  }

  lemma {:induction false} BitmapParts(content: bytes, p: Plan, g: nat)
    requires p.Fits() && g < p.Groups() && GroupOnDisk(content, p, g)
    ensures var m, bs := p.Meta(g), p.profile.blockSize;
            && BlockAt(m.blockBitmap, bs) + bs <= |content| && GroupStart(g, p.profile.blocksPerGroup) <= |p.used|
            && BlockBits(Region(content, BlockAt(m.blockBitmap, bs), bs), GroupUsed(p.used, g, p.profile.blocksPerGroup), p.profile.blocksPerGroup)
            && BlockAt(m.inodeBitmap, bs) + bs <= |content|
            && InodeBits(Region(content, BlockAt(m.inodeBitmap, bs), bs), p.all, g, p.profile.inodesPerGroup)
  {
    hide TableHolds, BlockBits, InodeBits, Holds, Region, Plan.Fits, Plan.Groups, Plan.Meta, GroupUsed;
  }

  lemma {:induction false} BlockTotals(content: bytes, p: Plan, n: nat)
    requires p.Fits() && n <= p.Groups() && forall g :: 0 <= g < n ==> GroupOnDisk(content, p, g)
    ensures Sane(p.profile) && (n > 0 ==> GroupStart(n - 1, p.profile.blocksPerGroup) <= |p.used|)
    ensures ClearBlocks(content, p, n) == FreeBlocksBefore(p.used, n, p.profile.blocksPerGroup)
    ensures ClearInodeBits(content, p, n) == FreeInodesBefore(p.all, n, p.profile.inodesPerGroup)
    decreases n
  {
    hide *;
    NumberedPlan(p);
    if n == 0 {
      NoGroups(content, p);
    } else {
      BlockTotals(content, p, n - 1);
      BitmapsCount(content, p, n - 1);
      OneGroupMore(content, p, n);
    }
  }

  lemma {:induction false} NoGroups(content: bytes, p: Plan)
    requires Sane(p.profile) && Numbered(p.all)
    ensures ClearBlocks(content, p, 0) == FreeBlocksBefore(p.used, 0, p.profile.blocksPerGroup)
    ensures ClearInodeBits(content, p, 0) == FreeInodesBefore(p.all, 0, p.profile.inodesPerGroup)
  {
  }

  lemma {:induction false} NumberedPlan(p: Plan)
    requires p.Fits()
    ensures Numbered(p.all) && Sane(p.profile) && p.total == |p.used| > 0 && p.profile.blockSize >= 4096
  {
    hide Numbered;
  }

  lemma {:induction false} OneGroupMore(content: bytes, p: Plan, n: nat)
    requires Sane(p.profile) && Numbered(p.all) && 0 < n && GroupStart(n - 1, p.profile.blocksPerGroup) <= |p.used|
    requires n > 1 ==> GroupStart(n - 2, p.profile.blocksPerGroup) <= |p.used|
    requires ClearBlocks(content, p, n - 1) == FreeBlocksBefore(p.used, n - 1, p.profile.blocksPerGroup)
    requires ClearInodeBits(content, p, n - 1) == FreeInodesBefore(p.all, n - 1, p.profile.inodesPerGroup)
    requires var q, block := p.profile, BitmapBlock(p.profile, p.Groups(), n - 1);
             && ClearIn(content, block, q.blockSize, q.blocksPerGroup) == FreeBlocksIn(p.used, n - 1, q.blocksPerGroup)
             && ClearIn(content, block + 1, q.blockSize, q.inodesPerGroup) == FreeInodesIn(p.all, n - 1, q.inodesPerGroup)
    ensures ClearBlocks(content, p, n) == FreeBlocksBefore(p.used, n, p.profile.blocksPerGroup)
    ensures ClearInodeBits(content, p, n) == FreeInodesBefore(p.all, n, p.profile.inodesPerGroup)
  {
    hide FreeBlocksIn, FreeInodesIn, BitmapBlock, ClearIn, GroupStart, Plan.Groups, Numbered;
  }

  // ---- Superblock copies -----------------------------------------------------------------------------------

  /** Where the superblock copy of a group starts. */
  function CopyAt(q: Profile, g: nat): nat {
    g * q.blocksPerGroup * q.blockSize + if g == 0 then 1024 else 0
  }

  lemma {:induction false} FieldAt(content: bytes, off: nat, fields: seq<Field>, n: nat, k: nat)
    requires off + n <= |content| && Holds(Region(content, off, n), fields, |fields|) && k < |fields|
    ensures HasAt(content, off + fields[k].at, fields[k].data)
  {
    var region := Region(content, off, n);
    assert HasAt(region, fields[k].at, fields[k].data);
    HasAtPart(content, off, region, fields[k].at, fields[k].data);
  }

  /** The fields of a superblock copy, read from the image. */
  lemma {:induction false} CopySays(content: bytes, off: nat, q: Profile, t: Totals)
    requires TotalsFit(q, t) && off + SUPER_LENGTH <= |content| && Holds(Region(content, off, SUPER_LENGTH), SuperFields(q, t), 17)
    ensures off + 256 <= |content|
    ensures Get32(content, off) == t.inodes && Get32(content, off + 4) == t.blocks
    ensures Get32(content, off + 12) == t.freeBlocks && Get32(content, off + 16) == t.freeInodes
    ensures Get32(content, off + 24) == t.log && Get32(content, off + 28) == t.log
    ensures Get32(content, off + 32) == q.blocksPerGroup && Get32(content, off + 36) == q.blocksPerGroup
    ensures Get32(content, off + 40) == q.inodesPerGroup && Get16(content, off + 56) == 0xEF53
    ensures Get32(content, off + 76) == 1 && Get32(content, off + 84) == 11 && Get16(content, off + 88) == q.inodeSize
    ensures Get32(content, off + 92) == t.compat && Get32(content, off + 96) == 0x42 && Get32(content, off + 100) == t.roCompat
    ensures Get16(content, off + 254) == 32
  {
    var fields := SuperFields(q, t);
    hide HasAt, Holds, Region, Le16, Le32, Get16, Get32, Pow2;
    FieldAt(content, off, fields, SUPER_LENGTH, 0);
    FieldAt(content, off, fields, SUPER_LENGTH, 1);
    FieldAt(content, off, fields, SUPER_LENGTH, 2);
    FieldAt(content, off, fields, SUPER_LENGTH, 3);
    FieldAt(content, off, fields, SUPER_LENGTH, 4);
    FieldAt(content, off, fields, SUPER_LENGTH, 5);
    FieldAt(content, off, fields, SUPER_LENGTH, 6);
    FieldAt(content, off, fields, SUPER_LENGTH, 7);
    FieldAt(content, off, fields, SUPER_LENGTH, 8);
    FieldAt(content, off, fields, SUPER_LENGTH, 9);
    FieldAt(content, off, fields, SUPER_LENGTH, 10);
    FieldAt(content, off, fields, SUPER_LENGTH, 11);
    FieldAt(content, off, fields, SUPER_LENGTH, 12);
    FieldAt(content, off, fields, SUPER_LENGTH, 13);
    FieldAt(content, off, fields, SUPER_LENGTH, 14);
    FieldAt(content, off, fields, SUPER_LENGTH, 15);
    FieldAt(content, off, fields, SUPER_LENGTH, 16);
    Read32(content, off, t.inodes);
    Read32(content, off + 4, t.blocks);
    Read32(content, off + 12, t.freeBlocks);
    Read32(content, off + 16, t.freeInodes);
    Read32(content, off + 24, t.log);
    Read32(content, off + 28, t.log);
    Read32(content, off + 32, q.blocksPerGroup);
    Read32(content, off + 36, q.blocksPerGroup);
    Read32(content, off + 40, q.inodesPerGroup);
    Read16(content, off + 56, SUPER_MAGIC);
    Read32(content, off + 76, 1);
    Read32(content, off + 84, 11);
    Read16(content, off + 88, q.inodeSize);
    Read32(content, off + 92, t.compat);
    Read32(content, off + 96, EXTENTS_AND_FILETYPE);
    Read32(content, off + 100, t.roCompat);
    Read16(content, off + 254, DESCRIPTOR_LENGTH);
  }

  /**
   Every superblock copy of a finished image counts what the bitmaps of that image show: free blocks always, free inodes
   exactly when a group has at least 10.
   */
  lemma {:induction false} SuperblockCounts(content: bytes, p: Plan, layout: Layout, g: nat)
    requires Built(content, p, layout) && p.profile.blocksPerGroup > 0 && g < p.Groups()
    ensures Sane(p.profile) && CopyAt(p.profile, g) + 256 <= |content|
    ensures var off, q := CopyAt(p.profile, g), p.profile;
            && Get32(content, off) == p.Groups() * q.inodesPerGroup && Get32(content, off + 4) == p.total
            && Get32(content, off + 12) == ClearBlocks(content, p, p.Groups())
            && (Get32(content, off + 16) == ClearInodeBits(content, p, p.Groups()) <==> q.inodesPerGroup >= 10)
            && Get32(content, off + 16) == p.Groups() * q.inodesPerGroup - |p.all| - 9
  {
    BuiltGroups(content, p, layout);
    hide *;
    NumberedPlan(p);
    var q := p.profile;
    SuperPart(content, p, g);
    CopySays(content, CopyAt(q, g), q, p.Totals());
    BlockTotals(content, p, p.Groups());
    FreeBlocksAddUp(p.used, q.blocksPerGroup);
    FreeInodesAddUpIff(p.all, p.Groups(), q.inodesPerGroup);
    TotalsAre(p);
  }

  lemma {:induction false} BuiltGroups(content: bytes, p: Plan, layout: Layout)
    requires Built(content, p, layout)
    ensures p.Fits() && p.profile.blocksPerGroup > 0 && |p.all| + RESERVED_UNNAMED <= p.Groups() * p.profile.inodesPerGroup
    ensures forall g :: 0 <= g < p.Groups() ==> GroupOnDisk(content, p, g)
  {
    hide GroupOnDisk, AllOnDisk, Placements, Plan.Fits, NodesFit;
    FitsSane(p);
  }

  lemma {:induction false} SuperPart(content: bytes, p: Plan, g: nat)
    requires p.Fits() && g < p.Groups() && GroupOnDisk(content, p, g)
    ensures Sane(p.profile) && TotalsFit(p.profile, p.Totals()) && CopyAt(p.profile, g) + SUPER_LENGTH <= |content|
    ensures Holds(Region(content, CopyAt(p.profile, g), SUPER_LENGTH), SuperFields(p.profile, p.Totals()), 17)
  {
    FitsSane(p);
    CopyPlace(p, g);
    hide TableHolds, BlockBits, InodeBits, Holds, Region, Plan.Fits, Plan.Groups, Plan.Meta, TotalsFit, SuperFields, CopyAt, SuperOffset;
  }

  lemma {:induction false} CopyPlace(p: Plan, g: nat)
    requires Sane(p.profile)
    ensures SuperOffset(p, g) == CopyAt(p.profile, g)
  {
    hide DivCeil, DescriptorBlocks;
  }

  lemma {:induction false} TotalsAre(p: Plan)
    requires Sane(p.profile) && |p.used| == p.total && |p.all| + RESERVED_UNNAMED <= p.Groups() * p.profile.inodesPerGroup
    ensures var t := p.Totals();
            && t.inodes == p.Groups() * p.profile.inodesPerGroup && t.blocks == p.total
            && t.freeInodes == p.Groups() * p.profile.inodesPerGroup - (|p.all| + RESERVED_UNNAMED)
            && t.freeBlocks == |p.used| - Count(p.used)
            && p.Groups() == DivCeil(|p.used|, p.profile.blocksPerGroup)
            && RESERVED_UNNAMED == 9 && RESERVED == 10
  {
    hide DivCeil;
    CountBound(p.used);
  }

  lemma {:induction false} CountBound(used: seq<bool>)
    ensures Count(used) <= |used|
    decreases |used|
  {
    if used != [] {
      CountBound(used[..|used| - 1]);
    }
  }

  /** Its geometry and fixed words, in every copy. */
  lemma {:induction false} SuperblockGeometry(content: bytes, p: Plan, layout: Layout, g: nat)
    requires Built(content, p, layout) && p.profile.blocksPerGroup > 0 && g < p.Groups()
    ensures Sane(p.profile) && CopyAt(p.profile, g) + 256 <= |content|
    ensures var off, q := CopyAt(p.profile, g), p.profile;
            && Get32(content, off + 24) == p.log && Get32(content, off + 28) == p.log && q.blockSize == 1024 * Pow2(p.log)
            && Get32(content, off + 32) == q.blocksPerGroup && Get32(content, off + 36) == q.blocksPerGroup
            && Get32(content, off + 40) == q.inodesPerGroup && Get16(content, off + 56) == 0xEF53
            && Get32(content, off + 76) == 1 && Get32(content, off + 84) == 11 && Get16(content, off + 88) == q.inodeSize
            && Get32(content, off + 92) == p.compat && Get32(content, off + 96) == 0x42 && Get32(content, off + 100) == p.roCompat
            && Get16(content, off + 254) == 32
  {
    BuiltGroups(content, p, layout);
    hide *;
    NumberedPlan(p);
    SuperPart(content, p, g);
    CopySays(content, CopyAt(p.profile, g), p.profile, p.Totals());
    WordsAre(p);
  }

  lemma {:induction false} WordsAre(p: Plan)
    requires p.Fits()
    ensures Sane(p.profile) && p.profile.blockSize == 1024 * Pow2(p.log)
    ensures p.Totals().log == p.log && p.Totals().compat == p.compat && p.Totals().roCompat == p.roCompat
  {
    hide DivCeil, Pow2, Numbered, MetaBlocks, LastGroupBlocks, Count;
  }

  // ---- Descriptors -----------------------------------------------------------------------------------------

  /** Where the table of group `g`, in the block behind its superblock copy, has the descriptor of group `h`. */
  function DescriptorPlace(q: Profile, g: nat, h: nat): nat {
    (g * q.blocksPerGroup + 1) * q.blockSize + 32 * h
  }

  lemma {:induction false} PlaceIs(p: Plan, g: nat, h: nat)
    requires Sane(p.profile) && p.Meta(g).descriptors == g * p.profile.blocksPerGroup + 1
    ensures DescriptorPlace(p.profile, g, h) == BlockAt(p.Meta(g).descriptors, p.profile.blockSize) + 32 * h
  {
    hide Plan.Meta;
  }

  /** Directories among the nodes whose number is one of group `h`. */
  ghost function DirectoriesOf(p: Plan, h: nat): set<nat> {
    set i: nat | i < |p.all| && p.all[i].mode / 0x1000 == 4
                 && h * p.profile.inodesPerGroup < p.all[i].nid <= h * p.profile.inodesPerGroup + p.profile.inodesPerGroup
  }

  /**
   In the table of every group the descriptor of every group names the group's bitmaps and inode table and counts what
   its bitmaps show, modulo 2^16.
   */
  lemma {:induction false} DescriptorCounts(content: bytes, p: Plan, layout: Layout, g: nat, h: nat)
    requires Built(content, p, layout) && p.profile.blocksPerGroup > 0 && g < p.Groups() && h < p.Groups()
    ensures Sane(p.profile)
    ensures var q, block := p.profile, BitmapBlock(p.profile, p.Groups(), h);
            var at := DescriptorPlace(q, g, h);
            && at + 32 <= |content|
            && Get32(content, at) == block && Get32(content, at + 4) == block + 1 && Get32(content, at + 8) == block + 2
            && Get16(content, at + 12) == ClearIn(content, block, q.blockSize, q.blocksPerGroup) % 0x1_0000
            && Get16(content, at + 14) == ClearIn(content, block + 1, q.blockSize, q.inodesPerGroup) % 0x1_0000
            && Get16(content, at + 16) == |DirectoriesOf(p, h)| % 0x1_0000
  {
    BuiltGroups(content, p, layout);
    hide *;
    NumberedPlan(p);
    BitmapsCount(content, p, h);
    TablePartOf(content, p, g);
    MetaPlaces(p, h);
    DescriptorAtOf(content, p, g, h);
    CountsOf(p, h);
    DirsCounted(p, h);
  }

  lemma {:induction false} TablePartOf(content: bytes, p: Plan, g: nat)
    requires p.Fits() && g < p.Groups() && GroupOnDisk(content, p, g)
    ensures Sane(p.profile)
    ensures var at := BlockAt(p.Meta(g).descriptors, p.profile.blockSize);
            && at + DESCRIPTOR_LENGTH * p.Groups() <= |content|
            && TableHolds(Region(content, at, DESCRIPTOR_LENGTH * p.Groups()), p, p.Groups())
  {
    FitsSane(p);
    hide TableHolds, BlockBits, InodeBits, Holds, Region, Plan.Fits, Plan.Groups, Plan.Meta;
  }

  lemma {:induction false} DescriptorAtOf(content: bytes, p: Plan, g: nat, h: nat)
    requires p.Fits() && g < p.Groups() && h < p.Groups() && Sane(p.profile)
    requires var at := BlockAt(p.Meta(g).descriptors, p.profile.blockSize);
             && at + DESCRIPTOR_LENGTH * p.Groups() <= |content|
             && TableHolds(Region(content, at, DESCRIPTOR_LENGTH * p.Groups()), p, p.Groups())
    ensures var at := DescriptorPlace(p.profile, g, h);
            && at + 32 <= |content|
            && Get32(content, at) == p.Meta(h).blockBitmap && Get32(content, at + 4) == p.Meta(h).inodeBitmap
            && Get32(content, at + 8) == p.Meta(h).inodeTable
            && Get16(content, at + 12) == p.Counts(h).freeBlocks % 0x1_0000
            && Get16(content, at + 14) == p.Counts(h).freeInodes % 0x1_0000
            && Get16(content, at + 16) == p.Counts(h).dirs % 0x1_0000
  {
    hide *;
    FitsSane(p);
    MetaPlaces(p, g);
    PlaceIs(p, g, h);
    DescriptorThere(Region(content, BlockAt(p.Meta(g).descriptors, p.profile.blockSize), DESCRIPTOR_LENGTH * p.Groups()), p, h);
    DescriptorSays(content, BlockAt(p.Meta(g).descriptors, p.profile.blockSize), DESCRIPTOR_LENGTH * p.Groups(), h, p.Meta(h), p.Counts(h));
  }

  lemma {:induction false} DescriptorThere(table: bytes, p: Plan, h: nat)
    requires p.Fits() && h < p.Groups() && Sane(p.profile) && TableHolds(table, p, p.Groups())
    ensures DescriptorAt(table, h, p.Meta(h), p.Counts(h)) && DESCRIPTOR_LENGTH * h + 32 <= DESCRIPTOR_LENGTH * p.Groups()
  {
    hide Plan.Fits, Plan.Groups, Plan.Meta, Plan.Counts, DescriptorAt;
  }

  lemma {:induction false} DescriptorSays(content: bytes, at: nat, len: nat, h: nat, m: GroupMeta, c: GroupCounts)
    requires at + len <= |content| && DESCRIPTOR_LENGTH * h + 32 <= len && DescriptorAt(Region(content, at, len), h, m, c)
    ensures var d := at + 32 * h;
            && d + 32 <= |content|
            && Get32(content, d) == m.blockBitmap && Get32(content, d + 4) == m.inodeBitmap && Get32(content, d + 8) == m.inodeTable
            && Get16(content, d + 12) == c.freeBlocks % 0x1_0000 && Get16(content, d + 14) == c.freeInodes % 0x1_0000
            && Get16(content, d + 16) == c.dirs % 0x1_0000
  {
    hide DescriptorAt, Region, Get16, Get32;
    DescriptorReads(Region(content, at, len), h, m, c);
    InRegion(content, at, len, 32 * h);
    InRegion(content, at, len, 32 * h + 4);
    InRegion(content, at, len, 32 * h + 8);
    InRegion(content, at, len, 32 * h + 12);
    InRegion(content, at, len, 32 * h + 14);
    InRegion(content, at, len, 32 * h + 16);
  }

  /** A number in a region, at its place in the image. */
  lemma {:induction false} InRegion(content: bytes, at: nat, len: nat, offset: nat)
    requires at + len <= |content| && offset + 4 <= len
    ensures Get16(Region(content, at, len), offset) == Get16(content, at + offset)
    ensures Get32(Region(content, at, len), offset) == Get32(content, at + offset)
  {
  }

  lemma {:induction false} CountsOf(p: Plan, h: nat)
    requires p.Fits() && h < p.Groups() && Sane(p.profile) && GroupStart(h, p.profile.blocksPerGroup) <= |p.used|
    requires FreeBlocksIn(p.used, h, p.profile.blocksPerGroup) >= 0
    ensures Numbered(p.all)
    ensures p.Counts(h).freeBlocks == FreeBlocksIn(p.used, h, p.profile.blocksPerGroup)
    ensures p.Counts(h).freeInodes == FreeInodesIn(p.all, h, p.profile.inodesPerGroup)
    ensures p.Counts(h).dirs == DirsIn(p.all, h, p.profile.inodesPerGroup)
  {
    hide FreeBlocksIn, FreeInodesIn, DirsIn, Numbered, Pow2, MetaBlocks, LastGroupBlocks, DivCeil;
  }

  lemma {:induction false} DirsCounted(p: Plan, h: nat)
    requires Sane(p.profile) && Numbered(p.all)
    ensures DirsIn(p.all, h, p.profile.inodesPerGroup) == |DirectoriesOf(p, h)|
  {
    DirsUpTo(p.all, h, p.profile.inodesPerGroup, |p.all|);
    assert p.all[..|p.all|] == p.all;
    assert DirectoriesOf(p, h) == DirPlaces(p.all, h, p.profile.inodesPerGroup, |p.all|);
  }

  ghost function DirPlaces(all: seq<T.Node>, h: nat, ipg: nat, n: nat): set<nat>
    requires n <= |all|
  {
    set i: nat | i < n && all[i].mode / 0x1000 == 4 && h * ipg < all[i].nid <= h * ipg + ipg
  }

  lemma {:induction false} DirsUpTo(all: seq<T.Node>, h: nat, ipg: nat, n: nat)
    requires ipg > 0 && n <= |all| && forall i :: 0 <= i < |all| ==> all[i].nid > 0
    ensures DirsIn(all[..n], h, ipg) == |DirPlaces(all, h, ipg, n)|
  {
    if n == 0 {
      assert DirPlaces(all, h, ipg, 0) == {};
    } else {
      var k := n - 1;
      DirsUpTo(all, h, ipg, k);
      assert all[..n][..k] == all[..k];
      GroupInterval(all[k].nid, h, ipg);
      hide GroupOf;
      var before, now := DirPlaces(all, h, ipg, k), DirPlaces(all, h, ipg, n);
      assert now == if all[k].mode / 0x1000 == 4 && h * ipg < all[k].nid <= h * ipg + ipg then before + {k} else before;
    }
  }

  // ---- Inode slots -----------------------------------------------------------------------------------------

  /** The children of a node that are directories. */
  ghost function ChildDirs(n: T.Node): set<nat> {
    set k: nat | k < |n.children| && n.children[k].mode / 0x1000 == 4
  }

  function LengthSum(extents: seq<Extent>): nat {
    if extents == [] then 0 else extents[0].length + LengthSum(extents[1..])
  }

  lemma {:induction false} ChildDirsCounted(n: T.Node)
    ensures DirChildren(n.children) == |ChildDirs(n)|
  {
    ChildDirsUpTo(n, |n.children|);
    assert n.children[..|n.children|] == n.children;
    assert ChildDirs(n) == DirsUpToChild(n, |n.children|);
  }

  ghost function DirsUpToChild(n: T.Node, m: nat): set<nat>
    requires m <= |n.children|
  {
    set k: nat | k < m && n.children[k].mode / 0x1000 == 4
  }

  lemma {:induction false} ChildDirsUpTo(n: T.Node, m: nat)
    requires m <= |n.children|
    ensures DirChildren(n.children[..m]) == |DirsUpToChild(n, m)|
  {
    if m == 0 {
      assert DirsUpToChild(n, 0) == {};
    } else {
      var k := m - 1;
      ChildDirsUpTo(n, k);
      assert n.children[..m][..k] == n.children[..k];
      assert DirsUpToChild(n, m) == if n.children[k].mode / 0x1000 == 4 then DirsUpToChild(n, k) + {k} else DirsUpToChild(n, k);
    }
  }

  lemma {:induction false} LengthsSummed(extents: seq<Extent>)
    ensures TotalLength(RunsOf(extents)) == LengthSum(extents)
    decreases |extents|
  {
    if extents != [] {
      var head, rest := RunsOf([extents[0]]), RunsOf(extents[1..]);
      assert RunsOf(extents) == head + rest;
      TotalLengthAppend(head, rest);
      assert head[..0] == [] && TotalLength(head) == TotalLength([]) + extents[0].length;
      LengthsSummed(extents[1..]);
    }
  }

  /**
   The slot of a node, where the reader finds it: two links for a directory and one for each child directory, one link
   for everything else; and its extents and tree blocks in sectors of 512 bytes, none for an inline link.
   */
  lemma {:induction false} SlotCounts(content: bytes, p: Plan, layout: Layout, i: nat)
    requires Built(content, p, layout) && i < |p.all|
    ensures Placeable(p, layout) && p.all[i].nid > 0 && Readable(SuperOf(p)) && SlotOf(p, i) + 128 <= |content|
    ensures InodeOffset(content, SuperOf(p), p.all[i].nid) == Ok(SlotOf(p, i))
    ensures var n, at, bs := p.all[i], SlotOf(p, i), p.profile.blockSize;
            && Get16(content, at) == n.mode && Get16(content, at + 2) == n.uid % 0x1_0000 && Get16(content, at + 24) == n.gid % 0x1_0000
            && Get32(content, at + 4) == |BytesOf(n, bs)|
            && Get16(content, at + 26) == (if n.mode / 0x1000 == 4 then (2 + |ChildDirs(n)|) % 0x1_0000 else 1)
            && Get32(content, at + 28)
               == (if n.mode / 0x1000 == 10 && |BytesOf(n, bs)| <= 60 then 0
                   else (LengthSum(layout.files[i]) + |layout.trees[i]|) * (bs / 512) % 0x1_0000_0000)
  {
    hide *;
    SuperReadable(content, p, layout);
    BuiltParts(content, p, layout);
    BuiltNode(content, p, layout, i);
    PlaceFound(content, p, layout, i);
    PlacedAt(content, p, layout, i);
    var n, bs := p.all[i], p.profile.blockSize;
    SlotSays(content, bs, SlotOf(p, i), p.profile.inodeSize, AttributesOf(n), BytesOf(n, bs), layout.files[i], layout.trees[i]);
    ChildDirsCounted(n);
    LengthsSummed(layout.files[i]);
    AttributesAre(n);
    SectorsAre(layout.files[i], layout.trees[i], bs);
    InlineIs(AttributesOf(n), |BytesOf(n, bs)|);
  }

  lemma {:induction false} PlaceFound(content: bytes, p: Plan, layout: Layout, i: nat)
    requires Built(content, p, layout) && i < |p.all|
    ensures Readable(SuperOf(p)) && p.all[i].nid > 0 && InodeOffset(content, SuperOf(p), p.all[i].nid) == Ok(SlotOf(p, i))
  {
    SuperReadable(content, p, layout);
    BuiltParts(content, p, layout);
    hide Built, GroupOnDisk, Pow2, InodeOffset, Readable, Plan.Fits;
    GroupExists(p, i);
    DescriptorFound(content, p, GroupOf(p.all[i].nid, p.profile.inodesPerGroup));
    OffsetFound(content, p, i);
  }

  lemma {:induction false} PlacedAt(content: bytes, p: Plan, layout: Layout, i: nat)
    requires Placeable(p, layout) && i < |p.all|
    requires OnDisk(content, PlacementAt(p, layout, i), p.profile.blockSize, p.profile.inodeSize)
    ensures Sane(p.profile) && p.all[i].nid > 0 && |layout.files| == |layout.trees| == |p.all|
    ensures D.DirBlock(p.profile.blockSize) && (p.all[i].IsDir() ==> D.EntriesFit(DirEntries(p.all[i])))
    ensures NodeOnDisk(content, p.profile.blockSize, SlotOf(p, i), p.profile.inodeSize, AttributesOf(p.all[i]),
                       BytesOf(p.all[i], p.profile.blockSize), layout.files[i], layout.trees[i])
    ensures |BytesOf(p.all[i], p.profile.blockSize)| < U32_LIMIT
  {
    assert NodeFits(p.all[i], p.profile.blockSize);
    hide SlotOf, AttributesOf, BytesOf, NodeOnDisk, DirEntries, D.EntriesFit, D.DirBlock;
  }

  lemma {:induction false} AttributesAre(n: T.Node)
    ensures var a := AttributesOf(n);
            && a.mode == n.mode && a.uid == n.uid && a.gid == n.gid
            && a.links == if n.mode / 0x1000 == 4 then (2 + DirChildren(n.children)) % 0x1_0000 else 1
  {
    hide DirChildren;
  }

  lemma {:induction false} SectorsAre(extents: seq<Extent>, tree: seq<nat>, blockSize: nat)
    ensures Sectors(extents, tree, blockSize) == (TotalLength(RunsOf(extents)) + |tree|) * (blockSize / 512)
  {
    hide TotalLength;
  }

  lemma {:induction false} InlineIs(a: Attributes, size: nat)
    ensures Inline(a, size) <==> a.mode / 0x1000 == 10 && size <= 60
  {
  }

  /** The fields of a slot on disk, read from the image. */
  lemma {:induction false} SlotSays(
    image: bytes, blockSize: nat, p: nat, inodeSize: nat, a: Attributes, data: bytes, extents: seq<Extent>, tree: seq<nat>)
    requires NodeOnDisk(image, blockSize, p, inodeSize, a, data, extents, tree) && |data| < U32_LIMIT
    ensures p + 128 <= |image|
    ensures Get16(image, p) == a.mode && Get16(image, p + 2) == a.uid % 0x1_0000 && Get16(image, p + 24) == a.gid % 0x1_0000
    ensures Get32(image, p + 4) == |data| && Get16(image, p + 26) == a.links
    ensures Get32(image, p + 28) == if Inline(a, |data|) then 0 else Sectors(extents, tree, blockSize) % 0x1_0000_0000
  {
    hide AreaHolds, FileOnDisk, LeavesAt, HasAt, Sectors, Inline, Head, Tail;
    var raw := Region(image, p, inodeSize);
    var blocks, flags: nat := if Inline(a, |data|) then 0 else Sectors(extents, tree, blockSize), if Inline(a, |data|) then 0 else INODE_EXTENTS;
    assert SlotHolds(raw, a, |data|, blocks, flags);
    hide SlotHolds, Region, NodeOnDisk, Get16, Get32;
    SlotParses(raw, a, |data|, blocks, flags);
    SlotFields(raw, a, |data|, blocks, flags);
    InRegion(image, p, inodeSize, 0);
    InRegion(image, p, inodeSize, 2);
    InRegion(image, p, inodeSize, 4);
    InRegion(image, p, inodeSize, 24);
    InRegion(image, p, inodeSize, 26);
    InRegion(image, p, inodeSize, 28);
  }

  lemma {:induction false} SlotFields(raw: bytes, a: Attributes, size: nat, blocks: nat, flags: nat)
    requires SlotHolds(raw, a, size, blocks, flags) && size < U32_LIMIT
    ensures |raw| >= 128
    ensures Get16(raw, 0) == a.mode && Get16(raw, 2) == a.uid % 0x1_0000 && Get16(raw, 24) == a.gid % 0x1_0000 && Get32(raw, 4) == size
  {
    SlotParses(raw, a, size, blocks, flags);
    SlotZeros(raw, a, size, blocks, flags);
    hide SlotHolds, Get16, Get32, HasAt;
  }

  lemma {:induction false} SlotZeros(raw: bytes, a: Attributes, size: nat, blocks: nat, flags: nat)
    requires SlotHolds(raw, a, size, blocks, flags)
    ensures |raw| >= 128 && Get32(raw, 108) == 0 && Get16(raw, 120) == 0 && Get16(raw, 122) == 0
  {
    hide HasAt, Head, Tail;
  }

  // ---- Directory listings ----------------------------------------------------------------------------------

  /** The directory file type that stands for a mode. */
  predicate KindFor(mode: nat, kind: byte) {
    var t := mode / 0x1000 % 16;
    && (t == 4 ==> kind == 2) && (t == 10 ==> kind == 7) && (t == 2 ==> kind == 5) && (t == 6 ==> kind == 6)
    && (t == 1 ==> kind == 3) && (t == 12 ==> kind == 4)
    && (t != 4 && t != 10 && t != 2 && t != 6 && t != 1 && t != 12 ==> kind == 1)
  }

  /** A listing of a directory: itself as ".", the directory above as "..", then its children in order. */
  predicate Lists(es: seq<D.Entry>, n: T.Node, above: nat) {
    && |es| == 2 + |n.children|
    && es[0].inode == n.nid && es[0].name == [46] && es[0].kind == 2
    && es[1].inode == above && es[1].name == [46, 46] && es[1].kind == 2
    && forall k :: 0 <= k < |n.children| ==>
         es[2 + k].inode == n.children[k].nid && es[2 + k].name == n.children[k].name && KindFor(n.children[k].mode, es[2 + k].kind)
  }

  lemma {:induction false} EntriesList(n: T.Node)
    ensures Lists(DirEntries(n), n, n.parent)
  {
  }

  /** Directory `j` of the list has node `i` as a child. */
  predicate ChildOf(all: seq<T.Node>, i: nat, j: nat)
    requires i < |all|
  {
    j < |all| && exists k :: 0 <= k < |all[j].children| && all[j].children[k] == all[i]
  }

  lemma {:induction false} ParentsOfChildren(n: T.Node, m: T.Node, k: nat)
    requires T.ParentsRight(n) && m in T.Collect(n) && k < |m.children|
    ensures m.children[k].parent == m.nid
    decreases n
  {
    if m == n {
      ParentOfChild(n.children, n.nid, k);
    } else {
      ParentsOfAll(n.children, n.nid, m, k);
    }
  }

  lemma {:induction false} ParentsOfAll(nodes: seq<T.Node>, parent: nat, m: T.Node, k: nat)
    requires T.ParentsRightAll(nodes, parent) && m in T.CollectAll(nodes) && k < |m.children|
    ensures m.children[k].parent == m.nid
    decreases nodes
  {
    hide T.Collect, T.ParentsRight;
    if m in T.Collect(nodes[0]) {
      ParentsOfChildren(nodes[0], m, k);
    } else {
      ParentsOfAll(nodes[1..], parent, m, k);
    }
  }

  lemma {:induction false} ParentOfChild(nodes: seq<T.Node>, parent: nat, k: nat)
    requires T.ParentsRightAll(nodes, parent) && k < |nodes|
    ensures nodes[k].parent == parent
    decreases nodes
  {
    if k > 0 {
      ParentOfChild(nodes[1..], parent, k - 1);
    }
  }

  /** Every node but the root is a child of some node of the list. */
  lemma {:induction false} SomeParent(n: T.Node, m: T.Node) returns (above: T.Node, k: nat)
    requires m in T.Collect(n) && m != n
    ensures above in T.Collect(n) && k < |above.children| && above.children[k] == m
    decreases n
  {
    var j, deeper := ChildHolding(n.children, m);
    if deeper {
      above, k := SomeParent(n.children[j], m);
      CollectedChild(n.children, j, above);
    } else {
      above, k := n, j;
    }
  }

  lemma {:induction false} ChildHolding(nodes: seq<T.Node>, m: T.Node) returns (j: nat, deeper: bool)
    requires m in T.CollectAll(nodes)
    ensures j < |nodes| && m in T.Collect(nodes[j]) && (deeper <==> m != nodes[j])
    decreases nodes
  {
    hide T.Collect;
    if m in T.Collect(nodes[0]) {
      j, deeper := 0, m != nodes[0];
    } else {
      j, deeper := ChildHolding(nodes[1..], m);
      j := j + 1;
    }
  }

  lemma {:induction false} CollectedChild(nodes: seq<T.Node>, j: nat, m: T.Node)
    requires j < |nodes| && m in T.Collect(nodes[j])
    ensures m in T.CollectAll(nodes)
    decreases nodes
  {
    hide T.Collect;
    if j > 0 {
      CollectedChild(nodes[1..], j - 1, m);
    }
  }

  /** The parent number of a numbered node is that of the directory that has it, and the root's its own. */
  lemma {:induction false} ParentNumbers(root: T.Node, i: nat)
    requires i < |AllNodes(root)|
    ensures var all := AllNodes(root);
            && all != [] && all[0].parent == all[0].nid == 2
            && (i > 0 ==> exists j :: ChildOf(all, i, j))
            && (forall j :: 0 <= j < |all| && ChildOf(all, i, j) ==> all[i].parent == all[j].nid)
  {
    var tree, all := T.Assigned(root, T.ROOT, 0), AllNodes(root);
    T.AssignedParents(root, T.ROOT, 0);
    T.NumbersExact(root);
    RootNumbers(root);
    hide T.Assigned, T.Collect, T.ParentsRight, T.Taken, ChildOf;
    forall j | 0 <= j < |all| && ChildOf(all, i, j)
      ensures all[i].parent == all[j].nid
    {
      var k := ChildPlace(all, i, j);
      ParentsOfChildren(tree, all[j], k);
    }
    if i > 0 {
      assert all[i] in all && all[i].nid != tree.nid;
      var above, k := SomeParent(tree, all[i]);
      var j :| 0 <= j < |all| && all[j] == above;
      ChildThere(all, i, j, k);
    }
  }

  lemma {:induction false} RootNumbers(root: T.Node)
    ensures var tree, all := T.Assigned(root, T.ROOT, 0), AllNodes(root);
            tree.parent == tree.nid == 2 && all != [] && all[0] == tree
  {
    hide T.AssignedAll;
  }

  lemma {:induction false} ChildPlace(all: seq<T.Node>, i: nat, j: nat) returns (k: nat)
    requires i < |all| && j < |all| && ChildOf(all, i, j)
    ensures k < |all[j].children| && all[j].children[k] == all[i]
  {
    k :| 0 <= k < |all[j].children| && all[j].children[k] == all[i];
  }

  lemma {:induction false} ChildThere(all: seq<T.Node>, i: nat, j: nat, k: nat)
    requires i < |all| && j < |all| && k < |all[j].children| && all[j].children[k] == all[i]
    ensures ChildOf(all, i, j)
  {
  }

  /**
   Reading a directory of a finished image gives its own number, the number of the directory above it (its own for the
   root), and number, name and kind of every child in order; exactly when its last record's length fits.
   */
  lemma {:induction false} DirectoriesName(content: bytes, p: Plan, layout: Layout, root: T.Node, i: nat)
    requires Built(content, p, layout) && p.all == AllNodes(root) && i < |p.all| && p.all[i].mode / 0x1000 == 4
    requires i < |layout.files| && TreeCoversAll(layout, i)
    ensures Sane(p.profile) && Readable(SuperOf(p)) && D.DirBlock(p.profile.blockSize) && D.EntriesFit(DirEntries(p.all[i]))
    ensures var list := ListDirectory(content, SuperOf(p), p.all[i].nid);
            D.LastLengthFits(DirEntries(p.all[i]), p.profile.blockSize) ==>
              && list.Ok?
              && (i == 0 ==> Lists(list.value, p.all[i], p.all[i].nid))
              && (forall j :: 0 <= j < |p.all| && ChildOf(p.all, i, j) ==> Lists(list.value, p.all[i], p.all[j].nid))
              && (i > 0 ==> exists j :: ChildOf(p.all, i, j))
  {
    hide *;
    DirMode(p.all[i]);
    DirectoriesList(content, p, layout, i);
    EntriesList(p.all[i]);
    ParentNumbers(root, i);
  }

  lemma {:induction false} DirMode(n: T.Node)
    ensures n.IsDir() <==> n.mode / 0x1000 == 4
  {
  }
}
