/**
 Superblocks and group descriptors: what the builder writes, and the reader that finds an inode through them.
 */
module Ext4Super {
  import opened Core
  import opened Arith
  import opened OutFile
  import opened Spans
  import opened Bitmaps
  import opened Ext4Plan
  import opened Ext4Alloc
  import opened Ext4Inode

  const SUPER_MAGIC: nat := 0xef53
  const SUPER_AT: nat := 1024
  const SUPER_LENGTH: nat := 256
  const DESCRIPTOR_LENGTH: nat := 32
  const MAX_LOG: nat := 10
  const EXTENTS_AND_FILETYPE: nat := 0x42
  const WIDE_BIT: nat := 7

  // ---- Lists of fields -------------------------------------------------------------------------------------

  /** A value to be stored, and where. */
  datatype Field = Field(at: nat, data: bytes)

  /** Fields in ascending order without overlap, inside `len` bytes. */
  predicate FieldsFit(fields: seq<Field>, len: nat) {
    && (forall k :: 0 < k < |fields| ==> fields[k - 1].at + |fields[k - 1].data| <= fields[k].at)
    && forall k :: 0 <= k < |fields| ==> fields[k].at + |fields[k].data| <= len
  }

  ghost predicate Holds(node: bytes, fields: seq<Field>, n: nat)
    requires n <= |fields|
  {
    forall k :: 0 <= k < n ==> HasAt(node, fields[k].at, fields[k].data)
  }

  lemma {:induction false} FieldsAscend(fields: seq<Field>, len: nat, j: nat, k: nat)
    requires FieldsFit(fields, len) && j < k < |fields|
    ensures fields[j].at + |fields[j].data| <= fields[k].at
    decreases k
  {
    if j + 1 < k {
      FieldsAscend(fields, len, j, k - 1);
    }
  }

  lemma {:induction false} FieldsGrow(node: bytes, fields: seq<Field>, k: nat)
    requires FieldsFit(fields, |node|) && k < |fields| && Holds(node, fields, k)
    ensures |Overwrite(node, fields[k].at, fields[k].data)| == |node|
    ensures Holds(Overwrite(node, fields[k].at, fields[k].data), fields, k + 1)
  {
    var f := fields[k];
    var after := Overwrite(node, f.at, f.data);
    if f.data != [] {
      assert after[f.at..f.at + |f.data|] == f.data;
    }
    hide Overwrite;
    forall j | 0 <= j < k + 1
      ensures HasAt(after, fields[j].at, fields[j].data)
    {
      if j < k {
        FieldsAscend(fields, |node|, j, k);
        OverwriteKeeps(node, f.at, f.data, fields[j].at, fields[j].data);
      }
    }
  }

  /** A run of `put16` and `put32` calls inside one region. */
  method PutAll(image: File, base: nat, len: nat, fields: seq<Field>)
    requires base + len <= |image.content| && FieldsFit(fields, len)
    modifies image
    ensures OnlyRegion(old(image.content), image.content, base, len)
    ensures Holds(Region(image.content, base, len), fields, |fields|)
  {
    hide Region, Overwrite, Holds, FieldsFit;
    NoFields(Region(image.content, base, len), fields);
    for k := 0 to |fields|
      invariant OnlyRegion(old(image.content), image.content, base, len)
      invariant Holds(Region(image.content, base, len), fields, k)
    {
      FieldsGrow(Region(image.content, base, len), fields, k);
      FieldFits(fields, len, k);
      PutField(image, base, len, fields[k].at, fields[k].data);
    }
  }

  lemma {:induction false} NoFields(node: bytes, fields: seq<Field>)
    ensures Holds(node, fields, 0)
  {
  }

  lemma {:induction false} FieldFits(fields: seq<Field>, len: nat, k: nat)
    requires FieldsFit(fields, len) && k < |fields|
    ensures fields[k].at + |fields[k].data| <= len
  {
  }

  // ---- The superblock --------------------------------------------------------------------------------------

  /** Counters and geometry of an image; the feature words are given. */
  datatype Totals = Totals(
    log: nat, blocks: nat, inodes: nat, freeBlocks: nat, freeInodes: nat, compat: nat, roCompat: nat)

  predicate TotalsFit(p: Profile, t: Totals) {
    && t.log <= MAX_LOG && p.blockSize == 1024 * Pow2(t.log) && t.blocks < U32_LIMIT && t.inodes < U32_LIMIT
    && t.freeBlocks < U32_LIMIT && t.freeInodes < U32_LIMIT && t.compat < U32_LIMIT && t.roCompat < U32_LIMIT
    && p.blocksPerGroup < U32_LIMIT && p.inodesPerGroup < U32_LIMIT && p.inodeSize < U16_LIMIT
  }

  function SuperFields(p: Profile, t: Totals): (r: seq<Field>)
    requires TotalsFit(p, t)
    ensures |r| == 17
  {
    [Field(0, Le32(t.inodes)), Field(4, Le32(t.blocks)), Field(12, Le32(t.freeBlocks)), Field(16, Le32(t.freeInodes)),
     Field(24, Le32(t.log)), Field(28, Le32(t.log)), Field(32, Le32(p.blocksPerGroup)), Field(36, Le32(p.blocksPerGroup)),
     Field(40, Le32(p.inodesPerGroup)), Field(56, Le16(SUPER_MAGIC)), Field(76, Le32(1)), Field(84, Le32(11)),
     Field(88, Le16(p.inodeSize)), Field(92, Le32(t.compat)), Field(96, Le32(EXTENTS_AND_FILETYPE)),
     Field(100, Le32(t.roCompat)), Field(254, Le16(DESCRIPTOR_LENGTH))]
  }

  lemma {:induction false} SuperFieldsFit(p: Profile, t: Totals)
    requires TotalsFit(p, t)
    ensures FieldsFit(SuperFields(p, t), SUPER_LENGTH)
  {
    hide Le16, Le32, Pow2;
  }

  /** `write_super`, at the start of a group or, in the first one, 1024 bytes into it. */
  method WriteSuper(image: File, base: nat, p: Profile, t: Totals)
    requires TotalsFit(p, t) && base + SUPER_LENGTH <= |image.content|
    modifies image
    ensures OnlyRegion(old(image.content), image.content, base, SUPER_LENGTH)
    ensures Holds(Region(image.content, base, SUPER_LENGTH), SuperFields(p, t), 17)
  {
    hide SuperFields, Region, TotalsFit, OnlyRegion;
    SuperFieldsFit(p, t);
    PutAll(image, base, SUPER_LENGTH, SuperFields(p, t));
  }

  datatype Superblock = Superblock(
    blockSize: nat, inodeSize: nat, blocksPerGroup: nat, inodesPerGroup: nat, descriptorSize: nat, blocks: nat, incompat: nat)

  datatype SuperError = ShortImage | NoMagic | BadBlockSize

  function ParseSuper(data: bytes): Result<Superblock, SuperError>
    requires |data| == 1024
  {
    var log := Get32(data, 24);
    if Get16(data, 56) != SUPER_MAGIC then Err(NoMagic)
    else if log > MAX_LOG then Err(BadBlockSize)
    else
      var incompat := Get32(data, 96);
      var high := if Bit(incompat, WIDE_BIT) then Get32(data, 336) else 0;
      Ok(Superblock(1024 * Pow2(log), Get16(data, 88), Get32(data, 32), Get32(data, 40), Max(Get16(data, 254), 32),
           Get32(data, 4) + high * U32_LIMIT, incompat))
  }

  /** `Superblock::read`. */
  function ReadSuper(image: bytes): Result<Superblock, SuperError> {
    match Slice(image, SUPER_AT, 1024)
    case None => Err(ShortImage)
    case Some(data) => ParseSuper(data)
  }

  /** The geometry a reader finds in an image of the builder's. */
  function BuiltSuper(p: Profile, t: Totals): Superblock {
    Superblock(p.blockSize, p.inodeSize, p.blocksPerGroup, p.inodesPerGroup, DESCRIPTOR_LENGTH, t.blocks, EXTENTS_AND_FILETYPE)
  }

  lemma {:induction false} NotWide()
    ensures !Bit(EXTENTS_AND_FILETYPE, WIDE_BIT)
  {
    assert !Bit(8, 4);
    assert !Bit(33, 6);
  }

  /** Field `k` of a written superblock, where the reader looks for it. */
  lemma {:induction false} SuperField(image: bytes, p: Profile, t: Totals, k: nat)
    requires TotalsFit(p, t) && k < 17 && SUPER_AT + 1024 <= |image|
    requires Holds(Region(image, SUPER_AT, SUPER_LENGTH), SuperFields(p, t), 17)
    ensures HasAt(image[SUPER_AT..SUPER_AT + 1024], SuperFields(p, t)[k].at, SuperFields(p, t)[k].data)
  {
    hide SuperFields;
    var raw, node := image[SUPER_AT..SUPER_AT + 1024], Region(image, SUPER_AT, SUPER_LENGTH);
    assert raw[0..SUPER_LENGTH] == node;
    HasAtPart(raw, 0, node, SuperFields(p, t)[k].at, SuperFields(p, t)[k].data);
  }

  lemma {:induction false} SuperNumbers(raw: bytes, p: Profile, t: Totals, image: bytes)
    requires TotalsFit(p, t) && SUPER_AT + 1024 <= |image| && raw == image[SUPER_AT..SUPER_AT + 1024]
    requires Holds(Region(image, SUPER_AT, SUPER_LENGTH), SuperFields(p, t), 17)
    ensures Get32(raw, 4) == t.blocks && Get32(raw, 24) == t.log && Get32(raw, 32) == p.blocksPerGroup
    ensures Get32(raw, 40) == p.inodesPerGroup && Get16(raw, 56) == SUPER_MAGIC && Get16(raw, 88) == p.inodeSize
    ensures Get32(raw, 96) == EXTENTS_AND_FILETYPE && Get16(raw, 254) == DESCRIPTOR_LENGTH
  {
    hide Le16, Le32, Get16, Get32, HasAt, Pow2, Region, Holds;
    SuperField(image, p, t, 1);
    SuperField(image, p, t, 4);
    SuperField(image, p, t, 6);
    SuperField(image, p, t, 8);
    Read32(raw, 4, t.blocks);
    Read32(raw, 24, t.log);
    Read32(raw, 32, p.blocksPerGroup);
    Read32(raw, 40, p.inodesPerGroup);
    SuperField(image, p, t, 9);
    SuperField(image, p, t, 12);
    SuperField(image, p, t, 14);
    SuperField(image, p, t, 16);
    Read16(raw, 56, SUPER_MAGIC);
    Read16(raw, 88, p.inodeSize);
    Read32(raw, 96, EXTENTS_AND_FILETYPE);
    Read16(raw, 254, DESCRIPTOR_LENGTH);
  }

  /** The reader gets the geometry back from the first superblock. */
  lemma {:induction false} SuperReadsBack(image: bytes, p: Profile, t: Totals)
    requires TotalsFit(p, t) && SUPER_AT + 1024 <= |image|
    requires Holds(Region(image, SUPER_AT, SUPER_LENGTH), SuperFields(p, t), 17)
    ensures ReadSuper(image) == Ok(BuiltSuper(p, t))
  {
    var raw := image[SUPER_AT..SUPER_AT + 1024];
    hide Le16, Le32, Get16, Get32, HasAt, Pow2, Bit, Region, Holds;
    SuperNumbers(raw, p, t, image);
    NotWide();
  }

  // ---- Group descriptors -----------------------------------------------------------------------------------

  /** Free blocks, free inodes and directories of a group. */
  datatype GroupCounts = GroupCounts(freeBlocks: nat, freeInodes: nat, dirs: nat)

  predicate GroupFits(m: GroupMeta) {
    m.blockBitmap < U32_LIMIT && m.inodeBitmap < U32_LIMIT && m.inodeTable < U32_LIMIT
  }

  /** The stored part of a descriptor; the counters are truncated to 16 bits. */
  function DescriptorFields(at: nat, m: GroupMeta, c: GroupCounts): (r: seq<Field>)
    requires GroupFits(m)
    ensures |r| == 6
  {
    [Field(at, Le32(m.blockBitmap)), Field(at + 4, Le32(m.inodeBitmap)), Field(at + 8, Le32(m.inodeTable)),
     Field(at + 12, Le16(c.freeBlocks % U16_LIMIT)), Field(at + 14, Le16(c.freeInodes % U16_LIMIT)),
     Field(at + 16, Le16(c.dirs % U16_LIMIT))]
  }

  ghost predicate DescriptorAt(table: bytes, k: nat, m: GroupMeta, c: GroupCounts) {
    GroupFits(m) && Holds(table, DescriptorFields(DESCRIPTOR_LENGTH * k, m, c), 6)
  }

  lemma {:induction false} DescriptorFits(k: nat, m: GroupMeta, c: GroupCounts, len: nat)
    requires GroupFits(m) && DESCRIPTOR_LENGTH * k + DESCRIPTOR_LENGTH <= len
    ensures FieldsFit(DescriptorFields(DESCRIPTOR_LENGTH * k, m, c), len)
  {
    hide Le16, Le32;
  }

  /** What the descriptor tells: the three blocks, and the counters modulo 2^16. */
  lemma {:induction false} DescriptorReads(table: bytes, k: nat, m: GroupMeta, c: GroupCounts)
    requires DescriptorAt(table, k, m, c)
    ensures DESCRIPTOR_LENGTH * k + 18 <= |table|
    ensures Get32(table, DESCRIPTOR_LENGTH * k) == m.blockBitmap && Get32(table, DESCRIPTOR_LENGTH * k + 4) == m.inodeBitmap
    ensures Get32(table, DESCRIPTOR_LENGTH * k + 8) == m.inodeTable
    ensures Get16(table, DESCRIPTOR_LENGTH * k + 12) == c.freeBlocks % U16_LIMIT
    ensures Get16(table, DESCRIPTOR_LENGTH * k + 14) == c.freeInodes % U16_LIMIT
    ensures Get16(table, DESCRIPTOR_LENGTH * k + 16) == c.dirs % U16_LIMIT
  {
    var at := DESCRIPTOR_LENGTH * k;
    var fields := DescriptorFields(at, m, c);
    assert HasAt(table, fields[0].at, fields[0].data) && HasAt(table, fields[1].at, fields[1].data)
        && HasAt(table, fields[2].at, fields[2].data) && HasAt(table, fields[3].at, fields[3].data)
        && HasAt(table, fields[4].at, fields[4].data) && HasAt(table, fields[5].at, fields[5].data);
    assert at + 18 <= |table|;
    hide Le16, Le32, Get16, Get32, HasAt, Holds;
    Read32(table, at, m.blockBitmap);
    Read32(table, at + 4, m.inodeBitmap);
    Read32(table, at + 8, m.inodeTable);
    Read16(table, at + 12, c.freeBlocks % U16_LIMIT);
    Read16(table, at + 14, c.freeInodes % U16_LIMIT);
    Read16(table, at + 16, c.dirs % U16_LIMIT);
  }

  // ---- Finding an inode ------------------------------------------------------------------------------------

  datatype InodeError = OutOfRange | InodeOutOfImage

  /** The group that holds an inode, and the inode's place in it. */
  function GroupOf(number: nat, perGroup: nat): nat
    requires number > 0 && perGroup > 0
  {
    (number - 1) / perGroup
  }

  function IndexOf(number: nat, perGroup: nat): nat
    requires number > 0 && perGroup > 0
  {
    (number - 1) % perGroup
  }

  function SlotAt(table: nat, blockSize: nat, index: nat, inodeSize: nat): nat {
    table * blockSize + index * inodeSize
  }

  function DescriptorOffset(sb: Superblock, group: nat): nat {
    var block := if sb.blockSize == 1024 then 2 else 1;
    block * sb.blockSize + group * sb.descriptorSize
  }

  /** The inode table a descriptor names. */
  function TableOf(descriptor: bytes, wide: bool): nat
    requires |descriptor| >= 32
  {
    var high := if wide && |descriptor| >= 44 then Get32(descriptor, 40) else 0;
    Get32(descriptor, 8) + high * U32_LIMIT
  }

  predicate InodeExists(sb: Superblock, number: nat)
    requires sb.blocksPerGroup > 0
  {
    0 < number <= sb.inodesPerGroup * DivCeil(sb.blocks, sb.blocksPerGroup)
  }

  /** Offset of an inode's slot, from the descriptor of its group. */
  function InodeOffset(image: bytes, sb: Superblock, number: nat): Result<nat, InodeError>
    requires sb.inodesPerGroup > 0 && sb.blocksPerGroup > 0 && sb.descriptorSize >= 32
  {
    if !InodeExists(sb, number) then Err(OutOfRange)
    else
      match Slice(image, DescriptorOffset(sb, GroupOf(number, sb.inodesPerGroup)), sb.descriptorSize)
      case None => Err(InodeOutOfImage)
      case Some(d) =>
        Ok(SlotAt(TableOf(d, Bit(sb.incompat, WIDE_BIT)), sb.blockSize, IndexOf(number, sb.inodesPerGroup), sb.inodeSize))
  }

  /** `inode::read`. */
  function ReadInode(image: bytes, sb: Superblock, number: nat): Result<Inode, InodeError>
    requires sb.inodesPerGroup > 0 && sb.blocksPerGroup > 0 && sb.descriptorSize >= 32 && sb.inodeSize >= 128
  {
    match InodeOffset(image, sb, number)
    case Err(e) => Err(e)
    case Ok(offset) =>
      match Slice(image, offset, sb.inodeSize)
      case None => Err(InodeOutOfImage)
      case Some(raw) => Ok(ParseInode(raw))
  }
}
