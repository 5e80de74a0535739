/** Writing the metadata of every group: superblock copy, descriptor table and the two bitmaps. */
module Ext4Groups {
  import opened Core
  import opened Arith
  import opened OutFile
  import opened Spans
  import opened Bitmaps
  import opened Ext4Plan
  import opened Ext4Alloc
  import opened Ext4Tree
  import opened Ext4Super
  import opened Ext4Accounting

  /** Everything an image is built from; `shared` when file blocks are shared. */
  datatype Plan = Plan(
    profile: Profile, total: nat, used: seq<bool>, all: seq<Node>, shared: bool, log: nat, compat: nat, roCompat: nat)
  {
    function Groups(): nat
      requires profile.blocksPerGroup > 0
    {
      DivCeil(total, profile.blocksPerGroup)
    }

    function Meta(g: nat): GroupMeta
      requires Sane(profile)
    {
      GroupMetaAt(profile, Groups(), g)
    }

    /** Limits of the format: 4 KiB to 1 MiB blocks, bitmaps of one block, 32-bit block and inode numbers. */
    ghost predicate Fits() {
      && Sane(profile) && 0 < total == |used| < U32_LIMIT && Numbered(all)
      && log <= MAX_LOG && profile.blockSize == 1024 * Pow2(log) && profile.blockSize >= 4096
      && profile.blocksPerGroup <= 8 * profile.blockSize && profile.inodesPerGroup <= 8 * profile.blockSize
      && profile.inodeSize < U16_LIMIT && compat < U32_LIMIT && roCompat < U32_LIMIT
      && Groups() * profile.inodesPerGroup < U32_LIMIT
      && MetaBlocks(profile, Groups()) <= LastGroupBlocks(total, profile.blocksPerGroup)
    }

    function Totals(): Totals
      requires Sane(profile)
    {
      Ext4Super.Totals(
        log, total, Groups() * profile.inodesPerGroup, Max(total - Count(used), 0),
        Max(Groups() * profile.inodesPerGroup - (|all| + RESERVED_UNNAMED), 0), compat, roCompat)
    }

    ghost function Counts(g: nat): GroupCounts
      requires Fits() && g < Groups()
    {
      StartInside(g);
      GroupCounts(
        Max(FreeBlocksIn(used, g, profile.blocksPerGroup), 0), FreeInodesIn(all, g, profile.inodesPerGroup),
        DirsIn(all, g, profile.inodesPerGroup))
    }

    lemma {:induction false} StartInside(g: nat)
      requires Sane(profile) && total == |used| && g < Groups()
      ensures GroupStart(g, profile.blocksPerGroup) < |used|
    {
      GroupRoom(total, profile.blocksPerGroup, g);
    }
  }

  // ---- Byte layout of a group's metadata -------------------------------------------------------------------

  function SuperOffset(p: Plan, g: nat): nat
    requires Sane(p.profile)
  {
    p.Meta(g).super * p.profile.blockSize + if g == 0 then SUPER_AT else 0
  }

  function BlockAt(block: nat, blockSize: nat): nat {
    block * blockSize
  }

  /** The metadata of a group in front of its inode table. */
  function HeadSpan(p: Plan, g: nat): Span
    requires Sane(p.profile)
  {
    Span(BlockAt(p.Meta(g).super, p.profile.blockSize), BlockAt(p.Meta(g).inodeTable, p.profile.blockSize))
  }

  /** The four parts follow each other, inside the image. */
  lemma {:induction false} PartsOfHead(p: Plan, g: nat)
    requires p.Fits() && g < p.Groups()
    ensures var m, bs := p.Meta(g), p.profile.blockSize;
            && BlockAt(m.super, bs) <= SuperOffset(p, g)
            && SuperOffset(p, g) + SUPER_LENGTH <= BlockAt(m.descriptors, bs)
            && BlockAt(m.descriptors, bs) + DESCRIPTOR_LENGTH * p.Groups() <= BlockAt(m.blockBitmap, bs)
            && BlockAt(m.blockBitmap, bs) + bs == BlockAt(m.inodeBitmap, bs)
            && BlockAt(m.inodeBitmap, bs) + bs == BlockAt(m.inodeTable, bs)
            && BlockAt(m.inodeTable, bs) + BlockAt(TableBlocks(p.profile), bs) <= BlockAt(p.total, bs)
    ensures GroupFits(p.Meta(g))
  {
    var q, bs := p.profile, p.profile.blockSize;
    var m, d, start := p.Meta(g), DescriptorBlocks(q, p.Groups()), g * q.blocksPerGroup;
    hide DivCeil, DescriptorBlocks, TableBlocks, MetaBlocks, LastGroupBlocks, Pow2;
    GroupRoom(p.total, q.blocksPerGroup, g);
    MetaParts(q, p.Groups());
    assert start + 3 + d + TableBlocks(q) <= p.total;
    DescriptorsCovered(q, p.Groups());
    MulDistributes(start, 1, bs);
    MulDistributes(start + 1, d, bs);
    MulDistributes(start + 1 + d, 1, bs);
    MulDistributes(start + 2 + d, 1, bs);
    MulDistributes(start + 3 + d, TableBlocks(q), bs);
    MulMonotone(start + 3 + d + TableBlocks(q), p.total, bs);
  }

  /** The descriptor table of the first group, always in block 1, is clear of the superblock fields unless blocks are 1 KiB. */
  lemma {:induction false} TableOffSuperIff(p: Plan)
    requires Sane(p.profile)
    ensures SuperOffset(p, 0) + SUPER_LENGTH <= BlockAt(p.Meta(0).descriptors, p.profile.blockSize)
       <==> p.profile.blockSize >= SUPER_AT + SUPER_LENGTH
  {
    hide DivCeil;
    assert p.Meta(0).super == 0 && p.Meta(0).descriptors == 1;
    assert BlockAt(1, p.profile.blockSize) == p.profile.blockSize && 0 * p.profile.blockSize == 0;
  }

  lemma {:induction false} DescriptorsCovered(p: Profile, groups: nat)
    requires Sane(p)
    ensures groups * 32 <= DescriptorBlocks(p, groups) * p.blockSize
  {
    hide DivCeil;
    DivCeilMeaning(groups * 32, p.blockSize);
  }

  /** The metadata of one group on disk, with the counters the descriptors of all groups carry. */
  ghost predicate GroupOnDisk(content: bytes, p: Plan, g: nat)
    requires p.Fits() && g < p.Groups()
  {
    var bs, m := p.profile.blockSize, p.Meta(g);
    && SuperOffset(p, g) + SUPER_LENGTH <= |content|
    && TotalsFit(p.profile, p.Totals())
    && Holds(Region(content, SuperOffset(p, g), SUPER_LENGTH), SuperFields(p.profile, p.Totals()), 17)
    && BlockAt(m.descriptors, bs) + DESCRIPTOR_LENGTH * p.Groups() <= |content|
    && TableHolds(Region(content, BlockAt(m.descriptors, bs), DESCRIPTOR_LENGTH * p.Groups()), p, p.Groups())
    && BlockAt(m.blockBitmap, bs) + bs <= |content|
    && GroupStart(g, p.profile.blocksPerGroup) <= |p.used|
    && BlockBits(Region(content, BlockAt(m.blockBitmap, bs), bs), GroupUsed(p.used, g, p.profile.blocksPerGroup), p.profile.blocksPerGroup)
    && BlockAt(m.inodeBitmap, bs) + bs <= |content|
    && InodeBits(Region(content, BlockAt(m.inodeBitmap, bs), bs), p.all, g, p.profile.inodesPerGroup)
  }

  /** The first `n` descriptors of a table. */
  ghost predicate TableHolds(table: bytes, p: Plan, n: nat)
    requires p.Fits() && n <= p.Groups()
  {
    forall k :: 0 <= k < n ==> DescriptorAt(table, k, p.Meta(k), p.Counts(k))
  }

  lemma {:induction false} TotalsInRange(p: Plan)
    requires p.Fits()
    ensures TotalsFit(p.profile, p.Totals())
  {
    hide Pow2, Numbered, MetaBlocks, LastGroupBlocks, DivCeil, Count;
    BlockSizeBound(p.log);
  }

  lemma {:induction false} BlockSizeBound(log: nat)
    requires log <= MAX_LOG
    ensures 1024 * Pow2(log) <= 0x10_0000
  {
    Pow2Monotone(log, MAX_LOG);
    assert Pow2(5) == 32;
  }

  lemma {:induction false} Pow2Monotone(a: nat, b: nat)
    requires a <= b
    ensures Pow2(a) <= Pow2(b)
  {
    if a < b {
      Pow2Monotone(a, b - 1);
    }
  }

  lemma {:induction false} FitsSane(p: Plan)
    requires p.Fits()
    ensures Sane(p.profile) && p.profile.blocksPerGroup > 0
  {
  }

  // ---- The descriptor table --------------------------------------------------------------------------------

  lemma {:induction false} TableGrows(before: bytes, after: bytes, p: Plan, k: nat)
    requires p.Fits() && k < p.Groups() && |before| == |after| == DESCRIPTOR_LENGTH * p.Groups() && TableHolds(before, p, k)
    requires OnlyRegion(before, after, DESCRIPTOR_LENGTH * k, DESCRIPTOR_LENGTH)
    requires GroupFits(p.Meta(k))
    requires Holds(Region(after, DESCRIPTOR_LENGTH * k, DESCRIPTOR_LENGTH), DescriptorFields(0, p.Meta(k), p.Counts(k)), 6)
    ensures TableHolds(after, p, k + 1)
  {
    FitsSane(p);
    hide Plan.Fits, Plan.Groups, Plan.Meta, Plan.Counts, Le16, Le32, OnlyRegion;
    forall j | 0 <= j < k + 1
      ensures DescriptorAt(after, j, p.Meta(j), p.Counts(j))
    {
      if j < k {
        DescriptorKept(before, after, k, j, p.Meta(j), p.Counts(j));
      } else {
        DescriptorMoved(after, k, p.Meta(k), p.Counts(k));
      }
    }
  }

  lemma {:induction false} DescriptorKept(before: bytes, after: bytes, k: nat, j: nat, m: GroupMeta, c: GroupCounts)
    requires j < k && DescriptorAt(before, j, m, c) && |after| == |before| && DESCRIPTOR_LENGTH * k + DESCRIPTOR_LENGTH <= |before|
    requires OnlyRegion(before, after, DESCRIPTOR_LENGTH * k, DESCRIPTOR_LENGTH)
    ensures DescriptorAt(after, j, m, c)
  {
    var fields := DescriptorFields(DESCRIPTOR_LENGTH * j, m, c);
    forall i | 0 <= i < 6
      ensures HasAt(after, fields[i].at, fields[i].data)
    {
      DescriptorFits(j, m, c, DESCRIPTOR_LENGTH * k);
      assert HasAt(before, fields[i].at, fields[i].data);
      FieldFits(fields, DESCRIPTOR_LENGTH * k, i);
      hide DescriptorFields;
      OutsideRegion(before, after, DESCRIPTOR_LENGTH * k, DESCRIPTOR_LENGTH, fields[i].at, |fields[i].data|);
    }
  }

  /** Six fields in a descriptor's own bytes are the descriptor in the table. */
  lemma {:induction false} DescriptorMoved(table: bytes, k: nat, m: GroupMeta, c: GroupCounts)
    requires GroupFits(m) && DESCRIPTOR_LENGTH * k + DESCRIPTOR_LENGTH <= |table|
    requires Holds(Region(table, DESCRIPTOR_LENGTH * k, DESCRIPTOR_LENGTH), DescriptorFields(0, m, c), 6)
    ensures DescriptorAt(table, k, m, c)
  {
    hide Le16, Le32;
    var at, own := DESCRIPTOR_LENGTH * k, Region(table, DESCRIPTOR_LENGTH * k, DESCRIPTOR_LENGTH);
    var here, there := DescriptorFields(0, m, c), DescriptorFields(at, m, c);
    forall i | 0 <= i < 6
      ensures HasAt(table, there[i].at, there[i].data)
    {
      assert HasAt(own, here[i].at, here[i].data);
      assert there[i].at == at + here[i].at && there[i].data == here[i].data;
      hide DescriptorFields;
      HasAtPart(table, at, own, here[i].at, here[i].data);
    }
  }

  /** One descriptor: the three blocks and the counters of group `k`. */
  method WriteDescriptor(image: File, at: nat, p: Plan, used: array<bool>, k: nat)
    requires p.Fits() && used[..] == p.used && k < p.Groups()
    requires at + DESCRIPTOR_LENGTH <= |image.content|
    modifies image
    ensures OnlyRegion(old(image.content), image.content, at, DESCRIPTOR_LENGTH)
    ensures GroupFits(p.Meta(k))
    ensures Holds(Region(image.content, at, DESCRIPTOR_LENGTH), DescriptorFields(0, p.Meta(k), p.Counts(k)), 6)
  {
    FitsSane(p);
    GroupFacts(p, used[..], k);
    hide *;
    var m := p.Meta(k);
    var start := GroupStart(k, p.profile.blocksPerGroup);
    var end := GroupEnd(k, p.profile.blocksPerGroup, p.total);
    var free := CountFreeBlocks(used, start, end);
    var nodes, dirs := CountGroupNodes(p.all, k, p.profile.inodesPerGroup);
    var taken: nat := nodes + if k == 0 then RESERVED_UNNAMED else 0;
    var counts := GroupCounts(free, if p.profile.inodesPerGroup >= taken then p.profile.inodesPerGroup - taken else 0, dirs);
    CountsAre(p, k, counts, taken);
    FieldsInDescriptor(m, counts);
    PutAll(image, at, DESCRIPTOR_LENGTH, DescriptorFields(0, m, counts));
  }

  lemma {:induction false} FieldsInDescriptor(m: GroupMeta, counts: GroupCounts)
    requires GroupFits(m)
    ensures FieldsFit(DescriptorFields(0, m, counts), DESCRIPTOR_LENGTH)
  {
    DescriptorFits(0, m, counts, DESCRIPTOR_LENGTH);
  }

  lemma {:induction false} GroupFacts(p: Plan, used: seq<bool>, k: nat)
    requires p.Fits() && used == p.used && k < p.Groups()
    ensures Sane(p.profile) && GroupFits(p.Meta(k)) && p.total == |used|
    ensures GroupStart(k, p.profile.blocksPerGroup) <= GroupEnd(k, p.profile.blocksPerGroup, p.total) <= |used|
    ensures GroupEnd(k, p.profile.blocksPerGroup, p.total) - GroupStart(k, p.profile.blocksPerGroup) <= p.profile.blocksPerGroup
    ensures used[GroupStart(k, p.profile.blocksPerGroup)..GroupEnd(k, p.profile.blocksPerGroup, p.total)]
         == GroupUsed(p.used, k, p.profile.blocksPerGroup)
    ensures Numbered(p.all) && forall i :: 0 <= i < |p.all| ==> p.all[i].nid > 0
    ensures p.profile.blocksPerGroup <= 8 * p.profile.blockSize && 0 < p.profile.inodesPerGroup <= 8 * p.profile.blockSize
    ensures p.profile.blockSize >= 4096
  {
    PartsOfHead(p, k);
    p.StartInside(k);
  }

  lemma {:induction false} CountsAre(p: Plan, k: nat, counts: GroupCounts, taken: nat)
    requires p.Fits() && k < p.Groups() && GroupStart(k, p.profile.blocksPerGroup) <= |p.used|
    requires counts.freeBlocks == GroupEnd(k, p.profile.blocksPerGroup, p.total) - GroupStart(k, p.profile.blocksPerGroup)
                                  - Count(GroupUsed(p.used, k, p.profile.blocksPerGroup))
    requires taken == NodesIn(p.all, k, p.profile.inodesPerGroup) + if k == 0 then RESERVED_UNNAMED else 0
    requires counts.freeInodes == if p.profile.inodesPerGroup >= taken then p.profile.inodesPerGroup - taken else 0
    requires counts.dirs == DirsIn(p.all, k, p.profile.inodesPerGroup)
    ensures counts == p.Counts(k)
  {
    hide Pow2, Numbered, MetaBlocks, LastGroupBlocks, DivCeil, Count, NodesIn, DirsIn;
    p.StartInside(k);
  }

  /** The whole table, in the bytes from `base` on. */
  method WriteDescriptors(image: File, base: nat, p: Plan, used: array<bool>)
    requires p.Fits() && used[..] == p.used && base + DESCRIPTOR_LENGTH * p.Groups() <= |image.content|
    modifies image
    ensures OnlyRegion(old(image.content), image.content, base, DESCRIPTOR_LENGTH * p.Groups())
    ensures TableHolds(Region(image.content, base, DESCRIPTOR_LENGTH * p.Groups()), p, p.Groups())
  {
    FitsSane(p);
    hide Plan.Fits, Plan.Groups, TableHolds, Holds, DescriptorFields, GroupFits, Region, OnlyRegion, Sane;
    ghost var len := DESCRIPTOR_LENGTH * p.Groups();
    TableStarts(image.content, base, p);
    for k := 0 to p.Groups()
      invariant OnlyRegion(old(image.content), image.content, base, len) && |image.content| == |old(image.content)|
      invariant TableHolds(Region(image.content, base, len), p, k)
    {
      ghost var before := image.content;
      WriteDescriptor(image, base + DESCRIPTOR_LENGTH * k, p, used, k);
      DescriptorInTable(old(image.content), before, image.content, base, p, k);
    }
  }

  lemma {:induction false} TableStarts(content: bytes, base: nat, p: Plan)
    requires p.Fits() && base + DESCRIPTOR_LENGTH * p.Groups() <= |content|
    ensures OnlyRegion(content, content, base, DESCRIPTOR_LENGTH * p.Groups())
    ensures TableHolds(Region(content, base, DESCRIPTOR_LENGTH * p.Groups()), p, 0)
  {
    FitsSane(p);
    hide Plan.Fits;
  }

  lemma {:induction false} DescriptorInTable(start: bytes, before: bytes, after: bytes, base: nat, p: Plan, k: nat)
    requires p.Fits() && k < p.Groups() && base + DESCRIPTOR_LENGTH * p.Groups() <= |start| == |before|
    requires OnlyRegion(start, before, base, DESCRIPTOR_LENGTH * p.Groups())
    requires TableHolds(Region(before, base, DESCRIPTOR_LENGTH * p.Groups()), p, k)
    requires OnlyRegion(before, after, base + DESCRIPTOR_LENGTH * k, DESCRIPTOR_LENGTH)
    requires GroupFits(p.Meta(k))
    requires |after| == |before| ==>
               Holds(Region(after, base + DESCRIPTOR_LENGTH * k, DESCRIPTOR_LENGTH), DescriptorFields(0, p.Meta(k), p.Counts(k)), 6)
    ensures |after| == |start|
    ensures OnlyRegion(start, after, base, DESCRIPTOR_LENGTH * p.Groups())
    ensures TableHolds(Region(after, base, DESCRIPTOR_LENGTH * p.Groups()), p, k + 1)
  {
    FitsSane(p);
    hide Plan.Fits, Plan.Groups, Plan.Meta, Plan.Counts, TableHolds, Holds, DescriptorFields, GroupFits;
    RegionInRegion(before, after, base, DESCRIPTOR_LENGTH * p.Groups(), DESCRIPTOR_LENGTH * k, DESCRIPTOR_LENGTH);
    OnlyRegionTwice(start, before, after, base, DESCRIPTOR_LENGTH * p.Groups());
    TableGrows(Region(before, base, DESCRIPTOR_LENGTH * p.Groups()), Region(after, base, DESCRIPTOR_LENGTH * p.Groups()), p, k);
  }

  // ---- One group -------------------------------------------------------------------------------------------

  /** The image has its final size, and the metadata of group `g` in front of the inode table is still zero. */
  ghost predicate HeadClear(content: bytes, p: Plan, g: nat)
    requires Sane(p.profile)
  {
    var head := HeadSpan(p, g);
    && head.from <= head.until <= |content|
    && Region(content, head.from, head.until - head.from) == Zeros(head.until - head.from)
  }

  lemma {:induction false} PartClear(content: bytes, base: nat, len: nat, from: nat, n: nat)
    requires base + len <= |content| && Region(content, base, len) == Zeros(len)
    requires base <= from && from + n <= base + len
    ensures Region(content, from, n) == Zeros(n)
  {
    forall i | from <= i < from + n
      ensures content[i] == 0
    {
      assert content[i] == Region(content, base, len)[i - base];
    }
  }

  /** One round of the metadata loop. */
  method WriteGroup(image: File, p: Plan, used: array<bool>, g: nat)
    requires p.Fits() && used[..] == p.used && g < p.Groups()
    requires |image.content| == BlockAt(p.total, p.profile.blockSize) && HeadClear(image.content, p, g)
    modifies image
    ensures OnlyWithin(old(image.content), image.content, [HeadSpan(p, g)])
    ensures GroupOnDisk(image.content, p, g)
  {
    FitsSane(p);
    GroupFacts(p, used[..], g);
    TotalsInRange(p);
    PartsOfHead(p, g);
    hide *;
    ghost var s0 := image.content;
    GroupStarts(s0, p, g);
    var bs, m := p.profile.blockSize, p.Meta(g);
    WriteSuper(image, SuperOffset(p, g), p.profile, p.Totals());
    ghost var s1 := image.content;
    StepOne(s0, s1, p, g);
    WriteDescriptors(image, BlockAt(m.descriptors, bs), p, used);
    ghost var s2 := image.content;
    StepTwo(s0, s1, s2, p, g);
    var start := GroupStart(g, p.profile.blocksPerGroup);
    var end := GroupEnd(g, p.profile.blocksPerGroup, p.total);
    WriteBlockBitmap(image, BlockAt(m.blockBitmap, bs), bs, used, start, end, p.profile.blocksPerGroup);
    ghost var s3 := image.content;
    StepThree(s0, s2, s3, p, g);
    WriteInodeBitmap(image, BlockAt(m.inodeBitmap, bs), bs, p.all, g, p.profile.inodesPerGroup);
    StepFour(s0, s3, image.content, p, g);
  }

  ghost predicate SuperThere(content: bytes, p: Plan, g: nat)
    requires Sane(p.profile)
  {
    && SuperOffset(p, g) + SUPER_LENGTH <= |content| && TotalsFit(p.profile, p.Totals())
    && Holds(Region(content, SuperOffset(p, g), SUPER_LENGTH), SuperFields(p.profile, p.Totals()), 17)
  }

  ghost predicate TableThere(content: bytes, p: Plan, g: nat)
    requires p.Fits()
  {
    var at := BlockAt(p.Meta(g).descriptors, p.profile.blockSize);
    && at + DESCRIPTOR_LENGTH * p.Groups() <= |content|
    && TableHolds(Region(content, at, DESCRIPTOR_LENGTH * p.Groups()), p, p.Groups())
  }

  ghost predicate BlockBitmapThere(content: bytes, p: Plan, g: nat)
    requires Sane(p.profile)
  {
    var at, bs := BlockAt(p.Meta(g).blockBitmap, p.profile.blockSize), p.profile.blockSize;
    && at + bs <= |content| && GroupStart(g, p.profile.blocksPerGroup) <= |p.used|
    && BlockBits(Region(content, at, bs), GroupUsed(p.used, g, p.profile.blocksPerGroup), p.profile.blocksPerGroup)
  }

  ghost predicate InodeBitmapThere(content: bytes, p: Plan, g: nat)
    requires Sane(p.profile)
  {
    var at, bs := BlockAt(p.Meta(g).inodeBitmap, p.profile.blockSize), p.profile.blockSize;
    at + bs <= |content| && InodeBits(Region(content, at, bs), p.all, g, p.profile.inodesPerGroup)
  }

  /** The blocks of the two bitmaps are still zero. */
  ghost predicate BitmapsClear(content: bytes, p: Plan, g: nat, inodesOnly: bool)
    requires Sane(p.profile)
  {
    var b, i, bs := BlockAt(p.Meta(g).blockBitmap, p.profile.blockSize), BlockAt(p.Meta(g).inodeBitmap, p.profile.blockSize), p.profile.blockSize;
    && b + bs <= |content| && i + bs <= |content|
    && (inodesOnly || Region(content, b, bs) == Zeros(bs)) && Region(content, i, bs) == Zeros(bs)
  }

  lemma {:induction false} GroupStarts(s0: bytes, p: Plan, g: nat)
    requires p.Fits() && g < p.Groups() && HeadClear(s0, p, g) && |s0| == BlockAt(p.total, p.profile.blockSize)
    ensures BitmapsClear(s0, p, g, false)
    ensures SuperOffset(p, g) + SUPER_LENGTH <= |s0|
    ensures BlockAt(p.Meta(g).descriptors, p.profile.blockSize) + DESCRIPTOR_LENGTH * p.Groups() <= |s0|
  {
    PartsOfHead(p, g);
    hide BlockAt, SuperOffset, GroupMetaAt, Plan.Fits, Plan.Groups, Region;
    var head, bs := HeadSpan(p, g), p.profile.blockSize;
    PartClear(s0, head.from, head.until - head.from, BlockAt(p.Meta(g).blockBitmap, bs), bs);
    PartClear(s0, head.from, head.until - head.from, BlockAt(p.Meta(g).inodeBitmap, bs), bs);
  }

  lemma {:induction false} PartInHead(before: bytes, after: bytes, p: Plan, g: nat, from: nat, n: nat)
    requires Sane(p.profile) && OnlyRegion(before, after, from, n)
    requires HeadSpan(p, g).from <= from && from + n <= HeadSpan(p, g).until
    ensures OnlyWithin(before, after, [HeadSpan(p, g)]) && |after| == |before|
  {
    hide HeadSpan, OnlyWithin, OnlyRegion;
    InsideOne(Span(from, from + n), [HeadSpan(p, g)], 0);
    RegionWithin(before, after, from, n, [HeadSpan(p, g)]);
    OnlyRegionLength(before, after, from, n);
  }

  lemma {:induction false} StepOne(s0: bytes, s1: bytes, p: Plan, g: nat)
    requires p.Fits() && g < p.Groups() && BitmapsClear(s0, p, g, false) && TotalsFit(p.profile, p.Totals())
    requires OnlyRegion(s0, s1, SuperOffset(p, g), SUPER_LENGTH)
    requires |s1| == |s0| ==> Holds(Region(s1, SuperOffset(p, g), SUPER_LENGTH), SuperFields(p.profile, p.Totals()), 17)
    requires BlockAt(p.Meta(g).descriptors, p.profile.blockSize) + DESCRIPTOR_LENGTH * p.Groups() <= |s0|
    ensures OnlyWithin(s0, s1, [HeadSpan(p, g)]) && SuperThere(s1, p, g) && BitmapsClear(s1, p, g, false)
    ensures |s1| == |s0|
  {
    PartsOfHead(p, g);
    hide BlockAt, SuperOffset, GroupMetaAt, Plan.Fits, Plan.Groups, Region, Holds, Plan.Totals, TotalsFit, SuperFields, OnlyRegion, OnlyWithin;
    PartInHead(s0, s1, p, g, SuperOffset(p, g), SUPER_LENGTH);
    var bs := p.profile.blockSize;
    OutsideRegion(s0, s1, SuperOffset(p, g), SUPER_LENGTH, BlockAt(p.Meta(g).blockBitmap, bs), bs);
    OutsideRegion(s0, s1, SuperOffset(p, g), SUPER_LENGTH, BlockAt(p.Meta(g).inodeBitmap, bs), bs);
  }

  lemma {:induction false} StepTwo(s0: bytes, s1: bytes, s2: bytes, p: Plan, g: nat)
    requires p.Fits() && g < p.Groups() && BitmapsClear(s1, p, g, false) && SuperThere(s1, p, g)
    requires OnlyWithin(s0, s1, [HeadSpan(p, g)])
    requires OnlyRegion(s1, s2, BlockAt(p.Meta(g).descriptors, p.profile.blockSize), DESCRIPTOR_LENGTH * p.Groups())
    requires |s2| == |s1| ==> TableThere(s2, p, g)
    ensures OnlyWithin(s0, s2, [HeadSpan(p, g)]) && SuperThere(s2, p, g) && TableThere(s2, p, g) && BitmapsClear(s2, p, g, false)
  {
    PartsOfHead(p, g);
    hide BlockAt, SuperOffset, GroupMetaAt, Plan.Fits, Plan.Groups, Region, Holds, Plan.Totals, TotalsFit, SuperFields, OnlyRegion, OnlyWithin, TableThere;
    var bs, at, n := p.profile.blockSize, BlockAt(p.Meta(g).descriptors, p.profile.blockSize), DESCRIPTOR_LENGTH * p.Groups();
    PartInHead(s1, s2, p, g, at, n);
    WithinTwice(s0, s1, s2, [HeadSpan(p, g)]);
    OutsideRegion(s1, s2, at, n, SuperOffset(p, g), SUPER_LENGTH);
    OutsideRegion(s1, s2, at, n, BlockAt(p.Meta(g).blockBitmap, bs), bs);
    OutsideRegion(s1, s2, at, n, BlockAt(p.Meta(g).inodeBitmap, bs), bs);
  }

  lemma {:induction false} StepThree(s0: bytes, s2: bytes, s3: bytes, p: Plan, g: nat)
    requires p.Fits() && g < p.Groups() && BitmapsClear(s2, p, g, false) && SuperThere(s2, p, g) && TableThere(s2, p, g)
    requires OnlyWithin(s0, s2, [HeadSpan(p, g)])
    requires OnlyRegion(s2, s3, BlockAt(p.Meta(g).blockBitmap, p.profile.blockSize), p.profile.blockSize)
    requires |s3| == |s2| ==> BlockBitmapThere(s3, p, g)
    ensures OnlyWithin(s0, s3, [HeadSpan(p, g)]) && SuperThere(s3, p, g) && TableThere(s3, p, g) && BlockBitmapThere(s3, p, g)
    ensures BitmapsClear(s3, p, g, true)
  {
    PartsOfHead(p, g);
    hide BlockAt, SuperOffset, GroupMetaAt, Plan.Fits, Plan.Groups, Region, Holds, Plan.Totals, TotalsFit, SuperFields, OnlyRegion, OnlyWithin, TableHolds, BlockBitmapThere;
    var bs, at := p.profile.blockSize, BlockAt(p.Meta(g).blockBitmap, p.profile.blockSize);
    PartInHead(s2, s3, p, g, at, bs);
    WithinTwice(s0, s2, s3, [HeadSpan(p, g)]);
    OutsideRegion(s2, s3, at, bs, SuperOffset(p, g), SUPER_LENGTH);
    OutsideRegion(s2, s3, at, bs, BlockAt(p.Meta(g).descriptors, bs), DESCRIPTOR_LENGTH * p.Groups());
    OutsideRegion(s2, s3, at, bs, BlockAt(p.Meta(g).inodeBitmap, bs), bs);
  }

  lemma {:induction false} StepFour(s0: bytes, s3: bytes, s4: bytes, p: Plan, g: nat)
    requires p.Fits() && g < p.Groups() && SuperThere(s3, p, g) && TableThere(s3, p, g) && BlockBitmapThere(s3, p, g)
    requires OnlyWithin(s0, s3, [HeadSpan(p, g)])
    requires OnlyRegion(s3, s4, BlockAt(p.Meta(g).inodeBitmap, p.profile.blockSize), p.profile.blockSize)
    requires |s4| == |s3| ==> InodeBitmapThere(s4, p, g)
    ensures OnlyWithin(s0, s4, [HeadSpan(p, g)]) && GroupOnDisk(s4, p, g)
  {
    PartsOfHead(p, g);
    hide BlockAt, SuperOffset, GroupMetaAt, Plan.Fits, Plan.Groups, Region, Holds, Plan.Totals, TotalsFit, SuperFields, OnlyRegion, OnlyWithin, TableHolds, BlockBits, InodeBits;
    var bs, at := p.profile.blockSize, BlockAt(p.Meta(g).inodeBitmap, p.profile.blockSize);
    PartInHead(s3, s4, p, g, at, bs);
    WithinTwice(s0, s3, s4, [HeadSpan(p, g)]);
    OutsideRegion(s3, s4, at, bs, SuperOffset(p, g), SUPER_LENGTH);
    OutsideRegion(s3, s4, at, bs, BlockAt(p.Meta(g).descriptors, bs), DESCRIPTOR_LENGTH * p.Groups());
    OutsideRegion(s3, s4, at, bs, BlockAt(p.Meta(g).blockBitmap, bs), bs);
  }

  // ---- All groups ------------------------------------------------------------------------------------------

  ghost predicate GroupsOnDisk(content: bytes, p: Plan, n: nat)
    requires p.Fits() && n <= p.Groups()
  {
    forall g :: 0 <= g < n ==> GroupOnDisk(content, p, g)
  }

  function HeadSpans(p: Plan): (r: seq<Span>)
    requires Sane(p.profile)
    ensures |r| == p.Groups()
  {
    seq(p.Groups(), g requires 0 <= g < p.Groups() => HeadSpan(p, g))
  }

  ghost predicate HeadsClear(content: bytes, p: Plan, from: nat)
    requires Sane(p.profile)
  {
    forall g :: from <= g < p.Groups() ==> HeadClear(content, p, g)
  }

  /** The metadata loop of `rebuild_groups_to`. */
  method WriteMetadata(image: File, p: Plan, used: array<bool>)
    requires p.Fits() && used[..] == p.used
    requires |image.content| == BlockAt(p.total, p.profile.blockSize) && HeadsClear(image.content, p, 0)
    modifies image
    ensures OnlyWithin(old(image.content), image.content, HeadSpans(p))
    ensures GroupsOnDisk(image.content, p, p.Groups())
  {
    FitsSane(p);
    hide *;
    ghost var before := image.content;
    MetadataStarts(before, p);
    for g := 0 to p.Groups()
      invariant |image.content| == |before| && OnlyWithin(before, image.content, HeadSpans(p))
      invariant GroupsOnDisk(image.content, p, g) && HeadsClear(image.content, p, g)
    {
      ghost var now := image.content;
      HeadClearAt(now, p, g);
      WriteGroup(image, p, used, g);
      GroupDone(before, now, image.content, p, g);
    }
  }

  lemma {:induction false} MetadataStarts(content: bytes, p: Plan)
    requires p.Fits()
    ensures OnlyWithin(content, content, HeadSpans(p)) && GroupsOnDisk(content, p, 0)
  {
    FitsSane(p);
    hide Plan.Fits;
  }

  lemma {:induction false} HeadClearAt(content: bytes, p: Plan, g: nat)
    requires Sane(p.profile) && HeadsClear(content, p, g) && g < p.Groups()
    ensures HeadClear(content, p, g)
  {
    hide HeadClear;
  }

  /** The metadata of different groups lies apart. */
  lemma {:induction false} HeadsApart(p: Plan, g: nat, h: nat)
    requires p.Fits() && g < h < p.Groups()
    ensures HeadSpan(p, g).until <= HeadSpan(p, h).from
  {
    var q, bs := p.profile, p.profile.blockSize;
    hide DivCeil, DescriptorBlocks, TableBlocks, MetaBlocks, LastGroupBlocks, Pow2;
    GroupRoom(p.total, q.blocksPerGroup, g);
    MetaParts(q, p.Groups());
    MulMonotone(g + 1, h, q.blocksPerGroup);
    MulDistributes(g, 1, q.blocksPerGroup);
    MulMonotone(p.Meta(g).inodeTable, p.Meta(h).super, bs);
  }

  lemma {:induction false} HeadApartAny(p: Plan, g: nat, h: nat)
    requires p.Fits() && g < p.Groups() && h < p.Groups() && g != h
    ensures SpansApart(HeadSpan(p, g), HeadSpan(p, h))
  {
    hide HeadSpan, Plan.Fits, Plan.Groups;
    if g < h {
      HeadsApart(p, g, h);
    } else {
      HeadsApart(p, h, g);
    }
  }

  lemma {:induction false} SubRegionKept(before: bytes, after: bytes, spans: seq<Span>, whole: Span, base: nat, len: nat)
    requires OnlyWithin(before, after, spans) && base + len <= |before|
    requires forall k :: 0 <= k < |spans| ==> SpansApart(whole, spans[k])
    requires whole.from <= base && base + len <= whole.until
    ensures Region(after, base, len) == Region(before, base, len)
  {
    hide Region, OnlyWithin;
    RegionKept(before, after, spans, base, len);
  }

  /** A group's metadata survives writes elsewhere. */
  lemma {:induction false} GroupKept(before: bytes, after: bytes, p: Plan, g: nat, spans: seq<Span>)
    requires p.Fits() && g < p.Groups() && GroupOnDisk(before, p, g) && OnlyWithin(before, after, spans)
    requires forall k :: 0 <= k < |spans| ==> SpansApart(HeadSpan(p, g), spans[k])
    ensures GroupOnDisk(after, p, g)
  {
    PartsOfHead(p, g);
    assert |after| == |before|;
    hide BlockAt, SuperOffset, GroupMetaAt, Plan.Fits, Plan.Groups, Region, Holds, Plan.Totals, TotalsFit, SuperFields, OnlyWithin, TableHolds, BlockBits, InodeBits, SpansApart;
    var bs, m, head := p.profile.blockSize, p.Meta(g), HeadSpan(p, g);
    SubRegionKept(before, after, spans, head, SuperOffset(p, g), SUPER_LENGTH);
    SubRegionKept(before, after, spans, head, BlockAt(m.descriptors, bs), DESCRIPTOR_LENGTH * p.Groups());
    SubRegionKept(before, after, spans, head, BlockAt(m.blockBitmap, bs), bs);
    SubRegionKept(before, after, spans, head, BlockAt(m.inodeBitmap, bs), bs);
  }

  lemma {:induction false} GroupDone(before: bytes, now: bytes, after: bytes, p: Plan, g: nat)
    requires p.Fits() && g < p.Groups() && |now| == |before| && OnlyWithin(before, now, HeadSpans(p))
    requires GroupsOnDisk(now, p, g) && HeadsClear(now, p, g)
    requires OnlyWithin(now, after, [HeadSpan(p, g)]) && GroupOnDisk(after, p, g)
    ensures |after| == |before| && OnlyWithin(before, after, HeadSpans(p))
    ensures GroupsOnDisk(after, p, g + 1) && HeadsClear(after, p, g + 1)
  {
    FitsSane(p);
    hide Plan.Fits, Plan.Groups, HeadSpan, GroupOnDisk, InSpans, SpansApart, Sane, Region;
    var spans := [HeadSpan(p, g)];
    assert HeadSpans(p)[g] == HeadSpan(p, g);
    InsideOne(HeadSpan(p, g), HeadSpans(p), g);
    WithinWider(now, after, spans, HeadSpans(p));
    WithinTwice(before, now, after, HeadSpans(p));
    forall h | 0 <= h < g + 1
      ensures GroupOnDisk(after, p, h)
    {
      if h < g {
        HeadApartAny(p, h, g);
        GroupKept(now, after, p, h, spans);
      }
    }
    forall h | g + 1 <= h < p.Groups()
      ensures HeadClear(after, p, h)
    {
      HeadApartAny(p, h, g);
      assert HeadClear(now, p, h);
      var head := HeadSpan(p, h);
      SubRegionKept(now, after, spans, head, head.from, head.until - head.from);
    }
  }
}
