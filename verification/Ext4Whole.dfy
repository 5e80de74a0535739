/** A whole ext4 image: layout, metadata and nodes together, with or without shared blocks. */
module Ext4Whole {
  import opened Core
  import opened Arith
  import opened OutFile
  import opened Spans
  import opened Bitmaps
  import opened Ext4Plan
  import opened Ext4Alloc
  import opened Ext4Build
  import opened Ext4Extents
  import opened Ext4Inode
  import opened Ext4Content
  import opened Ext4Image
  import opened Ext4Super
  import opened Ext4Accounting
  import opened Ext4Groups
  import opened Ext4Owners
  import opened Ext4Footprints
  import opened Ext4SharedLayout
  import S = Ext4Shared
  import T = Ext4Tree
  import D = Ext4Dir

  /** A finished image: all metadata and all nodes are there. */
  ghost predicate Built(content: bytes, p: Plan, layout: Layout) {
    && Buildable(p, layout) && Placeable(p, layout) && |content| == ImageSize(p)
    && GroupsOnDisk(content, p, p.Groups())
    && AllOnDisk(content, Placements(p, layout), p.profile.blockSize, p.profile.inodeSize, |p.all|)
  }

  // ---- Before the metadata ---------------------------------------------------------------------------------

  /** All metadata blocks are zero; with sharing the files are on the image. */
  ghost predicate Prepared(content: bytes, p: Plan, layout: Layout)
    requires Placeable(p, layout)
  {
    && |content| == ImageSize(p) && MetaZero(content, p)
    && forall i :: 0 <= i < |p.all| ==> InPlace(content, PlacementAt(p, layout, i), p.shared, p.profile.blockSize)
  }

  ghost predicate MetaZero(content: bytes, p: Plan)
    requires Sane(p.profile)
  {
    forall g :: 0 <= g < p.Groups() ==> ZeroSpan(content, MetaSpan(p, g))
  }

  ghost predicate ZeroSpan(content: bytes, s: Span) {
    s.from <= s.until <= |content| && Region(content, s.from, s.until - s.from) == Zeros(s.until - s.from)
  }

  lemma {:induction false} ZeroPart(content: bytes, s: Span, from: nat, n: nat)
    requires ZeroSpan(content, s) && s.from <= from && from + n <= s.until
    ensures Region(content, from, n) == Zeros(n)
  {
    PartClear(content, s.from, s.until - s.from, from, n);
  }

  lemma {:induction false} PlainPrepared(p: Plan, layout: Layout)
    requires p.Fits() && Placeable(p, layout) && !p.shared
    ensures Prepared(Zeros(ImageSize(p)), p, layout)
  {
    hide Plan.Fits, Plan.Groups, MetaSpan, SlotOf, NodesFit, FileOnDisk;
    var content := Zeros(ImageSize(p));
    forall g | 0 <= g < p.Groups()
      ensures ZeroSpan(content, MetaSpan(p, g))
    {
      HeadFirst(p, g);
    }
  }

  lemma {:induction false} SharedPrepared(content: bytes, p: Plan, layout: Layout)
    requires p.Fits() && Buildable(p, layout) && Placeable(p, layout) && p.shared
    requires SharedData(content, p.profile, p.total, SharedNodes(p.all, p.profile.blockSize), layout.files)
    ensures Prepared(content, p, layout)
  {
    hide Plan.Fits, Plan.Groups, MetaSpan, NodesFit, FileOnDisk, InPlace, MetaBlank, PlacementAt, SharedNodeOf, Buildable, NodeFits;
    forall g | 0 <= g < p.Groups()
      ensures ZeroSpan(content, MetaSpan(p, g))
    {
      HeadFirst(p, g);
      MetaSpanZero(content, p, g);
    }
    var nodes := SharedNodes(p.all, p.profile.blockSize);
    forall i | 0 <= i < |p.all|
      ensures p.all[i].nid > 0 && NodeFits(p.all[i], p.profile.blockSize)
      ensures InPlace(content, PlacementAt(p, layout, i), p.shared, p.profile.blockSize)
    {
      PlacementSlot(p, layout, i);
      assert nodes[i] == SharedNodeOf(p.all[i], p.profile.blockSize);
      SharedInPlace(content, p, layout, i);
    }
  }

  lemma {:induction false} SharedInPlace(content: bytes, p: Plan, layout: Layout, i: nat)
    requires Buildable(p, layout) && Placeable(p, layout) && i < |p.all| && p.shared
    requires NodeFits(p.all[i], p.profile.blockSize) && p.all[i].nid > 0
    requires var node := SharedNodeOf(p.all[i], p.profile.blockSize);
             node.Shared? ==> FileOnDisk(content, p.profile.blockSize, layout.files[i], node.content)
    ensures InPlace(content, PlacementAt(p, layout, i), p.shared, p.profile.blockSize)
  {
    SharedLaidOutNode(p, layout, i);
    hide Buildable, SlotOf, NodeFits, NodesFit, AttributesOf, BytesOf, Inline;
    var node := SharedNodeOf(p.all[i], p.profile.blockSize);
    if node == S.Own(0) {
      EmptyFile(content, layout.files[i], p.total, p.profile.blockSize);
    }
  }

  lemma {:induction false} EmptyFile(content: bytes, extents: seq<Extent>, total: nat, blockSize: nat)
    requires blockSize > 0 && S.NodeShaped(S.Own(0), extents, total, blockSize)
    ensures FileOnDisk(content, blockSize, extents, [])
  {
    DivCeilUnique(0, 0, blockSize);
    MapsBelow(extents, 0);
  }

  /** Every byte of a group's metadata lies in a metadata block. */
  lemma {:induction false} MetaSpanZero(content: bytes, p: Plan, g: nat)
    requires p.Fits() && Sane(p.profile) && g < p.Groups() && MetaBlank(content, p.profile, p.total)
    requires |content| == p.total * p.profile.blockSize
    requires MetaSpan(p, g).from <= MetaSpan(p, g).until <= |content|
    ensures ZeroSpan(content, MetaSpan(p, g))
  {
    MetaFitsGroup(p, g);
    var bs, run := p.profile.blockSize, MetaRun(g, p.profile.blocksPerGroup, MetaOf(p));
    hide Plan.Fits, Plan.Groups, IsMeta, MetaOf;
    var s := MetaSpan(p, g);
    forall q | s.from <= q < s.until
      ensures content[q] == 0
    {
      S.BlockBetween(q, run.start, run.start + run.length, bs);
      S.BlockBetween(q, 0, p.total, bs);
      MetaIsMeta(g, p.profile.blocksPerGroup, MetaOf(p), q / bs);
      MetaByteZero(content, p, q);
    }
  }

  lemma {:induction false} MetaByteZero(content: bytes, p: Plan, q: nat)
    requires Sane(p.profile) && MetaBlank(content, p.profile, p.total) && q < |content|
    requires q / p.profile.blockSize < p.total && IsMeta(q / p.profile.blockSize, p.profile.blocksPerGroup, MetaOf(p))
    ensures content[q] == 0
  {
    var bs, b := p.profile.blockSize, q / p.profile.blockSize;
    assert S.BlankBlock(content, bs, b);
    hide IsMeta, MetaBlank, MetaBlocks;
    assert q == b * bs + q % bs;
    assert content[q] == Region(content, b * bs, bs)[q % bs];
  }

  lemma {:induction false} HeadsAreClear(content: bytes, p: Plan)
    requires p.Fits() && Sane(p.profile) && |content| == ImageSize(p) && MetaZero(content, p)
    ensures HeadsClear(content, p, 0)
  {
    hide Plan.Fits, Plan.Groups, HeadSpan, MetaSpan, ZeroSpan;
    forall g | 0 <= g < p.Groups()
      ensures HeadClear(content, p, g)
    {
      HeadFirst(p, g);
      ZeroPart(content, MetaSpan(p, g), HeadSpan(p, g).from, HeadSpan(p, g).until - HeadSpan(p, g).from);
    }
  }

  /** After the metadata the inode slots are still zero, and the files are still there. */
  lemma {:induction false} StaysPrepared(p: Plan, layout: Layout, before: bytes, after: bytes)
    requires Buildable(p, layout) && Placeable(p, layout) && Prepared(before, p, layout)
    requires OnlyWithin(before, after, HeadSpans(p))
    ensures SlotsClear(after, Placements(p, layout), p.profile.inodeSize, 0)
    ensures AllInPlace(after, Placements(p, layout), p.shared, p.profile.blockSize, 0)
  {
    var nodes, size := Placements(p, layout), p.profile.inodeSize;
    hide Buildable, Placeable, OnlyWithin, HeadSpans, MetaZero, PlacementAt, InPlace, SlotClear;
    forall i | 0 <= i < |nodes|
      ensures SlotClear(after, nodes[i], size) && InPlace(after, nodes[i], p.shared, p.profile.blockSize)
    {
      SlotStaysClear(p, layout, before, after, i);
      FileStaysInPlace(p, layout, before, after, i);
    }
  }

  lemma {:induction false} SlotStaysClear(p: Plan, layout: Layout, before: bytes, after: bytes, i: nat)
    requires Buildable(p, layout) && Placeable(p, layout) && |before| == ImageSize(p) && i < |p.all|
    requires MetaZero(before, p) && OnlyWithin(before, after, HeadSpans(p))
    ensures SlotClear(after, PlacementAt(p, layout, i), p.profile.inodeSize)
  {
    hide *;
    BuildableFits(p, layout);
    PlacementSlot(p, layout, i);
    SlotOffHeads(p, i);
    SlotZero(before, p, i);
    StillClear(before, after, HeadSpans(p), PlacementAt(p, layout, i), p.profile.inodeSize);
  }

  lemma {:induction false} SlotZero(content: bytes, p: Plan, i: nat)
    requires p.Fits() && Sane(p.profile) && i < |p.all| && p.all[i].nid > 0 && MetaZero(content, p) && |content| == ImageSize(p)
    requires |p.all| + RESERVED_UNNAMED <= p.Groups() * p.profile.inodesPerGroup
    ensures SlotOf(p, i) + p.profile.inodeSize <= |content|
    ensures Region(content, SlotOf(p, i), p.profile.inodeSize) == Zeros(p.profile.inodeSize)
  {
    hide Plan.Fits, Plan.Groups, SlotOf, HeadSpan, MetaSpan, ZeroSpan, GroupOf;
    SlotInTable(p, i);
    var g := GroupOf(p.all[i].nid, p.profile.inodesPerGroup);
    HeadFirst(p, g);
    ZeroPart(content, MetaSpan(p, g), SlotOf(p, i), p.profile.inodeSize);
  }

  lemma {:induction false} FileStaysInPlace(p: Plan, layout: Layout, before: bytes, after: bytes, i: nat)
    requires Buildable(p, layout) && Placeable(p, layout) && i < |p.all|
    requires InPlace(before, PlacementAt(p, layout, i), p.shared, p.profile.blockSize) && OnlyWithin(before, after, HeadSpans(p))
    ensures InPlace(after, PlacementAt(p, layout, i), p.shared, p.profile.blockSize)
  {
    LayoutOwners(p, layout);
    assert Ready(p, layout) && p.profile.blocksPerGroup > 0;
    hide Buildable, Placeable, Ready, Plan.Fits, Plan.Groups, HeadSpan, PlacementAt, Footprint, InPlace, OnlyWithin, DataSpans, SpansApart;
    var n, bs := PlacementAt(p, layout, i), p.profile.blockSize;
    forall g | 0 <= g < p.Groups()
      ensures Apart(DataSpans(n.extents, bs), [HeadSpan(p, g)])
    {
      HeadOffFootprint(p, layout, g, i);
    }
    ApartFromAll(DataSpans(n.extents, bs), p);
    InPlaceKept(before, after, n, p.shared, bs, HeadSpans(p));
  }

  lemma {:induction false} ApartFromAll(spans: seq<Span>, p: Plan)
    requires Sane(p.profile) && forall g :: 0 <= g < p.Groups() ==> Apart(spans, [HeadSpan(p, g)])
    ensures Apart(spans, HeadSpans(p))
  {
    hide SpansApart, HeadSpan, Plan.Groups;
    forall i, g | 0 <= i < |spans| && 0 <= g < p.Groups()
      ensures SpansApart(spans[i], HeadSpans(p)[g])
    {
      assert Apart(spans, [HeadSpan(p, g)]) && [HeadSpan(p, g)][0] == HeadSpan(p, g);
    }
  }

  lemma {:induction false} BuildableFits(p: Plan, layout: Layout)
    requires Buildable(p, layout)
    ensures p.Fits() && Sane(p.profile) && |p.all| + RESERVED_UNNAMED <= p.Groups() * p.profile.inodesPerGroup
  {
    hide Plan.Groups, NodesFit, LaidOut, FileNodes;
  }

  lemma {:induction false} SlotOffHeads(p: Plan, i: nat)
    requires p.Fits() && Sane(p.profile) && i < |p.all| && p.all[i].nid > 0
    requires |p.all| + RESERVED_UNNAMED <= p.Groups() * p.profile.inodesPerGroup
    ensures SlotOf(p, i) + p.profile.inodeSize <= ImageSize(p)
    ensures forall g :: 0 <= g < |HeadSpans(p)| ==>
              SpansApart(Span(SlotOf(p, i), SlotOf(p, i) + p.profile.inodeSize), HeadSpans(p)[g])
  {
    hide Plan.Fits, Plan.Groups, SlotOf, HeadSpan, SpansApart, MetaSpan, GroupOf;
    SlotInTable(p, i);
    HeadFirst(p, GroupOf(p.all[i].nid, p.profile.inodesPerGroup));
    forall g | 0 <= g < p.Groups()
      ensures SpansApart(Span(SlotOf(p, i), SlotOf(p, i) + p.profile.inodeSize), HeadSpans(p)[g])
    {
      SlotOffHead(p, i, g);
    }
  }

  lemma {:induction false} PlacementSlot(p: Plan, layout: Layout, i: nat)
    requires Placeable(p, layout) && i < |p.all|
    ensures Sane(p.profile) && p.all[i].nid > 0 && NodeFits(p.all[i], p.profile.blockSize)
    ensures |layout.files| == |layout.trees| == |p.all|
    ensures PlacementAt(p, layout, i).slot == SlotOf(p, i)
  {
    hide SlotOf, BytesOf, AttributesOf, NodeFits;
  }

  lemma {:induction false} StillClear(before: bytes, after: bytes, spans: seq<Span>, n: Placement, inodeSize: nat)
    requires OnlyWithin(before, after, spans) && n.slot + inodeSize <= |before|
    requires Region(before, n.slot, inodeSize) == Zeros(inodeSize)
    requires forall k :: 0 <= k < |spans| ==> SpansApart(Span(n.slot, n.slot + inodeSize), spans[k])
    ensures SlotClear(after, n, inodeSize)
  {
    hide InSpans, Region;
    RegionKept(before, after, spans, n.slot, inodeSize);
  }

  // ---- After the nodes -------------------------------------------------------------------------------------

  /** The metadata survives the nodes. */
  lemma {:induction false} MetadataStays(p: Plan, layout: Layout, before: bytes, after: bytes)
    requires Buildable(p, layout) && Placeable(p, layout) && GroupsOnDisk(before, p, p.Groups())
    requires |before| == ImageSize(p)
    requires OnlyFootprints(before, after, Placements(p, layout), p.shared, p.profile.blockSize, p.profile.inodeSize)
    ensures GroupsOnDisk(after, p, p.Groups())
  {
    hide GroupOnDisk, PlacementAt, OnlyFootprints;
    forall g | 0 <= g < p.Groups()
      ensures GroupOnDisk(after, p, g)
    {
      HeadStays(p, layout, before, after, g);
      HeadFirst(p, g);
      GroupKeptByHead(before, after, p, g);
    }
  }

  lemma {:induction false} HeadStays(p: Plan, layout: Layout, before: bytes, after: bytes, g: nat)
    requires Buildable(p, layout) && Placeable(p, layout) && g < p.Groups()
    requires |before| == ImageSize(p)
    requires OnlyFootprints(before, after, Placements(p, layout), p.shared, p.profile.blockSize, p.profile.inodeSize)
    ensures |after| == |before| && HeadSpan(p, g).from <= HeadSpan(p, g).until <= |before|
    ensures var head := HeadSpan(p, g);
            Region(after, head.from, head.until - head.from) == Region(before, head.from, head.until - head.from)
  {
    LayoutOwners(p, layout);
    HeadFirst(p, g);
    assert Ready(p, layout);
    hide Buildable, Placeable, Ready, Plan.Fits, Plan.Groups, HeadSpan, PlacementAt, Footprint, Apart, Region, MetaSpan;
    var nodes, head := Placements(p, layout), HeadSpan(p, g);
    forall i | 0 <= i < |nodes|
      ensures Apart([Span(head.from, head.until)], Footprint(nodes[i], p.shared, p.profile.blockSize, p.profile.inodeSize))
    {
      HeadOffFootprint(p, layout, g, i);
    }
    assert head.from + (head.until - head.from) == head.until;
  }

  lemma {:induction false} GroupKeptByHead(before: bytes, after: bytes, p: Plan, g: nat)
    requires p.Fits() && g < p.Groups() && GroupOnDisk(before, p, g) && |after| == |before|
    requires HeadSpan(p, g).from <= HeadSpan(p, g).until <= |before|
    requires var head := HeadSpan(p, g);
             Region(after, head.from, head.until - head.from) == Region(before, head.from, head.until - head.from)
    ensures GroupOnDisk(after, p, g)
  {
    FitsSane(p);
    hide Plan.Fits, Plan.Groups, HeadSpan, GroupOnDisk, OnlyWithin, SpansApart;
    var head := HeadSpan(p, g);
    var outside := [Span(0, head.from), Span(head.until, |before|)];
    OutsideSpans(before, after, head);
    OutsideApart(head, |before|);
    GroupKept(before, after, p, g, outside);
  }

  lemma {:induction false} OutsideSpans(before: bytes, after: bytes, head: Span)
    requires |after| == |before| && head.from <= head.until <= |before|
    requires Region(after, head.from, head.until - head.from) == Region(before, head.from, head.until - head.from)
    ensures OnlyWithin(before, after, [Span(0, head.from), Span(head.until, |before|)])
  {
    var outside := [Span(0, head.from), Span(head.until, |before|)];
    forall i | 0 <= i < |before| && !InSpans(i, outside)
      ensures after[i] == before[i]
    {
      assert outside[0] == Span(0, head.from) && outside[1] == Span(head.until, |before|);
      assert head.from <= i < head.until;
      assert after[i] == Region(after, head.from, head.until - head.from)[i - head.from];
    }
  }

  lemma {:induction false} OutsideApart(head: Span, size: nat)
    requires head.from <= head.until <= size
    ensures forall k :: 0 <= k < 2 ==> SpansApart(head, [Span(0, head.from), Span(head.until, size)][k])
  {
  }

  // ---- The builder -----------------------------------------------------------------------------------------

  /** Why the builder may fail on an image whose block numbers and file sizes fit 32 bits. */
  ghost predicate MayFail(e: AllocError, q: Profile, total: nat, all: seq<T.Node>, shared: bool)
    requires Sane(q) && NodesFit(all, q.blockSize)
  {
    var groups := DivCeil(total, q.blocksPerGroup);
    var meta := MetaBlocks(q, groups);
    match e
    case NoRoomForTable => LastGroupBlocks(total, q.blocksPerGroup) < meta
    case NoFreeBlocks =>
      total < MetaCount(total, q.blocksPerGroup, meta) + DataBlocks(q, FileNodes(all, q.blockSize)) + |all| + ExtraTrees(groups)
    case TooDeep => groups > MAX_EXTENTS || (shared && exists i :: 0 <= i < |all| && ManyBlocks(q, all[i]))
    case NumberOverflow => false
  }

  /** A file of more than 1360 blocks. */
  ghost predicate ManyBlocks(q: Profile, n: T.Node)
    requires Sane(q) && NodeFits(n, q.blockSize)
  {
    !n.IsDir() && NeedBlocks(q, FileNodeOf(n, q.blockSize)) > MAX_EXTENTS
  }

  /** The layout in either mode, and the image the metadata is written to. */
  ghost predicate LaidOutOn(p: Plan, layout: Layout, content: bytes)
    requires Sane(p.profile) && NodesFit(p.all, p.profile.blockSize)
  {
    if p.shared then
      var nodes := SharedNodes(p.all, p.profile.blockSize);
      SharedData(content, p.profile, p.total, nodes, layout.files) && SharedLaidOut(p.profile, p.total, nodes, layout, p.used)
    else
      content == Zeros(ImageSize(p)) && LaidOut(p.profile, p.total, FileNodes(p.all, p.profile.blockSize), layout, p.used)
  }

  /** The block map, with or without sharing. */
  method LayOut(q: Profile, total: nat, all: seq<T.Node>, shared: bool, hash: bytes -> nat, log: nat, compat: nat, roCompat: nat)
    returns (r: Result<Layout, AllocError>, used: array<bool>, image: File, ghost p: Plan)
    requires Sane(q) && 0 < total < U32_LIMIT && q.blocksPerGroup <= 32768 && NodesFit(all, q.blockSize)
    ensures fresh(image) && p == Plan(q, total, used[..], all, shared, log, compat, roCompat)
    ensures r.Err? ==> MayFail(r.error, q, total, all, shared)
    ensures LastGroupBlocks(total, q.blocksPerGroup) < MetaBlocks(q, DivCeil(total, q.blocksPerGroup)) ==> r == Err(NoRoomForTable)
    ensures r.Ok? ==> LaidOutOn(p, r.value, image.content)
  {
    hide MetaBlocks, LastGroupBlocks, LaidOut, DivCeil, NodesFit, MetaCount, DataBlocks, ExtraTrees, SharedLaidOut, SharedData, NeedBlocks, S.NeedOf, S.TotalNeed, ManyBlocks;
    NeedsFit(q, all);
    SameTotalNeed(q, all);
    if shared {
      r, used, image := BuildSharedLayout(q, total, SharedNodes(all, q.blockSize), hash);
      if r == Err(TooDeep) && !(DivCeil(total, q.blocksPerGroup) > MAX_EXTENTS) {
        ghost var node :| node in SharedNodes(all, q.blockSize) && node.Shared? && S.NeedOf(node, q.blockSize) > MAX_EXTENTS;
        LongSharedFile(q, all, node);
      }
    } else {
      r, used := BuildLayout(q, total, FileNodes(all, q.blockSize));
      image := new File(Zeros(BlockAt(total, q.blockSize)));
    }
    assert r.Err? ==> r.error.NoRoomForTable? || r.error.NoFreeBlocks? || r.error.TooDeep?;
    p := Plan(q, total, used[..], all, shared, log, compat, roCompat);
  }

  lemma {:induction false} LongSharedFile(q: Profile, all: seq<T.Node>, node: S.SharedNode)
    requires Sane(q) && NodesFit(all, q.blockSize) && node in SharedNodes(all, q.blockSize) && node.Shared?
    requires S.NeedOf(node, q.blockSize) > MAX_EXTENTS
    ensures exists i :: 0 <= i < |all| && ManyBlocks(q, all[i])
  {
    hide NodeFits, NeedBlocks, S.NeedOf, BytesOf;
    var i :| 0 <= i < |all| && SharedNodes(all, q.blockSize)[i] == node;
    SameNeed(q, all[i]);
    assert ManyBlocks(q, all[i]);
  }

  /** No file needs more blocks than fit 32 bits. */
  lemma {:induction false} NeedsFit(q: Profile, all: seq<T.Node>)
    requires Sane(q) && NodesFit(all, q.blockSize)
    ensures forall node :: node in FileNodes(all, q.blockSize) ==> NeedBlocks(q, node) <= U32_LIMIT
    ensures forall node :: node in SharedNodes(all, q.blockSize) ==> S.NeedOf(node, q.blockSize) <= U32_LIMIT
  {
    hide NeedBlocks, S.NeedOf, NodeFits, FileNodeOf, SharedNodeOf;
    forall i | 0 <= i < |all|
      ensures NeedBlocks(q, FileNodes(all, q.blockSize)[i]) <= U32_LIMIT
      ensures S.NeedOf(SharedNodes(all, q.blockSize)[i], q.blockSize) <= U32_LIMIT
    {
      NodeNeeds(q, all[i]);
      SameNeed(q, all[i]);
    }
  }

  /**
   The builder up to the finished image, with or without shared blocks: the image has the metadata of every group and
   every node at once.
   */
  method BuildImage(
    q: Profile, total: nat, all: seq<T.Node>, shared: bool, hash: bytes -> nat, log: nat, compat: nat, roCompat: nat)
    returns (r: Result<Layout, AllocError>, image: File, ghost p: Plan)
    requires Sane(q) && 0 < total < U32_LIMIT && q.blocksPerGroup <= 32768 && q.blockSize >= 4096 && 128 <= q.inodeSize < U16_LIMIT
    requires q.blocksPerGroup <= 8 * q.blockSize && q.inodesPerGroup <= 8 * q.blockSize
    requires log <= MAX_LOG && q.blockSize == 1024 * Pow2(log) && compat < U32_LIMIT && roCompat < U32_LIMIT
    requires Numbered(all) && NodesFit(all, q.blockSize)
    requires |all| + RESERVED_UNNAMED <= DivCeil(total, q.blocksPerGroup) * q.inodesPerGroup < U32_LIMIT
    ensures fresh(image)
    ensures r.Ok? ==> p.profile == q && p.total == total && p.all == all && p.shared == shared && Built(image.content, p, r.value)
    ensures r.Err? ==> MayFail(r.error, q, total, all, shared)
    ensures LastGroupBlocks(total, q.blocksPerGroup) < MetaBlocks(q, DivCeil(total, q.blocksPerGroup)) ==> r == Err(NoRoomForTable)
  {
    hide MetaBlocks, LastGroupBlocks, LaidOutOn, DivCeil, Pow2, NodesFit, Numbered, MayFail, Placements;
    hide Built, Buildable, Placeable, Prepared, SlotsClear, AllInPlace, AllWritable, FootprintsApart, AllOnDisk, OnlyFootprints, HeadsClear, GroupsOnDisk, OnlyWithin;
    var used;
    r, used, image, p := LayOut(q, total, all, shared, hash, log, compat, roCompat);
    if r.Err? {
      return;
    }
    var plan := Plan(q, total, used[..], all, shared, log, compat, roCompat);
    ghost var blank := image.content;
    UsedLength(plan, r.value, blank);
    LayOutBuildable(plan, r.value, blank);
    AllPlacementsWritable(plan, r.value);
    LayOutPrepared(plan, r.value, blank);
    hide Plan.Fits;
    HeadsAreClear(blank, plan);
    WriteMetadata(image, plan, used);
    ghost var metadata := image.content;
    StaysPrepared(plan, r.value, blank, metadata);
    KeepsLength(blank, metadata, plan);
    var nodes := Placements(plan, r.value);
    WriteNodes(image, nodes, shared, q.blockSize, q.inodeSize);
    MetadataStays(plan, r.value, metadata, image.content);
    ImageBuilt(metadata, image.content, plan, r.value);
  }

  lemma {:induction false} UsedLength(p: Plan, layout: Layout, content: bytes)
    requires Sane(p.profile) && NodesFit(p.all, p.profile.blockSize) && LaidOutOn(p, layout, content)
    ensures |p.used| == p.total && |content| == ImageSize(p)
  {
    hide NodesFit, LaidOut, SharedLaidOut, MetaBlank, FileOnDisk;
    if p.shared {
      SharedUsedLength(p.profile, p.total, SharedNodes(p.all, p.profile.blockSize), layout, p.used);
    } else {
      PlainUsedLength(p.profile, p.total, FileNodes(p.all, p.profile.blockSize), layout, p.used);
    }
  }

  lemma {:induction false} PlainUsedLength(q: Profile, total: nat, nodes: seq<FileNode>, layout: Layout, used: seq<bool>)
    requires Sane(q) && LaidOut(q, total, nodes, layout, used)
    ensures |used| == total
  {
  }

  lemma {:induction false} SharedUsedLength(q: Profile, total: nat, nodes: seq<S.SharedNode>, layout: Layout, used: seq<bool>)
    requires Sane(q) && SharedLaidOut(q, total, nodes, layout, used)
    ensures |used| == total
  {
  }

  lemma {:induction false} KeepsLength(before: bytes, after: bytes, p: Plan)
    requires Sane(p.profile) && OnlyWithin(before, after, HeadSpans(p))
    ensures |after| == |before|
  {
  }

  lemma {:induction false} LayOutBuildable(p: Plan, layout: Layout, content: bytes)
    requires Sane(p.profile) && 0 < p.total == |p.used| < U32_LIMIT && p.profile.blocksPerGroup <= 32768
    requires p.profile.blockSize >= 4096 && 128 <= p.profile.inodeSize < U16_LIMIT
    requires p.profile.blocksPerGroup <= 8 * p.profile.blockSize && p.profile.inodesPerGroup <= 8 * p.profile.blockSize
    requires p.log <= MAX_LOG && p.profile.blockSize == 1024 * Pow2(p.log) && p.compat < U32_LIMIT && p.roCompat < U32_LIMIT
    requires Numbered(p.all) && NodesFit(p.all, p.profile.blockSize)
    requires |p.all| + RESERVED_UNNAMED <= DivCeil(p.total, p.profile.blocksPerGroup) * p.profile.inodesPerGroup < U32_LIMIT
    requires MetaBlocks(p.profile, DivCeil(p.total, p.profile.blocksPerGroup)) <= LastGroupBlocks(p.total, p.profile.blocksPerGroup)
    requires LaidOutOn(p, layout, content)
    ensures Buildable(p, layout) && p.Fits()
  {
    hide MetaBlocks, LastGroupBlocks, LaidOut, SharedLaidOut, SharedData, DivCeil, Pow2, NodesFit, Numbered;
  }

  lemma {:induction false} LayOutPrepared(p: Plan, layout: Layout, content: bytes)
    requires p.Fits() && Buildable(p, layout) && Placeable(p, layout) && LaidOutOn(p, layout, content)
    ensures Prepared(content, p, layout) && MetaZero(content, p)
  {
    hide Plan.Fits, Buildable, LaidOut, SharedLaidOut, SharedData, Prepared, NodesFit;
    if p.shared {
      SharedPrepared(content, p, layout);
    } else {
      PlainPrepared(p, layout);
    }
    PreparedMeta(content, p, layout);
  }

  lemma {:induction false} PreparedMeta(content: bytes, p: Plan, layout: Layout)
    requires Placeable(p, layout) && Prepared(content, p, layout)
    ensures MetaZero(content, p)
  {
    hide Placeable, MetaZero, InPlace;
  }

  lemma {:induction false} ImageBuilt(before: bytes, content: bytes, p: Plan, layout: Layout)
    requires Buildable(p, layout) && Placeable(p, layout) && |before| == ImageSize(p)
    requires GroupsOnDisk(content, p, p.Groups())
    requires AllOnDisk(content, Placements(p, layout), p.profile.blockSize, p.profile.inodeSize, |p.all|)
    requires OnlyFootprints(before, content, Placements(p, layout), p.shared, p.profile.blockSize, p.profile.inodeSize)
    ensures Built(content, p, layout)
  {
    hide Buildable, Placeable, GroupsOnDisk, AllOnDisk;
  }
}
