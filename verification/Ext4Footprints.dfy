/**
 Who writes where in an ext4 image: the parts of every node and group, with or without shared blocks, as byte spans that
 are apart.
 */
module Ext4Footprints {
  import opened Core
  import opened Arith
  import opened OutFile
  import opened Spans
  import opened Bitmaps
  import opened Ext4Plan
  import opened Ext4Alloc
  import opened Ext4Build
  import opened Ext4Extents
  import opened Ext4Inode
  import opened Ext4Content
  import opened Ext4Image
  import opened Ext4Super
  import opened Ext4Accounting
  import opened Ext4Groups
  import opened Ext4Owners
  import opened Ext4SharedLayout
  import S = Ext4Shared
  import T = Ext4Tree
  import D = Ext4Dir

  // ---- What a node is made of ------------------------------------------------------------------------------

  /** The directory file type of a mode. */
  function FileType(mode: nat): byte {
    var kind := mode / 0x1000 % 16;
    if kind == 4 then 2
    else if kind == 10 then 7
    else if kind == 2 then 5
    else if kind == 6 then 6
    else if kind == 1 then 3
    else if kind == 12 then 4
    else 1
  }

  const DOT: byte := 46

  /** The records of a directory: itself, its parent, its children in order. */
  function DirEntries(n: T.Node): (r: seq<D.Entry>)
    ensures |r| == 2 + |n.children|
  {
    [D.Entry(n.nid, [DOT], 2), D.Entry(n.parent, [DOT, DOT], 2)]
    + seq(|n.children|, i requires 0 <= i < |n.children| =>
        D.Entry(n.children[i].nid, n.children[i].name, FileType(n.children[i].mode)))
  }

  function DirChildren(nodes: seq<T.Node>): nat {
    if nodes == [] then 0 else DirChildren(nodes[..|nodes| - 1]) + if nodes[|nodes| - 1].IsDir() then 1 else 0
  }

  function AttributesOf(n: T.Node): Attributes {
    Attributes(n.mode, n.uid, n.gid, if n.IsDir() then (2 + DirChildren(n.children)) % U16_LIMIT else 1)
  }

  /** The bytes of a node: its packed directory, or its content. */
  function BytesOf(n: T.Node, blockSize: nat): bytes
    requires D.DirBlock(blockSize) && (n.IsDir() ==> D.EntriesFit(DirEntries(n)))
  {
    if n.IsDir() then D.DirectoryBytes(DirEntries(n), blockSize) else n.content
  }

  /** Field widths of the format. */
  predicate NodeFits(n: T.Node, blockSize: nat) {
    && D.DirBlock(blockSize) && n.mode < U16_LIMIT && n.uid < U32_LIMIT && n.gid < U32_LIMIT
    && (n.IsDir() ==> D.EntriesFit(DirEntries(n))) && |BytesOf(n, blockSize)| < U32_LIMIT
  }

  predicate NodesFit(all: seq<T.Node>, blockSize: nat) {
    forall i :: 0 <= i < |all| ==> NodeFits(all[i], blockSize)
  }

  function FileNodeOf(n: T.Node, blockSize: nat): FileNode
    requires NodeFits(n, blockSize)
  {
    FileNode(n.IsDir(), Inline(AttributesOf(n), |BytesOf(n, blockSize)|), |BytesOf(n, blockSize)|)
  }

  function FileNodes(all: seq<T.Node>, blockSize: nat): (r: seq<FileNode>)
    requires NodesFit(all, blockSize)
    ensures |r| == |all|
  {
    seq(|all|, i requires 0 <= i < |all| => FileNodeOf(all[i], blockSize))
  }

  /** A node as the placement loop with sharing treats it. */
  function SharedNodeOf(n: T.Node, blockSize: nat): S.SharedNode
    requires NodeFits(n, blockSize)
  {
    var data := BytesOf(n, blockSize);
    if Inline(AttributesOf(n), |data|) then S.InlineLink
    else if n.IsDir() || data == [] then S.Own(|data|)
    else S.Shared(data)
  }

  function SharedNodes(all: seq<T.Node>, blockSize: nat): (r: seq<S.SharedNode>)
    requires NodesFit(all, blockSize)
    ensures |r| == |all|
  {
    seq(|all|, i requires 0 <= i < |all| => SharedNodeOf(all[i], blockSize))
  }

  /** Both placement loops count the same blocks for a node. */
  lemma {:induction false} SameNeed(p: Profile, n: T.Node)
    requires Sane(p) && NodeFits(n, p.blockSize)
    ensures S.NeedOf(SharedNodeOf(n, p.blockSize), p.blockSize) == NeedBlocks(p, FileNodeOf(n, p.blockSize))
  {
    hide BytesOf, AttributesOf, NodeFits;
  }

  lemma {:induction false} SameTotalNeed(p: Profile, all: seq<T.Node>)
    requires Sane(p) && NodesFit(all, p.blockSize)
    ensures S.TotalNeed(SharedNodes(all, p.blockSize), p.blockSize) == DataBlocks(p, FileNodes(all, p.blockSize))
    decreases |all|
  {
    hide NodeFits, S.NeedOf, NeedBlocks, SharedNodeOf, FileNodeOf;
    if all != [] {
      var k := |all| - 1;
      SameTotalNeed(p, all[..k]);
      SameNeed(p, all[k]);
      assert SharedNodes(all, p.blockSize)[..k] == SharedNodes(all[..k], p.blockSize);
      assert FileNodes(all, p.blockSize)[..k] == FileNodes(all[..k], p.blockSize);
    }
  }

  // ---- Placements ------------------------------------------------------------------------------------------

  /** A plan whose blocks are laid out, with an inode slot for every node. */
  ghost predicate Buildable(p: Plan, layout: Layout) {
    && p.Fits() && p.profile.blocksPerGroup <= 32768 && p.profile.inodeSize >= 128
    && NodesFit(p.all, p.profile.blockSize)
    && |p.all| + RESERVED_UNNAMED <= p.Groups() * p.profile.inodesPerGroup
    && (if p.shared then SharedLaidOut(p.profile, p.total, SharedNodes(p.all, p.profile.blockSize), layout, p.used)
        else LaidOut(p.profile, p.total, FileNodes(p.all, p.profile.blockSize), layout, p.used))
  }

  /** The write phase copies the data of node `i`. */
  predicate Copied(p: Plan, i: nat)
    requires i < |p.all|
  {
    !p.shared || p.all[i].IsDir()
  }

  function MetaOf(p: Plan): nat
    requires Sane(p.profile)
  {
    MetaBlocks(p.profile, p.Groups())
  }

  function SlotOf(p: Plan, i: nat): nat
    requires Sane(p.profile) && i < |p.all| && p.all[i].nid > 0
  {
    SlotAt(p.Meta(GroupOf(p.all[i].nid, p.profile.inodesPerGroup)).inodeTable, p.profile.blockSize,
           IndexOf(p.all[i].nid, p.profile.inodesPerGroup), p.profile.inodeSize)
  }

  function PlacementAt(p: Plan, layout: Layout, i: nat): Placement
    requires Sane(p.profile) && i < |p.all| && p.all[i].nid > 0 && NodeFits(p.all[i], p.profile.blockSize)
    requires |layout.files| == |layout.trees| == |p.all|
  {
    Placement(SlotOf(p, i), AttributesOf(p.all[i]), BytesOf(p.all[i], p.profile.blockSize), p.all[i].IsDir(),
              layout.files[i], layout.trees[i])
  }

  predicate Placeable(p: Plan, layout: Layout) {
    && Sane(p.profile) && NodesFit(p.all, p.profile.blockSize) && |layout.files| == |layout.trees| == |p.all|
    && forall i :: 0 <= i < |p.all| ==> p.all[i].nid > 0
  }

  function Placements(p: Plan, layout: Layout): (r: seq<Placement>)
    requires Placeable(p, layout)
    ensures |r| == |p.all|
    ensures forall i :: 0 <= i < |r| ==> r[i] == PlacementAt(p, layout, i)
  {
    seq(|p.all|, i requires 0 <= i < |p.all| => PlacementAt(p, layout, i))
  }

  lemma {:induction false} BuildablePlaces(p: Plan, layout: Layout)
    requires Buildable(p, layout)
    ensures Placeable(p, layout)
  {
  }

  // ---- Slots -----------------------------------------------------------------------------------------------

  /** The metadata bytes of group `g`. */
  function MetaSpan(p: Plan, g: nat): Span
    requires Sane(p.profile)
  {
    RunSpan(MetaRun(g, p.profile.blocksPerGroup, MetaOf(p)), p.profile.blockSize)
  }

  lemma {:induction false} GroupExists(p: Plan, i: nat)
    requires p.Fits() && i < |p.all| && |p.all| + RESERVED_UNNAMED <= p.Groups() * p.profile.inodesPerGroup
    ensures p.all[i].nid > 0 && GroupOf(p.all[i].nid, p.profile.inodesPerGroup) < p.Groups()
    ensures p.all[i].nid == T.NidOf(i) <= p.Groups() * p.profile.inodesPerGroup
  {
    NidIs(p.all, i);
    GroupBelow(p.all[i].nid, p.Groups(), p.profile.inodesPerGroup);
  }

  lemma {:induction false} GroupBelow(v: nat, groups: nat, ipg: nat)
    requires 0 < v <= groups * ipg && ipg > 0
    ensures GroupOf(v, ipg) < groups
  {
    assert v - 1 == (v - 1) / ipg * ipg + (v - 1) % ipg;
    if (v - 1) / ipg >= groups {
      MulMonotone(groups, (v - 1) / ipg, ipg);
    }
  }

  /** The inode table lies behind the head of its group, inside the group's metadata. */
  lemma {:induction false} TableInMeta(p: Plan, g: nat)
    requires p.Fits() && g < p.Groups()
    ensures var table, size := BlockAt(p.Meta(g).inodeTable, p.profile.blockSize), BlockAt(TableBlocks(p.profile), p.profile.blockSize);
            && MetaSpan(p, g).from == HeadSpan(p, g).from && HeadSpan(p, g).until == table
            && table + size == MetaSpan(p, g).until <= BlockAt(p.total, p.profile.blockSize)
            && HeadSpan(p, g).from <= table
  {
    PartsOfHead(p, g);
    var q, bs := p.profile, p.profile.blockSize;
    hide DivCeil, DescriptorBlocks, TableBlocks, LastGroupBlocks, Pow2;
    MetaParts(q, p.Groups());
    MulDistributes(p.Meta(g).inodeTable, TableBlocks(q), bs);
  }

  lemma {:induction false} SlotInTable(p: Plan, i: nat)
    requires p.Fits() && i < |p.all| && |p.all| + RESERVED_UNNAMED <= p.Groups() * p.profile.inodesPerGroup
    requires p.all[i].nid > 0
    ensures var g := GroupOf(p.all[i].nid, p.profile.inodesPerGroup);
            && g < p.Groups() && HeadSpan(p, g).until <= SlotOf(p, i)
            && SlotOf(p, i) + p.profile.inodeSize <= MetaSpan(p, g).until
  {
    FitsSane(p);
    hide Plan.Fits, Plan.Groups, GroupOf, IndexOf, BlockAt, TableBlocks, HeadSpan, MetaSpan, SlotAt;
    GroupExists(p, i);
    var q, g := p.profile, GroupOf(p.all[i].nid, p.profile.inodesPerGroup);
    TableInMeta(p, g);
    TableHasRoom(q);
    IndexBelow(p.all[i].nid, q.inodesPerGroup);
    SlotBound(p.Meta(g).inodeTable, q.blockSize, IndexOf(p.all[i].nid, q.inodesPerGroup), q.inodesPerGroup, q.inodeSize);
  }

  lemma {:induction false} SlotBound(table: nat, blockSize: nat, index: nat, ipg: nat, inodeSize: nat)
    requires index < ipg
    ensures BlockAt(table, blockSize) <= SlotAt(table, blockSize, index, inodeSize)
    ensures SlotAt(table, blockSize, index, inodeSize) + inodeSize <= BlockAt(table, blockSize) + ipg * inodeSize
  {
    MulMonotone(index + 1, ipg, inodeSize);
    MulDistributes(index, 1, inodeSize);
  }

  lemma {:induction false} TableHasRoom(q: Profile)
    requires Sane(q)
    ensures q.inodesPerGroup * q.inodeSize <= BlockAt(TableBlocks(q), q.blockSize)
  {
    hide DivCeil;
    DivCeilMeaning(q.inodesPerGroup * q.inodeSize, q.blockSize);
  }

  lemma {:induction false} MetaSpansApart(p: Plan, g: nat, h: nat)
    requires p.Fits() && g < h < p.Groups()
    ensures MetaSpan(p, g).until <= MetaSpan(p, h).from
  {
    hide DivCeil, MetaBlocks, LastGroupBlocks, Pow2;
    GroupRoom(p.total, p.profile.blocksPerGroup, g);
    MulMonotone(g + 1, h, p.profile.blocksPerGroup);
    MulDistributes(g, 1, p.profile.blocksPerGroup);
    RunSpanOrder(MetaRun(g, p.profile.blocksPerGroup, MetaOf(p)), MetaRun(h, p.profile.blocksPerGroup, MetaOf(p)), p.profile.blockSize);
  }

  lemma {:induction false} SlotsApartInGroup(p: Plan, i: nat, j: nat)
    requires p.Fits() && i < |p.all| && j < |p.all| && p.all[i].nid > 0 && p.all[j].nid > 0 && p.all[i].nid != p.all[j].nid
    requires GroupOf(p.all[i].nid, p.profile.inodesPerGroup) == GroupOf(p.all[j].nid, p.profile.inodesPerGroup)
    ensures SlotOf(p, i) + p.profile.inodeSize <= SlotOf(p, j) || SlotOf(p, j) + p.profile.inodeSize <= SlotOf(p, i)
  {
    var ipg, size := p.profile.inodesPerGroup, p.profile.inodeSize;
    var a, b := IndexOf(p.all[i].nid, ipg), IndexOf(p.all[j].nid, ipg);
    IndicesDiffer(p.all[i].nid, p.all[j].nid, ipg);
    hide DivCeil, MetaBlocks, LastGroupBlocks, Pow2, Plan.Fits, GroupOf, IndexOf, Plan.Meta;
    if a < b {
      MulMonotone(a + 1, b, size);
      MulDistributes(a, 1, size);
    } else {
      MulMonotone(b + 1, a, size);
      MulDistributes(b, 1, size);
    }
  }

  lemma {:induction false} IndicesDiffer(v: nat, w: nat, ipg: nat)
    requires ipg > 0 && v > 0 && w > 0 && v != w && GroupOf(v, ipg) == GroupOf(w, ipg)
    ensures IndexOf(v, ipg) != IndexOf(w, ipg)
  {
    PlaceOf(v, GroupOf(v, ipg), ipg, IndexOf(v, ipg));
    PlaceOf(w, GroupOf(w, ipg), ipg, IndexOf(w, ipg));
  }

  /** Inode slots of different nodes are apart, and apart from the head of every group. */
  lemma {:induction false} SlotsApart(p: Plan, i: nat, j: nat)
    requires p.Fits() && i < |p.all| && j < |p.all| && i != j
    requires |p.all| + RESERVED_UNNAMED <= p.Groups() * p.profile.inodesPerGroup && p.all[i].nid > 0 && p.all[j].nid > 0
    ensures SlotOf(p, i) + p.profile.inodeSize <= SlotOf(p, j) || SlotOf(p, j) + p.profile.inodeSize <= SlotOf(p, i)
  {
    FitsSane(p);
    var ipg := p.profile.inodesPerGroup;
    var g, h := GroupOf(p.all[i].nid, ipg), GroupOf(p.all[j].nid, ipg);
    assert p.all[i].nid != p.all[j].nid by {
      GroupExists(p, i);
      GroupExists(p, j);
    }
    hide *;
    SlotInTable(p, i);
    SlotInTable(p, j);
    HeadFirst(p, g);
    HeadFirst(p, h);
    if g == h {
      SlotsApartInGroup(p, i, j);
    } else if g < h {
      MetaSpansApart(p, g, h);
    } else {
      MetaSpansApart(p, h, g);
    }
  }

  lemma {:induction false} HeadFirst(p: Plan, g: nat)
    requires p.Fits() && g < p.Groups() && Sane(p.profile)
    ensures MetaSpan(p, g).from == HeadSpan(p, g).from <= HeadSpan(p, g).until <= MetaSpan(p, g).until <= BlockAt(p.total, p.profile.blockSize)
  {
    TableInMeta(p, g);
  }

  /** The slot of node `i` and the head of group `h` are apart. */
  lemma {:induction false} SlotOffHead(p: Plan, i: nat, h: nat)
    requires p.Fits() && i < |p.all| && h < p.Groups()
    requires |p.all| + RESERVED_UNNAMED <= p.Groups() * p.profile.inodesPerGroup && p.all[i].nid > 0
    ensures SpansApart(Span(SlotOf(p, i), SlotOf(p, i) + p.profile.inodeSize), HeadSpan(p, h))
  {
    FitsSane(p);
    var g := GroupOf(p.all[i].nid, p.profile.inodesPerGroup);
    hide Plan.Fits, Plan.Groups, SlotOf, HeadSpan, MetaSpan, GroupOf;
    SlotInTable(p, i);
    HeadFirst(p, g);
    HeadFirst(p, h);
    if g < h {
      MetaSpansApart(p, g, h);
    } else if h < g {
      MetaSpansApart(p, h, g);
    }
  }

  // ---- Footprints ------------------------------------------------------------------------------------------

  /** Blocks of node `i`: its file runs or its tree runs. */
  function OwnedRuns(layout: Layout, i: nat, trees: bool): seq<Run>
    requires i < |layout.files| == |layout.trees|
  {
    if trees then TreeRuns(layout.trees[i]) else RunsOf(layout.files[i])
  }

  /** The blocks of each node fit the image; those it alone writes ascend. */
  ghost predicate RunsKnown(p: Plan, layout: Layout, i: nat)
    requires Sane(p.profile) && i < |p.all| == |layout.files| == |layout.trees|
  {
    && RunsFit(OwnedRuns(layout, i, true), p.profile.blocksPerGroup, MetaOf(p), p.total)
    && RunsFit(OwnedRuns(layout, i, false), p.profile.blocksPerGroup, MetaOf(p), p.total)
    && Ascending(OwnedRuns(layout, i, true), p.total)
    && (Copied(p, i) ==> Ascending(OwnedRuns(layout, i, false), p.total))
  }

  /** Runs `(i, trees)` and `(j, others)` belong to different owners, and the write phase writes one of them. */
  predicate Foreign(p: Plan, i: nat, trees: bool, j: nat, others: bool)
    requires i < |p.all| && j < |p.all|
  {
    (i != j || trees != others) && (trees || others || Copied(p, i) || Copied(p, j))
  }

  /** The owners' view of a layout: only files that share blocks with files may meet. */
  ghost predicate OwnersKnown(p: Plan, layout: Layout)
    requires Sane(p.profile)
  {
    && |layout.files| == |layout.trees| == |p.all|
    && (forall i :: 0 <= i < |p.all| ==> RunsKnown(p, layout, i))
    && forall i, trees, j, others :: 0 <= i < |p.all| && 0 <= j < |p.all| && Foreign(p, i, trees, j, others) ==>
         AllOff(OwnedRuns(layout, i, trees), OwnedRuns(layout, j, others))
  }

  lemma {:induction false} LayoutOwners(p: Plan, layout: Layout)
    requires Buildable(p, layout)
    ensures Sane(p.profile) && OwnersKnown(p, layout)
  {
    if p.shared {
      SharedOwners(p, layout);
    } else {
      PlainOwners(p, layout);
    }
  }

  lemma {:induction false} PlainOwners(p: Plan, layout: Layout)
    requires Buildable(p, layout) && !p.shared
    ensures Sane(p.profile) && OwnersKnown(p, layout)
  {
    var n, bpg, meta, owners := |p.all|, p.profile.blocksPerGroup, MetaOf(p), Owners(layout.files, layout.trees);
    PlainFits(p, layout);
    hide *;
    forall i | 0 <= i < n
      ensures RunsKnown(p, layout, i)
    {
      PlainRuns(p, layout, i);
    }
    forall i, trees, j, others | 0 <= i < n && 0 <= j < n && Foreign(p, i, trees, j, others)
      ensures AllOff(OwnedRuns(layout, i, trees), OwnedRuns(layout, j, others))
    {
      PlainOff(p, layout, i, trees, j, others);
    }
    OwnersAreKnown(p, layout);
  }

  lemma {:induction false} OwnersAreKnown(p: Plan, layout: Layout)
    requires Sane(p.profile) && |layout.files| == |layout.trees| == |p.all|
    requires forall i :: 0 <= i < |p.all| ==> RunsKnown(p, layout, i)
    requires forall i, trees, j, others :: 0 <= i < |p.all| && 0 <= j < |p.all| && Foreign(p, i, trees, j, others) ==>
               AllOff(OwnedRuns(layout, i, trees), OwnedRuns(layout, j, others))
    ensures OwnersKnown(p, layout)
  {
    hide RunsKnown, Foreign, AllOff, OwnedRuns;
  }

  /** The owners of a layout without sharing, one behind the other. */
  ghost predicate OwnersInOrder(p: Plan, layout: Layout)
    requires Sane(p.profile)
  {
    && |layout.files| == |layout.trees| == |p.all|
    && (forall a :: 0 <= a < 2 * |p.all| ==> OwnerFits(Owners(layout.files, layout.trees)[a], p.profile.blocksPerGroup, MetaOf(p), p.total))
    && forall a, b :: 0 <= a < b < 2 * |p.all| ==> Precedes(Owners(layout.files, layout.trees)[a], Owners(layout.files, layout.trees)[b])
  }

  lemma {:induction false} PlainFits(p: Plan, layout: Layout)
    requires Buildable(p, layout) && !p.shared
    ensures Sane(p.profile) && OwnersInOrder(p, layout)
  {
    hide DivCeil, MetaBlocks, LastGroupBlocks, Pow2, Partition, NodesFit, Numbered, Placed, AllSpread, OwnerFits, Precedes, Count, MetaCount, DataBlocks;
    assert |layout.files| == |p.all| by { PlacedLength(p, layout); }
    var next :| Partition(p.used, next, FileRuns(layout.files) + AllTreeRuns(layout.trees), p.profile.blocksPerGroup, MetaOf(p));
    OwnersFit(layout.files, layout.trees, p.used, next, p.profile.blocksPerGroup, MetaOf(p));
  }

  lemma {:induction false} PlainRuns(p: Plan, layout: Layout, i: nat)
    requires Sane(p.profile) && OwnersInOrder(p, layout) && i < |p.all|
    ensures RunsKnown(p, layout, i)
  {
    hide OwnerFits, Precedes, RunsFit, Ascending, MetaOf;
    var owners := Owners(layout.files, layout.trees);
    OwnerFitsRuns(owners[i], p.profile.blocksPerGroup, MetaOf(p), p.total);
    OwnerFitsRuns(owners[|p.all| + i], p.profile.blocksPerGroup, MetaOf(p), p.total);
  }

  lemma {:induction false} PlainOff(p: Plan, layout: Layout, i: nat, trees: bool, j: nat, others: bool)
    requires Sane(p.profile) && OwnersInOrder(p, layout) && i < |p.all| && j < |p.all| && Foreign(p, i, trees, j, others)
    ensures AllOff(OwnedRuns(layout, i, trees), OwnedRuns(layout, j, others))
  {
    hide OwnerFits, Precedes, AllOff, MetaOf, OwnedRuns, Owners;
    var a, b, owners := OwnerIndex(layout, i, trees), OwnerIndex(layout, j, others), Owners(layout.files, layout.trees);
    OwnerAt(layout, i, trees);
    OwnerAt(layout, j, others);
    if a < b {
      PrecedesOff(owners[a], owners[b]);
    } else {
      PrecedesOff(owners[b], owners[a]);
    }
  }

  lemma {:induction false} OwnerAt(layout: Layout, i: nat, trees: bool)
    requires i < |layout.files| == |layout.trees|
    ensures OwnerIndex(layout, i, trees) < |layout.files| + |layout.trees|
    ensures Owners(layout.files, layout.trees)[OwnerIndex(layout, i, trees)] == OwnedRuns(layout, i, trees)
  {
  }

  function OwnerIndex(layout: Layout, i: nat, trees: bool): nat {
    if trees then |layout.files| + i else i
  }

  lemma {:induction false} PlacedLength(p: Plan, layout: Layout)
    requires Buildable(p, layout) && !p.shared
    ensures |layout.files| == |p.all|
  {
  }

  /** What the layout with sharing gives for node `i`. */
  lemma {:induction false} SharedLaidOutNode(p: Plan, layout: Layout, i: nat)
    requires Buildable(p, layout) && p.shared && i < |p.all|
    ensures Sane(p.profile) && p.profile.blockSize > 0 && NodeFits(p.all[i], p.profile.blockSize) && |layout.files| == |layout.trees| == |p.all|
    ensures S.NodeShaped(SharedNodeOf(p.all[i], p.profile.blockSize), layout.files[i], p.total, p.profile.blockSize)
    ensures |layout.files[i]| <= MAX_EXTENTS && |layout.trees[i]| == TreeCount(|layout.files[i]|)
  {
    hide S.NodeShaped, NodeFits, TreeCount, OwnOff, SharedPartition, SharedNodeOf, Numbered, MetaBlocks, Pow2;
    assert SharedNodes(p.all, p.profile.blockSize)[i] == SharedNodeOf(p.all[i], p.profile.blockSize);
  }

  lemma {:induction false} DirIsOwn(n: T.Node, blockSize: nat)
    requires NodeFits(n, blockSize) && n.IsDir()
    ensures SharedNodeOf(n, blockSize) == S.Own(|BytesOf(n, blockSize)|)
  {
    hide BytesOf, NodeFits;
  }

  lemma {:induction false} ShapedRuns(node: S.SharedNode, extents: seq<Extent>, total: nat, blockSize: nat)
    requires blockSize > 0 && S.NodeShaped(node, extents, total, blockSize)
    ensures AllLong(extents) && (!node.Shared? ==> Ascending(RunsOf(extents), total))
  {
    var runs := RunsOf(extents);
    if node.Own? {
      assert forall i :: 0 <= i < |extents| ==> runs[i].length == extents[i].length;
    }
  }

  lemma {:induction false} SharedOwners(p: Plan, layout: Layout)
    requires Buildable(p, layout) && p.shared
    ensures Sane(p.profile) && OwnersKnown(p, layout)
  {
    var n := |p.all|;
    SharedParts(p, layout);
    hide *;
    var next, runs := SharedRuns(p, layout, SharedNodes(p.all, p.profile.blockSize));
    TreesFitBehind(layout.trees, p.used, next, runs, p.profile.blocksPerGroup, MetaOf(p));
    forall i | 0 <= i < n
      ensures RunsKnown(p, layout, i)
    {
      OwnerFitsRuns(TreeRuns(layout.trees[i]), p.profile.blocksPerGroup, MetaOf(p), p.total);
      SharedNodeRuns(p, layout, next, runs, i);
      RunsAreKnown(p, layout, i);
    }
    forall i, trees, j, others | 0 <= i < n && 0 <= j < n && Foreign(p, i, trees, j, others)
      ensures AllOff(OwnedRuns(layout, i, trees), OwnedRuns(layout, j, others))
    {
      SharedOff(p, layout, next, runs, i, trees, j, others);
    }
    OwnersAreKnown(p, layout);
  }

  lemma {:induction false} SharedParts(p: Plan, layout: Layout)
    requires Buildable(p, layout) && p.shared
    ensures Sane(p.profile) && NodesFit(p.all, p.profile.blockSize)
    ensures |layout.files| == |layout.trees| == |p.all| && |p.used| == p.total
    ensures OwnOff(SharedNodes(p.all, p.profile.blockSize), layout.files)
    ensures SharedPartition(p.used, SharedNodes(p.all, p.profile.blockSize), layout, p.profile.blocksPerGroup, MetaOf(p))
  {
    hide S.NodeShaped, NodeFits, TreeCount, OwnOff, SharedPartition, SharedNodeOf, Numbered, MetaBlocks, Pow2;
  }

  lemma {:induction false} RunsAreKnown(p: Plan, layout: Layout, i: nat)
    requires Sane(p.profile) && i < |p.all| == |layout.files| == |layout.trees|
    requires RunsFit(TreeRuns(layout.trees[i]), p.profile.blocksPerGroup, MetaOf(p), p.total) && Ascending(TreeRuns(layout.trees[i]), p.total)
    requires RunsFit(RunsOf(layout.files[i]), p.profile.blocksPerGroup, MetaOf(p), p.total)
    requires Copied(p, i) ==> Ascending(RunsOf(layout.files[i]), p.total)
    ensures RunsKnown(p, layout, i)
  {
    hide RunsFit, Ascending, MetaOf;
  }

  lemma {:induction false} SharedOff(
    p: Plan, layout: Layout, next: nat, runs: seq<Run>, i: nat, trees: bool, j: nat, others: bool)
    requires Buildable(p, layout) && p.shared && |p.all| == |layout.files| == |layout.trees| && Sane(p.profile)
    requires i < |p.all| && j < |p.all| && Foreign(p, i, trees, j, others)
    requires Partition(p.used, next, runs + AllTreeRuns(layout.trees), p.profile.blocksPerGroup, MetaOf(p))
    requires AllOwned(layout.files[i], runs) && AllOwned(layout.files[j], runs)
    requires forall k, x :: 0 <= k < |layout.trees| && 0 <= x < |layout.trees[k]| ==> TreeRuns(layout.trees[k])[x] in AllTreeRuns(layout.trees)
    requires forall k, m :: 0 <= k < m < |layout.trees| ==> Precedes(TreeRuns(layout.trees[k]), TreeRuns(layout.trees[m]))
    ensures AllOff(OwnedRuns(layout, i, trees), OwnedRuns(layout, j, others))
  {
    hide Buildable, Partition, MetaOf, AllOwned, AllTreeRuns, AllOff, Precedes, TreeRuns;
    if trees && others {
      if i < j {
        PrecedesOff(TreeRuns(layout.trees[i]), TreeRuns(layout.trees[j]));
      } else {
        PrecedesOff(TreeRuns(layout.trees[j]), TreeRuns(layout.trees[i]));
      }
    } else if trees {
      SharedTreeOff(p, layout, next, runs, j, i);
    } else if others {
      SharedTreeOff(p, layout, next, runs, i, j);
    } else {
      DirOff(p, layout, i, j);
    }
  }

  lemma {:induction false} SharedRuns(p: Plan, layout: Layout, nodes: seq<S.SharedNode>) returns (next: nat, runs: seq<Run>)
    requires Sane(p.profile) && |layout.files| == |nodes|
    requires SharedPartition(p.used, nodes, layout, p.profile.blocksPerGroup, MetaOf(p))
    ensures Partition(p.used, next, runs + AllTreeRuns(layout.trees), p.profile.blocksPerGroup, MetaOf(p))
    ensures forall i :: 0 <= i < |nodes| ==> AllOwned(layout.files[i], runs)
  {
    hide Partition, AllOwned, MetaOf;
    next, runs :| Partition(p.used, next, runs + AllTreeRuns(layout.trees), p.profile.blocksPerGroup, MetaOf(p))
      && forall i :: 0 <= i < |nodes| ==> AllOwned(layout.files[i], runs);
  }

  lemma {:induction false} SharedNodeRuns(p: Plan, layout: Layout, next: nat, runs: seq<Run>, i: nat)
    requires Buildable(p, layout) && p.shared && i < |p.all| == |layout.files| && |p.used| == p.total && Sane(p.profile)
    requires Partition(p.used, next, runs + AllTreeRuns(layout.trees), p.profile.blocksPerGroup, MetaOf(p))
    requires AllOwned(layout.files[i], runs)
    ensures RunsFit(RunsOf(layout.files[i]), p.profile.blocksPerGroup, MetaOf(p), p.total)
    ensures Copied(p, i) ==> Ascending(RunsOf(layout.files[i]), p.total)
  {
    SharedLaidOutNode(p, layout, i);
    hide Buildable, Partition, MetaOf, RunsFit, Ascending, NodeFits, S.NodeShaped, SharedNodeOf, AllOwned, AllTreeRuns;
    ShapedRuns(SharedNodeOf(p.all[i], p.profile.blockSize), layout.files[i], p.total, p.profile.blockSize);
    OwnedFit(layout.files[i], p.used, next, runs, AllTreeRuns(layout.trees), p.profile.blocksPerGroup, MetaOf(p));
    if Copied(p, i) {
      DirIsOwn(p.all[i], p.profile.blockSize);
    }
  }

  lemma {:induction false} SharedTreeOff(p: Plan, layout: Layout, next: nat, runs: seq<Run>, i: nat, j: nat)
    requires Buildable(p, layout) && p.shared && i < |p.all| == |layout.files| == |layout.trees| && j < |p.all| && Sane(p.profile)
    requires Partition(p.used, next, runs + AllTreeRuns(layout.trees), p.profile.blocksPerGroup, MetaOf(p))
    requires AllOwned(layout.files[i], runs)
    requires forall k :: 0 <= k < |layout.trees[j]| ==> TreeRuns(layout.trees[j])[k] in AllTreeRuns(layout.trees)
    ensures AllOff(RunsOf(layout.files[i]), TreeRuns(layout.trees[j])) && AllOff(TreeRuns(layout.trees[j]), RunsOf(layout.files[i]))
  {
    SharedLaidOutNode(p, layout, i);
    var more := AllTreeRuns(layout.trees);
    assert Ascending(runs + more, next);
    hide Buildable, Partition, MetaOf, Ascending, NodeFits, S.NodeShaped, SharedNodeOf, AllOwned, AllTreeRuns, AllOff;
    ShapedRuns(SharedNodeOf(p.all[i], p.profile.blockSize), layout.files[i], p.total, p.profile.blockSize);
    OwnedOffLater(layout.files[i], TreeRuns(layout.trees[j]), runs, more, next);
    OffBothWays(RunsOf(layout.files[i]), TreeRuns(layout.trees[j]));
  }

  /** Blocks of a directory meet no other node's. */
  lemma {:induction false} DirOff(p: Plan, layout: Layout, i: nat, j: nat)
    requires Buildable(p, layout) && p.shared && i < |p.all| == |layout.files| && j < |p.all| && i != j
    requires p.all[i].IsDir() || p.all[j].IsDir()
    ensures AllOff(RunsOf(layout.files[i]), RunsOf(layout.files[j]))
  {
    var nodes, d := SharedNodes(p.all, p.profile.blockSize), if p.all[i].IsDir() then i else j;
    assert OwnOff(nodes, layout.files) && NodeFits(p.all[d], p.profile.blockSize);
    hide Buildable, AllOff, NodesFit, NodeFits, SharedNodeOf;
    DirIsOwn(p.all[d], p.profile.blockSize);
    assert nodes[d] == SharedNodeOf(p.all[d], p.profile.blockSize);
  }

  lemma {:induction false} OwnedFits(p: Plan, layout: Layout, i: nat, trees: bool)
    requires Sane(p.profile) && OwnersKnown(p, layout) && i < |p.all|
    ensures RunsFit(OwnedRuns(layout, i, trees), p.profile.blocksPerGroup, MetaOf(p), p.total)
  {
    hide AllOff, MetaOf, RunsFit;
    assert RunsKnown(p, layout, i);
  }

  lemma {:induction false} OwnedAscend(p: Plan, layout: Layout, i: nat, trees: bool)
    requires Sane(p.profile) && OwnersKnown(p, layout) && i < |p.all| && (trees || Copied(p, i))
    ensures Ascending(OwnedRuns(layout, i, trees), p.total)
  {
    hide AllOff, MetaOf, RunsFit, Ascending;
    assert RunsKnown(p, layout, i);
  }

  /** Runs of different owners are apart as byte spans. */
  lemma {:induction false} OwnedApart(p: Plan, layout: Layout, i: nat, trees: bool, j: nat, others: bool)
    requires Sane(p.profile) && |layout.files| == |layout.trees| == |p.all| && OwnersKnown(p, layout)
    requires i < |p.all| && j < |p.all| && Foreign(p, i, trees, j, others)
    ensures Apart(RunSpans(OwnedRuns(layout, i, trees), p.profile.blockSize), RunSpans(OwnedRuns(layout, j, others), p.profile.blockSize))
  {
    hide RunsKnown, RunSpans, Apart, OwnedRuns, AllOff;
    OffApart(OwnedRuns(layout, i, trees), OwnedRuns(layout, j, others), p.profile.blockSize);
  }

  lemma {:induction false} InsideApart(part: Span, whole: Span, spans: seq<Span>)
    requires whole.from <= part.from && part.until <= whole.until && Apart([whole], spans)
    ensures Apart([part], spans)
  {
    assert [whole][0] == whole;
  }

  /** Anything inside a group's metadata is apart from owned runs. */
  lemma {:induction false} MetaOffRuns(p: Plan, layout: Layout, g: nat, part: Span, j: nat, trees: bool)
    requires p.Fits() && Sane(p.profile) && OwnersKnown(p, layout) && g < p.Groups() && j < |p.all|
    requires MetaSpan(p, g).from <= part.from && part.until <= MetaSpan(p, g).until
    ensures Apart([part], RunSpans(OwnedRuns(layout, j, trees), p.profile.blockSize))
  {
    MetaFitsGroup(p, g);
    OwnedFits(p, layout, j, trees);
    hide Plan.Fits, Plan.Groups, OwnersKnown, IsMeta, RunSpan, MetaOf, OwnedRuns, Apart, RunsFit;
    MetaApart(OwnedRuns(layout, j, trees), g, p.profile.blocksPerGroup, MetaOf(p), p.profile.blockSize, p.total);
    InsideApart(part, MetaSpan(p, g), RunSpans(OwnedRuns(layout, j, trees), p.profile.blockSize));
  }

  lemma {:induction false} MetaFitsGroup(p: Plan, g: nat)
    requires p.Fits() && g < p.Groups()
    ensures 0 < MetaOf(p) <= p.profile.blocksPerGroup
  {
    hide DivCeil, LastGroupBlocks, Pow2;
    GroupRoom(p.total, p.profile.blocksPerGroup, g);
    MetaParts(p.profile, p.Groups());
  }

  /** The three parts of a footprint, as the writer sees them. */
  lemma {:induction false} FootprintIs(p: Plan, layout: Layout, i: nat)
    requires Placeable(p, layout) && i < |p.all|
    ensures var n, bs := PlacementAt(p, layout, i), p.profile.blockSize;
            && TreeSpans(n.tree, bs) == RunSpans(OwnedRuns(layout, i, true), bs)
            && DataSpans(n.extents, bs) == RunSpans(OwnedRuns(layout, i, false), bs)
            && n.slot == SlotOf(p, i)
  {
    hide NodesFit, SlotOf, RunSpans;
    TreeSpansAreRuns(layout.trees[i], p.profile.blockSize);
    DataSpansAreRuns(layout.files[i], p.profile.blockSize);
  }

  lemma {:induction false} ApartJoin(a: seq<Span>, b: seq<Span>, c: seq<Span>, spans: seq<Span>)
    requires Apart(a, spans) && Apart(b, spans) && Apart(c, spans)
    ensures Apart(a + b + c, spans) && Apart(spans, a + b + c)
  {
    hide SpansApart;
    forall i, j | 0 <= i < |a + b + c| && 0 <= j < |spans|
      ensures SpansApart((a + b + c)[i], spans[j]) && SpansApart(spans[j], (a + b + c)[i])
    {
      var s := (a + b + c)[i];
      assert s == if i < |a| then a[i] else if i < |a| + |b| then b[i - |a|] else c[i - |a| - |b|];
      ApartBothWays(s, spans[j]);
    }
  }

  /** A span apart from the three parts of a node's footprint is apart from the footprint. */
  lemma {:induction false} OffFootprint(spans: seq<Span>, n: Placement, shared: bool, blockSize: nat, inodeSize: nat)
    requires Apart([SlotSpan(n, inodeSize)], spans) && Apart(TreeSpans(n.tree, blockSize), spans)
    requires Apart(DataSpans(CopiedExtents(n, shared), blockSize), spans)
    ensures Apart(Footprint(n, shared, blockSize, inodeSize), spans) && Apart(spans, Footprint(n, shared, blockSize, inodeSize))
  {
    hide Apart, SlotSpan, TreeSpans, DataSpans, CopiedExtents;
    ApartJoin([SlotSpan(n, inodeSize)], TreeSpans(n.tree, blockSize), DataSpans(CopiedExtents(n, shared), blockSize), spans);
  }

  /** What holds for the data of a node when it is copied holds for what the write phase copies. */
  lemma {:induction false} CopiedApart(p: Plan, n: Placement, i: nat, spans: seq<Span>)
    requires i < |p.all| && n.isDir == p.all[i].IsDir()
    requires Copied(p, i) ==> Apart(DataSpans(n.extents, p.profile.blockSize), spans)
    ensures Apart(DataSpans(CopiedExtents(n, p.shared), p.profile.blockSize), spans)
  {
    hide SpansApart, DataSpan;
  }

  ghost predicate Ready(p: Plan, layout: Layout) {
    && p.Fits() && Placeable(p, layout) && OwnersKnown(p, layout)
    && |p.all| + RESERVED_UNNAMED <= p.Groups() * p.profile.inodesPerGroup
  }

  lemma {:induction false} SlotOffRuns(p: Plan, layout: Layout, i: nat, j: nat, trees: bool)
    requires Ready(p, layout) && i < |p.all| && j < |p.all|
    ensures Apart([Span(SlotOf(p, i), SlotOf(p, i) + p.profile.inodeSize)], RunSpans(OwnedRuns(layout, j, trees), p.profile.blockSize))
  {
    hide Plan.Fits, Plan.Groups, SlotOf, HeadSpan, MetaSpan, GroupOf, OwnersKnown, NodesFit, Apart, RunSpans, OwnedRuns;
    SlotInTable(p, i);
    var g := GroupOf(p.all[i].nid, p.profile.inodesPerGroup);
    HeadFirst(p, g);
    MetaOffRuns(p, layout, g, Span(SlotOf(p, i), SlotOf(p, i) + p.profile.inodeSize), j, trees);
  }

  lemma {:induction false} ApartSingle(s: Span, t: Span)
    requires SpansApart(s, t)
    ensures Apart([s], [t])
  {
  }

  lemma {:induction false} OwnFootprint(p: Plan, layout: Layout, i: nat)
    requires Ready(p, layout) && i < |p.all|
    ensures var n, bs, size := PlacementAt(p, layout, i), p.profile.blockSize, p.profile.inodeSize;
            && Apart([SlotSpan(n, size)], TreeSpans(n.tree, bs)) && Apart([SlotSpan(n, size)], DataSpans(n.extents, bs))
            && Apart(TreeSpans(n.tree, bs), DataSpans(n.extents, bs))
  {
    assert Foreign(p, i, true, i, false);
    hide Plan.Fits, Plan.Groups, SlotOf, HeadSpan, MetaSpan, GroupOf, OwnersKnown, NodeFits, Apart, RunSpans, OwnedRuns, TreeSpans, DataSpans, AttributesOf, BytesOf;
    FootprintIs(p, layout, i);
    SlotOffRuns(p, layout, i, i, true);
    SlotOffRuns(p, layout, i, i, false);
    OwnedApart(p, layout, i, true, i, false);
  }

  /** Owned runs of one node are apart from the footprint of another, unless both are shared file data. */
  lemma {:induction false} RunsOffFootprint(p: Plan, layout: Layout, i: nat, trees: bool, j: nat)
    requires Ready(p, layout) && i < |p.all| && j < |p.all| && i != j
    ensures Apart(RunSpans(OwnedRuns(layout, i, trees), p.profile.blockSize),
                  Footprint(PlacementAt(p, layout, j), p.shared, p.profile.blockSize, p.profile.inodeSize))
  {
    assert Foreign(p, j, true, i, trees) && (Copied(p, j) ==> Foreign(p, j, false, i, trees));
    var bs, size := p.profile.blockSize, p.profile.inodeSize;
    var m, runs := PlacementAt(p, layout, j), RunSpans(OwnedRuns(layout, i, trees), bs);
    assert m.isDir == p.all[j].IsDir();
    hide Plan.Fits, Plan.Groups, SlotOf, HeadSpan, MetaSpan, GroupOf, OwnersKnown, NodeFits, Apart, RunSpans, OwnedRuns, TreeSpans, DataSpans, AttributesOf, BytesOf, Footprint, Copied, Foreign, CopiedExtents;
    FootprintIs(p, layout, j);
    SlotOffRuns(p, layout, j, i, trees);
    OwnedApart(p, layout, j, true, i, trees);
    if Copied(p, j) {
      OwnedApart(p, layout, j, false, i, trees);
    }
    CopiedApart(p, m, j, runs);
    OffFootprint(runs, m, p.shared, bs, size);
  }

  lemma {:induction false} SlotOffFootprint(p: Plan, layout: Layout, i: nat, j: nat)
    requires Ready(p, layout) && i < |p.all| && j < |p.all| && i != j
    ensures Apart([SlotSpan(PlacementAt(p, layout, i), p.profile.inodeSize)],
                  Footprint(PlacementAt(p, layout, j), p.shared, p.profile.blockSize, p.profile.inodeSize))
  {
    var bs, size := p.profile.blockSize, p.profile.inodeSize;
    var n, m := PlacementAt(p, layout, i), PlacementAt(p, layout, j);
    assert m.isDir == p.all[j].IsDir();
    hide Plan.Fits, Plan.Groups, SlotOf, HeadSpan, MetaSpan, GroupOf, OwnersKnown, NodeFits, Apart, RunSpans, OwnedRuns, TreeSpans, DataSpans, AttributesOf, BytesOf, Footprint, Copied, CopiedExtents;
    FootprintIs(p, layout, i);
    FootprintIs(p, layout, j);
    SlotsApart(p, i, j);
    ApartSingle(SlotSpan(m, size), SlotSpan(n, size));
    SlotOffRuns(p, layout, i, j, true);
    SlotOffRuns(p, layout, i, j, false);
    ApartSwap([SlotSpan(n, size)], TreeSpans(m.tree, bs));
    ApartSwap([SlotSpan(n, size)], DataSpans(m.extents, bs));
    CopiedApart(p, m, j, [SlotSpan(n, size)]);
    OffFootprint([SlotSpan(n, size)], m, p.shared, bs, size);
  }

  /** What one node reads is apart from what another writes. */
  lemma {:induction false} TwoFootprints(p: Plan, layout: Layout, i: nat, j: nat)
    requires Ready(p, layout) && i < |p.all| && j < |p.all| && i != j
    ensures Apart(Footprint(PlacementAt(p, layout, i), false, p.profile.blockSize, p.profile.inodeSize),
                  Footprint(PlacementAt(p, layout, j), p.shared, p.profile.blockSize, p.profile.inodeSize))
  {
    hide Plan.Fits, Plan.Groups, SlotOf, HeadSpan, MetaSpan, GroupOf, OwnersKnown, NodeFits, Apart, RunSpans, OwnedRuns, TreeSpans, DataSpans, AttributesOf, BytesOf, Footprint;
    var bs, size := p.profile.blockSize, p.profile.inodeSize;
    var n, m := PlacementAt(p, layout, i), PlacementAt(p, layout, j);
    FootprintIs(p, layout, i);
    SlotOffFootprint(p, layout, i, j);
    RunsOffFootprint(p, layout, i, true, j);
    RunsOffFootprint(p, layout, i, false, j);
    OffFootprint(Footprint(m, p.shared, bs, size), n, false, bs, size);
  }

  /** The head of a group is apart from everything a node reads or writes. */
  lemma {:induction false} HeadOffFootprint(p: Plan, layout: Layout, g: nat, j: nat)
    requires Ready(p, layout) && g < p.Groups() && j < |p.all|
    ensures var m, bs := PlacementAt(p, layout, j), p.profile.blockSize;
            && Apart(DataSpans(m.extents, bs), [HeadSpan(p, g)])
            && Apart([HeadSpan(p, g)], Footprint(m, p.shared, bs, p.profile.inodeSize))
  {
    var bs, size, head := p.profile.blockSize, p.profile.inodeSize, HeadSpan(p, g);
    var m := PlacementAt(p, layout, j);
    assert m.isDir == p.all[j].IsDir();
    hide Plan.Fits, Plan.Groups, SlotOf, HeadSpan, MetaSpan, GroupOf, OwnersKnown, NodeFits, Apart, RunSpans, OwnedRuns, TreeSpans, DataSpans, AttributesOf, BytesOf, Footprint, Copied, CopiedExtents;
    FootprintIs(p, layout, j);
    HeadFirst(p, g);
    SlotOffHead(p, j, g);
    ApartSingle(SlotSpan(m, size), head);
    MetaOffRuns(p, layout, g, head, j, true);
    MetaOffRuns(p, layout, g, head, j, false);
    ApartSwap([head], TreeSpans(m.tree, bs));
    ApartSwap([head], DataSpans(m.extents, bs));
    CopiedApart(p, m, j, [head]);
    OffFootprint([head], m, p.shared, bs, size);
  }

  function ImageSize(p: Plan): nat {
    BlockAt(p.total, p.profile.blockSize)
  }

  // ---- Placements can be written ---------------------------------------------------------------------------

  lemma {:induction false} MapsBelow(extents: seq<Extent>, n: nat)
    requires MapsBlocks(extents, n)
    ensures forall i :: 0 <= i < |extents| ==> extents[i].logical + extents[i].length <= n
    ensures n == 0 ==> extents == []
    decreases |extents|
  {
    if extents != [] {
      var k := |extents| - 1;
      MapsBelow(extents[..k], extents[k].logical);
      assert forall i :: 0 <= i < k ==> extents[..k][i] == extents[i];
    }
  }

  lemma {:induction false} ExtentStorable(e: Extent, n: nat, bpg: nat, meta: nat, total: nat)
    requires 0 < meta <= bpg <= 32768 && e.length > 0 && e.logical + e.length <= n < U32_LIMIT
    requires e.start + e.length <= total < U32_LIMIT
    requires forall b :: InRun(b, Run(e.start, e.length)) ==> !IsMeta(b, bpg, meta)
    ensures Storable(e)
  {
    hide IsMeta;
    assert forall b :: e.start <= b < e.start + e.length ==> InRun(b, Run(e.start, e.length));
    DataRunInOneGroup(e.start, e.length, bpg, meta);
  }

  lemma {:induction false} FileStorable(extents: seq<Extent>, n: nat, bpg: nat, meta: nat, total: nat)
    requires 0 < meta <= bpg <= 32768 && n < U32_LIMIT && total < U32_LIMIT
    requires forall i :: 0 <= i < |extents| ==> extents[i].logical + extents[i].length <= n
    requires RunsFit(RunsOf(extents), bpg, meta, total)
    ensures AllStorable(extents)
  {
    hide IsMeta, Storable;
    var runs := RunsOf(extents);
    forall i | 0 <= i < |extents|
      ensures Storable(extents[i])
    {
      assert runs[i] == Run(extents[i].start, extents[i].length);
      ExtentStorable(extents[i], n, bpg, meta, total);
    }
  }

  lemma {:induction false} FileRunsApart(extents: seq<Extent>, bpg: nat, meta: nat, total: nat, blockSize: nat)
    requires bpg > 0 && RunsFit(RunsOf(extents), bpg, meta, total) && Ascending(RunsOf(extents), total)
    ensures RunsApart(extents, blockSize, total * blockSize)
  {
    hide IsMeta, RunSpan, DataSpan;
    var runs, spans := RunsOf(extents), DataSpans(extents, blockSize);
    DataSpansAreRuns(extents, blockSize);
    forall i | 0 <= i < |extents|
      ensures DataSpan(extents[i], blockSize) == RunSpan(runs[i], blockSize)
    {
      assert spans[i] == DataSpan(extents[i], blockSize) && spans[i] == RunSpans(runs, blockSize)[i];
    }
    forall i, j | 0 <= i < j < |extents|
      ensures DataSpan(extents[i], blockSize).until <= DataSpan(extents[j], blockSize).from
    {
      RunSpanOrder(runs[i], runs[j], blockSize);
    }
    forall i | 0 <= i < |extents|
      ensures DataSpan(extents[i], blockSize).until <= total * blockSize
    {
      RunInImage(runs[i], blockSize, total);
    }
  }

  lemma {:induction false} TreeFits(tree: seq<nat>, bpg: nat, meta: nat, total: nat, blockSize: nat)
    requires bpg > 0 && RunsFit(TreeRuns(tree), bpg, meta, total) && Ascending(TreeRuns(tree), total)
    ensures Distinct(tree) && SpansInImage(TreeSpans(tree, blockSize), total * blockSize)
    ensures forall i :: 0 <= i < |tree| ==> tree[i] < total
  {
    hide IsMeta, RunSpan, TreeSpans;
    var runs := TreeRuns(tree);
    TreeSpansAreRuns(tree, blockSize);
    assert forall i :: 0 <= i < |tree| ==> runs[i] == Run(tree[i], 1);
    forall i, j | 0 <= i < j < |tree|
      ensures tree[i] != tree[j]
    {
      assert runs[i].start + runs[i].length <= runs[j].start;
    }
    forall i | 0 <= i < |tree|
      ensures RunSpans(runs, blockSize)[i].until <= total * blockSize
    {
      RunInImage(runs[i], blockSize, total);
    }
  }

  /** What the layout says about node `i`. */
  ghost predicate NodeLaidOut(p: Plan, layout: Layout, i: nat)
    requires Placeable(p, layout) && i < |p.all|
  {
    var need := NeedBlocks(p.profile, FileNodeOf(p.all[i], p.profile.blockSize));
    && (Copied(p, i) ==> MapsBlocks(layout.files[i], need))
    && (forall k :: 0 <= k < |layout.files[i]| ==> layout.files[i][k].logical + layout.files[i][k].length <= need)
    && |layout.files[i]| <= MAX_EXTENTS && |layout.trees[i]| == TreeCount(|layout.files[i]|)
  }

  lemma {:induction false} BuildableNode(p: Plan, layout: Layout, i: nat)
    requires Buildable(p, layout) && i < |p.all|
    ensures Ready(p, layout) && NodeLaidOut(p, layout, i)
  {
    LayoutOwners(p, layout);
    BuildablePlaces(p, layout);
    if p.shared {
      SharedNodeLaidOut(p, layout, i);
    } else {
      PlainNodeLaidOut(p, layout, i);
    }
    hide NodeLaidOut, Placeable, OwnersKnown, Numbered, MetaBlocks, Pow2, NodesFit;
  }

  lemma {:induction false} PlainNodeLaidOut(p: Plan, layout: Layout, i: nat)
    requires Buildable(p, layout) && Placeable(p, layout) && i < |p.all| && !p.shared
    ensures NodeLaidOut(p, layout, i)
  {
    PlainParts(p, layout, i);
    hide *;
    MapsBelow(layout.files[i], NeedBlocks(p.profile, FileNodeOf(p.all[i], p.profile.blockSize)));
    NodeIsLaidOut(p, layout, i);
  }

  lemma {:induction false} PlainParts(p: Plan, layout: Layout, i: nat)
    requires Buildable(p, layout) && Placeable(p, layout) && i < |p.all| && !p.shared
    ensures Sane(p.profile) && NodeFits(p.all[i], p.profile.blockSize) && |layout.files| == |layout.trees| == |p.all|
    ensures MapsBlocks(layout.files[i], NeedBlocks(p.profile, FileNodeOf(p.all[i], p.profile.blockSize)))
    ensures |layout.files[i]| <= MAX_EXTENTS && |layout.trees[i]| == TreeCount(|layout.files[i]|)
  {
    hide Plan.Fits, MapsBlocks, TreeCount, NeedBlocks, Partition, Count, FileNodeOf, NodeFits, AllSpread, MetaBlocks, DataBlocks;
    assert FileNodes(p.all, p.profile.blockSize)[i] == FileNodeOf(p.all[i], p.profile.blockSize);
  }

  lemma {:induction false} NodeIsLaidOut(p: Plan, layout: Layout, i: nat)
    requires Placeable(p, layout) && i < |p.all|
    requires var need := NeedBlocks(p.profile, FileNodeOf(p.all[i], p.profile.blockSize));
             && MapsBlocks(layout.files[i], need)
             && forall k :: 0 <= k < |layout.files[i]| ==> layout.files[i][k].logical + layout.files[i][k].length <= need
    requires |layout.files[i]| <= MAX_EXTENTS && |layout.trees[i]| == TreeCount(|layout.files[i]|)
    ensures NodeLaidOut(p, layout, i)
  {
    hide MapsBlocks, TreeCount, NeedBlocks, FileNodeOf, NodesFit;
  }

  lemma {:induction false} SharedNodeLaidOut(p: Plan, layout: Layout, i: nat)
    requires Buildable(p, layout) && Placeable(p, layout) && i < |p.all| && p.shared
    ensures NodeLaidOut(p, layout, i)
  {
    SharedLaidOutNode(p, layout, i);
    hide Buildable, MapsBlocks, TreeCount, FileNodeOf, NodesFit, NodeFits, SharedNodeOf, NeedBlocks;
    SameNeed(p.profile, p.all[i]);
    if p.all[i].IsDir() {
      DirIsOwn(p.all[i], p.profile.blockSize);
    }
    ShapeBelow(SharedNodeOf(p.all[i], p.profile.blockSize), layout.files[i], p.total, p.profile.blockSize);
  }

  lemma {:induction false} ShapeBelow(node: S.SharedNode, extents: seq<Extent>, total: nat, blockSize: nat)
    requires blockSize > 0 && S.NodeShaped(node, extents, total, blockSize)
    ensures forall k :: 0 <= k < |extents| ==> extents[k].logical + extents[k].length <= S.NeedOf(node, blockSize)
    ensures node.Own? ==> MapsBlocks(extents, S.NeedOf(node, blockSize))
  {
    hide DivCeil;
    if node.Own? {
      MapsBelow(extents, DivCeil(node.size, blockSize));
    }
  }

  lemma {:induction false} NodeNeeds(p: Profile, n: T.Node)
    requires Sane(p) && NodeFits(n, p.blockSize)
    ensures var need, size := NeedBlocks(p, FileNodeOf(n, p.blockSize)), |BytesOf(n, p.blockSize)|;
            && need == (if Inline(AttributesOf(n), size) then 0 else DivCeil(size, p.blockSize)) && need < U32_LIMIT
  {
    hide DivCeil, Inline, BytesOf, AttributesOf;
    DivCeilAtMost(|BytesOf(n, p.blockSize)|, |BytesOf(n, p.blockSize)|, p.blockSize);
    MulMonotone(1, p.blockSize, |BytesOf(n, p.blockSize)|);
  }

  lemma {:induction false} NothingBelow(extents: seq<Extent>)
    requires forall k :: 0 <= k < |extents| ==> extents[k].logical + extents[k].length <= 0
    requires forall k :: 0 <= k < |extents| ==> RunsOf(extents)[k].length > 0
    ensures extents == []
  {
    assert extents != [] ==> RunsOf(extents)[0].length == extents[0].length;
  }

  /** The extents of a node map its bytes, or it is an inline link without extents. */
  lemma {:induction false} NodeContent(p: Plan, layout: Layout, i: nat)
    requires Ready(p, layout) && i < |p.all| && NodeLaidOut(p, layout, i)
    ensures var n := PlacementAt(p, layout, i);
            if Inline(n.attributes, |n.data|) then n.extents == []
            else Copied(p, i) ==> TilesFile(n.extents, p.profile.blockSize, |n.data|)
  {
    FitsSane(p);
    OwnedFits(p, layout, i, false);
    hide Plan.Fits, OwnersKnown, MapsBlocks, NeedBlocks, TilesFile, SlotOf, BytesOf, AttributesOf, DivCeil, Inline, NodeFits, FileNodeOf, Copied, MetaOf;
    NodeNeeds(p.profile, p.all[i]);
    var n := PlacementAt(p, layout, i);
    if Inline(n.attributes, |n.data|) {
      NothingBelow(n.extents);
    } else if Copied(p, i) {
      MappedFileTiles(n.extents, p.profile.blockSize, |n.data|);
    }
  }

  lemma {:induction false} AttributesFit(n: T.Node, blockSize: nat)
    requires NodeFits(n, blockSize)
    ensures AttributesOf(n).InRange()
  {
  }

  /** Every placement can be written. */
  lemma {:induction false} PlacementWritable(p: Plan, layout: Layout, i: nat)
    requires Ready(p, layout) && i < |p.all| && NodeLaidOut(p, layout, i) && p.profile.blocksPerGroup <= 32768
    ensures Writable(PlacementAt(p, layout, i), p.shared, p.profile.blockSize, p.profile.inodeSize, ImageSize(p))
  {
    FitsSane(p);
    assert 0 < p.total < U32_LIMIT && p.Groups() > 0 by {
      GroupExists(p, i);
    }
    AttributesFit(p.all[i], p.profile.blockSize);
    var bpg, meta, bs := p.profile.blocksPerGroup, MetaOf(p), p.profile.blockSize;
    NodeNeeds(p.profile, p.all[i]);
    NodeContent(p, layout, i);
    OwnFootprint(p, layout, i);
    SlotInTable(p, i);
    HeadFirst(p, GroupOf(p.all[i].nid, p.profile.inodesPerGroup));
    MetaFitsGroup(p, 0);
    OwnedFits(p, layout, i, false);
    OwnedFits(p, layout, i, true);
    OwnedAscend(p, layout, i, true);
    CopiedRunsApart(p, layout, i);
    hide Plan.Fits, OwnersKnown, MapsBlocks, NeedBlocks, TilesFile, SlotOf, BytesOf, AttributesOf, DivCeil, Inline, NodeFits, FileNodeOf, RunsFit, Ascending, RunsApart, AllStorable, Distinct, TreeSpans, DataSpans, Apart, MetaOf, SpansInImage, MetaSpan, HeadSpan, GroupOf, TreeCount;
    FileStorable(layout.files[i], NeedBlocks(p.profile, FileNodeOf(p.all[i], bs)), bpg, meta, p.total);
    TreeFits(layout.trees[i], bpg, meta, p.total, bs);
  }

  lemma {:induction false} CopiedRunsApart(p: Plan, layout: Layout, i: nat)
    requires Ready(p, layout) && i < |p.all|
    ensures RunsApart(CopiedExtents(PlacementAt(p, layout, i), p.shared), p.profile.blockSize, p.total * p.profile.blockSize)
  {
    hide Plan.Fits, OwnersKnown, SlotOf, BytesOf, AttributesOf, NodeFits, MetaOf, Ascending, RunsFit;
    if Copied(p, i) {
      OwnedFits(p, layout, i, false);
      OwnedAscend(p, layout, i, false);
      FileRunsApart(layout.files[i], p.profile.blocksPerGroup, MetaOf(p), p.total, p.profile.blockSize);
    }
  }

  lemma {:induction false} AllPlacementsWritable(p: Plan, layout: Layout)
    requires Buildable(p, layout)
    ensures Placeable(p, layout)
    ensures AllWritable(Placements(p, layout), p.shared, p.profile.blockSize, p.profile.inodeSize, ImageSize(p))
    ensures FootprintsApart(Placements(p, layout), p.shared, p.profile.blockSize, p.profile.inodeSize)
  {
    BuildablePlaces(p, layout);
    var nodes := Placements(p, layout);
    assert p.profile.blocksPerGroup <= 32768;
    hide Buildable, Writable, Footprint, PlacementAt, Apart, Placeable, Ready, NodeLaidOut;
    forall i | 0 <= i < |nodes|
      ensures Writable(nodes[i], p.shared, p.profile.blockSize, p.profile.inodeSize, ImageSize(p))
    {
      BuildableNode(p, layout, i);
      PlacementWritable(p, layout, i);
    }
    forall i, j | 0 <= i < |nodes| && 0 <= j < |nodes| && i != j
      ensures Apart(Footprint(nodes[i], false, p.profile.blockSize, p.profile.inodeSize),
                    Footprint(nodes[j], p.shared, p.profile.blockSize, p.profile.inodeSize))
    {
      BuildableNode(p, layout, i);
      TwoFootprints(p, layout, i, j);
    }
  }
}
