/** The layout of an image with shared blocks: placement, tree blocks, and the size that suffices for both. */
module Ext4SharedLayout {
  import opened Core
  import opened Arith
  import opened OutFile
  import opened Ext4Plan
  import opened Ext4Alloc
  import opened Ext4Build
  import opened Ext4Content
  import opened Ext4Owners
  import opened Ext4Shared

  /** What a finished layout with shared blocks is. */
  ghost predicate SharedLaidOut(p: Profile, total: nat, nodes: seq<SharedNode>, layout: Layout, used: seq<bool>)
    requires Sane(p)
  {
    && |used| == total && |layout.files| == |layout.trees| == |nodes|
    && (forall i :: 0 <= i < |nodes| ==>
          |layout.files[i]| <= MAX_EXTENTS && |layout.trees[i]| == TreeCount(|layout.files[i]|))
    && (forall i :: 0 <= i < |nodes| ==> NodeShaped(nodes[i], layout.files[i], total, p.blockSize))
    && OwnOff(nodes, layout.files)
    && ((forall i :: 0 <= i < |nodes| ==> |layout.files[i]| < MAX_EXTENTS) ==> StoredOnce(nodes, layout.files, p.blockSize))
    && SharedPartition(used, nodes, layout, p.blocksPerGroup, MetaBlocks(p, DivCeil(total, p.blocksPerGroup)))
  }

  /** Blocks of a node of its own meet no other node's. */
  ghost predicate OwnOff(nodes: seq<SharedNode>, files: seq<seq<Extent>>)
    requires |files| == |nodes|
  {
    forall i, j :: 0 <= i < |nodes| && 0 <= j < |nodes| && i != j && !nodes[i].Shared? ==>
      AllOff(RunsOf(files[i]), RunsOf(files[j])) && AllOff(RunsOf(files[j]), RunsOf(files[i]))
  }

  /** The used blocks are metadata, the blocks that the extents are made of, and tree blocks behind them. */
  ghost predicate SharedPartition(used: seq<bool>, nodes: seq<SharedNode>, layout: Layout, bpg: nat, meta: nat)
    requires bpg > 0 && |layout.files| == |nodes|
  {
    exists next, runs ::
      && Partition(used, next, runs + AllTreeRuns(layout.trees), bpg, meta)
      && (forall i :: 0 <= i < |nodes| ==> AllOwned(layout.files[i], runs))
      && NothingLost(runs, layout.files)
  }

  /** The shared files are on the image, and everything that is metadata is still zero. */
  ghost predicate SharedData(content: bytes, p: Profile, total: nat, nodes: seq<SharedNode>, files: seq<seq<Extent>>)
    requires Sane(p)
  {
    && |content| == total * p.blockSize && |files| == |nodes|
    && (forall i :: 0 <= i < |nodes| && nodes[i].Shared? ==> FileOnDisk(content, p.blockSize, files[i], nodes[i].content))
    && MetaBlank(content, p, total)
  }

  ghost predicate MetaBlank(content: bytes, p: Profile, total: nat)
    requires Sane(p)
  {
    forall b: nat :: b < total && IsMeta(b, p.blocksPerGroup, MetaBlocks(p, DivCeil(total, p.blocksPerGroup))) ==>
      BlankBlock(content, p.blockSize, b)
  }

  /** Tree blocks and saved blocks balance: sharing never needs more than the planner's estimate. */
  lemma {:induction false} SharedTreesFit(files: seq<seq<Extent>>, groups: nat, need: nat, taken: nat)
    requires taken <= need && Crossings(files) <= 2 * (need - taken) + Max(groups - 1, 0)
    ensures taken + TreeTotal(files) <= need + |files| + ExtraTrees(groups)
  {
    TreeTotalBound(files);
    var saved, extra, trees := need - taken, Max(groups - 2, 0), TreeTotal(files);
    assert TREE_ENTRIES * trees <= TREE_ENTRIES * |files| + 2 * saved + extra;
    assert extra < TREE_ENTRIES * ExtraTrees(groups) + TREE_ENTRIES;
  }

  lemma {:induction false} OwnApartOff(data: map<nat, bytes>, runs: seq<Run>, nodes: seq<SharedNode>, files: seq<seq<Extent>>, total: nat, blockSize: nat)
    requires blockSize > 0 && |files| == |nodes| && OwnApart(nodes, files, |nodes|)
    requires forall i :: 0 <= i < |nodes| ==> NodeMapped(data, runs, blockSize, nodes[i], files[i])
    requires forall i :: 0 <= i < |nodes| ==> NodeShaped(nodes[i], files[i], total, blockSize)
    ensures OwnOff(nodes, files)
  {
    hide NodeMapped, NodeShaped, AllOff;
    forall i, j | 0 <= i < |nodes| && 0 <= j < |nodes| && i != j && !nodes[i].Shared?
      ensures AllOff(RunsOf(files[i]), RunsOf(files[j])) && AllOff(RunsOf(files[j]), RunsOf(files[i]))
    {
      if nodes[j].Shared? {
        OwnOffShared(data, runs, nodes[i], files[i], nodes[j], files[j], total, blockSize);
      } else if i < j {
        assert AllOff(RunsOf(files[i]), RunsOf(files[j]));
      } else {
        assert AllOff(RunsOf(files[j]), RunsOf(files[i]));
      }
      OffBothWays(RunsOf(files[i]), RunsOf(files[j]));
    }
  }

  lemma {:induction false} OffBothWays(a: seq<Run>, b: seq<Run>)
    ensures AllOff(a, b) <==> AllOff(b, a)
  {
    if AllOff(a, b) {
      forall i, j | 0 <= i < |b| && 0 <= j < |a|
        ensures RunsOff(b[i], a[j])
      {
        assert RunsOff(a[j], b[i]);
      }
    }
    if AllOff(b, a) {
      forall i, j | 0 <= i < |a| && 0 <= j < |b|
        ensures RunsOff(a[i], b[j])
      {
        assert RunsOff(b[j], a[i]);
      }
    }
  }

  /** A node's own blocks are no shared blocks, and a shared file consists of shared blocks. */
  lemma {:induction false} OwnOffShared(
    data: map<nat, bytes>, runs: seq<Run>, own: SharedNode, a: seq<Extent>, shared: SharedNode, b: seq<Extent>, total: nat, blockSize: nat)
    requires blockSize > 0 && !own.Shared? && shared.Shared?
    requires NodeMapped(data, runs, blockSize, own, a) && NodeMapped(data, runs, blockSize, shared, b)
    requires NodeShaped(own, a, total, blockSize)
    ensures AllOff(RunsOf(a), RunsOf(b))
  {
    OwnMapped(data, runs, blockSize, own, a);
    OwnAscends(own, a, total, blockSize);
    SharedMapped(data, runs, blockSize, shared, b);
    MapsInOrder(data, blockSize, b, shared.content, DivCeil(|shared.content|, blockSize));
    hide NodeMapped, NodeShaped, DivCeil, MapsFile;
    var r, s := RunsOf(a), RunsOf(b);
    forall i, j | 0 <= i < |r| && 0 <= j < |s|
      ensures RunsOff(r[i], s[j])
    {
      var block := MeetingBlock(r[i], s[j]);
      if InRun(block, s[j]) {
        SharedBlock(data, blockSize, b, shared.content, DivCeil(|shared.content|, blockSize), j, block);
        assert !InRun(block, Run(a[i].start, a[i].length));
      }
    }
  }

  lemma {:induction false} SharedBlock(data: map<nat, bytes>, blockSize: nat, extents: seq<Extent>, content: bytes, until: nat, j: nat, b: nat)
    requires MapsFile(data, blockSize, extents, content, until) && j < |extents| && InRun(b, Run(extents[j].start, extents[j].length))
    ensures b in data
  {
    hide BlockOf, Covered;
    var logical := extents[j].logical + (b - extents[j].start);
    assert Covers(extents[j], logical) && MapsBlock(data, blockSize, extents[j], content, logical);
  }

  /** Extents of every node consist of owned blocks. */
  lemma {:induction false} MappedOwned(
    data: map<nat, bytes>, runs: seq<Run>, blockSize: nat, node: SharedNode, extents: seq<Extent>)
    requires blockSize > 0 && NodeMapped(data, runs, blockSize, node, extents)
    requires forall b :: b in data ==> Owned(b, runs)
    ensures AllOwned(extents, runs)
  {
    hide Owned;
    if node.Shared? {
      SharedMapped(data, runs, blockSize, node, extents);
      hide NodeMapped, MapsFile;
      forall i: nat, b: nat | i < |extents| && InRun(b, Run(extents[i].start, extents[i].length))
        ensures Owned(b, runs)
      {
        SharedBlock(data, blockSize, extents, node.content, DivCeil(|node.content|, blockSize), i, b);
      }
    } else {
      OwnMapped(data, runs, blockSize, node, extents);
    }
  }

  lemma {:induction false} DataOffMeta(content: bytes, p: Profile, total: nat, data: map<nat, bytes>, used: seq<bool>, next: nat, runs: seq<Run>)
    requires Sane(p) && Blank(content, p.blockSize, data, total)
    requires Partition(used, next, runs, p.blocksPerGroup, MetaBlocks(p, DivCeil(total, p.blocksPerGroup)))
    requires forall b :: b in data ==> Owned(b, runs)
    ensures MetaBlank(content, p, total)
  {
    hide MetaBlocks, DivCeil, IsMeta, Owned, Count, TotalLength, BlankBlock;
  }

  lemma {:induction false} TooManyExtents(nodes: seq<SharedNode>, files: seq<seq<Extent>>, f: seq<Extent>, blockSize: nat, cursor: nat)
    requires blockSize > 0 && |files| == |nodes| && f in files && |f| > MAX_EXTENTS
    requires forall i :: 0 <= i < |nodes| ==>
               if nodes[i].Shared? then |files[i]| <= NeedOf(nodes[i], blockSize) else |files[i]| <= cursor + 1
    ensures cursor + 1 > MAX_EXTENTS || exists node :: node in nodes && node.Shared? && NeedOf(node, blockSize) > MAX_EXTENTS
  {
    hide NeedOf;
    var i :| 0 <= i < |files| && files[i] == f;
    assert nodes[i] in nodes;
  }

  /**
   `rebuild_groups_to` with sharing, up to the block map: file data is on the image, and it runs out of blocks only
   where the same image without sharing could. A shared file of more than 1360 blocks can come out in too many extents.
   */
  method BuildSharedLayout(p: Profile, total: nat, nodes: seq<SharedNode>, hash: bytes -> nat)
    returns (r: Result<Layout, AllocError>, used: array<bool>, image: File)
    requires Sane(p) && total > 0 && p.blocksPerGroup <= 32768
    ensures fresh(image)
    ensures r.Ok? ==> SharedLaidOut(p, total, nodes, r.value, used[..])
    ensures r.Ok? ==> SharedData(image.content, p, total, nodes, r.value.files)
    ensures var bpg, groups := p.blocksPerGroup, DivCeil(total, p.blocksPerGroup);
            var meta := MetaBlocks(p, groups);
            && (r == Err(NoRoomForTable) <==> LastGroupBlocks(total, bpg) < meta)
            && (r.Ok? ==> meta <= LastGroupBlocks(total, bpg))
            && (r == Err(NoFreeBlocks) ==>
                  total < MetaCount(total, bpg, meta) + TotalNeed(nodes, p.blockSize) + |nodes| + ExtraTrees(groups))
            && (r == Err(TooDeep) ==>
                  groups > MAX_EXTENTS || exists node :: node in nodes && node.Shared? && NeedOf(node, p.blockSize) > MAX_EXTENTS)
            && (r == Err(NumberOverflow) ==>
                  total > U32_LIMIT || exists node :: node in nodes && NeedOf(node, p.blockSize) > U32_LIMIT)
  {
    hide MetaBlocks, Partition, NeedOf, TotalNeed, TreeCount, ExtraTrees, MetaCount, DivCeil, LastGroupBlocks, TotalLength;
    hide NodeMapped, NodeShaped, OwnApart, OwnOff, Crossings, SharedPartition, MetaBlank, Stored, Blank, Indexed, AllTreeRuns, Owned, CursorGroup, NothingLost, StoredOnce, NoDuplicates;
    var bpg := p.blocksPerGroup;
    var groups := DivCeil(total, bpg);
    var meta := MetaBlocks(p, groups);
    image := new File(Zeros(total * p.blockSize));
    var metadata;
    metadata, used := LayoutGroups(p, total);
    if metadata.Err? {
      return Err(metadata.error), used, image;
    }
    DivCeilMeaning(total, bpg);
    MetaAtLeastThree(p, groups);
    MetaInGroup(total, bpg, meta);
    var allocator := new BlockAllocator(bpg, meta, used);
    var builder := new SharedBuilder(p.blockSize, allocator, image, hash);
    NothingTwice();
    NoRunsYet();
    var files := builder.PlaceNodes(nodes);
    if files.Err? {
      return Err(files.error), used, image;
    }
    InsideTheImage(used[..], allocator.next, allocator.runs, bpg, meta);
    CursorGroupBound(allocator.next, groups, bpg);
    SharedTreesFit(files.value, groups, TotalNeed(nodes, p.blockSize), TotalLength(allocator.runs));
    ghost var runs, data, cursor := allocator.runs, builder.data, CursorGroup(allocator.next, bpg);
    OwnApartOff(data, runs, nodes, files.value, total, p.blockSize);
    DataOffMeta(image.content, p, total, data, used[..], allocator.next, runs);
    forall i | 0 <= i < |nodes|
      ensures AllOwned(files.value[i], runs)
    {
      MappedOwned(data, runs, p.blockSize, nodes[i], files.value[i]);
    }
    assert SharedData(image.content, p, total, nodes, files.value) by { StoredLength(image.content, p.blockSize, data, total); }
    var trees := allocator.PlaceTrees(files.value);
    if trees.Err? {
      if trees.error == TooDeep {
        ghost var f :| f in files.value && |f| > MAX_EXTENTS;
        TooManyExtents(nodes, files.value, f, p.blockSize, cursor);
      }
      return Err(trees.error), used, image;
    }
    r := Ok(Layout(files.value, trees.value));
    PartitionOf(used[..], allocator.next, runs, nodes, r.value, bpg, meta);
  }

  lemma {:induction false} NothingTwice()
    ensures NoDuplicates(map[])
  {
  }

  lemma {:induction false} NoRunsYet()
    ensures TotalLength([]) == 0
  {
  }

  lemma {:induction false} StoredLength(content: bytes, blockSize: nat, data: map<nat, bytes>, total: nat)
    requires Stored(content, blockSize, data, total)
    ensures |content| == total * blockSize
  {
  }

  lemma {:induction false} MetaInGroup(total: nat, bpg: nat, meta: nat)
    requires total > 0 && bpg > 0 && meta <= LastGroupBlocks(total, bpg)
    ensures meta <= bpg
  {
  }

  lemma {:induction false} PartitionOf(used: seq<bool>, next: nat, runs: seq<Run>, nodes: seq<SharedNode>, layout: Layout, bpg: nat, meta: nat)
    requires bpg > 0 && |layout.files| == |nodes| && Partition(used, next, runs + AllTreeRuns(layout.trees), bpg, meta)
    requires NothingLost(runs, layout.files) && forall i :: 0 <= i < |nodes| ==> AllOwned(layout.files[i], runs)
    ensures SharedPartition(used, nodes, layout, bpg, meta)
  {
    hide Partition, AllOwned, NothingLost;
  }
}
