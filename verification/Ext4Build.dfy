/**
 Planning and laying out together: the size the planner asks for is one the allocator never runs out of.
 */
module Ext4Build {
  import opened Core
  import opened Arith
  import opened Ext4Plan
  import opened Ext4Alloc

  /** What a finished layout is: every node mapped, every block owned once, the counts exact. */
  ghost predicate LaidOut(p: Profile, total: nat, nodes: seq<FileNode>, layout: Layout, used: seq<bool>)
    requires Sane(p)
  {
    var meta := MetaBlocks(p, DivCeil(total, p.blocksPerGroup));
    && |used| == total
    && Placed(p, nodes, layout.files) && AllSpread(layout.files, p.blocksPerGroup)
    && |layout.trees| == |nodes|
    && (forall i :: 0 <= i < |nodes| ==>
          |layout.files[i]| <= MAX_EXTENTS && |layout.trees[i]| == TreeCount(|layout.files[i]|))
    && (exists next :: Partition(used, next, FileRuns(layout.files) + AllTreeRuns(layout.trees), p.blocksPerGroup, meta))
    && Count(used) == MetaCount(total, p.blocksPerGroup, meta) + DataBlocks(p, nodes) + TreeTotal(layout.files)
  }

  /** Tree blocks beyond one a node that the files of an image of `groups` groups may take. */
  function ExtraTrees(groups: nat): nat {
    Max(groups - 2, 0) / TREE_ENTRIES
  }

  lemma {:induction false} LongestFile(files: seq<seq<Extent>>, f: seq<Extent>)
    requires f in files
    ensures |f| <= Crossings(files) + 1
    decreases |files|
  {
    var k := |files| - 1;
    if f != files[k] {
      assert f in files[..k];
      LongestFile(files[..k], f);
    }
  }

  lemma {:induction false} CursorGroupBound(next: nat, groups: nat, bpg: nat)
    requires bpg > 0 && groups > 0 && next <= groups * bpg
    ensures CursorGroup(next, bpg) <= groups - 1
  {
    if next > 0 {
      GroupArithmetic(next - 1, bpg);
      if (next - 1) / bpg >= groups {
        MulMonotone(groups, (next - 1) / bpg, bpg);
      }
    }
  }

  /** The trees of a layout fit the planner's estimate but for the extra ones. */
  lemma {:induction false} TreesFit(files: seq<seq<Extent>>, groups: nat)
    requires Crossings(files) <= Max(groups - 1, 0)
    ensures TreeTotal(files) <= |files| + ExtraTrees(groups)
  {
    TreeTotalBound(files);
    var extra := Max(groups - 2, 0);
    assert TREE_ENTRIES * TreeTotal(files) <= TREE_ENTRIES * |files| + extra;
  }

  /**
   `rebuild_groups_to` without sharing, up to the block map: it fails for want of blocks only on an image
   smaller than metadata, data and trees together.
   */
  method BuildLayout(p: Profile, total: nat, nodes: seq<FileNode>)
    returns (r: Result<Layout, AllocError>, used: array<bool>)
    requires Sane(p) && total > 0 && p.blocksPerGroup <= 32768
    ensures r.Ok? ==> LaidOut(p, total, nodes, r.value, used[..])
    ensures var bpg, groups := p.blocksPerGroup, DivCeil(total, p.blocksPerGroup);
            var meta := MetaBlocks(p, groups);
            && (r == Err(NoRoomForTable) <==> LastGroupBlocks(total, bpg) < meta)
            && (r == Err(NoFreeBlocks) ==>
                  total < MetaCount(total, bpg, meta) + DataBlocks(p, nodes) + |nodes| + ExtraTrees(groups))
            && (r == Err(TooDeep) ==> groups > MAX_EXTENTS)
            && (r == Err(NumberOverflow) ==>
                  total > U32_LIMIT || exists node :: node in nodes && NeedBlocks(p, node) > U32_LIMIT)
            && (r.Ok? ==> TreeTotal(r.value.files) <= |nodes| + ExtraTrees(groups))
  {
    hide MetaBlocks, Partition, DataBlocks, NeedBlocks, TreeCount, Spread, MapsBlocks, ExtraTrees, MetaCount, DivCeil;
    var bpg := p.blocksPerGroup;
    var groups := DivCeil(total, bpg);
    var meta := MetaBlocks(p, groups);
    var metadata;
    metadata, used := LayoutGroups(p, total);
    if metadata.Err? {
      return Err(metadata.error), used;
    }
    DivCeilMeaning(total, bpg);
    MetaAtLeastThree(p, groups);
    var allocator := new BlockAllocator(bpg, meta, used);
    var files := allocator.PlaceFiles(p, nodes);
    if files.Err? {
      return Err(files.error), used;
    }
    InsideTheImage(used[..], allocator.next, allocator.runs, bpg, meta);
    CursorGroupBound(allocator.next, groups, bpg);
    TreesFit(files.value, groups);
    ghost var fileRuns := allocator.runs;
    var trees := allocator.PlaceTrees(files.value);
    if trees.Err? {
      if trees.error == TooDeep {
        ghost var f :| f in files.value && |f| > MAX_EXTENTS;
        LongestFile(files.value, f);
      }
      return Err(trees.error), used;
    }
    CountOfPartition(used[..], allocator.next, allocator.runs, bpg, meta);
    r := Ok(Layout(files.value, trees.value));
  }

  lemma {:induction false} MetaAtLeastThree(p: Profile, groups: nat)
    requires Sane(p)
    ensures MetaBlocks(p, groups) >= 3
  {
  }

  lemma {:induction false} InsideTheImage(used: seq<bool>, next: nat, runs: seq<Run>, bpg: nat, meta: nat)
    requires bpg > 0 && Partition(used, next, runs, bpg, meta)
    ensures next <= |used|
  {
  }

  lemma {:induction false} CountOfPartition(used: seq<bool>, next: nat, runs: seq<Run>, bpg: nat, meta: nat)
    requires bpg > 0 && Partition(used, next, runs, bpg, meta)
    ensures Count(used) == MetaCount(|used|, bpg, meta) + TotalLength(runs)
  {
  }

  lemma {:induction false} WholeGroups(groups: nat, bpg: nat, meta: nat)
    requires bpg > 0
    ensures DivCeil(groups * bpg, bpg) == groups
    ensures MetaCount(groups * bpg, bpg, meta) == groups * meta
    ensures LastGroupBlocks(groups * bpg, bpg) == bpg
  {
    DivCeilUnique(groups * bpg, groups, bpg);
    DivUnique(groups * bpg, groups, 0, bpg);
  }

  /** A planned total with slack: metadata fits its groups and the demand fits the image. */
  lemma {:induction false} SlackMeans(p: Profile, nodes: seq<FileNode>, reserve: nat, groups: nat)
    requires Sane(p) && p.blocksPerGroup >= 4 && groups >= 1 && Slack(p, nodes, reserve, groups)
    ensures Demand(p, nodes, groups) + Max(p.blocksPerGroup / 4, reserve) <= groups * p.blocksPerGroup
    ensures MetaBlocks(p, groups) <= p.blocksPerGroup
  {
    hide MetaBlocks;
    if MetaBlocks(p, groups) > p.blocksPerGroup {
      MulMonotone(p.blocksPerGroup, MetaBlocks(p, groups), groups);
    }
  }

  /**
   The planner suffices for the allocator. Whenever its margin loop ended because there was room, the layout
   succeeds on the planned size at the first try, leaves the margin free (short of the tree blocks that only
   images of more than 341 groups can need), and has an inode slot for every node.
   */
  method PlanAndBuild(p: Profile, nodes: seq<FileNode>, reserve: nat)
    returns (r: Result<Layout, AllocError>, total: nat, used: array<bool>, free: nat, ghost groups: nat, ghost roomy: bool)
    requires Sane(p) && 4 <= p.blocksPerGroup <= 32768
    ensures total == groups * p.blocksPerGroup
    ensures |nodes| + 9 <= groups * p.inodesPerGroup
    ensures roomy && groups <= MAX_EXTENTS && ExtraTrees(groups) <= Max(p.blocksPerGroup / 4, reserve)
            && total <= U32_LIMIT && (forall node :: node in nodes ==> NeedBlocks(p, node) <= U32_LIMIT) ==>
              r.Ok? && free >= Max(p.blocksPerGroup / 4, reserve) - ExtraTrees(groups)
    ensures r.Ok? ==> LaidOut(p, total, nodes, r.value, used[..]) && free == total - Count(used[..])
  {
    hide MetaBlocks, Demand, DataBlocks, NeedBlocks, Slack, ExtraTrees, LaidOut, MetaCount, DivCeil, LastGroupBlocks, LeastFixedPoint;
    ghost var sized, settled;
    total, sized, groups, settled, roomy := PlanTotalBlocks(p, nodes, reserve);
    MulMonotone(1, groups, p.blocksPerGroup);
    r, used := BuildLayout(p, total, nodes);
    WholeGroups(groups, p.blocksPerGroup, MetaBlocks(p, groups));
    if roomy {
      EnoughRoom(p, nodes, reserve, groups, total);
    }
    assert r.Err? ==>
        r.error.NoRoomForTable? || r.error.NoFreeBlocks? || r.error.TooDeep? || r.error.NumberOverflow?;
    if r.Ok? {
      LaidOutCounts(p, total, nodes, r.value, used[..]);
    }
    free := CountFree(used);
  }

  /** On a planned total with slack, the conditions of the layout's errors are all out of reach. */
  lemma {:induction false} EnoughRoom(p: Profile, nodes: seq<FileNode>, reserve: nat, groups: nat, total: nat)
    requires Sane(p) && p.blocksPerGroup >= 4 && groups >= 1 && Slack(p, nodes, reserve, groups)
    requires total == groups * p.blocksPerGroup
    ensures DivCeil(total, p.blocksPerGroup) == groups
    ensures MetaBlocks(p, groups) <= LastGroupBlocks(total, p.blocksPerGroup)
    ensures total >= MetaCount(total, p.blocksPerGroup, MetaBlocks(p, groups)) + DataBlocks(p, nodes) + |nodes|
                     + Max(p.blocksPerGroup / 4, reserve)
  {
    hide MetaBlocks, DivCeil, MetaCount, LastGroupBlocks, Slack, DataBlocks;
    WholeGroups(groups, p.blocksPerGroup, MetaBlocks(p, groups));
    SlackMeans(p, nodes, reserve, groups);
  }

  lemma {:induction false} LaidOutCounts(p: Profile, total: nat, nodes: seq<FileNode>, layout: Layout, used: seq<bool>)
    requires Sane(p) && LaidOut(p, total, nodes, layout, used)
    ensures var meta := MetaBlocks(p, DivCeil(total, p.blocksPerGroup));
            |used| == total
            && Count(used) == MetaCount(total, p.blocksPerGroup, meta) + DataBlocks(p, nodes) + TreeTotal(layout.files)
  {
  }

  /** Free blocks of the superblock: what is not used. */
  method CountFree(used: array<bool>) returns (free: nat)
    ensures free == used.Length - Count(used[..])
  {
    var count := 0;
    for b := 0 to used.Length
      invariant count == Count(used[..b]) <= b
    {
      assert used[..b + 1][..b] == used[..b];
      if used[b] {
        count := count + 1;
      }
    }
    assert used[..used.Length] == used[..];
    free := used.Length - count;
  }

  /** Up to 341 groups the whole margin stays free. */
  lemma {:induction false} NoExtraTrees(groups: nat)
    ensures groups <= 341 <==> ExtraTrees(groups) == 0
  {
  }
}
