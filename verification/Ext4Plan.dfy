/** Sizing of a fresh ext4 image: how many block groups the planner asks for, and why that many. */
module Ext4Plan {
  import opened Core
  import opened Arith

  datatype Profile = Profile(blockSize: nat, blocksPerGroup: nat, inodesPerGroup: nat, inodeSize: nat)

  /** What the sizing needs to know about a node; a directory's size is that of its serialised form. */
  datatype FileNode = FileNode(isDir: bool, inlineSymlink: bool, size: nat)

  predicate Sane(p: Profile) {
    p.blockSize > 0 && p.blocksPerGroup > 0 && p.inodesPerGroup > 0
  }

  function TableBlocks(p: Profile): nat
    requires Sane(p)
  {
    DivCeil(p.inodesPerGroup * p.inodeSize, p.blockSize)
  }

  function DescriptorBlocks(p: Profile, groups: nat): nat
    requires Sane(p)
  {
    DivCeil(groups * 32, p.blockSize)
  }

  /** Superblock copy, descriptor table, two bitmaps and the inode table of every group. */
  function MetaBlocks(p: Profile, groups: nat): nat
    requires Sane(p)
  {
    1 + DescriptorBlocks(p, groups) + 2 + TableBlocks(p)
  }

  /** Data blocks of one node: directories, regular files and long symlinks. */
  function NeedBlocks(p: Profile, node: FileNode): nat
    requires Sane(p)
  {
    if node.inlineSymlink then 0 else DivCeil(node.size, p.blockSize)
  }

  function DataBlocks(p: Profile, nodes: seq<FileNode>): nat
    requires Sane(p)
  {
    if nodes == [] then 0 else DataBlocks(p, nodes[..|nodes| - 1]) + NeedBlocks(p, nodes[|nodes| - 1])
  }

  /** Everything a layout of `groups` groups holds: data, one tree block a node, metadata. */
  function Demand(p: Profile, nodes: seq<FileNode>, groups: nat): nat
    requires Sane(p)
  {
    DataBlocks(p, nodes) + |nodes| + groups * MetaBlocks(p, groups)
  }

  /** Groups asked for when the metadata of `groups` groups is accounted for. */
  function Want(p: Profile, nodes: seq<FileNode>, reserve: nat, groups: nat): (w: nat)
    requires Sane(p)
    ensures w >= 1
  {
    Max(Max(DivCeil(Demand(p, nodes, groups) + reserve, p.blocksPerGroup), DivCeil(|nodes| + 16, p.inodesPerGroup)), 1)
  }

  /** The margin loop's test: a quarter group, or the reserve, stays free. */
  predicate Slack(p: Profile, nodes: seq<FileNode>, reserve: nat, groups: nat)
    requires Sane(p)
  {
    Max(0, groups * p.blocksPerGroup - Demand(p, nodes, groups)) >= Max(p.blocksPerGroup / 4, reserve)
  }

  lemma {:induction false} MetaBlocksMonotone(p: Profile, g: nat, h: nat)
    requires Sane(p) && g <= h
    ensures MetaBlocks(p, g) <= MetaBlocks(p, h)
  {
    DivCeilMonotone(g * 32, h * 32, p.blockSize);
  }

  lemma {:induction false} DemandMonotone(p: Profile, nodes: seq<FileNode>, g: nat, h: nat)
    requires Sane(p) && g <= h
    ensures Demand(p, nodes, g) <= Demand(p, nodes, h)
  {
    hide MetaBlocks;
    MetaBlocksMonotone(p, g, h);
    MulMonotone(g, h, MetaBlocks(p, g));
    MulMonotone(MetaBlocks(p, g), MetaBlocks(p, h), h);
  }

  lemma {:induction false} WantMonotone(p: Profile, nodes: seq<FileNode>, reserve: nat, g: nat, h: nat)
    requires Sane(p) && g <= h
    ensures Want(p, nodes, reserve, g) <= Want(p, nodes, reserve, h)
  {
    hide Demand;
    DemandMonotone(p, nodes, g, h);
    DivCeilMonotone(Demand(p, nodes, g) + reserve, Demand(p, nodes, h) + reserve, p.blocksPerGroup);
  }

  /** `groups` is the least count that covers its own demand. */
  ghost predicate LeastFixedPoint(p: Profile, nodes: seq<FileNode>, reserve: nat, groups: nat)
    requires Sane(p)
  {
    && groups >= 1 && Want(p, nodes, reserve, groups) <= groups
    && forall g :: 1 <= g < groups ==> Want(p, nodes, reserve, g) > g
  }

  /** `groups` is the least count from `start` on that leaves the slack. */
  ghost predicate LeastWithSlack(p: Profile, nodes: seq<FileNode>, reserve: nat, start: nat, groups: nat)
    requires Sane(p)
  {
    && groups >= start && Slack(p, nodes, reserve, groups)
    && forall g :: start <= g < groups ==> !Slack(p, nodes, reserve, g)
  }

  /** Sum of the nodes' data blocks. */
  method CountDataBlocks(p: Profile, nodes: seq<FileNode>) returns (total: nat)
    requires Sane(p)
    ensures total == DataBlocks(p, nodes)
  {
    total := 0;
    for i := 0 to |nodes|
      invariant total == DataBlocks(p, nodes[..i])
    {
      var node := nodes[i];
      if !node.inlineSymlink {
        total := total + DivCeil(node.size, p.blockSize);
      }
      assert nodes[..i + 1][..i] == nodes[..i];
    }
    assert nodes[..|nodes|] == nodes;
  }

  /** Fixed point from below, at most 32 rounds; it never overshoots a count that would do. */
  method SizeGroups(p: Profile, nodes: seq<FileNode>, reserve: nat, dataBlocks: nat)
    returns (groups: nat, ghost settled: bool)
    requires Sane(p) && dataBlocks == DataBlocks(p, nodes)
    ensures groups >= 1 && groups >= DivCeil(|nodes| + 16, p.inodesPerGroup)
    ensures forall g :: 1 <= g < groups ==> Want(p, nodes, reserve, g) > g
    ensures settled ==> LeastFixedPoint(p, nodes, reserve, groups)
    ensures !settled ==> groups > 32
  {
    hide MetaBlocks, DataBlocks, DivCeil;
    groups := 1;
    settled := false;
    for round := 0 to 32
      invariant groups >= 1 + round && !settled
      invariant round > 0 ==> groups >= DivCeil(|nodes| + 16, p.inodesPerGroup)
      invariant forall g :: 1 <= g < groups ==> Want(p, nodes, reserve, g) > g
    {
      var need := dataBlocks + |nodes| + groups * MetaBlocks(p, groups) + reserve;
      var bySpace := DivCeil(need, p.blocksPerGroup);
      var byInodes := DivCeil(|nodes| + 16, p.inodesPerGroup);
      var want := Max(Max(bySpace, byInodes), 1);
      assert want == Want(p, nodes, reserve, groups);
      if want <= groups {
        settled := true;
        break;
      }
      forall g | groups <= g < want
        ensures Want(p, nodes, reserve, g) > g
      {
        WantMonotone(p, nodes, reserve, groups, g);
      }
      groups := want;
    }
  }

  /** `plan_total_blocks` without the deduplication estimate. */
  method PlanTotalBlocks(p: Profile, nodes: seq<FileNode>, reserve: nat)
    returns (total: nat, ghost sized: nat, ghost groups: nat, ghost settled: bool, ghost roomy: bool)
    requires Sane(p)
    ensures total == groups * p.blocksPerGroup && groups >= sized >= 1
    ensures groups * p.inodesPerGroup >= |nodes| + 16
    ensures if settled then LeastFixedPoint(p, nodes, reserve, sized) else sized > 32
    ensures if roomy then LeastWithSlack(p, nodes, reserve, sized, groups)
            else groups == sized + 1024 && forall g :: sized <= g < groups ==> !Slack(p, nodes, reserve, g)
  {
    hide MetaBlocks, DataBlocks, DivCeil, LeastFixedPoint;
    var dataBlocks := CountDataBlocks(p, nodes);
    var count;
    count, settled := SizeGroups(p, nodes, reserve, dataBlocks);
    sized := count;
    total := count * p.blocksPerGroup;
    roomy := false;
    for round := 0 to 1024
      invariant count == sized + round && total == count * p.blocksPerGroup && !roomy
      invariant forall g :: sized <= g < count ==> !Slack(p, nodes, reserve, g)
    {
      var need := dataBlocks + |nodes| + count * MetaBlocks(p, count);
      if Max(0, total - need) >= Max(p.blocksPerGroup / 4, reserve) {
        roomy := true;
        break;
      }
      assert !Slack(p, nodes, reserve, count);
      count := count + 1;
      total := count * p.blocksPerGroup;
    }
    groups := count;
    DivCeilAtMost(|nodes| + 16, count, p.inodesPerGroup);
  }
}
