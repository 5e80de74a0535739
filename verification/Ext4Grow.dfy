/** Planning, building and growing together: the loop that builds an image again, one group larger, while it is full. */
module Ext4Grow {
  import opened Core
  import opened Arith
  import opened OutFile
  import opened Bitmaps
  import opened Ext4Plan
  import opened Ext4Alloc
  import opened Ext4Build
  import opened Ext4Super
  import opened Ext4Accounting
  import opened Ext4Groups
  import opened Ext4Footprints
  import opened Ext4Whole
  import opened Ext4ReadBack
  import T = Ext4Tree

  const MAX_ROUNDS: nat := 16

  /** The size from which on the loop stops growing: four times the input or twice the plan, within 32-bit block numbers. */
  function Cap(blockCount: nat, start: nat): nat {
    Min(Max(4 * blockCount, 2 * start + 65536), U32_LIMIT - 1)
  }

  /** Blocks of the image that is tried in a round. */
  function Grown(start: nat, round: nat, bpg: nat): nat {
    start + round * bpg
  }

  /** An image that is full after this round is tried again, one group larger. */
  predicate MayGrow(start: nat, round: nat, bpg: nat, blockCount: nat) {
    var total := start + round * bpg;
    total < 0xFFFF_FFFF && (total < 4 * blockCount || total < 2 * start + 65536)
  }

  lemma {:induction false} CapIs(blockCount: nat, start: nat, round: nat, bpg: nat, total: nat)
    requires total == start + round * bpg
    ensures total >= Cap(blockCount, start) <==> !MayGrow(start, round, bpg, blockCount)
    ensures !MayGrow(start, round, bpg, blockCount) ==> total >= 0xFFFF_FFFF || (total >= 4 * blockCount && total >= 2 * start + 65536)
    ensures MAX_ROUNDS == 16
  {
  }

  lemma {:induction false} GrownIs(start: nat, round: nat, bpg: nat)
    ensures Grown(start, round, bpg) == start + round * bpg
  {
  }

  lemma {:induction false} GrownMonotone(start: nat, i: nat, j: nat, bpg: nat)
    requires i <= j
    ensures start <= Grown(start, i, bpg) <= Grown(start, j, bpg)
  {
    MulMonotone(i, j, bpg);
  }

  lemma {:induction false} GrownStep(start: nat, round: nat, bpg: nat)
    ensures Grown(start, round, bpg) + bpg == Grown(start, round + 1, bpg)
  {
    MulDistributes(round, 1, bpg);
  }

  /** The loop would try this round: the size before it is below the cap. */
  predicate Reachable(blockCount: nat, start: nat, round: nat, bpg: nat) {
    round > 0 ==> Grown(start, round - 1, bpg) < Cap(blockCount, start)
  }

  lemma {:induction false} LastRound(blockCount: nat, start: nat, round: nat, bpg: nat)
    requires Grown(start, round, bpg) >= Cap(blockCount, start) || round == MAX_ROUNDS - 1
    ensures forall k :: 0 <= k < MAX_ROUNDS && Reachable(blockCount, start, k, bpg) ==> k <= round
  {
    hide Cap, Grown;
    forall k | round < k < MAX_ROUNDS
      ensures !Reachable(blockCount, start, k, bpg)
    {
      GrownMonotone(start, round, k - 1, bpg);
    }
  }

  /** Block or inode numbers of an image of that size do not fit 32 bits. */
  predicate TooWide(q: Profile, total: nat)
    requires Sane(q)
  {
    total >= U32_LIMIT || DivCeil(total, q.blocksPerGroup) * q.inodesPerGroup >= U32_LIMIT
  }

  /** The last group of an image of that size is smaller than the metadata of a group. */
  predicate CutShort(q: Profile, total: nat)
    requires Sane(q)
  {
    LastGroupBlocks(total, q.blocksPerGroup) < MetaBlocks(q, DivCeil(total, q.blocksPerGroup))
  }

  /** Growing by whole groups never mends a last group that is too short. */
  lemma {:induction false} CutShortStays(q: Profile, start: nat, round: nat)
    requires Sane(q) && CutShort(q, start)
    ensures CutShort(q, Grown(start, round, q.blocksPerGroup))
  {
    hide DivCeil, MetaBlocks;
    var bpg, more := q.blocksPerGroup, Grown(start, round, q.blocksPerGroup);
    SameRest(start, round, bpg);
    GrownMonotone(start, 0, round, bpg);
    DivCeilMonotone(start, more, bpg);
    MetaBlocksMonotone(q, DivCeil(start, bpg), DivCeil(more, bpg));
  }

  lemma {:induction false} SameRest(start: nat, round: nat, bpg: nat)
    requires bpg > 0
    ensures Grown(start, round, bpg) % bpg == start % bpg
  {
    GroupArithmetic(start, bpg);
    MulDistributes(start / bpg, round, bpg);
    DivUnique(Grown(start, round, bpg), start / bpg + round, start % bpg, bpg);
  }

  /** An input of one whole group and 100 blocks, with 8192 inodes a group, is cut short; one group by itself is not. */
  lemma {:induction false} KeptSizeIsCutShort()
    ensures var q := Profile(4096, 32768, 8192, 256);
            CutShort(q, 32868) && !TooWide(q, 32868) && !CutShort(q, 32768)
  {
    var q := Profile(4096, 32768, 8192, 256);
    DivCeilUnique(32868, 2, 32768);
    DivCeilUnique(32768, 1, 32768);
    DivCeilUnique(2 * 32, 1, 4096);
    DivCeilUnique(32, 1, 4096);
    DivCeilUnique(8192 * 256, 512, 4096);
  }

  /** What the format asks of the geometry. */
  predicate Usable(q: Profile, log: nat, compat: nat, roCompat: nat) {
    && Sane(q) && q.blocksPerGroup <= 32768 && q.blockSize >= 4096 && 128 <= q.inodeSize < U16_LIMIT
    && q.blocksPerGroup <= 8 * q.blockSize && q.inodesPerGroup <= 8 * q.blockSize
    && log <= MAX_LOG && q.blockSize == 1024 * Pow2(log) && compat < U32_LIMIT && roCompat < U32_LIMIT
  }

  predicate HoldsInodes(q: Profile, total: nat, nodes: nat)
    requires Sane(q)
  {
    nodes + RESERVED_UNNAMED <= DivCeil(total, q.blocksPerGroup) * q.inodesPerGroup
  }

  lemma {:induction false} MoreInodes(q: Profile, total: nat, more: nat, nodes: nat)
    requires Sane(q) && total <= more && HoldsInodes(q, total, nodes)
    ensures HoldsInodes(q, more, nodes)
  {
    hide DivCeil;
    DivCeilMonotone(total, more, q.blocksPerGroup);
    MulMonotone(DivCeil(total, q.blocksPerGroup), DivCeil(more, q.blocksPerGroup), q.inodesPerGroup);
  }

  /** An image of that size may have no block left for the tree. */
  ghost predicate MayBeFull(q: Profile, total: nat, all: seq<T.Node>, shared: bool)
    requires Sane(q) && NodesFit(all, q.blockSize)
  {
    !TooWide(q, total) && MayFail(NoFreeBlocks, q, total, all, shared)
  }

  /** A finished image of that size from which everything its trees cover is read back. */
  ghost predicate Finished(content: bytes, p: Plan, layout: Layout, q: Profile, total: nat, all: seq<T.Node>, shared: bool) {
    && p.profile == q && p.total == total && p.all == all && p.shared == shared
    && Built(content, p, layout) && AllReadBack(content, p, layout)
  }

  /** Why an attempt may fail. */
  ghost predicate AttemptFails(e: AllocError, q: Profile, total: nat, all: seq<T.Node>, shared: bool)
    requires Sane(q) && NodesFit(all, q.blockSize)
  {
    if TooWide(q, total) then e == NumberOverflow else MayFail(e, q, total, all, shared)
  }

  /** One attempt. */
  method BuildOnce(
    q: Profile, total: nat, root: T.Node, shared: bool, hash: bytes -> nat, log: nat, compat: nat, roCompat: nat)
    returns (r: Result<Layout, AllocError>, image: File, ghost p: Plan)
    requires Usable(q, log, compat, roCompat) && total > 0
    requires NodesFit(AllNodes(root), q.blockSize) && HoldsInodes(q, total, |AllNodes(root)|)
    ensures fresh(image)
    ensures r.Ok? ==> Finished(image.content, p, r.value, q, total, AllNodes(root), shared)
    ensures r.Err? ==> AttemptFails(r.error, q, total, AllNodes(root), shared)
    ensures !TooWide(q, total) && CutShort(q, total) ==> r == Err(NoRoomForTable)
  {
    hide Built, AllReadBack, NodesFit, Pow2, DivCeil, MayFail, AllNodes, LastGroupBlocks, MetaBlocks;
    if TooWide(q, total) {
      image := new File([]);
      p := Plan(q, total, [], AllNodes(root), shared, log, compat, roCompat);
      r := Err(NumberOverflow);
      return;
    }
    r, image, p := Rebuild(q, total, root, shared, hash, log, compat, roCompat);
  }

  /**
   `build_grown`: an image that was full is built again with one more group, up to 16 times and while it is below the
   cap. The loop ends with the first size that does, and never reports a full image when a size it may reach is enough.
   */
  method BuildGrown(
    q: Profile, blockCount: nat, start: nat, root: T.Node, shared: bool, hash: bytes -> nat, log: nat, compat: nat, roCompat: nat)
    returns (r: Result<Layout, AllocError>, image: File, total: nat, rounds: nat, ghost p: Plan)
    requires Usable(q, log, compat, roCompat) && start > 0
    requires NodesFit(AllNodes(root), q.blockSize) && HoldsInodes(q, start, |AllNodes(root)|)
    ensures fresh(image) && rounds < MAX_ROUNDS && total == Grown(start, rounds, q.blocksPerGroup)
    ensures r.Ok? ==> Finished(image.content, p, r.value, q, total, AllNodes(root), shared)
    ensures r.Err? ==> AttemptFails(r.error, q, total, AllNodes(root), shared)
    ensures !TooWide(q, total) && CutShort(q, total) ==> r == Err(NoRoomForTable)
    ensures !TooWide(q, start) && CutShort(q, start) ==> r == Err(NoRoomForTable) && rounds == 0
    ensures forall k :: 0 <= k < rounds ==> MayBeFull(q, Grown(start, k, q.blocksPerGroup), AllNodes(root), shared)
    ensures r == Err(NoFreeBlocks) ==> rounds == MAX_ROUNDS - 1 || total >= Cap(blockCount, start)
    ensures rounds <= 15 && total == start + rounds * q.blocksPerGroup
    ensures r == Err(NoFreeBlocks) && rounds < 15 ==>
              total >= 0xFFFF_FFFF || (total >= 4 * blockCount && total >= 2 * start + 65536)
    ensures forall k :: 0 <= k < rounds ==> MayGrow(start, k, q.blocksPerGroup, blockCount)
    ensures forall k :: 0 <= k < MAX_ROUNDS && Reachable(blockCount, start, k, q.blocksPerGroup) ==>
              MayBeFull(q, Grown(start, k, q.blocksPerGroup), AllNodes(root), shared) || (rounds <= k && r != Err(NoFreeBlocks))
  {
    hide Finished, AttemptFails, NodesFit, Usable, HoldsInodes, AllNodes, MayBeFull, TooWide, CutShort, Grown, Cap, Reachable, MayGrow;
    var bpg := q.blocksPerGroup;
    UsableSane(q, log, compat, roCompat);
    rounds := 0;
    total := start;
    GrownStart(start, bpg);
    while true
      invariant rounds < MAX_ROUNDS && total == Grown(start, rounds, bpg)
      invariant forall k :: 0 <= k < rounds ==> MayBeFull(q, Grown(start, k, bpg), AllNodes(root), shared)
      invariant forall k :: 0 <= k < rounds ==> MayGrow(start, k, bpg, blockCount)
      invariant rounds > 0 ==> TooWide(q, start) || !CutShort(q, start)
      decreases MAX_ROUNDS - rounds
    {
      GrownMonotone(start, 0, rounds, bpg);
      MoreInodes(q, start, total, |AllNodes(root)|);
      r, image, p := BuildOnce(q, total, root, shared, hash, log, compat, roCompat);
      GrownIs(start, rounds, bpg);
      CapIs(blockCount, start, rounds, bpg, total);
      if r != Err(NoFreeBlocks) {
        return;
      }
      FullMeans(q, total, AllNodes(root), shared);
      if total >= Cap(blockCount, start) || rounds == MAX_ROUNDS - 1 {
        LastRound(blockCount, start, rounds, bpg);
        return;
      }
      GrownStep(start, rounds, bpg);
      total := total + bpg;
      rounds := rounds + 1;
    }
  }

  lemma {:induction false} GrownStart(start: nat, bpg: nat)
    ensures Grown(start, 0, bpg) == start
  {
  }

  lemma {:induction false} UsableSane(q: Profile, log: nat, compat: nat, roCompat: nat)
    requires Usable(q, log, compat, roCompat)
    ensures Sane(q)
  {
  }

  lemma {:induction false} FullMeans(q: Profile, total: nat, all: seq<T.Node>, shared: bool)
    requires Sane(q) && NodesFit(all, q.blockSize) && AttemptFails(NoFreeBlocks, q, total, all, shared)
    ensures MayBeFull(q, total, all, shared)
  {
    hide MayFail, TooWide;
  }

  // ---- Planning first ----------------------------------------------------------------------------------------

  /** The planned size leaves room for the tree blocks that only images of more than 341 groups can need. */
  predicate Suffices(q: Profile, groups: nat, reserve: nat) {
    groups <= MAX_EXTENTS && ExtraTrees(groups) <= Max(q.blocksPerGroup / 4, reserve)
  }

  /** On a planned total with slack nothing but a shared file of more than 1360 blocks can make the builder fail. */
  lemma {:induction false} PlannedFails(q: Profile, all: seq<T.Node>, shared: bool, reserve: nat, groups: nat, total: nat, e: AllocError)
    requires Sane(q) && q.blocksPerGroup >= 4 && NodesFit(all, q.blockSize) && groups >= 1 && total == groups * q.blocksPerGroup
    requires Slack(q, FileNodes(all, q.blockSize), reserve, groups) && Suffices(q, groups, reserve)
    requires MayFail(e, q, total, all, shared)
    ensures e == TooDeep && shared && exists i :: 0 <= i < |all| && ManyBlocks(q, all[i])
  {
    hide Slack, MetaBlocks, DivCeil, MetaCount, LastGroupBlocks, DataBlocks, NodesFit, ManyBlocks, FileNodes, ExtraTrees;
    EnoughRoom(q, FileNodes(all, q.blockSize), reserve, groups, total);
  }

  /** The size to start with: a kept input is never made smaller. */
  function Start(planned: nat, blockCount: nat, keep: bool): nat {
    if keep then Max(planned, blockCount) else planned
  }

  /**
   `rebuild_generic`: numbering, planning, building and growing. Whenever the margin loop of the planner ended because
   there was room, the planned size is enough at the first try, with or without sharing, and every file and directory is
   read back from the image. The one failure left there is a shared file of more than 1360 blocks whose extents do not
   fit a tree of one level.
   */
  method PlanAndRebuild(
    q: Profile, blockCount: nat, root: T.Node, reserve: nat, keep: bool, shared: bool, hash: bytes -> nat,
    log: nat, compat: nat, roCompat: nat)
    returns (r: Result<Layout, AllocError>, image: File, total: nat, rounds: nat,
      ghost p: Plan, ghost sized: nat, ghost groups: nat, ghost settled: bool, ghost roomy: bool)
    requires Usable(q, log, compat, roCompat) && q.blocksPerGroup >= 4 && NodesFit(AllNodes(root), q.blockSize)
    ensures fresh(image) && groups >= sized >= 1 && rounds < MAX_ROUNDS
    ensures if settled then LeastFixedPoint(q, FileNodes(AllNodes(root), q.blockSize), reserve, sized) else sized > 32
    ensures if roomy then LeastWithSlack(q, FileNodes(AllNodes(root), q.blockSize), reserve, sized, groups)
            else groups == sized + 1024 && forall g :: sized <= g < groups ==> !Slack(q, FileNodes(AllNodes(root), q.blockSize), reserve, g)
    ensures total == Grown(Start(groups * q.blocksPerGroup, blockCount, keep), rounds, q.blocksPerGroup)
    ensures total >= groups * q.blocksPerGroup && (keep ==> total >= blockCount)
    ensures total == rounds * q.blocksPerGroup
              + if keep && blockCount > groups * q.blocksPerGroup then blockCount else groups * q.blocksPerGroup
    ensures r.Ok? ==> Finished(image.content, p, r.value, q, total, AllNodes(root), shared)
    ensures r.Err? ==> AttemptFails(r.error, q, total, AllNodes(root), shared)
    ensures roomy && Suffices(q, groups, reserve) && !TooWide(q, groups * q.blocksPerGroup) && !(keep && blockCount > groups * q.blocksPerGroup) ==>
              && rounds == 0
              && (r.Ok? || (r == Err(TooDeep) && shared && exists i :: 0 <= i < |AllNodes(root)| && ManyBlocks(q, AllNodes(root)[i])))
    ensures var start := Start(groups * q.blocksPerGroup, blockCount, keep);
            !TooWide(q, start) && CutShort(q, start) ==> r == Err(NoRoomForTable)
    ensures r.Ok? && !shared && DivCeil(total, q.blocksPerGroup) <= TREE_ENTRIES ==>
              forall i :: 0 <= i < |p.all| ==> ReadsBack(image.content, p, i)
  {
    hide NodesFit, Pow2, DivCeil, MayFail, AllNodes, Slack, LeastFixedPoint, LeastWithSlack, ManyBlocks, Suffices, ReadsBack, FileNodes;
    hide Finished, AttemptFails, MayBeFull, TooWide, CutShort, Reachable, Usable, HoldsInodes, Grown;
    UsableSane(q, log, compat, roCompat);
    var nodes := FileNodes(AllNodes(root), q.blockSize);
    NodesListed(AllNodes(root), q.blockSize);
    var planned;
    planned, sized, groups, settled, roomy := PlanTotalBlocks(q, nodes, reserve);
    MulMonotone(1, groups, q.blocksPerGroup);
    PlanHoldsInodes(q, groups, |nodes|);
    var start := Start(planned, blockCount, keep);
    MoreInodes(q, planned, start, |nodes|);
    r, image, total, rounds, p := BuildGrown(q, blockCount, start, root, shared, hash, log, compat, roCompat);
    GrownStart(start, q.blocksPerGroup);
    if roomy && Suffices(q, groups, reserve) && !TooWide(q, planned) && start == planned {
      LeastHasSlack(q, nodes, reserve, sized, groups);
      PlannedIsNotFull(q, AllNodes(root), shared, reserve, groups, planned);
      StartReachable(blockCount, start, q.blocksPerGroup);
      if r.Err? {
        AttemptMeans(q, total, AllNodes(root), shared, r.error);
        PlannedFails(q, AllNodes(root), shared, reserve, groups, planned, r.error);
      }
    }
    if r.Ok? && !shared && DivCeil(total, q.blocksPerGroup) <= TREE_ENTRIES {
      SmallFinished(image.content, p, r.value, q, total, AllNodes(root));
    }
  }

  lemma {:induction false} NodesListed(all: seq<T.Node>, blockSize: nat)
    requires NodesFit(all, blockSize)
    ensures |FileNodes(all, blockSize)| == |all|
  {
  }

  lemma {:induction false} SmallImageReadsBack(content: bytes, p: Plan, layout: Layout)
    requires Built(content, p, layout) && AllReadBack(content, p, layout) && !p.shared
    requires p.profile.blocksPerGroup > 0 && p.Groups() <= TREE_ENTRIES
    ensures Sane(p.profile) && NodesFit(p.all, p.profile.blockSize) && Readable(SuperOf(p))
    ensures forall i :: 0 <= i < |p.all| ==> ReadsBack(content, p, i)
  {
    hide Built, NodesFit, ReadsBack, Readable, SuperOf, ReadSuper, TreeCoversAll, Plan.Groups;
    forall i | 0 <= i < |p.all|
      ensures ReadsBack(content, p, i)
    {
      SmallImagesCover(content, p, layout, i);
    }
  }

  lemma {:induction false} SmallFinished(content: bytes, p: Plan, layout: Layout, q: Profile, total: nat, all: seq<T.Node>)
    requires Sane(q) && Finished(content, p, layout, q, total, all, false) && DivCeil(total, q.blocksPerGroup) <= TREE_ENTRIES
    ensures Sane(p.profile) && NodesFit(p.all, p.profile.blockSize) && Readable(SuperOf(p))
    ensures forall i :: 0 <= i < |p.all| ==> ReadsBack(content, p, i)
  {
    hide Built, AllReadBack, NodesFit, Readable, SuperOf, ReadsBack, DivCeil;
    SmallImageReadsBack(content, p, layout);
  }

  lemma {:induction false} PlanHoldsInodes(q: Profile, groups: nat, nodes: nat)
    requires Sane(q) && groups * q.inodesPerGroup >= nodes + 16
    ensures HoldsInodes(q, groups * q.blocksPerGroup, nodes)
  {
    hide DivCeil;
    WholeGroups(groups, q.blocksPerGroup, 0);
  }

  lemma {:induction false} LeastHasSlack(q: Profile, nodes: seq<FileNode>, reserve: nat, sized: nat, groups: nat)
    requires Sane(q) && LeastWithSlack(q, nodes, reserve, sized, groups)
    ensures Slack(q, nodes, reserve, groups)
  {
    hide Slack;
  }

  lemma {:induction false} StartReachable(blockCount: nat, start: nat, bpg: nat)
    ensures Reachable(blockCount, start, 0, bpg)
  {
  }

  lemma {:induction false} PlannedIsNotFull(q: Profile, all: seq<T.Node>, shared: bool, reserve: nat, groups: nat, total: nat)
    requires Sane(q) && q.blocksPerGroup >= 4 && NodesFit(all, q.blockSize) && groups >= 1 && total == groups * q.blocksPerGroup
    requires Slack(q, FileNodes(all, q.blockSize), reserve, groups) && Suffices(q, groups, reserve)
    ensures !MayBeFull(q, total, all, shared)
  {
    hide MayFail, Slack, Suffices, NodesFit, TooWide, FileNodes, ManyBlocks;
    if MayBeFull(q, total, all, shared) {
      PlannedFails(q, all, shared, reserve, groups, total, NoFreeBlocks);
    }
  }

  lemma {:induction false} AttemptMeans(q: Profile, total: nat, all: seq<T.Node>, shared: bool, e: AllocError)
    requires Sane(q) && NodesFit(all, q.blockSize) && AttemptFails(e, q, total, all, shared) && !TooWide(q, total)
    ensures MayFail(e, q, total, all, shared)
  {
  }
}
