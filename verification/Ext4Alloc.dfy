/**
 The block allocator of the ext4 builder without block sharing: group metadata is marked first, then a
 first-fit cursor hands out file extents and, last, extent-tree blocks.
 */
module Ext4Alloc {
  import opened Core
  import opened Arith
  import opened Ext4Plan

  const MAX_EXTENT := 32767
  const TREE_ENTRIES := 340
  const MAX_EXTENTS := 4 * 340

  datatype AllocError = NoRoomForTable | NoFreeBlocks | TooDeep | NumberOverflow

  /** A file extent: `length` blocks of the file from block `logical` on, at disk block `start`. */
  datatype Extent = Extent(logical: nat, start: nat, length: nat)

  /** A stretch of disk blocks in one owner's hands. */
  datatype Run = Run(start: nat, length: nat)

  // ---- Groups --------------------------------------------------------------------------------------

  /** Every group starts with `meta` blocks of metadata. */
  predicate IsMeta(b: nat, bpg: nat, meta: nat)
    requires bpg > 0
  {
    b % bpg < meta
  }

  lemma {:induction false} GroupArithmetic(b: nat, bpg: nat)
    requires bpg > 0
    ensures b == b / bpg * bpg + b % bpg && b % bpg < bpg
  {
  }

  lemma {:induction false} NextInGroup(b: nat, bpg: nat)
    requires bpg > 0 && b % bpg + 1 < bpg
    ensures (b + 1) / bpg == b / bpg && (b + 1) % bpg == b % bpg + 1
  {
    GroupArithmetic(b, bpg);
    DivUnique(b + 1, b / bpg, b % bpg + 1, bpg);
  }

  lemma {:induction false} NextOpensGroup(b: nat, bpg: nat)
    requires bpg > 0 && b % bpg + 1 == bpg
    ensures (b + 1) / bpg == b / bpg + 1 && (b + 1) % bpg == 0
  {
    var q := b / bpg;
    GroupArithmetic(b, bpg);
    MulDistributes(q, 1, bpg);
    DivUnique(b + 1, q + 1, 0, bpg);
  }

  /** A stretch free of metadata stays inside one group, and is shorter than the group. */
  lemma {:induction false} DataRunInOneGroup(start: nat, length: nat, bpg: nat, meta: nat)
    requires 0 < meta <= bpg && length > 0
    requires forall b :: start <= b < start + length ==> !IsMeta(b, bpg, meta)
    ensures start / bpg == (start + length - 1) / bpg
    ensures start % bpg + length <= bpg && length <= bpg - meta
    decreases length
  {
    GroupArithmetic(start, bpg);
    assert !IsMeta(start, bpg, meta);
    if length > 1 {
      assert !IsMeta(start + 1, bpg, meta);
      if start % bpg + 1 == bpg {
        NextOpensGroup(start, bpg);
      }
      NextInGroup(start, bpg);
      DataRunInOneGroup(start + 1, length - 1, bpg, meta);
    }
  }

  /** Metadata right behind a data block opens the next group. */
  lemma {:induction false} MetaOpensGroup(b: nat, bpg: nat, meta: nat)
    requires 0 < meta <= bpg && !IsMeta(b, bpg, meta) && IsMeta(b + 1, bpg, meta)
    ensures (b + 1) / bpg == b / bpg + 1
  {
    GroupArithmetic(b, bpg);
    if b % bpg + 1 < bpg {
      NextInGroup(b, bpg);
    }
    NextOpensGroup(b, bpg);
  }

  // ---- Counting ------------------------------------------------------------------------------------

  function Count(used: seq<bool>): nat {
    if used == [] then 0 else Count(used[..|used| - 1]) + if used[|used| - 1] then 1 else 0
  }

  lemma {:induction false} CountBound(used: seq<bool>)
    ensures Count(used) <= |used|
    ensures Count(used) == |used| <==> forall b :: 0 <= b < |used| ==> used[b]
    decreases |used|
  {
    if used != [] {
      var k := |used| - 1;
      CountBound(used[..k]);
      if Count(used) == |used| {
        forall b | 0 <= b < |used|
          ensures used[b]
        {
          if b < k {
            assert used[..k][b];
          }
        }
      }
    }
  }

  lemma {:induction false} CountSet(used: seq<bool>, b: nat)
    requires b < |used| && !used[b]
    ensures Count(used[b := true]) == Count(used) + 1
    decreases |used|
  {
    var k := |used| - 1;
    var after := used[b := true];
    if b == k {
      assert after[..k] == used[..k];
    } else {
      CountSet(used[..k], b);
      assert after[..k] == used[..k][b := true];
    }
  }

  /** Metadata blocks among the first `n`. */
  function MetaCount(n: nat, bpg: nat, meta: nat): nat
    requires bpg > 0
  {
    n / bpg * meta + Min(n % bpg, meta)
  }

  lemma {:induction false} CountMeta(used: seq<bool>, bpg: nat, meta: nat)
    requires 0 < meta <= bpg
    requires forall b :: 0 <= b < |used| ==> used[b] == IsMeta(b, bpg, meta)
    ensures Count(used) == MetaCount(|used|, bpg, meta)
    decreases |used|
  {
    if used == [] {
      DivUnique(0, 0, 0, bpg);
    } else {
      var k := |used| - 1;
      CountMeta(used[..k], bpg, meta);
      GroupArithmetic(k, bpg);
      if k % bpg + 1 < bpg {
        NextInGroup(k, bpg);
      } else {
        NextOpensGroup(k, bpg);
        MulDistributes(k / bpg, 1, meta);
      }
    }
  }

  function TotalLength(runs: seq<Run>): nat {
    if runs == [] then 0 else TotalLength(runs[..|runs| - 1]) + runs[|runs| - 1].length
  }

  lemma {:induction false} TotalLengthAppend(a: seq<Run>, b: seq<Run>)
    ensures TotalLength(a + b) == TotalLength(a) + TotalLength(b)
    decreases |b|
  {
    if b == [] {
      assert a + b == a;
    } else {
      var k := |b| - 1;
      TotalLengthAppend(a, b[..k]);
      assert (a + b)[..|a + b| - 1] == a + b[..k];
    }
  }

  // ---- The allocator's invariant -------------------------------------------------------------------

  predicate InRun(b: nat, r: Run) {
    r.start <= b < r.start + r.length
  }

  /** No run of `a` meets a run of `b`. */
  predicate AllOff(a: seq<Run>, b: seq<Run>) {
    forall i, j :: 0 <= i < |a| && 0 <= j < |b| ==> RunsOff(a[i], b[j])
  }

  predicate RunsOff(r: Run, s: Run) {
    r.start + r.length <= s.start || s.start + s.length <= r.start
  }

  /** Runs that meet share a block. */
  lemma {:induction false} MeetingBlock(r: Run, s: Run) returns (b: nat)
    requires r.length > 0 && s.length > 0
    ensures !RunsOff(r, s) ==> InRun(b, r) && InRun(b, s)
  {
    b := Max(r.start, s.start);
  }

  /** Some run owns block `b`. */
  predicate Owned(b: nat, runs: seq<Run>) {
    exists i :: 0 <= i < |runs| && InRun(b, runs[i])
  }

  /** Runs ascend without overlap and end by `next`. */
  predicate Ascending(runs: seq<Run>, next: nat) {
    && (forall i, j :: 0 <= i < j < |runs| ==> runs[i].start + runs[i].length <= runs[j].start)
    && (forall i :: 0 <= i < |runs| ==> runs[i].length > 0 && runs[i].start + runs[i].length <= next)
  }

  ghost predicate FreeOfMeta(runs: seq<Run>, bpg: nat, meta: nat)
    requires bpg > 0
  {
    forall b: nat :: Owned(b, runs) ==> !IsMeta(b, bpg, meta)
  }

  /**
   The used blocks are the group metadata and the blocks of `runs`, disjointly: runs ascend, none holds
   metadata, every used block is one or the other, everything below `next` is used, and the count adds up.
   */
  ghost predicate Partition(used: seq<bool>, next: nat, runs: seq<Run>, bpg: nat, meta: nat)
    requires bpg > 0
  {
    && next <= |used|
    && Ascending(runs, next)
    && FreeOfMeta(runs, bpg, meta)
    && (forall b :: 0 <= b < |used| ==> (used[b] <==> IsMeta(b, bpg, meta) || Owned(b, runs)))
    && (forall b :: 0 <= b < next ==> used[b])
    && Count(used) == MetaCount(|used|, bpg, meta) + TotalLength(runs)
  }

  /** No block has two owners. */
  lemma {:induction false} OwnersAreUnique(used: seq<bool>, next: nat, runs: seq<Run>, bpg: nat, meta: nat, b: nat, i: nat, j: nat)
    requires bpg > 0 && Partition(used, next, runs, bpg, meta)
    requires i < |runs| && j < |runs| && InRun(b, runs[i]) && InRun(b, runs[j])
    ensures i == j && !IsMeta(b, bpg, meta)
  {
    assert Owned(b, runs);
  }

  lemma {:induction false} OwnedMore(runs: seq<Run>, r: Run)
    ensures forall b :: Owned(b, runs + [r]) <==> Owned(b, runs) || InRun(b, r)
  {
    var more := runs + [r];
    forall b
      ensures Owned(b, more) <==> Owned(b, runs) || InRun(b, r)
    {
      if Owned(b, runs) {
        var i :| 0 <= i < |runs| && InRun(b, runs[i]);
        assert InRun(b, more[i]);
      }
      if InRun(b, r) {
        assert InRun(b, more[|runs|]);
      }
    }
  }

  /** Taking the free stretch at the cursor keeps the partition. */
  lemma {:induction false} TakeKeepsPartition(
    used: seq<bool>, next: nat, runs: seq<Run>, bpg: nat, meta: nat, start: nat, length: nat, after: seq<bool>)
    requires bpg > 0 && Partition(used, next, runs, bpg, meta)
    requires next <= start && length > 0 && start + length <= |used| == |after|
    requires forall b :: next <= b < start ==> used[b]
    requires forall b :: start <= b < start + length ==> !used[b]
    requires forall b :: 0 <= b < |used| ==> after[b] == (used[b] || start <= b < start + length)
    requires Count(after) == Count(used) + length
    ensures Partition(after, start + length, runs + [Run(start, length)], bpg, meta)
  {
    hide Count;
    var r := Run(start, length);
    OwnedMore(runs, r);
    assert (runs + [r])[..|runs|] == runs;
    forall b: nat | InRun(b, r)
      ensures !IsMeta(b, bpg, meta)
    {
      assert !used[b];
    }
  }

  lemma {:induction false} CursorKeepsPartition(used: seq<bool>, next: nat, runs: seq<Run>, bpg: nat, meta: nat, cursor: nat)
    requires bpg > 0 && Partition(used, next, runs, bpg, meta)
    requires next <= cursor <= |used| && forall b :: next <= b < cursor ==> used[b]
    ensures Partition(used, cursor, runs, bpg, meta)
  {
    hide Count;
  }

  lemma {:induction false} NothingFree(used: seq<bool>, next: nat, runs: seq<Run>, bpg: nat, meta: nat)
    requires bpg > 0 && Partition(used, next, runs, bpg, meta)
    requires forall b :: next <= b < |used| ==> used[b]
    ensures Count(used) == |used| == MetaCount(|used|, bpg, meta) + TotalLength(runs)
  {
    CountBound(used);
  }

  // ---- File extents ----------------------------------------------------------------------------------

  /** The extents map file blocks `0..n`, in order and without gap. */
  predicate MapsBlocks(extents: seq<Extent>, n: nat)
    decreases |extents|
  {
    if extents == [] then n == 0
    else
      var last := extents[|extents| - 1];
      last.length > 0 && last.logical + last.length == n && MapsBlocks(extents[..|extents| - 1], last.logical)
  }

  function RunsOf(extents: seq<Extent>): (r: seq<Run>)
    ensures |r| == |extents|
  {
    seq(|extents|, i requires 0 <= i < |extents| => Run(extents[i].start, extents[i].length))
  }

  /** Each extent lies in one group, and each in a later group than the one before it. */
  predicate Spread(extents: seq<Extent>, bpg: nat)
    requires bpg > 0
    decreases |extents|
  {
    extents == [] ||
    (var k := |extents| - 1;
     && extents[k].length > 0
     && extents[k].start / bpg == (extents[k].start + extents[k].length - 1) / bpg
     && (k > 0 ==> extents[k - 1].start / bpg < extents[k].start / bpg)
     && Spread(extents[..k], bpg))
  }

  /** A file has at most one extent per group it spans. */
  lemma {:induction false} SpreadBound(extents: seq<Extent>, bpg: nat)
    requires bpg > 0 && Spread(extents, bpg) && extents != []
    ensures extents[0].start / bpg + |extents| - 1 <= extents[|extents| - 1].start / bpg
    decreases |extents|
  {
    var k := |extents| - 1;
    if k > 0 {
      SpreadBound(extents[..k], bpg);
    }
  }

  lemma {:induction false} MapsBlocksTotal(extents: seq<Extent>, n: nat)
    requires MapsBlocks(extents, n)
    ensures TotalLength(RunsOf(extents)) == n
    decreases |extents|
  {
    if extents != [] {
      var k := |extents| - 1;
      MapsBlocksTotal(extents[..k], extents[k].logical);
      assert RunsOf(extents)[..k] == RunsOf(extents[..k]);
    }
  }

  function LastBlock(extents: seq<Extent>): int
    requires extents != []
  {
    extents[|extents| - 1].start + extents[|extents| - 1].length - 1
  }

  lemma {:induction false} NothingMapped(bpg: nat)
    requires bpg > 0
    ensures MapsBlocks([], 0) && Spread([], bpg)
  {
  }

  lemma {:induction false} MapsMore(extents: seq<Extent>, e: Extent, n: nat)
    requires MapsBlocks(extents, n) && e.logical == n && e.length > 0
    ensures MapsBlocks(extents + [e], n + e.length)
  {
    assert (extents + [e])[..|extents|] == extents;
  }

  /** The next extent of a file opens a later group when metadata stopped the previous one. */
  lemma {:induction false} SpreadMore(extents: seq<Extent>, e: Extent, bpg: nat, meta: nat, behind: nat)
    requires 0 < meta <= bpg && Spread(extents, bpg)
    requires e.length > 0 && e.start / bpg == (e.start + e.length - 1) / bpg
    requires extents != [] ==>
               && LastBlock(extents) + 1 == behind < e.start
               && IsMeta(behind, bpg, meta) && !IsMeta(behind - 1, bpg, meta)
    ensures Spread(extents + [e], bpg)
  {
    var more := extents + [e];
    assert more[..|extents|] == extents;
    if extents != [] {
      MetaOpensGroup(behind - 1, bpg, meta);
      DivMonotone(behind, e.start, bpg);
    }
  }

  /** Beyond the cursor only metadata is used. */
  lemma {:induction false} BehindTheCursor(used: seq<bool>, next: nat, runs: seq<Run>, bpg: nat, meta: nat)
    requires bpg > 0 && Partition(used, next, runs, bpg, meta)
    ensures forall b :: next <= b < |used| && used[b] ==> IsMeta(b, bpg, meta)
    ensures forall b :: 0 <= b < next ==> used[b]
  {
    hide Count;
  }

  lemma {:induction false} RunIsData(used: seq<bool>, next: nat, runs: seq<Run>, bpg: nat, meta: nat, i: nat)
    requires bpg > 0 && Partition(used, next, runs, bpg, meta) && i < |runs|
    ensures forall b :: runs[i].start <= b < runs[i].start + runs[i].length ==> !IsMeta(b, bpg, meta)
  {
    hide Count;
    forall b | runs[i].start <= b < runs[i].start + runs[i].length
      ensures !IsMeta(b, bpg, meta)
    {
      assert InRun(b, runs[i]);
      assert Owned(b, runs);
    }
  }

  /** Every node is mapped in full. */
  predicate Placed(p: Profile, nodes: seq<FileNode>, files: seq<seq<Extent>>)
    requires Sane(p)
  {
    |files| == |nodes| && forall i :: 0 <= i < |nodes| ==> MapsBlocks(files[i], NeedBlocks(p, nodes[i]))
  }

  predicate AllSpread(files: seq<seq<Extent>>, bpg: nat)
    requires bpg > 0
  {
    forall i :: 0 <= i < |files| ==> Spread(files[i], bpg)
  }

  function FileRuns(files: seq<seq<Extent>>): seq<Run> {
    if files == [] then [] else FileRuns(files[..|files| - 1]) + RunsOf(files[|files| - 1])
  }

  /** Extents beyond the first of their file. */
  function Crossings(files: seq<seq<Extent>>): nat {
    if files == [] then 0 else Crossings(files[..|files| - 1]) + Max(|files[|files| - 1]| - 1, 0)
  }

  function CursorGroup(next: nat, bpg: nat): nat
    requires bpg > 0
  {
    if next == 0 then 0 else (next - 1) / bpg
  }

  lemma {:induction false} NeedOfFile(p: Profile, node: FileNode)
    requires Sane(p) && !node.inlineSymlink
    ensures NeedBlocks(p, node) == DivCeil(node.size, p.blockSize)
  {
  }

  lemma {:induction false} NeedOfLink(p: Profile, node: FileNode)
    requires Sane(p) && node.inlineSymlink
    ensures NeedBlocks(p, node) == 0
  {
  }

  lemma {:induction false} DataBlocksSnoc(p: Profile, nodes: seq<FileNode>, i: nat)
    requires Sane(p) && i < |nodes|
    ensures DataBlocks(p, nodes[..i + 1]) == DataBlocks(p, nodes[..i]) + NeedBlocks(p, nodes[i])
  {
    assert nodes[..i + 1][..i] == nodes[..i];
  }

  lemma {:induction false} DataBlocksPrefix(p: Profile, nodes: seq<FileNode>, i: nat)
    requires Sane(p) && i < |nodes|
    ensures DataBlocks(p, nodes[..i]) + NeedBlocks(p, nodes[i]) <= DataBlocks(p, nodes)
    decreases |nodes| - i
  {
    hide NeedBlocks;
    DataBlocksSnoc(p, nodes, i);
    if i + 1 < |nodes| {
      DataBlocksPrefix(p, nodes, i + 1);
    } else {
      assert nodes[..i + 1] == nodes;
    }
  }

  lemma {:induction false} PlacedMore(p: Profile, nodes: seq<FileNode>, i: nat, files: seq<seq<Extent>>, extents: seq<Extent>)
    requires Sane(p) && i < |nodes| && Placed(p, nodes[..i], files)
    requires MapsBlocks(extents, NeedBlocks(p, nodes[i]))
    ensures Placed(p, nodes[..i + 1], files + [extents])
    ensures FileRuns(files + [extents]) == FileRuns(files) + RunsOf(extents)
    ensures DataBlocks(p, nodes[..i + 1]) == DataBlocks(p, nodes[..i]) + NeedBlocks(p, nodes[i])
  {
    hide MapsBlocks, NeedBlocks;
    DataBlocksSnoc(p, nodes, i);
    assert (files + [extents])[..|files|] == files;
  }

  lemma {:induction false} CursorGroupMonotone(from: nat, next: nat, bpg: nat)
    requires bpg > 0 && from <= next
    ensures CursorGroup(from, bpg) <= CursorGroup(next, bpg)
  {
    if from > 0 {
      DivMonotone(from - 1, next - 1, bpg);
    }
  }

  /** Each crossing of a file moves the cursor to a later group. */
  lemma {:induction false} CrossingsOfOne(extents: seq<Extent>, from: nat, next: nat, bpg: nat)
    requires bpg > 0 && Spread(extents, bpg) && from <= next
    requires extents != [] ==> from <= extents[0].start && LastBlock(extents) + 1 == next
    ensures CursorGroup(from, bpg) + Max(|extents| - 1, 0) <= CursorGroup(next, bpg)
  {
    if extents == [] {
      CursorGroupMonotone(from, next, bpg);
    } else {
      SpreadBound(extents, bpg);
      LastInGroup(extents, bpg);
      hide Spread;
      if from > 0 {
        DivMonotone(from - 1, extents[0].start, bpg);
      } else {
        DivMonotone(0, extents[0].start, bpg);
      }
    }
  }

  lemma {:induction false} LastInGroup(extents: seq<Extent>, bpg: nat)
    requires bpg > 0 && Spread(extents, bpg) && extents != []
    ensures LastBlock(extents) >= 0 && LastBlock(extents) / bpg == extents[|extents| - 1].start / bpg
  {
  }

  lemma {:induction false} CrossingsMore(files: seq<seq<Extent>>, extents: seq<Extent>, from: nat, next: nat, bpg: nat)
    requires bpg > 0 && AllSpread(files, bpg) && Crossings(files) <= CursorGroup(from, bpg)
    requires Spread(extents, bpg) && from <= next
    requires extents != [] ==> from <= extents[0].start && LastBlock(extents) + 1 == next
    ensures AllSpread(files + [extents], bpg) && Crossings(files + [extents]) <= CursorGroup(next, bpg)
  {
    assert (files + [extents])[..|files|] == files;
    CrossingsOfOne(extents, from, next, bpg);
  }

  /** Tree blocks the builder allots to a file of `n` extents. */
  function TreeCount(n: nat): nat {
    DivCeil(Max(n - 1, 0), TREE_ENTRIES)
  }

  function TreeRuns(blocks: seq<nat>): (r: seq<Run>)
    ensures |r| == |blocks|
  {
    seq(|blocks|, i requires 0 <= i < |blocks| => Run(blocks[i], 1))
  }

  function AllTreeRuns(trees: seq<seq<nat>>): seq<Run> {
    if trees == [] then [] else AllTreeRuns(trees[..|trees| - 1]) + TreeRuns(trees[|trees| - 1])
  }

  function TreeTotal(files: seq<seq<Extent>>): nat {
    if files == [] then 0 else TreeTotal(files[..|files| - 1]) + TreeCount(|files[|files| - 1]|)
  }

  lemma {:induction false} TreeRunsLength(blocks: seq<nat>)
    ensures TotalLength(TreeRuns(blocks)) == |blocks|
    decreases |blocks|
  {
    if blocks != [] {
      var k := |blocks| - 1;
      TreeRunsLength(blocks[..k]);
      assert TreeRuns(blocks)[..k] == TreeRuns(blocks[..k]);
    }
  }

  lemma {:induction false} TreeTotalPrefix(files: seq<seq<Extent>>, i: nat)
    requires i < |files|
    ensures TreeTotal(files[..i + 1]) == TreeTotal(files[..i]) + TreeCount(|files[i]|) <= TreeTotal(files)
    decreases |files| - i
  {
    hide TreeCount;
    assert files[..i + 1][..i] == files[..i];
    if i + 1 < |files| {
      TreeTotalPrefix(files, i + 1);
    } else {
      assert files[..i + 1] == files;
    }
  }

  /**
   One tree block a file is enough until a file crosses more than 340 group boundaries: `extra` blocks
   cover `340 * extra + 340` crossings.
   */
  lemma {:induction false} TreeTotalBound(files: seq<seq<Extent>>)
    ensures TREE_ENTRIES * TreeTotal(files) <= TREE_ENTRIES * |files| + Max(Crossings(files) - 1, 0)
    ensures Crossings(files) == 0 ==> TreeTotal(files) == 0
    decreases |files|
  {
    hide TreeCount;
    if files != [] {
      var k := |files| - 1;
      TreeTotalBound(files[..k]);
      TreeCountBound(|files[k]|);
    }
  }

  lemma {:induction false} TreeCountBound(n: nat)
    ensures n <= 1 ==> TreeCount(n) == 0
    ensures n > 1 ==> TREE_ENTRIES * TreeCount(n) <= TREE_ENTRIES + (n - 1) - 1
  {
  }

  /** Marks a stretch of free blocks. */
  method MarkUsed(used: array<bool>, start: nat, length: nat)
    requires start + length <= used.Length && forall b :: start <= b < start + length ==> !used[b]
    modifies used
    ensures forall b :: 0 <= b < used.Length ==> used[b] == (old(used[b]) || start <= b < start + length)
    ensures Count(used[..]) == Count(old(used[..])) + length
  {
    hide Count;
    for value := start to start + length
      invariant forall b :: 0 <= b < used.Length ==> used[b] == (old(used[b]) || start <= b < value)
      invariant Count(used[..]) == Count(old(used[..])) + (value - start)
    {
      ghost var now := used[..];
      CountSet(now, value);
      used[value] := true;
      assert used[..] == now[value := true];
    }
  }

  class BlockAllocator {
    const bpg: nat
    const meta: nat
    const used: array<bool>
    var next: nat
    ghost var runs: seq<Run>

    ghost predicate Valid()
      reads this, used
    {
      && 0 < meta <= bpg
      && Partition(used[..], next, runs, bpg, meta)
    }

    /** Metadata and runs fill the whole image. */
    ghost predicate Full()
      reads this, used
      requires bpg > 0
    {
      used.Length == MetaCount(used.Length, bpg, meta) + TotalLength(runs)
    }

    /** A block map whose used blocks are exactly the group metadata. */
    constructor (bpg: nat, meta: nat, used: array<bool>)
      requires 0 < meta <= bpg
      requires forall b :: 0 <= b < used.Length ==> used[b] == IsMeta(b, bpg, meta)
      ensures Valid() && next == 0 && runs == [] && this.used == used && this.bpg == bpg && this.meta == meta
    {
      this.bpg, this.meta, this.used := bpg, meta, used;
      next, runs := 0, [];
      new;
      CountMeta(used[..], bpg, meta);
    }

    /** Moves the cursor to the first free block, or reports that there is none. */
    method SkipUsed() returns (r: Result<(), AllocError>)
      requires Valid()
      modifies this`next
      ensures Valid() && old(next) <= next
      ensures r.Ok? ==> next < used.Length && !used[next] && forall b :: old(next) <= b < next ==> used[b]
      ensures r.Err? ==> r == Err(NoFreeBlocks) && Full()
    {
      hide Partition;
      var cursor := next;
      while cursor >= used.Length || used[cursor]
        invariant next <= cursor
        invariant forall b :: next <= b < cursor && b < used.Length ==> used[b]
        decreases used.Length - cursor
      {
        cursor := cursor + 1;
        if cursor >= used.Length {
          NothingFree(used[..], next, runs, bpg, meta);
          return Err(NoFreeBlocks);
        }
      }
      CursorKeepsPartition(used[..], next, runs, bpg, meta, cursor);
      next := cursor;
      return Ok(());
    }
 
    /** Takes the free stretch at the cursor, `limit` blocks of it at most. */
    method TakeRun(limit: nat) returns (length: nat)
      requires Valid() && limit > 0 && next < used.Length && !used[next]
      modifies this`next, this`runs, used
      ensures Valid() && runs == old(runs) + [Run(old(next), length)]
      ensures 0 < length <= limit && next == old(next) + length <= used.Length
      ensures length == limit || next == used.Length || IsMeta(next, bpg, meta)
    {
      hide Partition, Count;
      ghost var before := used[..];
      var start := next;
      length := 0;
      while length < limit && start + length < used.Length && !used[start + length]
        invariant length <= limit && start + length <= used.Length
        invariant forall b :: start <= b < start + length ==> !used[b]
      {
        length := length + 1;
      }
      BehindTheCursor(before, next, runs, bpg, meta);
      MarkUsed(used, start, length);
      TakeKeepsPartition(before, next, runs, bpg, meta, start, length, used[..]);
      next := start + length;
      runs := runs + [Run(start, length)];
    }

    /** `rebuild_groups_to`, one file without sharing: stretches of free blocks until the file is mapped. */
    method AllocateExtents(blockCount: nat) returns (r: Result<seq<Extent>, AllocError>)
      requires Valid()
      modifies this`next, this`runs, used
      ensures Valid() && old(next) <= next
      ensures r.Ok? ==> MapsBlocks(r.value, blockCount) && runs == old(runs) + RunsOf(r.value)
      ensures r.Ok? && bpg - meta < MAX_EXTENT ==> Spread(r.value, bpg)
      ensures r.Ok? && r.value != [] ==> old(next) <= r.value[0].start && LastBlock(r.value) + 1 == next
      ensures r == Err(NoFreeBlocks) ==> Full() && TotalLength(runs) < TotalLength(old(runs)) + blockCount
      ensures r.Err? ==> r == Err(NoFreeBlocks) || (r == Err(NumberOverflow) && Max(used.Length, blockCount) > U32_LIMIT)
    {
      hide Partition, Spread, MapsBlocks, TotalLength;
      var extents: seq<Extent> := [];
      var logical: nat, remaining: nat := 0, blockCount;
      NothingMapped(bpg);
      assert runs + RunsOf([]) == runs;
      while remaining != 0
        invariant Valid() && old(next) <= next && logical + remaining == blockCount
        invariant MapsBlocks(extents, logical) && runs == old(runs) + RunsOf(extents)
        invariant bpg - meta < MAX_EXTENT ==> Spread(extents, bpg)
        invariant extents != [] ==> old(next) <= extents[0].start && LastBlock(extents) + 1 == next
        invariant extents != [] ==> next > 0 && !IsMeta(next - 1, bpg, meta)
        invariant extents != [] && remaining != 0 && bpg - meta < MAX_EXTENT ==>
                    next == used.Length || IsMeta(next, bpg, meta)
      {
        ghost var behind := next;
        var found := SkipUsed();
        if found.Err? {
          MapsBlocksTotal(extents, logical);
          TotalLengthAppend(old(runs), RunsOf(extents));
          return Err(found.error);
        }
        var start := next;
        var length := TakeRun(Min(remaining, MAX_EXTENT));
        if logical >= U32_LIMIT || start >= U32_LIMIT || length >= U32_LIMIT {
          return Err(NumberOverflow);
        }
        ghost var front := extents;
        extents := extents + [Extent(logical, start, length)];
        RunIsData(used[..], next, runs, bpg, meta, |runs| - 1);
        DataRunInOneGroup(start, length, bpg, meta);
        if bpg - meta < MAX_EXTENT {
          SpreadMore(front, extents[|front|], bpg, meta, behind);
        }
        MapsMore(front, extents[|front|], logical);
        assert RunsOf(extents) == RunsOf(front) + [Run(start, length)];
        logical := logical + length;
        remaining := remaining - length;
      }
      return Ok(extents);
    }
 
    /** Extents of every file, in tree order. */
    method PlaceFiles(p: Profile, nodes: seq<FileNode>) returns (r: Result<seq<seq<Extent>>, AllocError>)
      requires Valid() && Sane(p) && next == 0 && runs == []
      modifies this`next, this`runs, used
      ensures Valid()
      ensures r.Ok? ==> Placed(p, nodes, r.value) && runs == FileRuns(r.value)
      ensures r.Ok? ==> TotalLength(runs) == DataBlocks(p, nodes)
      ensures r.Ok? && bpg - meta < MAX_EXTENT ==> AllSpread(r.value, bpg) && Crossings(r.value) <= CursorGroup(next, bpg)
      ensures r == Err(NoFreeBlocks) ==> Full() && TotalLength(runs) < DataBlocks(p, nodes)
      ensures r.Err? ==> r == Err(NoFreeBlocks)
                         || (r == Err(NumberOverflow) && (used.Length > U32_LIMIT || exists node :: node in nodes && NeedBlocks(p, node) > U32_LIMIT))
    {
      hide Partition, Spread, MapsBlocks, NeedBlocks;
      var files: seq<seq<Extent>> := [];
      for i := 0 to |nodes|
        invariant Valid() && |files| == i && Placed(p, nodes[..i], files) && runs == FileRuns(files)
        invariant TotalLength(runs) == DataBlocks(p, nodes[..i])
        invariant bpg - meta < MAX_EXTENT ==> AllSpread(files, bpg) && Crossings(files) <= CursorGroup(next, bpg)
      {
        ghost var before, from := runs, next;
        var extents: seq<Extent> := [];
        if !nodes[i].inlineSymlink {
          var taken := AllocateExtents(DivCeil(nodes[i].size, p.blockSize));
          assert NeedBlocks(p, nodes[i]) == DivCeil(nodes[i].size, p.blockSize) by { NeedOfFile(p, nodes[i]); }
          if taken.Err? {
            DataBlocksPrefix(p, nodes, i);
            assert nodes[i] in nodes;
            return Err(taken.error);
          }
          extents := taken.value;
        } else {
          NeedOfLink(p, nodes[i]);
          NothingMapped(bpg);
          assert runs + RunsOf([]) == runs;
        }
        MapsBlocksTotal(extents, NeedBlocks(p, nodes[i]));
        TotalLengthAppend(before, RunsOf(extents));
        PlacedMore(p, nodes, i, files, extents);
        if bpg - meta < MAX_EXTENT {
          CrossingsMore(files, extents, from, next, bpg);
        }
        files := files + [extents];
      }
      assert nodes[..|nodes|] == nodes;
      return Ok(files);
    }
 
    /** One extent-tree block at a time. */
    method AllocateTree(count: nat) returns (r: Result<seq<nat>, AllocError>)
      requires Valid()
      modifies this`next, this`runs, used
      ensures Valid()
      ensures r.Ok? ==> |r.value| == count && runs == old(runs) + TreeRuns(r.value)
      ensures r == Err(NoFreeBlocks) ==> Full() && TotalLength(runs) < TotalLength(old(runs)) + count
      ensures r.Err? ==> r == Err(NoFreeBlocks) || (r == Err(NumberOverflow) && used.Length > U32_LIMIT)
    {
      hide Partition, TotalLength;
      var blocks: seq<nat> := [];
      assert runs + TreeRuns([]) == runs;
      for k := 0 to count
        invariant Valid() && |blocks| == k && runs == old(runs) + TreeRuns(blocks)
      {
        var found := SkipUsed();
        if found.Err? {
          TotalLengthAppend(old(runs), TreeRuns(blocks));
          TreeRunsLength(blocks);
          return Err(found.error);
        }
        var block := next;
        var length := TakeRun(1);
        if block >= U32_LIMIT {
          return Err(NumberOverflow);
        }
        assert TreeRuns(blocks + [block]) == TreeRuns(blocks) + [Run(block, length)];
        blocks := blocks + [block];
      }
      return Ok(blocks);
    }

    /** Extent-tree blocks of every file. */
    method PlaceTrees(files: seq<seq<Extent>>) returns (r: Result<seq<seq<nat>>, AllocError>)
      requires Valid()
      modifies this`next, this`runs, used
      ensures Valid()
      ensures r.Ok? ==>
                && |r.value| == |files|
                && (forall i :: 0 <= i < |files| ==> |files[i]| <= MAX_EXTENTS && |r.value[i]| == TreeCount(|files[i]|))
                && runs == old(runs) + AllTreeRuns(r.value)
                && TotalLength(runs) == TotalLength(old(runs)) + TreeTotal(files)
      ensures r == Err(NoFreeBlocks) ==> Full() && TotalLength(runs) < TotalLength(old(runs)) + TreeTotal(files)
      ensures r == Err(TooDeep) ==> exists f :: f in files && |f| > MAX_EXTENTS
      ensures r.Err? ==> r == Err(NoFreeBlocks) || r == Err(TooDeep) || (r == Err(NumberOverflow) && used.Length > U32_LIMIT)
    {
      hide Partition, TotalLength, TreeCount;
      var trees: seq<seq<nat>> := [];
      assert runs + [] == runs && files[..0] == [];
      for i := 0 to |files|
        invariant Valid() && |trees| == i && runs == old(runs) + AllTreeRuns(trees)
        invariant forall k :: 0 <= k < i ==> |files[k]| <= MAX_EXTENTS && |trees[k]| == TreeCount(|files[k]|)
        invariant TotalLength(runs) == TotalLength(old(runs)) + TreeTotal(files[..i])
      {
        if |files[i]| > MAX_EXTENTS {
          assert files[i] in files;
          return Err(TooDeep);
        }
        ghost var before := runs;
        TreeTotalPrefix(files, i);
        var tree := AllocateTree(TreeCount(|files[i]|));
        if tree.Err? {
          return Err(tree.error);
        }
        TotalLengthAppend(before, TreeRuns(tree.value));
        TreeRunsLength(tree.value);
        assert (trees + [tree.value])[..i] == trees;
        trees := trees + [tree.value];
      }
      assert files[..|files|] == files;
      return Ok(trees);
    }
  }

  // ---- The whole layout ------------------------------------------------------------------------------

  /** Where the metadata of a group lies. */
  datatype GroupMeta = GroupMeta(super: nat, descriptors: nat, blockBitmap: nat, inodeBitmap: nat, inodeTable: nat)

  function GroupMetaAt(p: Profile, groups: nat, g: nat): GroupMeta
    requires Sane(p)
  {
    var start := g * p.blocksPerGroup;
    var bitmap := start + 1 + DescriptorBlocks(p, groups);
    GroupMeta(start, start + 1, bitmap, bitmap + 1, bitmap + 2)
  }

  /** Blocks of the last group of an image of `total` blocks. */
  function LastGroupBlocks(total: nat, bpg: nat): nat
    requires bpg > 0
  {
    if total % bpg == 0 then bpg else total % bpg
  }

  datatype Layout = Layout(files: seq<seq<Extent>>, trees: seq<seq<nat>>)

  /** `used` marks the metadata of the first `groups` groups and nothing else. */
  predicate MarksGroups(used: seq<bool>, groups: nat, bpg: nat, meta: nat)
    requires bpg > 0
  {
    forall b :: 0 <= b < |used| ==> used[b] == (b / bpg < groups && IsMeta(b, bpg, meta))
  }

  lemma {:induction false} MarkGroup(before: seq<bool>, after: seq<bool>, g: nat, bpg: nat, meta: nat)
    requires 0 < meta <= bpg && |before| == |after| && g * bpg + meta <= |before|
    requires MarksGroups(before, g, bpg, meta)
    requires forall b :: 0 <= b < |after| ==> after[b] == (before[b] || g * bpg <= b < g * bpg + meta)
    ensures MarksGroups(after, g + 1, bpg, meta)
  {
    forall b | 0 <= b < |after|
      ensures after[b] == (b / bpg < g + 1 && IsMeta(b, bpg, meta))
    {
      GroupArithmetic(b, bpg);
      if b / bpg < g {
        MulMonotone(b / bpg + 1, g, bpg);
      } else if b / bpg > g {
        MulMonotone(g + 1, b / bpg, bpg);
        assert (g + 1) * bpg == g * bpg + bpg;
      }
    }
  }

  /** Groups of the image and the metadata blocks of each, or the error for a group too small for its own. */
  method LayoutGroups(p: Profile, total: nat)
    returns (r: Result<seq<GroupMeta>, AllocError>, used: array<bool>)
    requires Sane(p)
    ensures fresh(used) && used.Length == total
    ensures var groups, meta := DivCeil(total, p.blocksPerGroup), MetaBlocks(p, DivCeil(total, p.blocksPerGroup));
            && (r.Err? <==> total > 0 && LastGroupBlocks(total, p.blocksPerGroup) < meta)
            && (r.Err? ==> r == Err(NoRoomForTable))
            && (r.Ok? ==>
                  && |r.value| == groups
                  && (forall g :: 0 <= g < groups ==> r.value[g] == GroupMetaAt(p, groups, g))
                  && (forall b :: 0 <= b < total ==> used[b] == IsMeta(b, p.blocksPerGroup, meta)))
  {
    hide MetaBlocks, DescriptorBlocks, TableBlocks, MarksGroups, LastGroupBlocks, DivCeil;
    var bpg := p.blocksPerGroup;
    var groups := DivCeil(total, bpg);
    var meta := MetaBlocks(p, groups);
    used := new bool[total](_ => false);
    var metadata: seq<GroupMeta> := [];
    NothingMarked(used[..], bpg, meta);
    if total == 0 {
      DivCeilUnique(0, 0, bpg);
    } else {
      LastGroup(total, bpg);
    }
    for g := 0 to groups
      invariant |metadata| == g && forall k :: 0 <= k < g ==> metadata[k] == GroupMetaAt(p, groups, k)
      invariant MarksGroups(used[..], g, bpg, meta)
      invariant g > 0 ==> meta <= bpg
      invariant g == groups && total > 0 ==> meta <= LastGroupBlocks(total, bpg)
    {
      GroupRoom(total, bpg, g);
      var start := g * bpg;
      var groupBlocks := Min(total - start, bpg);
      var group := GroupMetaAt(p, groups, g);
      var end := group.inodeTable + TableBlocks(p);
      assert end == start + meta by { MetaParts(p, groups); }
      if end > start + groupBlocks {
        return Err(NoRoomForTable), used;
      }
      ghost var before := used[..];
      for value := start to end
        invariant forall b :: 0 <= b < total ==> used[b] == (before[b] || start <= b < value)
      {
        used[value] := true;
      }
      MarkGroup(before, used[..], g, bpg, meta);
      metadata := metadata + [group];
    }
    AllMarked(used[..], groups, bpg, meta);
    assert forall b :: 0 <= b < total ==> used[..][b] == used[b];
    return Ok(metadata), used;
  }

  lemma {:induction false} NothingMarked(used: seq<bool>, bpg: nat, meta: nat)
    requires bpg > 0 && forall b :: 0 <= b < |used| ==> !used[b]
    ensures MarksGroups(used, 0, bpg, meta)
  {
  }

  lemma {:induction false} AllMarked(used: seq<bool>, groups: nat, bpg: nat, meta: nat)
    requires bpg > 0 && MarksGroups(used, groups, bpg, meta) && groups == DivCeil(|used|, bpg)
    ensures forall b :: 0 <= b < |used| ==> used[b] == IsMeta(b, bpg, meta)
  {
    hide DivCeil;
    DivCeilMeaning(|used|, bpg);
    forall b | 0 <= b < |used|
      ensures used[b] == IsMeta(b, bpg, meta)
    {
      GroupArithmetic(b, bpg);
      if b / bpg >= groups {
        MulMonotone(groups, b / bpg, bpg);
      }
    }
  }

  /** Blocks of group `g`: all groups are full but the last. */
  lemma {:induction false} GroupRoom(total: nat, bpg: nat, g: nat)
    requires bpg > 0 && g < DivCeil(total, bpg)
    ensures g * bpg < total
    ensures Min(total - g * bpg, bpg) == if g == DivCeil(total, bpg) - 1 then LastGroupBlocks(total, bpg) else bpg
    ensures LastGroupBlocks(total, bpg) <= bpg
  {
    hide DivCeil;
    var last := DivCeil(total, bpg) - 1;
    if total == 0 {
      DivCeilUnique(0, 0, bpg);
    }
    LastGroup(total, bpg);
    if g < last {
      MulMonotone(g + 1, last, bpg);
      MulDistributes(g, 1, bpg);
    }
  }

  lemma {:induction false} MetaParts(p: Profile, groups: nat)
    requires Sane(p)
    ensures MetaBlocks(p, groups) == 3 + DescriptorBlocks(p, groups) + TableBlocks(p)
  {
  }

  lemma {:induction false} LastGroup(total: nat, bpg: nat)
    requires bpg > 0
    ensures total > 0 ==> DivCeil(total, bpg) > 0 && total - (DivCeil(total, bpg) - 1) * bpg == LastGroupBlocks(total, bpg)
  {
    if total > 0 {
      GroupArithmetic(total, bpg);
      if total % bpg == 0 {
        DivCeilUnique(total, total / bpg, bpg);
        MulDistributes(total / bpg - 1, 1, bpg);
      } else {
        MulDistributes(total / bpg, 1, bpg);
        DivCeilUnique(total, total / bpg + 1, bpg);
      }
    }
  }
}
