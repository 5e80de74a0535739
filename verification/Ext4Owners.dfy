/** Who owns which bytes of a laid-out image: the allocator's partition of blocks, turned into byte spans that are apart. */
module Ext4Owners {
  import opened Core
  import opened Arith
  import opened Spans
  import opened Ext4Plan
  import opened Ext4Alloc
  import opened Ext4Inode
  import opened Ext4Content
  import opened Ext4Image

  // ---- Runs of different owners ----------------------------------------------------------------------------

  /** The runs of all owners, one owner after the other. */
  function Flat(owners: seq<seq<Run>>): seq<Run> {
    if owners == [] then [] else Flat(owners[..|owners| - 1]) + owners[|owners| - 1]
  }

  lemma {:induction false} FlatConcat(a: seq<seq<Run>>, b: seq<seq<Run>>)
    ensures Flat(a + b) == Flat(a) + Flat(b)
    decreases |b|
  {
    if b == [] {
      assert a + b == a;
    } else {
      var k := |b| - 1;
      FlatConcat(a, b[..k]);
      assert (a + b)[..|a + b| - 1] == a + b[..k];
    }
  }

  function FileOwners(files: seq<seq<Extent>>): (r: seq<seq<Run>>)
    ensures |r| == |files|
  {
    seq(|files|, i requires 0 <= i < |files| => RunsOf(files[i]))
  }

  function TreeOwners(trees: seq<seq<nat>>): (r: seq<seq<Run>>)
    ensures |r| == |trees|
  {
    seq(|trees|, i requires 0 <= i < |trees| => TreeRuns(trees[i]))
  }

  lemma {:induction false} FlatFiles(files: seq<seq<Extent>>)
    ensures FileRuns(files) == Flat(FileOwners(files))
    decreases |files|
  {
    if files != [] {
      var k := |files| - 1;
      FlatFiles(files[..k]);
      assert FileOwners(files)[..k] == FileOwners(files[..k]);
    }
  }

  lemma {:induction false} FlatTrees(trees: seq<seq<nat>>)
    ensures AllTreeRuns(trees) == Flat(TreeOwners(trees))
    decreases |trees|
  {
    if trees != [] {
      var k := |trees| - 1;
      FlatTrees(trees[..k]);
      assert TreeOwners(trees)[..k] == TreeOwners(trees[..k]);
    }
  }

  /** Every run of `a` ends before every run of `b` begins. */
  predicate Precedes(a: seq<Run>, b: seq<Run>) {
    forall i, j :: 0 <= i < |a| && 0 <= j < |b| ==> a[i].start + a[i].length <= b[j].start
  }

  lemma {:induction false} AscendingSplit(a: seq<Run>, b: seq<Run>, next: nat)
    requires Ascending(a + b, next)
    ensures Ascending(a, next) && Ascending(b, next) && Precedes(a, b)
  {
    var all := a + b;
    assert forall i :: 0 <= i < |a| ==> all[i] == a[i];
    assert forall j :: 0 <= j < |b| ==> all[|a| + j] == b[j];
  }

  /** Each owner's runs are among all runs. */
  lemma {:induction false} RunAmong(owners: seq<seq<Run>>, i: nat, x: nat) returns (at: nat)
    requires i < |owners| && x < |owners[i]|
    ensures at < |Flat(owners)| && Flat(owners)[at] == owners[i][x]
    decreases |owners|
  {
    var k := |owners| - 1;
    if i == k {
      at := |Flat(owners[..k])| + x;
    } else {
      at := RunAmong(owners[..k], i, x);
    }
  }

  /** Runs of different owners are apart, those of one owner ascend. */
  lemma {:induction false} OwnersApart(owners: seq<seq<Run>>, next: nat)
    requires Ascending(Flat(owners), next)
    ensures forall i :: 0 <= i < |owners| ==> Ascending(owners[i], next)
    ensures forall i, j :: 0 <= i < j < |owners| ==> Precedes(owners[i], owners[j])
    decreases |owners|
  {
    if owners != [] {
      var k := |owners| - 1;
      var front, last := Flat(owners[..k]), owners[k];
      AscendingSplit(front, last, next);
      OwnersApart(owners[..k], next);
      forall i | 0 <= i < k
        ensures Precedes(owners[i], last) && Ascending(owners[i], next)
      {
        assert owners[..k][i] == owners[i];
        forall x, y | 0 <= x < |owners[i]| && 0 <= y < |last|
          ensures owners[i][x].start + owners[i][x].length <= last[y].start
        {
          var at := RunAmong(owners[..k], i, x);
        }
      }
      forall i, j | 0 <= i < j < |owners|
        ensures Precedes(owners[i], owners[j])
      {
        assert i < k && owners[..k][i] == owners[i];
        assert j < k ==> owners[..k][j] == owners[j];
      }
    }
  }

  /** Files and trees of a layout, as owners. */
  function Owners(files: seq<seq<Extent>>, trees: seq<seq<nat>>): (r: seq<seq<Run>>)
    ensures |r| == |files| + |trees|
    ensures forall i :: 0 <= i < |files| ==> r[i] == RunsOf(files[i])
    ensures forall i :: 0 <= i < |trees| ==> r[|files| + i] == TreeRuns(trees[i])
  {
    FileOwners(files) + TreeOwners(trees)
  }

  lemma {:induction false} OwnersFlat(files: seq<seq<Extent>>, trees: seq<seq<nat>>)
    ensures Flat(Owners(files, trees)) == FileRuns(files) + AllTreeRuns(trees)
  {
    FlatFiles(files);
    FlatTrees(trees);
    FlatConcat(FileOwners(files), TreeOwners(trees));
  }

  // ---- Spans of runs ---------------------------------------------------------------------------------------

  function RunSpan(r: Run, blockSize: nat): Span {
    Span(r.start * blockSize, (r.start + r.length) * blockSize)
  }

  function RunSpans(runs: seq<Run>, blockSize: nat): (r: seq<Span>)
    ensures |r| == |runs|
  {
    seq(|runs|, i requires 0 <= i < |runs| => RunSpan(runs[i], blockSize))
  }

  lemma {:induction false} DataSpansAreRuns(extents: seq<Extent>, blockSize: nat)
    ensures DataSpans(extents, blockSize) == RunSpans(RunsOf(extents), blockSize)
  {
  }

  lemma {:induction false} TreeSpansAreRuns(tree: seq<nat>, blockSize: nat)
    ensures TreeSpans(tree, blockSize) == RunSpans(TreeRuns(tree), blockSize)
  {
    var runs := TreeRuns(tree);
    forall i | 0 <= i < |tree|
      ensures TreeSpans(tree, blockSize)[i] == RunSpan(runs[i], blockSize)
    {
      MulDistributes(tree[i], 1, blockSize);
    }
  }

  lemma {:induction false} RunSpanOrder(r: Run, s: Run, blockSize: nat)
    requires r.start + r.length <= s.start
    ensures RunSpan(r, blockSize).until <= RunSpan(s, blockSize).from
  {
    MulMonotone(r.start + r.length, s.start, blockSize);
  }

  lemma {:induction false} PrecedesOff(a: seq<Run>, b: seq<Run>)
    requires Precedes(a, b)
    ensures AllOff(a, b) && AllOff(b, a)
  {
  }

  lemma {:induction false} OffApart(a: seq<Run>, b: seq<Run>, blockSize: nat)
    requires AllOff(a, b)
    ensures Apart(RunSpans(a, blockSize), RunSpans(b, blockSize))
  {
    hide RunSpan;
    forall i, j | 0 <= i < |a| && 0 <= j < |b|
      ensures SpansApart(RunSpan(a[i], blockSize), RunSpan(b[j], blockSize))
    {
      assert RunsOff(a[i], b[j]);
      if a[i].start + a[i].length <= b[j].start {
        RunSpanOrder(a[i], b[j], blockSize);
      } else {
        RunSpanOrder(b[j], a[i], blockSize);
      }
    }
  }

  lemma {:induction false} RunInImage(r: Run, blockSize: nat, total: nat)
    requires r.start + r.length <= total
    ensures RunSpan(r, blockSize).until <= total * blockSize
  {
    MulMonotone(r.start + r.length, total, blockSize);
  }

  // ---- Metadata --------------------------------------------------------------------------------------------

  /** The metadata blocks of a group. */
  function MetaRun(g: nat, bpg: nat, meta: nat): Run {
    Run(g * bpg, meta)
  }

  lemma {:induction false} MetaIsMeta(g: nat, bpg: nat, meta: nat, b: nat)
    requires 0 < meta <= bpg && InRun(b, MetaRun(g, bpg, meta))
    ensures IsMeta(b, bpg, meta)
  {
    DivUnique(b, g, b - g * bpg, bpg);
  }

  /** A run free of metadata lies apart from every group's metadata. */
  lemma {:induction false} RunOffMeta(r: Run, g: nat, bpg: nat, meta: nat)
    requires 0 < meta <= bpg && r.length > 0 && forall b :: InRun(b, r) ==> !IsMeta(b, bpg, meta)
    ensures r.start + r.length <= g * bpg || g * bpg + meta <= r.start
  {
    hide IsMeta;
    if !(r.start + r.length <= g * bpg || g * bpg + meta <= r.start) {
      var b := Max(r.start, g * bpg);
      assert InRun(b, r);
      MetaIsMeta(g, bpg, meta, b);
    }
  }

  /** Runs inside the image and off the metadata. */
  ghost predicate RunsFit(runs: seq<Run>, bpg: nat, meta: nat, total: nat)
    requires bpg > 0
  {
    && (forall i :: 0 <= i < |runs| ==> runs[i].length > 0 && runs[i].start + runs[i].length <= total)
    && forall i, b :: 0 <= i < |runs| && InRun(b, runs[i]) ==> !IsMeta(b, bpg, meta)
  }

  lemma {:induction false} MetaApart(runs: seq<Run>, g: nat, bpg: nat, meta: nat, blockSize: nat, total: nat)
    requires 0 < meta <= bpg && RunsFit(runs, bpg, meta, total)
    ensures Apart([RunSpan(MetaRun(g, bpg, meta), blockSize)], RunSpans(runs, blockSize))
  {
    hide IsMeta, RunSpan;
    forall i | 0 <= i < |runs|
      ensures SpansApart(RunSpan(MetaRun(g, bpg, meta), blockSize), RunSpan(runs[i], blockSize))
    {
      RunOffMeta(runs[i], g, bpg, meta);
      if runs[i].start + runs[i].length <= g * bpg {
        RunSpanOrder(runs[i], MetaRun(g, bpg, meta), blockSize);
      } else {
        RunSpanOrder(MetaRun(g, bpg, meta), runs[i], blockSize);
      }
    }
  }

  /** What the partition says about one owner. */
  ghost predicate OwnerFits(runs: seq<Run>, bpg: nat, meta: nat, total: nat)
    requires bpg > 0
  {
    && Ascending(runs, total)
    && forall i, b :: 0 <= i < |runs| && InRun(b, runs[i]) ==> !IsMeta(b, bpg, meta)
  }

  lemma {:induction false} OwnersFit(
    files: seq<seq<Extent>>, trees: seq<seq<nat>>, used: seq<bool>, next: nat, bpg: nat, meta: nat)
    requires bpg > 0 && Partition(used, next, FileRuns(files) + AllTreeRuns(trees), bpg, meta)
    ensures forall i :: 0 <= i < |files| + |trees| ==> OwnerFits(Owners(files, trees)[i], bpg, meta, |used|)
    ensures forall i, j :: 0 <= i < j < |files| + |trees| ==> Precedes(Owners(files, trees)[i], Owners(files, trees)[j])
  {
    hide Count, MetaCount, TotalLength, IsMeta, FileRuns, AllTreeRuns, RunsOf, TreeRuns, Flat;
    var owners := Owners(files, trees);
    OwnersFlat(files, trees);
    OwnersApart(owners, next);
    var all := Flat(owners);
    forall i | 0 <= i < |owners|
      ensures OwnerFits(owners[i], bpg, meta, |used|)
    {
      forall x, b | 0 <= x < |owners[i]| && InRun(b, owners[i][x])
        ensures !IsMeta(b, bpg, meta)
      {
        var at := RunAmong(owners, i, x);
        assert InRun(b, all[at]);
        assert Owned(b, all);
      }
    }
  }

  lemma {:induction false} OwnerFitsRuns(runs: seq<Run>, bpg: nat, meta: nat, total: nat)
    requires bpg > 0 && OwnerFits(runs, bpg, meta, total)
    ensures RunsFit(runs, bpg, meta, total) && Ascending(runs, total)
  {
    hide IsMeta;
  }

  // ---- Shared blocks ---------------------------------------------------------------------------------------

  predicate AllLong(extents: seq<Extent>) {
    forall i :: 0 <= i < |extents| ==> extents[i].length > 0
  }

  /** Every block of the extents is owned. */
  ghost predicate AllOwned(extents: seq<Extent>, runs: seq<Run>) {
    forall i: nat, b: nat :: i < |extents| && InRun(b, Run(extents[i].start, extents[i].length)) ==> Owned(b, runs)
  }

  /** Extents made of owned blocks lie inside the image, off the metadata. */
  lemma {:induction false} OwnedFit(extents: seq<Extent>, used: seq<bool>, next: nat, runs: seq<Run>, more: seq<Run>, bpg: nat, meta: nat)
    requires bpg > 0 && Partition(used, next, runs + more, bpg, meta) && AllOwned(extents, runs) && AllLong(extents)
    ensures RunsFit(RunsOf(extents), bpg, meta, |used|)
  {
    hide Count, IsMeta, Owned;
    var own := RunsOf(extents);
    forall i, b: nat | 0 <= i < |own| && InRun(b, own[i])
      ensures !IsMeta(b, bpg, meta)
    {
      assert InRun(b, Run(extents[i].start, extents[i].length));
      OwnedIn(b, runs, more, next);
    }
    forall i | 0 <= i < |own|
      ensures own[i].start + own[i].length <= |used|
    {
      assert extents[i].length > 0;
      var last: nat := extents[i].start + extents[i].length - 1;
      assert InRun(last, Run(extents[i].start, extents[i].length));
      OwnedIn(last, runs, more, next);
    }
  }

  lemma {:induction false} OwnedIn(b: nat, runs: seq<Run>, more: seq<Run>, next: nat)
    requires Owned(b, runs) && Ascending(runs + more, next)
    ensures Owned(b, runs + more) && b < next
  {
    var i :| 0 <= i < |runs| && InRun(b, runs[i]);
    assert InRun(b, (runs + more)[i]);
  }

  lemma {:induction false} LaterRun(runs: seq<Run>, more: seq<Run>, next: nat, j: nat, m: nat)
    requires Ascending(runs + more, next) && j < |runs| && m < |more|
    ensures runs[j].start + runs[j].length <= more[m].start
  {
    assert (runs + more)[j] == runs[j] && (runs + more)[|runs| + m] == more[m];
  }

  /** Extents made of owned blocks are off the runs taken later. */
  lemma {:induction false} OwnedOffLater(extents: seq<Extent>, later: seq<Run>, runs: seq<Run>, more: seq<Run>, next: nat)
    requires Ascending(runs + more, next) && AllOwned(extents, runs) && AllLong(extents)
    requires forall k :: 0 <= k < |later| ==> later[k] in more
    ensures AllOff(RunsOf(extents), later)
  {
    var own := RunsOf(extents);
    forall i, k | 0 <= i < |own| && 0 <= k < |later|
      ensures RunsOff(own[i], later[k])
    {
      var m :| 0 <= m < |more| && more[m] == later[k];
      assert (runs + more)[|runs| + m].length > 0;
      var b := MeetingBlock(own[i], later[k]);
      if !RunsOff(own[i], later[k]) {
        assert InRun(b, Run(extents[i].start, extents[i].length));
        assert Owned(b, runs);
        var j :| 0 <= j < |runs| && InRun(b, runs[j]);
        LaterRun(runs, more, next, j, m);
        assert false;
      }
    }
  }

  /** Tree blocks behind the shared blocks, as owners. */
  lemma {:induction false} TreesFitBehind(trees: seq<seq<nat>>, used: seq<bool>, next: nat, runs: seq<Run>, bpg: nat, meta: nat)
    requires bpg > 0 && Partition(used, next, runs + AllTreeRuns(trees), bpg, meta)
    ensures forall i :: 0 <= i < |trees| ==> OwnerFits(TreeRuns(trees[i]), bpg, meta, |used|)
    ensures forall i, j :: 0 <= i < j < |trees| ==> Precedes(TreeRuns(trees[i]), TreeRuns(trees[j]))
    ensures forall i, k :: 0 <= i < |trees| && 0 <= k < |trees[i]| ==> TreeRuns(trees[i])[k] in AllTreeRuns(trees)
  {
    hide Count, MetaCount, TotalLength, IsMeta, AllTreeRuns, TreeRuns, Flat;
    var owners, flat, all := TreeOwners(trees), AllTreeRuns(trees), runs + AllTreeRuns(trees);
    FlatTrees(trees);
    AscendingSplit(runs, flat, next);
    OwnersApart(owners, next);
    forall i | 0 <= i < |trees|
      ensures OwnerFits(owners[i], bpg, meta, |used|)
      ensures forall k :: 0 <= k < |trees[i]| ==> owners[i][k] in flat
    {
      forall x | 0 <= x < |owners[i]|
        ensures owners[i][x] in flat
      {
        var at := RunAmong(owners, i, x);
      }
      forall x, b | 0 <= x < |owners[i]| && InRun(b, owners[i][x])
        ensures !IsMeta(b, bpg, meta)
      {
        var at := RunAmong(owners, i, x);
        assert InRun(b, all[|runs| + at]);
        assert Owned(b, all);
      }
    }
  }
}
