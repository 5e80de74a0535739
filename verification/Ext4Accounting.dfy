/**
 The accounting of a built image: bitmaps, group counters and superblock counters all say the same about the
 same blocks and inodes.
 */
module Ext4Accounting {
  import opened Core
  import opened Arith
  import opened OutFile
  import opened Spans
  import opened Bitmaps
  import opened Ext4Plan
  import opened Ext4Alloc
  import opened Ext4Tree
  import opened Ext4Super

  const RESERVED: nat := 10
  const RESERVED_UNNAMED: nat := 9

  // ---- Blocks of a group -----------------------------------------------------------------------------------

  function GroupStart(g: nat, bpg: nat): nat {
    g * bpg
  }

  function GroupEnd(g: nat, bpg: nat, total: nat): nat {
    Min(g * bpg + bpg, total)
  }

  /** The usage flags of a group's blocks. */
  function GroupUsed(used: seq<bool>, g: nat, bpg: nat): (r: seq<bool>)
    requires GroupStart(g, bpg) <= |used|
  {
    used[GroupStart(g, bpg)..GroupEnd(g, bpg, |used|)]
  }

  function FreeBlocksIn(used: seq<bool>, g: nat, bpg: nat): (n: int)
    requires GroupStart(g, bpg) <= |used|
  {
    |GroupUsed(used, g, bpg)| - Count(GroupUsed(used, g, bpg))
  }

  lemma {:induction false} CountSplit(used: seq<bool>, m: nat)
    requires m <= |used|
    ensures Count(used) == Count(used[..m]) + Count(used[m..])
    decreases |used|
  {
    if m == |used| {
      assert used[..m] == used && used[m..] == [];
    } else {
      var k := |used| - 1;
      CountSplit(used[..k], m);
      assert used[..k][..m] == used[..m] && used[..k][m..] == used[m..][..k - m];
    }
  }

  /** Free blocks of the first `n` groups. */
  function FreeBlocksBefore(used: seq<bool>, n: nat, bpg: nat): int
    requires n > 0 ==> GroupStart(n - 1, bpg) <= |used|
    decreases n
  {
    if n == 0 then 0
    else
      if n > 1 then MulMonotone(n - 2, n - 1, bpg); FreeBlocksBefore(used, n - 1, bpg) + FreeBlocksIn(used, n - 1, bpg)
      else FreeBlocksIn(used, 0, bpg)
  }

  lemma {:induction false} FreeBlocksPrefix(used: seq<bool>, n: nat, bpg: nat)
    requires n > 0 && GroupStart(n - 1, bpg) <= |used|
    ensures var end := GroupEnd(n - 1, bpg, |used|);
            FreeBlocksBefore(used, n, bpg) == end - Count(used[..end])
    decreases n
  {
    var start, end := GroupStart(n - 1, bpg), GroupEnd(n - 1, bpg, |used|);
    CountSplit(used[..end], start);
    assert used[..end][..start] == used[..start] && used[..end][start..] == used[start..end];
    if n > 1 {
      MulMonotone(n - 2, n - 1, bpg);
      MulDistributes(n - 2, 1, bpg);
      FreeBlocksPrefix(used, n - 1, bpg);
    } else {
      assert used[..start] == [];
    }
  }

  /** The group counters of free blocks add up to the superblock's. */
  lemma {:induction false} FreeBlocksAddUp(used: seq<bool>, bpg: nat)
    requires bpg > 0 && |used| > 0
    ensures var groups := DivCeil(|used|, bpg);
            && groups > 0 && GroupStart(groups - 1, bpg) <= |used|
            && FreeBlocksBefore(used, groups, bpg) == |used| - Count(used)
  {
    var groups := DivCeil(|used|, bpg);
    LastGroup(|used|, bpg);
    DivCeilMeaning(|used|, bpg);
    MulDistributes(groups - 1, 1, bpg);
    FreeBlocksPrefix(used, groups, bpg);
    assert used[..|used|] == used;
  }

  /** The block bitmap of a group: used blocks, and everything past the end of the image. */
  ghost predicate BlockBits(block: bytes, inUse: seq<bool>, bpg: nat) {
    forall i: nat :: i < 8 * |block| ==> (BitAt(block, i) <==> i < bpg && (i >= |inUse| || inUse[i]))
  }

  /** The clear bits of a group's bitmap are its free blocks. */
  lemma {:induction false} ClearBitsAreFree(block: bytes, inUse: seq<bool>, bpg: nat, n: nat)
    requires BlockBits(block, inUse, bpg) && |inUse| <= bpg <= 8 * |block| && n <= bpg
    ensures ClearBits(block, n) == Min(n, |inUse|) - Count(inUse[..Min(n, |inUse|)])
  {
    if n > 0 {
      ClearBitsAreFree(block, inUse, bpg, n - 1);
      if n <= |inUse| {
        assert inUse[..n][..n - 1] == inUse[..n - 1];
      }
    }
  }

  lemma {:induction false} BlockCounterExact(block: bytes, used: seq<bool>, g: nat, bpg: nat)
    requires GroupStart(g, bpg) <= |used| && bpg <= 8 * |block| && BlockBits(block, GroupUsed(used, g, bpg), bpg)
    ensures ClearBits(block, bpg) == FreeBlocksIn(used, g, bpg)
  {
    var inUse := GroupUsed(used, g, bpg);
    ClearBitsAreFree(block, inUse, bpg, bpg);
    assert inUse[..|inUse|] == inUse;
  }

  method CountFreeBlocks(used: array<bool>, from: nat, until: nat) returns (n: nat)
    requires from <= until <= used.Length
    ensures n == until - from - Count(used[from..until])
  {
    n := 0;
    for b := from to until
      invariant n == b - from - Count(used[from..b])
    {
      assert used[from..b + 1][..b - from] == used[from..b];
      if !used[b] {
        n := n + 1;
      }
    }
  }

  method WriteBlockBitmap(image: File, base: nat, blockSize: nat, used: array<bool>, start: nat, end: nat, bpg: nat)
    requires start <= end <= used.Length && end - start <= bpg <= 8 * blockSize
    requires base + blockSize <= |image.content| && Region(image.content, base, blockSize) == Zeros(blockSize)
    modifies image
    ensures OnlyRegion(old(image.content), image.content, base, blockSize)
    ensures BlockBits(Region(image.content, base, blockSize), used[start..end], bpg)
  {
    hide Region, Marks;
    ghost var marked: set<nat> := {};
    NothingSet(blockSize);
    for value := start to end
      invariant OnlyRegion(old(image.content), image.content, base, blockSize)
      invariant Marks(Region(image.content, base, blockSize), marked)
      invariant forall i: nat :: i in marked <==> i < value - start && used[start + i]
    {
      if used[value] {
        OrBit(image, base, blockSize, value - start, marked);
        marked := marked + {value - start};
      }
    }
    ghost var inUse := used[start..end];
    for index := end - start to bpg
      invariant OnlyRegion(old(image.content), image.content, base, blockSize)
      invariant Marks(Region(image.content, base, blockSize), marked)
      invariant forall i: nat :: i in marked <==> i < index && (i >= |inUse| || inUse[i])
    {
      OrBit(image, base, blockSize, index, marked);
      marked := marked + {index};
    }
    MarksAreBits(Region(image.content, base, blockSize), marked, inUse, bpg);
  }

  lemma {:induction false} MarksAreBits(block: bytes, marked: set<nat>, inUse: seq<bool>, bpg: nat)
    requires Marks(block, marked) && forall i: nat :: i in marked <==> i < bpg && (i >= |inUse| || inUse[i])
    ensures BlockBits(block, inUse, bpg)
  {
  }

  // ---- Inodes of a group -----------------------------------------------------------------------------------

  /** The nodes carry their preorder numbers. */
  predicate Numbered(all: seq<Node>) {
    all != [] && forall i :: 0 <= i < |all| ==> all[i].nid == NidOf(i)
  }

  /** Numbers up to `v` taken by `n` nodes. */
  function TakenUpTo(n: nat, v: nat): nat
    requires n > 0
  {
    (if v >= ROOT then 1 else 0) + Max(0, Min(v - RESERVED, n - 1))
  }

  predicate InGroup(node: Node, g: nat, ipg: nat)
    requires ipg > 0 && node.nid > 0
  {
    GroupOf(node.nid, ipg) == g
  }

  /** Nodes numbered into group `g`. */
  function NodesIn(all: seq<Node>, g: nat, ipg: nat): nat
    requires ipg > 0 && forall i :: 0 <= i < |all| ==> all[i].nid > 0
  {
    if all == [] then 0
    else NodesIn(all[..|all| - 1], g, ipg) + if InGroup(all[|all| - 1], g, ipg) then 1 else 0
  }

  function DirsIn(all: seq<Node>, g: nat, ipg: nat): nat
    requires ipg > 0 && forall i :: 0 <= i < |all| ==> all[i].nid > 0
  {
    if all == [] then 0
    else DirsIn(all[..|all| - 1], g, ipg) + if all[|all| - 1].IsDir() && InGroup(all[|all| - 1], g, ipg) then 1 else 0
  }

  lemma {:induction false} GroupInterval(nid: nat, g: nat, ipg: nat)
    requires ipg > 0 && nid > 0
    ensures GroupOf(nid, ipg) == g <==> g * ipg < nid <= g * ipg + ipg
  {
    var q, r := (nid - 1) / ipg, (nid - 1) % ipg;
    assert nid - 1 == q * ipg + r;
    if g * ipg < nid <= g * ipg + ipg {
      DivUnique(nid - 1, g, nid - 1 - g * ipg, ipg);
    }
  }

  lemma {:induction false} NodesInInterval(all: seq<Node>, g: nat, ipg: nat)
    requires ipg > 0 && Numbered(all)
    ensures NodesIn(all, g, ipg) == TakenUpTo(|all|, g * ipg + ipg) - TakenUpTo(|all|, g * ipg)
    decreases |all|
  {
    var k := |all| - 1;
    GroupInterval(all[k].nid, g, ipg);
    if k > 0 {
      NodesInInterval(all[..k], g, ipg);
    } else {
      assert all[..k] == [];
    }
  }

  /** Inodes the builder counts as used in a group: its nodes, and the nine unnamed reserved ones in the first. */
  function UsedInodes(all: seq<Node>, g: nat, ipg: nat): nat
    requires ipg > 0 && Numbered(all)
  {
    NodesIn(all, g, ipg) + if g == 0 then RESERVED_UNNAMED else 0
  }

  function FreeInodesIn(all: seq<Node>, g: nat, ipg: nat): nat
    requires ipg > 0 && Numbered(all)
  {
    Max(ipg - UsedInodes(all, g, ipg), 0)
  }

  function FreeInodesBefore(all: seq<Node>, n: nat, ipg: nat): nat
    requires ipg > 0 && Numbered(all)
  {
    if n == 0 then 0 else FreeInodesBefore(all, n - 1, ipg) + FreeInodesIn(all, n - 1, ipg)
  }

  /** A later group never counts more inodes than it has. */
  lemma {:induction false} LaterGroupsFit(all: seq<Node>, g: nat, ipg: nat)
    requires ipg > 0 && Numbered(all)
    ensures g > 0 ==> UsedInodes(all, g, ipg) <= ipg
    ensures UsedInodes(all, 0, ipg) <= ipg <==> ipg >= RESERVED
  {
    NodesInInterval(all, g, ipg);
    NodesInInterval(all, 0, ipg);
    if g > 0 {
      MulMonotone(1, g, ipg);
    }
  }

  /** Free inodes of the groups up to `n`, but for what the first group overcounts. */
  lemma {:induction false} FreeInodesPrefix(all: seq<Node>, n: nat, ipg: nat)
    requires ipg > 0 && Numbered(all) && n > 0
    ensures FreeInodesBefore(all, n, ipg)
         == n * ipg - TakenUpTo(|all|, n * ipg) - RESERVED_UNNAMED + Max(UsedInodes(all, 0, ipg) - ipg, 0)
    decreases n
  {
    NodesInInterval(all, n - 1, ipg);
    MulDistributes(n - 1, 1, ipg);
    if n > 1 {
      FreeInodesPrefix(all, n - 1, ipg);
      LaterGroupsFit(all, n - 1, ipg);
    } else {
      assert 0 * ipg == 0;
    }
  }

  /** The group counters of free inodes add up to the superblock's exactly when the reserved inodes fit one group. */
  lemma {:induction false} FreeInodesAddUpIff(all: seq<Node>, groups: nat, ipg: nat)
    requires ipg > 0 && Numbered(all) && |all| + RESERVED_UNNAMED <= groups * ipg
    ensures FreeInodesBefore(all, groups, ipg) == groups * ipg - (|all| + RESERVED_UNNAMED) <==> ipg >= RESERVED
  {
    FreeInodesPrefix(all, groups, ipg);
    LaterGroupsFit(all, 0, ipg);
  }

  /** Inode number `v` belongs to a node. */
  predicate NidTaken(all: seq<Node>, v: nat) {
    v == ROOT || RESERVED < v <= |all| + RESERVED_UNNAMED
  }

  /** The inode bitmap of a group: its nodes, the reserved inodes in the first group, and everything past its end. */
  ghost predicate InodeBits(block: bytes, all: seq<Node>, g: nat, ipg: nat) {
    forall i: nat :: i < 8 * |block| ==>
      (BitAt(block, i) <==> i >= ipg || (g == 0 && i < RESERVED) || NidTaken(all, g * ipg + i + 1))
  }

  lemma {:induction false} ClearInodes(block: bytes, all: seq<Node>, g: nat, ipg: nat, n: nat)
    requires ipg > 0 && all != [] && n <= ipg <= 8 * |block| && InodeBits(block, all, g, ipg)
    ensures var taken := TakenUpTo(|all|, g * ipg + n) - TakenUpTo(|all|, g * ipg);
            ClearBits(block, n) == if g > 0 then n - taken else Max(0, n - RESERVED) - Max(0, Min(n - RESERVED, |all| - 1))
  {
    if n > 0 {
      ClearInodes(block, all, g, ipg, n - 1);
    }
  }

  /** The clear bits of a group's inode bitmap are the free inodes its descriptor counts. */
  lemma {:induction false} InodeCounterExact(block: bytes, all: seq<Node>, g: nat, ipg: nat)
    requires ipg > 0 && Numbered(all) && ipg <= 8 * |block| && InodeBits(block, all, g, ipg)
    ensures ClearBits(block, ipg) == FreeInodesIn(all, g, ipg)
  {
    ClearInodes(block, all, g, ipg, ipg);
    NodesInInterval(all, g, ipg);
    LaterGroupsFit(all, g, ipg);
    if g == 0 {
      assert g * ipg == 0;
    }
  }

  method CountGroupNodes(all: seq<Node>, g: nat, ipg: nat) returns (nodes: nat, dirs: nat)
    requires ipg > 0 && forall i :: 0 <= i < |all| ==> all[i].nid > 0
    ensures nodes == NodesIn(all, g, ipg) && dirs == DirsIn(all, g, ipg)
  {
    hide GroupOf;
    nodes, dirs := 0, 0;
    for i := 0 to |all|
      invariant nodes == NodesIn(all[..i], g, ipg) && dirs == DirsIn(all[..i], g, ipg)
    {
      assert all[..i + 1][..i] == all[..i];
      if InGroup(all[i], g, ipg) {
        nodes := nodes + 1;
      }
      if all[i].IsDir() && InGroup(all[i], g, ipg) {
        dirs := dirs + 1;
      }
    }
    assert all[..|all|] == all;
  }

  method WriteInodeBitmap(image: File, base: nat, blockSize: nat, all: seq<Node>, g: nat, ipg: nat)
    requires Numbered(all) && 0 < ipg <= 8 * blockSize && blockSize >= 2
    requires base + blockSize <= |image.content| && Region(image.content, base, blockSize) == Zeros(blockSize)
    modifies image
    ensures OnlyRegion(old(image.content), image.content, base, blockSize)
    ensures InodeBits(Region(image.content, base, blockSize), all, g, ipg)
  {
    hide Region, Marks, GroupOf, IndexOf, Numbered;
    ghost var marked: set<nat> := {};
    NothingSet(blockSize);
    if g == 0 {
      for index := 0 to RESERVED
        invariant OnlyRegion(old(image.content), image.content, base, blockSize)
        invariant Marks(Region(image.content, base, blockSize), marked)
        invariant forall i: nat :: i in marked <==> i < index
      {
        OrBit(image, base, blockSize, index, marked);
        marked := marked + {index};
      }
    }
    for k := 0 to |all|
      invariant OnlyRegion(old(image.content), image.content, base, blockSize)
      invariant Marks(Region(image.content, base, blockSize), marked)
      invariant forall i: nat :: i in marked <==> (g == 0 && i < RESERVED) || HasIndex(all, k, g, ipg, i)
    {
      NidAt(all, k);
      HasIndexMore(all, k, g, ipg);
      if GroupOf(all[k].nid, ipg) == g {
        IndexBelow(all[k].nid, ipg);
        OrBit(image, base, blockSize, IndexOf(all[k].nid, ipg), marked);
        marked := marked + {IndexOf(all[k].nid, ipg)};
      }
    }
    for index := ipg to 8 * blockSize
      invariant OnlyRegion(old(image.content), image.content, base, blockSize)
      invariant Marks(Region(image.content, base, blockSize), marked)
      invariant forall i: nat :: i in marked <==> ipg <= i < index || (g == 0 && i < RESERVED) || HasIndex(all, |all|, g, ipg, i)
    {
      OrBit(image, base, blockSize, index, marked);
      marked := marked + {index};
    }
    InodeMarksAreBits(Region(image.content, base, blockSize), marked, all, g, ipg);
  }

  /** One of the first `n` nodes sits at place `i` of group `g`. */
  predicate HasIndex(all: seq<Node>, n: nat, g: nat, ipg: nat, i: nat)
    requires n <= |all| && ipg > 0
  {
    exists k :: 0 <= k < n && all[k].nid > 0 && GroupOf(all[k].nid, ipg) == g && IndexOf(all[k].nid, ipg) == i
  }

  lemma {:induction false} NidAt(all: seq<Node>, k: nat)
    requires Numbered(all) && k < |all|
    ensures all[k].nid > 0
  {
  }

  lemma {:induction false} IndexBelow(nid: nat, ipg: nat)
    requires nid > 0 && ipg > 0
    ensures IndexOf(nid, ipg) < ipg
  {
  }

  lemma {:induction false} HasIndexMore(all: seq<Node>, n: nat, g: nat, ipg: nat)
    requires n < |all| && ipg > 0 && all[n].nid > 0
    ensures forall i: nat :: HasIndex(all, n + 1, g, ipg, i)
                        <==> HasIndex(all, n, g, ipg, i) || (GroupOf(all[n].nid, ipg) == g && IndexOf(all[n].nid, ipg) == i)
  {
    hide GroupOf, IndexOf;
  }

  lemma {:induction false} HasIndexIff(all: seq<Node>, g: nat, ipg: nat, i: nat)
    requires ipg > 0 && Numbered(all)
    ensures HasIndex(all, |all|, g, ipg, i) <==> i < ipg && NidTaken(all, g * ipg + i + 1)
  {
    assert all != [];
    hide GroupOf, IndexOf, Numbered;
    var v := g * ipg + i + 1;
    if i < ipg && NidTaken(all, v) {
      var k := if v == ROOT then 0 else v - RESERVED;
      NidIs(all, k);
      PlaceOf(all[k].nid, g, ipg, i);
    }
    if HasIndex(all, |all|, g, ipg, i) {
      var k :| 0 <= k < |all| && all[k].nid > 0 && GroupOf(all[k].nid, ipg) == g && IndexOf(all[k].nid, ipg) == i;
      NidIs(all, k);
      PlaceOf(all[k].nid, g, ipg, i);
    }
  }

  lemma {:induction false} NidIs(all: seq<Node>, k: nat)
    requires Numbered(all) && k < |all|
    ensures all[k].nid == if k == 0 then ROOT else RESERVED + k
  {
  }

  lemma {:induction false} PlaceOf(nid: nat, g: nat, ipg: nat, i: nat)
    requires nid > 0 && ipg > 0
    ensures GroupOf(nid, ipg) == g && IndexOf(nid, ipg) == i <==> i < ipg && nid == g * ipg + i + 1
  {
    assert nid - 1 == (nid - 1) / ipg * ipg + (nid - 1) % ipg;
    if i < ipg && nid == g * ipg + i + 1 {
      DivUnique(nid - 1, g, i, ipg);
    }
  }

  lemma {:induction false} InodeMarksAreBits(block: bytes, marked: set<nat>, all: seq<Node>, g: nat, ipg: nat)
    requires ipg > 0 && Numbered(all) && Marks(block, marked)
    requires forall i: nat :: i in marked <==>
               ipg <= i < 8 * |block| || (g == 0 && i < RESERVED) || HasIndex(all, |all|, g, ipg, i)
    ensures InodeBits(block, all, g, ipg)
  {
    hide BitAt, NidTaken, HasIndex, Numbered;
    forall i: nat | i < 8 * |block|
      ensures BitAt(block, i) <==> i >= ipg || (g == 0 && i < RESERVED) || NidTaken(all, g * ipg + i + 1)
    {
      HasIndexIff(all, g, ipg, i);
    }
  }

  /** With 8 inodes a group the reserved ones spill over: two groups count one free inode more than there is. */
  lemma {:induction false} SmallGroupsMiscount(root: Node)
    requires root.nid == ROOT
    ensures Numbered([root]) && |[root]| + RESERVED_UNNAMED <= 2 * 8
    ensures FreeInodesBefore([root], 2, 8) != 2 * 8 - (|[root]| + RESERVED_UNNAMED)
  {
    FreeInodesAddUpIff([root], 2, 8);
  }
}
