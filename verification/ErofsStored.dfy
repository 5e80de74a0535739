/**
 What a finished compressed EROFS image says in plain numbers: superblock, inode slots, map headers, xattr table and
 directory listings, at the offsets of the format and against the tree; and how the tree is numbered.
 */
module ErofsStored {
  import opened Core
  import opened Arith
  import opened OutFile
  import opened Bitmaps
  import opened CompactFormat
  import opened ErofsLayout
  import opened ErofsPieces
  import opened ErofsImage
  import opened ErofsReadBack
  import W = CompactWriter
  import P = CompactStored
  import D = ErofsDir

  // ---- Slots and numbers -----------------------------------------------------------------------------------

  /** Bytes of a node's inode, xattr area, map header and index of four bytes a cluster, two clusters to a pack. */
  function Footprint(n: Item): nat {
    32 + (if n.context then 16 else 0) + (if n.clusters == 0 then 0 else 8 + (n.clusters + 1) / 2 * 8)
  }

  /** A node takes the fewest slots of 32 bytes that hold it. */
  lemma {:induction false} SlotsExact(n: Item)
    ensures 32 * (Slots(n) - 1) < Footprint(n) <= 32 * Slots(n)
  {
    if n.clusters > 0 {
      DivCeilMeaning(Footprint(n), 32);
      assert AlignUp8(SLOT + AreaLength(n)) == SLOT + AreaLength(n);
    }
  }

  /** `slots` slots from byte `at` on meet the superblock. */
  predicate Meets(at: nat, slots: nat) {
    at < 1152 && 1024 < at + 32 * slots
  }

  /** Skipping stops at the first slot where the footprint does not meet the superblock. */
  lemma {:induction false} SkipIsLeast(next: nat, meta: nat, blockSize: nat, slots: nat)
    requires slots > 0 && ByteOf(meta, blockSize) + 32 * (FirstClear(next, meta, blockSize, slots) + slots) < 0x1_0000_0000_0000_0000
    ensures var r, base := FirstClear(next, meta, blockSize, slots), ByteOf(meta, blockSize);
            && next <= r && !Meets(base + 32 * r, slots)
            && forall k :: next <= k < r ==> Meets(base + 32 * k, slots)
  {
    hide FirstClear;
    var r, base := FirstClear(next, meta, blockSize, slots), ByteOf(meta, blockSize);
    MayStartIff(r, meta, blockSize, slots);
    forall k | next <= k < r
      ensures Meets(base + 32 * k, slots)
    {
      MayStartIff(k, meta, blockSize, slots);
    }
  }

  lemma {:induction false} MayStartIff(k: nat, meta: nat, blockSize: nat, slots: nat)
    requires slots > 0 && ByteOf(meta, blockSize) + 32 * (k + slots) < 0x1_0000_0000_0000_0000
    ensures MayStart(k, meta, blockSize, slots) <==> !Meets(ByteOf(meta, blockSize) + 32 * k, slots)
  {
  }

  /** Each node of a list takes the first clear slot behind the one in front of it. */
  ghost predicate Chained(l: seq<Item>, from: nat, until: nat, meta: nat, blockSize: nat)
    decreases |l|
  {
    if l == [] then until == from
    else
      var k := |l| - 1;
      && l[k].nid + Slots(l[k]) == until
      && exists behind: nat :: Chained(l[..k], from, behind, meta, blockSize) && l[k].nid == FirstClear(behind, meta, blockSize, Slots(l[k]))
  }

  lemma {:induction false} ChainJoin(a: seq<Item>, b: seq<Item>, from: nat, middle: nat, until: nat, meta: nat, blockSize: nat)
    requires Chained(a, from, middle, meta, blockSize) && Chained(b, middle, until, meta, blockSize)
    ensures Chained(a + b, from, until, meta, blockSize)
    decreases |b|
  {
    hide FirstClear, Slots;
    if b == [] {
      assert a + b == a;
    } else {
      var k := |b| - 1;
      var behind: nat :| Chained(b[..k], middle, behind, meta, blockSize) && b[k].nid == FirstClear(behind, meta, blockSize, Slots(b[k]));
      ChainJoin(a, b[..k], from, middle, behind, meta, blockSize);
      assert (a + b)[..|a + b| - 1] == a + b[..k];
    }
  }

  lemma {:induction false} ChainOne(n: Item, from: nat, meta: nat, blockSize: nat)
    requires n.nid == FirstClear(from, meta, blockSize, Slots(n))
    ensures Chained([n], from, n.nid + Slots(n), meta, blockSize)
  {
    hide FirstClear, Slots;
    assert [n][..0] == [] && Chained([], from, from, meta, blockSize);
  }

  lemma {:induction false} NumberedChain(n: Item, next: nat, parent: nat, meta: nat, blockSize: nat)
    ensures var r := Assigned(n, next, parent, meta, blockSize); Chained(Preorder(r.0), next, r.1, meta, blockSize)
    decreases n
  {
    hide FirstClear, Slots, Chained;
    var nid := FirstClear(next, meta, blockSize, Slots(n));
    var r := Assigned(n, next, parent, meta, blockSize);
    SlotsSame(n, r.0);
    NumberedChains(n.children, nid + Slots(n), nid, meta, blockSize);
    ChainOne(r.0, next, meta, blockSize);
    ChainJoin([r.0], PreorderAll(r.0.children), next, nid + Slots(n), r.1, meta, blockSize);
  }

  lemma {:induction false} NumberedChains(nodes: seq<Item>, next: nat, parent: nat, meta: nat, blockSize: nat)
    ensures var r := AssignedAll(nodes, next, parent, meta, blockSize); Chained(PreorderAll(r.0), next, r.1, meta, blockSize)
    decreases nodes
  {
    hide Assigned, Preorder, FirstClear, Slots;
    if nodes != [] {
      var first := Assigned(nodes[0], next, parent, meta, blockSize);
      var rest := AssignedAll(nodes[1..], first.1, parent, meta, blockSize);
      NumberedChain(nodes[0], next, parent, meta, blockSize);
      NumberedChains(nodes[1..], first.1, parent, meta, blockSize);
      assert ([first.0] + rest.0)[1..] == rest.0;
      ChainJoin(Preorder(first.0), PreorderAll(rest.0), next, first.1, rest.1, meta, blockSize);
    }
  }

  /** One node of a chain, seen from the one in front of it. */
  lemma {:induction false} ChainAt(l: seq<Item>, from: nat, until: nat, meta: nat, blockSize: nat, i: nat)
    requires Chained(l, from, until, meta, blockSize) && i < |l|
    ensures l[i].nid == FirstClear(if i == 0 then from else l[i - 1].nid + Slots(l[i - 1]), meta, blockSize, Slots(l[i]))
    ensures l[i].nid + Slots(l[i]) <= until && (i == |l| - 1 ==> l[i].nid + Slots(l[i]) == until)
    decreases |l|
  {
    hide FirstClear, Slots;
    var k := |l| - 1;
    var behind: nat :| Chained(l[..k], from, behind, meta, blockSize) && l[k].nid == FirstClear(behind, meta, blockSize, Slots(l[k]));
    if i < k {
      ChainAt(l[..k], from, behind, meta, blockSize, i);
    } else if i > 0 {
      ChainAt(l[..k], from, behind, meta, blockSize, i - 1);
    }
  }

  /**
   A numbered tree in preorder: the root takes the first slot from 1 on, and every other node the first one behind its
   predecessor's slots, at which it does not meet the superblock.
   */
  lemma {:induction false} NumbersAreNext(root: Item, meta: nat, blockSize: nat, xattr: bytes, algo: W.Algo, algorithm: byte, i: nat)
    requires blockSize > 0
    requires var p := PlanOf(root, meta, blockSize, xattr, algo, algorithm);
             i < |p.list| && ByteOf(meta, blockSize) + p.next * 32 < 0x1_0000_0000_0000_0000
    ensures var p := PlanOf(root, meta, blockSize, xattr, algo, algorithm);
            var from := if i == 0 then 1 else p.list[i - 1].nid + Slots(p.list[i - 1]);
            var nid, slots, base := p.list[i].nid, Slots(p.list[i]), ByteOf(meta, blockSize);
            && from <= nid && !Meets(base + 32 * nid, slots)
            && (forall k :: from <= k < nid ==> Meets(base + 32 * k, slots))
            && (i == |p.list| - 1 ==> p.next == nid + slots)
  {
    hide *;
    var p := PlanOf(root, meta, blockSize, xattr, algo, algorithm);
    var tree := Assigned(Marked(root, blockSize), 1, 1, meta, blockSize);
    PlanIs(root, meta, blockSize, xattr, algo, algorithm, tree.0, tree.1);
    NumberedChain(Marked(root, blockSize), 1, 1, meta, blockSize);
    ChainAt(p.list, 1, p.next, meta, blockSize, i);
    SkipIsLeast(if i == 0 then 1 else p.list[i - 1].nid + Slots(p.list[i - 1]), meta, blockSize, Slots(p.list[i]));
  }

  // ---- The tree --------------------------------------------------------------------------------------------

  /** The tree without its numbers and marks. */
  function Bare(n: Item): Item
    decreases n
  {
    n.(nid := 0, parent := 0, clusters := 0, children := AllBare(n.children))
  }

  function AllBare(nodes: seq<Item>): seq<Item>
    decreases nodes
  {
    if nodes == [] then [] else [Bare(nodes[0])] + AllBare(nodes[1..])
  }

  lemma {:induction false} NumberedKeepsTree(n: Item, next: nat, parent: nat, meta: nat, blockSize: nat)
    requires blockSize > 0
    ensures Bare(Assigned(Marked(n, blockSize), next, parent, meta, blockSize).0) == Bare(n)
    decreases n
  {
    hide FirstClear, Slots, DivCeil;
    var own := Marked(n, blockSize);
    var nid := FirstClear(next, meta, blockSize, Slots(own));
    NumberedKeepsTrees(n.children, nid + Slots(own), nid, meta, blockSize);
  }

  lemma {:induction false} NumberedKeepsTrees(nodes: seq<Item>, next: nat, parent: nat, meta: nat, blockSize: nat)
    requires blockSize > 0
    ensures AllBare(AssignedAll(AllMarked(nodes, blockSize), next, parent, meta, blockSize).0) == AllBare(nodes)
    decreases nodes
  {
    hide Assigned, Marked, Bare;
    if nodes != [] {
      var all := AllMarked(nodes, blockSize);
      var first := Assigned(all[0], next, parent, meta, blockSize);
      assert all[1..] == AllMarked(nodes[1..], blockSize);
      NumberedKeepsTree(nodes[0], next, parent, meta, blockSize);
      NumberedKeepsTrees(nodes[1..], first.1, parent, meta, blockSize);
      var rest := AssignedAll(all[1..], first.1, parent, meta, blockSize);
      assert ([first.0] + rest.0)[1..] == rest.0;
    }
  }

  /** Node `j` of the list has node `i` as a child. */
  predicate ChildOf(all: seq<Item>, i: nat, j: nat)
    requires i < |all|
  {
    j < |all| && exists k :: 0 <= k < |all[j].children| && all[j].children[k] == all[i]
  }

  lemma {:induction false} ChildThere(all: seq<Item>, i: nat, j: nat, k: nat)
    requires i < |all| && j < |all| && k < |all[j].children| && all[j].children[k] == all[i]
    ensures ChildOf(all, i, j)
  {
  }

  predicate AllBelow(nodes: seq<Item>, parent: nat) {
    forall k :: 0 <= k < |nodes| ==> nodes[k].parent == parent
  }

  /** The children of every node of the list have its number as their parent's. */
  predicate ParentsRight(l: seq<Item>) {
    forall m :: m in l ==> AllBelow(m.children, m.nid)
  }

  lemma {:induction false} NumberedParents(n: Item, next: nat, parent: nat, meta: nat, blockSize: nat)
    ensures var r := Assigned(n, next, parent, meta, blockSize).0; r.parent == parent && ParentsRight(Preorder(r))
    decreases n
  {
    hide FirstClear, Slots, AllBelow;
    var nid := FirstClear(next, meta, blockSize, Slots(n));
    NumberedParentsAll(n.children, nid + Slots(n), nid, meta, blockSize);
  }

  lemma {:induction false} NumberedParentsAll(nodes: seq<Item>, next: nat, parent: nat, meta: nat, blockSize: nat)
    ensures var r := AssignedAll(nodes, next, parent, meta, blockSize).0; AllBelow(r, parent) && ParentsRight(PreorderAll(r))
    decreases nodes
  {
    hide Assigned, Preorder, AllBelow;
    if nodes == [] {
      NoneBelow(parent);
    } else {
      var first := Assigned(nodes[0], next, parent, meta, blockSize);
      var rest := AssignedAll(nodes[1..], first.1, parent, meta, blockSize);
      NumberedParents(nodes[0], next, parent, meta, blockSize);
      NumberedParentsAll(nodes[1..], first.1, parent, meta, blockSize);
      assert ([first.0] + rest.0)[1..] == rest.0;
      OneMoreBelow(first.0, rest.0, parent);
    }
  }

  lemma {:induction false} NoneBelow(parent: nat)
    ensures AllBelow([], parent)
  {
  }

  lemma {:induction false} OneMoreBelow(first: Item, rest: seq<Item>, parent: nat)
    requires first.parent == parent && AllBelow(rest, parent)
    ensures AllBelow([first] + rest, parent)
  {
  }

  lemma {:induction false} ChildBelow(l: seq<Item>, m: Item, k: nat)
    requires ParentsRight(l) && m in l && k < |m.children|
    ensures m.children[k].parent == m.nid
  {
    assert AllBelow(m.children, m.nid);
  }

  /** Every node of a list in preorder but the first is a child of a node of the list. */
  lemma {:induction false} SomeParent(n: Item, m: Item) returns (above: Item, k: nat)
    requires m in Preorder(n) && m != n
    ensures above in Preorder(n) && k < |above.children| && above.children[k] == m
    decreases n
  {
    var j, deeper := ChildHolding(n.children, m);
    if deeper {
      above, k := SomeParent(n.children[j], m);
      ListedChild(n.children, j, above);
    } else {
      above, k := n, j;
    }
  }

  lemma {:induction false} ChildHolding(nodes: seq<Item>, m: Item) returns (j: nat, deeper: bool)
    requires m in PreorderAll(nodes)
    ensures j < |nodes| && m in Preorder(nodes[j]) && (deeper <==> m != nodes[j])
    decreases nodes
  {
    hide Preorder;
    if m in Preorder(nodes[0]) {
      j, deeper := 0, m != nodes[0];
    } else {
      j, deeper := ChildHolding(nodes[1..], m);
      j := j + 1;
    }
  }

  lemma {:induction false} ListedChild(nodes: seq<Item>, j: nat, m: Item)
    requires j < |nodes| && m in Preorder(nodes[j])
    ensures m in PreorderAll(nodes)
    decreases nodes
  {
    hide Preorder;
    if j > 0 {
      ListedChild(nodes[1..], j - 1, m);
    }
  }

  /** Every child of a node of the list is in the list. */
  lemma {:induction false} ChildrenListed(n: Item, m: Item, k: nat)
    requires m in Preorder(n) && k < |m.children|
    ensures m.children[k] in Preorder(n)
    decreases n
  {
    if m == n {
      SelfInPreorder(n.children[k]);
      ListedChild(n.children, k, n.children[k]);
    } else {
      var j, deeper := ChildHolding(n.children, m);
      ChildrenListed(n.children[j], m, k);
      ListedChild(n.children, j, m.children[k]);
    }
  }

  /**
   The nodes of a plan are those of the tree: the first is the tree itself but for numbers and marks, every child of a
   node is one of them, and every other node is the child of one. The parent number of a node is that of the node that
   has it as a child, and that of the root is 1.
   */
  lemma {:induction false} PlanIsTree(root: Item, meta: nat, blockSize: nat, xattr: bytes, algo: W.Algo, algorithm: byte, i: nat)
    requires blockSize > 0 && i < |PlanOf(root, meta, blockSize, xattr, algo, algorithm).list|
    ensures var all := PlanOf(root, meta, blockSize, xattr, algo, algorithm).list;
            && all != [] && Bare(all[0]) == Bare(root) && all[0].parent == 1
            && (forall k :: 0 <= k < |all[i].children| ==> all[i].children[k] in all)
            && (i > 0 ==> exists j :: ChildOf(all, i, j))
            && (forall j :: 0 <= j < |all| && ChildOf(all, i, j) ==> all[i].parent == all[j].nid)
  {
    hide *;
    var tree := Assigned(Marked(root, blockSize), 1, 1, meta, blockSize);
    PlanIs(root, meta, blockSize, xattr, algo, algorithm, tree.0, tree.1);
    var all := Preorder(tree.0);
    NumberedKeepsTree(root, 1, 1, meta, blockSize);
    NumberedParents(Marked(root, blockSize), 1, 1, meta, blockSize);
    forall k | 0 <= k < |all[i].children|
      ensures all[i].children[k] in all
    {
      ChildrenListed(tree.0, all[i], k);
    }
    if i > 0 {
      NumberedChain(Marked(root, blockSize), 1, 1, meta, blockSize);
      ChainRises(all, 1, tree.1, meta, blockSize, 0, i);
      var above, k := SomeParent(tree.0, all[i]);
      var j :| 0 <= j < |all| && all[j] == above;
      ChildThere(all, i, j, k);
    }
    forall j | 0 <= j < |all| && ChildOf(all, i, j)
      ensures all[i].parent == all[j].nid
    {
      var k := ChildPlace(all, i, j);
      ChildBelow(all, all[j], k);
    }
  }

  lemma {:induction false} ChildPlace(all: seq<Item>, i: nat, j: nat) returns (k: nat)
    requires i < |all| && j < |all| && ChildOf(all, i, j)
    ensures k < |all[j].children| && all[j].children[k] == all[i]
  {
    k :| 0 <= k < |all[j].children| && all[j].children[k] == all[i];
  }

  lemma {:induction false} ChainRises(l: seq<Item>, from: nat, until: nat, meta: nat, blockSize: nat, i: nat, j: nat)
    requires Chained(l, from, until, meta, blockSize) && i < j < |l|
    ensures l[i].nid < l[j].nid
    decreases j
  {
    hide Chained, FirstClear, Slots;
    ChainAt(l, from, until, meta, blockSize, j);
    if i < j - 1 {
      ChainRises(l, from, until, meta, blockSize, i, j - 1);
    }
  }

  // ---- The superblock --------------------------------------------------------------------------------------

  predicate ZerosAt(image: bytes, at: nat, n: nat) {
    at + n <= |image| && forall i :: at <= i < at + n ==> image[i] == 0
  }

  lemma {:induction false} ZerosThere(image: bytes, at: nat, whole: bytes, inner: nat, n: nat)
    requires HasAt(image, at, whole) && inner + n <= |whole| && forall i :: inner <= i < inner + n ==> whole[i] == 0
    ensures ZerosAt(image, at + inner, n)
  {
    forall i | at + inner <= i < at + inner + n
      ensures image[i] == 0
    {
      assert image[i] == image[at..at + |whole|][i - at];
    }
  }

  /** The fields behind the 48th byte, and the whole. */
  lemma {:induction false} SuperParts(bits: nat, root: nat, nodes: nat, labels: Labels, blocks: nat, meta: nat, xattr: nat)
    requires |labels.volume| == 16
    ensures var all := SuperBytes(bits, root, nodes, labels, blocks, meta, xattr);
            && HasAt(all, 0, SuperHead(bits, root, nodes, labels, blocks, meta, xattr))
            && HasAt(all, 64, labels.volume) && HasAt(all, 100, Le32(labels.roCompat % U32_LIMIT))
            && (forall i :: 48 <= i < 64 ==> all[i] == 0) && (forall i :: 80 <= i < 100 ==> all[i] == 0)
            && forall i :: 104 <= i < 128 ==> all[i] == 0
  {
    hide SuperHead, Le32;
  }

  lemma {:induction false} HeadParts(bits: nat, root: nat, nodes: nat, labels: Labels, blocks: nat, meta: nat, xattr: nat)
    ensures var head := SuperHead(bits, root, nodes, labels, blocks, meta, xattr);
            && HasAt(head, 8, Le32(labels.compat % U32_LIMIT)) && HasAt(head, 24, Le64(labels.time % U64_LIMIT))
            && head[13] == 0 && (forall i :: 4 <= i < 8 ==> head[i] == 0) && forall i :: 32 <= i < 36 ==> head[i] == 0
  {
    hide Le16, Le32, Le64;
  }

  /** A finished image that reaches behind byte 1024: every byte of its superblock. */
  lemma {:induction false} SuperblockSays(image: bytes, p: Plan, bits: nat, labels: Labels)
    requires 9 <= bits <= 16 && |labels.volume| == 16 && Laid(p) && Built(image, p, bits, labels) && |image| > 1024
    ensures |image| >= 1152 && |image| == EndBlock(p) * p.blockSize
    ensures Get32(image, 1024) == 0xE0F5_E1E2 && ZerosAt(image, 1028, 4) && Get32(image, 1032) == labels.compat % 0x1_0000_0000
    ensures image[1036] as nat == bits && image[1037] == 0 && Get16(image, 1038) == p.list[0].nid % 0x1_0000
    ensures Get64(image, 1040) == |p.list| % 0x1_0000_0000_0000_0000 && Get64(image, 1048) == labels.time % 0x1_0000_0000_0000_0000
    ensures ZerosAt(image, 1056, 4) && Get32(image, 1060) == EndBlock(p) % 0x1_0000_0000
    ensures Get32(image, 1064) == p.meta % 0x1_0000_0000
    ensures Get32(image, 1068) == if p.xattr == [] then 0 else StartBlock(p) % 0x1_0000_0000
    ensures ZerosAt(image, 1072, 16) && image[1088..1104] == labels.volume && ZerosAt(image, 1104, 20)
    ensures Get32(image, 1124) == labels.roCompat % 0x1_0000_0000 && ZerosAt(image, 1128, 24)
  {
    hide *;
    LaidBlocks(p);
    LaidNodes(p);
    BuiltMeans(image, p, bits, labels);
    BlocksOf512(EndBlock(p), p.blockSize);
    EndBytes(p);
    SuperOfIs(p, bits, labels);
    AllBytes(image, bits, p.list[0].nid, |p.list|, labels, EndBlock(p), p.meta, if p.xattr == [] then 0 else StartBlock(p));
  }

  lemma {:induction false} EndBytes(p: Plan)
    requires p.blockSize > 0
    ensures ByteOf(EndBlock(p), p.blockSize) == EndBlock(p) * p.blockSize && SUPER_FROM == 1024 && SUPER_UNTIL == 1152
  {
    hide EndBlock;
  }

  lemma {:induction false} SuperOfIs(p: Plan, bits: nat, labels: Labels)
    requires p.blockSize > 0 && p.list != [] && |labels.volume| == 16
    ensures SuperOf(p, bits, labels)
         == SuperBytes(bits, p.list[0].nid, |p.list|, labels, EndBlock(p), p.meta, if p.xattr == [] then 0 else StartBlock(p))
  {
    hide SuperBytes, EndBlock, StartBlock;
  }

  lemma {:induction false} AllBytes(
    image: bytes, bits: nat, root: nat, nodes: nat, labels: Labels, blocks: nat, meta: nat, xattr: nat)
    requires bits < 0x100 && |labels.volume| == 16 && HasAt(image, 1024, SuperBytes(bits, root, nodes, labels, blocks, meta, xattr))
    ensures |image| >= 1152
    ensures Get32(image, 1024) == 0xE0F5_E1E2 && ZerosAt(image, 1028, 4) && Get32(image, 1032) == labels.compat % 0x1_0000_0000
    ensures image[1036] as nat == bits && image[1037] == 0 && Get16(image, 1038) == root % 0x1_0000
    ensures Get64(image, 1040) == nodes % 0x1_0000_0000_0000_0000 && Get64(image, 1048) == labels.time % 0x1_0000_0000_0000_0000
    ensures ZerosAt(image, 1056, 4) && Get32(image, 1060) == blocks % 0x1_0000_0000
    ensures Get32(image, 1064) == meta % 0x1_0000_0000 && Get32(image, 1068) == xattr % 0x1_0000_0000
    ensures ZerosAt(image, 1072, 16) && image[1088..1104] == labels.volume && ZerosAt(image, 1104, 20)
    ensures Get32(image, 1124) == labels.roCompat % 0x1_0000_0000 && ZerosAt(image, 1128, 24)
  {
    hide SuperBytes, SuperHead, Le16, Le32, Le64, Get16, Get32, Get64, ZerosAt, HasAt;
    var all, head := SuperBytes(bits, root, nodes, labels, blocks, meta, xattr), SuperHead(bits, root, nodes, labels, blocks, meta, xattr);
    SuperParts(bits, root, nodes, labels, blocks, meta, xattr);
    HeadFields(bits, root, nodes, labels, blocks, meta, xattr);
    HeadParts(bits, root, nodes, labels, blocks, meta, xattr);
    HasAtPart(image, 1024, all, 0, head);
    HasAtPart(image, 1024, all, 64, labels.volume);
    HasAtPart(image, 1024, all, 100, Le32(labels.roCompat % U32_LIMIT));
    VolumeThere(image, 1088, labels.volume);
    ZerosThere(image, 1024, all, 48, 16);
    ZerosThere(image, 1024, all, 80, 20);
    ZerosThere(image, 1024, all, 104, 24);
    ZerosThere(image, 1024, head, 4, 4);
    ZerosThere(image, 1024, head, 32, 4);
    ByteThere(image, 1024, head, 12);
    ByteThere(image, 1024, head, 13);
    HasAtPart(image, 1024, head, 0, Le32(MAGIC));
    HasAtPart(image, 1024, head, 8, Le32(labels.compat % U32_LIMIT));
    HasAtPart(image, 1024, head, 14, Le16(root % U16_LIMIT));
    HasAtPart(image, 1024, head, 16, Le64(nodes % U64_LIMIT));
    HasAtPart(image, 1024, head, 24, Le64(labels.time % U64_LIMIT));
    HasAtPart(image, 1024, head, 36, Le32(blocks % U32_LIMIT));
    HasAtPart(image, 1024, head, 40, Le32(meta % U32_LIMIT));
    HasAtPart(image, 1024, head, 44, Le32(xattr % U32_LIMIT));
    Read32(image, 1024, MAGIC);
    Read32(image, 1032, labels.compat % U32_LIMIT);
    Read16(image, 1038, root % U16_LIMIT);
    Read64(image, 1040, nodes % U64_LIMIT);
    Read64(image, 1048, labels.time % U64_LIMIT);
    Read32(image, 1060, blocks % U32_LIMIT);
    Read32(image, 1064, meta % U32_LIMIT);
    Read32(image, 1068, xattr % U32_LIMIT);
    Read32(image, 1124, labels.roCompat % U32_LIMIT);
  }

  lemma {:induction false} VolumeThere(image: bytes, at: nat, volume: bytes)
    requires HasAt(image, at, volume)
    ensures at + |volume| <= |image| && image[at..at + |volume|] == volume
  {
  }

  lemma {:induction false} ByteThere(image: bytes, at: nat, whole: bytes, k: nat)
    requires HasAt(image, at, whole) && k < |whole|
    ensures at + k < |image| && image[at + k] == whole[k]
  {
    assert image[at + k] == image[at..at + |whole|][k];
  }

  // ---- Inode slots -----------------------------------------------------------------------------------------

  /** `data` lies at the start of a block. */
  predicate InBlocks(image: bytes, block: nat, blockSize: nat, data: bytes) {
    block * blockSize + |data| <= |image| && image[block * blockSize..block * blockSize + |data|] == data
  }

  /** Where the inode of a node stands. */
  function InodePlace(p: Plan, i: nat): nat
    requires i < |p.list|
  {
    p.meta * p.blockSize + 32 * p.list[i].nid
  }

  lemma {:induction false} InodeParts(n: Item, size: nat, raw: nat)
    ensures var all := InodeBytes(n, size, raw);
            && HasAt(all, 6, Le16(1)) && HasAt(all, 20, Le32(n.nid % U32_LIMIT)) && HasAt(all, 32, n.info.area)
            && (forall i :: 12 <= i < 16 ==> all[i] == 0) && forall i :: 28 <= i < 32 ==> all[i] == 0
  {
    hide Le16, Le32;
    var head, tail, all := InodeHead(n, size), InodeTail(n, raw), InodeBytes(n, size, raw);
    assert head[6..8] == Le16(1) && all[6..8] == head[6..8];
    assert tail[4..8] == Le32(n.nid % U32_LIMIT) && all[20..24] == tail[4..8];
  }

  /**
   The slot of every node: format 6 for a file with bytes and 0 for everything else, two words of xattr area with a
   context, mode, one link, size, no data block for a file and the directory's block for a directory, its own number and
   its owner.
   */
  lemma {:induction false} SlotSaysAll(image: bytes, p: Plan, i: nat)
    requires p.blockSize > 0 && Whole(image, p) && i < |p.list|
    ensures InodePlace(p, i) + 64 <= |image|
    ensures var n, at := p.list[i], InodePlace(p, i);
            && Get16(image, at) == (if n.info.mode / 0x1000 % 16 != 4 && n.info.content != [] then 6 else 0)
            && Get16(image, at + 2) == (if n.context then 2 else 0) && Get16(image, at + 4) == n.info.mode
            && Get16(image, at + 6) == 1 && ZerosAt(image, at + 12, 4) && Get32(image, at + 20) == n.nid % 0x1_0000_0000
            && Get16(image, at + 24) == n.info.uid % 0x1_0000 && Get16(image, at + 26) == n.info.gid % 0x1_0000
            && ZerosAt(image, at + 28, 4) && (n.context ==> |n.info.area| == 16 && image[at + 32..at + 48] == n.info.area)
            && (n.info.mode / 0x1000 % 16 != 4 ==> Get32(image, at + 8) == |n.info.content| && Get32(image, at + 16) == 0)
            && (n.info.mode / 0x1000 % 16 == 4 ==>
                  && Get32(image, at + 8) == |DirData(n, p.blockSize)| > 0
                  && InBlocks(image, Get32(image, at + 16), p.blockSize, DirData(n, p.blockSize)))
  {
    hide *;
    WholeMeans(image, p);
    RoomBehindSlot(image, p, i);
    NodeShape(p, i);
    NumbersFit(p, i);
    PartThere(image, p, Part.Inode(i));
    InodeIs(p, i);
    InodePieceIs(p, i);
    PlaceIs(p, i);
    NodeKinds(p, i);
    var n, at := p.list[i], InodePlace(p, i);
    var raw := if IsDir(n) then DirBlock(p, i) else 0;
    InodeThere(image, at, n, SizeOf(n, p.blockSize), raw);
    SlotBytes(image, at, n, SizeOf(n, p.blockSize), raw);
    if IsDir(n) {
      PartThere(image, p, Directory(i));
      DirIs(p, i);
      DirThere(image, DirBlock(p, i), p.blockSize, DirData(n, p.blockSize));
    }
  }

  lemma {:induction false} PlaceIs(p: Plan, i: nat)
    requires p.blockSize > 0 && i < |p.list|
    ensures SlotAt(p, p.list[i]) == InodePlace(p, i)
  {
  }

  lemma {:induction false} NodeKinds(p: Plan, i: nat)
    requires Laid(p) && i < |p.list|
    ensures var n := p.list[i];
            && (IsDir(n) <==> n.info.mode / 0x1000 % 16 == 4) && (n.clusters > 0 <==> !IsDir(n) && n.info.content != [])
            && SizeOf(n, p.blockSize) == (if IsDir(n) then |DirData(n, p.blockSize)| else |n.info.content|)
            && (n.context ==> |n.info.area| == 16)
  {
    NodeShape(p, i);
    hide Laid, DirData, DivCeil;
    LaidBlocks(p);
    DivCeilAtMost(|p.list[i].info.content|, 0, p.blockSize);
  }

  lemma {:induction false} DirThere(image: bytes, block: nat, blockSize: nat, data: bytes)
    requires Carries(image, ByteOf(block, blockSize), data) && data != []
    ensures InBlocks(image, block, blockSize, data)
  {
  }

  lemma {:induction false} SlotBytes(image: bytes, at: nat, n: Item, size: nat, raw: nat)
    requires HasAt(image, at, InodeBytes(n, size, raw)) && at + 64 <= |image|
    requires size < U32_LIMIT && raw < U32_LIMIT && n.info.mode < U16_LIMIT
    ensures Get16(image, at) == (if n.clusters > 0 then 6 else 0)
    ensures Get16(image, at + 2) == (if n.context then 2 else 0) && Get16(image, at + 4) == n.info.mode
    ensures Get16(image, at + 6) == 1 && Get32(image, at + 8) == size && ZerosAt(image, at + 12, 4)
    ensures Get32(image, at + 16) == raw && Get32(image, at + 20) == n.nid % 0x1_0000_0000
    ensures Get16(image, at + 24) == n.info.uid % 0x1_0000 && Get16(image, at + 26) == n.info.gid % 0x1_0000
    ensures ZerosAt(image, at + 28, 4) && at + 32 + |n.info.area| <= |image| && image[at + 32..at + 32 + |n.info.area|] == n.info.area
  {
    hide InodeBytes, Le16, Le32, HasAt, Get16, Get32, Get64, Slice, ZerosAt;
    var all := InodeBytes(n, size, raw);
    InodeParts(n, size, raw);
    ReadFields(image, at, n, size, raw);
    SliceGets(image, at, 64, 0);
    SliceGets(image, at, 64, 2);
    SliceGets(image, at, 64, 4);
    SliceGets(image, at, 64, 8);
    SliceGets(image, at, 64, 16);
    SliceGets(image, at, 64, 24);
    SliceGets(image, at, 64, 26);
    HasAtPart(image, at, all, 6, Le16(1));
    HasAtPart(image, at, all, 20, Le32(n.nid % U32_LIMIT));
    HasAtPart(image, at, all, 32, n.info.area);
    Read16(image, at + 6, 1);
    Read32(image, at + 20, n.nid % U32_LIMIT);
    VolumeThere(image, at + 32, n.info.area);
    ZerosThere(image, at, all, 12, 4);
    ZerosThere(image, at, all, 28, 4);
  }

  // ---- What the slots lead to ------------------------------------------------------------------------------

  /** The map header of a compressed file right behind its inode and xattr area: zero but for the algorithm. */
  lemma {:induction false} HeaderSays(image: bytes, p: Plan, i: nat)
    requires p.blockSize > 0 && Whole(image, p) && i < |p.list| && p.list[i].clusters > 0
    ensures var at := InodePlace(p, i) + if p.list[i].context then 48 else 32;
            at + 8 <= |image| && ZerosAt(image, at, 6) && image[at + 6] == p.algorithm && image[at + 7] == 0
  {
    hide *;
    WholeMeans(image, p);
    PartsOfSlots(p, i);
    PlaceIs(p, i);
    AreaIs(p.list[i]);
    HeaderThere(image, p, i);
    HeaderBytesAt(image, DataAt(p, p.list[i]), p.algorithm);
  }

  lemma {:induction false} AreaIs(n: Item)
    ensures SLOT + AreaLength(n) == if n.context then 48 else 32
  {
  }

  lemma {:induction false} HeaderBytesAt(image: bytes, at: nat, algorithm: byte)
    requires HasAt(image, at, MapHeader(algorithm))
    ensures at + 8 <= |image| && ZerosAt(image, at, 6) && image[at + 6] == algorithm && image[at + 7] == 0
  {
    ZerosThere(image, at, MapHeader(algorithm), 0, 6);
    ByteThere(image, at, MapHeader(algorithm), 6);
    ByteThere(image, at, MapHeader(algorithm), 7);
  }

  /** The clusters of node `i`. */
  function ClustersOf(p: Plan, i: nat): seq<bytes>
    requires p.blockSize > 0 && i < |p.list|
  {
    W.Clusters(p.list[i].info.content, p.blockSize)
  }

  /** Where the index of a compressed file stands. */
  function IndexPlace(p: Plan, i: nat): nat
    requires i < |p.list|
  {
    InodePlace(p, i) + if p.list[i].context then 56 else 40
  }

  /** First payload block of a compressed file: its pairs' blocks behind the previous file's. */
  lemma {:induction false} PayloadFollows(p: Plan, i: nat)
    requires Laid(p) && i < |p.list| && p.list[i].clusters > 0
    ensures p.list[i].clusters == |ClustersOf(p, i)|
    ensures PayloadBlock(p, i + 1)
         == PayloadBlock(p, i) + P.BlocksBefore(p.algo, p.blockSize, ClustersOf(p, i), (|ClustersOf(p, i)| + 1) / 2)
  {
    hide *;
    LaidBlocks(p);
    PayloadBlockStep(p, i);
    ClustersAre(p, i);
    PairCount(|ClustersOf(p, i)|);
    P.BlocksTotal(p.algo, p.blockSize, ClustersOf(p, i), (|ClustersOf(p, i)| + 1) / 2);
  }

  lemma {:induction false} PairCount(n: nat)
    ensures 2 * ((n + 1) / 2) - 1 <= n <= 2 * ((n + 1) / 2)
  {
  }

  lemma {:induction false} ClustersAre(p: Plan, i: nat)
    requires Laid(p) && i < |p.list| && p.list[i].clusters > 0
    ensures p.list[i].clusters == |ClustersOf(p, i)| && W.AllWithin(ClustersOf(p, i), p.blockSize)
    ensures Pclusters(p.list[i], p) == W.PackClusters(p.algo, p.blockSize, ClustersOf(p, i))
  {
    hide Laid, W.Clusters, W.PackClusters, DivCeil;
    LaidBlocks(p);
    IndexPieceLength(p, i);
    W.ClustersShape(p.list[i].info.content, p.blockSize);
  }

  /** The index of a compressed file on the image, pack by pack. */
  lemma {:induction false} IndexSays(image: bytes, p: Plan, i: nat, j: nat)
    requires p.blockSize > 0 && Whole(image, p) && i < |p.list| && p.list[i].clusters > 0 && 2 * j < |ClustersOf(p, i)|
    ensures var at, clusters := IndexPlace(p, i) + 8 * j, ClustersOf(p, i);
            && at + 8 <= |image| && Get16(image, at) == P.FirstWord(p.algo, p.blockSize, clusters, j)
            && Get16(image, at + 2) == P.SecondWord(p.algo, p.blockSize, clusters, j)
            && Get32(image, at + 4)
               == Max(PayloadBlock(p, i) + P.BlocksBefore(p.algo, p.blockSize, clusters, j) - 1, 0) % 0x1_0000_0000
  {
    hide *;
    WholeMeans(image, p);
    ClustersAre(p, i);
    IndexPieceLength(p, i);
    PartThere(image, p, Index(i));
    StreamParts(p, i);
    PartsOfSlots(p, i);
    PlaceIs(p, i);
    AreaIs(p.list[i]);
    IndexPlaceIs(p, i);
    var clusters, index := ClustersOf(p, i), W.EncodedIndex(Pclusters(p.list[i], p), PayloadBlock(p, i));
    P.IndexSays(p.algo, p.blockSize, clusters, PayloadBlock(p, i), j);
    PackInImage(image, IndexPlace(p, i), index, j, P.FirstWord(p.algo, p.blockSize, clusters, j),
                P.SecondWord(p.algo, p.blockSize, clusters, j),
                Max(PayloadBlock(p, i) + P.BlocksBefore(p.algo, p.blockSize, clusters, j) - 1, 0) % 0x1_0000_0000);
  }

  lemma {:induction false} IndexPlaceIs(p: Plan, i: nat)
    requires i < |p.list|
    ensures MAP_HEADER == 8 && IndexPlace(p, i) == InodePlace(p, i) + (if p.list[i].context then 48 else 32) + 8
  {
    hide InodePlace;
  }

  lemma {:induction false} PackInImage(image: bytes, at: nat, index: bytes, j: nat, first: nat, second: nat, anchor: nat)
    requires Carries(image, at, index) && P.PackSays(index, j, first, second, anchor)
    ensures at + 8 * j + 8 <= |image| && Get16(image, at + 8 * j) == first && Get16(image, at + 8 * j + 2) == second
    ensures Get32(image, at + 8 * j + 4) == anchor
  {
    ByteThere(image, at, index, 8 * j);
    ByteThere(image, at, index, 8 * j + 1);
    ByteThere(image, at, index, 8 * j + 2);
    ByteThere(image, at, index, 8 * j + 3);
    ByteThere(image, at, index, 8 * j + 4);
    ByteThere(image, at, index, 8 * j + 5);
    ByteThere(image, at, index, 8 * j + 6);
    ByteThere(image, at, index, 8 * j + 7);
  }

  /** Payload block `k` of a compressed file on the image: the pcluster's bytes, and zeros behind them. */
  lemma {:induction false} PayloadSays(image: bytes, p: Plan, i: nat, k: nat)
    requires p.blockSize > 0 && Whole(image, p) && i < |p.list| && p.list[i].clusters > 0 && k < |Pclusters(p.list[i], p)|
    ensures var payload := Pclusters(p.list[i], p)[k].payload;
            |payload| <= p.blockSize && InBlocks(image, PayloadBlock(p, i) + k, p.blockSize, payload + Zeros(p.blockSize - |payload|))
  {
    hide *;
    WholeMeans(image, p);
    IndexPieceLength(p, i);
    PartThere(image, p, Payload(i));
    StreamParts(p, i);
    var ps := Pclusters(p.list[i], p);
    P.PayloadAt(ps, p.blockSize, k);
    BlockInImage(image, PayloadBlock(p, i), p.blockSize, W.Payloads(ps, p.blockSize), k, ps[k].payload + Zeros(p.blockSize - |ps[k].payload|));
  }

  lemma {:induction false} BlockInImage(image: bytes, first: nat, blockSize: nat, payloads: bytes, k: nat, block: bytes)
    requires Carries(image, ByteOf(first, blockSize), payloads) && HasAt(payloads, k * blockSize, block)
    requires |block| == blockSize > 0
    ensures InBlocks(image, first + k, blockSize, block)
  {
    MulDistributes(first, k, blockSize);
    assert payloads != [];
    HasAtPart(image, first * blockSize, payloads, k * blockSize, block);
  }

  /** The shared xattr table is where the superblock says it is. */
  lemma {:induction false} TableThere(image: bytes, p: Plan, bits: nat, labels: Labels)
    requires 9 <= bits <= 16 && |labels.volume| == 16 && p.blockSize > 0 && Whole(image, p) && p.xattr != []
    requires p.list != [] && Built(image, p, bits, labels) && |image| > 1024
    ensures |image| >= 1152
    ensures InBlocks(image, Get32(image, 1068), p.blockSize, p.xattr)
  {
    hide *;
    WholeMeans(image, p);
    SuperblockSays(image, p, bits, labels);
    NumbersFit(p, 0);
    PartThere(image, p, Table);
    TableIs(p);
    StartFits(p);
    DirThere(image, StartBlock(p), p.blockSize, p.xattr);
  }

  lemma {:induction false} StartFits(p: Plan)
    requires Laid(p) && !TooWide(p)
    ensures StartBlock(p) % 0x1_0000_0000 == StartBlock(p)
  {
    hide *;
    LaidBlocks(p);
    LaidNodes(p);
    NumbersFit(p, 0);
    Within32(p, 0);
  }

  lemma {:induction false} Within32(p: Plan, i: nat)
    requires p.blockSize > 0 && i < |p.list|
    requires StartBlock(p) <= DirBlock(p, i) <= PayloadBlock(p, i) && PayloadBlock(p, i) + p.list[i].clusters < U32_LIMIT
    ensures StartBlock(p) % 0x1_0000_0000 == StartBlock(p)
  {
    hide StartBlock, DirBlock, PayloadBlock;
  }

  // ---- Directory listings ----------------------------------------------------------------------------------

  /** A listing: the directory as ".", the one above as "..", then the children in order, directories apart from the rest. */
  predicate Lists(es: seq<D.Entry>, n: Item, above: nat) {
    && |es| == 2 + |n.children|
    && es[0] == D.Entry(n.nid, [46], 2) && es[1] == D.Entry(above, [46, 46], 2)
    && forall k :: 0 <= k < |n.children| ==>
         && es[2 + k].nid == n.children[k].nid && es[2 + k].name == n.children[k].info.name
         && es[2 + k].kind == if n.children[k].info.mode / 0x1000 % 16 == 4 then 2 else 1
  }

  lemma {:induction false} EntriesList(n: Item)
    ensures Lists(DirEntries(n), n, n.parent)
  {
  }

  /**
   Reading a directory by its number gives its own number, the number of the directory above it (1 for the root), and
   number, name and kind of every child in order.
   */
  lemma {:induction false} DirectoriesName(
    image: bytes, root: Item, meta: nat, blockSize: nat, xattr: bytes, algo: W.Algo, algorithm: byte, i: nat)
    requires blockSize > 0 && blockSize % 512 == 0 && D.DirBlock(blockSize) && Ready(root) && GoodTree(root)
    requires var p := PlanOf(root, meta, blockSize, xattr, algo, algorithm);
             && Whole(image, p) && i < |p.list| && p.list[i].info.mode / 0x1000 % 16 == 4
             && NumbersBelow(p.list[i], U64_LIMIT)
    ensures var p := PlanOf(root, meta, blockSize, xattr, algo, algorithm);
            var n, s := p.list[i], SuperFields(p);
            && s.blockSize > 0 && ReadInode(image, s, n.nid).Ok?
            && var list := DirectoryEntries(image, s, ReadInode(image, s, n.nid).value);
               && list.Ok?
               && (i == 0 ==> Lists(list.value, n, 1))
               && (forall j :: 0 <= j < |p.list| && ChildOf(p.list, i, j) ==> Lists(list.value, n, p.list[j].nid))
               && (i > 0 ==> exists j :: ChildOf(p.list, i, j))
  {
    hide *;
    var p := PlanOf(root, meta, blockSize, xattr, algo, algorithm);
    PlanFields(root, meta, blockSize, xattr, algo, algorithm);
    var tree := Assigned(Marked(root, blockSize), 1, 1, meta, blockSize);
    PlanIs(root, meta, blockSize, xattr, algo, algorithm, tree.0, tree.1);
    NumberedTree(root, 1, 1, meta, blockSize);
    assert p.list[i] in Preorder(tree.0);
    WholeMeans(image, p);
    NodeKinds(p, i);
    InodeFound(image, p, i);
    DirectoryFound(image, p, i);
    ChildrenNumbered(p.list[i]);
    DirectoryLists(p.list[i], blockSize);
    ChildlessIs(p, i);
    DirectoryIs(image, p, i);
    EntriesList(p.list[i]);
    PlanIsTree(root, meta, blockSize, xattr, algo, algorithm, i);
  }
}
