/**
 Metadata layout of a compressed EROFS rebuild: strided node numbers that step over the superblock, and the regions
 behind the inodes.
 */
module ErofsLayout {
  import opened Core
  import opened Arith
  import opened CompactFormat
  import opened Spans

  const SLOT: nat := 32
  const AREA: nat := 16
  const MAP_HEADER: nat := 8
  const SUPER_FROM: nat := 1024
  const SUPER_UNTIL: nat := 1152

  /** What numbering and placing do not look at; `area` is the inline xattr area, `mode`, `uid` and `gid` as they come. */
  datatype Info = Info(name: bytes, mode: nat, uid: nat, gid: nat, area: bytes, content: bytes)

  /** A node of the tree to be written: its number, whether it has a shared xattr area, its compressed clusters. */
  datatype Item = Item(nid: nat, parent: nat, context: bool, clusters: nat, info: Info, children: seq<Item>)

  function AreaLength(n: Item): nat {
    if n.context then AREA else 0
  }

  function AlignUp8(v: nat): nat {
    (v + 7) / 8 * 8
  }

  /** 32-byte slots a node's inode, xattr area, map header and full index take. */
  function Slots(n: Item): (s: nat)
    ensures s >= 1
  {
    if n.clusters == 0 then if n.context then 2 else 1
    else
      DivCeilAtMost(AlignUp8(SLOT + AreaLength(n)) + MAP_HEADER + IndexLength(n.clusters), 0, SLOT);
      DivCeil(AlignUp8(SLOT + AreaLength(n)) + MAP_HEADER + IndexLength(n.clusters), SLOT)
  }

  // ---- Stepping over the superblock ------------------------------------------------------------------------

  /** Offset of slot `next`, unless it does not fit 64 bits. */
  function SlotOffset(next: nat, meta: nat, blockSize: nat): Option<nat> {
    var base := meta * blockSize;
    if base >= U64_LIMIT || next * SLOT >= U64_LIMIT || base + next * SLOT >= U64_LIMIT then None
    else Some(base + next * SLOT)
  }

  /** A footprint of `stride` slots may start here: it is clear of the superblock, or past what 64 bits can say. */
  predicate MayStart(next: nat, meta: nat, blockSize: nat, stride: nat) {
    match SlotOffset(next, meta, blockSize)
    case None => true
    case Some(off) =>
      var end := off + Max(stride, 1) * SLOT;
      end >= U64_LIMIT || end <= SUPER_FROM || off >= SUPER_UNTIL
  }

  /** The first slot from `next` on where the footprint may start. */
  function FirstClear(next: nat, meta: nat, blockSize: nat, stride: nat): (r: nat)
    ensures r >= next && MayStart(r, meta, blockSize, stride)
    ensures forall k :: next <= k < r ==> !MayStart(k, meta, blockSize, stride)
    decreases Max(SUPER_UNTIL - next * SLOT, 0)
  {
    if MayStart(next, meta, blockSize, stride) then next
    else
      StillInFront(next, meta, blockSize, stride);
      FirstClear(next + 1, meta, blockSize, stride)
  }

  lemma {:induction false} StillInFront(next: nat, meta: nat, blockSize: nat, stride: nat)
    requires !MayStart(next, meta, blockSize, stride)
    ensures next * SLOT < SUPER_UNTIL
  {
    assert meta * blockSize >= 0;
  }

  /** `skip_superblock`. */
  method SkipSuperblock(next: nat, meta: nat, blockSize: nat, stride: nat) returns (r: nat)
    ensures r == FirstClear(next, meta, blockSize, stride)
  {
    hide MayStart;
    r := next;
    while !MayStart(r, meta, blockSize, stride)
      invariant r >= next && FirstClear(r, meta, blockSize, stride) == FirstClear(next, meta, blockSize, stride)
      decreases Max(SUPER_UNTIL - r * SLOT, 0)
    {
      StillInFront(r, meta, blockSize, stride);
      r := r + 1;
    }
  }

  // ---- Numbering -------------------------------------------------------------------------------------------

  /** The numbered tree, and the next free slot. */
  function Assigned(n: Item, next: nat, parent: nat, meta: nat, blockSize: nat): (r: (Item, nat))
    decreases n
  {
    var nid := FirstClear(next, meta, blockSize, Slots(n));
    var below := AssignedAll(n.children, nid + Slots(n), nid, meta, blockSize);
    (n.(nid := nid, parent := parent, children := below.0), below.1)
  }

  function AssignedAll(nodes: seq<Item>, next: nat, parent: nat, meta: nat, blockSize: nat): (r: (seq<Item>, nat))
    ensures |r.0| == |nodes|
    decreases nodes
  {
    if nodes == [] then ([], next)
    else
      var first := Assigned(nodes[0], next, parent, meta, blockSize);
      var rest := AssignedAll(nodes[1..], first.1, parent, meta, blockSize);
      ([first.0] + rest.0, rest.1)
  }

  /** `assign_nids_strided`. */
  method AssignNids(n: Item, next: nat, parent: nat, meta: nat, blockSize: nat) returns (r: Item, after: nat)
    ensures (r, after) == Assigned(n, next, parent, meta, blockSize)
    decreases n
  {
    hide FirstClear, Slots;
    var nid := SkipSuperblock(next, meta, blockSize, Slots(n));
    after := nid + Slots(n);
    ghost var all := AssignedAll(n.children, after, nid, meta, blockSize);
    var children: seq<Item> := [];
    for i := 0 to |n.children|
      invariant var rest := AssignedAll(n.children[i..], after, nid, meta, blockSize);
                children + rest.0 == all.0 && rest.1 == all.1
    {
      assert n.children[i..][1..] == n.children[i + 1..];
      var child, next' := AssignNids(n.children[i], after, nid, meta, blockSize);
      children, after := children + [child], next';
    }
    assert n.children[|n.children|..] == [] && children + [] == children;
    r := n.(nid := nid, parent := parent, children := children);
  }

  // ---- Where things lie ------------------------------------------------------------------------------------

  /** Spans in disk order, without overlap, between two offsets. */
  predicate InOrder(spans: seq<Span>, from: nat, until: nat)
    decreases |spans|
  {
    if spans == [] then from <= until
    else
      var last := spans[|spans| - 1];
      last.from <= last.until <= until && InOrder(spans[..|spans| - 1], from, last.from)
  }

  /** Spans in order do not overlap. */
  lemma {:induction false} OrderedApart(spans: seq<Span>, from: nat, until: nat, i: nat, j: nat)
    requires InOrder(spans, from, until) && i < j < |spans|
    ensures from <= spans[i].from <= spans[i].until <= spans[j].from <= spans[j].until <= until
    decreases |spans|
  {
    var k := |spans| - 1;
    if j < k {
      OrderedApart(spans[..k], from, spans[k].from, i, j);
    } else {
      OrderedBounds(spans[..k], from, spans[k].from, i);
    }
  }

  lemma {:induction false} OrderedBounds(spans: seq<Span>, from: nat, until: nat, i: nat)
    requires InOrder(spans, from, until) && i < |spans|
    ensures from <= spans[i].from <= spans[i].until <= until
    decreases |spans|
  {
    var k := |spans| - 1;
    OrderedFrom(spans[..k], from, spans[k].from);
    if i < k {
      OrderedBounds(spans[..k], from, spans[k].from, i);
    }
  }

  lemma {:induction false} OrderedFrom(spans: seq<Span>, from: nat, until: nat)
    requires InOrder(spans, from, until)
    ensures from <= until
    decreases |spans|
  {
    if spans != [] {
      OrderedFrom(spans[..|spans| - 1], from, spans[|spans| - 1].from);
    }
  }

  lemma {:induction false} OrderedWider(spans: seq<Span>, from: nat, until: nat, from': nat, until': nat)
    requires InOrder(spans, from, until) && from' <= from && until <= until'
    ensures InOrder(spans, from', until')
    decreases |spans|
  {
    if spans != [] {
      var k := |spans| - 1;
      OrderedWider(spans[..k], from, spans[k].from, from', spans[k].from);
    }
  }

  lemma {:induction false} OrderedJoin(a: seq<Span>, b: seq<Span>, from: nat, middle: nat, until: nat)
    requires InOrder(a, from, middle) && InOrder(b, middle, until)
    ensures InOrder(a + b, from, until)
    decreases |b|
  {
    if b == [] {
      assert a + b == a;
      OrderedWider(a, from, middle, from, until);
    } else {
      var k := |b| - 1;
      OrderedJoin(a, b[..k], from, middle, b[k].from);
      assert (a + b)[..|a + b| - 1] == a + b[..k];
    }
  }

  /** What a numbered node occupies: inode and xattr area, and for a compressed file map header and index. */
  function NodeSpans(n: Item, base: nat): seq<Span> {
    var off := base + n.nid * SLOT;
    var end := off + SLOT + AreaLength(n);
    if n.clusters == 0 then [Span(off, end)]
    else
      var dataOff := AlignUp8(end);
      [Span(off, end), Span(dataOff, dataOff + MAP_HEADER),
       Span(dataOff + MAP_HEADER, dataOff + MAP_HEADER + IndexLength(n.clusters))]
  }

  function TreeSpans(n: Item, base: nat): seq<Span>
    decreases n
  {
    NodeSpans(n, base) + AllSpans(n.children, base)
  }

  function AllSpans(nodes: seq<Item>, base: nat): seq<Span>
    decreases nodes
  {
    if nodes == [] then [] else TreeSpans(nodes[0], base) + AllSpans(nodes[1..], base)
  }

  lemma {:induction false} AlignedEnd(off: nat, n: Item)
    requires off % 8 == 0
    ensures AlignUp8(off + SLOT + AreaLength(n)) == off + AlignUp8(SLOT + AreaLength(n)) == off + SLOT + AreaLength(n)
  {
  }

  /** The slots of a node hold everything it occupies. */
  lemma {:induction false} SlotsHoldNode(n: Item, base: nat)
    requires base % 8 == 0
    ensures InOrder(NodeSpans(n, base), base + n.nid * SLOT, base + (n.nid + Slots(n)) * SLOT)
  {
    var off := base + n.nid * SLOT;
    hide IndexLength;
    AlignedEnd(off, n);
    var end := off + SLOT + AreaLength(n);
    if n.clusters == 0 {
      assert NodeSpans(n, base)[..0] == [];
    } else {
      var spans, need := NodeSpans(n, base), SLOT + AreaLength(n) + MAP_HEADER + IndexLength(n.clusters);
      DivCeilMeaning(need, SLOT);
      assert Slots(n) == DivCeil(need, SLOT);
      assert spans[..2] == [Span(off, end), Span(end, end + MAP_HEADER)];
      assert spans[..2][..1] == [Span(off, end)] && spans[..2][..1][..0] == [];
      assert InOrder(spans[..2][..1], off, end);
      assert InOrder(spans[..2], off, end + MAP_HEADER);
    }
  }

  /** The spans of a numbered tree, in preorder, are in disk order between its first slot and the next free one. */
  lemma {:induction false} TreeInOrder(n: Item, next: nat, parent: nat, meta: nat, blockSize: nat, base: nat)
    requires base % 8 == 0
    ensures var r := Assigned(n, next, parent, meta, blockSize);
            next <= r.1 && InOrder(TreeSpans(r.0, base), base + next * SLOT, base + r.1 * SLOT)
    decreases n
  {
    hide FirstClear, NodeSpans, Slots;
    var nid := FirstClear(next, meta, blockSize, Slots(n));
    var r := Assigned(n, next, parent, meta, blockSize);
    var own := n.(nid := nid, parent := parent, children := r.0.children);
    SlotsSame(n, own);
    SlotsHoldNode(own, base);
    AllInOrder(n.children, nid + Slots(n), nid, meta, blockSize, base);
    OrderedJoin(NodeSpans(own, base), AllSpans(r.0.children, base), base + nid * SLOT, base + (nid + Slots(n)) * SLOT, base + r.1 * SLOT);
    OrderedWider(TreeSpans(r.0, base), base + nid * SLOT, base + r.1 * SLOT, base + next * SLOT, base + r.1 * SLOT);
  }

  lemma {:induction false} SlotsSame(n: Item, m: Item)
    requires n.context == m.context && n.clusters == m.clusters
    ensures Slots(n) == Slots(m)
  {
  }

  lemma {:induction false} OrderedNothing(at: nat)
    ensures InOrder([], at, at)
  {
  }

  lemma {:induction false} AllInOrder(nodes: seq<Item>, next: nat, parent: nat, meta: nat, blockSize: nat, base: nat)
    requires base % 8 == 0
    ensures var r := AssignedAll(nodes, next, parent, meta, blockSize);
            next <= r.1 && InOrder(AllSpans(r.0, base), base + next * SLOT, base + r.1 * SLOT)
    decreases nodes
  {
    hide TreeSpans, Assigned, InOrder;
    OrderedNothing(base + next * SLOT);
    if nodes != [] {
      var first := Assigned(nodes[0], next, parent, meta, blockSize);
      var rest := AssignedAll(nodes[1..], first.1, parent, meta, blockSize);
      TreeInOrder(nodes[0], next, parent, meta, blockSize, base);
      AllInOrder(nodes[1..], first.1, parent, meta, blockSize, base);
      assert ([first.0] + rest.0)[1..] == rest.0;
      OrderedJoin(TreeSpans(first.0, base), AllSpans(rest.0, base), base + next * SLOT, base + first.1 * SLOT, base + rest.1 * SLOT);
    }
  }

  // ---- The superblock --------------------------------------------------------------------------------------

  predicate OffSuper(s: Span) {
    s.until <= SUPER_FROM || SUPER_UNTIL <= s.from
  }

  predicate AllOffSuper(spans: seq<Span>) {
    forall i :: 0 <= i < |spans| ==> OffSuper(spans[i])
  }

  lemma {:induction false} OffSuperInside(spans: seq<Span>, from: nat, until: nat)
    requires InOrder(spans, from, until) && OffSuper(Span(from, until))
    ensures AllOffSuper(spans)
  {
    forall i | 0 <= i < |spans|
      ensures OffSuper(spans[i])
    {
      OrderedBounds(spans, from, until, i);
    }
  }

  /** Where nothing overflows, every part of every inode is clear of the superblock. */
  lemma {:induction false} TreeOffSuper(n: Item, next: nat, parent: nat, meta: nat, blockSize: nat)
    requires blockSize % 8 == 0
    requires meta * blockSize + Assigned(n, next, parent, meta, blockSize).1 * SLOT < U64_LIMIT
    ensures AllOffSuper(TreeSpans(Assigned(n, next, parent, meta, blockSize).0, meta * blockSize))
    decreases n
  {
    hide FirstClear, NodeSpans, Slots, OffSuper, MayStart, AssignedAll, AllSpans, InOrder;
    var base, nid, r := meta * blockSize, FirstClear(next, meta, blockSize, Slots(n)), Assigned(n, next, parent, meta, blockSize);
    var own := n.(nid := nid, parent := parent, children := r.0.children);
    MultipleOf8(meta, blockSize);
    AllInOrder(n.children, nid + Slots(n), nid, meta, blockSize, base);
    ClearWithoutOverflow(nid, meta, blockSize, Slots(n), r.1);
    SlotsSame(n, own);
    SlotsHoldNode(own, base);
    OffSuperInside(NodeSpans(own, base), base + nid * SLOT, base + (nid + Slots(n)) * SLOT);
    AllOff(n.children, nid + Slots(n), nid, meta, blockSize);
    BothOff(NodeSpans(own, base), AllSpans(r.0.children, base));
  }

  lemma {:induction false} BothOff(a: seq<Span>, b: seq<Span>)
    requires AllOffSuper(a) && AllOffSuper(b)
    ensures AllOffSuper(a + b)
  {
    hide OffSuper;
  }

  lemma {:induction false} MultipleOf8(meta: nat, blockSize: nat)
    requires blockSize % 8 == 0
    ensures meta * blockSize % 8 == 0
  {
    var q := blockSize / 8;
    assert blockSize == q * 8;
    MulAssociates(meta, q, 8);
  }

  lemma {:induction false} ClearWithoutOverflow(nid: nat, meta: nat, blockSize: nat, slots: nat, end: nat)
    requires MayStart(nid, meta, blockSize, slots) && slots >= 1
    requires nid + slots <= end && meta * blockSize + end * SLOT < U64_LIMIT
    ensures OffSuper(Span(meta * blockSize + nid * SLOT, meta * blockSize + (nid + slots) * SLOT))
  {
  }

  lemma {:induction false} AllOff(nodes: seq<Item>, next: nat, parent: nat, meta: nat, blockSize: nat)
    requires blockSize % 8 == 0
    requires meta * blockSize + AssignedAll(nodes, next, parent, meta, blockSize).1 * SLOT < U64_LIMIT
    ensures AllOffSuper(AllSpans(AssignedAll(nodes, next, parent, meta, blockSize).0, meta * blockSize))
    decreases nodes
  {
    hide TreeSpans, OffSuper;
    if nodes != [] {
      var first := Assigned(nodes[0], next, parent, meta, blockSize);
      var rest := AssignedAll(nodes[1..], first.1, parent, meta, blockSize);
      MultipleOf8(meta, blockSize);
      AllInOrder(nodes[1..], first.1, parent, meta, blockSize, meta * blockSize);
      TreeOffSuper(nodes[0], next, parent, meta, blockSize);
      AllOff(nodes[1..], first.1, parent, meta, blockSize);
      assert ([first.0] + rest.0)[1..] == rest.0;
    }
  }

  // ---- The regions behind the inodes -----------------------------------------------------------------------

  datatype LayoutError = DirectoryTooLarge

  /** First blocks of the xattr table and of each directory, and the first payload block. */
  datatype Regions = Regions(inodeBlocks: nat, xattr: nat, dirs: seq<nat>, payload: nat)

  /** Bytes of the xattr table, the directories and the payload of each compressed file. */
  function RegionSpans(r: Regions, blockSize: nat, xattrLength: nat, dirLengths: seq<nat>, payloads: seq<nat>): seq<Span>
    requires |r.dirs| == |dirLengths|
  {
    (if xattrLength == 0 then [] else [Span(r.xattr * blockSize, r.xattr * blockSize + xattrLength)])
    + DirSpans(r.dirs, dirLengths, blockSize) + PayloadSpans(r.payload * blockSize, payloads, blockSize)
  }

  function DirSpans(dirs: seq<nat>, lengths: seq<nat>, blockSize: nat): seq<Span>
    requires |dirs| == |lengths|
    decreases |dirs|
  {
    if dirs == [] then []
    else
      var k := |dirs| - 1;
      DirSpans(dirs[..k], lengths[..k], blockSize) + [Span(dirs[k] * blockSize, dirs[k] * blockSize + lengths[k])]
  }

  /** One stretch of blocks for each compressed file, as the streaming cursor leaves them. */
  function PayloadSpans(cursor: nat, payloads: seq<nat>, blockSize: nat): seq<Span>
    decreases |payloads|
  {
    if payloads == [] then []
    else
      [Span(cursor, cursor + payloads[0] * blockSize)] + PayloadSpans(cursor + payloads[0] * blockSize, payloads[1..], blockSize)
  }

  function PayloadEnd(cursor: nat, payloads: seq<nat>, blockSize: nat): nat
    decreases |payloads|
  {
    if payloads == [] then cursor else PayloadEnd(cursor + payloads[0] * blockSize, payloads[1..], blockSize)
  }

  lemma {:induction false} SpanFirst(s: Span, rest: seq<Span>, until: nat)
    requires s.from <= s.until && InOrder(rest, s.until, until)
    ensures InOrder([s] + rest, s.from, until)
  {
    assert [s][..0] == [];
    assert InOrder([s], s.from, s.until);
    OrderedJoin([s], rest, s.from, s.until, until);
  }

  lemma {:induction false} PayloadsInOrder(cursor: nat, payloads: seq<nat>, blockSize: nat)
    ensures InOrder(PayloadSpans(cursor, payloads, blockSize), cursor, PayloadEnd(cursor, payloads, blockSize))
    decreases |payloads|
  {
    if payloads != [] {
      PayloadsInOrder(cursor + payloads[0] * blockSize, payloads[1..], blockSize);
      SpanFirst(Span(cursor, cursor + payloads[0] * blockSize), PayloadSpans(cursor + payloads[0] * blockSize, payloads[1..], blockSize),
        PayloadEnd(cursor, payloads, blockSize));
    }
  }

  lemma {:induction false} BlocksHold(block: nat, length: nat, blockSize: nat)
    requires blockSize > 0
    ensures block * blockSize + length <= (block + DivCeil(length, blockSize)) * blockSize
  {
    hide DivCeil;
    DivCeilMeaning(length, blockSize);
    MulDistributes(block, DivCeil(length, blockSize), blockSize);
  }

  /** Blocks of the first directories, and of the payloads. */
  function DirBlocks(lengths: seq<nat>, blockSize: nat): nat
    requires blockSize > 0
    decreases |lengths|
  {
    if lengths == [] then 0
    else DirBlocks(lengths[..|lengths| - 1], blockSize) + DivCeil(lengths[|lengths| - 1], blockSize)
  }

  function PayloadBlocks(payloads: seq<nat>): nat
    decreases |payloads|
  {
    if payloads == [] then 0 else payloads[0] + PayloadBlocks(payloads[1..])
  }

  /** Where each directory starts. */
  function DirStarts(first: nat, lengths: seq<nat>, blockSize: nat): (dirs: seq<nat>)
    requires blockSize > 0
    ensures |dirs| == |lengths|
    decreases |lengths|
  {
    if lengths == [] then []
    else
      var k := |lengths| - 1;
      DirStarts(first, lengths[..k], blockSize) + [first + DirBlocks(lengths[..k], blockSize)]
  }

  /** The regions behind `inodeBlocks` blocks of inodes from block `meta` on. */
  function Placed(meta: nat, inodeBlocks: nat, blockSize: nat, xattrLength: nat, dirLengths: seq<nat>): (r: Regions)
    requires blockSize > 0
    ensures |r.dirs| == |dirLengths|
  {
    var first := meta + inodeBlocks + DivCeil(xattrLength, blockSize);
    Regions(inodeBlocks, if xattrLength == 0 then 0 else meta + inodeBlocks, DirStarts(first, dirLengths, blockSize),
            first + DirBlocks(dirLengths, blockSize))
  }

  /** Blocks of everything behind the inodes. */
  function BlocksBehind(blockSize: nat, xattrLength: nat, dirLengths: seq<nat>, payloads: seq<nat>): nat
    requires blockSize > 0
  {
    DivCeil(xattrLength, blockSize) + DirBlocks(dirLengths, blockSize) + PayloadBlocks(payloads)
  }

  /** The layout part of `rebuild_compressed` after numbering. */
  method PlaceRegions(next: nat, meta: nat, blockSize: nat, xattrLength: nat, dirLengths: seq<nat>)
    returns (r: Result<Regions, LayoutError>)
    requires blockSize > 0
    ensures r.Err? <==> exists i :: 0 <= i < |dirLengths| && dirLengths[i] == 0
    ensures r.Ok? ==> r.value == Placed(meta, DivCeil(next * SLOT, blockSize), blockSize, xattrLength, dirLengths)
  {
    hide DivCeil;
    var inodeBlocks: nat := DivCeil(next * SLOT, blockSize);
    var alloc: nat := meta + inodeBlocks;
    var xattr: nat := 0;
    NoBlocks(blockSize);
    if xattrLength > 0 {
      xattr := alloc;
      alloc := alloc + DivCeil(xattrLength, blockSize);
    }
    ghost var first := alloc;
    var dirs: seq<nat> := [];
    for i := 0 to |dirLengths|
      invariant forall k :: 0 <= k < i ==> dirLengths[k] != 0
      invariant dirs == DirStarts(first, dirLengths[..i], blockSize)
      invariant alloc == first + DirBlocks(dirLengths[..i], blockSize)
    {
      if dirLengths[i] == 0 {
        return Err(DirectoryTooLarge);
      }
      assert dirLengths[..i + 1][..i] == dirLengths[..i];
      dirs := dirs + [alloc];
      alloc := alloc + DivCeil(dirLengths[i], blockSize);
    }
    assert dirLengths[..|dirLengths|] == dirLengths;
    return Ok(Regions(inodeBlocks, xattr, dirs, alloc));
  }

  lemma {:induction false} NoBlocks(blockSize: nat)
    requires blockSize > 0
    ensures DivCeil(0, blockSize) == 0
  {
    DivCeilUnique(0, 0, blockSize);
  }

  /** The payloads end behind their blocks. */
  lemma {:induction false} PayloadEndIs(cursor: nat, payloads: seq<nat>, blockSize: nat)
    ensures PayloadEnd(cursor, payloads, blockSize) == cursor + PayloadBlocks(payloads) * blockSize
    decreases |payloads|
  {
    if payloads != [] {
      PayloadEndIs(cursor + payloads[0] * blockSize, payloads[1..], blockSize);
      MulDistributes(payloads[0], PayloadBlocks(payloads[1..]), blockSize);
    }
  }

  lemma {:induction false} DirsInOrder(first: nat, lengths: seq<nat>, blockSize: nat)
    requires blockSize > 0
    ensures InOrder(DirSpans(DirStarts(first, lengths, blockSize), lengths, blockSize), first * blockSize,
                    (first + DirBlocks(lengths, blockSize)) * blockSize)
    decreases |lengths|
  {
    hide DivCeil;
    if lengths != [] {
      var k := |lengths| - 1;
      var dirs := DirStarts(first, lengths, blockSize);
      DirsInOrder(first, lengths[..k], blockSize);
      BlocksHold(dirs[k], lengths[k], blockSize);
      assert dirs[..k] == DirStarts(first, lengths[..k], blockSize);
      var spans := DirSpans(dirs, lengths, blockSize);
      assert spans[..|spans| - 1] == DirSpans(dirs[..k], lengths[..k], blockSize);
    }
  }

  /** The regions follow each other from the first block behind the inodes to the last payload block. */
  lemma {:induction false} RegionsInOrder(
    meta: nat, inodeBlocks: nat, blockSize: nat, xattrLength: nat, dirLengths: seq<nat>, payloads: seq<nat>)
    requires blockSize > 0
    ensures var r := Placed(meta, inodeBlocks, blockSize, xattrLength, dirLengths);
            InOrder(RegionSpans(r, blockSize, xattrLength, dirLengths, payloads), (meta + inodeBlocks) * blockSize,
                    (meta + inodeBlocks + BlocksBehind(blockSize, xattrLength, dirLengths, payloads)) * blockSize)
  {
    hide DivCeil, DirSpans, DirBlocks, DirStarts, PayloadSpans, PayloadEnd, PayloadBlocks;
    var start, r := meta + inodeBlocks, Placed(meta, inodeBlocks, blockSize, xattrLength, dirLengths);
    var first := start + DivCeil(xattrLength, blockSize);
    var dirs, data := DirSpans(r.dirs, dirLengths, blockSize), PayloadSpans(r.payload * blockSize, payloads, blockSize);
    var end := PayloadEnd(r.payload * blockSize, payloads, blockSize);
    DirsInOrder(first, dirLengths, blockSize);
    PayloadsInOrder(r.payload * blockSize, payloads, blockSize);
    PayloadEndIs(r.payload * blockSize, payloads, blockSize);
    MulDistributes(r.payload, PayloadBlocks(payloads), blockSize);
    if xattrLength == 0 {
      NoBlocks(blockSize);
      OrderedJoin(dirs, data, first * blockSize, r.payload * blockSize, end);
      assert [] + dirs + data == dirs + data;
    } else {
      var table := Span(start * blockSize, start * blockSize + xattrLength);
      BlocksHold(start, xattrLength, blockSize);
      OrderedWider(dirs, first * blockSize, r.payload * blockSize, table.until, r.payload * blockSize);
      SpanFirst(table, dirs, r.payload * blockSize);
      OrderedJoin([table] + dirs, data, table.from, r.payload * blockSize, end);
    }
  }

  // ---- The first byte of every block -----------------------------------------------------------------------

  /** Some span holds the first byte of the block. */
  ghost predicate HoldsFirst(spans: seq<Span>, block: nat, blockSize: nat) {
    exists i :: 0 <= i < |spans| && spans[i].from <= block * blockSize < spans[i].until
  }

  lemma {:induction false} HoldsFirstJoin(a: seq<Span>, b: seq<Span>, block: nat, blockSize: nat)
    ensures HoldsFirst(a, block, blockSize) || HoldsFirst(b, block, blockSize) ==> HoldsFirst(a + b, block, blockSize)
  {
    if HoldsFirst(a, block, blockSize) {
      var i :| 0 <= i < |a| && a[i].from <= block * blockSize < a[i].until;
      assert (a + b)[i] == a[i];
    } else if HoldsFirst(b, block, blockSize) {
      var i :| 0 <= i < |b| && b[i].from <= block * blockSize < b[i].until;
      assert (a + b)[|a| + i] == b[i];
    }
  }

  /** A stretch of bytes holds the first byte of each block it takes. */
  lemma {:induction false} StretchHoldsFirst(start: nat, length: nat, blockSize: nat, block: nat)
    requires blockSize > 0 && start <= block < start + DivCeil(length, blockSize)
    ensures HoldsFirst([Span(start * blockSize, start * blockSize + length)], block, blockSize)
  {
    hide DivCeil;
    var s := Span(start * blockSize, start * blockSize + length);
    DivCeilAtMost(length, block - start, blockSize);
    MulDistributes(start, block - start, blockSize);
    assert [s][0].from <= block * blockSize < [s][0].until;
  }

  lemma {:induction false} DirsHoldFirst(first: nat, lengths: seq<nat>, blockSize: nat, block: nat)
    requires blockSize > 0 && first <= block < first + DirBlocks(lengths, blockSize)
    ensures HoldsFirst(DirSpans(DirStarts(first, lengths, blockSize), lengths, blockSize), block, blockSize)
    decreases |lengths|
  {
    hide DivCeil, HoldsFirst;
    var k := |lengths| - 1;
    var dirs := DirStarts(first, lengths, blockSize);
    var before := DirSpans(dirs[..k], lengths[..k], blockSize);
    assert dirs[..k] == DirStarts(first, lengths[..k], blockSize);
    var last := Span(dirs[k] * blockSize, dirs[k] * blockSize + lengths[k]);
    if block < dirs[k] {
      DirsHoldFirst(first, lengths[..k], blockSize, block);
    } else {
      StretchHoldsFirst(dirs[k], lengths[k], blockSize, block);
    }
    HoldsFirstJoin(before, [last], block, blockSize);
  }

  lemma {:induction false} PayloadsHoldFirst(start: nat, payloads: seq<nat>, blockSize: nat, block: nat)
    requires blockSize > 0 && start <= block < start + PayloadBlocks(payloads)
    ensures HoldsFirst(PayloadSpans(start * blockSize, payloads, blockSize), block, blockSize)
    decreases |payloads|
  {
    hide HoldsFirst;
    var next := start + payloads[0];
    MulDistributes(start, payloads[0], blockSize);
    var head := [Span(start * blockSize, next * blockSize)];
    if block >= next {
      PayloadsHoldFirst(next, payloads[1..], blockSize, block);
    } else {
      WholeBlocks(payloads[0], blockSize);
      StretchHoldsFirst(start, payloads[0] * blockSize, blockSize, block);
    }
    HoldsFirstJoin(head, PayloadSpans(next * blockSize, payloads[1..], blockSize), block, blockSize);
  }

  lemma {:induction false} WholeBlocks(n: nat, blockSize: nat)
    requires blockSize > 0
    ensures DivCeil(n * blockSize, blockSize) == n
  {
    DivCeilUnique(n * blockSize, n, blockSize);
  }

  /** Every block behind the inodes starts inside one of the regions. */
  lemma {:induction false} RegionsHoldFirst(
    meta: nat, inodeBlocks: nat, blockSize: nat, xattrLength: nat, dirLengths: seq<nat>, payloads: seq<nat>, block: nat)
    requires blockSize > 0
    requires meta + inodeBlocks <= block < meta + inodeBlocks + BlocksBehind(blockSize, xattrLength, dirLengths, payloads)
    ensures var r := Placed(meta, inodeBlocks, blockSize, xattrLength, dirLengths);
            HoldsFirst(RegionSpans(r, blockSize, xattrLength, dirLengths, payloads), block, blockSize)
  {
    hide DivCeil, HoldsFirst, DirSpans, DirBlocks, DirStarts, PayloadSpans, PayloadBlocks;
    var start, r := meta + inodeBlocks, Placed(meta, inodeBlocks, blockSize, xattrLength, dirLengths);
    var first := start + DivCeil(xattrLength, blockSize);
    var table := if xattrLength == 0 then [] else [Span(r.xattr * blockSize, r.xattr * blockSize + xattrLength)];
    var dirs, data := DirSpans(r.dirs, dirLengths, blockSize), PayloadSpans(r.payload * blockSize, payloads, blockSize);
    NoBlocks(blockSize);
    if block < first {
      StretchHoldsFirst(start, xattrLength, blockSize, block);
    } else if block < r.payload {
      DirsHoldFirst(first, dirLengths, blockSize, block);
    } else {
      PayloadsHoldFirst(r.payload, payloads, blockSize, block);
    }
    HoldsFirstJoin(table, dirs, block, blockSize);
    HoldsFirstJoin(table + dirs, data, block, blockSize);
  }

  // ---- The whole layout ------------------------------------------------------------------------------------

  /**
   Nothing behind the inodes meets the superblock: it starts behind it, or all of it fits in front. Every operand is
   known before the layout.
   */
  predicate ClearBehind(start: nat, blockSize: nat, xattrLength: nat, dirLengths: seq<nat>, payloads: seq<nat>)
    requires blockSize > 0
  {
    || start * blockSize >= SUPER_UNTIL
    || (start + BlocksBehind(blockSize, xattrLength, dirLengths, payloads)) * blockSize <= SUPER_FROM
  }

  /** For every power of two from 512 on (any multiple of 512) that is exactly when the regions are off the superblock. */
  lemma {:induction false} BehindOffSuperIff(
    meta: nat, inodeBlocks: nat, blockSize: nat, xattrLength: nat, dirLengths: seq<nat>, payloads: seq<nat>)
    requires blockSize > 0 && blockSize % 512 == 0 && inodeBlocks > 0
    ensures var r := Placed(meta, inodeBlocks, blockSize, xattrLength, dirLengths);
            AllOffSuper(RegionSpans(r, blockSize, xattrLength, dirLengths, payloads))
            <==> ClearBehind(meta + inodeBlocks, blockSize, xattrLength, dirLengths, payloads)
  {
    hide BlocksBehind, RegionSpans, Placed;
    var start, blocks := meta + inodeBlocks, BlocksBehind(blockSize, xattrLength, dirLengths, payloads);
    var spans := RegionSpans(Placed(meta, inodeBlocks, blockSize, xattrLength, dirLengths), blockSize, xattrLength, dirLengths, payloads);
    RegionsInOrder(meta, inodeBlocks, blockSize, xattrLength, dirLengths, payloads);
    OrderedFrom(spans, start * blockSize, (start + blocks) * blockSize);
    if ClearBehind(start, blockSize, xattrLength, dirLengths, payloads) {
      OffSuperInside(spans, start * blockSize, (start + blocks) * blockSize);
    } else {
      MeetingBlock(start, blocks, blockSize);
      RegionsHoldFirst(meta, inodeBlocks, blockSize, xattrLength, dirLengths, payloads, SUPER_FROM / blockSize);
      var i :| 0 <= i < |spans| && spans[i].from <= SUPER_FROM / blockSize * blockSize < spans[i].until;
      assert !OffSuper(spans[i]);
    }
  }

  /** Otherwise the block that starts at byte 1024 is one of those behind the inodes. */
  lemma {:induction false} MeetingBlock(start: nat, blocks: nat, blockSize: nat)
    requires blockSize > 0 && blockSize % 512 == 0 && start > 0
    requires start * blockSize < SUPER_UNTIL && (start + blocks) * blockSize > SUPER_FROM
    ensures SUPER_FROM / blockSize * blockSize == SUPER_FROM && start <= SUPER_FROM / blockSize < start + blocks
  {
    MulMonotone(1, start, blockSize);
    assert blockSize == 512 || blockSize == 1024;
  }

  /** Where a block starts. */
  function ByteOf(block: nat, blockSize: nat): nat {
    block * blockSize
  }

  /** Blocks the numbered inodes take. */
  function InodeBlocks(root: Item, meta: nat, blockSize: nat): nat
    requires blockSize > 0
  {
    DivCeil(Assigned(root, 1, 1, meta, blockSize).1 * SLOT, blockSize)
  }

  function InodeSpans(root: Item, meta: nat, blockSize: nat): seq<Span> {
    TreeSpans(Assigned(root, 1, 1, meta, blockSize).0, meta * blockSize)
  }

  function BehindSpans(root: Item, meta: nat, blockSize: nat, xattrLength: nat, dirLengths: seq<nat>, payloads: seq<nat>): seq<Span>
    requires blockSize > 0
  {
    RegionSpans(Placed(meta, InodeBlocks(root, meta, blockSize), blockSize, xattrLength, dirLengths), blockSize, xattrLength,
                dirLengths, payloads)
  }

  /**
   Inodes with their areas, map headers and indexes, the xattr table, directories and payloads lie one behind the
   other, none touching another; the inodes never touch the superblock, and the rest exactly unless `ClearBehind`.
   */
  lemma {:induction false} LayoutDisjoint(
    root: Item, meta: nat, blockSize: nat, xattrLength: nat, dirLengths: seq<nat>, payloads: seq<nat>)
    requires blockSize > 0 && blockSize % 512 == 0
    requires ByteOf(meta, blockSize) + Assigned(root, 1, 1, meta, blockSize).1 * SLOT < U64_LIMIT
    ensures var start := meta + InodeBlocks(root, meta, blockSize);
            var inodes, behind := InodeSpans(root, meta, blockSize), BehindSpans(root, meta, blockSize, xattrLength, dirLengths, payloads);
            && InOrder(inodes + behind, ByteOf(meta, blockSize) + SLOT,
                       ByteOf(start + BlocksBehind(blockSize, xattrLength, dirLengths, payloads), blockSize))
            && AllOffSuper(inodes)
            && (AllOffSuper(behind) <==> ClearBehind(start, blockSize, xattrLength, dirLengths, payloads))
  {
    hide DivCeil, Assigned, TreeSpans, RegionSpans, Placed, BlocksBehind, ClearBehind, AllOffSuper, InOrder;
    var a, base := Assigned(root, 1, 1, meta, blockSize), meta * blockSize;
    var inodeBlocks := InodeBlocks(root, meta, blockSize);
    var start, end := (meta + inodeBlocks) * blockSize,
                      (meta + inodeBlocks + BlocksBehind(blockSize, xattrLength, dirLengths, payloads)) * blockSize;
    Multiple512(blockSize);
    MultipleOf8(meta, blockSize);
    TreeInOrder(root, 1, 1, meta, blockSize, base);
    TreeOffSuper(root, 1, 1, meta, blockSize);
    SomeInodeBlock(root, meta, blockSize);
    RegionsInOrder(meta, inodeBlocks, blockSize, xattrLength, dirLengths, payloads);
    BehindOffSuperIff(meta, inodeBlocks, blockSize, xattrLength, dirLengths, payloads);
    DivCeilMeaning(a.1 * SLOT, blockSize);
    MulDistributes(meta, inodeBlocks, blockSize);
    OrderedWider(TreeSpans(a.0, base), base + SLOT, base + a.1 * SLOT, base + SLOT, start);
    OrderedJoin(TreeSpans(a.0, base), BehindSpans(root, meta, blockSize, xattrLength, dirLengths, payloads), base + SLOT, start, end);
  }

  lemma {:induction false} Multiple512(blockSize: nat)
    requires blockSize % 512 == 0
    ensures blockSize % 8 == 0
  {
    ModKeepsRest(blockSize, 512, 8);
  }

  lemma {:induction false} SomeInodeBlock(root: Item, meta: nat, blockSize: nat)
    requires blockSize > 0
    ensures InodeBlocks(root, meta, blockSize) > 0
  {
    hide Assigned, DivCeil;
    NextGrows(root, meta, blockSize);
    DivCeilAtMost(Assigned(root, 1, 1, meta, blockSize).1 * SLOT, 0, blockSize);
  }

  /** Blocks of at least 1152 bytes always put it behind: the root alone takes a block. */
  lemma {:induction false} LargeBlocksSuffice(root: Item, meta: nat, blockSize: nat)
    requires blockSize >= SUPER_UNTIL
    ensures (meta + InodeBlocks(root, meta, blockSize)) * blockSize >= SUPER_UNTIL
  {
    hide InodeBlocks;
    SomeInodeBlock(root, meta, blockSize);
    MulMonotone(1, meta + InodeBlocks(root, meta, blockSize), blockSize);
  }

  lemma {:induction false} NextGrows(root: Item, meta: nat, blockSize: nat)
    ensures Assigned(root, 1, 1, meta, blockSize).1 >= 1
  {
    hide Assigned;
    TreeInOrder(root, 1, 1, meta, blockSize, 0);
  }

  // ---- Small blocks ----------------------------------------------------------------------------------------

  const BARE: Info := Info([], 0, 0, 0, [], [])
  const LONE_ROOT: Item := Item(0, 0, false, 0, BARE, [])
  const SMALL_FILE: Item := Item(0, 0, false, 1, BARE, [])
  const ROOT_WITH_FILE: Item := Item(0, 0, false, 0, BARE, [SMALL_FILE])

  /** 1 KiB blocks, inodes from block 0 on and a lone root: its directory starts at byte 1024. */
  lemma {:induction false} SmallBlocksMeetSuper(length: nat)
    requires length > 0
    ensures !AllOffSuper(BehindSpans(LONE_ROOT, 0, 1024, 0, [length], []))
  {
    hide RegionSpans, Placed;
    LoneRoot(1024);
    DivCeilUnique(64, 1, 1024);
    OneDirectory(length, 1024);
    hide DivCeil, DirBlocks, AllOffSuper;
    BehindOffSuperIff(0, 1, 1024, 0, [length], []);
  }

  /** 512-byte blocks, inodes from block 0 on and a lone root: its directory of 27 bytes is in front of the superblock. */
  lemma {:induction false} LoneRootIsClear()
    ensures AllOffSuper(BehindSpans(LONE_ROOT, 0, 512, 0, [27], []))
  {
    hide RegionSpans, Placed;
    LoneRoot(512);
    DivCeilUnique(64, 1, 512);
    OneDirectory(27, 512);
    DivCeilUnique(27, 1, 512);
    hide DivCeil, DirBlocks, AllOffSuper;
    BehindOffSuperIff(0, 1, 512, 0, [27], []);
  }

  /** With a compressed file of one cluster in it, the directory of 40 bytes still is, but the payload is at byte 1024. */
  lemma {:induction false} PayloadMeetsSuper()
    ensures !AllOffSuper(BehindSpans(ROOT_WITH_FILE, 0, 512, 0, [40], [1]))
    ensures AllOffSuper(BehindSpans(ROOT_WITH_FILE, 0, 512, 0, [40], []))
  {
    hide RegionSpans, Placed;
    RootWithFile();
    DivCeilUnique(128, 1, 512);
    OneDirectory(40, 512);
    DivCeilUnique(40, 1, 512);
    assert PayloadBlocks([1]) == 1 + PayloadBlocks([]);
    hide DivCeil, DirBlocks, AllOffSuper, Assigned;
    BehindOffSuperIff(0, 1, 512, 0, [40], [1]);
    BehindOffSuperIff(0, 1, 512, 0, [40], []);
  }

  /** So does a root directory of more than a block. */
  lemma {:induction false} LongDirectoryMeetsSuper(length: nat)
    requires length > 512
    ensures !AllOffSuper(BehindSpans(LONE_ROOT, 0, 512, 0, [length], []))
  {
    hide RegionSpans, Placed;
    LoneRoot(512);
    DivCeilUnique(64, 1, 512);
    OneDirectory(length, 512);
    DivCeilAtMost(length, 1, 512);
    hide DivCeil, DirBlocks, AllOffSuper;
    BehindOffSuperIff(0, 1, 512, 0, [length], []);
  }

  lemma {:induction false} LoneRoot(blockSize: nat)
    requires blockSize > 0
    ensures Assigned(LONE_ROOT, 1, 1, 0, blockSize).1 == 2
  {
    assert MayStart(1, 0, blockSize, 1);
    assert FirstClear(1, 0, blockSize, 1) == 1;
    assert AssignedAll([], 2, 1, 0, blockSize).1 == 2;
  }

  /** A root in slot 1 and a file of one cluster, whose inode, map header and index take slots 2 and 3. */
  lemma {:induction false} RootWithFile()
    ensures Assigned(ROOT_WITH_FILE, 1, 1, 0, 512).1 == 4
  {
    assert Slots(SMALL_FILE) == 2 by {
      DivCeilUnique(48, 2, SLOT);
    }
    assert MayStart(1, 0, 512, 1) && FirstClear(1, 0, 512, 1) == 1;
    assert MayStart(2, 0, 512, 2) && FirstClear(2, 0, 512, 2) == 2;
    assert AssignedAll([], 4, 2, 0, 512).1 == 4;
    assert Assigned(SMALL_FILE, 2, 1, 0, 512).1 == 4;
    assert [SMALL_FILE][1..] == [];
    assert AssignedAll([SMALL_FILE], 2, 1, 0, 512).1 == 4;
  }

  lemma {:induction false} OneDirectory(length: nat, blockSize: nat)
    requires blockSize > 0
    ensures DirBlocks([length], blockSize) == DivCeil(length, blockSize) && DivCeil(0, blockSize) == 0
    ensures length > 0 ==> DivCeil(length, blockSize) > 0
  {
    hide DivCeil;
    NoBlocks(blockSize);
    DivCeilAtMost(length, 0, blockSize);
    assert [length][..0] == [];
  }
}
