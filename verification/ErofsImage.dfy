/** A compressed EROFS image as a whole: its parts written piece by piece, and the superblock last. */
module ErofsImage {
  import opened Core
  import opened Arith
  import opened OutFile
  import opened Bitmaps
  import opened CompactFormat
  import opened Spans
  import opened ErofsLayout
  import opened ErofsPieces
  import W = CompactWriter
  import D = ErofsDir

  // ---- Writing piece by piece ------------------------------------------------------------------------------

  /** The first `k` pieces are on the image. */
  ghost predicate Intact(content: bytes, p: Plan, k: nat)
    requires p.blockSize > 0 && k <= PieceCount(p)
  {
    forall j :: 0 <= j < k ==> OnImage(content, p, j)
  }

  predicate OnImage(content: bytes, p: Plan, j: nat)
    requires p.blockSize > 0 && j < PieceCount(p)
  {
    Carries(content, PieceOf(p, PartAt(p, j)).at, PieceOf(p, PartAt(p, j)).data)
  }

  lemma {:induction false} IndexesApart(p: Plan, j: nat, k: nat)
    requires Laid(p) && j < PieceCount(p) && k < PieceCount(p) && j != k
    ensures PiecesApart(PieceOf(p, PartAt(p, j)), PieceOf(p, PartAt(p, k)))
  {
    hide PieceOf, Laid, PiecesApart;
    PartsDiffer(p, j, k);
    PartsApart(p, PartAt(p, j), PartAt(p, k));
  }

  /** Writing the next piece. */
  lemma {:induction false} PutPiece(content: bytes, p: Plan, k: nat)
    requires Laid(p) && k < PieceCount(p) && Intact(content, p, k)
    ensures var piece := PieceOf(p, PartAt(p, k));
            Intact(Overwrite(content, piece.at, piece.data), p, k + 1)
  {
    hide PieceOf, PartAt, PieceCount, Laid, Overwrite, Carries;
    LaidBlocks(p);
    var piece := PieceOf(p, PartAt(p, k));
    var after := Overwrite(content, piece.at, piece.data);
    forall j | 0 <= j < k
      ensures OnImage(after, p, j)
    {
      assert OnImage(content, p, j);
      IndexesApart(p, j, k);
      KeptPiece(content, PieceOf(p, PartAt(p, j)), piece);
    }
    CarriesNothing(content, piece.at);
    var none: bytes := [];
    CarriesMore(content, piece.at, none, piece.data);
    assert none + piece.data == piece.data;
  }

  lemma {:induction false} CarriesNothing(content: bytes, at: nat)
    ensures Carries(content, at, [])
  {
  }

  lemma {:induction false} KeptPiece(content: bytes, a: Piece, b: Piece)
    requires Carries(content, a.at, a.data) && PiecesApart(a, b)
    ensures Carries(Overwrite(content, b.at, b.data), a.at, a.data)
  {
    if a.data != [] && b.data != [] {
      CarriesElsewhere(content, b.at, b.data, a.at, a.data);
    }
  }

  /** A piece the node does not have. */
  lemma {:induction false} NoPiece(content: bytes, p: Plan, k: nat)
    requires Laid(p) && k < PieceCount(p) && Intact(content, p, k)
    requires PieceOf(p, PartAt(p, k)).data == []
    ensures Intact(content, p, k + 1)
  {
    hide PieceOf, PartAt, Laid;
  }

  /** What a streamed file leaves alone. */
  lemma {:induction false} StreamKeeps(
    before: bytes, after: bytes, ps: seq<W.Pcluster>, blockSize: nat, first: nat, indexAt: nat, payloadAt: nat, at: nat, part: bytes)
    requires W.AllPacked(ps, blockSize) && W.Streamed(before, after, ps, blockSize, first, indexAt, payloadAt)
    requires Carries(before, at, part)
    requires var index, payload := W.EncodedIndex(ps, first), W.Payloads(ps, blockSize);
             && (part == [] || index == [] || at + |part| <= indexAt || indexAt + |index| <= at)
             && (part == [] || payload == [] || at + |part| <= payloadAt || payloadAt + |payload| <= at)
    ensures Carries(after, at, part)
  {
    hide W.EncodedIndex, W.Payloads, W.AllPacked, Carries;
    if part != [] {
      CarriesBytes(before, at, part);
      forall i | 0 <= i < |part|
        ensures at + i < |after| && after[at + i] == part[i]
      {
        assert ByteAt(after, at + i) == ByteAt(before, at + i);
      }
      BytesCarried(after, at, part);
    } else {
      CarriesNothing(after, at);
    }
  }

  lemma {:induction false} CarriesBytes(content: bytes, at: nat, part: bytes)
    requires part != [] && Carries(content, at, part)
    ensures at + |part| <= |content| && forall i :: 0 <= i < |part| ==> content[at + i] == part[i]
  {
    forall i | 0 <= i < |part|
      ensures content[at + i] == part[i]
    {
      assert part[i] == content[at..at + |part|][i];
    }
  }

  lemma {:induction false} BytesCarried(content: bytes, at: nat, part: bytes)
    requires at + |part| <= |content| && forall i :: 0 <= i < |part| ==> content[at + i] == part[i]
    ensures Carries(content, at, part)
  {
  }

  /** The index and payload of node `i`, behind its map header. */
  lemma {:induction false} PutStream(before: bytes, after: bytes, p: Plan, i: nat)
    requires Laid(p) && i < |p.list| && p.list[i].clusters > 0
    requires var k := 2 + 2 * |p.list| + 3 * i;
             k <= PieceCount(p) && Intact(before, p, k)
    requires var ps := Pclusters(p.list[i], p);
             && W.AllPacked(ps, p.blockSize)
             && W.Streamed(before, after, ps, p.blockSize, PayloadBlock(p, i), DataAt(p, p.list[i]) + MAP_HEADER,
                           ByteOf(PayloadBlock(p, i), p.blockSize))
    ensures Intact(after, p, 4 + 2 * |p.list| + 3 * i)
  {
    hide *;
    LaidBlocks(p);
    var k, ps := 2 + 2 * |p.list| + 3 * i, Pclusters(p.list[i], p);
    StreamParts(p, i);
    var index, payload := PieceOf(p, Index(i)), PieceOf(p, Payload(i));
    forall j | 0 <= j < k
      ensures OnImage(after, p, j)
    {
      WasThere(before, p, k, j);
      IndexesApart(p, j, k);
      IndexesApart(p, j, k + 1);
      PieceStreamed(before, after, ps, p.blockSize, PayloadBlock(p, i), index, payload, PieceOf(p, PartAt(p, j)));
      NowThere(after, p, j);
    }
    StreamPieces(before, after, ps, p.blockSize, PayloadBlock(p, i), index, payload);
    NowThere(after, p, k);
    NowThere(after, p, k + 1);
    AllThere(after, p, k + 2);
  }

  lemma {:induction false} WasThere(content: bytes, p: Plan, k: nat, j: nat)
    requires p.blockSize > 0 && j < k <= PieceCount(p) && Intact(content, p, k)
    ensures var piece := PieceOf(p, PartAt(p, j)); Carries(content, piece.at, piece.data)
  {
    hide PieceOf, PartAt, Carries;
    assert OnImage(content, p, j);
  }

  lemma {:induction false} NowThere(content: bytes, p: Plan, j: nat)
    requires p.blockSize > 0 && j < PieceCount(p)
    requires var piece := PieceOf(p, PartAt(p, j)); Carries(content, piece.at, piece.data)
    ensures OnImage(content, p, j)
  {
    hide PieceOf, PartAt, Carries;
  }

  lemma {:induction false} AllThere(content: bytes, p: Plan, k: nat)
    requires p.blockSize > 0 && k <= PieceCount(p) && forall j :: 0 <= j < k ==> OnImage(content, p, j)
    ensures Intact(content, p, k)
  {
    hide OnImage;
  }

  lemma {:induction false} PieceStreamed(
    before: bytes, after: bytes, ps: seq<W.Pcluster>, blockSize: nat, first: nat, index: Piece, payload: Piece, piece: Piece)
    requires W.AllPacked(ps, blockSize) && W.Streamed(before, after, ps, blockSize, first, index.at, payload.at)
    requires index.data == W.EncodedIndex(ps, first) && payload.data == W.Payloads(ps, blockSize)
    requires Carries(before, piece.at, piece.data) && PiecesApart(piece, index) && PiecesApart(piece, payload)
    ensures Carries(after, piece.at, piece.data)
  {
    hide W.AllPacked, W.Streamed, W.EncodedIndex, W.Payloads, Carries;
    StreamKeeps(before, after, ps, blockSize, first, index.at, payload.at, piece.at, piece.data);
  }

  lemma {:induction false} StreamPieces(
    before: bytes, after: bytes, ps: seq<W.Pcluster>, blockSize: nat, first: nat, index: Piece, payload: Piece)
    requires W.AllPacked(ps, blockSize) && W.Streamed(before, after, ps, blockSize, first, index.at, payload.at)
    requires index.data == W.EncodedIndex(ps, first) && payload.data == W.Payloads(ps, blockSize)
    ensures Carries(after, index.at, index.data) && Carries(after, payload.at, payload.data)
  {
    hide W.AllPacked, W.EncodedIndex, W.Payloads, Carries;
  }

  lemma {:induction false} StreamParts(p: Plan, i: nat)
    requires p.blockSize > 0 && i < |p.list| && p.list[i].clusters > 0 && W.AllPacked(Pclusters(p.list[i], p), p.blockSize)
    ensures var k, ps := 2 + 2 * |p.list| + 3 * i, Pclusters(p.list[i], p);
            && k + 1 < PieceCount(p) && PartAt(p, k) == Index(i) && PartAt(p, k + 1) == Payload(i)
            && PieceOf(p, Index(i)) == Piece(DataAt(p, p.list[i]) + MAP_HEADER, W.EncodedIndex(ps, PayloadBlock(p, i)))
            && PieceOf(p, Payload(i)) == Piece(ByteOf(PayloadBlock(p, i), p.blockSize), W.Payloads(ps, p.blockSize))
  {
    hide Pclusters, DataAt, PayloadBlock, ByteOf, W.EncodedIndex, W.Payloads, W.AllPacked;
    PartOrder(p, i);
  }

  /** Where the parts of node `i` stand in the order. */
  lemma {:induction false} PartOrder(p: Plan, i: nat)
    requires i < |p.list|
    ensures var n, k := |p.list|, 1 + 2 * |p.list| + 3 * i;
            && k + 2 < PieceCount(p)
            && PartAt(p, 1 + i) == Inode(i) && PartAt(p, 1 + n + i) == Directory(i)
            && PartAt(p, k) == Header(i) && PartAt(p, k + 1) == Index(i) && PartAt(p, k + 2) == Payload(i)
  {
    assert (3 * i) / 3 == i && (3 * i + 1) / 3 == i && (3 * i + 2) / 3 == i;
  }

  // ---- Numbering fits 64 bits ------------------------------------------------------------------------------

  /** Numbers that directory entries of a node carry. */
  predicate NumbersBelow(n: Item, limit: nat) {
    0 < n.nid < limit && 0 < n.parent < limit && forall i :: 0 <= i < |n.children| ==> 0 < n.children[i].nid < limit
  }

  lemma {:induction false} NumberedBelow(n: Item, next: nat, parent: nat, meta: nat, blockSize: nat)
    requires 0 < parent <= next
    ensures var r := Assigned(n, next, parent, meta, blockSize);
            && next < r.1 && 0 < r.0.nid < r.1
            && forall m :: m in Preorder(r.0) ==> NumbersBelow(m, r.1)
    decreases n
  {
    hide FirstClear, Slots;
    var nid := FirstClear(next, meta, blockSize, Slots(n));
    AllNumberedBelow(n.children, nid + Slots(n), nid, meta, blockSize);
  }

  lemma {:induction false} AllNumberedBelow(nodes: seq<Item>, next: nat, parent: nat, meta: nat, blockSize: nat)
    requires 0 < parent <= next
    ensures var r := AssignedAll(nodes, next, parent, meta, blockSize);
            && next <= r.1
            && (forall i :: 0 <= i < |r.0| ==> 0 < r.0[i].nid < r.1)
            && forall m :: m in PreorderAll(r.0) ==> NumbersBelow(m, r.1)
    decreases nodes
  {
    hide Assigned, Preorder, NumbersBelow;
    if nodes != [] {
      var first := Assigned(nodes[0], next, parent, meta, blockSize);
      var rest := AssignedAll(nodes[1..], first.1, parent, meta, blockSize);
      NumberedBelow(nodes[0], next, parent, meta, blockSize);
      AllNumberedBelow(nodes[1..], first.1, parent, meta, blockSize);
      var r := [first.0] + rest.0;
      assert r[1..] == rest.0;
      forall m | m in PreorderAll(r)
        ensures NumbersBelow(m, rest.1)
      {
        if m in Preorder(first.0) {
          BelowMore(m, first.1, rest.1);
        }
      }
    }
  }

  lemma {:induction false} BelowMore(n: Item, limit: nat, more: nat)
    requires NumbersBelow(n, limit) && limit <= more
    ensures NumbersBelow(n, more)
  {
  }

  lemma {:induction false} EntriesBelow(n: Item)
    requires NumbersBelow(n, U64_LIMIT)
    ensures D.EntriesFit(DirEntries(n))
  {
  }

  // ---- Directories -----------------------------------------------------------------------------------------

  /** The directories among the nodes, serialised. */
  function DirDatas(l: seq<Item>, blockSize: nat): (d: seq<bytes>)
    ensures |d| == |DirLengths(l, blockSize)|
    decreases |l|
  {
    if l == [] then []
    else
      var k := |l| - 1;
      DirDatas(l[..k], blockSize) + if IsDir(l[k]) then [DirData(l[k], blockSize)] else []
  }

  /** How many directories come before node `i`. */
  function DirsBefore(l: seq<Item>, i: nat, blockSize: nat): nat
    requires i <= |l|
  {
    |DirLengths(l[..i], blockSize)|
  }

  /** The serialised directories of a list start with those of its beginning. */
  lemma {:induction false} DirsPrefix(l: seq<Item>, i: nat, blockSize: nat)
    requires i <= |l|
    ensures DirLengths(l[..i], blockSize) <= DirLengths(l, blockSize)
    ensures DirDatas(l[..i], blockSize) <= DirDatas(l, blockSize)
    decreases |l|
  {
    hide DirData, IsDir;
    if i == |l| {
      assert l[..i] == l;
    } else {
      var k := |l| - 1;
      assert l[..k][..i] == l[..i];
      DirsPrefix(l[..k], i, blockSize);
    }
  }

  /** Where node `i` finds its directory. */
  lemma {:induction false} DirOfNode(l: seq<Item>, i: nat, blockSize: nat)
    requires i < |l| && IsDir(l[i])
    ensures var d := DirsBefore(l, i, blockSize);
            && d < |DirLengths(l, blockSize)| && DirsBefore(l, i + 1, blockSize) == d + 1
            && DirDatas(l, blockSize)[d] == DirData(l[i], blockSize)
            && DirLengths(l, blockSize)[..d] == DirLengths(l[..i], blockSize)
            && DirLengths(l, blockSize)[d] == |DirData(l[i], blockSize)|
  {
    hide DirData;
    var here := l[..i + 1];
    assert here[..i] == l[..i] && here[i] == l[i];
    DirsPrefix(l, i, blockSize);
    DirsPrefix(l, i + 1, blockSize);
    assert DirDatas(here, blockSize) == DirDatas(l[..i], blockSize) + [DirData(l[i], blockSize)];
    assert DirLengths(here, blockSize) == DirLengths(l[..i], blockSize) + [|DirData(l[i], blockSize)|];
  }

  lemma {:induction false} NotADir(l: seq<Item>, i: nat, blockSize: nat)
    requires i < |l| && !IsDir(l[i])
    ensures DirsBefore(l, i + 1, blockSize) == DirsBefore(l, i, blockSize)
  {
    hide DirData;
    assert l[..i + 1][..i] == l[..i];
  }

  /** The start block of directory `d` in the layout. */
  lemma {:induction false} DirStartsAt(first: nat, lengths: seq<nat>, blockSize: nat, d: nat)
    requires blockSize > 0 && d < |lengths|
    ensures DirStarts(first, lengths, blockSize)[d] == first + DirBlocks(lengths[..d], blockSize)
    decreases |lengths|
  {
    var k := |lengths| - 1;
    if d < k {
      DirStartsAt(first, lengths[..k], blockSize, d);
      assert lengths[..k][..d] == lengths[..d];
    }
  }

  /** Some entry of a directory does not fit a block by itself. */
  predicate TooLong(n: Item, blockSize: nat) {
    IsDir(n) && exists k :: 0 <= k < |DirEntries(n)| && D.RECORD + |DirEntries(n)[k].name| > blockSize
  }

  lemma {:induction false} EmptyIffTooLong(n: Item, blockSize: nat)
    requires D.DirBlock(blockSize) && NumbersBelow(n, U64_LIMIT) && IsDir(n)
    ensures DirData(n, blockSize) == [] <==> TooLong(n, blockSize)
  {
    hide IsDir, D.Pack, DirEntries;
    EntriesBelow(n);
    D.PackFailsIff(DirEntries(n), 0, blockSize);
    SomeEntries(n);
    D.PackNotEmpty(DirEntries(n), blockSize);
  }

  lemma {:induction false} SomeEntries(n: Item)
    ensures DirEntries(n) != []
  {
  }

  /** Some length is zero exactly when some directory has an entry that is too long. */
  lemma {:induction false} ZeroLengthIff(l: seq<Item>, blockSize: nat)
    requires D.DirBlock(blockSize) && forall i :: 0 <= i < |l| ==> NumbersBelow(l[i], U64_LIMIT)
    ensures (exists d :: 0 <= d < |DirLengths(l, blockSize)| && DirLengths(l, blockSize)[d] == 0)
       <==> exists i :: 0 <= i < |l| && TooLong(l[i], blockSize)
    decreases |l|
  {
    hide DirData, TooLong, D.DirBlock, NumbersBelow;
    if l != [] {
      var k := |l| - 1;
      var before, all := DirLengths(l[..k], blockSize), DirLengths(l, blockSize);
      ZeroLengthIff(l[..k], blockSize);
      if IsDir(l[k]) {
        EmptyIffTooLong(l[k], blockSize);
        assert all == before + [|DirData(l[k], blockSize)|];
        assert all[|before|] == |DirData(l[k], blockSize)|;
      } else {
        OnlyDirsTooLong(l[k], blockSize);
        assert all == before;
      }
      assert forall d :: 0 <= d < |before| ==> all[d] == before[d];
      assert forall i :: 0 <= i < k ==> l[..k][i] == l[i];
    }
  }

  lemma {:induction false} OnlyDirsTooLong(n: Item, blockSize: nat)
    requires !IsDir(n)
    ensures !TooLong(n, blockSize)
  {
  }

  /** Serialises every directory, in preorder. */
  method CollectDirectories(list: seq<Item>, blockSize: nat) returns (datas: seq<bytes>, lengths: seq<nat>)
    requires D.DirBlock(blockSize) && forall i :: 0 <= i < |list| ==> NumbersBelow(list[i], U64_LIMIT)
    ensures datas == DirDatas(list, blockSize) && lengths == DirLengths(list, blockSize)
  {
    hide IsDir, D.DirBlock, NumbersBelow, DirEntries, D.DirectoryBytes;
    datas, lengths := [], [];
    for i := 0 to |list|
      invariant datas == DirDatas(list[..i], blockSize) && lengths == DirLengths(list[..i], blockSize)
    {
      assert list[..i + 1][..i] == list[..i];
      if IsDir(list[i]) {
        EntriesBelow(list[i]);
        var data := D.WriteDirectory(DirEntries(list[i]), blockSize);
        datas, lengths := datas + [data], lengths + [|data|];
      } else {
        assert datas + [] == datas && lengths + [] == lengths;
      }
    }
    assert list[..|list|] == list;
  }

  // ---- The finished image ----------------------------------------------------------------------------------

  datatype BuildError = NumberOverflow | DirectoryUnfit | FileTooLarge

  /** What a tree brings along: an xattr area exactly with a context, and 16-bit modes. */
  predicate Ready(n: Item)
    decreases n
  {
    |n.info.area| == AreaLength(n) && n.info.mode < U16_LIMIT && AllReady(n.children)
  }

  predicate AllReady(nodes: seq<Item>)
    decreases nodes
  {
    nodes == [] || (Ready(nodes[0]) && AllReady(nodes[1..]))
  }

  /** `mark_compressed`: every non-empty file is compressed. */
  function Marked(n: Item, blockSize: nat): Item
    requires blockSize > 0
    decreases n
  {
    n.(clusters := if IsDir(n) then 0 else DivCeil(|n.info.content|, blockSize), children := AllMarked(n.children, blockSize))
  }

  function AllMarked(nodes: seq<Item>, blockSize: nat): (r: seq<Item>)
    requires blockSize > 0
    ensures |r| == |nodes|
    decreases nodes
  {
    if nodes == [] then [] else [Marked(nodes[0], blockSize)] + AllMarked(nodes[1..], blockSize)
  }

  /** The numbered nodes of a marked tree have their shape. */
  lemma {:induction false} MarkedShape(n: Item, next: nat, parent: nat, meta: nat, blockSize: nat)
    requires blockSize > 0 && next > 0 && Ready(n)
    ensures var r := Assigned(Marked(n, blockSize), next, parent, meta, blockSize);
            next <= r.1 && forall m :: m in Preorder(r.0) ==> Shaped(m, blockSize)
    decreases n
  {
    hide FirstClear, Slots, DivCeil;
    var own := Marked(n, blockSize);
    var nid := FirstClear(next, meta, blockSize, Slots(own));
    AllMarkedShape(n.children, nid + Slots(own), nid, meta, blockSize);
  }

  lemma {:induction false} AllMarkedShape(nodes: seq<Item>, next: nat, parent: nat, meta: nat, blockSize: nat)
    requires blockSize > 0 && next > 0 && AllReady(nodes)
    ensures var r := AssignedAll(AllMarked(nodes, blockSize), next, parent, meta, blockSize);
            next <= r.1 && forall m :: m in PreorderAll(r.0) ==> Shaped(m, blockSize)
    decreases nodes
  {
    hide Assigned, Marked, Preorder, Shaped, Ready;
    if nodes != [] {
      var all := AllMarked(nodes, blockSize);
      var first := Assigned(all[0], next, parent, meta, blockSize);
      assert all[1..] == AllMarked(nodes[1..], blockSize);
      MarkedShape(nodes[0], next, parent, meta, blockSize);
      AllMarkedShape(nodes[1..], first.1, parent, meta, blockSize);
      var rest := AssignedAll(all[1..], first.1, parent, meta, blockSize);
      assert ([first.0] + rest.0)[1..] == rest.0;
    }
  }

  function PlanOf(root: Item, meta: nat, blockSize: nat, xattr: bytes, algo: W.Algo, algorithm: byte): Plan
    requires blockSize > 0
  {
    var a := Assigned(Marked(root, blockSize), 1, 1, meta, blockSize);
    Plan(Preorder(a.0), a.1, meta, blockSize, xattr, algo, algorithm)
  }

  lemma {:induction false} PlanLaid(root: Item, meta: nat, blockSize: nat, xattr: bytes, algo: W.Algo, algorithm: byte)
    requires blockSize > 0 && blockSize % 512 == 0 && Ready(root)
    ensures Laid(PlanOf(root, meta, blockSize, xattr, algo, algorithm))
    ensures var p := PlanOf(root, meta, blockSize, xattr, algo, algorithm);
            forall i :: 0 <= i < |p.list| ==> NumbersBelow(p.list[i], p.next)
  {
    hide Assigned, Marked, Preorder, Shaped, NumbersBelow, InOrder;
    RangesInOrder(Marked(root, blockSize), 1, 1, meta, blockSize);
    MarkedShape(root, 1, 1, meta, blockSize);
    NumberedBelow(Marked(root, blockSize), 1, 1, meta, blockSize);
  }

  /** Clusters of all files. */
  function ClusterTotal(l: seq<Item>): nat
    decreases |l|
  {
    if l == [] then 0 else ClusterTotal(l[..|l| - 1]) + l[|l| - 1].clusters
  }

  /** Blocks the image would take if nothing compressed do not fit 32 bits. */
  predicate TooWide(p: Plan)
    requires p.blockSize > 0
  {
    DirBlock(p, |p.list|) + ClusterTotal(p.list) >= U32_LIMIT
  }

  lemma {:induction false} PayloadsWithin(p: Plan, i: nat)
    requires Laid(p) && i <= |p.list|
    ensures PayloadBlock(p, i) <= DirBlock(p, |p.list|) + ClusterTotal(p.list[..i])
    decreases i
  {
    hide *;
    LaidBlocks(p);
    if i == 0 {
      NoPayloadYet(p);
    } else {
      PayloadsWithin(p, i - 1);
      PayloadBlockStep(p, i - 1);
      ClusterTotalStep(p.list, i - 1);
      if p.list[i - 1].clusters > 0 {
        IndexPieceLength(p, i - 1);
      }
    }
  }

  lemma {:induction false} NoPayloadYet(p: Plan)
    requires p.blockSize > 0
    ensures PayloadBlock(p, 0) == DirBlock(p, |p.list|)
  {
    hide DirBlock;
    assert p.list[..0] == [];
  }

  lemma {:induction false} ClusterTotalStep(l: seq<Item>, i: nat)
    requires i < |l|
    ensures ClusterTotal(l[..i + 1]) == ClusterTotal(l[..i]) + l[i].clusters
    ensures ClusterTotal(l[..i + 1]) <= ClusterTotal(l)
    decreases |l|
  {
    assert l[..i + 1][..i] == l[..i];
    if i + 1 == |l| {
      assert l[..i + 1] == l;
    } else {
      var k := |l| - 1;
      assert l[..k][..i + 1] == l[..i + 1] && l[..k][..i] == l[..i];
      ClusterTotalStep(l[..k], i);
    }
  }

  lemma {:induction false} StartBehindSlots(p: Plan)
    requires Laid(p)
    ensures StartBlock(p) > 0 && ByteOf(p.meta, p.blockSize) + p.next * SLOT <= ByteOf(StartBlock(p), p.blockSize)
  {
    hide InOrder, Shaped, Slots, DivCeil;
    OrderedFrom(SlotRanges(p.list), 1, p.next);
    DivCeilMeaning(p.next * SLOT, p.blockSize);
    DivCeilAtMost(p.next * SLOT, 0, p.blockSize);
    MulDistributes(p.meta, DivCeil(p.next * SLOT, p.blockSize), p.blockSize);
  }

  lemma {:induction false} NarrowMeans(p: Plan)
    requires p.blockSize > 0 && !TooWide(p)
    ensures DirBlock(p, |p.list|) + ClusterTotal(p.list) < U32_LIMIT
  {
    hide DirBlock, ClusterTotal;
  }

  lemma {:induction false} EndIs(p: Plan)
    requires p.blockSize > 0
    ensures EndBlock(p) == PayloadBlock(p, |p.list|)
  {
    hide PayloadBlock;
  }

  /** Every block number of an image that is not too wide fits 32 bits, even were its files not compressed. */
  lemma {:induction false} NumbersFit(p: Plan, i: nat)
    requires Laid(p) && i < |p.list| && !TooWide(p)
    ensures DirBlock(p, i) <= PayloadBlock(p, i) && PayloadBlock(p, i) + p.list[i].clusters < U32_LIMIT
    ensures 0 < StartBlock(p) <= DirBlock(p, i) && EndBlock(p) < U32_LIMIT
    ensures ByteOf(p.meta, p.blockSize) + p.next * SLOT <= ByteOf(StartBlock(p), p.blockSize)
  {
    hide *;
    LaidBlocks(p);
    var n := |p.list|;
    PayloadsWithin(p, i);
    ClusterTotalStep(p.list, i);
    PayloadsWithin(p, n);
    assert p.list[..n] == p.list;
    DirBlocksRise(p, i, n);
    PayloadBlocksRise(p, i, n);
    StartFirst(p);
    StartBehindSlots(p);
    NarrowMeans(p);
    EndIs(p);
  }

  /** The superblock of a finished image. */
  function SuperOf(p: Plan, bits: nat, labels: Labels): (b: bytes)
    requires p.blockSize > 0 && p.list != [] && |labels.volume| == 16
    ensures |b| == SUPER_BYTES
  {
    SuperBytes(bits, p.list[0].nid, |p.list|, labels, EndBlock(p), p.meta, if p.xattr == [] then 0 else StartBlock(p))
  }

  /**
   A finished image ends behind the last payload. Whatever reaches behind byte 1152 has its superblock, and everything
   else is there when nothing but slots comes in front of it.
   */
  ghost predicate Built(content: bytes, p: Plan, bits: nat, labels: Labels)
    requires p.blockSize > 0 && p.list != [] && |labels.volume| == 16
  {
    && |content| == ByteOf(EndBlock(p), p.blockSize)
    && (ByteOf(EndBlock(p), p.blockSize) >= SUPER_UNTIL ==> HasAt(content, SUPER_FROM, SuperOf(p, bits, labels)))
    && (ByteOf(StartBlock(p), p.blockSize) >= SUPER_UNTIL ==> Intact(content, p, PieceCount(p)))
  }

  // ---- The superblock is written last ----------------------------------------------------------------------

  predicate PieceOffSuper(piece: Piece) {
    piece.data == [] || piece.at + |piece.data| <= SUPER_FROM || SUPER_UNTIL <= piece.at
  }

  /** No piece meets the superblock when the first block behind the inodes does not start in front of its end. */
  lemma {:induction false} PiecesOffSuper(
    root: Item, meta: nat, blockSize: nat, xattr: bytes, algo: W.Algo, algorithm: byte, part: Part)
    requires blockSize > 0 && Laid(PlanOf(root, meta, blockSize, xattr, algo, algorithm))
    requires var p := PlanOf(root, meta, blockSize, xattr, algo, algorithm);
             && (part.Table? || part.node < |p.list|)
             && ByteOf(StartBlock(p), blockSize) >= SUPER_UNTIL
             && ByteOf(meta, blockSize) + p.next * SLOT < U64_LIMIT
    ensures PieceOffSuper(PieceOf(PlanOf(root, meta, blockSize, xattr, algo, algorithm), part))
  {
    var p := PlanOf(root, meta, blockSize, xattr, algo, algorithm);
    if ZoneClass(part) > 0 {
      BehindOff(p, part);
    } else {
      var a := Assigned(Marked(root, blockSize), 1, 1, meta, blockSize);
      LaidBlocks(p);
      Multiple512(blockSize);
      TreeOffSuper(Marked(root, blockSize), 1, 1, meta, blockSize);
      SlotPartSpan(p, part, meta * blockSize);
      hide *;
      var n, s := p.list[part.node], PartSpan(p, part);
      if s in NodeSpans(n, meta * blockSize) {
        NodeInTree(a.0, meta * blockSize, n, s);
        MemberOff(TreeSpans(a.0, meta * blockSize), s);
        SpanOff(p, part);
      }
    }
  }

  lemma {:induction false} BehindOff(p: Plan, part: Part)
    requires Laid(p) && (part.Table? || part.node < |p.list|) && ZoneClass(part) > 0
    requires ByteOf(StartBlock(p), p.blockSize) >= SUPER_UNTIL
    ensures PieceOffSuper(PieceOf(p, part))
  {
    hide Laid, PieceOf, StartBlock, FirstDir, DirBlock, PayloadBlock, ByteOf;
    LaidBlocks(p);
    LaidNodes(p);
    PieceInZone(p, part);
    StartFirst(p);
    var i := if part.Table? then 0 else part.node;
    DirBlocksRise(p, 0, i);
    DirBlocksRise(p, 0, |p.list|);
    PayloadBlocksRise(p, 0, i);
    ByteOfMonotone(StartBlock(p), DirBlock(p, i), p.blockSize);
    ByteOfMonotone(StartBlock(p), PayloadBlock(p, i), p.blockSize);
  }

  /** The stretch of its slots a part takes. */
  function PartSpan(p: Plan, part: Part): Span
    requires ZoneClass(part) == 0 && part.node < |p.list|
  {
    var n := p.list[part.node];
    if part.Inode? then Span(SlotAt(p, n), SlotAt(p, n) + SLOT + AreaLength(n))
    else if part.Header? then Span(DataAt(p, n), DataAt(p, n) + MAP_HEADER)
    else Span(DataAt(p, n) + MAP_HEADER, DataAt(p, n) + MAP_HEADER + IndexLength(n.clusters))
  }

  lemma {:induction false} SlotPartSpan(p: Plan, part: Part, base: nat)
    requires p.blockSize > 0 && Laid(p) && ZoneClass(part) == 0 && part.node < |p.list| && base == p.meta * p.blockSize
    ensures PieceOf(p, part).data != [] ==> PartSpan(p, part) in NodeSpans(p.list[part.node], base)
    ensures PieceOf(p, part).data == [] ==> PieceOffSuper(PieceOf(p, part))
  {
    hide InOrder, Shaped, Slots, DirBlock, PayloadBlock, InodeBytes, MapHeader, W.EncodedIndex, Pclusters, IndexLength, SizeOf, AlignUp8;
    var n := p.list[part.node];
    var spans := NodeSpans(n, base);
    assert spans[0] == Span(SlotAt(p, n), SlotAt(p, n) + SLOT + AreaLength(n));
    if n.clusters > 0 {
      assert spans[1] == Span(DataAt(p, n), DataAt(p, n) + MAP_HEADER);
      assert spans[2] == Span(DataAt(p, n) + MAP_HEADER, DataAt(p, n) + MAP_HEADER + IndexLength(n.clusters));
    }
  }

  lemma {:induction false} MemberOff(spans: seq<Span>, s: Span)
    requires AllOffSuper(spans) && s in spans
    ensures OffSuper(s)
  {
    hide OffSuper;
  }

  lemma {:induction false} SpanOff(p: Plan, part: Part)
    requires Laid(p) && ZoneClass(part) == 0 && part.node < |p.list| && OffSuper(PartSpan(p, part))
    ensures PieceOffSuper(PieceOf(p, part))
  {
    hide InOrder, Slots, DirBlock, PayloadBlock, MapHeader, W.EncodedIndex, Pclusters, IndexLength, SizeOf, DataAt, InodeHead, InodeTail;
    assert Shaped(p.list[part.node], p.blockSize);
    if part.Index? && p.list[part.node].clusters > 0 {
      IndexPieceLength(p, part.node);
    }
  }

  /** Writing the superblock over all pieces, and cutting the file behind the last payload. */
  lemma {:induction false} Finish(
    root: Item, meta: nat, blockSize: nat, xattr: bytes, algo: W.Algo, algorithm: byte, bits: nat, labels: Labels, content: bytes)
    requires blockSize > 0 && Laid(PlanOf(root, meta, blockSize, xattr, algo, algorithm)) && |labels.volume| == 16
    requires var p := PlanOf(root, meta, blockSize, xattr, algo, algorithm);
             Intact(content, p, PieceCount(p)) && ByteOf(meta, blockSize) + p.next * SLOT < U64_LIMIT
    ensures var p := PlanOf(root, meta, blockSize, xattr, algo, algorithm);
            p.list != []
            && Built(Resized(Overwrite(content, SUPER_FROM, SuperOf(p, bits, labels)), ByteOf(EndBlock(p), blockSize)), p, bits, labels)
  {
    var p := PlanOf(root, meta, blockSize, xattr, algo, algorithm);
    hide PlanOf, Laid, SuperOf, EndBlock, StartBlock, ByteOf, Overwrite, Resized, PieceOf, PartAt, Carries, HasAt;
    LaidBlocks(p);
    LaidNodes(p);
    PlanFields(root, meta, blockSize, xattr, algo, algorithm);
    var super, end := SuperOf(p, bits, labels), ByteOf(EndBlock(p), blockSize);
    var written := Overwrite(content, SUPER_FROM, super);
    var final := Resized(written, end);
    if end >= SUPER_UNTIL {
      WrittenHas(content, SUPER_FROM, super);
      ResizedKeeps(written, end, SUPER_FROM, super);
    }
    if ByteOf(StartBlock(p), blockSize) >= SUPER_UNTIL {
      forall j | 0 <= j < PieceCount(p)
        ensures OnImage(final, p, j)
      {
        var piece := PieceOf(p, PartAt(p, j));
        WasThere(content, p, PieceCount(p), j);
        PiecesOffSuper(root, meta, blockSize, xattr, algo, algorithm, PartAt(p, j));
        PieceEnds(p, PartAt(p, j));
        PieceKept(content, super, piece, end);
        NowThere(final, p, j);
      }
    }
  }

  lemma {:induction false} PlanFields(root: Item, meta: nat, blockSize: nat, xattr: bytes, algo: W.Algo, algorithm: byte)
    requires blockSize > 0
    ensures var p := PlanOf(root, meta, blockSize, xattr, algo, algorithm);
            p.meta == meta && p.blockSize == blockSize && p.xattr == xattr && p.algo == algo && p.algorithm == algorithm
  {
  }

  lemma {:induction false} WrittenHas(content: bytes, at: nat, data: bytes)
    requires data != []
    ensures HasAt(Overwrite(content, at, data), at, data)
  {
    var none: bytes := [];
    CarriesNothing(content, at);
    CarriesMore(content, at, none, data);
    assert none + data == data;
  }

  lemma {:induction false} PieceKept(content: bytes, super: bytes, piece: Piece, end: nat)
    requires Carries(content, piece.at, piece.data) && PieceOffSuper(piece) && |super| == SUPER_BYTES
    requires piece.data != [] ==> piece.at + |piece.data| <= end
    ensures Carries(Resized(Overwrite(content, SUPER_FROM, super), end), piece.at, piece.data)
  {
    hide Overwrite, Resized, HasAt;
    if piece.data != [] {
      CarriesElsewhere(content, SUPER_FROM, super, piece.at, piece.data);
      ResizedKeeps(Overwrite(content, SUPER_FROM, super), end, piece.at, piece.data);
    }
  }

  /** Every piece ends in front of the end of the image. */
  lemma {:induction false} PieceEnds(p: Plan, part: Part)
    requires Laid(p) && (part.Table? || part.node < |p.list|)
    ensures var piece := PieceOf(p, part); piece.data != [] ==> piece.at + |piece.data| <= ByteOf(EndBlock(p), p.blockSize)
  {
    hide Laid, PieceOf, StartBlock, FirstDir, DirBlock, PayloadBlock, ByteOf, EndBlock, Slots, SlotAt;
    LaidBlocks(p);
    LaidNodes(p);
    EndIs(p);
    PieceInZone(p, part);
    var i, n, bs := if part.Table? then 0 else part.node, |p.list|, p.blockSize;
    StartFirst(p);
    DirBlocksRise(p, i, i + 1);
    DirBlocksRise(p, i + 1, n);
    PayloadBlocksRise(p, i + 1, n);
    SlotsEnd(p, i);
    ByteOfMonotone(StartBlock(p), EndBlock(p), bs);
    ByteOfMonotone(FirstDir(p), EndBlock(p), bs);
    ByteOfMonotone(DirBlock(p, i + 1), EndBlock(p), bs);
    ByteOfMonotone(PayloadBlock(p, i + 1), EndBlock(p), bs);
  }

  // ---- The writer ------------------------------------------------------------------------------------------

  /** Inode images with their places; `dirs` are the first blocks of the directories and `datas` their bytes. */
  method InodeImages(p: Plan, dirs: seq<nat>, datas: seq<bytes>) returns (r: Result<seq<Piece>, BuildError>)
    requires Laid(p) && datas == DirDatas(p.list, p.blockSize)
    requires dirs == DirStarts(FirstDir(p), DirLengths(p.list, p.blockSize), p.blockSize)
    ensures r.Err? ==> r.error == FileTooLarge
    ensures r.Err? <==> exists i :: 0 <= i < |p.list| && SizeOf(p.list[i], p.blockSize) >= U32_LIMIT
    ensures r.Ok? ==> |r.value| == |p.list| && forall i :: 0 <= i < |p.list| ==> r.value[i] == InodePiece(p, i)
  {
    hide IsDir, DirData, DirDatas, DirLengths, DirStarts, InodeBytes, DirBlock, FirstDir, DirsBefore, Laid, SlotAt;
    LaidBlocks(p);
    var inodes: seq<Piece> := [];
    var d := 0;
    NoDirsBefore(p.list, p.blockSize);
    for i := 0 to |p.list|
      invariant d == DirsBefore(p.list, i, p.blockSize) && |inodes| == i
      invariant forall k :: 0 <= k < i ==> inodes[k] == InodePiece(p, k) && SizeOf(p.list[k], p.blockSize) < U32_LIMIT
    {
      var n := p.list[i];
      var size, raw := |n.info.content|, 0;
      if IsDir(n) {
        DirAt(p, i);
        size, raw, d := |datas[d]|, dirs[d], d + 1;
      } else {
        NotADir(p.list, i, p.blockSize);
      }
      if size >= U32_LIMIT {
        assert SizeOf(p.list[i], p.blockSize) >= U32_LIMIT;
        return Err(FileTooLarge);
      }
      inodes := inodes + [Piece(SlotAt(p, n), InodeBytes(n, size, raw))];
    }
    return Ok(inodes);
  }

  lemma {:induction false} NoDirsBefore(l: seq<Item>, blockSize: nat)
    ensures DirsBefore(l, 0, blockSize) == 0
  {
    assert l[..0] == [];
  }

  /** Bytes and first block of the directory that node `i` is. */
  lemma {:induction false} DirAt(p: Plan, i: nat)
    requires p.blockSize > 0 && i < |p.list| && IsDir(p.list[i])
    ensures var d, bs := DirsBefore(p.list, i, p.blockSize), p.blockSize;
            && d < |DirLengths(p.list, bs)| && DirsBefore(p.list, i + 1, bs) == d + 1
            && DirDatas(p.list, bs)[d] == DirData(p.list[i], bs)
            && DirStarts(FirstDir(p), DirLengths(p.list, bs), bs)[d] == DirBlock(p, i)
  {
    hide IsDir, DirData, DirDatas, DirLengths, DirStarts, DirBlocks, FirstDir, DirsBefore;
    DirOfNode(p.list, i, p.blockSize);
    DirStartsAt(FirstDir(p), DirLengths(p.list, p.blockSize), p.blockSize, DirsBefore(p.list, i, p.blockSize));
  }

  lemma {:induction false} AllPieces(p: Plan)
    ensures PieceCount(p) == 1 + 2 * |p.list| + 3 * |p.list|
  {
  }

  method WriteInodes(out: File, p: Plan, inodes: seq<Piece>)
    requires Laid(p) && |inodes| == |p.list| && forall i :: 0 <= i < |p.list| ==> inodes[i] == InodePiece(p, i)
    requires Intact(out.content, p, 1)
    modifies out
    ensures Intact(out.content, p, 1 + |p.list|)
  {
    hide *;
    LaidBlocks(p);
    AllPieces(p);
    for i := 0 to |p.list|
      invariant 1 + i <= PieceCount(p) && Intact(out.content, p, 1 + i)
    {
      PartOrder(p, i);
      InodeIs(p, i);
      PutPiece(out.content, p, 1 + i);
      out.WriteAt(inodes[i].at, inodes[i].data);
    }
  }

  lemma {:induction false} InodeIs(p: Plan, i: nat)
    requires p.blockSize > 0 && i < |p.list|
    ensures PieceOf(p, Inode(i)) == InodePiece(p, i)
  {
    hide InodePiece;
  }

  method WriteDirectories(out: File, p: Plan, dirs: seq<nat>, datas: seq<bytes>)
    requires Laid(p) && datas == DirDatas(p.list, p.blockSize)
    requires dirs == DirStarts(FirstDir(p), DirLengths(p.list, p.blockSize), p.blockSize)
    requires 1 + |p.list| <= PieceCount(p) && Intact(out.content, p, 1 + |p.list|)
    modifies out
    ensures 1 + 2 * |p.list| <= PieceCount(p) && Intact(out.content, p, 1 + 2 * |p.list|)
  {
    hide *;
    LaidBlocks(p);
    var d, n := 0, |p.list|;
    NoDirsBefore(p.list, p.blockSize);
    for i := 0 to n
      invariant d == DirsBefore(p.list, i, p.blockSize)
      invariant 1 + n + i <= PieceCount(p) && Intact(out.content, p, 1 + n + i)
    {
      PartOrder(p, i);
      DirIs(p, i);
      if IsDir(p.list[i]) {
        DirAt(p, i);
        PutPiece(out.content, p, 1 + n + i);
        out.WriteAt(ByteOf(dirs[d], p.blockSize), datas[d]);
        d := d + 1;
      } else {
        NotADir(p.list, i, p.blockSize);
        NoPiece(out.content, p, 1 + n + i);
      }
    }
  }

  lemma {:induction false} DirIs(p: Plan, i: nat)
    requires p.blockSize > 0 && i < |p.list|
    ensures PieceOf(p, Directory(i))
         == if IsDir(p.list[i]) then Piece(ByteOf(DirBlock(p, i), p.blockSize), DirData(p.list[i], p.blockSize)) else Piece(0, [])
  {
    hide DirBlock, DirData, ByteOf;
  }

  /** Streams the compressed files one behind the other. */
  method WriteFiles(out: File, p: Plan) returns (cursor: nat)
    requires Laid(p) && 1 + 2 * |p.list| <= PieceCount(p) && Intact(out.content, p, 1 + 2 * |p.list|)
    modifies out
    ensures cursor == ByteOf(EndBlock(p), p.blockSize) && Intact(out.content, p, PieceCount(p))
  {
    hide *;
    LaidBlocks(p);
    var n := |p.list|;
    NoPayloadYet(p);
    cursor := ByteOf(PayloadBlock(p, 0), p.blockSize);
    for i := 0 to n
      invariant cursor == ByteOf(PayloadBlock(p, i), p.blockSize)
      invariant 1 + 2 * n + 3 * i <= PieceCount(p) && Intact(out.content, p, 1 + 2 * n + 3 * i)
    {
      ghost var k := 1 + 2 * n + 3 * i;
      PartOrder(p, i);
      FileIs(p, i);
      PayloadBlockStep(p, i);
      if p.list[i].clusters > 0 {
        var dataOff := DataAt(p, p.list[i]);
        PutPiece(out.content, p, k);
        out.WriteAt(dataOff, MapHeader(p.algorithm));
        StreamFits(p, i);
        ghost var before := out.content;
        var r, next, indexOff := W.StreamCompressedFile(
          out, p.list[i].info.content, p.blockSize, p.algo, PayloadBlock(p, i), cursor, dataOff + MAP_HEADER);
        PutStream(before, out.content, p, i);
        cursor := next;
        CursorMoves(p, i);
      } else {
        NoPiece(out.content, p, k);
        NoPiece(out.content, p, k + 1);
        NoPiece(out.content, p, k + 2);
      }
    }
    EndIs(p);
    AllPieces(p);
  }

  lemma {:induction false} FileIs(p: Plan, i: nat)
    requires p.blockSize > 0 && i < |p.list|
    ensures if p.list[i].clusters > 0 then PieceOf(p, Header(i)) == Piece(DataAt(p, p.list[i]), MapHeader(p.algorithm))
            else PieceOf(p, Header(i)).data == [] && PieceOf(p, Index(i)).data == [] && PieceOf(p, Payload(i)).data == []
  {
    hide DataAt, MapHeader, PayloadBlock, Pclusters, W.AllPacked, W.EncodedIndex, W.Payloads;
  }

  /** The index reserved in the slots of a file ends in front of its payload. */
  lemma {:induction false} StreamFits(p: Plan, i: nat)
    requires Laid(p) && i < |p.list| && p.list[i].clusters > 0
    ensures DataAt(p, p.list[i]) + MAP_HEADER + IndexLength(DivCeil(|p.list[i].info.content|, p.blockSize))
            <= ByteOf(PayloadBlock(p, i), p.blockSize)
    ensures Pclusters(p.list[i], p) == W.PackClusters(p.algo, p.blockSize, W.Clusters(p.list[i].info.content, p.blockSize))
    ensures ByteOf(PayloadBlock(p, i), p.blockSize) == PayloadBlock(p, i) * p.blockSize
  {
    hide Laid, DataAt, Slots, SlotAt, PayloadBlock, IndexLength, DivCeil, StartBlock, W.PackClusters, W.Clusters, DirBlock, FirstDir;
    LaidBlocks(p);
    PartsOfSlots(p, i);
    SlotsEnd(p, i);
    IndexPieceLength(p, i);
    StartFirst(p);
    DirBlocksRise(p, 0, |p.list|);
    PayloadBlocksRise(p, i, i);
    ByteOfMonotone(StartBlock(p), PayloadBlock(p, i), p.blockSize);
  }

  lemma {:induction false} CursorMoves(p: Plan, i: nat)
    requires p.blockSize > 0 && i < |p.list| && p.list[i].clusters > 0
    ensures ByteOf(PayloadBlock(p, i), p.blockSize) + |Pclusters(p.list[i], p)| * p.blockSize == ByteOf(PayloadBlock(p, i + 1), p.blockSize)
  {
    hide PayloadBlock, Pclusters;
    PayloadBlockStep(p, i);
    MulDistributes(PayloadBlock(p, i), |Pclusters(p.list[i], p)|, p.blockSize);
  }

  /** Why no image is written. */
  ghost predicate Refused(e: BuildError, p: Plan)
    requires p.blockSize > 0
  {
    match e
    case NumberOverflow => TooWide(p)
    case DirectoryUnfit => exists i :: 0 <= i < |p.list| && TooLong(p.list[i], p.blockSize)
    case FileTooLarge => exists i :: 0 <= i < |p.list| && SizeOf(p.list[i], p.blockSize) >= U32_LIMIT
  }

  /** The image `rebuild_compressed` makes of a tree, or why it makes none. */
  method BuildImage(
    root: Item, meta: nat, bits: nat, xattr: bytes, algo: W.Algo, algorithm: byte, labels: Labels)
    returns (r: Result<(), BuildError>, out: File, ghost p: Plan)
    requires 9 <= bits <= 16 && Ready(root) && |labels.volume| == 16
    ensures fresh(out) && p == PlanOf(root, meta, Pow2(bits), xattr, algo, algorithm) && Laid(p)
    ensures r.Err? ==> Refused(r.error, p)
    ensures r.Ok? <==> forall e :: !Refused(e, p)
    ensures r.Ok? ==> Built(out.content, p, bits, labels)
  {
    hide *;
    var blockSize := Pow2(bits);
    BlockSizes(bits);
    out := new File([]);
    PlanLaid(root, meta, blockSize, xattr, algo, algorithm);
    var numbered, next := AssignNids(Marked(root, blockSize), 1, 1, meta, blockSize);
    var plan := Plan(Preorder(numbered), next, meta, blockSize, xattr, algo, algorithm);
    PlanIs(root, meta, blockSize, xattr, algo, algorithm, numbered, next);
    p := plan;
    if StartBlock(plan) >= U32_LIMIT {
      WideStart(plan);
      Refuse(NumberOverflow, plan);
      return Err(NumberOverflow), out, p;
    }
    NumbersIn64(plan);
    var datas, lengths := CollectDirectories(plan.list, blockSize);
    ZeroLengthIff(plan.list, blockSize);
    var regions := PlaceRegions(next, meta, blockSize, |xattr|, lengths);
    if regions.Err? {
      Refuse(DirectoryUnfit, plan);
      return Err(DirectoryUnfit), out, p;
    }
    RegionsAre(plan, regions.value);
    var inodes := InodeImages(plan, regions.value.dirs, datas);
    if inodes.Err? {
      Refuse(FileTooLarge, plan);
      return Err(FileTooLarge), out, p;
    }
    if TooWide(plan) {
      Refuse(NumberOverflow, plan);
      return Err(NumberOverflow), out, p;
    }
    NotRefused(plan);
    out.WriteAt(SUPER_FROM, SuperBytes(bits, plan.list[0].nid, |plan.list|, Labels(0, 0, Zeros(16), 0), 0, 0, 0));
    NothingWritten(out.content, plan);
    TableIs(plan);
    PutPiece(out.content, plan, 0);
    out.WriteAt(ByteOf(StartBlock(plan), blockSize), xattr);
    AllPieces(plan);
    WriteInodes(out, plan, inodes.value);
    WriteDirectories(out, plan, regions.value.dirs, datas);
    var cursor := WriteFiles(out, plan);
    Finish(root, meta, blockSize, xattr, algo, algorithm, bits, labels, out.content);
    out.WriteAt(SUPER_FROM, SuperOf(plan, bits, labels));
    out.SetLen(cursor);
    return Ok(()), out, p;
  }

  lemma {:induction false} BlockSizes(bits: nat)
    requires 9 <= bits <= 16
    ensures Pow2(bits) % 512 == 0 && 512 <= Pow2(bits) <= U16_LIMIT && D.DirBlock(Pow2(bits))
  {
    assert Pow2(9) == 512 by { assert Pow2(3) == 8; assert Pow2(6) == 64; }
    if bits > 9 { assert Pow2(10) == 1024; }
    if bits > 10 { assert Pow2(11) == 2048; }
    if bits > 11 { assert Pow2(12) == 4096; }
    if bits > 12 { assert Pow2(13) == 8192; }
    if bits > 13 { assert Pow2(14) == 16384; }
    if bits > 14 { assert Pow2(15) == 32768; }
    if bits > 15 { assert Pow2(16) == 65536; }
  }

  lemma {:induction false} PlanIs(
    root: Item, meta: nat, blockSize: nat, xattr: bytes, algo: W.Algo, algorithm: byte, numbered: Item, next: nat)
    requires blockSize > 0 && (numbered, next) == Assigned(Marked(root, blockSize), 1, 1, meta, blockSize)
    ensures PlanOf(root, meta, blockSize, xattr, algo, algorithm)
         == Plan(Preorder(numbered), next, meta, blockSize, xattr, algo, algorithm)
  {
  }

  lemma {:induction false} Refuse(e: BuildError, p: Plan)
    requires p.blockSize > 0
    requires e == NumberOverflow ==> TooWide(p)
    requires e == DirectoryUnfit ==> exists i :: 0 <= i < |p.list| && TooLong(p.list[i], p.blockSize)
    requires e == FileTooLarge ==> exists i :: 0 <= i < |p.list| && SizeOf(p.list[i], p.blockSize) >= U32_LIMIT
    ensures Refused(e, p)
  {
    hide TooWide, TooLong, SizeOf;
  }

  lemma {:induction false} NotRefused(p: Plan)
    requires p.blockSize > 0 && !TooWide(p)
    requires !exists i :: 0 <= i < |p.list| && TooLong(p.list[i], p.blockSize)
    requires !exists i :: 0 <= i < |p.list| && SizeOf(p.list[i], p.blockSize) >= U32_LIMIT
    ensures forall e :: !Refused(e, p)
  {
    hide TooWide, TooLong, SizeOf;
  }

  lemma {:induction false} WideStart(p: Plan)
    requires p.blockSize > 0 && StartBlock(p) >= U32_LIMIT
    ensures TooWide(p)
  {
    hide DirBlock, StartBlock, FirstDir;
    StartFirst(p);
    DirBlocksRise(p, 0, |p.list|);
  }

  /** Node numbers fit 64 bits where the first block behind the inodes fits 32. */
  lemma {:induction false} NumbersIn64(p: Plan)
    requires Laid(p) && p.blockSize <= U16_LIMIT && StartBlock(p) < U32_LIMIT
    requires forall i :: 0 <= i < |p.list| ==> NumbersBelow(p.list[i], p.next)
    ensures ByteOf(p.meta, p.blockSize) + p.next * SLOT < U64_LIMIT
    ensures forall i :: 0 <= i < |p.list| ==> NumbersBelow(p.list[i], U64_LIMIT)
  {
    hide Laid, StartBlock, NumbersBelow, ByteOf;
    LaidBlocks(p);
    StartBehindSlots(p);
    Bytes64(StartBlock(p), p.blockSize);
    forall i | 0 <= i < |p.list|
      ensures NumbersBelow(p.list[i], U64_LIMIT)
    {
      BelowMore(p.list[i], p.next, U64_LIMIT);
    }
  }

  lemma {:induction false} Bytes64(block: nat, blockSize: nat)
    requires block < U32_LIMIT && blockSize <= U16_LIMIT
    ensures ByteOf(block, blockSize) < U64_LIMIT
  {
    MulMonotone(block, U32_LIMIT, blockSize);
    MulMonotone(blockSize, U16_LIMIT, U32_LIMIT);
  }

  lemma {:induction false} RegionsAre(p: Plan, r: Regions)
    requires p.blockSize > 0
    requires r == Placed(p.meta, DivCeil(p.next * SLOT, p.blockSize), p.blockSize, |p.xattr|, DirLengths(p.list, p.blockSize))
    ensures r.dirs == DirStarts(FirstDir(p), DirLengths(p.list, p.blockSize), p.blockSize)
    ensures r.payload == PayloadBlock(p, 0)
  {
    NoPayloadYet(p);
    hide DivCeil, DirLengths, DirStarts, DirBlocks, PayloadBlock;
    assert p.list[..|p.list|] == p.list;
  }

  lemma {:induction false} NothingWritten(content: bytes, p: Plan)
    requires p.blockSize > 0
    ensures Intact(content, p, 0)
  {
  }

  lemma {:induction false} TableIs(p: Plan)
    requires p.blockSize > 0
    ensures PieceCount(p) >= 1 && PartAt(p, 0) == Table && PieceOf(p, Table) == Piece(ByteOf(StartBlock(p), p.blockSize), p.xattr)
  {
    hide StartBlock, ByteOf;
  }
}
