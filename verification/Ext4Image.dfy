/**
 The write phase of the builder: inodes, tree blocks and data of all nodes, in order, on one image. Each node writes
 inside its own footprint only, so at the end all of them are readable at once.
 */
module Ext4Image {
  import opened Core
  import opened Arith
  import opened OutFile
  import opened Spans
  import opened Ext4Alloc
  import opened Ext4Extents
  import opened Ext4Inode
  import opened Ext4Content

  // ---- Copying a file ------------------------------------------------------------------------------------

  lemma {:induction false} WindowInside(source: bytes, offset: nat, n: nat)
    requires offset + n <= |source|
    ensures Window(source, offset, n) == source[offset..offset + n]
  {
    var got := Window(source, offset, n);
    forall k | 0 <= k < n
      ensures got[k] == source[offset..offset + n][k]
    {
      assert got[k] == ByteAt(source, offset + k);
    }
  }

  /** The extents map the file without holes, in order, up to its last block. */
  predicate TilesFile(extents: seq<Extent>, blockSize: nat, size: nat) {
    && Cursor(extents, |extents|, blockSize, size) == size
    && forall i :: 0 <= i < |extents| ==>
         Low(extents[i], blockSize) == Cursor(extents, i, blockSize, size) < High(extents[i], blockSize, size)
  }

  lemma {:induction false} MapsTile(extents: seq<Extent>, n: nat, blockSize: nat, size: nat)
    requires blockSize > 0 && MapsBlocks(extents, n) && (n > 0 ==> (n - 1) * blockSize < size)
    ensures Cursor(extents, |extents|, blockSize, size) == Min(n * blockSize, size)
    ensures forall i :: 0 <= i < |extents| ==>
              Low(extents[i], blockSize) == Cursor(extents, i, blockSize, size) < High(extents[i], blockSize, size)
    decreases |extents|
  {
    if extents != [] {
      var k := |extents| - 1;
      var last := extents[k];
      if last.logical > 0 {
        MulMonotone(last.logical - 1, n - 1, blockSize);
      }
      MapsTile(extents[..k], last.logical, blockSize, size);
      MulMonotone(last.logical, n - 1, blockSize);
      MulMonotone(last.logical + 1, n, blockSize);
      MulDistributes(last.logical, 1, blockSize);
      hide High, Low;
      forall i | 0 <= i < |extents|
        ensures Low(extents[i], blockSize) == Cursor(extents, i, blockSize, size) < High(extents[i], blockSize, size)
      {
        assert i < k ==> extents[..k][i] == extents[i] && Cursor(extents[..k], i, blockSize, size) == Cursor(extents, i, blockSize, size);
        if i == k {
          TileAt(last, n, blockSize, size);
          assert Cursor(extents[..k], k, blockSize, size) == Cursor(extents, k, blockSize, size);
        }
      }
      TileAt(last, n, blockSize, size);
    }
  }

  lemma {:induction false} TileAt(e: Extent, n: nat, blockSize: nat, size: nat)
    requires blockSize > 0 && e.length > 0 && e.logical + e.length == n && (n - 1) * blockSize < size
    ensures Low(e, blockSize) == Min(e.logical * blockSize, size) < High(e, blockSize, size) == Min(n * blockSize, size)
  {
    MulMonotone(e.logical, n - 1, blockSize);
    MulMonotone(e.logical + 1, n, blockSize);
    MulDistributes(e.logical, 1, blockSize);
  }

  lemma {:induction false} MappedFileTiles(extents: seq<Extent>, blockSize: nat, size: nat)
    requires blockSize > 0 && MapsBlocks(extents, DivCeil(size, blockSize))
    ensures TilesFile(extents, blockSize, size)
  {
    hide DivCeil;
    var n := DivCeil(size, blockSize);
    DivCeilMeaning(size, blockSize);
    if n > 0 {
      MulDistributes(n - 1, 1, blockSize);
    }
    MapsTile(extents, n, blockSize, size);
  }

  function DataSpan(e: Extent, blockSize: nat): Span {
    Span(DataAt(e, blockSize), (e.start + e.length) * blockSize)
  }

  function DataSpans(extents: seq<Extent>, blockSize: nat): (r: seq<Span>)
    ensures |r| == |extents|
  {
    seq(|extents|, i requires 0 <= i < |extents| => DataSpan(extents[i], blockSize))
  }

  /** Extents one behind the other on disk, inside the image. */
  predicate RunsApart(extents: seq<Extent>, blockSize: nat, imageSize: nat) {
    && (forall i, j :: 0 <= i < j < |extents| ==> DataSpan(extents[i], blockSize).until <= DataSpan(extents[j], blockSize).from)
    && forall i :: 0 <= i < |extents| ==> DataSpan(extents[i], blockSize).until <= imageSize
  }

  /** Room of an extent on disk, and of its piece of the file. */
  lemma {:induction false} PieceFits(e: Extent, blockSize: nat, size: nat)
    requires Low(e, blockSize) <= High(e, blockSize, size)
    ensures DataAt(e, blockSize) == DataSpan(e, blockSize).from
    ensures DataAt(e, blockSize) + (High(e, blockSize, size) - Low(e, blockSize)) <= DataSpan(e, blockSize).until
  {
    MulDistributes(e.logical, e.length, blockSize);
    MulDistributes(e.start, e.length, blockSize);
  }

  /** The chunks of one extent. */
  method CopyRun(image: File, source: bytes, from: nat, target: nat, n: nat)
    requires target + n <= |image.content|
    modifies image
    ensures image.content == Overwrite(old(image.content), target, Window(source, from, n))
  {
    hide Overwrite, Window;
    ghost var before := image.content;
    var left := n;
    var sourceAt, targetAt := from, target;
    NothingWritten(before, source, from, target);
    while left > 0
      invariant 0 <= left <= n && sourceAt == from + (n - left) && targetAt == target + (n - left)
      invariant image.content == Overwrite(before, target, Window(source, from, n - left))
    {
      var chunk := Min(left, COPY_CHUNK);
      ghost var done := Window(source, from, n - left);
      image.WriteAt(targetAt, Window(source, sourceAt, chunk));
      OverwriteTwice(before, target, done, Window(source, sourceAt, chunk));
      WindowJoins(source, from, n - left, chunk);
      sourceAt, targetAt, left := sourceAt + chunk, targetAt + chunk, left - chunk;
    }
  }

  lemma {:induction false} NothingWritten(content: bytes, source: bytes, from: nat, target: nat)
    ensures Overwrite(content, target, Window(source, from, 0)) == content
  {
  }

  /** `copy_node_extents_to_image`. */
  method CopyExtents(image: File, source: bytes, extents: seq<Extent>, blockSize: nat)
    requires TilesFile(extents, blockSize, |source|) && RunsApart(extents, blockSize, |image.content|)
    modifies image
    ensures OnlyWithin(old(image.content), image.content, DataSpans(extents, blockSize))
    ensures FileOnDisk(image.content, blockSize, extents, source)
  {
    hide *;
    ghost var before := image.content;
    var remaining := |source|;
    CopyStarts(before, extents, blockSize, source);
    for i := 0 to |extents|
      invariant remaining == |source| - Cursor(extents, i, blockSize, |source|)
      invariant OnlyWithin(before, image.content, DataSpans(extents, blockSize))
      invariant PiecesOnDisk(image.content, blockSize, extents, source, i)
      invariant RunsApart(extents, blockSize, |image.content|)
    {
      ghost var now := image.content;
      CopyStep(now, extents, blockSize, source, i, remaining);
      var e := extents[i];
      var n := Min(LengthOf(e, blockSize), remaining);
      CopyRun(image, source, Low(e, blockSize), DataAt(e, blockSize), n);
      OnePiece(now, image.content, source, extents, blockSize, i);
      CopyKept(before, now, image.content, extents, blockSize, i);
      remaining := remaining - n;
    }
    AllPieces(image.content, source, extents, blockSize);
  }

  function LengthOf(e: Extent, blockSize: nat): nat {
    e.length * blockSize
  }

  ghost predicate PiecesOnDisk(image: bytes, blockSize: nat, extents: seq<Extent>, data: bytes, n: nat)
    requires n <= |extents|
  {
    forall k :: 0 <= k < n ==> PieceOnDisk(image, blockSize, extents, data, k)
  }

  lemma {:induction false} CopyStarts(content: bytes, extents: seq<Extent>, blockSize: nat, source: bytes)
    ensures Cursor(extents, 0, blockSize, |source|) == 0
    ensures OnlyWithin(content, content, DataSpans(extents, blockSize))
    ensures PiecesOnDisk(content, blockSize, extents, source, 0)
  {
  }

  /** The bytes of extent `i` are what is left of the file or of the extent, and there is room for them. */
  lemma {:induction false} CopyStep(content: bytes, extents: seq<Extent>, blockSize: nat, source: bytes, i: nat, remaining: int)
    requires i < |extents| && TilesFile(extents, blockSize, |source|) && RunsApart(extents, blockSize, |content|)
    requires remaining == |source| - Cursor(extents, i, blockSize, |source|)
    ensures remaining >= 0
    ensures var e, n := extents[i], Min(LengthOf(extents[i], blockSize), remaining);
            && Low(e, blockSize) + n == High(e, blockSize, |source|) == Cursor(extents, i + 1, blockSize, |source|)
            && n == High(e, blockSize, |source|) - Low(e, blockSize) > 0
            && DataAt(e, blockSize) + n <= |content|
            && remaining - n == |source| - Cursor(extents, i + 1, blockSize, |source|)
  {
    var e := extents[i];
    assert Low(e, blockSize) == Cursor(extents, i, blockSize, |source|) < High(e, blockSize, |source|);
    LengthOfPiece(e, blockSize, |source|);
    PieceFits(e, blockSize, |source|);
    CursorBehindPiece(extents, i, blockSize, |source|);
    HighInFile(e, blockSize, |source|);
    hide High, Low, DataAt, DataSpan, Cursor;
    assert DataSpan(extents[i], blockSize).until <= |content|;
  }

  lemma {:induction false} AllPieces(content: bytes, source: bytes, extents: seq<Extent>, blockSize: nat)
    requires PiecesOnDisk(content, blockSize, extents, source, |extents|) && TilesFile(extents, blockSize, |source|)
    ensures FileOnDisk(content, blockSize, extents, source)
  {
    hide PieceOnDisk;
  }

  lemma {:induction false} CopyKept(before: bytes, now: bytes, after: bytes, extents: seq<Extent>, blockSize: nat, i: nat)
    requires i < |extents| && OnlyWithin(before, now, DataSpans(extents, blockSize))
    requires OnlyWithin(now, after, [DataSpan(extents[i], blockSize)])
    ensures OnlyWithin(before, after, DataSpans(extents, blockSize))
  {
    hide DataSpan;
    var all := DataSpans(extents, blockSize);
    InsideOne(DataSpan(extents[i], blockSize), all, i);
    WithinWider(now, after, [DataSpan(extents[i], blockSize)], all);
    WithinTwice(before, now, after, all);
  }

  /** Copying extent `i` puts its piece on disk and leaves the earlier ones. */
  lemma {:induction false} OnePiece(now: bytes, after: bytes, source: bytes, extents: seq<Extent>, blockSize: nat, i: nat)
    requires i < |extents| && TilesFile(extents, blockSize, |source|) && RunsApart(extents, blockSize, |now|)
    requires Low(extents[i], blockSize) < High(extents[i], blockSize, |source|)
    requires after == Overwrite(now, DataAt(extents[i], blockSize),
                        Window(source, Low(extents[i], blockSize), High(extents[i], blockSize, |source|) - Low(extents[i], blockSize)))
    requires PiecesOnDisk(now, blockSize, extents, source, i)
    ensures |after| == |now| && OnlyWithin(now, after, [DataSpan(extents[i], blockSize)])
    ensures PiecesOnDisk(after, blockSize, extents, source, i + 1)
  {
    hide *;
    var e := extents[i];
    var low, high := Low(e, blockSize), High(e, blockSize, |source|);
    HighInFile(e, blockSize, |source|);
    var part := source[low..high];
    var at := DataAt(e, blockSize);
    WindowInside(source, low, high - low);
    PieceFits(e, blockSize, |source|);
    SpanInImage(extents, blockSize, |now|, i);
    WrittenThere(now, at, part);
    InsideOne(Span(at, at + |part|), [DataSpan(e, blockSize)], 0);
    WriteWithin(now, at, part, [DataSpan(e, blockSize)]);
    PieceThere(after, source, extents, blockSize, i);
    PiecesKept(now, source, extents, blockSize, i, at, part);
  }

  lemma {:induction false} SpanInImage(extents: seq<Extent>, blockSize: nat, imageSize: nat, i: nat)
    requires i < |extents| && RunsApart(extents, blockSize, imageSize)
    ensures DataSpan(extents[i], blockSize).until <= imageSize
    ensures forall k :: 0 <= k < i ==> DataSpan(extents[k], blockSize).until <= DataSpan(extents[i], blockSize).from
  {
    hide DataSpan;
  }

  lemma {:induction false} PiecesKept(now: bytes, source: bytes, extents: seq<Extent>, blockSize: nat, i: nat, at: nat, part: bytes)
    requires i < |extents| && PiecesOnDisk(now, blockSize, extents, source, i)
    requires forall k :: 0 <= k < i ==> DataSpan(extents[k], blockSize).until <= at
    requires PieceOnDisk(Overwrite(now, at, part), blockSize, extents, source, i)
    ensures PiecesOnDisk(Overwrite(now, at, part), blockSize, extents, source, i + 1)
  {
    hide DataSpan, PieceOnDisk, Overwrite;
    forall k | 0 <= k < i
      ensures PieceOnDisk(Overwrite(now, at, part), blockSize, extents, source, k)
    {
      PieceKept(now, source, extents, blockSize, k, at, part);
    }
  }

  lemma {:induction false} PieceThere(after: bytes, source: bytes, extents: seq<Extent>, blockSize: nat, i: nat)
    requires i < |extents| && TilesFile(extents, blockSize, |source|)
    requires Low(extents[i], blockSize) <= High(extents[i], blockSize, |source|) <= |source|
    requires HasAt(after, DataAt(extents[i], blockSize), source[Low(extents[i], blockSize)..High(extents[i], blockSize, |source|)])
    ensures PieceOnDisk(after, blockSize, extents, source, i)
  {
    hide HasAt, High, Low, Cursor;
    assert Low(extents[i], blockSize) == Cursor(extents, i, blockSize, |source|) < High(extents[i], blockSize, |source|);
  }

  /** A piece stays where it is when something apart from its span is written. */
  lemma {:induction false} PieceKept(content: bytes, source: bytes, extents: seq<Extent>, blockSize: nat, k: nat, at: nat, part: bytes)
    requires k < |extents| && PieceOnDisk(content, blockSize, extents, source, k)
    requires DataSpan(extents[k], blockSize).until <= at || at + |part| <= DataSpan(extents[k], blockSize).from
    ensures PieceOnDisk(Overwrite(content, at, part), blockSize, extents, source, k)
  {
    PieceFits(extents[k], blockSize, |source|);
    hide Overwrite, HasAt, Low, High, DataAt, DataSpan;
    OverwriteKeeps(content, at, part, DataAt(extents[k], blockSize),
      source[Low(extents[k], blockSize)..High(extents[k], blockSize, |source|)]);
  }

  lemma {:induction false} HighInFile(e: Extent, blockSize: nat, size: nat)
    ensures High(e, blockSize, size) <= size
  {
  }

  lemma {:induction false} WrittenThere(content: bytes, at: nat, data: bytes)
    requires at + |data| <= |content| && data != []
    ensures |Overwrite(content, at, data)| == |content| && HasAt(Overwrite(content, at, data), at, data)
  {
  }

  // ---- Writing the nodes -----------------------------------------------------------------------------------

  /** A node with its inode slot, its bytes (file content, directory block bytes or link target) and its blocks. */
  datatype Placement = Placement(slot: nat, attributes: Attributes, data: bytes, isDir: bool, extents: seq<Extent>, tree: seq<nat>)

  function SlotSpan(n: Placement, inodeSize: nat): Span {
    Span(n.slot, n.slot + inodeSize)
  }

  /** The extents the write phase copies: with sharing, the data of files is on the image already. */
  function CopiedExtents(n: Placement, shared: bool): seq<Extent> {
    if shared && !n.isDir then [] else n.extents
  }

  /** Where a node may write: its slot, its tree blocks and the data blocks it copies. Without sharing that is all it owns. */
  function Footprint(n: Placement, shared: bool, blockSize: nat, inodeSize: nat): seq<Span> {
    [SlotSpan(n, inodeSize)] + TreeSpans(n.tree, blockSize) + DataSpans(CopiedExtents(n, shared), blockSize)
  }

  predicate SpansInImage(spans: seq<Span>, imageSize: nat) {
    forall k :: 0 <= k < |spans| ==> spans[k].until <= imageSize
  }

  /** A placement the write phase can carry out on an image of `imageSize` bytes. */
  predicate Writable(n: Placement, shared: bool, blockSize: nat, inodeSize: nat, imageSize: nat) {
    && n.attributes.InRange() && FitsTree(n.extents, n.tree) && Distinct(n.tree)
    && n.slot + inodeSize <= imageSize
    && SpansInImage(TreeSpans(n.tree, blockSize), imageSize)
    && RunsApart(CopiedExtents(n, shared), blockSize, imageSize)
    && Apart([SlotSpan(n, inodeSize)], TreeSpans(n.tree, blockSize))
    && Apart([SlotSpan(n, inodeSize)], DataSpans(n.extents, blockSize))
    && Apart(TreeSpans(n.tree, blockSize), DataSpans(n.extents, blockSize))
    && (if Inline(n.attributes, |n.data|) then n.extents == []
        else n.isDir || !shared ==> TilesFile(n.extents, blockSize, |n.data|))
  }

  /** With sharing the data of a file is on the image before its inode is written. */
  ghost predicate InPlace(content: bytes, n: Placement, shared: bool, blockSize: nat) {
    shared && !n.isDir && !Inline(n.attributes, |n.data|) ==> FileOnDisk(content, blockSize, n.extents, n.data)
  }

  ghost predicate OnDisk(content: bytes, n: Placement, blockSize: nat, inodeSize: nat) {
    NodeOnDisk(content, blockSize, n.slot, inodeSize, n.attributes, n.data, n.extents, n.tree)
  }

  ghost predicate SlotClear(content: bytes, n: Placement, inodeSize: nat) {
    n.slot + inodeSize <= |content| && Region(content, n.slot, inodeSize) == Zeros(inodeSize)
  }

  /** The data of a directory: each extent takes its slice of the serialised directory. */
  method CopyDirectory(image: File, data: bytes, extents: seq<Extent>, blockSize: nat)
    requires TilesFile(extents, blockSize, |data|) && RunsApart(extents, blockSize, |image.content|)
    modifies image
    ensures OnlyWithin(old(image.content), image.content, DataSpans(extents, blockSize))
    ensures FileOnDisk(image.content, blockSize, extents, data)
  {
    hide *;
    ghost var before := image.content;
    CopyStarts(before, extents, blockSize, data);
    for i := 0 to |extents|
      invariant OnlyWithin(before, image.content, DataSpans(extents, blockSize))
      invariant PiecesOnDisk(image.content, blockSize, extents, data, i)
      invariant RunsApart(extents, blockSize, |image.content|)
    {
      ghost var now := image.content;
      CopyStep(now, extents, blockSize, data, i, |data| - Cursor(extents, i, blockSize, |data|));
      SliceStep(extents, blockSize, data, i);
      var e := extents[i];
      var from := Low(e, blockSize);
      var n := Min(LengthOf(e, blockSize), Max(|data| - from, 0));
      if n > 0 {
        image.WriteAt(DataAt(e, blockSize), data[from..from + n]);
      }
      OnePiece(now, image.content, data, extents, blockSize, i);
      CopyKept(before, now, image.content, extents, blockSize, i);
    }
    AllPieces(image.content, data, extents, blockSize);
  }

  lemma {:induction false} SliceStep(extents: seq<Extent>, blockSize: nat, data: bytes, i: nat)
    requires i < |extents| && TilesFile(extents, blockSize, |data|)
    ensures var e, from := extents[i], Low(extents[i], blockSize);
            var n := Min(LengthOf(e, blockSize), Max(|data| - from, 0));
            && 0 < n == High(e, blockSize, |data|) - from && from + n <= |data|
            && Window(data, from, n) == data[from..from + n]
  {
    var e := extents[i];
    LengthOfPiece(e, blockSize, |data|);
    HighInFile(e, blockSize, |data|);
    var n := High(e, blockSize, |data|) - Low(e, blockSize);
    hide High, Low;
    assert Low(extents[i], blockSize) == Cursor(extents, i, blockSize, |data|) < High(extents[i], blockSize, |data|);
    WindowInside(data, Low(e, blockSize), n);
  }

  /** One round of the write loop over the placements. */
  method WriteNode(image: File, n: Placement, shared: bool, blockSize: nat, inodeSize: nat)
    requires blockSize >= 4096 && inodeSize >= 128 && Writable(n, shared, blockSize, inodeSize, |image.content|)
    requires SlotClear(image.content, n, inodeSize) && InPlace(image.content, n, shared, blockSize)
    modifies image
    ensures OnlyWithin(old(image.content), image.content, Footprint(n, shared, blockSize, inodeSize))
    ensures OnDisk(image.content, n, blockSize, inodeSize)
  {
    hide *;
    ghost var start := image.content;
    WritableParts(n, shared, blockSize, inodeSize, start);
    WriteInode(image, n.slot, inodeSize, n.attributes, |n.data|, n.data, n.extents, n.tree, blockSize);
    ghost var first := image.content;
    AfterInode(start, first, n, shared, blockSize, inodeSize);
    WriteExtentTrees(image, n.extents, n.tree, blockSize);
    ghost var second := image.content;
    AfterTrees(start, first, second, n, shared, blockSize, inodeSize);
    if Inline(n.attributes, |n.data|) {
      InlineDone(second, n, blockSize, inodeSize);
      return;
    }
    if n.isDir {
      CopyDirectory(image, n.data, n.extents, blockSize);
    } else if shared {
      DataStays(start, second, n, blockSize, inodeSize);
      return;
    } else {
      CopyExtents(image, n.data, n.extents, blockSize);
    }
    AfterData(start, second, image.content, n, shared, blockSize, inodeSize);
  }

  lemma {:induction false} WritableParts(n: Placement, shared: bool, blockSize: nat, inodeSize: nat, content: bytes)
    requires Writable(n, shared, blockSize, inodeSize, |content|) && SlotClear(content, n, inodeSize)
    ensures n.slot + inodeSize <= |content| && Region(content, n.slot, inodeSize) == Zeros(inodeSize)
    ensures n.attributes.InRange() && FitsTree(n.extents, n.tree) && Distinct(n.tree)
    ensures InImage(content, blockSize, n.tree)
    ensures Inline(n.attributes, |n.data|) ==> n.extents == []
    ensures !Inline(n.attributes, |n.data|) && (n.isDir || !shared) ==> TilesFile(n.extents, blockSize, |n.data|)
  {
    hide FitsTree, Distinct, TilesFile, RunsApart, Inline, Region, BlockSpan;
    assert forall i :: 0 <= i < |n.tree| ==> TreeSpans(n.tree, blockSize)[i] == BlockSpan(n.tree[i], blockSize);
  }

  /** The inode is there; the tree blocks are still in the image. */
  ghost predicate InodeThere(content: bytes, n: Placement, blockSize: nat, inodeSize: nat) {
    && n.slot + inodeSize <= |content|
    && InodeWritten(Region(content, n.slot, inodeSize), n.attributes, |n.data|, n.data, n.extents, n.tree, blockSize)
  }

  lemma {:induction false} AfterInode(start: bytes, first: bytes, n: Placement, shared: bool, blockSize: nat, inodeSize: nat)
    requires Writable(n, shared, blockSize, inodeSize, |start|)
    requires OnlyRegion(start, first, n.slot, inodeSize)
    requires InodeWritten(Region(first, n.slot, inodeSize), n.attributes, |n.data|, n.data, n.extents, n.tree, blockSize)
    ensures |first| == |start| && OnlyWithin(start, first, Footprint(n, shared, blockSize, inodeSize))
    ensures InodeThere(first, n, blockSize, inodeSize) && InImage(first, blockSize, n.tree)
  {
    hide InodeWritten, Region, OnlyWithin, BlockSpan, FitsTree, Distinct, TilesFile, RunsApart, Inline;
    OnlyRegionLength(start, first, n.slot, inodeSize);
    var all := Footprint(n, shared, blockSize, inodeSize);
    assert all[0] == SlotSpan(n, inodeSize);
    InsideOne(SlotSpan(n, inodeSize), all, 0);
    RegionWithin(start, first, n.slot, inodeSize, all);
    assert forall i :: 0 <= i < |n.tree| ==> TreeSpans(n.tree, blockSize)[i] == BlockSpan(n.tree[i], blockSize);
  }

  lemma {:induction false} PartsInside(n: Placement, shared: bool, blockSize: nat, inodeSize: nat)
    ensures var all := Footprint(n, shared, blockSize, inodeSize);
            && (forall i :: 0 <= i < |n.tree| ==> Inside(TreeSpans(n.tree, blockSize)[i], all))
            && (forall i :: 0 <= i < |CopiedExtents(n, shared)| ==> Inside(DataSpans(CopiedExtents(n, shared), blockSize)[i], all))
  {
    hide BlockSpan, DataSpan, SlotSpan;
    var all := Footprint(n, shared, blockSize, inodeSize);
    var trees, runs := TreeSpans(n.tree, blockSize), DataSpans(CopiedExtents(n, shared), blockSize);
    forall i | 0 <= i < |n.tree|
      ensures Inside(trees[i], all)
    {
      assert all[1 + i] == trees[i];
      InsideOne(trees[i], all, 1 + i);
    }
    forall i | 0 <= i < |CopiedExtents(n, shared)|
      ensures Inside(runs[i], all)
    {
      assert all[1 + |trees| + i] == runs[i];
      InsideOne(runs[i], all, 1 + |trees| + i);
    }
  }

  lemma {:induction false} InodeKept(before: bytes, after: bytes, n: Placement, blockSize: nat, inodeSize: nat, spans: seq<Span>)
    requires InodeThere(before, n, blockSize, inodeSize) && OnlyWithin(before, after, spans)
    requires Apart([SlotSpan(n, inodeSize)], spans)
    ensures InodeThere(after, n, blockSize, inodeSize)
  {
    hide InodeWritten, Region, InSpans;
    assert [SlotSpan(n, inodeSize)][0] == Span(n.slot, n.slot + inodeSize);
    RegionKept(before, after, spans, n.slot, inodeSize);
  }

  lemma {:induction false} AfterTrees(start: bytes, first: bytes, second: bytes, n: Placement, shared: bool, blockSize: nat, inodeSize: nat)
    requires Writable(n, shared, blockSize, inodeSize, |start|)
    requires OnlyWithin(start, first, Footprint(n, shared, blockSize, inodeSize)) && InodeThere(first, n, blockSize, inodeSize)
    requires OnlyWithin(first, second, TreeSpans(n.tree, blockSize))
    ensures OnlyWithin(start, second, Footprint(n, shared, blockSize, inodeSize)) && InodeThere(second, n, blockSize, inodeSize)
    ensures |second| == |start|
    ensures n.isDir || !shared ==> RunsApart(n.extents, blockSize, |second|)
  {
    hide InodeThere, InSpans, Inside, FitsTree, Distinct, TilesFile, RunsApart, Inline, Footprint;
    PartsInside(n, shared, blockSize, inodeSize);
    WithinWider(first, second, TreeSpans(n.tree, blockSize), Footprint(n, shared, blockSize, inodeSize));
    WithinTwice(start, first, second, Footprint(n, shared, blockSize, inodeSize));
    InodeKept(first, second, n, blockSize, inodeSize, TreeSpans(n.tree, blockSize));
  }

  lemma {:induction false} InlineDone(second: bytes, n: Placement, blockSize: nat, inodeSize: nat)
    requires Inline(n.attributes, |n.data|) && InodeThere(second, n, blockSize, inodeSize) && FitsTree(n.extents, n.tree)
    ensures OnDisk(second, n, blockSize, inodeSize)
  {
    hide InodeWritten, FitsTree, Inline;
  }

  lemma {:induction false} LeavesKept(
    before: bytes, after: bytes, blockSize: nat, extents: seq<Extent>, tree: seq<nat>, spans: seq<Span>)
    requires LeavesAt(before, blockSize, extents, tree, |tree|) && OnlyWithin(before, after, spans)
    requires Apart(TreeSpans(tree, blockSize), spans)
    ensures LeavesAt(after, blockSize, extents, tree, |tree|)
  {
    hide IsLeaf, Region, InSpans;
    forall i | 0 <= i < |tree|
      ensures LeafAt(after, blockSize, extents, tree[i], i)
    {
      assert LeafAt(before, blockSize, extents, tree[i], i);
      assert TreeSpans(tree, blockSize)[i] == BlockSpan(tree[i], blockSize);
      RegionKept(before, after, spans, tree[i] * blockSize, blockSize);
    }
  }

  lemma {:induction false} AfterData(start: bytes, second: bytes, after: bytes, n: Placement, shared: bool, blockSize: nat, inodeSize: nat)
    requires Writable(n, shared, blockSize, inodeSize, |start|) && !Inline(n.attributes, |n.data|) && (n.isDir || !shared)
    requires OnlyWithin(start, second, Footprint(n, shared, blockSize, inodeSize)) && InodeThere(second, n, blockSize, inodeSize)
    requires LeavesAt(second, blockSize, n.extents, n.tree, |n.tree|)
    requires OnlyWithin(second, after, DataSpans(n.extents, blockSize)) && FileOnDisk(after, blockSize, n.extents, n.data)
    ensures OnlyWithin(start, after, Footprint(n, shared, blockSize, inodeSize)) && OnDisk(after, n, blockSize, inodeSize)
  {
    hide InSpans, Inside, FitsTree, Distinct, TilesFile, RunsApart, Inline, Footprint, LeavesAt, FileOnDisk, InodeWritten;
    PartsInside(n, shared, blockSize, inodeSize);
    WithinWider(second, after, DataSpans(n.extents, blockSize), Footprint(n, shared, blockSize, inodeSize));
    WithinTwice(start, second, after, Footprint(n, shared, blockSize, inodeSize));
    InodeKept(second, after, n, blockSize, inodeSize, DataSpans(n.extents, blockSize));
    LeavesKept(second, after, blockSize, n.extents, n.tree, DataSpans(n.extents, blockSize));
  }

  /** The data of a shared file lies apart from its own slot and tree blocks, so it is still there. */
  lemma {:induction false} DataStays(start: bytes, second: bytes, n: Placement, blockSize: nat, inodeSize: nat)
    requires Writable(n, true, blockSize, inodeSize, |start|) && !Inline(n.attributes, |n.data|) && !n.isDir
    requires InPlace(start, n, true, blockSize)
    requires OnlyWithin(start, second, Footprint(n, true, blockSize, inodeSize)) && InodeThere(second, n, blockSize, inodeSize)
    requires LeavesAt(second, blockSize, n.extents, n.tree, |n.tree|)
    ensures OnDisk(second, n, blockSize, inodeSize)
  {
    hide InSpans, FitsTree, Distinct, TilesFile, RunsApart, Inline, LeavesAt, FileOnDisk, InodeWritten, Apart, OnlyWithin, SlotSpan, TreeSpans, DataSpans;
    assert CopiedExtents(n, true) == [];
    OffOwnParts(n, blockSize, inodeSize);
    FileKept(start, second, n.data, n.extents, blockSize, Footprint(n, true, blockSize, inodeSize));
  }

  lemma {:induction false} OffOwnParts(n: Placement, blockSize: nat, inodeSize: nat)
    requires Apart([SlotSpan(n, inodeSize)], DataSpans(n.extents, blockSize)) && !n.isDir
    requires Apart(TreeSpans(n.tree, blockSize), DataSpans(n.extents, blockSize))
    ensures Apart(DataSpans(n.extents, blockSize), Footprint(n, true, blockSize, inodeSize))
  {
    hide SpansApart, SlotSpan, DataSpan, BlockSpan;
    var all, data, trees := Footprint(n, true, blockSize, inodeSize), DataSpans(n.extents, blockSize), TreeSpans(n.tree, blockSize);
    assert DataSpans(CopiedExtents(n, true), blockSize) == [];
    forall i, j | 0 <= i < |data| && 0 <= j < |all|
      ensures SpansApart(data[i], all[j])
    {
      if j == 0 {
        assert all[0] == [SlotSpan(n, inodeSize)][0];
        ApartBothWays([SlotSpan(n, inodeSize)][0], data[i]);
      } else {
        assert all[j] == trees[j - 1];
        ApartBothWays(trees[j - 1], data[i]);
      }
    }
  }

  lemma {:induction false} ApartBothWays(s: Span, t: Span)
    ensures SpansApart(s, t) <==> SpansApart(t, s)
  {
  }

  // ---- All nodes -------------------------------------------------------------------------------------------

  /** What any node reads is apart from what every other node writes. */
  ghost predicate FootprintsApart(nodes: seq<Placement>, shared: bool, blockSize: nat, inodeSize: nat) {
    forall i, j :: 0 <= i < |nodes| && 0 <= j < |nodes| && i != j ==>
      Apart(Footprint(nodes[i], false, blockSize, inodeSize), Footprint(nodes[j], shared, blockSize, inodeSize))
  }

  ghost predicate AllWritable(nodes: seq<Placement>, shared: bool, blockSize: nat, inodeSize: nat, imageSize: nat) {
    forall i :: 0 <= i < |nodes| ==> Writable(nodes[i], shared, blockSize, inodeSize, imageSize)
  }

  ghost predicate SlotsClear(content: bytes, nodes: seq<Placement>, inodeSize: nat, from: nat) {
    forall i :: from <= i < |nodes| ==> SlotClear(content, nodes[i], inodeSize)
  }

  ghost predicate AllInPlace(content: bytes, nodes: seq<Placement>, shared: bool, blockSize: nat, from: nat) {
    forall i :: from <= i < |nodes| ==> InPlace(content, nodes[i], shared, blockSize)
  }

  ghost predicate AllOnDisk(content: bytes, nodes: seq<Placement>, blockSize: nat, inodeSize: nat, n: nat)
    requires n <= |nodes|
  {
    forall i :: 0 <= i < n ==> OnDisk(content, nodes[i], blockSize, inodeSize)
  }

  /** Bytes outside every footprint are as before. */
  ghost predicate OnlyFootprints(before: bytes, after: bytes, nodes: seq<Placement>, shared: bool, blockSize: nat, inodeSize: nat) {
    |after| == |before| &&
    forall base: nat, len: nat ::
      base + len <= |before|
      && (forall i :: 0 <= i < |nodes| ==> Apart([Span(base, base + len)], Footprint(nodes[i], shared, blockSize, inodeSize)))
      ==> Region(after, base, len) == Region(before, base, len)
  }

  /**
   The write loop of `rebuild_groups_to`: at its end every node is on disk at once, whether its data was copied by
   the loop or shared blocks held it before.
   */
  method WriteNodes(image: File, nodes: seq<Placement>, shared: bool, blockSize: nat, inodeSize: nat)
    requires blockSize >= 4096 && inodeSize >= 128 && AllWritable(nodes, shared, blockSize, inodeSize, |image.content|)
    requires FootprintsApart(nodes, shared, blockSize, inodeSize) && SlotsClear(image.content, nodes, inodeSize, 0)
    requires AllInPlace(image.content, nodes, shared, blockSize, 0)
    modifies image
    ensures AllOnDisk(image.content, nodes, blockSize, inodeSize, |nodes|)
    ensures OnlyFootprints(old(image.content), image.content, nodes, shared, blockSize, inodeSize)
  {
    hide *;
    ghost var before := image.content;
    NodesStart(before, nodes, shared, blockSize, inodeSize);
    for i := 0 to |nodes|
      invariant |image.content| == |before|
      invariant AllOnDisk(image.content, nodes, blockSize, inodeSize, i)
      invariant SlotsClear(image.content, nodes, inodeSize, i) && AllInPlace(image.content, nodes, shared, blockSize, i)
      invariant OnlyFootprints(before, image.content, nodes, shared, blockSize, inodeSize)
    {
      ghost var now := image.content;
      NodeReady(now, nodes, shared, blockSize, inodeSize, i);
      WriteNode(image, nodes[i], shared, blockSize, inodeSize);
      NodeDone(before, now, image.content, nodes, shared, blockSize, inodeSize, i);
    }
  }

  lemma {:induction false} NodesStart(content: bytes, nodes: seq<Placement>, shared: bool, blockSize: nat, inodeSize: nat)
    ensures AllOnDisk(content, nodes, blockSize, inodeSize, 0) && OnlyFootprints(content, content, nodes, shared, blockSize, inodeSize)
  {
  }

  lemma {:induction false} NodeReady(content: bytes, nodes: seq<Placement>, shared: bool, blockSize: nat, inodeSize: nat, i: nat)
    requires i < |nodes| && AllWritable(nodes, shared, blockSize, inodeSize, |content|) && SlotsClear(content, nodes, inodeSize, i)
    requires AllInPlace(content, nodes, shared, blockSize, i)
    ensures Writable(nodes[i], shared, blockSize, inodeSize, |content|) && SlotClear(content, nodes[i], inodeSize)
    ensures InPlace(content, nodes[i], shared, blockSize)
  {
    hide Writable, SlotClear, InPlace;
  }

  /** A node on disk stays when another one writes apart from what it reads. */
  lemma {:induction false} NodeKept(before: bytes, after: bytes, n: Placement, blockSize: nat, inodeSize: nat, spans: seq<Span>)
    requires OnDisk(before, n, blockSize, inodeSize) && OnlyWithin(before, after, spans)
    requires Apart(Footprint(n, false, blockSize, inodeSize), spans)
    ensures OnDisk(after, n, blockSize, inodeSize)
  {
    hide InSpans, LeavesAt, FileOnDisk, InodeWritten, FitsTree, Inline, Apart, Region, OnlyWithin;
    FootprintParts(n, blockSize, inodeSize, spans);
    InodeKept(before, after, n, blockSize, inodeSize, spans);
    if !Inline(n.attributes, |n.data|) {
      LeavesKept(before, after, blockSize, n.extents, n.tree, spans);
      FileKept(before, after, n.data, n.extents, blockSize, spans);
    }
  }

  lemma {:induction false} InPlaceKept(
    before: bytes, after: bytes, n: Placement, shared: bool, blockSize: nat, spans: seq<Span>)
    requires InPlace(before, n, shared, blockSize) && OnlyWithin(before, after, spans)
    requires Apart(DataSpans(n.extents, blockSize), spans)
    ensures InPlace(after, n, shared, blockSize)
  {
    hide FileOnDisk, Apart, OnlyWithin, Inline, DataSpans;
    if shared && !n.isDir && !Inline(n.attributes, |n.data|) {
      FileKept(before, after, n.data, n.extents, blockSize, spans);
    }
  }

  lemma {:induction false} FootprintParts(n: Placement, blockSize: nat, inodeSize: nat, spans: seq<Span>)
    requires Apart(Footprint(n, false, blockSize, inodeSize), spans)
    ensures Apart([SlotSpan(n, inodeSize)], spans)
    ensures Apart(TreeSpans(n.tree, blockSize), spans) && Apart(DataSpans(n.extents, blockSize), spans)
  {
    hide BlockSpan, DataSpan, SlotSpan, SpansApart;
    var all := Footprint(n, false, blockSize, inodeSize);
    var trees, runs := TreeSpans(n.tree, blockSize), DataSpans(n.extents, blockSize);
    assert all[0] == SlotSpan(n, inodeSize);
    assert forall i :: 0 <= i < |trees| ==> trees[i] == all[1 + i];
    assert forall i :: 0 <= i < |runs| ==> runs[i] == all[1 + |trees| + i];
  }

  lemma {:induction false} FileKept(before: bytes, after: bytes, data: bytes, extents: seq<Extent>, blockSize: nat, spans: seq<Span>)
    requires FileOnDisk(before, blockSize, extents, data) && OnlyWithin(before, after, spans)
    requires Apart(DataSpans(extents, blockSize), spans)
    ensures FileOnDisk(after, blockSize, extents, data)
  {
    hide InSpans, High, Low, AllZero, Cursor, DataAt, DataSpan, OnlyWithin;
    forall i | 0 <= i < |extents|
      ensures PieceOnDisk(after, blockSize, extents, data, i)
    {
      assert PieceOnDisk(before, blockSize, extents, data, i);
      PieceFits(extents[i], blockSize, |data|);
      assert DataSpans(extents, blockSize)[i] == DataSpan(extents[i], blockSize);
      RegionKept(before, after, spans, DataAt(extents[i], blockSize), High(extents[i], blockSize, |data|) - Low(extents[i], blockSize));
      SameLengthWithin(before, after, spans);
    }
  }

  lemma {:induction false} SameLengthWithin(before: bytes, after: bytes, spans: seq<Span>)
    requires OnlyWithin(before, after, spans)
    ensures |after| == |before|
  {
  }

  lemma {:induction false} ApartSwap(a: seq<Span>, b: seq<Span>)
    requires Apart(a, b)
    ensures Apart(b, a)
  {
  }

  lemma {:induction false} NodeDone(
    before: bytes, now: bytes, after: bytes, nodes: seq<Placement>, shared: bool, blockSize: nat, inodeSize: nat, i: nat)
    requires i < |nodes| && FootprintsApart(nodes, shared, blockSize, inodeSize)
    requires AllOnDisk(now, nodes, blockSize, inodeSize, i) && SlotsClear(now, nodes, inodeSize, i)
    requires AllInPlace(now, nodes, shared, blockSize, i) && OnlyFootprints(before, now, nodes, shared, blockSize, inodeSize)
    requires OnlyWithin(now, after, Footprint(nodes[i], shared, blockSize, inodeSize)) && OnDisk(after, nodes[i], blockSize, inodeSize)
    ensures |after| == |now|
    ensures AllOnDisk(after, nodes, blockSize, inodeSize, i + 1) && SlotsClear(after, nodes, inodeSize, i + 1)
    ensures AllInPlace(after, nodes, shared, blockSize, i + 1) && OnlyFootprints(before, after, nodes, shared, blockSize, inodeSize)
  {
    hide OnDisk, Footprint, InSpans, Apart, Region, InPlace;
    var spans := Footprint(nodes[i], shared, blockSize, inodeSize);
    forall k | 0 <= k < i
      ensures OnDisk(after, nodes[k], blockSize, inodeSize)
    {
      NodeKept(now, after, nodes[k], blockSize, inodeSize, spans);
    }
    forall k | i + 1 <= k < |nodes|
      ensures SlotClear(after, nodes[k], inodeSize) && InPlace(after, nodes[k], shared, blockSize)
    {
      assert SlotClear(now, nodes[k], inodeSize) && InPlace(now, nodes[k], shared, blockSize);
      FootprintParts(nodes[k], blockSize, inodeSize, spans);
      RegionApart(now, after, spans, nodes[k].slot, inodeSize);
      InPlaceKept(now, after, nodes[k], shared, blockSize, spans);
    }
    forall base: nat, len: nat |
      base + len <= |before|
      && (forall k :: 0 <= k < |nodes| ==> Apart([Span(base, base + len)], Footprint(nodes[k], shared, blockSize, inodeSize)))
      ensures Region(after, base, len) == Region(before, base, len)
    {
      assert Apart([Span(base, base + len)], spans);
      RegionApart(now, after, spans, base, len);
    }
  }

  lemma {:induction false} RegionApart(before: bytes, after: bytes, spans: seq<Span>, base: nat, len: nat)
    requires OnlyWithin(before, after, spans) && base + len <= |before| && Apart([Span(base, base + len)], spans)
    ensures Region(after, base, len) == Region(before, base, len)
  {
    hide InSpans, Region, OnlyWithin;
    assert [Span(base, base + len)][0] == Span(base, base + len);
    RegionKept(before, after, spans, base, len);
  }
}
