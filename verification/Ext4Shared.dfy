/**
 Block sharing: file data goes through an index of block hashes, zero blocks become holes, and equal blocks are
 stored once. Nothing is assumed of the hash.
 */
module Ext4Shared {
  import opened Core
  import opened Arith
  import opened OutFile
  import opened Spans
  import opened Ext4Alloc
  import opened Ext4Content
  import opened Ext4Image
  import opened Ext4Owners

  // ---- Stored blocks ---------------------------------------------------------------------------------------

  /** The data blocks written so far are on the image. */
  ghost predicate Stored(content: bytes, blockSize: nat, data: map<nat, bytes>, total: nat) {
    && |content| == total * blockSize
    && forall b :: b in data ==> StoredBlock(content, blockSize, b, data[b])
  }

  ghost predicate StoredBlock(content: bytes, blockSize: nat, b: nat, block: bytes) {
    |block| == blockSize && b * blockSize + blockSize <= |content| && Region(content, b * blockSize, blockSize) == block
  }

  /** Written blocks keep their bytes for good. */
  predicate Extends(before: map<nat, bytes>, after: map<nat, bytes>) {
    forall b :: b in before ==> b in after && after[b] == before[b]
  }

  /** The index names written blocks only, and every written block under its hash. */
  ghost predicate Indexed(index: map<nat, seq<nat>>, data: map<nat, bytes>, hash: bytes -> nat) {
    && (forall h :: h in index ==> AllIn(index[h], data))
    && forall b :: b in data ==> hash(data[b]) in index && b in index[hash(data[b])]
  }

  ghost predicate BlankBlock(content: bytes, blockSize: nat, b: nat) {
    b * blockSize + blockSize <= |content| && Region(content, b * blockSize, blockSize) == Zeros(blockSize)
  }

  /** Apart from the data blocks the image is still zero. */
  ghost predicate Blank(content: bytes, blockSize: nat, data: map<nat, bytes>, total: nat) {
    forall b: nat :: b < total && b !in data ==> BlankBlock(content, blockSize, b)
  }

  predicate AllIn(blocks: seq<nat>, data: map<nat, bytes>) {
    forall i :: 0 <= i < |blocks| ==> blocks[i] in data
  }

  lemma {:induction false} ExtendsTwice(a: map<nat, bytes>, b: map<nat, bytes>, c: map<nat, bytes>)
    requires Extends(a, b) && Extends(b, c)
    ensures Extends(a, c)
  {
  }

  /** Another block on the image, next to those already there. */
  lemma {:induction false} StoreMore(content: bytes, blockSize: nat, data: map<nat, bytes>, total: nat, b: nat, block: bytes)
    requires blockSize > 0 && Stored(content, blockSize, data, total) && b !in data && b < total && |block| == blockSize
    ensures Stored(Overwrite(content, b * blockSize, block), blockSize, data[b := block], total)
    ensures Extends(data, data[b := block])
  {
    var after, more := Overwrite(content, b * blockSize, block), data[b := block];
    MulMonotone(b + 1, total, blockSize);
    MulDistributes(b, 1, blockSize);
    assert Region(after, b * blockSize, blockSize) == block;
    hide Overwrite, Region;
    forall c | c in more
      ensures StoredBlock(after, blockSize, c, more[c])
    {
      if c != b {
        assert StoredBlock(content, blockSize, c, data[c]);
        BlockKept(content, blockSize, b, block, c);
      }
    }
  }

  lemma {:induction false} BlankMore(content: bytes, blockSize: nat, data: map<nat, bytes>, total: nat, b: nat, block: bytes)
    requires blockSize > 0 && Stored(content, blockSize, data, total) && b < total && |block| == blockSize
    requires Blank(content, blockSize, data, total)
    ensures Blank(Overwrite(content, b * blockSize, block), blockSize, data[b := block], total)
  {
    MulMonotone(b + 1, total, blockSize);
    MulDistributes(b, 1, blockSize);
    hide Overwrite, Region;
    var after, more := Overwrite(content, b * blockSize, block), data[b := block];
    forall c: nat | c < total && c !in more
      ensures BlankBlock(after, blockSize, c)
    {
      assert c !in data && BlankBlock(content, blockSize, c);
      BlockKept(content, blockSize, b, block, c);
    }
  }

  lemma {:induction false} FreshBlank(total: nat, blockSize: nat)
    requires blockSize > 0
    ensures Stored(Zeros(total * blockSize), blockSize, map[], total) && Blank(Zeros(total * blockSize), blockSize, map[], total)
  {
    forall b: nat | b < total
      ensures BlankBlock(Zeros(total * blockSize), blockSize, b)
    {
      MulMonotone(b + 1, total, blockSize);
      MulDistributes(b, 1, blockSize);
    }
  }

  lemma {:induction false} BlockKept(content: bytes, blockSize: nat, b: nat, block: bytes, c: nat)
    requires b != c && |block| == blockSize > 0 && b * blockSize + blockSize <= |content| && c * blockSize + blockSize <= |content|
    ensures |Overwrite(content, b * blockSize, block)| == |content|
    ensures Region(Overwrite(content, b * blockSize, block), c * blockSize, blockSize) == Region(content, c * blockSize, blockSize)
  {
    if b < c {
      MulMonotone(b + 1, c, blockSize);
      MulDistributes(b, 1, blockSize);
    } else {
      MulMonotone(c + 1, b, blockSize);
      MulDistributes(c, 1, blockSize);
    }
    assert HasAt(content, c * blockSize, Region(content, c * blockSize, blockSize));
    OverwriteKeeps(content, b * blockSize, block, c * blockSize, Region(content, c * blockSize, blockSize));
  }

  lemma {:induction false} IndexMore(index: map<nat, seq<nat>>, data: map<nat, bytes>, hash: bytes -> nat, b: nat, block: bytes)
    requires Indexed(index, data, hash) && b !in data
    ensures var h := hash(block);
            Indexed(index[h := (if h in index then index[h] else []) + [b]], data[b := block], hash)
  {
    var h := hash(block);
    var listed := (if h in index then index[h] else []) + [b];
    var index', data' := index[h := listed], data[b := block];
    assert listed[|listed| - 1] == b;
    forall c | c in data'
      ensures hash(data'[c]) in index' && c in index'[hash(data'[c])]
    {
      if c != b && hash(data[c]) == h {
        var i :| 0 <= i < |index[h]| && index[h][i] == c;
        assert listed[i] == c;
      }
    }
  }

  // ---- How extents map a file ------------------------------------------------------------------------------

  /** Block `logical` of a file, zero past its end. */
  function BlockOf(content: bytes, logical: nat, blockSize: nat): (r: bytes)
    ensures |r| == blockSize
  {
    Window(content, logical * blockSize, blockSize)
  }

  predicate Covers(e: Extent, logical: nat) {
    e.logical <= logical < e.logical + e.length
  }

  /** Extents in file order, the last ending by `until`. */
  predicate InFileOrder(extents: seq<Extent>, until: nat) {
    && (forall i, j :: 0 <= i < j < |extents| ==> extents[i].logical + extents[i].length <= extents[j].logical)
    && forall i :: 0 <= i < |extents| ==> extents[i].length > 0 && extents[i].logical + extents[i].length <= until
  }

  predicate Covered(extents: seq<Extent>, logical: nat) {
    exists i :: 0 <= i < |extents| && Covers(extents[i], logical)
  }

  /** The block an extent maps `logical` to was written with that block of the file. */
  ghost predicate MapsBlock(data: map<nat, bytes>, blockSize: nat, e: Extent, content: bytes, logical: nat) {
    Covers(e, logical) ==>
      var b := e.start + (logical - e.logical);
      b in data && data[b] == BlockOf(content, logical, blockSize)
  }

  /** Every block of the file below `until` is mapped to a block with its bytes, or zero and unmapped. */
  ghost predicate MapsFile(data: map<nat, bytes>, blockSize: nat, extents: seq<Extent>, content: bytes, until: nat) {
    && InFileOrder(extents, until)
    && (forall i: nat, logical: nat :: i < |extents| && Covers(extents[i], logical) ==>
          MapsBlock(data, blockSize, extents[i], content, logical))
    && forall logical: nat :: logical < until && !Covered(extents, logical) ==> IsZero(BlockOf(content, logical, blockSize))
  }

  lemma {:induction false} MapsGrow(before: map<nat, bytes>, after: map<nat, bytes>, blockSize: nat, extents: seq<Extent>, content: bytes, until: nat)
    requires MapsFile(before, blockSize, extents, content, until) && Extends(before, after)
    ensures MapsFile(after, blockSize, extents, content, until)
  {
    hide BlockOf, Covered;
    forall i: nat, logical: nat | i < |extents| && Covers(extents[i], logical)
      ensures MapsBlock(after, blockSize, extents[i], content, logical)
    {
      assert MapsBlock(before, blockSize, extents[i], content, logical);
    }
  }

  /** A zero block is left out. */
  lemma {:induction false} MapsHole(data: map<nat, bytes>, blockSize: nat, extents: seq<Extent>, content: bytes, until: nat)
    requires MapsFile(data, blockSize, extents, content, until) && IsZero(BlockOf(content, until, blockSize))
    ensures MapsFile(data, blockSize, extents, content, until + 1)
  {
    hide BlockOf, Covered, IsZero;
  }

  /** The last extent grows by the block behind it. */
  function Merged(extents: seq<Extent>): seq<Extent>
    requires extents != []
  {
    var k := |extents| - 1;
    extents[..k] + [Extent(extents[k].logical, extents[k].start, extents[k].length + 1)]
  }

  lemma {:induction false} MergedCovers(extents: seq<Extent>, logical: nat)
    requires extents != []
    ensures var last := extents[|extents| - 1];
            Covered(Merged(extents), logical) <==> Covered(extents, logical) || logical == last.logical + last.length
  {
    var k, more := |extents| - 1, Merged(extents);
    assert forall i :: 0 <= i < k ==> more[i] == extents[i];
    if Covered(extents, logical) {
      var i :| 0 <= i < |extents| && Covers(extents[i], logical);
      assert Covers(more[i], logical);
    }
    if logical == extents[k].logical + extents[k].length {
      assert Covers(more[k], logical);
    }
    if Covered(more, logical) {
      var i :| 0 <= i < |more| && Covers(more[i], logical);
      assert Covers(extents[i], logical) || (i == k && logical == extents[k].logical + extents[k].length);
    }
  }

  lemma {:induction false} MapsMerge(data: map<nat, bytes>, blockSize: nat, extents: seq<Extent>, content: bytes, until: nat)
    requires MapsFile(data, blockSize, extents, content, until) && extents != []
    requires var last := extents[|extents| - 1];
             && last.logical + last.length == until && last.start + last.length in data
             && data[last.start + last.length] == BlockOf(content, until, blockSize)
    ensures MapsFile(data, blockSize, Merged(extents), content, until + 1)
  {
    hide BlockOf, Covered, IsZero;
    var k, more := |extents| - 1, Merged(extents);
    assert forall i :: 0 <= i < k ==> more[i] == extents[i];
    forall i: nat, logical: nat | i < |more| && Covers(more[i], logical)
      ensures MapsBlock(data, blockSize, more[i], content, logical)
    {
      if i < k || logical < until {
        assert MapsBlock(data, blockSize, extents[i], content, logical);
      }
    }
    forall logical: nat | logical < until + 1 && !Covered(more, logical)
      ensures IsZero(BlockOf(content, logical, blockSize))
    {
      MergedCovers(extents, logical);
    }
  }

  lemma {:induction false} PushCovers(extents: seq<Extent>, e: Extent, logical: nat)
    ensures Covered(extents + [e], logical) <==> Covered(extents, logical) || Covers(e, logical)
  {
    var more := extents + [e];
    if Covered(extents, logical) {
      var i :| 0 <= i < |extents| && Covers(extents[i], logical);
      assert Covers(more[i], logical);
    }
    if Covers(e, logical) {
      assert Covers(more[|extents|], logical);
    }
  }

  lemma {:induction false} MapsPush(data: map<nat, bytes>, blockSize: nat, extents: seq<Extent>, content: bytes, until: nat, b: nat)
    requires MapsFile(data, blockSize, extents, content, until)
    requires b in data && data[b] == BlockOf(content, until, blockSize)
    ensures MapsFile(data, blockSize, extents + [Extent(until, b, 1)], content, until + 1)
  {
    hide BlockOf, Covered, IsZero;
    var e := Extent(until, b, 1);
    var more := extents + [e];
    forall i: nat, logical: nat | i < |more| && Covers(more[i], logical)
      ensures MapsBlock(data, blockSize, more[i], content, logical)
    {
      if i < |extents| {
        assert MapsBlock(data, blockSize, extents[i], content, logical);
      }
    }
    forall logical: nat | logical < until + 1 && !Covered(more, logical)
      ensures IsZero(BlockOf(content, logical, blockSize))
    {
      PushCovers(extents, e, logical);
    }
  }

  /** No extent covers a zero block: zero blocks are left out as holes. */
  ghost predicate NoZeroBlocks(extents: seq<Extent>, content: bytes, blockSize: nat) {
    forall i: nat, logical: nat :: i < |extents| && Covers(extents[i], logical) ==> !IsZero(BlockOf(content, logical, blockSize))
  }

  lemma {:induction false} NoZeroMerge(extents: seq<Extent>, content: bytes, blockSize: nat)
    requires NoZeroBlocks(extents, content, blockSize) && extents != []
    requires var last := extents[|extents| - 1]; !IsZero(BlockOf(content, last.logical + last.length, blockSize))
    ensures NoZeroBlocks(Merged(extents), content, blockSize)
  {
    hide BlockOf, IsZero;
    var k, more := |extents| - 1, Merged(extents);
    assert forall i :: 0 <= i < k ==> more[i] == extents[i];
    forall i: nat, logical: nat | i < |more| && Covers(more[i], logical)
      ensures !IsZero(BlockOf(content, logical, blockSize))
    {
      if i < k || logical < extents[k].logical + extents[k].length {
        assert Covers(extents[i], logical);
      }
    }
  }

  lemma {:induction false} NoZeroPush(extents: seq<Extent>, content: bytes, blockSize: nat, logical: nat, b: nat)
    requires NoZeroBlocks(extents, content, blockSize) && !IsZero(BlockOf(content, logical, blockSize))
    ensures NoZeroBlocks(extents + [Extent(logical, b, 1)], content, blockSize)
  {
    hide BlockOf, IsZero;
  }

  /** The block `b` as the next one of the file: it extends the last extent, or starts one. */
  function Grown(extents: seq<Extent>, logical: nat, b: nat): (r: seq<Extent>) {
    if extents != [] && extents[|extents| - 1].logical + extents[|extents| - 1].length == logical
       && extents[|extents| - 1].start + extents[|extents| - 1].length == b
    then Merged(extents) else extents + [Extent(logical, b, 1)]
  }

  lemma {:induction false} GrownMaps(data: map<nat, bytes>, blockSize: nat, extents: seq<Extent>, content: bytes, logical: nat, b: nat)
    requires MapsFile(data, blockSize, extents, content, logical) && b in data && data[b] == BlockOf(content, logical, blockSize)
    ensures MapsFile(data, blockSize, Grown(extents, logical, b), content, logical + 1)
    ensures |extents| <= |Grown(extents, logical, b)| <= |extents| + 1
    ensures NoZeroBlocks(extents, content, blockSize) && !IsZero(BlockOf(content, logical, blockSize)) ==>
              NoZeroBlocks(Grown(extents, logical, b), content, blockSize)
  {
    hide MapsFile, BlockOf, IsZero, NoZeroBlocks;
    var last := if extents == [] then Extent(0, 0, 0) else extents[|extents| - 1];
    if extents != [] && last.logical + last.length == logical && last.start + last.length == b {
      MapsMerge(data, blockSize, extents, content, logical);
      if NoZeroBlocks(extents, content, blockSize) && !IsZero(BlockOf(content, logical, blockSize)) {
        NoZeroMerge(extents, content, blockSize);
      }
    } else {
      MapsPush(data, blockSize, extents, content, logical, b);
      if NoZeroBlocks(extents, content, blockSize) && !IsZero(BlockOf(content, logical, blockSize)) {
        NoZeroPush(extents, content, blockSize, logical, b);
      }
    }
  }

  // ---- A mapped file is on disk ----------------------------------------------------------------------------

  lemma {:induction false} ByteOfBlock(content: bytes, p: nat, blockSize: nat)
    requires blockSize > 0 && p < |content|
    ensures p % blockSize < blockSize && |BlockOf(content, p / blockSize, blockSize)| == blockSize
    ensures BlockOf(content, p / blockSize, blockSize)[p % blockSize] == content[p]
  {
    var block := BlockOf(content, p / blockSize, blockSize);
    assert p == p / blockSize * blockSize + p % blockSize;
    assert block[p % blockSize] == ByteAt(content, p / blockSize * blockSize + p % blockSize);
  }

  lemma {:induction false} BlockBetween(p: nat, a: nat, b: nat, blockSize: nat)
    requires blockSize > 0 && a * blockSize <= p < b * blockSize
    ensures a <= p / blockSize < b
  {
    assert p == p / blockSize * blockSize + p % blockSize;
    if p / blockSize < a {
      MulMonotone(p / blockSize + 1, a, blockSize);
    }
    if p / blockSize >= b {
      MulMonotone(b, p / blockSize, blockSize);
    }
  }

  lemma {:induction false} ByteOfStored(content: bytes, blockSize: nat, b: nat, block: bytes, r: nat)
    requires StoredBlock(content, blockSize, b, block) && r < blockSize
    ensures b * blockSize + r < |content| && content[b * blockSize + r] == block[r]
  {
    assert Region(content, b * blockSize, blockSize)[r] == content[b * blockSize + r];
  }

  /** A byte of the file under an extent is found where the extent says. */
  lemma {:induction false} MappedByte(
    image: bytes, blockSize: nat, data: map<nat, bytes>, total: nat, e: Extent, content: bytes, p: nat)
    requires blockSize > 0 && Stored(image, blockSize, data, total) && p < |content|
    requires Low(e, blockSize) <= p < (e.logical + e.length) * blockSize
    requires forall logical :: Covers(e, logical) ==> MapsBlock(data, blockSize, e, content, logical)
    ensures var at := DataAt(e, blockSize) + (p - Low(e, blockSize));
            at < |image| && image[at] == content[p]
  {
    hide BlockOf;
    var logical := p / blockSize;
    BlockBetween(p, e.logical, e.logical + e.length, blockSize);
    assert Covers(e, logical) && MapsBlock(data, blockSize, e, content, logical);
    var b := e.start + (logical - e.logical);
    ByteOfBlock(content, p, blockSize);
    assert StoredBlock(image, blockSize, b, data[b]);
    ByteOfStored(image, blockSize, b, data[b], p % blockSize);
    SamePlace(e, logical - e.logical, p, blockSize);
  }

  /** Byte `p` of the file lies as far into its extent as its image byte into the extent's blocks. */
  lemma {:induction false} SamePlace(e: Extent, k: nat, p: nat, blockSize: nat)
    requires blockSize > 0 && p / blockSize == e.logical + k
    ensures (e.start + k) * blockSize + p % blockSize == DataAt(e, blockSize) + (p - Low(e, blockSize))
  {
    assert p == p / blockSize * blockSize + p % blockSize;
    MulDistributes(e.logical, k, blockSize);
    MulDistributes(e.start, k, blockSize);
  }

  lemma {:induction false} ExtentRoom(e: Extent, until: nat, blockSize: nat, size: nat)
    requires blockSize > 0 && e.length > 0 && e.logical + e.length <= until && until == DivCeil(size, blockSize)
    ensures Low(e, blockSize) < High(e, blockSize, size) <= size
  {
    hide DivCeil;
    DivCeilMeaning(size, blockSize);
    MulMonotone(e.logical + 1, until, blockSize);
    MulDistributes(e.logical, 1, blockSize);
    MulMonotone(e.logical + 1, e.logical + e.length, blockSize);
  }

  lemma {:induction false} CursorBelow(extents: seq<Extent>, i: nat, blockSize: nat, size: nat, until: nat)
    requires i < |extents| && InFileOrder(extents, until)
    ensures Cursor(extents, i, blockSize, size) <= Low(extents[i], blockSize)
  {
    if i > 0 {
      MulMonotone(extents[i - 1].logical + extents[i - 1].length, extents[i].logical, blockSize);
    }
  }

  /** Between two extents nothing is covered. */
  lemma {:induction false} GapUncovered(extents: seq<Extent>, i: nat, until: nat, logical: nat)
    requires i <= |extents| && InFileOrder(extents, until)
    requires i > 0 ==> extents[i - 1].logical + extents[i - 1].length <= logical
    requires i < |extents| ==> logical < extents[i].logical
    ensures !Covered(extents, logical)
  {
    assert forall j :: 0 <= j < |extents| ==> !Covers(extents[j], logical);
  }

  /** The hole in front of extent `i`, or behind the last one, is zero. */
  lemma {:induction false} GapZero(data: map<nat, bytes>, blockSize: nat, extents: seq<Extent>, content: bytes, i: nat)
    requires blockSize > 0 && i <= |extents| && MapsFile(data, blockSize, extents, content, DivCeil(|content|, blockSize))
    ensures AllZero(content, Cursor(extents, i, blockSize, |content|),
                    if i < |extents| then Low(extents[i], blockSize) else |content|)
  {
    var from, until := Cursor(extents, i, blockSize, |content|), if i < |extents| then Low(extents[i], blockSize) else |content|;
    var blocks := DivCeil(|content|, blockSize);
    hide DivCeil, BlockOf, Covered;
    forall p | from <= p < until && p < |content|
      ensures content[p] == 0
    {
      DivCeilMeaning(|content|, blockSize);
      BlockBetween(p, 0, blocks, blockSize);
      GapBlock(extents, i, blockSize, |content|, p);
      GapUncovered(extents, i, blocks, p / blockSize);
      ByteOfBlock(content, p, blockSize);
    }
  }

  lemma {:induction false} GapBlock(extents: seq<Extent>, i: nat, blockSize: nat, size: nat, p: nat)
    requires blockSize > 0 && i <= |extents| && Cursor(extents, i, blockSize, size) <= p < size
    requires i < |extents| ==> p < Low(extents[i], blockSize)
    ensures i > 0 ==> extents[i - 1].logical + extents[i - 1].length <= p / blockSize
    ensures i < |extents| ==> p / blockSize < extents[i].logical
  {
    if i > 0 {
      var end := extents[i - 1].logical + extents[i - 1].length;
      MulMonotone(p / blockSize + 1, p / blockSize + 1 + end, blockSize);
      assert p < (p / blockSize + 1 + end) * blockSize by {
        assert p == p / blockSize * blockSize + p % blockSize;
        MulDistributes(p / blockSize, 1, blockSize);
      }
      BlockBetween(p, end, p / blockSize + 1 + end, blockSize);
    }
    if i < |extents| {
      BlockBetween(p, 0, extents[i].logical, blockSize);
    }
  }

  lemma {:induction false} MappedPiece(
    image: bytes, blockSize: nat, data: map<nat, bytes>, total: nat, extents: seq<Extent>, content: bytes, i: nat)
    requires blockSize > 0 && Stored(image, blockSize, data, total) && i < |extents|
    requires MapsFile(data, blockSize, extents, content, DivCeil(|content|, blockSize))
    ensures PieceOnDisk(image, blockSize, extents, content, i)
  {
    hide DivCeil, BlockOf, Covered, Stored, MapsBlock, AllZero;
    var e := extents[i];
    GapZero(data, blockSize, extents, content, i);
    ExtentRoom(e, DivCeil(|content|, blockSize), blockSize, |content|);
    CursorBelow(extents, i, blockSize, |content|, DivCeil(|content|, blockSize));
    var low, high, at := Low(e, blockSize), High(e, blockSize, |content|), DataAt(e, blockSize);
    forall p | low <= p < high
      ensures ByteThere(image, at, content, low, p)
    {
      MappedByte(image, blockSize, data, total, e, content, p);
    }
    PieceThere(image, at, content, low, high);
  }

  predicate ByteThere(image: bytes, at: nat, content: bytes, low: nat, p: nat) {
    low <= p < |content| && at + (p - low) < |image| && image[at + (p - low)] == content[p]
  }

  lemma {:induction false} PieceThere(image: bytes, at: nat, content: bytes, low: nat, high: nat)
    requires low < high <= |content|
    requires forall p :: low <= p < high ==> ByteThere(image, at, content, low, p)
    ensures HasAt(image, at, content[low..high])
  {
    assert ByteThere(image, at, content, low, high - 1);
    forall k | 0 <= k < high - low
      ensures image[at..at + (high - low)][k] == content[low..high][k]
    {
      assert ByteThere(image, at, content, low, low + k);
    }
  }

  /** A file mapped in full is on disk: each extent holds its bytes, and holes are zero. */
  lemma {:induction false} MappedFileOnDisk(
    image: bytes, blockSize: nat, data: map<nat, bytes>, total: nat, extents: seq<Extent>, content: bytes)
    requires blockSize > 0 && Stored(image, blockSize, data, total)
    requires MapsFile(data, blockSize, extents, content, DivCeil(|content|, blockSize))
    ensures FileOnDisk(image, blockSize, extents, content)
  {
    hide DivCeil, MapsFile, Stored, PieceOnDisk, AllZero, Cursor;
    forall i | 0 <= i < |extents|
      ensures PieceOnDisk(image, blockSize, extents, content, i)
    {
      MappedPiece(image, blockSize, data, total, extents, content, i);
    }
    GapZero(data, blockSize, extents, content, |extents|);
  }

  /** Merging needs no cap: metadata at the start of every group keeps any extent within 32767 blocks. */
  lemma {:induction false} MergedStayShort(
    data: map<nat, bytes>, blockSize: nat, extents: seq<Extent>, content: bytes, until: nat, bpg: nat, meta: nat, i: nat)
    requires MapsFile(data, blockSize, extents, content, until) && i < |extents|
    requires 0 < meta <= bpg <= 32768 && forall b :: b in data ==> !IsMeta(b, bpg, meta)
    ensures extents[i].length <= MAX_EXTENT
  {
    hide IsMeta, BlockOf, Covered;
    var e := extents[i];
    forall b | e.start <= b < e.start + e.length
      ensures !IsMeta(b, bpg, meta)
    {
      var logical := e.logical + (b - e.start);
      assert Covers(e, logical) && MapsBlock(data, blockSize, e, content, logical);
    }
    DataRunInOneGroup(e.start, e.length, bpg, meta);
  }

  // ---- The builder -----------------------------------------------------------------------------------------

  /** No two written blocks hold the same bytes. */
  predicate NoDuplicates(data: map<nat, bytes>) {
    forall a, b :: a in data && b in data && data[a] == data[b] ==> a == b
  }

  lemma {:induction false} StillNoDuplicates(data: map<nat, bytes>, b: nat, block: bytes)
    requires NoDuplicates(data) && block !in data.Values
    ensures NoDuplicates(data[b := block])
  {
    var more := data[b := block];
    forall x, y | x in more && y in more && more[x] == more[y]
      ensures x == y
    {
      if x != b {
        assert data[x] in data.Values;
      }
      if y != b {
        assert data[y] in data.Values;
      }
    }
  }

  lemma {:induction false} NothingMappedYet(data: map<nat, bytes>, blockSize: nat, content: bytes)
    ensures MapsFile(data, blockSize, [], content, 0) && NoZeroBlocks([], content, blockSize)
  {
  }

  lemma {:induction false} CandidatesWritten(index: map<nat, seq<nat>>, data: map<nat, bytes>, hash: bytes -> nat, h: nat)
    requires Indexed(index, data, hash) && h in index
    ensures AllIn(index[h], data)
  {
  }

  /** A written block with these bytes is among the candidates of their hash. */
  lemma {:induction false} NoneMissed(index: map<nat, seq<nat>>, data: map<nat, bytes>, hash: bytes -> nat, block: bytes)
    requires Indexed(index, data, hash) && block in data.Values
    ensures hash(block) in index && exists i :: 0 <= i < |index[hash(block)]| && index[hash(block)][i] in data && data[index[hash(block)][i]] == block
  {
    var b :| b in data && data[b] == block;
    assert b in index[hash(data[b])];
    var i :| 0 <= i < |index[hash(block)]| && index[hash(block)][i] == b;
  }

  lemma {:induction false} OwnedPrefix(runs: seq<Run>, more: seq<Run>)
    ensures forall b :: Owned(b, runs) ==> Owned(b, runs + more)
  {
    var all := runs + more;
    forall b | Owned(b, runs)
      ensures Owned(b, all)
    {
      var i :| 0 <= i < |runs| && InRun(b, runs[i]);
      assert InRun(b, all[i]);
    }
  }

  /** Blocks of new extents were not owned before. */
  lemma {:induction false} OwnBlocksApart(used: seq<bool>, next: nat, runs: seq<Run>, extents: seq<Extent>, bpg: nat, meta: nat)
    requires bpg > 0 && Partition(used, next, runs + RunsOf(extents), bpg, meta)
    ensures FreshExtents(extents, runs)
  {
    hide Count, IsMeta;
    var all := runs + RunsOf(extents);
    forall i, b | 0 <= i < |extents| && InRun(b, Run(extents[i].start, extents[i].length))
      ensures !Owned(b, runs)
    {
      assert all[|runs| + i] == Run(extents[i].start, extents[i].length);
      if Owned(b, runs) {
        var j :| 0 <= j < |runs| && InRun(b, runs[j]);
        RunsOrdered(all, next, j, |runs| + i);
        assert false;
      }
    }
  }

  lemma {:induction false} FreeNotOwned(used: seq<bool>, next: nat, runs: seq<Run>, bpg: nat, meta: nat, b: nat)
    requires bpg > 0 && Partition(used, next, runs, bpg, meta) && b < |used| && !used[b]
    ensures !Owned(b, runs)
  {
    hide Count;
  }

  lemma {:induction false} RunsOrdered(runs: seq<Run>, next: nat, j: nat, k: nat)
    requires Ascending(runs, next) && j < k < |runs|
    ensures runs[j].start + runs[j].length <= runs[k].start
  {
  }

  /** None of the blocks of `extents` had an owner before. */
  ghost predicate FreshExtents(extents: seq<Extent>, before: seq<Run>) {
    forall i, b :: 0 <= i < |extents| && InRun(b, Run(extents[i].start, extents[i].length)) ==> !Owned(b, before)
  }

  /** None of the blocks of `extents` is a shared block. */
  predicate OffData(extents: seq<Extent>, data: map<nat, bytes>) {
    forall i, b :: 0 <= i < |extents| && InRun(b, Run(extents[i].start, extents[i].length)) ==> b !in data
  }

  /** Blocks written since belong to nobody before. */
  ghost predicate NewBlocks(before: map<nat, bytes>, after: map<nat, bytes>, runs: seq<Run>) {
    forall b :: b in after && b !in before ==> !Owned(b, runs)
  }

  ghost predicate MoreOwned(before: seq<Run>, after: seq<Run>) {
    forall b: nat :: Owned(b, before) ==> Owned(b, after)
  }

  /** Nothing was taken but for the blocks of `extents`. */
  ghost predicate TakenFor(before: seq<Run>, after: seq<Run>, extents: seq<Extent>) {
    forall b: nat :: Owned(b, after) ==> Owned(b, before) || Owned(b, RunsOf(extents))
  }

  /** Every taken block is a block of some file. */
  ghost predicate NothingLost(runs: seq<Run>, files: seq<seq<Extent>>) {
    forall b: nat :: Owned(b, runs) ==> exists i :: 0 <= i < |files| && Owned(b, RunsOf(files[i]))
  }

  lemma {:induction false} NothingTaken(runs: seq<Run>)
    ensures TakenFor(runs, runs, []) && runs + RunsOf([]) == runs
  {
  }

  lemma {:induction false} TakenOwn(runs: seq<Run>, extents: seq<Extent>)
    ensures TakenFor(runs, runs + RunsOf(extents), extents)
  {
    var own := RunsOf(extents);
    forall b: nat | Owned(b, runs + own)
      ensures Owned(b, runs) || Owned(b, own)
    {
      var i :| 0 <= i < |runs + own| && InRun(b, (runs + own)[i]);
      if i < |runs| {
        assert InRun(b, runs[i]);
      } else {
        assert InRun(b, own[i - |runs|]);
      }
    }
  }

  /** What the next block of a file does to its extents' blocks. */
  lemma {:induction false} GrownOwned(extents: seq<Extent>, logical: nat, b: nat)
    ensures forall x: nat :: Owned(x, RunsOf(Grown(extents, logical, b))) <==> Owned(x, RunsOf(extents)) || x == b
  {
    var more := Grown(extents, logical, b);
    var own, grown, k := RunsOf(extents), RunsOf(more), |extents| - 1;
    forall x: nat
      ensures Owned(x, grown) <==> Owned(x, own) || x == b
    {
      if Owned(x, own) {
        var i :| 0 <= i < |own| && InRun(x, own[i]);
        assert InRun(x, grown[i]);
      }
      if x == b {
        assert InRun(x, grown[|more| - 1]);
      }
      if Owned(x, grown) {
        var i :| 0 <= i < |grown| && InRun(x, grown[i]);
        if x != b {
          assert i < |own| && InRun(x, own[i]);
        }
      }
    }
  }

  /** The next block of a file was there before, or is taken for it. */
  lemma {:induction false} TakenMore(before: seq<Run>, now: seq<Run>, after: seq<Run>, extents: seq<Extent>, logical: nat, b: nat)
    requires TakenFor(before, now, extents) && (after == now || after == now + [Run(b, 1)])
    ensures TakenFor(before, after, Grown(extents, logical, b))
  {
    hide Grown;
    GrownOwned(extents, logical, b);
    OwnedMore(now, Run(b, 1));
    hide Owned;
  }

  lemma {:induction false} LosesNothing(before: seq<Run>, after: seq<Run>, files: seq<seq<Extent>>, extents: seq<Extent>)
    requires NothingLost(before, files) && TakenFor(before, after, extents)
    ensures NothingLost(after, files + [extents])
  {
    hide Owned, RunsOf;
    var all := files + [extents];
    forall b: nat | Owned(b, after)
      ensures exists i :: 0 <= i < |all| && Owned(b, RunsOf(all[i]))
    {
      if Owned(b, before) {
        var i :| 0 <= i < |files| && Owned(b, RunsOf(files[i]));
        assert all[i] == files[i];
      } else {
        assert all[|files|] == extents;
      }
    }
  }

  /** Where an extent has a block of the file. */
  function BlockUnder(e: Extent, logical: nat): int {
    e.start + (logical - e.logical)
  }

  /** Equal blocks of shared files are one block of the image. */
  ghost predicate StoredOnce(nodes: seq<SharedNode>, files: seq<seq<Extent>>, blockSize: nat)
    requires |files| == |nodes|
  {
    forall i: nat, j: nat, x: nat, y: nat, k: nat, l: nat ::
      i < |nodes| && j < |nodes| && nodes[i].Shared? && nodes[j].Shared? && x < |files[i]| && y < |files[j]|
      && Covers(files[i][x], k) && Covers(files[j][y], l)
      && BlockOf(nodes[i].content, k, blockSize) == BlockOf(nodes[j].content, l, blockSize) ==>
        BlockUnder(files[i][x], k) == BlockUnder(files[j][y], l)
  }

  lemma {:induction false} OnceStored(data: map<nat, bytes>, runs: seq<Run>, nodes: seq<SharedNode>, files: seq<seq<Extent>>, blockSize: nat)
    requires blockSize > 0 && |files| == |nodes| && NoDuplicates(data)
    requires forall i :: 0 <= i < |nodes| ==> NodeMapped(data, runs, blockSize, nodes[i], files[i])
    ensures StoredOnce(nodes, files, blockSize)
  {
    hide BlockOf, Covered, DivCeil, NodeMapped;
    forall i: nat, j: nat, x: nat, y: nat, k: nat, l: nat |
      i < |nodes| && j < |nodes| && nodes[i].Shared? && nodes[j].Shared? && x < |files[i]| && y < |files[j]|
      && Covers(files[i][x], k) && Covers(files[j][y], l)
      && BlockOf(nodes[i].content, k, blockSize) == BlockOf(nodes[j].content, l, blockSize)
      ensures BlockUnder(files[i][x], k) == BlockUnder(files[j][y], l)
    {
      SharedMapped(data, runs, blockSize, nodes[i], files[i]);
      SharedMapped(data, runs, blockSize, nodes[j], files[j]);
      assert MapsBlock(data, blockSize, files[i][x], nodes[i].content, k);
      assert MapsBlock(data, blockSize, files[j][y], nodes[j].content, l);
    }
  }

  /** A node in shared mode: an inline link, a directory or an empty file with blocks of its own, or a shared file. */
  datatype SharedNode = InlineLink | Own(size: nat) | Shared(content: bytes)

  /** What placing a node achieves: its file is mapped, or its own blocks are apart from the shared ones. */
  ghost predicate NodeMapped(data: map<nat, bytes>, runs: seq<Run>, blockSize: nat, node: SharedNode, extents: seq<Extent>)
    requires blockSize > 0
  {
    match node
    case InlineLink => extents == []
    case Own(size) => MapsBlocks(extents, DivCeil(size, blockSize)) && OffData(extents, data) && AllOwned(extents, runs)
    case Shared(content) => MapsFile(data, blockSize, extents, content, DivCeil(|content|, blockSize))
  }

  lemma {:induction false} NodeStaysMapped(
    before: map<nat, bytes>, after: map<nat, bytes>, runs: seq<Run>, more: seq<Run>, blockSize: nat, node: SharedNode,
    extents: seq<Extent>)
    requires blockSize > 0 && NodeMapped(before, runs, blockSize, node, extents)
    requires Extends(before, after) && NewBlocks(before, after, runs) && MoreOwned(runs, more)
    ensures NodeMapped(after, more, blockSize, node, extents)
  {
    hide Owned, MapsBlocks, DivCeil, InRun, MapsFile;
    if node.Shared? {
      MapsGrow(before, after, blockSize, extents, node.content, DivCeil(|node.content|, blockSize));
    }
  }

  lemma {:induction false} EarlierStayMapped(
    before: map<nat, bytes>, after: map<nat, bytes>, runs: seq<Run>, more: seq<Run>, blockSize: nat, nodes: seq<SharedNode>,
    files: seq<seq<Extent>>)
    requires blockSize > 0 && |files| <= |nodes|
    requires forall k :: 0 <= k < |files| ==> NodeMapped(before, runs, blockSize, nodes[k], files[k])
    requires Extends(before, after) && NewBlocks(before, after, runs) && MoreOwned(runs, more)
    ensures forall k :: 0 <= k < |files| ==> NodeMapped(after, more, blockSize, nodes[k], files[k])
  {
    hide NodeMapped, Extends, NewBlocks, MoreOwned;
    forall k | 0 <= k < |files|
      ensures NodeMapped(after, more, blockSize, nodes[k], files[k])
    {
      NodeStaysMapped(before, after, runs, more, blockSize, nodes[k], files[k]);
    }
  }

  lemma {:induction false} OwnExtentsOwned(runs: seq<Run>, extents: seq<Extent>)
    ensures AllOwned(extents, runs + RunsOf(extents))
  {
    var all := runs + RunsOf(extents);
    forall i: nat, b: nat | i < |extents| && InRun(b, Run(extents[i].start, extents[i].length))
      ensures Owned(b, all)
    {
      assert all[|runs| + i] == Run(extents[i].start, extents[i].length);
    }
  }

  /** The extents of a node as the write phase needs them: blocks of its own ascend, those of a shared file are in file order. */
  ghost predicate NodeShaped(node: SharedNode, extents: seq<Extent>, total: nat, blockSize: nat)
    requires blockSize > 0
  {
    match node
    case InlineLink => extents == []
    case Own(size) => MapsBlocks(extents, DivCeil(size, blockSize)) && Ascending(RunsOf(extents), total)
    case Shared(content) =>
      && InFileOrder(extents, DivCeil(|content|, blockSize))
      && (|extents| < MAX_EXTENTS ==> NoZeroBlocks(extents, content, blockSize))
  }

  /** Nodes with blocks of their own are apart from each other. */
  ghost predicate OwnApart(nodes: seq<SharedNode>, files: seq<seq<Extent>>, n: nat)
    requires n <= |nodes| && n <= |files|
  {
    forall i, j :: 0 <= i < j < n && !nodes[i].Shared? && !nodes[j].Shared? ==> AllOff(RunsOf(files[i]), RunsOf(files[j]))
  }

  lemma {:induction false} FreshApart(a: seq<Extent>, b: seq<Extent>, runs: seq<Run>, totalA: nat, totalB: nat)
    requires AllOwned(a, runs) && FreshExtents(b, runs)
    requires Ascending(RunsOf(a), totalA) && Ascending(RunsOf(b), totalB)
    ensures AllOff(RunsOf(a), RunsOf(b))
  {
    hide Owned;
    var r, s := RunsOf(a), RunsOf(b);
    forall i, j | 0 <= i < |r| && 0 <= j < |s|
      ensures RunsOff(r[i], s[j])
    {
      var block := MeetingBlock(r[i], s[j]);
      assert InRun(block, Run(a[i].start, a[i].length)) ==> Owned(block, runs);
    }
  }

  /** Blocks a node asks for when nothing is shared. */
  function NeedOf(node: SharedNode, blockSize: nat): nat
    requires blockSize > 0
  {
    match node
    case InlineLink => 0
    case Own(size) => DivCeil(size, blockSize)
    case Shared(content) => DivCeil(|content|, blockSize)
  }

  function TotalNeed(nodes: seq<SharedNode>, blockSize: nat): nat
    requires blockSize > 0
  {
    if nodes == [] then 0 else TotalNeed(nodes[..|nodes| - 1], blockSize) + NeedOf(nodes[|nodes| - 1], blockSize)
  }

  lemma {:induction false} TotalNeedPrefix(nodes: seq<SharedNode>, blockSize: nat, i: nat)
    requires blockSize > 0 && i < |nodes|
    ensures TotalNeed(nodes[..i + 1], blockSize) == TotalNeed(nodes[..i], blockSize) + NeedOf(nodes[i], blockSize) <= TotalNeed(nodes, blockSize)
    decreases |nodes| - i
  {
    hide NeedOf;
    assert nodes[..i + 1][..i] == nodes[..i];
    if i + 1 < |nodes| {
      TotalNeedPrefix(nodes, blockSize, i + 1);
    } else {
      assert nodes[..i + 1] == nodes;
    }
  }

  /**
   What sharing costs and saves: a file of `need` blocks that took `taken` new ones saved the others, and each extent
   behind its first one is paid for by a saved block, twice at most, or by the crossing of a group boundary.
   */
  predicate Balanced(count: nat, need: int, taken: int, crossed: int) {
    taken <= need && Max(count - 1, 0) <= 2 * (need - taken) + crossed
  }

  /** The balance of all files so far. */
  predicate InBalance(crossings: nat, need: nat, taken: nat, cursor: nat) {
    taken <= need && crossings <= 2 * (need - taken) + cursor
  }

  lemma {:induction false} BalanceMeans(crossings: nat, need: nat, taken: nat, cursor: nat)
    requires InBalance(crossings, need, taken, cursor)
    ensures taken <= need && crossings <= 2 * (need - taken) + cursor
  {
  }

  lemma {:induction false} StillInBalance(
    crossings: nat, count: nat, need: nat, more: nat, before: nat, after: nat, from: nat, cursor: nat)
    requires InBalance(crossings, need, before, from) && Balanced(count, more, after - before, cursor - from)
    ensures InBalance(crossings + Max(count - 1, 0), need + more, after, cursor)
  {
  }

  /** The running form of the balance; `isNew` when the last block of the file was a new one. */
  predicate Balancing(count: nat, saved: int, crossed: int, isNew: bool) {
    saved >= 0 && crossed >= 0 && count <= 2 * saved + crossed + if isNew then 1 else 0
  }

  /** One more block: a reused one is saved, a new one continues the last extent, follows a reused one or crosses a group boundary. */
  lemma {:induction false} StillBalancing(
    extents: seq<Extent>, logical: nat, b: nat, saved: nat, start: nat, from: nat, next: nat, wasNew: bool, isNew: bool, bpg: nat, meta: nat)
    requires bpg > 0 && from <= next && saved >= if isNew then 0 else 1
    requires Balancing(|extents|, if isNew then saved else saved - 1, CursorGroup(from, bpg) - start, wasNew)
    requires CursorGroup(from, bpg) <= CursorGroup(next, bpg)
    requires wasNew ==> EndsAtCursor(extents, logical, from, bpg, meta)
    requires isNew ==>
               && from <= b && next == b + 1 && !IsMeta(b, bpg, meta)
               && (from < b && from > 0 && !IsMeta(from - 1, bpg, meta) ==> CursorGroup(from, bpg) < CursorGroup(next, bpg))
    ensures Balancing(|Grown(extents, logical, b)|, saved, CursorGroup(next, bpg) - start, isNew)
    ensures isNew ==> EndsAtCursor(Grown(extents, logical, b), logical + 1, next, bpg, meta)
  {
    hide IsMeta, CursorGroup;
  }

  /** The file ends in the block right behind which the cursor stands. */
  ghost predicate EndsAtCursor(extents: seq<Extent>, logical: nat, next: nat, bpg: nat, meta: nat)
    requires bpg > 0
  {
    && extents != [] && next > 0 && !IsMeta(next - 1, bpg, meta)
    && extents[|extents| - 1].logical + extents[|extents| - 1].length == logical
    && extents[|extents| - 1].start + extents[|extents| - 1].length == next
  }

  class SharedBuilder {
    const blockSize: nat
    const alloc: BlockAllocator
    const image: File
    const hash: bytes -> nat
    var index: map<nat, seq<nat>>
    ghost var data: map<nat, bytes>

    ghost predicate Valid()
      reads this, alloc, alloc.used, image
    {
      && blockSize > 0 && alloc.Valid()
      && Stored(image.content, blockSize, data, alloc.used.Length)
      && Blank(image.content, blockSize, data, alloc.used.Length)
      && Indexed(index, data, hash)
      && (forall b :: b in data ==> b < alloc.next && Owned(b, alloc.runs))
    }

    ghost function CursorAt(): nat
      reads this, alloc
      requires alloc.bpg > 0
    {
      CursorGroup(alloc.next, alloc.bpg)
    }

    constructor (blockSize: nat, alloc: BlockAllocator, image: File, hash: bytes -> nat)
      requires blockSize > 0 && alloc.Valid() && image.content == Zeros(alloc.used.Length * blockSize)
      ensures Valid() && data == map[]
      ensures this.blockSize == blockSize && this.alloc == alloc && this.image == image && this.hash == hash
    {
      this.blockSize, this.alloc, this.image, this.hash := blockSize, alloc, image, hash;
      index, data := map[], map[];
      new;
      FreshBlank(alloc.used.Length, blockSize);
    }

    lemma {:induction false} ValidMeans()
      requires Valid()
      ensures blockSize > 0 && alloc.bpg > 0 && alloc.Valid() && Stored(image.content, blockSize, data, alloc.used.Length)
    {
      hide Stored, Blank, Indexed, Owned, Partition;
    }

    /** The first candidate whose bytes on the image are those of the block. */
    method FindSame(candidates: seq<nat>, block: bytes) returns (r: Option<nat>)
      requires Valid() && AllIn(candidates, data)
      ensures r.Some? ==> r.value in data && data[r.value] == block
      ensures r.None? ==> forall i :: 0 <= i < |candidates| ==> data[candidates[i]] != block
    {
      hide Indexed, Owned, Blank;
      for i := 0 to |candidates|
        invariant forall k :: 0 <= k < i ==> data[candidates[k]] != block
      {
        var candidate: nat := candidates[i];
        assert StoredBlock(image.content, blockSize, candidate, data[candidate]);
        if image.content[candidate * blockSize..candidate * blockSize + blockSize] == block {
          return Some(candidate);
        }
      }
      return None;
    }

    /** Takes the next free block and writes the block there. */
    method InsertBlock(block: bytes) returns (r: Result<nat, AllocError>)
      requires Valid() && |block| == blockSize
      modifies this`index, this`data, image, alloc`next, alloc`runs, alloc.used
      ensures Valid() && old(alloc.next) <= alloc.next
      ensures r.Ok? ==>
                && r.value !in old(data) && data == old(data)[r.value := block]
                && alloc.runs == old(alloc.runs) + [Run(r.value, 1)] && !Owned(r.value, old(alloc.runs))
                && old(alloc.next) <= r.value && alloc.next == r.value + 1 && !IsMeta(r.value, alloc.bpg, alloc.meta)
                && (old(alloc.next) < r.value && old(alloc.next) > 0 && !IsMeta(old(alloc.next) - 1, alloc.bpg, alloc.meta) ==>
                      old(CursorAt()) < CursorAt())
      ensures r.Err? ==> r == Err(NoFreeBlocks) && alloc.Full() && data == old(data) && alloc.runs == old(alloc.runs)
    {
      hide Indexed, Stored, Owned, Partition, Count, Blank, IsMeta, CursorGroup, MetaCount, TotalLength;
      ghost var runs, from := alloc.runs, alloc.next;
      BehindTheCursor(alloc.used[..], alloc.next, alloc.runs, alloc.bpg, alloc.meta);
      var found := alloc.SkipUsed();
      if found.Err? {
        return Err(found.error);
      }
      var physical := alloc.next;
      CrossedTo(from, physical, alloc.used[..], alloc.bpg, alloc.meta);
      FreeNotOwned(alloc.used[..], alloc.next, runs, alloc.bpg, alloc.meta, physical);
      var length := alloc.TakeRun(1);
      RunIsData(alloc.used[..], alloc.next, alloc.runs, alloc.bpg, alloc.meta, |alloc.runs| - 1);
      StoreMore(image.content, blockSize, data, alloc.used.Length, physical, block);
      BlankMore(image.content, blockSize, data, alloc.used.Length, physical, block);
      IndexMore(index, data, hash, physical, block);
      image.WriteAt(physical * blockSize, block);
      var h := hash(block);
      index := index[h := (if h in index then index[h] else []) + [physical]];
      data := data[physical := block];
      OwnedMore(runs, Run(physical, 1));
      assert InRun(physical, Run(physical, 1));
      return Ok(physical);
    }

    /** `find_or_insert_shared_block`. */
    method FindOrInsert(block: bytes, forceNew: bool) returns (r: Result<nat, AllocError>)
      requires Valid() && |block| == blockSize
      modifies this`index, this`data, image, alloc`next, alloc`runs, alloc.used
      ensures Valid() && Extends(old(data), data) && old(alloc.next) <= alloc.next
      ensures r.Ok? ==> r.value in data && data[r.value] == block
      ensures r.Ok? && r.value in old(data) ==>
                data == old(data) && image.content == old(image.content) && alloc.runs == old(alloc.runs) && alloc.next == old(alloc.next)
      ensures r.Ok? && r.value !in old(data) ==>
                data == old(data)[r.value := block] && alloc.runs == old(alloc.runs) + [Run(r.value, 1)]
                && !Owned(r.value, old(alloc.runs))
      ensures r.Ok? && r.value !in old(data) ==>
                && old(alloc.next) <= r.value && alloc.next == r.value + 1 && !IsMeta(r.value, alloc.bpg, alloc.meta)
                && (old(alloc.next) < r.value && old(alloc.next) > 0 && !IsMeta(old(alloc.next) - 1, alloc.bpg, alloc.meta) ==>
                      old(CursorAt()) < CursorAt())
      ensures r.Ok? && !forceNew ==> (r.value in old(data) <==> block in old(data).Values)
      ensures r.Ok? && forceNew ==> r.value !in old(data)
      ensures r.Err? ==> r == Err(NoFreeBlocks) && alloc.Full() && data == old(data) && !(block in old(data).Values && !forceNew)
      ensures r.Err? ==> alloc.runs == old(alloc.runs)
    {
      hide Indexed, Stored, Owned, Partition, Count, Blank, IsMeta, CursorGroup, MetaCount, TotalLength;
      if !forceNew && block in data.Values {
        NoneMissed(index, data, hash, block);
      }
      if !forceNew && hash(block) in index {
        CandidatesWritten(index, data, hash, hash(block));
        var same := FindSame(index[hash(block)], block);
        if same.Some? {
          return Ok(same.value);
        }
      }
      r := InsertBlock(block);
    }

    /** One file with sharing: holes for zero blocks, one index lookup a block, runs merged as they come. */
    method PlaceFile(content: bytes) returns (r: Result<seq<Extent>, AllocError>)
      requires Valid()
      modifies this`index, this`data, image, alloc`next, alloc`runs, alloc.used
      ensures Valid() && Extends(old(data), data) && old(alloc.next) <= alloc.next
      ensures r.Ok? ==> NewBlocks(old(data), data, old(alloc.runs)) && MoreOwned(old(alloc.runs), alloc.runs)
      ensures r.Ok? ==> MapsFile(data, blockSize, r.value, content, DivCeil(|content|, blockSize))
      ensures r.Ok? && |r.value| < MAX_EXTENTS && NoDuplicates(old(data)) ==> NoDuplicates(data)
      ensures r.Ok? ==> TakenFor(old(alloc.runs), alloc.runs, r.value)
      ensures r.Ok? ==> Balanced(|r.value|, DivCeil(|content|, blockSize), TotalLength(alloc.runs) - old(TotalLength(alloc.runs)), CursorAt() - old(CursorAt()))
      ensures r.Ok? ==> |r.value| <= DivCeil(|content|, blockSize)
      ensures r.Ok? && |r.value| < MAX_EXTENTS ==> NoZeroBlocks(r.value, content, blockSize)
      ensures r.Err? ==> r == Err(NoFreeBlocks) && alloc.Full()
                         && TotalLength(alloc.runs) < old(TotalLength(alloc.runs)) + DivCeil(|content|, blockSize)
    {
      hide Indexed, Stored, Blank, Owned, Partition, Count, MapsFile, DivCeil, BlockOf, IsZero, IsMeta, CursorGroup, TotalLength, NoZeroBlocks, Grown, EndsAtCursor, TakenFor;
      var extents: seq<Extent> := [];
      ghost var start, runs := data, alloc.runs;
      ghost var isNew, saved: nat := false, 0;
      NothingMappedYet(data, blockSize, content);
      NothingTaken(runs);
      for logical := 0 to DivCeil(|content|, blockSize)
        invariant Valid() && Extends(start, data) && old(alloc.next) <= alloc.next && |extents| <= logical
        invariant MapsFile(data, blockSize, extents, content, logical)
        invariant NewBlocks(start, data, runs) && MoreOwned(runs, alloc.runs) && TakenFor(runs, alloc.runs, extents)
        invariant |extents| < MAX_EXTENTS && NoDuplicates(start) ==> NoDuplicates(data)
        invariant TotalLength(alloc.runs) + saved == TotalLength(runs) + logical
        invariant Balancing(|extents|, saved, CursorAt() - old(CursorAt()), isNew)
        invariant |extents| < MAX_EXTENTS ==> NoZeroBlocks(extents, content, blockSize)
        invariant isNew ==> EndsAtCursor(extents, logical, alloc.next, alloc.bpg, alloc.meta)
      {
        var block := BlockOf(content, logical, blockSize);
        if IsZero(block) && |extents| < MAX_EXTENTS {
          MapsHole(data, blockSize, extents, content, logical);
          saved, isNew := saved + 1, false;
        } else {
          ghost var before, now, from := data, alloc.runs, alloc.next;
          var physical := FindOrInsert(block, |extents| >= MAX_EXTENTS);
          if physical.Ok? && physical.value !in before {
            OwnedPrefix(now, [Run(physical.value, 1)]);
          }
          ExtendsTwice(start, before, data);
          if physical.Err? {
            return Err(physical.error);
          }
          MapsGrow(before, data, blockSize, extents, content, logical);
          CursorGroupMonotone(from, alloc.next, alloc.bpg);
          ghost var wasNew := isNew;
          if physical.value in before {
            saved := saved + 1;
          } else {
            OneBlockMore(now, physical.value);
            if |extents| < MAX_EXTENTS && NoDuplicates(before) {
              StillNoDuplicates(before, physical.value, block);
            }
          }
          isNew := physical.value !in before;
          GrownMaps(data, blockSize, extents, content, logical, physical.value);
          StillBalancing(extents, logical, physical.value, saved, old(CursorAt()), from, alloc.next, wasNew, isNew, alloc.bpg, alloc.meta);
          TakenMore(runs, now, alloc.runs, extents, logical, physical.value);
          extents := Grown(extents, logical, physical.value);
        }
      }
      return Ok(extents);
    }

    /** A directory, or an empty file: blocks of its own, as without sharing. */
    method PlaceOwn(size: nat) returns (r: Result<seq<Extent>, AllocError>)
      requires Valid() && alloc.bpg - alloc.meta < MAX_EXTENT
      modifies alloc`next, alloc`runs, alloc.used
      ensures alloc.Valid()
      ensures r.Ok? ==> Valid() && old(alloc.next) <= alloc.next
      ensures r.Ok? ==> MapsBlocks(r.value, DivCeil(size, blockSize)) && alloc.runs == old(alloc.runs) + RunsOf(r.value)
      ensures r.Ok? ==> OffData(r.value, data) && FreshExtents(r.value, old(alloc.runs)) && Ascending(RunsOf(r.value), alloc.used.Length)
      ensures r.Ok? ==> Balanced(|r.value|, DivCeil(size, blockSize), TotalLength(alloc.runs) - old(TotalLength(alloc.runs)), CursorAt() - old(CursorAt()))
      ensures r.Ok? ==> |r.value| <= CursorAt() + 1
      ensures r == Err(NoFreeBlocks) ==> alloc.Full() && TotalLength(alloc.runs) < old(TotalLength(alloc.runs)) + DivCeil(size, blockSize)
      ensures r.Err? ==> r == Err(NoFreeBlocks) || (r == Err(NumberOverflow) && Max(alloc.used.Length, DivCeil(size, blockSize)) > U32_LIMIT)
    {
      hide Indexed, Stored, Blank, Partition, Count, MapsBlocks, DivCeil, Spread, Owned, TotalLength, CursorGroup;
      ghost var runs, from := alloc.runs, alloc.next;
      r := alloc.AllocateExtents(DivCeil(size, blockSize));
      if r.Ok? {
        OwnedPrefix(runs, RunsOf(r.value));
        OwnBlocksApart(alloc.used[..], alloc.next, runs, r.value, alloc.bpg, alloc.meta);
        OwnAscend(alloc.used[..], alloc.next, runs, RunsOf(r.value), alloc.bpg, alloc.meta);
        CrossingsOfOne(r.value, from, alloc.next, alloc.bpg);
        MapsBlocksTotal(r.value, DivCeil(size, blockSize));
        TotalLengthAppend(runs, RunsOf(r.value));
      }
    }

    /**
     The placement loop in shared mode: at its end every file is on the image, whatever the hash did. It takes no more
     blocks than without sharing, and extents and saved blocks balance.
     */
    method PlaceNodes(nodes: seq<SharedNode>) returns (r: Result<seq<seq<Extent>>, AllocError>)
      requires Valid() && alloc.bpg - alloc.meta < MAX_EXTENT && alloc.next == 0 && alloc.runs == []
      modifies this`index, this`data, image, alloc`next, alloc`runs, alloc.used
      ensures alloc.Valid()
      ensures r.Ok? ==>
                && Valid() && |r.value| == |nodes| && Extends(old(data), data)
                && (forall i :: 0 <= i < |nodes| ==> NodeMapped(data, alloc.runs, blockSize, nodes[i], r.value[i]))
                && forall i :: 0 <= i < |nodes| && nodes[i].Shared? ==>
                     FileOnDisk(image.content, blockSize, r.value[i], nodes[i].content)
      ensures r.Ok? ==> NothingLost(alloc.runs, r.value)
      ensures r.Ok? && NoDuplicates(old(data)) && (forall i :: 0 <= i < |nodes| ==> |r.value[i]| < MAX_EXTENTS) ==>
                StoredOnce(nodes, r.value, blockSize)
      ensures r.Ok? ==>
                && OwnApart(nodes, r.value, |nodes|)
                && (forall i :: 0 <= i < |nodes| ==> NodeShaped(nodes[i], r.value[i], alloc.used.Length, blockSize))
                && forall i :: 0 <= i < |nodes| && !nodes[i].Shared? ==> OffData(r.value[i], data)
      ensures r.Ok? ==>
                && TotalLength(alloc.runs) <= TotalNeed(nodes, blockSize)
                && Crossings(r.value) <= 2 * (TotalNeed(nodes, blockSize) - TotalLength(alloc.runs)) + CursorAt()
                && forall i :: 0 <= i < |nodes| ==>
                     if nodes[i].Shared? then |r.value[i]| <= NeedOf(nodes[i], blockSize) else |r.value[i]| <= CursorAt() + 1
      ensures r == Err(NoFreeBlocks) ==> alloc.Full() && TotalLength(alloc.runs) < TotalNeed(nodes, blockSize)
      ensures r.Err? ==> r == Err(NoFreeBlocks)
                         || (r == Err(NumberOverflow) && (alloc.used.Length > U32_LIMIT || exists node :: node in nodes && NeedOf(node, blockSize) > U32_LIMIT))
    {
      hide Indexed, Stored, Blank, Partition, Count, MapsBlocks, DivCeil, Owned, MapsFile, Extends, NewBlocks, MoreOwned, NodeMapped;
      hide NeedOf, TotalLength, CursorGroup, NodeShaped, OwnApart, OffData, AllOff, Crossings, InBalance, Balanced, FileOnDisk, FreshExtents;
      hide TakenFor, NothingLost, NoDuplicates, StoredOnce, Valid;
      ValidMeans();
      var files: seq<seq<Extent>> := [];
      NothingNew(data, alloc.runs);
      NothingPlaced(nodes, blockSize);
      NothingLostYet();
      for i := 0 to |nodes|
        invariant Valid() && |files| == i && Extends(old(data), data)
        invariant forall k :: 0 <= k < i ==> NodeMapped(data, alloc.runs, blockSize, nodes[k], files[k])
        invariant forall k :: 0 <= k < i ==> NodeShaped(nodes[k], files[k], alloc.used.Length, blockSize)
        invariant forall k :: 0 <= k < i ==>
                    if nodes[k].Shared? then |files[k]| <= NeedOf(nodes[k], blockSize) else |files[k]| <= CursorAt() + 1
        invariant OwnApart(nodes, files, i) && NothingLost(alloc.runs, files)
        invariant NoDuplicates(old(data)) && (forall k :: 0 <= k < i ==> |files[k]| < MAX_EXTENTS) ==> NoDuplicates(data)
        invariant InBalance(Crossings(files), TotalNeed(nodes[..i], blockSize), TotalLength(alloc.runs), CursorAt())
      {
        ghost var before, runs, from := data, alloc.runs, alloc.next;
        TotalNeedPrefix(nodes, blockSize, i);
        BalanceMeans(Crossings(files), TotalNeed(nodes[..i], blockSize), TotalLength(alloc.runs), CursorAt());
        var placed := PlaceNode(nodes[i]);
        if placed.Err? {
          assert nodes[i] in nodes;
          return Err(placed.error);
        }
        CursorGroupMonotone(from, alloc.next, alloc.bpg);
        ExtendsTwice(old(data), before, data);
        EarlierStayMapped(before, data, runs, alloc.runs, blockSize, nodes, files);
        OwnApartMore(nodes, files, placed.value, before, runs, alloc.used.Length, blockSize);
        LosesNothing(runs, alloc.runs, files, placed.value);
        CrossingsSnoc(files, placed.value);
        StillInBalance(Crossings(files), |placed.value|, TotalNeed(nodes[..i], blockSize), NeedOf(nodes[i], blockSize),
          TotalLength(runs), TotalLength(alloc.runs), CursorGroup(from, alloc.bpg), CursorAt());
        files := files + [placed.value];
      }
      assert nodes[..|nodes|] == nodes;
      BalanceMeans(Crossings(files), TotalNeed(nodes, blockSize), TotalLength(alloc.runs), CursorAt());
      ValidMeans();
      AllPlaced(image.content, data, alloc.used.Length, alloc.runs, nodes, files, blockSize);
      return Ok(files);
    }

    method PlaceNode(node: SharedNode) returns (r: Result<seq<Extent>, AllocError>)
      requires Valid() && alloc.bpg - alloc.meta < MAX_EXTENT
      modifies this`index, this`data, image, alloc`next, alloc`runs, alloc.used
      ensures alloc.Valid()
      ensures r.Ok? ==> Valid() && NodeMapped(data, alloc.runs, blockSize, node, r.value)
      ensures r.Ok? ==> Extends(old(data), data) && NewBlocks(old(data), data, old(alloc.runs)) && MoreOwned(old(alloc.runs), alloc.runs)
      ensures r.Ok? ==> NodeShaped(node, r.value, alloc.used.Length, blockSize)
      ensures r.Ok? && !node.Shared? ==> FreshExtents(r.value, old(alloc.runs))
      ensures r.Ok? ==> TakenFor(old(alloc.runs), alloc.runs, r.value)
      ensures r.Ok? && |r.value| < MAX_EXTENTS && NoDuplicates(old(data)) ==> NoDuplicates(data)
      ensures r.Ok? ==> if node.Shared? then |r.value| <= NeedOf(node, blockSize) else |r.value| <= CursorAt() + 1
      ensures old(alloc.next) <= alloc.next || r.Err?
      ensures r.Ok? ==> Balanced(|r.value|, NeedOf(node, blockSize), TotalLength(alloc.runs) - old(TotalLength(alloc.runs)), CursorAt() - old(CursorAt()))
      ensures r == Err(NoFreeBlocks) ==> alloc.Full() && TotalLength(alloc.runs) < old(TotalLength(alloc.runs)) + NeedOf(node, blockSize)
      ensures r.Err? ==> r == Err(NoFreeBlocks) || (r == Err(NumberOverflow) && Max(alloc.used.Length, NeedOf(node, blockSize)) > U32_LIMIT)
    {
      hide Indexed, Stored, Blank, Partition, Count, MapsBlocks, DivCeil, Owned, MapsFile, TotalLength, CursorGroup, NoZeroBlocks, TakenFor, NoDuplicates;
      ghost var runs := alloc.runs;
      NothingTaken(runs);
      match node
      case InlineLink =>
        return Ok([]);
      case Own(size) =>
        r := PlaceOwn(size);
        if r.Ok? {
          OwnedPrefix(runs, RunsOf(r.value));
          OwnExtentsOwned(runs, r.value);
          TakenOwn(runs, r.value);
        }
      case Shared(content) =>
        r := PlaceFile(content);
        if r.Ok? {
          MapsInOrder(data, blockSize, r.value, content, DivCeil(|content|, blockSize));
        }
    }
  }

  lemma {:induction false} NothingNew(data: map<nat, bytes>, runs: seq<Run>)
    ensures Extends(data, data) && NewBlocks(data, data, runs) && MoreOwned(runs, runs)
  {
  }

  /** What the mapped nodes are on the image. */
  lemma {:induction false} AllPlaced(
    content: bytes, data: map<nat, bytes>, total: nat, runs: seq<Run>, nodes: seq<SharedNode>, files: seq<seq<Extent>>, blockSize: nat)
    requires blockSize > 0 && |files| == |nodes| && Stored(content, blockSize, data, total)
    requires forall i :: 0 <= i < |nodes| ==> NodeMapped(data, runs, blockSize, nodes[i], files[i])
    ensures forall i :: 0 <= i < |nodes| && nodes[i].Shared? ==> FileOnDisk(content, blockSize, files[i], nodes[i].content)
    ensures forall i :: 0 <= i < |nodes| && !nodes[i].Shared? ==> OffData(files[i], data)
    ensures NoDuplicates(data) ==> StoredOnce(nodes, files, blockSize)
  {
    hide Stored, NodeMapped, FileOnDisk, OffData, NoDuplicates, StoredOnce, MapsFile, DivCeil;
    forall i | 0 <= i < |nodes| && nodes[i].Shared?
      ensures FileOnDisk(content, blockSize, files[i], nodes[i].content)
    {
      SharedMapped(data, runs, blockSize, nodes[i], files[i]);
      MappedFileOnDisk(content, blockSize, data, total, files[i], nodes[i].content);
    }
    forall i | 0 <= i < |nodes| && !nodes[i].Shared?
      ensures OffData(files[i], data)
    {
      OwnMapped(data, runs, blockSize, nodes[i], files[i]);
    }
    if NoDuplicates(data) {
      OnceStored(data, runs, nodes, files, blockSize);
    }
  }

  lemma {:induction false} NothingLostYet()
    ensures NothingLost([], [])
  {
  }

  lemma {:induction false} NothingPlaced(nodes: seq<SharedNode>, blockSize: nat)
    requires blockSize > 0
    ensures OwnApart(nodes, [], 0)
    ensures InBalance(Crossings([]), TotalNeed(nodes[..0], blockSize), TotalLength([]), CursorGroup(0, 1))
    ensures forall bpg: nat :: bpg > 0 ==> CursorGroup(0, bpg) == 0
  {
  }

  lemma {:induction false} SharedMapped(data: map<nat, bytes>, runs: seq<Run>, blockSize: nat, node: SharedNode, extents: seq<Extent>)
    requires blockSize > 0 && node.Shared? && NodeMapped(data, runs, blockSize, node, extents)
    ensures MapsFile(data, blockSize, extents, node.content, DivCeil(|node.content|, blockSize))
  {
  }

  lemma {:induction false} OwnMapped(data: map<nat, bytes>, runs: seq<Run>, blockSize: nat, node: SharedNode, extents: seq<Extent>)
    requires blockSize > 0 && !node.Shared? && NodeMapped(data, runs, blockSize, node, extents)
    ensures OffData(extents, data) && AllOwned(extents, runs)
  {
  }

  lemma {:induction false} MapsInOrder(data: map<nat, bytes>, blockSize: nat, extents: seq<Extent>, content: bytes, until: nat)
    requires MapsFile(data, blockSize, extents, content, until)
    ensures InFileOrder(extents, until)
  {
  }

  lemma {:induction false} OneBlockMore(runs: seq<Run>, b: nat)
    ensures TotalLength(runs + [Run(b, 1)]) == TotalLength(runs) + 1
  {
    assert (runs + [Run(b, 1)])[..|runs|] == runs;
  }

  lemma {:induction false} CrossingsSnoc(files: seq<seq<Extent>>, extents: seq<Extent>)
    ensures Crossings(files + [extents]) == Crossings(files) + Max(|extents| - 1, 0)
  {
    assert (files + [extents])[..|files|] == files;
  }

  lemma {:induction false} OwnAscend(used: seq<bool>, next: nat, runs: seq<Run>, more: seq<Run>, bpg: nat, meta: nat)
    requires bpg > 0 && Partition(used, next, runs + more, bpg, meta)
    ensures Ascending(more, |used|)
  {
    hide Count, IsMeta, Owned, TotalLength;
    var all := runs + more;
    assert forall i :: 0 <= i < |more| ==> all[|runs| + i] == more[i];
  }

  /** The cursor that skipped blocks behind a data block went past metadata, into a later group. */
  lemma {:induction false} CrossedTo(from: nat, physical: nat, used: seq<bool>, bpg: nat, meta: nat)
    requires 0 < meta <= bpg && from <= physical < |used|
    requires forall b :: from <= b < |used| && used[b] ==> IsMeta(b, bpg, meta)
    requires forall b :: from <= b < physical ==> used[b]
    ensures from < physical && from > 0 && !IsMeta(from - 1, bpg, meta) ==> CursorGroup(from, bpg) < CursorGroup(physical + 1, bpg)
  {
    if from < physical && from > 0 && !IsMeta(from - 1, bpg, meta) {
      assert IsMeta(from, bpg, meta);
      MetaOpensGroup(from - 1, bpg, meta);
      DivMonotone(from, physical, bpg);
    }
  }

  lemma {:induction false} OwnApartMore(
    nodes: seq<SharedNode>, files: seq<seq<Extent>>, extents: seq<Extent>, data: map<nat, bytes>, runs: seq<Run>, total: nat,
    blockSize: nat)
    requires blockSize > 0 && |files| < |nodes| && OwnApart(nodes, files, |files|)
    requires forall k :: 0 <= k < |files| ==> NodeMapped(data, runs, blockSize, nodes[k], files[k])
    requires forall k :: 0 <= k < |files| ==> NodeShaped(nodes[k], files[k], total, blockSize)
    requires NodeShaped(nodes[|files|], extents, total, blockSize)
    requires !nodes[|files|].Shared? ==> FreshExtents(extents, runs)
    ensures OwnApart(nodes, files + [extents], |files| + 1)
  {
    hide NodeMapped, NodeShaped, AllOff, FreshExtents;
    var n := |files|;
    forall i | 0 <= i < n && !nodes[i].Shared? && !nodes[n].Shared?
      ensures AllOff(RunsOf(files[i]), RunsOf(extents))
    {
      OwnMapped(data, runs, blockSize, nodes[i], files[i]);
      OwnAscends(nodes[i], files[i], total, blockSize);
      OwnAscends(nodes[n], extents, total, blockSize);
      FreshApart(files[i], extents, runs, total, total);
    }
  }

  lemma {:induction false} OwnAscends(node: SharedNode, extents: seq<Extent>, total: nat, blockSize: nat)
    requires blockSize > 0 && NodeShaped(node, extents, total, blockSize) && !node.Shared?
    ensures Ascending(RunsOf(extents), total)
  {
  }
}
