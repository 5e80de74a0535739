/**
 File contents: how the builder copies them into the extents of an inode, and how the two readers, one filling
 a buffer and one streaming, give them back.
 */
module Ext4Content {
  import opened Core
  import opened Arith
  import opened OutFile
  import opened Spans
  import opened Ext4Alloc
  import opened Ext4Extents
  import opened Ext4Inode

  const COPY_CHUNK := 0x10000

  datatype ReadError = NotExtents | BadHeader | BadTree(error: ExtentError) | OutOfImage

  // ---- The buffer reader -------------------------------------------------------------------------------

  /** Extents `i..` read into the buffer: clipped to it, and skipped when unwritten or behind it. */
  function FillFrom(image: bytes, blockSize: nat, found: seq<DiskExtent>, i: nat, buffer: bytes): (r: Result<bytes, ReadError>)
    ensures r.Ok? ==> |r.value| == |buffer|
    decreases |found| - i
  {
    if i >= |found| then Ok(buffer)
    else
      match FillOne(image, blockSize, found[i], buffer)
      case Err(e) => Err(e)
      case Ok(filled) => FillFrom(image, blockSize, found, i + 1, filled)
  }

  function FillOne(image: bytes, blockSize: nat, e: DiskExtent, buffer: bytes): (r: Result<bytes, ReadError>)
    ensures r.Ok? ==> |r.value| == |buffer|
  {
    var dest := e.logical * blockSize;
    if dest >= |buffer| || e.unwritten then Ok(buffer)
    else
      var n := Min(e.length * blockSize, |buffer| - dest);
      match Slice(image, e.physical * blockSize, n)
      case None => Err(OutOfImage)
      case Some(part) => Ok(buffer[..dest] + part + buffer[dest + n..])
  }

  function CheckExtentInode(inode: Inode): Result<(nat, nat), ReadError>
    requires |inode.area| == AREA_LENGTH
  {
    if inode.flags / INODE_EXTENTS % 2 == 0 then Err(NotExtents)
    else if Get16(inode.area, 0) != EXTENT_MAGIC then Err(BadHeader)
    else Ok((Get16(inode.area, 2), Get16(inode.area, 6)))
  }

  /** The extents of an inode as both readers find them. */
  function FileExtents(image: bytes, blockSize: nat, inode: Inode): Result<seq<DiskExtent>, ReadError>
    requires |inode.area| == AREA_LENGTH
  {
    match CheckExtentInode(inode)
    case Err(e) => Err(e)
    case Ok(head) =>
      match Collect(image, blockSize, inode.area, head.1, head.0)
      case Err(e) => Err(BadTree(e))
      case Ok(found) => Ok(found)
  }

  function Prefix(image: bytes, blockSize: nat, inode: Inode, limit: nat): Result<bytes, ReadError>
    requires |inode.area| == AREA_LENGTH
  {
    var n := Min(inode.size, limit);
    if inode.IsLink() && inode.size <= INLINE_LINK then Ok(inode.area[..n])
    else if n == 0 then Ok([])
    else
      match FileExtents(image, blockSize, inode)
      case Err(e) => Err(e)
      case Ok(found) => FillFrom(image, blockSize, found, 0, Zeros(n))
  }

  method ReadExtents(image: bytes, blockSize: nat, inode: Inode) returns (r: Result<seq<DiskExtent>, ReadError>)
    requires |inode.area| == AREA_LENGTH
    ensures r == FileExtents(image, blockSize, inode)
  {
    hide Collect, Get16;
    var head := CheckExtentInode(inode);
    if head.Err? {
      return Err(head.error);
    }
    var found := CollectExtents(image, blockSize, inode.area, head.value.1, head.value.0, []);
    if found.Err? {
      return Err(BadTree(found.error));
    }
    ghost var c := Collect(image, blockSize, inode.area, head.value.1, head.value.0);
    assert [] + c.value == c.value;
    return Ok(found.value);
  }

  /** `read_prefix`. */
  method ReadPrefix(image: bytes, blockSize: nat, inode: Inode, limit: nat) returns (r: Result<bytes, ReadError>)
    requires |inode.area| == AREA_LENGTH
    ensures r == Prefix(image, blockSize, inode, limit)
  {
    hide FileExtents, FillOne;
    var n := Min(inode.size, limit);
    if inode.IsLink() && inode.size <= INLINE_LINK {
      return Ok(inode.area[..n]);
    }
    var data := Zeros(n);
    if n == 0 {
      return Ok(data);
    }
    var found := ReadExtents(image, blockSize, inode);
    if found.Err? {
      return Err(found.error);
    }
    for i := 0 to |found.value|
      invariant FillFrom(image, blockSize, found.value, i, data) == FillFrom(image, blockSize, found.value, 0, Zeros(n))
    {
      var filled := FillOne(image, blockSize, found.value[i], data);
      if filled.Err? {
        return Err(filled.error);
      }
      data := filled.value;
    }
    return Ok(data);
  }

  // ---- The streaming reader ----------------------------------------------------------------------------

  /** What extent `e` adds to the output when `cursor` bytes of the file are accounted for. */
  function StreamOne(image: bytes, blockSize: nat, e: DiskExtent, cursor: nat, size: nat): Result<bytes, ReadError> {
    var start := e.logical * blockSize;
    var gap := Zeros(Max(start - cursor, 0));
    var end := Min(start + e.length * blockSize, size);
    if !e.unwritten && start < size && end > start then
      match Slice(image, e.physical * blockSize, end - start)
      case None => Err(OutOfImage)
      case Some(part) => Ok(gap + part)
    else Ok(gap + Zeros(Max(end - cursor, 0)))
  }

  function CursorBehind(blockSize: nat, e: DiskExtent, cursor: nat, size: nat): nat {
    Max(cursor, Min(e.logical * blockSize + e.length * blockSize, size))
  }

  function StreamFrom(image: bytes, blockSize: nat, sorted: seq<DiskExtent>, i: nat, cursor: nat, size: nat): Result<bytes, ReadError>
    decreases |sorted| - i
  {
    if i >= |sorted| || cursor >= size then Ok(Zeros(Max(size - cursor, 0)))
    else
      match StreamOne(image, blockSize, sorted[i], cursor, size)
      case Err(e) => Err(e)
      case Ok(here) =>
        match StreamFrom(image, blockSize, sorted, i + 1, CursorBehind(blockSize, sorted[i], cursor, size), size)
        case Err(e) => Err(e)
        case Ok(rest) => Ok(here + rest)
  }

  /** Stable sort by logical block. */
  function SortExtents(found: seq<DiskExtent>): (r: seq<DiskExtent>)
    ensures |r| == |found|
  {
    if found == [] then [] else InsertExtent(SortExtents(found[..|found| - 1]), found[|found| - 1])
  }

  function InsertExtent(sorted: seq<DiskExtent>, e: DiskExtent): (r: seq<DiskExtent>)
    ensures |r| == |sorted| + 1
  {
    if sorted == [] || sorted[|sorted| - 1].logical <= e.logical then sorted + [e]
    else InsertExtent(sorted[..|sorted| - 1], e) + [sorted[|sorted| - 1]]
  }

  function Streamed(image: bytes, blockSize: nat, inode: Inode): Result<bytes, ReadError>
    requires |inode.area| == AREA_LENGTH
  {
    if inode.size == 0 then Ok([])
    else if inode.IsLink() && inode.size <= INLINE_LINK then Ok(inode.area[..inode.size])
    else
      match FileExtents(image, blockSize, inode)
      case Err(e) => Err(e)
      case Ok(found) => StreamFrom(image, blockSize, SortExtents(found), 0, 0, inode.size)
  }

  /** The 64 KiB steps of one extent. */
  method StreamExtent(image: bytes, physical: nat, n: nat) returns (r: Result<bytes, ReadError>)
    ensures r == match Slice(image, physical, n) case None => Err(OutOfImage) case Some(part) => Ok(part)
  {
    var output: bytes := [];
    if n == 0 {
      return match Slice(image, physical, n) case None => Err(OutOfImage) case Some(part) => Ok(part);
    }
    var off := 0;
    while off < n
      invariant 0 <= off <= n
      invariant off > 0 ==> physical + off <= |image|
      invariant off > 0 ==> output == image[physical..physical + off]
      invariant off == 0 ==> output == []
    {
      var count := Min(n - off, COPY_CHUNK);
      var part := Slice(image, physical + off, count);
      if part.None? {
        return Err(OutOfImage);
      }
      output := output + part.value;
      off := off + count;
    }
    return Ok(output);
  }

  method SortByLogical(found: seq<DiskExtent>) returns (sorted: seq<DiskExtent>)
    ensures sorted == SortExtents(found)
  {
    sorted := [];
    for i := 0 to |found|
      invariant sorted == SortExtents(found[..i])
    {
      assert found[..i + 1][..i] == found[..i];
      sorted := InsertExtent(sorted, found[i]);
    }
    assert found[..|found|] == found;
  }

  method StreamStep(image: bytes, blockSize: nat, e: DiskExtent, cursor: nat, size: nat) returns (r: Result<bytes, ReadError>)
    ensures r == StreamOne(image, blockSize, e, cursor, size)
  {
    var start := e.logical * blockSize;
    var output := Zeros(Max(start - cursor, 0));
    var end := Min(start + e.length * blockSize, size);
    if !e.unwritten && start < size && end > start {
      var part := StreamExtent(image, e.physical * blockSize, end - start);
      if part.Err? {
        return part;
      }
      return Ok(output + part.value);
    }
    return Ok(output + Zeros(Max(end - cursor, 0)));
  }

  /** `write_data`: the bytes it sends to its output. */
  method WriteData(image: bytes, blockSize: nat, inode: Inode) returns (r: Result<bytes, ReadError>)
    requires |inode.area| == AREA_LENGTH
    ensures r == Streamed(image, blockSize, inode)
  {
    hide FileExtents, StreamOne, CursorBehind, SortExtents;
    if inode.size == 0 {
      return Ok([]);
    }
    if inode.IsLink() && inode.size <= INLINE_LINK {
      return Ok(inode.area[..inode.size]);
    }
    var found := ReadExtents(image, blockSize, inode);
    if found.Err? {
      return Err(found.error);
    }
    var sorted := SortByLogical(found.value);
    var cursor: nat := 0;
    var output: bytes := [];
    var i := 0;
    ghost var all := StreamFrom(image, blockSize, sorted, 0, 0, inode.size);
    StreamNothing(all);
    while i < |sorted| && cursor < inode.size
      invariant i <= |sorted|
      invariant Appended(output, StreamFrom(image, blockSize, sorted, i, cursor, inode.size)) == all
    {
      var part := StreamStep(image, blockSize, sorted[i], cursor, inode.size);
      StreamMore(image, blockSize, sorted, i, cursor, inode.size, output);
      if part.Err? {
        return Err(part.error);
      }
      output := output + part.value;
      cursor := CursorBehind(blockSize, sorted[i], cursor, inode.size);
      i := i + 1;
    }
    return Ok(output + Zeros(Max(inode.size - cursor, 0)));
  }

  lemma {:induction false} StreamNothing(r: Result<bytes, ReadError>)
    ensures Appended([], r) == r
  {
    assert r.Ok? ==> [] + r.value == r.value;
  }

  lemma {:induction false} StreamMore(
    image: bytes, blockSize: nat, sorted: seq<DiskExtent>, i: nat, cursor: nat, size: nat, output: bytes)
    requires i < |sorted| && cursor < size
    ensures var here := StreamOne(image, blockSize, sorted[i], cursor, size);
            Appended(output, StreamFrom(image, blockSize, sorted, i, cursor, size))
            == if here.Err? then here
               else Appended(output + here.value,
                      StreamFrom(image, blockSize, sorted, i + 1, CursorBehind(blockSize, sorted[i], cursor, size), size))
  {
    hide StreamOne, CursorBehind;
    var here := StreamOne(image, blockSize, sorted[i], cursor, size);
    var rest := StreamFrom(image, blockSize, sorted, i + 1, CursorBehind(blockSize, sorted[i], cursor, size), size);
    if here.Ok? && rest.Ok? {
      assert output + (here.value + rest.value) == output + here.value + rest.value;
    }
  }

  // ---- A file on disk ----------------------------------------------------------------------------------

  predicate AllZero(data: bytes, from: nat, until: nat) {
    forall i :: from <= i < until && i < |data| ==> data[i] == 0
  }

  /** First file byte of an extent, and the byte behind its last one. */
  function Low(e: Extent, blockSize: nat): nat {
    e.logical * blockSize
  }

  function High(e: Extent, blockSize: nat, size: nat): nat {
    Min((e.logical + e.length) * blockSize, size)
  }

  /** Image offset of an extent. */
  function DataAt(e: Extent, blockSize: nat): nat {
    e.start * blockSize
  }

  /** Bytes of the file accounted for by the first `i` extents. */
  function Cursor(extents: seq<Extent>, i: nat, blockSize: nat, size: nat): nat
    requires i <= |extents|
  {
    if i == 0 then 0 else High(extents[i - 1], blockSize, size)
  }

  /** Extent `i` holds its bytes of `data`, and the hole in front of it is zero. */
  ghost predicate PieceOnDisk(image: bytes, blockSize: nat, extents: seq<Extent>, data: bytes, i: nat)
    requires i < |extents|
  {
    var low, high := Low(extents[i], blockSize), High(extents[i], blockSize, |data|);
    && Cursor(extents, i, blockSize, |data|) <= low < high <= |data|
    && AllZero(data, Cursor(extents, i, blockSize, |data|), low)
    && HasAt(image, DataAt(extents[i], blockSize), data[low..high])
  }

  /** `extents` hold `data`; what they leave out is zero. */
  ghost predicate FileOnDisk(image: bytes, blockSize: nat, extents: seq<Extent>, data: bytes) {
    && (forall i :: 0 <= i < |extents| ==> PieceOnDisk(image, blockSize, extents, data, i))
    && AllZero(data, Cursor(extents, |extents|, blockSize, |data|), |data|)
  }

  lemma {:induction false} LengthOfPiece(e: Extent, blockSize: nat, size: nat)
    ensures Low(e, blockSize) < size ==>
              Low(e, blockSize) + Min(e.length * blockSize, size - Low(e, blockSize)) == High(e, blockSize, size)
    ensures Min(e.logical * blockSize + e.length * blockSize, size) == High(e, blockSize, size)
  {
    MulDistributes(e.logical, e.length, blockSize);
  }

  // ---- What the buffer reader gives --------------------------------------------------------------------

  /** The first `done` bytes of `buffer` are those of the file, the others still zero. */
  predicate FilledTo(buffer: bytes, data: bytes, done: nat) {
    |buffer| <= |data| && forall k :: 0 <= k < |buffer| ==> buffer[k] == if k < done then data[k] else 0
  }

  lemma {:induction false} FillPiece(image: bytes, blockSize: nat, extents: seq<Extent>, data: bytes, i: nat, buffer: bytes)
    requires i < |extents| && PieceOnDisk(image, blockSize, extents, data, i)
    requires FilledTo(buffer, data, Cursor(extents, i, blockSize, |data|))
    ensures var r := FillOne(image, blockSize, ToDisk(extents[i]), buffer);
            r.Ok? && FilledTo(r.value, data, Cursor(extents, i + 1, blockSize, |data|))
  {
    var e := extents[i];
    var low, high := Low(e, blockSize), High(e, blockSize, |data|);
    var at := DataAt(e, blockSize);
    LengthOfPiece(e, blockSize, |buffer|);
    hide High, HasAt, Cursor;
    assert Cursor(extents, i + 1, blockSize, |data|) == high by { CursorBehindPiece(extents, i, blockSize, |data|); }
    if low < |buffer| {
      var n := Min(e.length * blockSize, |buffer| - low);
      HighClipped(e, blockSize, |buffer|, |data|);
      assert low + n == Min(high, |buffer|);
      StartOfPart(image, at, data, low, high, n);
    }
  }

  lemma {:induction false} HighClipped(e: Extent, blockSize: nat, n: nat, size: nat)
    requires n <= size
    ensures High(e, blockSize, n) == Min(High(e, blockSize, size), n)
  {
  }

  lemma {:induction false} CursorBehindPiece(extents: seq<Extent>, i: nat, blockSize: nat, size: nat)
    requires i < |extents|
    ensures Cursor(extents, i + 1, blockSize, size) == High(extents[i], blockSize, size)
  {
  }

  lemma {:induction false} StartOfPart(image: bytes, at: nat, data: bytes, low: nat, high: nat, n: nat)
    requires low + n <= high <= |data| && HasAt(image, at, data[low..high])
    ensures Slice(image, at, n) == Some(data[low..low + n])
  {
    assert image[at..at + n] == image[at..at + (high - low)][..n] == data[low..high][..n] == data[low..low + n];
  }

  lemma {:induction false} FillFinds(image: bytes, blockSize: nat, extents: seq<Extent>, data: bytes, i: nat, buffer: bytes)
    requires FileOnDisk(image, blockSize, extents, data) && i <= |extents|
    requires FilledTo(buffer, data, Cursor(extents, i, blockSize, |data|))
    ensures FillFrom(image, blockSize, AllToDisk(extents), i, buffer) == Ok(data[..|buffer|])
    decreases |extents| - i
  {
    hide FillOne, Cursor, PieceOnDisk;
    if i < |extents| {
      assert PieceOnDisk(image, blockSize, extents, data, i);
      FillPiece(image, blockSize, extents, data, i, buffer);
      FillFinds(image, blockSize, extents, data, i + 1, FillOne(image, blockSize, ToDisk(extents[i]), buffer).value);
    } else {
      assert buffer == data[..|buffer|];
    }
  }

  // ---- What the streaming reader gives -----------------------------------------------------------------

  lemma {:induction false} StreamPiece(image: bytes, blockSize: nat, extents: seq<Extent>, data: bytes, i: nat)
    requires i < |extents| && PieceOnDisk(image, blockSize, extents, data, i)
    ensures var cursor, next := Cursor(extents, i, blockSize, |data|), Cursor(extents, i + 1, blockSize, |data|);
            && cursor <= next <= |data|
            && StreamOne(image, blockSize, ToDisk(extents[i]), cursor, |data|) == Ok(data[cursor..next])
            && CursorBehind(blockSize, ToDisk(extents[i]), cursor, |data|) == next
  {
    var e := extents[i];
    var low, high, cursor := Low(e, blockSize), High(e, blockSize, |data|), Cursor(extents, i, blockSize, |data|);
    var at := DataAt(e, blockSize);
    LengthOfPiece(e, blockSize, |data|);
    CursorBehindPiece(extents, i, blockSize, |data|);
    assert Slice(image, at, high - low) == Some(data[low..high]);
    hide High, HasAt, Cursor;
    assert Zeros(low - cursor) == data[cursor..low];
    assert data[cursor..low] + data[low..high] == data[cursor..high];
  }

  lemma {:induction false} StreamFinds(image: bytes, blockSize: nat, extents: seq<Extent>, data: bytes, i: nat)
    requires FileOnDisk(image, blockSize, extents, data) && i <= |extents|
    ensures Cursor(extents, i, blockSize, |data|) <= |data|
    ensures var cursor := Cursor(extents, i, blockSize, |data|);
            StreamFrom(image, blockSize, AllToDisk(extents), i, cursor, |data|) == Ok(data[cursor..])
    decreases |extents| - i
  {
    var cursor := Cursor(extents, i, blockSize, |data|);
    hide StreamOne, Cursor, CursorBehind, PieceOnDisk;
    if i < |extents| {
      assert PieceOnDisk(image, blockSize, extents, data, i);
      StreamPiece(image, blockSize, extents, data, i);
      StreamFinds(image, blockSize, extents, data, i + 1);
      var next := Cursor(extents, i + 1, blockSize, |data|);
      assert data[cursor..next] + data[next..] == data[cursor..];
    } else {
      CursorInFile(image, blockSize, extents, data);
      assert Zeros(|data| - cursor) == data[cursor..];
    }
  }

  lemma {:induction false} CursorInFile(image: bytes, blockSize: nat, extents: seq<Extent>, data: bytes)
    requires FileOnDisk(image, blockSize, extents, data)
    ensures Cursor(extents, |extents|, blockSize, |data|) <= |data|
  {
  }

  /** Extents in file order. */
  predicate InOrder(found: seq<DiskExtent>) {
    forall i :: 0 < i < |found| ==> found[i - 1].logical <= found[i].logical
  }

  lemma {:induction false} SortedStays(found: seq<DiskExtent>)
    requires InOrder(found)
    ensures SortExtents(found) == found
    decreases |found|
  {
    if found != [] {
      var k := |found| - 1;
      SortedStays(found[..k]);
      assert found[..k] + [found[k]] == found;
    }
  }

  lemma {:induction false} OnDiskInOrder(image: bytes, blockSize: nat, extents: seq<Extent>, data: bytes)
    requires FileOnDisk(image, blockSize, extents, data)
    ensures InOrder(AllToDisk(extents))
  {
    hide HasAt, AllZero;
    forall i | 0 < i < |extents|
      ensures extents[i - 1].logical <= extents[i].logical
    {
      assert PieceOnDisk(image, blockSize, extents, data, i - 1);
      assert PieceOnDisk(image, blockSize, extents, data, i);
      if extents[i].logical < extents[i - 1].logical {
        MulMonotone(extents[i].logical, extents[i - 1].logical, blockSize);
      }
    }
  }

  // ---- What the tree covers ------------------------------------------------------------------------------

  /** The file as the written tree shows it: zero from the extent on that the tree leaves out, if any. */
  function Visible(data: bytes, blockSize: nat, extents: seq<Extent>): (r: bytes)
    ensures |r| == |data|
  {
    if Covered(extents) == extents then data
    else
      var low := Min(Low(extents[|extents| - 1], blockSize), |data|);
      data[..low] + Zeros(|data| - low)
  }

  lemma {:induction false} PiecesAscend(image: bytes, blockSize: nat, extents: seq<Extent>, data: bytes, i: nat, j: nat)
    requires FileOnDisk(image, blockSize, extents, data) && i < j < |extents|
    ensures High(extents[i], blockSize, |data|) <= Low(extents[j], blockSize)
    decreases j
  {
    hide HasAt, AllZero, High, Low;
    assert PieceOnDisk(image, blockSize, extents, data, j);
    assert PieceOnDisk(image, blockSize, extents, data, j - 1);
    if i < j - 1 {
      PiecesAscend(image, blockSize, extents, data, i, j - 1);
    }
  }

  lemma {:induction false} CoveredPiece(image: bytes, blockSize: nat, extents: seq<Extent>, data: bytes, shown: bytes, i: nat)
    requires i + 1 < |extents| && PieceOnDisk(image, blockSize, extents, data, i)
    requires |shown| == |data| && High(extents[i], blockSize, |data|) <= Low(extents[|extents| - 1], blockSize) <= |data|
    requires shown[..Low(extents[|extents| - 1], blockSize)] == data[..Low(extents[|extents| - 1], blockSize)]
    ensures PieceOnDisk(image, blockSize, extents[..|extents| - 1], shown, i)
  {
    hide HasAt;
    var short := extents[..|extents| - 1];
    assert Cursor(short, i, blockSize, |data|) == Cursor(extents, i, blockSize, |data|);
    var last, low, high := Low(extents[|extents| - 1], blockSize), Low(extents[i], blockSize), High(extents[i], blockSize, |data|);
    SamePart(shown, data, last, low, high);
    forall k | Cursor(short, i, blockSize, |data|) <= k < low
      ensures shown[k] == 0
    {
      assert shown[k] == shown[..last][k] == data[..last][k];
    }
  }

  lemma {:induction false} SamePart(a: bytes, b: bytes, last: nat, low: nat, high: nat)
    requires low <= high <= last <= |a| == |b| && a[..last] == b[..last]
    ensures a[low..high] == b[low..high]
  {
    forall k | low <= k < high
      ensures a[k] == b[k]
    {
      assert a[k] == a[..last][k] && b[k] == b[..last][k];
    }
  }

  /** On disk the covered extents hold the visible file. */
  lemma {:induction false} CoveredOnDisk(image: bytes, blockSize: nat, extents: seq<Extent>, data: bytes)
    requires FileOnDisk(image, blockSize, extents, data) && |extents| <= MAX_EXTENTS
    ensures FileOnDisk(image, blockSize, Covered(extents), Visible(data, blockSize, extents))
  {
    if Covered(extents) != extents {
      hide HasAt, TreeCount, AllZero, PieceOnDisk, Cursor;
      var k := |extents| - 1;
      CoveredAllButLast(extents);
      var shown := Visible(data, blockSize, extents);
      var last := Low(extents[k], blockSize);
      PieceLow(image, blockSize, extents, data, k);
      forall i | 0 <= i < k
        ensures PieceOnDisk(image, blockSize, extents[..k], shown, i)
      {
        PiecesAscend(image, blockSize, extents, data, i, k);
        CoveredPiece(image, blockSize, extents, data, shown, i);
      }
      TailOfShown(image, blockSize, extents, data, shown);
    }
  }

  lemma {:induction false} CoveredAllButLast(extents: seq<Extent>)
    requires Covered(extents) != extents && |extents| <= MAX_EXTENTS
    ensures |extents| > 1 && Covered(extents) == extents[..|extents| - 1]
  {
    TreeCountFacts(|extents|);
  }

  lemma {:induction false} PieceLow(image: bytes, blockSize: nat, extents: seq<Extent>, data: bytes, i: nat)
    requires FileOnDisk(image, blockSize, extents, data) && i < |extents|
    ensures Cursor(extents, i, blockSize, |data|) <= Low(extents[i], blockSize) <= |data|
  {
    hide HasAt, AllZero;
    assert PieceOnDisk(image, blockSize, extents, data, i);
  }

  lemma {:induction false} TailOfShown(image: bytes, blockSize: nat, extents: seq<Extent>, data: bytes, shown: bytes)
    requires FileOnDisk(image, blockSize, extents, data) && |extents| > 1
    requires Low(extents[|extents| - 1], blockSize) <= |data|
    requires shown == data[..Low(extents[|extents| - 1], blockSize)] + Zeros(|data| - Low(extents[|extents| - 1], blockSize))
    ensures AllZero(shown, Cursor(extents[..|extents| - 1], |extents| - 1, blockSize, |data|), |data|)
  {
    hide HasAt;
    var k := |extents| - 1;
    assert PieceOnDisk(image, blockSize, extents, data, k);
    assert Cursor(extents[..k], k, blockSize, |data|) == Cursor(extents, k, blockSize, |data|);
  }

  /** The visible file is the file unless the extent count is 1 modulo 340 and the lost extent is not all zero. */
  lemma {:induction false} VisibleIff(blockSize: nat, extents: seq<Extent>, data: bytes)
    requires |extents| <= MAX_EXTENTS
    ensures Visible(data, blockSize, extents) == data
       <==> || |extents| <= 1 || |extents| % TREE_ENTRIES != 1
            || AllZero(data, Low(extents[|extents| - 1], blockSize), |data|)
  {
    hide TreeCount, Low;
    TreeCountFacts(|extents|);
    if Covered(extents) != extents {
      var low := Min(Low(extents[|extents| - 1], blockSize), |data|);
      var shown := data[..low] + Zeros(|data| - low);
      if shown == data {
        assert forall k :: low <= k < |data| ==> data[k] == shown[k];
      }
      assert AllZero(data, low, |data|) ==> shown == data;
    } else if |extents| > 1 {
      assert |Covered(extents)| == |extents|;
    }
  }

  // ---- Reading a built file ------------------------------------------------------------------------------

  /** A built node on disk: its inode slot, its tree blocks and its data, or its target inline. */
  ghost predicate NodeOnDisk(
    image: bytes, blockSize: nat, p: nat, inodeSize: nat, a: Attributes, data: bytes, extents: seq<Extent>, tree: seq<nat>)
  {
    && p + inodeSize <= |image| && FitsTree(extents, tree)
    && InodeWritten(Region(image, p, inodeSize), a, |data|, data, extents, tree, blockSize)
    && (!Inline(a, |data|) ==>
          && FileOnDisk(image, blockSize, extents, data)
          && LeavesAt(image, blockSize, extents, tree, |tree|))
  }

  lemma {:induction false} ExtentsOfNode(
    image: bytes, blockSize: nat, p: nat, inodeSize: nat, a: Attributes, data: bytes, extents: seq<Extent>, tree: seq<nat>)
    requires blockSize >= 4096 && !Inline(a, |data|)
    requires NodeOnDisk(image, blockSize, p, inodeSize, a, data, extents, tree)
    ensures FileExtents(image, blockSize, ParseInode(Region(image, p, inodeSize))) == Ok(AllToDisk(Covered(extents)))
    ensures |extents| <= MAX_EXTENTS
  {
    hide Collect, LeavesAt, AreaHolds, IsLeaf, SlotHolds, FileOnDisk, Region, TreeWritten;
    var raw := Region(image, p, inodeSize);
    var area := raw[AREA_AT..AREA_AT + AREA_LENGTH];
    SlotParses(raw, a, |data|, Sectors(extents, tree, blockSize), INODE_EXTENTS);
    TreeOnDisk(image, blockSize, area, extents, tree);
    AreaMagic(area, extents, tree);
    CollectFindsCovered(image, blockSize, area, extents, tree);
  }

  lemma {:induction false} AreaMagic(area: bytes, extents: seq<Extent>, tree: seq<nat>)
    requires |area| == AREA_LENGTH && AreaHolds(area, extents, tree)
    ensures Get16(area, 0) == EXTENT_MAGIC
  {
  }

  /**
   Both readers give a built file back as its tree shows it: every byte when the extent count is at most 1 or
   not 1 modulo 340, holes as zeros.
   */
  lemma {:induction false} NodeReadsBack(
    image: bytes, blockSize: nat, p: nat, inodeSize: nat, a: Attributes, data: bytes, extents: seq<Extent>, tree: seq<nat>,
    limit: nat)
    requires blockSize >= 4096 && |data| < U32_LIMIT
    requires NodeOnDisk(image, blockSize, p, inodeSize, a, data, extents, tree)
    ensures var inode, shown := ParseInode(Region(image, p, inodeSize)), if Inline(a, |data|) then data else Visible(data, blockSize, extents);
            && inode.size == |data| && inode.mode == a.mode && inode.uid == a.uid % U16_LIMIT && inode.gid == a.gid % U16_LIMIT
            && Prefix(image, blockSize, inode, limit) == Ok(shown[..Min(|data|, limit)])
            && Streamed(image, blockSize, inode) == Ok(shown)
  {
    hide NodeOnDisk, Collect, FileExtents, FillFrom, StreamFrom, SortExtents, Visible, Covered;
    NodeFields(image, blockSize, p, inodeSize, a, data, extents, tree);
    var inode := ParseInode(Region(image, p, inodeSize));
    if Inline(a, |data|) {
      assert inode.area[..|data|] == data;
      assert inode.area[..Min(|data|, limit)] == data[..Min(|data|, limit)];
    } else {
      ExtentsOfNode(image, blockSize, p, inodeSize, a, data, extents, tree);
      var shown, seen := Visible(data, blockSize, extents), Covered(extents);
      NodeData(image, blockSize, p, inodeSize, a, data, extents, tree);
      CoveredOnDisk(image, blockSize, extents, data);
      var n := Min(|data|, limit);
      FillStarts(shown, n, seen, blockSize);
      FillFinds(image, blockSize, seen, shown, 0, Zeros(n));
      OnDiskInOrder(image, blockSize, seen, shown);
      SortedStays(AllToDisk(seen));
      StreamFinds(image, blockSize, seen, shown, 0);
      NothingShown(shown, n);
    }
  }

  lemma {:induction false} NothingShown(shown: bytes, n: nat)
    requires n <= |shown|
    ensures shown[0..] == shown && (n == 0 ==> shown[..n] == [])
  {
  }

  lemma {:induction false} FillStarts(shown: bytes, n: nat, seen: seq<Extent>, blockSize: nat)
    requires n <= |shown|
    ensures FilledTo(Zeros(n), shown, Cursor(seen, 0, blockSize, |shown|)) && Cursor(seen, 0, blockSize, |shown|) == 0
  {
  }

  lemma {:induction false} NodeData(
    image: bytes, blockSize: nat, p: nat, inodeSize: nat, a: Attributes, data: bytes, extents: seq<Extent>, tree: seq<nat>)
    requires NodeOnDisk(image, blockSize, p, inodeSize, a, data, extents, tree) && !Inline(a, |data|)
    ensures FileOnDisk(image, blockSize, extents, data)
  {
  }

  lemma {:induction false} NodeFields(
    image: bytes, blockSize: nat, p: nat, inodeSize: nat, a: Attributes, data: bytes, extents: seq<Extent>, tree: seq<nat>)
    requires NodeOnDisk(image, blockSize, p, inodeSize, a, data, extents, tree) && |data| < U32_LIMIT
    ensures p + inodeSize <= |image| && inodeSize >= 128
    ensures var inode := ParseInode(Region(image, p, inodeSize));
            && inode.mode == a.mode && inode.size == |data| && inode.uid == a.uid % U16_LIMIT && inode.gid == a.gid % U16_LIMIT
            && (Inline(a, |data|) ==> HasAt(inode.area, 0, data))
  {
    hide AreaHolds, SlotHolds, FileOnDisk, LeavesAt, Region, HasAt;
    var raw := Region(image, p, inodeSize);
    if Inline(a, |data|) {
      SlotParses(raw, a, |data|, 0, 0);
    } else {
      SlotParses(raw, a, |data|, Sectors(extents, tree, blockSize), INODE_EXTENTS);
    }
  }
}
