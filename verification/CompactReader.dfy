/**
 Readers of EROFS compressed-compact files: the index decoder, the segment resolver, the full reader,
 the ranged reader and the streaming reader. The decompressor is a parameter.
 */
module CompactReader {
  import opened Core
  import opened CompactFormat
  import opened Buffers

  /** Decompressor by algorithm number; `None` is any of its errors. */
  type Inflate = (nat, bytes, nat) -> Option<bytes>

  datatype ReadError =
    | PastEnd
    | BadIndexPosition
    | BadIndex
    | BadExtent
    | ExtentTooLarge
    | CorruptExtent
    | UnsupportedLayout

  datatype CompactEntry = CompactEntry(lcn: nat, kind: nat, value: nat, pblk: nat)

  /** What the readers take from an inode; `index` is where its first index pack starts. */
  datatype CompactInode = CompactInode(size: nat, algorithms: nat, index: nat)

  const MAX_PCLUSTER := 64 * 1024 * 1024
  const MAX_PCLUSTER_BLOCKS := 8192
  const MAX_COMPRESSED_READ := 256 * 1024 * 1024

  // ---- Index -----------------------------------------------------------------------------------

  /** `1 << low_bits`: the bits below an entry's kind, at least twelve of them. */
  function LowUnit(blockSize: nat): (u: nat)
    ensures u >= 0x1000
  {
    Max(0x1000, blockSize)
  }

  /** Physical blocks the pack spends before entry `preceding`, walking back over NONHEAD runs. */
  function WalkBack(entries: seq<CompactEntry>, packFirst: nat, preceding: int, blocks: nat): (r: Option<nat>)
    decreases preceding
  {
    if preceding <= 0 then Some(blocks)
    else if packFirst + preceding - 1 >= |entries| then None
    else
      var previous := entries[packFirst + preceding - 1];
      if previous.kind == NONHEAD then WalkBack(entries, packFirst, preceding - 1 - previous.value, blocks)
      else WalkBack(entries, packFirst, preceding - 1, blocks + 1)
  }

  /** Entry `lcn` from the word it starts in and the anchor of its pack. */
  function DecodeEntry(raw: nat, anchor: nat, unit: nat, before: seq<CompactEntry>, lcn: nat, entryIndex: nat)
    : Result<CompactEntry, ReadError>
    requires unit > 0
  {
    var value, kind := raw % unit, raw / unit % 4;
    if kind == NONHEAD then Ok(CompactEntry(lcn, kind, value, anchor))
    else if lcn < entryIndex then Err(BadIndexPosition)
    else
      match WalkBack(before, lcn - entryIndex, entryIndex, 1)
      case None => Err(BadIndex)
      case Some(blocks) => Ok(CompactEntry(lcn, kind, value, anchor + blocks))
  }

  function EntryAt(image: bytes, unit: nat, index: nat, before: seq<CompactEntry>, lcn: nat)
    : Result<CompactEntry, ReadError>
    requires unit > 0
  {
    var position := index + lcn * 4;
    var packBase := position / 8 * 8;
    var entryIndex := (position - packBase) / 4;
    match Slice(image, packBase + entryIndex * 2, 4)
    case None => Err(PastEnd)
    case Some(packed) =>
      match Slice(image, packBase + 4, 4)
      case None => Err(PastEnd)
      case Some(trailer) => DecodeEntry(Get32(packed, 0), Get32(trailer, 0), unit, before, lcn, entryIndex)
  }

  /** The first `n` index entries. */
  function Entries(image: bytes, unit: nat, index: nat, n: nat): (r: Result<seq<CompactEntry>, ReadError>)
    requires unit > 0
    ensures r.Ok? ==> |r.value| == n && forall i :: 0 <= i < n ==> r.value[i].lcn == i
  {
    if n == 0 then Ok([])
    else
      match Entries(image, unit, index, n - 1)
      case Err(e) => Err(e)
      case Ok(before) =>
        match EntryAt(image, unit, index, before, n - 1)
        case Err(e) => Err(e)
        case Ok(entry) => Ok(before + [entry])
  }

  lemma {:induction false} EntriesPrefix(image: bytes, unit: nat, index: nat, n: nat, m: nat)
    requires unit > 0 && n <= m
    ensures Entries(image, unit, index, n).Err? ==> Entries(image, unit, index, m) == Entries(image, unit, index, n)
    decreases m - n
  {
    if n < m {
      EntriesPrefix(image, unit, index, n, m - 1);
    }
  }

  method CompactEntries(image: bytes, blockSize: nat, index: nat, total: nat)
    returns (r: Result<seq<CompactEntry>, ReadError>)
    ensures r == Entries(image, LowUnit(blockSize), index, total)
  {
    hide Entries;
    var unit := LowUnit(blockSize);
    var entries: seq<CompactEntry> := [];
    EntriesStart(image, unit, index);
    for lcn := 0 to total
      invariant Entries(image, unit, index, lcn) == Ok(entries)
    {
      var entry := ReadEntry(image, unit, index, entries, lcn);
      EntriesStep(image, unit, index, lcn, entries);
      if entry.Err? {
        EntriesPrefix(image, unit, index, lcn + 1, total);
        return Err(entry.error);
      }
      entries := entries + [entry.value];
    }
    return Ok(entries);
  }

  lemma {:induction false} EntriesStart(image: bytes, unit: nat, index: nat)
    requires unit > 0
    ensures Entries(image, unit, index, 0) == Ok([])
  {
  }

  lemma {:induction false} EntriesStep(image: bytes, unit: nat, index: nat, lcn: nat, entries: seq<CompactEntry>)
    requires unit > 0 && Entries(image, unit, index, lcn) == Ok(entries)
    ensures var entry := EntryAt(image, unit, index, entries, lcn);
            Entries(image, unit, index, lcn + 1)
            == if entry.Ok? then Ok(entries + [entry.value]) else Err(entry.error)
  {
    hide EntryAt;
  }

  /** One iteration of `compact_entries`: read the entry, then walk back inside its pack. */
  method ReadEntry(image: bytes, unit: nat, index: nat, entries: seq<CompactEntry>, lcn: nat)
    returns (r: Result<CompactEntry, ReadError>)
    requires unit > 0
    ensures r == EntryAt(image, unit, index, entries, lcn)
  {
    hide WalkBack, Get32;
    var position := index + lcn * 4;
    var packBase := position / 8 * 8;
    var entryIndex := (position - packBase) / 4;
    var packed := Slice(image, packBase + entryIndex * 2, 4);
    if packed.None? {
      return Err(PastEnd);
    }
    var raw := Get32(packed.value, 0);
    var value, kind := raw % unit, raw / unit % 4;
    var trailer := Slice(image, packBase + 4, 4);
    if trailer.None? {
      return Err(PastEnd);
    }
    var pblk := Get32(trailer.value, 0);
    if kind != NONHEAD {
      if lcn < entryIndex {
        return Err(BadIndexPosition);
      }
      var blocks := CountBack(entries, lcn - entryIndex, entryIndex);
      if blocks.None? {
        return Err(BadIndex);
      }
      pblk := pblk + blocks.value;
    }
    return Ok(CompactEntry(lcn, kind, value, pblk));
  }

  method CountBack(entries: seq<CompactEntry>, packFirst: nat, entryIndex: nat) returns (r: Option<nat>)
    ensures r == WalkBack(entries, packFirst, entryIndex, 1)
  {
    var preceding: int := entryIndex;
    var blocks := 1;
    while preceding > 0
      invariant WalkBack(entries, packFirst, preceding, blocks) == WalkBack(entries, packFirst, entryIndex, 1)
    {
      preceding := preceding - 1;
      if packFirst + preceding >= |entries| {
        return None;
      }
      var previous := entries[packFirst + preceding];
      if previous.kind == NONHEAD {
        preceding := preceding - previous.value;
      } else {
        blocks := blocks + 1;
      }
    }
    return Some(blocks);
  }

  // ---- Segments --------------------------------------------------------------------------------

  /** One resolved extent of a file: bytes `[start, end)` live at physical block `physical`. */
  datatype Segment = Segment(kind: nat, start: nat, end: nat, physical: nat, blocks: nat, algorithm: nat)

  function LogicalStart(e: CompactEntry, blockSize: nat): nat {
    e.lcn * blockSize + e.value
  }

  /** Where the extent of HEAD entry `i - 1` ends: at the next entry that is not a filler. */
  function HeadEnd(entries: seq<CompactEntry>, i: nat, blockSize: nat, size: nat): nat
    requires i <= |entries|
    decreases |entries| - i
  {
    if i == |entries| then size
    else if entries[i].kind != NONHEAD then LogicalStart(entries[i], blockSize)
    else HeadEnd(entries, i + 1, blockSize, size)
  }

  function PlainEnd(entries: seq<CompactEntry>, i: nat, blockSize: nat, size: nat): nat
    requires i <= |entries|
  {
    Min(if i < |entries| then LogicalStart(entries[i], blockSize) else size, size)
  }

  /** Physical size recorded in the fillers from `i` on, one block when there is none. */
  function FillerBlocks(entries: seq<CompactEntry>, i: nat): (b: nat)
    requires i <= |entries|
    decreases |entries| - i
  {
    if i == |entries| || entries[i].kind != NONHEAD then 1
    else if entries[i].value / 0x800 % 2 == 1 then Max(1, entries[i].value - 0x800)
    else FillerBlocks(entries, i + 1)
  }

  /** Segment entry `i` contributes (none or one) and the physical cursor behind it. */
  function NextSegment(entries: seq<CompactEntry>, i: nat, cursor: Option<nat>, inode: CompactInode, blockSize: nat)
    : (r: Result<(seq<Segment>, Option<nat>), ReadError>)
    requires i < |entries|
    ensures r.Ok? ==> |r.value.0| <= 1 && forall s :: s in r.value.0 ==> s.start < s.end
  {
    var e := entries[i];
    var start := LogicalStart(e, blockSize);
    var physical := if cursor.Some? then cursor.value else e.pblk;
    if e.kind == PLAIN then
      if start >= inode.size then Ok(([], cursor))
      else
        var end := PlainEnd(entries, i + 1, blockSize, inode.size);
        Ok((if end > start then [Segment(PLAIN, start, end, physical, 0, 0)] else [], Some(physical + 1)))
    else if e.kind != HEAD1 && e.kind != HEAD2 then Ok(([], cursor))
    else
      var end := HeadEnd(entries, i + 1, blockSize, inode.size);
      var blocks := FillerBlocks(entries, i + 1);
      if end <= start || end > inode.size then Err(BadExtent)
      else if end - start > MAX_PCLUSTER || blocks > MAX_PCLUSTER_BLOCKS then Err(ExtentTooLarge)
      else
        var algorithm := if e.kind == HEAD1 then inode.algorithms % 16 else inode.algorithms / 16;
        Ok(([Segment(e.kind, start, end, physical, blocks, algorithm)], Some(physical + blocks)))
  }

  /** `segments` from entry `i` on, with the physical cursor the previous extents left. */
  function SegmentsFrom(entries: seq<CompactEntry>, i: nat, cursor: Option<nat>, inode: CompactInode, blockSize: nat)
    : (r: Result<seq<Segment>, ReadError>)
    requires i <= |entries|
    ensures r.Ok? ==> forall s :: s in r.value ==> s.start < s.end
    decreases |entries| - i
  {
    if i == |entries| then Ok([])
    else
      match NextSegment(entries, i, cursor, inode, blockSize)
      case Err(x) => Err(x)
      case Ok((found, next)) => Appended(found, SegmentsFrom(entries, i + 1, next, inode, blockSize))
  }

  function Segments(entries: seq<CompactEntry>, inode: CompactInode, blockSize: nat): Result<seq<Segment>, ReadError> {
    SegmentsFrom(entries, 0, None, inode, blockSize)
  }

  /** The decompressor's answer, which must have the declared size. */
  function Inflated(inflate: Inflate, algorithm: nat, input: bytes, size: nat): (r: Option<bytes>)
    ensures r.Some? ==> |r.value| == size
  {
    match inflate(algorithm, input, size)
    case Some(plain) => if |plain| == size then Some(plain) else None
    case None => None
  }

  /** Content of a segment. */
  function SegmentBytes(image: bytes, blockSize: nat, inflate: Inflate, s: Segment): (r: Option<bytes>)
    requires s.start <= s.end
    ensures r.Some? ==> |r.value| == s.end - s.start
  {
    if s.kind == PLAIN then Slice(image, s.physical * blockSize, s.end - s.start)
    else if blockSize * s.blocks > MAX_COMPRESSED_READ then None
    else
      match Slice(image, s.physical * blockSize, blockSize * s.blocks)
      case None => None
      case Some(compressed) => Inflated(inflate, s.algorithm, compressed, s.end - s.start)
  }

  lemma {:induction false} PrependNothing(r: Result<seq<Segment>, ReadError>)
    ensures Appended([], r) == r
  {
    if r.Ok? {
      assert [] + r.value == r.value;
    }
  }

  lemma {:induction false} PrependAfter(done: seq<Segment>, found: seq<Segment>, r: Result<seq<Segment>, ReadError>)
    ensures Appended(done, Appended(found, r)) == Appended(done + found, r)
  {
    if r.Ok? {
      assert done + (found + r.value) == done + found + r.value;
    }
  }

  method ResolveSegments(entries: seq<CompactEntry>, inode: CompactInode, blockSize: nat)
    returns (r: Result<seq<Segment>, ReadError>)
    ensures r == Segments(entries, inode, blockSize)
  {
    hide HeadEnd, PlainEnd, FillerBlocks, LogicalStart;
    var out: seq<Segment> := [];
    var cursor: Option<nat> := None;
    PrependNothing(Segments(entries, inode, blockSize));
    for i := 0 to |entries|
      invariant Segments(entries, inode, blockSize)
             == Appended(out, SegmentsFrom(entries, i, cursor, inode, blockSize))
    {
      var e := entries[i];
      var start := LogicalStart(e, blockSize);
      var physical := if cursor.Some? then cursor.value else e.pblk;
      ghost var before := out;
      ghost var step := NextSegment(entries, i, cursor, inode, blockSize);
      if e.kind == PLAIN {
        if start < inode.size {
          var end := PlainEnd(entries, i + 1, blockSize, inode.size);
          if end > start {
            out := out + [Segment(PLAIN, start, end, physical, 0, 0)];
          }
          cursor := Some(physical + 1);
        }
      } else if e.kind == HEAD1 || e.kind == HEAD2 {
        var end := HeadEnd(entries, i + 1, blockSize, inode.size);
        if end <= start || end > inode.size {
          return Err(BadExtent);
        }
        var blocks := FillerBlocks(entries, i + 1);
        if end - start > MAX_PCLUSTER || blocks > MAX_PCLUSTER_BLOCKS {
          return Err(ExtentTooLarge);
        }
        var algorithm := if e.kind == HEAD1 then inode.algorithms % 16 else inode.algorithms / 16;
        out := out + [Segment(e.kind, start, end, physical, blocks, algorithm)];
        cursor := Some(physical + blocks);
      }
      PrependAfter(before, step.value.0, SegmentsFrom(entries, i + 1, cursor, inode, blockSize));
      assert out == before + step.value.0;
    }
    assert out + [] == out;
    return Ok(out);
  }

  // ---- What a file is ----------------------------------------------------------------------------

  /** The segments cover `[pos, size)` without gap or overlap, in order. */
  predicate TilesFrom(segs: seq<Segment>, pos: nat, size: nat) {
    if segs == [] then pos == size
    else segs[0].start == pos < segs[0].end && TilesFrom(segs[1..], segs[0].end, size)
  }

  /** From `pos` on, `content` is what the segments, which tile it, stand for. */
  predicate FileFrom(image: bytes, blockSize: nat, inflate: Inflate, segs: seq<Segment>, pos: nat, content: bytes) {
    if segs == [] then pos == |content|
    else
      && segs[0].start == pos < segs[0].end <= |content|
      && SegmentBytes(image, blockSize, inflate, segs[0]) == Some(content[pos..segs[0].end])
      && FileFrom(image, blockSize, inflate, segs[1..], segs[0].end, content)
  }

  predicate FileIs(image: bytes, blockSize: nat, inflate: Inflate, segs: seq<Segment>, content: bytes) {
    FileFrom(image, blockSize, inflate, segs, 0, content)
  }

  predicate AllReadable(image: bytes, blockSize: nat, inflate: Inflate, segs: seq<Segment>) {
    segs == [] ||
    (&& segs[0].start <= segs[0].end
     && SegmentBytes(image, blockSize, inflate, segs[0]).Some?
     && AllReadable(image, blockSize, inflate, segs[1..]))
  }

  /** Readable segments that tile a range determine exactly one file. */
  lemma {:induction false} TilesDetermineFile(
    image: bytes, blockSize: nat, inflate: Inflate, segs: seq<Segment>, size: nat, head: bytes)
    returns (content: bytes)
    requires TilesFrom(segs, |head|, size) && AllReadable(image, blockSize, inflate, segs)
    ensures |content| == size && |head| <= size && content[..|head|] == head
    ensures FileFrom(image, blockSize, inflate, segs, |head|, content)
    decreases |segs|
  {
    hide SegmentBytes;
    if segs == [] {
      content := head;
    } else {
      var here := SegmentBytes(image, blockSize, inflate, segs[0]).value;
      content := TilesDetermineFile(image, blockSize, inflate, segs[1..], size, head + here);
      assert content[|head|..segs[0].end] == content[..segs[0].end][|head|..] == here;
      assert content[..|head|] == content[..segs[0].end][..|head|];
    }
  }

  lemma {:induction false} FileFromUnique(
    image: bytes, blockSize: nat, inflate: Inflate, segs: seq<Segment>, pos: nat, a: bytes, b: bytes)
    requires FileFrom(image, blockSize, inflate, segs, pos, a) && FileFrom(image, blockSize, inflate, segs, pos, b)
    ensures pos <= |a| == |b| && a[pos..] == b[pos..]
    decreases |segs|
  {
    hide SegmentBytes;
    if segs != [] {
      FileFromUnique(image, blockSize, inflate, segs[1..], segs[0].end, a, b);
      assert a[pos..] == a[pos..segs[0].end] + a[segs[0].end..];
      assert b[pos..] == b[pos..segs[0].end] + b[segs[0].end..];
    }
  }

  // ---- The readers -------------------------------------------------------------------------------

  /** No PLAIN entry inside the file stands for zero bytes (the full reader would still seek for it). */
  predicate NoEmptyPlain(entries: seq<CompactEntry>, i: nat, inode: CompactInode, blockSize: nat)
    requires i <= |entries|
    decreases |entries| - i
  {
    i == |entries| ||
    (&& (entries[i].kind == PLAIN && LogicalStart(entries[i], blockSize) < inode.size ==>
           LogicalStart(entries[i], blockSize) < PlainEnd(entries, i + 1, blockSize, inode.size))
     && NoEmptyPlain(entries, i + 1, inode, blockSize))
  }

  /** The index, its segments and the file they stand for, as the readers find them on the image. */
  ghost predicate Holds(
    image: bytes, blockSize: nat, inflate: Inflate, inode: CompactInode, segs: seq<Segment>, content: bytes)
    requires blockSize > 0
  {
    var entries := Entries(image, LowUnit(blockSize), inode.index, DivCeil(inode.size, blockSize));
    && entries.Ok?
    && Segments(entries.value, inode, blockSize) == Ok(segs)
    && FileIs(image, blockSize, inflate, segs, content)
    && |content| == inode.size
  }

  ghost predicate PlainsCarryData(image: bytes, blockSize: nat, inode: CompactInode)
    requires blockSize > 0
  {
    var entries := Entries(image, LowUnit(blockSize), inode.index, DivCeil(inode.size, blockSize));
    entries.Ok? ==> NoEmptyPlain(entries.value, 0, inode, blockSize)
  }

  datatype Piece = Piece(at: nat, data: bytes, cursor: Option<nat>)

  /** Bytes one entry contributes to the full reader, and where it leaves the physical cursor. */
  function ReadPiece(image: bytes, blockSize: nat, inflate: Inflate, entries: seq<CompactEntry>, i: nat, cursor: Option<nat>, inode: CompactInode)
    : (r: Result<Piece, ReadError>)
    requires i < |entries|
    ensures r.Ok? && r.value.data != [] ==> r.value.at + |r.value.data| <= inode.size
  {
    var e := entries[i];
    var start := LogicalStart(e, blockSize);
    var physical := if cursor.Some? then cursor.value else e.pblk;
    if e.kind == PLAIN then
      if start >= inode.size then Ok(Piece(0, [], cursor))
      else
        match Slice(image, physical * blockSize, Max(0, PlainEnd(entries, i + 1, blockSize, inode.size) - start))
        case None => Err(PastEnd)
        case Some(data) => Ok(Piece(start, data, Some(physical + 1)))
    else if e.kind != HEAD1 && e.kind != HEAD2 then Ok(Piece(0, [], cursor))
    else
      var end := HeadEnd(entries, i + 1, blockSize, inode.size);
      var blocks := FillerBlocks(entries, i + 1);
      if end <= start || end > inode.size then Err(BadExtent)
      else if end - start > MAX_PCLUSTER || blocks > MAX_PCLUSTER_BLOCKS then Err(ExtentTooLarge)
      else if blockSize * blocks > MAX_COMPRESSED_READ then Err(ExtentTooLarge)
      else
        match Slice(image, physical * blockSize, blockSize * blocks)
        case None => Err(PastEnd)
        case Some(compressed) =>
          var algorithm := if e.kind == HEAD1 then inode.algorithms % 16 else inode.algorithms / 16;
          match Inflated(inflate, algorithm, compressed, end - start)
          case None => Err(CorruptExtent)
          case Some(plain) => Ok(Piece(start, plain, Some(physical + blocks)))
  }

  /** The full reader reads segment by segment what the resolver resolves. */
  lemma {:induction false} PieceIsSegment(
    image: bytes, blockSize: nat, inflate: Inflate, entries: seq<CompactEntry>, i: nat, cursor: Option<nat>,
    inode: CompactInode, segs: seq<Segment>, pos: nat, content: bytes)
    returns (rest: seq<Segment>, next: nat)
    requires i < |entries| && |content| == inode.size && NoEmptyPlain(entries, i, inode, blockSize)
    requires SegmentsFrom(entries, i, cursor, inode, blockSize) == Ok(segs)
    requires FileFrom(image, blockSize, inflate, segs, pos, content)
    ensures var piece := ReadPiece(image, blockSize, inflate, entries, i, cursor, inode);
            && piece.Ok?
            && SegmentsFrom(entries, i + 1, piece.value.cursor, inode, blockSize) == Ok(rest)
            && pos <= next <= |content|
            && piece.value.data == content[pos..next]
            && (next == pos || piece.value.at == pos)
            && FileFrom(image, blockSize, inflate, rest, next, content)
            && NoEmptyPlain(entries, i + 1, inode, blockSize)
  {
    hide HeadEnd, PlainEnd, FillerBlocks, LogicalStart, Slice, Inflated;
    var (found, after) := NextSegment(entries, i, cursor, inode, blockSize).value;
    rest := SegmentsFrom(entries, i + 1, after, inode, blockSize).value;
    assert segs == found + rest;
    if found == [] {
      next := pos;
      FileFromBound(image, blockSize, inflate, segs, pos, content);
      assert segs == rest;
    } else {
      next := segs[0].end;
      assert segs[0] == found[0] && segs[1..] == rest;
    }
  }

  lemma {:induction false} FileFromBound(image: bytes, blockSize: nat, inflate: Inflate, segs: seq<Segment>, pos: nat, content: bytes)
    requires FileFrom(image, blockSize, inflate, segs, pos, content)
    ensures pos <= |content|
  {
    hide SegmentBytes;
  }

  /** `read_compact_data`: decodes every extent into the caller's zeroed buffer. */
  method ReadCompactData(
    image: bytes, blockSize: nat, inflate: Inflate, inode: CompactInode, output: array<byte>,
    ghost segs: seq<Segment>, ghost content: bytes)
    returns (r: Result<(), ReadError>)
    requires blockSize > 0 && output.Length == inode.size
    modifies output
    ensures Holds(image, blockSize, inflate, inode, segs, content) && PlainsCarryData(image, blockSize, inode) ==>
              r.Ok? && output[..] == content
  {
    hide Entries, SegmentsFrom, NoEmptyPlain, FileFrom, ReadPiece, LowUnit;
    ghost var good := Holds(image, blockSize, inflate, inode, segs, content) && PlainsCarryData(image, blockSize, inode);
    var entries := CompactEntries(image, blockSize, inode.index, DivCeil(inode.size, blockSize));
    if entries.Err? {
      return Err(entries.error);
    }
    var cursor: Option<nat> := None;
    ghost var rest, pos: nat := segs, 0;
    for i := 0 to |entries.value|
      invariant good ==> SegmentsFrom(entries.value, i, cursor, inode, blockSize) == Ok(rest)
      invariant good ==> FileFrom(image, blockSize, inflate, rest, pos, content)
      invariant good ==> NoEmptyPlain(entries.value, i, inode, blockSize)
      invariant good ==> pos <= |content| && output[..pos] == content[..pos]
    {
      if good {
        ghost var rest', next := PieceIsSegment(image, blockSize, inflate, entries.value, i, cursor, inode, rest, pos, content);
        assert content[..next] == content[..pos] + content[pos..next];
        rest, pos := rest', next;
      }
      var piece := ReadPiece(image, blockSize, inflate, entries.value, i, cursor, inode);
      if piece.Err? {
        return Err(piece.error);
      }
      if piece.value.data != [] {
        CopyInto(output, piece.value.at, piece.value.data);
      }
      cursor := piece.value.cursor;
    }
    if good {
      NothingLeft(image, blockSize, inflate, entries.value, cursor, inode, rest, pos, content);
    }
    return Ok(());
  }

  lemma {:induction false} NothingLeft(
    image: bytes, blockSize: nat, inflate: Inflate, entries: seq<CompactEntry>, cursor: Option<nat>,
    inode: CompactInode, rest: seq<Segment>, pos: nat, content: bytes)
    requires SegmentsFrom(entries, |entries|, cursor, inode, blockSize) == Ok(rest)
    requires FileFrom(image, blockSize, inflate, rest, pos, content)
    ensures pos == |content| && content[..pos] == content
  {
    hide SegmentBytes;
  }

  lemma {:induction false} SliceStart(image: bytes, at: nat, n: nat, m: nat)
    requires m <= n
    ensures var whole, start := Slice(image, at, n), Slice(image, at, m);
            && (whole.Some? ==> start == Some(whole.value[..m]))
            && (m == n ==> whole == start)
  {
    if at + n <= |image| {
      SliceOfSlice(image, at, at + n, at, at + m);
    }
  }

  /** `read_segment`: fills the buffer with the segment's first bytes. */
  method ReadSegment(image: bytes, blockSize: nat, inflate: Inflate, s: Segment, out: array<byte>)
    returns (r: Result<nat, ReadError>)
    requires s.start <= s.end
    modifies out
    ensures SegmentBytes(image, blockSize, inflate, s).Some? ==>
              && r == Ok(Min(s.end - s.start, out.Length))
              && out[..r.value] == SegmentBytes(image, blockSize, inflate, s).value[..r.value]
              && out[r.value..] == old(out[r.value..])
    ensures r.Ok? && out.Length >= s.end - s.start ==> SegmentBytes(image, blockSize, inflate, s).Some?
  {
    hide Inflated, Slice;
    var want := Min(s.end - s.start, out.Length);
    if s.kind == PLAIN {
      SliceStart(image, s.physical * blockSize, s.end - s.start, want);
      var data := Slice(image, s.physical * blockSize, want);
      if data.None? {
        return Err(PastEnd);
      }
      CopyInto(out, 0, data.value);
      return Ok(want);
    }
    if blockSize * s.blocks > MAX_COMPRESSED_READ {
      return Err(ExtentTooLarge);
    }
    var compressed := Slice(image, s.physical * blockSize, blockSize * s.blocks);
    if compressed.None? {
      return Err(PastEnd);
    }
    var decoded := Inflated(inflate, s.algorithm, compressed.value, s.end - s.start);
    if decoded.None? {
      return Err(CorruptExtent);
    }
    var take := Min(want, |decoded.value|);
    CopyInto(out, 0, decoded.value[..take]);
    return Ok(take);
  }

  /** The part of a segment that falls inside a window, read by decoding at most that segment. */
  method ReadOverlap(image: bytes, blockSize: nat, inflate: Inflate, s: Segment, from: nat, to: nat)
    returns (r: Result<bytes, ReadError>)
    requires s.start <= from <= to <= s.end
    ensures r.Ok? ==> |r.value| == to - from
    ensures SegmentBytes(image, blockSize, inflate, s).Some? ==>
              r == Ok(SegmentBytes(image, blockSize, inflate, s).value[from - s.start..to - s.start])
  {
    hide SegmentBytes, Slice;
    if s.kind == PLAIN {
      PlainOverlap(image, blockSize, inflate, s, from, to);
      var data := Slice(image, s.physical * blockSize + (from - s.start), to - from);
      return if data.Some? then Ok(data.value) else Err(PastEnd);
    }
    var decoded := new byte[s.end - s.start](_ => 0);
    var got := ReadSegment(image, blockSize, inflate, s, decoded);
    if got.Err? {
      return Err(got.error);
    }
    if got.value != decoded.Length {
      return Err(CorruptExtent);
    }
    ghost var whole := SegmentBytes(image, blockSize, inflate, s);
    assert whole.Some? ==> decoded[..] == decoded[..got.value] == whole.value[..got.value] == whole.value;
    return Ok(decoded[from - s.start..to - s.start]);
  }

  lemma {:induction false} PlainOverlap(image: bytes, blockSize: nat, inflate: Inflate, s: Segment, from: nat, to: nat)
    requires s.start <= from <= to <= s.end && s.kind == PLAIN
    ensures var whole := SegmentBytes(image, blockSize, inflate, s);
            whole.Some? ==>
              Slice(image, s.physical * blockSize + (from - s.start), to - from) == Some(whole.value[from - s.start..to - s.start])
  {
    hide Inflated;
    var at := s.physical * blockSize;
    if at + (s.end - s.start) <= |image| {
      SliceOfSlice(image, at, at + (s.end - s.start), at + (from - s.start), at + (to - s.start));
    }
  }

  /** The first `n` bytes of the buffer are the file's from `offset` on, the others are untouched. */
  predicate Window(now: bytes, before: bytes, content: bytes, offset: nat, n: nat) {
    n <= |before| && offset + n <= |content| && now == content[offset..offset + n] + before[n..]
  }

  lemma {:induction false} WindowStarts(before: bytes, content: bytes, offset: nat)
    requires offset <= |content|
    ensures Window(before, before, content, offset, 0)
  {
  }

  /** A window stays one when the next bytes of the file are copied behind it. */
  lemma {:induction false} WindowGrows(now: bytes, before: bytes, content: bytes, offset: nat, done: nat, next: nat)
    requires Window(now, before, content, offset, done)
    requires done <= next <= |before| && offset + next <= |content|
    ensures Window(now[..done] + content[offset + done..offset + next] + now[next..], before, content, offset, next)
  {
    assert now[..done] == content[offset..offset + done];
    assert now[next..] == before[next..];
    assert content[offset..offset + next] == content[offset..offset + done] + content[offset + done..offset + next];
  }

  lemma {:induction false} HoldsMeans(
    image: bytes, blockSize: nat, inflate: Inflate, inode: CompactInode, segs: seq<Segment>, content: bytes)
    requires blockSize > 0 && Holds(image, blockSize, inflate, inode, segs, content)
    ensures var entries := Entries(image, LowUnit(blockSize), inode.index, DivCeil(inode.size, blockSize));
            entries.Ok? && Segments(entries.value, inode, blockSize) == Ok(segs)
    ensures FileFrom(image, blockSize, inflate, segs, 0, content) && |content| == inode.size
  {
    hide Entries, Segments, FileFrom, SegmentBytes, LowUnit, DivCeil;
  }

  /** `read_range` on a compressed file: only the extents that overlap the window are decoded. */
  method ReadRange(
    image: bytes, blockSize: nat, inflate: Inflate, inode: CompactInode, offset: nat, buffer: array<byte>,
    ghost segs: seq<Segment>, ghost content: bytes)
    returns (r: Result<nat, ReadError>)
    requires blockSize > 0
    modifies buffer
    ensures offset > inode.size ==> r == Err(PastEnd)
    ensures offset <= inode.size && Holds(image, blockSize, inflate, inode, segs, content) ==>
              var n := Min(inode.size - offset, buffer.Length);
              r == Ok(n) && Window(buffer[..], old(buffer[..]), content, offset, n)
  {
    hide Entries, SegmentsFrom, FileFrom, SegmentBytes, LowUnit, Window, DivCeil, Holds;
    if offset > inode.size {
      return Err(PastEnd);
    }
    var len := Min(inode.size - offset, buffer.Length);
    ghost var good := Holds(image, blockSize, inflate, inode, segs, content);
    ghost var before := buffer[..];
    if good {
      HoldsMeans(image, blockSize, inflate, inode, segs, content);
      WindowStarts(before, content, offset);
    }
    if len == 0 {
      return Ok(0);
    }
    var entries := CompactEntries(image, blockSize, inode.index, DivCeil(inode.size, blockSize));
    if entries.Err? {
      return Err(entries.error);
    }
    var resolved := ResolveSegments(entries.value, inode, blockSize);
    if resolved.Err? {
      return Err(resolved.error);
    }
    var list := resolved.value;
    var done: nat := 0;
    ghost var pos: nat := 0;
    assert list[0..] == list;
    for i := 0 to |list|
      invariant done <= len
      invariant good ==> FileFrom(image, blockSize, inflate, list[i..], pos, content)
      invariant good ==> done == Max(0, Min(pos - offset, len)) < len
      invariant good ==> Window(buffer[..], before, content, offset, done)
    {
      var seg := list[i];
      if good {
        FileFromHead(image, blockSize, inflate, list, i, pos, content);
        pos := seg.end;
      }
      if seg.end <= offset || seg.start >= offset + len {
        continue;
      }
      var segStart, segEnd := Max(offset, seg.start), Min(offset + len, seg.end);
      var part := ReadOverlap(image, blockSize, inflate, seg, segStart, segEnd);
      if part.Err? {
        return Err(part.error);
      }
      if good {
        SliceOfSlice(content, seg.start, seg.end, segStart, segEnd);
        WindowGrows(buffer[..], before, content, offset, segStart - offset, segEnd - offset);
      }
      CopyInto(buffer, segStart - offset, part.value);
      done := Max(done, segEnd - offset);
      if done >= len {
        break;
      }
    }
    if good && done < len {
      assert list[|list|..] == [];
      FileFromEnd(image, blockSize, inflate, pos, content);
    }
    return Ok(done);
  }

  lemma {:induction false} FileFromEnd(image: bytes, blockSize: nat, inflate: Inflate, pos: nat, content: bytes)
    requires FileFrom(image, blockSize, inflate, [], pos, content)
    ensures pos == |content|
  {
  }

  lemma {:induction false} SliceOfSlice(content: bytes, a: nat, d: nat, b: nat, c: nat)
    requires a <= b <= c <= d <= |content|
    ensures content[a..d][b - a..c - a] == content[b..c]
  {
    var inner := content[a..d][b - a..c - a];
    forall i | 0 <= i < c - b
      ensures inner[i] == content[b..c][i]
    {
      assert inner[i] == content[a..d][b - a + i] == content[b + i];
    }
  }

  lemma {:induction false} FileFromHead(
    image: bytes, blockSize: nat, inflate: Inflate, list: seq<Segment>, i: nat, pos: nat, content: bytes)
    requires i < |list| && FileFrom(image, blockSize, inflate, list[i..], pos, content)
    ensures list[i].start == pos < list[i].end <= |content|
    ensures SegmentBytes(image, blockSize, inflate, list[i]) == Some(content[pos..list[i].end])
    ensures FileFrom(image, blockSize, inflate, list[i + 1..], list[i].end, content)
  {
    hide SegmentBytes;
    assert list[i..][1..] == list[i + 1..];
  }

  const STREAM_CHUNK := 64 * 1024

  method StreamPlain(image: bytes, at: nat, length: nat, written: bytes) returns (r: Result<bytes, ReadError>)
    ensures Slice(image, at, length).Some? ==> r == Ok(written + Slice(image, at, length).value)
  {
    var out, pos := written, 0;
    while pos < length
      invariant 0 <= pos <= length
      invariant at + pos <= |image| || pos == 0
      invariant at + pos <= |image| ==> out == written + image[at..at + pos]
    {
      var n := Min(length - pos, STREAM_CHUNK);
      var data := Slice(image, at + pos, n);
      if data.None? {
        return Err(PastEnd);
      }
      out := out + data.value;
      assert image[at..at + pos + n] == image[at..at + pos] + image[at + pos..at + pos + n];
      pos := pos + n;
    }
    return Ok(out);
  }

  method StreamDecoded(decoded: bytes, written: bytes) returns (out: bytes)
    ensures out == written + decoded
  {
    out := written;
    var pos := 0;
    while pos < |decoded|
      invariant 0 <= pos <= |decoded|
      invariant out == written + decoded[..pos]
    {
      var n := Min(|decoded| - pos, STREAM_CHUNK);
      out := out + decoded[pos..pos + n];
      assert decoded[..pos + n] == decoded[..pos] + decoded[pos..pos + n];
      pos := pos + n;
    }
    assert decoded[..pos] == decoded;
  }

  /** `read_data_streaming` on a compressed file. */
  method ReadDataStreaming(
    image: bytes, blockSize: nat, inflate: Inflate, inode: CompactInode, ghost segs: seq<Segment>, ghost content: bytes)
    returns (r: Result<bytes, ReadError>)
    requires blockSize > 0
    ensures Holds(image, blockSize, inflate, inode, segs, content) ==> r == Ok(content)
  {
    hide Entries, SegmentsFrom, FileFrom, LowUnit, DivCeil, Inflated;
    ghost var good := Holds(image, blockSize, inflate, inode, segs, content);
    var entries := CompactEntries(image, blockSize, inode.index, DivCeil(inode.size, blockSize));
    if entries.Err? {
      return Err(entries.error);
    }
    var resolved := ResolveSegments(entries.value, inode, blockSize);
    if resolved.Err? {
      return Err(resolved.error);
    }
    var list := resolved.value;
    var out: bytes := [];
    ghost var pos: nat := 0;
    assert list[0..] == list;
    for i := 0 to |list|
      invariant good ==> FileFrom(image, blockSize, inflate, list[i..], pos, content)
      invariant good ==> pos <= |content| && out == content[..pos]
    {
      var seg := list[i];
      if good {
        FileFromHead(image, blockSize, inflate, list, i, pos, content);
        assert content[..seg.end] == content[..pos] + content[pos..seg.end];
        pos := seg.end;
      }
      if seg.kind == PLAIN {
        var streamed := StreamPlain(image, seg.physical * blockSize, seg.end - seg.start, out);
        if streamed.Err? {
          return streamed;
        }
        out := streamed.value;
      } else {
        var decoded := new byte[seg.end - seg.start](_ => 0);
        var got := ReadSegment(image, blockSize, inflate, seg, decoded);
        if got.Err? {
          return Err(got.error);
        }
        if got.value != decoded.Length {
          return Err(CorruptExtent);
        }
        ghost var whole := SegmentBytes(image, blockSize, inflate, seg);
        assert whole.Some? ==> decoded[..] == decoded[..got.value] == whole.value[..got.value] == whole.value;
        out := StreamDecoded(decoded[..], out);
      }
    }
    if good {
      assert list[|list|..] == [];
      FileFromEnd(image, blockSize, inflate, pos, content);
      assert content[..pos] == content;
    }
    return Ok(out);
  }
}
