/** Android sparse images, reading: the strict chunk parser and random access through a binary search. */
module SparseReader {
  import opened Core
  import opened Arith
  import opened SparseWriter

  const CHUNK_CRC32: nat := 0xcac4
  const MAX_CHUNK_HEADER: nat := 1024
  const MAX_BLOCK: nat := 64 * 1024 * 1024

  /** A chunk as parsed: its stretch of the raw image, and where its data is. */
  datatype Chunk = Chunk(kind: nat, start: nat, length: nat, offset: nat, fill: bytes)

  datatype ParseError = ShortFile | UnsupportedHeader | EmptyChunk | BadChunkSize | UnknownChunk | SizeOverflow | WrongTotal
  datatype ReadError = NoChunk | ShortData | OutOfImage

  datatype Header = Header(headerSize: nat, chunkHeader: nat, blockSize: nat, blocks: nat, chunks: nat)

  // ---- Parsing ---------------------------------------------------------------------------------------------

  function ParseHeader(file: bytes): Result<Header, ParseError> {
    if |file| < FILE_HEADER then Err(ShortFile)
    else
      var h := Header(Get16(file, 8), Get16(file, 10), Get32(file, 12), Get32(file, 16), Get32(file, 20));
      if Get16(file, 4) != 1 || h.headerSize < FILE_HEADER || h.chunkHeader < CHUNK_HEADER || h.chunkHeader > MAX_CHUNK_HEADER
         || h.blockSize == 0 || h.blockSize > MAX_BLOCK
      then Err(UnsupportedHeader)
      else Ok(h)
  }

  /** The chunk whose header is at `at`, and the offset behind its data. */
  function ParseChunk(file: bytes, h: Header, at: nat, start: nat): Result<(Chunk, nat), ParseError>
    requires h.chunkHeader >= CHUNK_HEADER
  {
    if at + h.chunkHeader > |file| then Err(ShortFile)
    else
      var kind, blocks, total := Get16(file, at), Get32(file, at + 4), Get32(file, at + 8);
      var length, offset := blocks * h.blockSize, at + h.chunkHeader;
      if length >= U64_LIMIT then Err(SizeOverflow)
      else if blocks == 0 then Err(EmptyChunk)
      else if total < h.chunkHeader then Err(BadChunkSize)
      else
        var size := total - h.chunkHeader;
        if kind == CHUNK_FILL then
          if size != 4 then Err(BadChunkSize)
          else if offset + 4 > |file| then Err(ShortFile)
          else Ok((Chunk(kind, start, length, offset, file[offset..offset + 4]), offset + 4))
        else if kind == CHUNK_RAW then
          if size != length then Err(BadChunkSize) else Ok((Chunk(kind, start, length, offset, Zeros(4)), offset + size))
        else if kind == CHUNK_DONT_CARE || kind == CHUNK_CRC32 then
          if size != 0 && !(kind == CHUNK_CRC32 && size == 4) then Err(BadChunkSize)
          else Ok((Chunk(kind, start, length, offset, Zeros(4)), offset + size))
        else Err(UnknownChunk)
  }

  /** `n` chunks from offset `at` on, the first at image offset `start`, and the image offset behind the last. */
  function ParseChunks(file: bytes, h: Header, at: nat, start: nat, n: nat): Result<(seq<Chunk>, nat), ParseError>
    requires h.chunkHeader >= CHUNK_HEADER
    decreases n
  {
    if n == 0 then Ok(([], start))
    else
      match ParseChunk(file, h, at, start)
      case Err(e) => Err(e)
      case Ok(first) =>
        if start + first.0.length >= U64_LIMIT then Err(SizeOverflow)
        else
          match ParseChunks(file, h, first.1, start + first.0.length, n - 1)
          case Err(e) => Err(e)
          case Ok(rest) => Ok(([first.0] + rest.0, rest.1))
  }

  /** A parsed image: its chunks and its logical size. */
  datatype Sparse = Sparse(blockSize: nat, size: nat, chunks: seq<Chunk>)

  function ParseFile(file: bytes): Result<Sparse, ParseError> {
    match ParseHeader(file)
    case Err(e) => Err(e)
    case Ok(h) =>
      match ParseChunks(file, h, h.headerSize, 0, h.chunks)
      case Err(e) => Err(e)
      case Ok(parsed) =>
        if h.blocks * h.blockSize >= U64_LIMIT then Err(SizeOverflow)
        else if parsed.1 != h.blocks * h.blockSize then Err(WrongTotal)
        else Ok(Sparse(h.blockSize, parsed.1, parsed.0))
  }

  function Behind(chunks: seq<Chunk>, r: Result<(seq<Chunk>, nat), ParseError>): Result<(seq<Chunk>, nat), ParseError> {
    if r.Ok? then Ok((chunks + r.value.0, r.value.1)) else r
  }

  /** `SparseImage::parse`. */
  method Parse(file: bytes) returns (r: Result<Sparse, ParseError>)
    ensures r == ParseFile(file)
  {
    hide ParseChunk, Get16, Get32;
    var header := ParseHeader(file);
    if header.Err? {
      return Err(header.error);
    }
    var h := header.value;
    var chunks: seq<Chunk> := [];
    var at: nat, start: nat := h.headerSize, 0;
    ghost var all := ParseChunks(file, h, h.headerSize, 0, h.chunks);
    assert Behind([], all) == all by {
      assert all.Ok? ==> [] + all.value.0 == all.value.0;
    }
    for index := 0 to h.chunks
      invariant Behind(chunks, ParseChunks(file, h, at, start, h.chunks - index)) == all
    {
      var chunk := ParseChunk(file, h, at, start);
      if chunk.Err? {
        return Err(chunk.error);
      }
      if start + chunk.value.0.length >= U64_LIMIT {
        return Err(SizeOverflow);
      }
      ghost var rest := ParseChunks(file, h, chunk.value.1, start + chunk.value.0.length, h.chunks - index - 1);
      assert rest.Ok? ==> chunks + ([chunk.value.0] + rest.value.0) == chunks + [chunk.value.0] + rest.value.0;
      chunks := chunks + [chunk.value.0];
      at, start := chunk.value.1, start + chunk.value.0.length;
    }
    assert chunks + [] == chunks;
    if h.blocks * h.blockSize >= U64_LIMIT {
      return Err(SizeOverflow);
    }
    if start != h.blocks * h.blockSize {
      return Err(WrongTotal);
    }
    return Ok(Sparse(h.blockSize, start, chunks));
  }

  // ---- Chunks in order -------------------------------------------------------------------------------------

  /** Chunks follow each other from `start` to `end`, none empty. */
  predicate InOrder(chunks: seq<Chunk>, start: nat, end: nat)
    decreases |chunks|
  {
    if chunks == [] then start == end
    else chunks[0].start == start && chunks[0].length > 0 && InOrder(chunks[1..], start + chunks[0].length, end)
  }

  lemma {:induction false} ParsedInOrder(file: bytes, h: Header, at: nat, start: nat, n: nat)
    requires h.chunkHeader >= CHUNK_HEADER && h.blockSize > 0
    ensures var r := ParseChunks(file, h, at, start, n);
            r.Ok? ==> InOrder(r.value.0, start, r.value.1)
    decreases n
  {
    var r := ParseChunks(file, h, at, start, n);
    if n > 0 && r.Ok? {
      ChunkNotEmpty(file, h, at, start);
      hide ParseChunk;
      var first := ParseChunk(file, h, at, start).value;
      ParsedInOrder(file, h, first.1, start + first.0.length, n - 1);
      assert r.value.0[1..] == ParseChunks(file, h, first.1, start + first.0.length, n - 1).value.0;
    }
  }

  lemma {:induction false} ChunkNotEmpty(file: bytes, h: Header, at: nat, start: nat)
    requires h.chunkHeader >= CHUNK_HEADER && h.blockSize > 0
    ensures var r := ParseChunk(file, h, at, start);
            r.Ok? ==> r.value.0.start == start && r.value.0.length > 0 && |r.value.0.fill| == 4
                      && r.value.0.kind in {CHUNK_RAW, CHUNK_FILL, CHUNK_DONT_CARE, CHUNK_CRC32}
  {
    hide Get16, Get32;
    if at + h.chunkHeader <= |file| {
      var blocks := Get32(file, at + 4);
      if blocks > 0 {
        MulMonotone(1, blocks, h.blockSize);
      }
    }
  }

  lemma {:induction false} StartsAscend(chunks: seq<Chunk>, start: nat, end: nat, i: nat, j: nat)
    requires InOrder(chunks, start, end) && i < j < |chunks|
    ensures chunks[i].start + chunks[i].length <= chunks[j].start
    decreases |chunks|
  {
    if i > 0 {
      assert chunks[1..][i - 1] == chunks[i] && chunks[1..][j - 1] == chunks[j];
      StartsAscend(chunks[1..], start + chunks[0].length, end, i - 1, j - 1);
    } else {
      assert chunks[1..][j - 1] == chunks[j];
      StartsAtLeast(chunks[1..], start + chunks[0].length, end, j - 1);
    }
  }

  lemma {:induction false} StartsAtLeast(chunks: seq<Chunk>, start: nat, end: nat, j: nat)
    requires InOrder(chunks, start, end) && j < |chunks|
    ensures start <= chunks[j].start && chunks[j].start + chunks[j].length <= end && chunks[j].length > 0
    decreases |chunks|
  {
    if j > 0 {
      assert chunks[1..][j - 1] == chunks[j];
      StartsAtLeast(chunks[1..], start + chunks[0].length, end, j - 1);
    } else {
      EndAtLeast(chunks[1..], start + chunks[0].length, end);
    }
  }

  lemma {:induction false} EndAtLeast(chunks: seq<Chunk>, start: nat, end: nat)
    requires InOrder(chunks, start, end)
    ensures start <= end
    decreases |chunks|
  {
    if chunks != [] {
      EndAtLeast(chunks[1..], start + chunks[0].length, end);
    }
  }

  // ---- Random access ---------------------------------------------------------------------------------------

  /** How many chunks start at or in front of `position`. */
  function StartedBy(chunks: seq<Chunk>, position: nat): (n: nat)
    ensures n <= |chunks|
  {
    if chunks == [] || chunks[|chunks| - 1].start <= position then |chunks| else StartedBy(chunks[..|chunks| - 1], position)
  }

  lemma {:induction false} StartedInFront(chunks: seq<Chunk>, position: nat)
    ensures var n := StartedBy(chunks, position);
            n > 0 ==> chunks[n - 1].start <= position
    decreases |chunks|
  {
    if chunks != [] && chunks[|chunks| - 1].start > position {
      StartedInFront(chunks[..|chunks| - 1], position);
    }
  }

  lemma {:induction false} StartedByIs(chunks: seq<Chunk>, position: nat, n: nat)
    requires n <= |chunks| && (n > 0 ==> chunks[n - 1].start <= position)
    requires forall i :: n <= i < |chunks| ==> chunks[i].start > position
    ensures StartedBy(chunks, position) == n
    decreases |chunks|
  {
    if n < |chunks| {
      StartedByIs(chunks[..|chunks| - 1], position, n);
    }
  }

  /** `partition_point` on the chunk starts: a binary search. */
  method PartitionPoint(chunks: seq<Chunk>, position: nat, ghost end: nat) returns (n: nat)
    requires InOrder(chunks, 0, end)
    ensures n == StartedBy(chunks, position)
  {
    hide InOrder;
    var low, high: nat := 0, |chunks|;
    while low < high
      invariant 0 <= low <= high <= |chunks|
      invariant low > 0 ==> chunks[low - 1].start <= position
      invariant forall i :: high <= i < |chunks| ==> chunks[i].start > position
    {
      var middle := (low + high) / 2;
      if chunks[middle].start <= position {
        low := middle + 1;
      } else {
        forall i | middle <= i < |chunks|
          ensures chunks[i].start > position
        {
          if i > middle {
            StartsAscend(chunks, 0, end, middle, i);
          }
        }
        high := middle;
      }
    }
    StartedByIs(chunks, position, low);
    n := low;
  }

  /** Bytes `from..from + n` of a chunk that holds them; `from` counts from the start of the image. */
  function ChunkBytes(file: bytes, c: Chunk, from: nat, n: nat): Result<bytes, ReadError>
    requires c.start <= from && |c.fill| == 4
  {
    if c.kind == CHUNK_RAW then
      match Slice(file, c.offset + (from - c.start), n)
      case None => Err(ShortData)
      case Some(data) => Ok(data)
    else if c.kind == CHUNK_FILL then Ok(seq(n, i requires 0 <= i < n => c.fill[(from + i) % 4]))
    else Ok(Zeros(n))
  }

  predicate FillsSized(chunks: seq<Chunk>) {
    forall i :: 0 <= i < |chunks| ==> |chunks[i].fill| == 4
  }

  function ReadFrom(file: bytes, chunks: seq<Chunk>, position: nat, n: nat): Result<bytes, ReadError>
    requires FillsSized(chunks)
    decreases n
  {
    if n == 0 then Ok([])
    else
      match ReadStep(file, chunks, position, n)
      case Err(e) => Err(e)
      case Ok(here) =>
        match ReadFrom(file, chunks, position + |here|, n - |here|)
        case Err(e) => Err(e)
        case Ok(rest) => Ok(here + rest)
  }

  /** One round of the read loop: as much as the chunk at `position` has. */
  function ReadStep(file: bytes, chunks: seq<Chunk>, position: nat, n: nat): (r: Result<bytes, ReadError>)
    requires FillsSized(chunks) && n > 0
    ensures r.Ok? ==> 0 < |r.value| <= n
  {
    var found := StartedBy(chunks, position);
    if found == 0 then Err(NoChunk)
    else
      StartedInFront(chunks, position);
      var c := chunks[found - 1];
      if position >= c.start + c.length then Err(NoChunk)
      else
        match ChunkBytes(file, c, position, Min(c.start + c.length - position, n))
        case Err(e) => Err(e)
        case Ok(data) => Ok(data)
  }

  /** `SparseImage::read_at`, with the bounds check of `Image::read_at`. */
  method ReadAt(file: bytes, image: Sparse, offset: nat, n: nat) returns (r: Result<bytes, ReadError>)
    requires InOrder(image.chunks, 0, image.size) && FillsSized(image.chunks)
    ensures r == if offset + n > image.size then Err(OutOfImage) else ReadFrom(file, image.chunks, offset, n)
  {
    hide InOrder, FillsSized, ReadFrom, ReadStep;
    if offset + n > image.size {
      return Err(OutOfImage);
    }
    var output: bytes := [];
    var position, left := offset, n;
    ghost var all := ReadFrom(file, image.chunks, offset, n);
    ReadNothing(all);
    while left > 0
      invariant 0 <= left <= n && position == offset + (n - left)
      invariant Appended(output, ReadFrom(file, image.chunks, position, left)) == all
    {
      var here := ReadOnce(file, image, position, left);
      ReadMore(file, image.chunks, position, left, output);
      if here.Err? {
        return Err(here.error);
      }
      output := output + here.value;
      position, left := position + |here.value|, left - |here.value|;
    }
    ReadEnds(file, image.chunks, position, output);
    return Ok(output);
  }

  lemma {:induction false} ReadNothing(r: Result<bytes, ReadError>)
    ensures Appended([], r) == r
  {
    assert r.Ok? ==> [] + r.value == r.value;
  }

  lemma {:induction false} ReadEnds(file: bytes, chunks: seq<Chunk>, position: nat, output: bytes)
    requires FillsSized(chunks)
    ensures Appended(output, ReadFrom(file, chunks, position, 0)) == Ok(output)
  {
    assert output + [] == output;
  }

  lemma {:induction false} ReadMore(file: bytes, chunks: seq<Chunk>, position: nat, n: nat, output: bytes)
    requires FillsSized(chunks) && n > 0
    ensures var here := ReadStep(file, chunks, position, n);
            Appended(output, ReadFrom(file, chunks, position, n))
            == if here.Err? then here
               else Appended(output + here.value, ReadFrom(file, chunks, position + |here.value|, n - |here.value|))
  {
    hide ReadStep, FillsSized;
    var here := ReadStep(file, chunks, position, n);
    if here.Ok? {
      var rest := ReadFrom(file, chunks, position + |here.value|, n - |here.value|);
      if rest.Ok? {
        assert output + (here.value + rest.value) == output + here.value + rest.value;
      }
    }
  }

  method ReadOnce(file: bytes, image: Sparse, position: nat, n: nat) returns (r: Result<bytes, ReadError>)
    requires InOrder(image.chunks, 0, image.size) && FillsSized(image.chunks) && n > 0
    ensures r == ReadStep(file, image.chunks, position, n)
  {
    hide InOrder, StartedBy;
    var found := PartitionPoint(image.chunks, position, image.size);
    StartedInFront(image.chunks, position);
    if found == 0 {
      return Err(NoChunk);
    }
    var c := image.chunks[found - 1];
    if position >= c.start + c.length {
      return Err(NoChunk);
    }
    r := ChunkBytes(file, c, position, Min(c.start + c.length - position, n));
  }
}
