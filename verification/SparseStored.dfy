/**
 Sparse containers in plain numbers: what the encoder's header and chunks say about the raw image, which containers of any
 writer are accepted, and what the bytes of an accepted one are.
 */
module SparseStored {
  import opened Core
  import opened Arith
  import opened SparseWriter
  import opened SparseReader
  import opened SparseRoundTrip

  // ---- Classes ---------------------------------------------------------------------------------------------

  predicate ZeroBlock(raw: bytes, at: nat, blockSize: nat)
    requires at + blockSize <= |raw|
  {
    forall p :: at <= p < at + blockSize ==> raw[p] == 0
  }

  /** Every whole word of the block is `value`. */
  predicate WordsAre(raw: bytes, at: nat, blockSize: nat, value: bytes)
    requires at + blockSize <= |raw| && |value| == 4
  {
    forall i :: 0 <= i < blockSize / 4 * 4 ==> raw[at + i] == value[i % 4]
  }

  /** A block is a hole when it is zero, filled when it is not and all its whole words are one, and raw otherwise. */
  ghost predicate ClassFits(raw: bytes, at: nat, blockSize: nat, c: Class)
    requires at + blockSize <= |raw|
  {
    match c
    case Zero => ZeroBlock(raw, at, blockSize)
    case Filled(value) => !ZeroBlock(raw, at, blockSize) && |value| == 4 && WordsAre(raw, at, blockSize, value)
    case Other => !ZeroBlock(raw, at, blockSize) && forall value: bytes :: |value| == 4 ==> !WordsAre(raw, at, blockSize, value)
  }

  lemma {:induction false} RepeatsIff(raw: bytes, at: nat, blockSize: nat, value: bytes)
    requires 4 <= blockSize && at + blockSize <= |raw| && |value| == 4
    ensures WordsAre(raw, at, blockSize, value)
       <==> Repeats(raw[at..at + blockSize]) && value == raw[at..at + blockSize][..4]
  {
    var block := raw[at..at + blockSize];
    if Repeats(block) && value == block[..4] {
      forall i | 0 <= i < blockSize / 4 * 4
        ensures raw[at + i] == value[i % 4]
      {
        assert block[i] == raw[at + i];
        RepeatedByte(block, i);
      }
    }
    if WordsAre(raw, at, blockSize, value) {
      FirstWord(raw, at, blockSize, value);
      forall k | 0 <= k < |block| / 4
        ensures Word(block, k) == block[..4]
      {
        WordOf(raw, at, blockSize, value, k);
      }
    }
  }

  lemma {:induction false} FirstWord(raw: bytes, at: nat, blockSize: nat, value: bytes)
    requires 4 <= blockSize && at + blockSize <= |raw| && |value| == 4 && WordsAre(raw, at, blockSize, value)
    ensures raw[at..at + blockSize][..4] == value
  {
    var block := raw[at..at + blockSize];
    forall r | 0 <= r < 4
      ensures block[..4][r] == value[r]
    {
      assert raw[at + r] == value[r % 4];
    }
  }

  lemma {:induction false} WordOf(raw: bytes, at: nat, blockSize: nat, value: bytes, k: nat)
    requires 4 <= blockSize && at + blockSize <= |raw| && |value| == 4 && WordsAre(raw, at, blockSize, value) && k < blockSize / 4
    ensures Word(raw[at..at + blockSize], k) == value
  {
    var word := Word(raw[at..at + blockSize], k);
    forall r | 0 <= r < 4
      ensures word[r] == value[r]
    {
      var i := 4 * k + r;
      assert word[r] == raw[at..at + blockSize][i] == raw[at + i];
      assert i % 4 == r && i < blockSize / 4 * 4;
    }
  }

  lemma {:induction false} ClassIff(raw: bytes, blockSize: nat, blocks: nat, b: nat, c: Class)
    requires blockSize >= 4 && |raw| == blocks * blockSize && b < blocks
    ensures 0 <= b * blockSize && b * blockSize + blockSize <= |raw|
    ensures ClassAt(raw, blockSize, blocks, b) == c <==> ClassFits(raw, b * blockSize, blockSize, c)
  {
    BlockInside(blocks, blockSize, b);
    ClassIs(raw, b * blockSize, blockSize, c);
  }

  lemma {:induction false} ClassIs(raw: bytes, at: nat, blockSize: nat, c: Class)
    requires blockSize >= 4 && at + blockSize <= |raw|
    ensures Classify(raw[at..at + blockSize]) == c <==> ClassFits(raw, at, blockSize, c)
  {
    var block := raw[at..at + blockSize];
    assert forall i :: 0 <= i < blockSize ==> block[i] == raw[at + i];
    ZeroIff(raw, at, blockSize);
    hide ZeroBlock, WordsAre, Repeats, IsZero;
    forall value: bytes | |value| == 4
      ensures WordsAre(raw, at, blockSize, value) <==> Repeats(block) && value == block[..4]
    {
      RepeatsIff(raw, at, blockSize, value);
    }
    assert |block[..4]| == 4;
  }

  lemma {:induction false} ZeroIff(raw: bytes, at: nat, blockSize: nat)
    requires at + blockSize <= |raw|
    ensures IsZero(raw[at..at + blockSize]) <==> ZeroBlock(raw, at, blockSize)
  {
    var block := raw[at..at + blockSize];
    if IsZero(block) {
      forall p | at <= p < at + blockSize
        ensures raw[p] == 0
      {
        assert block[p - at] == 0;
      }
    }
  }

  // ---- The encoder's container -----------------------------------------------------------------------------

  /** The chunk at `at` says what its run is. */
  predicate ChunkSays(file: bytes, at: nat, raw: bytes, blockSize: nat, r: Run) {
    && at + 12 <= |file| && Get16(file, at + 2) == 0 && Get32(file, at + 4) == r.count
    && match r.content
       case Zero => Get16(file, at) == 0xcac3 && Get32(file, at + 8) == 12
       case Filled(value) => Get16(file, at) == 0xcac2 && Get32(file, at + 8) == 16 && at + 16 <= |file| && file[at + 12..at + 16] == value
       case Other => Get16(file, at) == 0xcac1 && Get32(file, at + 8) == 12 + r.count * blockSize && SameBytes(file, at + 12, raw, r.start * blockSize, r.count * blockSize)
  }

  predicate SameBytes(file: bytes, at: int, raw: bytes, from: int, n: int) {
    && 0 <= at && 0 <= from && 0 <= n && at + n <= |file| && from + n <= |raw| && file[at..at + n] == raw[from..from + n]
  }

  /** The runs tile the blocks of the image, each is of one class, and no two neighbours could be one. */
  ghost predicate RunsSay(raw: bytes, blockSize: nat, blocks: nat, runs: seq<Run>)
    requires blockSize >= 4 && |raw| == blocks * blockSize
  {
    && (if runs == [] then blocks == 0 else runs[0].start == 0 && runs[|runs| - 1].start + runs[|runs| - 1].count == blocks)
    && (forall i :: 0 <= i < |runs| ==> runs[i].count > 0 && (runs[i].content.Other? ==> runs[i].count <= 16384))
    && (forall i, b :: 0 <= i < |runs| && runs[i].start <= b < runs[i].start + runs[i].count ==> BlockFits(raw, blockSize, b, runs[i].content))
    && (forall i :: 0 < i < |runs| ==>
          && runs[i - 1].start + runs[i - 1].count == runs[i].start
          && (runs[i - 1].content != runs[i].content || (runs[i - 1].content.Other? && runs[i - 1].count == 16384)))
  }

  ghost predicate BlockFits(raw: bytes, blockSize: nat, b: int, c: Class) {
    b >= 0 && 0 <= b * blockSize && b * blockSize + blockSize <= |raw| && ClassFits(raw, b * blockSize, blockSize, c)
  }

  /** Chunks one behind the other, from byte 28 to the end. */
  ghost predicate ChunksSay(file: bytes, raw: bytes, blockSize: nat, runs: seq<Run>, i: nat, at: nat)
    requires i <= |runs|
    decreases |runs| - i
  {
    if i == |runs| then at == |file|
    else ChunkSays(file, at, raw, blockSize, runs[i]) && ChunksSay(file, raw, blockSize, runs, i + 1, at + Get32(file, at + 8))
  }

  predicate HeaderSays(file: bytes, blockSize: nat, blocks: nat, chunks: nat) {
    && |file| >= 28 && Get32(file, 0) == 0xed26ff3a && Get16(file, 4) == 1 && Get16(file, 6) == 0 && Get16(file, 8) == 28
    && Get16(file, 10) == 12 && Get32(file, 12) == blockSize && Get32(file, 16) == blocks && Get32(file, 20) == chunks
    && Get32(file, 24) == 0
  }

  lemma {:induction false} HeaderIs(file: bytes, blockSize: nat, blocks: nat, chunks: nat)
    requires blockSize < U32_LIMIT && blocks < U32_LIMIT && chunks < U32_LIMIT && HasAt(file, 0, HeaderBytes(blockSize, blocks, chunks))
    ensures HeaderSays(file, blockSize, blocks, chunks)
  {
    hide Le16, Le32, Get16, Get32;
    var all := HeaderBytes(blockSize, blocks, chunks);
    assert all[0..4] == Le32(SPARSE_MAGIC) && all[4..6] == Le16(1) && all[6..8] == Le16(0) && all[8..10] == Le16(FILE_HEADER);
    assert all[10..12] == Le16(CHUNK_HEADER) && all[12..16] == Le32(blockSize) && all[16..20] == Le32(blocks);
    assert all[20..24] == Le32(chunks) && all[24..28] == Le32(0);
    hide HasAt, HeaderBytes;
    FieldIs(file, all, 0, Le32(SPARSE_MAGIC));
    FieldIs(file, all, 4, Le16(1));
    FieldIs(file, all, 6, Le16(0));
    FieldIs(file, all, 8, Le16(FILE_HEADER));
    FieldIs(file, all, 10, Le16(CHUNK_HEADER));
    FieldIs(file, all, 12, Le32(blockSize));
    FieldIs(file, all, 16, Le32(blocks));
    FieldIs(file, all, 20, Le32(chunks));
    FieldIs(file, all, 24, Le32(0));
    Read32(file, 0, SPARSE_MAGIC);
    Read16(file, 4, 1);
    Read16(file, 6, 0);
    Read16(file, 8, FILE_HEADER);
    Read16(file, 10, CHUNK_HEADER);
    Read32(file, 12, blockSize);
    Read32(file, 16, blocks);
    Read32(file, 20, chunks);
    Read32(file, 24, 0);
  }

  lemma {:induction false} FieldIs(file: bytes, all: bytes, inner: nat, part: bytes)
    requires HasAt(file, 0, all) && inner + |part| <= |all| && all[inner..inner + |part|] == part
    ensures HasAt(file, inner, part) && |file| >= |all|
  {
    HasAtPart(file, 0, all, inner, part);
  }

  lemma {:induction false} ChunkIs(file: bytes, at: nat, raw: bytes, blockSize: nat, r: Run)
    requires ChunkFits(r, blockSize) && RunInside(raw, blockSize, r)
    requires HasAt(file, at, ChunkHead(r, blockSize)) && HasAt(file, at + CHUNK_HEADER, Payload(raw, blockSize, r))
    ensures ChunkSays(file, at, raw, blockSize, r) && Get32(file, at + 8) == CHUNK_HEADER + PayloadLength(r, blockSize)
  {
    HeadReads(file, at, r, blockSize);
    ReservedWord(file, at, r, blockSize);
    PayloadOf(raw, blockSize, r);
    hide Get16, Get32, ChunkHead, Payload;
  }

  lemma {:induction false} ReservedWord(file: bytes, at: nat, r: Run, blockSize: nat)
    requires ChunkFits(r, blockSize) && HasAt(file, at, ChunkHead(r, blockSize))
    ensures at + 12 <= |file| && Get16(file, at + 2) == 0
  {
    hide Le32, PayloadLength;
    var a, b, rest := Le16(KindOf(r.content)), Le16(0), Le32(r.count) + Le32(CHUNK_HEADER + PayloadLength(r, blockSize));
    assert ChunkHead(r, blockSize) == a + b + rest;
    HasAtPart(file, at, a + b + rest, 2, b);
    Read16(file, at + 2, 0);
  }

  lemma {:induction false} AllChunks(file: bytes, raw: bytes, blockSize: nat, runs: seq<Run>, i: nat)
    requires i <= |runs| && Emitted(raw, blockSize, runs)
    requires HasAt(file, FILE_HEADER, Chunks(raw, blockSize, runs, |runs|)) && |file| == FILE_HEADER + |Chunks(raw, blockSize, runs, |runs|)|
    ensures AllInside(raw, blockSize, runs[..i]) && AllFit(runs[..i], blockSize)
    ensures ChunksSay(file, raw, blockSize, runs, i, ChunkAt(raw, blockSize, runs, i))
    decreases |runs| - i
  {
    hide *;
    PrefixFits(raw, blockSize, runs, i);
    if i < |runs| {
      ChunkThere(file, raw, blockSize, runs, i);
      PrefixFits(raw, blockSize, runs, i + 1);
      AllChunks(file, raw, blockSize, runs, i + 1);
      ChunkIs(file, ChunkAt(raw, blockSize, runs, i), raw, blockSize, runs[i]);
      OneChunkMore(file, raw, blockSize, runs, i, ChunkAt(raw, blockSize, runs, i));
    } else {
      ChunksEnd(file, raw, blockSize, runs);
    }
  }

  lemma {:induction false} OneChunkMore(file: bytes, raw: bytes, blockSize: nat, runs: seq<Run>, i: nat, at: nat)
    requires i < |runs| && ChunkSays(file, at, raw, blockSize, runs[i])
    requires ChunksSay(file, raw, blockSize, runs, i + 1, at + Get32(file, at + 8))
    ensures ChunksSay(file, raw, blockSize, runs, i, at)
  {
    hide ChunkSays, Get32;
  }

  lemma {:induction false} ChunksEnd(file: bytes, raw: bytes, blockSize: nat, runs: seq<Run>)
    requires AllInside(raw, blockSize, runs[..|runs|]) && AllFit(runs[..|runs|], blockSize)
    requires |file| == FILE_HEADER + |Chunks(raw, blockSize, runs, |runs|)|
    ensures ChunksSay(file, raw, blockSize, runs, |runs|, ChunkAt(raw, blockSize, runs, |runs|))
  {
    hide Chunks, AllInside, AllFit;
  }

  lemma {:induction false} RunsAre(raw: bytes, blockSize: nat, blocks: nat, runs: seq<Run>)
    requires blockSize >= 4 && |raw| == blocks * blockSize && Scanned(raw, blockSize, blocks, runs, blocks)
    ensures RunsSay(raw, blockSize, blocks, runs)
  {
    assert Tiles(runs, blocks) && Unmergeable(runs) && forall i :: 0 <= i < |runs| ==> Describes(raw, blockSize, blocks, runs[i]);
    hide Scanned, Tiles, ClassAt, ClassFits;
    TilesEnds(runs, blocks);
    forall i | 0 <= i < |runs|
      ensures runs[i].count > 0 && runs[i].start + runs[i].count == RunStart(runs, i + 1, blocks)
    {
      RunsFollow(runs, blocks, i);
    }
    forall i, b | 0 <= i < |runs| && runs[i].start <= b < runs[i].start + runs[i].count
      ensures BlockFits(raw, blockSize, b, runs[i].content)
    {
      assert ClassAt(raw, blockSize, blocks, b) == runs[i].content;
      ClassIff(raw, blockSize, blocks, b, runs[i].content);
    }
    forall i | 0 < i < |runs|
      ensures runs[i - 1].start + runs[i - 1].count == runs[i].start
    {
      RunsFollow(runs, blocks, i - 1);
    }
  }

  lemma {:induction false} TilesEnds(runs: seq<Run>, blocks: nat)
    requires Tiles(runs, blocks)
    ensures if runs == [] then blocks == 0 else runs[0].start == 0 && runs[|runs| - 1].start + runs[|runs| - 1].count == blocks
  {
    if runs != [] {
      RunsFollow(runs, blocks, 0);
    }
  }

  /** A container that either encoder wrote: its header, its chunks one behind the other, and what each stands for. */
  lemma {:induction false} ContainerSays(raw: bytes, blockSize: nat, container: bytes) returns (runs: seq<Run>, blocks: nat)
    requires Sparsified(raw, blockSize, container)
    ensures 4 <= blockSize && |raw| == blocks * blockSize && RunsSay(raw, blockSize, blocks, runs)
    ensures HeaderSays(container, blockSize, blocks, |runs|) && ChunksSay(container, raw, blockSize, runs, 0, 28)
  {
    runs, blocks :|
      && 4 <= blockSize < U32_LIMIT && blocks < U32_LIMIT && |raw| == blocks * blockSize
      && Scanned(raw, blockSize, blocks, runs, blocks) && |runs| < U32_LIMIT
      && AllInside(raw, blockSize, runs) && AllFit(runs, blockSize)
      && container == Container(raw, blockSize, blocks, runs);
    hide Scanned, AllInside, AllFit, HeaderBytes;
    RunsAre(raw, blockSize, blocks, runs);
    EmittedAll(raw, blockSize, runs);
    assert runs[..|runs|] == runs;
    var header, body := HeaderBytes(blockSize, blocks, |runs|), Chunks(raw, blockSize, runs, |runs|);
    assert container == header + body;
    hide RunsSay, Container, Emitted, Sparsified, Chunks;
    HeaderAndBody(container, header, body);
    HeaderIs(container, blockSize, blocks, |runs|);
    AllChunks(container, raw, blockSize, runs, 0);
    NoChunks(raw, blockSize, runs);
  }

  lemma {:induction false} HeaderAndBody(file: bytes, header: bytes, body: bytes)
    requires file == header + body
    ensures HasAt(file, 0, header) && HasAt(file, |header|, body)
  {
    assert file[|header|..|header| + |body|] == body;
  }

  lemma {:induction false} NoChunks(raw: bytes, blockSize: nat, runs: seq<Run>)
    requires AllInside(raw, blockSize, runs[..0]) && AllFit(runs[..0], blockSize)
    ensures ChunkAt(raw, blockSize, runs, 0) == 28
  {
  }

  // ---- Accepted containers ---------------------------------------------------------------------------------

  /** The chunk header at `at` is acceptable, and the chunk is `c`. */
  predicate Accepts(file: bytes, chunkHeader: nat, blockSize: nat, at: nat, c: Chunk) {
    && 12 <= chunkHeader && at + chunkHeader <= |file| && chunkHeader <= Get32(file, at + 8)
    && c.kind == Get16(file, at) && c.length == Get32(file, at + 4) * blockSize && c.length > 0 && c.offset == at + chunkHeader
    && var size := Get32(file, at + 8) - chunkHeader;
       if c.kind == 0xcac1 then size == c.length && c.fill == [0, 0, 0, 0]
       else if c.kind == 0xcac2 then size == 4 && at + chunkHeader + 4 <= |file| && c.fill == file[at + chunkHeader..at + chunkHeader + 4]
       else if c.kind == 0xcac3 then size == 0 && c.fill == [0, 0, 0, 0]
       else c.kind == 0xcac4 && (size == 0 || size == 4) && c.fill == [0, 0, 0, 0]
  }

  /** Acceptable chunks one behind the other, in the container and in the image. */
  ghost predicate AcceptsAll(file: bytes, chunkHeader: nat, blockSize: nat, at: nat, start: nat, chunks: seq<Chunk>, end: nat)
    decreases |chunks|
  {
    if chunks == [] then start == end
    else
      && Accepts(file, chunkHeader, blockSize, at, chunks[0]) && chunks[0].start == start
      && start + chunks[0].length < 0x1_0000_0000_0000_0000
      && AcceptsAll(file, chunkHeader, blockSize, at + Get32(file, at + 8), start + chunks[0].length, chunks[1..], end)
  }

  predicate AcceptsHeader(file: bytes) {
    && |file| >= 28 && Get16(file, 4) == 1 && Get16(file, 8) >= 28 && 12 <= Get16(file, 10) <= 1024
    && 0 < Get32(file, 12) <= 0x400_0000
  }

  lemma {:induction false} ZeroFill()
    ensures Zeros(4) == [0, 0, 0, 0]
  {
  }

  lemma {:induction false} ChunkIff(file: bytes, h: Header, at: nat, start: nat, c: Chunk)
    requires h.chunkHeader >= CHUNK_HEADER && 0 < h.blockSize <= 0x400_0000
    ensures var r := ParseChunk(file, h, at, start);
            r.Ok? && r.value.0 == c <==> Accepts(file, h.chunkHeader, h.blockSize, at, c) && c.start == start
    ensures var r := ParseChunk(file, h, at, start);
            r.Ok? ==> at + 12 <= |file| && r.value.1 == at + Get32(file, at + 8)
  {
    ZeroFill();
    hide Get16, Get32;
    if at + h.chunkHeader <= |file| {
      var blocks := Get32(file, at + 4);
      SmallProduct(blocks, h.blockSize);
      assert blocks == 0 ==> blocks * h.blockSize == 0;
      if blocks > 0 {
        MulMonotone(1, blocks, h.blockSize);
      }
    }
  }

  lemma {:induction false} ListIff(file: bytes, h: Header, at: nat, start: nat, n: nat, chunks: seq<Chunk>, end: nat)
    requires h.chunkHeader >= CHUNK_HEADER && 0 < h.blockSize <= 0x400_0000
    ensures ParseChunks(file, h, at, start, n) == Ok((chunks, end))
       <==> |chunks| == n && AcceptsAll(file, h.chunkHeader, h.blockSize, at, start, chunks, end)
    decreases n
  {
    hide ParseChunk, Accepts, Get32;
    var r := ParseChunk(file, h, at, start);
    if n > 0 {
      if r.Ok? {
        ChunkIff(file, h, at, start, r.value.0);
        if chunks != [] {
          ListIff(file, h, r.value.1, start + r.value.0.length, n - 1, chunks[1..], end);
        }
      }
      if chunks != [] {
        ChunkIff(file, h, at, start, chunks[0]);
        assert chunks == [chunks[0]] + chunks[1..];
      }
      var rest := if r.Ok? then ParseChunks(file, h, r.value.1, start + r.value.0.length, n - 1) else Err(ShortFile);
      if r.Ok? && rest.Ok? {
        assert ([r.value.0] + rest.value.0)[1..] == rest.value.0;
      }
    }
  }

  /**
   Exactly these files are accepted: a supported header, then acceptable chunks one behind the other that together have as
   many blocks as the header says.
   */
  lemma {:induction false} ParsesIff(file: bytes, s: Sparse)
    ensures ParseFile(file) == Ok(s)
       <==> && AcceptsHeader(file) && s.blockSize == Get32(file, 12) && |s.chunks| == Get32(file, 20)
            && s.size == Get32(file, 16) * Get32(file, 12)
            && AcceptsAll(file, Get16(file, 10), s.blockSize, Get16(file, 8), 0, s.chunks, s.size)
  {
    hide Get16, Get32, ParseChunks, AcceptsAll;
    HeaderIff(file);
    if AcceptsHeader(file) {
      var h := ParseHeader(file).value;
      SmallProduct(h.blocks, h.blockSize);
      ListIff(file, h, h.headerSize, 0, h.chunks, s.chunks, s.size);
      hide ParseHeader, AcceptsHeader;
    }
  }

  lemma {:induction false} HeaderIff(file: bytes)
    ensures ParseHeader(file).Ok? <==> AcceptsHeader(file)
    ensures AcceptsHeader(file) ==>
              ParseHeader(file) == Ok(Header(Get16(file, 8), Get16(file, 10), Get32(file, 12), Get32(file, 16), Get32(file, 20)))
  {
    hide Get16, Get32;
  }

  // ---- Bytes of an accepted container ----------------------------------------------------------------------

  predicate Within(c: Chunk, p: int) {
    c.start <= p < c.start + c.length
  }

  /** Byte `p` of the image is there: a raw chunk's data reach it. */
  predicate There(file: bytes, c: Chunk, p: int) {
    c.kind == 0xcac1 ==> c.offset + (p - c.start) < |file|
  }

  /** Byte `p` of the image, which chunk `c` stands for. */
  predicate Gives(file: bytes, c: Chunk, p: int, v: byte)
    requires |c.fill| == 4
  {
    if c.kind == 0xcac1 then 0 <= c.offset + (p - c.start) < |file| && file[c.offset + (p - c.start)] == v
    else v == if c.kind == 0xcac2 then c.fill[p % 4] else 0
  }

  /** Byte `p` of the image, as `data` from byte `from` on have it. */
  predicate GivesIn(file: bytes, c: Chunk, p: int, data: bytes, from: int)
    requires |c.fill| == 4 && from <= p < from + |data|
  {
    Gives(file, c, p, data[p - from])
  }

  ghost predicate AllThere(file: bytes, chunks: seq<Chunk>, offset: nat, n: nat) {
    forall i, p :: 0 <= i < |chunks| && offset <= p < offset + n && Within(chunks[i], p) ==> There(file, chunks[i], p)
  }

  ghost predicate AllGiven(file: bytes, chunks: seq<Chunk>, offset: nat, data: bytes)
    requires FillsSized(chunks)
  {
    forall i, p :: 0 <= i < |chunks| && offset <= p < offset + |data| && Within(chunks[i], p) ==> GivesIn(file, chunks[i], p, data, offset)
  }

  lemma {:induction false} ChunkBytesIff(file: bytes, c: Chunk, from: nat, n: nat)
    requires |c.fill| == 4 && c.start <= from && n > 0
    ensures var r := ChunkBytes(file, c, from, n);
            && (r.Ok? <==> forall p :: from <= p < from + n ==> There(file, c, p))
            && (r.Err? ==> r == Err(ShortData))
            && (r.Ok? ==> |r.value| == n && forall p :: from <= p < from + n ==> GivesIn(file, c, p, r.value, from))
  {
    var r := ChunkBytes(file, c, from, n);
    if forall p :: from <= p < from + n ==> There(file, c, p) {
      assert There(file, c, from + n - 1);
    }
    if r.Ok? {
      forall p | from <= p < from + n
        ensures There(file, c, p) && GivesIn(file, c, p, r.value, from)
      {
        if c.kind == CHUNK_RAW {
          var at := c.offset + (from - c.start);
          assert r.value[p - from] == file[at..at + n][p - from];
        } else {
          assert from + (p - from) == p;
        }
      }
    }
  }

  /** Two chunks in order do not stand for the same byte. */
  lemma {:induction false} OneHolder(chunks: seq<Chunk>, end: nat, i: nat, j: nat, p: int)
    requires InOrder(chunks, 0, end) && i < |chunks| && j < |chunks| && Within(chunks[i], p) && Within(chunks[j], p)
    ensures i == j
  {
    hide InOrder;
    if i < j {
      StartsAscend(chunks, 0, end, i, j);
    } else if j < i {
      StartsAscend(chunks, 0, end, j, i);
    }
  }

  /**
   Reading any window of an image succeeds exactly when the data of its raw chunks are there, and then gives the bytes the
   chunks stand for: stored ones, the fill word at absolute positions, or zeros.
   */
  lemma {:induction false} WindowMeans(file: bytes, chunks: seq<Chunk>, end: nat, offset: nat, n: nat)
    requires InOrder(chunks, 0, end) && FillsSized(chunks) && offset + n <= end
    ensures var r := ReadFrom(file, chunks, offset, n);
            && (r.Ok? <==> AllThere(file, chunks, offset, n)) && (r.Err? ==> r == Err(ShortData))
            && (r.Ok? ==> |r.value| == n && AllGiven(file, chunks, offset, r.value))
    decreases n
  {
    hide *;
    if n == 0 {
      EmptyWindow(file, chunks, offset);
    } else {
      SearchFinds(chunks, 0, end, offset);
      var k: nat := StartedBy(chunks, offset) - 1;
      var count := Min(chunks[k].start + chunks[k].length - offset, n);
      CountIs(chunks[k], offset, n);
      FillIs(chunks, k);
      ChunkBytesIff(file, chunks[k], offset, count);
      StepIs(file, chunks, offset, n, k, count);
      FirstPart(file, chunks, end, offset, count, k);
      if ChunkBytes(file, chunks[k], offset, count).Ok? {
        WindowMeans(file, chunks, end, offset + count, n - count);
        WindowsJoin(file, chunks, offset, count, n);
        PartGiven(file, chunks, end, offset, ChunkBytes(file, chunks[k], offset, count).value, k);
        if ReadFrom(file, chunks, offset + count, n - count).Ok? {
          GivenJoin(file, chunks, offset, ChunkBytes(file, chunks[k], offset, count).value,
                    ReadFrom(file, chunks, offset + count, n - count).value);
        }
      } else {
        WindowsJoin(file, chunks, offset, count, n);
      }
    }
  }

  lemma {:induction false} EmptyWindow(file: bytes, chunks: seq<Chunk>, offset: nat)
    requires FillsSized(chunks)
    ensures ReadFrom(file, chunks, offset, 0) == Ok([]) && AllThere(file, chunks, offset, 0) && AllGiven(file, chunks, offset, [])
  {
  }

  lemma {:induction false} CountIs(c: Chunk, offset: nat, n: nat)
    requires c.start <= offset < c.start + c.length && n > 0
    ensures 0 < Min(c.start + c.length - offset, n) <= n && offset + Min(c.start + c.length - offset, n) <= c.start + c.length
  {
  }

  lemma {:induction false} FillIs(chunks: seq<Chunk>, k: nat)
    requires FillsSized(chunks) && k < |chunks|
    ensures |chunks[k].fill| == 4
  {
  }

  lemma {:induction false} StepIs(file: bytes, chunks: seq<Chunk>, offset: nat, n: nat, k: nat, count: nat)
    requires FillsSized(chunks) && n > 0 && k < |chunks| && StartedBy(chunks, offset) == k + 1 && |chunks[k].fill| == 4
    requires chunks[k].start <= offset < chunks[k].start + chunks[k].length
    requires count == Min(chunks[k].start + chunks[k].length - offset, n) && 0 < count <= n
    requires ChunkBytes(file, chunks[k], offset, count).Ok? ==> |ChunkBytes(file, chunks[k], offset, count).value| == count
    ensures var here, rest := ChunkBytes(file, chunks[k], offset, count), ReadFrom(file, chunks, offset + count, n - count);
            ReadFrom(file, chunks, offset, n) == if here.Err? then here else if rest.Err? then rest else Ok(here.value + rest.value)
  {
    hide StartedBy, ChunkBytes, FillsSized;
  }

  lemma {:induction false} FirstPart(file: bytes, chunks: seq<Chunk>, end: nat, offset: nat, count: nat, k: nat)
    requires InOrder(chunks, 0, end) && k < |chunks| && chunks[k].start <= offset && offset + count <= chunks[k].start + chunks[k].length
    ensures AllThere(file, chunks, offset, count) <==> forall p :: offset <= p < offset + count ==> There(file, chunks[k], p)
  {
    hide InOrder, There;
    if forall p :: offset <= p < offset + count ==> There(file, chunks[k], p) {
      forall i, p | 0 <= i < |chunks| && offset <= p < offset + count && Within(chunks[i], p)
        ensures There(file, chunks[i], p)
      {
        OneHolder(chunks, end, i, k, p);
      }
    }
    if AllThere(file, chunks, offset, count) {
      forall p | offset <= p < offset + count
        ensures There(file, chunks[k], p)
      {
        assert Within(chunks[k], p);
      }
    }
  }

  lemma {:induction false} WindowsJoin(file: bytes, chunks: seq<Chunk>, offset: nat, count: nat, n: nat)
    requires count <= n
    ensures AllThere(file, chunks, offset, n) <==> AllThere(file, chunks, offset, count) && AllThere(file, chunks, offset + count, n - count)
  {
    hide There, Within;
  }

  lemma {:induction false} PartGiven(file: bytes, chunks: seq<Chunk>, end: nat, offset: nat, data: bytes, k: nat)
    requires InOrder(chunks, 0, end) && FillsSized(chunks) && k < |chunks| && |chunks[k].fill| == 4
    requires chunks[k].start <= offset && offset + |data| <= chunks[k].start + chunks[k].length
    requires forall p :: offset <= p < offset + |data| ==> GivesIn(file, chunks[k], p, data, offset)
    ensures AllGiven(file, chunks, offset, data)
  {
    hide InOrder, FillsSized;
    forall i, p | 0 <= i < |chunks| && offset <= p < offset + |data| && Within(chunks[i], p)
      ensures |chunks[i].fill| == 4 && GivesIn(file, chunks[i], p, data, offset)
    {
      OneHolder(chunks, end, i, k, p);
    }
  }

  lemma {:induction false} GivenJoin(file: bytes, chunks: seq<Chunk>, offset: nat, a: bytes, b: bytes)
    requires FillsSized(chunks) && AllGiven(file, chunks, offset, a) && AllGiven(file, chunks, offset + |a|, b)
    ensures AllGiven(file, chunks, offset, a + b)
  {
    hide Gives, Within;
    var all := a + b;
    forall i, p | 0 <= i < |chunks| && offset <= p < offset + |all| && Within(chunks[i], p)
      ensures GivesIn(file, chunks[i], p, all, offset)
    {
      assert all[p - offset] == if p < offset + |a| then a[p - offset] else b[p - (offset + |a|)];
    }
  }
}
