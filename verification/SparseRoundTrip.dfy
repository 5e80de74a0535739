/** Sparse containers read back: the parser accepts what the encoder writes, and any window is that of the raw image. */
module SparseRoundTrip {
  import opened Core
  import opened Arith
  import opened SparseWriter
  import opened SparseReader

  // ---- Fill words ------------------------------------------------------------------------------------------

  /** A filled block repeats its word at absolute positions, when blocks are made of whole words. */
  lemma {:induction false} FilledByte(raw: bytes, blockSize: nat, blocks: nat, b: nat, p: nat)
    requires blockSize >= 4 && blockSize % 4 == 0 && |raw| == blocks * blockSize && b < blocks
    requires ClassAt(raw, blockSize, blocks, b).Filled? && b * blockSize <= p < b * blockSize + blockSize
    ensures p < |raw| && raw[p] == ClassAt(raw, blockSize, blocks, b).value[p % 4]
  {
    BlockInside(blocks, blockSize, b);
    var block := Block(raw, blockSize, b);
    var i := p - b * blockSize;
    WordAligned(b, blockSize, p);
    assert raw[p] == block[i];
    hide Block;
    RepeatedByte(block, i);
  }

  lemma {:induction false} RepeatedByte(block: bytes, i: nat)
    requires |block| >= 4 && Repeats(block) && 4 * (i / 4) + 4 <= |block| && i == 4 * (i / 4) + i % 4
    ensures i < |block| && block[i] == block[..4][i % 4]
  {
    assert Word(block, i / 4) == block[..4];
    assert block[i] == Word(block, i / 4)[i % 4];
  }

  lemma {:induction false} WordAligned(b: nat, blockSize: nat, p: nat)
    requires blockSize % 4 == 0 && b * blockSize <= p < b * blockSize + blockSize
    ensures var i := p - b * blockSize;
            i % 4 == p % 4 && 4 * (i / 4) + 4 <= blockSize && i == 4 * (i / 4) + i % 4
  {
    var q := blockSize / 4;
    assert blockSize == q * 4;
    MulAssociates(b, q, 4);
    assert b * blockSize == b * q * 4;
  }

  lemma {:induction false} ZeroByte(raw: bytes, blockSize: nat, blocks: nat, b: nat, p: nat)
    requires blockSize >= 4 && |raw| == blocks * blockSize && b < blocks
    requires ClassAt(raw, blockSize, blocks, b).Zero? && b * blockSize <= p < b * blockSize + blockSize
    ensures p < |raw| && raw[p] == 0
  {
    BlockInside(blocks, blockSize, b);
    assert Block(raw, blockSize, b)[p - b * blockSize] == raw[p];
  }

  lemma {:induction false} BlockOfByte(p: nat, start: nat, count: nat, blockSize: nat)
    requires blockSize > 0 && start * blockSize <= p < (start + count) * blockSize
    ensures var b := p / blockSize;
            start <= b < start + count && b * blockSize <= p < b * blockSize + blockSize
  {
    assert p == p / blockSize * blockSize + p % blockSize;
    if p / blockSize < start {
      MulMonotone(p / blockSize + 1, start, blockSize);
      MulDistributes(p / blockSize, 1, blockSize);
    }
    if p / blockSize >= start + count {
      MulMonotone(start + count, p / blockSize, blockSize);
    }
  }

  /** Bytes of `n` blocks. */
  function Extent(n: nat, blockSize: nat): nat {
    n * blockSize
  }

  // ---- Chunks of a container -------------------------------------------------------------------------------

  /** The chunk a run becomes, with its data at `offset`. */
  function ChunkOf(r: Run, blockSize: nat, offset: nat): Chunk {
    Chunk(KindOf(r.content), Extent(r.start, blockSize), Extent(r.count, blockSize), offset,
          if r.content.Filled? then r.content.value else Zeros(4))
  }

  /** A chunk holds its stretch of the raw image. */
  ghost predicate ChunkHolds(file: bytes, c: Chunk, raw: bytes) {
    && |c.fill| == 4 && c.start + c.length <= |raw|
    && (c.kind == CHUNK_RAW ==> HasAt(file, c.offset, raw[c.start..c.start + c.length]))
    && (c.kind == CHUNK_FILL ==> forall p :: c.start <= p < c.start + c.length ==> raw[p] == c.fill[p % 4])
    && (c.kind != CHUNK_RAW && c.kind != CHUNK_FILL ==> forall p :: c.start <= p < c.start + c.length ==> raw[p] == 0)
  }

  lemma {:induction false} RunHolds(file: bytes, raw: bytes, blockSize: nat, blocks: nat, r: Run, offset: nat)
    requires blockSize >= 4 && blockSize % 4 == 0 && |raw| == blocks * blockSize && Describes(raw, blockSize, blocks, r)
    requires RunInside(raw, blockSize, r) && HasAt(file, offset, Payload(raw, blockSize, r))
    ensures ChunkHolds(file, ChunkOf(r, blockSize, offset), raw)
  {
    var c := ChunkOf(r, blockSize, offset);
    PayloadOf(raw, blockSize, r);
    MulDistributes(r.start, r.count, blockSize);
    hide ClassAt, HasAt;
    forall p | c.start <= p < c.start + c.length && !r.content.Other?
      ensures raw[p] == if r.content.Filled? then c.fill[p % 4] else 0
    {
      BlockOfByte(p, r.start, r.count, blockSize);
      assert ClassAt(raw, blockSize, blocks, p / blockSize) == r.content;
      if r.content.Filled? {
        FilledByte(raw, blockSize, blocks, p / blockSize, p);
      } else {
        ZeroByte(raw, blockSize, blocks, p / blockSize, p);
      }
    }
  }

  /** The header of the format version the encoder writes. */
  function PlainHeader(blockSize: nat, blocks: nat, chunks: nat): Header {
    Header(FILE_HEADER, CHUNK_HEADER, blockSize, blocks, chunks)
  }

  lemma {:induction false} HeaderParses(file: bytes, blockSize: nat, blocks: nat, chunks: nat)
    requires 0 < blockSize <= MAX_BLOCK && blocks < U32_LIMIT && chunks < U32_LIMIT
    requires HasAt(file, 0, HeaderBytes(blockSize, blocks, chunks))
    ensures ParseHeader(file) == Ok(PlainHeader(blockSize, blocks, chunks))
  {
    var a, b, c, d, e := Le32(SPARSE_MAGIC), Le16(1), Le16(0), Le16(FILE_HEADER), Le16(CHUNK_HEADER);
    var f, g, h, i := Le32(blockSize), Le32(blocks), Le32(chunks), Le32(0);
    hide Le16, Le32, Get16, Get32;
    var all := HeaderBytes(blockSize, blocks, chunks);
    assert all == a + b + c + d + e + f + g + h + i;
    assert all[4..6] == b && all[8..10] == d && all[10..12] == e && all[12..16] == f && all[16..20] == g && all[20..24] == h;
    HasAtPart(file, 0, all, 4, b);
    HasAtPart(file, 0, all, 8, d);
    HasAtPart(file, 0, all, 10, e);
    HasAtPart(file, 0, all, 12, f);
    HasAtPart(file, 0, all, 16, g);
    HasAtPart(file, 0, all, 20, h);
    hide HasAt, HeaderBytes;
    Read16(file, 4, 1);
    Read16(file, 8, FILE_HEADER);
    Read16(file, 10, CHUNK_HEADER);
    Read32(file, 12, blockSize);
    Read32(file, 16, blocks);
    Read32(file, 20, chunks);
  }

  lemma {:induction false} HeadReads(file: bytes, at: nat, r: Run, blockSize: nat)
    requires ChunkFits(r, blockSize) && HasAt(file, at, ChunkHead(r, blockSize))
    ensures at + CHUNK_HEADER <= |file| && Get16(file, at) == KindOf(r.content) && Get32(file, at + 4) == r.count
    ensures Get32(file, at + 8) == CHUNK_HEADER + PayloadLength(r, blockSize)
  {
    var a, b, c, d := Le16(KindOf(r.content)), Le16(0), Le32(r.count), Le32(CHUNK_HEADER + PayloadLength(r, blockSize));
    HasAtPart(file, at, a + b + c + d, 0, a);
    HasAtPart(file, at, a + b + c + d, 4, c);
    HasAtPart(file, at, a + b + c + d, 8, d);
    hide Le16, Le32, Get16, Get32, HasAt, PayloadLength;
    Read16(file, at, KindOf(r.content));
    Read32(file, at + 4, r.count);
    Read32(file, at + 8, CHUNK_HEADER + PayloadLength(r, blockSize));
  }

  /** A chunk of the encoder is accepted as it is. */
  lemma {:induction false} ChunkParses(file: bytes, at: nat, raw: bytes, blockSize: nat, r: Run, h: Header)
    requires ChunkFits(r, blockSize) && RunInside(raw, blockSize, r) && r.count > 0 && 0 < blockSize <= MAX_BLOCK
    requires h.chunkHeader == CHUNK_HEADER && h.blockSize == blockSize
    requires HasAt(file, at, ChunkHead(r, blockSize)) && HasAt(file, at + CHUNK_HEADER, Payload(raw, blockSize, r))
    ensures ParseChunk(file, h, at, Extent(r.start, blockSize))
         == Ok((ChunkOf(r, blockSize, at + CHUNK_HEADER), at + CHUNK_HEADER + PayloadLength(r, blockSize)))
  {
    HeadReads(file, at, r, blockSize);
    SmallProduct(r.count, blockSize);
    hide Get16, Get32, ChunkHead;
    if r.content.Filled? {
      assert file[at + CHUNK_HEADER..at + CHUNK_HEADER + 4] == r.content.value;
    }
  }

  lemma {:induction false} SmallProduct(count: nat, blockSize: nat)
    requires count < U32_LIMIT && blockSize <= MAX_BLOCK
    ensures count * blockSize < U64_LIMIT
  {
    MulMonotone(count, U32_LIMIT, blockSize);
    MulMonotone(blockSize, MAX_BLOCK, U32_LIMIT);
  }

  // ---- The chunk list --------------------------------------------------------------------------------------

  /** Offset of run `i`'s chunk in the container. */
  function ChunkAt(raw: bytes, blockSize: nat, runs: seq<Run>, i: nat): nat
    requires i <= |runs| && AllInside(raw, blockSize, runs[..i]) && AllFit(runs[..i], blockSize)
  {
    FILE_HEADER + |Chunks(raw, blockSize, runs, i)|
  }

  ghost predicate Emitted(raw: bytes, blockSize: nat, runs: seq<Run>) {
    && AllInside(raw, blockSize, runs) && AllFit(runs, blockSize)
    && forall i :: 0 <= i <= |runs| ==> AllInside(raw, blockSize, runs[..i]) && AllFit(runs[..i], blockSize)
  }

  lemma {:induction false} EmittedAll(raw: bytes, blockSize: nat, runs: seq<Run>)
    requires AllInside(raw, blockSize, runs) && AllFit(runs, blockSize)
    ensures Emitted(raw, blockSize, runs)
  {
    hide RunInside, ChunkFits;
  }

  /** The first `i` chunks are a prefix of all of them. */
  lemma {:induction false} ChunksPrefix(raw: bytes, blockSize: nat, runs: seq<Run>, i: nat, n: nat)
    requires i <= n <= |runs| && Emitted(raw, blockSize, runs)
    ensures Chunks(raw, blockSize, runs, i) <= Chunks(raw, blockSize, runs, n)
    decreases n
  {
    hide *;
    PrefixFits(raw, blockSize, runs, i);
    PrefixFits(raw, blockSize, runs, n);
    if i < n {
      PrefixFits(raw, blockSize, runs, n - 1);
      ChunksPrefix(raw, blockSize, runs, i, n - 1);
      LastChunk(raw, blockSize, runs, n);
      assert Chunks(raw, blockSize, runs, n - 1) <= Chunks(raw, blockSize, runs, n);
    }
  }

  lemma {:induction false} LastChunk(raw: bytes, blockSize: nat, runs: seq<Run>, n: nat)
    requires 0 < n <= |runs| && Emitted(raw, blockSize, runs)
    requires AllInside(raw, blockSize, runs[..n]) && AllFit(runs[..n], blockSize)
    requires AllInside(raw, blockSize, runs[..n - 1]) && AllFit(runs[..n - 1], blockSize)
    ensures RunInside(raw, blockSize, runs[n - 1]) && ChunkFits(runs[n - 1], blockSize)
    ensures Chunks(raw, blockSize, runs, n)
         == Chunks(raw, blockSize, runs, n - 1) + (ChunkHead(runs[n - 1], blockSize) + Payload(raw, blockSize, runs[n - 1]))
  {
    hide RunInside, ChunkFits, ChunkHead, Payload;
    var a, b, c := Chunks(raw, blockSize, runs, n - 1), ChunkHead(runs[n - 1], blockSize), Payload(raw, blockSize, runs[n - 1]);
    assert a + b + c == a + (b + c);
  }

  lemma {:induction false} PrefixFits(raw: bytes, blockSize: nat, runs: seq<Run>, i: nat)
    requires i <= |runs| && Emitted(raw, blockSize, runs)
    ensures AllInside(raw, blockSize, runs[..i]) && AllFit(runs[..i], blockSize)
  {
  }

  lemma {:induction false} PartsOfPrefix(all: bytes, front: bytes, head: bytes, data: bytes)
    requires front + head + data <= all
    ensures HasAt(all, |front|, head) && HasAt(all, |front| + |head|, data)
  {
    var more := front + head + data;
    assert all[..|more|] == more;
    SubSlice(all, 0, |more|, |front|, |front| + |head|);
    SubSlice(all, 0, |more|, |front| + |head|, |more|);
    assert more[|front|..|front| + |head|] == head && more[|front| + |head|..|more|] == data;
  }

  /** Chunk `i` in the container: its header, and its data behind it. */
  lemma {:induction false} ChunkThere(file: bytes, raw: bytes, blockSize: nat, runs: seq<Run>, i: nat)
    requires i < |runs| && Emitted(raw, blockSize, runs)
    requires HasAt(file, FILE_HEADER, Chunks(raw, blockSize, runs, |runs|))
    ensures RunInside(raw, blockSize, runs[i]) && ChunkFits(runs[i], blockSize)
    ensures var at := ChunkAt(raw, blockSize, runs, i);
            && HasAt(file, at, ChunkHead(runs[i], blockSize))
            && HasAt(file, at + CHUNK_HEADER, Payload(raw, blockSize, runs[i]))
            && ChunkAt(raw, blockSize, runs, i + 1) == at + CHUNK_HEADER + PayloadLength(runs[i], blockSize)
  {
    PrefixFits(raw, blockSize, runs, i);
    PrefixFits(raw, blockSize, runs, i + 1);
    PrefixFits(raw, blockSize, runs, |runs|);
    ChunksPrefix(raw, blockSize, runs, i + 1, |runs|);
    var all, front, more := Chunks(raw, blockSize, runs, |runs|), Chunks(raw, blockSize, runs, i), Chunks(raw, blockSize, runs, i + 1);
    var head, data := ChunkHead(runs[i], blockSize), Payload(raw, blockSize, runs[i]);
    assert more == front + head + data;
    hide Chunks, ChunkHead, Payload, PayloadLength, Emitted, ChunkFits, RunInside, AllInside, AllFit;
    PartsOfPrefix(all, front, head, data);
    HasAtPart(file, FILE_HEADER, all, |front|, head);
    HasAtPart(file, FILE_HEADER, all, |front| + |head|, data);
  }

  /** The chunks of runs `i..` lie one behind the other from `at` on. */
  ghost predicate Laid(file: bytes, raw: bytes, blockSize: nat, runs: seq<Run>, i: nat, at: nat)
    requires i <= |runs|
    decreases |runs| - i
  {
    i == |runs| ||
    (&& RunInside(raw, blockSize, runs[i]) && ChunkFits(runs[i], blockSize)
     && HasAt(file, at, ChunkHead(runs[i], blockSize)) && HasAt(file, at + CHUNK_HEADER, Payload(raw, blockSize, runs[i]))
     && Laid(file, raw, blockSize, runs, i + 1, at + CHUNK_HEADER + PayloadLength(runs[i], blockSize)))
  }

  lemma {:induction false} ContainerLaid(file: bytes, raw: bytes, blockSize: nat, runs: seq<Run>, i: nat)
    requires i <= |runs| && Emitted(raw, blockSize, runs)
    requires HasAt(file, FILE_HEADER, Chunks(raw, blockSize, runs, |runs|))
    ensures AllInside(raw, blockSize, runs[..i]) && AllFit(runs[..i], blockSize)
    ensures Laid(file, raw, blockSize, runs, i, ChunkAt(raw, blockSize, runs, i))
    decreases |runs| - i
  {
    hide *;
    PrefixFits(raw, blockSize, runs, i);
    if i < |runs| {
      ChunkThere(file, raw, blockSize, runs, i);
      PrefixFits(raw, blockSize, runs, i + 1);
      ContainerLaid(file, raw, blockSize, runs, i + 1);
      LaidMore(file, raw, blockSize, runs, i, ChunkAt(raw, blockSize, runs, i));
    } else {
      LaidNothing(file, raw, blockSize, runs, ChunkAt(raw, blockSize, runs, i));
    }
  }

  lemma {:induction false} LaidNothing(file: bytes, raw: bytes, blockSize: nat, runs: seq<Run>, at: nat)
    ensures Laid(file, raw, blockSize, runs, |runs|, at)
  {
  }

  lemma {:induction false} LaidMore(file: bytes, raw: bytes, blockSize: nat, runs: seq<Run>, i: nat, at: nat)
    requires i < |runs| && RunInside(raw, blockSize, runs[i]) && ChunkFits(runs[i], blockSize)
    requires HasAt(file, at, ChunkHead(runs[i], blockSize)) && HasAt(file, at + CHUNK_HEADER, Payload(raw, blockSize, runs[i]))
    requires Laid(file, raw, blockSize, runs, i + 1, at + CHUNK_HEADER + PayloadLength(runs[i], blockSize))
    ensures Laid(file, raw, blockSize, runs, i, at)
  {
    hide RunInside, ChunkFits, HasAt, ChunkHead, Payload, PayloadLength;
  }

  /** The chunks of runs `i..` when the first is at `at`. */
  function ChunksFrom(runs: seq<Run>, blockSize: nat, i: nat, at: nat): seq<Chunk>
    requires i <= |runs|
    decreases |runs| - i
  {
    if i == |runs| then []
    else
      [ChunkOf(runs[i], blockSize, at + CHUNK_HEADER)]
      + ChunksFrom(runs, blockSize, i + 1, at + CHUNK_HEADER + PayloadLength(runs[i], blockSize))
  }

  lemma {:induction false} ListParses(
    file: bytes, raw: bytes, blockSize: nat, blocks: nat, runs: seq<Run>, i: nat, at: nat, h: Header)
    requires 0 < blockSize <= MAX_BLOCK && blocks < U32_LIMIT && h.chunkHeader == CHUNK_HEADER && h.blockSize == blockSize
    requires i <= |runs| && Tiles(runs, blocks) && Laid(file, raw, blockSize, runs, i, at)
    ensures ParseChunks(file, h, at, Extent(RunStart(runs, i, blocks), blockSize), |runs| - i)
         == Ok((ChunksFrom(runs, blockSize, i, at), Extent(blocks, blockSize)))
    decreases |runs| - i
  {
    hide Tiles, ParseChunk, HasAt, Extent, ChunkHead, Payload, PayloadLength, RunInside, ChunkFits;
    if i < |runs| {
      RunsFollow(runs, blocks, i);
      ChunkParses(file, at, raw, blockSize, runs[i], h);
      RunEndSmall(runs, blocks, i, blockSize);
      ListParses(file, raw, blockSize, blocks, runs, i + 1, at + CHUNK_HEADER + PayloadLength(runs[i], blockSize), h);
    }
  }

  lemma {:induction false} RunEndSmall(runs: seq<Run>, blocks: nat, i: nat, blockSize: nat)
    requires Tiles(runs, blocks) && i < |runs| && blocks < U32_LIMIT && blockSize <= MAX_BLOCK
    requires runs[i].start + runs[i].count == RunStart(runs, i + 1, blocks)
    ensures Extent(runs[i].start, blockSize) + Extent(runs[i].count, blockSize) == Extent(RunStart(runs, i + 1, blocks), blockSize) < U64_LIMIT
  {
    MulDistributes(runs[i].start, runs[i].count, blockSize);
    RunStartBelow(runs, blocks, i + 1);
    SmallProduct(RunStart(runs, i + 1, blocks), blockSize);
  }

  lemma {:induction false} RunStartBelow(runs: seq<Run>, blocks: nat, i: nat)
    requires Tiles(runs, blocks) && i <= |runs|
    ensures RunStart(runs, i, blocks) <= blocks
    decreases |runs| - i
  {
    if i < |runs| {
      RunsFollow(runs, blocks, i);
      RunStartBelow(runs, blocks, i + 1);
    }
  }

  // ---- Reading what the chunks hold ------------------------------------------------------------------------

  ghost predicate AllHold(file: bytes, chunks: seq<Chunk>, raw: bytes) {
    forall i :: 0 <= i < |chunks| ==> ChunkHolds(file, chunks[i], raw)
  }

  lemma {:induction false} SubSlice(s: bytes, a: nat, b: nat, i: nat, j: nat)
    requires a <= b <= |s| && i <= j <= b - a
    ensures s[a..b][i..j] == s[a + i..a + j]
  {
    forall k | 0 <= k < j - i
      ensures s[a..b][i..j][k] == s[a + i..a + j][k]
    {
      assert s[a..b][i + k] == s[a + i + k];
    }
  }

  lemma {:induction false} ChunkGives(file: bytes, c: Chunk, raw: bytes, from: nat, n: nat)
    requires ChunkHolds(file, c, raw) && c.start <= from && from + n <= c.start + c.length
    ensures ChunkBytes(file, c, from, n) == Ok(raw[from..from + n])
  {
    var r := ChunkBytes(file, c, from, n);
    if c.kind == CHUNK_RAW {
      SubSlice(file, c.offset, c.offset + c.length, from - c.start, from - c.start + n);
      SubSlice(raw, c.start, c.start + c.length, from - c.start, from - c.start + n);
    } else {
      assert r.value == raw[from..from + n];
    }
  }

  /** The chunk a position lies in is the one the search finds. */
  lemma {:induction false} SearchFinds(chunks: seq<Chunk>, start: nat, end: nat, position: nat)
    requires InOrder(chunks, start, end) && start <= position < end
    ensures var n := StartedBy(chunks, position);
            n > 0 && chunks[n - 1].start <= position < chunks[n - 1].start + chunks[n - 1].length
    decreases |chunks|
  {
    var k := HolderOf(chunks, start, end, position);
    forall i | k < i < |chunks|
      ensures chunks[i].start > position
    {
      StartsAscend(chunks, start, end, k, i);
    }
    StartedByIs(chunks, position, k + 1);
  }

  lemma {:induction false} HolderOf(chunks: seq<Chunk>, start: nat, end: nat, position: nat) returns (k: nat)
    requires InOrder(chunks, start, end) && start <= position < end
    ensures k < |chunks| && chunks[k].start <= position < chunks[k].start + chunks[k].length
    decreases |chunks|
  {
    if position < start + chunks[0].length {
      k := 0;
    } else {
      var j := HolderOf(chunks[1..], start + chunks[0].length, end, position);
      k := j + 1;
    }
  }

  /** Any window of an image whose chunks hold `raw` is that window of `raw`. */
  lemma {:induction false} WindowReads(file: bytes, chunks: seq<Chunk>, raw: bytes, position: nat, n: nat)
    requires InOrder(chunks, 0, |raw|) && AllHold(file, chunks, raw) && FillsSized(chunks) && position + n <= |raw|
    ensures ReadFrom(file, chunks, position, n) == Ok(raw[position..position + n])
    decreases n
  {
    hide InOrder, StartedBy, ChunkBytes, ChunkHolds;
    if n > 0 {
      SearchFinds(chunks, 0, |raw|, position);
      var c := chunks[StartedBy(chunks, position) - 1];
      var count := Min(c.start + c.length - position, n);
      assert ChunkHolds(file, c, raw);
      ChunkGives(file, c, raw, position, count);
      WindowReads(file, chunks, raw, position + count, n - count);
      assert raw[position..position + n] == raw[position..position + count] + raw[position + count..position + n];
    }
  }

  lemma {:induction false} ListHolds(file: bytes, raw: bytes, blockSize: nat, blocks: nat, runs: seq<Run>, i: nat, at: nat)
    requires 4 <= blockSize && blockSize % 4 == 0 && |raw| == blocks * blockSize && i <= |runs|
    requires Tiles(runs, blocks) && forall k :: 0 <= k < |runs| ==> Describes(raw, blockSize, blocks, runs[k])
    requires Laid(file, raw, blockSize, runs, i, at)
    ensures AllHold(file, ChunksFrom(runs, blockSize, i, at), raw) && FillsSized(ChunksFrom(runs, blockSize, i, at))
    ensures InOrder(ChunksFrom(runs, blockSize, i, at), Extent(RunStart(runs, i, blocks), blockSize), Extent(blocks, blockSize))
    decreases |runs| - i
  {
    hide Tiles, HasAt, Describes, ChunkHolds, Extent, ChunkHead, Payload, PayloadLength, RunInside, ChunkFits;
    if i < |runs| {
      var c := ChunkOf(runs[i], blockSize, at + CHUNK_HEADER);
      RunHolds(file, raw, blockSize, blocks, runs[i], at + CHUNK_HEADER);
      ListHolds(file, raw, blockSize, blocks, runs, i + 1, at + CHUNK_HEADER + PayloadLength(runs[i], blockSize));
      RunsFollow(runs, blocks, i);
      ExtentAdds(runs[i].start, runs[i].count, blockSize);
      FillOf(file, c, raw);
      var rest := ChunksFrom(runs, blockSize, i + 1, at + CHUNK_HEADER + PayloadLength(runs[i], blockSize));
      assert ([c] + rest)[1..] == rest;
    }
  }

  lemma {:induction false} ExtentAdds(start: nat, count: nat, blockSize: nat)
    requires count > 0 && blockSize > 0
    ensures Extent(start, blockSize) + Extent(count, blockSize) == Extent(start + count, blockSize) && Extent(count, blockSize) > 0
  {
    MulDistributes(start, count, blockSize);
    MulMonotone(1, count, blockSize);
  }

  lemma {:induction false} FillOf(file: bytes, c: Chunk, raw: bytes)
    requires ChunkHolds(file, c, raw)
    ensures |c.fill| == 4
  {
  }

  // ---- Main results ----------------------------------------------------------------------------------------

  /** The container parses to an image of the raw size whose every window is that of the raw image. */
  ghost predicate ReadsBack(raw: bytes, container: bytes) {
    var r := ParseFile(container);
    && r.Ok? && r.value.size == |raw| && InOrder(r.value.chunks, 0, |raw|) && FillsSized(r.value.chunks)
    && forall offset: nat, n: nat :: offset + n <= |raw| ==>
         ReadFrom(container, r.value.chunks, offset, n) == Ok(raw[offset..offset + n])
  }

  /** Sparse round trip: with blocks of whole words, a container written in either way reads back. */
  lemma {:induction false} SparseReadsBack(raw: bytes, blockSize: nat, container: bytes)
    requires blockSize % 4 == 0 && blockSize <= MAX_BLOCK && Sparsified(raw, blockSize, container)
    ensures ReadsBack(raw, container)
  {
    var runs: seq<Run>, blocks: nat :|
      && 4 <= blockSize < U32_LIMIT && blocks < U32_LIMIT && |raw| == blocks * blockSize
      && Scanned(raw, blockSize, blocks, runs, blocks) && |runs| < U32_LIMIT
      && AllInside(raw, blockSize, runs) && AllFit(runs, blockSize)
      && container == Container(raw, blockSize, blocks, runs);
    ContainerParses(raw, blockSize, blocks, runs);
    ContainerHolds(raw, blockSize, blocks, runs);
    var chunks := ChunksFrom(runs, blockSize, 0, FILE_HEADER);
    hide Scanned, AllInside, AllFit, Container, ChunksFrom, InOrder, AllHold, FillsSized, ParseFile, Sparsified;
    forall offset: nat, n: nat | offset + n <= |raw|
      ensures ReadFrom(container, chunks, offset, n) == Ok(raw[offset..offset + n])
    {
      WindowReads(container, chunks, raw, offset, n);
    }
  }

  /** Parsing works for any block size. */
  lemma {:induction false} ContainerParses(raw: bytes, blockSize: nat, blocks: nat, runs: seq<Run>)
    requires 4 <= blockSize <= MAX_BLOCK && blocks < U32_LIMIT && |raw| == blocks * blockSize
    requires Tiles(runs, blocks) && |runs| < U32_LIMIT
    requires AllInside(raw, blockSize, runs) && AllFit(runs, blockSize)
    ensures Laid(Container(raw, blockSize, blocks, runs), raw, blockSize, runs, 0, FILE_HEADER)
    ensures ParseFile(Container(raw, blockSize, blocks, runs))
         == Ok(Sparse(blockSize, |raw|, ChunksFrom(runs, blockSize, 0, FILE_HEADER)))
  {
    var file, header, body := Container(raw, blockSize, blocks, runs), HeaderBytes(blockSize, blocks, |runs|), ContainerBody(raw, blockSize, runs);
    assert file == header + body;
    assert Extent(0, blockSize) == 0 && Extent(blocks, blockSize) == |raw|;
    hide HeaderBytes, Tiles, AllInside, AllFit, ParseHeader, ParseFile, ParseChunks, Container, Laid, ChunksFrom, ContainerBody, Extent;
    assert file[0..FILE_HEADER] == header && file[FILE_HEADER..FILE_HEADER + |body|] == body;
    HeaderParses(file, blockSize, blocks, |runs|);
    BodyLaid(file, raw, blockSize, runs);
    FirstRun(runs, blocks);
    ListParses(file, raw, blockSize, blocks, runs, 0, FILE_HEADER, PlainHeader(blockSize, blocks, |runs|));
    FileParses(file, PlainHeader(blockSize, blocks, |runs|), ChunksFrom(runs, blockSize, 0, FILE_HEADER));
  }

  lemma {:induction false} ContainerHolds(raw: bytes, blockSize: nat, blocks: nat, runs: seq<Run>)
    requires 4 <= blockSize < U32_LIMIT && blockSize % 4 == 0 && blocks < U32_LIMIT && |raw| == blocks * blockSize
    requires Scanned(raw, blockSize, blocks, runs, blocks) && |runs| < U32_LIMIT
    requires AllInside(raw, blockSize, runs) && AllFit(runs, blockSize)
    requires Laid(Container(raw, blockSize, blocks, runs), raw, blockSize, runs, 0, FILE_HEADER)
    ensures var container, chunks := Container(raw, blockSize, blocks, runs), ChunksFrom(runs, blockSize, 0, FILE_HEADER);
            InOrder(chunks, 0, |raw|) && FillsSized(chunks) && AllHold(container, chunks, raw)
  {
    assert Tiles(runs, blocks) && forall k :: 0 <= k < |runs| ==> Describes(raw, blockSize, blocks, runs[k]);
    assert Extent(0, blockSize) == 0 && Extent(blocks, blockSize) == |raw|;
    hide Scanned, Tiles, AllInside, AllFit, AllHold, InOrder, FillsSized, Container, Describes, Laid, ChunksFrom, Extent;
    FirstRun(runs, blocks);
    ListHolds(Container(raw, blockSize, blocks, runs), raw, blockSize, blocks, runs, 0, FILE_HEADER);
  }

  const STREAM_CHUNK: nat := 0x10_0000

  /** `stream_logical`: the whole image in pieces of 1 MiB; for a container that reads back, the raw image. */
  method StreamLogical(file: bytes, image: Sparse, ghost raw: bytes) returns (r: Result<bytes, ReadError>)
    requires InOrder(image.chunks, 0, image.size) && FillsSized(image.chunks)
    ensures ReadsBack(raw, file) && ParseFile(file) == Ok(image) ==> r == Ok(raw)
  {
    hide InOrder, FillsSized, ReadFrom, ParseFile;
    var output: bytes := [];
    var offset := 0;
    while offset < image.size
      invariant 0 <= offset <= image.size
      invariant ReadsBack(raw, file) && ParseFile(file) == Ok(image) ==> output == raw[..offset]
    {
      var n := Min(image.size - offset, STREAM_CHUNK);
      var part := ReadAt(file, image, offset, n);
      if part.Err? {
        return Err(part.error);
      }
      if ReadsBack(raw, file) && ParseFile(file) == Ok(image) {
        assert raw[..offset] + raw[offset..offset + n] == raw[..offset + n];
      }
      output := output + part.value;
      offset := offset + n;
    }
    assert ReadsBack(raw, file) && ParseFile(file) == Ok(image) ==> offset == |raw| && raw[..|raw|] == raw;
    return Ok(output);
  }

  // ---- Blocks that are not whole words ---------------------------------------------------------------------

  /** One block of ones whose bytes behind the last whole word are twos: taken for a filled block. */
  function Ragged(blockSize: nat): (raw: bytes)
    ensures |raw| == blockSize
  {
    seq(blockSize, i requires 0 <= i < blockSize => if i < blockSize / 4 * 4 then 1 else 2)
  }

  const ONES: bytes := [1, 1, 1, 1]

  lemma {:induction false} RaggedIsFilled(blockSize: nat)
    requires blockSize >= 4
    ensures Classify(Ragged(blockSize)) == Filled(ONES)
  {
    var raw := Ragged(blockSize);
    assert raw[0] == 1 && raw[..4] == ONES;
    forall k | 0 <= k < |raw| / 4
      ensures Word(raw, k) == raw[..4]
    {
      assert 4 * k + 3 < blockSize / 4 * 4;
    }
  }

  function RaggedRuns(): seq<Run> {
    [Run(Filled(ONES), 0, 1)]
  }

  lemma {:induction false} RaggedScanned(blockSize: nat)
    requires blockSize >= 4
    ensures |Ragged(blockSize)| == 1 * blockSize && Scanned(Ragged(blockSize), blockSize, 1, RaggedRuns(), 1)
    ensures AllInside(Ragged(blockSize), blockSize, RaggedRuns()) && AllFit(RaggedRuns(), blockSize)
  {
    var raw, runs := Ragged(blockSize), RaggedRuns();
    RaggedIsFilled(blockSize);
    assert Block(raw, blockSize, 0) == raw;
    assert runs[..0] == [];
    assert (0 + 1) * blockSize == blockSize;
  }

  lemma {:induction false} RaggedChunks(blockSize: nat)
    requires 4 <= blockSize <= MAX_BLOCK
    ensures ChunksFrom(RaggedRuns(), blockSize, 0, FILE_HEADER) == [Chunk(CHUNK_FILL, 0, blockSize, FILE_HEADER + CHUNK_HEADER, ONES)]
  {
    var runs := RaggedRuns();
    assert Extent(0, blockSize) == 0 && Extent(1, blockSize) == blockSize;
    var at := FILE_HEADER + CHUNK_HEADER + PayloadLength(runs[0], blockSize);
    assert ChunksFrom(runs, blockSize, 1, at) == [];
  }

  lemma {:induction false} RaggedLost(blockSize: nat)
    requires 4 <= blockSize <= MAX_BLOCK && blockSize % 4 != 0
    ensures exists raw: bytes, container: bytes :: Sparsified(raw, blockSize, container) && !ReadsBack(raw, container)
  {
    var raw, runs := Ragged(blockSize), RaggedRuns();
    RaggedScanned(blockSize);
    assert Tiles(runs, 1);
    var container := Container(raw, blockSize, 1, runs);
    ContainerParses(raw, blockSize, 1, runs);
    RaggedChunks(blockSize);
    var c := Chunk(CHUNK_FILL, 0, blockSize, FILE_HEADER + CHUNK_HEADER, ONES);
    LastByteRead(container, c, blockSize);
    assert raw[blockSize - 1..blockSize - 1 + 1] == [2];
    assert Sparsified(raw, blockSize, container);
  }

  lemma {:induction false} LastByteRead(file: bytes, c: Chunk, blockSize: nat)
    requires blockSize > 0 && c.kind == CHUNK_FILL && c.start == 0 && c.length == blockSize && c.fill == ONES
    ensures FillsSized([c]) && ReadFrom(file, [c], blockSize - 1, 1) == Ok([1])
  {
    var step := ReadStep(file, [c], blockSize - 1, 1);
    assert [c][|[c]| - 1] == c && StartedBy([c], blockSize - 1) == 1;
    assert ONES[(blockSize - 1) % 4] == 1;
    var data := ChunkBytes(file, c, blockSize - 1, 1);
    assert data.value[0] == ONES[(blockSize - 1 + 0) % 4];
    assert data.value == [1];
    assert step == data;
    assert ReadFrom(file, [c], blockSize, 0) == Ok([]);
    assert [1] + [] == [1 as byte];
  }

  /** The round trip holds for all raw images of a block size exactly when blocks are made of whole words. */
  lemma {:induction false} RoundTripIff(blockSize: nat)
    requires 4 <= blockSize <= MAX_BLOCK
    ensures (forall raw: bytes, container: bytes :: Sparsified(raw, blockSize, container) ==> ReadsBack(raw, container))
       <==> blockSize % 4 == 0
  {
    hide Sparsified, ReadsBack;
    if blockSize % 4 == 0 {
      forall raw: bytes, container: bytes | Sparsified(raw, blockSize, container)
        ensures ReadsBack(raw, container)
      {
        SparseReadsBack(raw, blockSize, container);
      }
    } else {
      RaggedLost(blockSize);
    }
  }

  lemma {:induction false} FileParses(file: bytes, h: Header, chunks: seq<Chunk>)
    requires ParseHeader(file) == Ok(h) && h.chunkHeader == CHUNK_HEADER && h.blocks < U32_LIMIT && h.blockSize <= MAX_BLOCK
    requires ParseChunks(file, h, h.headerSize, 0, h.chunks) == Ok((chunks, Extent(h.blocks, h.blockSize)))
    ensures ParseFile(file) == Ok(Sparse(h.blockSize, Extent(h.blocks, h.blockSize), chunks))
  {
    hide ParseHeader, ParseChunks;
    SmallProduct(h.blocks, h.blockSize);
  }

  function ContainerBody(raw: bytes, blockSize: nat, runs: seq<Run>): bytes
    requires AllInside(raw, blockSize, runs) && AllFit(runs, blockSize)
  {
    assert runs[..|runs|] == runs;
    Chunks(raw, blockSize, runs, |runs|)
  }

  lemma {:induction false} BodyLaid(file: bytes, raw: bytes, blockSize: nat, runs: seq<Run>)
    requires AllInside(raw, blockSize, runs) && AllFit(runs, blockSize)
    requires HasAt(file, FILE_HEADER, ContainerBody(raw, blockSize, runs))
    ensures Laid(file, raw, blockSize, runs, 0, FILE_HEADER)
  {
    EmittedAll(raw, blockSize, runs);
    PrefixFits(raw, blockSize, runs, |runs|);
    hide Laid, HasAt, Emitted, AllInside, AllFit;
    ContainerLaid(file, raw, blockSize, runs, 0);
  }
}
