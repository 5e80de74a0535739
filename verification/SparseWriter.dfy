/** Android sparse images, writing: runs of equal blocks, and the chunks they become. */
module SparseWriter {
  import opened Core
  import opened Arith
  import opened OutFile

  const SPARSE_MAGIC: nat := 0xed26ff3a
  const CHUNK_RAW: nat := 0xcac1
  const CHUNK_FILL: nat := 0xcac2
  const CHUNK_DONT_CARE: nat := 0xcac3
  const MAX_RAW_RUN: nat := 16384
  const FILE_HEADER: nat := 28
  const CHUNK_HEADER: nat := 12
  const COPY_QUANTUM: nat := 0x40000

  // ---- Blocks ----------------------------------------------------------------------------------------------

  /** What a block is worth storing as. */
  datatype Class = Zero | Filled(value: bytes) | Other

  /** Every whole group of four bytes repeats the first one. */
  predicate Repeats(block: bytes)
    requires |block| >= 4
  {
    forall k :: 0 <= k < |block| / 4 ==> Word(block, k) == block[..4]
  }

  function Word(block: bytes, k: nat): bytes
    requires 4 * k + 4 <= |block|
  {
    block[4 * k..4 * k + 4]
  }

  /** `classify_block`; a block shorter than a fill value cannot be classified. */
  function Classify(block: bytes): (c: Class)
    requires |block| >= 4
    ensures c.Filled? ==> |c.value| == 4
  {
    if IsZero(block) then Zero
    else if Repeats(block) then Filled(block[..4])
    else Other
  }

  function Block(raw: bytes, blockSize: nat, b: nat): (r: bytes)
    requires b * blockSize + blockSize <= |raw|
    ensures |r| == blockSize
  {
    raw[b * blockSize..b * blockSize + blockSize]
  }

  lemma {:induction false} BlockInside(blocks: nat, blockSize: nat, b: nat)
    requires b < blocks
    ensures b * blockSize + blockSize <= blocks * blockSize
  {
    MulMonotone(b + 1, blocks, blockSize);
    MulDistributes(b, 1, blockSize);
  }

  function ClassAt(raw: bytes, blockSize: nat, blocks: nat, b: nat): (c: Class)
    requires blockSize >= 4 && |raw| == blocks * blockSize && b < blocks
    ensures c.Filled? ==> |c.value| == 4
  {
    BlockInside(blocks, blockSize, b);
    Classify(Block(raw, blockSize, b))
  }

  // ---- Runs ------------------------------------------------------------------------------------------------

  /** `count` blocks of one class from block `start` on. */
  datatype Run = Run(content: Class, start: nat, count: nat)

  /** The runs follow each other from block 0 to block `blocks`, none empty. */
  predicate Tiles(runs: seq<Run>, blocks: nat)
    decreases |runs|
  {
    if runs == [] then blocks == 0
    else
      var last := runs[|runs| - 1];
      last.count > 0 && last.start + last.count == blocks && Tiles(runs[..|runs| - 1], last.start)
  }

  /** Every block of the run has its class, and raw runs keep to the cap. */
  ghost predicate Describes(raw: bytes, blockSize: nat, blocks: nat, r: Run)
    requires blockSize >= 4 && |raw| == blocks * blockSize
  {
    && r.start + r.count <= blocks && (r.content.Other? ==> r.count <= MAX_RAW_RUN)
    && (r.content.Filled? ==> |r.content.value| == 4)
    && forall b :: r.start <= b < r.start + r.count ==> ClassAt(raw, blockSize, blocks, b) == r.content
  }

  /** Neighbours cannot be one run: their classes differ, or the first is a raw run at the cap. */
  predicate Unmergeable(runs: seq<Run>) {
    forall i :: 0 < i < |runs| ==>
      runs[i - 1].content != runs[i].content || (runs[i - 1].content.Other? && runs[i - 1].count == MAX_RAW_RUN)
  }

  ghost predicate Scanned(raw: bytes, blockSize: nat, blocks: nat, runs: seq<Run>, upTo: nat)
    requires blockSize >= 4 && |raw| == blocks * blockSize
  {
    && upTo <= blocks && Tiles(runs, upTo) && Unmergeable(runs)
    && (forall i :: 0 <= i < |runs| ==> Describes(raw, blockSize, blocks, runs[i]))
    && (runs != [] && upTo < blocks ==>
          var last := runs[|runs| - 1];
          ClassAt(raw, blockSize, blocks, upTo) != last.content || (last.content.Other? && last.count == MAX_RAW_RUN))
  }

  function RunStart(runs: seq<Run>, i: nat, blocks: nat): nat
    requires i <= |runs|
  {
    if i == |runs| then blocks else runs[i].start
  }

  lemma {:induction false} RunsFollow(runs: seq<Run>, blocks: nat, i: nat)
    requires Tiles(runs, blocks) && i < |runs|
    ensures runs[i].count > 0 && runs[i].start + runs[i].count == RunStart(runs, i + 1, blocks)
    ensures i == 0 ==> runs[i].start == 0
    decreases |runs|
  {
    var k := |runs| - 1;
    if i < k {
      RunsFollow(runs[..k], runs[k].start, i);
    }
  }

  lemma {:induction false} FirstRun(runs: seq<Run>, blocks: nat)
    requires Tiles(runs, blocks)
    ensures RunStart(runs, 0, blocks) == 0
  {
    if runs != [] {
      RunsFollow(runs, blocks, 0);
    }
  }

  datatype WriteError = BadBlockSize | NotAligned | TooManyBlocks | ChunkTooLarge

  /** The greedy end of the run that starts at `start` and has reached `end`. */
  function RunStop(raw: bytes, blockSize: nat, blocks: nat, start: nat, end: nat): (stop: nat)
    requires blockSize >= 4 && |raw| == blocks * blockSize && start < end <= blocks
    ensures end <= stop <= blocks
    decreases blocks - end
  {
    var c := ClassAt(raw, blockSize, blocks, start);
    if end == blocks || (c.Other? && end - start >= MAX_RAW_RUN) || ClassAt(raw, blockSize, blocks, end) != c then end
    else RunStop(raw, blockSize, blocks, start, end + 1)
  }

  /** The greedy runs from block `index` on. */
  function RunsFrom(raw: bytes, blockSize: nat, blocks: nat, index: nat): (runs: seq<Run>)
    requires blockSize >= 4 && |raw| == blocks * blockSize && index <= blocks
    ensures |runs| <= blocks - index
    ensures forall r :: r in runs ==> r.start + r.count <= blocks && (r.content.Filled? ==> |r.content.value| == 4)
    decreases blocks - index
  {
    if index == blocks then []
    else
      var end := RunStop(raw, blockSize, blocks, index, index + 1);
      [Run(ClassAt(raw, blockSize, blocks, index), index, end - index)] + RunsFrom(raw, blockSize, blocks, end)
  }

  lemma {:induction false} StopsAt(raw: bytes, blockSize: nat, blocks: nat, start: nat, end: nat, stop: nat)
    requires blockSize >= 4 && |raw| == blocks * blockSize && start < end <= stop <= blocks
    requires var c := ClassAt(raw, blockSize, blocks, start);
             && (forall b :: end <= b < stop ==> ClassAt(raw, blockSize, blocks, b) == c)
             && (c.Other? ==> stop - start <= MAX_RAW_RUN)
             && (stop == blocks || ClassAt(raw, blockSize, blocks, stop) != c || (c.Other? && stop - start == MAX_RAW_RUN))
    ensures RunStop(raw, blockSize, blocks, start, end) == stop
    decreases stop - end
  {
    hide ClassAt;
    if end < stop {
      StopsAt(raw, blockSize, blocks, start, end + 1, stop);
    }
  }

  /** Run `i` of a scanned image ends where the greedy scan ends it. */
  lemma {:induction false} RunIsGreedy(raw: bytes, blockSize: nat, blocks: nat, runs: seq<Run>, i: nat)
    requires blockSize >= 4 && |raw| == blocks * blockSize && Scanned(raw, blockSize, blocks, runs, blocks) && i < |runs|
    ensures var start := runs[i].start;
            && start < blocks && runs[i].content == ClassAt(raw, blockSize, blocks, start)
            && RunStop(raw, blockSize, blocks, start, start + 1) == start + runs[i].count == RunStart(runs, i + 1, blocks)
  {
    hide ClassAt, Tiles, RunStop;
    RunsFollow(runs, blocks, i);
    assert Describes(raw, blockSize, blocks, runs[i]);
    var start, stop := runs[i].start, runs[i].start + runs[i].count;
    if i + 1 < |runs| {
      RunsFollow(runs, blocks, i + 1);
      assert Describes(raw, blockSize, blocks, runs[i + 1]);
      assert ClassAt(raw, blockSize, blocks, stop) == runs[i + 1].content;
    }
    StopsAt(raw, blockSize, blocks, start, start + 1, stop);
  }

  /** Runs that tile the image and cannot be merged are those of the greedy scan: there is only one such list. */
  lemma {:induction false} ScannedIsGreedy(raw: bytes, blockSize: nat, blocks: nat, runs: seq<Run>, i: nat)
    requires blockSize >= 4 && |raw| == blocks * blockSize && Scanned(raw, blockSize, blocks, runs, blocks) && i <= |runs|
    ensures RunStart(runs, i, blocks) <= blocks
    ensures runs[i..] == RunsFrom(raw, blockSize, blocks, RunStart(runs, i, blocks))
    decreases |runs| - i
  {
    hide ClassAt, Tiles, RunStop, Describes;
    if i < |runs| {
      RunIsGreedy(raw, blockSize, blocks, runs, i);
      ScannedIsGreedy(raw, blockSize, blocks, runs, i + 1);
      assert runs[i..] == [runs[i]] + runs[i + 1..];
    }
  }

  /** How far the run that starts at `start` goes. */
  method RunEnd(raw: bytes, blockSize: nat, blocks: nat, start: nat) returns (end: nat)
    requires blockSize >= 4 && |raw| == blocks * blockSize && start < blocks
    ensures start < end <= blocks && end == RunStop(raw, blockSize, blocks, start, start + 1)
    ensures Describes(raw, blockSize, blocks, Run(ClassAt(raw, blockSize, blocks, start), start, end - start))
    ensures end < blocks ==>
              var c := ClassAt(raw, blockSize, blocks, start);
              ClassAt(raw, blockSize, blocks, end) != c || (c.Other? && end - start == MAX_RAW_RUN)
  {
    hide ClassAt;
    var c := ClassAt(raw, blockSize, blocks, start);
    end := start + 1;
    if c.Other? {
      while end < blocks && end - start < MAX_RAW_RUN && ClassAt(raw, blockSize, blocks, end).Other?
        invariant start < end <= blocks && end - start <= MAX_RAW_RUN
        invariant forall b :: start <= b < end ==> ClassAt(raw, blockSize, blocks, b) == c
        invariant RunStop(raw, blockSize, blocks, start, end) == RunStop(raw, blockSize, blocks, start, start + 1)
      {
        end := end + 1;
      }
    } else {
      while end < blocks && ClassAt(raw, blockSize, blocks, end) == c
        invariant start < end <= blocks
        invariant forall b :: start <= b < end ==> ClassAt(raw, blockSize, blocks, b) == c
        invariant RunStop(raw, blockSize, blocks, start, end) == RunStop(raw, blockSize, blocks, start, start + 1)
      {
        end := end + 1;
      }
    }
  }

  /** `scan_sparse_runs`; a block size of 1 to 3 has no first fill word and is not supported. */
  method ScanRuns(raw: bytes, blockSize: nat) returns (r: Result<(seq<Run>, nat), WriteError>)
    requires blockSize >= 4 || blockSize == 0
    ensures r == Err(BadBlockSize) <==> blockSize == 0
    ensures r == Err(NotAligned) <==> blockSize > 0 && |raw| % blockSize != 0
    ensures r == Err(TooManyBlocks) <==> blockSize > 0 && |raw| % blockSize == 0 && |raw| / blockSize >= U32_LIMIT
    ensures r.Err? ==> r.error != ChunkTooLarge
    ensures r.Ok? ==>
              var (runs, blocks) := r.value;
              && |raw| == blocks * blockSize && blocks < U32_LIMIT && Scanned(raw, blockSize, blocks, runs, blocks)
              && runs == RunsFrom(raw, blockSize, blocks, 0)
  {
    if blockSize == 0 {
      return Err(BadBlockSize);
    }
    if |raw| % blockSize != 0 {
      return Err(NotAligned);
    }
    var blocks := |raw| / blockSize;
    if blocks >= U32_LIMIT {
      return Err(TooManyBlocks);
    }
    WholeBlocks(raw, blockSize);
    hide ClassAt, Tiles, Describes, RunStop, RunsFrom;
    var runs: seq<Run> := [];
    var index: nat := 0;
    NothingScanned();
    while index < blocks
      invariant Scanned(raw, blockSize, blocks, runs, index)
    {
      var end := RunEnd(raw, blockSize, blocks, index);
      var run := Run(ClassAt(raw, blockSize, blocks, index), index, end - index);
      TilesMore(runs, run, index);
      runs := runs + [run];
      index := end;
    }
    AllGreedy(raw, blockSize, blocks, runs);
    return Ok((runs, blocks));
  }

  lemma {:induction false} AllGreedy(raw: bytes, blockSize: nat, blocks: nat, runs: seq<Run>)
    requires blockSize >= 4 && |raw| == blocks * blockSize && Scanned(raw, blockSize, blocks, runs, blocks)
    ensures runs == RunsFrom(raw, blockSize, blocks, 0)
  {
    hide RunsFrom;
    FirstRun(runs, blocks);
    ScannedIsGreedy(raw, blockSize, blocks, runs, 0);
    assert runs[0..] == runs;
  }

  lemma {:induction false} WholeBlocks(raw: bytes, blockSize: nat)
    requires blockSize > 0 && |raw| % blockSize == 0
    ensures |raw| == |raw| / blockSize * blockSize
  {
  }

  lemma {:induction false} NothingScanned()
    ensures Tiles([], 0)
  {
  }

  lemma {:induction false} TilesMore(runs: seq<Run>, r: Run, upTo: nat)
    requires Tiles(runs, upTo) && r.start == upTo && r.count > 0
    ensures Tiles(runs + [r], upTo + r.count)
  {
    assert (runs + [r])[..|runs|] == runs;
  }

  // ---- Chunks ----------------------------------------------------------------------------------------------

  function KindOf(c: Class): nat {
    match c case Zero => CHUNK_DONT_CARE case Filled(_) => CHUNK_FILL case Other => CHUNK_RAW
  }

  function PayloadLength(r: Run, blockSize: nat): nat {
    match r.content case Zero => 0 case Filled(_) => 4 case Other => r.count * blockSize
  }

  /** A chunk header with its total size; the size must fit 32 bits. */
  predicate ChunkFits(r: Run, blockSize: nat) {
    r.count < U32_LIMIT && CHUNK_HEADER + PayloadLength(r, blockSize) < U32_LIMIT
  }

  function ChunkHead(r: Run, blockSize: nat): (b: bytes)
    requires ChunkFits(r, blockSize)
    ensures |b| == CHUNK_HEADER
  {
    Le16(KindOf(r.content)) + Le16(0) + Le32(r.count) + Le32(CHUNK_HEADER + PayloadLength(r, blockSize))
  }

  predicate RunInside(raw: bytes, blockSize: nat, r: Run) {
    (r.start + r.count) * blockSize <= |raw| && (r.content.Filled? ==> |r.content.value| == 4)
  }

  function Payload(raw: bytes, blockSize: nat, r: Run): (b: bytes)
    requires RunInside(raw, blockSize, r)
    ensures |b| == PayloadLength(r, blockSize)
  {
    match r.content
    case Zero => []
    case Filled(value) => value
    case Other =>
      MulDistributes(r.start, r.count, blockSize);
      raw[r.start * blockSize..r.start * blockSize + r.count * blockSize]
  }

  predicate AllInside(raw: bytes, blockSize: nat, runs: seq<Run>) {
    forall i :: 0 <= i < |runs| ==> RunInside(raw, blockSize, runs[i])
  }

  predicate AllFit(runs: seq<Run>, blockSize: nat) {
    forall i :: 0 <= i < |runs| ==> ChunkFits(runs[i], blockSize)
  }

  /** The chunks of the first `n` runs. */
  function Chunks(raw: bytes, blockSize: nat, runs: seq<Run>, n: nat): bytes
    requires n <= |runs| && AllInside(raw, blockSize, runs[..n]) && AllFit(runs[..n], blockSize)
  {
    if n == 0 then []
    else
      assert runs[..n][..n - 1] == runs[..n - 1] && runs[..n][n - 1] == runs[n - 1];
      assert forall i :: 0 <= i < n - 1 ==> runs[..n - 1][i] == runs[..n][i];
      Chunks(raw, blockSize, runs, n - 1) + ChunkHead(runs[n - 1], blockSize) + Payload(raw, blockSize, runs[n - 1])
  }

  lemma {:induction false} DescribedInside(raw: bytes, blockSize: nat, blocks: nat, r: Run)
    requires blockSize >= 4 && |raw| == blocks * blockSize && Describes(raw, blockSize, blocks, r)
    ensures RunInside(raw, blockSize, r)
  {
    MulMonotone(r.start + r.count, blocks, blockSize);
  }

  lemma {:induction false} ScannedInside(raw: bytes, blockSize: nat, blocks: nat, runs: seq<Run>)
    requires blockSize >= 4 && |raw| == blocks * blockSize && Scanned(raw, blockSize, blocks, runs, blocks)
    ensures AllInside(raw, blockSize, runs)
  {
    hide Describes, Tiles, RunInside;
    forall i | 0 <= i < |runs|
      ensures RunInside(raw, blockSize, runs[i])
    {
      DescribedInside(raw, blockSize, blocks, runs[i]);
    }
  }

  /** A raw payload, copied in quanta of 256 KiB. */
  method CopyPayload(out: File, raw: bytes, from: nat, n: nat)
    requires from + n <= |raw|
    modifies out
    ensures out.content == old(out.content) + raw[from..from + n]
  {
    var at, remaining := from, n;
    while remaining > 0
      invariant 0 <= remaining <= n && at == from + (n - remaining)
      invariant out.content == old(out.content) + raw[from..at]
    {
      var count := Min(remaining, COPY_QUANTUM);
      Append(out, raw[at..at + count]);
      assert raw[from..at] + raw[at..at + count] == raw[from..at + count];
      at, remaining := at + count, remaining - count;
    }
  }

  /** Writing at the end of the output. */
  method Append(out: File, data: bytes)
    modifies out
    ensures out.content == old(out.content) + data
  {
    AtTheEnd(out.content, data);
    out.WriteAt(|out.content|, data);
  }

  lemma {:induction false} AtTheEnd(content: bytes, data: bytes)
    ensures Overwrite(content, |content|, data) == content + data
  {
  }

  /** `emit_sparse_runs`: one chunk a run, until one is too large for its 32-bit size. */
  method EmitRuns(raw: bytes, blockSize: nat, runs: seq<Run>, out: File) returns (r: Result<(), WriteError>)
    requires AllInside(raw, blockSize, runs) && forall i :: 0 <= i < |runs| ==> runs[i].count < U32_LIMIT
    modifies out
    ensures r.Ok? <==> AllFit(runs, blockSize)
    ensures r.Ok? ==> AllInside(raw, blockSize, runs[..|runs|]) && AllFit(runs[..|runs|], blockSize)
                      && out.content == old(out.content) + Chunks(raw, blockSize, runs, |runs|)
    ensures r.Err? ==> r == Err(ChunkTooLarge)
  {
    hide ChunkHead, Payload, PayloadLength;
    NothingEmitted(raw, blockSize, runs, out.content);
    for i := 0 to |runs|
      invariant AllInside(raw, blockSize, runs[..i]) && AllFit(runs[..i], blockSize)
      invariant out.content == old(out.content) + Chunks(raw, blockSize, runs, i)
    {
      var run := runs[i];
      if CHUNK_HEADER + PayloadLength(run, blockSize) >= U32_LIMIT {
        assert !ChunkFits(runs[i], blockSize);
        return Err(ChunkTooLarge);
      }
      ghost var before := out.content;
      Append(out, ChunkHead(run, blockSize));
      PayloadOf(raw, blockSize, run);
      match run.content {
        case Zero =>
        case Filled(value) => Append(out, value);
        case Other => CopyPayload(out, raw, run.start * blockSize, run.count * blockSize);
      }
      ChunksMore(raw, blockSize, runs, i, old(out.content));
    }
    assert runs[..|runs|] == runs;
    return Ok(());
  }

  lemma {:induction false} NothingEmitted(raw: bytes, blockSize: nat, runs: seq<Run>, content: bytes)
    ensures AllInside(raw, blockSize, runs[..0]) && AllFit(runs[..0], blockSize)
    ensures content + Chunks(raw, blockSize, runs, 0) == content
  {
  }

  lemma {:induction false} PayloadOf(raw: bytes, blockSize: nat, r: Run)
    requires RunInside(raw, blockSize, r)
    ensures Payload(raw, blockSize, r) == match r.content
              case Zero => []
              case Filled(value) => value
              case Other =>
                var from := r.start * blockSize;
                if from + r.count * blockSize <= |raw| then raw[from..from + r.count * blockSize] else []
    ensures r.start * blockSize + r.count * blockSize <= |raw|
  {
    MulDistributes(r.start, r.count, blockSize);
  }

  lemma {:induction false} ChunksMore(raw: bytes, blockSize: nat, runs: seq<Run>, i: nat, before: bytes)
    requires i < |runs| && AllInside(raw, blockSize, runs) && AllInside(raw, blockSize, runs[..i]) && AllFit(runs[..i], blockSize)
    requires ChunkFits(runs[i], blockSize)
    ensures AllInside(raw, blockSize, runs[..i + 1]) && AllFit(runs[..i + 1], blockSize)
    ensures before + Chunks(raw, blockSize, runs, i) + ChunkHead(runs[i], blockSize) + Payload(raw, blockSize, runs[i])
         == before + Chunks(raw, blockSize, runs, i + 1)
  {
    hide RunInside, ChunkFits, ChunkHead, Payload;
    assert runs[..i + 1] == runs[..i] + [runs[i]];
    var a, b, c := Chunks(raw, blockSize, runs, i), ChunkHead(runs[i], blockSize), Payload(raw, blockSize, runs[i]);
    assert Chunks(raw, blockSize, runs, i + 1) == a + b + c;
    assert before + a + b + c == before + (a + b + c);
  }

  // ---- The container ---------------------------------------------------------------------------------------

  function HeaderBytes(blockSize: nat, blocks: nat, chunks: nat): (b: bytes)
    requires blockSize < U32_LIMIT && blocks < U32_LIMIT && chunks < U32_LIMIT
    ensures |b| == FILE_HEADER
  {
    Le32(SPARSE_MAGIC) + Le16(1) + Le16(0) + Le16(FILE_HEADER) + Le16(CHUNK_HEADER)
    + Le32(blockSize) + Le32(blocks) + Le32(chunks) + Le32(0)
  }

  /** The container of scanned runs. */
  function Container(raw: bytes, blockSize: nat, blocks: nat, runs: seq<Run>): bytes
    requires blockSize < U32_LIMIT && blocks < U32_LIMIT && |runs| < U32_LIMIT
    requires AllInside(raw, blockSize, runs) && AllFit(runs, blockSize)
  {
    assert runs[..|runs|] == runs;
    HeaderBytes(blockSize, blocks, |runs|) + Chunks(raw, blockSize, runs, |runs|)
  }

  lemma {:induction false} FewRuns(runs: seq<Run>, blocks: nat)
    requires Tiles(runs, blocks)
    ensures |runs| <= blocks
    decreases |runs|
  {
    if runs != [] {
      FewRuns(runs[..|runs| - 1], runs[|runs| - 1].start);
    }
  }

  lemma {:induction false} ScannedFew(raw: bytes, blockSize: nat, blocks: nat, runs: seq<Run>)
    requires blockSize >= 4 && |raw| == blocks * blockSize && Scanned(raw, blockSize, blocks, runs, blocks)
    ensures |runs| <= blocks && forall i :: 0 <= i < |runs| ==> runs[i].count <= blocks
  {
    hide Tiles, ClassAt;
    FewRuns(runs, blocks);
    assert forall i :: 0 <= i < |runs| ==> Describes(raw, blockSize, blocks, runs[i]);
  }

  /** `container` is the container of runs that tile the raw image and cannot be merged. */
  ghost predicate Sparsified(raw: bytes, blockSize: nat, container: bytes) {
    exists runs: seq<Run>, blocks: nat ::
      && 4 <= blockSize < U32_LIMIT && blocks < U32_LIMIT && |raw| == blocks * blockSize
      && Scanned(raw, blockSize, blocks, runs, blocks) && |runs| < U32_LIMIT
      && AllInside(raw, blockSize, runs) && AllFit(runs, blockSize)
      && container == Container(raw, blockSize, blocks, runs)
  }

  /** The runs of the image, all of whose chunks have a 32-bit size. */
  predicate ChunksFit(raw: bytes, blockSize: nat, blocks: nat)
    requires blockSize >= 4 && |raw| == blocks * blockSize
  {
    AllFit(RunsFrom(raw, blockSize, blocks, 0), blockSize)
  }

  lemma {:induction false} GreedyInside(raw: bytes, blockSize: nat, blocks: nat)
    requires blockSize >= 4 && |raw| == blocks * blockSize
    ensures AllInside(raw, blockSize, RunsFrom(raw, blockSize, blocks, 0))
  {
    var runs := RunsFrom(raw, blockSize, blocks, 0);
    forall i | 0 <= i < |runs|
      ensures RunInside(raw, blockSize, runs[i])
    {
      assert runs[i] in runs;
      MulMonotone(runs[i].start + runs[i].count, blocks, blockSize);
    }
  }

  /** What writing a container comes to, in either way. */
  function Outcome(raw: bytes, blockSize: nat): Result<bytes, WriteError>
    requires (blockSize >= 4 || blockSize == 0) && blockSize < U32_LIMIT
  {
    if blockSize == 0 then Err(BadBlockSize)
    else if |raw| % blockSize != 0 then Err(NotAligned)
    else if |raw| / blockSize >= U32_LIMIT then Err(TooManyBlocks)
    else
      var blocks := |raw| / blockSize;
      WholeBlocks(raw, blockSize);
      GreedyInside(raw, blockSize, blocks);
      if !ChunksFit(raw, blockSize, blocks) then Err(ChunkTooLarge)
      else Ok(Container(raw, blockSize, blocks, RunsFrom(raw, blockSize, blocks, 0)))
  }

  /** Writing succeeds exactly on aligned images of fewer than 2^32 blocks whose chunks all have a 32-bit size. */
  lemma {:induction false} OutcomeOkIff(raw: bytes, blockSize: nat)
    requires 4 <= blockSize < U32_LIMIT
    ensures Outcome(raw, blockSize).Ok?
       <==> exists blocks: nat :: blocks < U32_LIMIT && |raw| == blocks * blockSize && ChunksFit(raw, blockSize, blocks)
  {
    hide ChunksFit, Container;
    if Outcome(raw, blockSize).Ok? {
      WholeBlocks(raw, blockSize);
      assert ChunksFit(raw, blockSize, |raw| / blockSize);
    }
    if blocks: nat :| blocks < U32_LIMIT && |raw| == blocks * blockSize && ChunksFit(raw, blockSize, blocks) {
      DivUnique(|raw|, blocks, 0, blockSize);
    }
  }

  /** Chunks of blocks below 256 KiB always fit. */
  lemma {:induction false} SmallBlocksFit(raw: bytes, blockSize: nat, blocks: nat)
    requires 4 <= blockSize < 0x40000 && |raw| == blocks * blockSize && blocks < U32_LIMIT
    ensures ChunksFit(raw, blockSize, blocks)
  {
    hide ClassAt, RunStop;
    AllRunsCapped(raw, blockSize, blocks, 0);
    var runs := RunsFrom(raw, blockSize, blocks, 0);
    forall i | 0 <= i < |runs|
      ensures ChunkFits(runs[i], blockSize)
    {
      assert runs[i] in runs;
      if runs[i].content.Other? {
        MulMonotone(runs[i].count, MAX_RAW_RUN, blockSize);
      }
    }
  }

  lemma {:induction false} AllRunsCapped(raw: bytes, blockSize: nat, blocks: nat, index: nat)
    requires 4 <= blockSize && |raw| == blocks * blockSize && index <= blocks
    ensures forall r :: r in RunsFrom(raw, blockSize, blocks, index) ==> r.content.Other? ==> r.count <= MAX_RAW_RUN
    decreases blocks - index
  {
    hide ClassAt, RunStop;
    if index < blocks {
      StopCapped(raw, blockSize, blocks, index, index + 1);
      AllRunsCapped(raw, blockSize, blocks, RunStop(raw, blockSize, blocks, index, index + 1));
    }
  }

  lemma {:induction false} StopCapped(raw: bytes, blockSize: nat, blocks: nat, start: nat, end: nat)
    requires 4 <= blockSize && |raw| == blocks * blockSize && start < end <= blocks && end - start <= MAX_RAW_RUN
    ensures ClassAt(raw, blockSize, blocks, start).Other? ==> RunStop(raw, blockSize, blocks, start, end) - start <= MAX_RAW_RUN
    decreases blocks - end
  {
    hide ClassAt;
    if end < blocks && end - start < MAX_RAW_RUN {
      StopCapped(raw, blockSize, blocks, start, end + 1);
    }
  }

  /** An image has one container at most. */
  lemma {:induction false} SparsifiedIsOutcome(raw: bytes, blockSize: nat, container: bytes)
    requires 4 <= blockSize < U32_LIMIT && Sparsified(raw, blockSize, container)
    ensures Outcome(raw, blockSize) == Ok(container)
  {
    var runs: seq<Run>, blocks: nat :|
      && 4 <= blockSize < U32_LIMIT && blocks < U32_LIMIT && |raw| == blocks * blockSize
      && Scanned(raw, blockSize, blocks, runs, blocks) && |runs| < U32_LIMIT
      && AllInside(raw, blockSize, runs) && AllFit(runs, blockSize)
      && container == Container(raw, blockSize, blocks, runs);
    hide Scanned, AllInside, AllFit, Container, RunsFrom;
    AllGreedy(raw, blockSize, blocks, runs);
    DivUnique(|raw|, blocks, 0, blockSize);
  }

  /** `sparsify_file_to_stdout`: the header first, with the counts of the scan. */
  method SparsifyToStream(raw: bytes, blockSize: nat) returns (r: Result<bytes, WriteError>)
    requires (blockSize >= 4 || blockSize == 0) && blockSize < U32_LIMIT
    ensures r == Outcome(raw, blockSize)
    ensures r.Ok? ==> Sparsified(raw, blockSize, r.value)
  {
    hide RunsFrom, Scanned, AllInside, AllFit, HeaderBytes, Chunks;
    var scan := ScanRuns(raw, blockSize);
    if scan.Err? {
      return Err(scan.error);
    }
    var (runs, blocks) := scan.value;
    ScannedInside(raw, blockSize, blocks, runs);
    ScannedFew(raw, blockSize, blocks, runs);
    DivUnique(|raw|, blocks, 0, blockSize);
    var out := new File([]);
    Append(out, HeaderBytes(blockSize, blocks, |runs|));
    assert [] + HeaderBytes(blockSize, blocks, |runs|) == HeaderBytes(blockSize, blocks, |runs|);
    var emitted := EmitRuns(raw, blockSize, runs, out);
    if emitted.Err? {
      return Err(emitted.error);
    }
    assert out.content == Container(raw, blockSize, blocks, runs);
    return Ok(out.content);
  }

  /** `sparsify_file_to_seekable`: a placeholder header, patched after the scan. */
  method SparsifyToSeekable(raw: bytes, blockSize: nat) returns (r: Result<bytes, WriteError>)
    requires (blockSize >= 4 || blockSize == 0) && blockSize < U32_LIMIT
    ensures r == Outcome(raw, blockSize)
    ensures r.Ok? ==> Sparsified(raw, blockSize, r.value)
  {
    hide RunsFrom, Scanned, AllInside, AllFit, HeaderBytes, Chunks, Overwrite;
    var out := new File([]);
    var placeholder := HeaderBytes(blockSize, 0, 0);
    Append(out, placeholder);
    var scan := ScanRuns(raw, blockSize);
    if scan.Err? {
      return Err(scan.error);
    }
    var (runs, blocks) := scan.value;
    ScannedInside(raw, blockSize, blocks, runs);
    ScannedFew(raw, blockSize, blocks, runs);
    DivUnique(|raw|, blocks, 0, blockSize);
    var emitted := EmitRuns(raw, blockSize, runs, out);
    if emitted.Err? {
      return Err(emitted.error);
    }
    ghost var body := out.content[FILE_HEADER..];
    PatchHeader(placeholder, HeaderBytes(blockSize, blocks, |runs|), Chunks(raw, blockSize, runs, |runs|));
    assert [] + placeholder == placeholder;
    out.WriteAt(0, HeaderBytes(blockSize, blocks, |runs|));
    assert out.content == Container(raw, blockSize, blocks, runs);
    return Ok(out.content);
  }

  lemma {:induction false} PatchHeader(placeholder: bytes, header: bytes, body: bytes)
    requires |placeholder| == |header|
    ensures Overwrite(placeholder + body, 0, header) == header + body
  {
  }
}
