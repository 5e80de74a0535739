/**
 The EROFS-to-ext4 adapter: a block reader that resolves a compressed file's segments once, keeps a forward-only segment
 index and caches the last decoded extent. What a request gets depends on the requests before it.
 */
module BlockSource {
  import opened Core
  import opened CompactFormat
  import opened Buffers
  import opened CompactReader

  /** Where segment `k` of a tiling list starts; the end of the file behind the last one. */
  function Frontier(segs: seq<Segment>, k: nat): nat
    requires k <= |segs|
  {
    if k < |segs| then segs[k].start else if segs == [] then 0 else segs[|segs| - 1].end
  }

  /** What a request is answered once everything below `frontier` has been passed: zeros there. */
  function Served(content: bytes, frontier: nat, offset: nat, n: nat): (r: bytes)
    ensures |r| == n
    ensures forall k :: 0 <= k < n ==>
              r[k] == if frontier <= offset + k < |content| then content[offset + k] else 0
  {
    seq(n, k requires 0 <= k < n => if frontier <= offset + k < |content| then content[offset + k] else 0)
  }

  /** The bytes the request asks for, zero past the end of the file. */
  function Wanted(content: bytes, offset: nat, n: nat): bytes {
    Served(content, 0, offset, n)
  }

  /** A request is answered correctly exactly when what it lost below the frontier was zero anyway. */
  lemma {:induction false} ServedIsWantedIff(content: bytes, frontier: nat, offset: nat, n: nat)
    ensures Served(content, frontier, offset, n) == Wanted(content, offset, n)
       <==> (forall p: nat :: offset <= p < Min(Min(frontier, |content|), offset + n) ==> content[p] == 0)
  {
    var served, wanted := Served(content, frontier, offset, n), Wanted(content, offset, n);
    if served == wanted {
      forall p: nat | offset <= p < Min(Min(frontier, |content|), offset + n)
        ensures content[p] == 0
      {
        assert served[p - offset] == wanted[p - offset];
      }
    } else {
      var k :| 0 <= k < n && served[k] != wanted[k];
      assert content[offset + k] != 0;
    }
  }

  lemma {:induction false} FileFromSuffix(
    image: bytes, blockSize: nat, inflate: Inflate, segs: seq<Segment>, k: nat, content: bytes)
    requires k <= |segs| && FileFrom(image, blockSize, inflate, segs, 0, content)
    ensures FileFrom(image, blockSize, inflate, segs[k..], Frontier(segs, k), content)
    ensures Frontier(segs, k) <= |content|
    decreases k
  {
    hide SegmentBytes;
    if k == 0 {
      assert segs[0..] == segs;
      FileFromBound(image, blockSize, inflate, segs, 0, content);
    } else {
      FileFromSuffix(image, blockSize, inflate, segs, k - 1, content);
      FileFromHead(image, blockSize, inflate, segs, k - 1, Frontier(segs, k - 1), content);
      if k < |segs| {
        assert segs[k..][0] == segs[k];
      }
    }
  }

  lemma {:induction false} ServedGrows(content: bytes, frontier: nat, offset: nat, done: nat, part: bytes)
    requires forall k :: 0 <= k < |part| ==>
               part[k] == if frontier <= offset + done + k < |content| then content[offset + done + k] else 0
    ensures Served(content, frontier, offset, done) + part == Served(content, frontier, offset, done + |part|)
  {
  }

  lemma {:induction false} CopiedPrefix(before: bytes, done: nat, part: bytes, after: bytes)
    requires done + |part| <= |before| && after == before[..done] + part + before[done + |part|..]
    ensures after[..done + |part|] == before[..done] + part
  {
  }

  lemma {:induction false} FirstFrontier(image: bytes, blockSize: nat, inflate: Inflate, segs: seq<Segment>, content: bytes)
    requires FileIs(image, blockSize, inflate, segs, content)
    ensures Frontier(segs, 0) == 0
  {
    hide SegmentBytes;
  }

  /** Skipping segments that end by `pos` moves the frontier up to `pos` at most. */
  lemma {:induction false} FrontierAdvances(
    image: bytes, blockSize: nat, inflate: Inflate, segs: seq<Segment>, content: bytes, from: nat, last: nat, pos: nat)
    requires FileIs(image, blockSize, inflate, segs, content)
    requires from <= last <= |segs| && forall k :: from <= k < last ==> segs[k].end <= pos
    ensures Frontier(segs, from) <= Frontier(segs, last) <= Max(Frontier(segs, from), pos)
    ensures Frontier(segs, last) <= |content| && (last == |segs| ==> Frontier(segs, last) == |content|)
    ensures last < |segs| ==>
              && segs[last].start == Frontier(segs, last) < segs[last].end <= |content|
              && SegmentBytes(image, blockSize, inflate, segs[last]) == Some(content[segs[last].start..segs[last].end])
    decreases last
  {
    hide SegmentBytes;
    FileFromSuffix(image, blockSize, inflate, segs, last, content);
    if last == |segs| {
      assert segs[last..] == [];
    } else {
      FileFromHead(image, blockSize, inflate, segs, last, Frontier(segs, last), content);
    }
    if from < last {
      FrontierAdvances(image, blockSize, inflate, segs, content, from, last - 1, pos);
      FileFromSuffix(image, blockSize, inflate, segs, last - 1, content);
      FileFromHead(image, blockSize, inflate, segs, last - 1, Frontier(segs, last - 1), content);
      if last < |segs| {
        assert segs[last..][0] == segs[last];
      }
    }
  }

  // ---- How far requests move the segment index -------------------------------------------------------------

  /** The first segment from `from` on that reaches `until`: where the index stands after a request that ends there. */
  function StopIndex(segs: seq<Segment>, from: nat, until: nat): (k: nat)
    requires from <= |segs|
    ensures from <= k <= |segs|
    ensures forall i :: from <= i < k ==> segs[i].end < until
    ensures k < |segs| ==> segs[k].end >= until
    decreases |segs| - from
  {
    if from < |segs| && segs[from].end < until then StopIndex(segs, from + 1, until) else from
  }

  lemma {:induction false} StopsHere(segs: seq<Segment>, from: nat, until: nat, k: nat)
    requires from <= k <= |segs| && forall i :: from <= i < k ==> segs[i].end < until
    requires k < |segs| ==> segs[k].end >= until
    ensures StopIndex(segs, from, until) == k
    decreases k - from
  {
    if from < k {
      StopsHere(segs, from + 1, until, k);
    }
  }

  /** Two requests move the index as far as the one that reaches further. */
  lemma {:induction false} StopTwice(segs: seq<Segment>, from: nat, a: nat, b: nat)
    requires from <= |segs|
    ensures StopIndex(segs, StopIndex(segs, from, a), b) == StopIndex(segs, from, Max(a, b))
  {
    var k := StopIndex(segs, from, a);
    StopsHere(segs, from, Max(a, b), StopIndex(segs, k, b));
  }

  /** Where the index stands when `done` bytes of a request at `offset` are served. */
  predicate StandsAt(segs: seq<Segment>, from: nat, offset: nat, done: nat, k: nat) {
    from <= |segs| && k == if done == 0 then from else StopIndex(segs, from, offset + done)
  }

  lemma {:induction false} StandsAfter(segs: seq<Segment>, from: nat, offset: nat, done: nat, at: nat, more: nat, k: nat)
    requires StandsAt(segs, from, offset, done, at) && more > 0
    requires at <= k <= |segs| && forall i :: at <= i < k ==> segs[i].end <= offset + done
    requires k == |segs| || segs[k].end >= offset + done + more
    ensures StandsAt(segs, from, offset, done + more, k)
  {
    hide StopIndex;
    StopsHere(segs, at, offset + done + more, k);
    if done > 0 {
      StopTwice(segs, from, offset + done, offset + done + more);
    }
  }

  lemma {:induction false} StopAtNothing(segs: seq<Segment>)
    ensures StopIndex(segs, 0, 0) == 0
  {
  }

  /** The start of the extent in which a request that ends at `reached` ends: everything in front of it is gone. */
  function ExtentStart(segs: seq<Segment>, reached: nat): nat {
    Frontier(segs, StopIndex(segs, 0, reached))
  }

  lemma {:induction false} ExtentStartBound(image: bytes, blockSize: nat, inflate: Inflate, segs: seq<Segment>, content: bytes, reached: nat)
    requires FileIs(image, blockSize, inflate, segs, content)
    ensures ExtentStart(segs, reached) <= Min(reached, |content|)
  {
    hide SegmentBytes, FileFrom, Frontier;
    FirstFrontier(image, blockSize, inflate, segs, content);
    FrontierAdvances(image, blockSize, inflate, segs, content, 0, StopIndex(segs, 0, reached), reached);
  }

  function LastExtentStart(segs: seq<Segment>): nat {
    if segs == [] then 0 else segs[|segs| - 1].start
  }

  /** A request up to the end of the file leaves the index on the last extent. */
  lemma {:induction false} WholeFileReached(image: bytes, blockSize: nat, inflate: Inflate, segs: seq<Segment>, content: bytes)
    requires FileIs(image, blockSize, inflate, segs, content)
    ensures ExtentStart(segs, |content|) == LastExtentStart(segs) <= |content|
  {
    hide SegmentBytes;
    if segs != [] {
      var k := |segs| - 1;
      forall i | 0 <= i <= k
        ensures i < k ==> segs[i].end < |content|
        ensures i == k ==> segs[i].start < segs[i].end == |content|
      {
        FileFromSuffix(image, blockSize, inflate, segs, i, content);
        FileFromHead(image, blockSize, inflate, segs, i, Frontier(segs, i), content);
        if i < k {
          FileFromHead(image, blockSize, inflate, segs, i + 1, segs[i].end, content);
        } else {
          assert segs[i + 1..] == [];
        }
      }
      StopsHere(segs, 0, |content|, k);
    }
  }

  // ---- A run of requests -----------------------------------------------------------------------------------

  /** Where a node's content comes from. */
  datatype SourceNode = InMemory(data: bytes) | Plain(rawBlock: nat) | Compressed(nid: nat) | Unsupported

  datatype Request = Request(node: SourceNode, offset: nat, n: nat)

  /** The compressed file the source has open, and the furthest byte asked for since it was opened. */
  datatype Progress = Progress(current: Option<nat>, reached: nat)

  function ReachedIn(p: Progress, nid: nat): nat {
    if p.current == Some(nid) then p.reached else 0
  }

  function After(p: Progress, q: Request): Progress {
    match q.node
    case Compressed(nid) =>
      Progress(Some(nid), if q.n > 0 then Max(ReachedIn(p, nid), q.offset + q.n) else ReachedIn(p, nid))
    case _ => p
  }

  /** Progress after the first `i` requests. */
  function ProgressAt(start: Progress, requests: seq<Request>, i: nat): Progress
    requires i <= |requests|
  {
    if i == 0 then start else After(ProgressAt(start, requests, i - 1), requests[i - 1])
  }

  /** A compressed file: its segments and the bytes they stand for. */
  datatype SourceFile = SourceFile(segs: seq<Segment>, content: bytes)

  /** The node's bytes. */
  function ContentOf(image: bytes, blockSize: nat, files: map<nat, SourceFile>, node: SourceNode): bytes
  {
    match node
    case InMemory(data) => data
    case Plain(rawBlock) => if rawBlock * blockSize <= |image| then image[rawBlock * blockSize..] else []
    case Compressed(nid) => if nid in files then files[nid].content else []
    case Unsupported => []
  }

  /** How much of the node's front is gone when the request is made. */
  function LostBefore(files: map<nat, SourceFile>, p: Progress, node: SourceNode): nat
  {
    match node
    case Compressed(nid) => if nid in files then ExtentStart(files[nid].segs, ReachedIn(p, nid)) else 0
    case _ => 0
  }

  /** The bytes a request gets. */
  function Answer(image: bytes, blockSize: nat, files: map<nat, SourceFile>, p: Progress, q: Request): bytes
  {
    Served(ContentOf(image, blockSize, files, q.node), LostBefore(files, p, q.node), q.offset, q.n)
  }

  /** The bytes a request should get. */
  function Asked(image: bytes, blockSize: nat, files: map<nat, SourceFile>, q: Request): bytes
  {
    Wanted(ContentOf(image, blockSize, files, q.node), q.offset, q.n)
  }

  /** Nothing but zeros of what the request asks for lies in front of the extent that is still open. */
  predicate LosesOnlyZeros(image: bytes, blockSize: nat, files: map<nat, SourceFile>, p: Progress, q: Request)
  {
    var content := ContentOf(image, blockSize, files, q.node);
    forall at: nat :: q.offset <= at < Min(Min(LostBefore(files, p, q.node), |content|), q.offset + q.n) ==> content[at] == 0
  }

  /** A request gets what it asks for exactly when it loses nothing but zeros. */
  lemma {:induction false} AnswerIsAskedIff(image: bytes, blockSize: nat, files: map<nat, SourceFile>, p: Progress, q: Request)
    ensures Answer(image, blockSize, files, p, q) == Asked(image, blockSize, files, q)
       <==> LosesOnlyZeros(image, blockSize, files, p, q)
  {
    ServedIsWantedIff(ContentOf(image, blockSize, files, q.node), LostBefore(files, p, q.node), q.offset, q.n);
  }

  /** Requests that start where or behind everything asked for so far from their file, or in the extent it ended in, are safe. */
  lemma {:induction false} ForwardIsSafe(
    image: bytes, blockSize: nat, inflate: Inflate, files: map<nat, SourceFile>, p: Progress, q: Request)
    requires q.node.Compressed? ==>
               && q.node.nid in files
               && FileIs(image, blockSize, inflate, files[q.node.nid].segs, files[q.node.nid].content)
               && (ReachedIn(p, q.node.nid) <= q.offset || ExtentStart(files[q.node.nid].segs, ReachedIn(p, q.node.nid)) <= q.offset)
    ensures Answer(image, blockSize, files, p, q) == Asked(image, blockSize, files, q)
  {
    hide FileFrom, ExtentStart;
    if q.node.Compressed? {
      var file := files[q.node.nid];
      ExtentStartBound(image, blockSize, inflate, file.segs, file.content, ReachedIn(p, q.node.nid));
    }
    AnswerIsAskedIff(image, blockSize, files, p, q);
  }

  /** The index and segments of an inode, as `SwitchTo` finds them. */
  ghost predicate ResolvesTo(image: bytes, blockSize: nat, inode: CompactInode, segs: seq<Segment>)
    requires blockSize > 0
  {
    var entries := Entries(image, LowUnit(blockSize), inode.index, DivCeil(inode.size, blockSize));
    entries.Ok? && Segments(entries.value, inode, blockSize) == Ok(segs)
  }

  lemma {:induction false} PlainIsWanted(image: bytes, base: nat, offset: nat, part: bytes)
    requires Slice(image, base + offset, |part|) == Some(part)
    ensures base <= |image| && Wanted(image[base..], offset, |part|) == part
  {
    var wanted := Wanted(image[base..], offset, |part|);
    forall k | 0 <= k < |part|
      ensures wanted[k] == part[k]
    {
      assert part[k] == image[base + offset + k];
    }
  }

  // ---- What goes wrong -------------------------------------------------------------------------------------

  /**
   Reading a whole file a second time through the same source, as a shared rebuild retried after growth does with the
   files it had placed, is right exactly when everything before its last extent is zero.
   */
  lemma {:induction false} SecondPassIff(
    image: bytes, blockSize: nat, inflate: Inflate, files: map<nat, SourceFile>, nid: nat, p: Progress)
    requires nid in files && FileIs(image, blockSize, inflate, files[nid].segs, files[nid].content)
    requires ReachedIn(p, nid) == |files[nid].content|
    ensures var content := files[nid].content;
            Answer(image, blockSize, files, p, Request(Compressed(nid), 0, |content|)) == content
            <==> ZeroBelow(content, LastExtentStart(files[nid].segs))
  {
    hide FileFrom, ExtentStart, Served;
    var file := files[nid];
    WholeFileReached(image, blockSize, inflate, file.segs, file.content);
    WholeIsWanted(file.content);
    AnswerIsAskedIff(image, blockSize, files, p, Request(Compressed(nid), 0, |file.content|));
  }

  /** A file read in full by a source that has not opened it, and once more. */
  lemma {:induction false} TwoPasses(
    image: bytes, blockSize: nat, inflate: Inflate, files: map<nat, SourceFile>, nid: nat, whole: Request)
    requires nid in files && FileIs(image, blockSize, inflate, files[nid].segs, files[nid].content)
    requires whole == Request(Compressed(nid), 0, |files[nid].content|)
    ensures Answer(image, blockSize, files, ProgressAt(Progress(None, 0), [whole, whole], 0), whole) == files[nid].content
    ensures Answer(image, blockSize, files, ProgressAt(Progress(None, 0), [whole, whole], 1), whole) == files[nid].content
       <==> ZeroBelow(files[nid].content, LastExtentStart(files[nid].segs))
  {
    hide FileFrom, ExtentStart, Served, ZeroBelow;
    var start, content := Progress(None, 0), files[nid].content;
    assert ProgressAt(start, [whole, whole], 0) == start;
    assert ProgressAt(start, [whole, whole], 1) == After(start, whole) == Progress(Some(nid), |content|);
    ExtentStartBound(image, blockSize, inflate, files[nid].segs, content, 0);
    WholeIsWanted(content);
    SecondPassIff(image, blockSize, inflate, files, nid, Progress(Some(nid), |content|));
  }

  predicate ZeroBelow(content: bytes, n: nat) {
    forall at :: 0 <= at < n && at < |content| ==> content[at] == 0
  }

  lemma {:induction false} WholeIsWanted(content: bytes)
    ensures Wanted(content, 0, |content|) == content
  {
  }

  const BLOCK: nat := 4096
  const FILE: nat := 8192

  /** An image of three 4 KiB blocks: an index of two PLAIN entries, then two blocks of ones. */
  const TWO_PLAIN: bytes := Zeros(BLOCK) + Ones(FILE)

  const TWO_INODE := CompactInode(FILE, 0, 0)

  const TWO_SEGMENTS := [Segment(PLAIN, 0, BLOCK, 1, 0, 0), Segment(PLAIN, BLOCK, FILE, 2, 0, 0)]

  function Ones(n: nat): (b: bytes)
    ensures |b| == n
  {
    seq(n, _ => 1)
  }

  function TwoFiles(): map<nat, SourceFile> {
    map[0 := SourceFile(TWO_SEGMENTS, Ones(FILE))]
  }

  lemma {:induction false} TwoEntries()
    ensures Entries(TWO_PLAIN, LowUnit(BLOCK), 0, 2) == Ok([CompactEntry(0, PLAIN, 0, 1), CompactEntry(1, PLAIN, 0, 2)])
  {
    var first, second := CompactEntry(0, PLAIN, 0, 1), CompactEntry(1, PLAIN, 0, 2);
    assert LowUnit(BLOCK) == 0x1000 && [first] + [second] == [first, second];
    assert TWO_PLAIN[0..4] == [0, 0, 0, 0] && TWO_PLAIN[2..6] == [0, 0, 0, 0] && TWO_PLAIN[4..8] == [0, 0, 0, 0];
    assert EntryAt(TWO_PLAIN, 0x1000, 0, [], 0) == Ok(first);
    assert EntryAt(TWO_PLAIN, 0x1000, 0, [first], 1) == Ok(second) by {
      assert WalkBack([first], 0, 1, 1) == WalkBack([first], 0, 0, 2);
    }
    hide EntryAt;
    EntriesStart(TWO_PLAIN, 0x1000, 0);
    EntriesStep(TWO_PLAIN, 0x1000, 0, 0, []);
    assert [] + [first] == [first];
    EntriesStep(TWO_PLAIN, 0x1000, 0, 1, [first]);
  }

  lemma {:induction false} TwoBlocks(inflate: Inflate)
    ensures SegmentBytes(TWO_PLAIN, BLOCK, inflate, TWO_SEGMENTS[0]) == Some(Ones(FILE)[..BLOCK])
    ensures SegmentBytes(TWO_PLAIN, BLOCK, inflate, TWO_SEGMENTS[1]) == Some(Ones(FILE)[BLOCK..])
  {
    assert TWO_PLAIN[BLOCK..BLOCK + BLOCK] == Ones(FILE)[..BLOCK] && TWO_PLAIN[FILE..FILE + BLOCK] == Ones(FILE)[BLOCK..];
  }

  lemma {:induction false} TwoPlainExtents(inflate: Inflate)
    ensures ResolvesTo(TWO_PLAIN, BLOCK, TWO_INODE, TWO_SEGMENTS) && FileIs(TWO_PLAIN, BLOCK, inflate, TWO_SEGMENTS, Ones(FILE))
  {
    TwoEntries();
    var entries := [CompactEntry(0, PLAIN, 0, 1), CompactEntry(1, PLAIN, 0, 2)];
    var a, b := TWO_SEGMENTS[0], TWO_SEGMENTS[1];
    hide Entries, SegmentBytes, FileFrom, FileIs;
    assert DivCeil(FILE, BLOCK) == 2;
    assert NextSegment(entries, 0, None, TWO_INODE, BLOCK) == Ok(([a], Some(2)));
    assert NextSegment(entries, 1, Some(2), TWO_INODE, BLOCK) == Ok(([b], Some(3)));
    assert SegmentsFrom(entries, 2, Some(3), TWO_INODE, BLOCK) == Ok([]);
    assert [b] + [] == [b];
    assert SegmentsFrom(entries, 1, Some(2), TWO_INODE, BLOCK) == Ok([b]);
    assert [a] + [b] == TWO_SEGMENTS;
    TwoBlocks(inflate);
    PairIsFile(TWO_PLAIN, BLOCK, inflate, a, b, Ones(FILE));
  }

  lemma {:induction false} PairIsFile(image: bytes, blockSize: nat, inflate: Inflate, a: Segment, b: Segment, content: bytes)
    requires a.start == 0 < a.end == b.start < b.end == |content|
    requires SegmentBytes(image, blockSize, inflate, a) == Some(content[..a.end])
    requires SegmentBytes(image, blockSize, inflate, b) == Some(content[a.end..])
    ensures FileIs(image, blockSize, inflate, [a, b], content)
  {
    hide SegmentBytes;
    assert [a, b][1..] == [b] && [b][1..] == [];
    assert content[0..a.end] == content[..a.end] && content[b.start..b.end] == content[a.end..];
    assert FileFrom(image, blockSize, inflate, [], b.end, content);
    assert FileFrom(image, blockSize, inflate, [b], b.start, content);
  }

  /** Offsets that do not decrease are not enough: after a request into the second extent, the first one is gone. */
  lemma {:induction false} OverlapLosesBytes(inflate: Inflate)
    ensures ResolvesTo(TWO_PLAIN, BLOCK, TWO_INODE, TWO_SEGMENTS) && FileIs(TWO_PLAIN, BLOCK, inflate, TWO_SEGMENTS, Ones(FILE))
    ensures var first, second := Request(Compressed(0), 0, FILE), Request(Compressed(0), 2, 2);
            && first.offset <= second.offset
            && Answer(TWO_PLAIN, BLOCK, TwoFiles(), After(Progress(None, 0), first), second) == [0, 0]
            && Asked(TWO_PLAIN, BLOCK, TwoFiles(), second) == [1, 1]
  {
    TwoPlainExtents(inflate);
    hide FileFrom, Entries, SegmentsFrom;
    WholeFileReached(TWO_PLAIN, BLOCK, inflate, TWO_SEGMENTS, Ones(FILE));
  }

  /** Reading this file twice through one source loses its first extent. */
  lemma {:induction false} SecondPassLosesBytes(inflate: Inflate)
    ensures ResolvesTo(TWO_PLAIN, BLOCK, TWO_INODE, TWO_SEGMENTS) && FileIs(TWO_PLAIN, BLOCK, inflate, TWO_SEGMENTS, Ones(FILE))
    ensures var whole := Request(Compressed(0), 0, FILE);
            Answer(TWO_PLAIN, BLOCK, TwoFiles(), After(Progress(None, 0), whole), whole) != Ones(FILE)
  {
    TwoPlainExtents(inflate);
    hide FileFrom, Entries, SegmentsFrom;
    SecondPassIff(TWO_PLAIN, BLOCK, inflate, TwoFiles(), 0, After(Progress(None, 0), Request(Compressed(0), 0, FILE)));
    assert Ones(FILE)[0] == 1;
  }

  class ErofsBlockSource {
    const image: bytes
    const blockSize: nat
    const inflate: Inflate
    const inodes: map<nat, CompactInode>

    var fileNid: Option<nat>
    var segments: seq<Segment>
    var segIdx: nat
    var decodedIdx: Option<nat>
    var decoded: bytes

    constructor (image: bytes, blockSize: nat, inflate: Inflate, inodes: map<nat, CompactInode>)
      requires blockSize > 0
      ensures Valid() && fileNid == None
      ensures this.image == image && this.blockSize == blockSize && this.inflate == inflate && this.inodes == inodes
    {
      this.image, this.blockSize, this.inflate, this.inodes := image, blockSize, inflate, inodes;
      fileNid, segments, segIdx, decodedIdx, decoded := None, [], 0, None, [];
    }

    /** The cached segments are those of the cached file, and the decoded bytes are the cached segment's. */
    ghost predicate Valid()
      reads this
    {
      && blockSize > 0
      && segIdx <= |segments|
      && (forall s :: s in segments ==> s.start < s.end)
      && (fileNid.Some? ==> fileNid.value in inodes && Resolves(fileNid.value, segments))
      && (decodedIdx.Some? ==> decodedIdx.value < |segments| && CachedAt(decodedIdx.value))
    }

    ghost predicate Resolves(nid: nat, segs: seq<Segment>)
      requires blockSize > 0 && nid in inodes
    {
      ResolvesTo(image, blockSize, inodes[nid], segs)
    }

    ghost predicate CachedAt(k: nat)
      reads this
      requires k < |segments| && forall s :: s in segments ==> s.start < s.end
    {
      SegmentBytes(image, blockSize, inflate, segments[k]) == Some(decoded)
    }

    /** Everything of file `nid` below this position has been passed and is gone. */
    ghost function FrontierOf(nid: nat): nat
      reads this
      requires Valid()
    {
      if fileNid == Some(nid) then Frontier(segments, segIdx) else 0
    }

    /** File switch: resolve the segments of another file and drop the caches. */
    method SwitchTo(nid: nat) returns (r: Result<(), ReadError>)
      requires Valid() && nid in inodes
      modifies this
      ensures Valid()
      ensures r.Ok? ==> fileNid == Some(nid)
      ensures (exists segs :: Resolves(nid, segs)) ==> r.Ok?
      ensures r.Ok? ==> if old(fileNid) == Some(nid) then segIdx == old(segIdx) && segments == old(segments) else segIdx == 0
    {
      hide Entries, SegmentsFrom, LowUnit, DivCeil, SegmentBytes;
      if fileNid != Some(nid) {
        var inode := inodes[nid];
        var entries := CompactEntries(image, blockSize, inode.index, DivCeil(inode.size, blockSize));
        if entries.Err? {
          return Err(entries.error);
        }
        var resolved := ResolveSegments(entries.value, inode, blockSize);
        if resolved.Err? {
          return Err(resolved.error);
        }
        segments := resolved.value;
        fileNid := Some(nid);
        segIdx := 0;
        decodedIdx := None;
        decoded := [];
      }
      return Ok(());
    }
 
    /** Skips the segments that end at or before `pos`. */
    method AdvanceTo(pos: nat)
      requires Valid()
      modifies this`segIdx
      ensures Valid() && old(segIdx) <= segIdx
      ensures segIdx < |segments| ==> segments[segIdx].end > pos
      ensures forall k :: old(segIdx) <= k < segIdx ==> segments[k].end <= pos
    {
      while segIdx < |segments| && segments[segIdx].end <= pos
        invariant Valid() && old(segIdx) <= segIdx
        invariant forall k :: old(segIdx) <= k < segIdx ==> segments[k].end <= pos
        decreases |segments| - segIdx
      {
        segIdx := segIdx + 1;
      }
    }

    /** Fetches `n` bytes of the current segment from `pos` on, decoding it unless it is the cached one. */
    method FetchPart(pos: nat, n: nat) returns (r: Result<bytes, ReadError>)
      requires Valid() && segIdx < |segments|
      requires segments[segIdx].start <= pos && pos + n <= segments[segIdx].end
      modifies this`decodedIdx, this`decoded
      ensures Valid()
      ensures r.Ok? ==> |r.value| == n
      ensures var s := segments[segIdx];
              var whole := SegmentBytes(image, blockSize, inflate, s);
              whole.Some? ==> r == Ok(whole.value[pos - s.start..pos + n - s.start])
    {
      hide Entries, SegmentsFrom, LowUnit, DivCeil;
      var seg := segments[segIdx];
      if seg.kind == PLAIN {
        r := ReadOverlap(image, blockSize, inflate, seg, pos, pos + n);
        return;
      }
      hide SegmentBytes;
      if decodedIdx != Some(segIdx) {
        var buffer := new byte[seg.end - seg.start](_ => 0);
        var got := ReadSegment(image, blockSize, inflate, seg, buffer);
        decodedIdx := None;
        if got.Err? {
          return Err(got.error);
        }
        if got.value != buffer.Length {
          return Err(CorruptExtent);
        }
        ghost var whole := SegmentBytes(image, blockSize, inflate, seg);
        assert whole.Some? ==> buffer[..] == buffer[..got.value] == whole.value[..got.value] == whole.value;
        decoded := buffer[..];
        decodedIdx := Some(segIdx);
      }
      return Ok(decoded[pos - seg.start..pos + n - seg.start]);
    }
 
    /**
     One step of a request at `pos`: pass the segments that end there, then take what the next one has, or
     zeros where there is none.
     */
    method ServePart(pos: nat, room: nat, ghost frontier: nat, ghost segs: seq<Segment>, ghost content: bytes)
      returns (r: Result<bytes, ReadError>)
      requires Valid() && room > 0
      modifies this`segIdx, this`decodedIdx, this`decoded
      ensures Valid()
      ensures r.Ok? ==> 0 < |r.value| <= room
      ensures old(
                && segments == segs && FileIs(image, blockSize, inflate, segs, content)
                && frontier <= Frontier(segs, segIdx) <= Max(frontier, pos)) ==>
                && r.Ok?
                && frontier <= Frontier(segs, segIdx) <= Max(frontier, pos)
                && (forall k :: 0 <= k < |r.value| ==>
                      r.value[k] == if frontier <= pos + k < |content| then content[pos + k] else 0)
                && old(segIdx) <= segIdx && (forall k :: old(segIdx) <= k < segIdx ==> segs[k].end <= pos)
                && (segIdx == |segs| || segs[segIdx].end >= pos + |r.value|)
    {
      hide Entries, SegmentsFrom, LowUnit, DivCeil, SegmentBytes, FileFrom, Frontier;
      ghost var good := segments == segs && FileIs(image, blockSize, inflate, segs, content)
        && frontier <= Frontier(segs, segIdx) <= Max(frontier, pos);
      ghost var from := segIdx;
      AdvanceTo(pos);
      if good {
        FrontierAdvances(image, blockSize, inflate, segs, content, from, segIdx, pos);
      }
      if segIdx == |segments| {
        return Ok(Zeros(room));
      }
      if segments[segIdx].start > pos {
        return Ok(Zeros(Min(segments[segIdx].start - pos, room)));
      }
      r := FetchPart(pos, Min(segments[segIdx].end - pos, room));
    }

    /**
     `read_node_block` on a compressed file. The segment index never moves back, so what is served is the
     file except for the part below the frontier of the earlier requests, which reads as zeros.
     */
    method ReadCompressed(nid: nat, offset: nat, buffer: array<byte>, ghost segs: seq<Segment>, ghost content: bytes)
      returns (r: Result<(), ReadError>)
      requires Valid() && nid in inodes
      modifies this, buffer
      ensures Valid()
      ensures Resolves(nid, segs) && FileIs(image, blockSize, inflate, segs, content) ==>
                && r.Ok? && fileNid == Some(nid) && segments == segs
                && buffer[..] == Served(content, old(FrontierOf(nid)), offset, buffer.Length)
                && old(IndexOf(nid)) <= |segs|
                && segIdx == if buffer.Length == 0 then old(IndexOf(nid)) else StopIndex(segs, old(IndexOf(nid)), offset + buffer.Length)
    {
      hide Entries, SegmentsFrom, LowUnit, DivCeil, SegmentBytes, FileFrom, Served, Frontier, StopIndex;
      ghost var good := Resolves(nid, segs) && FileIs(image, blockSize, inflate, segs, content);
      ghost var frontier := FrontierOf(nid);
      var switched := SwitchTo(nid);
      if switched.Err? {
        return Err(switched.error);
      }
      if good {
        FirstFrontier(image, blockSize, inflate, segs, content);
      }
      ghost var from := segIdx;
      var done := 0;
      assert good ==> buffer[..0] == Served(content, frontier, offset, 0);
      while done < buffer.Length
        invariant Valid() && fileNid == Some(nid) && 0 <= done <= buffer.Length
        invariant good ==> segments == segs && frontier <= Frontier(segs, segIdx) <= Max(frontier, offset + done)
        invariant good ==> buffer[..done] == Served(content, frontier, offset, done)
        invariant good ==> StandsAt(segs, from, offset, done, segIdx)
      {
        ghost var before, at := buffer[..], segIdx;
        var part := ServePart(offset + done, buffer.Length - done, frontier, segs, content);
        if part.Err? {
          return Err(part.error);
        }
        if good {
          ServedGrows(content, frontier, offset, done, part.value);
          StandsAfter(segs, from, offset, done, at, |part.value|, segIdx);
        }
        CopyInto(buffer, done, part.value);
        CopiedPrefix(before, done, part.value, buffer[..]);
        done := done + |part.value|;
      }
      return Ok(());
    }

    /** The segment index a request on file `nid` starts from. */
    ghost function IndexOf(nid: nat): nat
      reads this
      requires Valid()
    {
      if fileNid == Some(nid) then segIdx else 0
    }

    /** The source stands where requests with this progress leave it. */
    ghost predicate Tracks(p: Progress, files: map<nat, SourceFile>)
      reads this
    {
      && fileNid == p.current
      && (p.current.Some? ==>
            && p.current.value in files && segments == files[p.current.value].segs
            && segIdx == StopIndex(segments, 0, p.reached))
    }

    /** The compressed files are what the index on the image says. */
    ghost predicate Knows(files: map<nat, SourceFile>) {
      blockSize > 0 && forall nid :: nid in files ==>
        nid in inodes && Resolves(nid, files[nid].segs) && FileIs(image, blockSize, inflate, files[nid].segs, files[nid].content)
    }

    /** The request can be answered: its compressed file is known, or its plain bytes are inside the image. */
    ghost predicate Answerable(q: Request, files: map<nat, SourceFile>) {
      match q.node
      case InMemory(_) => true
      case Plain(rawBlock) => rawBlock * blockSize + q.offset + q.n <= |image|
      case Compressed(nid) => nid in files
      case Unsupported => false
    }

    /** A request on a compressed file, seen from the requests before it. */
    method ReadTracked(nid: nat, offset: nat, buffer: array<byte>, ghost p: Progress, ghost files: map<nat, SourceFile>)
      returns (r: Result<(), ReadError>)
      requires Valid() && nid in inodes
      modifies this, buffer
      ensures Valid()
      ensures var q := Request(Compressed(nid), offset, buffer.Length);
              old(Tracks(p, files)) && Knows(files) && nid in files ==>
                r.Ok? && buffer[..] == Answer(image, blockSize, files, p, q) && Tracks(After(p, q), files)
    {
      hide Valid, ResolvesTo, FileFrom, Served, Frontier, StopIndex;
      ghost var known := Tracks(p, files) && Knows(files) && nid in files;
      ghost var file := if known then files[nid] else SourceFile([], []);
      if known {
        StopAtNothing(file.segs);
        StopTwice(file.segs, 0, ReachedIn(p, nid), offset + buffer.Length);
        FirstFrontier(image, blockSize, inflate, file.segs, file.content);
      }
      r := ReadCompressed(nid, offset, buffer, file.segs, file.content);
    }

    /** `read_node_block`: nodes in memory and plain files leave the source as it is. */
    method ReadNodeBlock(node: SourceNode, offset: nat, buffer: array<byte>, ghost p: Progress, ghost files: map<nat, SourceFile>)
      returns (r: Result<(), ReadError>)
      requires Valid() && (node.Compressed? ==> node.nid in inodes)
      modifies this, buffer
      ensures Valid()
      ensures var q := Request(node, offset, buffer.Length);
              old(Tracks(p, files)) && Knows(files) && Answerable(q, files) ==>
                r.Ok? && buffer[..] == Answer(image, blockSize, files, p, q) && Tracks(After(p, q), files)
    {
      hide Valid, Knows, Served, Tracks;
      match node
      case InMemory(data) =>
        CopyInto(buffer, 0, Wanted(data, offset, buffer.Length));
        return Ok(());
      case Plain(rawBlock) =>
        var part := Slice(image, rawBlock * blockSize + offset, buffer.Length);
        if part.None? {
          return Err(PastEnd);
        }
        PlainIsWanted(image, rawBlock * blockSize, offset, part.value);
        CopyInto(buffer, 0, part.value);
        return Ok(());
      case Unsupported =>
        return Err(UnsupportedLayout);
      case Compressed(nid) =>
        r := ReadTracked(nid, offset, buffer, p, files);
    }

    /** A run of requests through one source: each gets the answer its progress allows. */
    method ServeAll(requests: seq<Request>, ghost start: Progress, ghost files: map<nat, SourceFile>)
      returns (r: Result<seq<bytes>, ReadError>)
      requires Valid() && forall q :: q in requests && q.node.Compressed? ==> q.node.nid in inodes
      modifies this
      ensures Valid()
      ensures old(Tracks(start, files)) && Knows(files) && (forall q :: q in requests ==> Answerable(q, files)) ==>
                && r.Ok? && |r.value| == |requests|
                && Tracks(ProgressAt(start, requests, |requests|), files)
                && forall i :: 0 <= i < |requests| ==>
                     && r.value[i] == Answer(image, blockSize, files, ProgressAt(start, requests, i), requests[i])
                     && (r.value[i] == Asked(image, blockSize, files, requests[i])
                         <==> LosesOnlyZeros(image, blockSize, files, ProgressAt(start, requests, i), requests[i]))
    {
      hide Answer, Asked, LosesOnlyZeros, Valid, Tracks, After;
      ghost var good := Tracks(start, files) && Knows(files) && forall q :: q in requests ==> Answerable(q, files);
      var answers: seq<bytes> := [];
      for i := 0 to |requests|
        invariant Valid() && |answers| == i
        invariant good ==> Tracks(ProgressAt(start, requests, i), files)
        invariant good ==> forall k :: 0 <= k < i ==>
                    answers[k] == Answer(image, blockSize, files, ProgressAt(start, requests, k), requests[k])
      {
        var q := requests[i];
        var buffer := new byte[q.n](_ => 0);
        var served := ReadNodeBlock(q.node, q.offset, buffer, ProgressAt(start, requests, i), files);
        if served.Err? {
          return Err(served.error);
        }
        assert q == Request(q.node, q.offset, buffer.Length);
        answers := answers + [buffer[..]];
      }
      if good {
        forall i | 0 <= i < |requests|
          ensures answers[i] == Asked(image, blockSize, files, requests[i])
             <==> LosesOnlyZeros(image, blockSize, files, ProgressAt(start, requests, i), requests[i])
        {
          AnswerIsAskedIff(image, blockSize, files, ProgressAt(start, requests, i), requests[i]);
        }
      }
      return Ok(answers);
    }

    /** A compressed file read in full, twice, through a source that has not opened it: the retry after growth. */
    method ReadTwice(nid: nat, ghost files: map<nat, SourceFile>) returns (r: Result<(bytes, bytes), ReadError>)
      requires Valid() && nid in inodes && fileNid == None && Knows(files) && nid in files
      requires |files[nid].content| == inodes[nid].size
      modifies this
      ensures Valid() && r.Ok? && r.value.0 == files[nid].content
      ensures r.value.1 == files[nid].content
         <==> ZeroBelow(files[nid].content, LastExtentStart(files[nid].segs))
    {
      hide Valid, Resolves, FileFrom, Answer, Asked, LosesOnlyZeros, LastExtentStart, ZeroBelow, ProgressAt;
      var whole := Request(Compressed(nid), 0, inodes[nid].size);
      ghost var start := Progress(None, 0);
      var answers := ServeAll([whole, whole], start, files);
      TwoPasses(image, blockSize, inflate, files, nid, whole);
      return Ok((answers.value[0], answers.value[1]));
    }
  }
}
