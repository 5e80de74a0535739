/**
 What an index of any writer means: the words of its entries, the extents they resolve to and the bytes those stand for,
 written out in numbers.
 */
module CompactResolved {
  import opened Core
  import opened Arith
  import opened CompactFormat
  import opened CompactReader

  // ---- Entries ---------------------------------------------------------------------------------------------

  /** The 32-bit word entry `lcn` starts in, and the anchor at the end of its pack of 8 bytes. */
  function WordAt(lcn: nat): nat {
    8 * (lcn / 2) + 2 * (lcn % 2)
  }

  function AnchorAt(lcn: nat): nat {
    8 * (lcn / 2) + 4
  }

  /**
   Entry `lcn` from the bytes of an index that starts at `index`: the low bits of its word are the value, the next two the
   kind. An extent starts one block behind the anchor, or two when the entry before it in the pack starts one too.
   */
  ghost predicate EntryMeans(image: bytes, blockSize: nat, index: nat, ds: seq<CompactEntry>, lcn: nat)
    requires lcn < |ds| && index + AnchorAt(lcn) + 4 <= |image|
  {
    var unit := if blockSize > 4096 then blockSize else 4096;
    var word, anchor := Get32(image, index + WordAt(lcn)), Get32(image, index + AnchorAt(lcn));
    && ds[lcn].lcn == lcn && ds[lcn].value == word % unit && ds[lcn].kind == word / unit % 4
    && ds[lcn].pblk == anchor + (if ds[lcn].kind == 2 then 0 else if lcn % 2 == 1 && ds[lcn - 1].kind != 2 then 2 else 1)
  }

  lemma {:induction false} EntryPlaces(image: bytes, index: nat, lcn: nat)
    requires index % 8 == 0
    ensures var position := index + lcn * 4;
            && position / 8 * 8 == index + 8 * (lcn / 2) && (position - position / 8 * 8) / 4 == lcn % 2
  {
  }

  lemma {:induction false} SliceNumber(image: bytes, at: nat)
    ensures at + 4 <= |image| ==> Slice(image, at, 4).Some? && Get32(Slice(image, at, 4).value, 0) == Get32(image, at)
    ensures at + 4 > |image| ==> Slice(image, at, 4).None?
  {
  }

  lemma {:induction false} WalkedBack(before: seq<CompactEntry>, first: nat, which: nat)
    requires which < 2 && first + which == |before|
    ensures WalkBack(before, first, which, 1) == Some(if which == 1 && before[first].kind != NONHEAD then 2 else 1)
  {
    if which == 1 {
      if before[first].kind != NONHEAD {
        assert WalkBack(before, first, 0, 2) == Some(2);
      }
    }
  }

  /** One more entry is read exactly when its pack is inside the image. */
  lemma {:induction false} NextEntry(image: bytes, blockSize: nat, index: nat, before: seq<CompactEntry>, lcn: nat)
    requires index % 8 == 0 && |before| == lcn
    ensures var r := EntryAt(image, LowUnit(blockSize), index, before, lcn);
            && (r.Ok? <==> index + AnchorAt(lcn) + 4 <= |image|)
            && (r.Ok? ==> EntryMeans(image, blockSize, index, before + [r.value], lcn))
  {
    EntryPlaces(image, index, lcn);
    SliceNumber(image, index + WordAt(lcn));
    SliceNumber(image, index + AnchorAt(lcn));
    WalkedBack(before, lcn - lcn % 2, lcn % 2);
    hide WalkBack, Get32, Slice;
    UnitIs(blockSize);
  }

  lemma {:induction false} UnitIs(blockSize: nat)
    ensures LowUnit(blockSize) == if blockSize > 4096 then blockSize else 4096
  {
  }

  /** An index reads exactly when its packs are inside the image, and then every entry means what its bytes say. */
  lemma {:induction false} IndexMeans(image: bytes, blockSize: nat, index: nat, n: nat)
    requires index % 8 == 0
    ensures var r := Entries(image, LowUnit(blockSize), index, n);
            && (r.Ok? <==> n == 0 || index + 8 * ((n + 1) / 2) <= |image|)
            && (r.Ok? ==> |r.value| == n && forall i :: 0 <= i < n ==>
                  index + AnchorAt(i) + 4 <= |image| && EntryMeans(image, blockSize, index, r.value, i))
    decreases n
  {
    hide EntryAt, EntryMeans, LowUnit;
    if n > 0 {
      IndexMeans(image, blockSize, index, n - 1);
      var before := Entries(image, LowUnit(blockSize), index, n - 1);
      if before.Ok? {
        NextEntry(image, blockSize, index, before.value, n - 1);
        var r := EntryAt(image, LowUnit(blockSize), index, before.value, n - 1);
        if r.Ok? {
          forall i | 0 <= i < n
            ensures index + AnchorAt(i) + 4 <= |image| && EntryMeans(image, blockSize, index, before.value + [r.value], i)
          {
            if i < n - 1 {
              StillMeans(image, blockSize, index, before.value, r.value, i);
            }
          }
        }
      }
    }
  }

  lemma {:induction false} StillMeans(image: bytes, blockSize: nat, index: nat, ds: seq<CompactEntry>, next: CompactEntry, i: nat)
    requires i < |ds| && index + AnchorAt(i) + 4 <= |image| && EntryMeans(image, blockSize, index, ds, i)
    ensures EntryMeans(image, blockSize, index, ds + [next], i)
  {
    hide Get32;
  }

  // ---- Extents ---------------------------------------------------------------------------------------------

  /** The entries from `i` on that start an extent, in order. */
  function Heads(entries: seq<CompactEntry>, i: nat): (h: seq<nat>)
    requires i <= |entries|
    ensures forall k :: 0 <= k < |h| ==> i <= h[k] < |entries| && entries[h[k]].kind != 2
    ensures forall k :: 0 < k < |h| ==> h[k - 1] < h[k]
    ensures forall j :: i <= j < |entries| && entries[j].kind != 2 ==> j in h
    decreases |entries| - i
  {
    if i == |entries| then []
    else if entries[i].kind == 2 then Heads(entries, i + 1)
    else [i] + Heads(entries, i + 1)
  }

  /** Blocks that the fillers behind entry `i` record: those of the first with bit 11 set, or one. */
  ghost predicate Records(entries: seq<CompactEntry>, i: nat, blocks: nat) {
    || (exists j :: i < j < |entries| && (forall m :: i < m <= j ==> entries[m].kind == 2)
                    && (forall m :: i < m < j ==> entries[m].value / 0x800 % 2 == 0)
                    && entries[j].value / 0x800 % 2 == 1
                    && blocks == if entries[j].value == 0x800 then 1 else entries[j].value - 0x800)
    || (blocks == 1 && forall j :: i < j < |entries| && (forall m :: i < m <= j ==> entries[m].kind == 2) ==>
          entries[j].value / 0x800 % 2 == 0)
  }

  /** Where the extent of an entry starts in the file. */
  function Place(e: CompactEntry, blockSize: nat): nat {
    e.lcn * blockSize + e.value
  }

  /** Where the extent that starts at entry `h[k]` ends: where the next one starts, or at the end of the file. */
  function EndOf(entries: seq<CompactEntry>, h: seq<nat>, k: nat, blockSize: nat, size: nat): nat
    requires k < |h| && forall j :: 0 <= j < |h| ==> h[j] < |entries|
  {
    if k + 1 < |h| then Place(entries[h[k + 1]], blockSize) else size
  }

  /** The first block behind a segment. */
  function BlockBehind(s: Segment): nat {
    s.physical + if s.kind == 0 then 1 else s.blocks
  }

  /** HEAD1 takes the low four bits of the algorithm byte and HEAD2 the high four. */
  function AlgorithmOf(kind: nat, algorithms: nat): nat {
    if kind == 1 then algorithms % 16 else if kind == 3 then algorithms / 16 else 0
  }

  /** The segment of the extent that starts at entry `i`. */
  ghost predicate ExtentIs(
    s: Segment, entries: seq<CompactEntry>, i: nat, end: nat, physical: nat, inode: CompactInode, blockSize: nat)
    requires i < |entries|
  {
    && s.kind == entries[i].kind && s.start == Place(entries[i], blockSize) && s.end == end && s.physical == physical
    && (if s.kind == 0 then s.blocks == 0 else Records(entries, i, s.blocks)) && s.algorithm == AlgorithmOf(s.kind, inode.algorithms)
  }

  /** One segment for each entry that starts an extent, each behind the blocks of the one before. */
  ghost predicate Resolved(
    segs: seq<Segment>, entries: seq<CompactEntry>, h: seq<nat>, cursor: Option<nat>, inode: CompactInode, blockSize: nat)
    requires forall j :: 0 <= j < |h| ==> h[j] < |entries|
  {
    && |segs| == |h|
    && (h != [] ==> ExtentIs(segs[0], entries, h[0], EndOf(entries, h, 0, blockSize, inode.size), FirstBlock(entries, h[0], cursor), inode, blockSize))
    && forall k :: 0 < k < |h| ==>
         ExtentIs(segs[k], entries, h[k], EndOf(entries, h, k, blockSize, inode.size), BlockBehind(segs[k - 1]), inode, blockSize)
  }

  function FirstBlock(entries: seq<CompactEntry>, i: nat, cursor: Option<nat>): nat
    requires i < |entries|
  {
    if cursor.Some? then cursor.value else entries[i].pblk
  }

  /** An extent lies inside the file, and a compressed one in 64 MiB and 8192 blocks. */
  ghost predicate ExtentFits(entries: seq<CompactEntry>, h: seq<nat>, k: nat, inode: CompactInode, blockSize: nat)
    requires k < |h| && forall j :: 0 <= j < |h| ==> h[j] < |entries|
  {
    var start, end := Place(entries[h[k]], blockSize), EndOf(entries, h, k, blockSize, inode.size);
    && start < end <= inode.size
    && (entries[h[k]].kind != 0 ==> end - start <= 0x400_0000 && forall b: nat :: Records(entries, h[k], b) ==> b <= 8192)
  }

  /**
   What the format asks of an index, from entry `i` on: extents start in increasing order inside the file and keep to
   their limits, and fillers follow heads only.
   */
  ghost predicate WellFrom(entries: seq<CompactEntry>, i: nat, inode: CompactInode, blockSize: nat)
    requires i <= |entries|
  {
    var h := Heads(entries, i);
    && (forall j :: 0 <= j < |entries| ==> entries[j].kind < 4)
    && (forall j :: 0 <= j < |entries| - 1 && entries[j].kind == 0 ==> entries[j + 1].kind != 2)
    && forall k :: 0 <= k < |h| ==> ExtentFits(entries, h, k, inode, blockSize)
  }

  ghost predicate WellFormed(entries: seq<CompactEntry>, inode: CompactInode, blockSize: nat) {
    WellFrom(entries, 0, inode, blockSize)
  }

  lemma {:induction false} RecordsFiller(entries: seq<CompactEntry>, i: nat)
    requires i < |entries|
    ensures Records(entries, i, FillerBlocks(entries, i + 1))
  {
    hide FillerBlocks, Records;
    var j := RecordingFiller(entries, i, i + 1);
    if j < |entries| {
      RecordsAt(entries, i, j, FillerBlocks(entries, i + 1));
    } else {
      RecordsNone(entries, i);
    }
  }

  lemma {:induction false} RecordsAt(entries: seq<CompactEntry>, i: nat, j: nat, blocks: nat)
    requires i < j < |entries| && (forall m :: i < m <= j ==> entries[m].kind == 2)
    requires forall m :: i < m < j ==> entries[m].value / 0x800 % 2 == 0
    requires entries[j].value / 0x800 % 2 == 1 && blocks == if entries[j].value == 0x800 then 1 else entries[j].value - 0x800
    ensures Records(entries, i, blocks)
  {
  }

  lemma {:induction false} RecordsNone(entries: seq<CompactEntry>, i: nat)
    requires forall j :: i < j < |entries| && (forall m :: i < m <= j ==> entries[m].kind == 2) ==> entries[j].value / 0x800 % 2 == 0
    ensures Records(entries, i, 1)
  {
  }

  /** The first filler with the bit, or none. */
  lemma {:induction false} RecordingFiller(entries: seq<CompactEntry>, i: nat, from: nat) returns (j: nat)
    requires i < from <= |entries| && forall m :: i < m < from ==> entries[m].kind == 2 && entries[m].value / 0x800 % 2 == 0
    ensures from <= j <= |entries|
    ensures j < |entries| ==>
              && (forall m :: i < m <= j ==> entries[m].kind == 2) && (forall m :: i < m < j ==> entries[m].value / 0x800 % 2 == 0)
              && entries[j].value / 0x800 % 2 == 1
              && FillerBlocks(entries, from) == if entries[j].value == 0x800 then 1 else entries[j].value - 0x800
    ensures j == |entries| ==> FillerBlocks(entries, from) == 1
    ensures j == |entries| ==> forall n :: i < n < |entries| && (forall m :: i < m <= n ==> entries[m].kind == 2) ==> entries[n].value / 0x800 % 2 == 0
    decreases |entries| - from
  {
    if from == |entries| {
      j := |entries|;
    } else if entries[from].kind != 2 {
      j := |entries|;
    } else if entries[from].value / 0x800 % 2 == 1 {
      j := from;
      assert entries[from].value >= 0x800;
    } else {
      j := RecordingFiller(entries, i, from + 1);
    }
  }

  /** A head ends where the next one starts. */
  lemma {:induction false} HeadEnds(entries: seq<CompactEntry>, i: nat, blockSize: nat, size: nat)
    requires i <= |entries|
    ensures var h := Heads(entries, i);
            HeadEnd(entries, i, blockSize, size) == if h == [] then size else Place(entries[h[0]], blockSize)
    decreases |entries| - i
  {
    if i < |entries| && entries[i].kind == 2 {
      HeadEnds(entries, i + 1, blockSize, size);
    }
  }

  /** A plain extent ends there too, since no filler follows it. */
  lemma {:induction false} PlainEnds(entries: seq<CompactEntry>, i: nat, blockSize: nat, size: nat)
    requires i < |entries| && (i + 1 < |entries| ==> entries[i + 1].kind != 2)
    ensures var h := Heads(entries, i + 1);
            PlainEnd(entries, i + 1, blockSize, size) == Min(if h == [] then size else Place(entries[h[0]], blockSize), size)
  {
  }

  lemma {:induction false} HeadsFirst(entries: seq<CompactEntry>, i: nat)
    requires i < |entries|
    ensures Heads(entries, i) == if entries[i].kind == 2 then Heads(entries, i + 1) else [i] + Heads(entries, i + 1)
  {
  }

  /** The end of a later extent does not depend on where the list of heads begins. */
  lemma {:induction false} EndLater(entries: seq<CompactEntry>, i: nat, rest: seq<nat>, k: nat, blockSize: nat, size: nat)
    requires i < |entries| && k < |rest| && forall j :: 0 <= j < |rest| ==> rest[j] < |entries|
    ensures EndOf(entries, [i] + rest, k + 1, blockSize, size) == EndOf(entries, rest, k, blockSize, size)
    ensures ([i] + rest)[k + 1] == rest[k]
  {
    hide Place;
  }

  lemma {:induction false} FitsLater(entries: seq<CompactEntry>, i: nat, rest: seq<nat>, k: nat, inode: CompactInode, blockSize: nat)
    requires i < |entries| && k < |rest| && forall j :: 0 <= j < |rest| ==> rest[j] < |entries|
    requires ExtentFits(entries, [i] + rest, k + 1, inode, blockSize)
    ensures ExtentFits(entries, rest, k, inode, blockSize)
  {
    hide Place, EndOf, Records;
    EndLater(entries, i, rest, k, blockSize, inode.size);
  }

  lemma {:induction false} WellRest(entries: seq<CompactEntry>, i: nat, inode: CompactInode, blockSize: nat)
    requires i < |entries| && WellFrom(entries, i, inode, blockSize)
    ensures WellFrom(entries, i + 1, inode, blockSize)
    ensures entries[i].kind != 2 ==> ExtentFits(entries, [i] + Heads(entries, i + 1), 0, inode, blockSize)
    ensures entries[i].kind < 4 && (entries[i].kind == 0 && i + 1 < |entries| ==> entries[i + 1].kind != 2)
  {
    HeadsFirst(entries, i);
    var h, rest := Heads(entries, i), Heads(entries, i + 1);
    hide ExtentFits, Heads;
    if entries[i].kind == 2 {
      assert h == rest;
    } else {
      assert h == [i] + rest && ExtentFits(entries, h, 0, inode, blockSize);
      RestFits(entries, i, rest, inode, blockSize);
    }
  }

  lemma {:induction false} RestFits(entries: seq<CompactEntry>, i: nat, rest: seq<nat>, inode: CompactInode, blockSize: nat)
    requires i < |entries| && forall j :: 0 <= j < |rest| ==> rest[j] < |entries|
    requires forall k :: 0 <= k < |[i] + rest| ==> ExtentFits(entries, [i] + rest, k, inode, blockSize)
    ensures forall k :: 0 <= k < |rest| ==> ExtentFits(entries, rest, k, inode, blockSize)
  {
    hide *;
    forall k | 0 <= k < |rest|
      ensures ExtentFits(entries, rest, k, inode, blockSize)
    {
      assert ExtentFits(entries, [i] + rest, k + 1, inode, blockSize);
      FitsLater(entries, i, rest, k, inode, blockSize);
    }
  }

  /** The segment of the first extent, and the cursor behind it. */
  lemma {:induction false} FirstExtent(entries: seq<CompactEntry>, i: nat, cursor: Option<nat>, inode: CompactInode, blockSize: nat)
    requires i < |entries| && entries[i].kind != 2 && entries[i].kind < 4
    requires entries[i].kind == 0 && i + 1 < |entries| ==> entries[i + 1].kind != 2
    requires ExtentFits(entries, [i] + Heads(entries, i + 1), 0, inode, blockSize)
    ensures var r := NextSegment(entries, i, cursor, inode, blockSize);
            && r.Ok? && |r.value.0| == 1 && r.value.1 == Some(BlockBehind(r.value.0[0]))
            && ExtentIs(r.value.0[0], entries, i, EndOf(entries, [i] + Heads(entries, i + 1), 0, blockSize, inode.size),
                        FirstBlock(entries, i, cursor), inode, blockSize)
  {
    hide *;
    var rest := Heads(entries, i + 1);
    HeadEnds(entries, i + 1, blockSize, inode.size);
    RecordsFiller(entries, i);
    FitsFirst(entries, i, rest, inode, blockSize);
    PlaceIs(entries[i], blockSize);
    var end := EndOf(entries, [i] + rest, 0, blockSize, inode.size);
    if entries[i].kind == 0 {
      PlainEnds(entries, i, blockSize, inode.size);
      NextPlain(entries, i, cursor, inode, blockSize, end);
    } else {
      NextHead(entries, i, cursor, inode, blockSize, end);
    }
  }

  lemma {:induction false} NextPlain(entries: seq<CompactEntry>, i: nat, cursor: Option<nat>, inode: CompactInode, blockSize: nat, end: nat)
    requires i < |entries| && entries[i].kind == 0 && LogicalStart(entries[i], blockSize) == Place(entries[i], blockSize) < end <= inode.size
    requires PlainEnd(entries, i + 1, blockSize, inode.size) == Min(end, inode.size)
    ensures var s := Segment(0, Place(entries[i], blockSize), end, FirstBlock(entries, i, cursor), 0, 0);
            && NextSegment(entries, i, cursor, inode, blockSize) == Ok(([s], Some(BlockBehind(s))))
            && ExtentIs(s, entries, i, end, FirstBlock(entries, i, cursor), inode, blockSize)
  {
    hide LogicalStart, Place, PlainEnd, HeadEnd, FillerBlocks, Records;
  }

  lemma {:induction false} NextHead(entries: seq<CompactEntry>, i: nat, cursor: Option<nat>, inode: CompactInode, blockSize: nat, end: nat)
    requires i < |entries| && 0 < entries[i].kind < 4 && entries[i].kind != 2
    requires LogicalStart(entries[i], blockSize) == Place(entries[i], blockSize) < end <= inode.size
    requires HeadEnd(entries, i + 1, blockSize, inode.size) == end && end - Place(entries[i], blockSize) <= MAX_PCLUSTER
    requires FillerBlocks(entries, i + 1) <= MAX_PCLUSTER_BLOCKS && Records(entries, i, FillerBlocks(entries, i + 1))
    ensures var s := Segment(entries[i].kind, Place(entries[i], blockSize), end, FirstBlock(entries, i, cursor), FillerBlocks(entries, i + 1),
                             AlgorithmOf(entries[i].kind, inode.algorithms));
            && NextSegment(entries, i, cursor, inode, blockSize) == Ok(([s], Some(BlockBehind(s))))
            && ExtentIs(s, entries, i, end, FirstBlock(entries, i, cursor), inode, blockSize)
  {
    hide LogicalStart, Place, PlainEnd, HeadEnd, FillerBlocks, Records;
  }

  lemma {:induction false} PlaceIs(e: CompactEntry, blockSize: nat)
    ensures LogicalStart(e, blockSize) == Place(e, blockSize)
  {
  }

  lemma {:induction false} FitsFirst(entries: seq<CompactEntry>, i: nat, rest: seq<nat>, inode: CompactInode, blockSize: nat)
    requires i < |entries| && (forall j :: 0 <= j < |rest| ==> rest[j] < |entries|) && ExtentFits(entries, [i] + rest, 0, inode, blockSize)
    ensures var start, end := Place(entries[i], blockSize), if rest == [] then inode.size else Place(entries[rest[0]], blockSize);
            && EndOf(entries, [i] + rest, 0, blockSize, inode.size) == end && start < end <= inode.size
            && (entries[i].kind != 0 ==> end - start <= MAX_PCLUSTER && forall b: nat :: Records(entries, i, b) ==> b <= MAX_PCLUSTER_BLOCKS)
  {
    hide Place, Records;
  }

  lemma {:induction false} ResolvedCons(
    s: Segment, rest: seq<Segment>, entries: seq<CompactEntry>, i: nat, later: seq<nat>, cursor: Option<nat>, inode: CompactInode, blockSize: nat)
    requires i < |entries| && forall j :: 0 <= j < |later| ==> later[j] < |entries|
    requires Resolved(rest, entries, later, Some(BlockBehind(s)), inode, blockSize)
    requires ExtentIs(s, entries, i, EndOf(entries, [i] + later, 0, blockSize, inode.size), FirstBlock(entries, i, cursor), inode, blockSize)
    ensures Resolved([s] + rest, entries, [i] + later, cursor, inode, blockSize)
  {
    hide ExtentIs, EndOf, BlockBehind;
    var segs, h := [s] + rest, [i] + later;
    forall k | 0 < k < |h|
      ensures ExtentIs(segs[k], entries, h[k], EndOf(entries, h, k, blockSize, inode.size), BlockBehind(segs[k - 1]), inode, blockSize)
    {
      EndLater(entries, i, later, k - 1, blockSize, inode.size);
      assert segs[k] == rest[k - 1] && (k > 1 ==> segs[k - 1] == rest[k - 2]);
    }
  }

  lemma {:induction false} ResolvesFrom(entries: seq<CompactEntry>, i: nat, cursor: Option<nat>, inode: CompactInode, blockSize: nat)
    requires i <= |entries| && WellFrom(entries, i, inode, blockSize)
    ensures var r := SegmentsFrom(entries, i, cursor, inode, blockSize);
            r.Ok? && Resolved(r.value, entries, Heads(entries, i), cursor, inode, blockSize)
    decreases |entries| - i
  {
    hide *;
    if i == |entries| {
      NoSegments(entries, cursor, inode, blockSize);
    } else {
      WellRest(entries, i, inode, blockSize);
      HeadsFirst(entries, i);
      OneStep(entries, i, cursor, inode, blockSize);
      if entries[i].kind == 2 {
        FillerSkipped(entries, i, cursor, inode, blockSize);
        ResolvesFrom(entries, i + 1, cursor, inode, blockSize);
        NothingFirst(SegmentsFrom(entries, i + 1, cursor, inode, blockSize));
      } else {
        FirstExtent(entries, i, cursor, inode, blockSize);
        var step := NextSegment(entries, i, cursor, inode, blockSize).value;
        ResolvesFrom(entries, i + 1, step.1, inode, blockSize);
        var rest := SegmentsFrom(entries, i + 1, step.1, inode, blockSize).value;
        OneFirst(step.0, rest);
        ResolvedCons(step.0[0], rest, entries, i, Heads(entries, i + 1), cursor, inode, blockSize);
      }
    }
  }

  lemma {:induction false} OneStep(entries: seq<CompactEntry>, i: nat, cursor: Option<nat>, inode: CompactInode, blockSize: nat)
    requires i < |entries|
    ensures var step := NextSegment(entries, i, cursor, inode, blockSize);
            step.Ok? ==> SegmentsFrom(entries, i, cursor, inode, blockSize)
                         == Appended(step.value.0, SegmentsFrom(entries, i + 1, step.value.1, inode, blockSize))
  {
    hide NextSegment;
  }

  lemma {:induction false} OneFirst(found: seq<Segment>, rest: seq<Segment>)
    requires |found| == 1
    ensures Appended<Segment, ReadError>(found, Ok(rest)) == Ok([found[0]] + rest)
  {
    assert found == [found[0]];
  }

  lemma {:induction false} NoSegments(entries: seq<CompactEntry>, cursor: Option<nat>, inode: CompactInode, blockSize: nat)
    ensures SegmentsFrom(entries, |entries|, cursor, inode, blockSize) == Ok([])
    ensures Resolved([], entries, Heads(entries, |entries|), cursor, inode, blockSize)
  {
  }

  lemma {:induction false} NothingFirst(r: Result<seq<Segment>, ReadError>)
    ensures Appended([], r) == r
  {
    if r.Ok? {
      assert [] + r.value == r.value;
    }
  }

  lemma {:induction false} FillerSkipped(entries: seq<CompactEntry>, i: nat, cursor: Option<nat>, inode: CompactInode, blockSize: nat)
    requires i < |entries| && entries[i].kind == 2
    ensures NextSegment(entries, i, cursor, inode, blockSize) == Ok(([], cursor))
  {
  }

  /** Every well-formed index resolves to its extents, whoever wrote it. */
  lemma {:induction false} SegmentsMean(entries: seq<CompactEntry>, inode: CompactInode, blockSize: nat)
    requires WellFormed(entries, inode, blockSize)
    ensures var r := Segments(entries, inode, blockSize);
            r.Ok? && Resolved(r.value, entries, Heads(entries, 0), None, inode, blockSize)
  {
    hide SegmentsFrom, Resolved, WellFrom;
    ResolvesFrom(entries, 0, None, inode, blockSize);
  }

  /** The segments of a well-formed index tile the file from the first extent on. */
  lemma {:induction false} SegmentsTile(entries: seq<CompactEntry>, inode: CompactInode, blockSize: nat)
    requires WellFormed(entries, inode, blockSize) && Heads(entries, 0) != []
    ensures Segments(entries, inode, blockSize).Ok?
    ensures TilesFrom(Segments(entries, inode, blockSize).value, Place(entries[Heads(entries, 0)[0]], blockSize), inode.size)
  {
    hide *;
    SegmentsMean(entries, inode, blockSize);
    var h, segs := Heads(entries, 0), Segments(entries, inode, blockSize).value;
    ResolvedLength(segs, entries, h, inode, blockSize);
    forall k | 0 <= k < |segs|
      ensures segs[k].start == Place(entries[h[k]], blockSize) && segs[k].start < segs[k].end
      ensures segs[k].end == if k + 1 < |h| then Place(entries[h[k + 1]], blockSize) else inode.size
    {
      SegmentAt(segs, entries, h, k, inode, blockSize);
      FitsAt(entries, k, inode, blockSize);
    }
    forall j | 0 < j < |segs|
      ensures segs[j - 1].end == segs[j].start
    {
      assert segs[j].start == Place(entries[h[j]], blockSize);
      assert segs[j - 1].end == if j - 1 + 1 < |h| then Place(entries[h[j - 1 + 1]], blockSize) else inode.size;
    }
    SegmentAt(segs, entries, h, |segs| - 1, inode, blockSize);
    assert segs[0..] == segs;
    TilesOfNeighbours(segs, 0, inode.size);
  }

  lemma {:induction false} ResolvedLength(segs: seq<Segment>, entries: seq<CompactEntry>, h: seq<nat>, inode: CompactInode, blockSize: nat)
    requires (forall j :: 0 <= j < |h| ==> h[j] < |entries|) && Resolved(segs, entries, h, None, inode, blockSize)
    ensures |segs| == |h|
  {
    hide ExtentIs;
  }

  lemma {:induction false} SegmentAt(segs: seq<Segment>, entries: seq<CompactEntry>, h: seq<nat>, k: nat, inode: CompactInode, blockSize: nat)
    requires (forall j :: 0 <= j < |h| ==> h[j] < |entries|) && Resolved(segs, entries, h, None, inode, blockSize) && k < |segs| == |h|
    ensures segs[k].start == Place(entries[h[k]], blockSize) && segs[k].end == EndOf(entries, h, k, blockSize, inode.size)
    ensures segs[k].end == if k + 1 < |h| then Place(entries[h[k + 1]], blockSize) else inode.size
  {
    hide Place, Records, AlgorithmOf, BlockBehind, FirstBlock;
    if k > 0 {
      assert ExtentIs(segs[k], entries, h[k], EndOf(entries, h, k, blockSize, inode.size), BlockBehind(segs[k - 1]), inode, blockSize);
    }
  }

  lemma {:induction false} FitsAt(entries: seq<CompactEntry>, k: nat, inode: CompactInode, blockSize: nat)
    requires WellFormed(entries, inode, blockSize) && k < |Heads(entries, 0)|
    ensures Place(entries[Heads(entries, 0)[k]], blockSize) < EndOf(entries, Heads(entries, 0), k, blockSize, inode.size)
  {
    hide Place, EndOf, Records;
    assert ExtentFits(entries, Heads(entries, 0), k, inode, blockSize);
  }

  lemma {:induction false} TilesOfNeighbours(segs: seq<Segment>, k: nat, size: nat)
    requires k < |segs| && segs[|segs| - 1].end == size && forall j :: 0 <= j < |segs| ==> segs[j].start < segs[j].end
    requires forall j :: 0 < j < |segs| ==> segs[j - 1].end == segs[j].start
    ensures TilesFrom(segs[k..], segs[k].start, size)
    decreases |segs| - k
  {
    if k + 1 < |segs| {
      TilesOfNeighbours(segs, k + 1, size);
      assert segs[k..][1..] == segs[k + 1..];
    } else {
      assert segs[k..][1..] == [];
    }
  }

  /** A compressed extent that is not empty, ends inside the file and keeps to its limits. */
  predicate HeadFits(entries: seq<CompactEntry>, j: nat, inode: CompactInode, blockSize: nat)
    requires j < |entries|
  {
    var later := Heads(entries, j + 1);
    var start, end := Place(entries[j], blockSize), if later == [] then inode.size else Place(entries[later[0]], blockSize);
    start < end <= inode.size && end - start <= 0x400_0000 && FillerBlocks(entries, j + 1) <= 8192
  }

  lemma {:induction false} StepOkIff(entries: seq<CompactEntry>, i: nat, cursor: Option<nat>, inode: CompactInode, blockSize: nat)
    requires i < |entries|
    ensures NextSegment(entries, i, cursor, inode, blockSize).Ok?
       <==> (entries[i].kind == 1 || entries[i].kind == 3 ==> HeadFits(entries, i, inode, blockSize))
  {
    HeadEnds(entries, i + 1, blockSize, inode.size);
    PlaceIs(entries[i], blockSize);
    hide HeadEnd, PlainEnd, FillerBlocks, Heads, Place, LogicalStart;
  }

  /** Any index resolves exactly when all of its compressed extents do. */
  lemma {:induction false} ResolvesIff(entries: seq<CompactEntry>, i: nat, cursor: Option<nat>, inode: CompactInode, blockSize: nat)
    requires i <= |entries|
    ensures SegmentsFrom(entries, i, cursor, inode, blockSize).Ok?
       <==> forall j :: i <= j < |entries| && (entries[j].kind == 1 || entries[j].kind == 3) ==> HeadFits(entries, j, inode, blockSize)
    decreases |entries| - i
  {
    hide NextSegment, HeadFits;
    if i < |entries| {
      StepOkIff(entries, i, cursor, inode, blockSize);
      var step := NextSegment(entries, i, cursor, inode, blockSize);
      if step.Ok? {
        ResolvesIff(entries, i + 1, step.value.1, inode, blockSize);
      }
    }
  }

  // ---- Content ---------------------------------------------------------------------------------------------

  /** A plain segment is a stretch of the image; a compressed one is what its blocks decompress to. */
  lemma {:induction false} SegmentMeans(image: bytes, blockSize: nat, inflate: Inflate, s: Segment, content: bytes)
    requires s.start <= s.end
    ensures SegmentBytes(image, blockSize, inflate, s) == Some(content)
       <==> if s.kind == 0
            then s.physical * blockSize + (s.end - s.start) <= |image|
                 && content == image[s.physical * blockSize..s.physical * blockSize + (s.end - s.start)]
            else blockSize * s.blocks <= 0x1000_0000 && s.physical * blockSize + blockSize * s.blocks <= |image|
                 && inflate(s.algorithm, image[s.physical * blockSize..s.physical * blockSize + blockSize * s.blocks], s.end - s.start)
                    == Some(content)
                 && |content| == s.end - s.start
  {
  }

  /** Two HEAD extents of which the second starts inside its cluster: the first runs up to there. */
  lemma {:induction false} OffsetCounts()
    ensures var entries, inode := [CompactEntry(0, 1, 0, 7), CompactEntry(1, 1, 1000, 8)], CompactInode(8192, 0, 0);
            Segments(entries, inode, 4096) == Ok([Segment(1, 0, 5096, 7, 1, 0), Segment(1, 5096, 8192, 8, 1, 0)])
  {
    var entries, inode := [CompactEntry(0, 1, 0, 7), CompactEntry(1, 1, 1000, 8)], CompactInode(8192, 0, 0);
    var a, b := Segment(1, 0, 5096, 7, 1, 0), Segment(1, 5096, 8192, 8, 1, 0);
    assert FillerBlocks(entries, 1) == 1 && FillerBlocks(entries, 2) == 1;
    assert HeadEnd(entries, 2, 4096, 8192) == 8192 && HeadEnd(entries, 1, 4096, 8192) == 5096;
    assert NextSegment(entries, 0, None, inode, 4096) == Ok(([a], Some(8)));
    assert NextSegment(entries, 1, Some(8), inode, 4096) == Ok(([b], Some(9)));
    assert SegmentsFrom(entries, 2, Some(9), inode, 4096) == Ok([]);
    assert [b] + [] == [b];
    assert SegmentsFrom(entries, 1, Some(8), inode, 4096) == Ok([b]);
    assert [a] + [b] == [a, b];
  }
}
