/**
 EROFS directories: the writer fills blocks greedily with records and names, truncating the last block; the reader
 finds names through the offsets in the records.
 */
module ErofsDir {
  import opened Core
  import opened Arith
  import opened OutFile

  const RECORD: nat := 12

  /** A directory entry: node number, name and file type. */
  datatype Entry = Entry(nid: nat, name: bytes, kind: byte)

  datatype DirError = BadNameOffset

  predicate EntriesFit(entries: seq<Entry>) {
    forall i :: 0 <= i < |entries| ==> entries[i].nid < U64_LIMIT
  }

  /** Block sizes up to 64 KiB. */
  predicate DirBlock(blockSize: nat) {
    RECORD <= blockSize <= U16_LIMIT
  }

  /** Name offsets are 16-bit: in a 64 KiB block an empty name could start behind what they reach. */
  predicate OffsetsFit(entries: seq<Entry>, blockSize: nat) {
    blockSize < U16_LIMIT || forall i :: 0 <= i < |entries| ==> entries[i].name != []
  }

  // ---- Format ----------------------------------------------------------------------------------------------

  /** A record; the name offset is truncated to 16 bits. */
  function RecordBytes(e: Entry, nameAt: nat): (b: bytes)
    requires e.nid < U64_LIMIT
    ensures |b| == RECORD
  {
    Le64(e.nid) + Le16(nameAt % U16_LIMIT) + [e.kind] + [0]
  }

  /** The names of the first `k` entries. */
  function Names(es: seq<Entry>, k: nat): bytes
    requires k <= |es|
  {
    if k == 0 then [] else Names(es, k - 1) + es[k - 1].name
  }

  function NameAt(es: seq<Entry>, i: nat): nat
    requires i <= |es|
  {
    RECORD * |es| + |Names(es, i)|
  }

  lemma {:induction false} NamesGrow(es: seq<Entry>, i: nat, j: nat)
    requires i <= j <= |es|
    ensures |Names(es, i)| <= |Names(es, j)|
    decreases j
  {
    if i < j {
      NamesGrow(es, i, j - 1);
    }
  }

  predicate BodyFits(es: seq<Entry>, blockSize: nat) {
    DirBlock(blockSize) && EntriesFit(es) && NameAt(es, |es|) <= blockSize
  }

  /** The records of the first `k` entries. */
  function Records(es: seq<Entry>, k: nat, blockSize: nat): (b: bytes)
    requires k <= |es| && BodyFits(es, blockSize)
    ensures |b| == RECORD * k
  {
    if k == 0 then []
    else
      NamesGrow(es, k - 1, |es|);
      Records(es, k - 1, blockSize) + RecordBytes(es[k - 1], NameAt(es, k - 1))
  }

  /** Records, then names. */
  function Body(es: seq<Entry>, blockSize: nat): (b: bytes)
    requires BodyFits(es, blockSize)
    ensures |b| == NameAt(es, |es|)
  {
    Records(es, |es|, blockSize) + Names(es, |es|)
  }

  // ---- Greedy packing --------------------------------------------------------------------------------------

  /** The end of the block that starts at `start`, when `start..end` with `names` bytes of names are in it. */
  function BlockEnd(entries: seq<Entry>, start: nat, end: nat, names: nat, blockSize: nat): (r: nat)
    requires start <= end <= |entries|
    ensures end <= r <= |entries|
    decreases |entries| - end
  {
    if end < |entries| && (end - start + 1) * RECORD + names + |entries[end].name| <= blockSize
    then BlockEnd(entries, start, end + 1, names + |entries[end].name|, blockSize)
    else end
  }

  /** The entries of one block fit it; the next entry would not. */
  lemma {:induction false} BlockEndFits(entries: seq<Entry>, start: nat, end: nat, blockSize: nat)
    requires start <= end <= |entries| && NameAt(entries[start..end], end - start) <= blockSize
    ensures var stop := BlockEnd(entries, start, end, |Names(entries[start..end], end - start)|, blockSize);
            && NameAt(entries[start..stop], stop - start) <= blockSize
            && (stop < |entries| ==>
                  RECORD * (stop - start + 1) + |Names(entries[start..stop], stop - start)| + |entries[stop].name| > blockSize)
    decreases |entries| - end
  {
    hide Names;
    var names := |Names(entries[start..end], end - start)|;
    if end < |entries| && (end - start + 1) * RECORD + names + |entries[end].name| <= blockSize {
      NamesSnoc(entries, start, end);
      assert NameAt(entries[start..end + 1], end + 1 - start) == RECORD * (end + 1 - start) + names + |entries[end].name|;
      BlockEndFits(entries, start, end + 1, blockSize);
    }
  }

  lemma {:induction false} NamesSnoc(entries: seq<Entry>, start: nat, end: nat)
    requires start <= end < |entries|
    ensures Names(entries[start..end + 1], end + 1 - start) == Names(entries[start..end], end - start) + entries[end].name
  {
    NamesPrefix(entries[start..end + 1], entries[start..end], end - start);
  }

  lemma {:induction false} NamesPrefix(a: seq<Entry>, b: seq<Entry>, k: nat)
    requires k <= |a| && k <= |b| && a[..k] == b[..k]
    ensures Names(a, k) == Names(b, k)
    decreases k
  {
    if k > 0 {
      assert a[..k - 1] == a[..k][..k - 1] && b[..k - 1] == b[..k][..k - 1];
      NamesPrefix(a, b, k - 1);
      assert a[k - 1] == a[..k][k - 1] == b[..k][k - 1];
    }
  }

  function FirstEnd(entries: seq<Entry>, start: nat, blockSize: nat): (r: nat)
    requires start <= |entries|
    ensures start <= r <= |entries|
  {
    BlockEnd(entries, start, start, 0, blockSize)
  }

  lemma {:induction false} FirstEndFits(entries: seq<Entry>, start: nat, blockSize: nat)
    requires start < |entries| && DirBlock(blockSize) && EntriesFit(entries)
    ensures var stop := FirstEnd(entries, start, blockSize);
            && BodyFits(entries[start..stop], blockSize)
            && (stop == start <==> RECORD + |entries[start].name| > blockSize)
  {
    assert entries[start..start] == [];
    BlockEndFits(entries, start, start, blockSize);
  }

  /** The blocks from entry `start` on, or nothing when an entry does not fit a block. */
  function Pack(entries: seq<Entry>, start: nat, blockSize: nat): Option<bytes>
    requires start <= |entries| && DirBlock(blockSize) && EntriesFit(entries)
    decreases |entries| - start
  {
    if start == |entries| then Some([])
    else
      FirstEndFits(entries, start, blockSize);
      var stop := FirstEnd(entries, start, blockSize);
      if stop == start then None
      else
        match Pack(entries, stop, blockSize)
        case None => None
        case Some(rest) => Some(PackedBlock(entries, start, stop, blockSize) + rest)
  }

  function PackedBlock(entries: seq<Entry>, start: nat, stop: nat, blockSize: nat): (b: bytes)
    requires start <= stop <= |entries| && BodyFits(entries[start..stop], blockSize)
    ensures |b| <= blockSize && (stop < |entries| ==> |b| == blockSize)
  {
    var body := Body(entries[start..stop], blockSize);
    if stop == |entries| then body else body + Zeros(blockSize - |body|)
  }

  function DirectoryBytes(entries: seq<Entry>, blockSize: nat): bytes
    requires DirBlock(blockSize) && EntriesFit(entries)
  {
    match Pack(entries, 0, blockSize)
    case None => []
    case Some(data) => data
  }

  // ---- The writer ------------------------------------------------------------------------------------------

  /** A block with the first `k` records and names in place. */
  function BlockSoFar(es: seq<Entry>, k: nat, blockSize: nat): (b: bytes)
    requires k <= |es| && BodyFits(es, blockSize)
    ensures |b| == blockSize
  {
    NamesGrow(es, k, |es|);
    Records(es, k, blockSize) + Zeros(RECORD * (|es| - k)) + Names(es, k) + Zeros(blockSize - NameAt(es, k))
  }

  /** Writing into the zeros between two parts. */
  lemma {:induction false} OverwriteZeros(a: bytes, zeros: nat, c: bytes, d: bytes)
    requires |d| <= zeros
    ensures Overwrite(a + Zeros(zeros) + c, |a|, d) == a + d + Zeros(zeros - |d|) + c
  {
  }

  lemma {:induction false} RecordPlaced(es: seq<Entry>, k: nat, blockSize: nat)
    requires k < |es| && BodyFits(es, blockSize)
    ensures NameAt(es, k) + |es[k].name| <= blockSize
    ensures var record := Overwrite(BlockSoFar(es, k, blockSize), RECORD * k, RecordBytes(es[k], NameAt(es, k)));
            Overwrite(record, NameAt(es, k), es[k].name) == BlockSoFar(es, k + 1, blockSize)
  {
    NamesGrow(es, k + 1, |es|);
    NamesGrow(es, k, |es|);
    hide Overwrite, RecordBytes;
    var data, left := RecordBytes(es[k], NameAt(es, k)), blockSize - NameAt(es, k);
    assert Records(es, k + 1, blockSize) == Records(es, k, blockSize) + data;
    assert Names(es, k + 1) == Names(es, k) + es[k].name;
    hide Records, Names;
    TwoWrites(Records(es, k, blockSize), RECORD * (|es| - k), Names(es, k), left, data, es[k].name);
  }

  /** A record into the zeros behind the records, a name into the zeros behind the names. */
  lemma {:induction false} TwoWrites(records: bytes, gap: nat, names: bytes, left: nat, data: bytes, name: bytes)
    requires |data| <= gap && |name| <= left
    ensures var block := records + Zeros(gap) + names + Zeros(left);
            Overwrite(Overwrite(block, |records|, data), |records| + gap + |names|, name)
            == (records + data) + Zeros(gap - |data|) + (names + name) + Zeros(left - |name|)
  {
    hide Overwrite;
    var block := records + Zeros(gap) + names + Zeros(left);
    assert block == records + Zeros(gap) + (names + Zeros(left));
    OverwriteZeros(records, gap, names + Zeros(left), data);
    var front := records + data + Zeros(gap - |data|) + names;
    assert records + data + Zeros(gap - |data|) + (names + Zeros(left)) == front + Zeros(left) + [];
    OverwriteZeros(front, left, [], name);
    assert |front| == |records| + gap + |names|;
    assert front + name + Zeros(left - |name|) + []
        == (records + data) + Zeros(gap - |data|) + (names + name) + Zeros(left - |name|);
  }

  /** The record of an entry, field by field; its last byte stays zero. */
  method PutRecord(block: bytes, at: nat, e: Entry, nameAt: nat) returns (r: bytes)
    requires e.nid < U64_LIMIT && at + RECORD <= |block| && block[at + 11] == 0
    ensures r == Overwrite(block, at, RecordBytes(e, nameAt))
  {
    hide Overwrite, Le64, Le16;
    r := Overwrite(block, at, Le64(e.nid));
    r := Overwrite(r, at + 8, Le16(nameAt % U16_LIMIT));
    OverwriteTwice(block, at, Le64(e.nid), Le16(nameAt % U16_LIMIT));
    r := Overwrite(r, at + 10, [e.kind]);
    OverwriteTwice(block, at, Le64(e.nid) + Le16(nameAt % U16_LIMIT), [e.kind]);
    ZeroStays(block, at, Le64(e.nid) + Le16(nameAt % U16_LIMIT) + [e.kind]);
  }

  lemma {:induction false} ZeroStays(block: bytes, at: nat, data: bytes)
    requires |data| == 11 && at + RECORD <= |block| && block[at + 11] == 0
    ensures Overwrite(block, at, data) == Overwrite(block, at, data + [0])
  {
  }

  lemma {:induction false} ZeroThere(es: seq<Entry>, k: nat, blockSize: nat)
    requires k < |es| && BodyFits(es, blockSize)
    ensures RECORD * k + RECORD <= blockSize && BlockSoFar(es, k, blockSize)[RECORD * k + 11] == 0
  {
    NamesGrow(es, k, |es|);
    hide Records, Names;
  }

  /** One block: records from the front, names behind them. */
  method FillBlock(es: seq<Entry>, blockSize: nat) returns (block: bytes, nameEnd: nat)
    requires BodyFits(es, blockSize)
    ensures nameEnd == NameAt(es, |es|) <= blockSize
    ensures block == Body(es, blockSize) + Zeros(blockSize - nameEnd)
  {
    hide RecordBytes, Overwrite, BlockSoFar;
    block := Zeros(blockSize);
    nameEnd := RECORD * |es|;
    BlockStarts(es, blockSize);
    for k := 0 to |es|
      invariant nameEnd == NameAt(es, k) && block == BlockSoFar(es, k, blockSize)
    {
      ZeroThere(es, k, blockSize);
      RecordPlaced(es, k, blockSize);
      block := PutRecord(block, k * RECORD, es[k], nameEnd);
      block := Overwrite(block, nameEnd, es[k].name);
      nameEnd := nameEnd + |es[k].name|;
    }
    BlockEnds(es, blockSize);
  }

  lemma {:induction false} BlockStarts(es: seq<Entry>, blockSize: nat)
    requires BodyFits(es, blockSize)
    ensures Zeros(blockSize) == BlockSoFar(es, 0, blockSize) && RECORD * |es| == NameAt(es, 0)
  {
    NamesGrow(es, 0, |es|);
  }

  lemma {:induction false} BlockEnds(es: seq<Entry>, blockSize: nat)
    requires BodyFits(es, blockSize)
    ensures BlockSoFar(es, |es|, blockSize) == Body(es, blockSize) + Zeros(blockSize - NameAt(es, |es|))
  {
  }

  /** `directory_bytes`. */
  method WriteDirectory(entries: seq<Entry>, blockSize: nat) returns (output: bytes)
    requires DirBlock(blockSize) && EntriesFit(entries)
    ensures output == DirectoryBytes(entries, blockSize)
  {
    hide Body, BodyFits, FirstEnd, EntriesFit, DirBlock;
    output := [];
    var start := 0;
    PackedNothing(Pack(entries, 0, blockSize));
    while start < |entries|
      invariant start <= |entries|
      invariant Behind(output, Pack(entries, start, blockSize)) == Pack(entries, 0, blockSize)
    {
      FirstEndFits(entries, start, blockSize);
      var end := GrowBlock(entries, start, blockSize);
      if end == start {
        return [];
      }
      var block, nameEnd := FillBlock(entries[start..end], blockSize);
      PackedMore(entries, start, blockSize, output);
      if end == |entries| {
        assert block[..nameEnd] == Body(entries[start..end], blockSize);
        output := output + block[..nameEnd];
      } else {
        output := output + block;
      }
      start := end;
    }
    assert output + [] == output;
  }

  function Behind(output: bytes, r: Option<bytes>): Option<bytes> {
    if r.Some? then Some(output + r.value) else None
  }

  lemma {:induction false} PackedNothing(r: Option<bytes>)
    ensures Behind([], r) == r
  {
    assert r.Some? ==> [] + r.value == r.value;
  }

  lemma {:induction false} PackedMore(entries: seq<Entry>, start: nat, blockSize: nat, output: bytes)
    requires start < |entries| && DirBlock(blockSize) && EntriesFit(entries)
    requires FirstEnd(entries, start, blockSize) > start
    requires BodyFits(entries[start..FirstEnd(entries, start, blockSize)], blockSize)
    ensures var stop := FirstEnd(entries, start, blockSize);
            Behind(output, Pack(entries, start, blockSize))
            == Behind(output + PackedBlock(entries, start, stop, blockSize), Pack(entries, stop, blockSize))
  {
    hide Body, BodyFits, FirstEnd;
    var stop := FirstEnd(entries, start, blockSize);
    var rest := Pack(entries, stop, blockSize);
    if rest.Some? {
      assert output + (PackedBlock(entries, start, stop, blockSize) + rest.value)
          == output + PackedBlock(entries, start, stop, blockSize) + rest.value;
    }
  }

  method GrowBlock(entries: seq<Entry>, start: nat, blockSize: nat) returns (end: nat)
    requires start < |entries|
    ensures end == FirstEnd(entries, start, blockSize)
  {
    end := start;
    var names: nat := 0;
    while end < |entries| && (end - start + 1) * RECORD + names + |entries[end].name| <= blockSize
      invariant start <= end <= |entries|
      invariant BlockEnd(entries, start, end, names, blockSize) == FirstEnd(entries, start, blockSize)
    {
      names := names + |entries[end].name|;
      end := end + 1;
    }
  }

  // ---- The reader ------------------------------------------------------------------------------------------

  /** `trim_end_matches('\0')`. */
  function TrimNul(name: bytes): (r: bytes) {
    if name != [] && name[|name| - 1] == 0 then TrimNul(name[..|name| - 1]) else name
  }

  /** Entry `index` of a block with `count` records whose names start at `first`; skipped when it makes no sense. */
  function EntryAt(block: bytes, first: nat, count: nat, index: nat): seq<Entry>
    requires index < count && count * RECORD <= |block|
  {
    var at := index * RECORD;
    var nid := Get64(block, at);
    var from := Get16(block, at + 8);
    var until := if index + 1 < count then Get16(block, at + 20) else |block|;
    if nid == 0 || from < first || until < from || until > |block| then []
    else [Entry(nid, TrimNul(block[from..until]), block[at + 10])]
  }

  function EntriesFrom(block: bytes, first: nat, count: nat, index: nat): seq<Entry>
    requires index <= count && count * RECORD <= |block|
    decreases count - index
  {
    if index == count then [] else EntryAt(block, first, count, index) + EntriesFrom(block, first, count, index + 1)
  }

  function ParseBlock(block: bytes): Result<seq<Entry>, DirError> {
    if |block| < RECORD then Ok([])
    else
      var first := Get16(block, 8);
      if first == 0 then Ok([])
      else if first < RECORD || first > |block| then Err(BadNameOffset)
      else Ok(EntriesFrom(block, first, first / RECORD, 0))
  }

  function ParseFrom(data: bytes, offset: nat, blockSize: nat): Result<seq<Entry>, DirError>
    requires blockSize > 0 && offset <= |data|
    decreases |data| - offset
  {
    if offset == |data| then Ok([])
    else
      var end := Min(offset + blockSize, |data|);
      match ParseBlock(data[offset..end])
      case Err(e) => Err(e)
      case Ok(here) =>
        match ParseFrom(data, end, blockSize)
        case Err(e) => Err(e)
        case Ok(rest) => Ok(here + rest)
  }

  /** `parse`. */
  method Parse(data: bytes, blockSize: nat) returns (r: Result<seq<Entry>, DirError>)
    requires blockSize > 0
    ensures r == ParseFrom(data, 0, blockSize)
  {
    hide ParseBlock;
    var result: seq<Entry> := [];
    var offset := 0;
    ghost var all := ParseFrom(data, 0, blockSize);
    assert Appended([], all) == all by {
      assert all.Ok? ==> [] + all.value == all.value;
    }
    while offset < |data|
      invariant 0 <= offset <= |data| && Appended(result, ParseFrom(data, offset, blockSize)) == all
    {
      var end := Min(offset + blockSize, |data|);
      var here := ReadBlock(data[offset..end]);
      if here.Err? {
        return Err(here.error);
      }
      ghost var rest := ParseFrom(data, end, blockSize);
      assert rest.Ok? ==> result + (here.value + rest.value) == result + here.value + rest.value;
      result := result + here.value;
      offset := end;
    }
    assert result + [] == result;
    return Ok(result);
  }

  method ReadBlock(block: bytes) returns (r: Result<seq<Entry>, DirError>)
    ensures r == ParseBlock(block)
  {
    hide EntryAt, Get16;
    if |block| < RECORD {
      return Ok([]);
    }
    var first := Get16(block, 8);
    if first == 0 {
      return Ok([]);
    }
    if first < RECORD || first > |block| {
      return Err(BadNameOffset);
    }
    var count := first / RECORD;
    var found: seq<Entry> := [];
    ghost var all := EntriesFrom(block, first, count, 0);
    assert [] + all == all;
    for index := 0 to count
      invariant found + EntriesFrom(block, first, count, index) == all
    {
      assert found + (EntryAt(block, first, count, index) + EntriesFrom(block, first, count, index + 1))
          == found + EntryAt(block, first, count, index) + EntriesFrom(block, first, count, index + 1);
      found := found + EntryAt(block, first, count, index);
    }
    assert found + [] == found;
    return Ok(found);
  }

  // ---- Round trip ------------------------------------------------------------------------------------------

  /** What a reader can show of an entry: not a node number 0, and no NUL bytes at the end of a name. */
  function Shown(e: Entry): seq<Entry> {
    if e.nid == 0 then [] else [Entry(e.nid, TrimNul(e.name), e.kind)]
  }

  function AllShown(entries: seq<Entry>, from: nat): seq<Entry>
    requires from <= |entries|
    decreases |entries| - from
  {
    if from == |entries| then [] else Shown(entries[from]) + AllShown(entries, from + 1)
  }

  lemma {:induction false} TrimPadding(name: bytes, n: nat)
    ensures TrimNul(name + Zeros(n)) == TrimNul(name)
    decreases n
  {
    if n == 0 {
      assert name + Zeros(0) == name;
    } else {
      assert (name + Zeros(n))[..|name| + n - 1] == name + Zeros(n - 1);
      TrimPadding(name, n - 1);
    }
  }

  lemma {:induction false} RecordIn(es: seq<Entry>, k: nat, i: nat, blockSize: nat)
    requires i < k <= |es| && BodyFits(es, blockSize)
    ensures NameAt(es, i) <= blockSize && HasAt(Records(es, k, blockSize), RECORD * i, RecordBytes(es[i], NameAt(es, i)))
    decreases k
  {
    NamesGrow(es, i, |es|);
    hide RecordBytes;
    NamesGrow(es, k - 1, |es|);
    var front := Records(es, k - 1, blockSize);
    if i < k - 1 {
      RecordIn(es, k - 1, i, blockSize);
      var all := Records(es, k, blockSize);
      assert all[RECORD * i..RECORD * i + RECORD] == front[RECORD * i..RECORD * i + RECORD];
    }
  }

  lemma {:induction false} NameIn(es: seq<Entry>, k: nat, i: nat)
    requires i < k <= |es|
    ensures HasAt(Names(es, k), |Names(es, i)|, es[i].name)
    decreases k
  {
    NamesGrow(es, i + 1, k);
    if i < k - 1 {
      NameIn(es, k - 1, i);
      var at := |Names(es, i)|;
      assert Names(es, k)[at..at + |es[i].name|] == Names(es, k - 1)[at..at + |es[i].name|];
    }
  }

  /** A block, padded or truncated, carries every record and every name. */
  lemma {:induction false} BlockCarries(es: seq<Entry>, i: nat, blockSize: nat, padding: nat)
    requires i < |es| && BodyFits(es, blockSize)
    ensures var block := Body(es, blockSize) + Zeros(padding);
            && NameAt(es, i) + |es[i].name| <= blockSize
            && HasAt(block, RECORD * i, RecordBytes(es[i], NameAt(es, i)))
            && HasAt(block, NameAt(es, i), es[i].name)
  {
    var block := Body(es, blockSize) + Zeros(padding);
    RecordIn(es, |es|, i, blockSize);
    NameIn(es, |es|, i);
    NamesGrow(es, i + 1, |es|);
    hide RecordBytes, Names, Records;
    assert block[0..RECORD * |es|] == Records(es, |es|, blockSize);
    HasAtPart(block, 0, Records(es, |es|, blockSize), RECORD * i, RecordBytes(es[i], NameAt(es, i)));
    assert block[RECORD * |es|..NameAt(es, |es|)] == Names(es, |es|);
    HasAtPart(block, RECORD * |es|, Names(es, |es|), |Names(es, i)|, es[i].name);
  }

  lemma {:induction false} RecordReads(block: bytes, at: nat, e: Entry, nameAt: nat)
    requires e.nid < U64_LIMIT && nameAt < U16_LIMIT && HasAt(block, at, RecordBytes(e, nameAt))
    ensures Get64(block, at) == e.nid && Get16(block, at + 8) == nameAt && block[at + 10] == e.kind
  {
    var a, b, c, d := Le64(e.nid), Le16(nameAt), [e.kind], [0];
    HasAtPart(block, at, a + b + c + d, 0, a);
    HasAtPart(block, at, a + b + c + d, 8, b);
    HasAtPart(block, at, a + b + c + d, 10, c);
    assert block[at + 10..at + 11][0] == c[0];
    hide Le64, Le16, Get64, Get16, HasAt;
    Read64(block, at, e.nid);
    Read16(block, at + 8, nameAt);
  }

  lemma {:induction false} EntryReads(es: seq<Entry>, i: nat, blockSize: nat, padding: nat)
    requires i < |es| && BodyFits(es, blockSize) && OffsetsFit(es, blockSize)
    ensures var block := Body(es, blockSize) + Zeros(padding);
            RECORD * |es| <= |block| && EntryAt(block, RECORD * |es|, |es|, i) == Shown(es[i])
  {
    hide RecordBytes, Get64, Get16, TrimNul, HasAt, Body, Shown, EntryAt, Names;
    BlockCarries(es, i, blockSize, padding);
    var block, from := Body(es, blockSize) + Zeros(padding), NameAt(es, i);
    RecordReads(block, RECORD * i, es[i], from);
    if i + 1 < |es| {
      BlockCarries(es, i + 1, blockSize, padding);
      RecordReads(block, RECORD * (i + 1), es[i + 1], NameAt(es, i + 1));
      NameSlice(block, from, es[i].name);
      NextName(es, i);
      EntryAtIs(block, |es|, i, es[i], from, NameAt(es, i + 1));
    } else {
      LastName(es, blockSize, padding);
      TrimPadding(es[i].name, padding);
      assert block[from..|block|] == block[from..];
      EntryAtIs(block, |es|, i, es[i], from, |block|);
    }
  }

  lemma {:induction false} NextName(es: seq<Entry>, i: nat)
    requires i < |es|
    ensures NameAt(es, i + 1) == NameAt(es, i) + |es[i].name|
  {
  }

  /** What the reader makes of a record with these fields. */
  lemma {:induction false} EntryAtIs(block: bytes, count: nat, i: nat, e: Entry, from: nat, until: nat)
    requires i < count && RECORD * count <= from <= until <= |block|
    requires Get64(block, RECORD * i) == e.nid && Get16(block, RECORD * i + 8) == from && block[RECORD * i + 10] == e.kind
    requires if i + 1 < count then Get16(block, RECORD * i + 20) == until else until == |block|
    requires TrimNul(block[from..until]) == TrimNul(e.name)
    ensures EntryAt(block, RECORD * count, count, i) == Shown(e)
  {
    hide Get64, Get16, TrimNul;
  }

  lemma {:induction false} NameSlice(block: bytes, at: nat, name: bytes)
    requires HasAt(block, at, name)
    ensures at + |name| <= |block| && block[at..at + |name|] == name
  {
  }

  lemma {:induction false} LastName(es: seq<Entry>, blockSize: nat, padding: nat)
    requires es != [] && BodyFits(es, blockSize)
    ensures var block, i := Body(es, blockSize) + Zeros(padding), |es| - 1;
            NameAt(es, i) <= |block| && block[NameAt(es, i)..] == es[i].name + Zeros(padding)
  {
    hide Records;
    var i := |es| - 1;
    assert Names(es, |es|) == Names(es, i) + es[i].name;
  }

  lemma {:induction false} BlockShown(es: seq<Entry>, i: nat, blockSize: nat, padding: nat)
    requires i <= |es| && BodyFits(es, blockSize) && OffsetsFit(es, blockSize)
    ensures var block := Body(es, blockSize) + Zeros(padding);
            RECORD * |es| <= |block| && EntriesFrom(block, RECORD * |es|, |es|, i) == AllShown(es, i)
    decreases |es| - i
  {
    hide EntryAt, Body, Shown;
    if i < |es| {
      EntryReads(es, i, blockSize, padding);
      BlockShown(es, i + 1, blockSize, padding);
    }
  }

  lemma {:induction false} BlockParses(es: seq<Entry>, blockSize: nat, padding: nat)
    requires es != [] && BodyFits(es, blockSize) && OffsetsFit(es, blockSize)
    ensures ParseBlock(Body(es, blockSize) + Zeros(padding)) == Ok(AllShown(es, 0))
  {
    hide EntriesFrom, AllShown;
    BlockCarries(es, 0, blockSize, padding);
    RecordReads(Body(es, blockSize) + Zeros(padding), 0, es[0], NameAt(es, 0));
    BlockShown(es, 0, blockSize, padding);
    assert RECORD * |es| / RECORD == |es|;
  }

  lemma {:induction false} AllShownSplit(entries: seq<Entry>, start: nat, stop: nat, i: nat)
    requires start <= i <= stop <= |entries|
    ensures AllShown(entries, i) == AllShown(entries[start..stop], i - start) + AllShown(entries, stop)
    decreases stop - i
  {
    if i < stop {
      AllShownSplit(entries, start, stop, i + 1);
      assert entries[start..stop][i - start] == entries[i];
    }
  }

  lemma {:induction false} PackParses(data: bytes, entries: seq<Entry>, start: nat, offset: nat, blockSize: nat)
    requires start <= |entries| && DirBlock(blockSize) && EntriesFit(entries) && OffsetsFit(entries, blockSize) && offset <= |data|
    requires Pack(entries, start, blockSize) == Some(data[offset..])
    ensures ParseFrom(data, offset, blockSize) == Ok(AllShown(entries, start))
    decreases |entries| - start
  {
    hide Body, BodyFits, FirstEnd, EntriesFit, ParseBlock;
    if start < |entries| {
      FirstEndFits(entries, start, blockSize);
      var stop := FirstEnd(entries, start, blockSize);
      var es := entries[start..stop];
      var block, rest := PackedBlock(entries, start, stop, blockSize), Pack(entries, stop, blockSize).value;
      var end := offset + |block|;
      SplitBlock(data, offset, block, rest);
      BlockNotEmpty(es, blockSize);
      PackParses(data, entries, stop, end, blockSize);
      BlockBounds(entries, start, stop, blockSize, data, offset, rest);
      PaddedBlock(entries, start, stop, blockSize);
      AllShownSplit(entries, start, stop, start);
    } else {
      assert offset == |data|;
    }
  }

  lemma {:induction false} SplitBlock(data: bytes, offset: nat, block: bytes, rest: bytes)
    requires offset <= |data| && data[offset..] == block + rest
    ensures offset + |block| <= |data| && data[offset..offset + |block|] == block && data[offset + |block|..] == rest
  {
    assert data[offset..][..|block|] == block && data[offset..][|block|..] == rest;
  }

  lemma {:induction false} BlockNotEmpty(es: seq<Entry>, blockSize: nat)
    requires es != [] && BodyFits(es, blockSize)
    ensures |Body(es, blockSize)| > 0
  {
  }

  lemma {:induction false} BlockBounds(entries: seq<Entry>, start: nat, stop: nat, blockSize: nat, data: bytes, offset: nat, rest: bytes)
    requires start <= stop <= |entries| && BodyFits(entries[start..stop], blockSize) && DirBlock(blockSize) && EntriesFit(entries)
    requires offset <= |data| && data[offset..] == PackedBlock(entries, start, stop, blockSize) + rest
    requires Pack(entries, stop, blockSize) == Some(rest)
    ensures Min(offset + blockSize, |data|) == offset + |PackedBlock(entries, start, stop, blockSize)|
  {
    hide Body, BodyFits;
  }

  lemma {:induction false} PaddedBlock(entries: seq<Entry>, start: nat, stop: nat, blockSize: nat)
    requires start < stop <= |entries| && BodyFits(entries[start..stop], blockSize) && OffsetsFit(entries, blockSize)
    ensures ParseBlock(PackedBlock(entries, start, stop, blockSize)) == Ok(AllShown(entries[start..stop], 0))
  {
    hide ParseBlock, Names, Records;
    var body := Body(entries[start..stop], blockSize);
    assert body + Zeros(0) == body;
    BlockParses(entries[start..stop], blockSize, if stop == |entries| then 0 else blockSize - |body|);
  }

  /** Packing fails exactly when some entry does not fit a block by itself. */
  lemma {:induction false} PackFailsIff(entries: seq<Entry>, start: nat, blockSize: nat)
    requires start <= |entries| && DirBlock(blockSize) && EntriesFit(entries)
    ensures Pack(entries, start, blockSize).None? <==> exists i :: start <= i < |entries| && RECORD + |entries[i].name| > blockSize
    decreases |entries| - start
  {
    hide Body, BodyFits, FirstEnd, EntriesFit;
    if start < |entries| {
      FirstEndFits(entries, start, blockSize);
      var stop := FirstEnd(entries, start, blockSize);
      if stop > start {
        PackFailsIff(entries, stop, blockSize);
        forall i | start <= i < stop
          ensures RECORD + |entries[i].name| <= blockSize
        {
          NameFits(entries[start..stop], i - start, blockSize);
        }
      }
    }
  }

  lemma {:induction false} NameFits(es: seq<Entry>, i: nat, blockSize: nat)
    requires i < |es| && BodyFits(es, blockSize)
    ensures RECORD + |es[i].name| <= blockSize
  {
    NamesGrow(es, i + 1, |es|);
  }

  /** An entry the reader shows unchanged. */
  predicate ReadsBack(e: Entry) {
    e.nid != 0 && (e.name == [] || e.name[|e.name| - 1] != 0)
  }

  lemma {:induction false} TrimShorter(name: bytes)
    ensures |TrimNul(name)| <= |name|
    ensures TrimNul(name) == name <==> name == [] || name[|name| - 1] != 0
  {
    if name != [] && name[|name| - 1] == 0 {
      TrimShorter(name[..|name| - 1]);
    }
  }

  lemma {:induction false} AllShownIff(entries: seq<Entry>, from: nat)
    requires from <= |entries|
    ensures |AllShown(entries, from)| <= |entries| - from
    ensures AllShown(entries, from) == entries[from..] <==> forall i :: from <= i < |entries| ==> ReadsBack(entries[i])
    decreases |entries| - from
  {
    if from < |entries| {
      AllShownIff(entries, from + 1);
      TrimShorter(entries[from].name);
      var here, rest := Shown(entries[from]), AllShown(entries, from + 1);
      assert entries[from..] == [entries[from]] + entries[from + 1..];
      if here + rest == entries[from..] {
        assert (here + rest)[0] == entries[from];
        assert (here + rest)[1..] == entries[from + 1..];
      }
    }
  }

  /**
   Directories read back: greedy packing fails exactly when an entry does not fit a block, and otherwise the parser
   returns exactly the entries when none has number 0 or a name that ends in NUL.
   */
  lemma {:induction false} DirectoryReadsBackIff(entries: seq<Entry>, blockSize: nat)
    requires DirBlock(blockSize) && EntriesFit(entries) && OffsetsFit(entries, blockSize) && entries != []
    ensures DirectoryBytes(entries, blockSize) == [] <==>
            exists i :: 0 <= i < |entries| && RECORD + |entries[i].name| > blockSize
    ensures DirectoryBytes(entries, blockSize) != [] ==>
              (ParseFrom(DirectoryBytes(entries, blockSize), 0, blockSize) == Ok(entries)
               <==> forall i :: 0 <= i < |entries| ==> ReadsBack(entries[i]))
  {
    hide Pack, ParseFrom, EntriesFit, AllShown, ReadsBack;
    PackFailsIff(entries, 0, blockSize);
    var packed := Pack(entries, 0, blockSize);
    if packed.Some? {
      PackNotEmpty(entries, blockSize);
      assert packed.value[0..] == packed.value;
      PackParses(packed.value, entries, 0, 0, blockSize);
      AllShownIff(entries, 0);
      assert entries[0..] == entries;
    }
  }

  lemma {:induction false} PackNotEmpty(entries: seq<Entry>, blockSize: nat)
    requires DirBlock(blockSize) && EntriesFit(entries) && entries != []
    ensures Pack(entries, 0, blockSize) != Some([])
  {
    FirstEndFits(entries, 0, blockSize);
    var stop := FirstEnd(entries, 0, blockSize);
    if stop > 0 {
      BlockNotEmpty(entries[0..stop], blockSize);
      hide Body, BodyFits, FirstEnd, EntriesFit;
      var rest := Pack(entries, stop, blockSize);
      assert rest.Some? ==> |PackedBlock(entries, 0, stop, blockSize) + rest.value| > 0;
    }
  }
}
