/**
 Linear directories: the builder packs records into blocks, patching a record's length when the next one does not
 fit behind it; the reader walks the records.
 */
module Ext4Dir {
  import opened Core
  import opened Arith
  import opened OutFile

  const DIR_HEADER: nat := 8
  const MAX_NAME: nat := 255
  const LONGEST: nat := 264

  /** A directory record: inode number, name and file type. */
  datatype Entry = Entry(inode: nat, name: bytes, kind: byte)

  datatype DirError = BadRecord

  predicate EntryFits(e: Entry) {
    0 < e.inode < U32_LIMIT && |e.name| <= MAX_NAME
  }

  predicate EntriesFit(entries: seq<Entry>) {
    entries != [] && forall i :: 0 <= i < |entries| ==> EntryFits(entries[i])
  }

  /** Block sizes a directory can be packed into: multiples of 4 with room for any record, 64 KiB at most. */
  predicate DirBlock(block: nat) {
    LONGEST <= block <= 0x10000 && block % 4 == 0
  }

  // ---- Format ----------------------------------------------------------------------------------------------

  function MinLength(e: Entry): (n: nat)
    ensures DIR_HEADER + |e.name| <= n < DIR_HEADER + |e.name| + 4 && n % 4 == 0
  {
    DivCeilMeaning(DIR_HEADER + |e.name|, 4);
    DivCeil(DIR_HEADER + |e.name|, 4) * 4
  }

  /** A record without its padding; its length field is truncated to 16 bits. */
  function RecordHead(e: Entry, length: nat): (b: bytes)
    requires EntryFits(e)
    ensures |b| == DIR_HEADER + |e.name|
  {
    Le32(e.inode) + Le16(length % U16_LIMIT) + [|e.name| as byte] + [e.kind] + e.name
  }

  function RecordBytes(e: Entry, length: nat): (b: bytes)
    requires EntryFits(e) && DIR_HEADER + |e.name| <= length
    ensures |b| == length
  {
    RecordHead(e, length) + Zeros(length - DIR_HEADER - |e.name|)
  }

  /** Offset of a position in its block. */
  function PosIn(pos: nat, block: nat): (r: nat)
    requires block > 0
    ensures r < block
  {
    pos % block
  }

  /** Length of record `i` placed at `pos`: to the end of the block when it is the last or the next does not fit. */
  function RecordLength(entries: seq<Entry>, i: nat, pos: nat, block: nat): (n: nat)
    requires i < |entries| && block > 0
  {
    if i + 1 == |entries| then block - PosIn(pos, block)
    else
      var used := PosIn(pos + MinLength(entries[i]), block);
      if used != 0 && used + MinLength(entries[i + 1]) > block then MinLength(entries[i]) + (block - used)
      else MinLength(entries[i])
  }

  /** A record starts in front of its block's end with room for itself. */
  predicate Starts(entries: seq<Entry>, i: nat, pos: nat, block: nat)
    requires i <= |entries| && block > 0
  {
    if i == |entries| then PosIn(pos, block) == 0 else pos % 4 == 0 && PosIn(pos, block) + MinLength(entries[i]) <= block
  }

  lemma {:induction false} PosAdd(pos: nat, n: nat, block: nat)
    requires block > 0 && PosIn(pos, block) + n <= block
    ensures PosIn(pos + n, block) == if PosIn(pos, block) + n == block then 0 else PosIn(pos, block) + n
    ensures (pos + n) / block == if PosIn(pos, block) + n == block then pos / block + 1 else pos / block
  {
    var q, r := pos / block, pos % block;
    assert pos == q * block + r;
    if r + n == block {
      MulDistributes(q, 1, block);
      DivUnique(pos + n, q + 1, 0, block);
    } else {
      DivUnique(pos + n, q, r + n, block);
    }
  }

  lemma {:induction false} PosAligned(pos: nat, block: nat)
    requires block > 0 && block % 4 == 0
    ensures PosIn(pos, block) % 4 == pos % 4
  {
    ModKeepsRest(pos, block, 4);
  }

  lemma {:induction false} MinAtMost(entries: seq<Entry>, i: nat)
    requires EntriesFit(entries) && i < |entries|
    ensures EntryFits(entries[i]) && MinLength(entries[i]) <= LONGEST
  {
    assert EntryFits(entries[i]);
  }

  predicate Aligned(n: int) {
    n % 4 == 0
  }

  lemma {:induction false} AlignedSum(a: int, b: int)
    requires Aligned(a) && Aligned(b)
    ensures Aligned(a + b) && Aligned(a - b)
  {
  }

  lemma {:induction false} LastFits(entries: seq<Entry>, pos: nat, block: nat)
    requires EntriesFit(entries) && DirBlock(block) && Starts(entries, |entries| - 1, pos, block)
    ensures var n := RecordLength(entries, |entries| - 1, pos, block);
            && MinLength(entries[|entries| - 1]) <= n && Aligned(n) && PosIn(pos, block) + n == block
            && Starts(entries, |entries|, pos + n, block)
  {
    PosAligned(pos, block);
    assert Aligned(block) && Aligned(PosIn(pos, block));
    hide PosIn, MinLength, EntriesFit, Aligned;
    AlignedSum(block, PosIn(pos, block));
    PosAdd(pos, block - PosIn(pos, block), block);
  }

  lemma {:induction false} InnerFits(entries: seq<Entry>, i: nat, pos: nat, block: nat)
    requires EntriesFit(entries) && DirBlock(block) && i + 1 < |entries| && Starts(entries, i, pos, block)
    ensures var n := RecordLength(entries, i, pos, block);
            && MinLength(entries[i]) <= n < U16_LIMIT && Aligned(n) && PosIn(pos, block) + n <= block
            && Starts(entries, i + 1, pos + n, block)
  {
    var min := MinLength(entries[i]);
    MinAtMost(entries, i + 1);
    PosAligned(pos + min, block);
    assert Aligned(min) && Aligned(block) && Aligned(pos);
    AlignedSum(pos, min);
    assert Aligned(PosIn(pos + min, block));
    hide PosIn, MinLength, EntriesFit, Aligned;
    PosAdd(pos, min, block);
    var n := RecordLength(entries, i, pos, block);
    AlignedSum(block, PosIn(pos + min, block));
    AlignedSum(min, block - PosIn(pos + min, block));
    PosAdd(pos, n, block);
    AlignedSum(pos, n);
    StartsAt(entries, i + 1, pos + n, block);
  }

  lemma {:induction false} StartsAt(entries: seq<Entry>, i: nat, pos: nat, block: nat)
    requires i < |entries| && block > 0 && Aligned(pos) && PosIn(pos, block) + MinLength(entries[i]) <= block
    ensures Starts(entries, i, pos, block)
  {
  }

  /** A record fits its block, and the next one starts right behind it. */
  lemma {:induction false} LengthFits(entries: seq<Entry>, i: nat, pos: nat, block: nat)
    requires EntriesFit(entries) && DirBlock(block) && i < |entries| && Starts(entries, i, pos, block)
    ensures var n := RecordLength(entries, i, pos, block);
            && MinLength(entries[i]) <= n && PosIn(pos, block) + n <= block
            && Starts(entries, i + 1, pos + n, block)
            && (i + 1 < |entries| ==> n < U16_LIMIT)
  {
    hide MinLength, PosIn, EntriesFit, Starts, RecordLength;
    if i + 1 < |entries| {
      InnerFits(entries, i, pos, block);
    } else {
      LastFits(entries, pos, block);
    }
  }

  /** The records `i..` from position `pos` on. */
  function Packed(entries: seq<Entry>, i: nat, pos: nat, block: nat): (b: bytes)
    requires EntriesFit(entries) && DirBlock(block) && i <= |entries| && Starts(entries, i, pos, block)
    decreases |entries| - i
  {
    if i == |entries| then []
    else
      LengthFits(entries, i, pos, block);
      var n := RecordLength(entries, i, pos, block);
      RecordBytes(entries[i], n) + Packed(entries, i + 1, pos + n, block)
  }

  lemma {:induction false} FirstStarts(entries: seq<Entry>, block: nat)
    requires EntriesFit(entries) && DirBlock(block)
    ensures Starts(entries, 0, 0, block)
  {
    assert EntryFits(entries[0]);
  }

  function DirectoryBytes(entries: seq<Entry>, block: nat): bytes
    requires EntriesFit(entries) && DirBlock(block)
  {
    FirstStarts(entries, block);
    Packed(entries, 0, 0, block)
  }

  lemma {:induction false} EndsWhole(entries: seq<Entry>, i: nat, pos: nat, block: nat)
    requires i <= |entries| && block > 0 && Starts(entries, i, pos, block)
    ensures i == |entries| ==> PosIn(pos, block) == 0
  {
  }

  lemma {:induction false} PackedWhole(entries: seq<Entry>, i: nat, pos: nat, block: nat)
    requires EntriesFit(entries) && DirBlock(block) && i <= |entries| && Starts(entries, i, pos, block)
    ensures PosIn(pos + |Packed(entries, i, pos, block)|, block) == 0
    decreases |entries| - i
  {
    hide MinLength, RecordHead, EntriesFit, PosIn, Starts;
    EndsWhole(entries, i, pos, block);
    if i < |entries| {
      LengthFits(entries, i, pos, block);
      PackedWhole(entries, i + 1, pos + RecordLength(entries, i, pos, block), block);
    }
  }

  // ---- The writer ------------------------------------------------------------------------------------------

  lemma {:induction false} AppendHead(result: bytes, length: nat, head: bytes)
    requires |head| <= length
    ensures Overwrite(result + Zeros(length), |result|, head) == result + (head + Zeros(length - |head|))
  {
    hide Overwrite;
    var after := Overwrite(result + Zeros(length), |result|, head);
    OverwriteAt(result + Zeros(length), |result|, head);
    var wanted := result + (head + Zeros(length - |head|));
    forall i | 0 <= i < |after|
      ensures after[i] == wanted[i]
    {
      assert after[i] == ByteAt(after, i);
    }
  }

  /** Appends a record: the room first, then its fields one by one. */
  method AppendRecord(result: bytes, e: Entry, length: nat) returns (r: bytes)
    requires EntryFits(e) && DIR_HEADER + |e.name| <= length
    ensures r == result + RecordBytes(e, length)
  {
    hide Overwrite, Le16, Le32;
    var start := |result|;
    var room := result + Zeros(length);
    r := Overwrite(room, start, Le32(e.inode));
    r := Overwrite(r, start + 4, Le16(length % U16_LIMIT));
    OverwriteTwice(room, start, Le32(e.inode), Le16(length % U16_LIMIT));
    r := Overwrite(r, start + 6, [|e.name| as byte]);
    OverwriteTwice(room, start, Le32(e.inode) + Le16(length % U16_LIMIT), [|e.name| as byte]);
    r := Overwrite(r, start + 7, [e.kind]);
    OverwriteTwice(room, start, Le32(e.inode) + Le16(length % U16_LIMIT) + [|e.name| as byte], [e.kind]);
    ghost var fixed := Le32(e.inode) + Le16(length % U16_LIMIT) + [|e.name| as byte] + [e.kind];
    if e.name != [] {
      r := Overwrite(r, start + 8, e.name);
      OverwriteTwice(room, start, fixed, e.name);
    } else {
      assert fixed + e.name == fixed;
    }
    assert fixed + e.name == RecordHead(e, length);
    AppendHead(result, length, RecordHead(e, length));
  }

  lemma {:induction false} PatchHead(e: Entry, length: nat, longer: nat)
    requires EntryFits(e)
    ensures Overwrite(RecordHead(e, length), 4, Le16(longer % U16_LIMIT)) == RecordHead(e, longer)
  {
    hide Le16, Le32;
  }

  /** A record whose stored length is raised, with zeros behind it, is the record of that length. */
  lemma {:induction false} PatchRecord(front: bytes, e: Entry, length: nat, padding: nat)
    requires EntryFits(e) && DIR_HEADER + |e.name| <= length
    ensures Overwrite(front + RecordBytes(e, length), |front| + 4, Le16((length + padding) % U16_LIMIT)) + Zeros(padding)
         == front + RecordBytes(e, length + padding)
  {
    hide Le16, RecordHead;
    var head, patch := RecordHead(e, length), Le16((length + padding) % U16_LIMIT);
    PatchHead(e, length, length + padding);
    assert Zeros(length - DIR_HEADER - |e.name|) + Zeros(padding) == Zeros(length + padding - DIR_HEADER - |e.name|);
    var rest := Zeros(length - DIR_HEADER - |e.name|);
    assert Overwrite(front + (head + rest), |front| + 4, patch) == front + (Overwrite(head, 4, patch) + rest);
  }

  lemma {:induction false} LengthField(front: bytes, e: Entry, length: nat)
    requires EntryFits(e) && DIR_HEADER + |e.name| <= length < U16_LIMIT
    ensures Get16(front + RecordBytes(e, length), |front| + 4) == length
  {
    hide Get16, Le16, Le32;
    var all := front + RecordBytes(e, length);
    assert all[|front| + 4..|front| + 6] == Le16(length);
    Read16(all, |front| + 4, length);
  }

  /** What the loop has when the records before `i` are placed: the last of them without padding. */
  ghost predicate Placed(result: bytes, front: bytes, entries: seq<Entry>, i: nat, block: nat)
    requires EntriesFit(entries) && DirBlock(block)
  {
    if i == 0 then result == []
    else
      && i < |entries| && result == front + RecordBytes(entries[i - 1], MinLength(entries[i - 1]))
      && Starts(entries, i - 1, |front|, block)
      && front + Packed(entries, i - 1, |front|, block) == DirectoryBytes(entries, block)
  }

  /** With the padding in place, the next record starts where the look-ahead says. */
  lemma {:induction false} NextStarts(result: bytes, front: bytes, entries: seq<Entry>, i: nat, block: nat, padded: bytes)
    requires EntriesFit(entries) && DirBlock(block) && i < |entries| && Placed(result, front, entries, i, block)
    requires i == 0 ==> padded == []
    requires i > 0 ==> padded == front + RecordBytes(entries[i - 1], RecordLength(entries, i - 1, |front|, block))
    ensures Starts(entries, i, |padded|, block)
    ensures padded + Packed(entries, i, |padded|, block) == DirectoryBytes(entries, block)
  {
    hide MinLength, EntriesFit, RecordBytes, PosIn, RecordLength, Starts, DirectoryBytes, Packed;
    if i == 0 {
      StartOfDirectory(entries, block);
    } else {
      LengthFits(entries, i - 1, |front|, block);
      MinAtMost(entries, i - 1);
      PackedStep(entries, i - 1, |front|, block);
      var n := RecordLength(entries, i - 1, |front|, block);
      assert front + (RecordBytes(entries[i - 1], n) + Packed(entries, i, |front| + n, block))
          == padded + Packed(entries, i, |padded|, block);
    }
  }

  lemma {:induction false} StartOfDirectory(entries: seq<Entry>, block: nat)
    requires EntriesFit(entries) && DirBlock(block)
    ensures Starts(entries, 0, 0, block) && [] + Packed(entries, 0, 0, block) == DirectoryBytes(entries, block)
  {
    hide Packed;
    FirstStarts(entries, block);
  }

  lemma {:induction false} PackedStep(entries: seq<Entry>, i: nat, pos: nat, block: nat)
    requires EntriesFit(entries) && DirBlock(block) && i < |entries| && Starts(entries, i, pos, block)
    requires var n := RecordLength(entries, i, pos, block);
             EntryFits(entries[i]) && DIR_HEADER + |entries[i].name| <= n && Starts(entries, i + 1, pos + n, block)
    ensures var n := RecordLength(entries, i, pos, block);
            Packed(entries, i, pos, block) == RecordBytes(entries[i], n) + Packed(entries, i + 1, pos + n, block)
  {
    hide RecordLength, Starts, MinLength, RecordBytes;
  }

  /** Padding behind the previous record when the next one does not fit: `result`, or its patched form. */
  method PadPrevious(result: bytes, entries: seq<Entry>, i: nat, block: nat, start: nat, ghost front: bytes) returns (padded: bytes)
    requires EntriesFit(entries) && DirBlock(block) && i < |entries| && Placed(result, front, entries, i, block)
    requires i > 0 ==> start == |front|
    ensures i == 0 ==> padded == []
    ensures i > 0 ==> padded == front + RecordBytes(entries[i - 1], RecordLength(entries, i - 1, |front|, block))
  {
    hide RecordBytes, Overwrite, Get16, DirectoryBytes, Packed, MinLength, PosIn, EntriesFit, Starts;
    var minimum := MinLength(entries[i]);
    var used := PosIn(|result|, block);
    NothingUsed(block);
    if used != 0 && used + minimum > block {
      var padding := block - used;
      MinAtMost(entries, i - 1);
      MinAtMost(entries, i);
      LengthField(front, entries[i - 1], MinLength(entries[i - 1]));
      var length := Get16(result, start + 4);
      var raised := Min(length + padding, U16_LIMIT - 1);
      PatchRecord(front, entries[i - 1], MinLength(entries[i - 1]), padding);
      padded := Overwrite(result, start + 4, Le16(raised)) + Zeros(padding);
    } else {
      padded := result;
    }
  }

  lemma {:induction false} NothingUsed(block: nat)
    requires DirBlock(block)
    ensures PosIn(0, block) == 0
  {
  }

  /** `directory`. */
  method Directory(entries: seq<Entry>, block: nat) returns (result: bytes)
    requires EntriesFit(entries) && DirBlock(block)
    ensures result == DirectoryBytes(entries, block)
  {
    assert entries != [];
    hide RecordBytes, MinLength, DirectoryBytes, Packed, EntryFits, Starts, PosIn, EntriesFit;
    result := [];
    var previousStart: nat := 0;
    ghost var front: bytes := [];
    for i := 0 to |entries|
      invariant i < |entries| ==> Placed(result, front, entries, i, block)
      invariant i > 0 ==> previousStart == |front|
      invariant i == |entries| ==> result == DirectoryBytes(entries, block)
    {
      var padded := PadPrevious(result, entries, i, block, previousStart, front);
      NextStarts(result, front, entries, i, block, padded);
      LengthFits(entries, i, |padded|, block);
      var length := if i + 1 == |entries| then block - PosIn(|padded|, block) else MinLength(entries[i]);
      MinAtMost(entries, i);
      result := AppendRecord(padded, entries[i], length);
      RecordPlaced(padded, entries, i, block);
      previousStart := |padded|;
      front := padded;
    }
  }

  lemma {:induction false} RecordPlaced(padded: bytes, entries: seq<Entry>, i: nat, block: nat)
    requires EntriesFit(entries) && DirBlock(block) && i < |entries| && Starts(entries, i, |padded|, block)
    requires padded + Packed(entries, i, |padded|, block) == DirectoryBytes(entries, block)
    ensures i + 1 < |entries| ==>
              Placed(padded + RecordBytes(entries[i], MinLength(entries[i])), padded, entries, i + 1, block)
    ensures i + 1 == |entries| ==>
              block - PosIn(|padded|, block) >= DIR_HEADER + |entries[i].name|
              && padded + RecordBytes(entries[i], block - PosIn(|padded|, block)) == DirectoryBytes(entries, block)
  {
    LengthFits(entries, i, |padded|, block);
    hide MinLength, RecordBytes, PosIn, EntriesFit, Starts;
    if i + 1 == |entries| {
      assert Packed(entries, i, |padded|, block) == RecordBytes(entries[i], block - PosIn(|padded|, block)) + [];
    }
  }

  // ---- The reader ------------------------------------------------------------------------------------------

  /** Records from `offset` on; unused and overlong ones are skipped. */
  function ParseFrom(data: bytes, offset: nat): Result<seq<Entry>, DirError>
    decreases |data| - offset
  {
    if offset + DIR_HEADER > |data| then Ok([])
    else
      var length := Get16(data, offset + 4);
      if length < DIR_HEADER || offset + length > |data| then Err(BadRecord)
      else
        match ParseFrom(data, offset + length)
        case Err(e) => Err(e)
        case Ok(rest) => Ok(RecordAt(data, offset, length) + rest)
  }

  function RecordAt(data: bytes, offset: nat, length: nat): seq<Entry>
    requires DIR_HEADER <= length && offset + length <= |data|
  {
    var inode, nameLength := Get32(data, offset), data[offset + 6] as int;
    if inode != 0 && DIR_HEADER + nameLength <= length
    then [Entry(inode, data[offset + DIR_HEADER..offset + DIR_HEADER + nameLength], data[offset + 7])]
    else []
  }

  /** `dir::read` on the bytes of a directory. */
  method ReadRecords(data: bytes) returns (r: Result<seq<Entry>, DirError>)
    ensures r == ParseFrom(data, 0)
  {
    hide Get16, RecordAt;
    var entries: seq<Entry> := [];
    var offset: nat := 0;
    assert Appended([], ParseFrom(data, 0)) == ParseFrom(data, 0) by {
      assert ParseFrom(data, 0).Ok? ==> [] + ParseFrom(data, 0).value == ParseFrom(data, 0).value;
    }
    while offset + DIR_HEADER <= |data|
      invariant Appended(entries, ParseFrom(data, offset)) == ParseFrom(data, 0)
      decreases |data| - offset
    {
      var length := Get16(data, offset + 4);
      if length < DIR_HEADER || offset + length > |data| {
        return Err(BadRecord);
      }
      ghost var rest := ParseFrom(data, offset + length);
      assert rest.Ok? ==>
          entries + (RecordAt(data, offset, length) + rest.value) == entries + RecordAt(data, offset, length) + rest.value;
      entries := entries + RecordAt(data, offset, length);
      offset := offset + length;
    }
    assert entries + [] == entries;
    return Ok(entries);
  }

  // ---- Round trip ------------------------------------------------------------------------------------------

  /** A record in the data reads as its entry. */
  lemma {:induction false} RecordReads(data: bytes, offset: nat, e: Entry, length: nat)
    requires EntryFits(e) && DIR_HEADER + |e.name| <= length && HasAt(data, offset, RecordBytes(e, length))
    ensures offset + length <= |data| && Get16(data, offset + 4) == length % U16_LIMIT
    ensures RecordAt(data, offset, length) == [e]
  {
    var a, b, c, d := Le32(e.inode), Le16(length % U16_LIMIT), [|e.name| as byte], [e.kind];
    var pad := Zeros(length - DIR_HEADER - |e.name|);
    var all := a + b + c + d + e.name + pad;
    assert RecordBytes(e, length) == all;
    hide Le16, Le32, Get16, Get32;
    assert all[0..4] == a && all[4..6] == b && all[6..7] == c && all[7..8] == d && all[8..8 + |e.name|] == e.name;
    HasAtPart(data, offset, all, 0, a);
    HasAtPart(data, offset, all, 4, b);
    HasAtPart(data, offset, all, 6, c);
    HasAtPart(data, offset, all, 7, d);
    HasAtPart(data, offset, all, 8, e.name);
    Read32(data, offset, e.inode);
    Read16(data, offset + 4, length % U16_LIMIT);
    assert data[offset + 6..offset + 7][0] == c[0] && data[offset + 7..offset + 8][0] == d[0];
  }

  /** Where the last record starts. */
  function LastStart(entries: seq<Entry>, i: nat, pos: nat, block: nat): nat
    requires EntriesFit(entries) && DirBlock(block) && i < |entries| && Starts(entries, i, pos, block)
    decreases |entries| - i
  {
    if i + 1 == |entries| then pos
    else
      LengthFits(entries, i, pos, block);
      LastStart(entries, i + 1, pos + RecordLength(entries, i, pos, block), block)
  }

  /** The last record does not fill a 64 KiB block by itself. */
  predicate LastLengthFits(entries: seq<Entry>, block: nat)
    requires EntriesFit(entries) && DirBlock(block)
  {
    FirstStarts(entries, block);
    block - PosIn(LastStart(entries, 0, 0, block), block) < U16_LIMIT
  }

  lemma {:induction false} PackedParses(data: bytes, entries: seq<Entry>, i: nat, pos: nat, block: nat)
    requires EntriesFit(entries) && DirBlock(block) && i < |entries| && Starts(entries, i, pos, block)
    requires pos <= |data| && data[..pos] + Packed(entries, i, pos, block) == data
    ensures block - PosIn(LastStart(entries, i, pos, block), block) < U16_LIMIT ==> ParseFrom(data, pos) == Ok(entries[i..])
    ensures block - PosIn(LastStart(entries, i, pos, block), block) >= U16_LIMIT ==> ParseFrom(data, pos) == Err(BadRecord)
    decreases |entries| - i
  {
    hide MinLength, RecordBytes, Starts, PosIn, EntriesFit, ParseFrom, HasAt;
    LengthFits(entries, i, pos, block);
    MinAtMost(entries, i);
    var n := RecordLength(entries, i, pos, block);
    var here := RecordBytes(entries[i], n);
    var rest := Packed(entries, i + 1, pos + n, block);
    RecordInFront(data, pos, here, rest);
    if i + 1 < |entries| {
      PackedParses(data, entries, i + 1, pos + n, block);
      ParseStep(data, pos, entries[i], n);
      assert [entries[i]] + entries[i + 1..] == entries[i..];
    } else {
      assert entries[i..] == [entries[i]] + [];
      LastLength(pos, n, block);
      if n < U16_LIMIT {
        NothingBehind(data, pos + n);
        ParseStep(data, pos, entries[i], n);
      } else {
        ParseStops(data, pos, entries[i], n);
      }
    }
  }

  lemma {:induction false} NothingBehind(data: bytes, offset: nat)
    requires offset == |data|
    ensures ParseFrom(data, offset) == Ok([])
  {
  }

  lemma {:induction false} ParseStep(data: bytes, offset: nat, e: Entry, length: nat)
    requires EntryFits(e) && DIR_HEADER + |e.name| <= length < U16_LIMIT && HasAt(data, offset, RecordBytes(e, length))
    ensures ParseFrom(data, offset) == Appended([e], ParseFrom(data, offset + length))
  {
    hide Get16, RecordAt, HasAt;
    RecordReads(data, offset, e, length);
  }

  /** A record whose length field wrapped to zero stops the reader. */
  lemma {:induction false} ParseStops(data: bytes, offset: nat, e: Entry, length: nat)
    requires EntryFits(e) && DIR_HEADER + |e.name| <= length && length % U16_LIMIT == 0
    requires HasAt(data, offset, RecordBytes(e, length))
    ensures ParseFrom(data, offset) == Err(BadRecord)
  {
    hide Get16, RecordAt, HasAt;
    RecordReads(data, offset, e, length);
  }

  lemma {:induction false} LastLength(pos: nat, n: nat, block: nat)
    requires DirBlock(block) && n == block - PosIn(pos, block)
    ensures n < U16_LIMIT ==> n % U16_LIMIT == n
    ensures n >= U16_LIMIT ==> n % U16_LIMIT == 0
  {
  }

  lemma {:induction false} RecordInFront(data: bytes, pos: nat, here: bytes, rest: bytes)
    requires pos <= |data| && data[..pos] + (here + rest) == data
    ensures HasAt(data, pos, here)
    ensures pos + |here| <= |data| && data[..pos + |here|] + rest == data
    ensures rest == [] ==> pos + |here| == |data|
  {
    assert data[pos..] == here + rest;
  }

  /**
   Directories read back: whole blocks, records that tile them without crossing a boundary, and the entries in
   order, exactly unless the last record takes a 64 KiB block of its own, whose length does not fit its field.
   */
  lemma {:induction false} DirectoryReadsBackIff(entries: seq<Entry>, block: nat)
    requires EntriesFit(entries) && DirBlock(block)
    ensures PosIn(|DirectoryBytes(entries, block)|, block) == 0
    ensures ParseFrom(DirectoryBytes(entries, block), 0) == Ok(entries) <==> LastLengthFits(entries, block)
    ensures block < 0x10000 ==> LastLengthFits(entries, block)
  {
    hide DirectoryBytes, ParseFrom, LastLengthFits, EntriesFit, DirBlock;
    ParsesWhole(entries, block);
    DirectoryIsWhole(entries, block);
    LastInBlock(entries, block);
  }

  lemma {:induction false} DirectoryIsWhole(entries: seq<Entry>, block: nat)
    requires EntriesFit(entries) && DirBlock(block)
    ensures PosIn(|DirectoryBytes(entries, block)|, block) == 0
  {
    hide PosIn, Packed;
    FirstStarts(entries, block);
    PackedWhole(entries, 0, 0, block);
    assert 0 + |DirectoryBytes(entries, block)| == |DirectoryBytes(entries, block)|;
  }

  lemma {:induction false} ParsesWhole(entries: seq<Entry>, block: nat)
    requires EntriesFit(entries) && DirBlock(block)
    ensures ParseFrom(DirectoryBytes(entries, block), 0) == if LastLengthFits(entries, block) then Ok(entries) else Err(BadRecord)
  {
    assert entries != [];
    hide PosIn, Packed, ParseFrom, LastStart, Starts, EntriesFit, DirBlock;
    FirstStarts(entries, block);
    var data, packed := DirectoryBytes(entries, block), Packed(entries, 0, 0, block);
    assert data[..0] + packed == data;
    PackedParses(data, entries, 0, 0, block);
    assert entries[0..] == entries;
  }

  lemma {:induction false} LastInBlock(entries: seq<Entry>, block: nat)
    requires EntriesFit(entries) && DirBlock(block)
    ensures block < 0x10000 ==> LastLengthFits(entries, block)
  {
    FirstStarts(entries, block);
    hide PosIn, LastStart;
  }

  /** No record crosses a block boundary. */
  lemma {:induction false} RecordsStayInBlocks(entries: seq<Entry>, i: nat, pos: nat, block: nat)
    requires EntriesFit(entries) && DirBlock(block) && i < |entries| && Starts(entries, i, pos, block)
    ensures var n := RecordLength(entries, i, pos, block);
            n > 0 && pos / block == (pos + n - 1) / block
  {
    LengthFits(entries, i, pos, block);
    hide MinLength;
    PosAdd(pos, RecordLength(entries, i, pos, block) - 1, block);
  }

  /** Bytes of the records from `i` on, without padding. */
  function MinTotal(entries: seq<Entry>, i: nat): nat
    requires i <= |entries|
    decreases |entries| - i
  {
    if i == |entries| then 0 else MinLength(entries[i]) + MinTotal(entries, i + 1)
  }

  /** Records that fit one block make a directory of one block. */
  lemma {:induction false} FitsOneBlock(entries: seq<Entry>, i: nat, pos: nat, block: nat)
    requires EntriesFit(entries) && DirBlock(block) && i < |entries| && Starts(entries, i, pos, block)
    requires pos + MinTotal(entries, i) <= block
    ensures pos + |Packed(entries, i, pos, block)| == block
    decreases |entries| - i
  {
    hide EntriesFit, MinLength;
    PosBelow(pos, block);
    PosBelow(pos + MinLength(entries[i]), block);
    LengthFits(entries, i, pos, block);
    if i + 1 < |entries| {
      assert MinTotal(entries, i) == MinLength(entries[i]) + (MinLength(entries[i + 1]) + MinTotal(entries, i + 2));
      assert RecordLength(entries, i, pos, block) == MinLength(entries[i]);
      FitsOneBlock(entries, i + 1, pos + MinLength(entries[i]), block);
    } else {
      assert Packed(entries, i + 1, block, block) == [];
    }
  }

  // ---- A directory that cannot be read ---------------------------------------------------------------------

  /** The two dot records and 249 children with names of 255 bytes. */
  function CrowdedEntries(): (r: seq<Entry>)
    ensures |r| == 251
  {
    seq(251, i requires 0 <= i < 251 => CrowdedEntryAt(i))
  }

  function CrowdedEntryAt(i: nat): Entry {
    if i == 0 then Entry(2, [46], 2) else if i == 1 then Entry(2, [46, 46], 2) else Entry(9 + i, LongName(), 1)
  }

  function LongName(): (name: bytes)
    ensures |name| == 255
  {
    seq(255, _ => 97)
  }

  lemma {:induction false} CrowdedShape()
    ensures EntriesFit(CrowdedEntries())
    ensures forall i :: 0 <= i < 251 ==> MinLength(CrowdedEntries()[i]) == if i < 2 then 12 else LONGEST
  {
    var entries := CrowdedEntries();
    forall i | 0 <= i < 251
      ensures EntryFits(entries[i]) && MinLength(entries[i]) == if i < 2 then 12 else LONGEST
    {
      CrowdedEntry(i);
    }
  }

  lemma {:induction false} CrowdedEntry(i: nat)
    requires i < 251
    ensures EntryFits(CrowdedEntries()[i]) && MinLength(CrowdedEntries()[i]) == if i < 2 then 12 else LONGEST
  {
    var name := CrowdedEntries()[i].name;
    assert |name| == if i == 0 then 1 else if i == 1 then 2 else 255;
    DivUnique(8 + |name| + 3, if i < 2 then 3 else 66, 8 + |name| + 3 - (if i < 2 then 12 else 264), 4);
  }

  lemma {:induction false} PosBelow(pos: nat, block: nat)
    requires block > 0 && pos <= block
    ensures PosIn(pos, block) == if pos < block then pos else 0
  {
    DivUnique(pos, if pos < block then 0 else 1, if pos < block then pos else 0, block);
  }

  /** Record `i` has `used` bytes in front of the next one in its block, or is padded to the block's end. */
  lemma {:induction false} CrowdedLength(entries: seq<Entry>, i: nat, pos: nat, min: nat, next: nat)
    requires i + 1 < |entries| && MinLength(entries[i]) == min && MinLength(entries[i + 1]) == next
    requires 0 < pos + min < 0x10000
    ensures RecordLength(entries, i, pos, 0x10000) == if pos + min + next > 0x10000 then 0x10000 - pos else min
  {
    hide MinLength;
    PosBelow(pos + min, 0x10000);
  }

  /** Child `i` starts behind the two dot records and the children before it; the last one opens the second block. */
  lemma {:induction false} CrowdedStart(i: nat)
    requires 2 <= i < 250
    ensures var entries, pos := CrowdedEntries(), 24 + (i - 2) * LONGEST;
            && EntriesFit(entries) && Starts(entries, i, pos, 0x10000)
            && LastStart(entries, i, pos, 0x10000) == 0x10000
    decreases 250 - i
  {
    var entries, pos := CrowdedEntries(), 24 + (i - 2) * LONGEST;
    CrowdedShape();
    assert MinLength(entries[i]) == LONGEST && MinLength(entries[i + 1]) == LONGEST;
    hide CrowdedEntries, EntriesFit, MinLength;
    PosBelow(pos, 0x10000);
    assert Starts(entries, i, pos, 0x10000);
    CrowdedLength(entries, i, pos, LONGEST, LONGEST);
    hide RecordLength, Starts, PosIn;
    StepToNext(entries, i, pos, 0x10000);
    if i < 249 {
      CrowdedStart(i + 1);
    } else {
      CrowdedEnd();
    }
  }

  lemma {:induction false} CrowdedEnd()
    requires EntriesFit(CrowdedEntries()) && Starts(CrowdedEntries(), 250, 0x10000, 0x10000)
    ensures LastStart(CrowdedEntries(), 250, 0x10000, 0x10000) == 0x10000
  {
    hide CrowdedEntries, EntriesFit, Starts;
  }

  /** With 64 KiB blocks this directory, whose last record is alone in its block, is written and cannot be read. */
  lemma {:induction false} LoneRecordIsLost()
    ensures EntriesFit(CrowdedEntries())
    ensures ParseFrom(DirectoryBytes(CrowdedEntries(), 0x10000), 0) == Err(BadRecord)
  {
    CrowdedShape();
    assert DirBlock(0x10000);
    hide *;
    CrowdedLastStart();
    ParsesWhole(CrowdedEntries(), 0x10000);
  }

  lemma {:induction false} CrowdedLastStart()
    ensures EntriesFit(CrowdedEntries()) && DirBlock(0x10000) && !LastLengthFits(CrowdedEntries(), 0x10000)
  {
    CrowdedShape();
    hide CrowdedEntries, EntriesFit, MinLength;
    var entries := CrowdedEntries();
    FirstStarts(entries, 0x10000);
    CrowdedLength(entries, 0, 0, 12, 12);
    CrowdedLength(entries, 1, 12, 12, LONGEST);
    PosBelow(0x10000, 0x10000);
    hide RecordLength, Starts, LastStart, PosIn;
    StepToNext(entries, 0, 0, 0x10000);
    StepToNext(entries, 1, 12, 0x10000);
    CrowdedStart(2);
  }

  lemma {:induction false} StepToNext(entries: seq<Entry>, i: nat, pos: nat, block: nat)
    requires EntriesFit(entries) && DirBlock(block) && i + 1 < |entries| && Starts(entries, i, pos, block)
    ensures var next := pos + RecordLength(entries, i, pos, block);
            Starts(entries, i + 1, next, block) && LastStart(entries, i, pos, block) == LastStart(entries, i + 1, next, block)
  {
    LengthFits(entries, i, pos, block);
    hide EntriesFit, Starts, RecordLength;
  }
}
