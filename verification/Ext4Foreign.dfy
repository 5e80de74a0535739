/**
 What the two ext4 readers make of any list of extents, as images of other writers have them: with unwritten extents, holes,
 and extents behind the end of the file. They do not always agree.
 */
module Ext4Foreign {
  import opened Core
  import opened Arith
  import opened Ext4Extents
  import opened Ext4Inode
  import opened Ext4Content
  import opened Bitmaps
  import opened Ext4Super
  import D = Ext4Dir

  // ---- Entries ---------------------------------------------------------------------------------------------

  /** A leaf entry: the top bit of the length marks an unwritten extent, and the block number has 48 bits. */
  lemma {:induction false} EntryMeans(node: bytes, offset: nat)
    requires offset + 12 <= |node|
    ensures var e := ReadExtent(node, offset);
            && e.logical == Get32(node, offset) && (e.unwritten <==> node[offset + 5] >= 0x80)
            && e.length == node[offset + 4] as nat + 0x100 * (node[offset + 5] as nat % 0x80)
            && e.physical == Get32(node, offset + 8) + 0x1_0000_0000 * Get16(node, offset + 6)
  {
    hide Get32;
    var low, high := node[offset + 4] as nat, node[offset + 5] as nat;
    assert Get16(node, offset + 4) == low + 0x100 * high;
  }

  /** An index entry names a block of 48 bits. */
  lemma {:induction false} ChildMeans(node: bytes, offset: nat)
    requires offset + 12 <= |node|
    ensures ReadChild(node, offset) == Get32(node, offset + 4) + 0x1_0000_0000 * Get16(node, offset + 8)
  {
    hide Get16, Get32;
  }

  /** A directory record: skipped when its inode number is zero or its name does not fit it, whatever its length is. */
  lemma {:induction false} RecordMeans(data: bytes, offset: nat, length: nat)
    requires 8 <= length && offset + length <= |data|
    ensures var r, n := D.RecordAt(data, offset, length), data[offset + 6] as nat;
            && (r == [] <==> Get32(data, offset) == 0 || 8 + n > length)
            && (r != [] ==> r == [D.Entry(Get32(data, offset), data[offset + 8..offset + 8 + n], data[offset + 7])])
  {
    hide Get32;
  }

  // ---- Bytes of extents ------------------------------------------------------------------------------------

  function Lo(e: DiskExtent, blockSize: nat): nat {
    e.logical * blockSize
  }

  function Hi(e: DiskExtent, blockSize: nat): nat {
    Lo(e, blockSize) + e.length * blockSize
  }

  function At(e: DiskExtent, blockSize: nat): nat {
    e.physical * blockSize
  }

  predicate Spans(e: DiskExtent, blockSize: nat, p: int) {
    Lo(e, blockSize) <= p < Hi(e, blockSize)
  }

  /** The extent stores byte `p` of the file. */
  predicate Copies(e: DiskExtent, blockSize: nat, p: int) {
    !e.unwritten && Spans(e, blockSize, p)
  }

  /** The byte of the image the extent has for byte `p` of the file. */
  predicate CopyIs(image: bytes, e: DiskExtent, blockSize: nat, p: int, v: byte) {
    0 <= At(e, blockSize) + (p - Lo(e, blockSize)) < |image| && image[At(e, blockSize) + (p - Lo(e, blockSize))] == v
  }

  /** What the extent stores of a file of `size` bytes is inside the image. */
  predicate Inside(image: bytes, e: DiskExtent, blockSize: nat, size: nat) {
    !e.unwritten && Lo(e, blockSize) < size ==> At(e, blockSize) + (Min(Hi(e, blockSize), size) - Lo(e, blockSize)) <= |image|
  }

  // ---- The buffer reader -----------------------------------------------------------------------------------

  /** Extent `j`, from `i` on the last one that stores byte `p`. */
  ghost predicate LastCopy(found: seq<DiskExtent>, blockSize: nat, i: nat, j: nat, p: int) {
    i <= j < |found| && Copies(found[j], blockSize, p) && forall k :: j < k < |found| ==> !Copies(found[k], blockSize, p)
  }

  lemma {:induction false} FillOneMeans(image: bytes, blockSize: nat, e: DiskExtent, buffer: bytes)
    ensures var r := FillOne(image, blockSize, e, buffer);
            && (r.Ok? <==> Inside(image, e, blockSize, |buffer|)) && (r.Err? ==> r == Err(OutOfImage))
            && (r.Ok? ==> forall p :: 0 <= p < |buffer| ==>
                  if Copies(e, blockSize, p) then CopyIs(image, e, blockSize, p, r.value[p]) else r.value[p] == buffer[p])
  {
    var r, dest := FillOne(image, blockSize, e, buffer), e.logical * blockSize;
    if dest < |buffer| && !e.unwritten && r.Ok? {
      var n := Min(e.length * blockSize, |buffer| - dest);
      var at := e.physical * blockSize;
      forall p | 0 <= p < |buffer|
        ensures if Copies(e, blockSize, p) then CopyIs(image, e, blockSize, p, r.value[p]) else r.value[p] == buffer[p]
      {
        if dest <= p < dest + n {
          assert r.value[p] == image[at..at + n][p - dest];
        }
      }
    }
  }

  /**
   Filling succeeds exactly when everything stored of the file is inside the image; each byte then comes from the last
   extent that stores it, and is what the buffer had where none does.
   */
  lemma {:induction false} FillMeans(image: bytes, blockSize: nat, found: seq<DiskExtent>, i: nat, buffer: bytes)
    requires i <= |found|
    ensures var r := FillFrom(image, blockSize, found, i, buffer);
            && (r.Ok? <==> forall j :: i <= j < |found| ==> Inside(image, found[j], blockSize, |buffer|))
            && (r.Err? ==> r == Err(OutOfImage))
            && (r.Ok? ==>
                  && (forall j: nat, p :: LastCopy(found, blockSize, i, j, p) && 0 <= p < |buffer| ==> CopyIs(image, found[j], blockSize, p, r.value[p]))
                  && forall p :: 0 <= p < |buffer| && (forall j :: i <= j < |found| ==> !Copies(found[j], blockSize, p)) ==> r.value[p] == buffer[p])
    decreases |found| - i
  {
    hide FillOne, Inside, Copies, CopyIs;
    if i < |found| {
      FillOneMeans(image, blockSize, found[i], buffer);
      var one := FillOne(image, blockSize, found[i], buffer);
      if one.Ok? {
        FillMeans(image, blockSize, found, i + 1, one.value);
        var r := FillFrom(image, blockSize, found, i, buffer);
        if r.Ok? {
          forall j: nat, p | LastCopy(found, blockSize, i, j, p) && 0 <= p < |buffer|
            ensures CopyIs(image, found[j], blockSize, p, r.value[p])
          {
            if j > i {
              assert LastCopy(found, blockSize, i + 1, j, p);
            } else {
              assert r.value[p] == one.value[p];
            }
          }
        }
      }
    }
  }

  // ---- One byte of the file --------------------------------------------------------------------------------

  /** Byte `p` of the file by a list of extents that do not overlap: what the one that stores it has, zero if none does. */
  ghost predicate ByteIs(image: bytes, blockSize: nat, extents: seq<DiskExtent>, p: int, v: byte) {
    && (forall e :: e in extents && Copies(e, blockSize, p) ==> CopyIs(image, e, blockSize, p, v))
    && ((forall e :: e in extents ==> !Copies(e, blockSize, p)) ==> v == 0)
  }

  lemma {:induction false} OneByte(image: bytes, blockSize: nat, extents: seq<DiskExtent>, p: int, v: byte, w: byte)
    requires ByteIs(image, blockSize, extents, p, v) && ByteIs(image, blockSize, extents, p, w)
    ensures v == w
  {
    if e :| e in extents && Copies(e, blockSize, p) {
      assert CopyIs(image, e, blockSize, p, v) && CopyIs(image, e, blockSize, p, w);
    }
  }

  predicate ExtentsApart(e: DiskExtent, f: DiskExtent) {
    e.logical + e.length <= f.logical || f.logical + f.length <= e.logical
  }

  /** Extents are not empty and do not overlap. */
  ghost predicate NoOverlap(found: seq<DiskExtent>) {
    && (forall e :: e in found ==> e.length > 0 && multiset(found)[e] == 1)
    && forall e, f :: e in found && f in found && e != f ==> ExtentsApart(e, f)
  }

  lemma {:induction false} SpansApart(e: DiskExtent, f: DiskExtent, blockSize: nat, p: int)
    requires ExtentsApart(e, f) && Spans(e, blockSize, p)
    ensures !Spans(f, blockSize, p)
  {
    MulDistributes(e.logical, e.length, blockSize);
    MulDistributes(f.logical, f.length, blockSize);
    if e.logical + e.length <= f.logical {
      MulMonotone(e.logical + e.length, f.logical, blockSize);
    } else {
      MulMonotone(f.logical + f.length, e.logical, blockSize);
    }
  }

  /** Without overlap the buffer reader gives every byte its one value. */
  lemma {:induction false} FillIs(image: bytes, blockSize: nat, found: seq<DiskExtent>, size: nat)
    requires NoOverlap(found)
    ensures var r := FillFrom(image, blockSize, found, 0, Zeros(size));
            && (r.Ok? <==> forall e :: e in found ==> Inside(image, e, blockSize, size)) && (r.Err? ==> r == Err(OutOfImage))
            && (r.Ok? ==> |r.value| == size && forall p :: 0 <= p < size ==> ByteIs(image, blockSize, found, p, r.value[p]))
  {
    FillMeans(image, blockSize, found, 0, Zeros(size));
    var r := FillFrom(image, blockSize, found, 0, Zeros(size));
    hide FillFrom, Inside, CopyIs, NoOverlap, Zeros, Spans;
    if r.Ok? {
      forall p | 0 <= p < size
        ensures ByteIs(image, blockSize, found, p, r.value[p])
      {
        forall e | e in found && Copies(e, blockSize, p)
          ensures CopyIs(image, e, blockSize, p, r.value[p])
        {
          var j := OnlyCopy(found, blockSize, e, p);
          assert LastCopy(found, blockSize, 0, j, p);
        }
      }
    }
  }

  lemma {:induction false} OnlyCopy(found: seq<DiskExtent>, blockSize: nat, e: DiskExtent, p: int) returns (j: nat)
    requires NoOverlap(found) && e in found && Copies(e, blockSize, p)
    ensures j < |found| && found[j] == e && forall k :: j < k < |found| ==> !Copies(found[k], blockSize, p)
  {
    hide Spans;
    j :| 0 <= j < |found| && found[j] == e;
    forall k | j < k < |found|
      ensures !Copies(found[k], blockSize, p)
    {
      if Copies(found[k], blockSize, p) {
        TwiceIn(found, j, k);
        SpansApart(e, found[k], blockSize, p);
      }
    }
  }

  lemma {:induction false} TwiceIn(found: seq<DiskExtent>, j: nat, k: nat)
    requires j < k < |found| && forall e :: e in found ==> multiset(found)[e] == 1
    ensures found[j] != found[k]
  {
    if found[j] == found[k] {
      CountedTwice(found, j, k);
    }
  }

  lemma {:induction false} CountedTwice(found: seq<DiskExtent>, j: nat, k: nat)
    requires j < k < |found| && found[j] == found[k]
    ensures multiset(found)[found[j]] >= 2
  {
    var a, b := found[..k], found[k..];
    assert found == a + b && a[j] == found[j] && b[0] == found[k];
    assert multiset(found) == multiset(a) + multiset(b);
    assert found[j] in multiset(a) && found[k] in multiset(b);
  }

  // ---- Sorting ---------------------------------------------------------------------------------------------

  predicate Ordered(l: seq<DiskExtent>) {
    forall i, j :: 0 <= i < j < |l| ==> l[i].logical <= l[j].logical
  }

  predicate AllUpTo(l: seq<DiskExtent>, x: nat) {
    forall i :: 0 <= i < |l| ==> l[i].logical <= x
  }

  lemma {:induction false} InsertUpTo(sorted: seq<DiskExtent>, e: DiskExtent, x: nat)
    requires AllUpTo(sorted, x) && e.logical <= x
    ensures AllUpTo(InsertExtent(sorted, e), x)
    decreases |sorted|
  {
    if sorted != [] {
      InsertUpTo(sorted[..|sorted| - 1], e, x);
    }
  }

  lemma {:induction false} OrderedMore(l: seq<DiskExtent>, e: DiskExtent)
    requires Ordered(l) && AllUpTo(l, e.logical)
    ensures Ordered(l + [e])
  {
  }

  lemma {:induction false} LastIsMost(l: seq<DiskExtent>)
    requires Ordered(l) && l != []
    ensures AllUpTo(l, l[|l| - 1].logical) && Ordered(l[..|l| - 1]) && AllUpTo(l[..|l| - 1], l[|l| - 1].logical)
  {
  }

  lemma {:induction false} InsertKeeps(sorted: seq<DiskExtent>, e: DiskExtent)
    requires Ordered(sorted)
    ensures Ordered(InsertExtent(sorted, e)) && multiset(InsertExtent(sorted, e)) == multiset(sorted) + multiset{e}
    decreases |sorted|
  {
    hide Ordered, AllUpTo;
    var k := |sorted| - 1;
    if sorted != [] {
      LastIsMost(sorted);
    }
    if sorted != [] && sorted[k].logical > e.logical {
      InsertKeeps(sorted[..k], e);
      InsertUpTo(sorted[..k], e, sorted[k].logical);
      OrderedMore(InsertExtent(sorted[..k], e), sorted[k]);
      assert sorted == sorted[..k] + [sorted[k]];
      assert multiset(sorted) == multiset(sorted[..k]) + multiset{sorted[k]};
    } else {
      Widen(sorted, e);
      OrderedMore(sorted, e);
    }
  }

  lemma {:induction false} Widen(l: seq<DiskExtent>, e: DiskExtent)
    requires l != [] ==> AllUpTo(l, l[|l| - 1].logical) && l[|l| - 1].logical <= e.logical
    ensures AllUpTo(l, e.logical)
  {
  }

  lemma {:induction false} SortKeeps(found: seq<DiskExtent>)
    ensures Ordered(SortExtents(found)) && multiset(SortExtents(found)) == multiset(found)
    decreases |found|
  {
    hide InsertExtent;
    if found != [] {
      var k := |found| - 1;
      SortKeeps(found[..k]);
      InsertKeeps(SortExtents(found[..k]), found[k]);
      assert found == found[..k] + [found[k]];
      assert multiset(found) == multiset(found[..k]) + multiset{found[k]};
    }
  }

  lemma {:induction false} SameMembers(a: seq<DiskExtent>, b: seq<DiskExtent>)
    requires multiset(a) == multiset(b)
    ensures forall e :: e in a <==> e in b
  {
    forall e
      ensures e in a <==> e in b
    {
      assert e in a <==> e in multiset(a);
      assert e in b <==> e in multiset(b);
    }
  }

  /** Extents in file order: each ends in front of the next. */
  ghost predicate InRow(l: seq<DiskExtent>) {
    && (forall i :: 0 <= i < |l| ==> l[i].length > 0)
    && forall i, j :: 0 <= i < j < |l| ==> l[i].logical + l[i].length <= l[j].logical
  }

  lemma {:induction false} SortedInRow(found: seq<DiskExtent>)
    requires NoOverlap(found)
    ensures InRow(SortExtents(found)) && forall e :: e in SortExtents(found) <==> e in found
  {
    var l := SortExtents(found);
    SortKeeps(found);
    SameMembers(l, found);
    hide SortExtents;
    forall i, j | 0 <= i < j < |l|
      ensures l[i].logical + l[i].length <= l[j].logical
    {
      TwiceIn(l, i, j);
      assert l[i] in l && l[j] in l && ExtentsApart(l[i], l[j]);
      assert l[j].length > 0;
    }
    forall i | 0 <= i < |l|
      ensures l[i].length > 0
    {
      assert l[i] in l;
    }
  }

  // ---- The streaming reader --------------------------------------------------------------------------------

  /** Where the streaming reader stands in front of extent `i`. */
  function CursorAt(l: seq<DiskExtent>, blockSize: nat, size: nat, i: nat): nat
    requires i <= |l|
  {
    if i == 0 then 0 else Min(Hi(l[i - 1], blockSize), size)
  }

  /** Extent `i` follows a hole and is not copied: the reader accounts for the hole twice. */
  predicate SkewAt(l: seq<DiskExtent>, blockSize: nat, size: nat, i: nat)
    requires i < |l|
  {
    (l[i].unwritten || Lo(l[i], blockSize) >= size) && CursorAt(l, blockSize, size, i) < Min(Lo(l[i], blockSize), size)
  }

  lemma {:induction false} RowBytes(l: seq<DiskExtent>, blockSize: nat, i: nat, j: nat)
    requires InRow(l) && blockSize > 0 && i < j < |l|
    ensures Lo(l[i], blockSize) < Hi(l[i], blockSize) <= Lo(l[j], blockSize)
  {
    assert l[i].length > 0 && l[i].logical + l[i].length <= l[j].logical;
    MulDistributes(l[i].logical, l[i].length, blockSize);
    MulMonotone(l[i].logical + l[i].length, l[j].logical, blockSize);
    MulMonotone(1, l[i].length, blockSize);
  }

  lemma {:induction false} NotEmpty(l: seq<DiskExtent>, blockSize: nat, i: nat)
    requires InRow(l) && blockSize > 0 && i < |l|
    ensures Lo(l[i], blockSize) < Hi(l[i], blockSize)
  {
    MulMonotone(1, l[i].length, blockSize);
  }

  /** The cursor stands in front of the next extent, and moves as the reader moves it. */
  lemma {:induction false} CursorMoves(l: seq<DiskExtent>, blockSize: nat, size: nat, i: nat)
    requires InRow(l) && blockSize > 0 && i < |l|
    ensures CursorAt(l, blockSize, size, i) <= Lo(l[i], blockSize) && CursorAt(l, blockSize, size, i) <= size
    ensures CursorBehind(blockSize, l[i], CursorAt(l, blockSize, size, i), size) == CursorAt(l, blockSize, size, i + 1)
  {
    NotEmpty(l, blockSize, i);
    if i > 0 {
      RowBytes(l, blockSize, i - 1, i);
    }
  }

  /** One extent on its own: what the reader adds between the two cursors. */
  lemma {:induction false} StepMeans(image: bytes, blockSize: nat, e: DiskExtent, cursor: nat, size: nat)
    requires cursor < size && cursor <= Lo(e, blockSize) < Hi(e, blockSize)
    ensures var r := StreamOne(image, blockSize, e, cursor, size);
            && (r.Ok? <==> Inside(image, e, blockSize, size)) && (r.Err? ==> r == Err(OutOfImage))
            && (r.Ok? ==> StepGives(image, blockSize, e, cursor, size, r.value))
  {
    var r, lo := StreamOne(image, blockSize, e, cursor, size), Lo(e, blockSize);
    var end := Min(Hi(e, blockSize), size);
    if r.Ok? && !e.unwritten && lo < size {
      var at := e.physical * blockSize;
      forall p | cursor <= p < end
        ensures StepByte(image, blockSize, e, p, r.value, cursor)
      {
        if p >= lo {
          assert r.value[p - cursor] == image[at..at + (end - lo)][p - lo];
        }
      }
    }
  }

  /** Behind the last copied byte: extents that start at the end of the file or behind it store nothing of it. */
  lemma {:induction false} BehindSize(image: bytes, l: seq<DiskExtent>, blockSize: nat, size: nat, i: nat)
    requires InRow(l) && blockSize > 0 && 0 < i <= |l| && CursorAt(l, blockSize, size, i) >= size
    ensures forall j :: i <= j < |l| ==> Lo(l[j], blockSize) >= size && Inside(image, l[j], blockSize, size) && !SkewAt(l, blockSize, size, j)
  {
    forall j | i <= j < |l|
      ensures Lo(l[j], blockSize) >= size && Inside(image, l[j], blockSize, size) && !SkewAt(l, blockSize, size, j)
    {
      RowBytes(l, blockSize, i - 1, j);
      if j > i {
        RowBytes(l, blockSize, i - 1, j - 1);
        NotEmpty(l, blockSize, j - 1);
      }
    }
  }

  ghost predicate Fits(image: bytes, l: seq<DiskExtent>, blockSize: nat, size: nat, i: nat) {
    forall j :: i <= j < |l| ==> Inside(image, l[j], blockSize, size)
  }

  ghost predicate Straight(l: seq<DiskExtent>, blockSize: nat, size: nat, i: nat) {
    forall j :: i <= j < |l| ==> !SkewAt(l, blockSize, size, j)
  }

  /** `out` are the bytes of the file from `cursor` on. */
  ghost predicate Gives(image: bytes, blockSize: nat, l: seq<DiskExtent>, cursor: nat, size: nat, out: bytes) {
    |out| == size - cursor && forall p :: cursor <= p < size ==> ByteIn(image, blockSize, l, p, out, cursor)
  }

  ghost predicate ByteIn(image: bytes, blockSize: nat, l: seq<DiskExtent>, p: int, out: bytes, cursor: int) {
    0 <= p - cursor < |out| && ByteIs(image, blockSize, l, p, out[p - cursor])
  }

  /**
   Streaming from extent `i` on: it fails exactly when something stored of the file is outside the image, and gives the
   bytes of the file exactly when no extent that is not copied follows a hole; otherwise it gives too many.
   */
  lemma {:induction false} StreamMeans(image: bytes, blockSize: nat, l: seq<DiskExtent>, size: nat, i: nat)
    requires InRow(l) && blockSize > 0 && i <= |l|
    ensures var cursor := CursorAt(l, blockSize, size, i);
            var r := StreamFrom(image, blockSize, l, i, cursor, size);
            && cursor <= size && (r.Ok? <==> Fits(image, l, blockSize, size, i)) && (r.Err? ==> r == Err(OutOfImage))
            && (r.Ok? ==> if Straight(l, blockSize, size, i) then Gives(image, blockSize, l, cursor, size, r.value)
                          else |r.value| > size - cursor)
    decreases |l| - i
  {
    hide *;
    var cursor := CursorAt(l, blockSize, size, i);
    CursorBound(l, blockSize, size, i);
    if i == |l| {
      StreamEnds(image, blockSize, l, size, i);
    } else if cursor >= size {
      SomeCursor(l, blockSize, size, i);
      if i > 0 {
        BehindSize(image, l, blockSize, size, i);
      }
      StreamStops(image, blockSize, l, size, i);
    } else {
      CursorMoves(l, blockSize, size, i);
      NotEmpty(l, blockSize, i);
      StepMeans(image, blockSize, l[i], cursor, size);
      StreamMeans(image, blockSize, l, size, i + 1);
      StreamUnfolds(image, blockSize, l, size, i);
      StreamJoins(image, blockSize, l, size, i);
    }
  }

  lemma {:induction false} CursorBound(l: seq<DiskExtent>, blockSize: nat, size: nat, i: nat)
    requires i <= |l|
    ensures CursorAt(l, blockSize, size, i) <= size
  {
    hide Hi;
  }

  lemma {:induction false} SomeCursor(l: seq<DiskExtent>, blockSize: nat, size: nat, i: nat)
    requires i <= |l| && CursorAt(l, blockSize, size, i) >= size
    ensures i > 0 || size == 0
  {
  }

  /** Behind the last extent only zeros are left. */
  lemma {:induction false} StreamEnds(image: bytes, blockSize: nat, l: seq<DiskExtent>, size: nat, i: nat)
    requires InRow(l) && blockSize > 0 && i == |l|
    ensures var cursor := CursorAt(l, blockSize, size, i);
            var r := StreamFrom(image, blockSize, l, i, cursor, size);
            && r.Ok? && Fits(image, l, blockSize, size, i) && Straight(l, blockSize, size, i)
            && Gives(image, blockSize, l, cursor, size, r.value)
  {
    var cursor := CursorAt(l, blockSize, size, i);
    CursorBound(l, blockSize, size, i);
    hide Inside, CopyIs;
    var r := StreamFrom(image, blockSize, l, i, cursor, size);
    forall p | cursor <= p < size
      ensures ByteIn(image, blockSize, l, p, r.value, cursor)
    {
      forall e | e in l
        ensures !Copies(e, blockSize, p)
      {
        var k :| 0 <= k < |l| && l[k] == e;
        if k < |l| - 1 {
          RowBytes(l, blockSize, k, |l| - 1);
          NotEmpty(l, blockSize, |l| - 1);
        }
      }
    }
  }

  lemma {:induction false} StreamStops(image: bytes, blockSize: nat, l: seq<DiskExtent>, size: nat, i: nat)
    requires i < |l| && CursorAt(l, blockSize, size, i) == size
    requires i > 0 || size == 0
    requires i > 0 ==> forall j :: i <= j < |l| ==> Lo(l[j], blockSize) >= size && Inside(image, l[j], blockSize, size) && !SkewAt(l, blockSize, size, j)
    ensures var r := StreamFrom(image, blockSize, l, i, size, size);
            && r == Ok([]) && Fits(image, l, blockSize, size, i) && Straight(l, blockSize, size, i)
            && Gives(image, blockSize, l, size, size, [])
  {
    assert Zeros(0) == [];
  }

  /** What the reader makes of extent `i` and the rest. */
  lemma {:induction false} StreamUnfolds(image: bytes, blockSize: nat, l: seq<DiskExtent>, size: nat, i: nat)
    requires i < |l| && CursorAt(l, blockSize, size, i) < size
    requires CursorBehind(blockSize, l[i], CursorAt(l, blockSize, size, i), size) == CursorAt(l, blockSize, size, i + 1)
    ensures var here := StreamOne(image, blockSize, l[i], CursorAt(l, blockSize, size, i), size);
            var rest := StreamFrom(image, blockSize, l, i + 1, CursorAt(l, blockSize, size, i + 1), size);
            StreamFrom(image, blockSize, l, i, CursorAt(l, blockSize, size, i), size)
            == if here.Err? then here else if rest.Err? then rest else Ok(here.value + rest.value)
  {
    hide StreamOne, CursorBehind, CursorAt;
  }

  lemma {:induction false} StreamJoins(image: bytes, blockSize: nat, l: seq<DiskExtent>, size: nat, i: nat)
    requires InRow(l) && blockSize > 0 && i < |l| && CursorAt(l, blockSize, size, i) < size
    requires var cursor, next := CursorAt(l, blockSize, size, i), CursorAt(l, blockSize, size, i + 1);
             var here, rest := StreamOne(image, blockSize, l[i], cursor, size), StreamFrom(image, blockSize, l, i + 1, next, size);
             var r := StreamFrom(image, blockSize, l, i, cursor, size);
             && cursor <= Lo(l[i], blockSize) < Hi(l[i], blockSize) && next <= size
             && r == (if here.Err? then here else if rest.Err? then rest else Ok(here.value + rest.value))
             && (here.Ok? <==> Inside(image, l[i], blockSize, size)) && (here.Err? ==> here == Err(OutOfImage))
             && (here.Ok? ==> StepGives(image, blockSize, l[i], cursor, size, here.value))
             && (rest.Ok? <==> Fits(image, l, blockSize, size, i + 1)) && (rest.Err? ==> rest == Err(OutOfImage))
             && (rest.Ok? ==> if Straight(l, blockSize, size, i + 1) then Gives(image, blockSize, l, next, size, rest.value)
                              else |rest.value| > size - next)
    ensures var cursor := CursorAt(l, blockSize, size, i);
            var r := StreamFrom(image, blockSize, l, i, cursor, size);
            && (r.Ok? <==> Fits(image, l, blockSize, size, i)) && (r.Err? ==> r == Err(OutOfImage))
            && (r.Ok? ==> if Straight(l, blockSize, size, i) then Gives(image, blockSize, l, cursor, size, r.value)
                          else |r.value| > size - cursor)
  {
    hide StreamOne, StreamFrom, Inside, Lo, Hi, CopyIs, Copies;
    var cursor, next := CursorAt(l, blockSize, size, i), CursorAt(l, blockSize, size, i + 1);
    var here, rest := StreamOne(image, blockSize, l[i], cursor, size), StreamFrom(image, blockSize, l, i + 1, next, size);
    if here.Ok? && rest.Ok? && Straight(l, blockSize, size, i) {
      assert !SkewAt(l, blockSize, size, i);
      BytesJoin(image, blockSize, l, size, i, here.value, rest.value);
    }
  }

  /** What extent `e` adds between the cursors. */
  ghost predicate StepGives(image: bytes, blockSize: nat, e: DiskExtent, cursor: nat, size: nat, out: bytes) {
    var n := Min(Hi(e, blockSize), size) - cursor;
    if (e.unwritten || Lo(e, blockSize) >= size) && cursor < Min(Lo(e, blockSize), size) then |out| > n
    else |out| == n && forall p :: cursor <= p < cursor + n ==> StepByte(image, blockSize, e, p, out, cursor)
  }

  predicate StepByte(image: bytes, blockSize: nat, e: DiskExtent, p: int, out: bytes, cursor: int) {
    0 <= p - cursor < |out| && if Copies(e, blockSize, p) then CopyIs(image, e, blockSize, p, out[p - cursor]) else out[p - cursor] == 0
  }

  lemma {:induction false} BytesJoin(image: bytes, blockSize: nat, l: seq<DiskExtent>, size: nat, i: nat, here: bytes, rest: bytes)
    requires InRow(l) && blockSize > 0 && i < |l| && CursorAt(l, blockSize, size, i) < size && !SkewAt(l, blockSize, size, i)
    requires StepGives(image, blockSize, l[i], CursorAt(l, blockSize, size, i), size, here)
    requires CursorAt(l, blockSize, size, i + 1) <= size && Gives(image, blockSize, l, CursorAt(l, blockSize, size, i + 1), size, rest)
    ensures Gives(image, blockSize, l, CursorAt(l, blockSize, size, i), size, here + rest)
  {
    hide Inside, CopyIs, Copies, Lo, Hi, ByteIs;
    var cursor, next, out := CursorAt(l, blockSize, size, i), CursorAt(l, blockSize, size, i + 1), here + rest;
    forall p | cursor <= p < size
      ensures ByteIn(image, blockSize, l, p, out, cursor)
    {
      if p < next {
        assert StepByte(image, blockSize, l[i], p, here, cursor);
        OnlyExtent(image, blockSize, l, size, i, p, here[p - cursor]);
      } else {
        assert ByteIn(image, blockSize, l, p, rest, next);
        assert out[p - cursor] == rest[p - next];
      }
    }
  }

  /** Between the two cursors only extent `i` stores bytes. */
  lemma {:induction false} OnlyExtent(image: bytes, blockSize: nat, l: seq<DiskExtent>, size: nat, i: nat, p: int, v: byte)
    requires InRow(l) && blockSize > 0 && i < |l| && CursorAt(l, blockSize, size, i) <= p < CursorAt(l, blockSize, size, i + 1)
    requires if Copies(l[i], blockSize, p) then CopyIs(image, l[i], blockSize, p, v) else v == 0
    ensures ByteIs(image, blockSize, l, p, v)
  {
    hide CopyIs;
    forall e | e in l && Copies(e, blockSize, p)
      ensures e == l[i]
    {
      var k :| 0 <= k < |l| && l[k] == e;
      if k < i {
        RowBytes(l, blockSize, k, i);
        if k < i - 1 {
          RowBytes(l, blockSize, k, i - 1);
          NotEmpty(l, blockSize, i - 1);
        }
      } else if k > i {
        RowBytes(l, blockSize, i, k);
      }
    }
  }

  // ---- When the readers agree ------------------------------------------------------------------------------

  /** No extent covers byte `p` of the file. */
  ghost predicate Uncovered(found: seq<DiskExtent>, blockSize: nat, p: int) {
    forall e :: e in found ==> !Spans(e, blockSize, p)
  }

  /**
   Some extent is unwritten or starts at or behind the end of the file, and the byte in front of it, or the last one of the
   file, is in a hole.
   */
  ghost predicate Skewed(found: seq<DiskExtent>, blockSize: nat, size: nat) {
    exists e :: e in found && SkewedBy(found, blockSize, size, e)
  }

  ghost predicate SkewedBy(found: seq<DiskExtent>, blockSize: nat, size: nat, e: DiskExtent) {
    var m := Min(Lo(e, blockSize), size);
    (e.unwritten || Lo(e, blockSize) >= size) && m > 0 && Uncovered(found, blockSize, m - 1)
  }

  lemma {:induction false} SkewedIff(l: seq<DiskExtent>, blockSize: nat, size: nat)
    requires InRow(l) && blockSize > 0
    ensures Skewed(l, blockSize, size) <==> !Straight(l, blockSize, size, 0)
  {
    hide InRow;
    if Skewed(l, blockSize, size) {
      var e :| e in l && SkewedBy(l, blockSize, size, e);
      var i :| 0 <= i < |l| && l[i] == e;
      var k := FirstSkew(l, blockSize, size, i);
    }
    if !Straight(l, blockSize, size, 0) {
      var i :| 0 <= i < |l| && SkewAt(l, blockSize, size, i);
      SkewUncovered(l, blockSize, size, i);
    }
  }

  /** The hole in front of extent `i` makes it, or one in front of it, follow a hole without being copied. */
  lemma {:induction false} FirstSkew(l: seq<DiskExtent>, blockSize: nat, size: nat, i: nat) returns (k: nat)
    requires InRow(l) && blockSize > 0 && i < |l| && SkewedBy(l, blockSize, size, l[i])
    ensures k < |l| && SkewAt(l, blockSize, size, k)
    decreases i
  {
    hide InRow;
    var m := Min(Lo(l[i], blockSize), size);
    if CursorAt(l, blockSize, size, i) < m {
      k := i;
    } else {
      RowBytes(l, blockSize, i - 1, i);
      assert l[i - 1] in l && !Spans(l[i - 1], blockSize, m - 1);
      k := FirstSkew(l, blockSize, size, i - 1);
    }
  }

  lemma {:induction false} SkewUncovered(l: seq<DiskExtent>, blockSize: nat, size: nat, i: nat)
    requires InRow(l) && blockSize > 0 && i < |l| && SkewAt(l, blockSize, size, i)
    ensures SkewedBy(l, blockSize, size, l[i])
  {
    hide InRow;
    var m := Min(Lo(l[i], blockSize), size);
    forall e | e in l
      ensures !Spans(e, blockSize, m - 1)
    {
      var k :| 0 <= k < |l| && l[k] == e;
      if k < i {
        if k < i - 1 {
          RowBytes(l, blockSize, k, i - 1);
          NotEmpty(l, blockSize, i - 1);
        }
      } else if k > i {
        RowBytes(l, blockSize, i, k);
      }
    }
  }

  lemma {:induction false} SameSkew(a: seq<DiskExtent>, b: seq<DiskExtent>, blockSize: nat, size: nat)
    requires forall e :: e in a <==> e in b
    ensures Skewed(a, blockSize, size) <==> Skewed(b, blockSize, size)
    ensures forall image: bytes, p: int, v: byte :: ByteIs(image, blockSize, a, p, v) <==> ByteIs(image, blockSize, b, p, v)
  {
    hide Spans, Copies, CopyIs;
    forall e | e in a
      ensures SkewedBy(a, blockSize, size, e) <==> SkewedBy(b, blockSize, size, e)
    {
    }
  }

  /**
   The streaming reader gives what the buffer reader gives exactly when both fail, or no extent that is unwritten or behind
   the end of the file follows a hole; otherwise it gives more bytes than the file has.
   */
  lemma {:induction false} ReadersAgreeIff(image: bytes, blockSize: nat, found: seq<DiskExtent>, size: nat)
    requires NoOverlap(found) && blockSize > 0
    ensures var streamed := StreamFrom(image, blockSize, SortExtents(found), 0, 0, size);
            var filled := FillFrom(image, blockSize, found, 0, Zeros(size));
            && (streamed == filled <==> filled.Err? || !Skewed(found, blockSize, size))
            && (filled.Err? ==> streamed == filled) && (filled.Ok? ==> streamed.Ok? && |filled.value| == size <= |streamed.value|)
            && (filled.Ok? && Skewed(found, blockSize, size) ==> size < |streamed.value|)
  {
    hide *;
    var l := SortExtents(found);
    SortedInRow(found);
    FillIs(image, blockSize, found, size);
    StreamMeans(image, blockSize, l, size, 0);
    NoCursor(l, blockSize, size);
    SkewedIff(l, blockSize, size);
    SameSkew(l, found, blockSize, size);
    FitsIff(image, l, found, blockSize, size);
    var streamed, filled := StreamFrom(image, blockSize, l, 0, 0, size), FillFrom(image, blockSize, found, 0, Zeros(size));
    if filled.Ok? && !Skewed(found, blockSize, size) {
      SameBytes(image, blockSize, l, found, size, streamed.value, filled.value);
    }
    LengthOf(image, blockSize, l, size, streamed);
  }

  lemma {:induction false} NoCursor(l: seq<DiskExtent>, blockSize: nat, size: nat)
    ensures CursorAt(l, blockSize, size, 0) == 0
  {
  }

  lemma {:induction false} LengthOf(image: bytes, blockSize: nat, l: seq<DiskExtent>, size: nat, r: Result<bytes, ReadError>)
    ensures r.Ok? && Gives(image, blockSize, l, 0, size, r.value) ==> |r.value| == size
  {
    hide ByteIn;
  }

  lemma {:induction false} FitsIff(image: bytes, l: seq<DiskExtent>, found: seq<DiskExtent>, blockSize: nat, size: nat)
    requires forall e :: e in l <==> e in found
    ensures Fits(image, l, blockSize, size, 0) <==> forall e :: e in found ==> Inside(image, e, blockSize, size)
  {
    hide Inside;
    if Fits(image, l, blockSize, size, 0) {
      forall e | e in found
        ensures Inside(image, e, blockSize, size)
      {
        var k :| 0 <= k < |l| && l[k] == e;
      }
    }
  }

  lemma {:induction false} SameBytes(image: bytes, blockSize: nat, l: seq<DiskExtent>, found: seq<DiskExtent>, size: nat, a: bytes, b: bytes)
    requires Gives(image, blockSize, l, 0, size, a)
    requires forall p: int, v: byte :: ByteIs(image, blockSize, l, p, v) <==> ByteIs(image, blockSize, found, p, v)
    requires |b| == size && forall p :: 0 <= p < size ==> ByteIs(image, blockSize, found, p, b[p])
    ensures a == b
  {
    hide ByteIs;
    forall p | 0 <= p < size
      ensures a[p] == b[p]
    {
      assert ByteIn(image, blockSize, l, p, a, 0);
      OneByte(image, blockSize, found, p, a[p], b[p]);
    }
  }

  /**
   Both readers on an inode whose extents do not overlap: they give the same exactly when there are no extents to follow,
   when both fail, or when no extent that is unwritten or behind the end of the file follows a hole.
   */
  lemma {:induction false} InodeReadersAgreeIff(image: bytes, blockSize: nat, inode: Inode)
    requires blockSize > 0 && |inode.area| == AREA_LENGTH
    requires FileExtents(image, blockSize, inode).Ok? ==> NoOverlap(FileExtents(image, blockSize, inode).value)
    ensures Streamed(image, blockSize, inode) == Prefix(image, blockSize, inode, inode.size)
       <==> var found := FileExtents(image, blockSize, inode);
            || inode.size == 0 || (inode.mode / 0x1000 == 10 && inode.size <= 60) || found.Err?
            || Prefix(image, blockSize, inode, inode.size).Err? || !Skewed(found.value, blockSize, inode.size)
  {
    hide FileExtents, NoOverlap, StreamFrom, FillFrom, Skewed, SortExtents;
    var found := FileExtents(image, blockSize, inode);
    if found.Ok? {
      ReadersAgreeIff(image, blockSize, found.value, inode.size);
    }
  }

  // ---- Any image -------------------------------------------------------------------------------------------

  /** Where an ext4 image of any writer says that things are: block size, descriptor of a group, inode table, slot. */
  function BlockSizeIn(image: bytes): nat
    requires |image| >= 2048
  {
    1024 * Pow2(Get32(image, 1048))
  }

  function DescriptorIn(image: bytes, group: nat): nat
    requires |image| >= 2048
  {
    (if BlockSizeIn(image) == 1024 then 2048 else BlockSizeIn(image)) + group * Max(Get16(image, 1278), 32)
  }

  /** Block numbers have 64 bits when the image says so, in descriptors that are long enough. */
  predicate WideIn(image: bytes)
    requires |image| >= 2048
  {
    Get32(image, 1120) / 128 % 2 == 1
  }

  function TableIn(image: bytes, at: nat): nat
    requires |image| >= 2048 && at + Max(Get16(image, 1278), 32) <= |image|
  {
    Get32(image, at + 8) + if WideIn(image) && Get16(image, 1278) >= 44 then 0x1_0000_0000 * Get32(image, at + 40) else 0
  }

  function GroupIn(image: bytes, number: nat): nat
    requires |image| >= 2048 && number > 0 && Get32(image, 1064) > 0
  {
    (number - 1) / Get32(image, 1064)
  }

  function SlotIn(image: bytes, number: nat): nat
    requires |image| >= 2048 && number > 0 && Get32(image, 1064) > 0
    requires DescriptorIn(image, GroupIn(image, number)) + Max(Get16(image, 1278), 32) <= |image|
  {
    Place(TableIn(image, DescriptorIn(image, GroupIn(image, number))), BlockSizeIn(image),
          (number - 1) % Get32(image, 1064), Get16(image, 1112))
  }

  /** Byte of slot `index` of a table that starts with block `table`. */
  function Place(table: nat, blockSize: nat, index: nat, slotSize: nat): nat {
    table * blockSize + index * slotSize
  }

  lemma {:induction false} SeventhBit(v: nat)
    ensures Bit(v, 7) <==> v / 128 % 2 == 1
  {
    BitIs(v, 7);
    assert Pow2(3) == 8;
    assert Pow2(7) == 128;
    hide Bit;
  }

  lemma {:induction false} SuperIn(image: bytes, sb: Superblock)
    requires ReadSuper(image) == Ok(sb)
    ensures |image| >= 2048 && sb.blockSize == BlockSizeIn(image) && sb.inodeSize == Get16(image, 1112)
    ensures sb.blocksPerGroup == Get32(image, 1056) && sb.inodesPerGroup == Get32(image, 1064)
    ensures sb.descriptorSize == Max(Get16(image, 1278), 32) && (Bit(sb.incompat, WIDE_BIT) <==> WideIn(image))
    ensures sb.blocks == Get32(image, 1028) + if WideIn(image) then 0x1_0000_0000 * Get32(image, 1360) else 0
  {
    SeventhBit(Get32(image, 1120));
    hide Bit, Pow2, Get16, Get32;
    var data := image[1024..2048];
    SameWord(image, 24);
    SameWord(image, 32);
    SameWord(image, 40);
    SameWord(image, 4);
    SameWord(image, 88);
    SameWord(image, 254);
    SameWord(image, 96);
    SameWord(image, 336);
  }

  lemma {:induction false} SameWord(image: bytes, at: nat)
    requires |image| >= 2048 && at + 4 <= 1024
    ensures Get16(image[1024..2048], at) == Get16(image, 1024 + at) && Get32(image[1024..2048], at) == Get32(image, 1024 + at)
  {
  }

  lemma {:induction false} SameWordAt(image: bytes, from: nat, n: nat, at: nat)
    requires from + n <= |image| && at + 4 <= n
    ensures Get16(image[from..from + n], at) == Get16(image, from + at) && Get32(image[from..from + n], at) == Get32(image, from + at)
  {
  }

  /** An inode of any image, from the superblock's words to the words of its slot. */
  lemma {:induction false} InodeAnywhere(image: bytes, sb: Superblock, number: nat)
    requires ReadSuper(image) == Ok(sb) && sb.inodesPerGroup > 0 && sb.blocksPerGroup > 0 && sb.inodeSize >= 128
    requires sb.descriptorSize >= 32
    ensures |image| >= 2048
    ensures var r := ReadInode(image, sb, number);
            r.Ok? ==>
              && number > 0 && Get32(image, 1064) > 0
              && DescriptorIn(image, GroupIn(image, number)) + Max(Get16(image, 1278), 32) <= |image|
              && InodeWords(image, SlotIn(image, number), r.value)
  {
    hide *;
    SuperIn(image, sb);
    if ReadInode(image, sb, number).Ok? {
      ReadSteps(image, sb, number);
      var g := (number - 1) / sb.inodesPerGroup;
      GroupSame(image, sb, number);
      DescriptorSame(image, sb, g);
      TableSame(image, sb, DescriptorIn(image, g));
      SlotIs(image, sb, number, g);
      WordsOf(image, SlotIn(image, number), sb.inodeSize);
    }
  }

  lemma {:induction false} GroupSame(image: bytes, sb: Superblock, number: nat)
    requires |image| >= 2048 && number > 0 && sb.inodesPerGroup == Get32(image, 1064) > 0
    ensures (number - 1) / sb.inodesPerGroup == GroupIn(image, number)
  {
  }

  lemma {:induction false} ReadSteps(image: bytes, sb: Superblock, number: nat)
    requires sb.inodesPerGroup > 0 && sb.blocksPerGroup > 0 && sb.descriptorSize >= 32 && sb.inodeSize >= 128
    requires ReadInode(image, sb, number).Ok?
    ensures number > 0
    ensures var g := (number - 1) / sb.inodesPerGroup;
            var d := DescriptorOffset(sb, g);
            && g >= 0 && d + sb.descriptorSize <= |image|
            && var slot := SlotAt(TableOf(image[d..d + sb.descriptorSize], Bit(sb.incompat, WIDE_BIT)), sb.blockSize, (number - 1) % sb.inodesPerGroup, sb.inodeSize);
               && slot + sb.inodeSize <= |image| && ReadInode(image, sb, number).value == ParseInode(image[slot..slot + sb.inodeSize])
  {
    hide DescriptorOffset, TableOf, SlotAt, ParseInode, Bit, DivCeil;
  }

  lemma {:induction false} SlotIs(image: bytes, sb: Superblock, number: nat, g: nat)
    requires |image| >= 2048 && number > 0 && sb.inodesPerGroup == Get32(image, 1064) > 0 && sb.blockSize == BlockSizeIn(image)
    requires sb.inodeSize == Get16(image, 1112) && g == (number - 1) / sb.inodesPerGroup == GroupIn(image, number)
    requires DescriptorIn(image, g) + Max(Get16(image, 1278), 32) <= |image|
    ensures SlotIn(image, number)
         == SlotAt(TableIn(image, DescriptorIn(image, g)), sb.blockSize, (number - 1) % sb.inodesPerGroup, sb.inodeSize)
  {
    hide DescriptorIn, TableIn, BlockSizeIn, Get16, Get32;
  }

  lemma {:induction false} DescriptorSame(image: bytes, sb: Superblock, g: nat)
    requires |image| >= 2048 && sb.blockSize == BlockSizeIn(image) && sb.descriptorSize == Max(Get16(image, 1278), 32)
    ensures DescriptorOffset(sb, g) == DescriptorIn(image, g)
  {
    hide Get16, Get32, Pow2;
  }

  lemma {:induction false} TableSame(image: bytes, sb: Superblock, at: nat)
    requires |image| >= 2048 && sb.descriptorSize == Max(Get16(image, 1278), 32) && at + sb.descriptorSize <= |image|
    requires Bit(sb.incompat, WIDE_BIT) <==> WideIn(image)
    ensures TableOf(image[at..at + sb.descriptorSize], Bit(sb.incompat, WIDE_BIT)) == TableIn(image, at)
  {
    SameWordAt(image, at, sb.descriptorSize, 8);
    if sb.descriptorSize >= 44 {
      SameWordAt(image, at, sb.descriptorSize, 40);
    }
    hide Get32, Get16, Bit;
  }

  /** Mode, owner, size, flags and block area of an inode, in the words of the slot at `at`. */
  predicate InodeWords(image: bytes, at: nat, i: Inode) {
    && at + 128 <= |image| && i.mode == Get16(image, at) && i.uid % 0x1_0000 == Get16(image, at + 2) && i.uid / 0x1_0000 == Get16(image, at + 120)
    && i.gid % 0x1_0000 == Get16(image, at + 24) && i.gid / 0x1_0000 == Get16(image, at + 122)
    && i.size % 0x1_0000_0000 == Get32(image, at + 4) && i.size / 0x1_0000_0000 == Get32(image, at + 108)
    && i.flags == Get32(image, at + 32) && i.area == image[at + 40..at + 100]
  }

  lemma {:induction false} WordsOf(image: bytes, at: nat, n: nat)
    requires n >= 128 && at + n <= |image|
    ensures InodeWords(image, at, ParseInode(image[at..at + n]))
  {
    SameWordAt(image, at, n, 0);
    SameWordAt(image, at, n, 2);
    SameWordAt(image, at, n, 120);
    SameWordAt(image, at, n, 24);
    SameWordAt(image, at, n, 122);
    SameWordAt(image, at, n, 4);
    SameWordAt(image, at, n, 108);
    SameWordAt(image, at, n, 32);
    SlicesMeet(image, at, n, 40, 100);
    LowHigh(Get16(image, at + 2), Get16(image, at + 120), U16_LIMIT);
    LowHigh(Get16(image, at + 24), Get16(image, at + 122), U16_LIMIT);
    LowHigh(Get32(image, at + 4), Get32(image, at + 108), U32_LIMIT);
    hide Get16, Get32;
  }

  lemma {:induction false} SlicesMeet(image: bytes, at: nat, n: nat, a: nat, b: nat)
    requires at + n <= |image| && a <= b <= n
    ensures image[at..at + n][a..b] == image[at + a..at + b]
  {
    var x, y := image[at..at + n][a..b], image[at + a..at + b];
    forall k | 0 <= k < b - a
      ensures x[k] == y[k]
    {
    }
  }

  lemma {:induction false} LowHigh(low: nat, high: nat, limit: nat)
    requires low < limit
    ensures (low + high * limit) % limit == low && (low + high * limit) / limit == high
  {
    DivUnique(low + high * limit, high, low, limit);
  }

  /** A hole, an unwritten block and a block of data: streaming puts the data one block too far. */
  lemma {:induction false} UnwrittenShiftsData(image: bytes, blockSize: nat)
    requires 0 < blockSize <= |image|
    ensures var found := [DiskExtent(1, 0, 1, true), DiskExtent(2, 0, 1, false)];
            && NoOverlap(found)
            && FillFrom(image, blockSize, found, 0, Zeros(3 * blockSize)) == Ok(Zeros(2 * blockSize) + image[..blockSize])
            && StreamFrom(image, blockSize, SortExtents(found), 0, 0, 3 * blockSize) == Ok(Zeros(3 * blockSize) + image[..blockSize])
  {
    var e, f := DiskExtent(1, 0, 1, true), DiskExtent(2, 0, 1, false);
    TwoApart(e, f);
    FillsTwo(image, blockSize, e, f);
    StreamsTwo(image, blockSize, e, f);
  }

  lemma {:induction false} TwoApart(e: DiskExtent, f: DiskExtent)
    requires e.logical == 1 && f.logical == 2 && e.length == f.length == 1
    ensures NoOverlap([e, f])
  {
    assert multiset([e, f]) == multiset{e, f};
  }

  lemma {:induction false} FillsTwo(image: bytes, blockSize: nat, e: DiskExtent, f: DiskExtent)
    requires 0 < blockSize <= |image| && e == DiskExtent(1, 0, 1, true) && f == DiskExtent(2, 0, 1, false)
    ensures FillFrom(image, blockSize, [e, f], 0, Zeros(3 * blockSize)) == Ok(Zeros(2 * blockSize) + image[..blockSize])
  {
    var buffer := Zeros(3 * blockSize);
    assert FillOne(image, blockSize, e, buffer) == Ok(buffer);
    var filled := buffer[..2 * blockSize] + image[0..blockSize] + buffer[3 * blockSize..];
    assert FillOne(image, blockSize, f, buffer) == Ok(filled);
    assert filled == Zeros(2 * blockSize) + image[..blockSize];
    hide FillOne, Zeros;
    assert FillFrom(image, blockSize, [e, f], 2, filled) == Ok(filled);
    assert FillFrom(image, blockSize, [e, f], 1, buffer) == Ok(filled);
  }

  lemma {:induction false} StreamsTwo(image: bytes, blockSize: nat, e: DiskExtent, f: DiskExtent)
    requires 0 < blockSize <= |image| && e == DiskExtent(1, 0, 1, true) && f == DiskExtent(2, 0, 1, false)
    ensures StreamFrom(image, blockSize, SortExtents([e, f]), 0, 0, 3 * blockSize) == Ok(Zeros(3 * blockSize) + image[..blockSize])
  {
    var size, l := 3 * blockSize, [e, f];
    assert l[..1] == [e] && [e][..0] == [];
    assert SortExtents([]) == [] && SortExtents([e]) == [e];
    assert SortExtents(l) == l;
    assert Zeros(blockSize) + Zeros(2 * blockSize) == Zeros(size);
    assert StreamOne(image, blockSize, e, 0, size) == Ok(Zeros(size));
    assert CursorBehind(blockSize, e, 0, size) == 2 * blockSize;
    assert Zeros(0) + image[0..blockSize] == image[..blockSize];
    assert StreamOne(image, blockSize, f, 2 * blockSize, size) == Ok(image[..blockSize]);
    assert CursorBehind(blockSize, f, 2 * blockSize, size) == size;
    hide StreamOne, CursorBehind;
    assert StreamFrom(image, blockSize, l, 2, size, size) == Ok(Zeros(0));
    hide Zeros;
    assert image[..blockSize] + Zeros(0) == image[..blockSize];
    assert StreamFrom(image, blockSize, l, 1, 2 * blockSize, size) == Ok(image[..blockSize]);
  }
}
