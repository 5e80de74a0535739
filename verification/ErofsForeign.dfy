/** What the EROFS readers make of any image, in plain numbers: inodes of both sizes, plain and inline data, directory blocks. */
module ErofsForeign {
  import opened Core
  import opened Arith
  import opened ErofsLayout
  import opened ErofsPieces
  import opened ErofsReadBack
  import D = ErofsDir

  // ---- Inodes ----------------------------------------------------------------------------------------------

  /** The least multiple of `step` from `v` on. */
  predicate NextMultiple(v: nat, step: nat, r: nat)
    requires step > 0
  {
    v <= r < v + step && r % step == 0
  }

  /** Bytes of the inline xattr area of the inode at `at`: a header of 8 and four for every unit, none for no unit. */
  function AreaBytes(image: bytes, at: nat): nat
    requires at + 4 <= |image|
  {
    if Get16(image, at + 2) == 0 then 0 else 8 + 4 * Get16(image, at + 2)
  }

  /** An inode of 64 bytes; without the lowest bit of its format it has 32. */
  predicate Extended(image: bytes, at: nat)
    requires at < |image|
  {
    image[at] % 2 == 1
  }

  /** The fields of the inode at `at`. */
  predicate InodeSays(image: bytes, at: nat, i: FoundInode)
    requires at + 64 <= |image|
  {
    && i.mode == Get16(image, at + 4) && i.layout == Get16(image, at) / 2 % 8 && i.raw == Get32(image, at + 16)
    && i.uid == (if Extended(image, at) then Get32(image, at + 24) else Get16(image, at + 24))
    && i.gid == (if Extended(image, at) then Get32(image, at + 28) else Get16(image, at + 26))
    && i.size == (if Extended(image, at) then Get64(image, at + 8) else Get32(image, at + 8))
    && NextMultiple(at + (if Extended(image, at) then 64 else 32) + AreaBytes(image, at), if i.layout == 3 then 8 else 4, i.dataOffset)
  }

  /** The map header in front of the index of a compressed file. */
  predicate MapSays(image: bytes, i: FoundInode) {
    if i.layout == 3
    then i.dataOffset + 8 <= |image| && i.advise == Get16(image, i.dataOffset + 4)
         && i.algorithms == image[i.dataOffset + 6] as nat && i.clusterBits == image[i.dataOffset + 7] as nat % 8
    else i.advise == i.algorithms == i.clusterBits == 0
  }

  lemma {:induction false} Aligned(v: nat)
    ensures NextMultiple(v, 8, AlignUp8(v)) && NextMultiple(v, 4, AlignUp4(v))
  {
  }

  lemma {:induction false} FormatBit(image: bytes, at: nat)
    requires at + 2 <= |image|
    ensures Get16(image, at) % 2 == 1 <==> Extended(image, at)
  {
    assert Get16(image, at) == image[at] as int + 0x100 * (image[at + 1] as int);
  }

  /** Where the 64 bytes of an inode start. */
  function InodeByte(s: Superblock, nid: nat): nat {
    s.meta * s.blockSize + 32 * nid
  }

  /** Any inode that is read, of either size and any layout. */
  lemma {:induction false} InodeAnywhere(image: bytes, s: Superblock, nid: nat)
    ensures var r := ReadInode(image, s, nid);
            r.Ok? ==> InodeByte(s, nid) + 64 <= |image| && InodeSays(image, InodeByte(s, nid), r.value) && MapSays(image, r.value)
  {
    hide *;
    if ReadInode(image, s, nid).Ok? {
      PlaceSame(s, nid);
      ReadSteps(image, s, nid);
      var at, r := InodeByte(s, nid), ReadInode(image, s, nid).value;
      FieldsSay(image, at, r.dataOffset, r.advise, r.algorithms, r.clusterBits);
      AllSaid(image, at, r);
    }
  }

  lemma {:induction false} ReadSteps(image: bytes, s: Superblock, nid: nat)
    requires ReadInode(image, s, nid).Ok?
    ensures var at, r := s.meta * s.blockSize + nid * SLOT, ReadInode(image, s, nid).value;
            && at + 64 <= |image|
            && var data := Slice(image, at, 64).value;
               && r == InodeAt(data, r.dataOffset, r.advise, r.algorithms, r.clusterBits)
               && r.dataOffset == (if r.layout == 3 then AlignUp8(AreaEnd(at, data)) else AlignUp4(AreaEnd(at, data)))
               && MapSays(image, r)
  {
    hide Get16, Get32, Get64, AreaEnd, AlignUp8, AlignUp4;
    var r := ReadInode(image, s, nid).value;
    if r.layout == 3 {
      HeaderSame(image, r.dataOffset);
    }
  }

  /** The 64 bytes of an inode, read from the image. */
  lemma {:induction false} FieldsSay(image: bytes, at: nat, dataOffset: nat, advise: nat, algorithms: nat, clusterBits: nat)
    requires at + 64 <= |image|
    ensures var data := Slice(image, at, 64).value;
            var i := InodeAt(data, dataOffset, advise, algorithms, clusterBits);
            && i.mode == Get16(image, at + 4) && i.layout == Get16(image, at) / 2 % 8 && i.raw == Get32(image, at + 16)
            && i.uid == (if Extended(image, at) then Get32(image, at + 24) else Get16(image, at + 24))
            && i.gid == (if Extended(image, at) then Get32(image, at + 28) else Get16(image, at + 26))
            && i.size == (if Extended(image, at) then Get64(image, at + 8) else Get32(image, at + 8))
            && AreaEnd(at, data) == at + (if Extended(image, at) then 64 else 32) + AreaBytes(image, at)
  {
    FormatBit(image, at);
    SliceGets(image, at, 64, 0);
    SliceGets(image, at, 64, 2);
    SliceGets(image, at, 64, 4);
    SliceGets(image, at, 64, 8);
    SliceGets(image, at, 64, 16);
    SliceGets(image, at, 64, 24);
    SliceGets(image, at, 64, 26);
    SliceGets(image, at, 64, 28);
    hide Get16, Get32, Get64, Extended, Slice;
  }

  lemma {:induction false} AllSaid(image: bytes, at: nat, i: FoundInode)
    requires at + 64 <= |image|
    requires var data := Slice(image, at, 64).value;
             && i == InodeAt(data, i.dataOffset, i.advise, i.algorithms, i.clusterBits)
             && i.dataOffset == (if i.layout == 3 then AlignUp8(AreaEnd(at, data)) else AlignUp4(AreaEnd(at, data)))
             && i.mode == Get16(image, at + 4) && i.layout == Get16(image, at) / 2 % 8 && i.raw == Get32(image, at + 16)
             && i.uid == (if Extended(image, at) then Get32(image, at + 24) else Get16(image, at + 24))
             && i.gid == (if Extended(image, at) then Get32(image, at + 28) else Get16(image, at + 26))
             && i.size == (if Extended(image, at) then Get64(image, at + 8) else Get32(image, at + 8))
             && AreaEnd(at, data) == at + (if Extended(image, at) then 64 else 32) + AreaBytes(image, at)
    ensures InodeSays(image, at, i)
  {
    Aligned(at + (if Extended(image, at) then 64 else 32) + AreaBytes(image, at));
    hide Get16, Get32, Get64, Extended, AreaBytes, AreaEnd, AlignUp8, AlignUp4, NextMultiple, InodeAt, Slice;
  }

  lemma {:induction false} PlaceSame(s: Superblock, nid: nat)
    ensures InodeByte(s, nid) == s.meta * s.blockSize + nid * SLOT
  {
  }

  lemma {:induction false} HeaderSame(image: bytes, at: nat)
    ensures var header := Slice(image, at, MAP_HEADER);
            header.Some? ==> at + 8 <= |image| && Get16(header.value, 4) == Get16(image, at + 4)
                             && header.value[6] == image[at + 6] && header.value[7] == image[at + 7]
  {
  }

  // ---- Plain and inline data -------------------------------------------------------------------------------

  /** Bytes of an inline inode that are in whole blocks; the others follow the inode. */
  function InBlocks(s: Superblock, i: FoundInode): nat
    requires s.blockSize > 0
  {
    if i.raw == 0 then 0 else i.size - i.size % s.blockSize
  }

  predicate DataThere(image: bytes, s: Superblock, i: FoundInode)
    requires s.blockSize > 0
  {
    || i.size == 0
    || (i.layout == 0 && i.raw * s.blockSize + i.size <= |image|)
    || (i.layout == 2
        && (InBlocks(s, i) > 0 ==> i.raw * s.blockSize + InBlocks(s, i) <= |image|)
        && (InBlocks(s, i) < i.size ==> i.dataOffset + (i.size - InBlocks(s, i)) <= |image|))
  }

  /** Where byte `k` of the data is. */
  function ByteOfData(s: Superblock, i: FoundInode, k: int): int
    requires s.blockSize > 0
  {
    if i.layout == 0 || k < InBlocks(s, i) then i.raw * s.blockSize + k else i.dataOffset + (k - InBlocks(s, i))
  }

  predicate DataByte(image: bytes, s: Superblock, i: FoundInode, data: bytes, k: int)
    requires s.blockSize > 0
  {
    0 <= k < |data| && 0 <= ByteOfData(s, i, k) < |image| && data[k] == image[ByteOfData(s, i, k)]
  }

  lemma {:induction false} WholeBlocks(size: nat, blockSize: nat)
    requires blockSize > 0
    ensures size / blockSize * blockSize == size - size % blockSize
  {
  }

  /**
   Reading plain or inline data succeeds exactly when it is inside the image, and then gives whole blocks from the block
   number on and the rest from behind the inode; without a block number everything is behind the inode.
   */
  lemma {:induction false} PlainMeans(image: bytes, s: Superblock, i: FoundInode)
    requires s.blockSize > 0
    ensures var r := PlainData(image, s, i);
            && (r.Ok? <==> DataThere(image, s, i))
            && (r.Ok? ==> |r.value| == i.size && forall k :: 0 <= k < i.size ==> DataByte(image, s, i, r.value, k))
  {
    WholeBlocks(i.size, s.blockSize);
    FullBlocksBound(i.size, s.blockSize);
    var r, from, full := PlainData(image, s, i), i.raw * s.blockSize, InBlocks(s, i);
    if r.Ok? {
      forall k | 0 <= k < i.size
        ensures DataByte(image, s, i, r.value, k)
      {
        if i.layout == 0 {
          assert r.value[k] == image[from..from + i.size][k];
        } else if k < full {
          assert r.value[k] == image[from..from + full][k];
        } else {
          assert r.value[k] == image[i.dataOffset..i.dataOffset + (i.size - full)][k - full];
        }
      }
    }
  }

  // ---- Directory blocks ------------------------------------------------------------------------------------

  lemma {:induction false} TrimMeans(name: bytes)
    ensures var r := D.TrimNul(name);
            && r <= name && (r != [] ==> r[|r| - 1] != 0) && forall k :: |r| <= k < |name| ==> name[k] == 0
    decreases |name|
  {
    if name != [] && name[|name| - 1] == 0 {
      TrimMeans(name[..|name| - 1]);
    }
  }

  /** Where the name of record `index` ends: where the next one starts, or at the end of the block. */
  function NameEnd(block: bytes, count: nat, index: nat): nat
    requires index < count && 12 * count <= |block|
  {
    if index + 1 == count then |block| else Get16(block, 12 * index + 20)
  }

  /**
   One record of a directory block of any writer: it is skipped when its number is zero or its name does not lie behind the
   records and inside the block; otherwise it is shown with its name up to the zero bytes at its end.
   */
  lemma {:induction false} EntryMeans(block: bytes, first: nat, count: nat, index: nat)
    requires index < count && 12 * count <= |block|
    ensures var r, at := D.EntryAt(block, first, count, index), 12 * index;
            var from, until := Get16(block, at + 8), NameEnd(block, count, index);
            if Get64(block, at) == 0 || from < first || until < from || until > |block| then r == []
            else |r| == 1 && r[0].nid == Get64(block, at) && r[0].kind == block[at + 10]
                 && r[0].name <= block[from..until] && (r[0].name != [] ==> r[0].name[|r[0].name| - 1] != 0)
                 && forall k :: from + |r[0].name| <= k < until ==> block[k] == 0
  {
    hide Get16, Get64, D.TrimNul;
    var from, until := Get16(block, 12 * index + 8), NameEnd(block, count, index);
    if from <= until <= |block| {
      TrimMeans(block[from..until]);
      var r := D.TrimNul(block[from..until]);
      forall k | from + |r| <= k < until
        ensures block[k] == 0
      {
        assert block[from..until][k - from] == 0;
      }
    }
  }
}
