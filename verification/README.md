# A verified model of image-worker

image-worker rewrites ext4, EROFS and Android sparse images in user space. This project models its planners, block
allocators and on-disk codecs in Dafny, writer and reader side by side, and proves what ties each writer to its
reader. Images and files are byte sequences, `Image::read_at` is slicing, and a seekable output file is a class whose
content is overwritten in place.

`dafny verify dfyconfig.toml` checks the whole project.

## Reading guide

- **Vocabulary**: `Core` (bytes, little-endian fields), `Arith` (division facts), `OutFile` (a file written in place),
  `Spans` (what a write leaves alone), `Buffers`, `Bitmaps`.
- **ext4 builder**: `Ext4Plan` sizes the image, `Ext4Alloc` lays out groups, extents and tree blocks, `Ext4Build` shows
  that the planned size suffices. `Ext4Tree` numbers the inodes. `Ext4Inode`, `Ext4Image`, `Ext4Super`,
  `Ext4Accounting` and `Ext4Groups` write inodes, trees, data, superblocks, descriptors and bitmaps into one image.
  `Ext4Shared` and `Ext4SharedLayout` are the block-sharing variant of data placement. `Ext4Owners` and
  `Ext4Footprints` show, for both variants, that no two writes meet, and `Ext4Whole` builds the finished image.
  `Ext4Grow` plans, builds and grows, and `Ext4Fragments` builds an image with a file that does not come back.
  `Ext4Stored` and `Ext4Blocks` say in plain numbers, at the offsets of the format, what a finished image is: superblock
  copies, descriptors, bitmaps, slots, listings, the owner of every block and the place of every byte.
- **ext4 readers**: `Ext4Extents` (the collector), `Ext4Content` (buffer and streaming reader), `Ext4Dir`
  (directories), `Ext4ReadBack` (from the superblock to every file and directory of a finished image), and `Ext4Foreign`
  (images of other writers: unwritten extents, holes, 64-bit block numbers).
- **EROFS compressed files**: `CompactWriter`, `CompactReader`, `CompactRoundTrip`, with `Lz4` as the decoder that is
  modelled in full and `BlockSource` as the caching adapter of the EROFS-to-ext4 conversion. `CompactStored` says which
  clusters share a block and what the index words are, `CompactResolved` what an index of any writer means.
- **EROFS images**: `ErofsLayout` numbers nodes and places regions, `ErofsDir` packs and parses directories,
  `ErofsPieces` says what is written where and that no two parts meet, `ErofsImage` writes a whole compressed image,
  and `ErofsReadBack` reads it from the superblock to the tree and every file. `ErofsStored` says in plain numbers what a
  finished image is and how its nodes are numbered, `ErofsForeign` what the readers make of inodes, data and directory
  blocks of any image. `PatchedReader` is the overlay path.
- **Sparse container**: `SparseWriter`, `SparseReader`, `SparseRoundTrip`, and `SparseStored` (containers in plain
  numbers, and exactly which ones are accepted). **Glob**: `Glob`.

The Rust code panics or wraps where a 32- or 16-bit field overflows; the model states the widths where a value is
stored and truncates where the code does. Little-endian layouts follow the ext4, EROFS and Android sparse formats and
the LZ4 block format ("Compressed block format" of the LZ4 Block Format Description).

## What turned out not to hold everywhere

Each of these is proved with its exact condition, and the failing side is inhabited: a lemma or a verified build gives
an input.

- An ext4 file with more than one extent whose extent count is 1 modulo 340 loses its last extent: the builder
  allots a tree block too few (`Ext4Extents.TreeReadsBackIff`, `Ext4ReadBack.FileReadsBackIff`). Without sharing this
  cannot happen on images of at most 340 groups (`Ext4ReadBack.SmallImagesCover`); with sharing a file of 341 blocks
  between holes is enough, and the image is built without an error (`Ext4Fragments.BuildScattered`).
- The streaming ext4 reader accounts for a hole twice when the extent behind it is unwritten, or starts at or behind the
  end of the file: what follows is shifted, and the output is longer than the file. For extents that do not overlap the
  streaming reader and the buffer reader agree exactly when this does not happen (`Ext4Foreign.ReadersAgreeIff`,
  `Ext4Foreign.InodeReadersAgreeIff`, `Ext4Foreign.UnwrittenShiftsData`). Files this program writes have no such extents.
- A compressed index is misread for EROFS blocks above 4 KiB when it has a HEAD entry, because encoder and decoder split
  entries at different bits; without one it reads back with 8 and 16 KiB blocks, with 32 KiB when the first block is odd
  or there is one cluster, and from four clusters on never above that (`CompactRoundTrip.IndexReadsBackIff`,
  `CompactRoundTrip.PlainsBySize`, `CompactRoundTrip.LargeBlockIsMisread`).
- The block source never moves back: a request on a compressed file that starts in front of the extent in which an
  earlier request on it ended gets zeros there, even when offsets do not decrease
  (`BlockSource.ErofsBlockSource.ServeAll`, `BlockSource.OverlapLosesBytes`). Reading the same file twice in a row
  therefore loses everything in front of its last extent (`BlockSource.SecondPassIff`,
  `BlockSource.SecondPassLosesBytes`). Without sharing no build does that: file contents are read only once the layout
  has succeeded. A build with sharing reads files while it places them; when it runs out of blocks and is retried one
  group larger, the file it was reading is read from its start again, and loses what is in front of its open extent
  unless another compressed file is read in between.
- The sparse round trip needs blocks that are multiples of 4 bytes: the fill test ignores the bytes behind the last
  whole word (`SparseRoundTrip.RoundTripIff`).
- A name that contains a `*` byte is matched wrongly by some pattern, because the literal test comes before the star
  test (`Glob.RightIff`).
- With 64 KiB blocks a directory whose last record fills a block by itself cannot be read
  (`Ext4Dir.DirectoryReadsBackIff`, `Ext4Dir.LoneRecordIsLost`).
- With fewer than 10 inodes a group the group counters of free inodes do not add up to the superblock's
  (`Ext4Accounting.FreeInodesAddUpIff`, `Ext4Accounting.SmallGroupsMiscount`).
- With 1 KiB blocks the ext4 descriptor table lies on the superblock (`Ext4Groups.TableOffSuperIff`).
- An EROFS image is sound exactly when the first block behind the inodes starts at byte 1152 or later, which blocks of
  at least 2 KiB guarantee (`ErofsReadBack.SoundIff`, `ErofsLayout.LargeBlocksSuffice`). When it starts in front of that
  there are two cases, told apart for every block size from 512 bytes on (`ErofsLayout.BehindOffSuperIff`). Either the
  xattr table, a directory or a payload meets the superblock, which is written over it: the directory of a lone root
  with 1 KiB blocks, the payload of a small file or a root directory of more than 512 bytes with 512-byte blocks
  (`ErofsLayout.SmallBlocksMeetSuper`, `ErofsLayout.PayloadMeetsSuper`, `ErofsLayout.LongDirectoryMeetsSuper`). Or
  everything ends by byte 1024, and then the file is cut there and has no superblock (`ErofsReadBack.SuperReadsIff`,
  `ErofsReadBack.BuildLoneRoot`).
- The root of an EROFS image names number 1 as its parent, which is the root itself exactly when the metadata does not
  start at byte 1024 (`ErofsReadBack.RootIsOwnParentIff`).
- A kept input size whose last group is smaller than a group's metadata is refused, and the loop that grows a full
  image neither retries this nor could mend it (`Ext4Grow.PlanAndRebuild`, `Ext4Grow.CutShortStays`,
  `Ext4Grow.KeptSizeIsCutShort`).
- Owners above 65535 come back modulo 65536 (`Ext4Inode.SlotParses`).

Where documentation and code differ the model follows the code: the comment on `read_range`
(src/fs/erofs/inode.rs) says that positions past the end of the file read as zero, while the code leaves that part of
the caller's buffer as it was; the readers of 1 KiB-block ext4 images expect the descriptor table in block 2, while
the builder always writes it into block 1, so the model of the finished image takes blocks of at least 4 KiB.

## Model

| member | source | states |
|---|---|---|
| Ext4Plan.SizeGroups | src/write/ext4.rs:531-543 | rounds from one group up never pass a count that would do; a loop that ends by its break found the least `g >= 1` whose demand asks for at most `g` groups, and one that does not passed 32 groups |
| Ext4Plan.PlanTotalBlocks | src/write/ext4.rs:525-556 | the planned total is whole groups with an inode for every node plus 16; when the loops end by their breaks the count is the least fixed point, then the least count from there on that leaves the margin; without a break the margin loop stops 1024 groups on, none of which leaves the margin |
| Ext4Plan.WantMonotone | src/write/ext4.rs:533-538 | metadata grows with the group count, so asking for more groups never asks for less: why the least fixed point is reached from below |
| Ext4Alloc.LayoutGroups | src/write/ext4.rs:643-664 | fails exactly when the last group is smaller than its own metadata; otherwise exactly the metadata blocks are marked and each group knows its five places |
| Ext4Alloc.BlockAllocator.SkipUsed | src/write/ext4.rs:731-737 | the cursor stops at the first free block, or everything is used and the image is exactly full |
| Ext4Alloc.BlockAllocator.TakeRun | src/write/ext4.rs:738-750 | takes the longest free stretch up to the limit; the partition of the used blocks survives |
| Ext4Alloc.BlockAllocator.AllocateExtents | src/write/ext4.rs:727-761 | the extents map the blocks of the file in order without gaps, each inside one group and each in a later group than the one before; failure means the image is full |
| Ext4Alloc.BlockAllocator.PlaceFiles | src/write/ext4.rs:669-770 | every node is mapped in full, the blocks handed out are exactly those of the files in order, and each crossing moved the cursor to a later group |
| Ext4Alloc.BlockAllocator.PlaceTrees | src/write/ext4.rs:771-797 | tree blocks are fresh blocks behind the data, as many as the builder counts for each file; more than 1360 extents is the only other error |
| Ext4Alloc.OwnersAreUnique | src/write/ext4.rs:641-797 | in the invariant every step keeps, no block has two owners and no owned block is metadata |
| Ext4Alloc.TakeKeepsPartition | src/write/ext4.rs:738-761 | taking the free stretch at the cursor keeps: used blocks are metadata and owned runs disjointly, everything below the cursor is used, the count adds up |
| Ext4Alloc.DataRunInOneGroup | src/write/ext4.rs:643-664 | a stretch without metadata stays in one group and is shorter than the group, since every group starts with metadata |
| Ext4Alloc.SpreadBound | src/write/ext4.rs:726-761 | a file has at most one extent for each group it spans |
| Ext4Alloc.TreeTotalBound | src/write/ext4.rs:771-797 | one tree block a file covers the trees of all files until a file crosses more than 340 groups |
| Ext4Build.BuildLayout | src/write/ext4.rs:614-797 | a finished layout maps every node, owns every block once and counts exactly; the layout runs out of blocks only on an image smaller than metadata, data and trees together |
| Ext4Build.PlanAndBuild | src/write/ext4.rs:447-556 | the planner suffices: whenever the margin loop ended because there was room, the layout of the planned size succeeds at once, every inode number falls in an existing group, and the margin stays free (all of it up to 341 groups) |
| Ext4Build.EnoughRoom | src/write/ext4.rs:544-555 | a total with the planned slack holds the metadata of every group, the data, one tree block a node and the margin |
| Ext4Build.NoExtraTrees | src/write/ext4.rs:525-526 | the estimate of one tree block a node is never exceeded exactly up to 341 groups |
| Ext4Tree.Assign | src/write/ext4.rs:213-221 | computes the numbered tree that the numbering lemmas are about |
| Ext4Tree.CountOf | src/write/ext4.rs:222-224 | the number of nodes of a subtree, which is also the length of its preorder list |
| Ext4Tree.NumbersExact | src/write/ext4.rs:213-230 | in preorder the root is 2 and the others are 11, 12, ...: one-to-one onto 2 and 11..N+9 |
| Ext4Tree.AssignedParents | src/write/ext4.rs:213-221 | every child names its parent, and the root itself |
| Ext4Tree.AssignedKeepsTree | src/write/ext4.rs:213-221 | numbering changes nothing but the numbers |
| Ext4Extents.CollectExtents | src/fs/ext4/inode.rs:98-145 | the recursive collector, with its depth cap and its errors, appends what the tree below the node stands for |
| Ext4Extents.CollectFindsCovered | src/write/ext4.rs:1063-1087 | in a tree the builder wrote the collector finds the extents the tree blocks cover, in order |
| Ext4Extents.TreeReadsBackIff | src/write/ext4.rs:771-797 | all extents are found exactly when there is at most one or their count is not 1 modulo 340 |
| Ext4Extents.ScatteredLosesExtent | src/write/ext4.rs:771-797 | a written tree of 341 extents from which the collector gets 340 |
| Ext4Inode.WriteExtentTrees | src/write/ext4.rs:1168-1187 | each tree block becomes a leaf with its share of the extents, and nothing outside the tree blocks changes |
| Ext4Inode.WriteInode | src/write/ext4.rs:1030-1094 | into a zeroed slot: attributes, size, sector count and either the inline target or the extent area; nothing outside the slot changes |
| Ext4Inode.SlotParses | src/fs/ext4/inode.rs:60-95 | the reader gets mode, size and flags of a written slot back, the owner only modulo 2^16 and the size modulo 2^32 |
| Ext4Inode.TreeOnDisk | src/write/ext4.rs:1071-1087 | the index area of an inode and the leaves it points to make up one extent tree |
| Ext4Image.CopyExtents | src/write/ext4.rs:587-612 | copying in 64 KiB chunks puts each extent's piece of the file on the image and touches nothing else |
| Ext4Image.CopyDirectory | src/write/ext4.rs:903-912 | the slices of a serialised directory land in its extents, each clipped to the directory's length |
| Ext4Image.MappedFileTiles | src/write/ext4.rs:726-761 | extents that map all blocks of a file tile its bytes up to the partial last block |
| Ext4Image.WriteNode | src/write/ext4.rs:878-917 | one node writes only inside its own slot, tree blocks and the data blocks it copies, and is then on the image; with sharing a file is not copied and its data, in place before, stays |
| Ext4Image.WriteNodes | src/write/ext4.rs:878-917 | at the end of the write loop, with or without sharing, every node is on the image at once, and bytes outside all footprints are unchanged |
| Ext4Content.ReadPrefix | src/fs/ext4/inode.rs:172-212 | the buffer reader: inline target, or extents clipped to the buffer with unwritten ones skipped |
| Ext4Content.WriteData | src/fs/ext4/inode.rs:217-278 | the streaming reader: extents in logical order with a cursor, gaps and tail as zeros |
| Ext4Content.FillFinds | src/fs/ext4/inode.rs:172-212 | filling the buffer from the extents of a file on the image gives the file's bytes, holes as zeros |
| Ext4Content.StreamFinds | src/fs/ext4/inode.rs:217-278 | streaming the extents of a file on the image gives the file's bytes, holes as zeros |
| Ext4Content.CoveredOnDisk | src/write/ext4.rs:778 | the extents a tree covers hold the file with everything behind them zero |
| Ext4Content.VisibleIff | src/write/ext4.rs:778 | what the written tree shows is the file exactly when all extents are covered or the lost bytes are zero |
| Ext4Content.NodeReadsBack | src/fs/ext4/inode.rs:98-278 | both readers give a built node its bytes back as its tree shows them, for every limit of the prefix reader |
| Ext4Foreign.EntryMeans | src/fs/ext4/inode.rs:118-130 | in any leaf the top bit of the length word marks an unwritten extent, the other 15 are its length, and block numbers have 48 bits |
| Ext4Foreign.FillMeans | src/fs/ext4/inode.rs:193-211 | for any list of extents filling succeeds exactly when everything stored of the file is inside the image; each byte then comes from the last extent that stores it, and is zero where none does |
| Ext4Foreign.StreamMeans | src/fs/ext4/inode.rs:237-278 | streaming extents in file order gives the bytes of the file exactly when no extent that is unwritten or behind the end of the file follows a hole, and too many bytes otherwise |
| Ext4Foreign.ReadersAgreeIff | src/fs/ext4/inode.rs:172-278 | for any list of extents without overlap both readers fail together, and otherwise agree exactly when no extent that is unwritten or starts at or behind the end of the file follows a hole |
| Ext4Foreign.InodeReadersAgreeIff | src/fs/ext4/inode.rs:172-278 | the same for an inode of any image, from its flags and extent tree on |
| Ext4Foreign.UnwrittenShiftsData | src/fs/ext4/inode.rs:237-278 | a hole, an unwritten block and a block of data: streaming puts the data one block too far |
| Ext4Foreign.InodeAnywhere | src/fs/ext4/inode.rs:25-95 | on any image, with 32- or 64-bit block numbers, a number leads from the words of the superblock and the group descriptor to its slot, and the inode has the words of that slot, owners and size with both halves |
| Ext4Foreign.RecordMeans | src/fs/ext4/dir.rs:13-48 | a directory record of any image is shown exactly when its number is not zero and its name fits it |
| Ext4Super.WriteSuper | src/write/ext4.rs:993-1029 | every field of a superblock copy holds its value and nothing outside the copy changes |
| Ext4Super.SuperReadsBack | src/fs/ext4/mod.rs:36-71 | the superblock reader gets the geometry back |
| Ext4Super.DescriptorReads | src/write/ext4.rs:818-847 | a written descriptor gives its three blocks back, and its counters modulo 2^16 |
| Bitmaps.OrBit | src/write/ext4.rs:46-54 | a read-modify-write of one byte adds one bit to the marked ones and changes nothing else |
| Ext4Accounting.WriteBlockBitmap | src/write/ext4.rs:848-860 | a bit is set exactly for a used block or a place behind the end of the image |
| Ext4Accounting.WriteInodeBitmap | src/write/ext4.rs:861-876 | a bit is set exactly for a numbered node, a reserved inode of the first group or a place behind the inodes of the group |
| Ext4Accounting.BlockCounterExact | src/write/ext4.rs:825-829 | the clear bits of a group's block bitmap are the free blocks its descriptor counts |
| Ext4Accounting.FreeBlocksAddUp | src/write/ext4.rs:798-801 | the groups' free blocks add up to the superblock's |
| Ext4Accounting.InodeCounterExact | src/write/ext4.rs:830-845 | the clear bits of a group's inode bitmap are the free inodes its descriptor counts |
| Ext4Accounting.FreeInodesAddUpIff | src/write/ext4.rs:798-803 | the groups' free inodes add up to the superblock's exactly when a group has at least 10 inodes |
| Ext4Accounting.SmallGroupsMiscount | src/write/ext4.rs:798-845 | two groups of 8 inodes whose counters do not add up to the superblock's |
| Ext4Accounting.HasIndexIff | src/write/ext4.rs:867-873 | the places of a group that nodes take are those whose numbers are 2 or 11..N+9 |
| Ext4Groups.WriteDescriptors | src/write/ext4.rs:817-847 | the table names every group's bitmaps and inode table and carries its exact counters |
| Ext4Groups.WriteGroup | src/write/ext4.rs:804-876 | superblock copy, table and both bitmaps of one group, written in front of its inode table only |
| Ext4Groups.WriteMetadata | src/write/ext4.rs:804-877 | at the end of the metadata loop the metadata of every group is on the image at once |
| Ext4Groups.TableOffSuperIff | src/write/ext4.rs:643-664 | the descriptor table of the first group, always in block 1, is clear of the superblock fields exactly when blocks are larger than 1279 bytes |
| Ext4Owners.OwnersFit | src/write/ext4.rs:641-797 | the partition of blocks makes the runs of different files and trees follow each other, none touching metadata |
| Ext4Owners.MetaApart | src/write/ext4.rs:643-664 | bytes of owned blocks are apart from the metadata bytes of every group |
| Ext4Footprints.SlotsApart | src/write/ext4.rs:883-887 | inode slots of different nodes never overlap, within a group or across groups |
| Ext4Footprints.TwoFootprints | src/write/ext4.rs:878-917 | what one node consists of (slot, tree blocks, data blocks) is apart from everything the write loop writes for any other node; with sharing only file data may meet file data, and that is not written again |
| Ext4Footprints.PlacementWritable | src/write/ext4.rs:878-917 | what the layout hands a node fits its field widths, the image and the extent tree |
| Ext4Whole.BuildImage | src/write/ext4.rs:614-918 | the builder with or without sharing: a finished image carries the metadata of every group and every node at once; each error arises only under its condition (table larger than the last group, exactly; an image smaller than metadata, data and trees; more than 1360 groups or, with sharing, a file of more than 1360 blocks), and block numbers never overflow |
| Ext4ReadBack.Rebuild | src/write/ext4.rs:614-918 | numbering a tree and building its image, in either mode, gives a finished image of exactly that tree from which every node whose tree covers its extents reads back; errors as for the builder |
| Ext4ReadBack.SuperFound | src/fs/ext4/mod.rs:36-71 | the reader finds the geometry of a finished image |
| Ext4ReadBack.InodeFound | src/fs/ext4/inode.rs:25-58 | every node's number leads, through the first group's descriptor table, to the slot the builder wrote |
| Ext4ReadBack.FilesReadBack | src/fs/ext4/inode.rs:161-278 | from the superblock on, every node of a finished image reads back with mode, owner and group modulo 2^16, size and all bytes its tree covers, with both readers |
| Ext4ReadBack.FileReadsBackIff | src/write/ext4.rs:778 | on any finished image, shared or not, a file reads back in full exactly when its extent count is at most 1 or not 1 modulo 340, or the lost extent is all zero |
| Ext4ReadBack.SmallImagesCover | src/write/ext4.rs:726-797 | without sharing no image of at most 340 groups meets the bad count |
| Ext4ReadBack.DirectoriesList | src/fs/ext4/dir.rs:13-48 | a directory of a finished image whose tree covers its extents lists itself, its parent and its children in order, exactly unless its last record fills a 64 KiB block by itself |
| Ext4Stored.SuperblockCounts | src/write/ext4.rs:798-803 | at their offsets in every superblock copy: inodes and blocks of the image, free blocks as the clear bits of all block bitmaps on the image, free inodes as those of the inode bitmaps exactly when a group has at least 10 |
| Ext4Stored.SuperblockGeometry | src/write/ext4.rs:993-1029 | and block size, blocks and inodes a group, magic number, revision, first inode, inode size, feature words and descriptor size |
| Ext4Stored.DescriptorCounts | src/write/ext4.rs:817-847 | in the table of every group the descriptor of every group has the numbers of its three places, the clear bits of its two bitmaps on the image and its directories, modulo 2^16 |
| Ext4Stored.SlotCounts | src/write/ext4.rs:1030-1094 | the slot the reader finds for a node has its mode, owner, group and size, two links for a directory and one for each child directory, one link otherwise, and its extents and tree blocks in sectors of 512 bytes |
| Ext4Stored.ParentNumbers | src/write/ext4.rs:213-221 | the parent number of a node is that of the directory that has it as a child, and the root is its own |
| Ext4Stored.DirectoriesName | src/write/ext4.rs:231-282 | reading a directory gives its own number, the number of the directory that has it as a child (its own for the root), and number, name and kind of every child in order |
| Ext4Blocks.UsedIff | src/write/ext4.rs:641-797 | in both modes a block is in use exactly when it is in the head of its group or is a data or tree block of some file: no block is lost |
| Ext4Blocks.BlockBitIff | src/write/ext4.rs:848-860 | and exactly those have their bit set in the bitmap of their group on the finished image |
| Ext4Blocks.InodeBitIff | src/write/ext4.rs:861-876 | with at least 10 inodes a group exactly the first ten numbers and those of nodes have their bit set |
| Ext4Blocks.BlocksTaken | src/write/ext4.rs:669-797 | a link of at most 60 bytes takes no block; without sharing, and for directories, every other node takes the blocks its bytes fill; tree blocks are one for every 340 extents behind the first, rounded up |
| Ext4Blocks.EveryByteThere | src/write/ext4.rs:878-917 | every byte of a file or directory of a finished image is in the block its extents give for it, and zero where they give none |
| Ext4Blocks.HoleIff | src/write/ext4.rs:686-726 | with sharing a file of fewer than 1360 extents has a hole exactly where its block is zero |
| Ext4Blocks.EqualBlocksAreOne | src/write/ext4.rs:958-992 | and equal blocks, of whichever files, are one block of the image |
| Ext4Grow.BuildGrown | src/write/ext4.rs:376-410 | every size tried before the last was possibly full; the loop ends with a finished image of the size it tried last, from which everything its trees cover reads back, with that attempt's error, or full after 16 rounds or at the cap; it ends no later than at the first size it may reach that is certainly large enough; the size is the first one plus a group a retry, at most 15 of them, and a retry was made only below the larger of four times the input's blocks and twice the first size plus 65536, and below 2^32 - 1 |
| Ext4Grow.CutShortStays | src/write/ext4.rs:376-410 | growing by whole groups never mends a last group smaller than its metadata |
| Ext4Grow.KeptSizeIsCutShort | src/write/ext4.rs:355-357 | an input of one group and 100 blocks whose size, kept, is refused |
| Ext4Grow.PlanAndRebuild | src/write/ext4.rs:321-410 | whenever the margin loop ended because there was room and the image has at most 341 groups (or its margin holds the extra tree blocks), the planned size is enough at the first try in both modes and everything reads back; the one failure left there is a shared file of more than 1360 blocks; a kept size with too short a last group is always refused; the final size is never below the planned one, nor below a kept input's, and is the larger of the two plus a group a retry; without sharing and up to 340 groups every node reads back |
| Ext4Fragments.BuildScattered | src/write/ext4.rs:694-797 | with shared blocks a directory and a file of 341 blocks of ones between zero blocks are built into an image without an error, whatever the hash, and the file does not read back |
| Ext4Fragments.ScatteredFileIsLost | src/write/ext4.rs:694-797 | in every finished shared image of that tree the file has 341 extents and does not read back |
| Ext4Dir.Directory | src/write/ext4.rs:231-271 | back-patching the previous record gives the same bytes as deciding each record's length by looking ahead |
| Ext4Dir.ReadRecords | src/fs/ext4/dir.rs:22-48 | the record walker, with unused and overlong records skipped and its one error |
| Ext4Dir.RecordsStayInBlocks | src/write/ext4.rs:245-256 | no record crosses a block boundary |
| Ext4Dir.DirectoryReadsBackIff | src/write/ext4.rs:231-271 | whole blocks, and the entries come back in order, exactly unless the last record takes a 64 KiB block of its own and its length wraps to zero |
| Ext4Dir.LoneRecordIsLost | src/write/ext4.rs:231-271 | with 64 KiB blocks a directory of 249 children with names of 255 bytes is packed and cannot be parsed |
| Ext4Shared.SharedBuilder.FindOrInsert | src/write/ext4.rs:958-992 | returns a block with the given bytes, an old one exactly when one exists and a new one is not forced; written blocks never change |
| Ext4Shared.SharedBuilder.PlaceFile | src/write/ext4.rs:694-725 | every block of the file is mapped to a block written with its bytes, or zero and unmapped; below the extent limit no extent covers a zero block and no two written blocks hold the same bytes; each extent beyond the first is paid for by a saved block, twice at most, or by a crossed group boundary |
| Ext4Shared.SharedBuilder.PlaceNodes | src/write/ext4.rs:669-770 | for any hash function every shared file is on the image at the end, directories share no block with anything, no more blocks are taken than without sharing; it fails for want of blocks only when the image is exactly full |
| Ext4SharedLayout.BuildSharedLayout | src/write/ext4.rs:614-797 | the layout with sharing: files on the image, metadata blocks still zero, every other block owned; it runs out of blocks only where the layout without sharing could, and finds too many extents only in a file of more than 1360 blocks |
| Ext4SharedLayout.SharedTreesFit | src/write/ext4.rs:437-439 | tree blocks never outgrow the blocks that sharing and holes save: the plain worst case covers the shared layout too |
| Ext4Shared.MappedFileOnDisk | src/write/ext4.rs:694-725 | block-wise sharing, merged into extents with holes, is the byte-wise file the readers need |
| Ext4Shared.MergedStayShort | src/write/ext4.rs:718-724 | merged extents stay within 32767 blocks without a cap, because every group starts with metadata |
| Lz4.Lz4Decode | src/fs/erofs/compress.rs:399-470 | the loop decoder computes the block format's decoding, with every error it reports |
| Lz4.Decode | src/fs/erofs/compress.rs:399-470 | an accepted block has exactly the declared size |
| Lz4.DecodeUndoesSerialize | src/fs/erofs/compress.rs:399-470 | every well-formed list of sequences, with long lengths and overlapping matches, decodes to its expansion |
| Lz4.DecodeIgnoresPadding | src/fs/erofs/compress.rs:399-470 | bytes behind an accepted block change nothing |
| Lz4.CopyMatchIsPeriodic | src/fs/erofs/compress.rs:446-470 | an overlapping copy continues what precedes it periodically |
| CompactWriter.EncodePclusters | src/fs/erofs/compress.rs:656-697 | the loop encodes the index of the entries and physical blocks the pclusters stand for |
| CompactWriter.PackClustersShape | src/fs/erofs/compress.rs:566-626 | every pcluster takes one block of at most the block size, and index entries count logical clusters |
| CompactWriter.BatchPacks | src/write/mod.rs:1771-1806 | a batch that starts at an even cluster packs as it would in the whole file |
| CompactWriter.NextBatch | src/write/mod.rs:1771-1800 | the carry between batches is always empty |
| CompactWriter.StreamCompressedFile | src/write/mod.rs:1761-1829 | batched streaming leaves the index and payload that packing all clusters at once gives, fills its index reservation exactly and uses at most a block a cluster |
| CompactStored.PairsStored | src/fs/erofs/compress.rs:566-626 | a pair of clusters is one block exactly when its joint compressed form is shorter and fits one; otherwise each cluster is a block of its own, compressed under the same condition |
| CompactStored.BlocksTotal | src/fs/erofs/compress.rs:566-626 | a file takes one block for every such pair or lone cluster and two for every other pair |
| CompactStored.IndexSays | src/fs/erofs/compress.rs:627-697 | each pack has the two words of its pair (0x1000 compressed, 0x2001 sharing the block, 0 plain or none) and the number of the block in front of the first one |
| CompactStored.PayloadAt | src/write/mod.rs:1737-1754 | payload blocks follow each other, each the bytes of its pcluster and zeros behind them |
| CompactReader.CompactEntries | src/fs/erofs/compress.rs:49-143 | the index loop reads the entries and recovers physical blocks by walking back inside each pack |
| CompactReader.ResolveSegments | src/fs/erofs/compress.rs:291-369 | the resolver chains the cursor through HEAD groups and PLAIN entries |
| CompactResolved.IndexMeans | src/fs/erofs/compress.rs:49-143 | an index of any writer is read exactly when its packs are inside the image, and each entry then has the type and value of its word and the block that the anchor of its pack and the entries in front of it give |
| CompactResolved.SegmentsMean | src/fs/erofs/compress.rs:291-369 | for any entries with increasing starts below the size there is one segment for each that is not a filler, from its cluster times the block size plus its value to the start of the next one or the size, with its block, block count and the low or high four bits of the algorithm byte |
| CompactResolved.SegmentsTile | src/fs/erofs/compress.rs:291-369 | these segments tile the file from the first start to the size |
| CompactResolved.ResolvesIff | src/fs/erofs/compress.rs:291-369 | resolving succeeds exactly when every compressed extent has a length, within the limits on its size and blocks |
| CompactResolved.SegmentMeans | src/fs/erofs/compress.rs:371-397 | a segment stands for the bytes of its block, or for the decompressed form of its blocks |
| CompactResolved.OffsetCounts | src/fs/erofs/compress.rs:291-369 | two extents of which the second starts 1000 bytes into its cluster: segments of 5096 and 3096 bytes |
| CompactReader.ReadCompactData | src/fs/erofs/compress.rs:145-232 | the full reader fills the buffer with the file the segments stand for |
| CompactReader.ReadSegment | src/fs/erofs/compress.rs:371-397 | one segment gives the first bytes asked for |
| CompactReader.ReadRange | src/fs/erofs/inode.rs:159-268 | the ranged reader gives the window of the file the full reader gives, and leaves the buffer behind the file alone |
| CompactReader.ReadDataStreaming | src/fs/erofs/inode.rs:270-337 | the streaming reader sends the whole file |
| CompactReader.TilesDetermineFile | src/fs/erofs/compress.rs:291-369 | readable segments that tile a range stand for exactly one file |
| CompactRoundTrip.PackClustersStores | src/fs/erofs/compress.rs:566-626 | packing all clusters of a file stores it: spans of the pclusters, in order, are the file |
| CompactRoundTrip.IndexDecodes | src/fs/erofs/compress.rs:49-143 | with blocks up to 4 KiB the whole index reads back entry by entry |
| CompactRoundTrip.IndexResolves | src/fs/erofs/compress.rs:291-369 | the decoded index resolves to one segment a pcluster, at the block it was written to |
| CompactRoundTrip.StoredFileHolds | src/fs/erofs/compress.rs:145-232 | an image that carries the packed index and payload of a file holds the file for every reader |
| CompactRoundTrip.StoreAndLoad | src/write/mod.rs:1761-1829 | writing any file and reading it back gives the file, if decompression undoes compression on padded blocks |
| CompactRoundTrip.Lz4Undoes | src/fs/erofs/compress.rs:399-470 | with the LZ4 decoder that contract only asks that unpadded blocks decode |
| CompactRoundTrip.IndexReadsBackIff | src/fs/erofs/compress.rs:656-697 | for every block size the index of a file reads back exactly up to 4 KiB, or above it when the file has no compressed extent and the anchors of its packs keep clear of the bits that their second entries are read from |
| CompactRoundTrip.PlainsBySize | src/fs/erofs/compress.rs:656-697 | what that asks without compressed extents: nothing with 8 and 16 KiB blocks, an odd first block or one cluster with 32 KiB, fewer than four clusters above |
| CompactRoundTrip.LargeBlockIsMisread | src/fs/erofs/compress.rs:656-697 | one compressible 8 KiB cluster whose index cannot be read back |
| BlockSource.ErofsBlockSource.ReadNodeBlock | src/write/convert.rs:75-219 | a request gets the node's bytes, except that of a compressed file everything in front of the extent in which the furthest request since the file was opened ended reads as zeros; nodes in memory and plain files are served as they are and leave the source unchanged |
| BlockSource.ErofsBlockSource.ServeAll | src/write/convert.rs:75-219 | any run of requests through one source, over any mix of files: each answer is right exactly when what it asks for in front of the extent still open is zero; opening another compressed file starts over |
| BlockSource.AnswerIsAskedIff | src/write/convert.rs:119-217 | a request is answered correctly exactly when what it lost was zero |
| BlockSource.ForwardIsSafe | src/write/convert.rs:119-217 | a request at or behind everything asked for so far, or at or behind the start of the extent still open, is answered correctly |
| BlockSource.OverlapLosesBytes | src/write/convert.rs:119-217 | non-decreasing offsets are not enough: on a file of two plain extents of 4 KiB a request for all of it and then one for bytes 2 and 3 gets zeros |
| BlockSource.SecondPassIff | src/write/convert.rs:119-217 | once a request has ended at the end of a file, reading the whole file again through the same source is right exactly when everything before its last extent is zero |
| BlockSource.ErofsBlockSource.ReadTwice | src/write/convert.rs:119-217 | the first of two full reads gives the file, the second exactly when everything before its last extent is zero |
| BlockSource.SecondPassLosesBytes | src/write/convert.rs:119-217 | a file of two plain extents that a second read gets wrong |
| ErofsLayout.SkipSuperblock | src/write/mod.rs:260-282 | the least slot from `next` on whose footprint is clear of the superblock (or past 64 bits) |
| ErofsLayout.AssignNids | src/write/mod.rs:241-258 | computes the numbered tree and the next free slot that the layout lemmas are about |
| ErofsLayout.SlotsHoldNode | src/write/mod.rs:222-233 | the slots of a node hold inode, xattr area, map header and full index, in this order |
| ErofsLayout.TreeInOrder | src/write/mod.rs:241-258 | what the nodes of a tree occupy follows in preorder without overlap |
| ErofsLayout.TreeOffSuper | src/write/mod.rs:260-282 | where nothing overflows 64 bits no part of any inode touches the superblock |
| ErofsLayout.PlaceRegions | src/write/mod.rs:1851-1880 | the regions are those the layout lemmas are about; an empty directory is the only error, and always one |
| ErofsLayout.RegionsInOrder | src/write/mod.rs:1851-1880 | xattr table, directories and payloads follow the inodes and each other, up to the last payload block |
| ErofsLayout.BehindOffSuperIff | src/write/mod.rs:1851-1880 | for every block size that is a multiple of 512, nothing behind the inodes meets the superblock exactly when it starts at byte 1152 or later or its blocks all end by byte 1024 |
| ErofsLayout.LayoutDisjoint | src/write/mod.rs:1850-1942 | everything lies one behind the other, none touching another; the inodes are clear of the superblock, and the rest exactly under that condition on lengths and block counts |
| ErofsLayout.LargeBlocksSuffice | src/write/mod.rs:1851-1854 | blocks of at least 1152 bytes put everything behind the inodes behind the superblock |
| ErofsLayout.SmallBlocksMeetSuper | src/write/mod.rs:1851-1880 | with 1 KiB blocks and inodes from block 0 on the directory of a lone root meets the superblock |
| ErofsLayout.PayloadMeetsSuper | src/write/mod.rs:1851-1880 | with 512-byte blocks the payload of a one-cluster file does, while the root directory in front of it does not |
| ErofsLayout.LongDirectoryMeetsSuper | src/write/mod.rs:1851-1880 | with 512-byte blocks a root directory of more than 512 bytes does |
| ErofsLayout.LoneRootIsClear | src/write/mod.rs:1851-1880 | with 512-byte blocks the regions of a lone root do not |
| ErofsPieces.RangesInOrder | src/write/mod.rs:241-258 | the slots of the nodes follow each other in preorder |
| ErofsPieces.PartsApart | src/write/mod.rs:1881-2028 | whatever the tree, no two of inodes, map headers, indexes, xattr table, directories and payloads meet, for compressed files that share one cursor |
| ErofsImage.CollectDirectories | src/write/mod.rs:1868-1880 | serialises every directory, in preorder |
| ErofsImage.InodeImages | src/write/mod.rs:1886-1942 | each inode has its fields, its directory's first block and its place; a size that does not fit 32 bits is the only error, and always one |
| ErofsImage.PutStream | src/write/mod.rs:1986-2028 | streaming one file puts its index and payload on the image and leaves all earlier parts there |
| ErofsImage.WriteFiles | src/write/mod.rs:1986-2028 | at the end of the payload phase all parts of all files are on the image and the cursor stands behind the last block |
| ErofsImage.PiecesOffSuper | src/write/mod.rs:260-282 | no part meets the superblock when the first block behind the inodes does not start in front of its end |
| ErofsImage.BuildImage | src/write/mod.rs:1831-2066 | an image is made exactly when every directory entry fits a block, every size fits 32 bits and the image fewer than 2^32 blocks; it ends behind the last payload, and carries superblock and parts as far as neither overlaps nor is cut off |
| ErofsReadBack.InodeFound | src/fs/erofs/inode.rs:38-103 | on a sound image every number leads to its inode, with mode, owner modulo 2^16, size, layout and places |
| ErofsReadBack.DirectoryFound | src/fs/erofs/inode.rs:105-150 | a directory's inode leads to its serialised bytes |
| ErofsReadBack.DirectoryLists | src/fs/erofs/dir.rs:54-95 | which list the node, its parent and its children in order |
| ErofsReadBack.FileHeld | src/fs/erofs/inode.rs:105-337 | with blocks up to 4 KiB every compressed file of a sound image is there for all readers |
| ErofsReadBack.ReadFile | src/fs/erofs/inode.rs:38-150 | reading a file by its number gives its bytes |
| ErofsReadBack.ReadTree | src/write/mod.rs:159-213 | the recursive reader, with its depth cap and its errors |
| ErofsReadBack.TreeFound | src/write/mod.rs:159-213 | where every node is found the reader builds exactly the written tree, or stops with its depth error when the tree is higher than 512 |
| ErofsReadBack.SuperReadsIff | src/fs/erofs/mod.rs:34-66 | the superblock of a finished image reads back exactly when the image ends behind byte 1024 |
| ErofsReadBack.SoundIff | src/write/mod.rs:1831-2066 | an image has a readable superblock and regions clear of it exactly when the first block behind the inodes starts at byte 1152 or later |
| ErofsReadBack.Rebuild | src/write/mod.rs:1831-2066 | a tree is rebuilt exactly unless one of the three errors applies; the image is then sound exactly under that condition, and a sound image has all its parts in place and gives back its superblock, every inode, the whole tree up to the reader's depth and, with blocks up to 4 KiB, every file |
| ErofsReadBack.BuildLoneRoot | src/write/mod.rs:2036-2063 | with 512-byte blocks the image of a lone root is cut at byte 1024 and has no superblock |
| ErofsReadBack.RootIsOwnParentIff | src/write/mod.rs:1850 | the root's parent is number 1, which is the root exactly when the metadata does not start at byte 1024 |
| ErofsStored.SlotsExact | src/write/mod.rs:222-233 | a node takes the fewest slots that hold inode, xattr area, map header and index |
| ErofsStored.NumbersAreNext | src/write/mod.rs:241-282 | in preorder every node takes the first slot behind its predecessor at which its slots do not meet bytes 1024 to 1152 |
| ErofsStored.PlanIsTree | src/write/mod.rs:241-306 | the numbered nodes are those of the tree, unchanged but for numbers and marks; the parent number of a node is that of the node that has it as a child, and the root has 1 |
| ErofsStored.SuperblockSays | src/write/mod.rs:2034-2061 | every byte of the superblock of a finished image that reaches behind byte 1024 |
| ErofsStored.SlotSaysAll | src/write/mod.rs:1886-1931 | the slot of every node at its offset: format, xattr words, mode, one link, size, own number, owner and group modulo 2^16, xattr area, and for a directory the block at which its bytes stand |
| ErofsStored.HeaderSays | src/fs/erofs/compress.rs:699-705 | the map header right behind inode and xattr area is zero but for the algorithm |
| ErofsStored.PayloadFollows | src/write/mod.rs:1985-2028 | payloads of the files follow each other, each with the blocks of its pairs |
| ErofsStored.IndexSays | src/write/mod.rs:1985-2028 | the index of every compressed file on the image, word by word |
| ErofsStored.PayloadSays | src/write/mod.rs:1985-2028 | every payload block of it, with the zeros behind |
| ErofsStored.TableThere | src/write/mod.rs:1969-1972 | the shared xattr table stands at the block the superblock names |
| ErofsStored.DirectoriesName | src/write/mod.rs:323-335 | reading a directory by its number gives its own number, the number of the directory that has it as a child (1 for the root), and number, name and kind of every child in order |
| ErofsForeign.InodeAnywhere | src/fs/erofs/inode.rs:38-103 | an inode of any image, of 32 or 64 bytes and any layout: its fields, where its data or map header starts, and the map header |
| ErofsForeign.PlainMeans | src/fs/erofs/inode.rs:105-150 | plain and inline data are read exactly when they are inside the image: whole blocks from the block number on, the rest behind the inode, all of it there without a block number |
| ErofsForeign.EntryMeans | src/fs/erofs/dir.rs:70-93 | a record of any directory block is skipped exactly when its number is zero or its name lies outside the names of the block, and otherwise shown up to the zero bytes at the end of its name |
| ErofsDir.WriteDirectory | src/write/mod.rs:323-367 | greedy packing with records from the front, names behind them and a truncated last block |
| ErofsDir.Parse | src/fs/erofs/dir.rs:54-95 | the block and name-offset parser, with its skipped entries and its one error |
| ErofsDir.PackFailsIff | src/write/mod.rs:336-347 | packing gives up exactly when some entry does not fit a block by itself |
| ErofsDir.DirectoryReadsBackIff | src/fs/erofs/dir.rs:54-95 | a packed directory reads back exactly when no entry has number 0 or a name that ends in NUL, for blocks up to 64 KiB (with non-empty names at 64 KiB, where an offset could wrap) |
| PatchedReader.PatchedReader.ReadAt | src/write/mod.rs:671-707 | any window is that of the zero-extended base with all patches applied in order and then the tail; it fails exactly when the window needs base bytes the source does not have |
| PatchedReader.PatchedReader.WriteImage | src/write/mod.rs:710-745 | reading block by block writes the patched image up to a whole number of blocks |
| OutFile.WindowJoins | src/write/mod.rs:671-707 | any chunking of the image gives the same bytes |
| SparseWriter.ScanRuns | src/core/image.rs:409-473 | the runs tile the blocks, each block has its run's class, and neighbours cannot be merged except raw runs at the cap; the errors are exactly the stated ones |
| SparseWriter.ScannedIsGreedy | src/core/image.rs:409-473 | runs that tile an image and cannot be merged are those of the greedy scan: there is only one such list |
| SparseWriter.EmitRuns | src/core/image.rs:495-532 | emission succeeds exactly when every chunk's total size fits 32 bits, and then appends the chunks of all runs |
| SparseWriter.SparsifyToStream | src/core/image.rs:369-377 | the header-first container, or the exact error; the same outcome as the seekable writer on every input |
| SparseWriter.SparsifyToSeekable | src/core/image.rs:536-549 | the placeholder header patched afterwards gives the same outcome, byte for byte and error for error |
| SparseWriter.OutcomeOkIff | src/core/image.rs:369-549 | writing succeeds exactly on aligned images of fewer than 2^32 blocks whose chunks all have a 32-bit size |
| SparseWriter.SmallBlocksFit | src/core/image.rs:389-390 | which is always so for blocks below 256 KiB |
| SparseWriter.SparsifiedIsOutcome | src/core/image.rs:409-532 | an image has one container at most: any container of unmergeable runs is the one written |
| SparseReader.Parse | src/core/image.rs:98-204 | the strict parser with all of its refusals |
| SparseReader.ParsedInOrder | src/core/image.rs:98-204 | parsed chunks follow each other without gaps, none empty |
| SparseReader.PartitionPoint | src/core/image.rs:215-218 | the binary search finds how many chunks start at or before a position |
| SparseReader.ReadAt | src/core/image.rs:210-255 | the read loop: chunk by chunk, with its bounds check and its errors |
| SparseRoundTrip.SparseReadsBack | src/core/image.rs:98-252 | a written container parses to the raw size, and every window inside it is the raw image's |
| SparseRoundTrip.RoundTripIff | src/core/image.rs:395-405 | the round trip holds for all raw images exactly when the block size is a multiple of 4 |
| SparseRoundTrip.StreamLogical | src/core/image.rs:656-668 | streaming a container that reads back gives the raw image |
| SparseStored.ClassIff | src/core/image.rs:395-405 | a block is a hole exactly when it is zero, filled exactly when it is not and all its whole words are one, and raw otherwise |
| SparseStored.ContainerSays | src/core/image.rs:409-532 | a written container byte by byte: header words, then one chunk a run with type, block count, total size and data; the runs tile the image, each of one class, and no two neighbours could be one |
| SparseStored.ParsesIff | src/core/image.rs:98-204 | exactly which files are accepted, as which chunks: a supported header, then acceptable chunks one behind the other that together have the blocks the header says |
| SparseStored.WindowMeans | src/core/image.rs:210-255 | a window of any accepted image is read exactly when the data of its raw chunks are there, and gives stored bytes, the fill word at absolute positions, or zeros |
| Glob.MatchesPattern | src/core/util.rs:141-169 | on a name without a `*` byte the loop answers what the pattern means, for every pattern |
| Glob.EarliestFit | src/core/util.rs:152-162 | between two stars the earliest fit is as good as any: why remembering only the last star is complete |
| Glob.RightIff | src/core/util.rs:141-169 | the loop is right for every pattern exactly on the names without a `*` byte |

## Left out

- Handles, seeks, standard streams, temporary files, clocks, command-line parsing and listing output: I/O and
  presentation.
- Compressors and the deflate and zstd decoders: a compression function and its inverse are parameters with a
  round-trip contract; parallel compression is the sequential map.
- Attribute lookup while a source tree is read, tree edits, and the overlay, append and legacy rebuild paths of the
  EROFS writer; only the patched reader of the overlay path is modelled.
- `write_patched_sparse` and `convert_raw_to_sparse`: a second sparse encoder that is not the one with the round trip.
- SELinux and other extended attributes of inodes, feature words other than the fixed ones, timestamps and volume
  fields: pass-through values; the inode slot behind the block area stays zero in the model.
- Two-byte index packs and big pclusters in the EROFS readers: no writer here produces them.
- Node trees are values: `assign` and `assign_nids_strided` change nodes in place, the model returns the numbered
  tree, so aliasing of nodes is not captured.
- The sequence of a directory's or container's bytes under construction is a value that each step replaces, where the
  code grows one vector.
- Names are byte strings; UTF-8 replacement of invalid names is not modelled.
- Overflow of 64-bit byte offsets, except where `skip_superblock` and the sparse parser test for it.
- Ext4Plan.PlanTotalBlocks: the deduplication-aware estimate of compact builds with sharing is not modelled; the plain
  worst case, which the other builds use, is.
- Ext4Inode.WriteInode: the inline SELinux attribute behind the block area is not modelled.
- Ext4Groups.WriteDescriptors: counters are stored modulo 2^16 as in the code; that a group's counters fit is not
  claimed for groups of more than 65535 inodes.
- Ext4Shared.SharedBuilder.PlaceFile: how many extents a file of more than 1360 blocks gets once block reuse is
  switched off at 1360 extents is not bounded; more than 1360 make the build fail.
- Ext4Grow.PlanAndRebuild: stops with an error where the image has 2^32 blocks or inodes or more; the code goes on
  with truncated numbers there.
- Ext4Grow.BuildGrown: the same; and every attempt is given the same node contents, while the code reads its source
  again (what a compressed source gives then is stated in `BlockSource`).
- CompactReader.CompactEntries: two-byte index packs and big pclusters are not modelled.
- CompactReader.ReadCompactData: indexes with a PLAIN entry that stands for no bytes are left out; the code still seeks
  for it, and no writer here produces one.
- CompactReader.ReadRange: only the compressed layout of the function is modelled.
- CompactReader.ReadDataStreaming: only the compressed layout of the function is modelled.
- BlockSource.ErofsBlockSource.ReadNodeBlock: files with inline tail data, which bypass the segment cache, are not
  modelled.
- ErofsImage.BuildImage: stops with an error where the image would have 2^32 blocks or more if nothing compressed, where
  the code goes on with truncated numbers; blocks above 64 KiB, whose directory offsets wrap, are not modelled; the tree
  is taken with its children sorted.
- ErofsReadBack.ReadTree: a directory in compressed layout is refused; the writer here stores directories plain.
- ErofsReadBack.ReadFile: says nothing for blocks above 4 KiB, where an index with a compressed extent is misread.
- SparseWriter.EmitRuns: for raw payloads of 2^32-12 to 2^32-1 bytes, which the code's guard lets through, the addition
  of the header length overflows in the code; the model reports the chunk as too large there.
- SparseWriter.ScanRuns: a block size of 1, 2 or 3 is not modelled, because the code indexes past such a block.
- Glob.MatchesPattern: patterns and names are compared byte by byte, as in the code.
