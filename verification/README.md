# Storage and locking, verified

A model in Dafny of five parts of this kernel tree, with proofs about them:

1. **FAT volumes** (`rust-fatfs/src/table.rs`, `file.rs`, `fs.rs`): the allocation table as packed bytes, as a map of
   entries, as a heap of disjoint chains, and the files on it as flat byte sequences with a cursor. Modules
   `FatCodec`, `FatTable`, `FatHeap`, `FormatFat`, `ClusterSpace`, `FileSystem`, `FileCursor`, `File`, `FileRuns`,
   `ManyFiles`, `DiskSlice`, `MirrorRuns`, `MirroredTable`.
2. **Directories** (`rust-fatfs/src/dir.rs`, `dir_entry.rs`): 32-byte slots, long names cut into pieces and put
   together again, short names that collide with nothing, and the operations that add, remove and rename entries.
   Modules `DirEntry`, `LongName`, `ShortName`, `DirSlots`, `DirChanges`, `Directory`, `DirStream`.
3. **Volume geometry** (`rust-fatfs/src/boot_sector.rs`): the cluster size, the FAT type, the size of the FAT, and the
   agreement of formatting and mounting. Module `Geometry`.
4. **The cascaded bitmap allocator** (`dependencies/bitmap-allocator/src/lib.rs`), of any depth. Modules `BitAlloc`,
   `BitAllocRuns`.
5. **Locks and buffering** (`dependencies/kernel-sync/src/rwlock.rs`, `ticket.rs`, `fscommon/src/buf_stream.rs`): the
   locks as transition systems with one step for every atomic operation, for any number of agents; the buffer as a
   class that answers like the stream under it. Modules `RwLock`, `TicketMutex`, `BufStream`.

`Prelude` holds the shared vocabulary and `Blocks` products and quotients by repeated addition (they are the usual
ones: `Blocks.SpanIsProduct`, `Blocks.QuotIsDivision`). Objects that the source updates in place are classes whose
methods are proved against functions and predicates; what is promised about these is then proved as lemmas. `dafny
verify dfyconfig.toml` checks everything.

## The main results

- **Chains.** From any table that is a set of disjoint, acyclic, in-range chains, every run of allocations,
  truncations and releases leaves such a table, and changes the set of chains as it should (`FatHeap.RunKeepsHeap`);
  formatting makes the first such table (`FormatFat.FormatFat`, `FormatFat.BlankIsHeap`). Releasing terminates on
  every table with links in range, cyclic ones included, and frees exactly what can be reached
  (`FatHeap.ReleaseFreesReachable`).
- **Files.** Any run of reads, writes, seeks and truncations answers exactly as a flat byte sequence would, for every
  cluster size; it fails exactly where a new cluster is needed and none is free, leaves chains and bytes of all other
  files alone over the whole run, and keeps the cached number of free clusters right (`FileRuns.Run`,
  `FileRuns.AnyClusterSize`). In any interleaving of operations on several open files of a volume, each answers as a
  flat byte sequence of its own; all they share is the number of free clusters (`ManyFiles.Run`). The bytes that are
  read and written are those at the position's place on the disk, and a write changes nothing else there
  (`File.Handle.Read`, `File.Handle.Write`).
- **Directories.** Writing an entry succeeds exactly when its name is valid and its slots fit, and overwrites only
  free slots; or it leaves the listing as it was (`Directory.Dir.WriteEntry`). It adds exactly that entry to the
  listing if and only if the slots that the directory gets on the way hold nothing to list behind it
  (`DirChanges.AddsExactly`), which is so for every tidy directory but the root of FAT32
  (`DirChanges.ClearedIsQuiet`). Removing takes exactly one entry off and frees its clusters (`Directory.Dir.Remove`);
  a rename, into the same directory or another, keeps the entry exactly when it can be written under its new name
  (`Directory.Dir.Rename`, `DirChanges.RenameKeepsExactly`). A new entry gets a short name that none of the listed
  entries has, the first in the order of preference (`Directory.Dir.CreateEntry`), and the search for one ends
  (`Directory.Dir.CheckForExistence`). Each slot is read and written as the file handle of the directory's clusters
  reads and writes its 32 bytes (`DirStream.ReadSlot`, `DirStream.WriteSlot`).
- **Listings.** Whatever the slots of a directory hold, a listing gives, in order, exactly the entries in use, each
  with the pieces in a row before it (`DirSlots.ListingIsInUse`), and as its long name what the last of these make
  that count down to 1 with its checksum (`LongName.NameExactly`).
- **Long names** survive the round trip exactly when they do not end in a padding unit (`LongName.RoundTrip`,
  `LongName.SurvivesExactly`).
- **Geometry.** The FAT always holds all clusters and leaves room for data; when the FAT type that comes out is the
  one it was sized for, it is at most two sectors' worth of entries too large. Which volumes can be formatted with
  default options (`Geometry.FormatsExactly`), and which of them can then be mounted, for every sector size
  (`Geometry.FormatMountsExactly`), is stated exactly, as is which blocks can be mounted at all
  (`Geometry.ValidatesExactly`).
- **Bitmap.** A tree of any depth cannot be told from a plain set of free indices in any run (`BitAllocRuns.Run`).
- **Locks.** Every run of any number of agents is safe: of the reader-writer lock without the downgrade to an
  upgradeable guard (`RwLock.RunsAreSafe`), which has an exact condition of its own (`RwLock.StoreUpgradedExact`), and
  of the ticket mutex while its 64-bit words cannot be confused, as in every run of fewer than 2^64 steps
  (`TicketMutex.RunsAreSafe`, `TicketMutex.ShortRunIsFresh`). What every atomic step does is stated exactly
  (`RwLock.TryReadExact` to `RwLock.ReleasesExact`, `TicketMutex.LockExact`, `TicketMutex.TryLockExact`), and that the
  ticket being served is never forgotten (`TicketMutex.NextInLine`).
- **Buffering and mirroring.** A buffered stream answers like an unbuffered one in any run, and fails only where the
  inner stream does, where its capacity is reached, or for a seek to a negative position (`BufStream.Run`). Any run on
  the window over the copies of the FAT answers as one flat table would, and every copy stays equal to it, as long as
  each write is one piece or finds the volume marked as dirty (`MirrorRuns.Run`); storing an entry through it then
  changes that entry in every copy and no other (`MirroredTable.Set`).

## Where the code does less than one might expect

These are properties of the code as it is. The members named state when exactly it does what one might expect, and
give an input for which it does not.

- A failed rename loses the entry: the old one is deleted before the new name is validated and before space for it is
  found. Once both lookups have passed, it survives exactly when the new name is valid and its slots fit after the old
  ones are deleted (`DirChanges.RenameKeepsExactly`, `Directory.RenameLoses`).
- A long name that ends in U+FFFF, which name validation accepts, is listed without that end
  (`LongName.SurvivesExactly`, `DirChanges.PaddedNameShrinks`).
- The entry that `write_entry` returns begins at the slot that was written first. A listing has it begin at the first
  of the long-name pieces in a row that end there, so they agree exactly when no piece was left over in front of it
  (`DirSlots.BeginsAtRun`, `DirChanges.ReturnedIsListed`, `DirChanges.LeftOverPieceJoins`).
- The root of FAT32 has no entry that would say that it is a directory, so its new clusters are not cleared. Whatever
  entries an old cluster holds, up to its first end marker, are listed behind the new one. Exactly that entry is added
  if and only if there are none of them (`DirChanges.AddsExactly`), short names stay pairwise different exactly when
  theirs are and are new (`DirChanges.ClashesExactly`), and the directory stays tidy exactly when the cluster is
  (`DirChanges.TidyExactly`); `DirChanges.OldEntriesShow` is an instance.
- The first write after mounting also marks the volume as dirty, which moves the disk position. If the disk does not
  take that write at once, the rest of it lands behind the status byte in the boot sector. A write lands where it
  should exactly when it is one piece, or the flags do not change any more, or the bytes are there already
  (`DiskSlice.LandsExactly`, `DiskSlice.ByteAstray`).
- `free` on a closed loop of links counts the entry cluster twice (`FatHeap.ReleaseCount`,
  `FatHeap.LoopCountsOneMore`).
- The downgrade of a writer to an upgradeable guard stores the lock word and loses the increments of read attempts in
  flight; it is safe exactly when there are none (`RwLock.StoreUpgradedExact`, `RwLock.StoreUpgradedLosesIncrement`).
- `try_lock` of the ticket mutex compares 64-bit words. Where it succeeds it is safe exactly when nobody waits for the
  guard or holds it, which fewer than 2^64 tickets between its load and its compare-exchange guarantee; with 2^64 of
  them two agents can hold the guard (`TicketMutex.SwapExact`, `TicketMutex.FoolingRunHasTwoGuards`).
- A buffered seek to a negative position fails, as it should, but moves the position forward by the bytes that were
  read ahead, if there are any (`BufStream.BufStream.Seek`, `BufStream.RefusedSeekMoves`).
- The last check of a mounted volume multiplies out the bits of the FAT in 32 bits. With default options and sectors
  of 512 or 1024 bytes they always fit; with larger sectors they do not from some number of sectors on, which is
  2,147,999,719 for sectors of 2048 bytes and 1,073,995,767 for 4096 (`Geometry.FatBitsFitExactly`,
  `Geometry.SmallSectorsFit`, `Geometry.LargeSectorsOverflow`).
- Volumes of 8227 to 8234 sectors of 512 bytes, just above 4 MB, suit neither FAT12 nor FAT16 with default options and
  cannot be formatted; nor can those of fewer than 42 sectors; all others can (`Geometry.FormatsExactly`).
- Where FAT12 is asked for, volumes of more than 4 TB get clusters of one sector, because the number of bytes is cast
  to 32 bits (`Geometry.ClusterSizeByType`).
- The short-name generator slices off the first byte of a name, so names must start with a one-byte character
  (`ShortName.SlicesExactly`, `DirChanges.TwoByteNamePanics`).

## Model

| member | source | states |
|---|---|---|
| `FatCodec.PutRaw` | rust-fatfs/src/table.rs:239-300 | storing a raw entry and reading any entry back gives the stored value there and the old value everywhere else, for 12, 16 and 32 bits |
| `FatCodec.PutKeepsReservedBits` | rust-fatfs/src/table.rs:503-544 | storing a FAT32 entry keeps the four reserved bits of its word |
| `FatCodec.PutNext` | rust-fatfs/src/table.rs:284-300 | a FAT12 write to an even entry leaves the odd entry it shares a byte with alone |
| `FatCodec.PutPrevious` | rust-fatfs/src/table.rs:284-300 | and the other way round |
| `FatCodec.PutEntries` | rust-fatfs/src/table.rs:65-90 | writing a value into the bytes is exactly one update of the map from entries to values |
| `FatCodec.FormatIsExact` | rust-fatfs/src/table.rs:239-282 | what an entry is, byte by byte: 12, 16 or 28 bits, low byte first; which of their values are free, a link, bad or an end, for each FAT type; and which are stored |
| `FatTable.Table.Get` | rust-fatfs/src/table.rs:65-76 | reads the value that the map has at the entry, which is what its bytes say by the ranges of the FAT type |
| `FatTable.Table.Set` | rust-fatfs/src/table.rs:78-90 | changes the map at one entry and nowhere else, and stores the bits that the FAT type has for the value |
| `FatTable.SlideWindow` | rust-fatfs/src/table.rs:302-331 | the sliding 16-bit window of the FAT12 scan is the word of the next entry |
| `FatTable.OddEntryZero` | rust-fatfs/src/table.rs:333-363 | the number that the FAT12 count makes of an odd entry, shifted by 8 where 4 would be right, is zero exactly when the entry is |
| `FatTable.Table.FindFree12` | rust-fatfs/src/table.rs:302-331 | finds the first free entry of a non-empty range, or none when there is none |
| `FatTable.Table.FindFreeWide` | rust-fatfs/src/table.rs:418-434 | the same for 16 and 32 bits |
| `FatTable.Table.CountFree12` | rust-fatfs/src/table.rs:333-363 | counts the free entries |
| `FatTable.Table.CountFree` | rust-fatfs/src/table.rs:180-192 | counts the free entries, for every FAT type |
| `FatTable.Table.AllocCluster` | rust-fatfs/src/table.rs:123-153 | takes the least free cluster from the hint on, where the hint is a cluster and there is one, and else the least of all; marks it as an end, links the given one to it, and fails exactly when none is free, changing nothing |
| `FatTable.ClusterIterator.Next` | rust-fatfs/src/table.rs:645-659 | moves along the link of the current cluster |
| `FatTable.ClusterIterator.Free` | rust-fatfs/src/table.rs:625-633 | terminates on every table with links in range and has the effect of the releasing walk |
| `FatTable.ClusterIterator.Truncate` | rust-fatfs/src/table.rs:612-623 | marks the end of the chain and releases the rest |
| `FatHeap.PickIsComplete` | rust-fatfs/src/table.rs:135-146 | whatever the hint, allocation succeeds exactly when some cluster is free, and takes a free one |
| `FatHeap.PickIsLeast` | rust-fatfs/src/table.rs:135-146 | and which one, by the least free entry from the hint on or of all |
| `FatHeap.ReleaseFreesReachable` | rust-fatfs/src/table.rs:625-659 | on every table with links in range, cyclic or cross-linked ones included, exactly the clusters reachable from the start become free and no other entry changes |
| `FatHeap.ReleaseCount` | rust-fatfs/src/table.rs:625-633 | the count is the number of clusters freed, and one more exactly on a closed loop |
| `FatHeap.LoopCountsOneMore` | rust-fatfs/src/table.rs:625-633 | two clusters that link to each other are counted as three |
| `FatHeap.AllocStartsChain` | rust-fatfs/src/table.rs:123-153 | allocation without a predecessor adds a chain of one cluster and takes exactly it from the free ones |
| `FatHeap.AllocExtendsChain` | rust-fatfs/src/table.rs:123-153 | allocation after a chain's last cluster appends exactly the new cluster to that chain |
| `FatHeap.TruncateKeepsPrefix` | rust-fatfs/src/table.rs:612-623 | truncation keeps exactly the prefix of the chain up to its cluster and frees the rest |
| `FatHeap.ReleaseRemovesChain` | rust-fatfs/src/table.rs:625-633 | releasing from a chain's first cluster frees exactly that chain |
| `FatHeap.StepKeepsHeap` | rust-fatfs/src/table.rs:123-153 | every operation takes a heap of disjoint acyclic chains to the one that the same operation on chains gives |
| `FatHeap.RunKeepsHeap` | rust-fatfs/src/table.rs:123-153 | and so does every legal run of operations |
| `FormatFat.FormatFat` | rust-fatfs/src/table.rs:194-236 | gives every entry its value: the reserved two by media byte and type, every cluster free but the numbers that FAT32 reserves, which are bad, and the entries behind the last cluster marked as used, as far as a 32-bit number of entries reaches |
| `FormatFat.EntryHasRoom` | rust-fatfs/src/table.rs:194-236 | the entries that are counted are exactly those whose bits lie in the table |
| `FormatFat.BlankIsHeap` | rust-fatfs/src/table.rs:194-236 | a formatted table is a heap without chains |
| `FormatFat.GeometryHasRoom` | rust-fatfs/src/boot_sector.rs:580-626 | the FAT that the geometry reserves has an entry for every cluster, below the special marks, and a number of entries that fits 32 bits |
| `ClusterSpace.ClusterOffset` | rust-fatfs/src/fs.rs:438-452 | the sector arithmetic puts the clusters one after another from the first data sector on |
| `ClusterSpace.PlaceOfCluster` | rust-fatfs/src/fs.rs:438-452 | and cluster 2 is the first of them: byte o of cluster c is byte (first data sector + (c - 2) * sectors per cluster) * bytes per sector + o of the disk |
| `ClusterSpace.ClustersApart` | rust-fatfs/src/fs.rs:442-452 | different clusters occupy disjoint bytes |
| `ClusterSpace.PokeChain` | rust-fatfs/src/file.rs:279-340 | a write inside cluster `k` of a chain is one splice of the chain's bytes |
| `ClusterSpace.PokeElsewhere` | rust-fatfs/src/file.rs:279-340 | a write into a cluster leaves every chain without it alone |
| `FileSystem.Volume.AllocCluster` | rust-fatfs/src/fs.rs:491-512 | succeeds exactly when a cluster is free, and takes the least free one from the kept hint on or else of all; extends one chain or starts one, clears the cluster when asked to, keeps the cached count right without going below zero, and keeps the number behind the cluster as the next hint |
| `FileSystem.Volume.TruncateClusterChain` | rust-fatfs/src/fs.rs:475-481 | cuts one chain, frees what is cut off, and keeps the cached count right |
| `FileSystem.Volume.FreeClusterChain` | rust-fatfs/src/fs.rs:483-489 | removes one chain, frees it, and keeps the cached count right |
| `FileSystem.Volume.RecalcFreeClusters` | rust-fatfs/src/fs.rs:546-551 | makes the cached count the number of free entries |
| `FileSystem.Volume.FreeClusters` | rust-fatfs/src/fs.rs:531-543 | reports the number of free entries |
| `FileSystem.TruncateEffect` | rust-fatfs/src/fs.rs:475-481 | the free clusters before plus those the walk counts are the free clusters after a truncation |
| `FileSystem.ReleaseEffect` | rust-fatfs/src/fs.rs:483-489 | the same for a release |
| `FileSystem.AllocEffect` | rust-fatfs/src/fs.rs:491-512 | an allocation takes exactly one cluster off the free ones |
| `FileCursor.Advance` | rust-fatfs/src/file.rs:215-265 | after moving by at most the rest of a cluster, that cluster is the one under the position |
| `FileCursor.ReadSlice` | rust-fatfs/src/file.rs:215-265 | the bytes of the current cluster at the position are the contents at the position |
| `FileCursor.PokeHere` | rust-fatfs/src/file.rs:279-340 | a write at the position is one splice of the contents |
| `FileCursor.SkipCases` | rust-fatfs/src/file.rs:385-420 | skipping along the chain reaches the cluster of the asked byte, or the chain ends before it |
| `FileCursor.CutSlice` | rust-fatfs/src/file.rs:52-75 | the clusters that are kept hold the first bytes unchanged |
| `File.Handle.Read` | rust-fatfs/src/file.rs:215-265 | delivers the contents from the position on, as many bytes as the cluster and the file still hold, and advances by them; they are the bytes of the disk at the position's place in its cluster, by division |
| `File.Handle.Write` | rust-fatfs/src/file.rs:279-340 | overwrites the contents at the position, growing them where it must; the bytes stand on the disk at the position's place in its cluster, and nothing else on the disk has changed but that a new cluster of a directory is cleared; fails exactly when a cluster is needed and none is free, changing nothing; takes at most one cluster, from the free ones; all other files keep chain and bytes, and the handle's chain is none of theirs |
| `File.Handle.Seek` | rust-fatfs/src/file.rs:366-427 | moves to the asked position or the end of the contents, the nearer of both; the cast to 32 bits loses nothing; fails exactly for positions that are no 32-bit numbers |
| `File.Handle.TargetExactly` | rust-fatfs/src/file.rs:366-384 | which positions are asked for: from the start, the position or the end, where there is a size, as far as they are 32-bit numbers |
| `File.Handle.Truncate` | rust-fatfs/src/file.rs:52-75 | cuts the contents at the position; the chain keeps exactly the clusters up to it and the others become free; nothing on the disk changes, all other files keep their chains, and the handle's chain is none of theirs |
| `File.Handle.TakeCluster` | rust-fatfs/src/file.rs:296-322 | a file grows by exactly one cluster, which was free and is so no more; for a directory with an entry it is zeroed, and else it holds what it held before and the disk is unchanged; fails exactly when none is free |
| `File.Handle.AbsPosFollowsLastByte` | rust-fatfs/src/file.rs:77-96 | there is an absolute position exactly behind position 0, and the disk byte before it is the byte before the position |
| `FileRuns.Run` | rust-fatfs/src/file.rs:215-427 | any run of reads, writes, seeks and truncations on a file answers exactly as a flat byte sequence with a cursor, a number of clusters and a number of free ones would; all other files keep chain and bytes over the whole run, and the count of free clusters stays right |
| `FileRuns.AnyClusterSize` | rust-fatfs/src/file.rs:215-340 | whatever the cluster size, clusters in use and free ones stay the same in number, a read gives nothing only at the end, a write takes nothing only at the largest size and fails only when nothing is free |
| `ManyFiles.Run` | rust-fatfs/src/file.rs:215-427 | in any interleaving of operations on open files of one volume that share no cluster, each file answers as a flat byte sequence of its own, and the files stay apart; all they share is the number of free clusters, which stays right |
| `DiskSlice.SpliceCopy` | rust-fatfs/src/fs.rs:817-831 | a write into one copy of the table changes that copy and no other |
| `DiskSlice.CopyPlace` | rust-fatfs/src/fs.rs:817-831 | copy number i is the bytes from the beginning plus i times the size on |
| `DiskSlice.Adapter.SetDirtyFlag` | rust-fatfs/src/fs.rs:582-605 | writes the status byte exactly when the flags change |
| `DiskSlice.FlagsReadBack` | rust-fatfs/src/fs.rs:102-118 | the status byte reads back as the flags: bit 0 says dirty, bit 1 says error, and no other bit is set |
| `DiskSlice.Slice.Read` | rust-fatfs/src/fs.rs:805-815 | gives the bytes of the first copy at the offset, up to the end of the slice |
| `DiskSlice.Adapter.WriteAll` | rust-fatfs/src/fs.rs:708-715 | writes in parts; where the first part changes the flags, the others follow behind the status byte |
| `DiskSlice.LandsExactly` | rust-fatfs/src/fs.rs:708-715 | so the bytes land where they should exactly when they are one part, or the flags do not change, or what is displaced is there already |
| `DiskSlice.ByteAstray` | rust-fatfs/src/fs.rs:708-715 | two bytes, the second of which lands behind the status byte |
| `DiskSlice.Slice.Write` | rust-fatfs/src/fs.rs:817-831 | when it lands in one stretch, writes the same bytes into every copy, copies that were the same stay the same, and outside them only the status byte changes; the offset always stays within the size |
| `DiskSlice.Slice.Seek` | rust-fatfs/src/fs.rs:838-864 | moves exactly to positions from 0 to the size and refuses all others, signed overflow included |
| `MirrorRuns.Run` | rust-fatfs/src/fs.rs:805-864 | any run of reads, writes and seeks answers as one flat table would, leaves every copy equal to it, and touches nothing else but the status byte, as long as what is written stays whole |
| `MirrorRuns.ShortWritesStayWhole` | rust-fatfs/src/fs.rs:708-715 | which it does once the volume is marked, and else when the disk takes each write at once |
| `MirroredTable.Get` | rust-fatfs/src/table.rs:65-76 | the value of an entry, read through the window over the copies |
| `MirroredTable.Set` | rust-fatfs/src/table.rs:78-90 | storing an entry through the window changes that entry in every copy and no other, when its bytes land in one stretch |
| `DirEntry.ReadsBack` | rust-fatfs/src/dir_entry.rs:370-431 | what is written to a slot is read back from it, for both kinds of slots |
| `DirEntry.WritesBack` | rust-fatfs/src/dir_entry.rs:370-431 | reading a slot and writing it again changes nothing but the two unknown attribute bits |
| `DirEntry.FirstClusterReadsBack` | rust-fatfs/src/dir_entry.rs:177-197 | a first cluster is read back exactly when it fits the field of the FAT type |
| `DirEntry.AttributeBits` | rust-fatfs/src/dir_entry.rs:18-31 | a slot is a piece of a long name exactly when the four low bits of its byte 11 are set; of an entry, bit 3 says volume label and bit 4 directory |
| `DirEntry.FirstByteMarks` | rust-fatfs/src/dir_entry.rs:270-300 | a first byte of 0 is the end marker and 0xE5 says deleted |
| `DirEntry.FileLayout` | rust-fatfs/src/dir_entry.rs:410-429 | where name, attributes, first cluster and size lie in the bytes of an entry |
| `DirEntry.PieceLayout` | rust-fatfs/src/dir_entry.rs:384-409 | where order, checksum and the thirteen units lie in the bytes of a piece |
| `LongName.LfnChecksum` | rust-fatfs/src/dir.rs:721-727 | the loop computes the rotating checksum of the whole short name |
| `LongName.RotatesRight` | rust-fatfs/src/dir.rs:721-727 | with the byte added last taken off again, a checksum is the one before it rotated to the right: doubled, it is that one modulo 255 |
| `LongName.ChecksumOfReadme` | rust-fatfs/src/dir.rs:721-727 | the checksum of `README  TXT` is 0x73 |
| `LongName.OneByteMatters` | rust-fatfs/src/dir.rs:721-727 | short names that differ in one byte have different checksums |
| `LongName.LongNameBuilder.Process` | rust-fatfs/src/dir.rs:880-912 | never writes outside the buffer, whatever the pieces are, and has the effect of the builder step |
| `LongName.LongNameBuilder.IntoBuf` | rust-fatfs/src/dir.rs:853-872 | gives the name without padding when its pieces were complete, else nothing |
| `LongName.LongNameBuilder.Truncate` | rust-fatfs/src/dir.rs:864-872 | strips exactly the padding at the end |
| `LongName.StrippedIsPrefix` | rust-fatfs/src/dir.rs:864-872 | what is stripped is the longest end made of 0 and 0xFFFF |
| `LongName.LfnEntriesGenerator.Next` | rust-fatfs/src/dir.rs:970-1000 | gives the pieces of the name one by one, the last one first |
| `LongName.PieceOnDisk` | rust-fatfs/src/dir.rs:930-1000 | the bytes of every piece of a name: its number counted from the end with the mark on the first, the attributes, the checksum, and the units of the name, then a 0, then units of all ones |
| `LongName.FedPieces` | rust-fatfs/src/dir.rs:880-912 | after the first pieces of a name the builder holds the end of the padded name, whatever it held before |
| `LongName.RoundTrip` | rust-fatfs/src/dir.rs:853-1000 | after any pieces, the pieces of a name and its short name give the name back, without padding units at its end |
| `LongName.FedExactly` | rust-fatfs/src/dir.rs:880-912 | whatever pieces are read, a name is being read exactly when the last ones count down from a marked one and agree on the checksum, and then the buffer holds just their units |
| `LongName.NameExactly` | rust-fatfs/src/dir.rs:853-924 | the long name of a short name is made of the last pieces before it that count down to 1 from a marked one with its checksum; without them it has none |
| `LongName.SurvivesExactly` | rust-fatfs/src/dir.rs:864-872 | a name survives exactly when it does not end in 0 or 0xFFFF |
| `LongName.WrongChecksum` | rust-fatfs/src/dir.rs:914-924 | with a short name of another checksum the long name is dropped |
| `ShortName.CopyShortNamePart` | rust-fatfs/src/dir.rs:1087-1117 | copies the characters that 8.3 names can hold, in upper case, as far as there is room, and reports whether all fitted and whether any was changed or dropped |
| `ShortName.FixedExactly` | rust-fatfs/src/dir.rs:1096-1111 | letters are stored in upper case, the 26 other characters that are allowed as they are, and all others as underscores |
| `ShortName.KeptExactly` | rust-fatfs/src/dir.rs:1097-1101 | spaces and dots are dropped, all other characters are kept in order |
| `ShortName.PartsExactly` | rust-fatfs/src/dir.rs:1050-1054 | the name is split at its last dot, if that is not its first character |
| `ShortName.CopyParts` | rust-fatfs/src/dir.rs:1048-1072 | keeps the first eight characters before the last dot and the first three behind it, filled up with spaces; nothing is lost exactly for 8.3 names, and these are stored in upper case |
| `ShortName.HexReadsBack` | rust-fatfs/src/dir.rs:1222-1234 | the hexadecimal form of a checksum parses to that checksum |
| `ShortName.HexExactly` | rust-fatfs/src/dir.rs:1222-1234 | which has the four digits from the high end, in upper case |
| `ShortName.RotatesRight` | rust-fatfs/src/dir.rs:1165-1172 | the checksum of a long name is rotated to the right by one bit for every character |
| `ShortName.PrefixedExactly` | rust-fatfs/src/dir.rs:1204-1220 | the bytes of a numbered name: at most six characters, or at most two and the checksum, then a tilde, the number, spaces and the extension |
| `ShortName.PrefixedTakes` | rust-fatfs/src/dir.rs:1204-1220 | a name built with a number, or a number and a checksum, is recognised as taking it |
| `ShortName.SlicesExactly` | rust-fatfs/src/dir.rs:1048-1072 | a character boundary follows the first byte exactly when the name starts with a one-byte character |
| `ShortName.ShortNameGenerator.constructor` | rust-fatfs/src/dir.rs:1048-1072 | starts with no name scanned, for names whose first byte can be sliced off; the name is kept as it is exactly when it is an 8.3 name |
| `ShortName.ShortNameGenerator.AddExisting` | rust-fatfs/src/dir.rs:1119-1163 | the bitmaps hold exactly the numbers that scanned names take |
| `ShortName.ShortNameGenerator.Generate` | rust-fatfs/src/dir.rs:1174-1194 | gives the name as it is where nothing was lost and no scanned name is the same; else with the least number of 1 to 4 that no scanned name takes, or with the checksum and the least of 1 to 9; and fails when none is left |
| `ShortName.ShortNameGenerator.ChoiceIsNew` | rust-fatfs/src/dir.rs:1174-1194 | the name that is given differs from every name scanned and can be stored |
| `ShortName.NineUsers` | rust-fatfs/src/dir.rs:1146-1163 | a checksum without a number left is used by at least nine entries |
| `ShortName.OneMoreFailure` | rust-fatfs/src/dir.rs:1196-1202 | every failed round uses up nine entries more, because an entry parses to one checksum |
| `ShortName.FewUsers` | rust-fatfs/src/dir.rs:166-191 | and there are no more of them than entries |
| `DirSlots.EntryIsRead` | rust-fatfs/src/dir.rs:614-665 | the slots of an entry read back as that entry, whatever the iterator carried before |
| `DirSlots.ListingIsInUse` | rust-fatfs/src/dir.rs:614-665 | a listing gives, in order, one entry for every slot before the end marker that is not a piece, not deleted and not a skipped label, with the pieces in a row before it and the long name they make |
| `DirSlots.ListingAround` | rust-fatfs/src/dir.rs:614-665 | deleted slots list nothing and drop a long name begun before them |
| `DirSlots.SilentListsNothing` | rust-fatfs/src/dir.rs:614-665 | from a slot on nothing is listed exactly when every slot before the first end marker is a piece, deleted or a label that is skipped |
| `DirSlots.EntryPlace` | rust-fatfs/src/dir.rs:614-665 | the slots of a listed entry begin where the iterator began anew, and the entries before it are those listed before its first slot |
| `DirSlots.BeginsAtRun` | rust-fatfs/src/dir.rs:614-665 | an entry is listed from the first of the pieces in a row before it on, whether labels are skipped or not |
| `DirSlots.ListedWithLabels` | rust-fatfs/src/dir.rs:600-612 | an entry that is listed without volume labels is listed with them as well, the same in all parts |
| `DirSlots.WritingAddsEntry` | rust-fatfs/src/dir.rs:513-569 | writing an entry over free slots adds that entry to the listing at its place, and behind all what the new slots behind it list |
| `DirSlots.UnfinishedAddsNothing` | rust-fatfs/src/dir.rs:513-531 | pieces written up to the last slot without a short name list nothing |
| `DirSlots.ErasingRemovesEntry` | rust-fatfs/src/dir.rs:362-374 | deleting the slots of an entry takes exactly that entry off the listing |
| `DirChanges.ValidateLongName` | rust-fatfs/src/dir.rs:700-719 | accepts exactly the names of 1 to 255 bytes in UTF-8 made of allowed characters |
| `DirChanges.ValidChars` | rust-fatfs/src/dir.rs:700-719 | of the printable ASCII characters all but nine are allowed, and all others up to U+FFFF |
| `Prelude.Utf8Exactly` | rust-fatfs/src/dir.rs:700-719 | the bytes counted are those of the UTF-8 form |
| `DirChanges.PaddedNameShrinks` | rust-fatfs/src/dir.rs:700-719 | a valid name that ends in U+FFFF, and that the builder shortens |
| `DirChanges.TwoByteNamePanics` | rust-fatfs/src/dir.rs:1048-1072 | a valid name whose first byte cannot be sliced off |
| `Directory.SlotsSplice` | rust-fatfs/src/dir_entry.rs:370-431 | writing 32 bytes of the directory is one update of its slots |
| `Directory.Dir.FindFreeEntries` | rust-fatfs/src/dir.rs:453-486 | finds the first place with the asked number of deleted slots in a row, or with nothing behind it |
| `Directory.Dir.Grow` | rust-fatfs/src/file.rs:296-322 | gets the next cluster if there is one: cleared for a directory with an entry, as it is for the root of FAT32, and none for the root of FAT12 and FAT16 |
| `Directory.Dir.WriteSlot` | rust-fatfs/src/file.rs:279-340 | changes one slot, for which the directory grows if it has to, and fails exactly when it cannot |
| `DirStream.ReadSlot` | rust-fatfs/src/dir_entry.rs:390-431 | through the file handle of the directory's clusters: gives the slot, and an end marker behind the last one |
| `DirStream.WriteSlot` | rust-fatfs/src/file.rs:279-340 | through that handle: changes one slot, behind the last one on a new cluster, whose bytes are cleared or left as `File.Handle.TakeCluster` says; fails exactly when none is free; all other files keep chain and bytes |
| `DirStream.PutOne` | rust-fatfs/src/file.rs:296-322 | which is what writing a slot does to the slots that the directory has and is going to get |
| `Directory.Dir.WriteEntry` | rust-fatfs/src/dir.rs:533-569 | succeeds exactly when the name is valid and its slots fit from the first free place on; then its slots stand there and the listings have that entry more, at its place, and behind all what the clusters got on the way list; else the listings are as before, with no slot changed for an invalid name, and pieces up to the last slot where the directory ran full; slots in use are never changed |
| `DirChanges.AddsExactly` | rust-fatfs/src/dir.rs:533-569 | exactly that entry is added if and only if the slots got on the way list nothing behind it, which can be seen before |
| `DirChanges.ClashesExactly` | rust-fatfs/src/dir.rs:252-274 | short names stay pairwise different exactly when those that come to be listed are, and none of them was there or is the new one |
| `DirChanges.TidyExactly` | rust-fatfs/src/file.rs:296-322 | with an entry written, no slot in use follows an end marker exactly when that is so behind the entry |
| `DirChanges.ClearedIsQuiet` | rust-fatfs/src/file.rs:296-322 | a tidy directory whose new clusters are cleared comes to list nothing but the entry |
| `DirChanges.ClearedStaysTidy` | rust-fatfs/src/file.rs:296-322 | and stays tidy |
| `DirChanges.OldEntriesShow` | rust-fatfs/src/file.rs:145-150 | a full directory and a cluster to come that holds old entries, which are listed behind an entry of two slots that is written |
| `DirChanges.ReturnedIsListed` | rust-fatfs/src/dir.rs:614-665 | what writing returns is what a listing gives exactly when no left-over piece stands before it and its name does not end in a padding unit |
| `DirChanges.LeftOverPieceJoins` | rust-fatfs/src/dir.rs:614-665 | a directory with a left-over piece, in which the two differ |
| `Directory.Dir.Erase` | rust-fatfs/src/dir.rs:362-374 | deletes the slots of the given entry and no other, which takes exactly it off the listings with and without volume labels |
| `Directory.Dir.FindEntry` | rust-fatfs/src/dir.rs:126-153 | finds the first entry that matches, if it is of the kind asked for by bit 4 of its attributes, and otherwise shows every entry to the short-name generator |
| `DirChanges.FoundIsFirst` | rust-fatfs/src/dir.rs:126-153 | the lookup that the other operations are stated by is that one |
| `Directory.Dir.CheckForExistence` | rust-fatfs/src/dir.rs:166-191 | terminates, and gives the existing entry or a short name that no entry has: a free 8.3 name as it is, and else the first number that is free, in the first round of checksums that has one |
| `Directory.Dir.CreateEntry` | rust-fatfs/src/dir.rs:252-274 | opens the entry, or writes it under a short name that none listed has, exactly when it can be written; short names stay pairwise different where the clusters got on the way list nothing, as is so for a tidy directory other than the root of FAT32 |
| `Directory.Dir.Remove` | rust-fatfs/src/dir.rs:346-375 | removes exactly the first matching entry and frees exactly the clusters of its chain; answers that the directory is not empty, changing nothing, exactly when that entry has bit 4 of its attributes set and is not empty |
| `DirChanges.RemovalIsFirst` | rust-fatfs/src/dir.rs:346-375 | which outcome a removal has, from the first match alone |
| `Directory.Dir.Rename` | rust-fatfs/src/dir.rs:411-451 | takes the entry off its directory and writes it into the same or another one, with the same data, under the new name and a new short name, exactly when it can be written there; lookups that fail change nothing; short names stay pairwise different as for a new entry |
| `DirChanges.RenameKeepsExactly` | rust-fatfs/src/dir.rs:411-451 | once both lookups have passed, not counting those that the clusters got on the way list, the number of entries stays the same exactly when the new name is valid and its slots fit after the old ones are deleted; else one is lost |
| `Directory.RenameLoses` | rust-fatfs/src/dir.rs:411-451 | a directory of one entry that a rename to an invalid name leaves empty |
| `Directory.DirIter.ReadDirEntry` | rust-fatfs/src/dir.rs:614-665 | gives the next entry of the listing and stands behind it, or nothing when there is none |
| `Geometry.DefaultClusterSize` | rust-fatfs/src/boot_sector.rs:491-522 | for 512-byte sectors the rounding formulas amount to a table of eleven size ranges |
| `Geometry.ClusterSizeByType` | rust-fatfs/src/boot_sector.rs:491-522 | where the FAT type is given, they amount to a table for that type, or to a sector where that is more; FAT12 falls back to one sector above 4 TB, where the 32-bit cast leaves nothing |
| `Geometry.FatFits` | rust-fatfs/src/boot_sector.rs:524-578 | the FATs take less than the room there is, so that no subtraction goes below zero and the size fits its type |
| `Geometry.FatHoldsAllClusters` | rust-fatfs/src/boot_sector.rs:533-578 | the FAT has an entry for every cluster and the two reserved ones |
| `Geometry.FatIsTight` | rust-fatfs/src/boot_sector.rs:533-578 | one sector less would hold at most three entries more than there are clusters |
| `Geometry.FatIsNotTooBig` | rust-fatfs/src/boot_sector.rs:895-903 | when the FAT type matches, the FAT has at most two sectors' worth of entries more than it needs |
| `Geometry.RootDirExactly` | rust-fatfs/src/boot_sector.rs:628-635 | the root directory takes the fewest sectors that hold its entries |
| `Geometry.FitsExactly` | rust-fatfs/src/boot_sector.rs:580-626 | a volume is right for a FAT type exactly when more than eight sectors are left and the clusters that come out are as many as that type has |
| `Geometry.DetermineFsGeometry` | rust-fatfs/src/boot_sector.rs:637-661 | chooses a FAT type that the volume is right for, when it is right for none larger, and none exactly when it is right for none |
| `Geometry.FewClusters` | rust-fatfs/src/boot_sector.rs:491-522 | with default options there are at most 2^26 clusters |
| `Geometry.FormatsExactly` | rust-fatfs/src/boot_sector.rs:663-761 | with default options and 512-byte sectors a parameter block is made exactly for 42 sectors or more, but for 8227 to 8234 |
| `Geometry.FormatMountsExactly` | rust-fatfs/src/boot_sector.rs:663-761 | with default options, for every sector size and number of sectors, a parameter block that is made passes every check of mounting, with fields and numbers that fit, exactly when sectors have at most 4096 bytes and the bits of the FAT fit 32 bits, by a bound on the number of sectors |
| `Geometry.FatBitsFitExactly` | rust-fatfs/src/boot_sector.rs:279-302 | the product that the last check of mounting makes in 32 bits fits exactly up to a number of sectors that depends on the sector size alone |
| `Geometry.SmallSectorsFit` | rust-fatfs/src/boot_sector.rs:279-302 | with sectors of at most 1024 bytes it always fits |
| `Geometry.DefaultFormatMounts` | rust-fatfs/src/boot_sector.rs:663-761 | with default options and 512-byte sectors, for every number of sectors, a parameter block that is made passes every check of mounting, its fields fit, and total_sectors_16 is zero on FAT32 |
| `Geometry.DefaultFields` | rust-fatfs/src/boot_sector.rs:663-761 | the fields that the default options fix: reserved sectors, root entries, FAT copies, and the places of the information sector and the backup |
| `Geometry.ValidatesExactly` | rust-fatfs/src/boot_sector.rs:120-302 | which parameter blocks pass the checks of mounting: sizes from lists of powers of two, regions in order, a volume that is FAT32 in all respects or in none, and as many clusters as that has |
| `Geometry.LargeSectorsOverflow` | rust-fatfs/src/boot_sector.rs:279-302 | with 4096-byte sectors there is a volume whose FAT has 2^32 bits or more, which the last check multiplies out in 32 bits |
| `BitAlloc.Node.Alloc` | dependencies/bitmap-allocator/src/lib.rs:73-82 | takes the least free index, or none exactly when none is free |
| `BitAlloc.Node.Dealloc` | dependencies/bitmap-allocator/src/lib.rs:91-95 | frees one index and keeps every summary bit right |
| `BitAlloc.Node.Insert` | dependencies/bitmap-allocator/src/lib.rs:96-98 | frees exactly a range; an empty one at a boundary of leaves changes nothing |
| `BitAlloc.Node.Remove` | dependencies/bitmap-allocator/src/lib.rs:99-101 | takes exactly a range; an empty one at a boundary of leaves changes nothing |
| `BitAlloc.Node.ForRange` | dependencies/bitmap-allocator/src/lib.rs:125-143 | gives exactly the indices of the range the asked value, through all levels |
| `BitAlloc.Node.Next` | dependencies/bitmap-allocator/src/lib.rs:111-121 | gives the least free index from the key on, or none exactly when there is none |
| `BitAlloc.Node.EmptyMeansNoneFree` | dependencies/bitmap-allocator/src/lib.rs:105-107 | the root's summary bits alone tell whether anything is free |
| `BitAlloc.Node.FindContiguous` | dependencies/bitmap-allocator/src/lib.rs:197-228 | gives the least aligned base of a free run, and none exactly when the run is empty, there is none or the capacity is below the alignment |
| `BitAlloc.Node.AllocContiguous` | dependencies/bitmap-allocator/src/lib.rs:83-90 | takes exactly that run |
| `BitAlloc.AlignUpIsLeast` | dependencies/bitmap-allocator/src/lib.rs:210-218 | the shifts give the least aligned index from the given one on |
| `BitAlloc.AlignmentByDivision` | dependencies/bitmap-allocator/src/lib.rs:210-218 | the same by division |
| `BitAlloc.ShiftsCompose` | dependencies/bitmap-allocator/src/lib.rs:197-218 | shifting by one doubles, and by a sum multiplies |
| `BitAlloc.CapacityExactly` | dependencies/bitmap-allocator/src/lib.rs:62-71 | a leaf has 16 bits, and every level sixteen times as many as the one below |
| `BitAllocRuns.Run` | dependencies/bitmap-allocator/src/lib.rs:65-228 | in any run of operations a tree of any depth answers like a plain set of free indices |
| `RwLock.StepKeepsInv` | dependencies/kernel-sync/src/rwlock.rs:217-234 | every atomic step of every agent keeps the word equal to four times the shares plus its flags, and the guards compatible |
| `RwLock.RunsAreSafe` | dependencies/kernel-sync/src/rwlock.rs:217-351 | in every run a write guard excludes all others, there is one upgradeable guard at most, the word counts readers and attempts in flight, a left-over flag needs a writer, and the word is 0 when nothing is held |
| `RwLock.TryReadExact` | dependencies/kernel-sync/src/rwlock.rs:217-234 | a read attempt succeeds exactly when no write or upgradeable guard is held |
| `RwLock.TryWriteExact` | dependencies/kernel-sync/src/rwlock.rs:288-329 | a write attempt succeeds exactly when nothing is held or in flight |
| `RwLock.TryUpgradeExact` | dependencies/kernel-sync/src/rwlock.rs:451-488 | an upgrade succeeds exactly when its agent is the only one |
| `RwLock.TryUpgradeableExact` | dependencies/kernel-sync/src/rwlock.rs:335-351 | an upgradeable attempt succeeds exactly when no write or upgradeable guard is held, beside any readers, and sets its flag in any case |
| `RwLock.AttemptsExact` | dependencies/kernel-sync/src/rwlock.rs:217-488 | what the other attempts do to the word, and that a failed one leaves it alone or owes one decrement |
| `RwLock.ReleasesExact` | dependencies/kernel-sync/src/rwlock.rs:490-705 | in which phase every release and downgrade ends, and that it takes back just what its agent has added, without going below zero; a writer clears both flags |
| `RwLock.OnlyOfferedSteps` | dependencies/kernel-sync/src/rwlock.rs:217-705 | steps that a phase does not offer change nothing |
| `RwLock.StoreUpgradedExact` | dependencies/kernel-sync/src/rwlock.rs:594-621 | the storing downgrade keeps the invariant exactly when no read attempt is in flight |
| `RwLock.StoreUpgradedLosesIncrement` | dependencies/kernel-sync/src/rwlock.rs:594-621 | a run in which it leaves the word at 2^64 - 4 with nothing held |
| `TicketMutex.StepKeepsInv` | dependencies/kernel-sync/src/ticket.rs:55-100 | every atomic step keeps the outstanding tickets the distinct numbers from the one being served up to the next one |
| `TicketMutex.SwapKeepsInv` | dependencies/kernel-sync/src/ticket.rs:75-100 | `try_lock` gets its guard only when its ticket is the one being served, nobody waits and nobody holds it, though its load and its compare-exchange are separate steps |
| `TicketMutex.SwapExact` | dependencies/kernel-sync/src/ticket.rs:75-100 | a successful compare-exchange keeps the invariant exactly when nobody waits for the guard or holds it |
| `TicketMutex.FoolingRunHasTwoGuards` | dependencies/kernel-sync/src/ticket.rs:55-123 | a run in which 2^64 tickets pass between the load and the compare-exchange of one agent, and two agents hold the guard |
| `TicketMutex.ShortRunIsFresh` | dependencies/kernel-sync/src/ticket.rs:75-100 | runs of fewer than 2^64 steps cannot confuse words and tickets |
| `TicketMutex.LockExact` | dependencies/kernel-sync/src/ticket.rs:55-123 | `lock` draws the next ticket and gets its guard exactly when that is served; a drop serves the one after it |
| `TicketMutex.TryLockExact` | dependencies/kernel-sync/src/ticket.rs:75-100 | `try_lock` gives up exactly when the ticket it has loaded is not being served, and draws it exactly when it is still the next |
| `TicketMutex.NextInLine` | dependencies/kernel-sync/src/ticket.rs:55-73 | while tickets are outstanding, the one being served belongs to an agent that holds the guard or gets it when it polls next |
| `TicketMutex.OnlyOfferedSteps` | dependencies/kernel-sync/src/ticket.rs:55-123 | steps that a phase does not offer change nothing |
| `TicketMutex.RunsAreSafe` | dependencies/kernel-sync/src/ticket.rs:55-123 | in every such run there is one holder at most, with the ticket being served, tickets are distinct, and guards are given out in ticket order |
| `BufStream.BufStream.FlushBuf` | fscommon/src/buf_stream.rs:33-39 | succeeds exactly when the inner stream accepts what waits; then it changes neither the shown contents nor the position, and the inner stream holds the contents |
| `BufStream.BufStream.FillBuf` | fscommon/src/buf_stream.rs:62-70 | shows nothing, and leaves bytes in the buffer exactly when the position is before the end of the contents; fails exactly when the flush does or a broken inner stream has to be read |
| `BufStream.BufStream.Read` | fscommon/src/buf_stream.rs:88-103 | answers as an unbuffered stream; fails exactly when the flush does or a broken inner stream has to be read |
| `BufStream.BufStream.Write` | fscommon/src/buf_stream.rs:105-118 | answers as an unbuffered stream, and takes all bytes unless they go past the buffer; fails exactly when the buffer overflows and cannot be flushed, or a broken inner stream is needed |
| `BufStream.BufStream.Seek` | fscommon/src/buf_stream.rs:126-139 | answers as an unbuffered stream, exactly when the flush succeeds, the inner stream works and the target is not negative; for a negative one it fails but drops the bytes read ahead |
| `BufStream.RefusedSeekMoves` | fscommon/src/buf_stream.rs:126-139 | one byte is read ahead, and a refused seek moves the position past it |
| `BufStream.Run` | fscommon/src/buf_stream.rs:33-139 | any run on a stream that works and has room succeeds if it seeks to no negative position; every run that succeeds answers as an unbuffered stream, and after a flush the inner stream holds the contents |

## Left out

- Reading and writing devices: a store is deterministic and does not fail on its own. `BufStream.Inner` is the
  exception: it may move fewer bytes than asked, has a capacity, and fails on every call or on none beside that.
- FatTable.Table: the FAT and the data area are separate stores, and the table is one array; that one entry is read
  and written the same through the window over the copies is stated by `MirroredTable`. FAT12 scans are claimed for
  non-empty ranges, as they are called.
- FatCodec.PutEntries: table sizes are kept below the special marks of the FAT type, as the number of clusters that
  makes the FAT type is.
- FileSystem.Volume: the rest of the FSInfo sector, dirty flags of files and the serialisation of the counters.
- File.Handle.Read: for a directory it is claimed below 4 GiB, where its 32-bit position can be. Time stamps are left
  out.
- File.Handle.Write: the handle is the only one for its file.
- FileRuns.Run: for files; a directory has no recorded size.
- Directory.Dir: the clusters that a directory can be given are a list that is known beforehand; one slot at a time is
  joined to `File.Handle` by `DirStream`, where the fields of a slot are written at once. Also left out: paths,
  comparison of names without regard to case (a predicate `same` stands for it), whether a directory is empty (a
  predicate `isEmpty`), OEM code pages, time stamps, and the clusters and the dot entries of a new directory.
- Directory.Dir.Remove: the first clusters of listed entries start chains of the volume, which the code takes for
  granted.
- Directory.Dir.Rename: the two directories are one object or share nothing.
- Directory.Dir.CheckForExistence: needs fewer than 9 * 65536 slots; the standard allows a directory 65536.
- DiskSlice.Adapter: the disk takes the same number of bytes in every write, where it is asked for as many.
- DiskSlice.Slice.Write: where a write goes astray, what the copies hold is not stated; for one copy
  `DiskSlice.Adapter.WriteAll` does.
- DirStream.WriteSlot: directories stay below 4 GiB, where the position of the handle can be.
- Geometry.DefaultFormatMounts: the fields of the boot sector that no check looks at, its serialisation and boot code.
- Geometry.ValidatesExactly: numbers are unbounded, where the code adds up regions in 32 bits; that they fit is stated
  for the blocks that formatting makes.
- Geometry.FatHoldsAllClusters: sector sizes are powers of two from 512 bytes, and there are one or two FATs, as the
  options demand.
- BitAlloc.Node: one class stands for the leaf and for the levels above it; a bit set is a sequence of 16 booleans.
- BitAlloc.Node.FindContiguous: powers of two are unbounded; in the code `1 << align_log2` overflows from 64 on.
- BitAlloc.Node.Insert: the empty ranges that are refused here are those for which the code subtracts one from 0 or
  hands an empty range to a leaf, whose bit field refuses it.
- RwLock.RunsAreSafe: memory orderings weaker than sequential consistency, `leak`, the `force_` functions and
  interrupt nesting. The downgrade to an upgradeable guard is outside the runs and has lemmas of its own.
- TicketMutex.RunsAreSafe: the counters are counted without bound and compared as 64-bit words; runs must be fresh, as
  `TicketMutex.Fresh` says.
- BufStream.BufStream.FlushBuf: after a failure of the inner stream in the middle of a flush nothing is claimed.
- Drop order, `Drop` of streams and file systems, and recovery from device errors inside the cluster iterator.
- The spin and MCS locks, interrupt nesting, `StreamSlice`, time, console and log modules: nothing hard in them.
