# FAT16 read path

This project models the read path of `fat.c`, a small FAT16 driver. The
driver opens a disk image and does four things:

- `init_fs` reads the MBR partition table, the boot sector of the first
  partition and the first FAT copy.
- `dir` lists the root directory and counts files, subdirectories and bytes.
- `get_entry_by_name` looks up a root record by its formatted 8.3 name.
- `read_file` follows the file's cluster chain through the FAT and emits
  the contents.

The model keeps the driver's shape:

- `FileSystem.Fat16Volume` is a class. It holds the image (immutable), the
  file position `pos` (what `fseek` sets and `fread` advances), and the
  globals `pt`, `bs` and `fat` that `init_fs` fills in.
- Its methods are `init_fs` (the constructor), `get_entry_by_name`,
  `move_to_cluster`, `dir` and `read_file`. They carry the loops of the C
  code, with their invariants.
- `Names.GetFilename` writes into a 13-byte `array`, as `get_filename` writes
  into the caller's buffer. Its backward scan is the loop of
  `Names.ScanNameEnd`.
- Each method is proved against value-level functions in the other modules:
  - `Layout` holds the offset arithmetic.
  - `Names` holds the name formatting.
  - `Disk` holds the root records, the first-match lookup, and the
    concatenated cluster data of a chain.
  - `Listing` holds the used records and their totals.
  - `Chain` gives the number of bytes `read_file` emits in closed form, with
    no loop.
- The lemmas about those functions state what the driver promises. The read
  loop emits exactly the first `ReadLength` bytes of the chain's clusters.
  For sizes below 2^31, that length is at least the file size and less
  than 255 bytes more when the chain does not end early; a size of 2^31 or
  more emits nothing. It is a whole number of clusters, below the
  file size, when `0xFFFF` comes first.

Where the code departs from the FAT format, the model follows the code:

- Only `0xFFFF` ends a chain (`Chain.OnlyFfffEndsChain`). The FAT format's
  other end-of-chain values `0xFFF8`..`0xFFFE` are followed as cluster
  numbers.
- For a subdirectory, `get_filename` leaves out the dot but still appends the
  three extension bytes. `"ADR1    "` with a blank extension formats as
  `"ADR1   "`, not `"ADR1"` (`Names.FormatSubdirectoryExample`).
- The root offset is `512 * start + 512 + (reserved - 1) * sector_size + ...`.
  It counts the boot sector record in place of the first reserved sector.
  It equals the format's definition exactly when sectors are 512 bytes
  (`Layout.RootDirStartMatchesFormat`).
- With 512-byte sectors, 4 sectors per cluster, 1 reserved sector, 2 FATs of
  32 sectors, 512 root entries and the partition at sector 2048, the code
  gives:
  - a root offset of 1081856;
  - a data start of 1098240 (`Layout.ExampleGeometry`).
- `int file_left = entry.file_size` reads sizes of 2^31 and above as
  negative, so such files emit nothing (`Chain.EmptyFileSizes`).

## Model

| member | source | states |
|---|---|---|
| `Names.FormatName` | fat.c:22-37 | The name get_filename builds is 4 to 12 bytes, ends with the 3 extension bytes, and has the dot just before them for a non-subdirectory. |
| `Names.TrimFrom` | fat.c:23-31 | The backward scan from position j stops just after the last non-space byte below j, with only spaces between; when every byte below j is a space it yields 8. |
| `Names.FormatNameShape` | fat.c:22-37 | A formatted name keeps the base name up to its last non-space byte (all 8 bytes when blank), has a `.` after it only for non-subdirectories, ends with the 3 extension bytes verbatim, and is 4 to 12 bytes long. |
| `Names.FormatFileExample` | fat.c:22-37 | `"TEST    "` with `"TXT"` formats as `"TEST.TXT"`. |
| `Names.FormatSubdirectoryExample` | fat.c:32-36 | A subdirectory `"ADR1    "` gets no dot but keeps its blank extension: `"ADR1   "`. |
| `Names.FormatBlankNameExample` | fat.c:23-31 | An all-space base name is kept whole, because the extension start stays at 8. |
| `Names.AssembledName` | fat.c:22-37 | The buffer after the copy, the dot, the extension and the terminator is 13 bytes and begins with the formatted name. |
| `Names.AssembledTail` | fat.c:22-37 | Past the formatted name, that buffer holds the copied trailing spaces up to index 8, the caller's bytes from 8 to 11, and 0 at index 12. |
| `Names.GetFilename` | fat.c:20-38 | After get_filename, the buffer starts with the formatted name, then the name's own trailing spaces, then the caller's old bytes up to index 11, then the NUL at index 12. |
| `Names.ScanNameEnd` | fat.c:23-31 | The loop with `break` leaves `start_of_ext` at the trimmed length of the name. |
| `Names.PutExtension` | fat.c:32-37 | The whole buffer afterwards: the dot at `start_of_ext` for non-subdirectories, the 3 extension bytes after it, 0 at index 12, and every other byte as before. |
| `Records.DecodePartitionTable` | fat.c:157 | One read of 64 bytes gives the four partition entries. |
| `Records.DecodeFat` | fat.c:173-174 | The FAT buffer of b bytes holds `b / 2` unsigned shorts. |
| `Records.DecodeFatEntries` | fat.c:145 | `fat[i]` is the little-endian value of bytes 2i and 2i+1 of the FAT copy read. |
| `Layout.RootDirStart` | fat.c:76-81 | get_start_of_root_dir is the format's reserved-plus-FATs offset, plus the 512-byte boot sector record, minus one volume sector. |
| `Layout.RootRegionSize` | fat.c:104 | The root region of move_to_cluster is a non-negative whole number of sectors. |
| `Layout.ClusterOffset` | fat.c:103-106 | move_to_cluster's target for a cluster numbered 2 or above lies at or after the start of the data region. |
| `Layout.FatOffset` | fat.c:167-172 | The FAT copy init_fs reads, plus one copy, plus the copies skipped, ends at get_start_of_root_dir. |
| `Layout.FatBytes` | fat.c:173-174 | One FAT copy is a whole number of sectors. |
| `Layout.SkippedFatBytes` | fat.c:176 | The seek past the other FAT copies never goes backwards when there is a FAT, and is 0 with a single FAT. |
| `Layout.InitSeeksReachRoot` | fat.c:167-176 | The seeks of init_fs (boot record, the other reserved sectors, one FAT copy, the other copies) end exactly at get_start_of_root_dir, and never seek backwards past the FAT. |
| `Layout.RootDirStartMatchesFormat` | fat.c:78-80 | The root offset of the code equals the format's reserved-plus-FATs offset if and only if the sector size is 512. |
| `Layout.RootRegionBounds` | fat.c:104 | The rounded root region is at least `root_dir_entries * 32` bytes and less than one sector more. |
| `Layout.FirstClusterAtDataStart` | fat.c:103-106 | Cluster 2 starts right after the rounded root region. |
| `Layout.ConsecutiveClusters` | fat.c:106 | The offsets of consecutive cluster numbers differ by exactly `sectors_per_cluster * sector_size`. |
| `Layout.ClusterOffsetIsLinear` | fat.c:104-106 | A cluster's offset is the data start plus `(cluster - 2)` whole clusters. |
| `Layout.ExampleGeometry` | fat.c:78-80 | The offsets of a concrete 512-byte-sector volume at sector 2048: boot sector, FAT, root, data start, clusters 2 and 3. |
| `Chain.FirstEnd` | fat.c:126 | The result is the first chain index in the range holding `0xFFFF`, or the bound when none does. |
| `Chain.SignedFileSize` | fat.c:122 | The 32-bit size read as a signed int: in the int range and equal to the size modulo 2^32. |
| `Chain.NeededClusters` | fat.c:121-123 | The least number of clusters that covers n bytes, or 0 for n <= 0. |
| `Chain.EmptyReadsNothing` | fat.c:126 | A file whose `file_left` starts at 0 or below emits nothing. |
| `Chain.EmptyFileSizes` | fat.c:122 | `file_left` starts at 0 or below exactly for size 0 and for sizes of 2^31 and above. |
| `Chain.ReadLengthComplete` | fat.c:128-141 | When no needed cluster is `0xFFFF`, the output is at least the file size and less than 255 bytes more, and stays within the needed clusters. |
| `Chain.ReadLengthTruncated` | fat.c:126-147 | When `0xFFFF` comes before the last needed cluster, the output is exactly the whole clusters before it, fewer bytes than the file size; the clusters before it are not `0xFFFF`. |
| `Chain.ChunkSize` | fat.c:128-132 | `bytes_to_read` is at most 255 bytes and at most `cluster_left`. It passes `file_left` only when it takes the whole rest of the cluster, and is positive when both are. |
| `Chain.ChunkStep` | fat.c:128-141 | Each chunk is 1 to 255 bytes and within `cluster_left`. It never passes the final length, lands on it exactly when the file is finished, and otherwise keeps the offset in the cluster a multiple of 255 or completes the cluster. |
| `Chain.ChunkBeforeLastCluster` | fat.c:128-132 | Before the file's last cluster, a chunk is a full buffer or completes the cluster, and leaves the file unfinished. |
| `Chain.ChunkInLastCluster` | fat.c:128-132 | In the file's last cluster, a chunk stops at the file's end, or reads the cluster's short tail whole. |
| `Chain.StepWithinReadLength` | fat.c:126-141 | While no cluster reached so far is `0xFFFF`, a chunk never takes the output past ReadLength. |
| `Chain.ReadingStart` | fat.c:118-123 | The loop invariant holds before the first pass. |
| `Chain.ReadingStep` | fat.c:126-149 | A pass keeps the loop invariant. The chunk fits the buffer and the cluster; a chunk that ends the cluster moves to `fat[cluster]` with the whole next cluster left. |
| `Chain.ReadingEnd` | fat.c:126 | When the loop stops, the output is exactly ReadLength. |
| `Chain.LoopExitLength` | fat.c:126 | Stopping on `file_left <= 0` or on cluster `0xFFFF`, and on nothing else, gives exactly ReadLength bytes. |
| `Chain.OnlyFfffEndsChain` | fat.c:126 | A link of `0xFFF8` is followed as a cluster number; only `0xFFFF` stops the read. |
| `Chain.TailOvershootExample` | fat.c:128-132 | With 2048-byte clusters, a 2045-byte file emits 2048 bytes, while 2040- and 300-byte files emit exactly their size. |
| `Listing.PrintFile` | fat.c:39-74 | print_file reports a subdirectory exactly when `attributes & 0x10` is not 0. The size total never decreases and grows only for a used record. |
| `Listing.PrintFileResult` | fat.c:39-74 | print_file reports a subdirectory exactly when attribute bit 0x10 is set, and adds `file_size` to the total exactly when the first name byte is not 0. |
| `Listing.SubdirectoryBitIsMask` | fat.c:44 | For every attribute byte, the subdirectory test holds exactly when `attributes & 0x10` is not 0. |
| `Listing.SubdirectoryBitExamples` | fat.c:44 | 0x10 and 0x30 are subdirectories; 0x20 and 0x0F are not. |
| `Listing.UsedEntriesFilters` | fat.c:196 | The used records are exactly the records whose first name byte is not 0. |
| `Listing.UsedEntriesAppend` | fat.c:192-207 | Filtering the used records distributes over concatenation. |
| `Listing.ListingStep` | fat.c:194-206 | One more record grows the used records, the subdirectory count and the size total by that record exactly when it is used. |
| `Listing.CountersMatchListing` | fat.c:192-207 | After the first i records, `files + dirs` is the number of used records, `dirs` is those with bit 0x10, and the size is the sum over all used records, directories included. |
| `Listing.RecordsCounted` | fat.c:192-207 | `files + dirs` counts the used records among the first i. |
| `Listing.DirectoriesCounted` | fat.c:198-201 | `dirs` counts the used records among the first i that have bit 0x10. |
| `Listing.SizesSummed` | fat.c:198 | The size total is the sum of `file_size` over the used records among the first i. |
| `Listing.UnusedRecordDoesNotEndScan` | fat.c:196 | A record with first byte 0 is skipped and the records after it are still listed. |
| `Listing.DeletedRecordIsListed` | fat.c:196 | A deleted record (first byte 0xE5) is listed like any other. |
| `Disk.PartitionTableOf` | fat.c:156-157 | The partition table read at 0x1BE has four entries. |
| `Disk.RecordsBelowAt` | fat.c:86-88 | Entry i of the root records is the 32 bytes at `root + 32 * i`, decoded. |
| `Disk.FindFromIsFirstMatch` | fat.c:86-98 | The scan from i returns the lowest matching index at or above i, or none when no record from i on matches. |
| `Disk.Lookup` | fat.c:84-99 | The index get_entry_by_name finds is a root record that is used and carries the query as its formatted name. |
| `Disk.LookupIsFirstMatch` | fat.c:84-99 | The lookup succeeds if and only if some root record is used and has the query as its formatted name; the index is the lowest such record. |
| `Disk.SeekTo` | fat.c:107 | fseek moves the file to the target or leaves it where it was, and never to a negative position from a non-negative one. |
| `Disk.ChainBytesPrefix` | fat.c:143-147 | The data of a shorter run of the chain is a prefix of the data of a longer run. |
| `Disk.ChainPrefixIsPrefix` | fat.c:134-147 | The first len bytes of the chain are len bytes long and are a prefix of any m whole clusters of the chain that cover them. |
| `Disk.ClusterSeekInRange` | fat.c:143-146 | Every cluster the read takes bytes from has a non-negative offset. |
| `Disk.EmptyFileReadable` | fat.c:118-126 | A file that emits nothing is readable wherever its starting cluster lies, and the file ends where the seek to that cluster leaves it: at its offset, or where it was when the offset is negative. |
| `Disk.EmptyFileAtClusterZero` | fat.c:101-126 | An empty file at cluster 0 on a volume whose cluster 0 lies below offset 0 is readable; the failed seek leaves the file where it was. |
| `Disk.PrefixAt` | fat.c:134-147 | After k whole clusters and d more bytes, the output is those clusters plus d bytes of the k-th, and the file is d bytes past the seek to that cluster. |
| `Disk.ChunkInRange` | fat.c:128-134 | A chunk within ReadLength comes from a cluster with a non-negative offset and lies inside the image, and a chunk that completes its cluster has a FAT entry to follow. |
| `Disk.ChunkExtendsPrefix` | fat.c:134-147 | Appending a chunk read at the current position extends the output to the next prefix of the chain. The file moves on by the chunk, or, when the chunk completes its cluster, to where the seek to the next linked cluster takes it. |
| `Disk.ClusterCompleted` | fat.c:143-148 | After k + 1 whole clusters, the output is those clusters and the file is where the seek from the end of the k-th cluster to the cluster the FAT links after it takes it. |
| `FileSystem.Fat16Volume.Seek` | fat.c:85 | fseek to a non-negative target sets the position there; a negative one leaves it unchanged. |
| `FileSystem.Fat16Volume.Read` | fat.c:88 | fread returns the n image bytes at the position and advances it by n. |
| `FileSystem.Fat16Volume.constructor` | fat.c:153-178 | init_fs: the globals hold the partition table, the first partition's boot sector and the first FAT copy of the image, and the file is at the root directory. |
| `FileSystem.Fat16Volume.LoadPartitionTable` | fat.c:156-157 | The four partition entries at 0x1BE are read, leaving the file after them. |
| `FileSystem.Fat16Volume.LoadBootSector` | fat.c:167-169 | The boot sector at `512 * start_sector` is read, leaving the file after it. |
| `FileSystem.Fat16Volume.LoadFat` | fat.c:172-174 | The relative seek reaches the first FAT copy, which is read, leaving the file after it. |
| `FileSystem.Fat16Volume.GetEntryByName` | fat.c:82-100 | The result is true exactly when the lookup finds a match, and the entry is that record. On failure the entry is the last record read. The file ends after the records scanned. |
| `FileSystem.Fat16Volume.MatchRecord` | fat.c:88-96 | One pass reads root record i and reports a match exactly when it is used and its formatted name is the query. |
| `FileSystem.Fat16Volume.CompareName` | fat.c:91-93 | Reports equality of the formatted name, with the dot decided by bit 0x10, with the query. |
| `FileSystem.Fat16Volume.MoveToCluster` | fat.c:101-108 | The file moves to the cluster's offset, past the rounded root region, when that offset is not negative. |
| `FileSystem.Fat16Volume.ReadEntry` | fat.c:88 | At the start of root record i, the read returns that record and advances by 32. |
| `FileSystem.Fat16Volume.Dir` | fat.c:180-209 | The counters are the totals of the used root records: `files + dirs` is their number, `dirs` is those with bit 0x10, and the size is the sum of all their sizes. The file ends after the last root record. |
| `FileSystem.Fat16Volume.ListRecord` | fat.c:194-206 | One pass moves the three counters from their values after i records to their values after i + 1. |
| `FileSystem.Fat16Volume.ReadFile` | fat.c:109-151 | When the name is not found, nothing is emitted. Otherwise the output is exactly the first ReadLength bytes of the file's cluster chain, and the file is where that read ends, counting from where the lookup left it when the last seek fails. |
| `FileSystem.Fat16Volume.ReadChain` | fat.c:118-150 | The loop emits the first ReadLength bytes of the chain from the starting cluster, and the file ends where that read leaves it, seeks that fail included. It keeps `0 < cluster_left <= cluster size` and terminates because `file_left` decreases, even on a cyclic chain. |
| `FileSystem.Fat16Volume.ReadStep` | fat.c:128-149 | One pass emits 1 to 255 bytes and keeps the loop invariant. The output stays the next prefix of the chain; `cluster_left` is reset after a full cluster. |
| `FileSystem.Fat16Volume.NextCluster` | fat.c:143-147 | At a cluster end, the next cluster is `fat[cluster]` and the file is at its offset, or stays where it was when that offset is negative. |
| `FileSystem.Fat16Volume.ReadChunk` | fat.c:128-134 | The chunk is a full buffer clamped to `file_left` and then to `cluster_left`. It is the image bytes at the position, which moves on by its size. |

## Left out

- Console output and main: every `printf`, the listing format and the date
  and time decoding of print_file are left out. read_file's output is the
  `emitted` byte sequence. main and its two fixed file names are left out.
- `fopen` and `fclose`: the image is a sequence of bytes that is given in.
- Short reads and failed seeks before a read:
  - every `fread` is required to lie inside the image;
  - the constructor requires `InitInRange`, and `Dir` requires `RootInRange`;
  - `GetEntryByName` requires `LookupInRange`, and `ReadFile` requires
    `FileReadable`, which also requires every followed cluster to have a
    FAT entry.

  In read_file, an `fread` at the end of the image returns 0 bytes, leaves
  `file_left` and `cluster_left` unchanged, and the loop never ends. A
  partial read in the short tail chunk of a cluster can still end the loop
  with the whole file emitted. The model excludes both.

  `InitInRange`, `RootInRange` and `LookupInRange` also require the seek
  targets of init_fs, dir and get_entry_by_name (fat.c:85, 172 and 184) to
  be non-negative. A negative target is a failed `fseek`, after which the
  driver reads from the old position; the model does not follow that.
- FileSystem.Fat16Volume.ReadFile: requires `GeometryOk` (a non-zero
  sector size and a non-zero number of sectors per cluster). With a zero
  sector size, move_to_cluster divides by zero. With a zero cluster size,
  each pass of read_file reads 0 bytes and follows `fat[cluster]`: it emits
  nothing, stops only if the chain reaches `0xFFFF`, and never stops on a
  cyclic chain.
- FileSystem.Fat16Volume.ReadFile: requires every cluster that bytes are
  read from to have a non-negative offset. The seek to such a cluster
  would fail and the read would continue at the old position, which the
  model does not follow. A cluster nothing is read from may have any
  offset; the failed seek to it is modelled (`Disk.SeekTo`).
- C `int` overflow and `unsigned short` wrap-around in the offset arithmetic:
  offsets and sums are unbounded integers. `file_size` is the one
  conversion modelled, since it decides whether anything is read.
- FileSystem.Fat16Volume.Dir: the size total is an unbounded integer, not
  a C int that can overflow.
- FileSystem.Fat16Volume.CompareName: the 13-byte memcmp over a partly
  uninitialised buffer and a shorter string is modelled as equality of the
  formatted name with the query.
- The layouts of `fat.h`, which is not part of this model: records are
  decoded at the standard MBR, boot sector and directory entry offsets, and
  `sizeof(Fat16BootSector)` is the constant 512.
- Bytes are the integers 0..255 (`Bytes.Byte`), not bit-vectors. The
  attribute test `& 0x10` is written as bit 4 by division and remainder;
  `Listing.SubdirectoryBitIsMask` proves it equal to the mask on `bv8`.
- The `malloc` of the FAT is modelled as the decoded sequence.
- The driver never checks the MBR signature or partition type, never
  navigates subdirectories and never uses partitions other than the first,
  so the model has none of them.
