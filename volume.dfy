/** The driver itself: the open image with its file position, the globals
    init_fs fills in (partition table, boot sector, FAT), and the operations
    that seek and read through the image — init_fs, get_entry_by_name,
    move_to_cluster, dir and read_file. */
module FileSystem {
  import opened Bytes
  import opened Records
  import opened Names
  import opened Layout
  import opened Chain
  import opened Listing
  import opened Disk

  class Fat16Volume {
    /** The contents of the image file, which the driver never writes. */
    const image: seq<Byte>
    /** The position of the FILE handle: what fseek sets and fread advances. */
    var pos: int
    var pt: seq<PartitionEntry>
    var bs: BootSector
    var fat: seq<U16>

    /** The partition table has its four entries. That the globals hold
        what init_fs reads from the image is the constructor's promise; no
        later operation assigns them. */
    ghost predicate Valid()
      reads this`pt
    {
      |pt| == PARTITION_COUNT
    }

    /** The mounted volume as a value. */
    ghost function State(): FsState
      reads this`pt, this`bs, this`fat
      requires Valid()
    {
      FsState(image, pt[0].startSector, bs, fat)
    }

    /** fseek(in, target, SEEK_SET): a negative target fails and leaves the
        position where it was. */
    method Seek(target: int)
      modifies this`pos
      ensures pos == if target >= 0 then target else old(pos)
    {
      if target >= 0 {
        pos := target;
      }
    }

    /** fread of n bytes that all lie in the image. */
    method Read(n: nat) returns (bytes: seq<Byte>)
      requires 0 <= pos && pos + n <= |image|
      modifies this`pos
      ensures bytes == Window(image, old(pos), n)
      ensures pos == old(pos) + n
    {
      bytes := image[pos..pos + n];
      WindowIsSlice(image, pos, n);
      pos := pos + n;
    }

    /** init_fs: the partition table, then the boot sector of the first
        partition, then one FAT copy, leaving the file at the root directory. */
    constructor (image: seq<Byte>)
      requires InitInRange(image)
      ensures this.image == image
      ensures Valid() && State() == MountedState(image)
      ensures pos == RootDirStart(State().startSector, bs)
    {
      this.image := image;
      pos := 0;
      pt := [];
      bs := BootSector(0, 0, 0, 0, 0, 0);
      fat := [];
      new;
      LoadPartitionTable();
      LoadBootSector();
      LoadFat();
      InitSeeksReachRoot(pt[0].startSector, bs);
      Seek(pos + SkippedFatBytes(bs));
    }

    /** The first read of init_fs: the four partition entries. */
    method LoadPartitionTable()
      requires PARTITION_TABLE_OFFSET + PARTITION_ENTRY_SIZE * PARTITION_COUNT <= |image|
      modifies this`pos, this`pt
      ensures pt == PartitionTableOf(image)
      ensures pos == PARTITION_TABLE_OFFSET + PARTITION_ENTRY_SIZE * PARTITION_COUNT
    {
      Seek(PARTITION_TABLE_OFFSET);
      var raw := Read(PARTITION_ENTRY_SIZE * PARTITION_COUNT);
      pt := DecodePartitionTable(raw);
    }

    /** The second read of init_fs: the boot sector of the first partition. */
    method LoadBootSector()
      requires pt == PartitionTableOf(image)
      requires BootSectorOffset(pt[0].startSector) + BOOT_SECTOR_SIZE <= |image|
      modifies this`pos, this`bs
      ensures bs == BootSectorOf(image)
      ensures pos == BootSectorOffset(pt[0].startSector) + BOOT_SECTOR_SIZE
    {
      Seek(BootSectorOffset(pt[0].startSector));
      var raw := Read(BOOT_SECTOR_SIZE);
      bs := DecodeBootSector(raw);
    }

    /** The third read of init_fs: a relative seek past the other reserved
        sectors, then one FAT copy. */
    method LoadFat()
      requires pt == PartitionTableOf(image) && bs == BootSectorOf(image)
      requires pos == BootSectorOffset(pt[0].startSector) + BOOT_SECTOR_SIZE
      requires 0 <= FatOffset(pt[0].startSector, bs)
      requires FatOffset(pt[0].startSector, bs) + FatBytes(bs) <= |image|
      modifies this`pos, this`fat
      ensures fat == FatOf(image)
      ensures pos == FatOffset(pt[0].startSector, bs) + FatBytes(bs)
    {
      Seek(pos + (bs.reservedSectors as int - 1) * bs.sectorSize);
      var raw := Read(FatBytes(bs));
      fat := DecodeFat(raw);
    }

    /** get_entry_by_name: reads the root records in order and stops at the
        first used one whose formatted name is the query. The entry it leaves
        behind is the match, or else the last record read. */
    method GetEntryByName(name: seq<Byte>) returns (found: bool, entry: DirEntry)
      requires Valid() && LookupInRange(State(), name)
      modifies this`pos
      ensures found <==> Lookup(State(), name).Some?
      ensures found ==> entry == Record(State(), Lookup(State(), name).value)
      ensures !found && bs.rootDirEntries > 0 ==> entry == Record(State(), bs.rootDirEntries - 1)
      ensures pos == RootStart(State()) + ENTRY_SIZE * ScanCount(State(), name)
    {
      var startOfRootDir := RootDirStart(pt[0].startSector, bs);
      Seek(startOfRootDir);
      ghost var rs := RootRecords(State());
      assert RootStart(State()) == startOfRootDir;
      entry := DirEntry([0, 0, 0, 0, 0, 0, 0, 0], [0, 0, 0], 0, 0, 0);
      var i := 0;
      while i < bs.rootDirEntries
        invariant 0 <= i <= bs.rootDirEntries
        invariant pos == startOfRootDir + ENTRY_SIZE * i
        invariant FindFrom(rs, name, i) == Lookup(State(), name)
        invariant i > 0 ==> entry == rs[i - 1]
      {
        FindFromIsFirstMatch(rs, name, i);
        var same;
        entry, same := MatchRecord(rs, i, name);
        if same {
          RecordsBelowAt(State(), |rs|, i);
          found := true;
          return;
        }
        i := i + 1;
      }
      if i > 0 {
        RecordsBelowAt(State(), |rs|, i - 1);
      }
      found := false;
    }

    /** One pass of get_entry_by_name's loop: read root record i and test
        it against the query when it is used. */
    method MatchRecord(ghost rs: seq<DirEntry>, i: nat, name: seq<Byte>) returns (entry: DirEntry, same: bool)
      requires Valid() && rs == RootRecords(State()) && i < |rs|
      requires pos == RootStart(State()) + ENTRY_SIZE * i
      requires pos >= 0 && pos + ENTRY_SIZE <= |image|
      modifies this`pos
      ensures entry == rs[i] && (same <==> Matches(entry, name))
      ensures pos == old(pos) + ENTRY_SIZE
    {
      entry := ReadEntry(rs, i);
      same := false;
      if entry.filename[0] != 0x00 {
        same := CompareName(entry, name);
      }
    }

    /** The name test of get_entry_by_name: format the record's name into a
        13-byte buffer, as a subdirectory when its 0x10 bit is set, and
        compare the formatted name with the query. */
    method CompareName(entry: DirEntry, name: seq<Byte>) returns (same: bool)
      ensures same <==> FormatName(entry, IsSubdirectory(entry.attributes)) == name
    {
      var subdirectory := IsSubdirectory(entry.attributes);
      var entryFilename := new Byte[13];
      GetFilename(entry, entryFilename, subdirectory);
      same := entryFilename[..|FormatName(entry, subdirectory)|] == name;
    }

    /** move_to_cluster: seek to where the cluster's data starts. */
    method MoveToCluster(cluster: int)
      requires Valid() && GeometryOk(bs)
      modifies this`pos
      ensures var target := ClusterOffset(pt[0].startSector, bs, cluster);
        pos == if target >= 0 then target else old(pos)
    {
      var startOfRootDir := RootDirStart(pt[0].startSector, bs);
      var blocksOfRootDir := ((bs.rootDirEntries * 32 + bs.sectorSize - 1) / bs.sectorSize) * bs.sectorSize;
      var endOfRootDir := startOfRootDir + blocksOfRootDir;
      var clusterData := endOfRootDir + ((cluster - 2) * bs.sectorsPerCluster) * bs.sectorSize;
      Seek(clusterData);
    }

    /** fread of root record i, the file being at its start. */
    method ReadEntry(ghost rs: seq<DirEntry>, ghost i: nat) returns (entry: DirEntry)
      requires Valid() && rs == RootRecords(State()) && i < |rs|
      requires pos == RootStart(State()) + ENTRY_SIZE * i
      requires pos >= 0 && pos + ENTRY_SIZE <= |image|
      modifies this`pos
      ensures entry == rs[i]
      ensures pos == old(pos) + ENTRY_SIZE
    {
      RecordsBelowAt(State(), |rs|, i);
      var raw := Read(ENTRY_SIZE);
      entry := DecodeEntry(raw);
    }

    /** dir: walks every root record and, for the used ones, counts
        subdirectories and files and sums their sizes. */
    method Dir() returns (files: int, dirs: int, fileSize: int)
      requires Valid() && RootInRange(State())
      modifies this`pos
      ensures var used := UsedEntries(RootRecords(State()));
        && files + dirs == |used|
        && dirs == CountSubdirectories(used)
        && fileSize == TotalSize(used)
      ensures pos == RootStart(State()) + ENTRY_SIZE * bs.rootDirEntries
    {
      var startOfRootDir := RootDirStart(pt[0].startSector, bs);
      Seek(startOfRootDir);
      ghost var rs := RootRecords(State());
      assert RootStart(State()) == startOfRootDir;
      files, dirs, fileSize := 0, 0, 0;
      var i := 0;
      while i < bs.rootDirEntries
        invariant 0 <= i <= bs.rootDirEntries
        invariant pos == startOfRootDir + ENTRY_SIZE * i
        invariant files == FilesBelow(rs, i)
        invariant dirs == DirsBelow(rs, i)
        invariant fileSize == SizeBelow(rs, i)
      {
        files, dirs, fileSize := ListRecord(rs, i, files, dirs, fileSize);
        i := i + 1;
      }
      CountersMatchListing(rs, i);
      assert rs[..i] == rs;
    }

    /** read_file: finds the record, then follows its cluster chain from the
        starting cluster, emitting chunks of at most 255 bytes that never
        cross a cluster end, and stops once file_left is no longer positive
        or the chain reaches 0xFFFF. What it emits is the first
        FileReadLength bytes of the chain's clusters. */
    method ReadFile(filename: seq<Byte>) returns (found: bool, emitted: seq<Byte>)
      requires Valid() && LookupInRange(State(), filename)
      requires Lookup(State(), filename).Some? ==>
        FileReadable(State(), Record(State(), Lookup(State(), filename).value))
      modifies this`pos
      ensures found <==> Lookup(State(), filename).Some?
      ensures !found ==> emitted == [] && pos == RootStart(State()) + ENTRY_SIZE * bs.rootDirEntries
      ensures found ==>
        var e := Record(State(), Lookup(State(), filename).value);
        var len := FileReadLength(State(), e);
        && emitted == ChainPrefix(State(), e.startingCluster, len)
        && pos == EndPosition(State(), e.startingCluster, len, RootStart(State()) + ENTRY_SIZE * ScanCount(State(), filename))
    {
      var entry;
      found, entry := GetEntryByName(filename);
      if !found {
        emitted := [];
        return;
      }
      emitted := ReadChain(entry);
    }

    /** One pass of dir's loop: read root record i and, when it is used,
        count it as a file or a subdirectory and add its size. */
    method ListRecord(ghost rs: seq<DirEntry>, i: nat, files: int, dirs: int, fileSize: int)
      returns (files': int, dirs': int, fileSize': int)
      requires Valid() && RootInRange(State()) && rs == RootRecords(State()) && i < |rs|
      requires pos == RootStart(State()) + ENTRY_SIZE * i
      requires files == FilesBelow(rs, i) && dirs == DirsBelow(rs, i) && fileSize == SizeBelow(rs, i)
      modifies this`pos
      ensures files' == FilesBelow(rs, i + 1) && dirs' == DirsBelow(rs, i + 1) && fileSize' == SizeBelow(rs, i + 1)
      ensures pos == old(pos) + ENTRY_SIZE
    {
      files', dirs', fileSize' := files, dirs, fileSize;
      var entry := ReadEntry(rs, i);
      if entry.filename[0] != 0x00 {
        var printed := PrintFile(entry, fileSize);
        fileSize' := printed.1;
        if printed.0 {
          dirs' := dirs + 1;
        } else {
          files' := files + 1;
        }
      }
    }

    /** The part of read_file after the lookup: the walk along the chain. */
    method ReadChain(entry: DirEntry) returns (emitted: seq<Byte>)
      requires Valid() && FileReadable(State(), entry)
      modifies this`pos
      ensures var len := FileReadLength(State(), entry);
        && emitted == ChainPrefix(State(), entry.startingCluster, len)
        && pos == EndPosition(State(), entry.startingCluster, len, old(pos))
    {
      ghost var st := State();
      ghost var len := FileReadLength(st, entry);
      ClusterSizePositive(bs);

      var cluster: U16 := entry.startingCluster;
      ghost var c0 := cluster;
      ghost var pos0 := pos;
      MoveToCluster(cluster);

      var sizeOfCluster := bs.sectorsPerCluster * bs.sectorSize;
      var fileLeft := SignedFileSize(entry.fileSize);
      var clusterLeft := sizeOfCluster;
      ghost var n := fileLeft;
      ghost var k: nat := 0;
      ghost var m: nat := 0;
      emitted := [];
      ReadingStart(st.fat, c0, n, sizeOfCluster);
      PrefixAt(st, c0, 0, 0, 0, pos0);
      while fileLeft > 0 && cluster != END_OF_CHAIN
        invariant State() == st
        invariant 0 < clusterLeft <= sizeOfCluster
        invariant m == k * sizeOfCluster + (sizeOfCluster - clusterLeft)
        invariant Reading(st.fat, c0, n, sizeOfCluster, k, sizeOfCluster - clusterLeft, cluster, fileLeft)
        invariant emitted == ChainPrefix(st, c0, m)
        invariant pos == EndPosition(st, c0, m, pos0)
        decreases fileLeft
      {
        var buffer;
        buffer, cluster, clusterLeft, k := ReadStep(st, c0, n, sizeOfCluster, len, k, m, pos0, cluster, clusterLeft, fileLeft);
        emitted := emitted + buffer;
        fileLeft := fileLeft - |buffer|;
        m := m + |buffer|;
      }
      ReadingEnd(st.fat, c0, n, sizeOfCluster, k, sizeOfCluster - clusterLeft, cluster, fileLeft);
    }

    /** One pass of read_file's loop, m = k * s + d bytes into the chain:
        read the next chunk and, when it completes the cluster, move to the
        cluster the FAT links next. */
    method ReadStep(ghost st: FsState, ghost c0: U16, ghost n: int, ghost s: nat, ghost len: nat, ghost k: nat, ghost m: nat,
                    ghost pos0: int, cluster: U16, clusterLeft: int, fileLeft: int)
      returns (buffer: seq<Byte>, nextCluster: U16, nextClusterLeft: int, ghost nextK: nat)
      requires Valid() && State() == st && GeometryOk(st.bs) && s == ClusterSize(st.bs)
      requires len == ReadLength(st.fat, c0, n, s) && ChainInRange(st, c0, len)
      requires 0 < clusterLeft <= s && m == k * s + (s - clusterLeft)
      requires Reading(st.fat, c0, n, s, k, s - clusterLeft, cluster, fileLeft)
      requires fileLeft > 0 && cluster != END_OF_CHAIN
      requires pos == EndPosition(st, c0, m, pos0)
      modifies this`pos
      ensures 0 < |buffer| <= BUFFER_SIZE
      ensures 0 < nextClusterLeft <= s
      ensures m + |buffer| == nextK * s + (s - nextClusterLeft)
      ensures Reading(st.fat, c0, n, s, nextK, s - nextClusterLeft, nextCluster, fileLeft - |buffer|)
      ensures ChainPrefix(st, c0, m) + buffer == ChainPrefix(st, c0, m + |buffer|)
      ensures pos == EndPosition(st, c0, m + |buffer|, pos0)
    {
      ghost var d := s - clusterLeft;
      ReadingStep(st.fat, c0, n, s, k, d, cluster, fileLeft);
      ChunkInRange(st, c0, len, k, d, m, ChunkSize(fileLeft, clusterLeft), pos0);
      buffer := ReadChunk(fileLeft, clusterLeft);
      ChunkExtendsPrefix(st, c0, k, d, m, buffer, pos0);
      nextCluster, nextClusterLeft, nextK := cluster, clusterLeft - |buffer|, k;
      if nextClusterLeft == 0 {
        nextCluster := NextCluster(cluster);
        nextClusterLeft := bs.sectorsPerCluster * bs.sectorSize;
        nextK := k + 1;
      }
    }

    /** read_file at a cluster end: look the next cluster up in the FAT and
        seek to it; a negative offset leaves the file where it was. */
    method NextCluster(cluster: U16) returns (nextCluster: U16)
      requires Valid() && GeometryOk(bs) && cluster < |fat|
      modifies this`pos
      ensures nextCluster == fat[cluster]
      ensures pos == SeekTo(old(pos), ClusterOffset(pt[0].startSector, bs, nextCluster))
    {
      nextCluster := fat[cluster];
      MoveToCluster(nextCluster);
    }

    /** One fread of read_file: a full buffer, cut down to file_left and then
        to cluster_left. */
    method ReadChunk(fileLeft: int, clusterLeft: int) returns (buffer: seq<Byte>)
      requires 0 < ChunkSize(fileLeft, clusterLeft)
      requires 0 <= pos && pos + ChunkSize(fileLeft, clusterLeft) <= |image|
      modifies this`pos
      ensures |buffer| == ChunkSize(fileLeft, clusterLeft) <= BUFFER_SIZE
      ensures buffer == Window(image, old(pos), |buffer|)
      ensures pos == old(pos) + |buffer|
    {
      var bytesToRead := BUFFER_SIZE;
      if BUFFER_SIZE > fileLeft {
        bytesToRead := fileLeft;
      }
      if BUFFER_SIZE > clusterLeft {
        bytesToRead := clusterLeft;
      }
      buffer := Read(bytesToRead);
    }
  }
}
