/** The mounted volume as a value: the image with the partition start, the
    boot sector and the FAT that init_fs loads, and what the root directory
    and the cluster chains hold, read off the image. */
module Disk {
  import opened Bytes
  import opened Records
  import opened Names
  import opened Layout
  import opened Chain

  datatype FsState = FsState(image: seq<Byte>, startSector: nat, bs: BootSector, fat: seq<U16>)

  // ---------------------------------------------------------------- mount

  /** The four partition entries at 0x1BE. */
  function PartitionTableOf(image: seq<Byte>): (pt: seq<PartitionEntry>)
    ensures |pt| == PARTITION_COUNT
  {
    DecodePartitionTable(Window(image, PARTITION_TABLE_OFFSET, PARTITION_ENTRY_SIZE * PARTITION_COUNT))
  }

  /** The boot sector of the first partition. */
  function BootSectorOf(image: seq<Byte>): BootSector
  {
    DecodeBootSector(Window(image, BootSectorOffset(PartitionTableOf(image)[0].startSector), BOOT_SECTOR_SIZE))
  }

  /** The first FAT copy, read where init_fs's seeks put it. */
  function FatOf(image: seq<Byte>): seq<U16>
  {
    var start, bs := PartitionTableOf(image)[0].startSector, BootSectorOf(image);
    DecodeFat(Window(image, FatOffset(start, bs), FatBytes(bs)))
  }

  /** What init_fs reads lies inside the image, and its relative seek to the
      FAT does not go below offset 0. */
  predicate InitInRange(image: seq<Byte>)
  {
    && PARTITION_TABLE_OFFSET + PARTITION_ENTRY_SIZE * PARTITION_COUNT <= |image|
    && var start := PartitionTableOf(image)[0].startSector;
       var bs := BootSectorOf(image);
       && BootSectorOffset(start) + BOOT_SECTOR_SIZE <= |image|
       && 0 <= FatOffset(start, bs)
       && FatOffset(start, bs) + FatBytes(bs) <= |image|
  }

  function MountedState(image: seq<Byte>): FsState
  {
    FsState(image, PartitionTableOf(image)[0].startSector, BootSectorOf(image), FatOf(image))
  }

  // ------------------------------------------------------ root directory

  function RootStart(st: FsState): int
  {
    RootDirStart(st.startSector, st.bs)
  }

  /** Root record i: 32 bytes at a 32-byte stride from the root offset. */
  function Record(st: FsState, i: nat): DirEntry
  {
    DecodeEntry(Window(st.image, RootStart(st) + ENTRY_SIZE * i, ENTRY_SIZE))
  }

  /** The root_dir_entries records dir and get_entry_by_name go through. */
  function RootRecords(st: FsState): (rs: seq<DirEntry>)
    ensures |rs| == st.bs.rootDirEntries
  {
    RecordsBelow(st, st.bs.rootDirEntries)
  }

  /** Root records 0 to n - 1. */
  function RecordsBelow(st: FsState, n: nat): (rs: seq<DirEntry>)
    ensures |rs| == n
  {
    if n == 0 then [] else RecordsBelow(st, n - 1) + [Record(st, n - 1)]
  }

  /** Entry i of the root records is root record i. */
  lemma {:induction false} RecordsBelowAt(st: FsState, n: nat, i: nat)
    requires i < n
    ensures RecordsBelow(st, n)[i] == Record(st, i)
  {
    if i < n - 1 {
      RecordsBelowAt(st, n - 1, i);
    }
  }

  /** The whole root region lies inside the image. */
  predicate RootInRange(st: FsState)
  {
    RootStart(st) >= 0 && RootStart(st) + ENTRY_SIZE * st.bs.rootDirEntries <= |st.image|
  }

  /** The test of get_entry_by_name: a used record whose formatted name,
      with the dot decided by its own subdirectory bit, is the query. */
  predicate Matches(e: DirEntry, name: seq<Byte>)
  {
    IsUsed(e) && FormatName(e, IsSubdirectory(e.attributes)) == name
  }

  /** The first record at index i or later that matches. */
  function FindFrom(rs: seq<DirEntry>, name: seq<Byte>, i: nat): Option<nat>
    decreases |rs| - i
  {
    if i >= |rs| then None
    else if Matches(rs[i], name) then Some(i)
    else FindFrom(rs, name, i + 1)
  }

  /** FindFrom is a first-match scan: Some(k) is the lowest matching index
      from i on, None means no record from i on matches. */
  lemma {:induction false} FindFromIsFirstMatch(rs: seq<DirEntry>, name: seq<Byte>, i: nat)
    ensures var r := FindFrom(rs, name, i);
      && (r.Some? ==> i <= r.value < |rs| && Matches(rs[r.value], name))
      && (r.Some? ==> forall j :: i <= j < r.value ==> !Matches(rs[j], name))
      && (r.None? ==> forall j :: i <= j < |rs| ==> !Matches(rs[j], name))
    decreases |rs| - i
  {
    if i < |rs| && !Matches(rs[i], name) {
      FindFromIsFirstMatch(rs, name, i + 1);
    }
  }

  /** The root record get_entry_by_name returns, if any. */
  function Lookup(st: FsState, name: seq<Byte>): (r: Option<nat>)
    ensures r.Some? ==> r.value < st.bs.rootDirEntries && Matches(RootRecords(st)[r.value], name)
  {
    FindFromIsFirstMatch(RootRecords(st), name, 0);
    FindFrom(RootRecords(st), name, 0)
  }

  /** How many records get_entry_by_name reads: up to and including the
      match, or all of them. */
  function ScanCount(st: FsState, name: seq<Byte>): nat
  {
    match Lookup(st, name)
    case Some(k) => k + 1
    case None => st.bs.rootDirEntries
  }

  /** The records get_entry_by_name reads lie inside the image. */
  predicate LookupInRange(st: FsState, name: seq<Byte>)
  {
    RootStart(st) >= 0 && RootStart(st) + ENTRY_SIZE * ScanCount(st, name) <= |st.image|
  }

  /** The lookup is the first match in the root listing: Some(k) exactly
      when some record matches, k the lowest such index. */
  lemma LookupIsFirstMatch(st: FsState, name: seq<Byte>)
    ensures var rs := RootRecords(st);
      (Lookup(st, name).Some? <==> exists k :: 0 <= k < |rs| && Matches(rs[k], name))
    ensures var rs := RootRecords(st);
      Lookup(st, name).Some? ==>
        var k := Lookup(st, name).value;
        k < |rs| && Matches(rs[k], name) && forall j :: 0 <= j < k ==> !Matches(rs[j], name)
  {
    FindFromIsFirstMatch(RootRecords(st), name, 0);
  }

  // ------------------------------------------------------- cluster data

  /** The volume geometry read_file divides by and steps through. */
  predicate GeometryOk(bs: BootSector)
  {
    bs.sectorSize > 0 && bs.sectorsPerCluster > 0
  }

  lemma ClusterSizePositive(bs: BootSector)
    requires GeometryOk(bs)
    ensures ClusterSize(bs) > 0
  {
  }

  /** The bytes of one cluster. */
  function ClusterData(st: FsState, cluster: U16): (d: seq<Byte>)
    requires GeometryOk(st.bs)
    ensures |d| == ClusterSize(st.bs)
  {
    Window(st.image, ClusterOffset(st.startSector, st.bs, cluster), ClusterSize(st.bs))
  }

  /** The first k clusters of the chain starting at c0, concatenated. */
  function ChainBytes(st: FsState, c0: U16, k: nat): (r: seq<Byte>)
    requires GeometryOk(st.bs)
    ensures |r| == k * ClusterSize(st.bs)
  {
    if k == 0 then [] else ChainBytes(st, c0, k - 1) + ClusterData(st, ChainAt(st.fat, c0, k - 1))
  }

  /** The first len bytes of the chain's concatenated clusters. */
  function ChainPrefix(st: FsState, c0: U16, len: nat): (r: seq<Byte>)
    requires GeometryOk(st.bs)
  {
    ClusterSizePositive(st.bs);
    var s := ClusterSize(st.bs);
    ChainBytes(st, c0, len / s) + ClusterData(st, ChainAt(st.fat, c0, len / s))[..len % s]
  }

  /** The bytes read_file emits for entry e (after int file_left = file_size). */
  function FileReadLength(st: FsState, e: DirEntry): nat
    requires GeometryOk(st.bs)
  {
    ClusterSizePositive(st.bs);
    ReadLength(st.fat, e.startingCluster, SignedFileSize(e.fileSize), ClusterSize(st.bs))
  }

  /** fseek(in, target, SEEK_SET) from pos: a negative target fails and
      leaves the file where it was. */
  function SeekTo(pos: int, target: int): (r: int)
    ensures r == pos || r == target
    ensures pos >= 0 ==> r >= 0
  {
    if target >= 0 then target else pos
  }

  /** Where the file is when read_file seeks to chain cluster k: pos0 (where
      get_entry_by_name left it) for the starting cluster, otherwise the end
      of cluster k - 1, just read to its last byte. */
  function PositionBefore(st: FsState, c0: U16, k: nat, pos0: int): int
    requires GeometryOk(st.bs)
  {
    if k == 0 then pos0
    else ClusterOffset(st.startSector, st.bs, ChainAt(st.fat, c0, k - 1)) + ClusterSize(st.bs)
  }

  /** Where the file position ends after read_file emits len bytes, the
      file having been at pos0 before: len % s bytes past the seek to chain
      cluster len / s, which fails and keeps the position when that
      cluster's offset is negative. */
  function EndPosition(st: FsState, c0: U16, len: nat, pos0: int): int
    requires GeometryOk(st.bs)
  {
    ClusterSizePositive(st.bs);
    var s := ClusterSize(st.bs);
    var q := len / s;
    SeekTo(PositionBefore(st, c0, q, pos0), ClusterOffset(st.startSector, st.bs, ChainAt(st.fat, c0, q))) + len % s
  }

  /** Cluster j of the chain from c0, for len emitted bytes: a whole cluster
      read there has a non-negative seek target, lies in the image and has
      a FAT entry, and so does the part of the last cluster that is read.
      A cluster nothing is read from (the starting cluster of an empty
      file, the one linked after a last cluster read to its end) may have
      any offset. */
  predicate ClusterInRange(st: FsState, c0: U16, len: nat, j: nat)
    requires GeometryOk(st.bs)
  {
    ClusterSizePositive(st.bs);
    var s := ClusterSize(st.bs);
    var off := ClusterOffset(st.startSector, st.bs, ChainAt(st.fat, c0, j));
    && (j < len / s ==> 0 <= off && ChainAt(st.fat, c0, j) < |st.fat| && off + s <= |st.image|)
    && (j == len / s && len % s > 0 ==> 0 <= off && off + len % s <= |st.image|)
  }

  /** Everything read_file touches for len emitted bytes along the chain
      from c0 is there: every cluster it moves to is in range. */
  predicate ChainInRange(st: FsState, c0: U16, len: nat)
    requires GeometryOk(st.bs)
  {
    ClusterSizePositive(st.bs);
    forall j :: 0 <= j <= len / ClusterSize(st.bs) ==> ClusterInRange(st, c0, len, j)
  }

  /** read_file on entry e stays inside the image and the FAT. */
  predicate FileReadable(st: FsState, e: DirEntry)
  {
    GeometryOk(st.bs) && ChainInRange(st, e.startingCluster, FileReadLength(st, e))
  }

  /** Whole clusters: a shorter run of the chain is a prefix of a longer one. */
  lemma {:induction false} ChainBytesPrefix(st: FsState, c0: U16, a: nat, b: nat)
    requires GeometryOk(st.bs) && a <= b
    ensures ChainBytes(st, c0, a) <= ChainBytes(st, c0, b)
    decreases b
  {
    if a < b {
      ChainBytesPrefix(st, c0, a, b - 1);
      var x, y := ChainBytes(st, c0, a), ChainBytes(st, c0, b - 1);
      var z := ChainBytes(st, c0, b);
      assert z == y + ClusterData(st, ChainAt(st.fat, c0, b - 1));
      assert z[..|y|] == y;
      assert z[..|x|] == y[..|x|];
    }
  }

  /** What read_file emits is a prefix of the chain's concatenated clusters:
      for any m clusters covering len bytes, the first len of their bytes. */
  lemma ChainPrefixIsPrefix(st: FsState, c0: U16, len: nat, m: nat)
    requires GeometryOk(st.bs) && len <= m * ClusterSize(st.bs)
    ensures |ChainPrefix(st, c0, len)| == len
    ensures ChainPrefix(st, c0, len) == ChainBytes(st, c0, m)[..len]
  {
    ClusterSizePositive(st.bs);
    var s := ClusterSize(st.bs);
    var q, r := len / s, len % s;
    DivModDecompose(len, s);
    PrefixAt(st, c0, q, r, len, 0);
    if r == 0 {
      DivUpperBound(len, s, m);
      WholeClustersPrefix(st, c0, q, m, len);
    } else {
      if q >= m {
        MulMonotone(m, q, s);
      }
      PartClusterPrefix(st, c0, q, r, m, len);
    }
  }

  /** ChainPrefixIsPrefix when len ends a cluster: len = q * s, q <= m. */
  lemma WholeClustersPrefix(st: FsState, c0: U16, q: nat, m: nat, len: nat)
    requires GeometryOk(st.bs) && q <= m && len == q * ClusterSize(st.bs) && len <= m * ClusterSize(st.bs)
    ensures ChainBytes(st, c0, q) + ClusterData(st, ChainAt(st.fat, c0, q))[..0] == ChainBytes(st, c0, m)[..len]
  {
    var whole := ChainBytes(st, c0, q);
    ChainBytesPrefix(st, c0, q, m);
    assert whole + ClusterData(st, ChainAt(st.fat, c0, q))[..0] == whole;
  }

  /** ChainPrefixIsPrefix when len ends inside a cluster: len = q * s + r,
      0 < r < s, q < m. */
  lemma PartClusterPrefix(st: FsState, c0: U16, q: nat, r: nat, m: nat, len: nat)
    requires GeometryOk(st.bs) && q < m && 0 < r < ClusterSize(st.bs)
    requires len == q * ClusterSize(st.bs) + r && len <= m * ClusterSize(st.bs)
    ensures ChainBytes(st, c0, q) + ClusterData(st, ChainAt(st.fat, c0, q))[..r] == ChainBytes(st, c0, m)[..len]
  {
    var whole, data := ChainBytes(st, c0, q), ClusterData(st, ChainAt(st.fat, c0, q));
    var all, next := ChainBytes(st, c0, m), ChainBytes(st, c0, q + 1);
    ChainBytesPrefix(st, c0, q + 1, m);
    assert next == whole + data;
    assert all[..|next|] == next;
    assert all[..len] == next[..len];
    assert next[..len] == whole + data[..r];
  }

  // ------------------------------------------- the steps of read_file

  /** Every cluster read_file reads bytes from while emitting len bytes,
      the k-th of the chain with fewer than len bytes before its start, has
      a non-negative offset. */
  lemma ClusterSeekInRange(st: FsState, c0: U16, len: nat, k: nat)
    requires GeometryOk(st.bs) && ChainInRange(st, c0, len)
    requires k * ClusterSize(st.bs) < len
    ensures ClusterOffset(st.startSector, st.bs, ChainAt(st.fat, c0, k)) >= 0
  {
    ClusterSizePositive(st.bs);
    var s := ClusterSize(st.bs);
    DivLowerBound(len, s, k);
    DivModDecompose(len, s);
    assert ClusterInRange(st, c0, len, k);
  }

  /** A file with nothing to read is readable wherever its starting cluster
      lies, and read_file leaves the file where the seek to that cluster
      does: at its offset, or where it was when the offset is negative. */
  lemma EmptyFileReadable(st: FsState, e: DirEntry, pos0: int)
    requires GeometryOk(st.bs) && FileReadLength(st, e) == 0
    ensures FileReadable(st, e)
    ensures EndPosition(st, e.startingCluster, 0, pos0) ==
      SeekTo(pos0, ClusterOffset(st.startSector, st.bs, e.startingCluster))
  {
    ClusterSizePositive(st.bs);
  }

  /** An empty file at cluster 0 on a volume whose data starts at 2048,
      less than two 32 KiB clusters in: the seek to its cluster would be
      negative, nothing is read, and the file stays at pos0. */
  lemma EmptyFileAtClusterZero(image: seq<Byte>, fat: seq<U16>, pos0: int)
    ensures var st := FsState(image, 1, BootSector(512, 64, 1, 1, 16, 1), fat);
      var e := DirEntry([0x41, 0x20, 0x20, 0x20, 0x20, 0x20, 0x20, 0x20], [0x20, 0x20, 0x20], 0, 0, 0);
      && GeometryOk(st.bs)
      && ClusterOffset(1, st.bs, 0) == 2048 - 2 * 0x8000 < 0
      && FileReadLength(st, e) == 0
      && FileReadable(st, e)
      && EndPosition(st, 0, 0, pos0) == pos0
  {
    var st := FsState(image, 1, BootSector(512, 64, 1, 1, 16, 1), fat);
    var e := DirEntry([0x41, 0x20, 0x20, 0x20, 0x20, 0x20, 0x20, 0x20], [0x20, 0x20, 0x20], 0, 0, 0);
    EmptyReadsNothing(fat, 0, 0, ClusterSize(st.bs));
    EmptyFileReadable(st, e, pos0);
  }

  /** m = k * s + d bytes into the chain, d < s: k whole clusters and d
      bytes of the next are emitted, and the file is d bytes past the seek
      to the k-th cluster of the chain. */
  lemma PrefixAt(st: FsState, c0: U16, k: nat, d: nat, m: nat, pos0: int)
    requires GeometryOk(st.bs) && d < ClusterSize(st.bs) && m == k * ClusterSize(st.bs) + d
    ensures ChainPrefix(st, c0, m) == ChainBytes(st, c0, k) + ClusterData(st, ChainAt(st.fat, c0, k))[..d]
    ensures EndPosition(st, c0, m, pos0) ==
      SeekTo(PositionBefore(st, c0, k, pos0), ClusterOffset(st.startSector, st.bs, ChainAt(st.fat, c0, k))) + d
  {
    DivExact(m, ClusterSize(st.bs), k, d);
  }

  /** A chunk of b bytes, m = k * s + d bytes into the chain, that stays
      within len: its cluster has a non-negative offset, the chunk lies
      inside the image, and when it completes the cluster that cluster has
      a FAT entry. */
  lemma ChunkInRange(st: FsState, c0: U16, len: nat, k: nat, d: nat, m: nat, b: nat, pos0: int)
    requires GeometryOk(st.bs) && ChainInRange(st, c0, len)
    requires 0 < b && d + b <= ClusterSize(st.bs) && m == k * ClusterSize(st.bs) + d
    requires m + b <= len
    ensures ClusterOffset(st.startSector, st.bs, ChainAt(st.fat, c0, k)) >= 0
    ensures 0 <= EndPosition(st, c0, m, pos0) && EndPosition(st, c0, m, pos0) + b <= |st.image|
    ensures d + b == ClusterSize(st.bs) ==> ChainAt(st.fat, c0, k) < |st.fat|
  {
    ClusterSizePositive(st.bs);
    var s := ClusterSize(st.bs);
    PrefixAt(st, c0, k, d, m, pos0);
    DivLowerBound(len, s, k);
    assert ClusterInRange(st, c0, len, k);
    if d + b == s {
      assert (k + 1) * s == k * s + s;
      DivLowerBound(len, s, k + 1);
    } else if k == len / s {
      DivModDecompose(len, s);
    }
  }

  /** Appending the chunk read where m = k * s + d emitted bytes left the
      file gives the first m + |chunk| bytes; the file is then |chunk| bytes
      further on, or, when the chunk completes the cluster, where the seek
      to the cluster that follows it in the FAT takes it. */
  lemma ChunkExtendsPrefix(st: FsState, c0: U16, k: nat, d: nat, m: nat, chunk: seq<Byte>, pos0: int)
    requires GeometryOk(st.bs) && d < ClusterSize(st.bs) && d + |chunk| <= ClusterSize(st.bs)
    requires m == k * ClusterSize(st.bs) + d
    requires ClusterOffset(st.startSector, st.bs, ChainAt(st.fat, c0, k)) >= 0
    requires chunk == Window(st.image, EndPosition(st, c0, m, pos0), |chunk|)
    ensures ChainPrefix(st, c0, m) + chunk == ChainPrefix(st, c0, m + |chunk|)
    ensures d + |chunk| < ClusterSize(st.bs) ==>
      EndPosition(st, c0, m + |chunk|, pos0) == EndPosition(st, c0, m, pos0) + |chunk|
    ensures d + |chunk| == ClusterSize(st.bs) ==>
      EndPosition(st, c0, m + |chunk|, pos0) ==
        SeekTo(EndPosition(st, c0, m, pos0) + |chunk|, ClusterOffset(st.startSector, st.bs, Link(st.fat, ChainAt(st.fat, c0, k))))
  {
    var s := ClusterSize(st.bs);
    var c := ChainAt(st.fat, c0, k);
    var whole, data := ChainBytes(st, c0, k), ClusterData(st, c);
    PrefixAt(st, c0, k, d, m, pos0);
    WindowOfWindow(st.image, ClusterOffset(st.startSector, st.bs, c), s, d, d + |chunk|);
    AppendSlice(whole, data, d, chunk);
    if d + |chunk| < s {
      PrefixAt(st, c0, k, d + |chunk|, m + |chunk|, pos0);
    } else {
      ClusterCompleted(st, c0, k, m + |chunk|, pos0);
    }
  }

  /** Bytes d.. of a block appended to its first d bytes give a longer
      prefix of the block. */
  lemma AppendSlice(whole: seq<Byte>, data: seq<Byte>, d: nat, chunk: seq<Byte>)
    requires d + |chunk| <= |data| && data[d..d + |chunk|] == chunk
    ensures whole + data[..d] + chunk == whole + data[..d + |chunk|]
  {
    assert data[..d + |chunk|] == data[..d] + chunk;
  }

  /** (k + 1) * s bytes into the chain: k + 1 whole clusters are emitted,
      and the file is where the seek from the end of the k-th cluster to
      the cluster the FAT links after it takes it. */
  lemma ClusterCompleted(st: FsState, c0: U16, k: nat, m: nat, pos0: int)
    requires GeometryOk(st.bs) && m == k * ClusterSize(st.bs) + ClusterSize(st.bs)
    ensures var data := ClusterData(st, ChainAt(st.fat, c0, k));
      ChainPrefix(st, c0, m) == ChainBytes(st, c0, k) + data[..|data|]
    ensures EndPosition(st, c0, m, pos0) ==
      SeekTo(ClusterOffset(st.startSector, st.bs, ChainAt(st.fat, c0, k)) + ClusterSize(st.bs),
             ClusterOffset(st.startSector, st.bs, Link(st.fat, ChainAt(st.fat, c0, k))))
  {
    var s := ClusterSize(st.bs);
    ClusterSizePositive(st.bs);
    assert m == (k + 1) * s + 0;
    PrefixAt(st, c0, k + 1, 0, m, pos0);
    var data := ClusterData(st, ChainAt(st.fat, c0, k));
    var next := ChainBytes(st, c0, k + 1);
    assert next == ChainBytes(st, c0, k) + data;
    assert next + ClusterData(st, ChainAt(st.fat, c0, k + 1))[..0] == next;
    assert data[..|data|] == data;
  }
}
