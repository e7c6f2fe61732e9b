/** Disk-layout arithmetic: where the boot sector, the FAT, the root
    directory and each data cluster start, as byte offsets into the image. */
module Layout {
  import opened Records

  /** Where the boot sector lives: 512 bytes per MBR sector, whatever the
      volume's own sector size. */
  function BootSectorOffset(startSector: nat): nat
  {
    MBR_SECTOR_SIZE * startSector
  }

  /** get_start_of_root_dir: past the boot sector record, then the remaining
      reserved sectors and every FAT copy. */
  function RootDirStart(startSector: nat, bs: BootSector): (r: int)
    ensures r == FormatRootDirOffset(startSector, bs) + BOOT_SECTOR_SIZE - bs.sectorSize
  {
    BootSectorOffset(startSector) + BOOT_SECTOR_SIZE
      + (bs.reservedSectors - 1 + bs.fatSizeSectors * bs.numberOfFats) * bs.sectorSize
  }

  /** The root directory offset as the FAT format defines it: reserved
      sectors and all FAT copies counted in the volume's own sector size. */
  function FormatRootDirOffset(startSector: nat, bs: BootSector): int
  {
    BootSectorOffset(startSector) + (bs.reservedSectors + bs.fatSizeSectors * bs.numberOfFats) * bs.sectorSize
  }

  /** The root region of move_to_cluster, rounded up to whole sectors. */
  function RootRegionSize(bs: BootSector): (r: int)
    requires bs.sectorSize > 0
    ensures r >= 0 && r % bs.sectorSize == 0
  {
    WholeSectors((bs.rootDirEntries * ENTRY_SIZE + bs.sectorSize - 1) / bs.sectorSize, bs.sectorSize);
    ((bs.rootDirEntries * ENTRY_SIZE + bs.sectorSize - 1) / bs.sectorSize) * bs.sectorSize
  }

  /** A whole number of sectors leaves no remainder. */
  lemma WholeSectors(q: int, s: nat)
    requires s > 0
    ensures (q * s) % s == 0
  {
    var k, m := (q * s) / s, (q * s) % s;
    assert (q - k) * s == m;
    if q - k >= 1 {
      assert false;
    } else if q - k <= -1 {
      assert false;
    }
  }

  /** First byte after the root region: where cluster 2 starts. */
  function DataStart(startSector: nat, bs: BootSector): int
    requires bs.sectorSize > 0
  {
    RootDirStart(startSector, bs) + RootRegionSize(bs)
  }

  /** size_of_cluster in read_file. */
  function ClusterSize(bs: BootSector): nat
  {
    bs.sectorsPerCluster * bs.sectorSize
  }

  /** move_to_cluster: the byte offset of a cluster's data. */
  function ClusterOffset(startSector: nat, bs: BootSector, cluster: int): (r: int)
    requires bs.sectorSize > 0
    ensures cluster >= 2 ==> r >= DataStart(startSector, bs)
  {
    DataStart(startSector, bs) + ((cluster - 2) * bs.sectorsPerCluster) * bs.sectorSize
  }

  /** Where init_fs's relative seek leaves the file: the FAT copy it reads. */
  function FatOffset(startSector: nat, bs: BootSector): (r: int)
    ensures r + FatBytes(bs) + SkippedFatBytes(bs) == RootDirStart(startSector, bs)
  {
    BootSectorOffset(startSector) + BOOT_SECTOR_SIZE + (bs.reservedSectors - 1) * bs.sectorSize
  }

  /** The bytes init_fs reads into the in-memory FAT: one copy. */
  function FatBytes(bs: BootSector): (r: nat)
    ensures bs.sectorSize > 0 ==> r % bs.sectorSize == 0
  {
    if bs.sectorSize == 0 then 0
    else WholeSectors(bs.fatSizeSectors, bs.sectorSize); bs.fatSizeSectors * bs.sectorSize
  }

  /** init_fs's last relative seek: past the FAT copies it did not read. */
  function SkippedFatBytes(bs: BootSector): (r: int)
    ensures bs.numberOfFats >= 1 ==> r >= 0
    ensures bs.numberOfFats == 1 ==> r == 0
  {
    (bs.fatSizeSectors * (bs.numberOfFats - 1)) * bs.sectorSize
  }

  /** The chain of seeks in init_fs — the boot sector record, the rest of the
      reserved area, one FAT copy, the other copies — ends exactly where
      get_start_of_root_dir says the root directory is. */
  lemma InitSeeksReachRoot(startSector: nat, bs: BootSector)
    ensures FatOffset(startSector, bs) + FatBytes(bs) + SkippedFatBytes(bs) == RootDirStart(startSector, bs)
    ensures FatOffset(startSector, bs) <= RootDirStart(startSector, bs)
  {
    var f: int, n: int, ss: int := bs.fatSizeSectors, bs.numberOfFats, bs.sectorSize;
    assert (f * n) * ss >= 0;
    calc {
      FatBytes(bs) + SkippedFatBytes(bs);
      f * ss + (f * (n - 1)) * ss;
      { assert f * (n - 1) == f * n - f; }
      f * ss + (f * n - f) * ss;
      (f * n) * ss;
    }
  }

  /** The root offset of the code agrees with the format's definition
      exactly when sectors are 512 bytes: the code counts the boot sector
      record (512 bytes) in place of the first reserved sector. */
  lemma RootDirStartMatchesFormat(startSector: nat, bs: BootSector)
    ensures RootDirStart(startSector, bs) == FormatRootDirOffset(startSector, bs) <==> bs.sectorSize == 512
  {
    var r: int, fn: int, ss: int := bs.reservedSectors, bs.fatSizeSectors * bs.numberOfFats, bs.sectorSize;
    assert (r - 1 + fn) * ss == (r + fn) * ss - ss;
  }

  /** The root region covers every root record and pads by less than one sector. */
  lemma RootRegionBounds(bs: BootSector)
    requires bs.sectorSize > 0
    ensures bs.rootDirEntries * ENTRY_SIZE <= RootRegionSize(bs) < bs.rootDirEntries * ENTRY_SIZE + bs.sectorSize
  {
    var a: int, ss: int := bs.rootDirEntries * ENTRY_SIZE, bs.sectorSize;
    var q := (a + ss - 1) / ss;
    assert a + ss - 1 == q * ss + (a + ss - 1) % ss;
    assert q * ss <= a + ss - 1 < q * ss + ss;
  }

  /** Cluster 2, the first data cluster, starts right after the root region. */
  lemma FirstClusterAtDataStart(startSector: nat, bs: BootSector)
    requires bs.sectorSize > 0
    ensures ClusterOffset(startSector, bs, 2) == RootDirStart(startSector, bs) + RootRegionSize(bs)
  {
  }

  /** Consecutive cluster numbers are exactly one cluster apart. */
  lemma ConsecutiveClusters(startSector: nat, bs: BootSector, cluster: int)
    requires bs.sectorSize > 0
    ensures ClusterOffset(startSector, bs, cluster + 1) == ClusterOffset(startSector, bs, cluster) + ClusterSize(bs)
  {
    var spc: int, ss: int := bs.sectorsPerCluster, bs.sectorSize;
    assert (cluster + 1 - 2) * spc == (cluster - 2) * spc + spc;
    assert ((cluster - 2) * spc + spc) * ss == ((cluster - 2) * spc) * ss + spc * ss;
  }

  /** A cluster's offset is the data start plus a whole number of clusters. */
  lemma ClusterOffsetIsLinear(startSector: nat, bs: BootSector, cluster: int)
    requires bs.sectorSize > 0
    ensures ClusterOffset(startSector, bs, cluster) == DataStart(startSector, bs) + (cluster - 2) * ClusterSize(bs)
  {
    var spc: int, ss: int := bs.sectorsPerCluster, bs.sectorSize;
    assert ((cluster - 2) * spc) * ss == (cluster - 2) * (spc * ss);
  }

  /** A volume with 512-byte sectors, 4 sectors per cluster, 1 reserved
      sector, 2 FATs of 32 sectors and 512 root entries, at sector 2048:
      boot sector at 1048576, FAT at 1049088, root directory at 1081856,
      cluster 2 at 1098240. */
  lemma ExampleGeometry()
    ensures var bs := BootSector(512, 4, 1, 2, 512, 32);
      && BootSectorOffset(2048) == 1048576
      && FatOffset(2048, bs) == 1049088
      && RootDirStart(2048, bs) == 1081856
      && DataStart(2048, bs) == 1098240
      && ClusterOffset(2048, bs, 2) == 1098240
      && ClusterOffset(2048, bs, 3) == 1100288
  {
  }
}
