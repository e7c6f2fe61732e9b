/** The decoded on-disk records the driver uses: a partition table entry,
    the boot sector (BPB) and a 32-byte directory entry. The C headers that
    declare them are not part of this model; the field offsets below are
    those of the standard MBR and FAT16 layouts. */
module Records {
  import opened Bytes

  datatype Option<T> = None | Some(value: T)

  /** Offset of the MBR partition table and the size of its entries. */
  const PARTITION_TABLE_OFFSET: nat := 0x1BE
  const PARTITION_ENTRY_SIZE: nat := 16
  const PARTITION_COUNT: nat := 4
  /** The fixed 512 used to turn the partition's start sector into bytes. */
  const MBR_SECTOR_SIZE: nat := 512
  /** sizeof(Fat16BootSector) in the usual packed layout. */
  const BOOT_SECTOR_SIZE: nat := 512
  /** sizeof(Fat16Entry): the stride of directory records. */
  const ENTRY_SIZE: nat := 32
  /** Attribute bit of a subdirectory entry. */
  const ATTR_SUBDIRECTORY: Byte := 0x10

  const SPACE: Byte := 0x20
  const DOT: Byte := 0x2E

  type Name8 = s: seq<Byte> | |s| == 8 witness [0, 0, 0, 0, 0, 0, 0, 0]
  type Ext3 = s: seq<Byte> | |s| == 3 witness [0, 0, 0]

  datatype PartitionEntry = PartitionEntry(partitionType: Byte, startSector: U32, lengthSectors: U32)

  datatype BootSector = BootSector(
    sectorSize: U16,
    sectorsPerCluster: Byte,
    reservedSectors: U16,
    numberOfFats: Byte,
    rootDirEntries: U16,
    fatSizeSectors: U16)

  datatype DirEntry = DirEntry(
    filename: Name8,
    ext: Ext3,
    attributes: Byte,
    startingCluster: U16,
    fileSize: U32)

  function DecodePartitionEntry(b: seq<Byte>): PartitionEntry
    requires |b| == PARTITION_ENTRY_SIZE
  {
    PartitionEntry(b[4], LE32(b, 8), LE32(b, 12))
  }

  /** The four entries read by one fread of 4 * 16 bytes. */
  function DecodePartitionTable(b: seq<Byte>): (pt: seq<PartitionEntry>)
    requires |b| == PARTITION_ENTRY_SIZE * PARTITION_COUNT
    ensures |pt| == PARTITION_COUNT
  {
    [ DecodePartitionEntry(b[0..16]), DecodePartitionEntry(b[16..32]),
      DecodePartitionEntry(b[32..48]), DecodePartitionEntry(b[48..64]) ]
  }

  function DecodeBootSector(b: seq<Byte>): BootSector
    requires |b| == BOOT_SECTOR_SIZE
  {
    BootSector(LE16(b, 11), b[13] as int, LE16(b, 14), b[16] as int, LE16(b, 17), LE16(b, 22))
  }

  function DecodeEntry(b: seq<Byte>): DirEntry
    requires |b| == ENTRY_SIZE
  {
    DirEntry(b[0..8], b[8..11], b[11], LE16(b, 26), LE32(b, 28))
  }

  /** The FAT buffer read as unsigned shorts; an odd trailing byte is not an entry. */
  function DecodeFat(b: seq<Byte>): (fat: seq<U16>)
    ensures |fat| == |b| / 2
    decreases |b|
  {
    if |b| < 2 then [] else [LE16(b, 0)] + DecodeFat(b[2..])
  }

  /** FAT entry i is the little-endian value of bytes 2i and 2i + 1. */
  lemma {:induction false} DecodeFatEntries(b: seq<Byte>, i: nat)
    requires i < |b| / 2
    ensures DecodeFat(b)[i] == LE16(b, 2 * i)
    decreases i
  {
    if i > 0 {
      DecodeFatEntries(b[2..], i - 1);
      assert b[2..][2 * (i - 1)] == b[2 * i];
      assert b[2..][2 * (i - 1) + 1] == b[2 * i + 1];
    }
  }

  /** (attributes & 0x10) > 0: bit 4 of the attribute byte is set. */
  predicate IsSubdirectory(attributes: Byte)
  {
    (attributes / ATTR_SUBDIRECTORY) % 2 == 1
  }

  /** A record whose first name byte is 0x00 was never used and is skipped. */
  predicate IsUsed(e: DirEntry)
  {
    e.filename[0] != 0
  }
}
