// The on-disk format shared by the driver and the formatter (hellofs.h):
// constants, the three records and their byte images, and the region arithmetic.

module HelloFs {
  import opened Bytes

  const BITS_IN_BYTE: nat := 8
  const HELLOFS_MAGIC: nat := 0x20160105
  const DEFAULT_BLOCKSIZE: nat := 4096
  const DEFAULT_INODE_TABLE_SIZE: nat := 1024
  const DEFAULT_DATA_BLOCK_TABLE_SIZE: nat := 1024
  const FILENAME_MAXLEN: nat := 255

  const SUPERBLOCK_BLOCK_NO: nat := 0
  const INODE_BITMAP_BLOCK_NO: nat := 1
  const DATA_BLOCK_BITMAP_BLOCK_NO: nat := 2
  const INODE_TABLE_START_BLOCK_NO: nat := 3

  const ROOTDIR_INODE_NO: nat := 0
  /** Relative to the start of the data region, unlike a data block number. */
  const ROOTDIR_DATA_BLOCK_NO_OFFSET: nat := 0

  /** sizeof the three structures on an LP64 build. */
  const SUPERBLOCK_SIZE: nat := 56
  const INODE_SIZE: nat := 32
  const DIR_RECORD_SIZE: nat := 264
  /** Byte offset of inode_no inside a directory record (after filename and one byte of padding). */
  const DIR_RECORD_INO_OFFSET: nat := 256

  /** File-type bits of a mode, as <sys/stat.h> defines them on Linux. */
  const S_IFMT: nat := 0xF000
  const S_IFDIR: nat := 0x4000
  const S_IFREG: nat := 0x8000

  /** The file type of a mode: its bits 12 to 15, that is (mode & S_IFMT) >> 12. */
  function FileType(mode: nat): nat
  {
    (mode / 0x1000) % 16
  }

  predicate IsDir(mode: nat)
  {
    FileType(mode) == S_IFDIR / 0x1000
  }

  predicate IsReg(mode: nat)
  {
    FileType(mode) == S_IFREG / 0x1000
  }

  datatype Superblock = Superblock(
    version: u64,
    magic: u64,
    blocksize: u64,
    inodeTableSize: u64,
    inodeCount: u64,
    dataBlockTableSize: u64,
    dataBlockCount: u64)

  /** One inode record. The last field is the union of file_size (regular files)
      and dir_children_count (directories): one 64-bit value read either way. */
  datatype Inode = Inode(mode: u32, inodeNo: u64, dataBlockNo: u64, size: u64)
  {
    function FileSize(): u64 { size }
    function DirChildrenCount(): u64 { size }
  }

  function SuperblockFields(s: Superblock): (fs: seq<u64>)
  {
    [s.version, s.magic, s.blocksize, s.inodeTableSize, s.inodeCount,
     s.dataBlockTableSize, s.dataBlockCount]
  }

  function EncodeSuperblock(s: Superblock): (b: seq<byte>)
    ensures |b| == SUPERBLOCK_SIZE
  {
    U64s(SuperblockFields(s))
  }

  function DecodeSuperblock(b: seq<byte>): Superblock
    requires |b| == SUPERBLOCK_SIZE
  {
    var f := ReadU64s(b);
    Superblock(f[0], f[1], f[2], f[3], f[4], f[5], f[6])
  }

  lemma DecodeEncodeSuperblock(s: Superblock)
    ensures DecodeSuperblock(EncodeSuperblock(s)) == s
  {
    ReadU64sOfU64s(SuperblockFields(s));
  }

  /** Every 56 bytes are the image of the superblock they decode to: a superblock
      read from disk and written back unchanged rewrites the same bytes. */
  lemma EncodeDecodeSuperblock(b: seq<byte>)
    requires |b| == SUPERBLOCK_SIZE
    ensures EncodeSuperblock(DecodeSuperblock(b)) == b
  {
    var f := ReadU64s(b);
    assert SuperblockFields(DecodeSuperblock(b)) == f;
    U64sOfReadU64s(b);
  }

  /** The magic field sits in bytes [8, 16) of the superblock. */
  lemma SuperblockMagicField(b: seq<byte>)
    requires |b| == SUPERBLOCK_SIZE
    ensures DecodeSuperblock(b).magic == ReadU64(b, 8)
    ensures DecodeSuperblock(b).blocksize == ReadU64(b, 16)
  {
    assert b[8..] == b[8..][0..8] + b[8..][8..];
    assert ReadU64s(b)[1..] == ReadU64s(b[8..]);
    assert b[8..][0..8] == b[8..16];
    assert ReadU64s(b[8..])[1..] == ReadU64s(b[16..]);
    assert b[16..][0..8] == b[16..24];
  }

  /** mode_t takes four bytes, then four bytes of padding align inode_no. */
  function EncodeInode(i: Inode): (b: seq<byte>)
    ensures |b| == INODE_SIZE
  {
    U32Bytes(i.mode) + Zeros(4) + U64s([i.inodeNo, i.dataBlockNo, i.size])
  }

  function DecodeInode(b: seq<byte>): Inode
    requires |b| == INODE_SIZE
  {
    var f := ReadU64s(b[8..]);
    Inode(ReadU32(b, 0), f[0], f[1], f[2])
  }

  lemma DecodeEncodeInode(i: Inode)
    ensures DecodeInode(EncodeInode(i)) == i
  {
    var b := EncodeInode(i);
    assert b[0..4] == U32Bytes(i.mode) == U32Bytes(i.mode)[0..4];
    U32RoundTrip(i.mode);
    assert b[8..] == U64s([i.inodeNo, i.dataBlockNo, i.size]);
    ReadU64sOfU64s([i.inodeNo, i.dataBlockNo, i.size]);
  }

  /** A directory record: the name buffer (255 bytes), one byte of padding, inode_no. */
  function EncodeDirRecord(filename: seq<byte>, inodeNo: u64): (b: seq<byte>)
    requires |filename| == FILENAME_MAXLEN
    ensures |b| == DIR_RECORD_SIZE
  {
    filename + [0] + U64Bytes(inodeNo)
  }

  /** HELLOFS_INODES_PER_BLOCK_HSB: how many whole inode records fit in a block. */
  function InodesPerBlock(sb: Superblock): (n: nat)
    requires sb.blocksize >= INODE_SIZE
    ensures 1 <= n
    ensures n * INODE_SIZE <= sb.blocksize < (n + 1) * INODE_SIZE
  {
    sb.blocksize / INODE_SIZE
  }

  /** HELLOFS_DATA_BLOCK_TABLE_START_BLOCK_NO_HSB: the first block of the data region. */
  function DataStart(sb: Superblock): (b: nat)
    requires sb.blocksize >= INODE_SIZE
    ensures b > INODE_TABLE_START_BLOCK_NO
  {
    INODE_TABLE_START_BLOCK_NO + sb.inodeTableSize / InodesPerBlock(sb) + 1
  }
}
