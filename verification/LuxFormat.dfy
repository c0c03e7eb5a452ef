/** The on-disk layout of a LuxFS volume: constants, superblock, inodes and directory
    records, and the sectors they are written to. */
module LuxFormat {
  import opened Bytes

  const SECTOR_SIZE: nat := 512
  const MAGIC: u32 := 0x4C555846
  const VERSION: u32 := 1
  const START_LBA: u32 := 2048
  const TOTAL_SECTORS: nat := 4096
  const MAX_INODES: nat := 128
  const DIRECT_BLOCKS: nat := 8
  const MAX_PATH_DEPTH: nat := 8
  const INVALID_BLOCK: u32 := 0xFFFF_FFFF
  const NAME_MAX: nat := 32

  const SUPER_BLOCK: nat := 0
  const INODE_BITMAP_BLOCK: nat := 1
  const BLOCK_BITMAP_BLOCK: nat := 2
  const INODE_TABLE_START: nat := 3

  const INODE_BYTES: nat := 60
  const INODES_PER_BLOCK: nat := SECTOR_SIZE / INODE_BYTES
  const INODE_TABLE_BLOCKS: nat := (MAX_INODES + INODES_PER_BLOCK - 1) / INODES_PER_BLOCK
  const DATA_BLOCK_START: nat := INODE_TABLE_START + INODE_TABLE_BLOCKS
  const DATA_BLOCK_COUNT: nat := TOTAL_SECTORS - DATA_BLOCK_START
  const INODE_BITMAP_BYTES: nat := (MAX_INODES + 7) / 8
  const BLOCK_BITMAP_BYTES: nat := (DATA_BLOCK_COUNT + 7) / 8
  const MAX_FILE_SIZE: nat := DIRECT_BLOCKS * SECTOR_SIZE
  const RECORD_BYTES: nat := 36

  const NODE_FREE: byte := 0
  const NODE_DIR: byte := 1
  const NODE_FILE: byte := 2

  type Sector = s: seq<byte> | |s| == SECTOR_SIZE witness Zeros(SECTOR_SIZE)

  datatype Superblock = Superblock(
    magic: u32, version: u32, blockSize: u32, startLba: u32, totalSectors: u32,
    inodeTableStart: u32, inodeCount: u32, dataBlockStart: u32, dataBlockCount: u32, rootInode: u32)

  // `reserved` and `tail` are the struct's padding fields, kept as raw bytes.
  datatype RawInode = Inode(
    kind: byte, reserved: seq<byte>, size: u32, parent: u32, direct: seq<u32>, tail: seq<byte>)

  type Inode = n: RawInode |
    |n.reserved| == 3 && |n.direct| == DIRECT_BLOCKS && |n.tail| == 16
    witness Inode(NODE_FREE, Zeros(3), 0, 0, seq(DIRECT_BLOCKS, _ => 0), Zeros(16))

  datatype RawRecord = Record(inode: u32, name: seq<byte>)

  type Record = r: RawRecord | |r.name| == NAME_MAX witness Record(0, Zeros(NAME_MAX))

  // Superblock ------------------------------------------------------------------------

  function SuperWords(s: Superblock): (ws: seq<u32>)
    ensures |ws| == 10
  {
    [s.magic, s.version, s.blockSize, s.startLba, s.totalSectors,
     s.inodeTableStart, s.inodeCount, s.dataBlockStart, s.dataBlockCount, s.rootInode]
  }

  function SuperImage(s: Superblock): Sector {
    EncodeWords(SuperWords(s)) + Zeros(SECTOR_SIZE - 40)
  }

  function DecodeSuper(b: Sector): Superblock {
    var ws := DecodeWords(b[..40]);
    Superblock(ws[0], ws[1], ws[2], ws[3], ws[4], ws[5], ws[6], ws[7], ws[8], ws[9])
  }

  lemma SuperRoundTrip(s: Superblock)
    ensures DecodeSuper(SuperImage(s)) == s
  {
    assert SuperImage(s)[..40] == EncodeWords(SuperWords(s));
    WordsRoundTrip(SuperWords(s));
  }

  /** The fields of the superblock are its first ten words, in this order. */
  lemma SuperPlace(s: Superblock)
    ensures var b := SuperImage(s);
      && b[0..4] == EncodeU32(s.magic) && b[4..8] == EncodeU32(s.version) && b[8..12] == EncodeU32(s.blockSize)
      && b[12..16] == EncodeU32(s.startLba) && b[16..20] == EncodeU32(s.totalSectors)
      && b[20..24] == EncodeU32(s.inodeTableStart) && b[24..28] == EncodeU32(s.inodeCount)
      && b[28..32] == EncodeU32(s.dataBlockStart) && b[32..36] == EncodeU32(s.dataBlockCount)
      && b[36..40] == EncodeU32(s.rootInode)
  {
    SuperWord(s, 0);
    SuperWord(s, 1);
    SuperWord(s, 2);
    SuperWord(s, 3);
    SuperWord(s, 4);
    SuperWord(s, 5);
    SuperWord(s, 6);
    SuperWord(s, 7);
    SuperWord(s, 8);
    SuperWord(s, 9);
  }

  lemma SuperWord(s: Superblock, k: nat)
    requires k < 10
    ensures SuperImage(s)[4 * k..4 * k + 4] == EncodeU32(SuperWords(s)[k])
  {
    WordPlace(SuperWords(s), k);
    assert SuperImage(s)[4 * k..4 * k + 4] == EncodeWords(SuperWords(s))[4 * k..4 * k + 4];
  }

  /** The superblock that formatting writes. */
  const FRESH_SUPER: Superblock := Superblock(
    MAGIC, VERSION, SECTOR_SIZE, START_LBA, TOTAL_SECTORS,
    INODE_TABLE_START, MAX_INODES, DATA_BLOCK_START, DATA_BLOCK_COUNT, 0)

  /** luxfs_validate_superblock: every field but the root inode is compared. */
  predicate ValidSuper(s: Superblock) {
    && s.magic == MAGIC
    && s.version == VERSION
    && s.blockSize == SECTOR_SIZE
    && s.startLba == START_LBA
    && s.totalSectors == TOTAL_SECTORS
    && s.inodeTableStart == INODE_TABLE_START
    && s.inodeCount == MAX_INODES
    && s.dataBlockStart == DATA_BLOCK_START
    && s.dataBlockCount == DATA_BLOCK_COUNT
  }

  /** The geometry in numbers: which superblock is accepted, and what formatting writes. */
  lemma Geometry(s: Superblock)
    ensures ValidSuper(s) <==> s == Superblock(0x4C555846, 1, 512, 2048, 4096, 3, 128, 19, 4077, s.rootInode)
    ensures FRESH_SUPER == Superblock(0x4C555846, 1, 512, 2048, 4096, 3, 128, 19, 4077, 0)
    ensures INODES_PER_BLOCK == 8 && INODE_TABLE_BLOCKS == 16 && MAX_FILE_SIZE == 4096
  {
  }

  // Bitmaps -----------------------------------------------------------------------------

  function BitmapImage(bitmap: seq<byte>): Sector
    requires |bitmap| <= SECTOR_SIZE
  {
    bitmap + Zeros(SECTOR_SIZE - |bitmap|)
  }

  // Inodes ------------------------------------------------------------------------------

  function EncodeInode(n: Inode): (s: seq<byte>)
    ensures |s| == INODE_BYTES
  {
    [n.kind] + n.reserved + EncodeWords([n.size, n.parent] + n.direct) + n.tail
  }

  function DecodeInode(s: seq<byte>): Inode
    requires |s| == INODE_BYTES
  {
    var ws := DecodeWords(s[4..44]);
    Inode(s[0], s[1..4], ws[0], ws[1], ws[2..], s[44..60])
  }

  lemma InodeRoundTrip(n: Inode)
    ensures DecodeInode(EncodeInode(n)) == n
  {
    var s, ws := EncodeInode(n), EncodeWords([n.size, n.parent] + n.direct);
    var head := [n.kind] + n.reserved + ws;
    assert s == head + n.tail && |head| == 44 && |n.tail| == 16;
    assert s[44..] == n.tail;
    assert s[44..60] == s[44..];
    assert s[1..4] == n.reserved && s[4..44] == ws;
    WordsRoundTrip([n.size, n.parent] + n.direct);
  }

  /** Where the fields of an inode lie. */
  lemma InodePlace(n: Inode, k: nat)
    requires k < 8
    ensures var s := EncodeInode(n);
      && s[0] == n.kind && s[4..8] == EncodeU32(n.size) && s[8..12] == EncodeU32(n.parent)
      && s[12 + 4 * k..16 + 4 * k] == EncodeU32(n.direct[k])
  {
    InodeWord(n, 0);
    InodeWord(n, 1);
    InodeWord(n, k + 2);
  }

  lemma InodeWord(n: Inode, k: nat)
    requires k < 10
    ensures EncodeInode(n)[4 + 4 * k..8 + 4 * k] == EncodeU32(([n.size, n.parent] + n.direct)[k])
  {
    var ws := [n.size, n.parent] + n.direct;
    WordPlace(ws, k);
    InMiddle([n.kind] + n.reserved, EncodeWords(ws), n.tail, 4 * k);
  }

  lemma InMiddle(head: seq<byte>, middle: seq<byte>, tail: seq<byte>, j: nat)
    requires j + 4 <= |middle|
    ensures (head + middle + tail)[|head| + j..|head| + j + 4] == middle[j..j + 4]
  {
  }

  function EncodeInodes(ns: seq<Inode>): (s: seq<byte>)
    ensures |s| == INODE_BYTES * |ns|
  {
    if ns == [] then [] else EncodeInode(ns[0]) + EncodeInodes(ns[1..])
  }

  function DecodeInodes(s: seq<byte>): (ns: seq<Inode>)
    requires |s| % INODE_BYTES == 0
    ensures INODE_BYTES * |ns| == |s|
  {
    if s == [] then [] else [DecodeInode(s[..INODE_BYTES])] + DecodeInodes(s[INODE_BYTES..])
  }

  lemma {:induction false} InodesRoundTrip(ns: seq<Inode>)
    ensures DecodeInodes(EncodeInodes(ns)) == ns
  {
    if ns == [] {
    } else {
      var s := EncodeInodes(ns);
      assert s[..INODE_BYTES] == EncodeInode(ns[0]) && s[INODE_BYTES..] == EncodeInodes(ns[1..]);
      InodeRoundTrip(ns[0]);
      InodesRoundTrip(ns[1..]);
    }
  }

  /** The inode-table sector that holds inodes 8k .. 8k+7. */
  function TableImage(inodes: seq<Inode>, k: nat): Sector
    requires |inodes| == MAX_INODES && k < INODE_TABLE_BLOCKS
  {
    EncodeInodes(inodes[INODES_PER_BLOCK * k..INODES_PER_BLOCK * (k + 1)]) + Zeros(32)
  }

  function DecodeTable(b: Sector): (ns: seq<Inode>)
    ensures |ns| == INODES_PER_BLOCK
  {
    DecodeInodes(b[..480])
  }

  lemma TableRoundTrip(inodes: seq<Inode>, k: nat)
    requires |inodes| == MAX_INODES && k < INODE_TABLE_BLOCKS
    ensures DecodeTable(TableImage(inodes, k)) == inodes[INODES_PER_BLOCK * k..INODES_PER_BLOCK * (k + 1)]
  {
    var part := inodes[INODES_PER_BLOCK * k..INODES_PER_BLOCK * (k + 1)];
    assert TableImage(inodes, k)[..480] == EncodeInodes(part);
    InodesRoundTrip(part);
  }

  lemma {:induction false} InodesPlace(ns: seq<Inode>, j: nat)
    requires j < |ns|
    ensures EncodeInodes(ns)[60 * j..60 * j + 60] == EncodeInode(ns[j])
  {
    var s := EncodeInodes(ns);
    if j == 0 {
      assert s[..60] == EncodeInode(ns[0]);
    } else {
      InodesPlace(ns[1..], j - 1);
      SliceBehind(EncodeInode(ns[0]), EncodeInodes(ns[1..]), 60 * (j - 1), 60);
    }
  }

  lemma SliceBehind(a: seq<byte>, b: seq<byte>, j: nat, n: nat)
    requires j + n <= |b|
    ensures (a + b)[|a| + j..|a| + j + n] == b[j..j + n]
  {
  }

  /** Inode `j` of table sector `k` takes the 60 bytes from 60j on. */
  lemma TablePlace(inodes: seq<Inode>, k: nat, j: nat)
    requires |inodes| == MAX_INODES && k < 16 && j < 8
    ensures TableImage(inodes, k)[60 * j..60 * j + 60] == EncodeInode(inodes[8 * k + j])
  {
    var from, to := INODES_PER_BLOCK * k, INODES_PER_BLOCK * (k + 1);
    PartAt(inodes, from, to, j);
    ImageAt(inodes[from..to], j);
  }

  lemma ImageAt(part: seq<Inode>, j: nat)
    requires |part| == 8 && j < 8
    ensures (EncodeInodes(part) + Zeros(32))[60 * j..60 * j + 60] == EncodeInode(part[j])
  {
    InodesPlace(part, j);
    SliceBefore(EncodeInodes(part), Zeros(32), 60 * j, 60);
  }

  lemma PartAt(inodes: seq<Inode>, from: nat, to: nat, j: nat)
    requires from <= to <= |inodes| && from + j < to
    ensures inodes[from..to][j] == inodes[from + j]
  {
  }

  lemma SliceBefore(a: seq<byte>, b: seq<byte>, j: nat, n: nat)
    requires j + n <= |a|
    ensures (a + b)[j..j + n] == a[j..j + n]
  {
  }

  /** luxfs_inode_clear: the reserved fields keep their values. */
  function Cleared(n: Inode): Inode {
    Inode(NODE_FREE, n.reserved, 0, 0, seq(DIRECT_BLOCKS, _ => INVALID_BLOCK), n.tail)
  }

  // Directory records -------------------------------------------------------------------

  function EncodeRecord(r: Record): (s: seq<byte>)
    ensures |s| == RECORD_BYTES
  {
    EncodeWords([r.inode]) + r.name
  }

  function DecodeRecord(s: seq<byte>): Record
    requires |s| == RECORD_BYTES
  {
    Record(DecodeWords(s[..4])[0], s[4..])
  }

  lemma RecordRoundTrip(r: Record)
    ensures DecodeRecord(EncodeRecord(r)) == r
  {
    var s := EncodeRecord(r);
    assert s[..4] == EncodeWords([r.inode]) && s[4..] == r.name;
    WordsRoundTrip([r.inode]);
  }

  /** A record is the inode's number and the 32 bytes of the name field. */
  lemma RecordPlace(r: Record)
    ensures EncodeRecord(r)[..4] == EncodeU32(r.inode) && EncodeRecord(r)[4..] == r.name && |EncodeRecord(r)| == 36
  {
    WordPlace([r.inode], 0);
  }

  /** The bytes of a C string: those before its first NUL. */
  function CString(s: seq<byte>): (r: seq<byte>)
    ensures |r| <= |s| && r == s[..|r|] && NUL !in r
    ensures |r| < |s| ==> s[|r|] == NUL
  {
    if s == [] || s[0] == NUL then [] else [s[0]] + CString(s[1..])
  }

  /** A name as luxfs_copy_name leaves it in a zeroed record. */
  function NameField(name: seq<byte>): (r: seq<byte>)
    requires |name| < NAME_MAX
    ensures |r| == NAME_MAX
  {
    name + Zeros(NAME_MAX - |name|)
  }

  lemma {:induction false} CStringOfPadded(name: seq<byte>, n: nat)
    requires NUL !in name && n > 0
    ensures CString(name + Zeros(n)) == name
  {
    if name == [] {
      assert (name + Zeros(n))[0] == NUL;
    } else {
      assert (name + Zeros(n))[1..] == name[1..] + Zeros(n);
      CStringOfPadded(name[1..], n);
    }
  }

  lemma NameFieldRoundTrip(name: seq<byte>)
    requires |name| < NAME_MAX && NUL !in name
    ensures CString(NameField(name)) == name
  {
    CStringOfPadded(name, NAME_MAX - |name|);
  }
}
