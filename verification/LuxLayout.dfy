/** How the metadata in memory and the sectors on disk represent a volume: which block belongs
    to which inode, what bytes an inode stores, and when the metadata is consistent. */
module LuxLayout {
  import opened Bytes
  import opened Bitmap
  import opened LuxFormat
  import opened SectorDisk
  import opened Wrappers
  import opened LuxVolume

  datatype Meta = Meta(
    super: Superblock, inodes: seq<Inode>, inodeBitmap: seq<byte>, blockBitmap: seq<byte>)

  predicate WellSized(m: Meta) {
    && |m.inodes| == MAX_INODES
    && |m.inodeBitmap| == INODE_BITMAP_BYTES
    && |m.blockBitmap| == BLOCK_BITMAP_BYTES
  }

  // What an inode stores ---------------------------------------------------------------------

  /** Byte `p` of the inode's data; a byte of an unallocated block counts as zero. */
  function ByteAt(n: Inode, sectors: Sectors, p: nat): byte
    requires p < MAX_FILE_SIZE
  {
    var b := n.direct[p / SECTOR_SIZE];
    if b < DATA_BLOCK_COUNT then sectors[DATA_BLOCK_START + b][p % SECTOR_SIZE] else NUL
  }

  function Slice(n: Inode, sectors: Sectors, from: nat, count: nat): (s: seq<byte>)
    requires from + count <= MAX_FILE_SIZE
    ensures |s| == count
  {
    seq(count, t requires 0 <= t < count => ByteAt(n, sectors, from + t))
  }

  function SizeOf(n: Inode): (size: nat)
    ensures size <= MAX_FILE_SIZE
  {
    if n.size <= MAX_FILE_SIZE then n.size else MAX_FILE_SIZE
  }

  function RecordAt(n: Inode, sectors: Sectors, r: nat): Record
    requires RECORD_BYTES * (r + 1) <= MAX_FILE_SIZE
  {
    DecodeRecord(Slice(n, sectors, RECORD_BYTES * r, RECORD_BYTES))
  }

  function Records(n: Inode, sectors: Sectors): (rs: seq<Record>)
    ensures |rs| == SizeOf(n) / RECORD_BYTES
  {
    seq(SizeOf(n) / RECORD_BYTES, r requires 0 <= r < SizeOf(n) / RECORD_BYTES => RecordAt(n, sectors, r))
  }

  function FileContents(n: Inode, sectors: Sectors): (c: Contents)
    ensures |c| == SizeOf(n)
  {
    seq(SizeOf(n), p requires 0 <= p < SizeOf(n) =>
      if n.direct[p / SECTOR_SIZE] == INVALID_BLOCK then None else Some(ByteAt(n, sectors, p)))
  }

  function NodeOf(n: Inode, sectors: Sectors): Node {
    if n.kind == NODE_DIR then Dir(n.parent, Records(n, sectors))
    else if n.kind == NODE_FILE then File(n.parent, FileContents(n, sectors))
    else Free
  }

  function VolumeOf(inodes: seq<Inode>, sectors: Sectors): Volume
    requires |inodes| == MAX_INODES
  {
    seq(MAX_INODES, i requires 0 <= i < MAX_INODES => NodeOf(inodes[i], sectors))
  }

  /** An inode's node depends only on the data blocks it points to. */
  lemma NodeFrame(n: Inode, s: Sectors, t: Sectors)
    requires forall k :: 0 <= k < DIRECT_BLOCKS && n.direct[k] < DATA_BLOCK_COUNT ==>
               s[DATA_BLOCK_START + n.direct[k]] == t[DATA_BLOCK_START + n.direct[k]]
    ensures NodeOf(n, s) == NodeOf(n, t)
    ensures forall p :: 0 <= p < MAX_FILE_SIZE ==> ByteAt(n, s, p) == ByteAt(n, t, p)
  {
    forall p | 0 <= p < MAX_FILE_SIZE ensures ByteAt(n, s, p) == ByteAt(n, t, p) {
      assert n.direct[p / SECTOR_SIZE] < DATA_BLOCK_COUNT ==>
          s[DATA_BLOCK_START + n.direct[p / SECTOR_SIZE]] == t[DATA_BLOCK_START + n.direct[p / SECTOR_SIZE]];
    }
    assert FileContents(n, s) == FileContents(n, t);
    forall r | 0 <= r < SizeOf(n) / RECORD_BYTES ensures RecordAt(n, s, r) == RecordAt(n, t, r) {
      assert Slice(n, s, RECORD_BYTES * r, RECORD_BYTES) == Slice(n, t, RECORD_BYTES * r, RECORD_BYTES);
    }
    assert Records(n, s) == Records(n, t);
  }


  // Block ownership ------------------------------------------------------------------------------

  /** Slot `k` of inode `i`. */
  function Ptr(inodes: seq<Inode>, i: nat, k: nat): u32
    requires i < |inodes| && k < DIRECT_BLOCKS
  {
    inodes[i].direct[k]
  }

  /** Direct pointers in use are in range, marked in the bitmap, and all different. */
  ghost predicate Ownership(inodes: seq<Inode>, bitmap: seq<byte>)
    requires |bitmap| == BLOCK_BITMAP_BYTES
  {
    && (forall i, k {:trigger Ptr(inodes, i, k)} ::
          0 <= i < |inodes| && 0 <= k < DIRECT_BLOCKS && Ptr(inodes, i, k) != INVALID_BLOCK ==>
          Ptr(inodes, i, k) < DATA_BLOCK_COUNT && Bit(bitmap, Ptr(inodes, i, k)))
    && (forall i, k, j, l {:trigger Ptr(inodes, i, k), Ptr(inodes, j, l)} ::
          0 <= i < |inodes| && 0 <= k < DIRECT_BLOCKS && 0 <= j < |inodes| && 0 <= l < DIRECT_BLOCKS
          && Ptr(inodes, i, k) == Ptr(inodes, j, l) && Ptr(inodes, i, k) != INVALID_BLOCK ==>
          i == j && k == l)
  }

  ghost predicate Owned(inodes: seq<Inode>, b: nat) {
    exists i, k {:trigger Ptr(inodes, i, k)} ::
      0 <= i < |inodes| && 0 <= k < DIRECT_BLOCKS && Ptr(inodes, i, k) == b
  }

  /** Every marked block belongs to some inode. */
  ghost predicate NoLeak(inodes: seq<Inode>, bitmap: seq<byte>)
    requires |bitmap| == BLOCK_BITMAP_BYTES
  {
    forall b :: 0 <= b < DATA_BLOCK_COUNT && Bit(bitmap, b) ==> Owned(inodes, b)
  }

  /** Together: the bitmap marks exactly the owned blocks. */
  lemma MarkedIffOwned(inodes: seq<Inode>, bitmap: seq<byte>, b: nat)
    requires |bitmap| == BLOCK_BITMAP_BYTES && b < DATA_BLOCK_COUNT
    requires Ownership(inodes, bitmap) && NoLeak(inodes, bitmap)
    ensures Bit(bitmap, b) <==> Owned(inodes, b)
  {
  }

  function WithBlock(n: Inode, k: nat, b: u32): Inode
    requires k < DIRECT_BLOCKS
  {
    n.(direct := n.direct[k := b])
  }

  /** Giving a fresh block to an empty slot keeps ownership, and leaks nothing. */
  lemma AssignBlock(inodes: seq<Inode>, bitmap: seq<byte>, i: nat, k: nat, b: u32)
    requires |bitmap| == BLOCK_BITMAP_BYTES && i < |inodes| && k < DIRECT_BLOCKS && b < DATA_BLOCK_COUNT
    requires Ownership(inodes, bitmap) && !Bit(bitmap, b) && inodes[i].direct[k] == INVALID_BLOCK
    ensures Ownership(inodes[i := WithBlock(inodes[i], k, b)], Put(bitmap, b, true))
    ensures NoLeak(inodes, bitmap) ==> NoLeak(inodes[i := WithBlock(inodes[i], k, b)], Put(bitmap, b, true))
  {
    var after := inodes[i := WithBlock(inodes[i], k, b)];
    var marked := Put(bitmap, b, true);
    forall c: nat | c < DATA_BLOCK_COUNT ensures Bit(marked, c) == (c == b || Bit(bitmap, c)) {
      PutBitOnly(bitmap, b, true, c);
    }
    forall j, l | 0 <= j < |inodes| && 0 <= l < DIRECT_BLOCKS
      ensures Ptr(after, j, l) == if j == i && l == k then b else Ptr(inodes, j, l)
    {
    }
    if NoLeak(inodes, bitmap) {
      forall c | 0 <= c < DATA_BLOCK_COUNT && Bit(marked, c) ensures Owned(after, c) {
        if c == b {
          assert Ptr(after, i, k) == c;
        } else {
          assert Owned(inodes, c);
          var j, l :| 0 <= j < |inodes| && 0 <= l < DIRECT_BLOCKS && Ptr(inodes, j, l) == c;
          assert Ptr(after, j, l) == c;
        }
      }
    }
  }

  /** Marking a block that is then lost (its bitmap write failed) keeps ownership. */
  lemma MarkOnly(inodes: seq<Inode>, bitmap: seq<byte>, b: nat)
    requires |bitmap| == BLOCK_BITMAP_BYTES && b < DATA_BLOCK_COUNT
    requires Ownership(inodes, bitmap)
    ensures Ownership(inodes, Put(bitmap, b, true))
  {
    forall c: nat | c < DATA_BLOCK_COUNT ensures Bit(Put(bitmap, b, true), c) == (c == b || Bit(bitmap, c)) {
      PutBitOnly(bitmap, b, true, c);
    }
  }

  function NoBlocks(): seq<u32> {
    seq(DIRECT_BLOCKS, _ => INVALID_BLOCK)
  }

  /** luxfs_release_inode_blocks, on the inode itself. */
  function Emptied(n: Inode): Inode {
    n.(direct := NoBlocks(), size := 0)
  }

  ghost predicate PointsTo(n: Inode, b: nat) {
    exists k :: 0 <= k < DIRECT_BLOCKS && n.direct[k] == b
  }

  lemma NotShared(inodes: seq<Inode>, bitmap: seq<byte>, i: nat, j: nat, l: nat)
    requires |bitmap| == BLOCK_BITMAP_BYTES && Ownership(inodes, bitmap)
    requires i < |inodes| && j < |inodes| && i != j && l < DIRECT_BLOCKS && Ptr(inodes, j, l) != INVALID_BLOCK
    ensures !PointsTo(inodes[i], Ptr(inodes, j, l))
  {
    forall k | 0 <= k < DIRECT_BLOCKS ensures inodes[i].direct[k] != Ptr(inodes, j, l) {
      assert Ptr(inodes, i, k) == inodes[i].direct[k];
    }
  }

  /** Releasing an inode's blocks keeps ownership, and leaks nothing. */
  lemma ReleaseBlocks(inodes: seq<Inode>, bitmap: seq<byte>, i: nat, freed: seq<byte>)
    requires |bitmap| == BLOCK_BITMAP_BYTES == |freed| && i < |inodes|
    requires Ownership(inodes, bitmap)
    requires forall b :: 0 <= b < DATA_BLOCK_COUNT ==> Bit(freed, b) == (Bit(bitmap, b) && !PointsTo(inodes[i], b))
    ensures Ownership(inodes[i := Emptied(inodes[i])], freed)
    ensures NoLeak(inodes, bitmap) ==> NoLeak(inodes[i := Emptied(inodes[i])], freed)
  {
    var after := inodes[i := Emptied(inodes[i])];
    forall j, l | 0 <= j < |inodes| && 0 <= l < DIRECT_BLOCKS
      ensures Ptr(after, j, l) == if j == i then INVALID_BLOCK else Ptr(inodes, j, l)
      ensures j != i && Ptr(inodes, j, l) != INVALID_BLOCK ==> !PointsTo(inodes[i], Ptr(inodes, j, l))
    {
      if j != i && Ptr(inodes, j, l) != INVALID_BLOCK {
        NotShared(inodes, bitmap, i, j, l);
      }
    }
    if NoLeak(inodes, bitmap) {
      forall c | 0 <= c < DATA_BLOCK_COUNT && Bit(freed, c) ensures Owned(after, c) {
        assert Owned(inodes, c);
        var j, l :| 0 <= j < |inodes| && 0 <= l < DIRECT_BLOCKS && Ptr(inodes, j, l) == c;
        assert inodes[j].direct[l] == c;
        assert j != i;
        assert Ptr(after, j, l) == c;
      }
    }
  }

  // Storing bytes ------------------------------------------------------------------------------------

  /** The inode's data with `data` laid over it at `offset`; blocks are allocated where needed
      and nothing else changes. */
  ghost predicate Overlaid(n0: Inode, s0: Sectors, n: Inode, s: Sectors, offset: nat, data: seq<byte>) {
    && n == n0.(direct := n.direct)
    && (forall k :: 0 <= k < DIRECT_BLOCKS ==>
          (n.direct[k] != INVALID_BLOCK <==> n0.direct[k] != INVALID_BLOCK || Touched(offset, |data|, k)))
    && (forall p :: 0 <= p < MAX_FILE_SIZE ==>
          ByteAt(n, s, p) == if offset <= p < offset + |data| then data[p - offset] else ByteAt(n0, s0, p))
  }


  lemma TouchedConcat(offset: nat, a: nat, b: nat, k: nat)
    ensures Touched(offset, a + b, k) <==> Touched(offset, a, k) || Touched(offset + a, b, k)
  {
  }

  /** Two adjacent overlays are one. */
  lemma OverlaidConcat(n0: Inode, s0: Sectors, n1: Inode, s1: Sectors, n2: Inode, s2: Sectors,
                       offset: nat, a: seq<byte>, b: seq<byte>)
    requires Overlaid(n0, s0, n1, s1, offset, a)
    requires Overlaid(n1, s1, n2, s2, offset + |a|, b)
    ensures Overlaid(n0, s0, n2, s2, offset, a + b)
  {
    forall k | 0 <= k < DIRECT_BLOCKS
      ensures n2.direct[k] != INVALID_BLOCK <==> n0.direct[k] != INVALID_BLOCK || Touched(offset, |a + b|, k)
    {
      TouchedConcat(offset, |a|, |b|, k);
    }
  }

  function Patch(buffer: Sector, at: nat, piece: seq<byte>): Sector
    requires at + |piece| <= SECTOR_SIZE
  {
    buffer[..at] + piece + buffer[at + |piece|..]
  }

  /** A non-empty piece at `offset` that ends inside the block it starts in. */
  predicate InOneBlock(offset: nat, piece: seq<byte>) {
    offset < MAX_FILE_SIZE && piece != [] && offset % SECTOR_SIZE + |piece| <= SECTOR_SIZE
  }

  lemma OnlyBlockTouched(offset: nat, piece: seq<byte>, l: nat)
    requires InOneBlock(offset, piece)
    ensures Touched(offset, |piece|, l) <==> l == offset / SECTOR_SIZE
  {
    assert (offset + |piece| - 1) / SECTOR_SIZE == offset / SECTOR_SIZE;
  }

  lemma PatchedByte(buffer: Sector, offset: nat, piece: seq<byte>, p: nat)
    requires InOneBlock(offset, piece) && p / SECTOR_SIZE == offset / SECTOR_SIZE
    ensures Patch(buffer, offset % SECTOR_SIZE, piece)[p % SECTOR_SIZE] ==
            if offset <= p < offset + |piece| then piece[p - offset] else buffer[p % SECTOR_SIZE]
  {
    assert p % SECTOR_SIZE - offset % SECTOR_SIZE == p - offset;
  }

  /** The sectors with `piece` written into the inode's block at `offset`. */
  function Patched(s: Sectors, n: Inode, offset: nat, piece: seq<byte>): Sectors
    requires InOneBlock(offset, piece) && n.direct[offset / SECTOR_SIZE] < DATA_BLOCK_COUNT
  {
    var x := DATA_BLOCK_START + n.direct[offset / SECTOR_SIZE];
    s[x := Patch(s[x], offset % SECTOR_SIZE, piece)]
  }

  /** Rewriting part of an allocated block. */
  lemma PatchExisting(n: Inode, s: Sectors, offset: nat, piece: seq<byte>)
    requires InOneBlock(offset, piece)
    requires var k := offset / SECTOR_SIZE;
      n.direct[k] < DATA_BLOCK_COUNT && forall l :: 0 <= l < DIRECT_BLOCKS && l != k ==> n.direct[l] != n.direct[k]
    ensures Overlaid(n, s, n, Patched(s, n, offset, piece), offset, piece)
  {
    var k := offset / SECTOR_SIZE;
    var x := DATA_BLOCK_START + n.direct[k];
    var t := Patched(s, n, offset, piece);
    forall l | 0 <= l < DIRECT_BLOCKS ensures Touched(offset, |piece|, l) <==> l == k {
      OnlyBlockTouched(offset, piece, l);
    }
    forall p | 0 <= p < MAX_FILE_SIZE
      ensures ByteAt(n, t, p) == if offset <= p < offset + |piece| then piece[p - offset] else ByteAt(n, s, p)
    {
      if p / SECTOR_SIZE == k {
        PatchedByte(s[x], offset, piece, p);
      }
    }
  }

  /** Filling a newly assigned block: zeros around the piece. */
  lemma PatchNew(n: Inode, s: Sectors, b: u32, offset: nat, piece: seq<byte>, t: Sectors)
    requires InOneBlock(offset, piece) && n.direct[offset / SECTOR_SIZE] == INVALID_BLOCK && b < DATA_BLOCK_COUNT
    requires forall l :: 0 <= l < DIRECT_BLOCKS ==> n.direct[l] != b
    requires t[DATA_BLOCK_START + b] == Patch(Zeros(SECTOR_SIZE), offset % SECTOR_SIZE, piece)
    requires forall x :: DATA_BLOCK_START <= x < TOTAL_SECTORS && x != DATA_BLOCK_START + b ==> t[x] == s[x]
    ensures Overlaid(n, s, WithBlock(n, offset / SECTOR_SIZE, b), t, offset, piece)
  {
    var k := offset / SECTOR_SIZE;
    var n1 := WithBlock(n, k, b);
    forall l | 0 <= l < DIRECT_BLOCKS ensures Touched(offset, |piece|, l) <==> l == k {
      OnlyBlockTouched(offset, piece, l);
    }
    forall p | 0 <= p < MAX_FILE_SIZE
      ensures ByteAt(n1, t, p) == if offset <= p < offset + |piece| then piece[p - offset] else ByteAt(n, s, p)
    {
      if p / SECTOR_SIZE == k {
        PatchedByte(Zeros(SECTOR_SIZE), offset, piece, p);
      }
    }
  }

  /** Writing one inode's block leaves every other inode's data alone. */
  lemma OthersUntouched(inodes: seq<Inode>, bitmap: seq<byte>, i: nat, k: nat, s: Sectors, buffer: Sector, j: nat)
    requires |bitmap| == BLOCK_BITMAP_BYTES && Ownership(inodes, bitmap)
    requires i < |inodes| && j < |inodes| && i != j && k < DIRECT_BLOCKS && inodes[i].direct[k] < DATA_BLOCK_COUNT
    ensures NodeOf(inodes[j], s[DATA_BLOCK_START + inodes[i].direct[k] := buffer]) == NodeOf(inodes[j], s)
  {
    var b := Ptr(inodes, i, k);
    forall l | 0 <= l < DIRECT_BLOCKS && inodes[j].direct[l] < DATA_BLOCK_COUNT ensures inodes[j].direct[l] != b {
      assert Ptr(inodes, j, l) == inodes[j].direct[l];
    }
    NodeFrame(inodes[j], s[DATA_BLOCK_START + b := buffer], s);
  }

  /** A file over which `data` was laid, with its size raised if need be, holds `Written`. */
  lemma OverlaidFile(n0: Inode, s0: Sectors, n: Inode, s: Sectors, offset: nat, data: seq<byte>, size: u32)
    requires Overlaid(n0, s0, n, s, offset, data)
    requires n0.size <= MAX_FILE_SIZE && offset + |data| <= MAX_FILE_SIZE && size == Max(n0.size, offset + |data|)
    requires offset <= n0.size || (n0.size == 0 && forall k :: 0 <= k < DIRECT_BLOCKS ==> n0.direct[k] == INVALID_BLOCK)
    ensures FileContents(n.(size := size), s) == Written(FileContents(n0, s0), offset, data)
  {
    var m := n.(size := size);
    var c, w := FileContents(m, s), Written(FileContents(n0, s0), offset, data);
    forall p | 0 <= p < |c| ensures c[p] == w[p] {
      assert ByteAt(m, s, p) == ByteAt(n, s, p);
    }
  }

  /** A write that stopped early: the size is the old one, the bytes laid so far are there. */
  lemma OverlaidPartly(n0: Inode, s0: Sectors, n: Inode, s: Sectors, offset: nat, data: seq<byte>)
    requires Overlaid(n0, s0, n, s, offset, data)
    requires n0.size <= MAX_FILE_SIZE && offset + |data| <= MAX_FILE_SIZE
    ensures FileContents(n, s) == Written(FileContents(n0, s0), offset, data)[..n0.size]
  {
    var c, w := FileContents(n, s), Written(FileContents(n0, s0), offset, data);
    forall p | 0 <= p < |c| ensures c[p] == w[p] {
    }
  }

  /** A directory over which a record was laid at its end holds one more record. */
  lemma OverlaidDirectory(n0: Inode, s0: Sectors, n: Inode, s: Sectors, rec: Record, data: seq<byte>)
    requires n0.size % RECORD_BYTES == 0 && n0.size + RECORD_BYTES <= MAX_FILE_SIZE
    requires data == EncodeRecord(rec) && Overlaid(n0, s0, n, s, n0.size, data)
    ensures Records(n.(size := n0.size + RECORD_BYTES), s) == Records(n0, s0) + [rec]
  {
    var m: Inode := n.(size := n0.size + RECORD_BYTES);
    var count := n0.size / RECORD_BYTES;
    SameRecords(n0, s0, n, s, m, data);
    NewSlice(n0, s0, n, s, m, data);
    SliceIsRecord(m, s, count, rec);
    OneMore(Records(n0, s0), Records(m, s), rec);
  }

  lemma OneMore(before: seq<Record>, more: seq<Record>, rec: Record)
    requires |more| == |before| + 1 && more[|before|] == rec
    requires forall r :: 0 <= r < |before| ==> more[r] == before[r]
    ensures more == before + [rec]
  {
  }

  lemma SliceIsRecord(n: Inode, s: Sectors, r: nat, rec: Record)
    requires RECORD_BYTES * (r + 1) <= MAX_FILE_SIZE
    requires Slice(n, s, RECORD_BYTES * r, RECORD_BYTES) == EncodeRecord(rec)
    ensures RecordAt(n, s, r) == rec
  {
    RecordRoundTrip(rec);
  }

  lemma NewSlice(n0: Inode, s0: Sectors, n: Inode, s: Sectors, m: Inode, data: seq<byte>)
    requires n0.size + |data| <= MAX_FILE_SIZE && m.direct == n.direct
    requires Overlaid(n0, s0, n, s, n0.size, data)
    ensures Slice(m, s, n0.size, |data|) == data
  {
    var last := Slice(m, s, n0.size, |data|);
    forall t | 0 <= t < |data| ensures last[t] == data[t] {
      assert ByteAt(m, s, n0.size + t) == ByteAt(n, s, n0.size + t);
    }
  }

  /** The records inside the old size are the same. */
  lemma SameRecords(n0: Inode, s0: Sectors, n: Inode, s: Sectors, m: Inode, data: seq<byte>)
    requires n0.size <= MAX_FILE_SIZE && m.direct == n.direct && n0.size <= m.size
    requires Overlaid(n0, s0, n, s, n0.size, data)
    ensures forall r :: 0 <= r < n0.size / RECORD_BYTES ==> Records(m, s)[r] == Records(n0, s0)[r]
  {
    forall r | 0 <= r < n0.size / RECORD_BYTES ensures Records(m, s)[r] == Records(n0, s0)[r] {
      SameSlice(n0, s0, n, s, m, data, RECORD_BYTES * r, RECORD_BYTES);
    }
  }

  lemma SameSlice(n0: Inode, s0: Sectors, n: Inode, s: Sectors, m: Inode, data: seq<byte>, from: nat, count: nat)
    requires from + count <= n0.size <= MAX_FILE_SIZE && m.direct == n.direct
    requires Overlaid(n0, s0, n, s, n0.size, data)
    ensures Slice(m, s, from, count) == Slice(n0, s0, from, count)
  {
    var a, b := Slice(m, s, from, count), Slice(n0, s0, from, count);
    forall t | 0 <= t < count ensures a[t] == b[t] {
      assert ByteAt(m, s, from + t) == ByteAt(n, s, from + t);
    }
  }

  /** A directory whose bytes inside its size are the same holds the same records. */
  lemma OverlaidPastEnd(n0: Inode, s0: Sectors, n: Inode, s: Sectors, data: seq<byte>)
    requires n0.size <= MAX_FILE_SIZE && Overlaid(n0, s0, n, s, n0.size, data)
    ensures Records(n, s) == Records(n0, s0)
  {
    SameRecords(n0, s0, n, s, n, data);
  }

  // Consistency of the metadata ---------------------------------------------------------------------------

  predicate InodeOk(n: Inode) {
    && n.kind in {NODE_FREE, NODE_DIR, NODE_FILE}
    && n.size <= MAX_FILE_SIZE
    && n.parent < MAX_INODES
    && (n.kind == NODE_FREE ==> n == Cleared(n))
    && (n.kind == NODE_DIR ==>
          && n.size % RECORD_BYTES == 0
          && forall k :: 0 <= k < DIRECT_BLOCKS && SECTOR_SIZE * k < n.size ==> n.direct[k] != INVALID_BLOCK)
  }

  /** What the metadata in memory satisfies whatever the disk does. */
  ghost predicate MetaOk(m: Meta) {
    && WellSized(m)
    && m.super == FRESH_SUPER
    && Ownership(m.inodes, m.blockBitmap)
    && (forall i {:trigger InodeOk(m.inodes[i])} :: 0 <= i < MAX_INODES ==> InodeOk(m.inodes[i]))
    && (forall i {:trigger Bit(m.inodeBitmap, i)} ::
          0 <= i < MAX_INODES ==> (Bit(m.inodeBitmap, i) <==> m.inodes[i].kind != NODE_FREE))
    && m.inodes[0].kind == NODE_DIR && m.inodes[0].parent == 0
  }

  ghost predicate RecordsInRange(v: Volume) {
    forall i, r {:trigger v[i].records[r]} :: 0 <= i < |v| && v[i].Dir? && 0 <= r < |v[i].records| ==>
      v[i].records[r].inode < MAX_INODES
  }

  ghost predicate Consistent(m: Meta, sectors: Sectors) {
    MetaOk(m) && RecordsInRange(VolumeOf(m.inodes, sectors))
  }

  ghost predicate IsTree(v: Volume) {
    exists n :: Tree(v, n)
  }

  /** A directory has exactly the blocks its size needs. */
  predicate Tight(n: Inode) {
    n.kind == NODE_DIR ==>
      forall k :: 0 <= k < DIRECT_BLOCKS ==> (n.direct[k] != INVALID_BLOCK <==> SECTOR_SIZE * k < n.size)
  }

  ghost predicate TightDirectories(inodes: seq<Inode>) {
    forall i {:trigger Tight(inodes[i])} :: 0 <= i < |inodes| ==> Tight(inodes[i])
  }

  lemma TightUpdate(inodes: seq<Inode>, i: nat, n: Inode)
    requires i < |inodes|
    requires TightDirectories(inodes) && (Tight(inodes[i]) ==> Tight(n))
    ensures TightDirectories(inodes[i := n])
  {
    var after := inodes[i := n];
    forall j | 0 <= j < |after| ensures Tight(after[j]) {
      assert Tight(inodes[j]);
    }
  }

  /** What holds besides, as long as no transfer has failed. */
  ghost predicate Sound(m: Meta, sectors: Sectors) {
    && Consistent(m, sectors)
    && NoLeak(m.inodes, m.blockBitmap)
    && TightDirectories(m.inodes)
    && IsTree(VolumeOf(m.inodes, sectors))
  }

  // What the disk holds of the metadata -----------------------------------------------------------------

  /** The inode-table sector that holds inode `i`. */
  function TableBlock(i: nat): nat {
    INODE_TABLE_START + i / INODES_PER_BLOCK
  }

  /** The image of the metadata in memory that belongs in metadata sector `b`. */
  function MetaImage(m: Meta, b: nat): Sector
    requires WellSized(m) && b < DATA_BLOCK_START
  {
    if b == SUPER_BLOCK then SuperImage(m.super)
    else if b == INODE_BITMAP_BLOCK then BitmapImage(m.inodeBitmap)
    else if b == BLOCK_BITMAP_BLOCK then BitmapImage(m.blockBitmap)
    else TableImage(m.inodes, b - INODE_TABLE_START)
  }

  /** Where the metadata lies on disk: the superblock in the first sector, then the two bitmaps, then eight inodes a
      sector. */
  lemma MetaPlace(m: Meta)
    requires WellSized(m)
    ensures MetaImage(m, 0) == SuperImage(m.super)
    ensures MetaImage(m, 1)[..16] == m.inodeBitmap && MetaImage(m, 2)[..510] == m.blockBitmap
  {
  }

  lemma InodeOnDisk(m: Meta, k: nat, j: nat)
    requires WellSized(m) && k < 16 && j < 8
    ensures MetaImage(m, 3 + k)[60 * j..60 * j + 60] == EncodeInode(m.inodes[8 * k + j])
  {
    TablePlace(m.inodes, k, j);
  }

  /** Byte `p` of a file is byte p mod 512 of the sector that slot p / 512 points to; data starts with sector 19. */
  lemma BytePlace(n: Inode, s: Sectors, p: nat)
    requires p < n.size <= 4096 && n.direct[p / 512] < 4077
    ensures FileContents(n, s)[p] == Some(s[19 + n.direct[p / 512]][p % 512])
  {
  }

  /** Every metadata sector outside `lag` holds what memory holds. */
  ghost predicate Tracks(m: Meta, s: Sectors, lag: set<nat>)
    requires WellSized(m)
  {
    forall b: nat {:trigger MetaImage(m, b)} :: b < DATA_BLOCK_START && b !in lag ==> s[b] == MetaImage(m, b)
  }

  function Below(n: nat): (all: set<nat>)
    ensures forall b: nat :: b in all <==> b < n
  {
    if n == 0 then {} else Below(n - 1) + {n - 1}
  }

  ghost function AllMetadata(): (all: set<nat>)
    ensures forall b: nat :: b in all <==> b < DATA_BLOCK_START
  {
    Below(DATA_BLOCK_START)
  }

  ghost predicate SameData(s: Sectors, t: Sectors) {
    forall x :: DATA_BLOCK_START <= x < TOTAL_SECTORS ==> s[x] == t[x]
  }

  /** No metadata sector but that of the block bitmap differs. */
  ghost predicate TablesKept(s: Sectors, t: Sectors) {
    forall x :: 0 <= x < DATA_BLOCK_START && x != BLOCK_BITMAP_BLOCK ==> s[x] == t[x]
  }

  ghost predicate SameMetadata(s: Sectors, t: Sectors) {
    forall x :: 0 <= x < DATA_BLOCK_START ==> s[x] == t[x]
  }
}
