/** Storing bytes in one inode: what a single block write does to the inode, to the bitmap and
    to everything else. */
module LuxStorage {
  import opened Bytes
  import opened Bitmap
  import opened LuxFormat
  import opened SectorDisk
  import opened LuxVolume
  import opened LuxLayout
  import opened LuxUpdates

  /** Only inode `i`'s data and the block bitmap may differ, and no block it had is lost. */
  ghost predicate Contained(m0: Meta, s0: Sectors, m: Meta, s: Sectors, i: nat) {
    && WellSized(m0) && WellSized(m) && i < MAX_INODES
    && m == m0.(inodes := m.inodes, blockBitmap := m.blockBitmap)
    && m.inodes == m0.inodes[i := m0.inodes[i].(direct := m.inodes[i].direct)]
    && Ownership(m.inodes, m.blockBitmap)
    && (forall k :: 0 <= k < DIRECT_BLOCKS && m0.inodes[i].direct[k] != INVALID_BLOCK ==>
          m.inodes[i].direct[k] == m0.inodes[i].direct[k])
    && (forall j {:trigger NodeOf(m.inodes[j], s)} ::
          0 <= j < MAX_INODES && j != i ==> NodeOf(m.inodes[j], s) == NodeOf(m0.inodes[j], s0))
  }

  /** Besides, exactly `data` was laid over inode `i` at `offset`, and no block leaked. */
  ghost predicate Storing(m0: Meta, s0: Sectors, m: Meta, s: Sectors, i: nat, offset: nat, data: seq<byte>) {
    && Contained(m0, s0, m, s, i)
    && Overlaid(m0.inodes[i], s0, m.inodes[i], s, offset, data)
    && (NoLeak(m0.inodes, m0.blockBitmap) ==> NoLeak(m.inodes, m.blockBitmap))
  }

  lemma ContainedInItself(m: Meta, s: Sectors, i: nat)
    requires MetaOk(m) && i < MAX_INODES
    ensures Contained(m, s, m, s, i)
  {
    assert m.inodes[i := m.inodes[i].(direct := m.inodes[i].direct)] == m.inodes;
  }

  lemma StoringNothing(m: Meta, s: Sectors, i: nat, offset: nat)
    requires MetaOk(m) && i < MAX_INODES
    ensures Storing(m, s, m, s, i, offset, [])
  {
    ContainedInItself(m, s, i);
  }

  lemma ContainedConcat(m0: Meta, s0: Sectors, m1: Meta, s1: Sectors, m2: Meta, s2: Sectors, i: nat)
    requires Contained(m0, s0, m1, s1, i) && Contained(m1, s1, m2, s2, i)
    ensures Contained(m0, s0, m2, s2, i)
  {
  }

  lemma StoringConcat(m0: Meta, s0: Sectors, m1: Meta, s1: Sectors, m2: Meta, s2: Sectors, i: nat,
                      offset: nat, a: seq<byte>, b: seq<byte>)
    requires Storing(m0, s0, m1, s1, i, offset, a) && Storing(m1, s1, m2, s2, i, offset + |a|, b)
    ensures Storing(m0, s0, m2, s2, i, offset, a + b)
  {
    ContainedConcat(m0, s0, m1, s1, m2, s2, i);
    OverlaidConcat(m0.inodes[i], s0, m1.inodes[i], s1, m2.inodes[i], s2, offset, a, b);
  }

  /** Metadata survives storing. */
  lemma ContainedOk(m0: Meta, s0: Sectors, m: Meta, s: Sectors, i: nat)
    requires MetaOk(m0) && Contained(m0, s0, m, s, i) && m0.inodes[i].kind != NODE_FREE
    ensures MetaOk(m)
  {
    assert InodeOk(m0.inodes[i]);
    assert InodeOk(m.inodes[i]);
    forall j | 0 <= j < MAX_INODES ensures InodeOk(m.inodes[j]) && m.inodes[j].kind == m0.inodes[j].kind {
      assert InodeOk(m0.inodes[j]);
    }
  }

  lemma ContainedVolume(m0: Meta, s0: Sectors, m: Meta, s: Sectors, i: nat)
    requires MetaOk(m0) && Contained(m0, s0, m, s, i)
    ensures VolumeOf(m.inodes, s) == VolumeOf(m0.inodes, s0)[i := NodeOf(m.inodes[i], s)]
  {
  }

  // One block --------------------------------------------------------------------------------------

  /** A failed allocation, possibly with a mark whose bitmap write failed. */
  lemma LostBlock(m: Meta, s: Sectors, bitmap: seq<byte>, i: nat)
    requires MetaOk(m) && i < MAX_INODES
    requires bitmap == m.blockBitmap || exists b: nat :: b < DATA_BLOCK_COUNT && bitmap == Put(m.blockBitmap, b, true)
    ensures Contained(m, s, m.(blockBitmap := bitmap), s, i)
  {
    ContainedInItself(m, s, i);
    if bitmap != m.blockBitmap {
      var b: nat :| b < DATA_BLOCK_COUNT && bitmap == Put(m.blockBitmap, b, true);
      MarkOnly(m.inodes, m.blockBitmap, b);
    }
  }

  function WithNewBlock(m: Meta, i: nat, k: nat, b: u32): Meta
    requires WellSized(m) && i < MAX_INODES && k < DIRECT_BLOCKS && b < DATA_BLOCK_COUNT
  {
    m.(inodes := m.inodes[i := WithBlock(m.inodes[i], k, b)], blockBitmap := Put(m.blockBitmap, b, true))
  }

  lemma FreshBlockUnused(m: Meta, b: u32)
    requires MetaOk(m) && b < DATA_BLOCK_COUNT && !Bit(m.blockBitmap, b)
    ensures forall j, l :: 0 <= j < MAX_INODES && 0 <= l < DIRECT_BLOCKS ==> m.inodes[j].direct[l] != b
  {
    forall j, l | 0 <= j < MAX_INODES && 0 <= l < DIRECT_BLOCKS ensures m.inodes[j].direct[l] != b {
      assert Ptr(m.inodes, j, l) == m.inodes[j].direct[l];
    }
  }

  /** A block assigned to a slot, whatever the block then holds. */
  lemma NewBlock(m: Meta, s: Sectors, i: nat, k: nat, b: u32, t: Sectors)
    requires MetaOk(m) && i < MAX_INODES && k < DIRECT_BLOCKS && b < DATA_BLOCK_COUNT
    requires m.inodes[i].direct[k] == INVALID_BLOCK && !Bit(m.blockBitmap, b)
    requires forall x :: DATA_BLOCK_START <= x < TOTAL_SECTORS && x != DATA_BLOCK_START + b ==> t[x] == s[x]
    ensures Contained(m, s, WithNewBlock(m, i, k, b), t, i)
    ensures NoLeak(m.inodes, m.blockBitmap) ==>
              NoLeak(WithNewBlock(m, i, k, b).inodes, WithNewBlock(m, i, k, b).blockBitmap)
  {
    var m1 := WithNewBlock(m, i, k, b);
    AssignBlock(m.inodes, m.blockBitmap, i, k, b);
    FreshBlockUnused(m, b);
    forall j | 0 <= j < MAX_INODES && j != i ensures NodeOf(m1.inodes[j], t) == NodeOf(m.inodes[j], s) {
      NodeFrame(m.inodes[j], t, s);
    }
    assert m1.inodes[i] == m.inodes[i].(direct := m1.inodes[i].direct);
  }

  lemma NewBlockStep(m: Meta, s: Sectors, i: nat, k: nat, b: u32, t: Sectors)
    requires MetaOk(m) && i < MAX_INODES && k < DIRECT_BLOCKS && b < DATA_BLOCK_COUNT
    requires m.inodes[i].direct[k] == INVALID_BLOCK && !Bit(m.blockBitmap, b) && SameData(s, t)
    ensures Contained(m, s, WithNewBlock(m, i, k, b), t, i)
  {
    NewBlock(m, s, i, k, b, t);
  }

  /** Filling a new block. */
  lemma StoreNew(m: Meta, s: Sectors, i: nat, b: u32, offset: nat, piece: seq<byte>, t: Sectors)
    requires MetaOk(m) && i < MAX_INODES && b < DATA_BLOCK_COUNT && InOneBlock(offset, piece)
    requires m.inodes[i].direct[offset / SECTOR_SIZE] == INVALID_BLOCK && !Bit(m.blockBitmap, b)
    requires forall x :: DATA_BLOCK_START <= x < TOTAL_SECTORS && x != DATA_BLOCK_START + b ==> t[x] == s[x]
    requires t[DATA_BLOCK_START + b] == Patch(Zeros(SECTOR_SIZE), offset % SECTOR_SIZE, piece)
    ensures Storing(m, s, WithNewBlock(m, i, offset / SECTOR_SIZE, b), t, i, offset, piece)
  {
    NewBlock(m, s, i, offset / SECTOR_SIZE, b, t);
    FreshBlockUnused(m, b);
    PatchNew(m.inodes[i], s, b, offset, piece, t);
  }

  /** Rewriting part of a block the inode already has. */
  lemma StoreExisting(m: Meta, s: Sectors, i: nat, offset: nat, piece: seq<byte>)
    requires MetaOk(m) && i < MAX_INODES && InOneBlock(offset, piece)
    requires m.inodes[i].direct[offset / SECTOR_SIZE] != INVALID_BLOCK
    ensures m.inodes[i].direct[offset / SECTOR_SIZE] < DATA_BLOCK_COUNT
    ensures Storing(m, s, m, Patched(s, m.inodes[i], offset, piece), i, offset, piece)
    ensures SameMetadata(s, Patched(s, m.inodes[i], offset, piece))
  {
    var k := offset / SECTOR_SIZE;
    var b := Ptr(m.inodes, i, k);
    assert b < DATA_BLOCK_COUNT;
    forall l | 0 <= l < DIRECT_BLOCKS && l != k ensures m.inodes[i].direct[l] != b {
      assert Ptr(m.inodes, i, l) == m.inodes[i].direct[l];
    }
    var t := Patched(s, m.inodes[i], offset, piece);
    ContainedInItself(m, s, i);
    forall j | 0 <= j < MAX_INODES && j != i ensures NodeOf(m.inodes[j], t) == NodeOf(m.inodes[j], s) {
      OthersUntouched(m.inodes, m.blockBitmap, i, k, s, t[DATA_BLOCK_START + b], j);
    }
    PatchExisting(m.inodes[i], s, offset, piece);
  }

  /** The inode's bytes are what they were. */
  ghost predicate SameBytes(n0: Inode, s0: Sectors, n: Inode, s: Sectors) {
    n.size == n0.size && forall p :: 0 <= p < MAX_FILE_SIZE ==> ByteAt(n, s, p) == ByteAt(n0, s0, p)
  }

  lemma ZeroedBlock(m: Meta, s: Sectors, i: nat, k: nat, b: u32, t: Sectors)
    requires MetaOk(m) && i < MAX_INODES && k < DIRECT_BLOCKS && b < DATA_BLOCK_COUNT
    requires m.inodes[i].direct[k] == INVALID_BLOCK && !Bit(m.blockBitmap, b)
    requires forall x :: DATA_BLOCK_START <= x < TOTAL_SECTORS && x != DATA_BLOCK_START + b ==> t[x] == s[x]
    requires t[DATA_BLOCK_START + b] == Zeros(SECTOR_SIZE)
    ensures SameBytes(m.inodes[i], s, WithBlock(m.inodes[i], k, b), t)
  {
    FreshBlockUnused(m, b);
    var n, n1 := m.inodes[i], WithBlock(m.inodes[i], k, b);
    forall p | 0 <= p < MAX_FILE_SIZE ensures ByteAt(n1, t, p) == ByteAt(n, s, p) {
    }
  }

  lemma SameBytesSameRecords(n0: Inode, s0: Sectors, n: Inode, s: Sectors)
    requires SameBytes(n0, s0, n, s)
    ensures Records(n, s) == Records(n0, s0)
  {
    forall r | 0 <= r < SizeOf(n) / RECORD_BYTES ensures RecordAt(n, s, r) == RecordAt(n0, s0, r) {
      var a, b := Slice(n, s, RECORD_BYTES * r, RECORD_BYTES), Slice(n0, s0, RECORD_BYTES * r, RECORD_BYTES);
      assert a == b;
    }
  }

  /** The lowest free block was marked. */
  predicate LowestTaken(before: seq<byte>, after: seq<byte>, b: nat)
    requires |before| == |after| == BLOCK_BITMAP_BYTES
  {
    && b < DATA_BLOCK_COUNT && !Bit(before, b) && after == Put(before, b, true)
    && forall j :: 0 <= j < b ==> Bit(before, j)
  }

  predicate HasFree(bitmap: seq<byte>)
    requires |bitmap| == BLOCK_BITMAP_BYTES
  {
    exists b :: 0 <= b < DATA_BLOCK_COUNT && !Bit(bitmap, b)
  }

  /** Metadata writes matter to no inode's data. */
  lemma DataContained(m0: Meta, s0: Sectors, m: Meta, s: Sectors, i: nat)
    requires Contained(m0, s0, m, s0, i) && SameData(s0, s)
    ensures Contained(m0, s0, m, s, i)
    ensures SameBytes(m.inodes[i], s0, m.inodes[i], s)
  {
    forall j | 0 <= j < MAX_INODES ensures NodeOf(m.inodes[j], s) == NodeOf(m.inodes[j], s0) {
      NodeFrame(m.inodes[j], s, s0);
    }
    NodeFrame(m.inodes[i], s0, s);
  }

  /** Filling a block that was zeroed first. */
  lemma StoreZeroed(m: Meta, s: Sectors, i: nat, b: u32, offset: nat, piece: seq<byte>, s1: Sectors)
    requires MetaOk(m) && i < MAX_INODES && b < DATA_BLOCK_COUNT && InOneBlock(offset, piece)
    requires m.inodes[i].direct[offset / SECTOR_SIZE] == INVALID_BLOCK && !Bit(m.blockBitmap, b)
    requires forall x :: DATA_BLOCK_START <= x < TOTAL_SECTORS && x != DATA_BLOCK_START + b ==> s1[x] == s[x]
    requires s1[DATA_BLOCK_START + b] == Zeros(SECTOR_SIZE)
    ensures var m1 := WithNewBlock(m, i, offset / SECTOR_SIZE, b);
      && Storing(m, s, m1, Patched(s1, m1.inodes[i], offset, piece), i, offset, piece)
      && SameMetadata(s1, Patched(s1, m1.inodes[i], offset, piece))
  {
    var m1 := WithNewBlock(m, i, offset / SECTOR_SIZE, b);
    var t := Patched(s1, m1.inodes[i], offset, piece);
    assert t[DATA_BLOCK_START + b] == Patch(Zeros(SECTOR_SIZE), offset % SECTOR_SIZE, piece);
    StoreNew(m, s, i, b, offset, piece, t);
  }

  // Appending a record -----------------------------------------------------------------------------

  /** There is room for one more record in directory inode `n`. */
  ghost predicate Room(n: Inode, bitmap: seq<byte>)
    requires |bitmap| == BLOCK_BITMAP_BYTES
  {
    && n.size + RECORD_BYTES <= MAX_FILE_SIZE
    && (HasFree(bitmap) || forall k :: 0 <= k < DIRECT_BLOCKS && Touched(n.size, RECORD_BYTES, k) ==>
          n.direct[k] != INVALID_BLOCK)
  }

  /** The last sector of a directory holds at most its 113th record. */
  lemma RoomIsCount(n: Inode, s: Sectors)
    requires InodeOk(n) && n.kind == NODE_DIR
    ensures n.size + RECORD_BYTES <= MAX_FILE_SIZE <==> |Records(n, s)| < 113
    ensures |Records(n, s)| <= 113 && n.size == RECORD_BYTES * |Records(n, s)|
  {
  }

  function Longer(m: Meta, i: nat): Meta
    requires WellSized(m) && i < MAX_INODES && m.inodes[i].size + RECORD_BYTES <= MAX_FILE_SIZE
  {
    m.(inodes := m.inodes[i := m.inodes[i].(size := m.inodes[i].size + RECORD_BYTES)])
  }

  lemma AppendedMetaOk(m0: Meta, s0: Sectors, m: Meta, s: Sectors, i: nat, data: seq<byte>)
    requires MetaOk(m0) && i < MAX_INODES && m0.inodes[i].kind == NODE_DIR
    requires m0.inodes[i].size + RECORD_BYTES <= MAX_FILE_SIZE && |data| == RECORD_BYTES
    requires Storing(m0, s0, m, s, i, m0.inodes[i].size, data)
    ensures MetaOk(Longer(m, i)) && Keeps(m0, Longer(m, i))
  {
    var n: Inode := m.inodes[i].(size := m0.inodes[i].size + RECORD_BYTES);
    assert InodeOk(m0.inodes[i]);
    ContainedOk(m0, s0, m, s, i);
    AppendedInodeOk(m0.inodes[i], s0, m.inodes[i], s, data);
    SameKindOk(m, i, n);
    SamePointers(m.inodes, i, n, m.blockBitmap);
    AppendedTight(m0, s0, m, s, i, data);
    assert Longer(m, i) == m.(inodes := m.inodes[i := n]);
  }

  lemma AppendedVolume(m0: Meta, s0: Sectors, m: Meta, s: Sectors, i: nat, rec: Record, data: seq<byte>)
    requires Consistent(m0, s0) && i < MAX_INODES && m0.inodes[i].kind == NODE_DIR
    requires m0.inodes[i].size + RECORD_BYTES <= MAX_FILE_SIZE && rec.inode < MAX_INODES
    requires data == EncodeRecord(rec) && Storing(m0, s0, m, s, i, m0.inodes[i].size, data)
    ensures var v0 := VolumeOf(m0.inodes, s0); var v := VolumeOf(Longer(m, i).inodes, s);
      v0[i].Dir? && v == v0[i := WithRecord(v0[i], rec)] && RecordsInRange(v)
  {
    var v0 := VolumeOf(m0.inodes, s0);
    var n0 := m0.inodes[i];
    var n: Inode := m.inodes[i].(size := n0.size + RECORD_BYTES);
    assert InodeOk(n0);
    OverlaidDirectory(n0, s0, m.inodes[i], s, rec, data);
    assert NodeOf(n, s) == WithRecord(v0[i], rec);
    ContainedVolume(m0, s0, m, s, i);
    VolumeUpdate(m.inodes, s, i, n);
    OneMoreInRange(v0, i, rec);
    RecordsInRangeUpdate(v0, i, WithRecord(v0[i], rec));
    assert VolumeOf(m.inodes, s)[i := NodeOf(n, s)] == v0[i := NodeOf(n, s)];
  }

  lemma OneMoreInRange(v: Volume, i: nat, rec: Record)
    requires RecordsInRange(v) && i < |v| && v[i].Dir? && rec.inode < MAX_INODES
    ensures var rs := WithRecord(v[i], rec).records; forall r :: 0 <= r < |rs| ==> rs[r].inode < MAX_INODES
  {
  }

  lemma AppendedInodeOk(n0: Inode, s0: Sectors, n: Inode, s: Sectors, data: seq<byte>)
    requires InodeOk(n0) && n0.kind == NODE_DIR && n0.size + RECORD_BYTES <= MAX_FILE_SIZE
    requires |data| == RECORD_BYTES && Overlaid(n0, s0, n, s, n0.size, data)
    ensures InodeOk(n.(size := n0.size + RECORD_BYTES))
  {
    forall k | 0 <= k < DIRECT_BLOCKS && SECTOR_SIZE * k < n0.size + RECORD_BYTES
      ensures n.direct[k] != INVALID_BLOCK
    {
      if SECTOR_SIZE * k >= n0.size {
        assert Touched(n0.size, |data|, k);
      }
    }
  }

  lemma AppendedTight(m0: Meta, s0: Sectors, m: Meta, s: Sectors, i: nat, data: seq<byte>)
    requires MetaOk(m0) && i < MAX_INODES && m0.inodes[i].kind == NODE_DIR
    requires m0.inodes[i].size + RECORD_BYTES <= MAX_FILE_SIZE && |data| == RECORD_BYTES
    requires Storing(m0, s0, m, s, i, m0.inodes[i].size, data)
    ensures TightDirectories(m0.inodes) ==>
              TightDirectories(m.inodes[i := m.inodes[i].(size := m0.inodes[i].size + RECORD_BYTES)])
  {
    var n0 := m0.inodes[i];
    var n: Inode := m.inodes[i].(size := n0.size + RECORD_BYTES);
    forall k | 0 <= k < DIRECT_BLOCKS
      ensures Touched(n0.size, |data|, k) <==>
                n0.size <= SECTOR_SIZE * k + SECTOR_SIZE - 1 && SECTOR_SIZE * k < n0.size + RECORD_BYTES
    {
    }
    assert Tight(n0) ==> Tight(n);
    if TightDirectories(m0.inodes) {
      TightUpdate(m0.inodes, i, n);
      assert m.inodes[i := n] == m0.inodes[i := n];
    }
  }

  /** A record that was not appended leaves the visible records as they were. */
  lemma NotAppended(m0: Meta, s0: Sectors, m1: Meta, s1: Sectors, m: Meta, s: Sectors, i: nat, data: seq<byte>)
    requires Consistent(m0, s0) && i < MAX_INODES && m0.inodes[i].kind == NODE_DIR
    requires Storing(m0, s0, m1, s1, i, m0.inodes[i].size, data)
    requires Contained(m1, s1, m, s, i) && SameBytes(m1.inodes[i], s1, m.inodes[i], s)
    ensures Consistent(m, s) && VolumeOf(m.inodes, s) == VolumeOf(m0.inodes, s0)
  {
    var n0, n1, n := m0.inodes[i], m1.inodes[i], m.inodes[i];
    assert InodeOk(n0);
    ContainedConcat(m0, s0, m1, s1, m, s, i);
    ContainedOk(m0, s0, m, s, i);
    ContainedVolume(m0, s0, m, s, i);
    OverlaidPastEnd(n0, s0, n1, s1, data);
    SameBytesSameRecords(n1, s1, n, s);
    assert NodeOf(n, s) == NodeOf(n0, s0);
  }

  /** The first `done` bytes of a record are laid at the end of directory `i`. */
  ghost predicate Laying(m0: Meta, s0: Sectors, m: Meta, s: Sectors, i: nat, data: seq<byte>, done: nat) {
    && Consistent(m0, s0) && Consistent(m, s)
    && i < MAX_INODES && m0.inodes[i].kind == NODE_DIR
    && done <= |data| == RECORD_BYTES && m0.inodes[i].size + done <= MAX_FILE_SIZE
    && Storing(m0, s0, m, s, i, m0.inodes[i].size, data[..done])
    && (done < RECORD_BYTES ==> m == m0)
    && (0 < done < RECORD_BYTES ==> (m0.inodes[i].size + done) % SECTOR_SIZE == 0)
    && (done == RECORD_BYTES ==>
          && Room(m0.inodes[i], m0.blockBitmap)
          && SlotFilled(m0.inodes[i], m0.blockBitmap, m.inodes[i], m.blockBitmap, LastSlot(m0.inodes[i])))
  }

  /** The slot that the last byte of one more record goes to. */
  function LastSlot(n: Inode): nat {
    (n.size + RECORD_BYTES - 1) / SECTOR_SIZE
  }

  /** Slot `k`, if it was empty, has taken the lowest free block, and no other block is taken. */
  predicate SlotFilled(n0: Inode, bitmap0: seq<byte>, n: Inode, bitmap: seq<byte>, k: nat)
    requires |bitmap0| == |bitmap| == BLOCK_BITMAP_BYTES
  {
    && k < DIRECT_BLOCKS
    && (if n0.direct[k] != INVALID_BLOCK then bitmap == bitmap0 else LowestTaken(bitmap0, bitmap, n.direct[k]))
  }

  lemma LayingNothing(m: Meta, s: Sectors, i: nat, data: seq<byte>)
    requires Consistent(m, s) && i < MAX_INODES && m.inodes[i].kind == NODE_DIR && |data| == RECORD_BYTES
    ensures Laying(m, s, m, s, i, data, 0)
  {
    assert InodeOk(m.inodes[i]);
    StoringNothing(m, s, i, m.inodes[i].size);
  }

  /** One more chunk of a record laid. */
  lemma LayingMore(m0: Meta, s0: Sectors, m1: Meta, s1: Sectors, m: Meta, s: Sectors, i: nat,
                   data: seq<byte>, offset: nat, done: nat, chunk: nat, piece: seq<byte>)
    requires Laying(m0, s0, m1, s1, i, data, done) && offset == m0.inodes[i].size + done < MAX_FILE_SIZE
    requires chunk == Min(SECTOR_SIZE - offset % SECTOR_SIZE, RECORD_BYTES - done) > 0
    requires piece == data[done..done + chunk]
    requires Storing(m1, s1, m, s, i, offset, piece)
    requires if m1.inodes[i].direct[offset / SECTOR_SIZE] != INVALID_BLOCK then m == m1 else HasFree(m1.blockBitmap)
    requires SlotFilled(m1.inodes[i], m1.blockBitmap, m.inodes[i], m.blockBitmap, offset / SECTOR_SIZE)
    ensures Laying(m0, s0, m, s, i, data, done + chunk)
  {
    var more := done + chunk;
    StoringMore(m0, s0, m1, s1, m, s, i, m0.inodes[i].size, data, done, more);
    LayingConsistent(m0, s0, m, s, i, data[..more]);
    assert InodeOk(m0.inodes[i]);
    RoomStep(m0.inodes[i], m0.blockBitmap, done, chunk);
    if more == RECORD_BYTES {
      EndsInLastSlot(m0.inodes[i], done, chunk);
    }
  }

  lemma EndsInLastSlot(n: Inode, done: nat, chunk: nat)
    requires 0 < chunk && done + chunk == RECORD_BYTES && (n.size + done) % SECTOR_SIZE + chunk <= SECTOR_SIZE
    ensures (n.size + done) / SECTOR_SIZE == LastSlot(n)
  {
    var here := n.size + done;
    assert n.size + RECORD_BYTES - 1 == SECTOR_SIZE * (here / SECTOR_SIZE) + (here % SECTOR_SIZE + chunk - 1);
  }

  lemma StoringMore(m0: Meta, s0: Sectors, m1: Meta, s1: Sectors, m: Meta, s: Sectors, i: nat,
                    offset: nat, data: seq<byte>, done: nat, more: nat)
    requires done <= more <= |data|
    requires Storing(m0, s0, m1, s1, i, offset, data[..done])
    requires Storing(m1, s1, m, s, i, offset + done, data[done..more])
    ensures Storing(m0, s0, m, s, i, offset, data[..more])
  {
    var a, b := data[..done], data[done..more];
    StoringConcat(m0, s0, m1, s1, m, s, i, offset, a, b);
    assert a + b == data[..more];
  }

  lemma LayingConsistent(m0: Meta, s0: Sectors, m: Meta, s: Sectors, i: nat, data: seq<byte>)
    requires Consistent(m0, s0) && i < MAX_INODES && m0.inodes[i].kind == NODE_DIR
    requires Storing(m0, s0, m, s, i, m0.inodes[i].size, data)
    ensures Consistent(m, s)
  {
    ContainedInItselfLater(m0, s0, m, s, i);
    NotAppended(m0, s0, m, s, m, s, i, data);
  }

  /** Giving up leaves the visible records as they were. */
  lemma LayingFails(m0: Meta, s0: Sectors, m1: Meta, s1: Sectors, m: Meta, s: Sectors, i: nat, data: seq<byte>, done: nat)
    requires Laying(m0, s0, m1, s1, i, data, done)
    requires Contained(m1, s1, m, s, i) && SameBytes(m1.inodes[i], s1, m.inodes[i], s)
    ensures Consistent(m, s) && VolumeOf(m.inodes, s) == VolumeOf(m0.inodes, s0)
  {
    NotAppended(m0, s0, m1, s1, m, s, i, data[..done]);
  }

  lemma LayingGivesUp(m0: Meta, s0: Sectors, m: Meta, s: Sectors, i: nat, data: seq<byte>, done: nat)
    requires Laying(m0, s0, m, s, i, data, done)
    ensures VolumeOf(m.inodes, s) == VolumeOf(m0.inodes, s0)
  {
    ContainedInItself(m, s, i);
    LayingFails(m0, s0, m, s, m, s, i, data, done);
  }

  /** There is no block for the byte at `offset`, and none can be allocated. */
  predicate NoSlot(n: Inode, bitmap: seq<byte>, offset: nat)
    requires |bitmap| == BLOCK_BITMAP_BYTES
  {
    offset / SECTOR_SIZE >= DIRECT_BLOCKS || (n.direct[offset / SECTOR_SIZE] == INVALID_BLOCK && !HasFree(bitmap))
  }

  /** No room shows in the slot that the next byte needs. */
  lemma LayingStuck(m0: Meta, s0: Sectors, m: Meta, s: Sectors, i: nat, data: seq<byte>, done: nat)
    requires Laying(m0, s0, m, s, i, data, done) && done < RECORD_BYTES
    requires NoSlot(m.inodes[i], m.blockBitmap, m0.inodes[i].size + done)
    ensures !Room(m0.inodes[i], m0.blockBitmap)
  {
    var n := m0.inodes[i];
    var k := (n.size + done) / SECTOR_SIZE;
    if k < DIRECT_BLOCKS {
      assert Touched(n.size, RECORD_BYTES, k);
    }
  }

  lemma ContainedInItselfLater(m0: Meta, s0: Sectors, m: Meta, s: Sectors, i: nat)
    requires MetaOk(m0) && Contained(m0, s0, m, s, i) && m0.inodes[i].kind != NODE_FREE
    ensures Contained(m, s, m, s, i)
  {
    ContainedOk(m0, s0, m, s, i);
    ContainedInItself(m, s, i);
  }

  /** A chunk that ends the record found its block, or a free one. */
  lemma RoomStep(n: Inode, bitmap: seq<byte>, done: nat, chunk: nat)
    requires |bitmap| == BLOCK_BITMAP_BYTES && InodeOk(n) && n.kind == NODE_DIR
    requires done + chunk <= RECORD_BYTES && n.size + done < MAX_FILE_SIZE
    requires chunk == Min(SECTOR_SIZE - (n.size + done) % SECTOR_SIZE, RECORD_BYTES - done)
    requires 0 < done ==> (n.size + done) % SECTOR_SIZE == 0
    requires n.direct[(n.size + done) / SECTOR_SIZE] != INVALID_BLOCK || HasFree(bitmap)
    ensures done + chunk == RECORD_BYTES ==> Room(n, bitmap)
    ensures done + chunk < RECORD_BYTES ==>
              done == 0 && (n.size + chunk) % SECTOR_SIZE == 0 && n.direct[n.size / SECTOR_SIZE] != INVALID_BLOCK
  {
    if done + chunk == RECORD_BYTES && !HasFree(bitmap) {
      forall k | 0 <= k < DIRECT_BLOCKS && Touched(n.size, RECORD_BYTES, k) ensures n.direct[k] != INVALID_BLOCK {
        if k != (n.size + done) / SECTOR_SIZE {
          assert SECTOR_SIZE * k < n.size;
        }
      }
    }
  }

  function Min(a: nat, b: nat): nat {
    if a < b then a else b
  }

  // How many transfers an append takes ------------------------------------------------------------

  /** Reading and writing a block, after marking and zeroing it if it is missing. */
  function ChunkTransfers(n: Inode, k: nat): nat {
    if k < DIRECT_BLOCKS && n.direct[k] == INVALID_BLOCK then 4 else 2
  }

  /** The part of a record that fits the block at hand. */
  function FirstChunk(size: nat): (c: nat)
    ensures 0 < c <= RECORD_BYTES
  {
    Min(SECTOR_SIZE - size % SECTOR_SIZE, RECORD_BYTES)
  }

  /** The transfers that lay one record at the end of directory inode `n`. */
  function LayTransfers(n: Inode): nat {
    ChunkTransfers(n, n.size / SECTOR_SIZE)
    + (if FirstChunk(n.size) < RECORD_BYTES then ChunkTransfers(n, n.size / SECTOR_SIZE + 1) else 0)
  }

  /** The transfers made when the first `done` bytes of a record are laid. */
  function LaidTransfers(n: Inode, done: nat): nat {
    if done == 0 then 0
    else if done < RECORD_BYTES then ChunkTransfers(n, n.size / SECTOR_SIZE)
    else LayTransfers(n)
  }

  /** Only the chunk that ends a record may take more than two transfers, and the sum is what
      LayTransfers says. */
  lemma LaidMore(n: Inode, done: nat, chunk: nat)
    requires InodeOk(n) && n.kind == NODE_DIR && done + chunk <= RECORD_BYTES && n.size + done < MAX_FILE_SIZE
    requires chunk == Min(SECTOR_SIZE - (n.size + done) % SECTOR_SIZE, RECORD_BYTES - done)
    requires 0 < done ==> (n.size + done) % SECTOR_SIZE == 0
    ensures LaidTransfers(n, done + chunk) == LaidTransfers(n, done) + ChunkTransfers(n, (n.size + done) / SECTOR_SIZE)
    ensures LaidTransfers(n, done + chunk) <= LayTransfers(n)
  {
    if done > 0 {
      assert n.size % SECTOR_SIZE + done >= SECTOR_SIZE;
      assert (n.size + done) / SECTOR_SIZE == n.size / SECTOR_SIZE + 1;
    }
  }

  /** A directory whose records are the same has the same size. */
  lemma SameSizes(m0: Meta, s0: Sectors, m: Meta, s: Sectors, i: nat)
    requires Consistent(m0, s0) && Consistent(m, s) && i < MAX_INODES && m0.inodes[i].kind == NODE_DIR
    requires VolumeOf(m.inodes, s) == VolumeOf(m0.inodes, s0)
    ensures m.inodes[i].size == m0.inodes[i].size
  {
    assert InodeOk(m0.inodes[i]) && InodeOk(m.inodes[i]);
    assert VolumeOf(m.inodes, s)[i] == VolumeOf(m0.inodes, s0)[i];
    RoomIsCount(m0.inodes[i], s0);
    RoomIsCount(m.inodes[i], s);
  }

  /** What one round of laying a record says, whether it succeeded or not. */
  lemma LayRoundEnds(m0: Meta, s0: Sectors, m1: Meta, s1: Sectors, i: nat, data: seq<byte>, offset: nat, done: nat,
                     chunk: nat, ok: bool)
    requires Laying(m0, s0, m1, s1, i, data, done) && done < RECORD_BYTES && offset == m0.inodes[i].size + done
    requires ok ==> chunk == Min(SECTOR_SIZE - offset % SECTOR_SIZE, RECORD_BYTES - done) && offset < MAX_FILE_SIZE
    ensures var n := m0.inodes[i];
      && m1 == m0
      && (ok ==> done + chunk <= RECORD_BYTES && LaidTransfers(n, done + chunk)
                 == LaidTransfers(n, done) + ChunkTransfers(n, offset / SECTOR_SIZE))
      && (NoSlot(n, m0.blockBitmap, offset) ==> !Room(n, m0.blockBitmap))
      && (!NoSlot(n, m0.blockBitmap, offset) ==>
            LaidTransfers(n, done) + ChunkTransfers(n, offset / SECTOR_SIZE) <= LayTransfers(n))
  {
    var n := m0.inodes[i];
    assert InodeOk(n);
    if ok {
      LaidMore(n, done, chunk);
    }
    if NoSlot(n, m0.blockBitmap, offset) {
      LayingStuck(m0, s0, m1, s1, i, data, done);
    } else {
      LaidMore(n, done, Min(SECTOR_SIZE - offset % SECTOR_SIZE, RECORD_BYTES - done));
    }
  }
}
