/** What each metadata update does to the invariants: the value-level steps behind the methods
    of LuxFs. */
module LuxUpdates {
  import opened Bytes
  import opened Bitmap
  import opened LuxFormat
  import opened SectorDisk
  import opened LuxVolume
  import opened LuxLayout

  /** The inode luxfs_alloc_inode sets up. */
  function Fresh(n: Inode, kind: byte, parent: u32): Inode {
    Cleared(n).(kind := kind, parent := parent)
  }

  function WithNewInode(m: Meta, i: nat, kind: byte, parent: u32): Meta
    requires WellSized(m) && i < MAX_INODES
  {
    m.(inodes := m.inodes[i := Fresh(m.inodes[i], kind, parent)],
       inodeBitmap := Put(m.inodeBitmap, i, true))
  }

  function EmptyNode(kind: byte, parent: u32): Node {
    if kind == NODE_DIR then Dir(parent, []) else File(parent, [])
  }

  /** Invariants that only a failed transfer can break are kept. */
  ghost predicate Keeps(m0: Meta, m: Meta)
    requires WellSized(m0) && WellSized(m)
  {
    && (NoLeak(m0.inodes, m0.blockBitmap) ==> NoLeak(m.inodes, m.blockBitmap))
    && (TightDirectories(m0.inodes) ==> TightDirectories(m.inodes))
  }

  lemma BitmapUpdate(bitmap: seq<byte>, i: nat, value: bool)
    requires i < 8 * |bitmap|
    ensures forall j :: 0 <= j < 8 * |bitmap| ==> Bit(Put(bitmap, i, value), j) == if j == i then value else Bit(bitmap, j)
  {
    forall j | 0 <= j < 8 * |bitmap| ensures Bit(Put(bitmap, i, value), j) == if j == i then value else Bit(bitmap, j) {
      PutBitOnly(bitmap, i, value, j);
    }
  }

  /** Two inode tables with the same pointers own the same blocks. */
  lemma SamePointers(inodes: seq<Inode>, i: nat, n: Inode, bitmap: seq<byte>)
    requires |bitmap| == BLOCK_BITMAP_BYTES && i < |inodes| && n.direct == inodes[i].direct
    ensures Ownership(inodes, bitmap) ==> Ownership(inodes[i := n], bitmap)
    ensures NoLeak(inodes, bitmap) ==> NoLeak(inodes[i := n], bitmap)
  {
    var after := inodes[i := n];
    forall j, l | 0 <= j < |inodes| && 0 <= l < DIRECT_BLOCKS ensures Ptr(after, j, l) == Ptr(inodes, j, l) {
    }
    if NoLeak(inodes, bitmap) {
      forall c | 0 <= c < DATA_BLOCK_COUNT && Bit(bitmap, c) ensures Owned(after, c) {
        var j, l :| 0 <= j < |inodes| && 0 <= l < DIRECT_BLOCKS && Ptr(inodes, j, l) == c;
        assert Ptr(after, j, l) == c;
      }
    }
  }

  /** Replacing an inode by one with the same kind, parent and pointers. */
  lemma SameKindOk(m: Meta, i: nat, n: Inode)
    requires MetaOk(m) && i < MAX_INODES && InodeOk(n)
    requires n.kind == m.inodes[i].kind && n.parent == m.inodes[i].parent && n.direct == m.inodes[i].direct
    ensures MetaOk(m.(inodes := m.inodes[i := n]))
  {
    SamePointers(m.inodes, i, n, m.blockBitmap);
    var after := m.inodes[i := n];
    forall j | 0 <= j < MAX_INODES ensures InodeOk(after[j]) {
      assert InodeOk(m.inodes[j]);
    }
  }

  lemma NewInodeOk(m: Meta, i: nat, kind: byte, parent: u32)
    requires MetaOk(m) && i < MAX_INODES && !Bit(m.inodeBitmap, i)
    requires kind in {NODE_DIR, NODE_FILE} && parent < MAX_INODES
    ensures MetaOk(WithNewInode(m, i, kind, parent)) && Keeps(m, WithNewInode(m, i, kind, parent))
  {
    var n := Fresh(m.inodes[i], kind, parent);
    BitmapUpdate(m.inodeBitmap, i, true);
    assert InodeOk(m.inodes[i]);
    SamePointers(m.inodes, i, n, m.blockBitmap);
    var after := m.inodes[i := n];
    forall j | 0 <= j < MAX_INODES ensures InodeOk(after[j]) {
      assert InodeOk(m.inodes[j]);
    }
    if TightDirectories(m.inodes) {
      TightUpdate(m.inodes, i, n);
    }
  }

  lemma EmptyInodeNode(n: Inode, kind: byte, parent: u32, s: Sectors)
    requires kind in {NODE_DIR, NODE_FILE}
    ensures NodeOf(Fresh(n, kind, parent), s) == EmptyNode(kind, parent)
  {
  }

  /** One inode's node changes, the others stay. */
  lemma VolumeUpdate(inodes: seq<Inode>, s: Sectors, i: nat, n: Inode)
    requires |inodes| == MAX_INODES && i < MAX_INODES
    ensures VolumeOf(inodes[i := n], s) == VolumeOf(inodes, s)[i := NodeOf(n, s)]
  {
  }

  /** Replacing one node by one whose records are in range keeps records in range. */
  lemma RecordsInRangeUpdate(v: Volume, i: nat, n: Node)
    requires RecordsInRange(v) && i < |v|
    requires n.Dir? ==> forall r :: 0 <= r < |n.records| ==> n.records[r].inode < MAX_INODES
    ensures RecordsInRange(v[i := n])
  {
  }

  lemma NewInodeVolume(m: Meta, s: Sectors, i: nat, kind: byte, parent: u32)
    requires Consistent(m, s) && i < MAX_INODES && kind in {NODE_DIR, NODE_FILE}
    ensures VolumeOf(WithNewInode(m, i, kind, parent).inodes, s)
            == VolumeOf(m.inodes, s)[i := EmptyNode(kind, parent)]
    ensures RecordsInRange(VolumeOf(WithNewInode(m, i, kind, parent).inodes, s))
  {
    VolumeUpdate(m.inodes, s, i, Fresh(m.inodes[i], kind, parent));
    EmptyInodeNode(m.inodes[i], kind, parent, s);
    RecordsInRangeUpdate(VolumeOf(m.inodes, s), i, EmptyNode(kind, parent));
  }

  // Freeing ------------------------------------------------------------------------------------

  function WithFreedInode(m: Meta, i: nat, blockBitmap: seq<byte>): Meta
    requires WellSized(m) && i < MAX_INODES
  {
    m.(inodes := m.inodes[i := Cleared(m.inodes[i])],
       inodeBitmap := Put(m.inodeBitmap, i, false),
       blockBitmap := blockBitmap)
  }

  /** The bitmap with one inode's blocks given back. */
  ghost predicate Freed(n: Inode, before: seq<byte>, after: seq<byte>)
    requires |before| == |after| == BLOCK_BITMAP_BYTES
  {
    forall b :: 0 <= b < 8 * BLOCK_BITMAP_BYTES ==> Bit(after, b) == (Bit(before, b) && !PointsTo(n, b))
  }

  /** The bitmap with the blocks of an inode's first `k` slots given back. */
  ghost predicate FreedFirst(n: Inode, k: nat, before: seq<byte>, after: seq<byte>)
    requires |before| == |after| == BLOCK_BITMAP_BYTES && k <= DIRECT_BLOCKS
  {
    forall b :: 0 <= b < 8 * BLOCK_BITMAP_BYTES ==> Bit(after, b) == (Bit(before, b) && b !in n.direct[..k])
  }

  lemma FreedOneMore(n: Inode, k: nat, before: seq<byte>, after: seq<byte>, more: seq<byte>)
    requires |before| == |after| == |more| == BLOCK_BITMAP_BYTES && k < DIRECT_BLOCKS
    requires FreedFirst(n, k, before, after)
    requires forall b :: 0 <= b < 8 * BLOCK_BITMAP_BYTES ==> Bit(more, b) == (Bit(after, b) && b != n.direct[k])
    ensures FreedFirst(n, k + 1, before, more)
  {
    assert n.direct[..k + 1] == n.direct[..k] + [n.direct[k]];
  }

  /** A slot's block is still marked when its turn comes. */
  lemma StillMarked(inodes: seq<Inode>, before: seq<byte>, i: nat, k: nat, after: seq<byte>)
    requires |before| == |after| == BLOCK_BITMAP_BYTES && i < |inodes| && k < DIRECT_BLOCKS
    requires Ownership(inodes, before) && FreedFirst(inodes[i], k, before, after)
    requires inodes[i].direct[k] != INVALID_BLOCK
    ensures inodes[i].direct[k] < DATA_BLOCK_COUNT && Bit(after, inodes[i].direct[k])
  {
    var b := Ptr(inodes, i, k);
    forall l | 0 <= l < k ensures inodes[i].direct[l] != b {
      assert Ptr(inodes, i, l) == inodes[i].direct[l];
    }
    assert b < DATA_BLOCK_COUNT && b !in inodes[i].direct[..k];
  }

  lemma FreedEvery(n: Inode, before: seq<byte>, after: seq<byte>)
    requires |before| == |after| == BLOCK_BITMAP_BYTES && FreedFirst(n, DIRECT_BLOCKS, before, after)
    ensures Freed(n, before, after)
  {
    assert n.direct[..DIRECT_BLOCKS] == n.direct;
    forall b | 0 <= b < 8 * BLOCK_BITMAP_BYTES ensures b in n.direct <==> PointsTo(n, b) {
    }
  }

  lemma FreedInodeOk(m: Meta, i: nat, blockBitmap: seq<byte>)
    requires MetaOk(m) && 0 < i < MAX_INODES
    requires |blockBitmap| == BLOCK_BITMAP_BYTES && Freed(m.inodes[i], m.blockBitmap, blockBitmap)
    ensures MetaOk(WithFreedInode(m, i, blockBitmap)) && Keeps(m, WithFreedInode(m, i, blockBitmap))
  {
    ReleaseBlocks(m.inodes, m.blockBitmap, i, blockBitmap);
    var emptied := m.inodes[i := Emptied(m.inodes[i])];
    SamePointers(emptied, i, Cleared(m.inodes[i]), blockBitmap);
    assert emptied[i := Cleared(m.inodes[i])] == m.inodes[i := Cleared(m.inodes[i])];
    BitmapUpdate(m.inodeBitmap, i, false);
    var after := m.inodes[i := Cleared(m.inodes[i])];
    forall j | 0 <= j < MAX_INODES ensures InodeOk(after[j]) {
      assert InodeOk(m.inodes[j]);
    }
    if TightDirectories(m.inodes) {
      TightUpdate(m.inodes, i, Cleared(m.inodes[i]));
    }
  }

  lemma FreedInodeVolume(m: Meta, s: Sectors, i: nat, blockBitmap: seq<byte>)
    requires Consistent(m, s) && i < MAX_INODES
    ensures VolumeOf(WithFreedInode(m, i, blockBitmap).inodes, s) == VolumeOf(m.inodes, s)[i := Free]
    ensures RecordsInRange(VolumeOf(m.inodes, s)[i := Free])
  {
    VolumeUpdate(m.inodes, s, i, Cleared(m.inodes[i]));
    RecordsInRangeUpdate(VolumeOf(m.inodes, s), i, Free);
  }

  /** Giving an inode out and taking it back restores the table and both bitmaps exactly. */
  lemma AllocThenFree(m: Meta, i: nat, kind: byte, parent: u32, blockBitmap: seq<byte>)
    requires MetaOk(m) && i < MAX_INODES && !Bit(m.inodeBitmap, i)
    requires |blockBitmap| == BLOCK_BITMAP_BYTES
    requires Freed(WithNewInode(m, i, kind, parent).inodes[i], m.blockBitmap, blockBitmap)
    ensures WithFreedInode(WithNewInode(m, i, kind, parent), i, blockBitmap) == m
  {
    var m1 := WithNewInode(m, i, kind, parent);
    var m2 := WithFreedInode(m1, i, blockBitmap);
    assert InodeOk(m.inodes[i]);
    assert m2.inodes == m.inodes;
    BitmapUpdate(m.inodeBitmap, i, true);
    BitmapUpdate(m1.inodeBitmap, i, false);
    Extensional(m2.inodeBitmap, m.inodeBitmap);
    MarkedInRange(m, blockBitmap, m1.inodes[i]);
    Extensional(blockBitmap, m.blockBitmap);
  }

  lemma MarkedInRange(m: Meta, blockBitmap: seq<byte>, n: Inode)
    requires MetaOk(m) && |blockBitmap| == BLOCK_BITMAP_BYTES
    requires n.direct == NoBlocks() && Freed(n, m.blockBitmap, blockBitmap)
    ensures forall b :: 0 <= b < 8 * BLOCK_BITMAP_BYTES ==> Bit(blockBitmap, b) == Bit(m.blockBitmap, b)
  {
    forall b | 0 <= b < 8 * BLOCK_BITMAP_BYTES ensures Bit(blockBitmap, b) == Bit(m.blockBitmap, b) {
      assert !PointsTo(n, b);
    }
  }

  /** Only the data region matters to what a volume holds. */
  lemma DataFrame(inodes: seq<Inode>, s: Sectors, t: Sectors)
    requires |inodes| == MAX_INODES && SameData(s, t)
    ensures VolumeOf(inodes, s) == VolumeOf(inodes, t)
  {
    forall i | 0 <= i < MAX_INODES ensures NodeOf(inodes[i], s) == NodeOf(inodes[i], t) {
      NodeFrame(inodes[i], s, t);
    }
  }

  /** luxfs_alloc_inode's changes, whatever became of its sector writes. */
  lemma NewInodeSteps(m: Meta, s: Sectors, i: nat, kind: byte, parent: u32, t: Sectors)
    requires Consistent(m, s) && i < MAX_INODES && !Bit(m.inodeBitmap, i)
    requires kind in {NODE_DIR, NODE_FILE} && parent < MAX_INODES && SameData(s, t)
    ensures var m1 := WithNewInode(m, i, kind, parent);
      && Consistent(m1, t) && Keeps(m, m1)
      && VolumeOf(m1.inodes, t) == VolumeOf(m.inodes, s)[i := EmptyNode(kind, parent)]
  {
    NewInodeOk(m, i, kind, parent);
    NewInodeVolume(m, s, i, kind, parent);
    DataFrame(WithNewInode(m, i, kind, parent).inodes, s, t);
  }

  /** luxfs_mark_inode_free's changes, whatever became of its sector writes. */
  lemma FreedInodeSteps(m: Meta, s: Sectors, i: nat, blockBitmap: seq<byte>, t: Sectors)
    requires Consistent(m, s) && 0 < i < MAX_INODES && SameData(s, t)
    requires |blockBitmap| == BLOCK_BITMAP_BYTES && Freed(m.inodes[i], m.blockBitmap, blockBitmap)
    ensures var m1 := WithFreedInode(m, i, blockBitmap);
      && Consistent(m1, t) && Keeps(m, m1)
      && VolumeOf(m1.inodes, t) == VolumeOf(m.inodes, s)[i := Free]
  {
    FreedInodeOk(m, i, blockBitmap);
    FreedInodeVolume(m, s, i, blockBitmap);
    DataFrame(WithFreedInode(m, i, blockBitmap).inodes, s, t);
  }

  // Which metadata sectors lag behind memory ---------------------------------------------------------

  lemma FlushedSector(m: Meta, s: Sectors, b: nat, lag: set<nat>)
    requires WellSized(m) && b < DATA_BLOCK_START && Tracks(m, s, lag)
    ensures Tracks(m, s[b := MetaImage(m, b)], lag - {b})
    ensures SameData(s, s[b := MetaImage(m, b)])
  {
  }

  lemma TracksFrame(m: Meta, s: Sectors, t: Sectors, lag: set<nat>)
    requires WellSized(m) && SameMetadata(s, t) && Tracks(m, s, lag)
    ensures Tracks(m, t, lag)
  {
  }

  lemma OtherTables(inodes: seq<Inode>, i: nat, n: Inode, k: nat)
    requires |inodes| == MAX_INODES && i < MAX_INODES && k < INODE_TABLE_BLOCKS && k != i / INODES_PER_BLOCK
    ensures TableImage(inodes[i := n], k) == TableImage(inodes, k)
  {
    assert inodes[i := n][INODES_PER_BLOCK * k..INODES_PER_BLOCK * (k + 1)]
        == inodes[INODES_PER_BLOCK * k..INODES_PER_BLOCK * (k + 1)];
  }

  /** Changing one inode makes no more than its own table sector lag. */
  lemma ChangedInode(m: Meta, s: Sectors, i: nat, n: Inode, lag: set<nat>)
    requires WellSized(m) && i < MAX_INODES && Tracks(m, s, lag)
    ensures Tracks(m.(inodes := m.inodes[i := n]), s, lag + {TableBlock(i)})
  {
    var m1 := m.(inodes := m.inodes[i := n]);
    forall b: nat | b < DATA_BLOCK_START && b !in lag + {TableBlock(i)} ensures s[b] == MetaImage(m1, b) {
      assert s[b] == MetaImage(m, b);
      if b >= INODE_TABLE_START {
        OtherTables(m.inodes, i, n, b - INODE_TABLE_START);
      }
    }
  }

  lemma ChangedInodeBitmap(m: Meta, s: Sectors, bitmap: seq<byte>, lag: set<nat>)
    requires WellSized(m) && |bitmap| == INODE_BITMAP_BYTES && Tracks(m, s, lag)
    ensures Tracks(m.(inodeBitmap := bitmap), s, lag + {INODE_BITMAP_BLOCK})
  {
    var m1 := m.(inodeBitmap := bitmap);
    forall b: nat | b < DATA_BLOCK_START && b !in lag + {INODE_BITMAP_BLOCK} ensures s[b] == MetaImage(m1, b) {
      assert s[b] == MetaImage(m, b);
    }
  }

  lemma ChangedBlockBitmap(m: Meta, s: Sectors, bitmap: seq<byte>, lag: set<nat>)
    requires WellSized(m) && |bitmap| == BLOCK_BITMAP_BYTES && Tracks(m, s, lag)
    ensures Tracks(m.(blockBitmap := bitmap), s, lag + {BLOCK_BITMAP_BLOCK})
  {
    var m1 := m.(blockBitmap := bitmap);
    forall b: nat | b < DATA_BLOCK_START && b !in lag + {BLOCK_BITMAP_BLOCK} ensures s[b] == MetaImage(m1, b) {
      assert s[b] == MetaImage(m, b);
    }
  }

  lemma ParentInRange(m: Meta, s: Sectors, i: nat)
    requires Consistent(m, s) && i < MAX_INODES
    ensures m.inodes[i].parent < MAX_INODES
    ensures ParentOf(VolumeOf(m.inodes, s)[i]) == m.inodes[i].parent
  {
    assert InodeOk(m.inodes[i]);
  }
}
