/** Writing into a file: the loop of fs_write, step by step, and what it leaves behind when the
    disk is full. */
module LuxWriting {
  import opened Bytes
  import opened LuxFormat
  import opened SectorDisk
  import opened LuxVolume
  import opened LuxLayout
  import opened LuxUpdates
  import opened LuxStorage
  import opened LuxSpace

  /** `offset` is a place where a write may start: inside the file, or anywhere in a file whose
      blocks have just been released. */
  predicate Writable(n: Inode, offset: nat) {
    offset <= n.size || (n.size == 0 && forall k :: 0 <= k < DIRECT_BLOCKS ==> n.direct[k] == INVALID_BLOCK)
  }

  /** The first `done` bytes of `data` are laid over file `i` at `offset`. */
  ghost predicate Writing(m0: Meta, s0: Sectors, m: Meta, s: Sectors, i: nat, offset: nat, data: seq<byte>, done: nat) {
    && Consistent(m0, s0) && Consistent(m, s)
    && i < MAX_INODES && m0.inodes[i].kind == NODE_FILE && Writable(m0.inodes[i], offset)
    && done <= |data| && offset + |data| <= MAX_FILE_SIZE
    && Storing(m0, s0, m, s, i, offset, data[..done])
    && Accounted(m0.inodes[i], m0.blockBitmap, m.blockBitmap, offset, done)
    && InOrder(m0.inodes[i], m.inodes[i], m0.blockBitmap, m.blockBitmap)
    && TablesKept(s0, s)
  }

  lemma WritingNothing(m: Meta, s: Sectors, i: nat, offset: nat, data: seq<byte>)
    requires Consistent(m, s) && i < MAX_INODES && m.inodes[i].kind == NODE_FILE && Writable(m.inodes[i], offset)
    requires offset + |data| <= MAX_FILE_SIZE
    ensures Writing(m, s, m, s, i, offset, data, 0)
  {
    StoringNothing(m, s, i, offset);
    MissingNothing(m.inodes[i], offset, DIRECT_BLOCKS);
  }

  /** Metadata and the other nodes survive whatever happened to a file's data. */
  lemma FileContained(m0: Meta, s0: Sectors, m: Meta, s: Sectors, i: nat)
    requires Consistent(m0, s0) && i < MAX_INODES && m0.inodes[i].kind == NODE_FILE
    requires Contained(m0, s0, m, s, i)
    ensures Consistent(m, s)
    ensures VolumeOf(m.inodes, s) == VolumeOf(m0.inodes, s0)[i := NodeOf(m.inodes[i], s)]
    ensures NodeOf(m.inodes[i], s).File? && ParentOf(NodeOf(m.inodes[i], s)) == m0.inodes[i].parent
  {
    ContainedOk(m0, s0, m, s, i);
    ContainedVolume(m0, s0, m, s, i);
    RecordsInRangeUpdate(VolumeOf(m0.inodes, s0), i, NodeOf(m.inodes[i], s));
  }

  lemma WritingMore(m0: Meta, s0: Sectors, m1: Meta, s1: Sectors, m: Meta, s: Sectors, i: nat,
                    offset: nat, data: seq<byte>, done: nat, here: nat, chunk: nat, piece: seq<byte>)
    requires Writing(m0, s0, m1, s1, i, offset, data, done)
    requires here == offset + done && InOneBlock(here, piece)
    requires done + chunk <= |data| && piece == data[done..done + chunk]
    requires Storing(m1, s1, m, s, i, here, piece) && TablesKept(s1, s)
    requires if m1.inodes[i].direct[here / SECTOR_SIZE] != INVALID_BLOCK then m.blockBitmap == m1.blockBitmap
             else LowestTaken(m1.blockBitmap, m.blockBitmap, m.inodes[i].direct[here / SECTOR_SIZE])
    ensures Writing(m0, s0, m, s, i, offset, data, done + chunk)
  {
    var more := done + chunk;
    StoringMore(m0, s0, m1, s1, m, s, i, offset, data, done, more);
    StoringConsistent(m0, s0, m, s, i, offset, data[..more]);
    ChunkAccounted(m0, s0, m1, s1, m, s, i, offset, data[..done], here, piece);
    ChunkInOrder(m0, s0, m1, s1, m, s, i, offset, data[..done], here, piece);
  }

  lemma StoringConsistent(m0: Meta, s0: Sectors, m: Meta, s: Sectors, i: nat, offset: nat, data: seq<byte>)
    requires Consistent(m0, s0) && i < MAX_INODES && m0.inodes[i].kind == NODE_FILE
    requires Storing(m0, s0, m, s, i, offset, data)
    ensures Consistent(m, s)
  {
    FileContained(m0, s0, m, s, i);
  }

  lemma ChunkAccounted(m0: Meta, s0: Sectors, m1: Meta, s1: Sectors, m: Meta, s: Sectors, i: nat,
                       offset: nat, laid: seq<byte>, here: nat, piece: seq<byte>)
    requires Storing(m0, s0, m1, s1, i, offset, laid) && Storing(m1, s1, m, s, i, here, piece)
    requires here == offset + |laid| && InOneBlock(here, piece)
    requires Accounted(m0.inodes[i], m0.blockBitmap, m1.blockBitmap, offset, |laid|)
    requires if m1.inodes[i].direct[here / SECTOR_SIZE] != INVALID_BLOCK then m.blockBitmap == m1.blockBitmap
             else LowestTaken(m1.blockBitmap, m.blockBitmap, m.inodes[i].direct[here / SECTOR_SIZE])
    ensures Accounted(m0.inodes[i], m0.blockBitmap, m.blockBitmap, offset, |laid| + |piece|)
  {
    AccountedStep(m0.inodes[i], s0, m1.inodes[i], s1, m0.blockBitmap, m1.blockBitmap, m.blockBitmap,
                  offset, laid, |piece|, m.inodes[i].direct[here / SECTOR_SIZE]);
  }

  lemma ChunkInOrder(m0: Meta, s0: Sectors, m1: Meta, s1: Sectors, m: Meta, s: Sectors, i: nat,
                     offset: nat, laid: seq<byte>, here: nat, piece: seq<byte>)
    requires Storing(m0, s0, m1, s1, i, offset, laid) && Storing(m1, s1, m, s, i, here, piece)
    requires here == offset + |laid| && InOneBlock(here, piece)
    requires InOrder(m0.inodes[i], m1.inodes[i], m0.blockBitmap, m1.blockBitmap)
    requires if m1.inodes[i].direct[here / SECTOR_SIZE] != INVALID_BLOCK then m.blockBitmap == m1.blockBitmap
             else LowestTaken(m1.blockBitmap, m.blockBitmap, m.inodes[i].direct[here / SECTOR_SIZE])
    ensures InOrder(m0.inodes[i], m.inodes[i], m0.blockBitmap, m.blockBitmap)
  {
    var n0, n1, n, k := m0.inodes[i], m1.inodes[i], m.inodes[i], here / SECTOR_SIZE;
    forall l | 0 <= l < DIRECT_BLOCKS && l != k ensures n.direct[l] == n1.direct[l] {
      OnlyBlockTouched(here, piece, l);
    }
    InOrderStep(n0, n1, n, m0.blockBitmap, m1.blockBitmap, m.blockBitmap, k);
  }

  function Resized(m: Meta, i: nat, size: u32): Meta
    requires WellSized(m) && i < MAX_INODES
  {
    m.(inodes := m.inodes[i := m.inodes[i].(size := size)])
  }

  /** All of `data` is laid and the size raised: the file holds `Written`. */
  lemma WritingDone(m0: Meta, s0: Sectors, m: Meta, s: Sectors, i: nat, offset: nat, data: seq<byte>, size: u32)
    requires Writing(m0, s0, m, s, i, offset, data, |data|)
    requires size == Max(m0.inodes[i].size, offset + |data|)
    ensures Consistent(Resized(m, i, size), s) && Keeps(m0, Resized(m, i, size))
    ensures var v0 := VolumeOf(m0.inodes, s0);
      && v0[i].File?
      && VolumeOf(Resized(m, i, size).inodes, s)
         == v0[i := File(v0[i].parent, Written(v0[i].contents, offset, data))]
    ensures Missing(m0.inodes[i], offset, |data|) <= FreeBlocks(m0.blockBitmap)
  {
    assert data[..|data|] == data;
    assert InodeOk(m0.inodes[i]);
    ResizedOk(m0, s0, m, s, i, size);
    ResizedVolume(m0, s0, m, s, i, offset, data, size);
  }

  lemma ResizedOk(m0: Meta, s0: Sectors, m: Meta, s: Sectors, i: nat, size: u32)
    requires MetaOk(m0) && Contained(m0, s0, m, s, i) && m0.inodes[i].kind == NODE_FILE && size <= MAX_FILE_SIZE
    requires NoLeak(m0.inodes, m0.blockBitmap) ==> NoLeak(m.inodes, m.blockBitmap)
    ensures MetaOk(Resized(m, i, size)) && Keeps(m0, Resized(m, i, size))
  {
    ContainedOk(m0, s0, m, s, i);
    var n: Inode := m.inodes[i].(size := size);
    assert InodeOk(m.inodes[i]);
    assert InodeOk(n);
    SameKindOk(m, i, n);
    SamePointers(m.inodes, i, n, m.blockBitmap);
    if TightDirectories(m0.inodes) {
      TightUpdate(m0.inodes, i, n);
      assert m.inodes[i := n] == m0.inodes[i := n];
    }
  }

  lemma ResizedVolume(m0: Meta, s0: Sectors, m: Meta, s: Sectors, i: nat, offset: nat, data: seq<byte>, size: u32)
    requires Consistent(m0, s0) && i < MAX_INODES && m0.inodes[i].kind == NODE_FILE && Writable(m0.inodes[i], offset)
    requires offset + |data| <= MAX_FILE_SIZE && Storing(m0, s0, m, s, i, offset, data)
    requires size == Max(m0.inodes[i].size, offset + |data|)
    ensures var v0 := VolumeOf(m0.inodes, s0); var v := VolumeOf(Resized(m, i, size).inodes, s);
      && v0[i].File? && v == v0[i := File(v0[i].parent, Written(v0[i].contents, offset, data))]
      && RecordsInRange(v)
  {
    var v0 := VolumeOf(m0.inodes, s0);
    var n: Inode := m.inodes[i].(size := size);
    assert InodeOk(m0.inodes[i]);
    OverlaidFile(m0.inodes[i], s0, m.inodes[i], s, offset, data, size);
    ContainedVolume(m0, s0, m, s, i);
    VolumeUpdate(m.inodes, s, i, n);
    RecordsInRangeUpdate(v0, i, NodeOf(n, s));
  }

  /** A write that ran out of blocks after `done` bytes: those bytes are in place as far as the
      old size reaches, and the size is the old one. */
  ghost predicate Stopped(before: Volume, after: Volume, i: nat, offset: nat, data: seq<byte>, done: nat) {
    && i < |before| && before[i].File? && done < |data|
    && after == before[i := File(before[i].parent, Overwritten(before[i].contents, offset, data[..done]))]
  }

  function Overwritten(base: Contents, offset: nat, data: seq<byte>): (c: Contents)
    ensures |c| == |base|
  {
    Written(base, offset, data)[..|base|]
  }

  /** With `free` blocks left, a write of `count` bytes stops after `done`: these need every free
      block, and the next one needs one more. */
  predicate RunsOut(n: Inode, free: nat, offset: nat, count: nat, done: nat) {
    done < count && Missing(n, offset, done) == free < Missing(n, offset, done + 1)
  }

  lemma WritingStopped(m0: Meta, s0: Sectors, m: Meta, s: Sectors, i: nat, offset: nat, data: seq<byte>, done: nat)
    requires Writing(m0, s0, m, s, i, offset, data, done) && done < |data|
    requires m.inodes[i].direct[(offset + done) / SECTOR_SIZE] == INVALID_BLOCK && !HasFree(m.blockBitmap)
    ensures Stopped(VolumeOf(m0.inodes, s0), VolumeOf(m.inodes, s), i, offset, data, done)
    ensures Keeps(m0, m)
    ensures RunsOut(m0.inodes[i], FreeBlocks(m0.blockBitmap), offset, |data|, done)
    ensures Missing(m0.inodes[i], offset, |data|) > FreeBlocks(m0.blockBitmap)
  {
    assert InodeOk(m0.inodes[i]);
    FileContained(m0, s0, m, s, i);
    OverlaidPartly(m0.inodes[i], s0, m.inodes[i], s, offset, data[..done]);
    NotEnough(m0.inodes[i], s0, m.inodes[i], s, m0.blockBitmap, m.blockBitmap, offset, data[..done], |data|);
    NotEnough(m0.inodes[i], s0, m.inodes[i], s, m0.blockBitmap, m.blockBitmap, offset, data[..done], done + 1);
    NoneFree(m.blockBitmap, DATA_BLOCK_COUNT);
    if TightDirectories(m0.inodes) {
      TightUpdate(m0.inodes, i, m.inodes[i]);
    }
  }

  /** A stopped append has changed nothing that can be seen. */
  lemma StoppedAppendInvisible(base: Contents, data: seq<byte>)
    requires Dense(base)
    ensures Overwritten(base, |base|, data) == base
  {
  }

  /** A failed transfer in the middle of a write damages that file only. */
  lemma WritingDamaged(m0: Meta, s0: Sectors, m1: Meta, s1: Sectors, m: Meta, s: Sectors, i: nat,
                       offset: nat, data: seq<byte>, done: nat)
    requires Writing(m0, s0, m1, s1, i, offset, data, done) && Contained(m1, s1, m, s, i)
    ensures OnlyFileChanged(VolumeOf(m0.inodes, s0), VolumeOf(m.inodes, s), i)
  {
    ContainedConcat(m0, s0, m1, s1, m, s, i);
    FileContained(m0, s0, m, s, i);
  }

  // Failed transfers -----------------------------------------------------------------------------

  /** A chunk that could not be put in block `k` has left the data sectors as they were, and of the
      pointers all but that of an empty slot `k`. */
  ghost predicate Unfinished(n1: Inode, s1: Sectors, n: Inode, s: Sectors, k: nat) {
    && SameData(s1, s) && n == n1.(direct := n.direct)
    && forall l :: 0 <= l < DIRECT_BLOCKS && (l != k || n1.direct[l] != INVALID_BLOCK) ==> n.direct[l] == n1.direct[l]
  }

  /** A write that ended early after `done` bytes: these are in place as far as the old size reaches, and
      nothing else has changed, but that a hole in the block of the next byte may have been filled
      with what the disk held. */
  ghost predicate CutShort(before: Contents, after: Contents, offset: nat, data: seq<byte>, done: nat) {
    && done < |data| && |after| == |before|
    && var laid := Overwritten(before, offset, data[..done]);
       forall p :: 0 <= p < |before| && (p / SECTOR_SIZE != (offset + done) / SECTOR_SIZE || laid[p].Some?) ==>
         after[p] == laid[p]
  }

  /** Where a write of `count` bytes ends early: at the first block that is missing when none is free, or of
      which one of the two transfers fails. */
  ghost predicate CutAt(n: Inode, free: nat, offset: nat, count: nat, done: nat, disk: Disk, t: nat)
    reads disk`ready
  {
    && done < count && AtBlockEnd(offset, done, count)
    && disk.Clear(t, 2 * BlocksTouched(offset, done))
    && (RunsOut(n, free, offset, count, done) || !disk.Clear(t + 2 * BlocksTouched(offset, done), 2))
  }

  lemma CutFails(n: Inode, free: nat, offset: nat, count: nat, done: nat, disk: Disk, t: nat)
    requires CutAt(n, free, offset, count, done, disk, t)
    ensures !(Missing(n, offset, count) <= free && disk.Clear(t, 2 * BlocksTouched(offset, count)))
  {
    var chunk := ChunkAt(offset + done, count - done);
    OneMoreBlock(offset, done, chunk, count);
    MissingMonotone(n, offset, done + 1, count, DIRECT_BLOCKS);
    MoreBlocks(offset, done + chunk, count);
    var a, rest := 2 * BlocksTouched(offset, done), 2 * (BlocksTouched(offset, count) - BlocksTouched(offset, done) - 1);
    disk.InTwoParts(t, a, 2 + rest);
    disk.InTwoParts(t + a, 2, rest);
  }

  /** A write's loop that has ended after `done` bytes. */
  ghost predicate EndedEarly(m0: Meta, s0: Sectors, m: Meta, s: Sectors, i: nat, offset: nat, data: seq<byte>, done: nat,
                             disk: Disk, t: nat)
    requires WellSized(m0) && WellSized(m) && i < MAX_INODES
    reads disk`ready
  {
    var before, after, n, free := VolumeOf(m0.inodes, s0), VolumeOf(m.inodes, s), m0.inodes[i], FreeBlocks(m0.blockBitmap);
    && OnlyFileChanged(before, after, i)
    && CutShort(before[i].contents, after[i].contents, offset, data, done)
    && CutAt(n, free, offset, |data|, done, disk, t)
    && !(Missing(n, offset, |data|) <= free && disk.Clear(t, 2 * BlocksTouched(offset, |data|)))
    && (disk.Reliable() ==>
          && Stopped(before, after, i, offset, data, done)
          && Writing(m0, s0, m, s, i, offset, data, done)
          && RunsOut(n, free, offset, |data|, done)
          && Missing(n, offset, |data|) > free
          && Keeps(m0, m))
  }

  /** An append that ended early, for whatever reason, has changed nothing that can be read. */
  lemma CutAppendInvisible(before: Contents, after: Contents, data: seq<byte>, done: nat)
    requires Dense(before) && CutShort(before, after, |before|, data, done)
    ensures after == before
  {
    StoppedAppendInvisible(before, data[..done]);
  }

  lemma UnfinishedContents(n1: Inode, s1: Sectors, n: Inode, s: Sectors, k: nat, p: nat)
    requires Unfinished(n1, s1, n, s, k) && n1.size <= MAX_FILE_SIZE && p < n1.size
    requires forall l :: 0 <= l < DIRECT_BLOCKS && n1.direct[l] != INVALID_BLOCK ==> n1.direct[l] < DATA_BLOCK_COUNT
    requires p / SECTOR_SIZE != k || FileContents(n1, s1)[p].Some?
    ensures FileContents(n, s)[p] == FileContents(n1, s1)[p]
  {
  }

  lemma WritingCut(m0: Meta, s0: Sectors, m1: Meta, s1: Sectors, m: Meta, s: Sectors, i: nat,
                   offset: nat, data: seq<byte>, done: nat)
    requires Writing(m0, s0, m1, s1, i, offset, data, done) && done < |data| && WellSized(m)
    requires Unfinished(m1.inodes[i], s1, m.inodes[i], s, (offset + done) / SECTOR_SIZE)
    ensures CutShort(FileContents(m0.inodes[i], s0), FileContents(m.inodes[i], s), offset, data, done)
  {
    var n0, n1, n := m0.inodes[i], m1.inodes[i], m.inodes[i];
    assert InodeOk(n0);
    OverlaidPartly(n0, s0, n1, s1, offset, data[..done]);
    forall l | 0 <= l < DIRECT_BLOCKS && n1.direct[l] != INVALID_BLOCK ensures n1.direct[l] < DATA_BLOCK_COUNT {
      assert Ptr(m1.inodes, i, l) < DATA_BLOCK_COUNT;
    }
    var laid := Overwritten(FileContents(n0, s0), offset, data[..done]);
    forall p | 0 <= p < n0.size && (p / SECTOR_SIZE != (offset + done) / SECTOR_SIZE || laid[p].Some?)
      ensures FileContents(n, s)[p] == laid[p]
    {
      UnfinishedContents(n1, s1, n, s, (offset + done) / SECTOR_SIZE, p);
    }
  }

  /** Nothing but the contents of file `i` may differ. */
  ghost predicate OnlyFileChanged(before: Volume, after: Volume, i: nat) {
    && i < |before| && before[i].File? && after[i].File?
    && after == before[i := File(before[i].parent, after[i].contents)]
  }

  // Truncation -------------------------------------------------------------------------------------

  function Truncated(m: Meta, i: nat, blockBitmap: seq<byte>): Meta
    requires WellSized(m) && i < MAX_INODES
  {
    m.(inodes := m.inodes[i := Emptied(m.inodes[i])], blockBitmap := blockBitmap)
  }

  /** Releasing a file's blocks leaves an empty file. */
  lemma TruncatedOk(m: Meta, s: Sectors, i: nat, blockBitmap: seq<byte>, t: Sectors)
    requires Consistent(m, s) && i < MAX_INODES && m.inodes[i].kind == NODE_FILE && SameData(s, t)
    requires |blockBitmap| == BLOCK_BITMAP_BYTES && Freed(m.inodes[i], m.blockBitmap, blockBitmap)
    ensures var m1 := Truncated(m, i, blockBitmap); var v := VolumeOf(m.inodes, s);
      && Consistent(m1, t) && Keeps(m, m1) && Writable(m1.inodes[i], 0)
      && v[i].File? && VolumeOf(m1.inodes, t) == v[i := File(v[i].parent, [])]
  {
    var n := Emptied(m.inodes[i]);
    TruncatedMetaOk(m, i, blockBitmap);
    VolumeUpdate(m.inodes, s, i, n);
    assert FileContents(n, s) == [];
    RecordsInRangeUpdate(VolumeOf(m.inodes, s), i, NodeOf(n, s));
    DataFrame(m.inodes[i := n], s, t);
  }

  lemma TruncatedMetaOk(m: Meta, i: nat, blockBitmap: seq<byte>)
    requires MetaOk(m) && i < MAX_INODES && m.inodes[i].kind == NODE_FILE
    requires |blockBitmap| == BLOCK_BITMAP_BYTES && Freed(m.inodes[i], m.blockBitmap, blockBitmap)
    ensures MetaOk(Truncated(m, i, blockBitmap)) && Keeps(m, Truncated(m, i, blockBitmap))
  {
    var n := Emptied(m.inodes[i]);
    var after := m.inodes[i := n];
    ReleaseBlocks(m.inodes, m.blockBitmap, i, blockBitmap);
    forall j | 0 <= j < MAX_INODES ensures InodeOk(after[j]) {
      assert InodeOk(m.inodes[j]);
    }
    if TightDirectories(m.inodes) {
      TightUpdate(m.inodes, i, n);
    }
  }
}
