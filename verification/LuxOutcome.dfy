/** What fs_write promises, as a relation between the metadata and sectors before and after. */
module LuxOutcome {
  import opened Bytes
  import opened LuxFormat
  import opened SectorDisk
  import opened LuxVolume
  import opened LuxPaths
  import opened LuxLayout
  import opened LuxUpdates
  import opened LuxSpace
  import opened LuxWriting
  import opened LuxStops

  /** The bytes the file starts from. */
  function Base(n: Node, truncate: bool): Contents
    requires n.File?
  {
    if truncate then [] else n.contents
  }

  /** What a successful write leaves in the file. */
  function Result(base: Contents, offset: nat, data: seq<byte>): Contents {
    if data == [] then base else Written(base, offset, data)
  }

  /** fs_write's checks of its arguments against the file. */
  predicate Admissible(n: Node, offset: nat, data: seq<byte>, truncate: bool) {
    && n.File?
    && offset + |data| <= MAX_FILE_SIZE
    && (truncate || offset <= |n.contents|)
  }

  /** The inode that the write loop starts from. */
  function Start(n: Inode, truncate: bool): Inode {
    if truncate then Emptied(n) else n
  }

  /** The blocks free for the write, counting those that truncation gives back. */
  function Available(n: Inode, bitmap: seq<byte>, truncate: bool): nat
    requires |bitmap| == BLOCK_BITMAP_BYTES
  {
    FreeBlocks(bitmap) + Given(n, truncate)
  }

  /** The blocks that truncation gives back. */
  function Given(n: Inode, truncate: bool): nat {
    if truncate then Held(n) else 0
  }

  /** Enough free blocks for the write. */
  predicate Space(n: Inode, bitmap: seq<byte>, offset: nat, data: seq<byte>, truncate: bool)
    requires |bitmap| == BLOCK_BITMAP_BYTES
  {
    Missing(Start(n, truncate), offset, |data|) <= Available(n, bitmap, truncate)
  }

  lemma FileIsFile(m: Meta, s: Sectors, i: nat)
    requires Consistent(m, s) && i < MAX_INODES
    ensures VolumeOf(m.inodes, s)[i].File? <==> m.inodes[i].kind == NODE_FILE
    ensures m.inodes[i].kind == NODE_FILE ==> |VolumeOf(m.inodes, s)[i].contents| == m.inodes[i].size
  {
    assert InodeOk(m.inodes[i]);
  }

  /** What a write needs: no block where all that it reaches into are there, and the blocks that it reaches into
      where it truncates or the file has none. */
  lemma SpaceMeans(n: Inode, bitmap: seq<byte>, offset: nat, data: seq<byte>, truncate: bool)
    requires |bitmap| == BLOCK_BITMAP_BYTES && offset + |data| <= 4096 && data != []
    ensures !truncate && (forall k :: offset / 512 <= k <= (offset + |data| - 1) / 512 ==> n.direct[k] != INVALID_BLOCK) ==>
              Space(n, bitmap, offset, data, truncate)
    ensures truncate || n.direct == NoBlocks() ==>
              (Space(n, bitmap, offset, data, truncate) <==>
               (offset + |data| - 1) / 512 - offset / 512 + 1 <= FreeBlocks(bitmap) + (if truncate then Held(n) else 0))
  {
    var s := Start(n, truncate);
    if truncate || n.direct == NoBlocks() {
      TouchedCount(s, offset, |data|, DIRECT_BLOCKS);
    }
    if !truncate && forall k :: offset / 512 <= k <= (offset + |data| - 1) / 512 ==> n.direct[k] != INVALID_BLOCK {
      NoneMissing(n, offset, |data|, DIRECT_BLOCKS);
    }
  }

  /** The blocks and slots after a write that found space. */
  predicate Supplied(n0: Inode, bitmap0: seq<byte>, n: Inode, bitmap: seq<byte>, offset: nat, data: seq<byte>, truncate: bool)
    requires |bitmap0| == |bitmap| == BLOCK_BITMAP_BYTES
  {
    && FreeBlocks(bitmap) + Missing(Start(n0, truncate), offset, |data|) == Available(n0, bitmap0, truncate)
    && Slots(Start(n0, truncate), n, offset, |data|)
  }

  lemma NothingSupplied(n0: Inode, bitmap0: seq<byte>, n: Inode, bitmap: seq<byte>, offset: nat, truncate: bool)
    requires |bitmap0| == |bitmap| == BLOCK_BITMAP_BYTES
    requires n.direct == Start(n0, truncate).direct && FreeBlocks(bitmap) == Available(n0, bitmap0, truncate)
    ensures Supplied(n0, bitmap0, n, bitmap, offset, [], truncate)
    ensures Space(n0, bitmap0, offset, [], truncate)
  {
    MissingNothing(Start(n0, truncate), offset, DIRECT_BLOCKS);
  }

  /** After a write that found space, one behind it finds space if and only if one write of both would
      have, and leaves what that would have left. */
  lemma SuppliedMore(n0: Inode, bitmap0: seq<byte>, n1: Inode, bitmap1: seq<byte>, n: Inode, bitmap: seq<byte>,
                     offset: nat, first: seq<byte>, second: seq<byte>, truncate: bool)
    requires |bitmap0| == |bitmap1| == |bitmap| == BLOCK_BITMAP_BYTES
    requires Supplied(n0, bitmap0, n1, bitmap1, offset, first, truncate)
    ensures Space(n1, bitmap1, offset + |first|, second, false) <==> Space(n0, bitmap0, offset, first + second, truncate)
    ensures Supplied(n1, bitmap1, n, bitmap, offset + |first|, second, false) ==>
              Supplied(n0, bitmap0, n, bitmap, offset, first + second, truncate)
  {
    MissingConcat(Start(n0, truncate), n1, offset, |first|, |second|, DIRECT_BLOCKS);
    forall k | 0 <= k < DIRECT_BLOCKS
      ensures Touched(offset, |first + second|, k) <==>
              Touched(offset, |first|, k) || Touched(offset + |first|, |second|, k)
    {
      TouchedConcat(offset, |first|, |second|, k);
    }
  }

  /** Everything fs_write promises about the file `i` that the path names. */
  ghost predicate WriteOutcome(m0: Meta, s0: Sectors, m: Meta, s: Sectors, i: nat,
                               offset: nat, data: seq<byte>, truncate: bool, ok: bool, done: nat, reliable: bool)
    requires WellSized(m0) && WellSized(m)
  {
    var before, after := VolumeOf(m0.inodes, s0), VolumeOf(m.inodes, s);
    && i < MAX_INODES
    && (ok ==> Admissible(before[i], offset, data, truncate))
    && (if !Admissible(before[i], offset, data, truncate) then
          m == m0 && s == s0
        else
          && OnlyFileChanged(before, after, i)
          && (ok ==>
                && after[i].contents == Result(Base(before[i], truncate), offset, data)
                && Supplied(m0.inodes[i], m0.blockBitmap, m.inodes[i], m.blockBitmap, offset, data, truncate)
                && Keeps(m0, m))
          && (reliable ==>
                && Keeps(m0, m)
                && (ok <==> Space(m0.inodes[i], m0.blockBitmap, offset, data, truncate))
                && (!ok ==>
                      && RanOut(m0, m, i, offset, |data|, truncate, done)
                      && after[i].contents == Overwritten(Base(before[i], truncate), offset, data[..done]))))
  }

  /** What a write that is accepted does to the file in every run; its transfers are those from number
      `t` on: one for each block that truncation gives back, two for each block written, and one for the
      inode. When one of the first fails the file is empty, when only the last fails all data is there,
      and otherwise the data is there up to the block that could not be allocated or transferred. */
  ghost predicate WriteRun(m: Meta, before: Node, after: Contents, i: nat, offset: nat, data: seq<byte>, truncate: bool,
                           ok: bool, done: nat, disk: Disk, t: nat)
    requires WellSized(m) && i < MAX_INODES && before.File?
    reads disk`ready
  {
    var n, base, held := m.inodes[i], Base(before, truncate), Given(m.inodes[i], truncate);
    && (ok <==> DataWritten(m, i, offset, data, truncate, disk, t)
                && disk.Clear(t + held + 2 * BlocksTouched(offset, |data|), 1))
    && (if data == [] || DataWritten(m, i, offset, data, truncate, disk, t) then
          after == Result(base, offset, data)
        else
          && CutShort(base, after, offset, data, done)
          && (if disk.Clear(t, held) then
                CutAt(Start(n, truncate), Available(n, m.blockBitmap, truncate), offset, |data|, done, disk, t + held)
              else done == 0))
  }

  /** There is space for the write, and all its transfers but the last succeed. */
  ghost predicate DataWritten(m: Meta, i: nat, offset: nat, data: seq<byte>, truncate: bool, disk: Disk, t: nat)
    requires WellSized(m) && i < MAX_INODES
    reads disk`ready
  {
    var held := Given(m.inodes[i], truncate);
    && Space(m.inodes[i], m.blockBitmap, offset, data, truncate)
    && disk.Clear(t, held) && disk.Clear(t + held, 2 * BlocksTouched(offset, |data|))
  }

  /** What fs_write's truncation does, whatever transfers fail. */
  ghost predicate Truncation(m0: Meta, s0: Sectors, m1: Meta, s1: Sectors, i: nat) {
    && WellSized(m0) && WellSized(m1) && i < MAX_INODES && m1 == Truncated(m0, i, m1.blockBitmap)
    && Freed(m0.inodes[i], m0.blockBitmap, m1.blockBitmap)
    && FreeBlocks(m1.blockBitmap) == FreeBlocks(m0.blockBitmap) + Held(m0.inodes[i])
    && OnlyFileChanged(VolumeOf(m0.inodes, s0), VolumeOf(m1.inodes, s1), i)
    && VolumeOf(m1.inodes, s1)[i].contents == []
    && TablesKept(s0, s1) && Keeps(m0, m1)
  }

  lemma TruncatedRun(m0: Meta, s0: Sectors, m1: Meta, s1: Sectors, after: Contents, i: nat, offset: nat, data: seq<byte>,
                     ok: bool, done: nat, disk: Disk, t: nat)
    requires Truncation(m0, s0, m1, s1, i) && disk.Clear(t, Held(m0.inodes[i]))
    requires WriteRun(m1, VolumeOf(m1.inodes, s1)[i], after, i, offset, data, false, ok, done, disk, t + Held(m0.inodes[i]))
    ensures WriteRun(m0, VolumeOf(m0.inodes, s0)[i], after, i, offset, data, true, ok, done, disk, t)
  {
  }

  lemma TruncationFailed(m: Meta, before: Node, i: nat, offset: nat, data: seq<byte>, disk: Disk, t: nat)
    requires WellSized(m) && i < MAX_INODES && before.File? && !disk.Clear(t, Held(m.inodes[i]))
    ensures WriteRun(m, before, [], i, offset, data, true, false, 0, disk, t)
  {
  }

  /** A write that lacked space: the byte it stopped at, and whether the inode is as it was. */
  ghost predicate RanOut(m0: Meta, m: Meta, i: nat, offset: nat, count: nat, truncate: bool, done: nat)
    requires WellSized(m0) && WellSized(m) && i < MAX_INODES
  {
    && RunsOut(Start(m0.inodes[i], truncate), Available(m0.inodes[i], m0.blockBitmap, truncate), offset, count, done)
    && m == m0.(inodes := m0.inodes[i := m.inodes[i]], blockBitmap := m.blockBitmap)
    && (m.inodes[i] == m0.inodes[i] <==> Unaltered(m0.inodes[i], m0.blockBitmap, offset, truncate))
  }

  lemma WritingGrown(m0: Meta, s0: Sectors, m: Meta, s: Sectors, i: nat, offset: nat, data: seq<byte>, done: nat)
    requires Writing(m0, s0, m, s, i, offset, data, done)
    ensures Grown(m0.inodes[i], m.inodes[i], offset, done)
    ensures m == m0.(inodes := m0.inodes[i := m.inodes[i]], blockBitmap := m.blockBitmap)
  {
  }

  lemma PlainRanOut(m0: Meta, s0: Sectors, m: Meta, s: Sectors, i: nat, offset: nat, data: seq<byte>, done: nat)
    requires Writing(m0, s0, m, s, i, offset, data, done)
    requires RunsOut(m0.inodes[i], FreeBlocks(m0.blockBitmap), offset, |data|, done)
    ensures RanOut(m0, m, i, offset, |data|, false, done)
  {
    WritingGrown(m0, s0, m, s, i, offset, data, done);
    StoppedUnchanged(m0.inodes[i], m.inodes[i], FreeBlocks(m0.blockBitmap), offset, |data|, done);
  }

  lemma TruncatedRanOut(m0: Meta, m1: Meta, s1: Sectors, m: Meta, s: Sectors, i: nat, offset: nat, data: seq<byte>, done: nat)
    requires WellSized(m0) && i < MAX_INODES && |m1.blockBitmap| == BLOCK_BITMAP_BYTES
    requires m1 == Truncated(m0, i, m1.blockBitmap) && Freed(m0.inodes[i], m0.blockBitmap, m1.blockBitmap)
    requires FreeBlocks(m1.blockBitmap) == FreeBlocks(m0.blockBitmap) + Held(m0.inodes[i])
    requires Writing(m1, s1, m, s, i, offset, data, done)
    requires RunsOut(m1.inodes[i], FreeBlocks(m1.blockBitmap), offset, |data|, done)
    ensures RanOut(m0, m, i, offset, |data|, true, done)
  {
    WritingGrown(m1, s1, m, s, i, offset, data, done);
    RefilledUnchanged(m0.inodes[i], m.inodes[i], m0.blockBitmap, m1.blockBitmap, m.blockBitmap, offset, |data|, done);
  }

  /** What fs_write does after its truncation. */
  ghost predicate RestOutcome(m0: Meta, s0: Sectors, m: Meta, s: Sectors, i: nat, offset: nat, data: seq<byte>,
                              ok: bool, done: nat, reliable: bool)
  {
    && WellSized(m0) && WellSized(m) && i < MAX_INODES
    && var before, after := VolumeOf(m0.inodes, s0), VolumeOf(m.inodes, s);
    && OnlyFileChanged(before, after, i)
    && (ok ==>
          && after[i].contents == Result(before[i].contents, offset, data)
          && Supplied(m0.inodes[i], m0.blockBitmap, m.inodes[i], m.blockBitmap, offset, data, false)
          && Keeps(m0, m))
    && (reliable ==> (ok <==> Space(m0.inodes[i], m0.blockBitmap, offset, data, false)))
    && (!ok && reliable ==>
          && done < |data| && after[i].contents == Overwritten(before[i].contents, offset, data[..done])
          && Writing(m0, s0, m, s, i, offset, data, done)
          && RunsOut(m0.inodes[i], FreeBlocks(m0.blockBitmap), offset, |data|, done)
          && Keeps(m0, m))
  }

  lemma PlainOutcome(m0: Meta, s0: Sectors, m: Meta, s: Sectors, i: nat, offset: nat, data: seq<byte>,
                     ok: bool, done: nat, reliable: bool)
    requires RestOutcome(m0, s0, m, s, i, offset, data, ok, done, reliable)
    requires Admissible(VolumeOf(m0.inodes, s0)[i], offset, data, false)
    ensures WriteOutcome(m0, s0, m, s, i, offset, data, false, ok, done, reliable)
    ensures !ok && reliable ==> TablesKept(s0, s)
  {
    if !ok && reliable {
      PlainRanOut(m0, s0, m, s, i, offset, data, done);
    }
  }

  lemma TruncatedOutcome(m0: Meta, s0: Sectors, m1: Meta, s1: Sectors, m: Meta, s: Sectors, i: nat, offset: nat,
                         data: seq<byte>, ok: bool, done: nat, reliable: bool)
    requires Truncation(m0, s0, m1, s1, i)
    requires RestOutcome(m1, s1, m, s, i, offset, data, ok, done, reliable)
    requires Admissible(VolumeOf(m0.inodes, s0)[i], offset, data, true)
    ensures WriteOutcome(m0, s0, m, s, i, offset, data, true, ok, done, reliable)
    ensures !ok && reliable ==> TablesKept(s0, s)
  {
    if !ok && reliable {
      TruncatedRanOut(m0, m1, s1, m, s, i, offset, data, done);
    }
  }

  lemma TruncatedFile(m0: Meta, s0: Sectors, m1: Meta, s1: Sectors, i: nat, offset: nat)
    requires Truncation(m0, s0, m1, s1, i) && m0.inodes[i].kind == NODE_FILE
    ensures m1.inodes[i].kind == NODE_FILE && Writable(m1.inodes[i], offset)
  {
  }

  /** The write behind a truncation, or none when that failed. */
  lemma TruncatedWrite(m0: Meta, s0: Sectors, m1: Meta, s1: Sectors, m: Meta, s: Sectors, i: nat, offset: nat,
                       data: seq<byte>, ok: bool, done: nat, disk: Disk, t: nat)
    requires Truncation(m0, s0, m1, s1, i) && Admissible(VolumeOf(m0.inodes, s0)[i], offset, data, true) && WellSized(m)
    requires if disk.Clear(t, Held(m0.inodes[i])) then
               && RestOutcome(m1, s1, m, s, i, offset, data, ok, done, disk.Reliable())
               && WriteRun(m1, VolumeOf(m1.inodes, s1)[i], VolumeOf(m.inodes, s)[i].contents, i, offset, data, false,
                           ok, done, disk, t + Held(m0.inodes[i]))
             else m == m1 && s == s1 && !ok && done == 0
    ensures WriteOutcome(m0, s0, m, s, i, offset, data, true, ok, done, disk.Reliable())
    ensures WriteRun(m0, VolumeOf(m0.inodes, s0)[i], VolumeOf(m.inodes, s)[i].contents, i, offset, data, true,
                     ok, done, disk, t)
    ensures !ok && disk.Reliable() ==> TablesKept(s0, s)
  {
    if disk.Clear(t, Held(m0.inodes[i])) {
      TruncatedRun(m0, s0, m1, s1, VolumeOf(m.inodes, s)[i].contents, i, offset, data, ok, done, disk, t);
      TruncatedOutcome(m0, s0, m1, s1, m, s, i, offset, data, ok, done, disk.Reliable());
    } else {
      TruncationFailed(m0, VolumeOf(m0.inodes, s0)[i], i, offset, data, disk, t);
    }
  }

  /** A write that leaves the disk behind memory when no transfer fails: it is accepted, there is no
      space for it, and it has changed the inode before that shows. */
  predicate LeavesBehind(m: Meta, s: Sectors, path: seq<byte>, offset: nat, data: seq<byte>, truncate: bool)
    requires WellSized(m)
  {
    && Resolved(VolumeOf(m.inodes, s), path).Some?
    && var i := Resolved(VolumeOf(m.inodes, s), path).value;
    && Admissible(VolumeOf(m.inodes, s)[i], offset, data, truncate)
    && !Space(m.inodes[i], m.blockBitmap, offset, data, truncate)
    && !Unaltered(m.inodes[i], m.blockBitmap, offset, truncate)
  }

  lemma TracksMore(m: Meta, s: Sectors, lag: set<nat>, more: set<nat>)
    requires WellSized(m) && Tracks(m, s, lag) && lag <= more
    ensures Tracks(m, s, more)
  {
  }

  /** Whether a stopped write left the disk as far abreast of memory as it was. */
  lemma RanOutAbreast(m0: Meta, s0: Sectors, m: Meta, s: Sectors, i: nat, offset: nat, count: nat, truncate: bool,
                      done: nat, lag0: set<nat>, lag: set<nat>)
    requires WellSized(m0) && WellSized(m) && i < MAX_INODES && RanOut(m0, m, i, offset, count, truncate, done)
    requires Tracks(m0, s0, lag0) && TablesKept(s0, s) && Tracks(m, s, lag) && lag <= lag0 + {TableBlock(i)}
    ensures Unaltered(m0.inodes[i], m0.blockBitmap, offset, truncate) ==> Tracks(m, s, lag0)
    ensures lag0 == {} && Tracks(m, s, {}) ==> Unaltered(m0.inodes[i], m0.blockBitmap, offset, truncate)
  {
    if TableBlock(i) in lag0 {
      TracksMore(m, s, lag, lag0);
    } else {
      TracksMore(m, s, lag, lag0 + {TableBlock(i)});
      AbreastIff(m0, s0, m, s, i, lag0);
    }
  }

  // A concrete partial overwrite -----------------------------------------------------------------------

  /** A bitmap without a free block. */
  function FullBitmap(): seq<byte> {
    seq(BLOCK_BITMAP_BYTES, _ => 0xFF)
  }

  lemma FullIsFull()
    ensures FreeBlocks(FullBitmap()) == 0
  {
    forall b | 0 <= b < DATA_BLOCK_COUNT ensures Bitmap.Bit(FullBitmap(), b) {
      AllOnes(b % 8);
    }
    NoneFree(FullBitmap(), DATA_BLOCK_COUNT);
  }

  lemma AllOnes(k: nat)
    requires k < 8
    ensures Bitmap.TestBit(0xFF, k)
  {
    if k == 0 {} else if k == 1 {} else if k == 2 {} else if k == 3 {}
    else if k == 4 {} else if k == 5 {} else if k == 6 {} else { assert k == 7; }
  }

  /** Writing 513 bytes over a file of one block when the disk is full fails after 512 of them, and
      these have replaced the old ones. */
  lemma PartialOverwrite(n: Inode, base: seq<byte>, data: seq<byte>)
    requires n.direct[0] != INVALID_BLOCK && n.direct[1] == INVALID_BLOCK && |base| == 512 && |data| == 513
    ensures !Space(n, FullBitmap(), 0, data, false)
    ensures RunsOut(n, 0, 0, 513, 512) && forall d: nat :: RunsOut(n, 0, 0, 513, d) ==> d == 512
    ensures Overwritten(Stored(base), 0, data[..512]) == Stored(data[..512])
  {
    FullIsFull();
    NoneMissing(n, 0, 512, DIRECT_BLOCKS);
    NoneMissing(n, 0, 513, DIRECT_BLOCKS);
    assert Touched(0, 513, 1);
    forall d: nat | RunsOut(n, 0, 0, 513, d) ensures d == 512 {
      NoneMissing(n, 0, d + 1, DIRECT_BLOCKS);
    }
  }
}
