/** Counting blocks: when a write finds enough free ones. */
module LuxSpace {
  import opened Bytes
  import opened Bitmap
  import opened LuxFormat
  import opened SectorDisk
  import opened LuxVolume
  import opened LuxLayout
  import opened LuxUpdates
  import opened LuxStorage

  /** The number of unmarked blocks below `n`. */
  function FreeBelow(bitmap: seq<byte>, n: nat): nat
    requires n <= 8 * |bitmap|
  {
    if n == 0 then 0 else FreeBelow(bitmap, n - 1) + (if Bit(bitmap, n - 1) then 0 else 1)
  }

  function FreeBlocks(bitmap: seq<byte>): nat
    requires |bitmap| == BLOCK_BITMAP_BYTES
  {
    FreeBelow(bitmap, DATA_BLOCK_COUNT)
  }

  lemma {:induction false} MarkedOneMore(bitmap: seq<byte>, b: nat, n: nat)
    requires b < 8 * |bitmap| && n <= 8 * |bitmap| && !Bit(bitmap, b)
    ensures FreeBelow(Put(bitmap, b, true), n) == FreeBelow(bitmap, n) - (if b < n then 1 else 0)
  {
    if n > 0 {
      MarkedOneMore(bitmap, b, n - 1);
      PutBitOnly(bitmap, b, true, n - 1);
    }
  }

  lemma {:induction false} NoneFree(bitmap: seq<byte>, n: nat)
    requires n <= 8 * |bitmap|
    ensures FreeBelow(bitmap, n) == 0 <==> forall b :: 0 <= b < n ==> Bit(bitmap, b)
  {
    if n > 0 {
      NoneFree(bitmap, n - 1);
    }
  }

  lemma {:induction false} AllFree(bitmap: seq<byte>, n: nat)
    requires n <= 8 * |bitmap| && forall b :: 0 <= b < n ==> !Bit(bitmap, b)
    ensures FreeBelow(bitmap, n) == n
  {
    if n > 0 {
      AllFree(bitmap, n - 1);
    }
  }

  /** A new volume has 4077 free blocks. */
  lemma NewVolumeFree()
    ensures FreeBlocks(Zeros(BLOCK_BITMAP_BYTES)) == 4077
  {
    forall b | 0 <= b < DATA_BLOCK_COUNT ensures !Bit(Zeros(BLOCK_BITMAP_BYTES), b) {
      ZeroBitmap(BLOCK_BITMAP_BYTES, b);
    }
    AllFree(Zeros(BLOCK_BITMAP_BYTES), DATA_BLOCK_COUNT);
  }

  /** How many of the first `k` slots are empty and touched by `count` bytes at `offset`. */
  function MissingBelow(n: Inode, offset: nat, count: nat, k: nat): nat
    requires k <= DIRECT_BLOCKS
  {
    if k == 0 then 0
    else MissingBelow(n, offset, count, k - 1)
         + (if Touched(offset, count, k - 1) && n.direct[k - 1] == INVALID_BLOCK then 1 else 0)
  }

  /** The number of blocks that a write of `count` bytes at `offset` has to allocate. */
  function Missing(n: Inode, offset: nat, count: nat): nat {
    MissingBelow(n, offset, count, DIRECT_BLOCKS)
  }

  lemma {:induction false} MissingGrows(n: Inode, offset: nat, a: nat, c: nat, k: nat)
    requires k <= DIRECT_BLOCKS && c > 0 && (offset + a) / SECTOR_SIZE == (offset + a + c - 1) / SECTOR_SIZE
    ensures var b := (offset + a) / SECTOR_SIZE;
      MissingBelow(n, offset, a + c, k) == MissingBelow(n, offset, a, k) +
        (if b < k && n.direct[b] == INVALID_BLOCK && !Touched(offset, a, b) then 1 else 0)
  {
    if k > 0 {
      MissingGrows(n, offset, a, c, k - 1);
      TouchedConcat(offset, a, c, k - 1);
    }
  }

  lemma {:induction false} MissingNothing(n: Inode, offset: nat, k: nat)
    requires k <= DIRECT_BLOCKS
    ensures MissingBelow(n, offset, 0, k) == 0
  {
    if k > 0 {
      MissingNothing(n, offset, k - 1);
    }
  }

  lemma {:induction false} MissingMonotone(n: Inode, offset: nat, a: nat, b: nat, k: nat)
    requires k <= DIRECT_BLOCKS && a <= b
    ensures MissingBelow(n, offset, a, k) <= MissingBelow(n, offset, b, k)
  {
    if k > 0 {
      MissingMonotone(n, offset, a, b, k - 1);
      TouchedConcat(offset, a, b - a, k - 1);
    }
  }

  /** What a write misses after another has filled its slots is what the two miss together, less what
      the first did. */
  lemma {:induction false} MissingConcat(n0: Inode, n: Inode, offset: nat, a: nat, b: nat, k: nat)
    requires k <= DIRECT_BLOCKS && Slots(n0, n, offset, a)
    ensures MissingBelow(n0, offset, a + b, k) == MissingBelow(n0, offset, a, k) + MissingBelow(n, offset + a, b, k)
  {
    if k > 0 {
      MissingConcat(n0, n, offset, a, b, k - 1);
      TouchedConcat(offset, a, b, k - 1);
    }
  }

  /** Only the pointers count. */
  lemma {:induction false} MissingSame(n: Inode, m: Inode, offset: nat, count: nat, k: nat)
    requires k <= DIRECT_BLOCKS && n.direct == m.direct
    ensures MissingBelow(n, offset, count, k) == MissingBelow(m, offset, count, k)
  {
    if k > 0 {
      MissingSame(n, m, offset, count, k - 1);
    }
  }

  /** The blocks that an inode holds in its first `k` slots. */
  function HeldBelow(n: Inode, k: nat): nat
    requires k <= DIRECT_BLOCKS
  {
    if k == 0 then 0 else HeldBelow(n, k - 1) + (if n.direct[k - 1] != INVALID_BLOCK then 1 else 0)
  }

  function Held(n: Inode): nat {
    HeldBelow(n, DIRECT_BLOCKS)
  }

  lemma {:induction false} HeldSame(n: Inode, m: Inode, k: nat)
    requires k <= DIRECT_BLOCKS && n.direct == m.direct
    ensures HeldBelow(n, k) == HeldBelow(m, k)
  {
    if k > 0 {
      HeldSame(n, m, k - 1);
    }
  }

  lemma {:induction false} UnmarkedOneMore(bitmap: seq<byte>, b: nat, n: nat)
    requires b < 8 * |bitmap| && n <= 8 * |bitmap| && Bit(bitmap, b)
    ensures FreeBelow(Put(bitmap, b, false), n) == FreeBelow(bitmap, n) + (if b < n then 1 else 0)
  {
    if n > 0 {
      UnmarkedOneMore(bitmap, b, n - 1);
      PutBitOnly(bitmap, b, false, n - 1);
      assert Bit(Put(bitmap, b, false), n - 1) == (n - 1 != b && Bit(bitmap, n - 1));
    }
  }

  /** Blocks allocated so far by a write account for what the bitmap lost. */
  ghost predicate Accounted(n0: Inode, bitmap0: seq<byte>, bitmap: seq<byte>, offset: nat, count: nat)
    requires |bitmap0| == |bitmap| == BLOCK_BITMAP_BYTES
  {
    FreeBlocks(bitmap) + Missing(n0, offset, count) == FreeBlocks(bitmap0)
  }

  lemma AccountedStep(n0: Inode, s0: Sectors, n: Inode, s: Sectors, bitmap0: seq<byte>, bitmap1: seq<byte>, bitmap: seq<byte>,
                      offset: nat, data: seq<byte>, c: nat, b: nat)
    requires |bitmap0| == |bitmap1| == |bitmap| == BLOCK_BITMAP_BYTES
    requires Overlaid(n0, s0, n, s, offset, data)
    requires Accounted(n0, bitmap0, bitmap1, offset, |data|)
    requires c > 0 && offset + |data| < MAX_FILE_SIZE
    requires (offset + |data|) % SECTOR_SIZE + c <= SECTOR_SIZE
    requires if n.direct[(offset + |data|) / SECTOR_SIZE] != INVALID_BLOCK then bitmap == bitmap1
             else LowestTaken(bitmap1, bitmap, b)
    ensures Accounted(n0, bitmap0, bitmap, offset, |data| + c)
  {
    var k := (offset + |data|) / SECTOR_SIZE;
    MissingGrows(n0, offset, |data|, c, DIRECT_BLOCKS);
    if n.direct[k] == INVALID_BLOCK {
      MarkedOneMore(bitmap1, b, DATA_BLOCK_COUNT);
    }
  }

  /** A write that finds no free block for its next byte needed more than there were. */
  lemma NotEnough(n0: Inode, s0: Sectors, n: Inode, s: Sectors, bitmap0: seq<byte>, bitmap: seq<byte>,
                  offset: nat, data: seq<byte>, count: nat)
    requires |bitmap0| == |bitmap| == BLOCK_BITMAP_BYTES
    requires Overlaid(n0, s0, n, s, offset, data) && |data| < count
    requires Accounted(n0, bitmap0, bitmap, offset, |data|) && offset + |data| < MAX_FILE_SIZE
    requires n.direct[(offset + |data|) / SECTOR_SIZE] == INVALID_BLOCK && !HasFree(bitmap)
    ensures Missing(n0, offset, count) > FreeBlocks(bitmap0)
  {
    NoneFree(bitmap, DATA_BLOCK_COUNT);
    MissingGrows(n0, offset, |data|, 1, DIRECT_BLOCKS);
    MissingMonotone(n0, offset, |data| + 1, count, DIRECT_BLOCKS);
  }

  // What an append takes ------------------------------------------------------------------------

  /** The blocks that one more record takes. */
  function Growth(n: Inode): nat {
    if LastSlot(n) < DIRECT_BLOCKS && n.direct[LastSlot(n)] == INVALID_BLOCK then 1 else 0
  }

  /** What appending a record to directory `dir` does to the metadata. */
  predicate Appended(m0: Meta, m: Meta, dir: nat)
    requires WellSized(m0) && WellSized(m) && dir < MAX_INODES
  {
    && m == m0.(inodes := m0.inodes[dir := m.inodes[dir]], blockBitmap := m.blockBitmap)
    && FreeBlocks(m.blockBitmap) + Growth(m0.inodes[dir]) == FreeBlocks(m0.blockBitmap)
  }

  /** There is room for one more record if and only if the directory is not full and the block it takes, if any,
      is free. */
  lemma RoomIsGrowth(n: Inode, bitmap: seq<byte>)
    requires |bitmap| == BLOCK_BITMAP_BYTES && InodeOk(n) && n.kind == NODE_DIR
    ensures Room(n, bitmap) <==> n.size + RECORD_BYTES <= MAX_FILE_SIZE && Growth(n) <= FreeBlocks(bitmap)
  {
    NoneFree(bitmap, DATA_BLOCK_COUNT);
    if n.size + RECORD_BYTES <= MAX_FILE_SIZE {
      assert Touched(n.size, RECORD_BYTES, LastSlot(n)) && LastSlot(n) < DIRECT_BLOCKS;
      forall k | 0 <= k < DIRECT_BLOCKS && Touched(n.size, RECORD_BYTES, k) && k != LastSlot(n)
        ensures n.direct[k] != INVALID_BLOCK
      {
        EarlierSlot(n.size, k);
      }
    }
  }

  lemma EarlierSlot(size: nat, k: nat)
    requires Touched(size, RECORD_BYTES, k) && k != (size + RECORD_BYTES - 1) / SECTOR_SIZE
    ensures SECTOR_SIZE * k < size
  {
  }

  lemma LaidAppends(m0: Meta, s0: Sectors, m: Meta, s: Sectors, dir: nat, data: seq<byte>)
    requires Laying(m0, s0, m, s, dir, data, RECORD_BYTES)
    ensures m.inodes[dir].size + RECORD_BYTES <= MAX_FILE_SIZE && Appended(m0, Longer(m, dir), dir)
  {
    var n0, n, k := m0.inodes[dir], m.inodes[dir], LastSlot(m0.inodes[dir]);
    if n0.direct[k] == INVALID_BLOCK {
      MarkedOneMore(m0.blockBitmap, n.direct[k], DATA_BLOCK_COUNT);
    }
    assert Longer(m, dir).inodes == m0.inodes[dir := Longer(m, dir).inodes[dir]];
  }

  /** Giving back one block of an inode, in slot order. */
  lemma HeldStep(n: Inode, k: nat, bitmap0: seq<byte>, bitmap1: seq<byte>, bitmap: seq<byte>)
    requires k < DIRECT_BLOCKS && |bitmap0| == |bitmap1| == |bitmap| == BLOCK_BITMAP_BYTES
    requires FreeBlocks(bitmap1) == FreeBlocks(bitmap0) + HeldBelow(n, k)
    requires if n.direct[k] == INVALID_BLOCK then bitmap == bitmap1
             else n.direct[k] < DATA_BLOCK_COUNT && Bit(bitmap1, n.direct[k]) && bitmap == Put(bitmap1, n.direct[k], false)
    ensures FreeBlocks(bitmap) == FreeBlocks(bitmap0) + HeldBelow(n, k + 1)
  {
    if n.direct[k] != INVALID_BLOCK {
      UnmarkedOneMore(bitmap1, n.direct[k], DATA_BLOCK_COUNT);
    }
  }

  /** The blocks in the first `k` slots of inode `i` are given back. */
  ghost predicate Releasing(inodes0: seq<Inode>, bitmap0: seq<byte>, inodes: seq<Inode>, bitmap: seq<byte>, i: nat, k: nat)
    requires |bitmap0| == |bitmap| == BLOCK_BITMAP_BYTES && i < |inodes0| == |inodes| && k <= DIRECT_BLOCKS
  {
    && inodes == inodes0[i := inodes[i]] && inodes[i] == inodes0[i].(direct := inodes[i].direct)
    && (forall l :: 0 <= l < DIRECT_BLOCKS ==> inodes[i].direct[l] == if l < k then INVALID_BLOCK else inodes0[i].direct[l])
    && FreedFirst(inodes0[i], k, bitmap0, bitmap)
    && FreeBlocks(bitmap) == FreeBlocks(bitmap0) + HeldBelow(inodes0[i], k)
  }

  /** What giving back the block of slot `k`, if there is one, does to inode and bitmap. */
  predicate SlotReleased(n1: Inode, bitmap1: seq<byte>, n: Inode, bitmap: seq<byte>, k: nat)
    requires |bitmap1| == BLOCK_BITMAP_BYTES && k < DIRECT_BLOCKS
  {
    if n1.direct[k] == INVALID_BLOCK then n == n1 && bitmap == bitmap1
    else
      && n1.direct[k] < DATA_BLOCK_COUNT && Bit(bitmap1, n1.direct[k])
      && n == WithBlock(n1, k, INVALID_BLOCK) && bitmap == Put(bitmap1, n1.direct[k], false)
  }

  lemma ReleasedMore(inodes0: seq<Inode>, bitmap0: seq<byte>, inodes1: seq<Inode>, bitmap1: seq<byte>,
                     inodes: seq<Inode>, bitmap: seq<byte>, i: nat, k: nat)
    requires |bitmap0| == |bitmap1| == |bitmap| == BLOCK_BITMAP_BYTES && i < |inodes0| == |inodes1| == |inodes|
    requires k < DIRECT_BLOCKS && Releasing(inodes0, bitmap0, inodes1, bitmap1, i, k)
    requires inodes == inodes1[i := inodes[i]] && SlotReleased(inodes1[i], bitmap1, inodes[i], bitmap, k)
    ensures Releasing(inodes0, bitmap0, inodes, bitmap, i, k + 1)
  {
    var n := inodes0[i];
    forall b | 0 <= b < 8 * BLOCK_BITMAP_BYTES ensures Bit(bitmap, b) == (Bit(bitmap1, b) && b != n.direct[k]) {
      if n.direct[k] != INVALID_BLOCK {
        PutBitOnly(bitmap1, n.direct[k], false, b);
      }
    }
    FreedOneMore(n, k, bitmap0, bitmap1, bitmap);
    HeldStep(n, k, bitmap0, bitmap1, bitmap);
  }

  // The order in which blocks are taken ------------------------------------------------------------

  /** A slot that has received a block. */
  predicate New(n0: Inode, n: Inode, k: nat)
    requires k < DIRECT_BLOCKS
  {
    n0.direct[k] == INVALID_BLOCK && n.direct[k] != INVALID_BLOCK
  }

  /** A new slot holds a block that was free, that lies above those of earlier new slots, and
      below which nothing is free any more. */
  ghost predicate Taken(n0: Inode, n: Inode, bitmap0: seq<byte>, bitmap: seq<byte>, k: nat)
    requires |bitmap0| == |bitmap| == BLOCK_BITMAP_BYTES && k < DIRECT_BLOCKS
  {
    && n.direct[k] < DATA_BLOCK_COUNT && !Bit(bitmap0, n.direct[k])
    && (forall b :: 0 <= b <= n.direct[k] ==> Bit(bitmap, b))
    && (forall l :: 0 <= l < k && New(n0, n, l) ==> n.direct[l] < n.direct[k])
  }

  ghost predicate InOrder(n0: Inode, n: Inode, bitmap0: seq<byte>, bitmap: seq<byte>)
    requires |bitmap0| == |bitmap| == BLOCK_BITMAP_BYTES
  {
    && (forall b :: 0 <= b < DATA_BLOCK_COUNT && Bit(bitmap0, b) ==> Bit(bitmap, b))
    && (forall k {:trigger New(n0, n, k)} :: 0 <= k < DIRECT_BLOCKS && New(n0, n, k) ==> Taken(n0, n, bitmap0, bitmap, k))
  }

  /** The slots that hold a block after a write of `count` bytes. */
  predicate Slots(n0: Inode, n: Inode, offset: nat, count: nat) {
    forall k :: 0 <= k < DIRECT_BLOCKS ==>
      (n.direct[k] != INVALID_BLOCK <==> n0.direct[k] != INVALID_BLOCK || Touched(offset, count, k))
  }

  /** Pointers as a write of `count` bytes leaves them: every touched slot holds a block, and
      no slot that did loses it. */
  predicate Grown(n0: Inode, n: Inode, offset: nat, count: nat) {
    && n == n0.(direct := n.direct)
    && Slots(n0, n, offset, count)
    && (forall k :: 0 <= k < DIRECT_BLOCKS && n0.direct[k] != INVALID_BLOCK ==> n.direct[k] == n0.direct[k])
  }

  lemma BelowLowest(bitmap: seq<byte>, after: seq<byte>, b: nat)
    requires |bitmap| == |after| == BLOCK_BITMAP_BYTES && LowestTaken(bitmap, after, b)
    ensures forall x :: 0 <= x <= b ==> Bit(after, x)
    ensures forall x :: 0 <= x < 8 * BLOCK_BITMAP_BYTES && Bit(bitmap, x) ==> Bit(after, x)
  {
    forall x | 0 <= x < 8 * BLOCK_BITMAP_BYTES ensures Bit(after, x) == (x == b || Bit(bitmap, x)) {
      PutBitOnly(bitmap, b, true, x);
    }
  }

  /** One more chunk, in a block that is there or in the lowest free one. */
  lemma InOrderStep(n0: Inode, n1: Inode, n: Inode, bitmap0: seq<byte>, bitmap1: seq<byte>, bitmap: seq<byte>, k: nat)
    requires |bitmap0| == |bitmap1| == |bitmap| == BLOCK_BITMAP_BYTES && k < DIRECT_BLOCKS
    requires InOrder(n0, n1, bitmap0, bitmap1)
    requires forall l :: 0 <= l < DIRECT_BLOCKS && l != k ==> n.direct[l] == n1.direct[l]
    requires forall l :: 0 <= l < DIRECT_BLOCKS && New(n0, n1, l) ==> l <= k
    requires if n1.direct[k] != INVALID_BLOCK then n.direct[k] == n1.direct[k] && bitmap == bitmap1
             else LowestTaken(bitmap1, bitmap, n.direct[k])
    ensures InOrder(n0, n, bitmap0, bitmap)
  {
    if n1.direct[k] != INVALID_BLOCK {
      assert n.direct == n1.direct;
      forall l | 0 <= l < DIRECT_BLOCKS && New(n0, n, l) ensures Taken(n0, n, bitmap0, bitmap, l) {
        assert New(n0, n1, l) && Taken(n0, n1, bitmap0, bitmap1, l);
        assert forall j :: 0 <= j < l ==> New(n0, n, j) == New(n0, n1, j);
      }
    } else {
      BelowLowest(bitmap1, bitmap, n.direct[k]);
      forall l | 0 <= l < DIRECT_BLOCKS && New(n0, n, l) ensures Taken(n0, n, bitmap0, bitmap, l) {
        TakenStep(n0, n1, n, bitmap0, bitmap1, bitmap, k, l);
      }
    }
  }

  lemma TakenStep(n0: Inode, n1: Inode, n: Inode, bitmap0: seq<byte>, bitmap1: seq<byte>, bitmap: seq<byte>, k: nat, l: nat)
    requires |bitmap0| == |bitmap1| == |bitmap| == BLOCK_BITMAP_BYTES && k < DIRECT_BLOCKS && l < DIRECT_BLOCKS
    requires InOrder(n0, n1, bitmap0, bitmap1) && n1.direct[k] == INVALID_BLOCK
    requires forall j :: 0 <= j < DIRECT_BLOCKS && j != k ==> n.direct[j] == n1.direct[j]
    requires forall j :: 0 <= j < DIRECT_BLOCKS && New(n0, n1, j) ==> j <= k
    requires LowestTaken(bitmap1, bitmap, n.direct[k]) && New(n0, n, l)
    requires forall x :: 0 <= x <= n.direct[k] ==> Bit(bitmap, x)
    requires forall x :: 0 <= x < 8 * BLOCK_BITMAP_BYTES && Bit(bitmap1, x) ==> Bit(bitmap, x)
    ensures Taken(n0, n, bitmap0, bitmap, l)
  {
    if l == k {
      forall j | 0 <= j < k && New(n0, n, j) ensures n.direct[j] < n.direct[k] {
        assert New(n0, n1, j) && Taken(n0, n1, bitmap0, bitmap1, j);
        assert Bit(bitmap1, n1.direct[j]);
      }
    } else {
      assert New(n0, n1, l) && Taken(n0, n1, bitmap0, bitmap1, l);
      forall j | 0 <= j < l && New(n0, n, j) ensures n.direct[j] < n.direct[l] {
        assert New(n0, n1, j);
      }
    }
  }
}
