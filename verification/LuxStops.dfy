/** What a write that ran out of blocks leaves: which bytes, which pointers, and when the inode on
    disk is still the one in memory. */
module LuxStops {
  import opened Wrappers
  import opened Bytes
  import opened Bitmap
  import opened LuxFormat
  import opened SectorDisk
  import opened LuxVolume
  import opened LuxLayout
  import opened LuxUpdates
  import opened LuxSpace
  import opened LuxWriting

  // Bytes --------------------------------------------------------------------------------------

  /** A stopped write leaves the visible bytes of a file without holes as they were if and only if the part
      of the data that falls inside the file was there already. */
  lemma OverwrittenSame(base: seq<byte>, offset: nat, data: seq<byte>)
    requires offset <= |base|
    ensures var end := if offset + |data| < |base| then offset + |data| else |base|;
      Overwritten(Stored(base), offset, data) == Stored(base) <==> data[..end - offset] == base[offset..end]
  {
    var end := if offset + |data| < |base| then offset + |data| else |base|;
    var laid := Overwritten(Stored(base), offset, data);
    assert forall p :: 0 <= p < |base| ==> laid[p] == Some(if offset <= p < end then data[p - offset] else base[p]);
    if laid == Stored(base) {
      forall t | 0 <= t < end - offset ensures data[t] == base[offset..end][t] {
        assert laid[offset + t] == Stored(base)[offset + t];
      }
    } else {
      var p :| 0 <= p < |base| && laid[p] != Stored(base)[p];
      assert data[..end - offset][p - offset] != base[offset..end][p - offset];
    }
  }

  /** The same for a file that may have holes: besides, the blocks touched must have none, because what
      is left of a block that is allocated reads as zeros. */
  lemma OverwrittenWithHoles(base: Contents, offset: nat, data: seq<byte>)
    ensures Overwritten(base, offset, data) == base <==>
              forall p :: 0 <= p < |base| ==>
                if offset <= p < offset + |data| then base[p] == Some(data[p - offset])
                else Touched(offset, |data|, p / SECTOR_SIZE) ==> base[p].Some?
  {
    var r := Overwritten(base, offset, data);
    forall p | 0 <= p < |base|
      ensures r[p] == base[p] <==>
                if offset <= p < offset + |data| then base[p] == Some(data[p - offset])
                else Touched(offset, |data|, p / SECTOR_SIZE) ==> base[p].Some?
    {
      assert r[p] == Written(base, offset, data)[p];
    }
    if forall p :: 0 <= p < |base| ==> r[p] == base[p] {
      assert r == base;
    }
  }

  // Pointers ---------------------------------------------------------------------------------------

  lemma {:induction false} HeldGrown(e: Inode, n: Inode, offset: nat, count: nat, k: nat)
    requires k <= DIRECT_BLOCKS && Grown(e, n, offset, count)
    ensures HeldBelow(n, k) == HeldBelow(e, k) + MissingBelow(e, offset, count, k)
  {
    if k > 0 {
      HeldGrown(e, n, offset, count, k - 1);
    }
  }

  lemma {:induction false} NoneMissing(n: Inode, offset: nat, count: nat, k: nat)
    requires k <= DIRECT_BLOCKS
    ensures MissingBelow(n, offset, count, k) == 0 <==>
              forall l :: 0 <= l < k && Touched(offset, count, l) ==> n.direct[l] != INVALID_BLOCK
  {
    if k > 0 {
      NoneMissing(n, offset, count, k - 1);
    }
  }

  /** A write that stopped without truncating has left the inode as it was if and only if there was
      no free block at all. */
  lemma StoppedUnchanged(n0: Inode, n: Inode, free: nat, offset: nat, count: nat, done: nat)
    requires Grown(n0, n, offset, done) && RunsOut(n0, free, offset, count, done)
    ensures n == n0 <==> free == 0
  {
    NoneMissing(n0, offset, done, DIRECT_BLOCKS);
    if free == 0 {
      assert n.direct == n0.direct;
    } else {
      HeldGrown(n0, n, offset, done, DIRECT_BLOCKS);
    }
  }

  /** The slots from `from` on that a run of `h` blocks occupies. */
  predicate InRun(k: nat, from: nat, h: nat) {
    from <= k < from + h
  }

  /** An empty inode whose blocks lie in ascending order in consecutive slots from the one that
      `offset` is in: freeing them and writing at `offset` takes them back into the same slots. */
  predicate Refillable(n: Inode, offset: nat) {
    && n.size == 0
    && (forall k :: 0 <= k < DIRECT_BLOCKS ==>
          (n.direct[k] != INVALID_BLOCK <==> InRun(k, offset / SECTOR_SIZE, Held(n))))
    && Ascending(n.direct, offset / SECTOR_SIZE, Held(n))
  }

  predicate Ascending(direct: seq<u32>, from: nat, h: nat)
    requires |direct| == DIRECT_BLOCKS
  {
    forall k, l {:trigger direct[k], direct[l]} ::
      0 <= k < l < DIRECT_BLOCKS && InRun(k, from, h) && InRun(l, from, h) ==> direct[k] < direct[l]
  }

  lemma {:induction false} TouchedCount(e: Inode, offset: nat, count: nat, k: nat)
    requires k <= DIRECT_BLOCKS && e.direct == NoBlocks() && count > 0
    ensures var b, last := offset / SECTOR_SIZE, (offset + count - 1) / SECTOR_SIZE;
      MissingBelow(e, offset, count, k) == if k <= b then 0 else if k <= last then k - b else last + 1 - b
  {
    if k > 0 {
      TouchedCount(e, offset, count, k - 1);
    }
  }

  /** The slots touched from an empty inode are a run whose length is the number of blocks taken. */
  lemma TouchedRun(e: Inode, offset: nat, count: nat, k: nat)
    requires e.direct == NoBlocks() && offset + count <= MAX_FILE_SIZE && k < DIRECT_BLOCKS
    ensures Touched(offset, count, k) <==> InRun(k, offset / SECTOR_SIZE, Missing(e, offset, count))
  {
    if count == 0 {
      MissingNothing(e, offset, DIRECT_BLOCKS);
    } else {
      assert (offset + count - 1) / SECTOR_SIZE < DIRECT_BLOCKS;
      TouchedCount(e, offset, count, DIRECT_BLOCKS);
    }
  }

  /** Two ascending runs in the same slots, the one made of members of the other, are equal. */
  lemma {:induction false} AtLeast(a: seq<u32>, c: seq<u32>, from: nat, h: nat, k: nat)
    requires |a| == |c| == DIRECT_BLOCKS && Ascending(a, from, h) && Ascending(c, from, h)
    requires AllAmong(a, c, from, h)
    requires k < DIRECT_BLOCKS && InRun(k, from, h)
    ensures a[k] >= c[k]
  {
    assert Among(a[k], c, from, h);
    var l :| 0 <= l < DIRECT_BLOCKS && InRun(l, from, h) && c[l] == a[k];
    if k > from {
      AtLeast(a, c, from, h, k - 1);
      assert a[k - 1] < a[k];
    }
  }

  lemma {:induction false} AtMost(a: seq<u32>, c: seq<u32>, from: nat, h: nat, k: nat)
    requires |a| == |c| == DIRECT_BLOCKS && Ascending(a, from, h) && Ascending(c, from, h)
    requires AllAmong(a, c, from, h)
    requires k < DIRECT_BLOCKS && InRun(k, from, h)
    ensures a[k] <= c[k]
    decreases DIRECT_BLOCKS - k
  {
    assert Among(a[k], c, from, h);
    var l :| 0 <= l < DIRECT_BLOCKS && InRun(l, from, h) && c[l] == a[k];
    if k + 1 < DIRECT_BLOCKS && InRun(k + 1, from, h) {
      AtMost(a, c, from, h, k + 1);
      assert a[k] < a[k + 1];
    }
  }

  ghost predicate Among(x: u32, c: seq<u32>, from: nat, h: nat)
    requires |c| == DIRECT_BLOCKS
  {
    exists l {:trigger c[l]} :: 0 <= l < DIRECT_BLOCKS && InRun(l, from, h) && c[l] == x
  }

  ghost predicate AllAmong(a: seq<u32>, c: seq<u32>, from: nat, h: nat)
    requires |a| == |c| == DIRECT_BLOCKS
  {
    forall k {:trigger a[k]} :: 0 <= k < DIRECT_BLOCKS && InRun(k, from, h) ==> Among(a[k], c, from, h)
  }

  /** The pointers after truncating inode `n0` and writing until no block is free. */
  ghost predicate Refilled(n0: Inode, n: Inode, bitmap0: seq<byte>, freed: seq<byte>, bitmap: seq<byte>,
                           offset: nat, count: nat, done: nat)
    requires |bitmap0| == |freed| == |bitmap| == BLOCK_BITMAP_BYTES
  {
    && Freed(n0, bitmap0, freed) && FreeBlocks(freed) == FreeBlocks(bitmap0) + Held(n0)
    && Grown(Emptied(n0), n, offset, done) && InOrder(Emptied(n0), n, freed, bitmap)
    && RunsOut(Emptied(n0), FreeBlocks(freed), offset, count, done) && offset + count <= MAX_FILE_SIZE
  }

  lemma RefilledShape(n0: Inode, n: Inode, bitmap0: seq<byte>, freed: seq<byte>, bitmap: seq<byte>,
                      offset: nat, count: nat, done: nat)
    requires |bitmap0| == |freed| == |bitmap| == BLOCK_BITMAP_BYTES
    requires Refilled(n0, n, bitmap0, freed, bitmap, offset, count, done)
    ensures Held(n) == FreeBlocks(bitmap0) + Held(n0) && Refillable(n, offset)
    ensures forall k :: 0 <= k < DIRECT_BLOCKS && n.direct[k] != INVALID_BLOCK ==>
              n.direct[k] < DATA_BLOCK_COUNT && !Bit(freed, n.direct[k])
  {
    var e := Emptied(n0);
    HeldGrown(e, n, offset, done, DIRECT_BLOCKS);
    NothingHeld(e, DIRECT_BLOCKS);
    forall k | 0 <= k < DIRECT_BLOCKS
      ensures n.direct[k] != INVALID_BLOCK <==> InRun(k, offset / SECTOR_SIZE, Held(n))
      ensures New(e, n, k) <==> n.direct[k] != INVALID_BLOCK
    {
      TouchedRun(e, offset, done, k);
    }
    forall k, l | 0 <= k < l < DIRECT_BLOCKS && InRun(k, offset / SECTOR_SIZE, Held(n)) && InRun(l, offset / SECTOR_SIZE, Held(n))
      ensures n.direct[k] < n.direct[l]
    {
      assert New(e, n, l) && New(e, n, k);
    }
  }

  lemma {:induction false} NothingHeld(e: Inode, k: nat)
    requires k <= DIRECT_BLOCKS && e.direct == NoBlocks()
    ensures HeldBelow(e, k) == 0
  {
    if k > 0 {
      NothingHeld(e, k - 1);
    }
  }

  /** A truncating write that stopped has left the inode as it was if and only if no block was free
      before and the inode is refillable. */
  lemma RefilledUnchanged(n0: Inode, n: Inode, bitmap0: seq<byte>, freed: seq<byte>, bitmap: seq<byte>,
                          offset: nat, count: nat, done: nat)
    requires |bitmap0| == |freed| == |bitmap| == BLOCK_BITMAP_BYTES
    requires Refilled(n0, n, bitmap0, freed, bitmap, offset, count, done)
    ensures n == n0 <==> FreeBlocks(bitmap0) == 0 && Refillable(n0, offset)
  {
    RefilledShape(n0, n, bitmap0, freed, bitmap, offset, count, done);
    if FreeBlocks(bitmap0) == 0 && Refillable(n0, offset) {
      TakenBack(n0, n, bitmap0, freed, offset / SECTOR_SIZE, Held(n));
      assert n.direct == n0.direct;
    }
  }

  /** Blocks taken when only the inode's own are free are those, in the same slots. */
  lemma TakenBack(n0: Inode, n: Inode, bitmap0: seq<byte>, freed: seq<byte>, from: nat, h: nat)
    requires |bitmap0| == |freed| == BLOCK_BITMAP_BYTES
    requires Freed(n0, bitmap0, freed) && FreeBlocks(bitmap0) == 0
    requires forall k :: 0 <= k < DIRECT_BLOCKS ==> (n0.direct[k] != INVALID_BLOCK <==> InRun(k, from, h))
    requires forall k :: 0 <= k < DIRECT_BLOCKS ==> (n.direct[k] != INVALID_BLOCK <==> InRun(k, from, h))
    requires Ascending(n0.direct, from, h) && Ascending(n.direct, from, h)
    requires forall k :: 0 <= k < DIRECT_BLOCKS && n.direct[k] != INVALID_BLOCK ==>
               n.direct[k] < DATA_BLOCK_COUNT && !Bit(freed, n.direct[k])
    ensures forall k :: 0 <= k < DIRECT_BLOCKS ==> n.direct[k] == n0.direct[k]
  {
    NoneFree(bitmap0, DATA_BLOCK_COUNT);
    forall k | 0 <= k < DIRECT_BLOCKS && InRun(k, from, h) ensures Among(n.direct[k], n0.direct, from, h) {
      assert PointsTo(n0, n.direct[k]);
      var l :| 0 <= l < DIRECT_BLOCKS && n0.direct[l] == n.direct[k];
      assert InRun(l, from, h);
    }
    forall k | 0 <= k < DIRECT_BLOCKS ensures n.direct[k] == n0.direct[k] {
      if InRun(k, from, h) {
        AtLeast(n.direct, n0.direct, from, h, k);
        AtMost(n.direct, n0.direct, from, h, k);
      }
    }
  }

  /** A caller can see before a write whether, should it run out of blocks, the inode will be left
      as it was. */
  predicate Unaltered(n: Inode, bitmap: seq<byte>, offset: nat, truncate: bool)
    requires |bitmap| == BLOCK_BITMAP_BYTES
  {
    FreeBlocks(bitmap) == 0 && (truncate ==> Refillable(n, offset))
  }

  // Persistence ---------------------------------------------------------------------------------------

  /** When all but the block bitmap's sector of the metadata is as it was, the disk is as far abreast
      of memory as before if and only if the inode is as it was. */
  lemma AbreastIff(m0: Meta, s0: Sectors, m: Meta, s: Sectors, i: nat, lag: set<nat>)
    requires WellSized(m0) && WellSized(m) && i < MAX_INODES
    requires m == m0.(inodes := m0.inodes[i := m.inodes[i]], blockBitmap := m.blockBitmap)
    requires Tracks(m0, s0, lag) && TablesKept(s0, s) && Tracks(m, s, lag + {TableBlock(i)})
    requires TableBlock(i) !in lag
    ensures Tracks(m, s, lag) <==> m.inodes[i] == m0.inodes[i]
  {
    var b := TableBlock(i);
    assert s0[b] == MetaImage(m0, b) && s[b] == s0[b];
    if m.inodes[i] == m0.inodes[i] {
      assert m.inodes == m0.inodes;
      assert MetaImage(m, b) == MetaImage(m0, b);
    }
    if Tracks(m, s, lag) {
      assert s[b] == MetaImage(m, b);
      SameTable(m.inodes, m0.inodes, i);
    }
  }

  lemma SameTable(a: seq<Inode>, c: seq<Inode>, i: nat)
    requires |a| == |c| == MAX_INODES && i < MAX_INODES
    requires TableImage(a, i / INODES_PER_BLOCK) == TableImage(c, i / INODES_PER_BLOCK)
    ensures a[i] == c[i]
  {
    var k := i / INODES_PER_BLOCK;
    SameSlots(a, c, k);
    SameSlot(a, c, INODES_PER_BLOCK * k, INODES_PER_BLOCK * (k + 1), i);
  }

  lemma SameSlots(a: seq<Inode>, c: seq<Inode>, k: nat)
    requires |a| == |c| == MAX_INODES && k < INODE_TABLE_BLOCKS && TableImage(a, k) == TableImage(c, k)
    ensures a[INODES_PER_BLOCK * k..INODES_PER_BLOCK * (k + 1)] == c[INODES_PER_BLOCK * k..INODES_PER_BLOCK * (k + 1)]
  {
    TableRoundTrip(a, k);
    TableRoundTrip(c, k);
  }

  lemma SameSlot(a: seq<Inode>, c: seq<Inode>, from: nat, to: nat, i: nat)
    requires from <= i < to <= |a| == |c| && a[from..to] == c[from..to]
    ensures a[i] == c[i]
  {
    assert a[i] == a[from..to][i - from] && c[i] == c[from..to][i - from];
  }
}
