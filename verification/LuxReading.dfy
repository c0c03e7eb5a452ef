/** The loops that read a directory's or a file's blocks. */
module LuxReading {
  import opened Bytes
  import opened LuxFormat
  import opened SectorDisk
  import opened LuxVolume
  import opened LuxLayout
  import opened LuxDirectories

  /** The inner loop of luxfs_dir_iterate: cuts one block's bytes into records. */
  method DeliverChunk(chunk: seq<byte>, partial: seq<byte>, already: nat, before: seq<Record>, keepGoing: Record -> bool,
                      ghost n: Inode, ghost s: Sectors, ghost offset: nat)
    returns (record: seq<byte>, progress: nat, delivered: seq<Record>, stopped: bool)
    requires already < RECORD_BYTES == |partial|
    requires Delivered(n, s, keepGoing, before, partial[..already], offset)
    requires offset + |chunk| <= n.size && chunk == Slice(n, s, offset, |chunk|)
    ensures stopped ==>
              delivered == UpTo(Records(n, s), keepGoing) && offset < RECORD_BYTES * |delivered| <= offset + |chunk|
    ensures !stopped ==> progress < RECORD_BYTES == |record|
                         && Delivered(n, s, keepGoing, delivered, record[..progress], offset + |chunk|)
  {
    record, progress, delivered := partial, already, before;
    var consumed := 0;
    while consumed < |chunk|
      invariant 0 <= consumed <= |chunk|
      invariant progress < RECORD_BYTES == |record|
      invariant Delivered(n, s, keepGoing, delivered, record[..progress], offset + consumed)
    {
      var copy := RECORD_BYTES - progress;
      if copy > |chunk| - consumed {
        copy := |chunk| - consumed;
      }
      ghost var gathered, piece := record[..progress], chunk[consumed..consumed + copy];
      record := record[..progress] + chunk[consumed..consumed + copy] + record[progress + copy..];
      progress, consumed := progress + copy, consumed + copy;
      assert record[..progress] == gathered + piece;
      DeliveredMore(n, s, keepGoing, delivered, gathered, offset + consumed - copy, piece);
      if progress == RECORD_BYTES {
        assert record[..progress] == record && record[..0] == [];
        delivered := delivered + [DecodeRecord(record)];
        if !keepGoing(DecodeRecord(record)) {
          return record, progress, delivered, true;
        }
        progress := 0;
      }
    }
    return record, progress, delivered, false;
  }

  /** What luxfs_dir_iterate does with block `k`. */
  method DeliverBlock(disk: Disk, n: Inode, k: nat, partial: seq<byte>, already: nat, before: seq<Record>,
                      keepGoing: Record -> bool)
    returns (ok: bool, record: seq<byte>, progress: nat, delivered: seq<Record>, stopped: bool, chunk: nat)
    requires already < RECORD_BYTES == |partial| && SECTOR_SIZE * k < n.size <= MAX_FILE_SIZE
    requires k < DIRECT_BLOCKS && n.direct[k] < DATA_BLOCK_COUNT
    requires Delivered(n, disk.sectors, keepGoing, before, partial[..already], SECTOR_SIZE * k)
    modifies disk`transfers
    ensures disk.transfers == old(disk.transfers) + 1 && (ok <==> disk.Clear(old(disk.transfers), 1))
    ensures 0 < chunk <= SECTOR_SIZE && SECTOR_SIZE * k + chunk == LaterOf(n.size, k)
    ensures ok && stopped ==>
              && delivered == UpTo(Records(n, disk.sectors), keepGoing)
              && SECTOR_SIZE * k < RECORD_BYTES * |delivered| <= SECTOR_SIZE * k + chunk
    ensures ok && !stopped ==>
              && progress < RECORD_BYTES == |record|
              && Delivered(n, disk.sectors, keepGoing, delivered, record[..progress], SECTOR_SIZE * k + chunk)
  {
    var buffer;
    ok, buffer := disk.ReadData(n.direct[k]);
    chunk := SECTOR_SIZE;
    if chunk > n.size - SECTOR_SIZE * k {
      chunk := n.size - SECTOR_SIZE * k;
    }
    if !ok {
      return false, partial, already, before, false, chunk;
    }
    BlockStart(n, disk.sectors, k, chunk, buffer);
    record, progress, delivered, stopped :=
      DeliverChunk(buffer[..chunk], partial, already, before, keepGoing, n, disk.sectors, SECTOR_SIZE * k);
  }

  lemma BlockStart(n: Inode, s: Sectors, k: nat, chunk: nat, buffer: seq<byte>)
    requires k < DIRECT_BLOCKS && n.direct[k] < DATA_BLOCK_COUNT && 0 < chunk <= SECTOR_SIZE == |buffer|
    requires SECTOR_SIZE * k + chunk <= MAX_FILE_SIZE && buffer == s[DATA_BLOCK_START + n.direct[k]]
    ensures buffer[..chunk] == Slice(n, s, SECTOR_SIZE * k, chunk)
  {
    SliceInBlock(n, s, SECTOR_SIZE * k, chunk);
  }

  /** The offset behind block `k`, or the end of the directory. */
  function LaterOf(size: nat, k: nat): nat {
    if size < SECTOR_SIZE * (k + 1) then size else SECTOR_SIZE * (k + 1)
  }

  /** The first `k` blocks are read, since transfer `t`, and the records in them delivered. */
  ghost predicate Iterating(disk: Disk, t: nat, n: Inode, keepGoing: Record -> bool, delivered: seq<Record>,
                            partial: seq<byte>, offset: nat, k: nat)
    reads disk`ready, disk`transfers, disk`sectors
  {
    && Delivered(n, disk.sectors, keepGoing, delivered, partial, offset) && |partial| < RECORD_BYTES
    && (if k == 0 then offset == 0 else SECTOR_SIZE * (k - 1) < offset && offset == LaterOf(n.size, k - 1))
    && disk.transfers == t + k && disk.Clear(t, k)
  }

  /** What one more read means for the reads of the whole iteration. */
  lemma OneMoreRead(disk: Disk, t: nat, k: nat, count: nat, ok: bool, stopped: bool)
    requires k < count && disk.Clear(t, k) && (ok <==> disk.Clear(t + k, 1)) && disk.transfers == t + k + 1
    requires ok && stopped ==> count == k + 1
    ensures !ok || stopped ==> disk.transfers == disk.After(t, count) && (ok <==> disk.Clear(t, count))
    ensures ok ==> disk.Clear(t, k + 1)
  {
    disk.InTwoParts(t, k, 1);
    if !ok {
      disk.StopsAt(t, k, count);
    } else if stopped {
      disk.AfterClear(t, count);
    }
  }

  /** One round of luxfs_dir_iterate's outer loop. */
  method IterateRound(disk: Disk, n: Inode, k: nat, partial: seq<byte>, already: nat, before: seq<Record>,
                      keepGoing: Record -> bool, ghost t: nat)
    returns (ok: bool, record: seq<byte>, progress: nat, delivered: seq<Record>, stopped: bool, chunk: nat)
    requires already < RECORD_BYTES == |partial| && SECTOR_SIZE * k < n.size <= MAX_FILE_SIZE
    requires k < DIRECT_BLOCKS && n.direct[k] < DATA_BLOCK_COUNT
    requires Iterating(disk, t, n, keepGoing, before, partial[..already], SECTOR_SIZE * k, k)
    modifies disk`transfers
    ensures var count := IterateReads(Records(n, disk.sectors), keepGoing);
      && (!ok || stopped ==> disk.transfers == disk.After(t, count) && (ok <==> disk.Clear(t, count)))
      && (ok && stopped ==> delivered == UpTo(Records(n, disk.sectors), keepGoing))
    ensures ok && !stopped ==>
              && 0 < chunk <= n.size - SECTOR_SIZE * k && progress < RECORD_BYTES == |record|
              && Iterating(disk, t, n, keepGoing, delivered, record[..progress], SECTOR_SIZE * k + chunk, k + 1)
  {
    ghost var count := IterateReads(Records(n, disk.sectors), keepGoing);
    MoreToRead(n, disk.sectors, keepGoing, before, partial[..already], k);
    ok, record, progress, delivered, stopped, chunk := DeliverBlock(disk, n, k, partial, already, before, keepGoing);
    if ok && stopped {
      LastBlock(k, RECORD_BYTES * |delivered|);
    }
    OneMoreRead(disk, t, k, count, ok, stopped);
  }

  /** The outer loop of luxfs_dir_iterate over a directory without holes. */
  method IterateBlocks(disk: Disk, n: Inode, keepGoing: Record -> bool) returns (ok: bool, delivered: seq<Record>)
    requires n.size <= MAX_FILE_SIZE && n.size % RECORD_BYTES == 0
    requires forall k :: 0 <= k < DIRECT_BLOCKS && n.direct[k] != INVALID_BLOCK ==> n.direct[k] < DATA_BLOCK_COUNT
    requires forall k :: 0 <= k < DIRECT_BLOCKS && SECTOR_SIZE * k < n.size ==> n.direct[k] != INVALID_BLOCK
    modifies disk`transfers
    ensures ok ==> delivered == UpTo(Records(n, disk.sectors), keepGoing)
    ensures ok <==> disk.Clear(old(disk.transfers), IterateReads(Records(n, disk.sectors), keepGoing))
    ensures disk.transfers == disk.After(old(disk.transfers), IterateReads(Records(n, disk.sectors), keepGoing))
  {
    ghost var t, k := disk.transfers, 0;
    var offset, stopped, progress := 0, false, 0;
    var record := Zeros(RECORD_BYTES);
    delivered := [];
    while offset < n.size
      invariant 0 <= offset <= n.size && 0 <= progress < RECORD_BYTES == |record|
      invariant Iterating(disk, t, n, keepGoing, delivered, record[..progress], offset, k)
    {
      var blockIndex := offset / SECTOR_SIZE;
      assert blockIndex == k && offset == SECTOR_SIZE * k;
      if blockIndex >= DIRECT_BLOCKS || n.direct[blockIndex] == INVALID_BLOCK {
        return false, delivered;
      }
      var chunk;
      ok, record, progress, delivered, stopped, chunk :=
        IterateRound(disk, n, blockIndex, record, progress, delivered, keepGoing, t);
      if !ok || stopped {
        return ok, delivered;
      }
      offset, k := offset + chunk, k + 1;
    }
    DeliveredAll(n, disk.sectors, keepGoing, delivered, record[..progress], offset);
    AllBlocks(n.size, k);
    disk.AfterClear(t, k);
    return progress == 0, delivered;
  }

  lemma AllBlocks(size: nat, k: nat)
    requires if k == 0 then size == 0 else SECTOR_SIZE * (k - 1) < size && size == LaterOf(size, k - 1)
    ensures BlocksBelow(size) == k
  {
  }

  /** fs_read's checks of the offset and its loop over the file's blocks, up to the first hole. It succeeds
      exactly when the blocks of the bytes it returns can be read. */
  method ReadBlocks(disk: Disk, n: Inode, from: nat, length: nat) returns (ok: bool, data: seq<byte>)
    requires n.size <= MAX_FILE_SIZE
    requires forall k :: 0 <= k < DIRECT_BLOCKS && n.direct[k] != INVALID_BLOCK ==> n.direct[k] < DATA_BLOCK_COUNT
    modifies disk`transfers
    ensures ok ==> data == ReadRun(FileContents(n, disk.sectors), from, length)
    ensures ok <==> disk.Clear(old(disk.transfers), RunReads(FileContents(n, disk.sectors), from, length))
    ensures disk.transfers == disk.After(old(disk.transfers), RunReads(FileContents(n, disk.sectors), from, length))
  {
    ghost var s, t := disk.sectors, disk.transfers;
    data := [];
    if from >= n.size {
      return true, data;
    }
    var offset: nat, remaining: nat := from, n.size - from;
    if remaining > length {
      remaining := length;
    }
    ReadingStarts(n, s, from, length, remaining);
    while remaining > 0
      invariant offset + remaining <= n.size && disk.sectors == s
      invariant ReadSoFar(disk, t, n, from, length, data, offset, remaining)
    {
      var k := offset / SECTOR_SIZE;
      if k >= DIRECT_BLOCKS {
        return true, data;
      }
      if n.direct[k] == INVALID_BLOCK {
        ReadEnds(disk, t, n, from, length, data, offset, remaining);
        return true, data;
      }
      var piece;
      ok, piece := ReadRound(disk, n, from, length, data, offset, remaining, t);
      if !ok {
        return false, data;
      }
      data := data + piece;
      offset, remaining := offset + |piece|, remaining - |piece|;
    }
    ReadEnds(disk, t, n, from, length, data, offset, remaining);
    return true, data;
  }

  /** The bytes before `offset` are read, since transfer `t`. */
  ghost predicate ReadSoFar(disk: Disk, t: nat, n: Inode, from: nat, length: nat, data: seq<byte>, offset: nat, remaining: nat)
    reads disk`ready, disk`transfers, disk`sectors
  {
    var total := |ReadRun(FileContents(n, disk.sectors), from, length)|;
    && Reading(n, disk.sectors, from, length, data, offset, remaining)
    && offset == from + |data| && |data| <= total && AtBlockEnd(from, |data|, total)
    && disk.transfers == t + BlocksTouched(from, |data|) && disk.Clear(t, BlocksTouched(from, |data|))
  }

  lemma ReadEnds(disk: Disk, t: nat, n: Inode, from: nat, length: nat, data: seq<byte>, offset: nat, remaining: nat)
    requires ReadSoFar(disk, t, n, from, length, data, offset, remaining) && n.size <= MAX_FILE_SIZE
    requires remaining == 0 || (offset < n.size && n.direct[offset / SECTOR_SIZE] == INVALID_BLOCK)
    ensures data == ReadRun(FileContents(n, disk.sectors), from, length)
    ensures var count := RunReads(FileContents(n, disk.sectors), from, length);
      disk.Clear(t, count) && disk.transfers == disk.After(t, count)
  {
    ReadingEnds(n, disk.sectors, from, length, data, offset, remaining);
    disk.AfterClear(t, BlocksTouched(from, |data|));
  }

  /** One round of fs_read's loop. */
  method ReadRound(disk: Disk, n: Inode, ghost from: nat, ghost length: nat, ghost data: seq<byte>, offset: nat, remaining: nat,
                   ghost t: nat)
    returns (ok: bool, piece: seq<byte>)
    requires remaining > 0 && offset / SECTOR_SIZE < DIRECT_BLOCKS && n.direct[offset / SECTOR_SIZE] < DATA_BLOCK_COUNT
    requires n.size <= MAX_FILE_SIZE && offset + remaining <= n.size
    requires ReadSoFar(disk, t, n, from, length, data, offset, remaining)
    modifies disk`transfers
    ensures ok ==>
              && 0 < |piece| <= remaining
              && ReadSoFar(disk, t, n, from, length, data + piece, offset + |piece|, remaining - |piece|)
    ensures !ok ==>
              var count := RunReads(FileContents(n, disk.sectors), from, length);
              !disk.Clear(t, count) && disk.transfers == disk.After(t, count)
  {
    ghost var s := disk.sectors;
    BlockAhead(n, s, from, length, data, offset, remaining);
    ok, piece := ReadPiece(disk, n, offset, remaining);
    OneMoreRead(disk, t, BlocksTouched(from, |data|), RunReads(FileContents(n, s), from, length), ok, false);
    if ok {
      PieceFits(offset, remaining);
      ReadingMore(n, s, from, length, data, offset, remaining, |piece|, piece);
    }
  }

  lemma PieceFits(offset: nat, remaining: nat)
    requires remaining > 0
    ensures ChunkAt(offset, remaining) <= remaining && offset % SECTOR_SIZE + ChunkAt(offset, remaining) <= SECTOR_SIZE
  {
  }

  /** The next block is one of those to be read. */
  lemma BlockAhead(n: Inode, s: Sectors, from: nat, length: nat, data: seq<byte>, offset: nat, remaining: nat)
    requires remaining > 0 && offset + remaining <= n.size <= MAX_FILE_SIZE && n.direct[offset / SECTOR_SIZE] < DATA_BLOCK_COUNT
    requires Reading(n, s, from, length, data, offset, remaining) && offset == from + |data|
    requires AtBlockEnd(from, |data|, |ReadRun(FileContents(n, s), from, length)|)
    ensures var total, more := |ReadRun(FileContents(n, s), from, length)|, |data| + ChunkAt(offset, remaining);
      && more <= total && AtBlockEnd(from, more, total)
      && BlocksTouched(from, more) == BlocksTouched(from, |data|) + 1 <= BlocksTouched(from, total)
  {
    var total := |ReadRun(FileContents(n, s), from, length)|;
    var rest := |ReadRun(FileContents(n, s), offset, remaining)|;
    assert total == |data| + rest;
    BlockInRun(n, s, offset, remaining);
    BlockCounted(from, |data|, ChunkAt(offset, remaining), rest, total);
  }

  lemma BlockCounted(from: nat, have: nat, chunk: nat, rest: nat, total: nat)
    requires total == have + rest && 0 < ChunkAt(from + have, rest) == chunk <= rest && AtBlockEnd(from, have, total)
    ensures AtBlockEnd(from, have + chunk, total)
    ensures BlocksTouched(from, have + chunk) == BlocksTouched(from, have) + 1 <= BlocksTouched(from, total)
  {
    OneMoreBlock(from, have, chunk, total);
    MoreBlocks(from, have + chunk, total);
  }

  /** The part of fs_read's loop that reads what one block holds of the range. */
  method ReadPiece(disk: Disk, n: Inode, offset: nat, remaining: nat) returns (ok: bool, piece: seq<byte>)
    requires remaining > 0 && offset / SECTOR_SIZE < DIRECT_BLOCKS && n.direct[offset / SECTOR_SIZE] < DATA_BLOCK_COUNT
    modifies disk`transfers
    ensures ok ==>
              && 0 < |piece| == ChunkAt(offset, remaining)
              && piece == disk.sectors[DATA_BLOCK_START + n.direct[offset / SECTOR_SIZE]]
                            [offset % SECTOR_SIZE..offset % SECTOR_SIZE + |piece|]
    ensures disk.transfers == old(disk.transfers) + 1 && (ok <==> disk.Clear(old(disk.transfers), 1))
  {
    var at := offset % SECTOR_SIZE;
    var buffer;
    ok, buffer := disk.ReadData(n.direct[offset / SECTOR_SIZE]);
    if !ok {
      return false, [];
    }
    var chunk := SECTOR_SIZE - at;
    if chunk > remaining {
      chunk := remaining;
    }
    piece := buffer[at..at + chunk];
  }
}
