/** Reading a directory: records of 36 bytes are packed without regard to the 512-byte sectors
    they straddle. */
module LuxDirectories {
  import opened Bytes
  import opened LuxFormat
  import opened SectorDisk
  import opened Wrappers
  import opened LuxVolume
  import opened LuxLayout

  /** The records up to and including the first at which the callback stops. */
  function UpTo(records: seq<Record>, keepGoing: Record -> bool): seq<Record> {
    if records == [] then []
    else if !keepGoing(records[0]) then [records[0]]
    else [records[0]] + UpTo(records[1..], keepGoing)
  }

  lemma {:induction false} UpToAll(records: seq<Record>, keepGoing: Record -> bool)
    requires forall r :: 0 <= r < |records| ==> keepGoing(records[r])
    ensures UpTo(records, keepGoing) == records
  {
    if records != [] {
      UpToAll(records[1..], keepGoing);
    }
  }

  lemma {:induction false} UpToStop(records: seq<Record>, keepGoing: Record -> bool, k: nat)
    requires k < |records| && !keepGoing(records[k])
    requires forall r :: 0 <= r < k ==> keepGoing(records[r])
    ensures UpTo(records, keepGoing) == records[..k + 1]
  {
    if k > 0 {
      UpToStop(records[1..], keepGoing, k - 1);
      assert [records[0]] + records[1..][..k] == records[..k + 1];
    }
  }

  /** luxfs_dir_find_cb goes on while the name differs. */
  function NameDiffers(name: Name): Record -> bool {
    (r: Record) => NameOf(r) != name
  }

  function LastMatch(seen: seq<Record>, name: Name): Option<nat> {
    if seen != [] && NameOf(seen[|seen| - 1]) == name then Some(seen[|seen| - 1].inode) else None
  }

  /** A search that stops at the first match finds what a lookup finds. */
  lemma {:induction false} UpToFinds(records: seq<Record>, name: Name)
    ensures LastMatch(UpTo(records, NameDiffers(name)), name) == FindRecord(records, name)
  {
    if records != [] && NameOf(records[0]) != name {
      UpToFinds(records[1..], name);
      var rest := UpTo(records[1..], NameDiffers(name));
      if rest != [] {
        assert ([records[0]] + rest)[|rest|] == rest[|rest| - 1];
      }
    }
  }

  /** Progress of luxfs_dir_iterate: whole records delivered, part of the next one gathered. */
  ghost predicate Delivered(n: Inode, s: Sectors, keepGoing: Record -> bool,
                            delivered: seq<Record>, partial: seq<byte>, processed: nat) {
    && n.size <= MAX_FILE_SIZE && n.size % RECORD_BYTES == 0
    && processed <= n.size
    && processed == RECORD_BYTES * |delivered| + |partial|
    && delivered == Records(n, s)[..|delivered|]
    && (forall r :: 0 <= r < |delivered| ==> keepGoing(delivered[r]))
    && partial == Slice(n, s, RECORD_BYTES * |delivered|, |partial|)
  }

  /** Gathering one more piece, up to a whole record. */
  lemma DeliveredMore(n: Inode, s: Sectors, keepGoing: Record -> bool,
                      delivered: seq<Record>, partial: seq<byte>, processed: nat, piece: seq<byte>)
    requires Delivered(n, s, keepGoing, delivered, partial, processed)
    requires processed + |piece| <= n.size && |partial| + |piece| <= RECORD_BYTES
    requires piece == Slice(n, s, processed, |piece|)
    ensures |partial| + |piece| < RECORD_BYTES ==>
              Delivered(n, s, keepGoing, delivered, partial + piece, processed + |piece|)
    ensures |partial| + |piece| == RECORD_BYTES ==>
              var rec := DecodeRecord(partial + piece);
              && |delivered| < |Records(n, s)| && rec == Records(n, s)[|delivered|]
              && (keepGoing(rec) ==>
                    Delivered(n, s, keepGoing, delivered + [rec], [], processed + |piece|))
              && (!keepGoing(rec) ==> delivered + [rec] == UpTo(Records(n, s), keepGoing))
  {
    assert partial + piece == Slice(n, s, RECORD_BYTES * |delivered|, |partial| + |piece|);
    if |partial| + |piece| == RECORD_BYTES {
      var rec := DecodeRecord(partial + piece);
      assert rec == Records(n, s)[|delivered|];
      assert delivered + [rec] == Records(n, s)[..|delivered| + 1];
      if !keepGoing(rec) {
        UpToStop(Records(n, s), keepGoing, |delivered|);
      }
    }
  }

  lemma DeliveredAll(n: Inode, s: Sectors, keepGoing: Record -> bool,
                     delivered: seq<Record>, partial: seq<byte>, processed: nat)
    requires Delivered(n, s, keepGoing, delivered, partial, processed)
    requires processed == n.size && |partial| < RECORD_BYTES
    ensures partial == [] && delivered == UpTo(Records(n, s), keepGoing)
  {
    assert |delivered| == |Records(n, s)|;
    UpToAll(Records(n, s), keepGoing);
  }

  /** The blocks that the first `count` records of a directory reach into. */
  function BlocksOf(count: nat): nat {
    BlocksBelow(RECORD_BYTES * count)
  }

  function BlocksBelow(bytes: nat): nat {
    (bytes + SECTOR_SIZE - 1) / SECTOR_SIZE
  }

  /** The reads made when a directory's records are delivered up to the first at which the callback
      stops. */
  function IterateReads(records: seq<Record>, keepGoing: Record -> bool): nat {
    BlocksOf(|UpTo(records, keepGoing)|)
  }

  lemma {:induction false} UpToAtLeast(records: seq<Record>, keepGoing: Record -> bool, k: nat)
    requires k < |records| && forall r :: 0 <= r < k ==> keepGoing(records[r])
    ensures |UpTo(records, keepGoing)| > k
  {
    if k > 0 {
      UpToAtLeast(records[1..], keepGoing, k - 1);
    }
  }

  /** As long as the callback has not stopped, the next block has to be read. */
  lemma MoreToRead(n: Inode, s: Sectors, keepGoing: Record -> bool, delivered: seq<Record>, partial: seq<byte>, k: nat)
    requires Delivered(n, s, keepGoing, delivered, partial, SECTOR_SIZE * k)
    requires SECTOR_SIZE * k < n.size && |partial| < RECORD_BYTES
    ensures k < IterateReads(Records(n, s), keepGoing)
  {
    assert |delivered| < |Records(n, s)|;
    UpToAtLeast(Records(n, s), keepGoing, |delivered|);
    EnoughBlocks(|UpTo(Records(n, s), keepGoing)|, |delivered|, k);
  }

  lemma EnoughBlocks(more: nat, count: nat, k: nat)
    requires more > count && SECTOR_SIZE * k < RECORD_BYTES * (count + 1)
    ensures k < BlocksOf(more)
  {
    assert RECORD_BYTES * more >= RECORD_BYTES * (count + 1);
  }

  lemma LastBlock(k: nat, bytes: nat)
    requires SECTOR_SIZE * k < bytes <= SECTOR_SIZE * k + SECTOR_SIZE
    ensures BlocksBelow(bytes) == k + 1
  {
  }

  lemma InBlock(from: nat, t: nat)
    requires from % SECTOR_SIZE + t < SECTOR_SIZE
    ensures (from + t) / SECTOR_SIZE == from / SECTOR_SIZE && (from + t) % SECTOR_SIZE == from % SECTOR_SIZE + t
  {
  }

  /** A stretch of an inode's data inside one block is a stretch of that block's sector. */
  lemma SliceInBlock(n: Inode, s: Sectors, from: nat, count: nat)
    requires from + count <= MAX_FILE_SIZE && from % SECTOR_SIZE + count <= SECTOR_SIZE && count > 0
    requires n.direct[from / SECTOR_SIZE] < DATA_BLOCK_COUNT
    ensures Slice(n, s, from, count) ==
            s[DATA_BLOCK_START + n.direct[from / SECTOR_SIZE]][from % SECTOR_SIZE..from % SECTOR_SIZE + count]
  {
    var a := Slice(n, s, from, count);
    var sector := s[DATA_BLOCK_START + n.direct[from / SECTOR_SIZE]];
    forall t | 0 <= t < count ensures a[t] == sector[from % SECTOR_SIZE + t] {
      InBlock(from, t);
      assert a[t] == ByteAt(n, s, from + t);
    }
  }

  /** A stretch of a file inside one allocated block. */
  lemma ContentsInBlock(n: Inode, s: Sectors, from: nat, count: nat, t: nat)
    requires from + count <= n.size <= MAX_FILE_SIZE && from % SECTOR_SIZE + count <= SECTOR_SIZE && t < count
    requires n.direct[from / SECTOR_SIZE] < DATA_BLOCK_COUNT
    ensures FileContents(n, s)[from + t]
            == Some(s[DATA_BLOCK_START + n.direct[from / SECTOR_SIZE]][from % SECTOR_SIZE + t])
  {
    InBlock(from, t);
  }

  /** Progress of fs_read's loop: `data` is read, `remaining` bytes from `offset` on are not. */
  ghost predicate Reading(n: Inode, s: Sectors, from: nat, length: nat, data: seq<byte>, offset: nat, remaining: nat) {
    data + ReadRun(FileContents(n, s), offset, remaining) == ReadRun(FileContents(n, s), from, length)
  }

  lemma ReadingStarts(n: Inode, s: Sectors, from: nat, length: nat, remaining: nat)
    requires n.size <= MAX_FILE_SIZE && from <= n.size
    requires remaining == if length < n.size - from then length else n.size - from
    ensures Reading(n, s, from, length, [], from, remaining)
  {
    if remaining < length {
      ReadRunLimit(FileContents(n, s), from, length);
    }
  }

  /** Reading one block's part of a file. */
  lemma ReadingMore(n: Inode, s: Sectors, from: nat, length: nat, data: seq<byte>, offset: nat, remaining: nat,
                    chunk: nat, piece: seq<byte>)
    requires Reading(n, s, from, length, data, offset, remaining)
    requires offset + remaining <= n.size <= MAX_FILE_SIZE && 0 < chunk <= remaining && |piece| == chunk
    requires offset % SECTOR_SIZE + chunk <= SECTOR_SIZE && n.direct[offset / SECTOR_SIZE] < DATA_BLOCK_COUNT
    requires piece == s[DATA_BLOCK_START + n.direct[offset / SECTOR_SIZE]][offset % SECTOR_SIZE..offset % SECTOR_SIZE + chunk]
    ensures Reading(n, s, from, length, data + piece, offset + chunk, remaining - chunk)
  {
    var c := FileContents(n, s);
    forall t | 0 <= t < |piece| ensures c[offset + t] == Some(piece[t]) {
      ContentsInBlock(n, s, offset, chunk, t);
    }
    ReadRunSplit(c, offset, remaining, piece);
    var rest := ReadRun(c, offset + chunk, remaining - chunk);
    assert (data + piece) + rest == data + (piece + rest);
  }

  /** The reads of fs_read's loop: the blocks that the bytes it returns lie in. */
  function RunReads(c: Contents, from: nat, length: nat): nat {
    BlocksTouched(from, |ReadRun(c, from, length)|)
  }

  /** A block that is there takes part in the run as far as it reaches. */
  lemma BlockInRun(n: Inode, s: Sectors, offset: nat, remaining: nat)
    requires remaining > 0 && offset + remaining <= n.size <= MAX_FILE_SIZE && n.direct[offset / SECTOR_SIZE] < DATA_BLOCK_COUNT
    ensures var run := |ReadRun(FileContents(n, s), offset, remaining)|;
      0 < ChunkAt(offset, run) == ChunkAt(offset, remaining) <= run
  {
    var c, chunk := FileContents(n, s), ChunkAt(offset, remaining);
    var piece := seq(chunk, t requires 0 <= t < chunk => ByteAt(n, s, offset + t));
    forall t | 0 <= t < |piece| ensures c[offset + t] == Some(piece[t]) {
      ContentsInBlock(n, s, offset, chunk, t);
    }
    ReadRunSplit(c, offset, remaining, piece);
    ReadRunAtMost(c, offset, remaining);
  }

  /** A hole ends the read. */
  lemma ReadingEnds(n: Inode, s: Sectors, from: nat, length: nat, data: seq<byte>, offset: nat, remaining: nat)
    requires Reading(n, s, from, length, data, offset, remaining) && n.size <= MAX_FILE_SIZE
    requires remaining == 0 || (offset < n.size && n.direct[offset / SECTOR_SIZE] == INVALID_BLOCK)
    ensures data == ReadRun(FileContents(n, s), from, length)
  {
    assert ReadRun(FileContents(n, s), offset, remaining) == [];
  }
}
