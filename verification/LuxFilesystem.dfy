/** The LuxFS file system over a block device: in-memory metadata that is written through to
    the disk by every operation. */
module LuxFilesystem {
  import opened Bytes
  import opened Bitmap
  import opened LuxFormat
  import opened SectorDisk
  import opened Wrappers
  import opened LuxVolume
  import opened LuxPaths
  import opened LuxLayout
  import opened LuxUpdates
  import opened LuxDirectories
  import opened LuxReading
  import opened LuxSearches
  import opened LuxStorage
  import opened LuxSpace
  import opened LuxWriting
  import opened LuxStops
  import opened LuxOutcome
  import opened LuxNamespace
  import opened LuxMounting

  class LuxFs {
    const disk: Disk
    var mounted: bool
    var super: Superblock
    var inodes: seq<Inode>
    var inodeBitmap: seq<byte>
    var blockBitmap: seq<byte>
    ghost var lag: set<nat>  // metadata sectors whose disk copy may lag behind memory

    // The static g_fs of a freshly booted kernel: all zero bytes.
    constructor (disk: Disk)
      ensures this.disk == disk && !mounted && Valid()
    {
      this.disk := disk;
      mounted := false;
      super := Superblock(0, 0, 0, 0, 0, 0, 0, 0, 0, 0);
      var zero: Inode := Inode(NODE_FREE, Zeros(3), 0, 0, seq(DIRECT_BLOCKS, _ => 0), Zeros(16));
      inodes := seq(MAX_INODES, _ => zero);
      inodeBitmap := Zeros(INODE_BITMAP_BYTES);
      blockBitmap := Zeros(BLOCK_BITMAP_BYTES);
      lag := AllMetadata();
    }

    ghost function Memory(): Meta
      reads this
    {
      Meta(super, inodes, inodeBitmap, blockBitmap)
    }

    /** The volume that the metadata in memory and the data on disk represent. */
    ghost function Nodes(): Volume
      requires |inodes| == MAX_INODES
      reads this, disk
    {
      VolumeOf(inodes, disk.sectors)
    }

    /** Holds in every run, whatever transfers fail. */
    ghost predicate Valid()
      reads this, disk
    {
      Tracked() && (mounted ==> Consistent(Memory(), disk.sectors))
    }

    ghost predicate Running()
      reads this, disk
    {
      mounted && Tracked() && Consistent(Memory(), disk.sectors)
    }

    /** Holds besides in every run without failed transfers. */
    ghost predicate Healthy()
      reads this, disk
    {
      Running() && Sound(Memory(), disk.sectors)
    }

    /** The metadata sectors outside `lag` hold what memory holds. */
    ghost predicate Tracked()
      reads this, disk
    {
      WellSized(Memory()) && Tracks(Memory(), disk.sectors, lag)
    }

    // Mounting -----------------------------------------------------------------------------------

    /** The loop of luxfs_load_metadata over the inode table's sectors. */
    method LoadInodeTable() returns (ok: bool)
      requires |inodes| == MAX_INODES
      modifies this`inodes, disk`transfers
      ensures |inodes| == MAX_INODES
      ensures ok ==> inodes == LoadedMeta(disk.sectors).inodes
      ensures ok <==> disk.Clear(old(disk.transfers), INODE_TABLE_BLOCKS)
      ensures disk.transfers == disk.After(old(disk.transfers), INODE_TABLE_BLOCKS)
    {
      var k := 0;
      while k < INODE_TABLE_BLOCKS
        invariant 0 <= k <= INODE_TABLE_BLOCKS && |inodes| == MAX_INODES && TableLoaded(inodes, disk.sectors, k)
        invariant disk.transfers == old(disk.transfers) + k && disk.Clear(old(disk.transfers), k)
      {
        var buffer;
        ok, buffer := disk.Read(INODE_TABLE_START + k);
        if !ok {
          disk.StopsAt(old(disk.transfers), k, INODE_TABLE_BLOCKS);
          return false;
        }
        TableMore(inodes, disk.sectors, k);
        inodes := WithTable(inodes, k, buffer);
        k := k + 1;
      }
      AllLoaded(inodes, disk.sectors);
      disk.AfterClear(old(disk.transfers), INODE_TABLE_BLOCKS);
      return true;
    }

    /** The superblock and the bitmaps of luxfs_load_metadata. */
    method LoadBitmaps() returns (ok: bool)
      requires WellSized(Memory())
      modifies this`super, this`inodeBitmap, this`blockBitmap, disk`transfers
      ensures WellSized(Memory())
      ensures ok ==> Memory() == LoadedMeta(disk.sectors).(inodes := inodes)
      ensures (ok <==> disk.Clear(old(disk.transfers), 3)) && disk.transfers == disk.After(old(disk.transfers), 3)
      ensures ok ==> disk.transfers == old(disk.transfers) + 3
    {
      ghost var t := disk.transfers;
      var buffer;
      ok, buffer := disk.Read(SUPER_BLOCK);
      if !ok {
        disk.StopsAt(t, 0, 3);
        return false;
      }
      super := DecodeSuper(buffer);
      ok, buffer := disk.Read(INODE_BITMAP_BLOCK);
      if !ok {
        disk.StopsAt(t, 1, 3);
        return false;
      }
      inodeBitmap := buffer[..INODE_BITMAP_BYTES];
      ok, buffer := disk.Read(BLOCK_BITMAP_BLOCK);
      if !ok {
        disk.StopsAt(t, 2, 3);
        return false;
      }
      blockBitmap := buffer[..BLOCK_BITMAP_BYTES];
      disk.AfterClear(t, 3);
      return true;
    }

    /** luxfs_load_metadata */
    method LoadMetadata() returns (ok: bool)
      requires WellSized(Memory())
      modifies this`super, this`inodes, this`inodeBitmap, this`blockBitmap, this`lag, disk`transfers
      ensures Tracked()
      ensures ok ==> Memory() == LoadedMeta(disk.sectors)
      ensures ok && Tracks(LoadedMeta(disk.sectors), disk.sectors, {}) ==> lag == {}
      ensures ok <==> disk.Clear(old(disk.transfers), DATA_BLOCK_START)
      ensures disk.transfers == disk.After(old(disk.transfers), DATA_BLOCK_START)
    {
      lag := AllMetadata();
      disk.InTwoParts(disk.transfers, 3, INODE_TABLE_BLOCKS);
      ok := LoadBitmaps();
      if !ok {
        return false;
      }
      ok := LoadInodeTable();
      if !ok {
        return false;
      }
      if Tracks(Memory(), disk.sectors, {}) {
        lag := {};
      }
      return true;
    }

    /** luxfs_format's new metadata, in memory only. */
    method ResetMemory()
      modifies this`mounted, this`super, this`inodes, this`inodeBitmap, this`blockBitmap, this`lag
      ensures !mounted && Memory() == FreshMeta() && lag == AllMetadata()
    {
      mounted := false;
      super := FRESH_SUPER;
      var zero: Inode := Inode(NODE_FREE, Zeros(3), 0, 0, seq(DIRECT_BLOCKS, _ => 0), Zeros(16));
      inodes := seq(MAX_INODES, _ => zero);
      var i := 0;
      while i < MAX_INODES
        invariant 0 <= i <= MAX_INODES && |inodes| == MAX_INODES && !mounted && super == FRESH_SUPER
        invariant forall j :: 0 <= j < MAX_INODES ==> inodes[j] == if j < i then UnusedInode() else zero
      {
        inodes := inodes[i := Cleared(inodes[i])];
        i := i + 1;
      }
      inodeBitmap := Put(Zeros(INODE_BITMAP_BYTES), 0, true);
      blockBitmap := Zeros(BLOCK_BITMAP_BYTES);
      inodes := inodes[0 := inodes[0].(kind := NODE_DIR, parent := 0)];
      lag := AllMetadata();
    }

    /** The loop of luxfs_format over the inode table's sectors. */
    method FlushInodeTable() returns (ok: bool)
      requires Tracked()
      modifies this`lag, disk`sectors, disk`transfers
      ensures Tracked()
      ensures ok ==> forall b :: b in lag ==> b in old(lag) && (b < INODE_TABLE_START || DATA_BLOCK_START <= b)
      ensures ok <==> disk.Clear(old(disk.transfers), INODE_TABLE_BLOCKS)
      ensures ok ==> disk.transfers == old(disk.transfers) + INODE_TABLE_BLOCKS
    {
      var k := 0;
      while k < INODE_TABLE_BLOCKS
        invariant 0 <= k <= INODE_TABLE_BLOCKS && Tracked()
        invariant forall b :: b in lag ==> b in old(lag) && (b < INODE_TABLE_START || INODE_TABLE_START + k <= b)
        invariant disk.transfers == old(disk.transfers) + k && disk.Clear(old(disk.transfers), k)
      {
        ok := FlushInodeBlock(k);
        if !ok {
          return false;
        }
        k := k + 1;
      }
      return true;
    }

    /** The writes of luxfs_format. */
    method FlushAll() returns (ok: bool)
      requires Tracked() && lag == AllMetadata()
      modifies this`lag, disk`sectors, disk`transfers
      ensures Tracked() && (ok ==> lag == {})
      ensures ok <==> disk.Clear(old(disk.transfers), DATA_BLOCK_START)
      ensures ok ==> disk.transfers == old(disk.transfers) + DATA_BLOCK_START
    {
      ok := FlushSuperblock();
      if !ok {
        return false;
      }
      ok := FlushInodeBitmap();
      if !ok {
        return false;
      }
      ok := FlushBlockBitmap();
      if !ok {
        return false;
      }
      ok := FlushInodeTable();
      assert ok ==> lag == {};
    }

    /** luxfs_format */
    method Format() returns (ok: bool)
      modifies this`mounted, this`super, this`inodes, this`inodeBitmap, this`blockBitmap, this`lag,
               disk`sectors, disk`transfers
      ensures Valid() && mounted == ok
      ensures ok ==> Healthy() && Memory() == FreshMeta() && Nodes() == EmptyVolume() && lag == {}
      ensures ok <==> disk.Clear(old(disk.transfers), DATA_BLOCK_START)
      ensures ok ==> disk.transfers == old(disk.transfers) + DATA_BLOCK_START
    {
      ResetMemory();
      ok := FlushAll();
      if !ok {
        return false;
      }
      FreshSound(disk.sectors);
      mounted := true;
      return true;
    }

    /** fs_mount: what the disk holds is loaded if it carries a valid superblock and all of the metadata
        can be read, and replaced by a fresh volume otherwise. Only an image whose superblock passes but
        whose other metadata is inconsistent could leave the invariant broken. */
    method Mount() returns (ok: bool)
      requires Valid()
      modifies this, disk`ready, disk`sectors, disk`transfers
      ensures old(mounted) ==> ok && mounted && Memory() == old(Memory()) && lag == old(lag) && disk.sectors == old(disk.sectors)
      ensures old(mounted) || Readable(old(disk.sectors)) ==> Valid()
      ensures ok <==> mounted
      ensures disk.ready == (old(disk.ready) || (!old(mounted) && disk.present))
      ensures !old(mounted) && !(disk.ready && disk.totalSectors >= START_LBA + TOTAL_SECTORS) ==>
                !ok && Memory() == old(Memory()) && disk.sectors == old(disk.sectors)
      ensures !old(mounted) && disk.ready && disk.totalSectors >= START_LBA + TOTAL_SECTORS ==>
                var t, image := old(disk.transfers), old(disk.sectors);
                var loaded := disk.Clear(t, DATA_BLOCK_START);
                if loaded && ValidSuper(LoadedMeta(image).super) then
                  ok && MountedFrom(image) && disk.transfers == t + DATA_BLOCK_START
                else
                  && (ok <==> disk.Clear(disk.After(t, DATA_BLOCK_START), DATA_BLOCK_START))
                  && (ok ==>
                        && Healthy() && Memory() == FreshMeta() && Nodes() == EmptyVolume() && lag == {}
                        && disk.transfers == disk.After(t, DATA_BLOCK_START) + DATA_BLOCK_START)
    {
      if mounted {
        return true;
      }
      if !disk.ready {
        var started := disk.Initialize();
        if !started {
          return false;
        }
      }
      if disk.totalSectors < START_LBA + TOTAL_SECTORS {
        return false;
      }
      var loaded := LoadMetadata();
      if !loaded {
        ok := Format();
        return ok;
      }
      if !ValidSuper(super) {
        ok := Format();
        return ok;
      }
      mounted := true;
      disk.AfterClear(old(disk.transfers), DATA_BLOCK_START);
      return true;
    }

    /** The metadata is what the sectors, which are unchanged, said. */
    ghost predicate MountedFrom(sectors: Sectors)
      reads this, disk
    {
      && Memory() == LoadedMeta(sectors)
      && disk.sectors == sectors
      && (Tracks(LoadedMeta(sectors), sectors, {}) ==> lag == {})
    }

    // Writing metadata through ------------------------------------------------------------------

    method FlushSector(b: nat, ghost m: Meta, image: Sector) returns (ok: bool)
      requires Tracked() && m == Memory() && b < DATA_BLOCK_START && image == MetaImage(m, b)
      modifies this`lag, disk`sectors, disk`transfers
      ensures Tracked() && lag == if ok then old(lag) - {b} else old(lag)
      ensures SameData(old(disk.sectors), disk.sectors)
      ensures disk.sectors == if ok then old(disk.sectors)[b := image] else old(disk.sectors)
      ensures disk.transfers == old(disk.transfers) + 1 && (ok <==> disk.Clear(old(disk.transfers), 1))
      ensures disk.Reliable() ==> ok
    {
      FlushedSector(m, disk.sectors, b, lag);
      ok := disk.Write(b, image);
      if ok {
        lag := lag - {b};
      }
    }

    method FlushSuperblock() returns (ok: bool)
      requires Tracked()
      modifies this`lag, disk`sectors, disk`transfers
      ensures Tracked() && lag == if ok then old(lag) - {SUPER_BLOCK} else old(lag)
      ensures SameData(old(disk.sectors), disk.sectors)
      ensures disk.transfers == old(disk.transfers) + 1 && (ok <==> disk.Clear(old(disk.transfers), 1))
      ensures disk.Reliable() ==> ok
    {
      ok := FlushSector(SUPER_BLOCK, Memory(), SuperImage(super));
    }

    method FlushInodeBitmap() returns (ok: bool)
      requires Tracked()
      modifies this`lag, disk`sectors, disk`transfers
      ensures Tracked() && lag == if ok then old(lag) - {INODE_BITMAP_BLOCK} else old(lag)
      ensures SameData(old(disk.sectors), disk.sectors)
      ensures disk.transfers == old(disk.transfers) + 1 && (ok <==> disk.Clear(old(disk.transfers), 1))
      ensures disk.Reliable() ==> ok
    {
      ok := FlushSector(INODE_BITMAP_BLOCK, Memory(), BitmapImage(inodeBitmap));
    }

    method FlushBlockBitmap() returns (ok: bool)
      requires Tracked()
      modifies this`lag, disk`sectors, disk`transfers
      ensures Tracked() && lag == if ok then old(lag) - {BLOCK_BITMAP_BLOCK} else old(lag)
      ensures SameData(old(disk.sectors), disk.sectors) && TablesKept(old(disk.sectors), disk.sectors)
      ensures disk.transfers == old(disk.transfers) + 1 && (ok <==> disk.Clear(old(disk.transfers), 1))
      ensures !ok ==> disk.sectors == old(disk.sectors)
      ensures disk.Reliable() ==> ok
    {
      ok := FlushSector(BLOCK_BITMAP_BLOCK, Memory(), BitmapImage(blockBitmap));
    }

    method FlushInodeBlock(k: nat) returns (ok: bool)
      requires Tracked()
      modifies this`lag, disk`sectors, disk`transfers
      ensures Tracked() && lag == if ok then old(lag) - {INODE_TABLE_START + k} else old(lag)
      ensures SameData(old(disk.sectors), disk.sectors)
      ensures k < INODE_TABLE_BLOCKS ==>
                disk.transfers == old(disk.transfers) + 1 && (ok <==> disk.Clear(old(disk.transfers), 1))
      ensures disk.Reliable() && k < INODE_TABLE_BLOCKS ==> ok
    {
      if k >= INODE_TABLE_BLOCKS {
        return false;
      }
      ok := FlushSector(INODE_TABLE_START + k, Memory(), TableImage(inodes, k));
    }

    method FlushInode(i: nat) returns (ok: bool)
      requires Tracked()
      modifies this`lag, disk`sectors, disk`transfers
      ensures Tracked() && lag == if ok then old(lag) - {TableBlock(i)} else old(lag)
      ensures SameData(old(disk.sectors), disk.sectors)
      ensures i < MAX_INODES ==>
                disk.transfers == old(disk.transfers) + 1 && (ok <==> disk.Clear(old(disk.transfers), 1))
      ensures disk.Reliable() && i < MAX_INODES ==> ok
    {
      if i >= MAX_INODES {
        return false;
      }
      ok := FlushInodeBlock(i / INODES_PER_BLOCK);
    }

    // Allocation ----------------------------------------------------------------------------------

    /** luxfs_alloc_inode: the lowest free inode becomes an empty node. When one of its two transfers
        fails, the inode stays set up in memory all the same. */
    method AllocInode(kind: byte, parent: u32) returns (ok: bool, index: nat)
      requires Running() && kind in {NODE_DIR, NODE_FILE} && parent < MAX_INODES
      modifies this`inodes, this`inodeBitmap, this`lag, disk`sectors, disk`transfers
      ensures Running() && FilesKept(old(Nodes()), Nodes())
      ensures ok <==> HasFreeInode(old(Memory())) && disk.Clear(old(disk.transfers), 2)
      ensures HasFreeInode(old(Memory())) ==>
                && FirstFree(old(inodeBitmap), index)
                && Memory() == WithNewInode(old(Memory()), index, kind, parent)
                && Nodes() == old(Nodes())[index := EmptyNode(kind, parent)]
                && Keeps(old(Memory()), Memory())
      ensures !HasFreeInode(old(Memory())) ==>
                Memory() == old(Memory()) && disk.sectors == old(disk.sectors) && lag == old(lag)
      ensures ok ==> lag <= old(lag) && disk.transfers == old(disk.transfers) + 2
    {
      index := 0;
      while index < MAX_INODES
        invariant index <= MAX_INODES
        invariant forall j :: 0 <= j < index ==> Bit(inodeBitmap, j)
      {
        if !Bit(inodeBitmap, index) {
          NewNodeFrame(Memory(), disk.sectors, index, parent);
          ok := SetUpInode(index, kind, parent);
          return ok, index;
        }
        index := index + 1;
      }
      return false, index;
    }

    /** The body of luxfs_alloc_inode's loop for the free inode it found. */
    method SetUpInode(index: nat, kind: byte, parent: u32) returns (ok: bool)
      requires Running() && kind in {NODE_DIR, NODE_FILE} && parent < MAX_INODES
      requires index < MAX_INODES && !Bit(inodeBitmap, index)
      modifies this`inodes, this`inodeBitmap, this`lag, disk`sectors, disk`transfers
      ensures Running() && Memory() == WithNewInode(old(Memory()), index, kind, parent)
      ensures Nodes() == old(Nodes())[index := EmptyNode(kind, parent)]
      ensures Keeps(old(Memory()), Memory())
      ensures ok ==> lag <= old(lag)
      ensures ok <==> disk.Clear(old(disk.transfers), 2)
      ensures ok ==> disk.transfers == old(disk.transfers) + 2
    {
      ghost var m0, s0 := Memory(), disk.sectors;
      ChangedInode(m0, s0, index, Fresh(inodes[index], kind, parent), lag);
      inodes := inodes[index := Fresh(inodes[index], kind, parent)];
      lag := lag + {TableBlock(index)};
      ChangedInodeBitmap(Memory(), s0, Put(inodeBitmap, index, true), lag);
      inodeBitmap := Put(inodeBitmap, index, true);
      lag := lag + {INODE_BITMAP_BLOCK};
      ok := FlushInodeBitmap();
      if ok {
        ok := FlushInode(index);
      }
      NewInodeSteps(m0, s0, index, kind, parent, disk.sectors);
    }

    /** luxfs_alloc_block: the lowest free data block is marked. */
    method AllocBlock() returns (ok: bool, index: u32)
      requires Tracked()
      modifies this`blockBitmap, this`lag, disk`sectors, disk`transfers
      ensures Tracked() && SameData(old(disk.sectors), disk.sectors) && TablesKept(old(disk.sectors), disk.sectors)
      ensures ok <==> HasFree(old(blockBitmap)) && disk.Clear(old(disk.transfers), 1)
      ensures ok ==>
                && LowestTaken(old(blockBitmap), blockBitmap, index)
                && lag <= old(lag) && disk.transfers == old(disk.transfers) + 1
      ensures !ok ==>
                && disk.sectors == old(disk.sectors)
                && (blockBitmap == old(blockBitmap)
                    || exists b: nat :: b < DATA_BLOCK_COUNT && blockBitmap == Put(old(blockBitmap), b, true))
      ensures !ok && disk.Reliable() ==>
                blockBitmap == old(blockBitmap) && lag == old(lag) && !HasFree(blockBitmap)
    {
      index := 0;
      while index < DATA_BLOCK_COUNT
        invariant 0 <= index <= DATA_BLOCK_COUNT
        invariant forall j :: 0 <= j < index ==> Bit(blockBitmap, j)
      {
        if !Bit(blockBitmap, index) {
          ChangedBlockBitmap(Memory(), disk.sectors, Put(blockBitmap, index, true), lag);
          blockBitmap := Put(blockBitmap, index, true);
          lag := lag + {BLOCK_BITMAP_BLOCK};
          ok := FlushBlockBitmap();
          return ok, index;
        }
        index := index + 1;
      }
      return false, 0;
    }

    /** luxfs_free_block */
    method FreeBlock(index: u32) returns (ok: bool)
      requires Tracked()
      modifies this`blockBitmap, this`lag, disk`sectors, disk`transfers
      ensures Tracked() && SameData(old(disk.sectors), disk.sectors) && TablesKept(old(disk.sectors), disk.sectors)
      ensures index >= DATA_BLOCK_COUNT ==> !ok && blockBitmap == old(blockBitmap)
      ensures index < DATA_BLOCK_COUNT ==>
                forall b :: 0 <= b < 8 * BLOCK_BITMAP_BYTES ==>
                  Bit(blockBitmap, b) == (Bit(old(blockBitmap), b) && b != index)
      ensures index < DATA_BLOCK_COUNT && Bit(old(blockBitmap), index) ==>
                blockBitmap == Put(old(blockBitmap), index, false)
      ensures index < DATA_BLOCK_COUNT && Bit(old(blockBitmap), index) ==>
                disk.transfers == old(disk.transfers) + 1 && (ok <==> disk.Clear(old(disk.transfers), 1))
      ensures ok ==> lag <= old(lag)
      ensures disk.Reliable() && index < DATA_BLOCK_COUNT ==> ok
    {
      if index >= DATA_BLOCK_COUNT {
        return false;
      }
      if !Bit(blockBitmap, index) {
        return true;
      }
      BitmapUpdate(blockBitmap, index, false);
      ChangedBlockBitmap(Memory(), disk.sectors, Put(blockBitmap, index, false), lag);
      blockBitmap := Put(blockBitmap, index, false);
      lag := lag + {BLOCK_BITMAP_BLOCK};
      ok := FlushBlockBitmap();
    }

    /** luxfs_release_inode_blocks */
    method ReleaseInodeBlocks(i: nat) returns (ok: bool)
      requires Tracked() && i < MAX_INODES
      requires Ownership(inodes, blockBitmap)
      modifies this`inodes, this`blockBitmap, this`lag, disk`sectors, disk`transfers
      ensures Tracked() && SameData(old(disk.sectors), disk.sectors) && TablesKept(old(disk.sectors), disk.sectors)
      ensures inodes == old(inodes)[i := Emptied(old(inodes)[i])]
      ensures Freed(old(inodes)[i], old(blockBitmap), blockBitmap)
      ensures FreeBlocks(blockBitmap) == FreeBlocks(old(blockBitmap)) + Held(old(inodes)[i])
      ensures ok ==> lag <= old(lag) + {TableBlock(i)}
      ensures disk.transfers == old(disk.transfers) + Held(old(inodes)[i])
      ensures ok <==> disk.Clear(old(disk.transfers), Held(old(inodes)[i]))
      ensures disk.Reliable() ==> ok
    {
      ok := true;
      var k := 0;
      ghost var inodes0, bitmap0 := inodes, blockBitmap;
      while k < DIRECT_BLOCKS
        invariant 0 <= k <= DIRECT_BLOCKS && Tracked() && Releasing(inodes0, bitmap0, inodes, blockBitmap, i, k)
        invariant SameData(old(disk.sectors), disk.sectors) && TablesKept(old(disk.sectors), disk.sectors)
        invariant ok ==> lag <= old(lag) + {TableBlock(i)}
        invariant disk.transfers == old(disk.transfers) + HeldBelow(inodes0[i], k)
        invariant ok <==> disk.Clear(old(disk.transfers), HeldBelow(inodes0[i], k))
      {
        var freed := ReleaseRound(i, k, inodes0, bitmap0);
        if !freed {
          ok := false;
        }
        k := k + 1;
      }
      FreedEvery(inodes0[i], bitmap0, blockBitmap);
      ChangedInode(Memory(), disk.sectors, i, inodes[i].(size := 0), lag);
      inodes := inodes[i := inodes[i].(size := 0)];
      lag := lag + {TableBlock(i)};
      assert inodes[i].direct == NoBlocks();
    }

    /** One round of luxfs_release_inode_blocks's loop. */
    method ReleaseRound(i: nat, k: nat, ghost inodes0: seq<Inode>, ghost bitmap0: seq<byte>) returns (ok: bool)
      requires Tracked() && i < |inodes0| == MAX_INODES && |bitmap0| == BLOCK_BITMAP_BYTES && k < DIRECT_BLOCKS
      requires Ownership(inodes0, bitmap0) && Releasing(inodes0, bitmap0, inodes, blockBitmap, i, k)
      modifies this`inodes, this`blockBitmap, this`lag, disk`sectors, disk`transfers
      ensures Tracked() && Releasing(inodes0, bitmap0, inodes, blockBitmap, i, k + 1)
      ensures SameData(old(disk.sectors), disk.sectors) && TablesKept(old(disk.sectors), disk.sectors)
      ensures ok ==> lag <= old(lag) + {TableBlock(i)}
      ensures var count := HeldBelow(inodes0[i], k + 1) - HeldBelow(inodes0[i], k);
        disk.transfers == old(disk.transfers) + count && (ok <==> disk.Clear(old(disk.transfers), count))
    {
      ghost var inodes1, bitmap1 := inodes, blockBitmap;
      ok := true;
      if inodes[i].direct[k] != INVALID_BLOCK {
        StillMarked(inodes0, bitmap0, i, k, blockBitmap);
        ok := ReleaseSlot(i, k);
      }
      ReleasedMore(inodes0, bitmap0, inodes1, bitmap1, inodes, blockBitmap, i, k);
    }

    /** One block of an inode is given back. */
    method ReleaseSlot(i: nat, k: nat) returns (ok: bool)
      requires Tracked() && i < MAX_INODES && k < DIRECT_BLOCKS
      requires inodes[i].direct[k] < DATA_BLOCK_COUNT && Bit(blockBitmap, inodes[i].direct[k])
      modifies this`inodes, this`blockBitmap, this`lag, disk`sectors, disk`transfers
      ensures Tracked() && SameData(old(disk.sectors), disk.sectors) && TablesKept(old(disk.sectors), disk.sectors)
      ensures inodes == old(inodes)[i := WithBlock(old(inodes)[i], k, INVALID_BLOCK)]
      ensures blockBitmap == Put(old(blockBitmap), old(inodes)[i].direct[k], false)
      ensures ok ==> lag <= old(lag) + {TableBlock(i)}
      ensures disk.transfers == old(disk.transfers) + 1 && (ok <==> disk.Clear(old(disk.transfers), 1))
    {
      ok := FreeBlock(inodes[i].direct[k]);
      ChangedInode(Memory(), disk.sectors, i, WithBlock(inodes[i], k, INVALID_BLOCK), lag);
      inodes := inodes[i := WithBlock(inodes[i], k, INVALID_BLOCK)];
      lag := lag + {TableBlock(i)};
    }

    /** luxfs_mark_inode_free */
    method MarkInodeFree(i: nat)
      requires Running() && 0 < i < MAX_INODES
      modifies this`inodes, this`inodeBitmap, this`blockBitmap, this`lag, disk`sectors, disk`transfers
      ensures Running()
      ensures Freed(old(inodes)[i], old(blockBitmap), blockBitmap)
      ensures Memory() == WithFreedInode(old(Memory()), i, blockBitmap)
      ensures Nodes() == old(Nodes())[i := Free]
      ensures Keeps(old(Memory()), Memory())
      ensures disk.Reliable() ==> lag <= old(lag)
    {
      ghost var m0, s0 := Memory(), disk.sectors;
      var released := ReleaseInodeBlocks(i);
      ChangedInode(Memory(), disk.sectors, i, Cleared(inodes[i]), lag);
      inodes := inodes[i := Cleared(inodes[i])];
      lag := lag + {TableBlock(i)};
      ChangedInodeBitmap(Memory(), disk.sectors, Put(inodeBitmap, i, false), lag);
      inodeBitmap := Put(inodeBitmap, i, false);
      lag := lag + {INODE_BITMAP_BLOCK};
      assert inodes == m0.inodes[i := Cleared(m0.inodes[i])];
      var flushed := FlushInode(i);
      flushed := FlushInodeBitmap();
      FreedInodeSteps(m0, s0, i, blockBitmap, disk.sectors);
    }

    // Directories -----------------------------------------------------------------------------------

    /** luxfs_dir_iterate with a callback that looks at the record and says whether to go on:
        the callback is given the directory's records in order up to the first it stops at. The blocks
        that hold these are read, and nothing else can fail. */
    method DirIterate(dir: nat, keepGoing: Record -> bool) returns (ok: bool, delivered: seq<Record>)
      requires Running()
      modifies disk`transfers
      ensures ok ==> dir < MAX_INODES && Nodes()[dir].Dir? && delivered == UpTo(Nodes()[dir].records, keepGoing)
      ensures if dir < MAX_INODES && Nodes()[dir].Dir? then
                var t, count := old(disk.transfers), IterateReads(Nodes()[dir].records, keepGoing);
                (ok <==> disk.Clear(t, count)) && disk.transfers == disk.After(t, count)
              else
                !ok && disk.transfers == old(disk.transfers)
    {
      delivered := [];
      if dir >= MAX_INODES || inodes[dir].kind != NODE_DIR {
        return false, delivered;
      }
      var n: Inode := inodes[dir];
      assert InodeOk(n);
      forall k | 0 <= k < DIRECT_BLOCKS && n.direct[k] != INVALID_BLOCK ensures n.direct[k] < DATA_BLOCK_COUNT {
        assert Ptr(inodes, dir, k) < DATA_BLOCK_COUNT;
      }
      ok, delivered := IterateBlocks(disk, n, keepGoing);
    }

    /** luxfs_dir_find: a search fails if there is no such name or if one of the blocks up to the one that
        holds it cannot be read. */
    method DirFind(dir: nat, name: Name) returns (found: bool, inode: nat)
      requires Running()
      modifies disk`transfers
      ensures found ==> dir < MAX_INODES && Lookup(Nodes()[dir], name) == Some(inode) && inode < MAX_INODES
      ensures if dir < MAX_INODES then
                var t, count := old(disk.transfers), SearchReads(Nodes()[dir], name);
                && (found <==> Lookup(Nodes()[dir], name).Some? && disk.Clear(t, count))
                && disk.transfers == disk.After(t, count)
              else
                !found && disk.transfers == old(disk.transfers)
    {
      var ok, seen := DirIterate(dir, NameDiffers(name));
      if !ok {
        return false, 0;
      }
      ghost var records := Nodes()[dir].records;
      UpToFinds(records, name);
      if seen == [] || NameOf(seen[|seen| - 1]) != name {
        return false, 0;
      }
      FindRecordSound(records, name);
      return true, seen[|seen| - 1].inode;
    }

    // Storing data ---------------------------------------------------------------------------------

    /** Reads the block of inode `i` at `offset`, changes `piece` in it and writes it back. */
    method PatchBlock(i: nat, offset: nat, piece: seq<byte>) returns (ok: bool)
      requires |inodes| == MAX_INODES && i < MAX_INODES && InOneBlock(offset, piece)
      requires inodes[i].direct[offset / SECTOR_SIZE] < DATA_BLOCK_COUNT
      modifies disk`sectors, disk`transfers
      ensures disk.sectors == if ok then Patched(old(disk.sectors), inodes[i], offset, piece) else old(disk.sectors)
      ensures ok <==> disk.Clear(old(disk.transfers), 2)
      ensures ok ==> disk.transfers == old(disk.transfers) + 2
      ensures disk.Reliable() ==> ok
    {
      var buffer;
      ok, buffer := disk.ReadData(inodes[i].direct[offset / SECTOR_SIZE]);
      if !ok {
        return false;
      }
      ok := disk.WriteData(inodes[i].direct[offset / SECTOR_SIZE], Patch(buffer, offset % SECTOR_SIZE, piece));
    }

    /** Either loop's body for a block the inode already has. */
    method StoreInPlace(i: nat, offset: nat, piece: seq<byte>) returns (ok: bool)
      requires Running() && i < MAX_INODES && InOneBlock(offset, piece)
      requires inodes[i].direct[offset / SECTOR_SIZE] != INVALID_BLOCK
      modifies disk`sectors, disk`transfers
      ensures Contained(Memory(), old(disk.sectors), Memory(), disk.sectors, i)
      ensures ok ==> Storing(Memory(), old(disk.sectors), Memory(), disk.sectors, i, offset, piece)
      ensures Tracked() && TablesKept(old(disk.sectors), disk.sectors)
      ensures !ok ==> disk.sectors == old(disk.sectors)
      ensures ok <==> disk.Clear(old(disk.transfers), 2)
      ensures ok ==> disk.transfers == old(disk.transfers) + 2
      ensures disk.Reliable() ==> ok
    {
      ghost var m0, s0 := Memory(), disk.sectors;
      ContainedInItself(m0, s0, i);
      StoreExisting(m0, s0, i, offset, piece);
      ok := PatchBlock(i, offset, piece);
      TracksFrame(m0, s0, disk.sectors, lag);
    }

    /** fs_write's loop body for a block the file does not have yet: other than in a directory,
        the block belongs to the inode before anything is written to it. */
    method PutInNewBlock(i: nat, offset: nat, piece: seq<byte>) returns (ok: bool)
      requires Running() && i < MAX_INODES && InOneBlock(offset, piece)
      requires inodes[i].direct[offset / SECTOR_SIZE] == INVALID_BLOCK
      modifies this`inodes, this`blockBitmap, this`lag, disk`sectors, disk`transfers
      ensures Tracked() && TablesKept(old(disk.sectors), disk.sectors)
      ensures Contained(old(Memory()), old(disk.sectors), Memory(), disk.sectors, i)
      ensures ok ==>
                && Storing(old(Memory()), old(disk.sectors), Memory(), disk.sectors, i, offset, piece)
                && lag <= old(lag) + {TableBlock(i)}
                && LowestTaken(old(blockBitmap), blockBitmap, inodes[i].direct[offset / SECTOR_SIZE])
                && disk.transfers == old(disk.transfers) + 2
      ensures ok <==> HasFree(old(blockBitmap)) && disk.Clear(old(disk.transfers), 2)
      ensures !ok ==> Unfinished(old(inodes)[i], old(disk.sectors), inodes[i], disk.sectors, offset / SECTOR_SIZE)
      ensures !ok && disk.Reliable() ==>
                && Memory() == old(Memory()) && disk.sectors == old(disk.sectors) && lag == old(lag) && !HasFree(blockBitmap)
    {
      ghost var m0, s0 := Memory(), disk.sectors;
      var k := offset / SECTOR_SIZE;
      var b;
      ok, b := AllocBlock();
      if !ok {
        LostBlock(m0, s0, blockBitmap, i);
        return false;
      }
      ghost var s1 := disk.sectors;
      ChangedInode(Memory(), s1, i, WithBlock(inodes[i], k, b), lag);
      inodes := inodes[i := WithBlock(inodes[i], k, b)];
      lag := lag + {TableBlock(i)};
      assert Memory() == WithNewBlock(m0, i, k, b);
      NewBlockStep(m0, s0, i, k, b, s1);
      ok := disk.WriteData(b, Patch(Zeros(SECTOR_SIZE), offset % SECTOR_SIZE, piece));
      if ok {
        StoreNew(m0, s0, i, b, offset, piece, disk.sectors);
        TracksFrame(Memory(), s1, disk.sectors, lag);
      }
    }

    /** The body of fs_write's loop: puts `piece`, which fits one block, into file `i`. */
    method StoreFileChunk(i: nat, offset: nat, piece: seq<byte>) returns (ok: bool)
      requires Running() && i < MAX_INODES && InOneBlock(offset, piece)
      modifies this`inodes, this`blockBitmap, this`lag, disk`sectors, disk`transfers
      ensures Tracked() && TablesKept(old(disk.sectors), disk.sectors)
      ensures Contained(old(Memory()), old(disk.sectors), Memory(), disk.sectors, i)
      ensures ok ==>
                && Storing(old(Memory()), old(disk.sectors), Memory(), disk.sectors, i, offset, piece)
                && lag <= old(lag) + {TableBlock(i)}
                && (if old(inodes)[i].direct[offset / SECTOR_SIZE] != INVALID_BLOCK
                    then blockBitmap == old(blockBitmap)
                    else LowestTaken(old(blockBitmap), blockBitmap, inodes[i].direct[offset / SECTOR_SIZE]))
                && disk.transfers == old(disk.transfers) + 2
      ensures ok <==>
                && (old(inodes)[i].direct[offset / SECTOR_SIZE] != INVALID_BLOCK || HasFree(old(blockBitmap)))
                && disk.Clear(old(disk.transfers), 2)
      ensures !ok ==> Unfinished(old(inodes)[i], old(disk.sectors), inodes[i], disk.sectors, offset / SECTOR_SIZE)
      ensures !ok && disk.Reliable() ==>
                && Memory() == old(Memory()) && disk.sectors == old(disk.sectors) && lag == old(lag)
                && inodes[i].direct[offset / SECTOR_SIZE] == INVALID_BLOCK && !HasFree(blockBitmap)
    {
      if inodes[i].direct[offset / SECTOR_SIZE] == INVALID_BLOCK {
        ok := PutInNewBlock(i, offset, piece);
      } else {
        ok := StoreInPlace(i, offset, piece);
      }
    }

    /** The first half of luxfs_dir_append_record's loop body: a missing block is allocated and
        zeroed before the directory points to it. */
    method AddZeroBlock(i: nat, k: nat) returns (ok: bool, b: u32)
      requires Running() && i < MAX_INODES && k < DIRECT_BLOCKS && inodes[i].direct[k] == INVALID_BLOCK
      modifies this`inodes, this`blockBitmap, this`lag, disk`sectors, disk`transfers
      ensures Tracked()
      ensures Contained(old(Memory()), old(disk.sectors), Memory(), disk.sectors, i)
      ensures SameBytes(old(inodes)[i], old(disk.sectors), inodes[i], disk.sectors)
      ensures ok ==>
                && b < DATA_BLOCK_COUNT && !Bit(old(blockBitmap), b)
                && LowestTaken(old(blockBitmap), blockBitmap, b)
                && Memory() == WithNewBlock(old(Memory()), i, k, b)
                && disk.sectors[DATA_BLOCK_START + b] == Zeros(SECTOR_SIZE)
                && (forall x :: DATA_BLOCK_START <= x < TOTAL_SECTORS && x != DATA_BLOCK_START + b ==>
                      disk.sectors[x] == old(disk.sectors)[x])
                && lag <= old(lag) + {TableBlock(i)}
      ensures ok <==> HasFree(old(blockBitmap)) && disk.Clear(old(disk.transfers), 2)
      ensures ok ==> disk.transfers == old(disk.transfers) + 2
      ensures !ok && disk.Reliable() ==>
                && Memory() == old(Memory()) && disk.sectors == old(disk.sectors) && lag == old(lag) && !HasFree(blockBitmap)
    {
      ghost var m0, s0 := Memory(), disk.sectors;
      ok, b := AllocBlock();
      if !ok {
        LostBlock(m0, s0, blockBitmap, i);
        return false, b;
      }
      ghost var s1 := disk.sectors;
      ok := disk.WriteData(b, Zeros(SECTOR_SIZE));
      if !ok {
        LostBlock(m0, s0, blockBitmap, i);
        DataContained(m0, s0, Memory(), s1, i);
        return false, b;
      }
      TracksFrame(Memory(), s1, disk.sectors, lag);
      ChangedInode(Memory(), disk.sectors, i, WithBlock(inodes[i], k, b), lag);
      inodes := inodes[i := WithBlock(inodes[i], k, b)];
      lag := lag + {TableBlock(i)};
      NewBlock(m0, s0, i, k, b, disk.sectors);
      ZeroedBlock(m0, s0, i, k, b, disk.sectors);
    }

    /** luxfs_dir_append_record's loop body for a block the directory does not have yet. */
    method PutInZeroBlock(i: nat, offset: nat, piece: seq<byte>) returns (ok: bool)
      requires Running() && i < MAX_INODES && InOneBlock(offset, piece)
      requires inodes[i].direct[offset / SECTOR_SIZE] == INVALID_BLOCK
      modifies this`inodes, this`blockBitmap, this`lag, disk`sectors, disk`transfers
      ensures Tracked()
      ensures Contained(old(Memory()), old(disk.sectors), Memory(), disk.sectors, i)
      ensures ok ==>
                && Storing(old(Memory()), old(disk.sectors), Memory(), disk.sectors, i, offset, piece)
                && lag <= old(lag) + {TableBlock(i)}
                && LowestTaken(old(blockBitmap), blockBitmap, inodes[i].direct[offset / SECTOR_SIZE])
                && disk.transfers == old(disk.transfers) + 4
      ensures ok <==> HasFree(old(blockBitmap)) && disk.Clear(old(disk.transfers), 4)
      ensures !ok ==> SameBytes(old(inodes)[i], old(disk.sectors), inodes[i], disk.sectors)
      ensures !ok && disk.Reliable() ==>
                && Memory() == old(Memory()) && disk.sectors == old(disk.sectors) && lag == old(lag)
                && !HasFree(blockBitmap)
    {
      ghost var m0, s0 := Memory(), disk.sectors;
      var b;
      ok, b := AddZeroBlock(i, offset / SECTOR_SIZE);
      if !ok {
        return false;
      }
      ghost var s1 := disk.sectors;
      StoreZeroed(m0, s0, i, b, offset, piece, s1);
      ok := PatchBlock(i, offset, piece);
      TracksFrame(Memory(), s1, disk.sectors, lag);
    }

    /** The body of luxfs_dir_append_record's loop. */
    method StoreDirChunk(i: nat, offset: nat, piece: seq<byte>) returns (ok: bool)
      requires Running() && i < MAX_INODES && InOneBlock(offset, piece)
      modifies this`inodes, this`blockBitmap, this`lag, disk`sectors, disk`transfers
      ensures Tracked()
      ensures Contained(old(Memory()), old(disk.sectors), Memory(), disk.sectors, i)
      ensures ok ==>
                && Storing(old(Memory()), old(disk.sectors), Memory(), disk.sectors, i, offset, piece)
                && lag <= old(lag) + {TableBlock(i)}
                && (old(inodes)[i].direct[offset / SECTOR_SIZE] != INVALID_BLOCK ==>
                      Memory() == old(Memory()) && lag == old(lag))
                && SlotFilled(old(inodes)[i], old(blockBitmap), inodes[i], blockBitmap, offset / SECTOR_SIZE)
                && disk.transfers == old(disk.transfers) + ChunkTransfers(old(inodes)[i], offset / SECTOR_SIZE)
      ensures ok <==>
                && (old(inodes)[i].direct[offset / SECTOR_SIZE] != INVALID_BLOCK || HasFree(old(blockBitmap)))
                && disk.Clear(old(disk.transfers), ChunkTransfers(old(inodes)[i], offset / SECTOR_SIZE))
      ensures !ok ==> SameBytes(old(inodes)[i], old(disk.sectors), inodes[i], disk.sectors)
      ensures !ok && disk.Reliable() ==>
                && Memory() == old(Memory()) && disk.sectors == old(disk.sectors) && lag == old(lag)
                && inodes[i].direct[offset / SECTOR_SIZE] == INVALID_BLOCK && !HasFree(blockBitmap)
    {
      if inodes[i].direct[offset / SECTOR_SIZE] == INVALID_BLOCK {
        ok := PutInZeroBlock(i, offset, piece);
      } else {
        ok := StoreInPlace(i, offset, piece);
      }
    }

    /** One round of luxfs_dir_append_record's loop: the part of the record that fits the
        block at hand. */
    method LayChunk(dir: nat, data: seq<byte>, offset: nat, done: nat, ghost m0: Meta, ghost s0: Sectors)
      returns (ok: bool, chunk: nat)
      requires Running() && done < RECORD_BYTES && Laying(m0, s0, Memory(), disk.sectors, dir, data, done)
      requires offset == m0.inodes[dir].size + done
      modifies this`inodes, this`blockBitmap, this`lag, disk`sectors, disk`transfers
      ensures Tracked()
      ensures ok ==>
                && 0 < chunk && Laying(m0, s0, Memory(), disk.sectors, dir, data, done + chunk)
                && (done + chunk < RECORD_BYTES ==> lag == old(lag))
                && lag <= old(lag) + {TableBlock(dir)}
                && disk.transfers == old(disk.transfers) + ChunkTransfers(old(inodes)[dir], offset / SECTOR_SIZE)
                && disk.Clear(old(disk.transfers), ChunkTransfers(old(inodes)[dir], offset / SECTOR_SIZE))
                && chunk == Min(SECTOR_SIZE - offset % SECTOR_SIZE, RECORD_BYTES - done) && offset < MAX_FILE_SIZE
      ensures !ok ==>
                || NoSlot(old(inodes)[dir], old(blockBitmap), offset)
                || !disk.Clear(old(disk.transfers), ChunkTransfers(old(inodes)[dir], offset / SECTOR_SIZE))
      ensures !ok ==> Running() && Nodes() == VolumeOf(m0.inodes, s0)
      ensures !ok && disk.Reliable() ==>
                && Memory() == old(Memory()) && disk.sectors == old(disk.sectors) && lag == old(lag)
                && NoSlot(inodes[dir], blockBitmap, offset)
    {
      ghost var m1, s1 := Memory(), disk.sectors;
      chunk := SECTOR_SIZE - offset % SECTOR_SIZE;
      if offset / SECTOR_SIZE >= DIRECT_BLOCKS {
        LayingGivesUp(m0, s0, m1, s1, dir, data, done);
        return false, chunk;
      }
      if chunk > RECORD_BYTES - done {
        chunk := RECORD_BYTES - done;
      }
      ok := LayPiece(dir, data, offset, done, chunk, m0, s0);
    }

    /** The part of a round that stores the bytes. */
    method LayPiece(dir: nat, data: seq<byte>, offset: nat, done: nat, chunk: nat, ghost m0: Meta, ghost s0: Sectors)
      returns (ok: bool)
      requires Running() && done < RECORD_BYTES && Laying(m0, s0, Memory(), disk.sectors, dir, data, done)
      requires offset == m0.inodes[dir].size + done && offset < MAX_FILE_SIZE
      requires chunk == Min(SECTOR_SIZE - offset % SECTOR_SIZE, RECORD_BYTES - done)
      modifies this`inodes, this`blockBitmap, this`lag, disk`sectors, disk`transfers
      ensures Tracked()
      ensures ok ==>
                && Laying(m0, s0, Memory(), disk.sectors, dir, data, done + chunk)
                && (done + chunk < RECORD_BYTES ==> lag == old(lag))
                && lag <= old(lag) + {TableBlock(dir)}
                && disk.transfers == old(disk.transfers) + ChunkTransfers(old(inodes)[dir], offset / SECTOR_SIZE)
                && disk.Clear(old(disk.transfers), ChunkTransfers(old(inodes)[dir], offset / SECTOR_SIZE))
      ensures !ok ==>
                || NoSlot(old(inodes)[dir], old(blockBitmap), offset)
                || !disk.Clear(old(disk.transfers), ChunkTransfers(old(inodes)[dir], offset / SECTOR_SIZE))
      ensures !ok ==> Running() && Nodes() == VolumeOf(m0.inodes, s0)
      ensures !ok && disk.Reliable() ==>
                && Memory() == old(Memory()) && disk.sectors == old(disk.sectors) && lag == old(lag)
                && NoSlot(inodes[dir], blockBitmap, offset)
    {
      ghost var m1, s1 := Memory(), disk.sectors;
      var piece := data[done..done + chunk];
      ok := StoreDirChunk(dir, offset, piece);
      if ok {
        LayingMore(m0, s0, m1, s1, Memory(), disk.sectors, dir, data, offset, done, chunk, piece);
      } else {
        LayingFails(m0, s0, m1, s1, Memory(), disk.sectors, dir, data, done);
      }
    }

    /** The same, with the transfers made so far and what a round that fails says about the room
        and the disk. */
    method LayRound(dir: nat, data: seq<byte>, offset: nat, done: nat, ghost m0: Meta, ghost s0: Sectors, ghost t0: nat)
      returns (ok: bool, chunk: nat)
      requires Running() && done < RECORD_BYTES && Laying(m0, s0, Memory(), disk.sectors, dir, data, done)
      requires offset == m0.inodes[dir].size + done
      requires LaidAt(m0.inodes[dir], done, t0)
      modifies this`inodes, this`blockBitmap, this`lag, disk`sectors, disk`transfers
      ensures Tracked()
      ensures ok ==>
                && 0 < chunk && Laying(m0, s0, Memory(), disk.sectors, dir, data, done + chunk)
                && (done + chunk < RECORD_BYTES ==> lag == old(lag))
                && lag <= old(lag) + {TableBlock(dir)}
                && LaidAt(m0.inodes[dir], done + chunk, t0)
      ensures !ok ==> Running() && Nodes() == VolumeOf(m0.inodes, s0)
      ensures !ok ==> !(Room(m0.inodes[dir], m0.blockBitmap) && disk.Clear(t0, LayTransfers(m0.inodes[dir])))
      ensures !ok && disk.Reliable() ==> Memory() == m0 && lag == old(lag) && !Room(m0.inodes[dir], m0.blockBitmap)
    {
      ghost var m1, s1 := Memory(), disk.sectors;
      ok, chunk := LayChunk(dir, data, offset, done, m0, s0);
      LayRoundEnds(m0, s0, m1, s1, dir, data, offset, done, chunk, ok);
    }

    /** So many transfers have succeeded since number `t0` that the first `done` bytes are laid. */
    ghost predicate LaidAt(n: Inode, done: nat, t0: nat)
      reads disk`ready, disk`transfers
    {
      disk.transfers == t0 + LaidTransfers(n, done) && disk.Clear(t0, LaidTransfers(n, done))
    }

    /** luxfs_dir_append_record's loop: lays the record's bytes at the end of the directory. */
    method LayRecord(dir: nat, data: seq<byte>) returns (ok: bool)
      requires Running() && dir < MAX_INODES && inodes[dir].kind == NODE_DIR && |data| == RECORD_BYTES
      modifies this`inodes, this`blockBitmap, this`lag, disk`sectors, disk`transfers
      ensures Running()
      ensures ok <==>
                && Room(old(inodes)[dir], old(blockBitmap))
                && disk.Clear(old(disk.transfers), LayTransfers(old(inodes)[dir]))
      ensures ok ==>
                && Laying(old(Memory()), old(disk.sectors), Memory(), disk.sectors, dir, data, RECORD_BYTES)
                && lag <= old(lag) + {TableBlock(dir)}
                && disk.transfers == old(disk.transfers) + LayTransfers(old(inodes)[dir])
      ensures !ok ==> Nodes() == old(Nodes())
      ensures !ok && disk.Reliable() ==>
                Memory() == old(Memory()) && lag == old(lag) && !Room(old(inodes)[dir], old(blockBitmap))
    {
      ghost var m0, s0 := Memory(), disk.sectors;
      var offset, done := inodes[dir].size, 0;
      LayingNothing(m0, s0, dir, data);
      while done < RECORD_BYTES
        invariant 0 <= done <= RECORD_BYTES && offset == m0.inodes[dir].size + done
        invariant Running() && Laying(m0, s0, Memory(), disk.sectors, dir, data, done)
        invariant LaidAt(m0.inodes[dir], done, old(disk.transfers))
        invariant done < RECORD_BYTES ==> lag == old(lag)
        invariant lag <= old(lag) + {TableBlock(dir)}
      {
        var chunk;
        ok, chunk := LayRound(dir, data, offset, done, m0, s0, old(disk.transfers));
        if !ok {
          return false;
        }
        done, offset := done + chunk, offset + chunk;
      }
      return true;
    }

    /** luxfs_dir_append_record: the record is appended exactly when there is room and the transfers
        that lay its bytes succeed, and success is reported exactly when the one that writes the
        inode succeeds too. Without failed transfers a failure changes no metadata. */
    method AppendRecord(dir: nat, rec: Record) returns (ok: bool)
      requires Running() && rec.inode < MAX_INODES
      modifies this`inodes, this`blockBitmap, this`lag, disk`sectors, disk`transfers
      ensures Running()
      ensures dir >= MAX_INODES || !old(Nodes())[dir].Dir? ==>
                !ok && Memory() == old(Memory()) && disk.sectors == old(disk.sectors) && Nodes() == old(Nodes())
      ensures dir < MAX_INODES && old(Nodes())[dir].Dir? ==>
                && var n, t := old(inodes)[dir], old(disk.transfers);
                && var laid := Room(n, old(blockBitmap)) && disk.Clear(t, LayTransfers(n));
                && Nodes() == (if laid then old(Nodes())[dir := WithRecord(old(Nodes())[dir], rec)] else old(Nodes()))
                && inodes[dir].size == (if laid then n.size + RECORD_BYTES else n.size)
                && (ok <==> laid && disk.Clear(t + LayTransfers(n), 1))
                && (laid ==> disk.transfers == t + LayTransfers(n) + 1 && Appended(old(Memory()), Memory(), dir))
      ensures ok ==> Keeps(old(Memory()), Memory()) && lag <= old(lag)
      ensures !ok && disk.Reliable() ==>
                Memory() == old(Memory()) && Nodes() == old(Nodes()) && lag == old(lag)
      ensures disk.Reliable() && dir < MAX_INODES && old(Nodes())[dir].Dir? ==>
                (ok <==> Room(old(inodes)[dir], old(blockBitmap)))
    {
      if dir >= MAX_INODES || inodes[dir].kind != NODE_DIR {
        return false;
      }
      var data := EncodeRecord(rec);
      ok := LayRecord(dir, data);
      if !ok {
        SameSizes(old(Memory()), old(disk.sectors), Memory(), disk.sectors, dir);
        return false;
      }
      assert data[..RECORD_BYTES] == data;
      ok := EndAppend(dir, rec, data, old(Memory()), old(disk.sectors));
    }

    /** The end of luxfs_dir_append_record: the size is raised and the inode written. */
    method EndAppend(dir: nat, rec: Record, data: seq<byte>, ghost m0: Meta, ghost s0: Sectors) returns (ok: bool)
      requires Running() && rec.inode < MAX_INODES && data == EncodeRecord(rec)
      requires Laying(m0, s0, Memory(), disk.sectors, dir, data, RECORD_BYTES) && data[..RECORD_BYTES] == data
      modifies this`inodes, this`lag, disk`sectors, disk`transfers
      ensures Running()
      ensures ok <==> disk.Clear(old(disk.transfers), 1)
      ensures disk.transfers == old(disk.transfers) + 1
      ensures VolumeOf(m0.inodes, s0)[dir].Dir?
      ensures Nodes() == VolumeOf(m0.inodes, s0)[dir := WithRecord(VolumeOf(m0.inodes, s0)[dir], rec)]
      ensures inodes[dir].size == m0.inodes[dir].size + RECORD_BYTES
      ensures Appended(m0, Memory(), dir)
      ensures Keeps(m0, Memory())
      ensures ok ==> lag <= old(lag) - {TableBlock(dir)}
    {
      AppendedMetaOk(m0, s0, Memory(), disk.sectors, dir, data);
      AppendedVolume(m0, s0, Memory(), disk.sectors, dir, rec, data);
      ghost var m, s := Memory(), disk.sectors;
      LaidAppends(m0, s0, m, s, dir, data);
      ok := RaiseSize(dir);
      DataFrame(Longer(m, dir).inodes, s, disk.sectors);
    }

    method RaiseSize(dir: nat) returns (ok: bool)
      requires Tracked() && dir < MAX_INODES && inodes[dir].size + RECORD_BYTES <= MAX_FILE_SIZE
      modifies this`inodes, this`lag, disk`sectors, disk`transfers
      ensures Tracked() && Memory() == Longer(old(Memory()), dir) && SameData(old(disk.sectors), disk.sectors)
      ensures disk.transfers == old(disk.transfers) + 1 && (ok <==> disk.Clear(old(disk.transfers), 1))
      ensures ok ==> lag <= old(lag) - {TableBlock(dir)}
    {
      ChangedInode(Memory(), disk.sectors, dir, inodes[dir].(size := inodes[dir].size + RECORD_BYTES), lag);
      inodes := inodes[dir := inodes[dir].(size := inodes[dir].size + RECORD_BYTES)];
      lag := lag + {TableBlock(dir)};
      ok := FlushInode(dir);
    }

    // Paths ------------------------------------------------------------------------------------------

    /** The body of luxfs_resolve's loop for component `k` of `path`; the resolution began with
        transfer `t`. */
    method Follow(inode: nat, path: seq<Name>, k: nat, ghost t: nat) returns (ok: bool, next: nat)
      requires Running() && k < |path| && Walking(disk, t, disk.transfers, Nodes(), path, inode, path[k..])
      modifies disk`transfers
      ensures if ok then Walking(disk, t, disk.transfers, Nodes(), path, next, path[k + 1..])
              else WalkFailed(disk, t, disk.transfers, Nodes(), path)
    {
      assert path[k..][1..] == path[k + 1..];
      if path[k] == DOTDOT {
        ParentInRange(Memory(), disk.sectors, inode);
        return true, inodes[inode].parent;
      }
      ghost var v, before := Nodes(), disk.transfers;
      ok, next := DirFind(inode, path[k]);
      WalkedOn(disk, t, before, disk.transfers, v, path, inode, path[k..], ok, next);
    }

    /** The body of luxfs_resolve_parent's loop. */
    method FollowDir(inode: nat, path: seq<Name>, k: nat, ghost t: nat) returns (ok: bool, next: nat)
      requires Running() && k < |path| && WalkingDirs(disk, t, disk.transfers, Nodes(), path, inode, path[k..])
      modifies disk`transfers
      ensures if ok then WalkingDirs(disk, t, disk.transfers, Nodes(), path, next, path[k + 1..])
              else WalkDirsFailed(disk, t, disk.transfers, Nodes(), path)
    {
      assert path[k..][1..] == path[k + 1..];
      if path[k] == DOTDOT {
        ParentInRange(Memory(), disk.sectors, inode);
        return true, inodes[inode].parent;
      }
      ghost var v, before := Nodes(), disk.transfers;
      ok, next := DirFind(inode, path[k]);
      WalkedDirsOn(disk, t, before, disk.transfers, v, path, inode, path[k..], ok, next);
      if ok && inodes[next].kind != NODE_DIR {
        return false, next;
      }
    }

    /** luxfs_resolve: it fails if the path names nothing or if one of the blocks on the way cannot be
        read. */
    method Resolve(path: seq<byte>) returns (ok: bool, inode: nat)
      requires Running()
      modifies disk`transfers
      ensures ok ==> Resolved(Nodes(), path) == Some(inode) && inode < MAX_INODES
      ensures var t, count := old(disk.transfers), ResolveReads(Nodes(), path);
        && (ok <==> Resolved(Nodes(), path).Some? && disk.Clear(t, count))
        && disk.transfers == disk.After(t, count)
    {
      var split, components := Tokenize(path);
      if !split {
        return false, 0;
      }
      ghost var t := disk.transfers;
      inode := super.rootInode;
      var k := 0;
      assert components[0..] == components;
      while k < |components|
        invariant 0 <= k <= |components|
        invariant Walking(disk, t, disk.transfers, Nodes(), components, inode, components[k..])
      {
        var found, next := Follow(inode, components, k, t);
        if !found {
          return false, 0;
        }
        inode := next;
        k := k + 1;
      }
      assert components[k..] == [];
      WalkEnds(disk, t, disk.transfers, Nodes(), components, inode);
      return true, inode;
    }

    /** luxfs_resolve_parent */
    method ResolveParent(path: seq<byte>) returns (ok: bool, parent: nat, leaf: Name)
      requires Running()
      modifies disk`transfers
      ensures ok ==> Target(Nodes(), path) == Some((parent, leaf)) && parent < MAX_INODES
      ensures ok ==> |leaf| < NAME_MAX
      ensures var t, count := old(disk.transfers), ParentReads(Nodes(), path);
        && (ok <==> Target(Nodes(), path).Some? && disk.Clear(t, count))
        && disk.transfers == disk.After(t, count)
    {
      var split, components := Tokenize(path);
      if !split || |components| == 0 {
        return false, 0, [];
      }
      TokensFit(path);
      ghost var t := disk.transfers;
      var above := components[..|components| - 1];
      leaf := components[|components| - 1];
      parent := super.rootInode;
      var k := 0;
      assert above[0..] == above;
      while k < |above|
        invariant 0 <= k <= |above|
        invariant WalkingDirs(disk, t, disk.transfers, Nodes(), above, parent, above[k..])
      {
        var found, next := FollowDir(parent, above, k, t);
        if !found {
          return false, 0, leaf;
        }
        parent := next;
        k := k + 1;
      }
      assert above[k..] == [];
      WalkDirsEnds(disk, t, disk.transfers, Nodes(), above, parent);
      return true, parent, leaf;
    }

    // Creating nodes -------------------------------------------------------------------------------

    /** What fs_touch and fs_mkdir do once the parent directory is found: allocate an inode,
        append its record, and give the inode back if that fails. */
    method Create(kind: byte, parent: nat, name: Name) returns (ok: bool, ghost child: nat)
      requires Running() && kind in {NODE_DIR, NODE_FILE} && parent < MAX_INODES && |name| < NAME_MAX
      modifies this`inodes, this`inodeBitmap, this`blockBitmap, this`lag, disk`sectors, disk`transfers
      ensures Running() && FilesKept(old(Nodes()), Nodes())
      ensures HasFreeInode(old(Memory())) ==> FirstFree(old(inodeBitmap), child)
      ensures ok ==> HasFreeInode(old(Memory())) && Keeps(old(Memory()), Memory()) && lag <= old(lag)
      ensures Nodes() != old(Nodes()) ==> HasFreeInode(old(Memory()))
      ensures old(Nodes())[parent].Dir? ==>
                MadeAt(old(Memory()), old(Nodes()), Nodes(), parent, name, kind, child, ok, disk, old(disk.transfers),
                       disk.transfers)
      ensures ok && old(Nodes())[parent].Dir? ==> Entered(old(Memory()), Memory(), kind, parent, child)
      ensures !ok && disk.Reliable() ==>
                Memory() == old(Memory()) && Nodes() == old(Nodes()) && lag <= old(lag)
      ensures disk.Reliable() && old(Nodes())[parent].Dir? ==>
                (ok <==> HasFreeInode(old(Memory())) && Room(old(inodes)[parent], old(blockBitmap)))
    {
      ghost var m0, s0 := Memory(), disk.sectors;
      var index;
      ok, index := AllocInode(kind, parent);
      child := index;
      if !ok {
        return false, child;
      }
      NewNodeFrame(m0, s0, index, parent);
      ok := Enter(kind, parent, name, index, m0, s0);
    }

    /** What follows once inode `index` is set up: its record is appended, or it is given back. */
    method Enter(kind: byte, parent: nat, name: Name, index: nat, ghost m0: Meta, ghost s0: Sectors) returns (ok: bool)
      requires Running() && kind in {NODE_DIR, NODE_FILE} && parent < MAX_INODES && |name| < NAME_MAX
      requires Consistent(m0, s0) && 0 < index < MAX_INODES && !Bit(m0.inodeBitmap, index)
      requires VolumeOf(m0.inodes, s0)[index].Free? && (VolumeOf(m0.inodes, s0)[parent].Dir? ==> parent != index)
      requires Memory() == WithNewInode(m0, index, kind, parent) && Keeps(m0, Memory())
      requires Nodes() == VolumeOf(m0.inodes, s0)[index := EmptyNode(kind, parent)]
      modifies this`inodes, this`inodeBitmap, this`blockBitmap, this`lag, disk`sectors, disk`transfers
      ensures Running() && FilesKept(VolumeOf(m0.inodes, s0), Nodes())
      ensures ok ==> Keeps(m0, Memory()) && lag <= old(lag)
      ensures VolumeOf(m0.inodes, s0)[parent].Dir? ==>
                EnteredAt(m0, VolumeOf(m0.inodes, s0), Nodes(), parent, name, kind, index, ok, disk, old(disk.transfers))
      ensures ok && VolumeOf(m0.inodes, s0)[parent].Dir? ==> Entered(m0, Memory(), kind, parent, index)
      ensures ok && VolumeOf(m0.inodes, s0)[parent].Dir? ==>
                disk.transfers == old(disk.transfers) + LayTransfers(m0.inodes[parent]) + 1
      ensures !ok && disk.Reliable() ==> Memory() == m0 && Nodes() == VolumeOf(m0.inodes, s0) && lag <= old(lag)
    {
      ghost var v1, t := Nodes(), disk.transfers;
      ghost var laid := v1[parent].Dir? && Room(inodes[parent], blockBitmap) && disk.Clear(t, LayTransfers(inodes[parent]));
      ok := AppendRecord(parent, Record(index, NameField(name)));
      CreateSteps(VolumeOf(m0.inodes, s0), v1, Nodes(), index, kind, parent, name, laid);
      if ok && parent != index {
        AppendEnters(m0, Memory(), kind, parent, index);
      }
      if !ok {
        TakeBack(kind, parent, index, m0, s0);
      }
    }

    /** The cleanup of fs_touch and fs_mkdir: the inode is given back. */
    method TakeBack(kind: byte, parent: nat, index: nat, ghost m0: Meta, ghost s0: Sectors)
      requires Running() && kind in {NODE_DIR, NODE_FILE} && parent < MAX_INODES
      requires Consistent(m0, s0) && 0 < index < MAX_INODES && !Bit(m0.inodeBitmap, index)
      modifies this`inodes, this`inodeBitmap, this`blockBitmap, this`lag, disk`sectors, disk`transfers
      ensures Running() && Nodes() == old(Nodes())[index := Free]
      ensures old(Memory()) == WithNewInode(m0, index, kind, parent) && disk.Reliable() ==> Memory() == m0 && lag <= old(lag)
    {
      ghost var m1 := Memory();
      MarkInodeFree(index);
      if m1 == WithNewInode(m0, index, kind, parent) && disk.Reliable() {
        AllocThenFree(m0, index, kind, parent, blockBitmap);
      }
    }

    /** The same, with what it means for the path that led to the directory. */
    method CreateAt(path: seq<byte>, kind: byte, parent: nat, name: Name) returns (ok: bool, ghost child: nat)
      requires Running() && NUL !in path && kind in {NODE_DIR, NODE_FILE} && parent < MAX_INODES && |name| < NAME_MAX
      requires Target(Nodes(), path) == Some((parent, name))
      requires Healthy() && disk.Reliable() ==> Absent(Nodes(), path) && Nodes()[parent].Dir?
      modifies this`inodes, this`inodeBitmap, this`blockBitmap, this`lag, disk`sectors, disk`transfers
      ensures Running() && FilesKept(old(Nodes()), Nodes())
      ensures ok ==> lag <= old(lag)
      ensures old(Nodes())[parent].Dir? ==>
                MadeAt(old(Memory()), old(Nodes()), Nodes(), parent, name, kind, child, ok, disk, old(disk.transfers),
                       disk.transfers)
      ensures Nodes() != old(Nodes()) ==> FirstFree(old(inodeBitmap), child)
      ensures old(Healthy()) && disk.Reliable() ==>
                && CreateOutcome(old(Memory()), old(disk.sectors), Memory(), disk.sectors, path, kind == NODE_DIR, ok, child)
                && lag <= old(lag)
    {
      ghost var m0, s0 := Memory(), disk.sectors;
      ok, child := Create(kind, parent, name);
      if Sound(m0, s0) && disk.Reliable() {
        CreateOutcomes(m0, s0, Memory(), disk.sectors, path, kind == NODE_DIR, ok, child);
      }
    }

    /** The end of fs_touch and fs_mkdir, once the parent directory is found. */
    method MakeUnder(path: seq<byte>, kind: byte, parent: nat, name: Name) returns (ok: bool, ghost child: nat)
      requires Running() && NUL !in path && kind in {NODE_DIR, NODE_FILE} && parent < MAX_INODES && |name| < NAME_MAX
      requires Target(Nodes(), path) == Some((parent, name))
      requires Healthy() && disk.Reliable() ==> Resolved(Nodes(), path).None?
      modifies this`inodes, this`inodeBitmap, this`blockBitmap, this`lag, disk`sectors, disk`transfers
      ensures Running() && FilesKept(old(Nodes()), Nodes())
      ensures ok ==> lag <= old(lag)
      ensures MakeIn(old(Memory()), old(Nodes()), Nodes(), parent, name, kind, child, ok, disk, old(disk.transfers),
                     disk.transfers)
      ensures Nodes() != old(Nodes()) ==> FirstFree(old(inodeBitmap), child)
      ensures old(Healthy()) && disk.Reliable() ==>
                && CreateOutcome(old(Memory()), old(disk.sectors), Memory(), disk.sectors, path, kind == NODE_DIR, ok, child)
                && lag <= old(lag)
    {
      child := 0;
      if Sound(Memory(), disk.sectors) && disk.Reliable() {
        AbsentInTree(Nodes(), path);
      }
      if name == [] || name == DOT || name == DOTDOT {
        return false, child;
      }
      var clash, other := DirFind(parent, name);
      if clash {
        return kind == NODE_FILE, child;
      }
      ok, child := CreateAt(path, kind, parent, name);
    }

    /** fs_mkdir */
    method Mkdir(path: seq<byte>) returns (ok: bool, ghost child: nat)
      requires Valid() && NUL !in path
      modifies this`inodes, this`inodeBitmap, this`blockBitmap, this`lag, disk`sectors, disk`transfers
      ensures Valid() && FilesKept(old(Nodes()), Nodes())
      ensures ok ==> mounted && lag <= old(lag)
      ensures mounted ==>
                MakeRun(old(Memory()), old(Nodes()), Nodes(), path, NODE_DIR, child, ok, disk, old(disk.transfers),
                        disk.transfers)
      ensures mounted && Nodes() != old(Nodes()) ==> FirstFree(old(inodeBitmap), child)
      ensures old(Healthy()) && disk.Reliable() ==>
                && CreateOutcome(old(Memory()), old(disk.sectors), Memory(), disk.sectors, path, true, ok, child)
                && lag <= old(lag)
                && (ok <==> Makeable(old(Memory()), old(Nodes()), path))
    {
      child := 0;
      if !mounted {
        return false, child;
      }
      ghost var m0, s0 := Memory(), disk.sectors;
      ok, child := MkdirMounted(path);
      if Sound(m0, s0) && disk.Reliable() {
        MadeExactly(m0, s0, Memory(), disk.sectors, path, true, ok, child);
      }
    }

    /** fs_mkdir on a mounted volume */
    method MkdirMounted(path: seq<byte>) returns (ok: bool, ghost child: nat)
      requires Running() && NUL !in path
      modifies this`inodes, this`inodeBitmap, this`blockBitmap, this`lag, disk`sectors, disk`transfers
      ensures Running() && FilesKept(old(Nodes()), Nodes())
      ensures ok ==> lag <= old(lag)
      ensures MakeRun(old(Memory()), old(Nodes()), Nodes(), path, NODE_DIR, child, ok, disk, old(disk.transfers), disk.transfers)
      ensures Nodes() != old(Nodes()) ==> FirstFree(old(inodeBitmap), child)
      ensures old(Healthy()) && disk.Reliable() ==>
                && CreateOutcome(old(Memory()), old(disk.sectors), Memory(), disk.sectors, path, true, ok, child)
                && lag <= old(lag)
    {
      child := 0;
      var present, existing := Resolve(path);
      if present {
        return false, child;
      }
      var found, parent, leaf := ResolveParent(path);
      if !found {
        return false, child;
      }
      ok, child := MakeUnder(path, NODE_DIR, parent, leaf);
    }

    /** fs_touch */
    method Touch(path: seq<byte>) returns (ok: bool, ghost child: nat)
      requires Valid() && NUL !in path
      modifies this`inodes, this`inodeBitmap, this`blockBitmap, this`lag, disk`sectors, disk`transfers
      ensures Valid() && FilesKept(old(Nodes()), Nodes())
      ensures ok ==> mounted && lag <= old(lag)
      ensures mounted ==>
                MakeRun(old(Memory()), old(Nodes()), Nodes(), path, NODE_FILE, child, ok, disk, old(disk.transfers),
                        disk.transfers)
      ensures mounted && Nodes() != old(Nodes()) ==> FirstFree(old(inodeBitmap), child)
      ensures old(Healthy()) && disk.Reliable() ==>
                && CreateOutcome(old(Memory()), old(disk.sectors), Memory(), disk.sectors, path, false, ok, child)
                && lag <= old(lag)
                && (ok <==> Makeable(old(Memory()), old(Nodes()), path) || FileAt(old(Nodes()), path))
    {
      child := 0;
      if !mounted {
        return false, child;
      }
      ghost var m0, s0 := Memory(), disk.sectors;
      ok, child := TouchMounted(path);
      if Sound(m0, s0) && disk.Reliable() {
        MadeExactly(m0, s0, Memory(), disk.sectors, path, false, ok, child);
      }
    }

    /** fs_touch on a mounted volume */
    method TouchMounted(path: seq<byte>) returns (ok: bool, ghost child: nat)
      requires Running() && NUL !in path
      modifies this`inodes, this`inodeBitmap, this`blockBitmap, this`lag, disk`sectors, disk`transfers
      ensures Running() && FilesKept(old(Nodes()), Nodes())
      ensures ok ==> lag <= old(lag)
      ensures MakeRun(old(Memory()), old(Nodes()), Nodes(), path, NODE_FILE, child, ok, disk, old(disk.transfers), disk.transfers)
      ensures Nodes() != old(Nodes()) ==> FirstFree(old(inodeBitmap), child)
      ensures old(Healthy()) && disk.Reliable() ==>
                && CreateOutcome(old(Memory()), old(disk.sectors), Memory(), disk.sectors, path, false, ok, child)
                && lag <= old(lag)
    {
      child := 0;
      var present, existing := Resolve(path);
      if present {
        FileIsFile(Memory(), disk.sectors, existing);
        return inodes[existing].kind == NODE_FILE, child;
      }
      var found, parent, leaf := ResolveParent(path);
      if !found {
        return false, child;
      }
      ok, child := MakeUnder(path, NODE_FILE, parent, leaf);
    }

    // Files --------------------------------------------------------------------------------------------

    /** fs_read once the file is found. */
    method ReadInode(i: nat, from: nat, length: nat) returns (ok: bool, data: seq<byte>)
      requires Running() && i < MAX_INODES && inodes[i].kind == NODE_FILE
      modifies disk`transfers
      ensures ok ==> data == ReadRun(Nodes()[i].contents, from, length)
      ensures ok <==> disk.Clear(old(disk.transfers), RunReads(Nodes()[i].contents, from, length))
    {
      assert InodeOk(inodes[i]);
      forall k | 0 <= k < DIRECT_BLOCKS && inodes[i].direct[k] != INVALID_BLOCK ensures inodes[i].direct[k] < DATA_BLOCK_COUNT {
        assert Ptr(inodes, i, k) < DATA_BLOCK_COUNT;
      }
      ok, data := ReadBlocks(disk, inodes[i], from, length);
    }

    /** One round of fs_write's loop. */
    method WriteChunk(i: nat, offset: nat, data: seq<byte>, done: nat, ghost m0: Meta, ghost s0: Sectors)
      returns (ok: bool, chunk: nat)
      requires Running() && done < |data| && Writing(m0, s0, Memory(), disk.sectors, i, offset, data, done)
      modifies this`inodes, this`blockBitmap, this`lag, disk`sectors, disk`transfers
      ensures Tracked()
      ensures !ok ==> Running() && Contained(old(Memory()), old(disk.sectors), Memory(), disk.sectors, i)
      ensures 0 < chunk == ChunkAt(offset + done, |data| - done)
      ensures ok ==>
                && Writing(m0, s0, Memory(), disk.sectors, i, offset, data, done + chunk)
                && lag <= old(lag) + {TableBlock(i)} && disk.transfers == old(disk.transfers) + 2
      ensures ok <==>
                && (old(inodes)[i].direct[(offset + done) / SECTOR_SIZE] != INVALID_BLOCK || HasFree(old(blockBitmap)))
                && disk.Clear(old(disk.transfers), 2)
      ensures !ok ==> Unfinished(old(inodes)[i], old(disk.sectors), inodes[i], disk.sectors, (offset + done) / SECTOR_SIZE)
      ensures !ok && disk.Reliable() ==>
                && Memory() == old(Memory()) && disk.sectors == old(disk.sectors) && lag == old(lag)
                && inodes[i].direct[(offset + done) / SECTOR_SIZE] == INVALID_BLOCK && !HasFree(blockBitmap)
    {
      ghost var m1, s1 := Memory(), disk.sectors;
      var here := offset + done;
      chunk := SECTOR_SIZE - here % SECTOR_SIZE;
      if chunk > |data| - done {
        chunk := |data| - done;
      }
      var piece := data[done..done + chunk];
      ok := StoreFileChunk(i, here, piece);
      if !ok {
        FileContained(m1, s1, Memory(), disk.sectors, i);
      } else {
        WritingMore(m0, s0, m1, s1, Memory(), disk.sectors, i, offset, data, done, here, chunk, piece);
      }
    }

    /** So many transfers have succeeded since number `t0` that the first `done` bytes are written. */
    ghost predicate WrittenAt(offset: nat, done: nat, count: nat, t0: nat)
      reads disk`ready, disk`transfers
    {
      && AtBlockEnd(offset, done, count)
      && disk.transfers == t0 + 2 * BlocksTouched(offset, done) && disk.Clear(t0, 2 * BlocksTouched(offset, done))
    }

    /** The same, with what a round that fails has left of the whole write. */
    method WriteRound(i: nat, offset: nat, data: seq<byte>, done: nat, ghost m0: Meta, ghost s0: Sectors, ghost t0: nat)
      returns (ok: bool, chunk: nat)
      requires mounted && Tracked() && done < |data| && Writing(m0, s0, Memory(), disk.sectors, i, offset, data, done)
      requires WrittenAt(offset, done, |data|, t0)
      modifies this`inodes, this`blockBitmap, this`lag, disk`sectors, disk`transfers
      ensures Tracked()
      ensures ok ==>
                && 0 < chunk && Writing(m0, s0, Memory(), disk.sectors, i, offset, data, done + chunk)
                && lag <= old(lag) + {TableBlock(i)} && WrittenAt(offset, done + chunk, |data|, t0)
      ensures !ok ==> Running() && EndedEarly(m0, s0, Memory(), disk.sectors, i, offset, data, done, disk, t0)
      ensures !ok && disk.Reliable() ==> lag == old(lag)
    {
      ghost var m1, s1 := Memory(), disk.sectors;
      ok, chunk := WriteChunk(i, offset, data, done, m0, s0);
      OneMoreBlock(offset, done, chunk, |data|);
      disk.InTwoParts(t0, 2 * BlocksTouched(offset, done), 2);
      if !ok {
        WritingDamaged(m0, s0, m1, s1, Memory(), disk.sectors, i, offset, data, done);
        WritingCut(m0, s0, m1, s1, Memory(), disk.sectors, i, offset, data, done);
        if m1.inodes[i].direct[(offset + done) / SECTOR_SIZE] == INVALID_BLOCK && !HasFree(m1.blockBitmap) {
          WritingStopped(m0, s0, m1, s1, i, offset, data, done);
        }
        CutFails(m0.inodes[i], FreeBlocks(m0.blockBitmap), offset, |data|, done, disk, t0);
      }
    }

    /** fs_write's loop and what follows it. It succeeds exactly when there are enough free blocks and
        all transfers succeed, two for each block and one for the inode; then the file holds the spliced
        bytes, as it does when only the last transfer fails. Otherwise it stops at the first block that
        cannot be allocated or transferred. */
    method WriteInode(i: nat, offset: nat, data: seq<byte>) returns (ok: bool, ghost done: nat)
      requires Running() && i < MAX_INODES && inodes[i].kind == NODE_FILE && Writable(inodes[i], offset)
      requires data != [] && offset + |data| <= MAX_FILE_SIZE
      modifies this`inodes, this`blockBitmap, this`lag, disk`sectors, disk`transfers
      ensures Running() && OnlyFileChanged(old(Nodes()), Nodes(), i)
      ensures ok ==>
                && Nodes()[i].contents == Written(old(Nodes())[i].contents, offset, data)
                && Supplied(old(inodes)[i], old(blockBitmap), inodes[i], blockBitmap, offset, data, false)
                && Keeps(old(Memory()), Memory())
                && lag <= old(lag) - {TableBlock(i)}
      ensures ok <==>
                && Missing(old(inodes)[i], offset, |data|) <= FreeBlocks(old(blockBitmap))
                && disk.Clear(old(disk.transfers), 2 * BlocksTouched(offset, |data|))
                && disk.Clear(old(disk.transfers) + 2 * BlocksTouched(offset, |data|), 1)
      ensures !ok ==>
                if Missing(old(inodes)[i], offset, |data|) <= FreeBlocks(old(blockBitmap))
                   && disk.Clear(old(disk.transfers), 2 * BlocksTouched(offset, |data|)) then
                  Nodes()[i].contents == Written(old(Nodes())[i].contents, offset, data)
                else
                  && CutShort(old(Nodes())[i].contents, Nodes()[i].contents, offset, data, done)
                  && CutAt(old(inodes)[i], FreeBlocks(old(blockBitmap)), offset, |data|, done, disk, old(disk.transfers))
      ensures !ok && disk.Reliable() ==>
                && Stopped(old(Nodes()), Nodes(), i, offset, data, done)
                && Writing(old(Memory()), old(disk.sectors), Memory(), disk.sectors, i, offset, data, done)
                && RunsOut(old(inodes)[i], FreeBlocks(old(blockBitmap)), offset, |data|, done)
                && Keeps(old(Memory()), Memory())
                && lag <= old(lag) + {TableBlock(i)}
      ensures disk.Reliable() ==> (ok <==> Missing(old(inodes)[i], offset, |data|) <= FreeBlocks(old(blockBitmap)))
    {
      ghost var m0, s0, t0 := Memory(), disk.sectors, disk.transfers;
      ok, done := WriteBlocks(i, offset, data, m0, s0, t0);
      if ok {
        ok := FinishWrite(i, offset, data, m0, s0);
      }
    }

    /** fs_write's loop. */
    method WriteBlocks(i: nat, offset: nat, data: seq<byte>, ghost m0: Meta, ghost s0: Sectors, ghost t0: nat)
      returns (ok: bool, ghost done: nat)
      requires Running() && i < MAX_INODES && inodes[i].kind == NODE_FILE && Writable(inodes[i], offset)
      requires offset + |data| <= MAX_FILE_SIZE && m0 == Memory() && s0 == disk.sectors && t0 == disk.transfers
      modifies this`inodes, this`blockBitmap, this`lag, disk`sectors, disk`transfers
      ensures Tracked() && done <= |data| && (ok <==> done == |data|)
      ensures ok ==>
                && lag <= old(lag) + {TableBlock(i)}
                && Writing(m0, s0, Memory(), disk.sectors, i, offset, data, |data|) && WrittenAt(offset, |data|, |data|, t0)
                && Missing(m0.inodes[i], offset, |data|) <= FreeBlocks(m0.blockBitmap)
      ensures !ok ==> Running() && EndedEarly(m0, s0, Memory(), disk.sectors, i, offset, data, done, disk, t0)
      ensures !ok && disk.Reliable() ==> lag <= old(lag) + {TableBlock(i)}
    {
      WritingNothing(m0, s0, i, offset, data);
      var written := 0;
      while written < |data|
        invariant 0 <= written <= |data|
        invariant mounted && Tracked() && Writing(m0, s0, Memory(), disk.sectors, i, offset, data, written)
        invariant WrittenAt(offset, written, |data|, t0)
        invariant lag <= old(lag) + {TableBlock(i)}
      {
        var chunk;
        ok, chunk := WriteRound(i, offset, data, written, m0, s0, t0);
        if !ok {
          return false, written;
        }
        written := written + chunk;
      }
      return true, written;
    }

    /** The end of fs_write: the size is raised if need be and the inode is written. */
    method FinishWrite(i: nat, offset: nat, data: seq<byte>, ghost m0: Meta, ghost s0: Sectors) returns (ok: bool)
      requires mounted && Tracked()
      requires Writing(m0, s0, Memory(), disk.sectors, i, offset, data, |data|)
      modifies this`inodes, this`lag, disk`sectors, disk`transfers
      ensures Running() && OnlyFileChanged(VolumeOf(m0.inodes, s0), Nodes(), i)
      ensures Nodes()[i].contents == Written(VolumeOf(m0.inodes, s0)[i].contents, offset, data)
      ensures Keeps(m0, Memory())
      ensures Supplied(m0.inodes[i], m0.blockBitmap, inodes[i], blockBitmap, offset, data, false)
      ensures ok ==> lag <= old(lag) - {TableBlock(i)}
      ensures ok <==> disk.Clear(old(disk.transfers), 1)
    {
      ghost var m1, s1 := Memory(), disk.sectors;
      var end := offset + |data|;
      var size := if end > inodes[i].size then end else inodes[i].size;
      WritingDone(m0, s0, m1, s1, i, offset, data, size);
      ChangedInode(m1, s1, i, inodes[i].(size := size), lag);
      inodes := inodes[i := inodes[i].(size := size)];
      lag := lag + {TableBlock(i)};
      ok := FlushInode(i);
      DataFrame(inodes, s1, disk.sectors);
    }

    /** fs_write's truncation. */
    method Truncate(i: nat) returns (ok: bool)
      requires Running() && i < MAX_INODES && inodes[i].kind == NODE_FILE
      modifies this`inodes, this`blockBitmap, this`lag, disk`sectors, disk`transfers
      ensures Running() && Truncation(old(Memory()), old(disk.sectors), Memory(), disk.sectors, i)
      ensures ok ==> lag <= old(lag) + {TableBlock(i)}
      ensures disk.transfers == old(disk.transfers) + Held(old(inodes)[i])
      ensures ok <==> disk.Clear(old(disk.transfers), Held(old(inodes)[i]))
    {
      ghost var m0, s0 := Memory(), disk.sectors;
      ok := ReleaseInodeBlocks(i);
      TruncatedOk(m0, s0, i, blockBitmap, disk.sectors);
    }

    /** fs_write once the file is found and the arguments are checked. */
    method WriteFile(i: nat, offset: nat, data: seq<byte>, truncate: bool) returns (ok: bool, ghost done: nat)
      requires Running() && i < MAX_INODES && Admissible(Nodes()[i], offset, data, truncate)
      modifies this`inodes, this`blockBitmap, this`lag, disk`sectors, disk`transfers
      ensures Running()
      ensures WriteOutcome(old(Memory()), old(disk.sectors), Memory(), disk.sectors, i, offset, data, truncate, ok, done,
                           disk.Reliable())
      ensures WriteRun(old(Memory()), old(Nodes())[i], Nodes()[i].contents, i, offset, data, truncate, ok, done, disk,
                       old(disk.transfers))
      ensures ok ==> lag <= old(lag) - {TableBlock(i)}
      ensures !ok && disk.Reliable() ==> TablesKept(old(disk.sectors), disk.sectors) && lag <= old(lag) + {TableBlock(i)}
    {
      FileIsFile(Memory(), disk.sectors, i);
      ghost var m0, s0 := Memory(), disk.sectors;
      if truncate {
        ok, done := WriteTruncated(i, offset, data);
      } else {
        ok, done := WriteRest(i, offset, data);
        PlainOutcome(m0, s0, Memory(), disk.sectors, i, offset, data, ok, done, disk.Reliable());
      }
    }

    /** The same with truncation. */
    method WriteTruncated(i: nat, offset: nat, data: seq<byte>) returns (ok: bool, ghost done: nat)
      requires Running() && i < MAX_INODES && inodes[i].kind == NODE_FILE && Admissible(Nodes()[i], offset, data, true)
      modifies this`inodes, this`blockBitmap, this`lag, disk`sectors, disk`transfers
      ensures Running()
      ensures WriteOutcome(old(Memory()), old(disk.sectors), Memory(), disk.sectors, i, offset, data, true, ok, done,
                           disk.Reliable())
      ensures WriteRun(old(Memory()), old(Nodes())[i], Nodes()[i].contents, i, offset, data, true, ok, done, disk,
                       old(disk.transfers))
      ensures ok ==> lag <= old(lag) - {TableBlock(i)}
      ensures !ok && disk.Reliable() ==> TablesKept(old(disk.sectors), disk.sectors) && lag <= old(lag) + {TableBlock(i)}
    {
      ghost var m0, s0, t := Memory(), disk.sectors, disk.transfers;
      done := 0;
      ok := Truncate(i);
      ghost var m1, s1 := Memory(), disk.sectors;
      if ok {
        TruncatedFile(m0, s0, m1, s1, i, offset);
        ok, done := WriteRest(i, offset, data);
      }
      TruncatedWrite(m0, s0, m1, s1, Memory(), disk.sectors, i, offset, data, ok, done, disk, t);
    }

    /** fs_write after its truncation. */
    method WriteRest(i: nat, offset: nat, data: seq<byte>) returns (ok: bool, ghost done: nat)
      requires Running() && i < MAX_INODES && inodes[i].kind == NODE_FILE && Writable(inodes[i], offset)
      requires offset + |data| <= MAX_FILE_SIZE
      modifies this`inodes, this`blockBitmap, this`lag, disk`sectors, disk`transfers
      ensures Running()
      ensures RestOutcome(old(Memory()), old(disk.sectors), Memory(), disk.sectors, i, offset, data, ok, done,
                          disk.Reliable())
      ensures WriteRun(old(Memory()), old(Nodes())[i], Nodes()[i].contents, i, offset, data, false, ok, done, disk,
                       old(disk.transfers))
      ensures ok ==> lag <= old(lag) - {TableBlock(i)}
      ensures !ok && disk.Reliable() ==> lag <= old(lag) + {TableBlock(i)}
    {
      FileIsFile(Memory(), disk.sectors, i);
      if data == [] {
        ghost var s1 := disk.sectors;
        NothingSupplied(inodes[i], blockBitmap, inodes[i], blockBitmap, offset, false);
        ok := FlushInode(i);
        DataFrame(inodes, s1, disk.sectors);
        return ok, 0;
      }
      ok, done := WriteInode(i, offset, data);
    }

    /** fs_read */
    method Read(path: seq<byte>, offset: nat, length: nat) returns (ok: bool, data: seq<byte>)
      requires Valid()
      modifies disk`transfers
      ensures Valid()
      ensures ok ==> mounted && FileAt(Nodes(), path) && data == ReadRun(ContentsAt(Nodes(), path), offset, length)
      ensures mounted ==>
                var t, count := old(disk.transfers), ResolveReads(Nodes(), path);
                ok <==> FileAt(Nodes(), path) && disk.Clear(t, count)
                        && disk.Clear(t + count, RunReads(ContentsAt(Nodes(), path), offset, length))
      ensures mounted && disk.Reliable() ==> (ok <==> FileAt(Nodes(), path))
    {
      if !mounted {
        return false, [];
      }
      var found, i := Resolve(path);
      if !found || inodes[i].kind != NODE_FILE {
        if found {
          FileIsFile(Memory(), disk.sectors, i);
        }
        return false, [];
      }
      FileIsFile(Memory(), disk.sectors, i);
      disk.AfterClear(old(disk.transfers), ResolveReads(Nodes(), path));
      ok, data := ReadInode(i, offset, length);
    }

    /** fs_stat_path */
    method Stat(path: seq<byte>) returns (ok: bool, isDir: bool, size: nat)
      requires Valid()
      modifies disk`transfers
      ensures Valid()
      ensures ok ==>
                && mounted && Resolved(Nodes(), path).Some?
                && var node := Nodes()[Resolved(Nodes(), path).value];
                && isDir == node.Dir? && size == NodeSize(node)
                && (node.File? ==> size == |node.contents|) && (node.Dir? ==> size == 36 * |node.records|)
      ensures mounted ==>
                (ok <==> Resolved(Nodes(), path).Some? && disk.Clear(old(disk.transfers), ResolveReads(Nodes(), path)))
      ensures mounted && disk.Reliable() ==> (ok <==> Resolved(Nodes(), path).Some?)
    {
      if !mounted {
        return false, false, 0;
      }
      var found, i := Resolve(path);
      if !found {
        return false, false, 0;
      }
      assert InodeOk(inodes[i]);
      return true, inodes[i].kind == NODE_DIR, inodes[i].size;
    }

    /** fs_write once the file is found, with what it does to the invariants and to the disk's
        lag behind memory. */
    method WriteFound(i: nat, offset: nat, data: seq<byte>, truncate: bool) returns (ok: bool, ghost done: nat)
      requires Running() && i < MAX_INODES && Admissible(Nodes()[i], offset, data, truncate)
      modifies this`inodes, this`blockBitmap, this`lag, disk`sectors, disk`transfers
      ensures Running()
      ensures WriteOutcome(old(Memory()), old(disk.sectors), Memory(), disk.sectors, i, offset, data, truncate, ok, done,
                           disk.Reliable())
      ensures WriteRun(old(Memory()), old(Nodes())[i], Nodes()[i].contents, i, offset, data, truncate, ok, done, disk,
                       old(disk.transfers))
      ensures ok ==> lag <= old(lag) - {TableBlock(i)}
      ensures !ok && disk.Reliable() ==>
                && lag <= old(lag) + {TableBlock(i)}
                && (Unaltered(old(inodes)[i], old(blockBitmap), offset, truncate) ==> lag <= old(lag))
                && (old(lag) == {} && Tracks(Memory(), disk.sectors, {}) ==>
                      Unaltered(old(inodes)[i], old(blockBitmap), offset, truncate))
      ensures old(Healthy()) && disk.Reliable() ==> Healthy()
    {
      ghost var m0, s0, lag0 := Memory(), disk.sectors, lag;
      ok, done := WriteFile(i, offset, data, truncate);
      if !ok && disk.Reliable() {
        RanOutAbreast(m0, s0, Memory(), disk.sectors, i, offset, |data|, truncate, done, lag0, lag);
        if Unaltered(m0.inodes[i], m0.blockBitmap, offset, truncate) {
          lag := lag0;
        }
      }
      if Sound(m0, s0) && disk.Reliable() {
        WriteSound(m0, s0, Memory(), disk.sectors, i);
      }
    }

    /** fs_write */
    method Write(path: seq<byte>, offset: nat, data: seq<byte>, truncate: bool) returns (ok: bool, ghost done: nat)
      requires Valid()
      modifies this`inodes, this`blockBitmap, this`lag, disk`sectors, disk`transfers
      ensures Valid()
      ensures ok ==> mounted && Resolved(old(Nodes()), path).Some?
      ensures mounted && Resolved(old(Nodes()), path).None? ==>
                Memory() == old(Memory()) && disk.sectors == old(disk.sectors) && lag == old(lag)
      ensures mounted && Resolved(old(Nodes()), path).Some? ==>
                WriteOutcome(old(Memory()), old(disk.sectors), Memory(), disk.sectors, Resolved(old(Nodes()), path).value,
                             offset, data, truncate, ok, done, disk.Reliable())
      ensures mounted ==>
                var t, count := old(disk.transfers), ResolveReads(old(Nodes()), path);
                if FileAt(old(Nodes()), path) && disk.Clear(t, count)
                   && offset + |data| <= 4096 && (truncate || offset <= |ContentsAt(old(Nodes()), path)|) then
                  var i := Resolved(old(Nodes()), path).value;
                  && i < MAX_INODES
                  && WriteRun(old(Memory()), old(Nodes())[i], Nodes()[i].contents, i, offset, data, truncate, ok, done, disk,
                              disk.After(t, count))
                else
                  !ok && Memory() == old(Memory()) && disk.sectors == old(disk.sectors) && lag == old(lag)
      ensures ok ==> lag <= old(lag) - {TableBlock(Resolved(old(Nodes()), path).value)}
      ensures mounted && disk.Reliable() && LeavesBehind(old(Memory()), old(disk.sectors), path, offset, data, truncate) ==>
                lag <= old(lag) + {TableBlock(Resolved(old(Nodes()), path).value)}
      ensures mounted && disk.Reliable() && !LeavesBehind(old(Memory()), old(disk.sectors), path, offset, data, truncate) ==>
                lag <= old(lag)
      ensures mounted && disk.Reliable() && old(lag) == {} ==>
                (Tracks(Memory(), disk.sectors, {}) <==>
                 !LeavesBehind(old(Memory()), old(disk.sectors), path, offset, data, truncate))
      ensures old(Healthy()) && disk.Reliable() ==> Healthy()
    {
      done := 0;
      if !mounted || offset > MAX_FILE_SIZE || |data| > MAX_FILE_SIZE - offset {
        return false, 0;
      }
      var found, i := Resolve(path);
      if !found || inodes[i].kind != NODE_FILE {
        return false, 0;
      }
      FileIsFile(Memory(), disk.sectors, i);
      if !truncate && offset > inodes[i].size {
        return false, 0;
      }
      ok, done := WriteFound(i, offset, data, truncate);
    }
  }
}
