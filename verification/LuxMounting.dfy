/** Loading a volume's metadata from disk, and the volume that formatting writes. */
module LuxMounting {
  import opened Bytes
  import opened Bitmap
  import opened LuxFormat
  import opened SectorDisk
  import opened LuxVolume
  import opened LuxLayout

  /** Inode `i` as luxfs_load_metadata copies it out of its table sector. */
  function LoadedInode(s: Sectors, i: nat): Inode
    requires i < MAX_INODES
  {
    DecodeTable(s[TableBlock(i)])[i % INODES_PER_BLOCK]
  }

  function LoadedMeta(s: Sectors): (m: Meta)
    ensures WellSized(m)
  {
    Meta(DecodeSuper(s[SUPER_BLOCK]),
         seq(MAX_INODES, i requires 0 <= i < MAX_INODES => LoadedInode(s, i)),
         s[INODE_BITMAP_BLOCK][..INODE_BITMAP_BYTES],
         s[BLOCK_BITMAP_BLOCK][..BLOCK_BITMAP_BYTES])
  }

  /** The inodes of the table's first `k` sectors are loaded. */
  predicate TableLoaded(inodes: seq<Inode>, s: Sectors, k: nat)
    requires |inodes| == MAX_INODES && k <= INODE_TABLE_BLOCKS
  {
    forall i :: 0 <= i < INODES_PER_BLOCK * k ==> inodes[i] == LoadedInode(s, i)
  }

  /** The table with sector `k` copied in. */
  function WithTable(inodes: seq<Inode>, k: nat, buffer: Sector): (r: seq<Inode>)
    requires |inodes| == MAX_INODES && k < INODE_TABLE_BLOCKS
    ensures |r| == MAX_INODES
  {
    inodes[..INODES_PER_BLOCK * k] + DecodeTable(buffer) + inodes[INODES_PER_BLOCK * k + INODES_PER_BLOCK..]
  }

  lemma TableMore(inodes: seq<Inode>, s: Sectors, k: nat)
    requires |inodes| == MAX_INODES && k < INODE_TABLE_BLOCKS && TableLoaded(inodes, s, k)
    ensures TableLoaded(WithTable(inodes, k, s[INODE_TABLE_START + k]), s, k + 1)
  {
    var r := WithTable(inodes, k, s[INODE_TABLE_START + k]);
    forall i | 0 <= i < INODES_PER_BLOCK * (k + 1) ensures r[i] == LoadedInode(s, i) {
      if i >= INODES_PER_BLOCK * k {
        LoadedFrom(s, k, i - INODES_PER_BLOCK * k);
      }
    }
  }

  lemma LoadedFrom(s: Sectors, k: nat, j: nat)
    requires k < INODE_TABLE_BLOCKS && j < INODES_PER_BLOCK
    ensures LoadedInode(s, INODES_PER_BLOCK * k + j) == DecodeTable(s[INODE_TABLE_START + k])[j]
  {
    var i := INODES_PER_BLOCK * k + j;
    assert i / INODES_PER_BLOCK == k && i % INODES_PER_BLOCK == j;
  }

  lemma AllLoaded(inodes: seq<Inode>, s: Sectors)
    requires |inodes| == MAX_INODES && TableLoaded(inodes, s, INODE_TABLE_BLOCKS)
    ensures inodes == LoadedMeta(s).inodes
  {
  }

  lemma InodeLoads(m: Meta, s: Sectors, i: nat)
    requires WellSized(m) && Tracks(m, s, {}) && i < MAX_INODES
    ensures LoadedInode(s, i) == m.inodes[i]
  {
    assert s[TableBlock(i)] == MetaImage(m, TableBlock(i));
    var k, j := i / INODES_PER_BLOCK, i % INODES_PER_BLOCK;
    assert i == INODES_PER_BLOCK * k + j;
    InTableAt(m.inodes, k, j);
  }

  lemma InTableAt(inodes: seq<Inode>, k: nat, j: nat)
    requires |inodes| == MAX_INODES && k < INODE_TABLE_BLOCKS && j < INODES_PER_BLOCK
    ensures DecodeTable(TableImage(inodes, k))[j] == inodes[INODES_PER_BLOCK * k + j]
  {
    TableRoundTrip(inodes, k);
    InSlice(inodes, INODES_PER_BLOCK * k, INODES_PER_BLOCK * (k + 1), j);
  }

  lemma InSlice(inodes: seq<Inode>, from: nat, to: nat, j: nat)
    requires from + j < to <= |inodes|
    ensures inodes[from..to][j] == inodes[from + j]
  {
  }

  /** Metadata that is entirely on disk loads as what it was in memory. */
  lemma PersistedMetaLoads(m: Meta, s: Sectors)
    requires WellSized(m) && Tracks(m, s, {})
    ensures LoadedMeta(s) == m
  {
    assert s[SUPER_BLOCK] == MetaImage(m, SUPER_BLOCK);
    assert s[INODE_BITMAP_BLOCK] == MetaImage(m, INODE_BITMAP_BLOCK);
    assert s[BLOCK_BITMAP_BLOCK] == MetaImage(m, BLOCK_BITMAP_BLOCK);
    SuperRoundTrip(m.super);
    forall i | 0 <= i < MAX_INODES ensures LoadedMeta(s).inodes[i] == m.inodes[i] {
      InodeLoads(m, s, i);
    }
  }

  /** If the sectors carry a valid superblock, then their other metadata is consistent. */
  ghost predicate Readable(s: Sectors) {
    ValidSuper(LoadedMeta(s).super) ==> Consistent(LoadedMeta(s), s)
  }

  function RootInode(): Inode {
    Inode(NODE_DIR, Zeros(3), 0, 0, NoBlocks(), Zeros(16))
  }

  function UnusedInode(): Inode {
    Inode(NODE_FREE, Zeros(3), 0, 0, NoBlocks(), Zeros(16))
  }

  /** The metadata that luxfs_format sets up. */
  function FreshMeta(): (m: Meta)
    ensures WellSized(m)
  {
    Meta(FRESH_SUPER,
         seq(MAX_INODES, _ => UnusedInode())[0 := RootInode()],
         Put(Zeros(INODE_BITMAP_BYTES), 0, true),
         Zeros(BLOCK_BITMAP_BYTES))
  }

  /** The volume with nothing but an empty root directory. */
  function EmptyVolume(): Volume {
    seq(MAX_INODES, _ => Free)[0 := Dir(0, [])]
  }

  lemma FreshMetaOk()
    ensures MetaOk(FreshMeta())
    ensures NoLeak(FreshMeta().inodes, FreshMeta().blockBitmap) && TightDirectories(FreshMeta().inodes)
    ensures forall i :: 0 <= i < MAX_INODES ==> (Bit(FreshMeta().inodeBitmap, i) <==> i == 0)
  {
    var m := FreshMeta();
    forall i, k | 0 <= i < MAX_INODES && 0 <= k < DIRECT_BLOCKS ensures Ptr(m.inodes, i, k) == INVALID_BLOCK {
    }
    forall b | 0 <= b < DATA_BLOCK_COUNT ensures !Bit(m.blockBitmap, b) {
      ZeroBitmap(BLOCK_BITMAP_BYTES, b);
    }
    forall i | 0 <= i < MAX_INODES ensures Bit(m.inodeBitmap, i) <==> i == 0 {
      ZeroBitmap(INODE_BITMAP_BYTES, i);
      PutBitOnly(Zeros(INODE_BITMAP_BYTES), 0, true, i);
    }
    forall i | 0 <= i < MAX_INODES ensures InodeOk(m.inodes[i]) && Tight(m.inodes[i]) {
    }
  }

  lemma EmptyVolumeIsTree()
    ensures Tree(EmptyVolume(), 1)
  {
  }

  /** A freshly formatted volume is sound and holds an empty root directory, whatever the data
      sectors hold. */
  lemma FreshSound(s: Sectors)
    ensures Sound(FreshMeta(), s) && VolumeOf(FreshMeta().inodes, s) == EmptyVolume()
  {
    FreshMetaOk();
    EmptyVolumeIsTree();
    assert VolumeOf(FreshMeta().inodes, s) == EmptyVolume();
  }
}
