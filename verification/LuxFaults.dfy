/** Runs in which a transfer or two fail and what follows is not what one might expect. */
module LuxFaults {
  import opened Bytes
  import opened Bitmap
  import opened LuxFormat
  import opened SectorDisk
  import opened Wrappers
  import opened LuxVolume
  import opened LuxPaths
  import opened LuxLayout
  import opened LuxDirectories
  import opened LuxSearches
  import opened LuxStorage
  import opened LuxNamespace
  import opened LuxMounting
  import opened LuxFilesystem
  import opened LuxSessions

  /** Transfers number `from` up to `to` fail, and no others. */
  function FailsFrom(from: nat, to: nat): (fails: nat -> bool)
    ensures forall n: nat :: fails(n) <==> from <= n < to
  {
    n => from <= n < to
  }

  const START: nat := 2 * DATA_BLOCK_START  // the first transfer after a fresh mount

  function BlankSectors(): Sectors {
    seq(TOTAL_SECTORS, _ => Zeros(SECTOR_SIZE))
  }

  lemma BlankIsNoVolume()
    ensures !ValidSuper(LoadedMeta(BlankSectors()).super)
  {
    assert BlankSectors()[SUPER_BLOCK] == Zeros(SECTOR_SIZE);
  }

  /** A fresh volume on a blank disk whose transfers fail as `fails` says, though not those of the mount. */
  method FreshVolume(fails: nat -> bool) returns (fs: LuxFs)
    requires forall n: nat :: n < START ==> !fails(n)
    ensures fresh(fs) && fresh(fs.disk) && fs.Running() && fs.disk.ready && fs.Nodes() == EmptyVolume()
    ensures fs.Memory() == FreshMeta() && fs.disk.transfers == START
    ensures fs.disk.fails == fails
  {
    var disk := new Disk(true, START_LBA + TOTAL_SECTORS, BlankSectors(), fails);
    fs := new LuxFs(disk);
    BlankIsNoVolume();
    FreshSound(disk.sectors);
    var mounted := fs.Mount();
    disk.AfterClear(0, DATA_BLOCK_START);
  }

  lemma FreshRoot()
    ensures var n := FreshMeta().inodes[0];
      LayTransfers(n) == 4 && Room(n, FreshMeta().blockBitmap)
    ensures HasFreeInode(FreshMeta()) && forall i :: FirstFree(FreshMeta().inodeBitmap, i) ==> i == 1
  {
    FreshMetaOk();
    assert !Bit(FreshMeta().inodeBitmap, 1);
    assert Bit(FreshMeta().inodeBitmap, 0);
    ZeroBitmap(BLOCK_BITMAP_BYTES, 0);
  }

  /** The record is laid by four transfers and shows although the fifth, of the inode, fails and the
      append reports failure. */
  method FailedAppendShows(rec: Record) returns (fs: LuxFs, ok: bool)
    requires rec.inode < MAX_INODES
    ensures fresh(fs) && fs.Running() && !ok && fs.Nodes() == EmptyVolume()[0 := Dir(0, [rec])]
  {
    fs := FreshVolume(FailsFrom(START + 4, START + 5));
    FreshRoot();
    assert fs.Memory().inodes[0] == FreshMeta().inodes[0] && fs.Memory().blockBitmap == FreshMeta().blockBitmap;
    assert fs.Nodes()[0] == Dir(0, []) && WithRecord(Dir(0, []), rec) == Dir(0, [rec]);
    assert fs.disk.fails(START + 4);
    ok := fs.AppendRecord(0, rec);
  }

  /** The seventh of the transfers that create a node in the root fails. */
  lemma RecordLeft(w: Volume, name: Name, child: nat, ok: bool, disk: Disk, t: nat, now: nat)
    requires |name| < NAME_MAX && disk.ready && forall n: nat :: disk.fails(n) <==> n == t + 6
    requires MadeAt(FreshMeta(), EmptyVolume(), w, 0, name, NODE_FILE, child, ok, disk, t, now)
    requires FirstFree(FreshMeta().inodeBitmap, child)
    ensures !ok && w == EmptyVolume()[0 := Dir(0, [Record(1, NameField(name))])] && w[1].Free?
  {
    FreshRoot();
    assert disk.fails(t + 6);
    assert EnteredAt(FreshMeta(), EmptyVolume(), w, 0, name, NODE_FILE, child, ok, disk, t + 2);
    assert WithRecord(Dir(0, []), Record(1, NameField(name))) == Dir(0, [Record(1, NameField(name))]);
  }

  /** Two transfers set up the inode and four lay the record; the seventh fails, the inode is given
      back, and the record is left, naming a free inode. */
  method FailedCreateLeavesRecord(name: Name) returns (fs: LuxFs, ok: bool)
    requires |name| < NAME_MAX
    ensures fresh(fs) && fs.Running() && !ok
    ensures fs.Nodes() == EmptyVolume()[0 := Dir(0, [Record(1, NameField(name))])] && fs.Nodes()[1].Free?
  {
    fs := FreshVolume(FailsFrom(START + 6, START + 7));
    FreshRoot();
    ghost var child;
    ok, child := fs.Create(NODE_FILE, 0, name);
    RecordLeft(fs.Nodes(), name, child, ok, fs.disk, START, fs.disk.transfers);
  }

  // A lookup that fails is taken for a name that is not there -----------------------------------------

  lemma OneName(name: Name)
    requires ValidName(name)
    ensures Tokens(name) == Some([name])
  {
    OnePiece(name);
    assert [name][1..] == [] && [name][..0] == [];
  }

  /** The root with a directory of that name. */
  function OneDirectory(name: Name): Volume
    requires |name| < NAME_MAX
  {
    AddNode(EmptyVolume(), 0, name, 1, true)
  }

  lemma ReadsInRoot(v: Volume, name: Name)
    requires ValidName(name) && v != []
    requires Lookup(v[0], name).Some? ==> Lookup(v[0], name).value < |v|
    ensures Resolved(v, name) == Lookup(v[0], name) && Target(v, name) == Some((0, name))
    ensures ResolveReads(v, name) == SearchReads(v[0], name) && ParentReads(v, name) == 0
  {
    OneName(name);
    var path := [name];
    assert path[1..] == [] && path[..|path| - 1] == [];
    assert Walk(v, 0, path) == Lookup(v[0], name);
    assert WalkReads(v, 0, path) == SearchReads(v[0], name);
    assert WalkDirs(v, 0, []) == Some(0) && WalkDirsReads(v, 0, []) == 0;
  }

  /** A path of one name in the root: what a call of fs_mkdir or fs_touch for it comes to. */
  lemma RunInRoot(m: Meta, before: Volume, after: Volume, name: Name, kind: byte, child: nat, ok: bool, disk: Disk,
                  t: nat, now: nat)
    requires WellSized(m) && ValidName(name) && before != [] && before[0].Dir?
    requires Lookup(before[0], name).Some? ==> Lookup(before[0], name).value < |before|
    requires MakeRun(m, before, after, name, kind, child, ok, disk, t, now)
    requires Lookup(before[0], name).None? || !disk.Clear(t, SearchReads(before[0], name))
    ensures MakeIn(m, before, after, 0, name, kind, child, ok, disk, disk.After(t, SearchReads(before[0], name)), now)
  {
    ReadsInRoot(before, name);
  }

  lemma MadeInRoot(w: Volume, name: Name, child: nat, ok: bool, disk: Disk, t: nat, now: nat)
    requires ValidName(name) && disk.Clear(t, 7)
    requires MakeRun(FreshMeta(), EmptyVolume(), w, name, NODE_DIR, child, ok, disk, t, now)
    requires w != EmptyVolume() ==> FirstFree(FreshMeta().inodeBitmap, child)
    ensures ok && w == OneDirectory(name) && now == t + 7
  {
    var v := EmptyVolume();
    FreshRoot();
    assert v[0] == Dir(0, []) && SearchReads(v[0], name) == 0;
    RunInRoot(FreshMeta(), v, w, name, NODE_DIR, child, ok, disk, t, now);
    assert disk.Clear(t, 2) && disk.Clear(t + 2, 4) && disk.Clear(t + 6, 1);
    assert w[0] != v[0];
  }

  /** A volume with one directory, on a disk on which no transfer fails before number START + 7. */
  method DirectoryVolume(fails: nat -> bool, name: Name) returns (fs: LuxFs)
    requires ValidName(name) && forall n: nat :: n < START + 7 ==> !fails(n)
    ensures fresh(fs) && fresh(fs.disk) && fs.Running() && fs.disk.ready && fs.disk.fails == fails
    ensures fs.Nodes() == OneDirectory(name) && fs.disk.transfers == START + 7
  {
    fs := FreshVolume(fails);
    ghost var child;
    var ok;
    ok, child := fs.Mkdir(name);
    MadeInRoot(fs.Nodes(), name, child, ok, fs.disk, START, fs.disk.transfers);
  }

  lemma DirectoryIsThere(name: Name)
    requires ValidName(name)
    ensures var v := OneDirectory(name);
      && Lookup(v[0], name) == Some(1) && Resolved(v, name) == Some(1) && v[1].Dir?
      && SearchReads(v[0], name) == 1 && ResolveReads(v, name) == 1
  {
    var v := OneDirectory(name);
    NameFieldRoundTrip(name);
    var record := Record(1, NameField(name));
    assert v[0].records == [record] && NameOf(record) == name;
    assert UpTo([record], NameDiffers(name)) == [record];
    ReadsInRoot(v, name);
  }

  /** fs_touch succeeds on a path that names a directory: the read that resolves it fails, and the one that
      searches the root again does not. */
  method FailedLookupTouchesDirectory(name: Name) returns (fs: LuxFs, ok: bool)
    requires ValidName(name)
    ensures fresh(fs) && fs.Running() && ok && fs.Nodes() == OneDirectory(name)
    ensures Resolved(fs.Nodes(), name) == Some(1) && fs.Nodes()[1].Dir?
  {
    fs := DirectoryVolume(FailsFrom(START + 7, START + 8), name);
    ok := TouchAgain(fs, name);
    DirectoryIsThere(name);
  }

  /** fs_touch where one read fails. */
  method TouchAgain(fs: LuxFs, name: Name) returns (ok: bool)
    requires ValidName(name) && fs.Running() && fs.disk.ready && fs.Nodes() == OneDirectory(name)
    requires forall n: nat :: fs.disk.fails(n) <==> n == fs.disk.transfers
    modifies fs`inodes, fs`inodeBitmap, fs`blockBitmap, fs`lag, fs.disk`sectors, fs.disk`transfers
    ensures fs.Running() && ok && fs.Nodes() == OneDirectory(name)
  {
    ghost var m, v, t, child := fs.Memory(), fs.Nodes(), fs.disk.transfers, 0;
    ok, child := fs.Touch(name);
    TouchedAgain(m, v, fs.Nodes(), name, child, ok, fs.disk, t, fs.disk.transfers);
  }

  lemma TouchedAgain(m: Meta, v: Volume, w: Volume, name: Name, child: nat, ok: bool, disk: Disk, t: nat, now: nat)
    requires WellSized(m) && ValidName(name) && v == OneDirectory(name)
    requires MakeRun(m, v, w, name, NODE_FILE, child, ok, disk, t, now)
    requires disk.ready && forall n: nat :: disk.fails(n) <==> n == t
    ensures ok && w == v && Resolved(w, name) == Some(1) && w[1].Dir?
  {
    DirectoryIsThere(name);
    assert disk.fails(t);
    RunInRoot(m, v, w, name, NODE_FILE, child, ok, disk, t, now);
  }

  lemma RoomBesideOne(m: Meta, s: Sectors, name: Name)
    requires Consistent(m, s) && ValidName(name) && VolumeOf(m.inodes, s) == OneDirectory(name)
    ensures HasFreeInode(m) && (forall i :: FirstFree(m.inodeBitmap, i) ==> i == 2)
    ensures Room(m.inodes[0], m.blockBitmap) && LayTransfers(m.inodes[0]) == 2
  {
    var v := VolumeOf(m.inodes, s);
    assert v[0] == Dir(0, [Record(1, NameField(name))]) && v[1] == Dir(0, []) && v[2].Free?;
    forall i | 0 <= i < 3 ensures Bit(m.inodeBitmap, i) <==> i < 2 {
      assert InodeOk(m.inodes[i]);
    }
    assert !Bit(m.inodeBitmap, 2) && Bit(m.inodeBitmap, 1) && Bit(m.inodeBitmap, 0);
    RoomIsCount(m.inodes[0], s);
    assert m.inodes[0].size == RECORD_BYTES && m.inodes[0].direct[0] != INVALID_BLOCK;
    assert forall k :: 0 <= k < DIRECT_BLOCKS && Touched(RECORD_BYTES, RECORD_BYTES, k) ==> k == 0;
  }

  /** Both lookups fail, and fs_touch makes a second node of the same name: the volume is no tree any more. */
  method FailedLookupsDuplicate(name: Name) returns (fs: LuxFs, ok: bool)
    requires ValidName(name)
    ensures fresh(fs) && fs.Running() && ok
    ensures fs.Nodes() == AddNode(OneDirectory(name), 0, name, 2, false) && !IsTree(fs.Nodes())
  {
    fs := DirectoryVolume(FailsFrom(START + 7, START + 9), name);
    ok := TouchTwice(fs, name);
  }

  /** fs_touch where two reads fail. */
  method TouchTwice(fs: LuxFs, name: Name) returns (ok: bool)
    requires ValidName(name) && fs.Running() && fs.disk.ready && fs.Nodes() == OneDirectory(name)
    requires forall n: nat :: fs.disk.fails(n) <==> fs.disk.transfers <= n < fs.disk.transfers + 2
    modifies fs`inodes, fs`inodeBitmap, fs`blockBitmap, fs`lag, fs.disk`sectors, fs.disk`transfers
    ensures fs.Running() && ok && fs.Nodes() == AddNode(OneDirectory(name), 0, name, 2, false) && !IsTree(fs.Nodes())
  {
    ghost var m, s, t, child := fs.Memory(), fs.disk.sectors, fs.disk.transfers, 0;
    ok, child := fs.Touch(name);
    SecondOfTheName(m, s, fs.Nodes(), name, child, ok, fs.disk, t, fs.disk.transfers);
  }

  lemma SecondOfTheName(m: Meta, s: Sectors, w: Volume, name: Name, child: nat, ok: bool, disk: Disk, t: nat, now: nat)
    requires Consistent(m, s) && ValidName(name) && VolumeOf(m.inodes, s) == OneDirectory(name)
    requires MakeRun(m, VolumeOf(m.inodes, s), w, name, NODE_FILE, child, ok, disk, t, now)
    requires w != VolumeOf(m.inodes, s) ==> FirstFree(m.inodeBitmap, child)
    requires disk.ready && forall n: nat :: disk.fails(n) <==> t <= n < t + 2
    ensures ok && w == AddNode(OneDirectory(name), 0, name, 2, false) && !IsTree(w)
  {
    var v := OneDirectory(name);
    RoomBesideOne(m, s, name);
    DirectoryIsThere(name);
    assert disk.fails(t) && disk.fails(t + 1);
    RunInRoot(m, v, w, name, NODE_FILE, child, ok, disk, t, now);
    assert disk.After(t + 1, 1) == t + 2;
    assert disk.Clear(t + 2, 2) && disk.Clear(t + 4, 2) && disk.Clear(t + 6, 1);
    assert w[0] != v[0];
    TwiceTheName(v, 0, name, 2, false);
  }

  // A read that fails reformats ---------------------------------------------------------------------------

  /** Any volume, all of whose metadata is on disk, is lost at the next mount when a single read of the
      metadata fails. */
  method FailedReadReformats(fs: LuxFs, failing: nat) returns (again: LuxFs)
    requires fs.Running() && fs.lag == {} && failing < DATA_BLOCK_START
    requires fs.disk.present && fs.disk.totalSectors >= START_LBA + TOTAL_SECTORS
    ensures ValidSuper(LoadedMeta(fs.disk.sectors).super)
    ensures fresh(again) && again.Healthy() && again.Nodes() == EmptyVolume()
  {
    PersistedMetaLoads(fs.Memory(), fs.disk.sectors);
    again := Reboot(fs, FailsFrom(failing, failing + 1));
    OneFailure(again.disk, failing);
  }

  lemma OneFailure(disk: Disk, failing: nat)
    requires disk.ready && failing < DATA_BLOCK_START && forall n: nat :: disk.fails(n) <==> n == failing
    ensures !disk.Clear(0, DATA_BLOCK_START)
    ensures disk.Clear(disk.After(0, DATA_BLOCK_START), DATA_BLOCK_START)
  {
    assert disk.fails(failing);
    disk.StopsAt(0, failing, DATA_BLOCK_START);
  }
}
