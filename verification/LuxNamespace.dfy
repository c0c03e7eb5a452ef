/** Creating nodes by path: what an absent path's last component is, and what the new record
    does to the whole namespace. */
module LuxNamespace {
  import opened Bytes
  import opened Bitmap
  import opened LuxFormat
  import opened SectorDisk
  import opened Wrappers
  import opened LuxVolume
  import opened LuxPaths
  import opened LuxLayout
  import opened LuxUpdates
  import opened LuxWriting
  import opened LuxOutcome
  import opened LuxStorage
  import opened LuxSpace
  import opened LuxSearches

  /** In a tree the walk of luxfs_resolve_parent ends at a directory. */
  lemma {:induction false} WalkDirsEndsAtDirectory(v: Volume, n: nat, at: nat, path: seq<Name>)
    requires Tree(v, n) && at < n && v[at].Dir?
    ensures WalkDirs(v, at, path).Some? ==> WalkDirs(v, at, path).value < n && v[WalkDirs(v, at, path).value].Dir?
    decreases |path|
  {
    if path == [] {
    } else if path[0] == DOTDOT {
      assert at > 0 ==> HasRecord(v[ParentOf(v[at])], at);
      WalkDirsEndsAtDirectory(v, n, ParentOf(v[at]), path[1..]);
    } else if Lookup(v[at], path[0]).Some? {
      LookupInTree(v, n, at, path[0]);
      var child := Lookup(v[at], path[0]).value;
      if v[child].Dir? {
        WalkDirsEndsAtDirectory(v, n, child, path[1..]);
      }
    }
  }

  /** In a tree the parent of a directory is one, so that every step of the walk must end at a directory. */
  lemma {:induction false} DirectoriesAbove(v: Volume, n: nat, path: seq<Name>, j: nat)
    requires Tree(v, n) && j <= |path|
    requires forall k :: 0 <= k < |path| && path[k] != DOTDOT ==> DirectoryAt(v, 0, path[..k + 1])
    ensures DirectoryAt(v, 0, path[..j]) && Walk(v, 0, path[..j]).value < n
  {
    if j == 0 {
      assert path[..0] == [];
    } else {
      DirectoriesAbove(v, n, path, j - 1);
      var above, name := path[..j - 1], path[j - 1];
      StepTo(v, path, j);
      DirectoryBehind(v, n, above, name);
    }
  }

  lemma StepTo(v: Volume, path: seq<Name>, j: nat)
    requires 0 < j <= |path|
    requires forall k :: 0 <= k < |path| && path[k] != DOTDOT ==> DirectoryAt(v, 0, path[..k + 1])
    ensures path[..j] == path[..j - 1] + [path[j - 1]]
    ensures path[j - 1] != DOTDOT ==> DirectoryAt(v, 0, path[..j - 1] + [path[j - 1]])
  {
    assert path[..j] == path[..j - 1] + [path[j - 1]];
    assert path[j - 1] != DOTDOT ==> DirectoryAt(v, 0, path[..j - 1 + 1]);
  }

  lemma DirectoryBehind(v: Volume, n: nat, above: seq<Name>, name: Name)
    requires Tree(v, n) && DirectoryAt(v, 0, above) && Walk(v, 0, above).value < n
    requires name != DOTDOT ==> DirectoryAt(v, 0, above + [name])
    ensures DirectoryAt(v, 0, above + [name]) && Walk(v, 0, above + [name]).value < n
  {
    WalkBehind(v, 0, above, name);
    var at := Walk(v, 0, above).value;
    LookupInTree(v, n, at, name);
    assert at > 0 ==> HasRecord(v[ParentOf(v[at])], at);
  }

  /** The directory above a path and its last component are found exactly if the path tokenizes to components,
      all prefixes of which but the whole lead to directories. */
  lemma TargetMeaning(v: Volume, n: nat, path: seq<byte>, d: nat, name: Name)
    requires Tree(v, n)
    ensures Target(v, path) == Some((d, name)) <==>
              && Tokens(path).Some? && Tokens(path).value != []
              && var components := Tokens(path).value;
                 var above := components[..|components| - 1];
              && name == components[|components| - 1]
              && Walk(v, 0, above) == Some(d)
              && forall k :: 0 <= k <= |above| ==> DirectoryAt(v, 0, above[..k])
  {
    if Tokens(path).Some? && Tokens(path).value != [] {
      var components := Tokens(path).value;
      var above := components[..|components| - 1];
      WalkDirsMeaning(v, 0, above, d);
      if WalkDirs(v, 0, above) == Some(d) {
        forall k | 0 <= k <= |above| ensures DirectoryAt(v, 0, above[..k]) {
          DirectoriesAbove(v, n, above, k);
        }
      } else if forall k :: 0 <= k <= |above| ==> DirectoryAt(v, 0, above[..k]) {
        forall k | 0 <= k < |above| ensures above[k] != DOTDOT ==> DirectoryAt(v, 0, above[..k + 1]) {
        }
      }
    }
  }

  lemma TargetWalk(v: Volume, path: seq<byte>)
    requires Target(v, path).Some?
    ensures var components := Tokens(path).value;
      var (d, name) := Target(v, path).value;
      && components != [] && components == components[..|components| - 1] + [name]
      && Walk(v, 0, components[..|components| - 1]) == Some(d)
      && Resolved(v, path) == Walk(v, d, [name])
  {
    var components := Tokens(path).value;
    var above := components[..|components| - 1];
    var (d, name) := Target(v, path).value;
    WalkDirsIsWalk(v, 0, above);
    assert components == above + [name];
    WalkConcat(v, 0, above, [name]);
  }

  /** When a path does not resolve but its parent does, the last component is a valid name that
      the parent directory does not have: a create can only fail for want of space. */
  lemma AbsentTarget(v: Volume, n: nat, path: seq<byte>)
    requires Tree(v, n) && NUL !in path && Target(v, path).Some?
    ensures var (d, name) := Target(v, path).value;
      && d < n && v[d].Dir?
      && (Resolved(v, path).None? <==> ValidName(name) && FindRecord(v[d].records, name).None?)
  {
    var components := Tokens(path).value;
    var above := components[..|components| - 1];
    var (d, name) := Target(v, path).value;
    WalkDirsEndsAtDirectory(v, n, 0, above);
    TargetWalk(v, path);
    TokensAreNames(path);
    assert name in components;
    OneStep(v, n, d, name);
  }

  lemma OneStep(v: Volume, n: nat, d: nat, name: Name)
    requires Tree(v, n) && d < n && v[d].Dir? && (name == DOTDOT || ValidName(name))
    ensures Walk(v, d, [name]).None? <==> ValidName(name) && FindRecord(v[d].records, name).None?
  {
    LookupInTree(v, n, d, name);
    WalkOne(v, d, name);
  }

  lemma WalkOne(v: Volume, d: nat, name: Name)
    requires d < |v|
    ensures name == DOTDOT && ParentOf(v[d]) < |v| ==> Walk(v, d, [name]) == Some(ParentOf(v[d]))
    ensures name != DOTDOT && Lookup(v[d], name).None? ==> Walk(v, d, [name]).None?
    ensures name != DOTDOT && Lookup(v[d], name).Some? && Lookup(v[d], name).value < |v| ==>
              Walk(v, d, [name]) == Lookup(v[d], name)
  {
    assert [name][1..] == [];
  }

  /** A create is a conservative extension of the namespace: the path now resolves to the new
      node, every path that resolved resolves to the same node, and the volume is a tree. */
  lemma CreateExtends(v: Volume, n: nat, path: seq<byte>, isDir: bool)
    requires Tree(v, n) && n < |v| && NUL !in path && Target(v, path).Some? && Resolved(v, path).None?
    ensures var (d, name) := Target(v, path).value;
      && CanAdd(v, n, d, name)
      && var w := AddNode(v, d, name, n, isDir);
      && Tree(w, n + 1)
      && Resolved(w, path) == Some(n)
      && forall q :: Resolved(v, q).Some? ==> Resolved(w, q) == Resolved(v, q)
  {
    var (d, name) := Target(v, path).value;
    AbsentTarget(v, n, path);
    var w := AddNode(v, d, name, n, isDir);
    AddNodeKeepsTree(v, n, d, name, isDir);
    TargetWalk(v, path);
    var above := Tokens(path).value[..|Tokens(path).value| - 1];
    NewPathResolves(v, n, d, name, isDir, 0, above);
    forall q | Resolved(v, q).Some? ensures Resolved(w, q) == Resolved(v, q) {
      OldPathsKept(v, n, d, name, isDir, 0, Tokens(q).value);
    }
  }

  /** Conversely a path that newly resolves goes through the new record. */
  lemma CreateAddsNothingElse(v: Volume, n: nat, d: nat, name: Name, isDir: bool, q: seq<byte>) returns (k: nat)
    requires Tree(v, n) && CanAdd(v, n, d, name)
    requires Resolved(v, q).None? && Resolved(AddNode(v, d, name, n, isDir), q).Some?
    ensures Tokens(q).Some? && k < |Tokens(q).value|
    ensures Tokens(q).value[k] == name && Walk(v, 0, Tokens(q).value[..k]) == Some(d)
  {
    k := NewPathsUseNewRecord(v, n, d, name, isDir, 0, Tokens(q).value);
  }

  // From volumes to metadata -----------------------------------------------------------------------

  predicate HasFreeInode(m: Meta)
    requires WellSized(m)
  {
    exists i :: 0 <= i < MAX_INODES && !Bit(m.inodeBitmap, i)
  }

  predicate FirstFree(bitmap: seq<byte>, i: nat)
    requires |bitmap| == INODE_BITMAP_BYTES
  {
    i < MAX_INODES && !Bit(bitmap, i) && forall j :: 0 <= j < i ==> Bit(bitmap, j)
  }

  /** The inode that luxfs_alloc_inode takes is not the root, not the parent and not in use. */
  lemma NewNodeFrame(m: Meta, s: Sectors, i: nat, parent: nat)
    requires Consistent(m, s) && i < MAX_INODES && !Bit(m.inodeBitmap, i) && parent < MAX_INODES
    ensures i > 0 && VolumeOf(m.inodes, s)[i].Free?
    ensures VolumeOf(m.inodes, s)[parent].Dir? ==> parent != i
    ensures HasFreeInode(m)
  {
    assert InodeOk(m.inodes[i]);
    assert Bit(m.inodeBitmap, 0);
  }

  /** The lowest free inode is the size of the tree. */
  lemma LowestFree(m: Meta, s: Sectors, n: nat, i: nat)
    requires Consistent(m, s) && Tree(VolumeOf(m.inodes, s), n)
    requires FirstFree(m.inodeBitmap, i)
    ensures i == n
  {
    var v := VolumeOf(m.inodes, s);
    forall j | 0 <= j < MAX_INODES ensures Bit(m.inodeBitmap, j) <==> !v[j].Free? {
      assert InodeOk(m.inodes[j]);
    }
    assert n < MAX_INODES ==> !Bit(m.inodeBitmap, n);
  }

  /** Everything a successful create promises when no transfer fails: the node is new, and it
      and its record are all that changed. */
  ghost predicate Created(before: Volume, after: Volume, path: seq<byte>, isDir: bool, child: nat) {
    && Target(before, path).Some?
    && var (d, name) := Target(before, path).value;
    && CanAdd(before, child, d, name)
    && after == AddNode(before, d, name, child, isDir)
    && Tree(before, child) && Tree(after, child + 1)
    && Resolved(after, path) == Some(child)
    && forall q :: Resolved(before, q).Some? ==> Resolved(after, q) == Resolved(before, q)
  }

  lemma CreatedSound(m0: Meta, s0: Sectors, m: Meta, s: Sectors, path: seq<byte>, isDir: bool, child: nat)
    requires Sound(m0, s0) && Consistent(m, s) && Keeps(m0, m) && NUL !in path
    requires Target(VolumeOf(m0.inodes, s0), path).Some? && Resolved(VolumeOf(m0.inodes, s0), path).None?
    requires FirstFree(m0.inodeBitmap, child)
    requires var v := VolumeOf(m0.inodes, s0);
      var (d, name) := Target(v, path).value;
      && d < |v| && d != child && v[d].Dir? && |name| < NAME_MAX
      && VolumeOf(m.inodes, s) == AddNode(v, d, name, child, isDir)
    ensures Created(VolumeOf(m0.inodes, s0), VolumeOf(m.inodes, s), path, isDir, child)
    ensures Sound(m, s)
  {
    var v := VolumeOf(m0.inodes, s0);
    var n :| Tree(v, n);
    LowestFree(m0, s0, n, child);
    CreateExtends(v, n, path, isDir);
  }

  /** Changing a file's contents keeps the tree and every path. */
  lemma WriteKeepsTree(v: Volume, w: Volume, i: nat)
    requires OnlyFileChanged(v, w, i)
    ensures forall n: nat :: Tree(v, n) ==> Tree(w, n)
    ensures forall q :: Resolved(w, q) == Resolved(v, q)
  {
    forall n: nat | Tree(v, n) ensures Tree(w, n) {
      forall j | 0 < j < n ensures ParentOf(w[j]) < j && HasRecord(w[ParentOf(w[j])], j) {
        assert HasRecord(v[ParentOf(v[j])], j);
      }
      forall d | 0 <= d < n && w[d].Dir? ensures GoodDirectory(w, d) {
        SameDirectory(v, w, i, d);
      }
    }
    forall q ensures Resolved(w, q) == Resolved(v, q) {
      if Tokens(q).Some? {
        WalkIgnoresContents(v, i, w[i].contents, 0, Tokens(q).value);
      }
    }
  }

  lemma SameDirectory(v: Volume, w: Volume, i: nat, d: nat)
    requires OnlyFileChanged(v, w, i) && d < |v| && v[d].Dir? && GoodDirectory(v, d)
    ensures GoodDirectory(w, d)
  {
    forall r | 0 <= r < |w[d].records| ensures GoodRecord(w, d, w[d].records[r]) {
      assert GoodRecord(v, d, v[d].records[r]);
    }
  }

  lemma WriteSound(m0: Meta, s0: Sectors, m: Meta, s: Sectors, i: nat)
    requires Sound(m0, s0) && Consistent(m, s) && Keeps(m0, m)
    requires OnlyFileChanged(VolumeOf(m0.inodes, s0), VolumeOf(m.inodes, s), i)
    ensures Sound(m, s)
  {
    WriteKeepsTree(VolumeOf(m0.inodes, s0), VolumeOf(m.inodes, s), i);
  }

  predicate FileAt(v: Volume, path: seq<byte>) {
    Resolved(v, path).Some? && v[Resolved(v, path).value].File?
  }

  function ContentsAt(v: Volume, path: seq<byte>): Contents
    requires FileAt(v, path)
  {
    v[Resolved(v, path).value].contents
  }

  function NodeSize(n: Node): nat {
    match n
    case Free => 0
    case Dir(_, records) => RECORD_BYTES * |records|
    case File(_, contents) => |contents|
  }

  /** No file's contents differ. */
  ghost predicate FilesKept(before: Volume, after: Volume) {
    forall i {:trigger before[i]} :: 0 <= i < |before| && before[i].File? ==> after[i] == before[i]
  }

  /** A new node and then its record, or not: no file differs, and taking the node back undoes
      all but the record. */
  lemma CreateSteps(v0: Volume, v1: Volume, v2: Volume, i: nat, kind: byte, parent: nat, name: Name, laid: bool)
    requires i < |v0| && v0[i].Free? && kind in {NODE_DIR, NODE_FILE} && parent < |v0| && |name| < NAME_MAX
    requires v1 == v0[i := EmptyNode(kind, parent)] && (laid ==> v1[parent].Dir?)
    requires v2 == if laid then v1[parent := WithRecord(v1[parent], Record(i, NameField(name)))] else v1
    ensures FilesKept(v0, v2) && FilesKept(v0, v2[i := Free])
    ensures !laid ==> v2[i := Free] == v0
    ensures v0[parent].Dir? && laid ==>
              && v2 == AddNode(v0, parent, name, i, kind == NODE_DIR)
              && v2[i := Free] == WithLooseRecord(v0, parent, name, i)
  {
  }

  /** Directory `d` has a record for `child`, which is not in use. */
  function WithLooseRecord(v: Volume, d: nat, name: Name, child: nat): Volume
    requires d < |v| && v[d].Dir? && child < |v| && |name| < NAME_MAX
  {
    v[d := WithRecord(v[d], Record(child, NameField(name)))]
  }

  /** The transfers that create a node in the directory of inode `n`. */
  function CreateTransfers(n: Inode): nat {
    2 + LayTransfers(n) + 1
  }

  /** What entering node `child`, once it is set up, in directory `d` leaves, by which transfers fail. */
  ghost predicate EnteredAt(m: Meta, before: Volume, after: Volume, d: nat, name: Name, kind: byte, child: nat, ok: bool,
                            disk: Disk, t: nat)
    requires WellSized(m) && d < |before| && before[d].Dir? && |name| < NAME_MAX
    reads disk`ready
  {
    var n := m.inodes[d];
    var laid := Room(n, m.blockBitmap) && disk.Clear(t, LayTransfers(n));
    && child < |before| && before[child].Free?
    && (ok <==> laid && disk.Clear(t + LayTransfers(n), 1))
    && after == (if ok then AddNode(before, d, name, child, kind == NODE_DIR)
                 else if laid then WithLooseRecord(before, d, name, child)
                 else before)
  }

  /** What creating a node in directory `d` leaves, by which transfers fail: the first two set up the
      inode, those after them lay the record, and one more writes the directory's inode. An inode is
      lost when one of the first two fails; a record is left that names a free inode when only the
      last one does. */
  ghost predicate MadeAt(m: Meta, before: Volume, after: Volume, d: nat, name: Name, kind: byte, child: nat, ok: bool,
                         disk: Disk, t: nat, now: nat)
    requires WellSized(m) && d < |before| && before[d].Dir? && |name| < NAME_MAX
    reads disk`ready
  {
    && (ok ==> now == t + CreateTransfers(m.inodes[d]))
    && (if !HasFreeInode(m) then
          !ok && after == before
        else if !disk.Clear(t, 2) then
          !ok && child < |before| && before[child].Free? && after == before[child := EmptyNode(kind, d)]
        else
          EnteredAt(m, before, after, d, name, kind, child, ok, disk, t + 2))
  }

  /** The names that fs_touch and fs_mkdir do not refuse. */
  predicate Creatable(name: Name) {
    name != [] && name != DOT && name != DOTDOT
  }

  /** What fs_touch (for a file) or fs_mkdir does in every run once directory `d` is found. A search of it
      that fails for a transfer counts as one that found nothing. */
  ghost predicate MakeIn(m: Meta, before: Volume, after: Volume, d: nat, name: Name, kind: byte, child: nat, ok: bool,
                         disk: Disk, t: nat, now: nat)
    requires WellSized(m)
    reads disk`ready
  {
    && d < |before| && |name| < NAME_MAX
    && (if !Creatable(name) then
          !ok && after == before
        else if Lookup(before[d], name).Some? && disk.Clear(t, SearchReads(before[d], name)) then
          after == before && (ok <==> kind == NODE_FILE)
        else
          before[d].Dir? ==>
            MadeAt(m, before, after, d, name, kind, child, ok, disk, disk.After(t, SearchReads(before[d], name)), now))
  }

  /** The same for a path. The reads that resolve it, those that find its directory and those that search
      it for the name follow one another, each ended by its first failure; a resolution that fails for
      a transfer counts, again, as one that found nothing. */
  ghost predicate MakeRun(m: Meta, before: Volume, after: Volume, path: seq<byte>, kind: byte, child: nat, ok: bool,
                          disk: Disk, t: nat, now: nat)
    requires WellSized(m)
    reads disk`ready
  {
    var t1 := disk.After(t, ResolveReads(before, path));
    if Resolved(before, path).Some? && disk.Clear(t, ResolveReads(before, path)) then
      after == before && now == t1 && (ok <==> kind == NODE_FILE && before[Resolved(before, path).value].File?)
    else if !(Target(before, path).Some? && disk.Clear(t1, ParentReads(before, path))) then
      !ok && after == before
    else
      MakeIn(m, before, after, Target(before, path).value.0, Target(before, path).value.1, kind, child, ok, disk,
             disk.After(t1, ParentReads(before, path)), now)
  }

  /** When fs_touch succeeds on a path that names no file and makes nothing: exactly when the first search for
      the name fails for a transfer and the second does not. When both do, it may make a second node of the
      name. */
  lemma TouchedDirectory(m: Meta, before: Volume, after: Volume, path: seq<byte>, child: nat, ok: bool, disk: Disk,
                         t: nat, now: nat)
    requires WellSized(m) && NUL !in path && MakeRun(m, before, after, path, NODE_FILE, child, ok, disk, t, now)
    requires Resolved(before, path).Some? && !before[Resolved(before, path).value].File?
    requires Target(before, path).Some? && Target(before, path).value.0 < |before|
    requires var (d, name) := Target(before, path).value;
      before[d].Dir? && Lookup(before[d], name).Some? && Creatable(name)
    ensures var (d, name) := Target(before, path).value;
      var t1 := disk.After(t, ResolveReads(before, path));
      var t2 := disk.After(t1, ParentReads(before, path));
      && (ok && after == before <==>
            !disk.Clear(t, ResolveReads(before, path)) && disk.Clear(t1, ParentReads(before, path))
            && disk.Clear(t2, SearchReads(before[d], name)))
      && (ok && after != before ==>
            !disk.Clear(t, ResolveReads(before, path)) && disk.Clear(t1, ParentReads(before, path))
            && !disk.Clear(t2, SearchReads(before[d], name)) && !IsTree(after))
  {
    var (d, name) := Target(before, path).value;
    if ok && after != before {
      TokensAreNames(path);
      assert name in Tokens(path).value;
      TwiceTheName(before, d, name, child, false);
    }
  }

  /** A second record of a name in a directory is no tree. */
  lemma TwiceTheName(v: Volume, d: nat, name: Name, child: nat, isDir: bool)
    requires d < |v| && v[d].Dir? && child < |v| && d != child && |name| < NAME_MAX && NUL !in name
    requires Lookup(v[d], name).Some?
    ensures !IsTree(AddNode(v, d, name, child, isDir))
  {
    var w, records := AddNode(v, d, name, child, isDir), v[d].records;
    FindRecordSound(records, name);
    NameFieldRoundTrip(name);
    var more := records + [Record(child, NameField(name))];
    var k :| 0 <= k < |records| && NameOf(records[k]) == name;
    assert NameOf(more[k]) == name && NameOf(more[|records|]) == name;
    assert w[d].records == more && !DistinctRecords(more);
    assert !GoodDirectory(w, d);
  }

  /** What creating node `child` in directory `d` does to the metadata: the inode is taken, the directory
      has grown by a record and perhaps a block, and nothing else differs. */
  predicate Entered(m0: Meta, m: Meta, kind: byte, d: nat, child: nat)
    requires WellSized(m0) && WellSized(m)
  {
    && d < MAX_INODES && child < MAX_INODES && d != child
    && m == m0.(inodes := m0.inodes[child := Fresh(m0.inodes[child], kind, d)][d := m.inodes[d]],
                inodeBitmap := Put(m0.inodeBitmap, child, true), blockBitmap := m.blockBitmap)
    && FreeBlocks(m.blockBitmap) + Growth(m0.inodes[d]) == FreeBlocks(m0.blockBitmap)
  }

  lemma AppendEnters(m0: Meta, m: Meta, kind: byte, d: nat, child: nat)
    requires WellSized(m0) && WellSized(m) && d < MAX_INODES && child < MAX_INODES && d != child
    requires Appended(WithNewInode(m0, child, kind, d), m, d)
    ensures Entered(m0, m, kind, d, child)
  {
  }

  /** The path names nothing yet, but its last component lies in an existing directory. */
  predicate Absent(v: Volume, path: seq<byte>) {
    Resolved(v, path).None? && Target(v, path).Some? && Target(v, path).value.0 < |v|
  }

  /** Everything fs_touch and fs_mkdir promise on a sound volume when no transfer fails: an
      absent path is created exactly when an inode and room for a record are left; nothing else
      changes anything. */
  ghost predicate CreateOutcome(m0: Meta, s0: Sectors, m: Meta, s: Sectors, path: seq<byte>, isDir: bool,
                                ok: bool, child: nat)
    requires WellSized(m0) && WellSized(m)
  {
    var before, after := VolumeOf(m0.inodes, s0), VolumeOf(m.inodes, s);
    && Sound(m, s)
    && (ok && Absent(before, path) ==>
          && Created(before, after, path, isDir, child)
          && Entered(m0, m, if isDir then NODE_DIR else NODE_FILE, Target(before, path).value.0, child))
    && (!ok || !Absent(before, path) ==> m == m0 && after == before)
    && (if Absent(before, path) then
          ok <==> HasFreeInode(m0) && Room(m0.inodes[Target(before, path).value.0], m0.blockBitmap)
        else
          ok <==> !isDir && FileAt(before, path))
  }

  lemma CreateOutcomes(m0: Meta, s0: Sectors, m: Meta, s: Sectors, path: seq<byte>, isDir: bool, ok: bool, child: nat)
    requires Sound(m0, s0) && Consistent(m, s) && NUL !in path
    requires Absent(VolumeOf(m0.inodes, s0), path)
    requires var v := VolumeOf(m0.inodes, s0);
      var (d, name) := Target(v, path).value;
      && (ok <==> HasFreeInode(m0) && Room(m0.inodes[d], m0.blockBitmap))
      && (!ok ==> m == m0 && VolumeOf(m.inodes, s) == v)
      && (ok ==> FirstFree(m0.inodeBitmap, child) && Keeps(m0, m) && d != child && v[d].Dir? && |name| < NAME_MAX
                 && VolumeOf(m.inodes, s) == AddNode(v, d, name, child, isDir)
                 && Entered(m0, m, if isDir then NODE_DIR else NODE_FILE, d, child))
    ensures CreateOutcome(m0, s0, m, s, path, isDir, ok, child)
  {
    if ok {
      CreatedSound(m0, s0, m, s, path, isDir, child);
    }
  }

  lemma AbsentInTree(v: Volume, path: seq<byte>)
    requires IsTree(v) && NUL !in path && Resolved(v, path).None? && Target(v, path).Some?
    ensures Absent(v, path)
    ensures var (d, name) := Target(v, path).value;
      v[d].Dir? && ValidName(name) && Lookup(v[d], name).None?
  {
    var n :| Tree(v, n);
    AbsentTarget(v, n, path);
  }

  /** What fs_mkdir needs of a path, in terms of plain walks: every proper prefix leads to a directory, the last
      component is a name that the directory above does not have, and there is an inode and room for a
      record. */
  ghost predicate Makeable(m: Meta, v: Volume, path: seq<byte>)
    requires WellSized(m)
  {
    && Tokens(path).Some? && Tokens(path).value != []
    && var components := Tokens(path).value;
       var above, name := components[..|components| - 1], components[|components| - 1];
    && (forall k :: 0 <= k <= |above| ==> DirectoryAt(v, 0, above[..k]))
    && DirectoryAt(v, 0, above) && Walk(v, 0, above).value < MAX_INODES
    && var d := Walk(v, 0, above).value;
    && name != [0x2E, 0x2E] && (forall r :: 0 <= r < |v[d].records| ==> NameOf(v[d].records[r]) != name)
    && HasFreeInode(m) && Room(m.inodes[d], m.blockBitmap)
  }

  lemma MakeableIff(m: Meta, s: Sectors, path: seq<byte>)
    requires Sound(m, s) && NUL !in path
    ensures var v := VolumeOf(m.inodes, s);
      Makeable(m, v, path) <==>
        Absent(v, path) && HasFreeInode(m) && Room(m.inodes[Target(v, path).value.0], m.blockBitmap)
  {
    var v := VolumeOf(m.inodes, s);
    var n :| Tree(v, n);
    if Tokens(path).Some? && Tokens(path).value != [] {
      var components := Tokens(path).value;
      var above, name := components[..|components| - 1], components[|components| - 1];
      assert above[..|above|] == above && components == above + [name];
      if Target(v, path).Some? {
        TargetMeaning(v, n, path, Target(v, path).value.0, Target(v, path).value.1);
      }
      if DirectoryAt(v, 0, above) {
        var d := Walk(v, 0, above).value;
        TargetMeaning(v, n, path, d, name);
        WalkBehind(v, 0, above, name);
        if Target(v, path).Some? {
          AbsentTarget(v, n, path);
          TokensAreNames(path);
          assert name in components;
          FindRecordSound(v[d].records, name);
        }
      }
    }
  }

  lemma MadeExactly(m0: Meta, s0: Sectors, m: Meta, s: Sectors, path: seq<byte>, isDir: bool, ok: bool, child: nat)
    requires Sound(m0, s0) && WellSized(m) && NUL !in path && CreateOutcome(m0, s0, m, s, path, isDir, ok, child)
    ensures var v := VolumeOf(m0.inodes, s0);
      ok <==> Makeable(m0, v, path) || (!isDir && FileAt(v, path))
  {
    MakeableIff(m0, s0, path);
  }

  // What later calls keep ----------------------------------------------------------------------------

  ghost predicate SameSort(a: Node, b: Node) {
    (a.Dir? ==> b.Dir?) && (a.File? ==> b.File?)
  }

  /** Every path that resolves in `v` names the same node in `w`, a directory or a file still. */
  ghost predicate Extends(v: Volume, w: Volume) {
    forall q {:trigger Resolved(v, q)} :: Resolved(v, q).Some? ==>
      Resolved(w, q) == Resolved(v, q) && SameSort(v[Resolved(v, q).value], w[Resolved(v, q).value])
  }

  lemma ExtendsTransitive(u: Volume, v: Volume, w: Volume)
    requires Extends(u, v) && Extends(v, w)
    ensures Extends(u, w)
  {
    forall q | Resolved(u, q).Some?
      ensures Resolved(w, q) == Resolved(u, q) && SameSort(u[Resolved(u, q).value], w[Resolved(u, q).value])
    {
      assert Resolved(v, q).Some?;
    }
  }

  /** No file has a hole. */
  ghost predicate NoHoles(v: Volume) {
    forall i {:trigger v[i]} :: 0 <= i < |v| && v[i].File? ==> Dense(v[i].contents)
  }

  lemma CreateExtendsVolume(m0: Meta, s0: Sectors, m: Meta, s: Sectors, path: seq<byte>, isDir: bool, ok: bool, child: nat)
    requires WellSized(m0) && WellSized(m) && CreateOutcome(m0, s0, m, s, path, isDir, ok, child)
    ensures Extends(VolumeOf(m0.inodes, s0), VolumeOf(m.inodes, s))
    ensures NoHoles(VolumeOf(m0.inodes, s0)) ==> NoHoles(VolumeOf(m.inodes, s))
  {
    var v, w := VolumeOf(m0.inodes, s0), VolumeOf(m.inodes, s);
    if ok && Absent(v, path) {
      AddedIsFree(v, child);
      AddNodeExtends(v, w, Target(v, path).value.0, Target(v, path).value.1, child, isDir);
    }
  }

  lemma AddedIsFree(v: Volume, n: nat)
    requires Tree(v, n) && n < |v|
    ensures v[n].Free?
  {
  }

  lemma AddNodeExtends(v: Volume, w: Volume, d: nat, name: Name, child: nat, isDir: bool)
    requires d < |v| && v[d].Dir? && child < |v| && v[child].Free? && |name| < NAME_MAX
    requires w == AddNode(v, d, name, child, isDir)
    requires forall q :: Resolved(v, q).Some? ==> Resolved(w, q) == Resolved(v, q)
    ensures Extends(v, w) && (NoHoles(v) ==> NoHoles(w))
  {
    forall i | 0 <= i < |v| ensures SameSort(v[i], w[i]) {
    }
    if NoHoles(v) {
      forall i | 0 <= i < |v| && w[i].File? ensures Dense(w[i].contents) {
        assert i != child ==> w[i] == v[i];
      }
    }
  }

  /** A write keeps files free of holes unless it truncates and starts at 512 or later. */
  lemma WrittenDense(base: Contents, offset: nat, data: seq<byte>, truncate: bool)
    requires Dense(base) && (truncate || offset <= |base|) && (truncate ==> offset < SECTOR_SIZE)
    ensures Dense(Result(if truncate then [] else base, offset, data))
    ensures Dense(Overwritten(if truncate then [] else base, offset, data))
  {
    if truncate {
      if data != [] {
        TruncatingWriteDense(offset, data);
      }
    } else {
      WriteIsSplice(base, offset, data);
    }
  }

  lemma WriteExtendsVolume(m0: Meta, s0: Sectors, m: Meta, s: Sectors, i: nat, offset: nat, data: seq<byte>,
                           truncate: bool, ok: bool, done: nat)
    requires WellSized(m0) && WellSized(m) && WriteOutcome(m0, s0, m, s, i, offset, data, truncate, ok, done, true)
    ensures Extends(VolumeOf(m0.inodes, s0), VolumeOf(m.inodes, s))
    ensures NoHoles(VolumeOf(m0.inodes, s0)) && (truncate ==> offset < SECTOR_SIZE) ==> NoHoles(VolumeOf(m.inodes, s))
  {
    var v, w := VolumeOf(m0.inodes, s0), VolumeOf(m.inodes, s);
    if Admissible(v[i], offset, data, truncate) {
      WriteKeepsTree(v, w, i);
      if NoHoles(v) && (truncate ==> offset < SECTOR_SIZE) {
        WrittenDense(v[i].contents, offset, data, truncate);
        if !ok {
          WrittenDense(v[i].contents, offset, data[..done], truncate);
        }
        forall j | 0 <= j < |w| && w[j].File? ensures Dense(w[j].contents) {
          assert j != i ==> w[j] == v[j];
        }
      }
    }
  }
}
