/** What a LuxFS volume means: a tree of directories and files, path resolution over it, and
    what creating a node does to the namespace. The class LuxFs is proved to implement the
    operations on these values. */
module LuxVolume {
  import opened Wrappers
  import opened Bytes
  import opened LuxFormat

  type Name = seq<byte>

  const DOTDOT: Name := [0x2E, 0x2E]

  // A file's bytes; None is a byte of a block that was never allocated.
  type Contents = seq<Option<byte>>

  datatype Node =
    | Free
    | Dir(parent: nat, records: seq<Record>)
    | File(parent: nat, contents: Contents)

  type Volume = v: seq<Node> | |v| == MAX_INODES witness seq(MAX_INODES, _ => Free)

  function ParentOf(n: Node): nat {
    match n
    case Free => 0
    case Dir(parent, _) => parent
    case File(parent, _) => parent
  }

  function NameOf(r: Record): Name {
    CString(r.name)
  }

  /** The inode of the first record with this name. */
  function FindRecord(records: seq<Record>, name: Name): Option<nat> {
    if records == [] then None
    else if NameOf(records[0]) == name then Some(records[0].inode)
    else FindRecord(records[1..], name)
  }

  function Lookup(n: Node, name: Name): Option<nat> {
    match n
    case Dir(_, records) => FindRecord(records, name)
    case _ => None
  }

  /** luxfs_resolve: `..` goes to the parent of any node, a name to the record's inode. */
  function Walk(v: Volume, at: nat, path: seq<Name>): (r: Option<nat>)
    ensures r.Some? ==> r.value < |v|
    decreases |path|
  {
    if at >= |v| then None
    else if path == [] then Some(at)
    else if path[0] == DOTDOT then Walk(v, ParentOf(v[at]), path[1..])
    else
      match Lookup(v[at], path[0])
      case None => None
      case Some(child) => Walk(v, child, path[1..])
  }

  /** luxfs_resolve_parent's walk: every name must lead to a directory. */
  function WalkDirs(v: Volume, at: nat, path: seq<Name>): Option<nat>
    decreases |path|
  {
    if at >= |v| then None
    else if path == [] then Some(at)
    else if path[0] == DOTDOT then WalkDirs(v, ParentOf(v[at]), path[1..])
    else
      match Lookup(v[at], path[0])
      case None => None
      case Some(child) => if child < |v| && v[child].Dir? then WalkDirs(v, child, path[1..]) else None
  }

  lemma {:induction false} FindRecordAt(records: seq<Record>, name: Name, k: nat)
    requires k < |records| && NameOf(records[k]) == name
    requires forall j :: 0 <= j < k ==> NameOf(records[j]) != name
    ensures FindRecord(records, name) == Some(records[k].inode)
  {
    if k == 0 {
    } else {
      FindRecordAt(records[1..], name, k - 1);
    }
  }

  /** A lookup fails exactly when no record has the name, and finds a record that has it. */
  lemma {:induction false} FindRecordSound(records: seq<Record>, name: Name)
    ensures FindRecord(records, name).None? <==> forall j :: 0 <= j < |records| ==> NameOf(records[j]) != name
    ensures FindRecord(records, name).Some? ==>
              exists j :: 0 <= j < |records| && NameOf(records[j]) == name
                          && records[j].inode == FindRecord(records, name).value
  {
    if records == [] {
    } else {
      FindRecordSound(records[1..], name);
      if NameOf(records[0]) != name {
        assert forall j :: 0 < j < |records| ==> records[j] == records[1..][j - 1];
        assert forall j :: 0 <= j < |records| - 1 ==> records[1..][j] == records[j + 1];
      }
    }
  }

  lemma {:induction false} FindRecordAppend(records: seq<Record>, r: Record, name: Name)
    ensures FindRecord(records + [r], name) ==
            if FindRecord(records, name).Some? then FindRecord(records, name)
            else if NameOf(r) == name then Some(r.inode) else None
  {
    if records == [] {
      assert ([r])[1..] == [];
      assert records + [r] == [r];
    } else {
      assert (records + [r])[1..] == records[1..] + [r];
      FindRecordAppend(records[1..], r, name);
    }
  }

  /** Walking a concatenation is walking the first part and then the second. */
  lemma {:induction false} WalkConcat(v: Volume, at: nat, a: seq<Name>, b: seq<Name>)
    ensures Walk(v, at, a + b) ==
            match Walk(v, at, a) { case None => None case Some(mid) => Walk(v, mid, b) }
    decreases |a|
  {
    if at >= |v| {
    } else if a == [] {
      assert a + b == b;
    } else {
      assert (a + b)[0] == a[0] && (a + b)[1..] == a[1..] + b;
      if a[0] == DOTDOT {
        WalkConcat(v, ParentOf(v[at]), a[1..], b);
      } else if Lookup(v[at], a[0]).Some? {
        WalkConcat(v, Lookup(v[at], a[0]).value, a[1..], b);
      }
    }
  }

  lemma {:induction false} WalkDirsIsWalk(v: Volume, at: nat, path: seq<Name>)
    requires WalkDirs(v, at, path).Some?
    ensures Walk(v, at, path) == WalkDirs(v, at, path)
    decreases |path|
  {
    if path == [] {
    } else if path[0] == DOTDOT {
      WalkDirsIsWalk(v, ParentOf(v[at]), path[1..]);
    } else {
      WalkDirsIsWalk(v, Lookup(v[at], path[0]).value, path[1..]);
    }
  }

  /** The path leads to a directory. */
  predicate DirectoryAt(v: Volume, at: nat, path: seq<Name>) {
    Walk(v, at, path).Some? && v[Walk(v, at, path).value].Dir?
  }

  /** The walk of luxfs_resolve_parent ends where the plain walk does, exactly if every name on the way leads to
      a directory; a step up need not. */
  lemma {:induction false} WalkDirsMeaning(v: Volume, at: nat, path: seq<Name>, d: nat)
    requires at < |v|
    ensures WalkDirs(v, at, path) == Some(d) <==>
              && Walk(v, at, path) == Some(d)
              && forall k :: 0 <= k < |path| && path[k] != DOTDOT ==> DirectoryAt(v, at, path[..k + 1])
    decreases |path|
  {
    if path != [] && (path[0] == DOTDOT || Lookup(v[at], path[0]).Some?) {
      var next := if path[0] == DOTDOT then ParentOf(v[at]) else Lookup(v[at], path[0]).value;
      if next < |v| {
        var rest := path[1..];
        WalkDirsMeaning(v, next, rest, d);
        forall k | 0 <= k < |path| ensures Walk(v, at, path[..k + 1]) == Walk(v, next, rest[..k]) {
          WalkStep(v, at, path, k + 1, next);
        }
        assert rest[..0] == [];
        assert forall k :: 0 <= k < |rest| ==> rest[k] == path[k + 1];
        assert path[0] != DOTDOT ==> (DirectoryAt(v, at, path[..1]) <==> v[next].Dir?);
        FirstAndRest(v, at, next, path);
      }
    }
  }

  lemma FirstAndRest(v: Volume, at: nat, next: nat, path: seq<Name>)
    requires path != []
    requires forall k :: 0 <= k < |path| ==> Walk(v, at, path[..k + 1]) == Walk(v, next, path[1..][..k])
    ensures (forall k :: 0 <= k < |path| && path[k] != DOTDOT ==> DirectoryAt(v, at, path[..k + 1])) <==>
              && (path[0] != DOTDOT ==> DirectoryAt(v, at, path[..1]))
              && forall k :: 0 <= k < |path[1..]| && path[1..][k] != DOTDOT ==> DirectoryAt(v, next, path[1..][..k + 1])
  {
    var rest := path[1..];
    forall k | 1 <= k < |path|
      ensures path[k] == rest[k - 1] && (DirectoryAt(v, at, path[..k + 1]) <==> DirectoryAt(v, next, rest[..k - 1 + 1]))
    {
    }
    if forall k :: 0 <= k < |path| && path[k] != DOTDOT ==> DirectoryAt(v, at, path[..k + 1]) {
      forall k | 0 <= k < |rest| && rest[k] != DOTDOT ensures DirectoryAt(v, next, rest[..k + 1]) {
        assert path[k + 1] == rest[k] && DirectoryAt(v, at, path[..k + 1 + 1]);
      }
    }
  }

  /** One step of a walk behind another: `..` leads to the parent of whatever was reached, a name to the inode
      of the first record of that name. */
  lemma WalkBehind(v: Volume, at: nat, path: seq<Name>, name: Name)
    requires Walk(v, at, path).Some?
    ensures var node := v[Walk(v, at, path).value];
      && (name == [0x2E, 0x2E] ==>
            Walk(v, at, path + [name]) == if ParentOf(node) < |v| then Some(ParentOf(node)) else None)
      && (name != [0x2E, 0x2E] && !node.Dir? ==> Walk(v, at, path + [name]).None?)
      && (name != [0x2E, 0x2E] && node.Dir? ==>
            Walk(v, at, path + [name]) ==
              match FindRecord(node.records, name)
              case None => None
              case Some(child) => if child < |v| then Some(child) else None)
  {
    WalkConcat(v, at, path, [name]);
    assert [name][1..] == [];
  }

  // The tree ------------------------------------------------------------------------------

  predicate ValidName(name: Name) {
    && 0 < |name| < NAME_MAX
    && NUL !in name
    && 0x2F !in name
    && name != [0x2E]
    && name != DOTDOT
  }

  predicate ValidRecord(r: Record) {
    ValidName(NameOf(r)) && r.name == NameField(NameOf(r))
  }

  ghost predicate HasRecord(n: Node, child: nat) {
    n.Dir? && exists r :: 0 <= r < |n.records| && n.records[r].inode == child
  }

  ghost predicate GoodRecord(v: Volume, d: nat, r: Record) {
    && ValidRecord(r)
    && 0 < r.inode < |v|
    && !v[r.inode].Free?
    && ParentOf(v[r.inode]) == d
  }

  ghost predicate DistinctRecords(rs: seq<Record>) {
    forall r, s :: 0 <= r < s < |rs| ==> rs[r].inode != rs[s].inode && NameOf(rs[r]) != NameOf(rs[s])
  }

  /** The records of directory `d` have distinct names and distinct nodes whose parent it is. */
  ghost predicate GoodDirectory(v: Volume, d: nat)
    requires d < |v| && v[d].Dir?
  {
    && (forall r :: 0 <= r < |v[d].records| ==> GoodRecord(v, d, v[d].records[r]))
    && DistinctRecords(v[d].records)
  }

  /** The directory graph is a tree rooted at inode 0 whose nodes are inodes 0 .. n-1. */
  ghost predicate Tree(v: Volume, n: nat) {
    && 0 < n <= |v|
    && v[0].Dir? && ParentOf(v[0]) == 0
    && (forall i :: 0 <= i < |v| ==> (v[i].Free? <==> n <= i))
    && (forall i :: 0 < i < n ==> ParentOf(v[i]) < i && HasRecord(v[ParentOf(v[i])], i))
    && (forall d :: 0 <= d < n && v[d].Dir? ==> GoodDirectory(v, d))
  }

  /** Every node but the root appears in exactly one record of the whole volume, and that
      record lies in the directory its parent field names. */
  lemma OneRecordEach(v: Volume, n: nat, i: nat, d: nat, r: nat, e: nat, s: nat)
    requires Tree(v, n) && 0 < i < n
    requires d < n && v[d].Dir? && r < |v[d].records| && v[d].records[r].inode == i
    requires e < n && v[e].Dir? && s < |v[e].records| && v[e].records[s].inode == i
    ensures d == e == ParentOf(v[i]) && r == s
  {
    assert GoodDirectory(v, d) && GoodDirectory(v, e);
  }

  ghost function RecordOf(v: Volume, n: nat, i: nat): (r: nat)
    requires Tree(v, n) && 0 < i < n
    ensures v[ParentOf(v[i])].Dir? && r < |v[ParentOf(v[i])].records|
    ensures v[ParentOf(v[i])].records[r].inode == i
  {
    var d := ParentOf(v[i]);
    assert HasRecord(v[d], i);
    var r :| 0 <= r < |v[d].records| && v[d].records[r].inode == i;
    r
  }

  /** The names on the way from the root down to node `i`. */
  ghost function PathTo(v: Volume, n: nat, i: nat): seq<Name>
    requires Tree(v, n) && i < n
    decreases i
  {
    if i == 0 then []
    else PathTo(v, n, ParentOf(v[i])) + [NameOf(v[ParentOf(v[i])].records[RecordOf(v, n, i)])]
  }

  /** Every node is reachable: following parents to the root spells a path that resolves
      back to the node. */
  lemma {:induction false} PathToResolves(v: Volume, n: nat, i: nat)
    requires Tree(v, n) && i < n
    ensures Walk(v, 0, PathTo(v, n, i)) == Some(i)
    decreases i
  {
    if i == 0 {
    } else {
      var d := ParentOf(v[i]);
      var r := RecordOf(v, n, i);
      var name := NameOf(v[d].records[r]);
      PathToResolves(v, n, d);
      assert GoodDirectory(v, d);
      FindRecordAt(v[d].records, name, r);
      WalkConcat(v, 0, PathTo(v, n, d), [name]);
      assert Walk(v, d, [name]) == Walk(v, i, []);
    }
  }

  /** In a tree, a resolved path always ends at an allocated node. */
  lemma {:induction false} WalkStaysInTree(v: Volume, n: nat, at: nat, path: seq<Name>)
    requires Tree(v, n) && at < n
    ensures Walk(v, at, path).Some? ==> Walk(v, at, path).value < n
    decreases |path|
  {
    if path == [] {
    } else if path[0] == DOTDOT {
      WalkStaysInTree(v, n, ParentOf(v[at]), path[1..]);
    } else if Lookup(v[at], path[0]).Some? {
      assert GoodDirectory(v, at);
      FindRecordSound(v[at].records, path[0]);
      WalkStaysInTree(v, n, Lookup(v[at], path[0]).value, path[1..]);
    }
  }

  // Creating a node -------------------------------------------------------------------------

  function WithRecord(n: Node, rec: Record): Node
    requires n.Dir?
  {
    Dir(n.parent, n.records + [rec])
  }

  /** Node `child` is new in directory `d` under `name`. */
  function AddNode(v: Volume, d: nat, name: Name, child: nat, isDir: bool): Volume
    requires d < |v| && v[d].Dir? && child < |v| && d != child && |name| < NAME_MAX
  {
    var node := if isDir then Dir(d, []) else File(d, []);
    v[child := node][d := WithRecord(v[d], Record(child, NameField(name)))]
  }

  /** A new node is empty and of the kind asked for, its record is the last in the directory, and nothing else
      changes. */
  lemma AddedNode(v: Volume, d: nat, name: Name, child: nat, isDir: bool)
    requires d < |v| && v[d].Dir? && child < |v| && d != child && |name| < NAME_MAX
    ensures var w := AddNode(v, d, name, child, isDir);
      && w[child] == (if isDir then Dir(d, []) else File(d, []))
      && w[d] == Dir(v[d].parent, v[d].records + [Record(child, name + Zeros(32 - |name|))])
      && forall i :: 0 <= i < |v| && i != d && i != child ==> w[i] == v[i]
  {
  }

  predicate CanAdd(v: Volume, n: nat, d: nat, name: Name) {
    && d < n < |v| && v[d].Dir?
    && ValidName(name)
    && FindRecord(v[d].records, name).None?
  }

  lemma NewRecordIsValid(child: nat, name: Name)
    requires child < MAX_INODES && ValidName(name)
    ensures ValidRecord(Record(child, NameField(name))) && NameOf(Record(child, NameField(name))) == name
  {
    NameFieldRoundTrip(name);
  }

  lemma DistinctAppend(rs: seq<Record>, rec: Record)
    requires DistinctRecords(rs)
    requires forall j :: 0 <= j < |rs| ==> rs[j].inode != rec.inode && NameOf(rs[j]) != NameOf(rec)
    ensures DistinctRecords(rs + [rec])
  {
  }

  lemma OldRecordGood(v: Volume, n: nat, d: nat, name: Name, isDir: bool, e: nat, r: Record)
    requires Tree(v, n) && CanAdd(v, n, d, name) && e < n && GoodRecord(v, e, r)
    ensures GoodRecord(AddNode(v, d, name, n, isDir), e, r) && r.inode < n
  {
    assert !v[r.inode].Free?;
    assert ParentOf(AddNode(v, d, name, n, isDir)[r.inode]) == ParentOf(v[r.inode]);
  }

  lemma NewRecordGood(v: Volume, n: nat, d: nat, name: Name, isDir: bool)
    requires Tree(v, n) && CanAdd(v, n, d, name)
    ensures GoodRecord(AddNode(v, d, name, n, isDir), d, Record(n, NameField(name)))
  {
    NewRecordIsValid(n, name);
  }

  lemma AddedDirectoryIsGood(v: Volume, n: nat, d: nat, name: Name, isDir: bool)
    requires Tree(v, n) && CanAdd(v, n, d, name)
    ensures GoodDirectory(AddNode(v, d, name, n, isDir), d)
  {
    var w := AddNode(v, d, name, n, isDir);
    var rs, rec: Record := v[d].records, Record(n, NameField(name));
    assert GoodDirectory(v, d);
    forall r | 0 <= r < |rs| ensures GoodRecord(w, d, rs[r]) && rs[r].inode < n {
      OldRecordGood(v, n, d, name, isDir, d, rs[r]);
    }
    NewRecordGood(v, n, d, name, isDir);
    FreshName(rs, rec, n, name);
    assert w[d].records == rs + [rec];
  }

  lemma FreshName(rs: seq<Record>, rec: Record, n: nat, name: Name)
    requires n < MAX_INODES && ValidName(name) && rec == Record(n, NameField(name))
    requires DistinctRecords(rs) && FindRecord(rs, name).None?
    requires forall r :: 0 <= r < |rs| ==> rs[r].inode < n
    ensures DistinctRecords(rs + [rec])
  {
    NewRecordIsValid(n, name);
    FindRecordSound(rs, name);
    DistinctAppend(rs, rec);
  }

  lemma RecordKept(v: Volume, n: nat, d: nat, name: Name, isDir: bool, i: nat)
    requires Tree(v, n) && CanAdd(v, n, d, name) && 0 < i <= n
    ensures var w := AddNode(v, d, name, n, isDir);
      ParentOf(w[i]) < i && HasRecord(w[ParentOf(w[i])], i)
  {
    var w := AddNode(v, d, name, n, isDir);
    if i == n {
      assert w[d].records[|v[d].records|].inode == n;
    } else {
      var p := ParentOf(v[i]);
      var r := RecordOf(v, n, i);
      assert w[p].Dir? && w[p].records[r].inode == i;
    }
  }

  lemma OtherDirectoryKept(v: Volume, n: nat, d: nat, name: Name, isDir: bool, e: nat)
    requires Tree(v, n) && CanAdd(v, n, d, name) && e < n && e != d && v[e].Dir?
    ensures GoodDirectory(AddNode(v, d, name, n, isDir), e)
  {
    var w := AddNode(v, d, name, n, isDir);
    assert GoodDirectory(v, e) && w[e] == v[e];
    forall r | 0 <= r < |v[e].records| ensures GoodRecord(w, e, v[e].records[r]) {
      OldRecordGood(v, n, d, name, isDir, e, v[e].records[r]);
    }
  }

  /** Adding a node under a fresh name keeps the tree. */
  lemma AddNodeKeepsTree(v: Volume, n: nat, d: nat, name: Name, isDir: bool)
    requires Tree(v, n) && CanAdd(v, n, d, name)
    ensures Tree(AddNode(v, d, name, n, isDir), n + 1)
  {
    RecordsKept(v, n, d, name, isDir);
    DirectoriesKept(v, n, d, name, isDir);
  }

  lemma RecordsKept(v: Volume, n: nat, d: nat, name: Name, isDir: bool)
    requires Tree(v, n) && CanAdd(v, n, d, name)
    ensures var w := AddNode(v, d, name, n, isDir);
      forall i :: 0 < i < n + 1 ==> ParentOf(w[i]) < i && HasRecord(w[ParentOf(w[i])], i)
  {
    var w := AddNode(v, d, name, n, isDir);
    forall i | 0 < i < n + 1 ensures ParentOf(w[i]) < i && HasRecord(w[ParentOf(w[i])], i) {
      RecordKept(v, n, d, name, isDir, i);
    }
  }

  lemma DirectoriesKept(v: Volume, n: nat, d: nat, name: Name, isDir: bool)
    requires Tree(v, n) && CanAdd(v, n, d, name)
    ensures var w := AddNode(v, d, name, n, isDir);
      forall e :: 0 <= e < n + 1 && w[e].Dir? ==> GoodDirectory(w, e)
  {
    var w := AddNode(v, d, name, n, isDir);
    forall e | 0 <= e < n + 1 && w[e].Dir? ensures GoodDirectory(w, e) {
      if e == d {
        AddedDirectoryIsGood(v, n, d, name, isDir);
      } else if e < n {
        OtherDirectoryKept(v, n, d, name, isDir, e);
      }
    }
  }

  lemma LookupInTree(v: Volume, n: nat, at: nat, name: Name)
    requires Tree(v, n) && at < n
    ensures ParentOf(v[at]) < n
    ensures Lookup(v[at], name).Some? ==> 0 < Lookup(v[at], name).value < n
  {
    if Lookup(v[at], name).Some? {
      assert GoodDirectory(v, at);
      FindRecordSound(v[at].records, name);
    }
  }

  lemma LookupAfterAdd(v: Volume, n: nat, d: nat, name: Name, isDir: bool, at: nat, x: Name)
    requires Tree(v, n) && CanAdd(v, n, d, name) && at < n
    ensures var w := AddNode(v, d, name, n, isDir);
      && ParentOf(w[at]) == ParentOf(v[at])
      && Lookup(w[at], x) == if at == d && x == name then Some(n) else Lookup(v[at], x)
  {
    if at == d {
      NewRecordIsValid(n, name);
      FindRecordAppend(v[d].records, Record(n, NameField(name)), x);
    }
  }

  /** Every path that resolved still resolves to the same node. */
  lemma {:induction false} OldPathsKept(v: Volume, n: nat, d: nat, name: Name, isDir: bool, at: nat, path: seq<Name>)
    requires Tree(v, n) && CanAdd(v, n, d, name) && at < n
    requires Walk(v, at, path).Some?
    ensures Walk(AddNode(v, d, name, n, isDir), at, path) == Walk(v, at, path)
    decreases |path|
  {
    if path != [] {
      LookupInTree(v, n, at, path[0]);
      LookupAfterAdd(v, n, d, name, isDir, at, path[0]);
      var next := if path[0] == DOTDOT then ParentOf(v[at]) else Lookup(v[at], path[0]).value;
      OldPathsKept(v, n, d, name, isDir, next, path[1..]);
    }
  }

  /** The new name resolves to the new node. */
  lemma NewPathResolves(v: Volume, n: nat, d: nat, name: Name, isDir: bool, at: nat, prefix: seq<Name>)
    requires Tree(v, n) && CanAdd(v, n, d, name) && at < n
    requires Walk(v, at, prefix) == Some(d)
    ensures Walk(AddNode(v, d, name, n, isDir), at, prefix + [name]) == Some(n)
  {
    var w := AddNode(v, d, name, n, isDir);
    OldPathsKept(v, n, d, name, isDir, at, prefix);
    WalkConcat(w, at, prefix, [name]);
    LookupAfterAdd(v, n, d, name, isDir, d, name);
    assert Walk(w, d, [name]) == Walk(w, n, []);
  }

  lemma WalkStep(v: Volume, at: nat, path: seq<Name>, k: nat, next: nat)
    requires at < |v| && 0 < k <= |path|
    requires if path[0] == DOTDOT then next == ParentOf(v[at]) else Lookup(v[at], path[0]) == Some(next)
    ensures Walk(v, at, path[..k]) == Walk(v, next, path[1..][..k - 1])
  {
    assert path[..k][1..] == path[1..][..k - 1] && path[..k][0] == path[0];
  }

  /** A path that newly resolves goes through the new record: some prefix of it reaches the
      directory and the next component is the new name. Returns that prefix's length. */
  lemma {:induction false} NewPathsUseNewRecord(
      v: Volume, n: nat, d: nat, name: Name, isDir: bool, at: nat, path: seq<Name>)
    returns (k: nat)
    requires Tree(v, n) && CanAdd(v, n, d, name) && at < n
    requires Walk(v, at, path).None? && Walk(AddNode(v, d, name, n, isDir), at, path).Some?
    ensures k < |path| && path[k] == name && Walk(v, at, path[..k]) == Some(d)
    decreases |path|
  {
    LookupInTree(v, n, at, path[0]);
    LookupAfterAdd(v, n, d, name, isDir, at, path[0]);
    if path[0] != DOTDOT && Lookup(v[at], path[0]).None? {
      k := 0;
    } else {
      var next := if path[0] == DOTDOT then ParentOf(v[at]) else Lookup(v[at], path[0]).value;
      assert next < n && Walk(v, at, path) == Walk(v, next, path[1..]);
      assert Walk(AddNode(v, d, name, n, isDir), at, path) == Walk(AddNode(v, d, name, n, isDir), next, path[1..]);
      var j := NewPathsUseNewRecord(v, n, d, name, isDir, next, path[1..]);
      k := j + 1;
      WalkStep(v, at, path, k, next);
    }
  }

  /** Changing a file's bytes changes no path. */
  lemma {:induction false} WalkIgnoresContents(v: Volume, f: nat, contents: Contents, at: nat, path: seq<Name>)
    requires f < |v| && v[f].File?
    ensures Walk(v[f := File(v[f].parent, contents)], at, path) == Walk(v, at, path)
    decreases |path|
  {
    var w: Volume := v[f := File(v[f].parent, contents)];
    if at < |v| && path != [] {
      if path[0] == DOTDOT {
        WalkIgnoresContents(v, f, contents, ParentOf(v[at]), path[1..]);
      } else if Lookup(v[at], path[0]).Some? {
        WalkIgnoresContents(v, f, contents, Lookup(v[at], path[0]).value, path[1..]);
      }
    }
  }

  // File contents -----------------------------------------------------------------------------

  function Max(a: nat, b: nat): nat {
    if a < b then b else a
  }

  /** Block `k` holds one of the `count` > 0 bytes from `offset` on. */
  predicate Touched(offset: nat, count: nat, k: nat) {
    count > 0 && offset / SECTOR_SIZE <= k <= (offset + count - 1) / SECTOR_SIZE
  }

  /** The number of blocks that `count` bytes at `offset` reach into: a read
      transfers each once and a write twice. */
  function BlocksTouched(offset: nat, count: nat): nat {
    if count == 0 then 0 else (offset + count - 1) / SECTOR_SIZE - offset / SECTOR_SIZE + 1
  }

  /** The bytes laid so far end with a block. */
  predicate AtBlockEnd(offset: nat, done: nat, count: nat) {
    done == 0 || (offset + done) % SECTOR_SIZE == 0 || done == count
  }

  lemma OneMoreBlock(offset: nat, done: nat, chunk: nat, count: nat)
    requires done < count && AtBlockEnd(offset, done, count)
    requires chunk == ChunkAt(offset + done, count - done)
    ensures BlocksTouched(offset, done + chunk) == BlocksTouched(offset, done) + 1
    ensures AtBlockEnd(offset, done + chunk, count)
  {
    var here := offset + done;
    SameBlock(here, chunk);
    if done > 0 {
      BlockBefore(here);
    }
    if chunk < count - done {
      EndOfBlock(here);
    }
  }

  lemma SameBlock(here: nat, chunk: nat)
    requires 0 < chunk && here % SECTOR_SIZE + chunk <= SECTOR_SIZE
    ensures (here + chunk - 1) / SECTOR_SIZE == here / SECTOR_SIZE
  {
  }

  lemma BlockBefore(here: nat)
    requires here > 0 && here % SECTOR_SIZE == 0
    ensures (here - 1) / SECTOR_SIZE == here / SECTOR_SIZE - 1
  {
  }

  lemma EndOfBlock(here: nat)
    ensures (here + (SECTOR_SIZE - here % SECTOR_SIZE)) % SECTOR_SIZE == 0
  {
  }

  /** How many bytes fit the block at `here`. */
  function ChunkAt(here: nat, remaining: nat): nat {
    if remaining < SECTOR_SIZE - here % SECTOR_SIZE then remaining else SECTOR_SIZE - here % SECTOR_SIZE
  }

  lemma MoreBlocks(offset: nat, a: nat, b: nat)
    requires a <= b
    ensures BlocksTouched(offset, a) <= BlocksTouched(offset, b)
  {
  }

  /** fs_write of a non-empty buffer: the old bytes with `data` spliced in at `offset`; the
      rest of a hole in a block that the write allocates reads as zeros. */
  function Written(base: Contents, offset: nat, data: seq<byte>): Contents {
    seq(Max(|base|, offset + |data|), (p: nat) =>
      if offset <= p < offset + |data| then Some(data[p - offset])
      else if p < |base| && base[p].Some? then base[p]
      else if Touched(offset, |data|, p / SECTOR_SIZE) then Some(NUL)
      else None)
  }

  /** The bytes from `offset` on up to the first hole, at most `count`. */
  function ReadRun(c: Contents, offset: nat, count: nat): seq<byte>
    decreases count
  {
    if count == 0 || offset >= |c| || c[offset].None? then []
    else [c[offset].value] + ReadRun(c, offset + 1, count - 1)
  }

  lemma {:induction false} ReadRunAtMost(c: Contents, offset: nat, count: nat)
    ensures |ReadRun(c, offset, count)| <= count
    decreases count
  {
    if !(count == 0 || offset >= |c| || c[offset].None?) {
      ReadRunAtMost(c, offset + 1, count - 1);
    }
  }

  lemma {:induction false} ReadRunLimit(c: Contents, offset: nat, count: nat)
    requires offset <= |c| && offset + count > |c|
    ensures ReadRun(c, offset, count) == ReadRun(c, offset, |c| - offset)
    decreases count
  {
    if offset < |c| && c[offset].Some? {
      ReadRunLimit(c, offset + 1, count - 1);
    }
  }

  lemma {:induction false} ReadRunSplit(c: Contents, offset: nat, count: nat, piece: seq<byte>)
    requires |piece| <= count && offset + |piece| <= |c|
    requires forall t :: 0 <= t < |piece| ==> c[offset + t] == Some(piece[t])
    ensures ReadRun(c, offset, count) == piece + ReadRun(c, offset + |piece|, count - |piece|)
    decreases count
  {
    if piece != [] {
      assert c[offset + 0] == Some(piece[0]);
      forall t | 0 <= t < |piece[1..]| ensures c[offset + 1 + t] == Some(piece[1..][t]) {
        assert c[offset + (t + 1)] == Some(piece[t + 1]);
      }
      ReadRunSplit(c, offset + 1, count - 1, piece[1..]);
    }
  }

  function Stored(data: seq<byte>): (c: Contents)
    ensures |c| == |data|
  {
    seq(|data|, i requires 0 <= i < |data| => Some(data[i]))
  }

  predicate Dense(c: Contents) {
    forall p :: 0 <= p < |c| ==> c[p].Some?
  }

  function Data(c: Contents): (data: seq<byte>)
    requires Dense(c)
    ensures |data| == |c|
  {
    seq(|c|, i requires 0 <= i < |c| => c[i].value)
  }

  /** On a file without holes, reading is slicing. */
  lemma {:induction false} ReadIsSlice(c: Contents, offset: nat, count: nat)
    requires Dense(c) && offset <= |c|
    ensures ReadRun(c, offset, count) ==
            if offset + count <= |c| then Data(c)[offset..offset + count] else Data(c)[offset..]
    decreases count
  {
    if count == 0 || offset == |c| {
    } else {
      ReadIsSlice(c, offset + 1, count - 1);
      var end := if offset + count <= |c| then offset + count else |c|;
      assert Data(c)[offset..end] == [Data(c)[offset]] + Data(c)[offset + 1..end];
    }
  }

  function Splice(base: seq<byte>, offset: nat, data: seq<byte>): seq<byte>
    requires offset <= |base|
  {
    base[..offset] + data + (if offset + |data| <= |base| then base[offset + |data|..] else [])
  }

  /** On a file without holes, a write at an offset inside the file is a splice. */
  lemma WriteIsSplice(c: Contents, offset: nat, data: seq<byte>)
    requires Dense(c) && offset <= |c|
    ensures Dense(Written(c, offset, data))
    ensures Data(Written(c, offset, data)) == Splice(Data(c), offset, data)
  {
  }

  /** A read after a write returns the old prefix, the new data and the old suffix. */
  lemma ReadAfterWrite(c: Contents, offset: nat, data: seq<byte>)
    requires Dense(c) && offset <= |c|
    ensures ReadRun(Written(c, offset, data), 0, |Written(c, offset, data)|) == Splice(Data(c), offset, data)
    ensures ReadRun(Written(c, offset, data), offset, |data|) == data
  {
    WriteIsSplice(c, offset, data);
    ReadIsSlice(Written(c, offset, data), 0, |Written(c, offset, data)|);
    ReadIsSlice(Written(c, offset, data), offset, |data|);
    assert Splice(Data(c), offset, data)[offset..offset + |data|] == data;
  }

  /** A truncating write leaves a hole exactly when it starts at 512 or later: only then do
      the bytes before it lie in a block that is not allocated. */
  lemma TruncatingWriteDense(offset: nat, data: seq<byte>)
    requires data != []
    ensures Dense(Written([], offset, data)) <==> offset < SECTOR_SIZE
    ensures offset < SECTOR_SIZE ==> Data(Written([], offset, data)) == Zeros(offset) + data
    ensures offset >= SECTOR_SIZE ==> ReadRun(Written([], offset, data), 0, offset + |data|) == []
  {
    var w := Written([], offset, data);
    if offset < SECTOR_SIZE {
      forall p | 0 <= p < |w| ensures w[p].Some? {
        if p < offset {
          assert p / SECTOR_SIZE == 0;
        }
      }
    } else {
      assert w[0].None?;
    }
  }

  /** A concrete such hole: one byte written at 512 after truncation cannot be read from the
      start of the file. */
  lemma TruncatingWriteHole(b: byte)
    ensures Written([], 512, [b])[0].None? && |Written([], 512, [b])| == 513
    ensures ReadRun(Written([], 512, [b]), 0, 513) == []
  {
    TruncatingWriteDense(512, [b]);
  }
}
