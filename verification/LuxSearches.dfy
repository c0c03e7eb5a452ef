/** How many blocks a path's resolution reads: which transfers decide whether it succeeds. */
module LuxSearches {
  import opened Wrappers
  import opened Bytes
  import opened SectorDisk
  import opened LuxVolume
  import opened LuxPaths
  import opened LuxDirectories

  /** The reads of luxfs_dir_find: the blocks up to the one that ends the first record with the name. */
  function SearchReads(n: Node, name: Name): nat {
    match n
    case Dir(_, records) => IterateReads(records, NameDiffers(name))
    case _ => 0
  }

  /** The reads of luxfs_resolve from inode `at` on; a search that finds nothing is the last one. */
  function WalkReads(v: Volume, at: nat, path: seq<Name>): nat
    decreases |path|
  {
    if at >= |v| || path == [] then 0
    else if path[0] == DOTDOT then WalkReads(v, ParentOf(v[at]), path[1..])
    else
      SearchReads(v[at], path[0])
      + (match Lookup(v[at], path[0])
         case None => 0
         case Some(child) => WalkReads(v, child, path[1..]))
  }

  /** The reads of luxfs_resolve_parent, which also ends at a name that is not a directory's. */
  function WalkDirsReads(v: Volume, at: nat, path: seq<Name>): nat
    decreases |path|
  {
    if at >= |v| || path == [] then 0
    else if path[0] == DOTDOT then WalkDirsReads(v, ParentOf(v[at]), path[1..])
    else
      SearchReads(v[at], path[0])
      + (match Lookup(v[at], path[0])
         case None => 0
         case Some(child) => if child < |v| && v[child].Dir? then WalkDirsReads(v, child, path[1..]) else 0)
  }

  function ResolveReads(v: Volume, path: seq<byte>): nat {
    if Tokens(path).Some? then WalkReads(v, 0, Tokens(path).value) else 0
  }

  function ParentReads(v: Volume, path: seq<byte>): nat {
    if Tokens(path).None? || Tokens(path).value == [] then 0
    else WalkDirsReads(v, 0, Tokens(path).value[..|Tokens(path).value| - 1])
  }

  /** A search of `search` reads after `made` of a resolution; `rest` more follow if it succeeds. */
  lemma Searched(disk: Disk, t: nat, made: nat, search: nat, rest: nat, now: nat, there: bool)
    requires disk.Clear(t, made) && (!there ==> rest == 0)
    requires now == disk.After(t + made, search)
    ensures disk.Clear(t + made, search) ==> now == t + made + search && disk.Clear(t, made + search)
    ensures !disk.Clear(t + made, search) || rest == 0 ==> now == disk.After(t, made + search + rest)
    ensures !disk.Clear(t + made, search) ==> !disk.Clear(t, made + search + rest)
  {
    disk.InTwoParts(t, made, search);
    disk.InTwoParts(t, made + search, rest);
    if disk.Clear(t + made, search) {
      disk.AfterClear(t + made, search);
    }
  }

  /** A resolution that began with transfer `t` has come to inode `at`; `rest` is left of the path. */
  ghost predicate Walking(disk: Disk, t: nat, now: nat, v: Volume, path: seq<Name>, at: nat, rest: seq<Name>)
    reads disk`ready
  {
    && at < |v| && Walk(v, at, rest) == Walk(v, 0, path)
    && t <= now && disk.Clear(t, now - t) && now + WalkReads(v, at, rest) == t + WalkReads(v, 0, path)
  }

  ghost predicate WalkFailed(disk: Disk, t: nat, now: nat, v: Volume, path: seq<Name>)
    reads disk`ready
  {
    && now == disk.After(t, WalkReads(v, 0, path))
    && !(Walk(v, 0, path).Some? && disk.Clear(t, WalkReads(v, 0, path)))
  }

  lemma WalkedOn(disk: Disk, t: nat, before: nat, now: nat, v: Volume, path: seq<Name>, at: nat, rest: seq<Name>,
                 found: bool, child: nat)
    requires Walking(disk, t, before, v, path, at, rest) && rest != [] && rest[0] != DOTDOT
    requires found <==> Lookup(v[at], rest[0]).Some? && disk.Clear(before, SearchReads(v[at], rest[0]))
    requires now == disk.After(before, SearchReads(v[at], rest[0]))
    requires found ==> Lookup(v[at], rest[0]) == Some(child) && child < |v|
    ensures if found then Walking(disk, t, now, v, path, child, rest[1..]) else WalkFailed(disk, t, now, v, path)
  {
    var search := SearchReads(v[at], rest[0]);
    Searched(disk, t, before - t, search, WalkReads(v, at, rest) - search, now, Lookup(v[at], rest[0]).Some?);
  }

  /** The same for luxfs_resolve_parent. */
  ghost predicate WalkingDirs(disk: Disk, t: nat, now: nat, v: Volume, path: seq<Name>, at: nat, rest: seq<Name>)
    reads disk`ready
  {
    && at < |v| && WalkDirs(v, at, rest) == WalkDirs(v, 0, path)
    && t <= now && disk.Clear(t, now - t) && now + WalkDirsReads(v, at, rest) == t + WalkDirsReads(v, 0, path)
  }

  ghost predicate WalkDirsFailed(disk: Disk, t: nat, now: nat, v: Volume, path: seq<Name>)
    reads disk`ready
  {
    && now == disk.After(t, WalkDirsReads(v, 0, path))
    && !(WalkDirs(v, 0, path).Some? && disk.Clear(t, WalkDirsReads(v, 0, path)))
  }

  lemma WalkedDirsOn(disk: Disk, t: nat, before: nat, now: nat, v: Volume, path: seq<Name>, at: nat, rest: seq<Name>,
                     found: bool, child: nat)
    requires WalkingDirs(disk, t, before, v, path, at, rest) && rest != [] && rest[0] != DOTDOT
    requires found <==> Lookup(v[at], rest[0]).Some? && disk.Clear(before, SearchReads(v[at], rest[0]))
    requires now == disk.After(before, SearchReads(v[at], rest[0]))
    requires found ==> Lookup(v[at], rest[0]) == Some(child) && child < |v|
    ensures if found && v[child].Dir? then WalkingDirs(disk, t, now, v, path, child, rest[1..])
            else WalkDirsFailed(disk, t, now, v, path)
  {
    var search := SearchReads(v[at], rest[0]);
    Searched(disk, t, before - t, search, WalkDirsReads(v, at, rest) - search, now, Lookup(v[at], rest[0]).Some?);
  }

  /** At the end of a path the reads made are all. */
  lemma WalkEnds(disk: Disk, t: nat, now: nat, v: Volume, path: seq<Name>, at: nat)
    requires Walking(disk, t, now, v, path, at, [])
    ensures Walk(v, 0, path) == Some(at) && disk.Clear(t, WalkReads(v, 0, path)) && now == disk.After(t, WalkReads(v, 0, path))
  {
    disk.AfterClear(t, now - t);
  }

  lemma WalkDirsEnds(disk: Disk, t: nat, now: nat, v: Volume, path: seq<Name>, at: nat)
    requires WalkingDirs(disk, t, now, v, path, at, [])
    ensures WalkDirs(v, 0, path) == Some(at)
    ensures disk.Clear(t, WalkDirsReads(v, 0, path)) && now == disk.After(t, WalkDirsReads(v, 0, path))
  {
    disk.AfterClear(t, now - t);
  }
}
