/** The shell's working directory and how a path typed by the user becomes an absolute one. */
module ShellPaths {
  import opened Bytes
  import opened LuxFormat
  import opened Wrappers
  import opened LuxVolume
  import opened LuxPaths
  import opened LuxNamespace
  import opened LuxFilesystem

  const SHELL_PATH_MAX: nat := 256

  // Values -----------------------------------------------------------------------------------

  /** A trailing slash adds no piece. */
  lemma TrailingSlash(path: seq<byte>)
    ensures Segments(path + [SLASH]) == Segments(path)
  {
    SegmentsJoin(path, []);
    assert path + [SLASH] + [] == path + [SLASH];
  }

  /** `r` is the path with slashes at its end dropped, but for the first byte. */
  predicate Shortened(r: seq<byte>, path: seq<byte>) {
    && |r| <= |path| && r == path[..|r|] && (path != [] ==> r != [])
    && forall k :: |r| <= k < |path| ==> path[k] == 0x2F
  }

  /** shell_normalize_path drops trailing slashes but keeps the first byte; this never changes
      the path's components. */
  method Normalize(path: seq<byte>) returns (r: seq<byte>)
    ensures |r| <= |path| && r == path[..|r|]
    ensures path != [] ==> r != [] && (|r| == 1 || r[|r| - 1] != SLASH)
    ensures forall k :: |r| <= k < |path| ==> path[k] == SLASH
    ensures Segments(r) == Segments(path) && Tokens(r) == Tokens(path)
  {
    if path == [] {
      return path;
    }
    var len := |path|;
    assert path[..len] == path;
    while len > 1 && path[len - 1] == SLASH
      invariant 1 <= len <= |path|
      invariant forall k :: len <= k < |path| ==> path[k] == SLASH
      invariant Segments(path[..len]) == Segments(path)
    {
      len := len - 1;
      assert path[..len + 1] == path[..len] + [SLASH];
      TrailingSlash(path[..len]);
    }
    return path[..len];
  }

  /** What a working directory string looks like. */
  predicate Absolute(path: seq<byte>) {
    0 < |path| < SHELL_PATH_MAX && path[0] == SLASH && NUL !in path
  }

  /** The pieces of what the user typed, seen from the working directory. */
  function JoinedSegments(cwd: seq<byte>, path: seq<byte>): seq<Name> {
    if path != [] && path[0] == SLASH then Segments(path) else Segments(cwd) + Segments(path)
  }

  function Joined(cwd: seq<byte>, path: seq<byte>): seq<byte> {
    if cwd == [] || cwd[|cwd| - 1] != SLASH then cwd + [SLASH] + path else cwd + path
  }

  lemma JoinedIsConcat(cwd: seq<byte>, path: seq<byte>)
    ensures Segments(Joined(cwd, path)) == Segments(cwd) + Segments(path)
  {
    if cwd == [] || cwd[|cwd| - 1] != SLASH {
      SegmentsJoin(cwd, path);
    } else {
      var c := cwd[..|cwd| - 1];
      assert cwd == c + [SLASH];
      SegmentsJoin(c, path);
      TrailingSlash(c);
    }
  }

  /** A buffer of `room` bytes is taken to be large enough for the resolved path. */
  predicate FitsBuffer(cwd: seq<byte>, path: seq<byte>, room: nat) {
    && room >= 2
    && (if path == [] then true
        else if path[0] == SLASH then |path| < room
        else |cwd| + |path| + 2 <= room)
  }

  // Meaning ------------------------------------------------------------------------------------

  lemma FitsConcat(a: seq<Name>, b: seq<Name>)
    ensures Fits(a + b) <==> Fits(a) && Fits(b)
  {
    var c := a + b;
    assert forall k :: 0 <= k < |a| ==> c[k] == a[k];
    assert forall k :: 0 <= k < |b| ==> c[|a| + k] == b[k];
  }

  lemma ShallowConcat(a: seq<Name>, b: seq<Name>)
    requires b != []
    ensures Shallow(a + b) <==> |Keep(a)| + |Keep(b[..|b| - 1])| < MAX_PATH_DEPTH
  {
    var c := a + b;
    assert c[..|c| - 1] == a + b[..|b| - 1];
    KeepConcat(a, b[..|b| - 1]);
  }

  /** A joined path is accepted only if both parts are. */
  lemma PartsAcceptable(a: seq<Name>, b: seq<Name>)
    requires Acceptable(a + b)
    ensures Acceptable(a) && Acceptable(b)
  {
    var c := a + b;
    FitsConcat(a, b);
    if b != [] {
      assert c[..|c| - 1] == a + b[..|b| - 1];
      KeepConcat(a, b[..|b| - 1]);
      if a != [] {
        assert a == a[..|a| - 1] + a[|a| - 1..];
        KeepConcat(a[..|a| - 1], a[|a| - 1..]);
      }
    } else {
      assert c == a;
    }
  }

  /** Whenever the resolved path of a relative one is accepted, its components are those of the
      working directory followed by the relative path's, and it resolves to what walking the
      relative path from the working directory reaches. */
  lemma RelativeWalk(v: Volume, cwd: seq<byte>, path: seq<byte>, out: seq<byte>)
    requires Segments(out) == Segments(cwd) + Segments(path) && Tokens(out).Some?
    ensures Tokens(cwd).Some? && Tokens(path).Some?
    ensures Tokens(out).value == Tokens(cwd).value + Tokens(path).value
    ensures Resolved(v, out) ==
            match Resolved(v, cwd) { case None => None case Some(dir) => Walk(v, dir, Tokens(path).value) }
  {
    PartsAcceptable(Segments(cwd), Segments(path));
    KeepConcat(Segments(cwd), Segments(path));
    WalkConcat(v, 0, Tokens(cwd).value, Tokens(path).value);
  }

  /** A relative path can be accepted alone and refused when joined: the limit of eight
      components counts those of the working directory. */
  lemma JoinTooDeep(cwd: seq<byte>, path: seq<byte>, out: seq<byte>)
    requires Segments(out) == Segments(cwd) + Segments(path)
    requires Tokens(cwd).Some? && Tokens(path).Some?
    ensures Tokens(out).Some? <==>
              (Segments(path) == [] || |Tokens(cwd).value| + |Keep(Segments(path)[..|Segments(path)| - 1])| < MAX_PATH_DEPTH)
  {
    var a, b := Segments(cwd), Segments(path);
    FitsConcat(a, b);
    if b == [] {
      assert a + b == a;
    } else {
      ShallowConcat(a, b);
    }
  }

  /** A path of `n` directories called "a". */
  function Deep(n: nat): (path: seq<byte>)
    ensures |path| == 2 * n
  {
    if n == 0 then [] else [SLASH, 0x61] + Deep(n - 1)
  }

  function Names(n: nat): (names: seq<Name>)
    ensures |names| == n
  {
    seq(n, _ => [0x61])
  }

  lemma {:induction false} DeepSegments(n: nat)
    ensures Segments(Deep(n)) == Names(n)
  {
    if n > 0 {
      var path := Deep(n);
      DeepSegments(n - 1);
      assert path[1..][0] == 0x61 && path[1..][1..] == Deep(n - 1);
      assert UpToSlash(Deep(n - 1)) == 0;
      assert UpToSlash(path[1..]) == 1 && path[1..][..1] == [0x61];
      assert Segments(path) == [[0x61]] + Segments(Deep(n - 1));
    }
  }

  lemma {:induction false} KeepNames(n: nat)
    ensures Keep(Names(n)) == Names(n)
  {
    if n > 0 {
      assert Names(n)[1..] == Names(n - 1);
      KeepNames(n - 1);
    }
  }

  lemma DeepTokens(n: nat)
    requires n <= MAX_PATH_DEPTH
    ensures Tokens(Deep(n)) == Some(Names(n))
  {
    DeepSegments(n);
    KeepNames(n);
    if n > 0 {
      assert Names(n)[..n - 1] == Names(n - 1);
      KeepNames(n - 1);
    }
  }

  lemma OneLetter()
    ensures Segments([0x61]) == [[0x61]] && Tokens([0x61]) == Some([[0x61]])
  {
    var a: seq<byte> := [0x61];
    assert UpToSlash(a[1..]) == 0 && UpToSlash(a) == 1 && a[..1] == a && a[1..] == [];
    var segments := [a];
    assert segments[1..] == [] && segments[..0] == [];
    assert Segments(a) == segments && Keep(segments) == segments;
  }

  /** From a working directory at depth eight no name can be reached by a relative path: "a" is accepted alone,
      and refused when joined. */
  lemma JoinedNine()
    ensures Tokens(Deep(8)).Some? && Tokens([0x61]).Some? && FitsBuffer(Deep(8), [0x61], SHELL_PATH_MAX)
    ensures Tokens(Joined(Deep(8), [0x61])).None?
  {
    DeepTokens(8);
    OneLetter();
    assert Keep([]) == [] && [[0x61 as byte]][..0] == [];
    JoinedIsConcat(Deep(8), [0x61]);
    JoinTooDeep(Deep(8), [0x61], Joined(Deep(8), [0x61]));
  }

  /** The pieces of a path are accepted and lead from the root to a directory. */
  predicate IsDirectory(v: Volume, segments: seq<Name>) {
    && Acceptable(segments)
    && Walk(v, 0, Keep(segments)).Some?
    && v[Walk(v, 0, Keep(segments)).value].Dir?
  }

  // The shell --------------------------------------------------------------------------------------

  class Shell {
    var cwd: seq<byte>

    ghost predicate Valid()
      reads this
    {
      Absolute(cwd)
    }

    constructor ()
      ensures Valid() && cwd == HOME
    {
      cwd := HOME;
    }

    /** shell_set_cwd_string, which does not ask for a leading slash. */
    method SetCwdString(path: seq<byte>)
      requires NUL !in path
      modifies this
      ensures 0 < |cwd| < SHELL_PATH_MAX && NUL !in cwd
      ensures Valid() <==> path == [] || path[0] == SLASH
      ensures |path| < SHELL_PATH_MAX ==> Segments(cwd) == Segments(path)
    {
      if path == [] {
        cwd := [SLASH];
        TrailingSlash([]);
        assert [] + [SLASH] == [SLASH];
      } else {
        var len := if |path| <= SHELL_PATH_MAX - 1 then |path| else SHELL_PATH_MAX - 1;
        assert |path| < SHELL_PATH_MAX ==> path[..len] == path;
        cwd := Normalize(path[..len]);
      }
    }

    /** shell_resolve_path into a buffer of `room` bytes. The result ends in a NUL except when the
        working directory itself is asked for and the buffer is too small for it: then the buffer is
        filled with its first bytes and success is reported. */
    method ResolvePath(path: seq<byte>, room: nat) returns (ok: bool, out: seq<byte>, ended: bool)
      requires Valid() && NUL !in path
      ensures ok <==> FitsBuffer(cwd, path, room)
      ensures ok <==> room >= 2 && (path == [] || (if path[0] == 0x2F then |path| else |cwd| + 1 + |path|) + 1 <= room)
      ensures ok && ended ==>
                Shortened(out, if path == [] then cwd else if path[0] == 0x2F then path
                               else if cwd[|cwd| - 1] == 0x2F then cwd + path else cwd + [0x2F] + path)
      ensures ok ==> (ended <==> path != [] || |cwd| < room)
      ensures ok && ended ==>
                0 < |out| < room && out[0] == SLASH && NUL !in out && Segments(out) == JoinedSegments(cwd, path)
      ensures ok && !ended ==> out == cwd[..room]
    {
      if room < 2 {
        return false, [], true;
      }
      if path == [] {
        var len := if |cwd| < room - 1 then |cwd| else room - 1;
        assert Segments(cwd) + [] == Segments(cwd);
        if len == |cwd| {
          return true, cwd, true;
        }
        return true, cwd[..len + 1], false;
      }
      if path[0] == SLASH {
        if |path| > room - 1 {
          return false, [], true;
        }
        out := Normalize(path);
        return true, out, true;
      }
      if |cwd| + |path| + 2 > room {
        return false, [], true;
      }
      JoinedIsConcat(cwd, path);
      out := Normalize(Joined(cwd, path));
      return true, out, true;
    }

    /** shell_set_cwd: without failed transfers it succeeds exactly when the path, as seen from
        the working directory, names a directory. */
    method SetCwd(fs: LuxFs, path: seq<byte>) returns (ok: bool)
      requires Valid() && fs.Valid() && NUL !in path
      modifies this, fs.disk`transfers
      ensures Valid() && fs.Valid()
      ensures ok ==> fs.mounted && IsDirectory(fs.Nodes(), Segments(cwd)) && Segments(cwd) == JoinedSegments(old(cwd), path)
      ensures !ok ==> cwd == old(cwd)
      ensures fs.mounted && fs.disk.Reliable() ==>
                (ok <==> FitsBuffer(old(cwd), path, 256) && IsDirectory(fs.Nodes(), JoinedSegments(old(cwd), path)))
    {
      if !fs.mounted {
        return false;
      }
      var fits, resolved, ended := ResolvePath(path, SHELL_PATH_MAX);
      if !fits {
        return false;
      }
      var found, isDir, size := fs.Stat(resolved);
      if !found || !isDir {
        return false;
      }
      SetCwdString(resolved);
      return true;
    }
  }

  const HOME: seq<byte> := [SLASH, 0x68, 0x6F, 0x6D, 0x65]

  /** No later call takes the working directory away. */
  lemma CwdStays(v: Volume, w: Volume, cwd: seq<byte>)
    requires Extends(v, w) && IsDirectory(v, Segments(cwd))
    ensures IsDirectory(w, Segments(cwd))
  {
    assert Resolved(v, cwd).Some?;
  }

  /** The working directory "/home" asked for into a buffer of three bytes: they are filled, and success is
      reported. */
  method HomeCutShort() returns (ok: bool, out: seq<byte>, ended: bool)
    ensures ok && !ended && out == [SLASH, 0x68, 0x6F]
  {
    var shell := new Shell();
    ok, out, ended := shell.ResolvePath([], 3);
    assert HOME[..3] == [SLASH, 0x68, 0x6F];
  }
}
