/** Splitting a path into components (luxfs_tokenize_path). A path is the bytes of a C
    string, without its NUL. */
module LuxPaths {
  import opened Bytes
  import opened LuxFormat
  import opened Wrappers
  import opened LuxVolume

  const SLASH: byte := 0x2F
  const DOT: Name := [0x2E]

  function UpToSlash(path: seq<byte>): (n: nat)
    ensures n <= |path| && SLASH !in path[..n]
    ensures n < |path| ==> path[n] == SLASH
  {
    if path == [] || path[0] == SLASH then 0 else 1 + UpToSlash(path[1..])
  }

  /** The non-empty pieces of a path between its slashes. */
  function Segments(path: seq<byte>): seq<Name>
    decreases |path|
  {
    if path == [] then []
    else if path[0] == SLASH then Segments(path[1..])
    else [path[..UpToSlash(path)]] + Segments(path[UpToSlash(path)..])
  }

  /** The pieces that are not ".". */
  function Keep(segments: seq<Name>): (r: seq<Name>)
    ensures |r| <= |segments|
  {
    if segments == [] then []
    else (if segments[0] == DOT then [] else [segments[0]]) + Keep(segments[1..])
  }

  lemma {:induction false} KeepConcat(a: seq<Name>, b: seq<Name>)
    ensures Keep(a + b) == Keep(a) + Keep(b)
  {
    if a == [] {
      assert a + b == b;
    } else {
      assert (a + b)[0] == a[0] && (a + b)[1..] == a[1..] + b;
      KeepConcat(a[1..], b);
    }
  }

  /** A path is accepted when every piece fits a name field and no piece starts after eight
      components are already there; a "." counts for nothing but may not be the ninth. */
  predicate Acceptable(segments: seq<Name>) {
    Fits(segments) && Shallow(segments)
  }

  predicate Fits(segments: seq<Name>) {
    forall k :: 0 <= k < |segments| ==> |segments[k]| < NAME_MAX
  }

  predicate Shallow(segments: seq<Name>) {
    segments != [] ==> |Keep(segments[..|segments| - 1])| < MAX_PATH_DEPTH
  }

  function Tokens(path: seq<byte>): Option<seq<Name>> {
    if Acceptable(Segments(path)) then Some(Keep(Segments(path))) else None
  }

  lemma {:induction false} UpToSlashJoin(a: seq<byte>, b: seq<byte>)
    ensures UpToSlash(a + [SLASH] + b) == UpToSlash(a)
  {
    var c := a + [SLASH] + b;
    if a != [] && a[0] != SLASH {
      assert c[0] == a[0] && c[1..] == a[1..] + [SLASH] + b;
      UpToSlashJoin(a[1..], b);
    }
  }

  /** Joining two paths with a slash joins their pieces. */
  lemma {:induction false} SegmentsJoin(a: seq<byte>, b: seq<byte>)
    ensures Segments(a + [SLASH] + b) == Segments(a) + Segments(b)
    decreases |a|
  {
    var c := a + [SLASH] + b;
    if a == [] {
      assert c[0] == SLASH && c[1..] == b;
    } else if a[0] == SLASH {
      assert c[0] == SLASH && c[1..] == a[1..] + [SLASH] + b;
      SegmentsJoin(a[1..], b);
    } else {
      UpToSlashJoin(a, b);
      var n := UpToSlash(a);
      assert c[..n] == a[..n] && c[n..] == a[n..] + [SLASH] + b;
      SegmentsJoin(a[n..], b);
    }
  }

  /** What lies between slashes is a piece, however long it is, also "." and "..". */
  lemma {:induction false} OnePiece(piece: seq<byte>)
    requires piece != [] && 0x2F !in piece
    ensures Segments(piece) == [piece]
  {
    NoSlash(piece);
    assert piece[..|piece|] == piece && piece[|piece|..] == [];
  }

  lemma {:induction false} NoSlash(path: seq<byte>)
    requires SLASH !in path
    ensures UpToSlash(path) == |path|
  {
    if path != [] {
      NoSlash(path[1..]);
    }
  }

  predicate Pieces(pieces: seq<Name>) {
    forall k :: 0 <= k < |pieces| ==> pieces[k] != [] && 0x2F !in pieces[k]
  }

  /** The pieces, each behind a slash. */
  function Spelled(pieces: seq<Name>): seq<byte> {
    if pieces == [] then [] else Spelled(pieces[..|pieces| - 1]) + [0x2F] + pieces[|pieces| - 1]
  }

  /** A path spelled from pieces of any length has exactly these. */
  lemma {:induction false} SegmentsSpelled(pieces: seq<Name>)
    requires Pieces(pieces)
    ensures Segments(Spelled(pieces)) == pieces
  {
    if pieces != [] {
      var init, last := pieces[..|pieces| - 1], pieces[|pieces| - 1];
      SegmentsSpelled(init);
      OnePiece(last);
      SegmentsJoin(Spelled(init), last);
      assert pieces == init + [last];
    }
  }

  /** Slashes before, behind or beside one another make no difference. */
  lemma SlashesVanish(a: seq<byte>, b: seq<byte>)
    ensures Segments([0x2F] + a) == Segments(a) == Segments(a + [0x2F])
    ensures Segments(a + [0x2F, 0x2F] + b) == Segments(a + [0x2F] + b)
  {
    SlashInFront(a);
    SegmentsJoin(a, []);
    assert a + [SLASH] + [] == a + [0x2F];
    SlashInFront(b);
    SegmentsJoin(a, b);
    SegmentsJoin(a, [0x2F] + b);
    TwoSlashes(a, b);
  }

  lemma SlashInFront(a: seq<byte>)
    ensures Segments([0x2F] + a) == Segments(a)
  {
    SegmentsJoin([], a);
    assert [] + [SLASH] + a == [0x2F] + a;
  }

  lemma TwoSlashes(a: seq<byte>, b: seq<byte>)
    ensures a + [SLASH] + ([0x2F] + b) == a + [0x2F, 0x2F] + b
  {
    assert [SLASH] + [0x2F] == [0x2F, 0x2F];
  }

  /** A path spelled from pieces without "." is accepted exactly if they are at most eight of at most 31
      bytes, and then these are its components. */
  lemma TokensSpelled(pieces: seq<Name>)
    requires Pieces(pieces) && [0x2E] !in pieces
    ensures Tokens(Spelled(pieces)).Some? <==> |pieces| <= 8 && forall k :: 0 <= k < |pieces| ==> |pieces[k]| <= 31
    ensures Tokens(Spelled(pieces)).Some? ==> Tokens(Spelled(pieces)).value == pieces
  {
    SegmentsSpelled(pieces);
    KeepAll(pieces);
    if pieces != [] {
      KeepAll(pieces[..|pieces| - 1]);
    }
  }

  lemma {:induction false} KeepAll(segments: seq<Name>)
    requires DOT !in segments
    ensures Keep(segments) == segments
  {
    if segments != [] {
      KeepAll(segments[1..]);
    }
  }

  /** A "." that something follows makes no difference. */
  lemma DotVanishes(a: seq<byte>, b: seq<byte>)
    requires Segments(b) != []
    ensures Tokens(a + [0x2F, 0x2E, 0x2F] + b) == Tokens(a + [0x2F] + b)
  {
    var x, y := Segments(a), Segments(b);
    var dot: seq<byte> := [0x2E];
    OnePiece(dot);
    SegmentsJoin(a, b);
    SegmentsJoin(a, dot + [SLASH] + b);
    SegmentsJoin(dot, b);
    DotSpelled(a, b);
    Regroup(x, [dot], y);
    DotInMiddle(x, y);
  }

  lemma DotSpelled(a: seq<byte>, b: seq<byte>)
    ensures a + [SLASH] + (DOT + [SLASH] + b) == a + [0x2F, 0x2E, 0x2F] + b
  {
    assert [SLASH] + (DOT + [SLASH]) == [0x2F, 0x2E, 0x2F];
  }

  lemma DotInMiddle(x: seq<Name>, y: seq<Name>)
    requires y != []
    ensures Keep(x + [DOT] + y) == Keep(x + y) && (Acceptable(x + [DOT] + y) <==> Acceptable(x + y))
  {
    var init := y[..|y| - 1];
    assert (x + [DOT] + y)[..|x + [DOT] + y| - 1] == x + [DOT] + init && (x + y)[..|x + y| - 1] == x + init;
    KeepDot(x, y);
    KeepDot(x, init);
    FitsParts(x, y);
    FitsParts(x + [DOT], y);
    FitsParts(x, [DOT]);
  }

  lemma FitsParts(a: seq<Name>, b: seq<Name>)
    ensures Fits(a + b) <==> Fits(a) && Fits(b)
  {
    var all := a + b;
    assert forall k :: 0 <= k < |a| ==> all[k] == a[k];
    forall k | Fits(all) && 0 <= k < |b| ensures |b[k]| < NAME_MAX {
      assert all[|a| + k] == b[k];
    }
  }

  lemma KeepDot(x: seq<Name>, y: seq<Name>)
    ensures Keep(x + [DOT] + y) == Keep(x + y)
  {
    KeepConcat(x, y);
    KeepConcat(x + [DOT], y);
    KeepConcat(x, [DOT]);
    assert [DOT][1..] == [];
  }

  /** There are 32 bytes in a row without a slash. */
  predicate LongRun(path: seq<byte>) {
    exists k: nat :: k <= |path| && RunFrom(path, k)
  }

  predicate RunFrom(path: seq<byte>, k: nat) {
    k + 32 <= |path| && 0x2F !in path[k..k + 32]
  }

  /** A path has a piece that does not fit a name field exactly if it has 32 bytes in a row without a slash. */
  lemma {:induction false} FitsIffNoRun(path: seq<byte>)
    ensures Fits(Segments(path)) <==> !LongRun(path)
    decreases |path|
  {
    if path == [] {
    } else if path[0] == SLASH {
      FitsIffNoRun(path[1..]);
      RunBehind(path, 1);
    } else {
      var n := UpToSlash(path);
      var piece, rest := path[..n], path[n..];
      FitsIffNoRun(rest);
      assert Segments(path) == [piece] + Segments(rest);
      FitsParts([piece], Segments(rest));
      assert [piece][0] == piece;
      if n >= 32 {
        assert path[0..32] == path[..n][..32];
        assert RunFrom(path, 0);
      } else {
        RunBehind(path, n);
      }
    }
  }

  lemma SlashEndsRun(path: seq<byte>, k: nat, j: nat)
    requires j < |path| && path[j] == SLASH
    ensures RunFrom(path, k) ==> !(k <= j < k + 32)
  {
    if k <= j < k + 32 <= |path| {
      assert path[k..k + 32][j - k] == SLASH;
    }
  }

  /** Nothing that begins before `n` is a run, if a slash or the end follows soon enough. */
  lemma RunBehind(path: seq<byte>, n: nat)
    requires n <= |path| && n < 32 && (n < |path| ==> path[n] == SLASH || path[..n] == [SLASH])
    ensures LongRun(path) <==> LongRun(path[n..])
  {
    if LongRun(path[n..]) {
      var k: nat :| k <= |path[n..]| && RunFrom(path[n..], k);
      LaterRun(path, n, k);
    }
    if LongRun(path) {
      var k: nat :| k <= |path| && RunFrom(path, k);
      BeforeSlash(path, n, k);
      LaterRun(path, n, k - n);
    }
  }

  lemma LaterRun(path: seq<byte>, n: nat, k: nat)
    requires n <= |path|
    ensures RunFrom(path[n..], k) <==> RunFrom(path, n + k)
  {
    if n + k + 32 <= |path| {
      assert path[n..][k..k + 32] == path[n + k..n + k + 32];
    }
  }

  lemma BeforeSlash(path: seq<byte>, n: nat, k: nat)
    requires n <= |path| && n < 32 && (n < |path| ==> path[n] == SLASH || path[..n] == [SLASH])
    requires RunFrom(path, k)
    ensures n <= k
  {
    if n < |path| && path[n] == SLASH {
      SlashEndsRun(path, k, n);
    } else if n < |path| {
      assert path[0] == path[..n][0];
      SlashEndsRun(path, k, 0);
    }
  }

  /** An accepted path has no 32 bytes in a row without a slash, and at most eight components; a path of at
      most eight pieces that has no such run is accepted. */
  lemma AcceptedBytes(path: seq<byte>)
    ensures Tokens(path).Some? ==> !LongRun(path) && |Tokens(path).value| <= 8
    ensures !LongRun(path) && |Segments(path)| <= 8 ==> Tokens(path).Some?
  {
    FitsIffNoRun(path);
    var segs := Segments(path);
    if segs != [] {
      var init, last := segs[..|segs| - 1], segs[|segs| - 1];
      assert segs == init + [last];
      KeepConcat(init, [last]);
      assert [last][1..] == [];
    }
  }

  lemma {:induction false} SegmentsPlain(path: seq<byte>)
    ensures forall s :: s in Segments(path) ==> s != [] && SLASH !in s && forall c :: c in s ==> c in path
    decreases |path|
  {
    if path == [] {
    } else if path[0] == SLASH {
      SegmentsPlain(path[1..]);
    } else {
      SegmentsPlain(path[UpToSlash(path)..]);
    }
  }

  lemma {:induction false} KeepSubset(segments: seq<Name>)
    ensures forall s :: s in Keep(segments) ==> s in segments && s != DOT
  {
    if segments != [] {
      KeepSubset(segments[1..]);
    }
  }

  /** Every component of an accepted path is a valid name or "..". */
  lemma TokensAreNames(path: seq<byte>)
    requires NUL !in path && Tokens(path).Some?
    ensures |Tokens(path).value| <= MAX_PATH_DEPTH
    ensures forall s :: s in Tokens(path).value ==> s == DOTDOT || ValidName(s)
  {
    var segs := Segments(path);
    SegmentsPlain(path);
    KeepSubset(segs);
    if segs != [] {
      KeepConcat(segs[..|segs| - 1], segs[|segs| - 1..]);
      assert segs == segs[..|segs| - 1] + segs[|segs| - 1..];
    }
  }

  lemma TokensFit(path: seq<byte>)
    requires Tokens(path).Some?
    ensures forall k :: 0 <= k < |Tokens(path).value| ==> |Tokens(path).value[k]| < NAME_MAX
  {
    var names := Tokens(path).value;
    KeepSubset(Segments(path));
    forall k | 0 <= k < |names| ensures |names[k]| < NAME_MAX {
      assert names[k] in Segments(path);
    }
  }

  lemma TooDeep(done: seq<Name>, rest: seq<Name>)
    requires |Keep(done)| >= MAX_PATH_DEPTH && rest != []
    ensures !Acceptable(done + rest)
  {
    var all, init := done + rest, rest[..|rest| - 1];
    KeepConcat(done, init);
    assert all[..|all| - 1] == done + init;
    assert |Keep(all[..|all| - 1])| >= MAX_PATH_DEPTH;
  }

  lemma TooLong(done: seq<Name>, rest: seq<Name>)
    requires rest != [] && |rest[0]| >= NAME_MAX
    ensures !Acceptable(done + rest)
  {
    assert (done + rest)[|done|] == rest[0];
  }

  lemma OneMore(done: seq<Name>, piece: Name)
    requires Acceptable(done) && |Keep(done)| < MAX_PATH_DEPTH && |piece| < NAME_MAX
    ensures Acceptable(done + [piece])
    ensures Keep(done + [piece]) == if piece == DOT then Keep(done) else Keep(done) + [piece]
  {
    KeepConcat(done, [piece]);
    assert (done + [piece])[..|done|] == done;
    assert Keep([piece]) == if piece == DOT then [] else [piece];
  }

  method SkipSlashes(path: seq<byte>, start: nat) returns (i: nat)
    requires start <= |path|
    ensures start <= i <= |path| && (i < |path| ==> path[i] != SLASH)
    ensures Segments(path[i..]) == Segments(path[start..])
  {
    i := start;
    while i < |path| && path[i] == SLASH
      invariant start <= i <= |path|
      invariant Segments(path[i..]) == Segments(path[start..])
    {
      assert path[i..][1..] == path[i + 1..];
      i := i + 1;
    }
  }

  method ReadComponent(path: seq<byte>, start: nat) returns (ok: bool, component: Name, i: nat)
    requires start < |path| && path[start] != SLASH
    ensures start < i <= |path|
    ensures ok ==> |component| < NAME_MAX && Segments(path[start..]) == [component] + Segments(path[i..])
    ensures ok ==> component == path[start..i] && 0x2F !in component && (i == |path| || path[i] == 0x2F)
    ensures !ok ==> NAME_MAX <= |Segments(path[start..])[0]|
    ensures !ok ==> start + 32 <= |path| && 0x2F !in path[start..start + 32]
  {
    i := start;
    component := [];
    ghost var n := UpToSlash(path[start..]);
    while i < |path| && path[i] != SLASH
      invariant start <= i <= start + n
      invariant |component| < NAME_MAX
      invariant component == path[start..i]
    {
      if |component| >= NAME_MAX - 1 {
        return false, component, i;
      }
      component := component + [path[i]];
      i := i + 1;
    }
    assert i == start + n;
    assert path[start..][..n] == path[start..i] && path[start..][n..] == path[i..];
    return true, component, i;
  }

  method Tokenize(path: seq<byte>) returns (ok: bool, components: seq<Name>)
    ensures ok <==> Tokens(path).Some?
    ensures ok ==> components == Tokens(path).value
  {
    components := [];
    var i := 0;
    ghost var done: seq<Name> := [];
    assert path[0..] == path;
    while i < |path|
      invariant 0 <= i <= |path|
      invariant Split(path, done, path[i..], components)
    {
      i := SkipSlashes(path, i);
      if i == |path| {
        break;
      }
      if |components| >= MAX_PATH_DEPTH {
        TooDeep(done, Segments(path[i..]));
        return false, components;
      }
      var fits, component, next := ReadComponent(path, i);
      if !fits {
        TooLong(done, Segments(path[i..]));
        return false, components;
      }
      SplitMore(path, done, path[i..], components, component, path[next..]);
      done := done + [component];
      if component != DOT {
        components := components + [component];
      }
      i := next;
    }
    assert path[|path|..] == [];
    assert done == Segments(path);
    return true, components;
  }

  /** The pieces `done` of the path have been read and are accepted; `rest` is to be read. */
  ghost predicate Split(path: seq<byte>, done: seq<Name>, rest: seq<byte>, components: seq<Name>) {
    Segments(path) == done + Segments(rest) && components == Keep(done) && Acceptable(done)
  }

  lemma SplitMore(path: seq<byte>, done: seq<Name>, rest: seq<byte>, components: seq<Name>, piece: Name, more: seq<byte>)
    requires Split(path, done, rest, components) && |components| < MAX_PATH_DEPTH && |piece| < NAME_MAX
    requires Segments(rest) == [piece] + Segments(more)
    ensures Split(path, done + [piece], more, if piece == DOT then components else components + [piece])
  {
    OneMore(done, piece);
    Regroup(done, [piece], Segments(more));
  }

  lemma Regroup(a: seq<Name>, b: seq<Name>, c: seq<Name>)
    ensures a + (b + c) == a + b + c
  {
  }

  /** What luxfs_resolve finds. */
  function Resolved(v: Volume, path: seq<byte>): Option<nat> {
    if Tokens(path).Some? then Walk(v, 0, Tokens(path).value) else None
  }

  /** What luxfs_resolve_parent finds: the directory and the last component. */
  function Target(v: Volume, path: seq<byte>): Option<(nat, Name)> {
    if Tokens(path).None? || Tokens(path).value == [] then None
    else
      var components := Tokens(path).value;
      match WalkDirs(v, 0, components[..|components| - 1])
      case None => None
      case Some(parent) => Some((parent, components[|components| - 1]))
  }
}
