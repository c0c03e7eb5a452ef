/** Whole runs of the file system: what every sequence of calls keeps, and what survives a
    reboot. */
module LuxSessions {
  import opened Bytes
  import opened LuxFormat
  import opened SectorDisk
  import opened LuxVolume
  import opened LuxPaths
  import opened LuxLayout
  import opened LuxMounting
  import opened LuxOutcome
  import opened LuxNamespace
  import opened LuxFilesystem

  datatype Call =
    | Touching(path: seq<byte>)
    | Making(path: seq<byte>)
    | Reading(path: seq<byte>, offset: nat, length: nat)
    | Writing(path: seq<byte>, offset: nat, data: seq<byte>, truncate: bool)

  /** A write that may leave a hole. */
  predicate Skipping(call: Call) {
    call.Writing? && call.truncate && call.offset >= SECTOR_SIZE
  }

  /** The metadata in memory and the sectors on disk between two calls. */
  datatype State = State(meta: Meta, sectors: Sectors)

  ghost function StateOf(fs: LuxFs): State
    reads fs, fs.disk
  {
    State(fs.Memory(), fs.disk.sectors)
  }

  ghost function VolumeIn(x: State): Volume
    requires WellSized(x.meta)
  {
    VolumeOf(x.meta.inodes, x.sectors)
  }

  /** What one call does to a sound volume when no transfer fails. */
  ghost predicate Does(x: State, call: Call, ok: bool, y: State)
    requires WellSized(x.meta) && WellSized(y.meta)
  {
    match call
    case Touching(path) => exists child: nat :: CreateOutcome(x.meta, x.sectors, y.meta, y.sectors, path, false, ok, child)
    case Making(path) => exists child: nat :: CreateOutcome(x.meta, x.sectors, y.meta, y.sectors, path, true, ok, child)
    case Reading(path, _, _) => y == x && (ok <==> FileAt(VolumeIn(x), path))
    case Writing(path, offset, data, truncate) =>
      if Resolved(VolumeIn(x), path).None? then !ok && y == x
      else exists done: nat ::
          WriteOutcome(x.meta, x.sectors, y.meta, y.sectors, Resolved(VolumeIn(x), path).value,
                       offset, data, truncate, ok, done, true)
  }

  /** Each state follows from the one before by one of the calls. */
  ghost predicate History(trace: seq<State>, calls: seq<Call>, results: seq<bool>)
    requires |trace| == |results| + 1 && |results| <= |calls|
  {
    && (forall k {:trigger trace[k]} :: 0 <= k < |trace| ==> WellSized(trace[k].meta))
    && forall k {:trigger results[k]} :: 0 <= k < |results| ==> Does(trace[k], calls[k], results[k], trace[k + 1])
  }

  /** A write that leaves the disk behind memory: it is accepted, lacks space, and has changed its
      inode by the time that shows. */
  ghost predicate Strands(x: State, call: Call)
    requires WellSized(x.meta)
  {
    call.Writing? && LeavesBehind(x.meta, x.sectors, call.path, call.offset, call.data, call.truncate)
  }

  /** The table sector of the inode that a write's path names. */
  ghost function WrittenTable(x: State, call: Call): nat
    requires WellSized(x.meta)
  {
    match Resolved(VolumeIn(x), call.path)
    case Some(i) => TableBlock(i)
    case None => 0
  }

  /** The sectors left behind, from `lag` on, by the first `n` calls: those of writes that leave the disk
      behind, without those that a later successful write has brought up to date. */
  ghost function Left(lag: set<nat>, trace: seq<State>, calls: seq<Call>, results: seq<bool>, n: nat): set<nat>
    requires n <= |results| <= |calls| && |results| < |trace|
    requires forall k {:trigger trace[k]} :: 0 <= k < |trace| ==> WellSized(trace[k].meta)
  {
    if n == 0 then lag
    else LeftAfter(Left(lag, trace, calls, results, n - 1), trace[n - 1], calls[n - 1], results[n - 1])
  }

  ghost function LeftAfter(lag: set<nat>, x: State, call: Call, ok: bool): set<nat>
    requires WellSized(x.meta)
  {
    if Strands(x, call) then lag + {WrittenTable(x, call)}
    else if call.Writing? && ok then lag - {WrittenTable(x, call)}
    else lag
  }

  /** When no call is such a write nothing is left behind. */
  lemma {:induction false} LeftNothing(lag: set<nat>, trace: seq<State>, calls: seq<Call>, results: seq<bool>, n: nat)
    requires n <= |results| <= |calls| && |results| < |trace|
    requires forall k {:trigger trace[k]} :: 0 <= k < |trace| ==> WellSized(trace[k].meta)
    requires NoneStrands(trace, calls, n)
    ensures Left(lag, trace, calls, results, n) <= lag
  {
    if n > 0 {
      LeftNothing(lag, trace, calls, results, n - 1);
      assert !Strands(trace[n - 1], calls[n - 1]);
    }
  }

  /** More states and results at the end change nothing. */
  lemma {:induction false} LeftPrefix(lag: set<nat>, trace: seq<State>, calls: seq<Call>, results: seq<bool>, y: State, ok: bool,
                                      n: nat)
    requires n <= |results| < |calls| && |results| + 1 == |trace| && WellSized(y.meta)
    requires forall k {:trigger trace[k]} :: 0 <= k < |trace| ==> WellSized(trace[k].meta)
    ensures Left(lag, trace + [y], calls, results + [ok], n) == Left(lag, trace, calls, results, n)
  {
    if n > 0 {
      LeftPrefix(lag, trace, calls, results, y, ok, n - 1);
      assert (trace + [y])[n - 1] == trace[n - 1] && (results + [ok])[n - 1] == results[n - 1];
    }
  }

  /** None of the calls is such a write in the state in which it is made. */
  ghost predicate NoneStrands(trace: seq<State>, calls: seq<Call>, count: nat)
    requires count <= |trace| && count <= |calls|
  {
    forall k {:trigger calls[k]} :: 0 <= k < count ==> WellSized(trace[k].meta) && !Strands(trace[k], calls[k])
  }

  method Perform(fs: LuxFs, call: Call) returns (ok: bool)
    requires fs.Valid() && NUL !in call.path
    modifies fs`inodes, fs`inodeBitmap, fs`blockBitmap, fs`lag, fs.disk`sectors, fs.disk`transfers
    ensures fs.Valid()
    ensures ok ==> fs.mounted && fs.lag <= old(fs.lag)
    ensures old(fs.Healthy()) && fs.disk.Reliable() ==> fs.Healthy() && Does(old(StateOf(fs)), call, ok, StateOf(fs))
    ensures old(fs.Healthy()) && fs.disk.Reliable() ==> fs.lag <= LeftAfter(old(fs.lag), old(StateOf(fs)), call, ok)
  {
    match call
    case Touching(_) => ok := PerformTouch(fs, call);
    case Making(_) => ok := PerformMkdir(fs, call);
    case Reading(path, offset, length) =>
      var data;
      ok, data := fs.Read(path, offset, length);
    case Writing(_, _, _, _) => ok := PerformWrite(fs, call);
  }

  method PerformTouch(fs: LuxFs, call: Call) returns (ok: bool)
    requires fs.Valid() && NUL !in call.path && call.Touching?
    modifies fs`inodes, fs`inodeBitmap, fs`blockBitmap, fs`lag, fs.disk`sectors, fs.disk`transfers
    ensures fs.Valid()
    ensures ok ==> fs.mounted && fs.lag <= old(fs.lag)
    ensures old(fs.Healthy()) && fs.disk.Reliable() ==>
              fs.Healthy() && Does(old(StateOf(fs)), call, ok, StateOf(fs)) && fs.lag <= old(fs.lag)
  {
    ghost var x, child := StateOf(fs), 0;
    ok, child := fs.Touch(call.path);
    if old(fs.Healthy()) && fs.disk.Reliable() {
      MakeDoes(x, call, ok, StateOf(fs), child);
    }
  }

  method PerformMkdir(fs: LuxFs, call: Call) returns (ok: bool)
    requires fs.Valid() && NUL !in call.path && call.Making?
    modifies fs`inodes, fs`inodeBitmap, fs`blockBitmap, fs`lag, fs.disk`sectors, fs.disk`transfers
    ensures fs.Valid()
    ensures ok ==> fs.mounted && fs.lag <= old(fs.lag)
    ensures old(fs.Healthy()) && fs.disk.Reliable() ==>
              fs.Healthy() && Does(old(StateOf(fs)), call, ok, StateOf(fs)) && fs.lag <= old(fs.lag)
  {
    ghost var x, child := StateOf(fs), 0;
    ok, child := fs.Mkdir(call.path);
    if old(fs.Healthy()) && fs.disk.Reliable() {
      MakeDoes(x, call, ok, StateOf(fs), child);
    }
  }

  lemma MakeDoes(x: State, call: Call, ok: bool, y: State, child: nat)
    requires WellSized(x.meta) && WellSized(y.meta) && (call.Touching? || call.Making?)
    requires CreateOutcome(x.meta, x.sectors, y.meta, y.sectors, call.path, call.Making?, ok, child)
    ensures Does(x, call, ok, y)
  {
  }

  method PerformWrite(fs: LuxFs, call: Call) returns (ok: bool)
    requires fs.Valid() && call.Writing?
    modifies fs`inodes, fs`blockBitmap, fs`lag, fs.disk`sectors, fs.disk`transfers
    ensures fs.Valid()
    ensures ok ==> fs.mounted && fs.lag <= old(fs.lag)
    ensures old(fs.Healthy()) && fs.disk.Reliable() ==> fs.Healthy() && Does(old(StateOf(fs)), call, ok, StateOf(fs))
    ensures old(fs.Healthy()) && fs.disk.Reliable() ==> fs.lag <= LeftAfter(old(fs.lag), old(StateOf(fs)), call, ok)
  {
    ghost var x, lag0, done := StateOf(fs), fs.lag, 0;
    ok, done := fs.Write(call.path, call.offset, call.data, call.truncate);
    if old(fs.Healthy()) && fs.disk.Reliable() {
      WriteDoes(x, call, ok, StateOf(fs), done);
      WriteLeaves(lag0, fs.lag, x, call, ok);
    }
  }

  lemma WriteDoes(x: State, call: Call, ok: bool, y: State, done: nat)
    requires WellSized(x.meta) && WellSized(y.meta) && call.Writing?
    requires Resolved(VolumeIn(x), call.path).None? ==> !ok && y == x
    requires Resolved(VolumeIn(x), call.path).Some? ==>
               WriteOutcome(x.meta, x.sectors, y.meta, y.sectors, Resolved(VolumeIn(x), call.path).value,
                            call.offset, call.data, call.truncate, ok, done, true)
    ensures Does(x, call, ok, y)
  {
  }

  lemma WriteLeaves(lag0: set<nat>, lag: set<nat>, x: State, call: Call, ok: bool)
    requires WellSized(x.meta) && call.Writing?
    requires ok ==> Resolved(VolumeIn(x), call.path).Some? && lag <= lag0 - {WrittenTable(x, call)}
    requires Strands(x, call) ==> !ok && lag <= lag0 + {WrittenTable(x, call)}
    requires !Strands(x, call) ==> lag <= lag0
    ensures lag <= LeftAfter(lag0, x, call, ok)
  {
  }

  /** What one call keeps: every path, what kind of node it names, and freedom from holes. */
  lemma DoesExtend(x: State, call: Call, ok: bool, y: State)
    requires WellSized(x.meta) && WellSized(y.meta) && Does(x, call, ok, y)
    ensures Extends(VolumeIn(x), VolumeIn(y))
    ensures NoHoles(VolumeIn(x)) && !Skipping(call) ==> NoHoles(VolumeIn(y))
  {
    match call
    case Touching(path) =>
      var child: nat :| CreateOutcome(x.meta, x.sectors, y.meta, y.sectors, path, false, ok, child);
      CreateExtendsVolume(x.meta, x.sectors, y.meta, y.sectors, path, false, ok, child);
    case Making(path) =>
      var child: nat :| CreateOutcome(x.meta, x.sectors, y.meta, y.sectors, path, true, ok, child);
      CreateExtendsVolume(x.meta, x.sectors, y.meta, y.sectors, path, true, ok, child);
    case Reading(_, _, _) =>
    case Writing(path, offset, data, truncate) =>
      if Resolved(VolumeIn(x), path).Some? {
        var i := Resolved(VolumeIn(x), path).value;
        var done: nat :|
          WriteOutcome(x.meta, x.sectors, y.meta, y.sectors, i, offset, data, truncate, ok, done, true);
        WriteExtendsVolume(x.meta, x.sectors, y.meta, y.sectors, i, offset, data, truncate, ok, done);
      }
  }

  lemma ExtendsOn(x0: State, x: State, call: Call, ok: bool, y: State)
    requires WellSized(x0.meta) && WellSized(x.meta) && WellSized(y.meta)
    requires Extends(VolumeIn(x0), VolumeIn(x)) && Does(x, call, ok, y)
    ensures Extends(VolumeIn(x0), VolumeIn(y))
  {
    DoesExtend(x, call, ok, y);
    ExtendsTransitive(VolumeIn(x0), VolumeIn(x), VolumeIn(y));
  }

  lemma HistoryAt(trace: seq<State>, calls: seq<Call>, results: seq<bool>, k: nat)
    requires |trace| == |results| + 1 && |results| <= |calls| && History(trace, calls, results) && k < |results|
    ensures WellSized(trace[0].meta) && WellSized(trace[k].meta) && WellSized(trace[k + 1].meta)
    ensures Does(trace[k], calls[k], results[k], trace[k + 1])
  {
  }

  /** What every history keeps: the paths that resolved at its start. */
  lemma {:induction false} HistoryExtends(trace: seq<State>, calls: seq<Call>, results: seq<bool>, n: nat)
    requires |trace| == |results| + 1 && |results| <= |calls| && History(trace, calls, results) && n <= |results|
    ensures Extends(VolumeIn(trace[0]), VolumeIn(trace[n]))
  {
    if n > 0 {
      var k := n - 1;
      HistoryExtends(trace, calls, results, k);
      HistoryAt(trace, calls, results, k);
      ExtendsOn(trace[0], trace[k], calls[k], results[k], trace[k + 1]);
    }
  }

  /** And freedom from holes, unless a write truncates and starts past the first block. */
  lemma {:induction false} HistoryDense(trace: seq<State>, calls: seq<Call>, results: seq<bool>, n: nat)
    requires |trace| == |results| + 1 && |results| <= |calls| && History(trace, calls, results) && n <= |results|
    requires NoHoles(VolumeIn(trace[0])) && forall k :: 0 <= k < n ==> !Skipping(calls[k])
    ensures NoHoles(VolumeIn(trace[n]))
  {
    if n > 0 {
      var k := n - 1;
      HistoryDense(trace, calls, results, k);
      HistoryAt(trace, calls, results, k);
      DoesExtend(trace[k], calls[k], results[k], trace[k + 1]);
    }
  }

  /** No sequence of calls, whatever fails, breaks the ownership and consistency invariants.
      Without failed transfers the volume stays a sound tree, every call does what is promised of it
      in the state it finds, and only those sectors are behind memory that were before or that writes
      which lacked space have left behind since they were last brought up to date. */
  method Run(fs: LuxFs, calls: seq<Call>) returns (results: seq<bool>, ghost trace: seq<State>)
    requires fs.Valid() && forall k :: 0 <= k < |calls| ==> NUL !in calls[k].path
    modifies fs`inodes, fs`inodeBitmap, fs`blockBitmap, fs`lag, fs.disk`sectors, fs.disk`transfers
    ensures fs.Valid() && |results| == |calls| && |trace| == |calls| + 1
    ensures trace[0] == old(StateOf(fs)) && trace[|calls|] == StateOf(fs)
    ensures (forall k :: 0 <= k < |calls| ==> results[k]) ==> fs.lag <= old(fs.lag)
    ensures old(fs.Healthy()) && fs.disk.Reliable() ==>
              && fs.Healthy() && History(trace, calls, results)
              && fs.lag <= Left(old(fs.lag), trace, calls, results, |calls|)
  {
    results, trace := [], [StateOf(fs)];
    while |results| < |calls|
      invariant |results| <= |calls| && fs.Valid() && |trace| == |results| + 1
      invariant trace[0] == old(StateOf(fs)) && trace[|results|] == StateOf(fs)
      invariant (forall k :: 0 <= k < |results| ==> results[k]) ==> fs.lag <= old(fs.lag)
      invariant old(fs.Healthy()) && fs.disk.Reliable() ==>
                  fs.Healthy() && Recorded(fs.lag, old(fs.lag), trace, calls, results)
    {
      var ok;
      ghost var y, before := StateOf(fs), results;
      ok, y := RunNext(fs, calls, results, trace, old(fs.lag));
      results, trace := results + [ok], trace + [y];
      assert forall k :: 0 <= k < |before| ==> results[k] == before[k];
      assert results[|before|] == ok;
    }
  }

  /** The calls so far, and the sectors they left behind. */
  ghost predicate Recorded(lag: set<nat>, lag0: set<nat>, trace: seq<State>, calls: seq<Call>, results: seq<bool>) {
    && |results| <= |calls| && |trace| == |results| + 1 && History(trace, calls, results)
    && lag <= Left(lag0, trace, calls, results, |results|)
  }

  /** One more call of a run. */
  method RunNext(fs: LuxFs, calls: seq<Call>, results: seq<bool>, ghost trace: seq<State>, ghost lag0: set<nat>)
    returns (ok: bool, ghost y: State)
    requires fs.Valid() && |results| < |calls| && |trace| == |results| + 1 && trace[|results|] == StateOf(fs)
    requires NUL !in calls[|results|].path
    modifies fs`inodes, fs`inodeBitmap, fs`blockBitmap, fs`lag, fs.disk`sectors, fs.disk`transfers
    ensures fs.Valid() && y == StateOf(fs)
    ensures ok ==> fs.lag <= old(fs.lag)
    ensures old(fs.Healthy() && Recorded(fs.lag, lag0, trace, calls, results)) && fs.disk.Reliable() ==>
              fs.Healthy() && Recorded(fs.lag, lag0, trace + [y], calls, results + [ok])
  {
    ghost var lag := fs.lag;
    ok := Perform(fs, calls[|results|]);
    y := StateOf(fs);
    if old(fs.Healthy() && Recorded(fs.lag, lag0, trace, calls, results)) && fs.disk.Reliable() {
      RecordedMore(lag, fs.lag, lag0, trace, calls, results, ok, y);
    }
  }

  lemma RecordedMore(lag: set<nat>, after: set<nat>, lag0: set<nat>, trace: seq<State>, calls: seq<Call>, results: seq<bool>,
                     ok: bool, y: State)
    requires Recorded(lag, lag0, trace, calls, results) && |results| < |calls| && WellSized(y.meta)
    requires Does(trace[|results|], calls[|results|], ok, y)
    requires after <= LeftAfter(lag, trace[|results|], calls[|results|], ok)
    ensures Recorded(after, lag0, trace + [y], calls, results + [ok])
  {
    HistoryMore(trace, calls, results, ok, y);
    LeftMore(lag0, trace, calls, results, ok, y);
    LeftAfterMonotone(lag, Left(lag0, trace, calls, results, |results|), trace[|results|], calls[|results|], ok);
  }

  lemma HistoryMore(trace: seq<State>, calls: seq<Call>, results: seq<bool>, ok: bool, y: State)
    requires |trace| == |results| + 1 && |results| < |calls| && History(trace, calls, results)
    requires WellSized(y.meta) && Does(trace[|results|], calls[|results|], ok, y)
    ensures History(trace + [y], calls, results + [ok])
  {
    var n, states, answers := |results|, trace + [y], results + [ok];
    assert forall k :: 0 <= k <= n ==> states[k] == trace[k];
    forall k | 0 <= k <= n ensures Does(states[k], calls[k], answers[k], states[k + 1]) {
      if k < n {
        assert answers[k] == results[k] && states[k + 1] == trace[k + 1];
      }
    }
  }

  lemma LeftMore(lag: set<nat>, trace: seq<State>, calls: seq<Call>, results: seq<bool>, ok: bool, y: State)
    requires |trace| == |results| + 1 && |results| < |calls| && History(trace, calls, results) && WellSized(y.meta)
    ensures forall k {:trigger (trace + [y])[k]} :: 0 <= k < |trace| + 1 ==> WellSized((trace + [y])[k].meta)
    ensures Left(lag, trace + [y], calls, results + [ok], |results| + 1) ==
            LeftAfter(Left(lag, trace, calls, results, |results|), trace[|results|], calls[|results|], ok)
  {
    forall k | 0 <= k < |trace| + 1 ensures WellSized((trace + [y])[k].meta) {
      if k < |trace| {
        assert (trace + [y])[k] == trace[k];
      }
    }
    LeftPrefix(lag, trace, calls, results, y, ok, |results|);
    assert (trace + [y])[|results|] == trace[|results|] && (results + [ok])[|results|] == ok;
  }

  lemma LeftAfterMonotone(a: set<nat>, b: set<nat>, x: State, call: Call, ok: bool)
    requires WellSized(x.meta) && a <= b
    ensures LeftAfter(a, x, call, ok) <= LeftAfter(b, x, call, ok)
  {
  }

  /** A reboot: a new kernel mounts the disk as it is, with transfers that fail as `fails` says. When no
      metadata sector lags, it finds exactly the volume that was there if and only if the reads of the
      metadata succeed; if one of them fails and nothing after it, it has formatted the disk. */
  method Reboot(fs: LuxFs, fails: nat -> bool) returns (again: LuxFs)
    requires fs.Running() && fs.disk.present && fs.disk.totalSectors >= START_LBA + TOTAL_SECTORS
    ensures fresh(again) && fresh(again.disk) && again.disk.ready && again.disk.fails == fails
    ensures fs.lag == {} && again.disk.Clear(0, DATA_BLOCK_START) ==>
              && again.Running() && again.lag == {}
              && again.Memory() == fs.Memory() && again.disk.sectors == fs.disk.sectors
              && again.Nodes() == fs.Nodes()
    ensures !again.disk.Clear(0, DATA_BLOCK_START) ==>
              && (again.mounted <==> again.disk.Clear(again.disk.After(0, DATA_BLOCK_START), DATA_BLOCK_START))
              && (again.mounted ==> again.Healthy() && again.Nodes() == EmptyVolume() && again.lag == {})
  {
    var disk := new Disk(true, fs.disk.totalSectors, fs.disk.sectors, fails);
    again := new LuxFs(disk);
    if fs.lag == {} {
      PersistedMetaLoads(fs.Memory(), fs.disk.sectors);
    }
    var mounted := again.Mount();
  }

  /** The life of a volume on a blank disk: formatted by the first mount, used by any calls that do not
      leave the disk behind in the end, and found unchanged after a reboot. */
  method Lifetime(disk: Disk, calls: seq<Call>)
    returns (fs: LuxFs, results: seq<bool>, again: LuxFs, ghost trace: seq<State>)
    requires disk.Attached() && !ValidSuper(LoadedMeta(disk.sectors).super)
    requires forall k :: 0 <= k < |calls| ==> NUL !in calls[k].path
    modifies disk`ready, disk`sectors, disk`transfers
    ensures fresh(fs) && fs.Healthy() && |results| == |calls| && |trace| == |calls| + 1
    ensures History(trace, calls, results) && trace[|calls|] == StateOf(fs)
    ensures trace[0].meta == FreshMeta() && VolumeIn(trace[0]) == EmptyVolume()
    ensures Left({}, trace, calls, results, |calls|) == {} ==>
              again.Healthy() && again.Memory() == fs.Memory() && again.Nodes() == fs.Nodes()
  {
    fs := new LuxFs(disk);
    var mounted := fs.Mount();
    FreshSound(disk.sectors);
    results, trace := Run(fs, calls);
    again := Reboot(fs, disk.fails);
  }
}
