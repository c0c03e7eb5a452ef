/** Redirecting a command's output into a file: the shell's file writer over the file system. */
module ShellRedirection {
  import opened Wrappers
  import opened Bytes
  import opened SectorDisk
  import opened LuxVolume
  import opened LuxPaths
  import opened LuxFormat
  import opened LuxLayout
  import opened LuxStorage
  import opened LuxSpace
  import opened LuxWriting
  import opened LuxStops
  import opened LuxOutcome
  import opened LuxNamespace
  import opened LuxSearches
  import opened LuxFilesystem
  import opened ShellPaths

  /** An append to a file without holes puts the data after the old bytes. */
  lemma AppendIsConcat(base: seq<byte>, data: seq<byte>)
    ensures Written(Stored(base), |base|, data) == Stored(base + data)
  {
  }

  lemma TruncateAndWrite(data: seq<byte>)
    requires data != []
    ensures Written([], 0, data) == Stored(data)
  {
    assert |data| > 0;
  }

  lemma StoredData(c: Contents)
    requires Dense(c)
    ensures Stored(Data(c)) == c
  {
  }

  function Concat(chunks: seq<seq<byte>>): seq<byte> {
    if chunks == [] then [] else Concat(chunks[..|chunks| - 1]) + chunks[|chunks| - 1]
  }

  /** The file is there, with the contents it had, or empty if it is new. */
  predicate Opened(before: Volume, after: Volume, path: seq<byte>) {
    FileAt(after, path) && ContentsAt(after, path) == OldContents(before, path)
  }

  /** The target can be opened: it names a file, or nothing yet and there is an inode and room for a record
      in its directory. */
  ghost predicate Openable(m: Meta, s: Sectors, path: seq<byte>)
    requires WellSized(m)
  {
    var v := VolumeOf(m.inodes, s);
    if Absent(v, path) then HasFreeInode(m) && Room(m.inodes[Target(v, path).value.0], m.blockBitmap)
    else FileAt(v, path)
  }

  /** In terms of plain walks. */
  lemma OpenableMeans(m: Meta, s: Sectors, path: seq<byte>)
    requires Sound(m, s) && NUL !in path
    ensures var v := VolumeOf(m.inodes, s);
      Openable(m, s, path) <==> Makeable(m, v, path) || FileAt(v, path)
  {
    MakeableIff(m, s, path);
  }

  /** What opening the target does to the metadata: nothing if it is there, and otherwise the blocks free are
      those that the directory's growth leaves, and the new inode has none. */
  ghost predicate OpenedMeta(m0: Meta, s0: Sectors, m: Meta, s: Sectors, path: seq<byte>)
    requires WellSized(m0) && WellSized(m)
  {
    var v, w := VolumeOf(m0.inodes, s0), VolumeOf(m.inodes, s);
    if FileAt(v, path) then m == m0 && w == v
    else
      && Target(v, path).Some? && Target(v, path).value.0 < MAX_INODES
      && FileAt(w, path) && Resolved(w, path).value < MAX_INODES
      && m.inodes[Resolved(w, path).value].direct == NoBlocks()
      && FreeBlocks(m.blockBitmap) + Growth(m0.inodes[Target(v, path).value.0]) == FreeBlocks(m0.blockBitmap)
  }

  /** The inode that the redirection starts from: the target's own, or one without blocks. */
  ghost function TargetInode(m: Meta, s: Sectors, path: seq<byte>): Inode
    requires WellSized(m)
  {
    var v := VolumeOf(m.inodes, s);
    if FileAt(v, path) && Resolved(v, path).value < MAX_INODES then m.inodes[Resolved(v, path).value]
    else Inode(NODE_FILE, Zeros(3), 0, 0, NoBlocks(), Zeros(16))
  }

  /** The blocks that are free once the target is there: all, or all but the one that its directory may
      grow by. */
  ghost function TargetFree(m: Meta, s: Sectors, path: seq<byte>): nat
    requires WellSized(m)
  {
    var v, free := VolumeOf(m.inodes, s), FreeBlocks(m.blockBitmap);
    if FileAt(v, path) || Target(v, path).None? || Target(v, path).value.0 >= MAX_INODES
       || Growth(m.inodes[Target(v, path).value.0]) > free then free
    else free - Growth(m.inodes[Target(v, path).value.0])
  }

  function OldContents(v: Volume, path: seq<byte>): Contents {
    if FileAt(v, path) then ContentsAt(v, path) else []
  }

  /** What fs_write promises of the file that the path names. */
  ghost predicate WritesAt(m0: Meta, s0: Sectors, m: Meta, s: Sectors, path: seq<byte>, offset: nat, data: seq<byte>,
                           truncate: bool, ok: bool)
    requires WellSized(m0) && WellSized(m)
  {
    && FileAt(VolumeOf(m0.inodes, s0), path)
    && exists done: nat ::
         WriteOutcome(m0, s0, m, s, Resolved(VolumeOf(m0.inodes, s0), path).value, offset, data, truncate, ok, done, true)
  }

  /** The same in every run, whatever transfers fail: the write is refused and nothing happens, or it runs. */
  ghost predicate RunsAt(m0: Meta, before: Volume, after: Volume, path: seq<byte>, offset: nat, data: seq<byte>,
                         truncate: bool, ok: bool, disk: Disk, t: nat)
    requires WellSized(m0)
    reads disk`ready
  {
    && FileAt(before, path) && FileAt(after, path) && Resolved(after, path) == Resolved(before, path)
    && Resolved(before, path).value < MAX_INODES
    && (if Accepted(before, path, offset, data, truncate, disk, t) then
          exists done: nat ::
            var i := Resolved(before, path).value;
            WriteRun(m0, before[i], after[i].contents, i, offset, data, truncate, ok, done, disk,
                     disk.After(t, ResolveReads(before, path)))
        else !ok && after == before)
  }

  /** The path is resolved and the arguments are those of a write to the file. */
  ghost predicate Accepted(v: Volume, path: seq<byte>, offset: nat, data: seq<byte>, truncate: bool, disk: Disk, t: nat)
    requires FileAt(v, path)
    reads disk`ready
  {
    disk.Clear(t, ResolveReads(v, path)) && Admissible(v[Resolved(v, path).value], offset, data, truncate)
  }

  /** What a write behind `text` leaves in the file in every run: both, if all transfers but perhaps the last
      succeed, and otherwise the text, or nothing if that was to be truncated. */
  ghost function LeftBy(m0: Meta, v: Volume, path: seq<byte>, text: seq<byte>, data: seq<byte>, truncate: bool,
                        disk: Disk, t: nat): Contents
    requires WellSized(m0) && FileAt(v, path) && Resolved(v, path).value < MAX_INODES
    reads disk`ready
  {
    if !Accepted(v, path, |text|, data, truncate, disk, t) then ContentsAt(v, path)
    else if DataWritten(m0, Resolved(v, path).value, |text|, data, truncate, disk, disk.After(t, ResolveReads(v, path))) then
      Stored(text + data)
    else if truncate then [] else Stored(text)
  }

  /** The target is a file, and the reads that find it succeed: once, and for appending a second time. */
  ghost predicate Found(v: Volume, path: seq<byte>, append: bool, disk: Disk, t: nat)
    reads disk`ready
  {
    && FileAt(v, path) && disk.Clear(t, ResolveReads(v, path))
    && (append ==> Dense(ContentsAt(v, path)) && disk.Clear(disk.After(t, ResolveReads(v, path)), ResolveReads(v, path)))
  }

  lemma EmitLeaves(m0: Meta, before: Volume, after: Volume, path: seq<byte>, text: seq<byte>, data: seq<byte>,
                   truncate: bool, ok: bool, disk: Disk, t: nat)
    requires WellSized(m0) && data != [] && RunsAt(m0, before, after, path, |text|, data, truncate, ok, disk, t)
    requires if truncate then text == [] else ContentsAt(before, path) == Stored(text)
    ensures ContentsAt(after, path) == LeftBy(m0, before, path, text, data, truncate, disk, t)
    ensures ok ==> ContentsAt(after, path) == Stored(text + data)
  {
    if Accepted(before, path, |text|, data, truncate, disk, t) {
      var i := Resolved(before, path).value;
      var done: nat :| WriteRun(m0, before[i], after[i].contents, i, |text|, data, truncate, ok, done, disk,
                                disk.After(t, ResolveReads(before, path)));
      AppendIsConcat(text, data);
      TruncateAndWrite(data);
      assert [] + data == data;
      if !truncate && CutShort(Stored(text), after[i].contents, |text|, data, done) {
        CutAppendInvisible(Stored(text), after[i].contents, data, done);
      }
    }
  }

  class FileWriter {
    var path: seq<byte>
    var offset: nat
    var truncatePending: bool
    var failed: bool
    ghost var text: seq<byte>  // the old text kept and the chunks written since

    /** The file holds exactly `text` and the writer stands at its end; or nothing has been
        written since the file was opened to be truncated, and `text` is empty. */
    ghost predicate Stands(v: Volume)
      reads this
    {
      && FileAt(v, path)
      && offset == |text|
      && (if truncatePending then text == [] else ContentsAt(v, path) == Stored(text))
    }

    constructor ()
      ensures failed
    {
      path, offset, truncatePending, failed := [], 0, false, true;
    }

    /** shell_file_writer_init. A file without holes is opened at its end for appending. */
    method Init(fs: LuxFs, shell: Shell, target: seq<byte>, append: bool) returns (ok: bool)
      requires fs.Valid() && shell.Valid() && NUL !in target
      modifies this, fs`inodes, fs`inodeBitmap, fs`blockBitmap, fs`lag, fs.disk`sectors, fs.disk`transfers
      ensures fs.Valid() && ok == !failed && (ok ==> truncatePending == !append)
      ensures old(fs.Healthy()) && fs.disk.Reliable() ==> fs.Healthy()
      ensures fs.mounted && FitsBuffer(shell.cwd, target, SHELL_PATH_MAX) ==> Segments(path) == JoinedSegments(shell.cwd, target)
      ensures ok ==> fs.mounted && FitsBuffer(shell.cwd, target, SHELL_PATH_MAX)
      ensures old(fs.Healthy()) && fs.disk.Reliable() ==>
                && (ok <==> FitsBuffer(shell.cwd, target, SHELL_PATH_MAX)
                            && Openable(old(fs.Memory()), old(fs.disk.sectors), path))
                && (!ok ==> fs.Memory() == old(fs.Memory()) && fs.Nodes() == old(fs.Nodes()))
      ensures ok && old(fs.Healthy()) && fs.disk.Reliable() ==>
                OpenedMeta(old(fs.Memory()), old(fs.disk.sectors), fs.Memory(), fs.disk.sectors, path)
      ensures ok && old(fs.Healthy()) && fs.disk.Reliable() && NoHoles(old(fs.Nodes())) ==>
                && Opened(old(fs.Nodes()), fs.Nodes(), path)
                && Stored(text) == (if append then OldContents(old(fs.Nodes()), path) else [])
                && Stands(fs.Nodes())
      ensures fs.mounted && FitsBuffer(shell.cwd, target, SHELL_PATH_MAX)
              && Found(old(fs.Nodes()), path, append, fs.disk, old(fs.disk.transfers)) ==>
                && ok && fs.Nodes() == old(fs.Nodes()) && Stands(fs.Nodes())
                && Stored(text) == (if append then ContentsAt(fs.Nodes(), path) else [])
    {
      offset, truncatePending, failed, text := 0, !append, false, [];
      if !fs.mounted {
        failed := true;
        return false;
      }
      var ended;
      ok, path, ended := shell.ResolvePath(target, SHELL_PATH_MAX);
      if !ok {
        failed := true;
        return false;
      }
      ok := Start(fs, append);
      failed := !ok;
    }

    /** The end of shell_file_writer_init, once the path is known. */
    method Start(fs: LuxFs, append: bool) returns (ok: bool)
      requires fs.Valid() && NUL !in path && offset == 0 && text == [] && truncatePending == !append
      modifies this`offset, this`text, fs`inodes, fs`inodeBitmap, fs`blockBitmap, fs`lag, fs.disk`sectors, fs.disk`transfers
      ensures fs.Valid() && fs.mounted == old(fs.mounted)
      ensures old(fs.Healthy()) && fs.disk.Reliable() ==>
                && fs.Healthy() && (ok <==> Openable(old(fs.Memory()), old(fs.disk.sectors), path))
                && (!ok ==> fs.Memory() == old(fs.Memory()) && fs.Nodes() == old(fs.Nodes()))
      ensures ok && old(fs.Healthy()) && fs.disk.Reliable() ==>
                OpenedMeta(old(fs.Memory()), old(fs.disk.sectors), fs.Memory(), fs.disk.sectors, path)
      ensures ok && old(fs.Healthy()) && fs.disk.Reliable() && NoHoles(old(fs.Nodes())) ==>
                && Opened(old(fs.Nodes()), fs.Nodes(), path)
                && Stored(text) == (if append then OldContents(old(fs.Nodes()), path) else [])
                && Stands(fs.Nodes())
      ensures fs.mounted && Found(old(fs.Nodes()), path, append, fs.disk, old(fs.disk.transfers)) ==>
                && ok && fs.Nodes() == old(fs.Nodes()) && Stands(fs.Nodes())
                && Stored(text) == (if append then ContentsAt(fs.Nodes(), path) else [])
    {
      ok := Open(fs);
      if ok && append {
        SeekEnd(fs, fs.Nodes());
      }
    }

    /** The target exists, with the contents it had. */
    method Open(fs: LuxFs) returns (ok: bool)
      requires fs.Valid() && NUL !in path
      modifies fs`inodes, fs`inodeBitmap, fs`blockBitmap, fs`lag, fs.disk`sectors, fs.disk`transfers
      ensures fs.Valid() && (ok ==> fs.mounted)
      ensures old(fs.Healthy()) && fs.disk.Reliable() ==>
                && fs.Healthy() && OpenOutcome(old(fs.Nodes()), fs.Nodes(), path, ok)
                && (ok ==> OpenedMeta(old(fs.Memory()), old(fs.disk.sectors), fs.Memory(), fs.disk.sectors, path))
                && (ok <==> Openable(old(fs.Memory()), old(fs.disk.sectors), path))
                && (!ok ==> fs.Memory() == old(fs.Memory()) && fs.Nodes() == old(fs.Nodes()))
      ensures fs.mounted && FileAt(old(fs.Nodes()), path)
              && fs.disk.Clear(old(fs.disk.transfers), ResolveReads(old(fs.Nodes()), path)) ==>
                && ok && fs.Nodes() == old(fs.Nodes())
                && fs.disk.transfers == fs.disk.After(old(fs.disk.transfers), ResolveReads(old(fs.Nodes()), path))
    {
      ghost var m0, s0 := fs.Memory(), fs.disk.sectors;
      ghost var child;
      ok, child := fs.Touch(path);
      if old(fs.Healthy()) && fs.disk.Reliable() {
        TouchedFile(m0, s0, fs.Memory(), fs.disk.sectors, path, ok, child);
      }
    }

    /** The writer starts at the end of a file that is kept, or at its start if that cannot be found out for a
        failed transfer: then the first chunk overwrites what the file held. */
    method SeekEnd(fs: LuxFs, ghost w: Volume)
      requires fs.Valid() && w == fs.Nodes()
      modifies this`offset, this`text, fs.disk`transfers
      ensures fs.Valid() && (old(fs.Healthy()) ==> fs.Healthy()) && fs.Nodes() == w && fs.Memory() == old(fs.Memory())
      ensures fs.mounted && FileAt(w, path) && Dense(ContentsAt(w, path)) ==>
                if fs.disk.Clear(old(fs.disk.transfers), ResolveReads(w, path)) then
                  text == Data(ContentsAt(w, path)) && offset == |text|
                else
                  text == old(text) && offset == old(offset)
    {
      ghost var t := fs.disk.transfers;
      var found, isDir, size := fs.Stat(path);
      if found {
        offset := size;
      }
      if fs.mounted && FileAt(w, path) && Dense(ContentsAt(w, path)) && fs.disk.Clear(t, ResolveReads(w, path)) {
        text := Data(ContentsAt(w, path));
      }
    }

    /** shell_file_writer_emit: a chunk lands after what is there, or, once something has been
        written, leaves the visible contents as they were. */
    method Emit(fs: LuxFs, data: seq<byte>)
      requires fs.Valid()
      modifies this, fs`inodes, fs`blockBitmap, fs`lag, fs.disk`sectors, fs.disk`transfers
      ensures fs.Valid() && path == old(path)
      ensures old(failed) ==> failed
      ensures text == if failed then old(text) else old(text) + data
      ensures old(fs.Healthy()) && fs.disk.Reliable() ==> fs.Healthy()
      ensures old(fs.Healthy() && Stands(fs.Nodes())) && fs.disk.Reliable() ==>
                && FileAt(fs.Nodes(), path)
                && (!failed || !truncatePending ==> Stands(fs.Nodes()))
      ensures old(failed) || data == [] ==>
                && failed == old(failed) && truncatePending == old(truncatePending) && offset == old(offset)
                && fs.Memory() == old(fs.Memory()) && fs.disk.sectors == old(fs.disk.sectors)
      ensures truncatePending == (old(truncatePending) && (failed || data == []))
      ensures !old(failed) && data != [] && old(fs.Healthy() && Stands(fs.Nodes())) && fs.disk.Reliable() ==>
                WritesAt(old(fs.Memory()), old(fs.disk.sectors), fs.Memory(), fs.disk.sectors, path, old(offset), data,
                         old(truncatePending), !failed)
      ensures !old(failed) && data != [] && old(fs.Running() && Stands(fs.Nodes())) ==>
                && FileAt(fs.Nodes(), path) && Resolved(old(fs.Nodes()), path).value < MAX_INODES
                && ContentsAt(fs.Nodes(), path) ==
                   LeftBy(old(fs.Memory()), old(fs.Nodes()), path, old(text), data, old(truncatePending), fs.disk,
                          old(fs.disk.transfers))
                && (!failed ==> Stands(fs.Nodes()))
      ensures !old(failed) && data != [] && old(fs.Running()) && !FileAt(old(fs.Nodes()), path) ==>
                failed && fs.Nodes() == old(fs.Nodes())
      ensures !failed && data != [] && old(fs.Running() && FileAt(fs.Nodes(), path)) ==>
                && FileAt(fs.Nodes(), path)
                && ContentsAt(fs.Nodes(), path) ==
                   Result(if old(truncatePending) then [] else ContentsAt(old(fs.Nodes()), path), old(offset), data)
    {
      if failed || data == [] {
        assert text + [] == text;
        return;
      }
      var ok := AppendChunk(fs, data);
      if !ok {
        failed := true;
        return;
      }
      truncatePending := false;
      offset := offset + |data|;
      text := text + data;
    }

    /** A chunk goes behind the text, whatever transfers fail. */
    method AppendChunk(fs: LuxFs, data: seq<byte>) returns (ok: bool)
      requires fs.Valid() && data != []
      modifies fs`inodes, fs`blockBitmap, fs`lag, fs.disk`sectors, fs.disk`transfers
      ensures fs.Valid()
      ensures old(fs.Healthy()) && fs.disk.Reliable() ==> fs.Healthy()
      ensures old(fs.Healthy() && Stands(fs.Nodes())) && fs.disk.Reliable() ==>
                && FileAt(fs.Nodes(), path)
                && (ok ==> ContentsAt(fs.Nodes(), path) == Stored(text + data))
                && (!ok && !truncatePending ==> ContentsAt(fs.Nodes(), path) == Stored(text))
                && WritesAt(old(fs.Memory()), old(fs.disk.sectors), fs.Memory(), fs.disk.sectors, path, offset, data,
                            truncatePending, ok)
      ensures old(fs.Running() && Stands(fs.Nodes())) ==>
                && FileAt(fs.Nodes(), path) && Resolved(old(fs.Nodes()), path).value < MAX_INODES
                && ContentsAt(fs.Nodes(), path) ==
                   LeftBy(old(fs.Memory()), old(fs.Nodes()), path, text, data, truncatePending, fs.disk,
                          old(fs.disk.transfers))
                && (ok ==> ContentsAt(fs.Nodes(), path) == Stored(text + data))
      ensures fs.mounted && !FileAt(old(fs.Nodes()), path) ==> !ok && fs.Nodes() == old(fs.Nodes())
      ensures ok && fs.mounted && FileAt(old(fs.Nodes()), path) ==>
                && FileAt(fs.Nodes(), path)
                && ContentsAt(fs.Nodes(), path) ==
                   Result(if truncatePending then [] else ContentsAt(old(fs.Nodes()), path), offset, data)
    {
      ghost var m0, s0, v, t := fs.Memory(), fs.disk.sectors, fs.Nodes(), fs.disk.transfers;
      ok := Append(fs, data);
      if old(fs.Running() && Stands(fs.Nodes())) {
        EmitLeaves(m0, v, fs.Nodes(), path, text, data, truncatePending, ok, fs.disk, t);
      }
      if old(fs.Healthy() && Stands(fs.Nodes())) && fs.disk.Reliable() {
        EmitOutcome(m0, s0, fs.Memory(), fs.disk.sectors, path, text, data, truncatePending, ok);
      }
    }

    /** The call of fs_write in shell_file_writer_emit. */
    method Append(fs: LuxFs, data: seq<byte>) returns (ok: bool)
      requires fs.Valid() && data != []
      modifies fs`inodes, fs`blockBitmap, fs`lag, fs.disk`sectors, fs.disk`transfers
      ensures fs.Valid()
      ensures old(fs.Healthy()) && fs.disk.Reliable() ==> fs.Healthy()
      ensures fs.mounted && FileAt(old(fs.Nodes()), path) && fs.disk.Reliable() ==>
                WritesAt(old(fs.Memory()), old(fs.disk.sectors), fs.Memory(), fs.disk.sectors, path, offset, data,
                         truncatePending, ok)
      ensures fs.mounted && FileAt(old(fs.Nodes()), path) ==>
                RunsAt(old(fs.Memory()), old(fs.Nodes()), fs.Nodes(), path, offset, data, truncatePending, ok, fs.disk,
                       old(fs.disk.transfers))
      ensures fs.mounted && !FileAt(old(fs.Nodes()), path) ==> !ok && fs.Nodes() == old(fs.Nodes())
    {
      ghost var m0, s0 := fs.Memory(), fs.disk.sectors;
      ghost var done;
      ok, done := fs.Write(path, offset, data, truncatePending);
      if fs.mounted && FileAt(VolumeOf(m0.inodes, s0), path) {
        SamePlace(m0, s0, fs.Memory(), fs.disk.sectors, path, offset, data, truncatePending, ok, done, fs.disk.Reliable());
      }
    }

    /** shell_file_writer_finalize */
    method Finalize(fs: LuxFs)
      requires fs.Valid()
      modifies this, fs`inodes, fs`blockBitmap, fs`lag, fs.disk`sectors, fs.disk`transfers
      ensures fs.Valid() && failed == old(failed) && path == old(path) && text == old(text)
      ensures old(fs.Healthy()) && fs.disk.Reliable() ==> fs.Healthy()
      ensures old(fs.Healthy() && Stands(fs.Nodes())) && fs.disk.Reliable() && !failed ==>
                Stands(fs.Nodes()) && !truncatePending && Resolved(fs.Nodes(), path) == Resolved(old(fs.Nodes()), path)
      ensures failed ==> fs.Nodes() == old(fs.Nodes()) && truncatePending == old(truncatePending) && offset == old(offset)
      ensures !failed ==> !truncatePending
      ensures fs.mounted && FileAt(old(fs.Nodes()), path) ==>
                && FileAt(fs.Nodes(), path)
                && ContentsAt(fs.Nodes(), path) ==
                   if !failed && old(truncatePending)
                      && fs.disk.Clear(old(fs.disk.transfers), ResolveReads(old(fs.Nodes()), path))
                   then [] else ContentsAt(old(fs.Nodes()), path)
    {
      if failed {
        return;
      }
      if truncatePending {
        Empty(fs);
        truncatePending := false;
      }
    }

    /** The call of fs_write in shell_file_writer_finalize: once the path is resolved the file shows nothing,
        whatever else fails. */
    method Empty(fs: LuxFs)
      requires fs.Valid()
      modifies fs`inodes, fs`blockBitmap, fs`lag, fs.disk`sectors, fs.disk`transfers
      ensures fs.Valid() && (old(fs.Healthy()) && fs.disk.Reliable() ==> fs.Healthy())
      ensures old(fs.Healthy() && Stands(fs.Nodes())) && fs.disk.Reliable() ==>
                && FileAt(fs.Nodes(), path) && ContentsAt(fs.Nodes(), path) == []
                && Resolved(fs.Nodes(), path) == Resolved(old(fs.Nodes()), path)
      ensures fs.mounted && FileAt(old(fs.Nodes()), path) ==>
                && FileAt(fs.Nodes(), path)
                && ContentsAt(fs.Nodes(), path) ==
                   if fs.disk.Clear(old(fs.disk.transfers), ResolveReads(old(fs.Nodes()), path))
                   then [] else ContentsAt(old(fs.Nodes()), path)
    {
      ghost var m0, s0, v, t := fs.Memory(), fs.disk.sectors, fs.Nodes(), fs.disk.transfers;
      ghost var done;
      var ok;
      ok, done := fs.Write(path, 0, [], true);
      if fs.mounted && FileAt(v, path) {
        FinalizeOutcome(m0, s0, fs.Memory(), fs.disk.sectors, path, ok, done, fs.disk.Reliable());
      }
    }
  }

  /** An append whose stat fails for a transfer: a first chunk that is written replaces the beginning of the
      text that was to be kept. */
  method OverwrittenFromStart(fs: LuxFs, writer: FileWriter, data: seq<byte>)
    requires fs.Valid() && fs.mounted && FileAt(fs.Nodes(), writer.path) && Dense(ContentsAt(fs.Nodes(), writer.path))
    requires writer.offset == 0 && writer.text == [] && !writer.truncatePending && !writer.failed
    requires !fs.disk.Clear(fs.disk.transfers, ResolveReads(fs.Nodes(), writer.path)) && data != []
    modifies writer, fs`inodes, fs`blockBitmap, fs`lag, fs.disk`sectors, fs.disk`transfers
    ensures fs.Valid() && writer.path == old(writer.path)
    ensures !writer.failed ==>
              var base := Data(ContentsAt(old(fs.Nodes()), writer.path));
              && FileAt(fs.Nodes(), writer.path)
              && ContentsAt(fs.Nodes(), writer.path) == Stored(data + if |data| < |base| then base[|data|..] else [])
  {
    ghost var v := fs.Nodes();
    writer.SeekEnd(fs, v);
    writer.Emit(fs, data);
    FromStart(ContentsAt(v, writer.path), data);
  }

  lemma FromStart(c: Contents, data: seq<byte>)
    requires Dense(c) && data != []
    ensures Result(c, 0, data) == Stored(data + if |data| < |c| then Data(c)[|data|..] else [])
  {
  }

  lemma SamePlace(m0: Meta, s0: Sectors, m: Meta, s: Sectors, path: seq<byte>, offset: nat, data: seq<byte>,
                  truncate: bool, ok: bool, done: nat, reliable: bool)
    requires WellSized(m0) && WellSized(m) && FileAt(VolumeOf(m0.inodes, s0), path)
    requires WriteOutcome(m0, s0, m, s, Resolved(VolumeOf(m0.inodes, s0), path).value, offset, data, truncate, ok, done, reliable)
    ensures FileAt(VolumeOf(m.inodes, s), path)
    ensures Resolved(VolumeOf(m.inodes, s), path) == Resolved(VolumeOf(m0.inodes, s0), path)
  {
    var v, w := VolumeOf(m0.inodes, s0), VolumeOf(m.inodes, s);
    var i := Resolved(v, path).value;
    if Admissible(v[i], offset, data, truncate) {
      WriteKeepsTree(v, w, i);
    }
  }

  lemma OpenedAtEnd(v: Volume, w: Volume, path: seq<byte>)
    requires Opened(v, w, path) && NoHoles(v)
    ensures Dense(ContentsAt(w, path)) && Stored(Data(ContentsAt(w, path))) == OldContents(v, path)
  {
    StoredData(ContentsAt(w, path));
  }

  /** What opening the target leaves. */
  ghost predicate OpenOutcome(before: Volume, after: Volume, path: seq<byte>, ok: bool) {
    ok ==>
      && Opened(before, after, path)
      && (NoHoles(before) ==>
          && Dense(ContentsAt(after, path))
          && Stored(Data(ContentsAt(after, path))) == OldContents(before, path))
  }

  lemma TouchedFile(m0: Meta, s0: Sectors, m: Meta, s: Sectors, path: seq<byte>, ok: bool, child: nat)
    requires WellSized(m0) && WellSized(m) && CreateOutcome(m0, s0, m, s, path, false, ok, child)
    ensures OpenOutcome(VolumeOf(m0.inodes, s0), VolumeOf(m.inodes, s), path, ok)
    ensures ok ==> OpenedMeta(m0, s0, m, s, path)
    ensures ok <==> Openable(m0, s0, path)
    ensures !ok ==> m == m0 && VolumeOf(m.inodes, s) == VolumeOf(m0.inodes, s0)
  {
    var v, w := VolumeOf(m0.inodes, s0), VolumeOf(m.inodes, s);
    if ok {
      if Absent(v, path) {
        NewFileOpened(v, w, path, child);
      }
      if NoHoles(v) {
        OpenedAtEnd(v, w, path);
      }
    }
  }

  lemma NewFileOpened(v: Volume, w: Volume, path: seq<byte>, child: nat)
    requires Absent(v, path) && Created(v, w, path, false, child)
    ensures Opened(v, w, path) && !FileAt(v, path)
  {
  }

  lemma EmitOutcome(m0: Meta, s0: Sectors, m: Meta, s: Sectors, path: seq<byte>, text: seq<byte>, data: seq<byte>,
                    truncate: bool, ok: bool)
    requires WellSized(m0) && WellSized(m) && data != []
    requires WritesAt(m0, s0, m, s, path, |text|, data, truncate, ok)
    requires if truncate then text == [] else ContentsAt(VolumeOf(m0.inodes, s0), path) == Stored(text)
    ensures FileAt(VolumeOf(m.inodes, s), path)
    ensures ok ==> ContentsAt(VolumeOf(m.inodes, s), path) == Stored(text + data)
    ensures !ok && !truncate ==> ContentsAt(VolumeOf(m.inodes, s), path) == Stored(text)
  {
    var v, w := VolumeOf(m0.inodes, s0), VolumeOf(m.inodes, s);
    var i := Resolved(v, path).value;
    var done: nat :| WriteOutcome(m0, s0, m, s, i, |text|, data, truncate, ok, done, true);
    if Admissible(v[i], |text|, data, truncate) {
      WriteKeepsTree(v, w, i);
      if ok {
        AppendIsConcat(text, data);
        TruncateAndWrite(data);
        assert [] + data == data;
      } else if !truncate {
        StoppedAppendInvisible(Stored(text), data[..done]);
      }
    }
  }

  lemma FinalizeOutcome(m0: Meta, s0: Sectors, m: Meta, s: Sectors, path: seq<byte>, ok: bool, done: nat,
                        reliable: bool)
    requires WellSized(m0) && WellSized(m) && FileAt(VolumeOf(m0.inodes, s0), path)
    requires WriteOutcome(m0, s0, m, s, Resolved(VolumeOf(m0.inodes, s0), path).value, 0, [], true, ok, done, reliable)
    ensures FileAt(VolumeOf(m.inodes, s), path)
    ensures reliable ==> ContentsAt(VolumeOf(m.inodes, s), path) == []
    ensures Resolved(VolumeOf(m.inodes, s), path) == Resolved(VolumeOf(m0.inodes, s0), path)
  {
    var v, w := VolumeOf(m0.inodes, s0), VolumeOf(m.inodes, s);
    WriteKeepsTree(v, w, Resolved(v, path).value);
  }

  lemma ConcatStep(chunks: seq<seq<byte>>, k: nat)
    requires k < |chunks|
    ensures Concat(chunks[..k + 1]) == Concat(chunks[..k]) + chunks[k]
  {
    assert chunks[..k + 1][..k] == chunks[..k];
  }

  /** The old text and the first `k` chunks. */
  ghost predicate Accumulated(text: seq<byte>, base: seq<byte>, chunks: seq<seq<byte>>, k: nat) {
    k <= |chunks| && text == base + Concat(chunks[..k])
  }

  lemma AccumulatedStep(text: seq<byte>, base: seq<byte>, chunks: seq<seq<byte>>, k: nat)
    requires Accumulated(text, base, chunks, k) && k < |chunks|
    ensures Accumulated(text + chunks[k], base, chunks, k + 1)
  {
    ConcatStep(chunks, k);
  }

  // When a redirection finds room --------------------------------------------------------------------

  /** With `free` blocks left, the file of inode `n` can grow from `base`, or from nothing when truncated, to
      `text`. */
  predicate HasRoom(n: Inode, free: nat, base: seq<byte>, text: seq<byte>, truncate: bool)
    requires |base| <= |text|
  {
    && |text| <= MAX_FILE_SIZE
    && Missing(Start(n, truncate), |base|, |text| - |base|) <= free + Given(n, truncate)
  }

  lemma RoomIsSpace(m: Meta, i: nat, base: seq<byte>, text: seq<byte>, truncate: bool)
    requires WellSized(m) && i < MAX_INODES && |base| <= |text|
    ensures HasRoom(m.inodes[i], FreeBlocks(m.blockBitmap), base, text, truncate) <==>
            |text| <= MAX_FILE_SIZE && Space(m.inodes[i], m.blockBitmap, |base|, text[|base|..], truncate)
  {
  }

  /** Room for a text is room for whatever it starts with. */
  lemma RoomShorter(n: Inode, free: nat, base: seq<byte>, text: seq<byte>, rest: seq<byte>, truncate: bool)
    requires |base| <= |text| && HasRoom(n, free, base, text + rest, truncate)
    ensures HasRoom(n, free, base, text, truncate)
  {
    MissingMonotone(Start(n, truncate), |base|, |text| - |base|, |text + rest| - |base|, DIRECT_BLOCKS);
  }

  /** The file has grown from `base` to `text`, or its truncation is still pending. */
  predicate Progress(start: Meta, m: Meta, i: nat, base: seq<byte>, text: seq<byte>, truncate: bool, pending: bool)
    requires WellSized(start) && WellSized(m) && i < MAX_INODES && |base| <= |text|
  {
    && |text| <= MAX_FILE_SIZE
    && (if pending then m == start && truncate && base == text
        else Supplied(start.inodes[i], start.blockBitmap, m.inodes[i], m.blockBitmap, |base|, text[|base|..], truncate))
  }

  lemma ProgressHasRoom(start: Meta, m: Meta, i: nat, base: seq<byte>, text: seq<byte>, truncate: bool, pending: bool)
    requires WellSized(start) && WellSized(m) && i < MAX_INODES && |base| <= |text|
    requires Progress(start, m, i, base, text, truncate, pending)
    ensures HasRoom(start.inodes[i], FreeBlocks(start.blockBitmap), base, text, truncate)
  {
    if pending {
      MissingNothing(Emptied(start.inodes[i]), |base|, DIRECT_BLOCKS);
    }
    RoomIsSpace(start, i, base, text, truncate);
  }

  /** Where a redirection to the file `i` stands; a write that failed had no room for `next`. */
  ghost predicate Redirecting(start: Meta, m: Meta, v: Volume, path: seq<byte>, i: nat, base: seq<byte>, text: seq<byte>,
                              truncate: bool, pending: bool, failed: bool, next: seq<byte>, contents: Contents)
    requires WellSized(start) && WellSized(m)
  {
    && FileAt(v, path) && Resolved(v, path) == Some(i) && i < MAX_INODES && |base| <= |text|
    && (if failed then
          && HasRoom(start.inodes[i], FreeBlocks(start.blockBitmap), base, text, truncate)
          && !HasRoom(start.inodes[i], FreeBlocks(start.blockBitmap), base, text + next, truncate)
          && (pending ==> ContentsAt(v, path) == if |next| > MAX_FILE_SIZE then contents else [])
        else
          Progress(start, m, i, base, text, truncate, pending) && (pending ==> ContentsAt(v, path) == contents))
  }

  lemma EmitHasRoom(start: Meta, m1: Meta, m: Meta, i: nat, base: seq<byte>, text: seq<byte>, data: seq<byte>,
                    truncate: bool, pending: bool)
    requires WellSized(start) && WellSized(m1) && WellSized(m) && i < MAX_INODES && |base| <= |text|
    requires Progress(start, m1, i, base, text, truncate, pending) && (pending ==> base == [])
    ensures Space(m1.inodes[i], m1.blockBitmap, |text|, data, pending) && |text + data| <= MAX_FILE_SIZE <==>
              HasRoom(start.inodes[i], FreeBlocks(start.blockBitmap), base, text + data, truncate)
    ensures |text + data| <= MAX_FILE_SIZE
            && Supplied(m1.inodes[i], m1.blockBitmap, m.inodes[i], m.blockBitmap, |text|, data, pending) ==>
              Progress(start, m, i, base, text + data, truncate, false)
  {
    assert (text + data)[|base|..] == text[|base|..] + data;
    RoomIsSpace(start, i, base, text + data, truncate);
    if pending {
      assert text[|base|..] + data == data;
    } else {
      SuppliedMore(start.inodes[i], start.blockBitmap, m1.inodes[i], m1.blockBitmap, m.inodes[i], m.blockBitmap,
                   |base|, text[|base|..], data, truncate);
    }
  }

  lemma EmitRedirects(start: Meta, m1: Meta, s1: Sectors, m: Meta, s: Sectors, path: seq<byte>, i: nat, base: seq<byte>,
                      text: seq<byte>, data: seq<byte>, truncate: bool, pending: bool, ok: bool, contents: Contents)
    requires WellSized(start) && WellSized(m1) && WellSized(m)
    requires Redirecting(start, m1, VolumeOf(m1.inodes, s1), path, i, base, text, truncate, pending, false, [], contents)
    requires if pending then base == [] else ContentsAt(VolumeOf(m1.inodes, s1), path) == Stored(text)
    requires WritesAt(m1, s1, m, s, path, |text|, data, pending, ok)
    ensures Redirecting(start, m, VolumeOf(m.inodes, s), path, i, base, if ok then text + data else text, truncate,
                        pending && !ok, !ok, data, contents)
  {
    var v, w := VolumeOf(m1.inodes, s1), VolumeOf(m.inodes, s);
    var done: nat :| WriteOutcome(m1, s1, m, s, i, |text|, data, pending, ok, done, true);
    EmitHasRoom(start, m1, m, i, base, text, data, truncate, pending);
    ProgressHasRoom(start, m1, i, base, text, truncate, pending);
    if Admissible(v[i], |text|, data, pending) {
      WriteKeepsTree(v, w, i);
    }
  }

  /** The writer is open and nothing has been written yet. */
  lemma StartRedirects(m: Meta, s: Sectors, path: seq<byte>, base: seq<byte>, truncate: bool)
    requires Consistent(m, s) && FileAt(VolumeOf(m.inodes, s), path)
    requires Resolved(VolumeOf(m.inodes, s), path).value < MAX_INODES
    requires if truncate then base == [] else ContentsAt(VolumeOf(m.inodes, s), path) == Stored(base)
    ensures Redirecting(m, m, VolumeOf(m.inodes, s), path, Resolved(VolumeOf(m.inodes, s), path).value, base, base, truncate,
                        truncate, false, [], ContentsAt(VolumeOf(m.inodes, s), path))
  {
    var i := Resolved(VolumeOf(m.inodes, s), path).value;
    FileIsFile(m, s, i);
    assert InodeOk(m.inodes[i]);
    assert base[|base|..] == [];
    if !truncate {
      NothingSupplied(m.inodes[i], m.blockBitmap, m.inodes[i], m.blockBitmap, |base|, false);
    }
  }

  lemma {:induction false} ConcatStarts(chunks: seq<seq<byte>>, k: nat) returns (rest: seq<byte>)
    requires k <= |chunks|
    ensures Concat(chunks) == Concat(chunks[..k]) + rest
    decreases |chunks| - k
  {
    if k == |chunks| {
      assert chunks[..k] == chunks;
      rest := [];
    } else {
      rest := ConcatStarts(chunks, k + 1);
      ConcatStep(chunks, k);
      rest := chunks[k] + rest;
    }
  }

  /** Whether the redirection fails, and at which chunk, is decided by the room there was when it
      began. */
  predicate RoomDecides(n: Inode, free: nat, base: seq<byte>, chunks: seq<seq<byte>>, written: nat, truncate: bool, failed: bool)
  {
    && written <= |chunks|
    && (failed <==> !HasRoom(n, free, base, base + Concat(chunks), truncate))
    && HasRoom(n, free, base, base + Concat(chunks[..written]), truncate)
    && (if failed then
          written < |chunks| && !HasRoom(n, free, base, base + Concat(chunks[..written + 1]), truncate)
        else written == |chunks|)
  }

  lemma RoomDecided(start: Meta, m: Meta, v: Volume, path: seq<byte>, i: nat, base: seq<byte>, text: seq<byte>,
                    chunks: seq<seq<byte>>, written: nat, truncate: bool, pending: bool, failed: bool, contents: Contents)
    requires WellSized(start) && WellSized(m) && Accumulated(text, base, chunks, written)
    requires if failed then written < |chunks| else written == |chunks|
    requires Redirecting(start, m, v, path, i, base, text, truncate, pending, failed, Next(chunks, written), contents)
    ensures RoomDecides(start.inodes[i], FreeBlocks(start.blockBitmap), base, chunks, written, truncate, failed)
  {
    if failed {
      ConcatStep(chunks, written);
      assert text + chunks[written] == base + Concat(chunks[..written + 1]);
      var rest := ConcatStarts(chunks, written + 1);
      assert base + Concat(chunks) == base + Concat(chunks[..written + 1]) + rest;
      if HasRoom(start.inodes[i], FreeBlocks(start.blockBitmap), base, base + Concat(chunks), truncate) {
        RoomShorter(start.inodes[i], FreeBlocks(start.blockBitmap), base, base + Concat(chunks[..written + 1]), rest, truncate);
      }
    } else {
      assert chunks[..written] == chunks;
      ProgressHasRoom(start, m, i, base, text, truncate, pending);
    }
  }

  /** What a redirection leaves, decided by the room there was in the file when it began. */
  predicate Redirected(n: Inode, free: nat, v: Volume, path: seq<byte>, base: seq<byte>, chunks: seq<seq<byte>>, written: nat,
                       truncate: bool, pending: bool, failed: bool, contents: Contents)
  {
    && FileAt(v, path)
    && RoomDecides(n, free, base, chunks, written, truncate, failed)
    && ContentsAt(v, path) ==
       (if failed && pending then (if |chunks[written]| > MAX_FILE_SIZE then contents else [])
        else Stored(base + Concat(chunks[..written])))
  }

  lemma RedirectEnds(start: Meta, m: Meta, v: Volume, w: Volume, path: seq<byte>, i: nat, base: seq<byte>, text: seq<byte>,
                     chunks: seq<seq<byte>>, written: nat, truncate: bool, pending: bool, left: bool, failed: bool,
                     contents: Contents)
    requires WellSized(start) && WellSized(m) && Accumulated(text, base, chunks, written)
    requires if failed then written < |chunks| else written == |chunks|
    requires Redirecting(start, m, v, path, i, base, text, truncate, pending, failed, Next(chunks, written), contents)
    requires failed ==> w == v && left == pending && (!pending ==> ContentsAt(v, path) == Stored(text))
    requires !failed ==> Resolved(w, path) == Resolved(v, path) && FileAt(w, path) && ContentsAt(w, path) == Stored(text)
    ensures Redirected(start.inodes[i], FreeBlocks(start.blockBitmap), w, path, base, chunks, written, truncate, left,
                       failed, contents)
  {
    RoomDecided(start, m, v, path, i, base, text, chunks, written, truncate, pending, failed, contents);
  }

  /** Where the writer stands in a redirection. */
  ghost predicate Standing(fs: LuxFs, writer: FileWriter, start: Meta, i: nat, base: seq<byte>, truncate: bool,
                           next: seq<byte>, contents: Contents)
    requires WellSized(start) && fs.Valid()
    reads fs, fs.disk, writer
  {
    && (!writer.failed || !writer.truncatePending ==> writer.Stands(fs.Nodes()))
    && Redirecting(start, fs.Memory(), fs.Nodes(), writer.path, i, base, writer.text, truncate, writer.truncatePending,
                   writer.failed, next, contents)
  }

  /** Where the writer stands in a run with failed transfers: the file holds the text, or a truncation is
      pending and it holds what it held; a write that failed may have put `next` there all the same, or have
      truncated the file. */
  ghost predicate Keeping(fs: LuxFs, writer: FileWriter, next: seq<byte>, contents: Contents)
    requires fs.Valid()
    reads fs, fs.disk, writer
  {
    && fs.mounted && FileAt(fs.Nodes(), writer.path)
    && (!writer.failed ==> writer.Stands(fs.Nodes()))
    && (writer.truncatePending ==> writer.text == [])
    && MayHold(ContentsAt(fs.Nodes(), writer.path), writer.text, next, writer.truncatePending, writer.failed, contents)
  }

  predicate MayHold(c: Contents, text: seq<byte>, next: seq<byte>, pending: bool, failed: bool, contents: Contents) {
    || c == (if pending then contents else Stored(text))
    || (failed && (c == Stored(text) || c == Stored(text + next)))
  }

  /** What is left in every run: the old text and the chunks before the one that failed, or that one as well,
      or what the file held if the truncation was never made. */
  predicate LeftPart(v: Volume, path: seq<byte>, base: seq<byte>, chunks: seq<seq<byte>>, written: nat, truncate: bool,
                     failed: bool, contents: Contents)
  {
    && FileAt(v, path) && written <= |chunks|
    && (|| ContentsAt(v, path) == Stored(base + Concat(chunks[..written]))
        || (failed && written < |chunks| && ContentsAt(v, path) == Stored(base + Concat(chunks[..written + 1])))
        || (truncate && base + Concat(chunks[..written]) == [] && ContentsAt(v, path) == contents))
  }

  lemma LeftAtEnd(v: Volume, c: Contents, path: seq<byte>, base: seq<byte>, text: seq<byte>, chunks: seq<seq<byte>>, written: nat,
                  truncate: bool, pending: bool, failed: bool, contents: Contents)
    requires Accumulated(text, base, chunks, written) && (failed ==> written < |chunks|)
    requires (pending ==> truncate && text == []) && FileAt(v, path)
    requires MayHold(c, text, Next(chunks, written), pending, failed, contents)
    requires ContentsAt(v, path) == c || (!failed && pending && ContentsAt(v, path) == [])
    ensures LeftPart(v, path, base, chunks, written, truncate, failed, contents)
  {
    assert Stored([]) == [];
    if failed {
      ConcatStep(chunks, written);
      assert text + chunks[written] == base + Concat(chunks[..written + 1]);
    }
  }

  lemma KeptAfter(m: Meta, v: Volume, path: seq<byte>, text: seq<byte>, data: seq<byte>, pending: bool, disk: Disk, t: nat,
                  contents: Contents)
    requires WellSized(m) && FileAt(v, path) && Resolved(v, path).value < MAX_INODES && (pending ==> text == [])
    requires ContentsAt(v, path) == if pending then contents else Stored(text)
    ensures MayHold(LeftBy(m, v, path, text, data, pending, disk, t), text, data, pending, true, contents)
  {
  }

  /** One chunk of the command's output. */
  method EmitNext(fs: LuxFs, writer: FileWriter, data: seq<byte>, ghost start: Meta, ghost i: nat, ghost base: seq<byte>,
                  ghost truncate: bool, ghost next: seq<byte>, ghost contents: Contents)
    requires fs.Valid() && WellSized(start)
    modifies writer, fs`inodes, fs`blockBitmap, fs`lag, fs.disk`sectors, fs.disk`transfers
    ensures fs.Valid() && writer.path == old(writer.path)
    ensures writer.text == if writer.failed then old(writer.text) else old(writer.text) + data
    ensures old(writer.failed) ==> writer.failed
    ensures old(fs.Healthy()) && fs.disk.Reliable() ==> fs.Healthy()
    ensures old(fs.Healthy() && Standing(fs, writer, start, i, base, truncate, next, contents)) && fs.disk.Reliable() ==>
              Standing(fs, writer, start, i, base, truncate, if old(writer.failed) then next else data, contents)
    ensures old(Keeping(fs, writer, next, contents)) ==>
              Keeping(fs, writer, if old(writer.failed) then next else data, contents)
    ensures writer.truncatePending ==> old(writer.truncatePending)
  {
    ghost var m1, s1, text, pending, failed := fs.Memory(), fs.disk.sectors, writer.text, writer.truncatePending, writer.failed;
    EmitKeeping(fs, writer, data, next, contents);
    if !failed && data != [] && old(fs.Healthy() && writer.Stands(fs.Nodes())) && fs.disk.Reliable()
       && Redirecting(start, m1, VolumeOf(m1.inodes, s1), writer.path, i, base, text, truncate, pending, false, next, contents) {
      EmitRedirects(start, m1, s1, fs.Memory(), fs.disk.sectors, writer.path, i, base, text, data, truncate, pending,
                    !writer.failed, contents);
    }
    assert text + [] == text;
  }

  /** The same, with what it means for runs in which transfers fail. */
  method EmitKeeping(fs: LuxFs, writer: FileWriter, data: seq<byte>, ghost next: seq<byte>, ghost contents: Contents)
    requires fs.Valid()
    modifies writer, fs`inodes, fs`blockBitmap, fs`lag, fs.disk`sectors, fs.disk`transfers
    ensures fs.Valid() && writer.path == old(writer.path)
    ensures writer.text == if writer.failed then old(writer.text) else old(writer.text) + data
    ensures old(writer.failed) ==> writer.failed
    ensures old(fs.Healthy()) && fs.disk.Reliable() ==> fs.Healthy()
    ensures old(fs.Healthy() && writer.Stands(fs.Nodes())) && fs.disk.Reliable() ==>
              !writer.failed || !writer.truncatePending ==> writer.Stands(fs.Nodes())
    ensures old(writer.failed) || data == [] ==>
              && writer.failed == old(writer.failed) && writer.offset == old(writer.offset)
              && fs.Memory() == old(fs.Memory()) && fs.disk.sectors == old(fs.disk.sectors)
    ensures writer.truncatePending == (old(writer.truncatePending) && (writer.failed || data == []))
    ensures !old(writer.failed) && data != [] && old(fs.Healthy() && writer.Stands(fs.Nodes())) && fs.disk.Reliable() ==>
              WritesAt(old(fs.Memory()), old(fs.disk.sectors), fs.Memory(), fs.disk.sectors, writer.path, old(writer.offset),
                       data, old(writer.truncatePending), !writer.failed)
    ensures old(Keeping(fs, writer, next, contents)) ==>
              Keeping(fs, writer, if old(writer.failed) then next else data, contents)
  {
    ghost var m1, text, pending, failed := fs.Memory(), writer.text, writer.truncatePending, writer.failed;
    ghost var v, t, keeping := fs.Nodes(), fs.disk.transfers, Keeping(fs, writer, next, contents);
    writer.Emit(fs, data);
    if keeping && !failed && data != [] {
      KeptAfter(m1, v, writer.path, text, data, pending, fs.disk, t, contents);
    }
    assert text + [] == text;
  }

  /** All chunks of the command's output. */
  method EmitAll(fs: LuxFs, writer: FileWriter, chunks: seq<seq<byte>>, ghost start: Meta, ghost i: nat, ghost base: seq<byte>,
                 ghost truncate: bool, ghost contents: Contents)
    returns (ghost written: nat)
    requires fs.Valid() && WellSized(start) && !writer.failed && writer.text == base
    modifies writer, fs`inodes, fs`blockBitmap, fs`lag, fs.disk`sectors, fs.disk`transfers
    ensures fs.Valid() && writer.path == old(writer.path)
    ensures Accumulated(writer.text, base, chunks, written)
    ensures if writer.failed then written < |chunks| else written == |chunks|
    ensures old(fs.Healthy()) && fs.disk.Reliable() ==> fs.Healthy()
    ensures old(fs.Healthy() && Standing(fs, writer, start, i, base, truncate, [], contents)) && fs.disk.Reliable() ==>
              Standing(fs, writer, start, i, base, truncate, Next(chunks, written), contents)
    ensures old(Keeping(fs, writer, [], contents)) ==> Keeping(fs, writer, Next(chunks, written), contents)
    ensures writer.truncatePending ==> old(writer.truncatePending)
  {
    ghost var healthy, sound := fs.Healthy(), fs.Healthy() && Standing(fs, writer, start, i, base, truncate, [], contents);
    ghost var keeping := Keeping(fs, writer, [], contents);
    var k := 0;
    written := 0;
    assert base + Concat([]) == base;
    while k < |chunks|
      invariant 0 <= k <= |chunks| && writer.path == old(writer.path)
      invariant fs.Valid() && (healthy && fs.disk.Reliable() ==> fs.Healthy())
      invariant Accumulated(writer.text, base, chunks, written)
      invariant if writer.failed then written < k else written == k
      invariant sound && fs.disk.Reliable() ==>
                  Standing(fs, writer, start, i, base, truncate, if writer.failed then Next(chunks, written) else [], contents)
      invariant keeping ==>
                  Keeping(fs, writer, if writer.failed then Next(chunks, written) else [], contents)
      invariant writer.truncatePending ==> old(writer.truncatePending)
    {
      if !writer.failed {
        AccumulatedStep(writer.text, base, chunks, k);
      }
      EmitNext(fs, writer, chunks[k], start, i, base, truncate, if writer.failed then Next(chunks, written) else [], contents);
      k := k + 1;
      if !writer.failed {
        written := k;
      }
    }
  }

  function Next(chunks: seq<seq<byte>>, k: nat): seq<byte> {
    if k < |chunks| then chunks[k] else []
  }

  /** A redirected command from beginning to end: the writer is set up, takes the command's output
      chunk by chunk, and is finalized. On a sound volume without failed transfers this begins exactly
      if the target can be opened, and changes nothing otherwise; the target then
      holds the old text (none unless appending) and all the chunks, if there is room for that text;
      otherwise the old text and the chunks before the first for which there was none. If that was
      the first of all and a truncation was pending, the file is empty, or untouched if the chunk
      exceeds the largest file. The room is what a caller can see before: the target's blocks, or none
      if it is new, and the blocks that are free once its directory has its record. */
  method Redirect(fs: LuxFs, shell: Shell, target: seq<byte>, append: bool, chunks: seq<seq<byte>>)
    returns (writer: FileWriter, ok: bool, ghost base: seq<byte>, ghost written: nat)
    requires fs.Valid() && shell.Valid() && NUL !in target
    modifies fs`inodes, fs`inodeBitmap, fs`blockBitmap, fs`lag, fs.disk`sectors, fs.disk`transfers
    ensures fs.Valid() && fresh(writer)
    ensures old(fs.Healthy()) && fs.disk.Reliable() ==> fs.Healthy()
    ensures fs.mounted && FitsBuffer(shell.cwd, target, SHELL_PATH_MAX) ==>
              Segments(writer.path) == JoinedSegments(shell.cwd, target)
    ensures ok ==> fs.mounted && FitsBuffer(shell.cwd, target, SHELL_PATH_MAX)
    ensures old(fs.Healthy()) && fs.disk.Reliable() ==>
              && (ok <==> FitsBuffer(shell.cwd, target, SHELL_PATH_MAX)
                          && Openable(old(fs.Memory()), old(fs.disk.sectors), writer.path))
              && (!ok ==> fs.Memory() == old(fs.Memory()) && fs.Nodes() == old(fs.Nodes()))
    ensures ok ==> Accumulated(writer.text, base, chunks, written)
    ensures ok ==> if writer.failed then written < |chunks| else written == |chunks|
    ensures ok && old(fs.Healthy()) && fs.disk.Reliable() && NoHoles(old(fs.Nodes())) ==>
              && Stored(base) == (if append then OldContents(old(fs.Nodes()), writer.path) else [])
              && Redirected(TargetInode(old(fs.Memory()), old(fs.disk.sectors), writer.path),
                            TargetFree(old(fs.Memory()), old(fs.disk.sectors), writer.path),
                            fs.Nodes(), writer.path, base, chunks, written, !append, writer.truncatePending,
                            writer.failed, OldContents(old(fs.Nodes()), writer.path))
    ensures fs.mounted && FitsBuffer(shell.cwd, target, SHELL_PATH_MAX)
            && Found(old(fs.Nodes()), writer.path, append, fs.disk, old(fs.disk.transfers)) ==>
              && ok && Stored(base) == (if append then ContentsAt(old(fs.Nodes()), writer.path) else [])
              && LeftPart(fs.Nodes(), writer.path, base, chunks, written, !append, writer.failed,
                          ContentsAt(old(fs.Nodes()), writer.path))
  {
    writer := new FileWriter();
    ghost var m0, s0 := fs.Memory(), fs.disk.sectors;
    ok := writer.Init(fs, shell, target, append);
    base, written := writer.text, 0;
    if !ok {
      return;
    }
    written := FeedOpened(fs, writer, chunks, !append, m0, s0);
  }

  /** The writer is open on a target that was there or has just been made. */
  ghost predicate Begun(fs: LuxFs, writer: FileWriter, m0: Meta, s0: Sectors)
    requires WellSized(m0)
    reads fs, fs.disk, writer
  {
    && fs.Healthy() && writer.Stands(fs.Nodes())
    && OpenedMeta(m0, s0, fs.Memory(), fs.disk.sectors, writer.path)
    && Opened(VolumeOf(m0.inodes, s0), fs.Nodes(), writer.path)
  }

  /** The redirection once the writer is open, seen from before that. */
  method FeedOpened(fs: LuxFs, writer: FileWriter, chunks: seq<seq<byte>>, ghost truncate: bool, ghost m0: Meta,
                    ghost s0: Sectors)
    returns (ghost written: nat)
    requires fs.Valid() && !writer.failed && writer.truncatePending == truncate && WellSized(m0)
    modifies writer, fs`inodes, fs`blockBitmap, fs`lag, fs.disk`sectors, fs.disk`transfers
    ensures fs.Valid() && writer.path == old(writer.path)
    ensures Accumulated(writer.text, old(writer.text), chunks, written)
    ensures if writer.failed then written < |chunks| else written == |chunks|
    ensures old(fs.Healthy()) && fs.disk.Reliable() ==> fs.Healthy()
    ensures old(Begun(fs, writer, m0, s0)) && fs.disk.Reliable() ==>
              Redirected(TargetInode(m0, s0, writer.path), TargetFree(m0, s0, writer.path), fs.Nodes(), writer.path,
                         old(writer.text), chunks, written, truncate, writer.truncatePending, writer.failed,
                         OldContents(VolumeOf(m0.inodes, s0), writer.path))
    ensures old(Opening(fs, writer, OldContents(VolumeOf(m0.inodes, s0), writer.path))) ==>
              LeftPart(fs.Nodes(), writer.path, old(writer.text), chunks, written, truncate, writer.failed,
                       OldContents(VolumeOf(m0.inodes, s0), writer.path))
  {
    ghost var m, s, base := fs.Memory(), fs.disk.sectors, writer.text;
    ghost var contents := OldContents(VolumeOf(m0.inodes, s0), writer.path);
    written := Feed(fs, writer, chunks, truncate, contents);
    if old(Begun(fs, writer, m0, s0)) && fs.disk.Reliable() {
      RedirectedFrom(m0, s0, m, s, writer.path, fs.Nodes(), base, chunks, written, truncate, writer.truncatePending,
                     writer.failed, contents);
    }
  }

  /** The room after the opening is that which was seen before it. */
  lemma RedirectedFrom(m0: Meta, s0: Sectors, m: Meta, s: Sectors, path: seq<byte>, w: Volume, base: seq<byte>,
                       chunks: seq<seq<byte>>, written: nat, truncate: bool, pending: bool, failed: bool, contents: Contents)
    requires WellSized(m0) && WellSized(m) && OpenedMeta(m0, s0, m, s, path)
    requires Opened(VolumeOf(m0.inodes, s0), VolumeOf(m.inodes, s), path)
            && Resolved(VolumeOf(m.inodes, s), path).value < MAX_INODES
    requires Redirected(m.inodes[Resolved(VolumeOf(m.inodes, s), path).value], FreeBlocks(m.blockBitmap), w, path, base,
                        chunks, written, truncate, pending, failed, contents)
    ensures Redirected(TargetInode(m0, s0, path), TargetFree(m0, s0, path), w, path, base, chunks, written, truncate,
                       pending, failed, contents)
  {
    var i := Resolved(VolumeOf(m.inodes, s), path).value;
    if !FileAt(VolumeOf(m0.inodes, s0), path) {
      SameDecision(m.inodes[i], TargetInode(m0, s0, path), FreeBlocks(m.blockBitmap), base, chunks, written, truncate, failed);
    }
  }

  lemma SameDecision(n: Inode, m: Inode, free: nat, base: seq<byte>, chunks: seq<seq<byte>>, written: nat, truncate: bool,
                     failed: bool)
    requires n.direct == m.direct && RoomDecides(n, free, base, chunks, written, truncate, failed)
    ensures RoomDecides(m, free, base, chunks, written, truncate, failed)
  {
    SameRoom(n, m, free, base, base + Concat(chunks), truncate);
    SameRoom(n, m, free, base, base + Concat(chunks[..written]), truncate);
    if failed {
      SameRoom(n, m, free, base, base + Concat(chunks[..written + 1]), truncate);
    }
  }

  lemma SameRoom(n: Inode, m: Inode, free: nat, base: seq<byte>, text: seq<byte>, truncate: bool)
    requires n.direct == m.direct && |base| <= |text|
    ensures HasRoom(n, free, base, text, truncate) <==> HasRoom(m, free, base, text, truncate)
  {
    MissingSame(Start(n, truncate), Start(m, truncate), |base|, |text| - |base|, DIRECT_BLOCKS);
    HeldSame(n, m, DIRECT_BLOCKS);
  }

  /** A new target takes all of a text exactly if the blocks it reaches into are no more than are left once
      its directory has grown. */
  lemma NewTargetRoom(m: Meta, s: Sectors, path: seq<byte>, text: seq<byte>, truncate: bool)
    requires WellSized(m) && !FileAt(VolumeOf(m.inodes, s), path)
    ensures HasRoom(TargetInode(m, s, path), TargetFree(m, s, path), [], text, truncate) <==>
            |text| <= MAX_FILE_SIZE && BlocksTouched(0, |text|) <= TargetFree(m, s, path)
  {
    var n := TargetInode(m, s, path);
    NothingHeld(n, DIRECT_BLOCKS);
    if text == [] {
      MissingNothing(Start(n, truncate), 0, DIRECT_BLOCKS);
    } else if |text| <= MAX_FILE_SIZE {
      TouchedCount(Start(n, truncate), 0, |text|, DIRECT_BLOCKS);
    }
  }

  /** The redirection once the writer is open. */
  method Feed(fs: LuxFs, writer: FileWriter, chunks: seq<seq<byte>>, ghost truncate: bool, ghost contents: Contents)
    returns (ghost written: nat)
    requires fs.Valid() && !writer.failed && writer.truncatePending == truncate
    modifies writer, fs`inodes, fs`blockBitmap, fs`lag, fs.disk`sectors, fs.disk`transfers
    ensures fs.Valid() && writer.path == old(writer.path)
    ensures Accumulated(writer.text, old(writer.text), chunks, written)
    ensures if writer.failed then written < |chunks| else written == |chunks|
    ensures old(fs.Healthy()) && fs.disk.Reliable() ==> fs.Healthy()
    ensures old(Open(fs, writer, contents)) && fs.disk.Reliable() ==>
              var i := Resolved(old(fs.Nodes()), writer.path).value;
              && i < MAX_INODES
              && Redirected(old(fs.inodes)[i], FreeBlocks(old(fs.blockBitmap)), fs.Nodes(), writer.path, old(writer.text),
                            chunks, written, truncate, writer.truncatePending, writer.failed, contents)
    ensures old(Opening(fs, writer, contents)) ==>
              LeftPart(fs.Nodes(), writer.path, old(writer.text), chunks, written, truncate, writer.failed, contents)
  {
    ghost var start, i, base := fs.Memory(), 0, writer.text;
    if Open(fs, writer, contents) {
      i := Resolved(fs.Nodes(), writer.path).value;
      OpenStands(fs, writer, i, truncate, contents);
    }
    if Opening(fs, writer, contents) {
      OpeningKeeps(fs, writer, contents);
    }
    written := EmitAll(fs, writer, chunks, start, i, base, truncate, contents);
    Conclude(fs, writer, chunks, start, i, base, truncate, contents, written);
  }

  /** The writer is open and nothing has been written yet. */
  ghost predicate Open(fs: LuxFs, writer: FileWriter, contents: Contents)
    reads fs, fs.disk, writer
  {
    fs.Healthy() && writer.Stands(fs.Nodes()) && ContentsAt(fs.Nodes(), writer.path) == contents
  }

  /** The same in a run in which transfers may have failed. */
  ghost predicate Opening(fs: LuxFs, writer: FileWriter, contents: Contents)
    reads fs, fs.disk, writer
  {
    fs.Running() && writer.Stands(fs.Nodes()) && ContentsAt(fs.Nodes(), writer.path) == contents
  }

  lemma OpenStands(fs: LuxFs, writer: FileWriter, i: nat, truncate: bool, contents: Contents)
    requires Open(fs, writer, contents) && !writer.failed && writer.truncatePending == truncate
    requires i == Resolved(fs.Nodes(), writer.path).value
    ensures Standing(fs, writer, fs.Memory(), i, writer.text, truncate, [], contents)
  {
    StartRedirects(fs.Memory(), fs.disk.sectors, writer.path, writer.text, truncate);
  }

  lemma OpeningKeeps(fs: LuxFs, writer: FileWriter, contents: Contents)
    requires Opening(fs, writer, contents) && !writer.failed
    ensures Keeping(fs, writer, [], contents) && fs.Valid()
  {
  }

  /** The end of a redirection. */
  method Conclude(fs: LuxFs, writer: FileWriter, ghost chunks: seq<seq<byte>>, ghost start: Meta, ghost i: nat,
                  ghost base: seq<byte>, ghost truncate: bool, ghost contents: Contents, ghost written: nat)
    requires fs.Valid() && WellSized(start) && Accumulated(writer.text, base, chunks, written)
    requires if writer.failed then written < |chunks| else written == |chunks|
    modifies writer, fs`inodes, fs`blockBitmap, fs`lag, fs.disk`sectors, fs.disk`transfers
    ensures fs.Valid() && writer.path == old(writer.path) && writer.failed == old(writer.failed)
            && writer.text == old(writer.text)
    ensures old(fs.Healthy()) && fs.disk.Reliable() ==> fs.Healthy()
    ensures old(fs.Healthy() && Standing(fs, writer, start, i, base, truncate, Next(chunks, written), contents))
            && fs.disk.Reliable() ==>
              && i < MAX_INODES
              && Redirected(start.inodes[i], FreeBlocks(start.blockBitmap), fs.Nodes(), writer.path, base, chunks, written,
                            truncate, writer.truncatePending, writer.failed, contents)
    ensures old(Keeping(fs, writer, Next(chunks, written), contents) && (writer.truncatePending ==> truncate)) ==>
              LeftPart(fs.Nodes(), writer.path, base, chunks, written, truncate, writer.failed, contents)
  {
    ghost var m, v, pending := fs.Memory(), fs.Nodes(), writer.truncatePending;
    writer.Finalize(fs);
    if old(fs.Healthy() && Standing(fs, writer, start, i, base, truncate, Next(chunks, written), contents))
       && fs.disk.Reliable() {
      RedirectEnds(start, m, v, fs.Nodes(), writer.path, i, base, writer.text, chunks, written, truncate,
                   pending, writer.truncatePending, writer.failed, contents);
    }
    if old(Keeping(fs, writer, Next(chunks, written), contents) && (writer.truncatePending ==> truncate)) {
      LeftAtEnd(fs.Nodes(), ContentsAt(v, writer.path), writer.path, base, writer.text, chunks, written, truncate, pending,
                writer.failed, contents);
    }
  }
}
