/** The descriptor table of a traced process, with descriptors that share one open file. */
module Descriptors {
  import opened FileSystem
  import opened DiskOps
  import opened MicroOps
  import opened Compiler
  import opened Agreement
  import opened WriteCalls

  /** An open file: all descriptors that were duplicated from one another share it. */
  datatype Open = Open(name: Path, inode: nat, sync: bool, pos: nat)

  /** Descriptors, the open files they refer to, and the sizes of the files; F identifies open files. */
  datatype Tables<!F(==)> = Tables(fds: map<int, F>, files: map<F, Open>, sizes: map<nat, nat>)

  datatype FdCall<!F> =
    | On(fd: int, call: Call)
    | Dup(oldfd: int, newfd: int)
    | Dup2(oldfd: int, newfd: int)
    | Close(fd: int)
    | NewFd(fd: int, file: F, open: Open)

  function Referred<F(==)>(fds: map<int, F>): set<F> {
    set fd | fd in fds :: fds[fd]
  }

  /** Open files without a descriptor are gone. */
  function StillOpenFiles<F(==)>(fds: map<int, F>, files: map<F, Open>): map<F, Open> {
    map f | f in files && f in Referred(fds) :: files[f]
  }

  /** The descriptors of the process after a call.  dup2 and dup3 close the new descriptor if it is open;
      dup2 does nothing when both are the same. */
  function FdsAfter<F(==)>(fds: map<int, F>, call: FdCall<F>): map<int, F> {
    match call
    case On(_, _) => fds
    case Dup(oldfd, newfd) => if oldfd in fds then fds[newfd := fds[oldfd]] else fds
    case Dup2(oldfd, newfd) => if oldfd in fds then fds[newfd := fds[oldfd]] else fds
    case Close(fd) => fds - {fd}
    case NewFd(fd, file, _) => fds[fd := file]
  }

  /** The tracker's: for dup2 and dup3 it first drops the new descriptor, and then looks for the old one. */
  function TrackedFds<F(==)>(fds: map<int, F>, call: FdCall<F>): map<int, F> {
    match call
    case Dup2(oldfd, newfd) => FdsAfter(fds - {newfd}, Dup(oldfd, newfd))
    case _ => FdsAfter(fds, call)
  }

  function FilesAfter<F(==)>(fds: map<int, F>, files: map<F, Open>, call: FdCall<F>, pos: nat): map<F, Open> {
    match call
    case On(fd, _) => if fd in fds && fds[fd] in files then files[fds[fd] := files[fds[fd]].(pos := pos)] else files
    case Dup(_, _) => files
    case Dup2(_, _) => StillOpenFiles(fds, files)
    case Close(_) => StillOpenFiles(fds, files)
    case NewFd(_, file, open) => files[file := open]
  }

  predicate Refers<F(==)>(fds: map<int, F>, files: map<F, Open>, fd: int) {
    fd in fds && fds[fd] in files
  }

  // What the tracker does.

  predicate Tracking<F(==)>(t: Tables<F>, call: FdCall<F>) {
    call.On? ==> Refers(t.fds, t.files, call.fd) && t.files[t.fds[call.fd]].inode in t.sizes
  }

  function TrackedFile<F(==)>(t: Tables<F>, fd: int): Tracked
    requires Refers(t.fds, t.files, fd) && t.files[t.fds[fd]].inode in t.sizes
  {
    Tracked(t.files[t.fds[fd]].pos, t.sizes[t.files[t.fds[fd]].inode])
  }

  /** Calls on descriptors that the tracker does not know are passed over. */
  function TrackFd<F(==)>(t: Tables<F>, call: FdCall<F>): Tables<F> {
    match call
    case On(fd, c) =>
      if !Tracking(t, call) then t
      else
        var after := TrackCall(TrackedFile(t, fd), c);
        Tables(t.fds, FilesAfter(t.fds, t.files, call, after.pos), t.sizes[t.files[t.fds[fd]].inode := after.size])
    case _ =>
      var fds := TrackedFds(t.fds, call);
      Tables(fds, FilesAfter(fds, t.files, call, 0), t.sizes)
  }

  function OpsOfFd<F(==)>(t: Tables<F>, call: FdCall<F>): seq<MicroOp> {
    match call
    case On(fd, c) =>
      if !Tracking(t, call) then []
      else OpsOfCall(TrackedFile(t, fd), c, t.files[t.fds[fd]].name, t.files[t.fds[fd]].inode)
    case _ => []
  }

  // What POSIX has the calls do: to the tables of the process, and to the bytes of the files.

  datatype Process<!F(==)> = Process(fds: map<int, F>, files: map<F, Open>, fs: Fs)

  /** The call can be made, and the dump holds the bytes it writes. */
  predicate Legal<F(==)>(p: Process<F>, call: FdCall<F>, dumps: Dumps) {
    match call
    case On(fd, c) =>
      && Refers(p.fds, p.files, fd) && HasDump(c, dumps)
      && Traced(c, p.files[p.fds[fd]].name, p.files[p.fds[fd]].inode, dumps)
    case Dup(oldfd, newfd) => oldfd in p.fds && newfd !in p.fds
    case Dup2(oldfd, _) => oldfd in p.fds
    case Close(fd) => fd in p.fds
    case NewFd(fd, file, open) => fd !in p.fds && file !in p.files && p.fs.Resolve(open.name) == Some(FileNode(open.inode))
  }

  function PosixFd<F(==)>(p: Process<F>, call: FdCall<F>, dumps: Dumps): Process<F>
    requires Legal(p, call, dumps)
  {
    match call
    case On(fd, c) =>
      var file := p.files[p.fds[fd]];
      var (pos, bytes) := PosixCall(file.pos, p.fs.FileOf(file.inode), c, dumps);
      Process(p.fds, FilesAfter(p.fds, p.files, call, pos), SetBytes(p.fs, file.inode, bytes))
    case _ =>
      var fds := FdsAfter(p.fds, call);
      Process(fds, FilesAfter(fds, p.files, call, 0), p.fs)
  }

  predicate LegalRun<F(==)>(p: Process<F>, calls: seq<FdCall<F>>, dumps: Dumps)
    decreases |calls|
  {
    calls == [] || (Legal(p, calls[0], dumps) && LegalRun(PosixFd(p, calls[0], dumps), calls[1..], dumps))
  }

  /** The process after the first k calls. */
  function ProcessAt<F(==)>(p: Process<F>, calls: seq<FdCall<F>>, k: nat, dumps: Dumps): Process<F>
    requires LegalRun(p, calls, dumps) && k <= |calls|
    decreases k
  {
    if k == 0 then p else ProcessAt(PosixFd(p, calls[0], dumps), calls[1..], k - 1, dumps)
  }

  /** The tracker after the first k calls. */
  function TrackerAt<F(==)>(t: Tables<F>, calls: seq<FdCall<F>>, k: nat): Tables<F>
    requires k <= |calls|
    decreases k
  {
    if k == 0 then t else TrackerAt(TrackFd(t, calls[0]), calls[1..], k - 1)
  }

  function OpsOfRun<F(==)>(t: Tables<F>, calls: seq<FdCall<F>>): seq<MicroOp>
    decreases |calls|
  {
    if calls == [] then [] else OpsOfFd(t, calls[0]) + OpsOfRun(TrackFd(t, calls[0]), calls[1..])
  }

  /** dup2 of a descriptor onto itself. */
  predicate SelfDup<F(==)>(call: FdCall<F>) {
    call.Dup2? && call.oldfd == call.newfd
  }

  predicate NoSelfDup<F(==)>(calls: seq<FdCall<F>>) {
    forall k :: 0 <= k < |calls| ==> !SelfDup(calls[k])
  }

  /** The tracker knows the process: the same descriptors, open files and positions, and the real sizes. */
  ghost predicate Knows<F>(t: Tables<F>, p: Process<F>) {
    && p.fs.Valid() && t.fds == p.fds && t.files == p.files
    && (forall fd :: fd in p.fds ==> p.fds[fd] in p.files)
    && (forall f :: f in p.files ==> p.fs.Resolve(p.files[f].name) == Some(FileNode(p.files[f].inode)))
    && (forall i :: i in p.fs.files ==> i in t.sizes && t.sizes[i] == |p.fs.files[i]|)
  }

  // Main result for one call: its micro ops leave the bytes that POSIX says, and the tracker knows the
  // process afterwards if and only if the call does not duplicate a descriptor onto itself.
  lemma FdCallIsPosix<F>(t: Tables<F>, p: Process<F>, call: FdCall<F>, dumps: Dumps)
    requires Knows(t, p) && Legal(p, call, dumps)
    ensures Knows(TrackFd(t, call), PosixFd(p, call, dumps)) <==> !SelfDup(call)
    ensures WellFormedTrace(p.fs, OpsOfFd(t, call), dumps)
    ensures MicroReplay(p.fs, OpsOfFd(t, call), dumps) == Some(PosixFd(p, call, dumps).fs)
  {
    hide OpsOfCall, PosixCall, TrackCall, Fs.Valid, MicroReplay, WellFormedTrace;
    match call
    case On(_, _) => CallOnFdIsPosix(t, p, call, dumps);
    case Dup2(oldfd, newfd) =>
      NoOps(p.fs, dumps);
      if oldfd != newfd {
        assert TrackedFds(t.fds, call) == FdsAfter(p.fds, call);
      }
    case _ => NoOps(p.fs, dumps);
  }

  lemma CallOnFdIsPosix<F>(t: Tables<F>, p: Process<F>, call: FdCall<F>, dumps: Dumps)
    requires Knows(t, p) && Legal(p, call, dumps) && call.On?
    ensures Knows(TrackFd(t, call), PosixFd(p, call, dumps))
    ensures WellFormedTrace(p.fs, OpsOfFd(t, call), dumps)
    ensures MicroReplay(p.fs, OpsOfFd(t, call), dumps) == Some(PosixFd(p, call, dumps).fs)
  {
    hide OpsOfCall, PosixCall, TrackCall, Fs.Valid, MicroReplay, WellFormedTrace;
    var file := p.files[p.fds[call.fd]];
    KnownFile(p.fs, file.name, file.inode);
    CallIsPosix(p.fs, TrackedFile(t, call.fd), call.call, file.name, file.inode, dumps);
    var bytes := PosixCall(file.pos, p.fs.FileOf(file.inode), call.call, dumps).1;
    NewBytesValid(p.fs, file.name, file.inode, bytes);
    forall f | f in p.files ensures SetBytes(p.fs, file.inode, bytes).Resolve(p.files[f].name) == Some(FileNode(p.files[f].inode)) {
      ResolveAgrees(p.fs, SetBytes(p.fs, file.inode, bytes), p.files[f].name);
    }
  }

  lemma NoOps(fs: Fs, dumps: Dumps)
    ensures WellFormedTrace(fs, [], dumps) && MicroReplay(fs, [], dumps) == Some(fs)
  {
  }

  // The descriptor is lost: later calls on it leave nothing in the trace.
  lemma SelfDupLosesCalls<F>(t: Tables<F>, fd: int, c: Call)
    ensures OpsOfFd(TrackFd(t, Dup2(fd, fd)), On(fd, c)) == []
  {
  }

  lemma KnownFile(fs: Fs, name: Path, inode: nat)
    requires fs.Valid() && fs.Resolve(name) == Some(FileNode(inode))
    ensures inode in fs.files
  {
    ResolveIsEntry(fs, name);
  }

  // Over any run without such a call: the micro ops leave the bytes that POSIX says in every file, and the
  // tracker knows every position and every size at every point.
  lemma {:induction false} RunIsPosix<F>(t: Tables<F>, p: Process<F>, calls: seq<FdCall<F>>, dumps: Dumps)
    requires Knows(t, p) && LegalRun(p, calls, dumps) && NoSelfDup(calls)
    ensures forall k :: 0 <= k <= |calls| ==> Knows(TrackerAt(t, calls, k), ProcessAt(p, calls, k, dumps))
    ensures WellFormedTrace(p.fs, OpsOfRun(t, calls), dumps)
    ensures MicroReplay(p.fs, OpsOfRun(t, calls), dumps) == Some(ProcessAt(p, calls, |calls|, dumps).fs)
    decreases |calls|
  {
    hide Knows, Legal, PosixFd, TrackFd, OpsOfFd, SelfDup, MicroStep, WellFormed;
    if calls == [] {
      NoOps(p.fs, dumps);
    } else {
      FdCallIsPosix(t, p, calls[0], dumps);
      var next, first := PosixFd(p, calls[0], dumps), OpsOfFd(t, calls[0]);
      var rest := OpsOfRun(TrackFd(t, calls[0]), calls[1..]);
      RunIsPosix(TrackFd(t, calls[0]), next, calls[1..], dumps);
      MicroConcat(p.fs, first, rest, dumps);
      WellFormedConcat(p.fs, first, rest, dumps);
    }
  }

  // Main result for whole tables: over any run of calls on any descriptors, with duplicates and with several
  // opens of one file, the tracker knows the process at every point if and only if no call duplicates a
  // descriptor onto itself.
  lemma {:induction false} RunIsKnownIff<F>(t: Tables<F>, p: Process<F>, calls: seq<FdCall<F>>, dumps: Dumps)
    requires Knows(t, p) && LegalRun(p, calls, dumps)
    ensures (forall k :: 0 <= k <= |calls| ==> Knows(TrackerAt(t, calls, k), ProcessAt(p, calls, k, dumps))) <==> NoSelfDup(calls)
    decreases |calls|
  {
    hide Knows, Legal, PosixFd, TrackFd, SelfDup, MicroStep, WellFormed;
    if NoSelfDup(calls) {
      RunIsPosix(t, p, calls, dumps);
    } else {
      FdCallIsPosix(t, p, calls[0], dumps);
      var tracked, next := TrackFd(t, calls[0]), PosixFd(p, calls[0], dumps);
      if SelfDup(calls[0]) {
        assert TrackerAt(tracked, calls[1..], 0) == tracked && ProcessAt(next, calls[1..], 0, dumps) == next;
        NotKnownAt(t, p, calls, 1, dumps);
      } else {
        RunIsKnownIff(tracked, next, calls[1..], dumps);
        assert !NoSelfDup(calls[1..]);
        var k :| 0 <= k <= |calls[1..]| && !Knows(TrackerAt(tracked, calls[1..], k), ProcessAt(next, calls[1..], k, dumps));
        NotKnownAt(t, p, calls, k + 1, dumps);
      }
    }
  }

  lemma NotKnownAt<F>(t: Tables<F>, p: Process<F>, calls: seq<FdCall<F>>, i: nat, dumps: Dumps)
    requires LegalRun(p, calls, dumps) && i <= |calls| && !Knows(TrackerAt(t, calls, i), ProcessAt(p, calls, i, dumps))
    ensures !forall k :: 0 <= k <= |calls| ==> Knows(TrackerAt(t, calls, k), ProcessAt(p, calls, k, dumps))
  {
  }

  lemma {:induction false} OpsRenameNothing<F>(t: Tables<F>, calls: seq<FdCall<F>>)
    ensures forall op :: op in OpsOfRun(t, calls) ==> !op.Rename?
    decreases |calls|
  {
    hide TrackFd, OpsOfFd;
    if calls != [] {
      OneRenamesNothing(t, calls[0]);
      OpsRenameNothing(TrackFd(t, calls[0]), calls[1..]);
    }
  }

  lemma OneRenamesNothing<F>(t: Tables<F>, call: FdCall<F>)
    ensures forall op :: op in OpsOfFd(t, call) ==> !op.Rename?
  {
  }

  // From the calls to the disk: compiled in any way, and replayed as disk ops, the run leaves the tree that
  // the process leaves.
  lemma RunToDisk<F>(t: Tables<F>, p: Process<F>, calls: seq<FdCall<F>>, o: seq<Options>, dumps: Dumps)
    requires Knows(t, p) && LegalRun(p, calls, dumps) && NoSelfDup(calls) && ProperOptions(o, |OpsOfRun(t, calls)|)
    ensures var r := Replay(p.fs, CompileAll(OpsOfRun(t, calls), o), dumps);
            r.Some? && SameTree(ProcessAt(p, calls, |calls|, dumps).fs, r.value)
  {
    hide LegalRun, OpsOfRun, WellFormedTrace, MicroReplay, Replay, CompileAll, SameTree, Agree, ProcessAt, TrackerAt;
    var ops := OpsOfRun(t, calls);
    RunIsPosix(t, p, calls, dumps);
    OpsRenameNothing(t, calls);
    forall k | 0 <= k < |ops| ensures !UnsafeRename(ops[k], o[k]) {
      assert ops[k] in ops;
    }
    AgreeRefl(p.fs);
    TraceAgrees(p.fs, p.fs, ops, o, dumps);
    AgreeIsSameTree(MicroReplay(p.fs, ops, dumps).value, Replay(p.fs, CompileAll(ops, o), dumps).value);
  }

  /** What descriptors refer to.  Duplicates of a descriptor refer to the same object. */
  class OpenFile {
    const name: Path
    const inode: nat
    const sync: bool
    var pos: nat

    constructor (name: Path, inode: nat, sync: bool, pos: nat)
      ensures this.name == name && this.inode == inode && this.sync == sync && this.pos == pos
    {
      this.name, this.inode, this.sync, this.pos := name, inode, sync, pos;
    }
  }

  class FileDescriptorTracker {
    var details: map<int, OpenFile>
    /** The sizes of the files of the tracker's own copy of the tree. */
    var sizes: map<nat, nat>

    /** The tables as a value. */
    ghost function View(): Tables<OpenFile>
      reads this, Referred(details)
    {
      Tables(details, map f | f in Referred(details) :: Open(f.name, f.inode, f.sync, f.pos), sizes)
    }

    constructor ()
      ensures details == map[] && sizes == map[]
    {
      details, sizes := map[], map[];
    }

    /** new_fd_mapping: False where the assertion that the descriptor is new fails. */
    method NewMapping(fd: int, name: Path, inode: nat, sync: bool, pos: nat) returns (ok: bool)
      modifies this`details
      ensures ok <==> fd !in old(details)
      ensures ok ==> details.Keys == old(details).Keys + {fd} && fresh(details[fd])
                     && details[fd].name == name && details[fd].inode == inode && details[fd].sync == sync && details[fd].pos == pos
                     && forall g :: g in old(details) ==> details[g] == old(details)[g]
      ensures ok ==> View() == TrackFd(old(View()), NewFd(fd, details[fd], Open(name, inode, sync, pos)))
      ensures !ok ==> details == old(details)
    {
      ok := fd !in details;
      if ok {
        var file := new OpenFile(name, inode, sync, pos);
        details := details[fd := file];
      }
    }

    /** set_equivalent */
    method SetEquivalent(oldfd: int, newfd: int) returns (ok: bool)
      modifies this`details
      ensures ok <==> oldfd in old(details) && newfd !in old(details)
      ensures details == if ok then old(details)[newfd := old(details)[oldfd]] else old(details)
      ensures ok ==> View() == TrackFd(old(View()), Dup(oldfd, newfd))
    {
      ok := oldfd in details && newfd !in details;
      if ok {
        ghost var before := details;
        details := details[newfd := details[oldfd]];
        assert forall fd :: fd in before ==> details[fd] == before[fd];
      }
    }

    /** dup2 and dup3: the new descriptor is dropped, and then shares what the old one refers to. */
    method Duplicate(oldfd: int, newfd: int)
      modifies this`details
      ensures View() == TrackFd(old(View()), Dup2(oldfd, newfd))
    {
      ghost var start := details;
      if newfd in details {
        var removed := RemoveMapping(newfd);
      }
      assert details == start - {newfd};
      if oldfd in details {
        var shared := SetEquivalent(oldfd, newfd);
      }
      assert View().files == TrackFd(old(View()), Dup2(oldfd, newfd)).files;
    }

    /** remove_fd_mapping: other descriptors of the same file stay. */
    method RemoveMapping(fd: int) returns (ok: bool)
      modifies this`details
      ensures ok <==> fd in old(details)
      ensures details == old(details) - {fd}
      ensures ok ==> View() == TrackFd(old(View()), Close(fd))
    {
      ok := fd in details;
      details := details - {fd};
    }

    /** set_pos, seen through every descriptor. */
    method SetPos(fd: int, pos: nat)
      requires fd in details
      modifies details[fd]
      ensures forall g :: g in details ==> details[g].pos == if details[g] == details[fd] then pos else old(details[g].pos)
      ensures details[fd].inode in sizes ==> View() == TrackFd(old(View()), On(fd, Seek(pos)))
    {
      details[fd].pos := pos;
    }

    /** The write branch.  `at` is the offset argument of the positioned calls; None is returned where
        an assertion fails. */
    method Write(fd: int, at: Option<nat>, byteCount: nat, dumpFile: string, dumpStart: nat) returns (r: Option<seq<MicroOp>>)
      requires fd in details && details[fd].inode in sizes
      modifies this`sizes, details[fd]
      ensures var file, size := old(details[fd]), old(sizes[details[fd].inode]);
              var pos := if at.Some? then at.value else old(details[fd].pos);
              var a := WriteArgs(file.name, file.inode, file.sync, byteCount, dumpFile, dumpStart);
              var call := On(fd, if at.Some? then PositionedWrite(a, at.value) else Call.Write(a));
              && (Rejected(pos, byteCount, size) ==> r == None && View() == old(View()))
              && (!Rejected(pos, byteCount, size) ==> r == Some(WriteOps(a, pos, size)) == Some(OpsOfFd(old(View()), call))
                                                      && View() == TrackFd(old(View()), call))
    {
      hide WriteOps, SizeAfter;
      var file := details[fd];
      var pos := if at.Some? then at.value else file.pos;
      var a := WriteArgs(file.name, file.inode, file.sync, byteCount, dumpFile, dumpStart);
      ghost var call := On(fd, if at.Some? then PositionedWrite(a, at.value) else Call.Write(a));
      var ops, end, newSize := Decompose(a, pos, sizes[file.inode]);
      if ops.None? {
        return None;
      }
      sizes := sizes[file.inode := newSize];
      if at.None? {
        SetPos(fd, end);
      }
      assert View().files == TrackFd(old(View()), call).files;
      r := ops;
    }

    /** The arithmetic of the write branch: the micro ops, the position behind the bytes, and the new size of
        the tracker's copy of the file. */
    static method Decompose(a: WriteArgs, start: nat, oldSize: nat) returns (r: Option<seq<MicroOp>>, end: nat, newSize: nat)
      ensures r == if Rejected(start, a.count, oldSize) then None else Some(WriteOps(a, start, oldSize))
      ensures end == start + a.count && newSize == SizeAfter(start, a.count, oldSize)
    {
      var pos, count, size, dumpOffset := start, a.count, oldSize, a.dumpOffset;
      end, newSize := start + count, oldSize;
      var ops: seq<MicroOp> := [];
      var overwriteSize: nat := 0;
      if pos < size {
        if pos + count < size {
          overwriteSize := count;
        } else {
          overwriteSize := size - pos;
        }
        if overwriteSize == 0 {
          return None, end, newSize;
        }
        ops := ops + [Overwrite(a.name, a.inode, pos, overwriteSize, a.dumpFile, dumpOffset)];
        if a.sync {
          ops := ops + [SyncRange(a.name, a.inode, pos, overwriteSize)];
        }
      }
      assert ops == if pos < size then [Overwrite(a.name, a.inode, pos, overwriteSize, a.dumpFile, dumpOffset)] + SyncAfter(a, pos, overwriteSize) else [];
      pos := pos + overwriteSize;
      count := count - overwriteSize;
      dumpOffset := dumpOffset + overwriteSize;
      if pos > size {
        ops := ops + [Trunc(a.name, a.inode, size, pos)];
        newSize := size;   // the tracker's copy is not grown here
        size := pos;
      }
      if pos + count > size {
        ops := ops + [Append(a.name, a.inode, pos, count, a.dumpFile, dumpOffset)];
        newSize := pos + count;
        if a.sync {
          ops := ops + [SyncRange(a.name, a.inode, pos, count)];
        }
      }
      assert ops == WriteOps(a, start, oldSize);
      r := Some(ops);
    }
  }
}
