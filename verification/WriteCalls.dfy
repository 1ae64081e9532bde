/** The write family of system calls: descriptors, positions, sizes, and the micro ops of one call. */
module WriteCalls {
  import opened FileBytes
  import opened FileSystem
  import opened DiskOps
  import opened MicroOps
  import opened Compiler
  import opened Agreement

  /** How much of a write lies inside the file as it is. */
  function OverwriteSize(pos: nat, count: nat, size: nat): nat {
    if pos < size then (if pos + count < size then count else size - pos) else 0
  }

  /** One write call, as the trace shows it. */
  datatype WriteArgs = WriteArgs(name: Path, inode: nat, sync: bool, count: nat, dumpFile: string, dumpOffset: nat)

  function SyncAfter(a: WriteArgs, offset: nat, count: nat): seq<MicroOp> {
    if a.sync then [SyncRange(a.name, a.inode, offset, count)] else []
  }

  /** The micro ops of a call: the part inside the file is a write, a gap is a truncate, and the part
      behind the end is an append. */
  function WriteOps(a: WriteArgs, pos: nat, size: nat): seq<MicroOp> {
    var n := OverwriteSize(pos, a.count, size);
    (if pos < size then [Overwrite(a.name, a.inode, pos, n, a.dumpFile, a.dumpOffset)] + SyncAfter(a, pos, n) else [])
    + (if pos > size then [Trunc(a.name, a.inode, size, pos)] else [])
    + (if pos + a.count > Max(pos, size)
       then [Append(a.name, a.inode, pos + n, a.count - n, a.dumpFile, a.dumpOffset + n)] + SyncAfter(a, pos + n, a.count - n)
       else [])
  }

  /** The size of the tracker's own copy of the file after the call. */
  function SizeAfter(pos: nat, count: nat, size: nat): nat {
    if count > 0 && pos + count > size then pos + count else size
  }

  /** An assertion of the tracker fails when there is nothing to write inside the file. */
  predicate Rejected(pos: nat, count: nat, size: nat) {
    pos < size && count == 0
  }

  // What POSIX says of write and pwrite is PWrite: a gap reads as zeros, bytes inside the file are
  // replaced, bytes behind the end extend it, and writing nothing does nothing.

  /** The call's file is open under its name, has the tracked size, and the dump holds the bytes. */
  ghost predicate Ready(fs: Fs, a: WriteArgs, size: nat, dumps: Dumps) {
    && fs.Valid() && fs.Resolve(a.name) == Some(FileNode(a.inode)) && size == |fs.FileOf(a.inode)|
    && InDump(dumps, a.dumpFile, a.dumpOffset, a.count)
  }

  function Data(a: WriteArgs, dumps: Dumps): Content
    requires a.dumpFile in dumps
  {
    ReadDump(dumps, a.dumpFile, a.dumpOffset, a.count)
  }

  lemma StillOpen(fs: Fs, a: WriteArgs, c: Content, dumps: Dumps)
    requires fs.Valid() && fs.Resolve(a.name) == Some(FileNode(a.inode))
    ensures var next := SetBytes(fs, a.inode, c);
            && next.Valid() && next.Resolve(a.name) == Some(FileNode(a.inode)) && next.FileOf(a.inode) == c
            && OpenNamed(next, a.name) == Some(a.inode)
  {
    ResolveAgrees(fs, SetBytes(fs, a.inode, c), a.name);
    NewBytesValid(fs, a.name, a.inode, c);
  }

  // One op of the call, well formed, and then the rest.
  lemma StepThen(fs: Fs, op: MicroOp, rest: seq<MicroOp>, next: Fs, dumps: Dumps)
    requires WellFormed(fs, op, dumps) && MicroStep(fs, op, dumps) == Some(next) && WellFormedTrace(next, rest, dumps)
    ensures WellFormedTrace(fs, [op] + rest, dumps)
    ensures MicroReplay(fs, [op] + rest, dumps) == MicroReplay(next, rest, dumps)
  {
    assert ([op] + rest)[1..] == rest;
  }

  lemma SyncThen(fs: Fs, a: WriteArgs, offset: nat, count: nat, rest: seq<MicroOp>, dumps: Dumps)
    requires WellFormedTrace(fs, rest, dumps)
    ensures WellFormedTrace(fs, SyncAfter(a, offset, count) + rest, dumps)
    ensures MicroReplay(fs, SyncAfter(a, offset, count) + rest, dumps) == MicroReplay(fs, rest, dumps)
  {
    if a.sync {
      StepThen(fs, SyncRange(a.name, a.inode, offset, count), rest, fs, dumps);
    } else {
      assert [] + rest == rest;
    }
  }

  // The part behind the end of the file.
  lemma AppendPart(fs: Fs, a: WriteArgs, n: nat, dumps: Dumps)
    requires Ready(fs, a, |fs.FileOf(a.inode)|, dumps) && n < a.count
    ensures var c, m := fs.FileOf(a.inode), a.count - n;
            var ops := [Append(a.name, a.inode, |c|, m, a.dumpFile, a.dumpOffset + n)] + SyncAfter(a, |c|, m);
            && WellFormedTrace(fs, ops, dumps)
            && MicroReplay(fs, ops, dumps) == Some(SetBytes(fs, a.inode, c + ReadDump(dumps, a.dumpFile, a.dumpOffset + n, m)))
  {
    hide ReadDump, PWrite, Resize;
    var c, m := fs.FileOf(a.inode), a.count - n;
    var data := ReadDump(dumps, a.dumpFile, a.dumpOffset + n, m);
    var op := Append(a.name, a.inode, |c|, m, a.dumpFile, a.dumpOffset + n);
    var next := SetBytes(fs, a.inode, c + data);
    StillOpen(fs, a, c, dumps);
    NewBytesValid(fs, a.name, a.inode, c);
    ReadDumpSplit(dumps, a.dumpFile, a.dumpOffset + n, m, 0);
    AppendIsResizeAndWrite(c, m, data);
    SyncThen(next, a, |c|, m, [], dumps);
    assert SyncAfter(a, |c|, m) + [] == SyncAfter(a, |c|, m);
    StepThen(fs, op, SyncAfter(a, |c|, m), next, dumps);
  }

  // Main result for one call with something to write: its micro ops are well formed one after the
  // other, together they are the POSIX write, and the tracked size is the size of the file.
  lemma WriteIsPosix(fs: Fs, a: WriteArgs, pos: nat, size: nat, dumps: Dumps)
    requires Ready(fs, a, size, dumps) && a.count > 0
    ensures WellFormedTrace(fs, WriteOps(a, pos, size), dumps)
    ensures MicroReplay(fs, WriteOps(a, pos, size), dumps)
         == Some(SetBytes(fs, a.inode, PWrite(fs.FileOf(a.inode), pos, Data(a, dumps))))
    ensures SizeAfter(pos, a.count, size) == |PWrite(fs.FileOf(a.inode), pos, Data(a, dumps))|
  {
    hide ReadDump, PWrite, Resize, MicroReplay, WellFormedTrace;
    var c, data := fs.FileOf(a.inode), Data(a, dumps);
    ReadDumpSplit(dumps, a.dumpFile, a.dumpOffset, a.count, 0);
    PWriteAt(c, pos, data, 0);
    if pos < size {
      InsideThenAppend(fs, a, pos, size, dumps);
    } else if pos > size {
      GapThenAppend(fs, a, pos, size, dumps);
    } else {
      AppendPart(fs, a, 0, dumps);
      PWriteAtEnd(c, data);
      assert WriteOps(a, pos, size) == [Append(a.name, a.inode, pos, a.count, a.dumpFile, a.dumpOffset)] + SyncAfter(a, pos, a.count);
    }
  }

  lemma GapThenAppend(fs: Fs, a: WriteArgs, pos: nat, size: nat, dumps: Dumps)
    requires Ready(fs, a, size, dumps) && a.count > 0 && pos > size
    ensures WellFormedTrace(fs, WriteOps(a, pos, size), dumps)
    ensures MicroReplay(fs, WriteOps(a, pos, size), dumps)
         == Some(SetBytes(fs, a.inode, PWrite(fs.FileOf(a.inode), pos, Data(a, dumps))))
  {
    hide ReadDump, PWrite, Resize;
    var c, data := fs.FileOf(a.inode), Data(a, dumps);
    var grown := SetBytes(fs, a.inode, Resize(c, pos));
    var appendOps := [Append(a.name, a.inode, pos, a.count, a.dumpFile, a.dumpOffset)] + SyncAfter(a, pos, a.count);
    StillOpen(fs, a, Resize(c, pos), dumps);
    NewBytesValid(fs, a.name, a.inode, Resize(c, pos));
    ResizeSize(c, pos);
    AppendPart(grown, a, 0, dumps);
    StepThen(fs, Trunc(a.name, a.inode, size, pos), appendOps, grown, dumps);
    ReadDumpSplit(dumps, a.dumpFile, a.dumpOffset, a.count, 0);
    GapIsZeros(c, pos, data);
    assert grown.files[a.inode := Resize(c, pos) + data] == fs.files[a.inode := Resize(c, pos) + data];
    assert WriteOps(a, pos, size) == [Trunc(a.name, a.inode, size, pos)] + appendOps;
  }

  lemma ResizeSize(c: Content, n: nat)
    ensures |Resize(c, n)| == n
  {
  }

  lemma GapIsZeros(c: Content, pos: nat, data: Content)
    requires pos >= |c| && data != []
    ensures PWrite(c, pos, data) == Resize(c, pos) + data
  {
  }

  // The part inside the file.
  lemma InsidePart(fs: Fs, a: WriteArgs, pos: nat, n: nat, rest: seq<MicroOp>, dumps: Dumps)
    requires Ready(fs, a, |fs.FileOf(a.inode)|, dumps) && 0 < n <= a.count && pos + n <= |fs.FileOf(a.inode)|
    requires WellFormedTrace(SetBytes(fs, a.inode, PWrite(fs.FileOf(a.inode), pos, ReadDump(dumps, a.dumpFile, a.dumpOffset, n))), rest, dumps)
    ensures var c1 := PWrite(fs.FileOf(a.inode), pos, ReadDump(dumps, a.dumpFile, a.dumpOffset, n));
            var next, ops := SetBytes(fs, a.inode, c1), [Overwrite(a.name, a.inode, pos, n, a.dumpFile, a.dumpOffset)] + SyncAfter(a, pos, n) + rest;
            && WellFormedTrace(fs, ops, dumps) && MicroReplay(fs, ops, dumps) == MicroReplay(next, rest, dumps)
  {
    hide ReadDump, PWrite, WellFormedTrace, MicroReplay;
    var c1 := PWrite(fs.FileOf(a.inode), pos, ReadDump(dumps, a.dumpFile, a.dumpOffset, n));
    var next, op := SetBytes(fs, a.inode, c1), Overwrite(a.name, a.inode, pos, n, a.dumpFile, a.dumpOffset);
    NewBytesValid(fs, a.name, a.inode, c1);
    SyncThen(next, a, pos, n, rest, dumps);
    StepThen(fs, op, SyncAfter(a, pos, n) + rest, next, dumps);
    assert [op] + SyncAfter(a, pos, n) + rest == [op] + (SyncAfter(a, pos, n) + rest);
  }

  lemma EmptyTrace(fs: Fs, dumps: Dumps)
    ensures WellFormedTrace(fs, [], dumps) && MicroReplay(fs, [], dumps) == Some(fs)
  {
  }

  lemma InsideThenAppend(fs: Fs, a: WriteArgs, pos: nat, size: nat, dumps: Dumps)
    requires Ready(fs, a, size, dumps) && a.count > 0 && pos < size
    ensures WellFormedTrace(fs, WriteOps(a, pos, size), dumps)
    ensures MicroReplay(fs, WriteOps(a, pos, size), dumps)
         == Some(SetBytes(fs, a.inode, PWrite(fs.FileOf(a.inode), pos, Data(a, dumps))))
  {
    hide ReadDump, PWrite, Resize, MicroStep, WellFormed, MicroReplay, WellFormedTrace;
    var n := OverwriteSize(pos, a.count, size);
    var c := fs.FileOf(a.inode);
    var x, y := ReadDump(dumps, a.dumpFile, a.dumpOffset, n), ReadDump(dumps, a.dumpFile, a.dumpOffset + n, a.count - n);
    ReadDumpSplit(dumps, a.dumpFile, a.dumpOffset, n, a.count - n);
    PWriteAt(c, pos, x, 0);
    var c1 := PWrite(c, pos, x);
    var next := SetBytes(fs, a.inode, c1);
    StillOpen(fs, a, c1, dumps);
    var rest: seq<MicroOp> := [];
    EmptyTrace(next, dumps);
    if n < a.count {
      rest := [Append(a.name, a.inode, pos + n, a.count - n, a.dumpFile, a.dumpOffset + n)] + SyncAfter(a, pos + n, a.count - n);
      AppendPart(next, a, n, dumps);
      PWriteSplit(c, pos, x, y);
      PWriteAtEnd(c1, y);
      assert next.files[a.inode := c1 + y] == fs.files[a.inode := c1 + y];
    }
    InsidePart(fs, a, pos, n, rest, dumps);
    assert WriteOps(a, pos, size) == [Overwrite(a.name, a.inode, pos, n, a.dumpFile, a.dumpOffset)] + SyncAfter(a, pos, n) + rest;
  }

  // For every call: it is accepted and its micro ops are the POSIX write exactly when there is something
  // to write, or the position is the end of the file.  Of the calls that write nothing, one inside the
  // file fails an assertion, and one behind the end makes the file grow.
  lemma WriteIsPosixIff(fs: Fs, a: WriteArgs, pos: nat, size: nat, dumps: Dumps)
    requires Ready(fs, a, size, dumps)
    ensures && !Rejected(pos, a.count, size)
            && MicroReplay(fs, WriteOps(a, pos, size), dumps)
               == Some(SetBytes(fs, a.inode, PWrite(fs.FileOf(a.inode), pos, Data(a, dumps))))
       <==> a.count > 0 || pos == size
  {
    if a.count > 0 {
      WriteIsPosix(fs, a, pos, size, dumps);
    } else {
      var c := fs.FileOf(a.inode);
      assert Data(a, dumps) == [] && PWrite(c, pos, []) == c;
      NewBytesValid(fs, a.name, a.inode, c);
      assert fs.files[a.inode := c] == fs.files;
      if pos > size {
        var op := Trunc(a.name, a.inode, size, pos);
        assert WriteOps(a, pos, size) == [op];
        assert MicroReplay(fs, [op], dumps) == Some(SetBytes(fs, a.inode, Resize(c, pos))) by {
          var next := SetBytes(fs, a.inode, Resize(c, pos));
          assert MicroReplay(next, [], dumps) == Some(next);
        }
        assert SetBytes(fs, a.inode, Resize(c, pos)).FileOf(a.inode) != c;
      } else if pos == size {
        assert WriteOps(a, pos, size) == [];
      }
    }
  }

  // The tracker's own copy of the file has the size of the replayed one exactly when there was something to
  // write or no gap: it is not grown for a gap alone.
  lemma TrackedSizeIsRightIff(fs: Fs, a: WriteArgs, pos: nat, size: nat, dumps: Dumps)
    requires Ready(fs, a, size, dumps) && !Rejected(pos, a.count, size)
    ensures var r := MicroReplay(fs, WriteOps(a, pos, size), dumps);
            && r.Some?
            && (SizeAfter(pos, a.count, size) == |r.value.FileOf(a.inode)| <==> a.count > 0 || pos <= size)
  {
    if a.count > 0 {
      WriteIsPosix(fs, a, pos, size, dumps);
    } else if pos > size {
      var op, next := Trunc(a.name, a.inode, size, pos), SetBytes(fs, a.inode, Resize(fs.FileOf(a.inode), pos));
      NewBytesValid(fs, a.name, a.inode, fs.FileOf(a.inode));
      EmptyTrace(next, dumps);
      assert WriteOps(a, pos, size) == [op] && [op][1..] == [];
    } else {
      assert WriteOps(a, pos, size) == [];
      EmptyTrace(fs, dumps);
    }
  }

  predicate Covers(op: MicroOp, k: nat) {
    op.SyncRange? && op.offset <= k < op.offset + op.count
  }

  predicate Synced(ops: seq<MicroOp>, k: nat) {
    exists op :: op in ops && Covers(op, k)
  }

  predicate SameRange(sync: MicroOp, op: MicroOp) {
    sync.SyncRange? && (op.Append? || op.Overwrite?)
    && sync.name == op.name && sync.inode == op.inode && sync.offset == op.offset && sync.count == op.count
  }

  // A call writes from left to right.  A descriptor opened with O_SYNC syncs what it writes, each part right behind the op that writes it, and
  // nothing else; another descriptor syncs nothing.
  lemma WriteIsSynced(a: WriteArgs, pos: nat, size: nat)
    requires a.count > 0
    ensures var ops := WriteOps(a, pos, size);
            && (forall i :: 0 <= i < |ops| && ops[i].SyncRange? ==> a.sync && i > 0 && SameRange(ops[i], ops[i - 1]))
            && (forall i :: 0 <= i < |ops| && a.sync && (ops[i].Append? || ops[i].Overwrite?) ==> i + 1 < |ops| && SameRange(ops[i + 1], ops[i]))
            && (forall k: nat :: Synced(ops, k) <==> a.sync && pos <= k < pos + a.count)
            && (forall i, j :: 0 <= i < j < |ops| && (ops[i].Append? || ops[i].Overwrite?) && (ops[j].Append? || ops[j].Overwrite?) ==>
                  ops[i].offset + ops[i].count <= ops[j].offset)
  {
    var n, ops := OverwriteSize(pos, a.count, size), WriteOps(a, pos, size);
    var inside, behind := SyncRange(a.name, a.inode, pos, n), SyncRange(a.name, a.inode, pos + n, a.count - n);
    forall k: nat ensures Synced(ops, k) <==> a.sync && pos <= k < pos + a.count {
      if a.sync && pos <= k < pos + a.count {
        if k < pos + n {
          assert ops[1] == inside && Covers(inside, k);
        } else {
          assert ops[|ops| - 1] == behind && Covers(behind, k);
        }
      }
      if op :| op in ops && Covers(op, k) {
        assert op == inside || op == behind;
      }
    }
  }

  // From the call to the disk: compiled in any way, and replayed as disk ops, the call leaves the bytes
  // that POSIX says, in a tree that is otherwise the same.
  lemma WriteToDisk(fs: Fs, a: WriteArgs, pos: nat, size: nat, o: seq<Options>, dumps: Dumps)
    requires Ready(fs, a, size, dumps) && a.count > 0 && ProperOptions(o, |WriteOps(a, pos, size)|)
    ensures var r := Replay(fs, CompileAll(WriteOps(a, pos, size), o), dumps);
            && r.Some? && Agree(SetBytes(fs, a.inode, PWrite(fs.FileOf(a.inode), pos, Data(a, dumps))), r.value)
            && r.value.FileOf(a.inode) == PWrite(fs.FileOf(a.inode), pos, Data(a, dumps))
  {
    hide PWrite, MicroReplay, Replay, WellFormedTrace, CompileAll;
    WriteIsPosix(fs, a, pos, size, dumps);
    AgreeRefl(fs);
    TraceAgrees(fs, fs, WriteOps(a, pos, size), o, dumps);
    ResolveIsEntry(fs, a.name);
  }

  // Runs of calls on one open file.

  datatype Call =
    | Write(a: WriteArgs)
    | PositionedWrite(a: WriteArgs, offset: nat)
    | Seek(to: nat)
    | Truncate(size: nat)

  /** What the tracker knows of the open file. */
  datatype Tracked = Tracked(pos: nat, size: nat)

  function TrackCall(t: Tracked, call: Call): Tracked {
    match call
    case Write(a) => Tracked(t.pos + a.count, SizeAfter(t.pos, a.count, t.size))
    case PositionedWrite(a, offset) => Tracked(t.pos, SizeAfter(offset, a.count, t.size))
    case Seek(to) => Tracked(to, t.size)
    case Truncate(size) => Tracked(t.pos, size)
  }

  function OpsOfCall(t: Tracked, call: Call, name: Path, inode: nat): seq<MicroOp> {
    match call
    case Write(a) => WriteOps(a, t.pos, t.size)
    case PositionedWrite(a, offset) => WriteOps(a, offset, t.size)
    case Seek(_) => []
    case Truncate(size) => [Trunc(name, inode, t.size, size)]
  }

  function OpsOfCalls(t: Tracked, calls: seq<Call>, name: Path, inode: nat): seq<MicroOp>
    decreases |calls|
  {
    if calls == [] then []
    else OpsOfCall(t, calls[0], name, inode) + OpsOfCalls(TrackCall(t, calls[0]), calls[1..], name, inode)
  }

  function TrackCalls(t: Tracked, calls: seq<Call>): Tracked
    decreases |calls|
  {
    if calls == [] then t else TrackCalls(TrackCall(t, calls[0]), calls[1..])
  }

  /** The same calls on a file and its offset, as POSIX has them. */
  predicate HasDump(call: Call, dumps: Dumps) {
    call.Write? || call.PositionedWrite? ==> call.a.dumpFile in dumps
  }

  function PosixCall(pos: nat, c: Content, call: Call, dumps: Dumps): (nat, Content)
    requires HasDump(call, dumps)
  {
    match call
    case Write(a) => (pos + a.count, PWrite(c, pos, Data(a, dumps)))
    case PositionedWrite(a, offset) => (pos, PWrite(c, offset, Data(a, dumps)))
    case Seek(to) => (to, c)
    case Truncate(size) => (pos, Resize(c, size))
  }

  predicate Traced(call: Call, name: Path, inode: nat, dumps: Dumps) {
    call.Write? || call.PositionedWrite? ==>
      && call.a.name == name && call.a.inode == inode && call.a.count > 0
      && InDump(dumps, call.a.dumpFile, call.a.dumpOffset, call.a.count)
  }

  function PosixCalls(pos: nat, c: Content, calls: seq<Call>, dumps: Dumps): (nat, Content)
    requires forall k :: 0 <= k < |calls| ==> HasDump(calls[k], dumps)
    decreases |calls|
  {
    if calls == [] then (pos, c)
    else
      var (pos', c') := PosixCall(pos, c, calls[0], dumps);
      PosixCalls(pos', c', calls[1..], dumps)
  }

  lemma CallIsPosix(fs: Fs, t: Tracked, call: Call, name: Path, inode: nat, dumps: Dumps)
    requires fs.Valid() && fs.Resolve(name) == Some(FileNode(inode)) && t.size == |fs.FileOf(inode)|
    requires Traced(call, name, inode, dumps)
    ensures var (pos, c) := PosixCall(t.pos, fs.FileOf(inode), call, dumps);
            && WellFormedTrace(fs, OpsOfCall(t, call, name, inode), dumps)
            && MicroReplay(fs, OpsOfCall(t, call, name, inode), dumps) == Some(SetBytes(fs, inode, c))
            && TrackCall(t, call) == Tracked(pos, |c|)
  {
    hide WriteOps, PWrite, Resize;
    match call
    case Write(a) => WriteIsPosix(fs, a, t.pos, t.size, dumps);
    case PositionedWrite(a, offset) => WriteIsPosix(fs, a, offset, t.size, dumps);
    case Seek(_) =>
      ResolveIsEntry(fs, name);
      assert fs.files[inode := fs.files[inode]] == fs.files;
    case Truncate(size) =>
      var c := Resize(fs.FileOf(inode), size);
      NewBytesValid(fs, name, inode, c);
      ResizeSize(fs.FileOf(inode), size);
      var next := SetBytes(fs, inode, c);
      assert WellFormedTrace(next, [], dumps) && MicroReplay(next, [], dumps) == Some(next);
      StepThen(fs, Trunc(name, inode, t.size, size), [], next, dumps);
      assert [Trunc(name, inode, t.size, size)] + [] == [Trunc(name, inode, t.size, size)];
  }

  // Main result for runs: over any sequence of calls, the micro ops give the POSIX contents, and the
  // tracker's position and size are the file's.
  lemma {:induction false} CallsArePosix(fs: Fs, t: Tracked, calls: seq<Call>, name: Path, inode: nat, dumps: Dumps)
    requires fs.Valid() && fs.Resolve(name) == Some(FileNode(inode)) && t.size == |fs.FileOf(inode)|
    requires forall k :: 0 <= k < |calls| ==> HasDump(calls[k], dumps) && Traced(calls[k], name, inode, dumps)
    ensures var (pos, c) := PosixCalls(t.pos, fs.FileOf(inode), calls, dumps);
            && WellFormedTrace(fs, OpsOfCalls(t, calls, name, inode), dumps)
            && MicroReplay(fs, OpsOfCalls(t, calls, name, inode), dumps) == Some(SetBytes(fs, inode, c))
            && TrackCalls(t, calls) == Tracked(pos, |c|)
    decreases |calls|
  {
    hide MicroStep, WellFormed, OpsOfCall, PosixCall, TrackCall;
    if calls == [] {
      ResolveIsEntry(fs, name);
      assert fs.files[inode := fs.files[inode]] == fs.files;
    } else {
      var first, rest := OpsOfCall(t, calls[0], name, inode), OpsOfCalls(TrackCall(t, calls[0]), calls[1..], name, inode);
      var (pos, c) := PosixCall(t.pos, fs.FileOf(inode), calls[0], dumps);
      var next := SetBytes(fs, inode, c);
      CallIsPosix(fs, t, calls[0], name, inode, dumps);
      NewBytesValid(fs, name, inode, c);
      ResolveAgrees(fs, next, name);
      CallsArePosix(next, TrackCall(t, calls[0]), calls[1..], name, inode, dumps);
      MicroConcat(fs, first, rest, dumps);
      WellFormedConcat(fs, first, rest, dumps);
      var last := PosixCalls(pos, c, calls[1..], dumps).1;
      assert next.files[inode := last] == fs.files[inode := last];
    }
  }
}
