/** The ops of a trace that change no file: syncs, and what the program said to its user. */
module TraceMarks {
  import opened FileSystem
  import opened DiskOps
  import opened MicroOps
  import opened Slicing
  import opened Compiler
  import opened Agreement

  /** The bytes lo to hi - 1 of a file are synced, or something is said. */
  datatype Mark = Synced(inode: nat, lo: nat, hi: nat) | Said(isError: bool, data: string)

  /** What the recorded calls promise: fsync and fdatasync sync a file up to its recorded size. */
  function Promised(ops: seq<MicroOp>): seq<Mark>
    decreases |ops|
  {
    if ops == [] then []
    else
      (match ops[0]
       case SyncFile(_, inode, size) => [Synced(inode, 0, size)]
       case SyncRange(_, inode, offset, count) => [Synced(inode, offset, offset + count)]
       case Stdout(data) => [Said(false, data)]
       case Stderr(data) => [Said(true, data)]
       case _ => []) + Promised(ops[1..])
  }

  /** What the disk ops say. */
  function Marked(ops: seq<DiskOp>): seq<Mark>
    decreases |ops|
  {
    if ops == [] then []
    else
      (match ops[0]
       case Sync(inode, offset, count) => [Synced(inode, offset, offset + count)]
       case Output(isError, data) => [Said(isError, data)]
       case _ => []) + Marked(ops[1..])
  }

  lemma {:induction false} MarkedConcat(a: seq<DiskOp>, b: seq<DiskOp>)
    ensures Marked(a + b) == Marked(a) + Marked(b)
    decreases |a|
  {
    if a == [] {
      assert a + b == b;
    } else {
      assert (a + b)[1..] == a[1..] + b;
      MarkedConcat(a[1..], b);
    }
  }

  predicate Quiet(ops: seq<DiskOp>) {
    forall k :: 0 <= k < |ops| ==> !ops[k].Sync? && !ops[k].Output?
  }

  lemma {:induction false} QuietHasNoMarks(ops: seq<DiskOp>)
    requires Quiet(ops)
    ensures Marked(ops) == []
    decreases |ops|
  {
    if ops != [] {
      QuietHasNoMarks(ops[1..]);
    }
  }

  lemma {:induction false} SlicesAreQuiet(inode: nat, s: seq<Slice>, file: string, dump: nat)
    requires ProperSlices(s)
    ensures Quiet(GrowOps(inode, s)) && Quiet(ShrinkOps(inode, s))
    ensures Quiet(AppendOps(inode, s, file, dump)) && Quiet(OverwriteOps(inode, s, file, dump))
    decreases |s|
  {
    if s != [] {
      SlicesAreQuiet(inode, s[1..], file, dump + (s[0].hi - s[0].lo));
    }
  }

  lemma TruncIsQuiet(inode: nat, initialSize: nat, finalSize: nat, o: Options)
    requires o.splits > 0
    ensures Quiet(TruncOps(inode, initialSize, finalSize, o))
  {
    if initialSize > finalSize {
      SlicesAreQuiet(inode, Pieces(o, finalSize, initialSize), "", 0);
    } else {
      SlicesAreQuiet(inode, Pieces(o, initialSize, finalSize), "", 0);
    }
  }

  predicate Marks(op: MicroOp) {
    op.SyncFile? || op.SyncRange? || op.Stdout? || op.Stderr?
  }

  lemma UnlinkIsQuiet(parent: nat, name: Path, inode: nat, size: nat, hardlinks: nat, o: Options)
    requires o.splits > 0
    ensures Quiet(UnlinkOps(parent, name, inode, size, hardlinks, o))
  {
    hide TruncOps;
    TruncIsQuiet(inode, size, 0, o);
  }

  lemma RenameIsQuiet(op: MicroOp, o: Options)
    requires o.splits > 0 && op.Rename?
    ensures Quiet(DiskOpsOf(op, o))
  {
    hide UnlinkOps;
    UnlinkIsQuiet(op.destParent, op.dest, op.destInode, op.destSize, op.destHardlinks, o);
  }

  lemma OpIsQuiet(op: MicroOp, o: Options)
    requires o.splits > 0 && !Marks(op)
    ensures Quiet(DiskOpsOf(op, o))
  {
    hide TruncOps, UnlinkOps, ProperSlices;
    match op
    case Unlink(name, parent, inode, hardlinks, size) => UnlinkIsQuiet(parent, name, inode, size, hardlinks, o);
    case Rename(_, _, _, _, _, _, _, _, _) => RenameIsQuiet(op, o);
    case Trunc(_, inode, a, b) => TruncIsQuiet(inode, a, b, o);
    case Append(_, inode, offset, count, file, dump) => SlicesAreQuiet(inode, Pieces(o, offset, offset + count), file, dump);
    case Overwrite(_, inode, offset, count, file, dump) => SlicesAreQuiet(inode, Pieces(o, offset, offset + count), file, dump);
    case _ =>
  }

  // Main result: however a trace is compiled, its disk ops sync exactly the bytes that the recorded calls
  // synced, and say exactly what was said, in the same order and among the ops of the same micro ops.
  lemma {:induction false} MarksStay(ops: seq<MicroOp>, o: seq<Options>)
    requires ProperOptions(o, |ops|)
    ensures Marked(CompileAll(ops, o)) == Promised(ops)
    decreases |ops|
  {
    hide DiskOpsOf, Promised, Marked, Marks;
    if ops == [] {
      NothingMarked();
    } else {
      MarkedConcat(DiskOpsOf(ops[0], o[0]), CompileAll(ops[1..], o[1..]));
      PromisedFirst(ops);
      MarksStay(ops[1..], o[1..]);
      if Marks(ops[0]) {
        OneMark(ops[0], o[0]);
      } else {
        OpIsQuiet(ops[0], o[0]);
        QuietHasNoMarks(DiskOpsOf(ops[0], o[0]));
      }
    }
  }

  lemma NothingMarked()
    ensures Marked([]) == [] == Promised([])
  {
  }

  lemma PromisedFirst(ops: seq<MicroOp>)
    requires ops != []
    ensures Promised(ops) == Promised([ops[0]]) + Promised(ops[1..])
    ensures !Marks(ops[0]) ==> Promised([ops[0]]) == []
  {
    assert [ops[0]][1..] == [];
  }

  lemma OneMark(op: MicroOp, o: Options)
    requires o.splits > 0 && Marks(op)
    ensures Marked(DiskOpsOf(op, o)) == Promised([op])
  {
    assert DiskOpsOf(op, o)[1..] == [] && [op][1..] == [];
  }
}
