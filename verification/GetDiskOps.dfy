/** The loops of get_disk_ops, proved to build exactly the lists that Compiler describes. */
module GetDiskOps {
  import opened FileBytes
  import opened FileSystem
  import opened DiskOps
  import opened MicroOps
  import opened Slicing
  import opened Compiler

  /** The truncates of a shrink as the loop first lists them: ascending, and the wrong way round. */
  function AscendingTruncates(inode: nat, s: seq<Slice>): seq<DiskOp> {
    if s == [] then [] else [Truncate(inode, s[0].lo, s[0].hi)] + AscendingTruncates(inode, s[1..])
  }

  function Swapped(op: DiskOp): DiskOp {
    if op.Truncate? then Truncate(op.inode, op.finalSize, op.initialSize) else op
  }

  lemma {:induction false} AscendingAt(inode: nat, s: seq<Slice>, k: nat)
    requires k < |s|
    ensures |AscendingTruncates(inode, s)| == |s|
    ensures AscendingTruncates(inode, s)[k] == Truncate(inode, s[k].lo, s[k].hi)
    decreases |s|
  {
    if |s| > 1 {
      AscendingAt(inode, s[1..], if k == 0 then 0 else k - 1);
    }
  }

  lemma {:induction false} ShrinkAt(inode: nat, s: seq<Slice>, k: nat)
    requires k < |s|
    ensures |ShrinkOps(inode, s)| == |s|
    ensures ShrinkOps(inode, s)[|s| - 1 - k] == Truncate(inode, s[k].hi, s[k].lo)
    decreases |s|
  {
    if |s| > 1 {
      ShrinkAt(inode, s[1..], if k == 0 then 0 else k - 1);
    }
  }

  method Reverse(ops: seq<DiskOp>) returns (r: seq<DiskOp>)
    ensures |r| == |ops| && forall k :: 0 <= k < |ops| ==> r[k] == ops[|ops| - 1 - k]
  {
    r := [];
    for i := 0 to |ops|
      invariant |r| == i && forall k :: 0 <= k < i ==> r[k] == ops[|ops| - 1 - k]
    {
      r := r + [ops[|ops| - 1 - i]];
    }
  }

  /** The ops of one slice.  `append` says where in which dump the bytes of the slice are. */
  function SliceOps(inode: nat, s: Slice, invert: bool, append: Option<Payload>): seq<DiskOp>
    requires s.lo < s.hi && (append.Some? ==> append.value.Dump?)
  {
    if invert then [Truncate(inode, s.lo, s.hi)]
    else if append.Some? then AppendSlice(inode, s, append.value.file, append.value.offset)
    else GrowSlice(inode, s)
  }

  /** The place of the next slice's bytes. */
  function Advance(append: Option<Payload>, n: nat): Option<Payload>
    requires append.Some? ==> append.value.Dump?
  {
    if append.Some? then Some(Dump(append.value.file, append.value.offset + n)) else None
  }

  /** The ops of all slices, in the order in which the loop visits them. */
  function AllSliceOps(inode: nat, s: seq<Slice>, invert: bool, append: Option<Payload>): seq<DiskOp>
    requires ProperSlices(s) && (append.Some? ==> append.value.Dump?)
  {
    if invert then AscendingTruncates(inode, s)
    else if append.Some? then AppendOps(inode, s, append.value.file, append.value.offset)
    else GrowOps(inode, s)
  }

  lemma FirstSlice(inode: nat, s: seq<Slice>, invert: bool, append: Option<Payload>)
    requires s != [] && ProperSlices(s) && (append.Some? ==> append.value.Dump?)
    ensures ProperSlices(s[1..])
    ensures AllSliceOps(inode, s, invert, append)
         == SliceOps(inode, s[0], invert, append) + AllSliceOps(inode, s[1..], invert, Advance(append, s[0].hi - s[0].lo))
  {
  }

  lemma NoSlices(inode: nat, invert: bool, append: Option<Payload>)
    requires append.Some? ==> append.value.Dump?
    ensures AllSliceOps(inode, [], invert, append) == []
  {
  }

  // The slices of a truncate or an append, visited in order, give its disk ops.
  lemma AllSlices(inode: nat, initialSize: nat, finalSize: nat, append: Option<Payload>, o: Options)
    requires o.splits > 0 && (append.Some? ==> append.value.Dump?)
    ensures initialSize > finalSize ==>
              && AllSliceOps(inode, Pieces(o, finalSize, initialSize), true, append)
                 == AscendingTruncates(inode, Pieces(o, finalSize, initialSize))
              && TruncOps(inode, initialSize, finalSize, o) == ShrinkOps(inode, Pieces(o, finalSize, initialSize))
    ensures initialSize <= finalSize ==>
              AllSliceOps(inode, Pieces(o, initialSize, finalSize), false, append)
              == if append.None? then TruncOps(inode, initialSize, finalSize, o)
                 else AppendAll(inode, initialSize, finalSize - initialSize, append.value.file, append.value.offset, o)
    ensures initialSize == finalSize ==> AllSliceOps(inode, Pieces(o, initialSize, finalSize), false, append) == []
  {
  }

  /** The body of the slicing loop. */
  method EmitSlice(ops: seq<DiskOp>, inode: nat, s: Slice, invert: bool, append: Option<Payload>) returns (r: seq<DiskOp>)
    requires s.lo < s.hi && (append.Some? ==> append.value.Dump? && !invert)
    ensures r == ops + SliceOps(inode, s, invert, append)
  {
    var start, count := s.lo, s.hi - s.lo;
    r := ops;
    if invert {
      r := r + [Truncate(inode, start, s.hi)];
    }
    if append.Some? {
      r := r + [Write(inode, start, count, Zeros)];
    }
    if !invert {
      r := r + [Write(inode, start, count, Random)];
    }
    if !invert && append.None? {
      r := r + [Write(inode, start, count, Zeros)];
    }
    if append.Some? {
      r := r + [Write(inode, start, count, append.value)];
    }
  }

  /** Reverse the list, and turn every truncate round. */
  method Invert(ascending: seq<DiskOp>, inode: nat, ghost all: seq<Slice>) returns (ops: seq<DiskOp>)
    requires ascending == AscendingTruncates(inode, all)
    ensures ops == ShrinkOps(inode, all)
  {
    forall k | 0 <= k < |all| ensures |ascending| == |all| && ascending[k] == Truncate(inode, all[k].lo, all[k].hi) {
      AscendingAt(inode, all, k);
    }
    if all != [] {
      AscendingAt(inode, all, 0);
      ShrinkAt(inode, all, 0);
    }
    ops := Reverse(ascending);
    for i := 0 to |ops|
      invariant |ops| == |all|
      invariant forall k :: 0 <= k < i ==> ops[k] == Swapped(ascending[|all| - 1 - k])
      invariant forall k :: i <= k < |ops| ==> ops[k] == ascending[|all| - 1 - k]
    {
      ops := ops[i := Swapped(ops[i])];
    }
    forall k | 0 <= k < |all| ensures |ops| == |ShrinkOps(inode, all)| && ops[k] == ShrinkOps(inode, all)[k] {
      ShrinkAt(inode, all, |all| - 1 - k);
    }
  }

  lemma ConcatAssoc<T>(a: seq<T>, b: seq<T>, c: seq<T>)
    ensures a + (b + c) == (a + b) + c
  {
  }

  /** How much of the file the next slice takes. */
  method NextCount(start: nat, remaining: nat, perSlice: nat, o: Options, ghost stride: Stride) returns (count: nat)
    requires remaining > 0 && o.splits > 0 && stride.Positive()
    requires stride == if o.mode == Aligned then ToMultiple(o.splits) else Fixed(perSlice)
    ensures count == stride.Next(start, remaining)
  {
    if o.mode == Aligned {
      count := Min(o.splits - start % o.splits, remaining);
    } else {
      count := Min(perSlice, remaining);
    }
  }

  /** The slicing loop of trunc_disk_ops, over [lo, hi). */
  method SliceLoop(inode: nat, lo: nat, hi: nat, invert: bool, append: Option<Payload>, o: Options)
    returns (ops: seq<DiskOp>)
    requires o.splits > 0 && lo <= hi && (append.Some? ==> append.value.Dump? && !invert)
    ensures ops == AllSliceOps(inode, Pieces(o, lo, hi), invert, append)
  {
    hide AllSliceOps, SliceOps, CeilDiv, Slices;
    ops := [];
    var start: nat, remaining: nat := lo, hi - lo;
    var perSlice := 0;
    if o.mode == Count {
      perSlice := CeilDiv(remaining, o.splits);
    }
    ghost var stride := StrideFor(o.mode, o.splits, hi - lo);
    ghost var rest := Pieces(o, lo, hi);
    ghost var todo := AllSliceOps(inode, rest, invert, append);
    ghost var all := todo;
    while remaining > 0
      invariant lo <= start && start + remaining == hi
      invariant rest == Slices(start, hi, stride) && ProperSlices(rest)
      invariant todo == AllSliceOps(inode, rest, invert, Advance(append, start - lo))
      invariant ops + todo == all
    {
      var count := NextCount(start, remaining, perSlice, o, stride);
      var place := Advance(append, start - lo);
      SlicesStep(start, hi, stride);
      FirstSlice(inode, rest, invert, place);
      ghost var first := SliceOps(inode, rest[0], invert, place);
      todo := AllSliceOps(inode, rest[1..], invert, Advance(place, count));
      ConcatAssoc(ops, first, todo);
      ops := EmitSlice(ops, inode, Slice(start, start + count), invert, place);
      rest := rest[1..];
      remaining := remaining - count;
      start := start + count;
    }
    NoSlices(inode, invert, Advance(append, hi - lo));
  }

  method TruncDiskOps(inode: nat, initialSize: nat, finalSize: nat, append: Option<Payload>, o: Options)
    returns (ops: seq<DiskOp>)
    requires o.splits > 0
    requires append.Some? ==> append.value.Dump? && initialSize <= finalSize
    ensures append.None? ==> ops == TruncOps(inode, initialSize, finalSize, o)
    ensures append.Some? ==>
              ops == AppendAll(inode, initialSize, finalSize - initialSize, append.value.file, append.value.offset, o)
  {
    hide AllSliceOps, ShrinkOps, TruncOps, AppendAll, AscendingTruncates;
    AllSlices(inode, initialSize, finalSize, append, o);
    ops := [];
    if initialSize == finalSize {
      return;
    }
    var invert := initialSize > finalSize;
    var lo, hi := if invert then finalSize else initialSize, if invert then initialSize else finalSize;
    ops := SliceLoop(inode, lo, hi, invert, append, o);
    if invert {
      ops := Invert(ops, inode, Pieces(o, lo, hi));
    }
  }

  method UnlinkDiskOps(parent: nat, inode: nat, name: Path, size: nat, hardlinks: nat, isDir: bool, o: Options)
    returns (ops: seq<DiskOp>)
    requires o.splits > 0
    ensures ops == (if hardlinks == 1 then TruncOps(inode, size, 0, o) else []) + [DeleteDirEntry(parent, name, inode, isDir)]
  {
    ops := [];
    if hardlinks == 1 {
      ops := TruncDiskOps(inode, size, 0, None, o);
    }
    ops := ops + [DeleteDirEntry(parent, name, inode, isDir)];
  }

  lemma FirstOverwrite(inode: nat, s: seq<Slice>, file: string, dump: nat)
    requires s != [] && ProperSlices(s)
    ensures ProperSlices(s[1..])
    ensures OverwriteOps(inode, s, file, dump)
         == [Write(inode, s[0].lo, s[0].hi - s[0].lo, Dump(file, dump))] + OverwriteOps(inode, s[1..], file, dump + (s[0].hi - s[0].lo))
  {
  }

  lemma NoOverwrites(inode: nat, file: string, dump: nat)
    ensures OverwriteOps(inode, [], file, dump) == []
  {
  }

  method OverwriteDiskOps(inode: nat, start: nat, total: nat, file: string, dumpOffset: nat, o: Options)
    returns (ops: seq<DiskOp>)
    requires o.splits > 0 && total > 0
    ensures ops == OverwriteAll(inode, start, total, file, dumpOffset, o)
  {
    hide OverwriteOps, CeilDiv, Min, Slices, Stride.Next;
    ops := [];
    var offset: nat, remaining: nat := start, total;
    var perSlice := 0;
    if o.mode == Count {
      perSlice := CeilDiv(total, o.splits);
    }
    ghost var stride := StrideFor(o.mode, o.splits, total);
    ghost var rest := Pieces(o, start, start + total);
    while remaining > 0
      invariant start <= offset && offset + remaining == start + total
      invariant rest == Slices(offset, start + total, stride) && ProperSlices(rest)
      invariant ops + OverwriteOps(inode, rest, file, dumpOffset + (offset - start)) == OverwriteAll(inode, start, total, file, dumpOffset, o)
    {
      var count := NextCount(offset, remaining, perSlice, o, stride);
      SlicesStep(offset, start + total, stride);
      FirstOverwrite(inode, rest, file, dumpOffset + (offset - start));
      ConcatAssoc(ops, [Write(inode, offset, count, Dump(file, dumpOffset + (offset - start)))],
                  OverwriteOps(inode, rest[1..], file, dumpOffset + (offset + count - start)));
      ops := ops + [Write(inode, offset, count, Dump(file, dumpOffset + (offset - start)))];
      rest := rest[1..];
      remaining := remaining - count;
      offset := offset + count;
    }
    NoOverwrites(inode, file, dumpOffset + total);
  }

  method RenameDiskOps(op: MicroOp, o: Options) returns (ops: seq<DiskOp>)
    requires op.Rename? && o.splits > 0
    ensures ops == DiskOpsOf(op, o)
  {
    var linkSource := [CreateDirEntry(op.sourceParent, op.source, op.sourceInode, false)];
    ops := [];
    // a link count of 2 keeps the source from being truncated
    if o.expanded {
      ops := UnlinkDiskOps(op.sourceParent, op.sourceInode, op.source, op.sourceSize, 2, false, o);
    }
    if op.destHardlinks >= 1 {
      var unlinkDest := UnlinkDiskOps(op.destParent, op.destInode, op.dest, op.destSize, op.destHardlinks, false, o);
      ops := ops + unlinkDest;
    }
    if o.expanded {
      ops := ops + linkSource;
    }
    var unlinkSource := UnlinkDiskOps(op.sourceParent, op.sourceInode, op.source, op.sourceSize, 2, false, o);
    ops := ops + unlinkSource;
    ops := ops + [CreateDirEntry(op.destParent, op.dest, op.sourceInode, false)];
    if o.expanded {
      ops := ops + linkSource;
      unlinkSource := UnlinkDiskOps(op.sourceParent, op.sourceInode, op.source, op.sourceSize, 2, false, o);
      ops := ops + unlinkSource;
    }
    assert ops == DiskOpsOf(op, o);
  }

  /** get_disk_ops: None where its assertion on the count of a write fails. */
  method GetDiskOps(op: MicroOp, o: Options) returns (r: Option<seq<DiskOp>>)
    requires o.splits > 0
    ensures r == if op.Overwrite? && op.count == 0 then None else Some(DiskOpsOf(op, o))
  {
    hide TruncOps, AppendAll, OverwriteAll;
    var ops: seq<DiskOp> := [];
    match op {
      case Creat(name, parent, inode) => ops := [CreateDirEntry(parent, name, inode, false)];
      case Unlink(name, parent, inode, hardlinks, size) =>
        ops := UnlinkDiskOps(parent, inode, name, size, hardlinks, false, o);
      case Link(_, dest, inode, destParent) => ops := [CreateDirEntry(destParent, dest, inode, false)];
      case Rename(_, _, _, _, _, _, _, _, _) => ops := RenameDiskOps(op, o);
      case Trunc(_, inode, initialSize, finalSize) => ops := TruncDiskOps(inode, initialSize, finalSize, None, o);
      case Append(_, inode, offset, count, file, dumpOffset) =>
        ops := TruncDiskOps(inode, offset, offset + count, Some(Dump(file, dumpOffset)), o);
        if o.expanded {
          var more := TruncDiskOps(inode, offset, offset + count, Some(Dump(file, dumpOffset)), o);
          ops := ops + more;
        }
      case Overwrite(_, inode, offset, count, file, dumpOffset) =>
        if count == 0 {
          return None;
        }
        ops := OverwriteDiskOps(inode, offset, count, file, dumpOffset, o);
      case Mkdir(name, parent, inode) => ops := [CreateDirEntry(parent, name, inode, true)];
      case Rmdir(name, parent, inode) => ops := UnlinkDiskOps(parent, inode, name, 0, 0, true, o);
      case SyncFile(_, inode, size) => ops := [Sync(inode, 0, size)];
      case SyncRange(_, inode, offset, count) => ops := [Sync(inode, offset, count)];
      case Stdout(data) => ops := [Output(false, data)];
      case Stderr(data) => ops := [Output(true, data)];
    }
    assert ops == DiskOpsOf(op, o);
    r := Some(ops);
  }
}
