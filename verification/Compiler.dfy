/** get_disk_ops: from one micro op to the disk ops a file system may issue for it. */
module Compiler {
  import opened FileBytes
  import opened FileSystem
  import opened DiskOps
  import opened MicroOps
  import opened Slicing

  /** The caller's choices, made anew for every micro op. */
  datatype Options = Options(splits: nat, mode: SplitMode, expanded: bool)

  /** Growing a file: every slice is garbage first, and zeros then. */
  function GrowSlice(inode: nat, s: Slice): seq<DiskOp>
    requires s.lo < s.hi
  {
    [Write(inode, s.lo, s.hi - s.lo, Random), Write(inode, s.lo, s.hi - s.lo, Zeros)]
  }

  function GrowOps(inode: nat, s: seq<Slice>): seq<DiskOp>
    requires ProperSlices(s)
  {
    if s == [] then [] else GrowSlice(inode, s[0]) + GrowOps(inode, s[1..])
  }

  /** Appending: every slice is zeros first, garbage then, and data at last.  `dump` is the place in
      the dump of the byte that belongs at the start of the slice. */
  function AppendSlice(inode: nat, s: Slice, file: string, dump: nat): seq<DiskOp>
    requires s.lo < s.hi
  {
    [Write(inode, s.lo, s.hi - s.lo, Zeros), Write(inode, s.lo, s.hi - s.lo, Random),
     Write(inode, s.lo, s.hi - s.lo, Dump(file, dump))]
  }

  function AppendOps(inode: nat, s: seq<Slice>, file: string, dump: nat): seq<DiskOp>
    requires ProperSlices(s)
  {
    if s == [] then []
    else AppendSlice(inode, s[0], file, dump) + AppendOps(inode, s[1..], file, dump + (s[0].hi - s[0].lo))
  }

  /** Overwriting: every slice is data at once. */
  function OverwriteSlice(inode: nat, s: Slice, file: string, dump: nat): seq<DiskOp>
    requires s.lo < s.hi
  {
    [Write(inode, s.lo, s.hi - s.lo, Dump(file, dump))]
  }

  function OverwriteOps(inode: nat, s: seq<Slice>, file: string, dump: nat): seq<DiskOp>
    requires ProperSlices(s)
  {
    if s == [] then []
    else OverwriteSlice(inode, s[0], file, dump) + OverwriteOps(inode, s[1..], file, dump + (s[0].hi - s[0].lo))
  }

  /** Shrinking: the slices are cut off one by one, from the end of the file. */
  function ShrinkOps(inode: nat, s: seq<Slice>): seq<DiskOp> {
    if s == [] then [] else ShrinkOps(inode, s[1..]) + [Truncate(inode, s[0].hi, s[0].lo)]
  }

  predicate ProperSlices(s: seq<Slice>) {
    forall k :: 0 <= k < |s| ==> s[k].lo < s[k].hi
  }

  lemma ChainIsProper(s: seq<Slice>, lo: nat, hi: nat)
    requires Chain(s, lo, hi)
    ensures ProperSlices(s)
  {
    forall k | 0 <= k < |s| ensures s[k].lo < s[k].hi {
      ChainAt(s, lo, hi, k);
    }
  }

  /** The slices of a range, with what the lists of disk ops need to know of them. */
  function Pieces(o: Options, lo: nat, hi: nat): (s: seq<Slice>)
    requires o.splits > 0 && lo <= hi
    ensures Chain(s, lo, hi) && ProperSlices(s)
  {
    var s := SlicesOf(o.mode, o.splits, lo, hi);
    SlicesChain(lo, hi, StrideFor(o.mode, o.splits, hi - lo));
    ChainIsProper(s, lo, hi);
    s
  }

  function TruncOps(inode: nat, initialSize: nat, finalSize: nat, o: Options): seq<DiskOp>
    requires o.splits > 0
  {
    if initialSize > finalSize then ShrinkOps(inode, Pieces(o, finalSize, initialSize))
    else GrowOps(inode, Pieces(o, initialSize, finalSize))
  }

  function AppendAll(inode: nat, offset: nat, count: nat, file: string, dumpOffset: nat, o: Options): seq<DiskOp>
    requires o.splits > 0
  {
    AppendOps(inode, Pieces(o, offset, offset + count), file, dumpOffset)
  }

  function OverwriteAll(inode: nat, offset: nat, count: nat, file: string, dumpOffset: nat, o: Options): seq<DiskOp>
    requires o.splits > 0
  {
    OverwriteOps(inode, Pieces(o, offset, offset + count), file, dumpOffset)
  }

  function UnlinkOps(parent: nat, name: Path, inode: nat, size: nat, hardlinks: nat, o: Options): seq<DiskOp>
    requires o.splits > 0
  {
    (if hardlinks == 1 then TruncOps(inode, size, 0, o) else []) + [DeleteDirEntry(parent, name, inode, false)]
  }

  /** The disk ops of a micro op. */
  function DiskOpsOf(op: MicroOp, o: Options): seq<DiskOp>
    requires o.splits > 0
  {
    match op
    case Creat(name, parent, inode) => [CreateDirEntry(parent, name, inode, false)]
    case Unlink(name, parent, inode, hardlinks, size) => UnlinkOps(parent, name, inode, size, hardlinks, o)
    case Link(_, dest, inode, destParent) => [CreateDirEntry(destParent, dest, inode, false)]
    case Rename(source, dest, inode, from, _, destInode, to, destHardlinks, destSize) =>
      var unlinkSource := [DeleteDirEntry(from, source, inode, false)];
      var linkSource := [CreateDirEntry(from, source, inode, false)];
      var linkDest := [CreateDirEntry(to, dest, inode, false)];
      var unlinkDest := if destHardlinks >= 1 then UnlinkOps(to, dest, destInode, destSize, destHardlinks, o) else [];
      if o.expanded then
        unlinkSource + unlinkDest + linkSource + unlinkSource + linkDest + linkSource + unlinkSource
      else
        unlinkDest + unlinkSource + linkDest
    case Trunc(_, inode, initialSize, finalSize) => TruncOps(inode, initialSize, finalSize, o)
    case Append(_, inode, offset, count, file, dumpOffset) =>
      var once := AppendAll(inode, offset, count, file, dumpOffset, o);
      if o.expanded then once + once else once
    case Overwrite(_, inode, offset, count, file, dumpOffset) =>
      OverwriteAll(inode, offset, count, file, dumpOffset, o)
    case Mkdir(name, parent, inode) => [CreateDirEntry(parent, name, inode, true)]
    case Rmdir(name, parent, inode) => [DeleteDirEntry(parent, name, inode, true)]
    case SyncFile(_, inode, size) => [Sync(inode, 0, size)]
    case SyncRange(_, inode, offset, count) => [Sync(inode, offset, count)]
    case Stdout(data) => [Output(false, data)]
    case Stderr(data) => [Output(true, data)]
  }

  // What a list of slices does to the bytes of its file.

  lemma GrowSliceEffect(c: Content, inode: nat, s: Slice, dumps: Dumps)
    requires s.lo < s.hi
    ensures ApplyAll(c, GrowSlice(inode, s), dumps) == PWrite(c, s.lo, Fill(s.hi - s.lo, ZERO))
  {
    var n, ops := s.hi - s.lo, GrowSlice(inode, s);
    assert ops == [ops[0]] + [ops[1]];
    ApplyConcat(c, [ops[0]], [ops[1]], dumps);
    ApplyOne(c, ops[0], dumps);
    ApplyOne(PWrite(c, s.lo, Fill(n, Garbage)), ops[1], dumps);
    PWriteOver(c, s.lo, Fill(n, Garbage), Fill(n, ZERO));
  }

  lemma {:induction false} GrowEffect(c: Content, inode: nat, s: seq<Slice>, lo: nat, hi: nat, dumps: Dumps)
    requires Chain(s, lo, hi) && ProperSlices(s) && lo <= hi
    ensures ApplyAll(c, GrowOps(inode, s), dumps) == PWrite(c, lo, Fill(hi - lo, ZERO))
    decreases |s|
  {
    hide GrowSlice, ApplyAll, PWrite;
    if s == [] {
      WriteZeroBytes(c, lo, dumps);
    } else {
      var mid := s[0].hi;
      var a, b, rest := Fill(mid - lo, ZERO), Fill(hi - mid, ZERO), GrowOps(inode, s[1..]);
      ApplyConcat(c, GrowSlice(inode, s[0]), rest, dumps);
      GrowSliceEffect(c, inode, s[0], dumps);
      GrowEffect(PWrite(c, lo, a), inode, s[1..], mid, hi, dumps);
      PWriteSplit(c, lo, a, b);
      assert a + b == Fill(hi - lo, ZERO);
    }
  }

  lemma WriteZeroBytes(c: Content, lo: nat, dumps: Dumps)
    ensures ApplyAll(c, [], dumps) == c == PWrite(c, lo, Fill(0, ZERO))
  {
  }

  lemma WriteNothing(c: Content, lo: nat, file: string, dump: nat, dumps: Dumps)
    requires InDump(dumps, file, dump, 0)
    ensures PWrite(c, lo, ReadDump(dumps, file, dump, 0)) == c
  {
  }

  // Ops that write the first part of a dump range, and ops that write the rest of it, write all of it.
  lemma JoinDumpWrites(c: Content, first: seq<DiskOp>, rest: seq<DiskOp>, lo: nat, mid: nat, hi: nat, file: string, dump: nat, dumps: Dumps)
    requires lo <= mid <= hi && InDump(dumps, file, dump, hi - lo)
    requires ApplyAll(c, first, dumps) == PWrite(c, lo, ReadDump(dumps, file, dump, mid - lo))
    requires ApplyAll(ApplyAll(c, first, dumps), rest, dumps)
          == PWrite(ApplyAll(c, first, dumps), mid, ReadDump(dumps, file, dump + (mid - lo), hi - mid))
    ensures ApplyAll(c, first + rest, dumps) == PWrite(c, lo, ReadDump(dumps, file, dump, hi - lo))
  {
    hide ReadDump, PWrite, ApplyAll, AppendSlice, OverwriteSlice, Cells, Resize;
    ApplyConcat(c, first, rest, dumps);
    ReadDumpSplit(dumps, file, dump, mid - lo, hi - mid);
    PWriteSplit(c, lo, ReadDump(dumps, file, dump, mid - lo), ReadDump(dumps, file, dump + (mid - lo), hi - mid));
  }

  lemma AppendSliceEffect(c: Content, inode: nat, s: Slice, file: string, dump: nat, dumps: Dumps)
    requires s.lo < s.hi && InDump(dumps, file, dump, s.hi - s.lo)
    ensures ApplyAll(c, AppendSlice(inode, s, file, dump), dumps) == PWrite(c, s.lo, ReadDump(dumps, file, dump, s.hi - s.lo))
  {
    var n, ops := s.hi - s.lo, AppendSlice(inode, s, file, dump);
    assert ops == [ops[0]] + ([ops[1]] + [ops[2]]);
    ApplyConcat(c, [ops[0]], [ops[1]] + [ops[2]], dumps);
    ApplyConcat(PWrite(c, s.lo, Fill(n, ZERO)), [ops[1]], [ops[2]], dumps);
    ApplyOne(c, ops[0], dumps);
    ApplyOne(PWrite(c, s.lo, Fill(n, ZERO)), ops[1], dumps);
    ApplyOne(PWrite(c, s.lo, Fill(n, Garbage)), ops[2], dumps);
    PWriteOver(c, s.lo, Fill(n, ZERO), Fill(n, Garbage));
    PWriteOver(c, s.lo, Fill(n, Garbage), ReadDump(dumps, file, dump, n));
  }

  lemma {:induction false} AppendEffect(c: Content, inode: nat, s: seq<Slice>, lo: nat, hi: nat, file: string, dump: nat, dumps: Dumps)
    requires Chain(s, lo, hi) && ProperSlices(s) && lo <= hi && InDump(dumps, file, dump, hi - lo)
    ensures ApplyAll(c, AppendOps(inode, s, file, dump), dumps) == PWrite(c, lo, ReadDump(dumps, file, dump, hi - lo))
    decreases |s|
  {
    hide ReadDump, PWrite, AppendSlice, OverwriteSlice;
    if s == [] {
      WriteNothing(c, lo, file, dump, dumps);
    } else {
      var mid, rest := s[0].hi, dump + (s[0].hi - lo);
      var a := ReadDump(dumps, file, dump, mid - lo);
      AppendSliceEffect(c, inode, s[0], file, dump, dumps);
      AppendEffect(PWrite(c, lo, a), inode, s[1..], mid, hi, file, rest, dumps);
      JoinDumpWrites(c, AppendSlice(inode, s[0], file, dump), AppendOps(inode, s[1..], file, rest), lo, mid, hi, file, dump, dumps);
    }
  }

  lemma OverwriteSliceEffect(c: Content, inode: nat, s: Slice, file: string, dump: nat, dumps: Dumps)
    requires s.lo < s.hi && InDump(dumps, file, dump, s.hi - s.lo)
    ensures ApplyAll(c, OverwriteSlice(inode, s, file, dump), dumps) == PWrite(c, s.lo, ReadDump(dumps, file, dump, s.hi - s.lo))
  {
    ApplyOne(c, OverwriteSlice(inode, s, file, dump)[0], dumps);
  }

  lemma {:induction false} OverwriteEffect(c: Content, inode: nat, s: seq<Slice>, lo: nat, hi: nat, file: string, dump: nat, dumps: Dumps)
    requires Chain(s, lo, hi) && ProperSlices(s) && lo <= hi && InDump(dumps, file, dump, hi - lo)
    ensures ApplyAll(c, OverwriteOps(inode, s, file, dump), dumps) == PWrite(c, lo, ReadDump(dumps, file, dump, hi - lo))
    decreases |s|
  {
    hide ReadDump, PWrite, AppendSlice, OverwriteSlice;
    if s == [] {
      WriteNothing(c, lo, file, dump, dumps);
    } else {
      var mid, rest := s[0].hi, dump + (s[0].hi - lo);
      var a := ReadDump(dumps, file, dump, mid - lo);
      OverwriteSliceEffect(c, inode, s[0], file, dump, dumps);
      OverwriteEffect(PWrite(c, lo, a), inode, s[1..], mid, hi, file, rest, dumps);
      JoinDumpWrites(c, OverwriteSlice(inode, s[0], file, dump), OverwriteOps(inode, s[1..], file, rest), lo, mid, hi, file, dump, dumps);
    }
  }

  lemma {:induction false} ShrinkEffect(c: Content, inode: nat, s: seq<Slice>, lo: nat, hi: nat, dumps: Dumps)
    requires Chain(s, lo, hi) && s != []
    ensures ApplyAll(c, ShrinkOps(inode, s), dumps) == Resize(c, lo)
    decreases |s|
  {
    var before, last := ShrinkOps(inode, s[1..]), Truncate(inode, s[0].hi, s[0].lo);
    ApplyConcat(c, before, [last], dumps);
    ApplyOne(ApplyAll(c, before, dumps), last, dumps);
    if s[1..] != [] {
      ShrinkEffect(c, inode, s[1..], s[0].hi, hi, dumps);
      assert Resize(Resize(c, s[0].hi), lo) == Resize(c, lo);
    }
  }

  // Truncating: from a file of the recorded size to one of the final size.
  lemma TruncEffect(c: Content, inode: nat, finalSize: nat, o: Options, dumps: Dumps)
    requires o.splits > 0
    ensures ApplyAll(c, TruncOps(inode, |c|, finalSize, o), dumps) == Resize(c, finalSize)
  {
    if |c| > finalSize {
      ShrinkEffect(c, inode, Pieces(o, finalSize, |c|), finalSize, |c|, dumps);
    } else {
      GrowEffect(c, inode, Pieces(o, |c|, finalSize), |c|, finalSize, dumps);
      ResizeUp(c, finalSize);
    }
  }

  // Appending puts the new bytes at the offset, whatever was there: doing it twice changes nothing.
  lemma AppendAllEffect(c: Content, inode: nat, offset: nat, count: nat, file: string, dumpOffset: nat, o: Options, dumps: Dumps)
    requires o.splits > 0 && InDump(dumps, file, dumpOffset, count)
    ensures ApplyAll(c, AppendAll(inode, offset, count, file, dumpOffset, o), dumps)
         == PWrite(c, offset, ReadDump(dumps, file, dumpOffset, count))
  {
    AppendEffect(c, inode, Pieces(o, offset, offset + count), offset, offset + count, file, dumpOffset, dumps);
  }

  lemma AppendTwiceEffect(c: Content, inode: nat, offset: nat, count: nat, file: string, dumpOffset: nat, o: Options, dumps: Dumps)
    requires o.splits > 0 && InDump(dumps, file, dumpOffset, count)
    ensures var once := AppendAll(inode, offset, count, file, dumpOffset, o);
            ApplyAll(c, once + once, dumps) == PWrite(c, offset, ReadDump(dumps, file, dumpOffset, count))
  {
    var once, data := AppendAll(inode, offset, count, file, dumpOffset, o), ReadDump(dumps, file, dumpOffset, count);
    ApplyConcat(c, once, once, dumps);
    AppendAllEffect(c, inode, offset, count, file, dumpOffset, o, dumps);
    AppendAllEffect(PWrite(c, offset, data), inode, offset, count, file, dumpOffset, o, dumps);
    PWriteOver(c, offset, data, data);
  }

  lemma OverwriteAllEffect(c: Content, inode: nat, offset: nat, count: nat, file: string, dumpOffset: nat, o: Options, dumps: Dumps)
    requires o.splits > 0 && InDump(dumps, file, dumpOffset, count)
    ensures ApplyAll(c, OverwriteAll(inode, offset, count, file, dumpOffset, o), dumps)
         == PWrite(c, offset, ReadDump(dumps, file, dumpOffset, count))
  {
    OverwriteEffect(c, inode, Pieces(o, offset, offset + count), offset, offset + count, file, dumpOffset, dumps);
  }

  // All of these ops are on the one file.

  lemma {:induction false} TruncOnFile(inode: nat, s: seq<Slice>, dumps: Dumps)
    requires ProperSlices(s)
    ensures AllOnFile(ShrinkOps(inode, s), inode, dumps) && AllOnFile(GrowOps(inode, s), inode, dumps)
    decreases |s|
  {
    if s != [] {
      TruncOnFile(inode, s[1..], dumps);
    }
  }

  lemma {:induction false} DataOnFile(inode: nat, s: seq<Slice>, file: string, dump: nat, dumps: Dumps)
    requires ProperSlices(s) && file in dumps
    ensures AllOnFile(AppendOps(inode, s, file, dump), inode, dumps)
    ensures AllOnFile(OverwriteOps(inode, s, file, dump), inode, dumps)
    decreases |s|
  {
    if s != [] {
      DataOnFile(inode, s[1..], file, dump + (s[0].hi - s[0].lo), dumps);
    }
  }
}
