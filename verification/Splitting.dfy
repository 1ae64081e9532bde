/** Splitting one write or append micro op into several. */
module Splitting {
  import opened FileBytes
  import opened FileSystem
  import opened DiskOps
  import opened MicroOps
  import opened Slicing

  /** How the caller wants an op split: into a number of parts, into parts of one size, or by a list of
      sizes, with one more part for whatever the list leaves over. */
  datatype SplitBy = ByCount(parts: nat) | BySize(size: nat) | BySizes(sizes: seq<nat>)
  {
    predicate Legal() {
      match this
      case ByCount(parts) => parts > 0
      case BySize(size) => size > 0
      case BySizes(_) => true
    }
  }

  predicate Splittable(op: MicroOp) {
    op.Append? || op.Overwrite?
  }

  /** The part of an op that begins at an offset. */
  function Part(op: MicroOp, offset: nat, count: nat): (part: MicroOp)
    requires Splittable(op) && op.offset <= offset
    ensures Splittable(part) && part.count == count && part.offset == offset
  {
    var dump := op.dumpOffset + (offset - op.offset);
    if op.Append? then Append(op.name, op.inode, offset, count, op.dumpFile, dump)
    else Overwrite(op.name, op.inode, offset, count, op.dumpFile, dump)
  }

  /** Parts of `op` that follow one another and cover [from, to): the same file, each offset where the
      part before it ends, each dump offset as far on as the offset. */
  predicate Parts(op: MicroOp, parts: seq<MicroOp>, from: nat, to: nat)
    requires Splittable(op) && op.offset <= from
    decreases |parts|
  {
    if parts == [] then from == to
    else
      && Splittable(parts[0]) && from + parts[0].count <= to
      && parts[0] == Part(op, from, parts[0].count)
      && Parts(op, parts[1..], from + parts[0].count, to)
  }

  lemma {:induction false} PartsExtend(op: MicroOp, parts: seq<MicroOp>, from: nat, mid: nat, count: nat)
    requires Splittable(op) && op.offset <= from <= mid && Parts(op, parts, from, mid)
    ensures Parts(op, parts + [Part(op, mid, count)], from, mid + count)
    decreases |parts|
  {
    var last := Part(op, mid, count);
    if parts == [] {
      assert [last][1..] == [] && Parts(op, [], mid + count, mid + count);
    } else {
      PartsExtend(op, parts[1..], from + parts[0].count, mid, count);
      assert (parts + [last])[1..] == parts[1..] + [last];
    }
  }

  /** Every part but the last has its full size, and none is empty. */
  predicate EvenParts(parts: seq<MicroOp>, size: nat) {
    forall k :: 0 <= k < |parts| ==>
      Splittable(parts[k]) && 0 < parts[k].count <= size && (k < |parts| - 1 ==> parts[k].count == size)
  }

  /** Every part but the last has the size that the list gives for it. */
  predicate ListedParts(parts: seq<MicroOp>, sizes: seq<nat>) {
    |parts| <= |sizes| + 1 && forall k :: 0 <= k < |parts| - 1 ==> Splittable(parts[k]) && parts[k].count == sizes[k]
  }

  /** The loop of Replayer.split when there is one size for all parts. */
  method SplitEvenly(op: MicroOp, perSlice: nat) returns (parts: seq<MicroOp>)
    requires Splittable(op) && (op.count > 0 ==> perSlice > 0)
    ensures Parts(op, parts, op.offset, op.offset + op.count) && EvenParts(parts, perSlice)
    ensures (op.count > 0 <==> parts != []) && (parts != [] ==> (|parts| - 1) * perSlice < op.count)
  {
    parts := [];
    var offset: nat, remaining: nat := op.offset, op.count;
    while remaining > 0
      invariant op.offset <= offset && offset + remaining == op.offset + op.count
      invariant Parts(op, parts, op.offset, offset) && EvenParts(parts, perSlice)
      invariant remaining > 0 ==> offset == op.offset + |parts| * perSlice
      invariant remaining > 0 ==> forall k :: 0 <= k < |parts| ==> parts[k].count == perSlice
      invariant parts != [] ==> (|parts| - 1) * perSlice < op.count
      invariant op.count > remaining <==> parts != []
    {
      var count: nat := Min(perSlice, remaining);
      PartsExtend(op, parts, op.offset, offset, count);
      assert (|parts| + 1) * perSlice == |parts| * perSlice + perSlice;
      parts := parts + [Part(op, offset, count)];
      remaining := remaining - count;
      offset := offset + count;
    }
  }

  /** The same loop when the sizes come from a list. */
  method SplitByList(op: MicroOp, list: seq<nat>) returns (parts: seq<MicroOp>)
    requires Splittable(op)
    ensures Parts(op, parts, op.offset, op.offset + op.count) && ListedParts(parts, list)
    ensures op.count > 0 <==> parts != []
  {
    parts := [];
    var offset: nat, remaining: nat := op.offset, op.count;
    var sizes := list;
    while remaining > 0
      invariant op.offset <= offset && offset + remaining == op.offset + op.count
      invariant Parts(op, parts, op.offset, offset) && ListedParts(parts, list)
      invariant remaining > 0 ==> |parts| <= |list| && sizes == list[|parts|..]
      invariant remaining > 0 ==> forall k :: 0 <= k < |parts| ==> Splittable(parts[k]) && parts[k].count == list[k]
      invariant remaining == 0 && op.count > 0 ==> parts != []
      invariant parts != [] ==> op.count > 0
      decreases remaining, |sizes|
    {
      var perSlice := remaining;
      if |sizes| > 0 {
        perSlice := sizes[0];
        sizes := sizes[1..];
      }
      var count: nat := Min(perSlice, remaining);
      PartsExtend(op, parts, op.offset, offset, count);
      parts := parts + [Part(op, offset, count)];
      remaining := remaining - count;
      offset := offset + count;
    }
  }

  method Split(op: MicroOp, how: SplitBy) returns (parts: seq<MicroOp>)
    requires Splittable(op) && how.Legal()
    ensures Parts(op, parts, op.offset, op.offset + op.count) && (op.count > 0 <==> parts != [])
    ensures how.ByCount? ==> |parts| <= how.parts && EvenParts(parts, CeilDiv(op.count, how.parts))
    ensures how.BySize? ==> EvenParts(parts, how.size)
    ensures how.BySizes? ==> ListedParts(parts, how.sizes)
  {
    match how
    case ByCount(n) =>
      var perSlice := CeilDiv(op.count, n);
      parts := SplitEvenly(op, perSlice);
      if parts != [] {
        MulMonotone(n, |parts| - 1, perSlice);
      }
    case BySize(size) => parts := SplitEvenly(op, size);
    case BySizes(sizes) => parts := SplitByList(op, sizes);
  }

  // What the parts do together.

  lemma PartsBound(op: MicroOp, parts: seq<MicroOp>, from: nat, to: nat)
    requires Splittable(op) && op.offset <= from && Parts(op, parts, from, to)
    ensures from <= to
  {
  }

  /** The bytes of the file after the whole range [from, to) of an op. */
  function RangeDone(op: MicroOp, c: Content, from: nat, to: nat, dumps: Dumps): Content
    requires Splittable(op) && op.offset <= from <= to && op.dumpFile in dumps
  {
    var data := ReadDump(dumps, op.dumpFile, op.dumpOffset + (from - op.offset), to - from);
    if op.Append? then PWrite(Resize(c, to), from, data) else PWrite(c, from, data)
  }

  lemma RangeDoneSplit(op: MicroOp, c: Content, from: nat, mid: nat, to: nat, dumps: Dumps)
    requires Splittable(op) && op.offset <= from <= mid <= to
    requires InDump(dumps, op.dumpFile, op.dumpOffset + (from - op.offset), to - from)
    ensures RangeDone(op, RangeDone(op, c, from, mid, dumps), mid, to, dumps) == RangeDone(op, c, from, to, dumps)
  {
    hide ReadDump, PWrite, Resize;
    var dump := op.dumpOffset + (from - op.offset);
    var a, b := ReadDump(dumps, op.dumpFile, dump, mid - from), ReadDump(dumps, op.dumpFile, dump + (mid - from), to - mid);
    ReadDumpSplit(dumps, op.dumpFile, dump, mid - from, to - mid);
    ReadDumpSplit(dumps, op.dumpFile, dump + (mid - from), to - mid, 0);
    if op.Append? {
      ResizeThenWrite(c, from, a);
      ResizeThenWrite(Resize(c, from) + a, mid, b);
      ResizeThenWrite(c, from, a + b);
      ResizeSame(Resize(c, from) + a, from, c, mid - from);
    } else {
      PWriteSplit(c, from, a, b);
    }
  }

  lemma ResizeSame(d: Content, from: nat, c: Content, n: nat)
    requires |d| == |Resize(c, from)| + n
    ensures Resize(d, from + n) == d && |Resize(c, from)| == from
  {
  }

  lemma StepIsRange(fs: Fs, op: MicroOp, dumps: Dumps)
    requires Splittable(op) && op.dumpFile in dumps
    ensures MicroStep(fs, op, dumps)
         == match OpenNamed(fs, op.name)
            case None => None
            case Some(i) => Some(SetBytes(fs, i, RangeDone(op, fs.FileOf(i), op.offset, op.offset + op.count, dumps)))
  {
  }

  // Replaying the parts of a range is replaying the range.
  lemma {:induction false} PartsMeaning(fs: Fs, op: MicroOp, parts: seq<MicroOp>, from: nat, to: nat, dumps: Dumps)
    requires Splittable(op) && op.offset <= from <= to && Parts(op, parts, from, to) && parts != []
    requires InDump(dumps, op.dumpFile, op.dumpOffset + (from - op.offset), to - from)
    ensures MicroReplay(fs, parts, dumps) == MicroStep(fs, Part(op, from, to - from), dumps)
    decreases |parts|
  {
    hide MicroStep, RangeDone, OpenNamed;
    var mid := from + parts[0].count;
    PartsBound(op, parts[1..], mid, to);
    StepIsRange(fs, parts[0], dumps);
    StepIsRange(fs, Part(op, from, to - from), dumps);
    RangeOfPart(op, from, mid, dumps);
    RangeOfPart(op, from, to, dumps);
    if OpenNamed(fs, op.name).Some? {
      var i := OpenNamed(fs, op.name).value;
      var c1 := RangeDone(op, fs.FileOf(i), from, mid, dumps);
      var next := SetBytes(fs, i, c1);
      if parts[1..] == [] {
        assert MicroReplay(next, [], dumps) == Some(next);
      } else {
        PartsMeaning(next, op, parts[1..], mid, to, dumps);
        StepIsRange(next, Part(op, mid, to - mid), dumps);
        RangeOfPart(op, mid, to, dumps);
        SameNames(fs, next, op.name, i);
        RangeDoneSplit(op, fs.FileOf(i), from, mid, to, dumps);
        var last := RangeDone(op, c1, mid, to, dumps);
        assert next.files[i := last] == fs.files[i := last];
      }
    }
  }

  lemma RangeOfPart(op: MicroOp, from: nat, to: nat, dumps: Dumps)
    requires Splittable(op) && op.offset <= from <= to && op.dumpFile in dumps
    ensures forall c :: RangeDone(Part(op, from, to - from), c, from, to, dumps) == RangeDone(op, c, from, to, dumps)
  {
  }

  lemma SameNames(fs: Fs, next: Fs, name: Path, i: nat)
    requires next.root == fs.root && next.entries == fs.entries && i in next.files
    requires OpenNamed(fs, name) == Some(i)
    ensures OpenNamed(next, name) == Some(i)
  {
    ResolveAgrees(fs, next, name);
  }

  // Main result: putting the parts in the place of the op changes no replay of the trace.
  lemma SplitKeepsMeaning(fs: Fs, before: seq<MicroOp>, op: MicroOp, parts: seq<MicroOp>, after: seq<MicroOp>, dumps: Dumps)
    requires Splittable(op) && op.count > 0 && Parts(op, parts, op.offset, op.offset + op.count)
    requires InDump(dumps, op.dumpFile, op.dumpOffset, op.count)
    ensures MicroReplay(fs, before + parts + after, dumps) == MicroReplay(fs, before + [op] + after, dumps)
  {
    hide MicroStep;
    MicroConcat(fs, before + parts, after, dumps);
    MicroConcat(fs, before + [op], after, dumps);
    MicroConcat(fs, before, parts, dumps);
    MicroConcat(fs, before, [op], dumps);
    if MicroReplay(fs, before, dumps).Some? {
      var mid := MicroReplay(fs, before, dumps).value;
      PartsMeaning(mid, op, parts, op.offset, op.offset + op.count, dumps);
      assert Part(op, op.offset, op.count) == op;
      MicroOne(mid, op, dumps);
    }
  }

  lemma MicroOne(fs: Fs, op: MicroOp, dumps: Dumps)
    ensures MicroReplay(fs, [op], dumps) == MicroStep(fs, op, dumps)
  {
    match MicroStep(fs, op, dumps)
    case None =>
    case Some(next) => assert MicroReplay(next, [], dumps) == Some(next);
  }

  // The parts of a well-formed op are well formed one after the other, when none is an empty write.
  lemma {:induction false} PartsWellFormed(fs: Fs, op: MicroOp, parts: seq<MicroOp>, from: nat, to: nat, dumps: Dumps)
    requires Splittable(op) && op.offset <= from <= to && Parts(op, parts, from, to) && fs.Valid()
    requires WellFormed(fs, Part(op, from, to - from), dumps) || (parts == [] && from == to)
    requires forall k :: 0 <= k < |parts| ==> Splittable(parts[k]) && parts[k].count > 0
    ensures WellFormedTrace(fs, parts, dumps)
    decreases |parts|
  {
    if parts != [] {
      var mid := from + parts[0].count;
      PartsBound(op, parts[1..], mid, to);
      WellFormedStep(fs, parts[0], dumps);
      var next := MicroStep(fs, parts[0], dumps).value;
      SameNames(fs, next, op.name, op.inode);
      ResolveAgrees(fs, next, op.name);
      if op.Append? {
        ReadDumpSplit(dumps, op.dumpFile, parts[0].dumpOffset, parts[0].count, 0);
        ResizeThenWrite(fs.FileOf(op.inode), from, ReadDump(dumps, op.dumpFile, parts[0].dumpOffset, parts[0].count));
      }
      if parts[1..] == [] {
        assert mid == to;
      } else {
        assert to > mid by {
          PartsBound(op, parts[1..][1..], mid + parts[1].count, to);
        }
      }
      PartsWellFormed(next, op, parts[1..], mid, to, dumps);
    }
  }
}
