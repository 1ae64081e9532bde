/** What a file or a directory can look like when only some of a micro op's disk ops reached the disk. */
module CrashStates {
  import opened FileBytes
  import opened FileSystem
  import opened DiskOps
  import opened MicroOps
  import opened Slicing
  import opened Compiler
  import opened Agreement

  // Prefixes of an append.

  /** What the last disk op of a prefix left in the slice it was working on. */
  datatype Flux = FilledZero | FilledGarbage | Written

  /** The reporter names the state of an append by the index of the last disk op, modulo 3. */
  function AppendLabel(diskEnd: nat): Flux {
    if diskEnd % 3 == 0 then FilledZero else if diskEnd % 3 == 1 then FilledGarbage else Written
  }

  function FluxBytes(flux: Flux, data: Content): (bytes: Content)
    ensures |bytes| == |data|
  {
    match flux
    case FilledZero => Fill(|data|, ZERO)
    case FilledGarbage => Fill(|data|, Garbage)
    case Written => data
  }

  /** The file when the prefix ends at index diskEnd. */
  function AppendState(c: Content, s: seq<Slice>, lo: nat, file: string, dump: nat, diskEnd: nat, dumps: Dumps): Content
    requires diskEnd / 3 < |s| && file in dumps && ProperSlices(s) && (forall k :: 0 <= k < |s| ==> lo <= s[k].lo)
  {
    var cur := s[diskEnd / 3];
    PWrite(PWrite(c, lo, ReadDump(dumps, file, dump, cur.lo - lo)), cur.lo,
           FluxBytes(AppendLabel(diskEnd), ReadDump(dumps, file, dump + (cur.lo - lo), cur.hi - cur.lo)))
  }

  lemma ChainBounds(s: seq<Slice>, lo: nat, hi: nat)
    requires Chain(s, lo, hi)
    ensures forall k :: 0 <= k < |s| ==> lo <= s[k].lo < s[k].hi <= hi
  {
    forall k | 0 <= k < |s| ensures lo <= s[k].lo < s[k].hi <= hi {
      ChainAt(s, lo, hi, k);
    }
  }

  lemma AppendSlicePrefix(c: Content, inode: nat, s: Slice, file: string, dump: nat, n: nat, dumps: Dumps)
    requires s.lo < s.hi && InDump(dumps, file, dump, s.hi - s.lo) && 1 <= n <= 3
    ensures ApplyAll(c, AppendSlice(inode, s, file, dump)[..n], dumps)
         == PWrite(c, s.lo, FluxBytes(AppendLabel(n - 1), ReadDump(dumps, file, dump, s.hi - s.lo)))
  {
    hide PWrite, ReadDump;
    var len, ops := s.hi - s.lo, AppendSlice(inode, s, file, dump);
    ReadDumpSplit(dumps, file, dump, len, 0);
    if n == 3 {
      assert ops[..3] == ops;
      AppendSliceEffect(c, inode, s, file, dump, dumps);
    } else if n == 2 {
      assert ops[..2] == [ops[0]] + [ops[1]];
      ApplyConcat(c, [ops[0]], [ops[1]], dumps);
      ApplyOne(c, ops[0], dumps);
      ApplyOne(PWrite(c, s.lo, Fill(len, ZERO)), ops[1], dumps);
      PWriteOver(c, s.lo, Fill(len, ZERO), Fill(len, Garbage));
    } else {
      assert ops[..1] == [ops[0]];
      ApplyOne(c, ops[0], dumps);
    }
  }

  lemma {:induction false} AppendPrefix(c: Content, inode: nat, s: seq<Slice>, lo: nat, hi: nat, file: string, dump: nat, diskEnd: nat, dumps: Dumps)
    requires Chain(s, lo, hi) && ProperSlices(s) && lo <= hi && InDump(dumps, file, dump, hi - lo)
    requires forall k :: 0 <= k < |s| ==> lo <= s[k].lo < s[k].hi <= hi
    requires diskEnd < 3 * |s|
    ensures |AppendOps(inode, s, file, dump)| == 3 * |s|
    ensures ApplyAll(c, AppendOps(inode, s, file, dump)[..diskEnd + 1], dumps)
         == AppendState(c, s, lo, file, dump, diskEnd, dumps)
    decreases |s|
  {
    hide PWrite, ReadDump, ApplyAll, FluxBytes;
    var mid, len := s[0].hi, s[0].hi - lo;
    var first, rest := AppendSlice(inode, s[0], file, dump), AppendOps(inode, s[1..], file, dump + len);
    var all := AppendOps(inode, s, file, dump);
    AppendOpsLength(inode, s, file, dump);
    assert all == first + rest && |first| == 3;
    if diskEnd < 3 {
      assert all[..diskEnd + 1] == first[..diskEnd + 1];
      AppendSlicePrefix(c, inode, s[0], file, dump, diskEnd + 1, dumps);
      WriteNothing(c, lo, file, dump, dumps);
    } else {
      var a := ReadDump(dumps, file, dump, len);
      ChainBounds(s[1..], mid, hi);
      AppendPrefix(PWrite(c, lo, a), inode, s[1..], mid, hi, file, dump + len, diskEnd - 3, dumps);
      assert all[..diskEnd + 1] == first + rest[..diskEnd - 3 + 1];
      ApplyConcat(c, first, rest[..diskEnd - 3 + 1], dumps);
      AppendSliceEffect(c, inode, s[0], file, dump, dumps);
      var cur := s[diskEnd / 3];
      assert (diskEnd - 3) / 3 == diskEnd / 3 - 1 && cur == s[1..][diskEnd / 3 - 1];
      ReadDumpSplit(dumps, file, dump, len, cur.lo - mid);
      PWriteSplit(c, lo, a, ReadDump(dumps, file, dump + len, cur.lo - mid));
    }
  }

  lemma {:induction false} AppendOpsLength(inode: nat, s: seq<Slice>, file: string, dump: nat)
    requires ProperSlices(s)
    ensures |AppendOps(inode, s, file, dump)| == 3 * |s|
    decreases |s|
  {
    if s != [] {
      AppendOpsLength(inode, s[1..], file, dump + (s[0].hi - s[0].lo));
    }
  }

  /** The file, part by part: old bytes, slices that are done, the slice in flux, and what follows. */
  function AppendParts(c: Content, data: Content, cur: Slice, flux: Flux, again: bool): Content
    requires |c| <= cur.lo < cur.hi <= |c| + |data|
  {
    c + data[..cur.lo - |c|] + FluxBytes(flux, data[cur.lo - |c|..cur.hi - |c|]) + (if again then data[cur.hi - |c|..] else [])
  }

  // Writing a part as it is, and other bytes over the next part.
  lemma MiddleAgain(c: Content, a: Content, m: Content, r: Content, bytes: Content)
    requires |bytes| == |m|
    ensures PWrite(PWrite(c + (a + m + r), |c|, a), |c| + |a|, bytes) == c + a + bytes + r
  {
    hide PWrite;
    assert c + (a + m + r) == c + a + (m + r);
    PWriteMiddle(c, a, a, m + r);
    assert c + a + (m + r) == (c + a) + m + r;
    PWriteMiddle(c + a, m, bytes, r);
  }

  lemma PartsOfWrites(c: Content, data: Content, cur: Slice, flux: Flux, again: bool)
    requires |c| <= cur.lo < cur.hi <= |c| + |data|
    ensures PWrite(PWrite(if again then c + data else c, |c|, data[..cur.lo - |c|]), cur.lo,
                   FluxBytes(flux, data[cur.lo - |c|..cur.hi - |c|]))
         == AppendParts(c, data, cur, flux, again)
  {
    hide PWrite, FluxBytes;
    var a, m, r := data[..cur.lo - |c|], data[cur.lo - |c|..cur.hi - |c|], data[cur.hi - |c|..];
    assert data == a + m + r;
    if again {
      MiddleAgain(c, a, m, r, FluxBytes(flux, m));
    } else {
      PWriteAtEnd(c, a);
      PWriteAtEnd(c + a, FluxBytes(flux, m));
      assert (c + a) + FluxBytes(flux, m) + [] == (c + a) + FluxBytes(flux, m);
    }
  }

  lemma PartOfPart<T>(s: seq<T>, lo: nat, hi: nat, a: nat, b: nat)
    requires lo <= hi <= |s| && a <= b <= hi - lo
    ensures s[lo..hi][a..b] == s[lo + a..lo + b]
  {
    forall k | 0 <= k < b - a ensures s[lo..hi][a..b][k] == s[lo + a..lo + b][k] {
      assert s[lo..hi][a + k] == s[lo + a + k];
    }
  }

  lemma DumpParts(dumps: Dumps, file: string, dump: nat, count: nat, a: nat, b: nat)
    requires InDump(dumps, file, dump, count) && a <= b <= count
    ensures |ReadDump(dumps, file, dump, count)| == count
    ensures ReadDump(dumps, file, dump + a, b - a) == ReadDump(dumps, file, dump, count)[a..b]
  {
    PartOfPart(dumps[file], dump, dump + count, a, b);
    assert Cells(dumps[file][dump..dump + count])[a..b] == Cells(dumps[file][dump..dump + count][a..b]);
  }

  // One pass over the slices, the first on the old file or the second on the finished one.
  lemma AppendPass(c: Content, inode: nat, s: seq<Slice>, data: Content, file: string, dump: nat, e: nat, again: bool, dumps: Dumps)
    requires Chain(s, |c|, |c| + |data|) && ProperSlices(s) && e / 3 < |s|
    requires InDump(dumps, file, dump, |data|) && data == ReadDump(dumps, file, dump, |data|)
    ensures |c| <= s[e / 3].lo < s[e / 3].hi <= |c| + |data|
    ensures ApplyAll(if again then c + data else c, AppendOps(inode, s, file, dump)[..Min(e + 1, |AppendOps(inode, s, file, dump)|)], dumps)
         == AppendParts(c, data, s[e / 3], AppendLabel(e), again)
  {
    hide PWrite, ReadDump, ApplyAll, FluxBytes, AppendParts, AppendOps;
    ChainBounds(s, |c|, |c| + |data|);
    AppendPrefix(if again then c + data else c, inode, s, |c|, |c| + |data|, file, dump, e, dumps);
    var cur := s[e / 3];
    DumpParts(dumps, file, dump, |data|, 0, cur.lo - |c|);
    DumpParts(dumps, file, dump, |data|, cur.lo - |c|, cur.hi - |c|);
    PartsOfWrites(c, data, cur, AppendLabel(e), again);
  }

  /** The slices of an append, and the slice that the disk op at an index works on. */
  function AppendSlices(op: MicroOp, o: Options): (s: seq<Slice>)
    requires op.Append? && o.splits > 0
    ensures Chain(s, op.offset, op.offset + op.count) && ProperSlices(s)
  {
    Pieces(o, op.offset, op.offset + op.count)
  }

  /** The second pass of an expanded append. */
  predicate SecondPass(op: MicroOp, o: Options, diskEnd: nat)
    requires op.Append? && o.splits > 0
  {
    diskEnd >= 3 * |AppendSlices(op, o)|
  }

  function CurrentSlice(op: MicroOp, o: Options, diskEnd: nat): Slice
    requires op.Append? && o.splits > 0
  {
    var s := AppendSlices(op, o);
    var j := if SecondPass(op, o, diskEnd) then diskEnd / 3 - |s| else diskEnd / 3;
    if 0 <= j < |s| then s[j] else Slice(op.offset, op.offset)
  }

  lemma CurrentSliceInRange(op: MicroOp, o: Options, diskEnd: nat)
    requires op.Append? && o.splits > 0 && diskEnd < |DiskOpsOf(op, o)|
    ensures |AppendAll(op.inode, op.offset, op.count, op.dumpFile, op.dumpOffset, o)| == 3 * |AppendSlices(op, o)|
    ensures SecondPass(op, o, diskEnd) ==> o.expanded && diskEnd < 6 * |AppendSlices(op, o)|
    ensures var cur := CurrentSlice(op, o, diskEnd); op.offset <= cur.lo < cur.hi <= op.offset + op.count
  {
    AppendOpsLength(op.inode, AppendSlices(op, o), op.dumpFile, op.dumpOffset);
    ChainBounds(AppendSlices(op, o), op.offset, op.offset + op.count);
  }

  // Every prefix of an append, on the bytes of the file.
  lemma AppendBytes(c: Content, op: MicroOp, o: Options, diskEnd: nat, data: Content, dumps: Dumps)
    requires op.Append? && op.offset == |c| && o.splits > 0 && diskEnd < |DiskOpsOf(op, o)|
    requires InDump(dumps, op.dumpFile, op.dumpOffset, op.count)
    requires data == ReadDump(dumps, op.dumpFile, op.dumpOffset, op.count) && |data| == op.count
    ensures |c| <= CurrentSlice(op, o, diskEnd).lo < CurrentSlice(op, o, diskEnd).hi <= |c| + |data|
    ensures ApplyAll(c, DiskOpsOf(op, o)[..diskEnd + 1], dumps)
         == AppendParts(c, data, CurrentSlice(op, o, diskEnd), AppendLabel(diskEnd), SecondPass(op, o, diskEnd))
  {
    hide PWrite, ReadDump, ApplyAll, AppendParts, AppendOps, Pieces;
    CurrentSliceInRange(op, o, diskEnd);
    var s, again := AppendSlices(op, o), SecondPass(op, o, diskEnd);
    var once := AppendAll(op.inode, |c|, op.count, op.dumpFile, op.dumpOffset, o);
    var e := if again then diskEnd - 3 * |s| else diskEnd;
    AppendPass(c, op.inode, s, data, op.dumpFile, op.dumpOffset, e, again, dumps);
    if again {
      assert DiskOpsOf(op, o)[..diskEnd + 1] == once + once[..e + 1];
      ApplyConcat(c, once, once[..e + 1], dumps);
      AppendAllEffect(c, op.inode, |c|, op.count, op.dumpFile, op.dumpOffset, o, dumps);
      PWriteAtEnd(c, data);
    } else {
      assert DiskOpsOf(op, o)[..diskEnd + 1] == once[..e + 1];
    }
  }

  // Prefixes of a truncate.

  /** The size after the first n truncates of a shrink. */
  function CutTo(s: seq<Slice>, size: nat, n: nat): nat
    requires n <= |s|
  {
    if n == 0 then size else s[|s| - n].lo
  }

  lemma {:induction false} ShrinkLength(inode: nat, s: seq<Slice>)
    ensures |ShrinkOps(inode, s)| == |s|
    decreases |s|
  {
    if s != [] {
      ShrinkLength(inode, s[1..]);
    }
  }

  lemma {:induction false} ShrinkPrefix(c: Content, inode: nat, s: seq<Slice>, lo: nat, n: nat, dumps: Dumps)
    requires Chain(s, lo, |c|) && n <= |s| == |ShrinkOps(inode, s)|
    ensures ApplyAll(c, ShrinkOps(inode, s)[..n], dumps) == Resize(c, CutTo(s, |c|, n))
    decreases |s|
  {
    hide ApplyAll;
    ApplyNone(c, dumps);
    assert Resize(c, |c|) == c;
    if n > 0 {
      var before, last := ShrinkOps(inode, s[1..]), Truncate(inode, s[0].hi, s[0].lo);
      ShrinkLength(inode, s[1..]);
      ShrinkPrefix(c, inode, s[1..], s[0].hi, if n < |s| then n else |s| - 1, dumps);
      if n < |s| {
        assert ShrinkOps(inode, s)[..n] == before[..n];
      } else {
        assert before[..|s| - 1] == before && ShrinkOps(inode, s)[..n] == before + [last];
        ApplyConcat(c, before, [last], dumps);
        ApplyOne(ApplyAll(c, before, dumps), last, dumps);
        ResizeTwice(c, CutTo(s[1..], |c|, |s| - 1), lo);
      }
    }
  }

  lemma ResizeTwice(c: Content, a: nat, b: nat)
    requires b <= a
    ensures Resize(Resize(c, a), b) == Resize(c, b)
  {
  }

  lemma ApplyNone(c: Content, dumps: Dumps)
    ensures ApplyAll(c, [], dumps) == c
  {
  }

  // Every prefix of a shrink, on the bytes of the file.
  lemma ShrinkBytes(c: Content, op: MicroOp, o: Options, n: nat, dumps: Dumps)
    requires op.Trunc? && op.initialSize == |c| && op.finalSize < |c| && o.splits > 0
    requires n <= |DiskOpsOf(op, o)|
    ensures var state := ApplyAll(c, DiskOpsOf(op, o)[..n], dumps);
            && op.finalSize <= |state| <= |c| && state == c[..|state|]
            && (n == |DiskOpsOf(op, o)| ==> |state| == op.finalSize)
            && (forall more :: n < more <= |DiskOpsOf(op, o)| ==> |ApplyAll(c, DiskOpsOf(op, o)[..more], dumps)| < |state|)
  {
    hide ApplyAll;
    var s := Pieces(o, op.finalSize, |c|);
    ChainBounds(s, op.finalSize, |c|);
    ShrinkLength(op.inode, s);
    ShrinkPrefix(c, op.inode, s, op.finalSize, n, dumps);
    forall more | n < more <= |DiskOpsOf(op, o)|
      ensures |ApplyAll(c, DiskOpsOf(op, o)[..more], dumps)| < |ApplyAll(c, DiskOpsOf(op, o)[..n], dumps)|
    {
      ShrinkPrefix(c, op.inode, s, op.finalSize, more, dumps);
      if n > 0 {
        ChainDisjoint(s, op.finalSize, |c|, |s| - more, |s| - n);
      }
    }
    if n == |s| {
      ChainAt(s, op.finalSize, |c|, 0);
    }
  }

  // Prefixes of a truncate that makes the file larger.

  /** The reporter names the state of a growing truncate by the index of the last disk op, modulo 2:
      "garbage", or "partial" when a slice is done. */
  function GrowLabel(diskEnd: nat): Cell {
    if diskEnd % 2 == 0 then Garbage else ZERO
  }

  lemma GrowSlicePrefix(c: Content, inode: nat, s: Slice, n: nat, dumps: Dumps)
    requires s.lo == |c| && s.lo < s.hi && n < 2
    ensures ApplyAll(c, GrowSlice(inode, s)[..n + 1], dumps) == c + Fill(s.hi - s.lo, GrowLabel(n))
  {
    var len, ops := s.hi - s.lo, GrowSlice(inode, s);
    if n == 1 {
      assert ops[..2] == ops;
      GrowSliceEffect(c, inode, s, dumps);
    } else {
      assert ops[..1] == [ops[0]];
      ApplyOne(c, ops[0], dumps);
    }
    PWriteAtEnd(c, Fill(len, GrowLabel(n)));
  }

  lemma {:induction false} GrowPrefix(c: Content, inode: nat, s: seq<Slice>, hi: nat, diskEnd: nat, dumps: Dumps)
    requires Chain(s, |c|, hi) && ProperSlices(s) && diskEnd / 2 < |s|
    ensures |GrowOps(inode, s)| == 2 * |s| && |c| <= s[diskEnd / 2].lo < s[diskEnd / 2].hi <= hi
    ensures var cur := s[diskEnd / 2];
            ApplyAll(c, GrowOps(inode, s)[..Min(diskEnd + 1, |GrowOps(inode, s)|)], dumps)
            == Resize(c, cur.lo) + Fill(cur.hi - cur.lo, GrowLabel(diskEnd))
    decreases |s|
  {
    hide ApplyAll, PWrite;
    GrowOpsLength(inode, s);
    ChainBounds(s, |c|, hi);
    var first, rest := GrowSlice(inode, s[0]), GrowOps(inode, s[1..]);
    if diskEnd < 2 {
      assert GrowOps(inode, s)[..diskEnd + 1] == first[..diskEnd + 1];
      GrowSlicePrefix(c, inode, s[0], diskEnd, dumps);
      assert Resize(c, |c|) == c;
    } else {
      var zeros := Fill(s[0].hi - s[0].lo, ZERO);
      GrowPrefix(c + zeros, inode, s[1..], hi, diskEnd - 2, dumps);
      assert GrowOps(inode, s)[..diskEnd + 1] == first + rest[..diskEnd - 1];
      ApplyConcat(c, first, rest[..diskEnd - 1], dumps);
      GrowSliceEffect(c, inode, s[0], dumps);
      PWriteAtEnd(c, zeros);
      assert (diskEnd - 2) / 2 == diskEnd / 2 - 1 && s[diskEnd / 2] == s[1..][diskEnd / 2 - 1];
      assert Resize(c + zeros, s[diskEnd / 2].lo) == Resize(c, s[diskEnd / 2].lo);
    }
  }

  lemma {:induction false} GrowOpsLength(inode: nat, s: seq<Slice>)
    requires ProperSlices(s)
    ensures |GrowOps(inode, s)| == 2 * |s|
    decreases |s|
  {
    if s != [] {
      GrowOpsLength(inode, s[1..]);
    }
  }

  // Every prefix of a growing truncate, on the bytes of the file.
  lemma GrowBytes(c: Content, op: MicroOp, o: Options, diskEnd: nat, dumps: Dumps)
    requires op.Trunc? && op.initialSize == |c| && op.finalSize > |c| && o.splits > 0 && diskEnd < |DiskOpsOf(op, o)|
    ensures var s := Pieces(o, |c|, op.finalSize);
            && diskEnd / 2 < |s|
            && |c| <= s[diskEnd / 2].lo < s[diskEnd / 2].hi <= op.finalSize
            && ApplyAll(c, DiskOpsOf(op, o)[..diskEnd + 1], dumps)
               == Resize(c, s[diskEnd / 2].lo) + Fill(s[diskEnd / 2].hi - s[diskEnd / 2].lo, GrowLabel(diskEnd))
  {
    var s := Pieces(o, |c|, op.finalSize);
    GrowOpsLength(op.inode, s);
    GrowPrefix(c, op.inode, s, op.finalSize, diskEnd, dumps);
  }

  // The same on whole trees.

  predicate ChangesBytes(op: MicroOp) {
    op.Trunc? || op.Append? || op.Overwrite?
  }

  lemma OpsOnFile(op: MicroOp, o: Options, dumps: Dumps)
    requires ChangesBytes(op) && o.splits > 0 && (!op.Trunc? ==> op.dumpFile in dumps)
    ensures AllOnFile(DiskOpsOf(op, o), op.inode, dumps)
  {
    if op.Trunc? {
      TruncOnFile(op.inode, Pieces(o, op.initialSize, Max(op.initialSize, op.finalSize)), dumps);
      TruncOnFile(op.inode, Pieces(o, op.finalSize, Max(op.initialSize, op.finalSize)), dumps);
    } else {
      DataOnFile(op.inode, Pieces(o, op.offset, op.offset + op.count), op.dumpFile, op.dumpOffset, dumps);
    }
  }

  // Any selection of the disk ops of an op that changes bytes changes the bytes of its file, and nothing
  // else in the tree.
  lemma OnTree(d: Fs, op: MicroOp, o: Options, w: seq<DiskOp>, dumps: Dumps)
    requires ChangesBytes(op) && o.splits > 0 && (!op.Trunc? ==> op.dumpFile in dumps)
    requires op.inode in d.files && op.inode !in d.dirs
    requires forall x :: x in w ==> x in DiskOpsOf(op, o)
    ensures Replay(d, w, dumps) == Some(SetBytes(d, op.inode, ApplyAll(d.files[op.inode], w, dumps)))
  {
    hide Replay, ApplyAll, DiskOpsOf, OnFile;
    OpsOnFile(op, o, dumps);
    forall k | 0 <= k < |w| ensures OnFile(w[k], op.inode, dumps) {
      assert w[k] in DiskOpsOf(op, o);
    }
    ReplayOnFile(d, w, op.inode, dumps);
  }

  // Main result for appends.  Every prefix, in the expanded form too, leaves the old bytes, earlier slices
  // with their data, and the current slice as the label says; in the second pass the later slices hold
  // their data already.  Nothing else in the tree changes.
  lemma AppendCrash(d: Fs, op: MicroOp, o: Options, diskEnd: nat, dumps: Dumps)
    requires op.Append? && o.splits > 0 && op.inode in d.files && op.inode !in d.dirs && op.offset == |d.files[op.inode]|
    requires InDump(dumps, op.dumpFile, op.dumpOffset, op.count) && diskEnd < |DiskOpsOf(op, o)|
    ensures var c, data, cur := d.files[op.inode], ReadDump(dumps, op.dumpFile, op.dumpOffset, op.count), CurrentSlice(op, o, diskEnd);
            && |c| <= cur.lo < cur.hi <= |c| + |data|
            && Replay(d, DiskOpsOf(op, o)[..diskEnd + 1], dumps)
               == Some(SetBytes(d, op.inode, AppendParts(c, data, cur, AppendLabel(diskEnd), SecondPass(op, o, diskEnd))))
  {
    hide Replay, ApplyAll, DiskOpsOf, ReadDump, CurrentSlice, AppendParts, SecondPass;
    ReadDumpSplit(dumps, op.dumpFile, op.dumpOffset, op.count, 0);
    AppendBytes(d.files[op.inode], op, o, diskEnd, ReadDump(dumps, op.dumpFile, op.dumpOffset, op.count), dumps);
    OnTree(d, op, o, DiskOpsOf(op, o)[..diskEnd + 1], dumps);
  }

  // Main result for shrinks.  Every prefix leaves the first bytes of the old file, never fewer than the
  // final size, and fewer and fewer of them as the prefix grows.  Nothing else in the tree changes.
  lemma ShrinkCrash(d: Fs, op: MicroOp, o: Options, n: nat, dumps: Dumps)
    requires op.Trunc? && o.splits > 0 && op.inode in d.files && op.inode !in d.dirs
    requires op.finalSize < op.initialSize == |d.files[op.inode]| && n <= |DiskOpsOf(op, o)|
    ensures exists size: nat ::
              && op.finalSize <= size <= |d.files[op.inode]|
              && Replay(d, DiskOpsOf(op, o)[..n], dumps) == Some(SetBytes(d, op.inode, d.files[op.inode][..size]))
              && (n == |DiskOpsOf(op, o)| ==> size == op.finalSize)
              && forall more :: n < more <= |DiskOpsOf(op, o)| ==>
                   && Replay(d, DiskOpsOf(op, o)[..more], dumps).Some?
                   && |Replay(d, DiskOpsOf(op, o)[..more], dumps).value.FileOf(op.inode)| < size
  {
    hide Replay, ApplyAll, DiskOpsOf;
    ShrinkBytes(d.files[op.inode], op, o, n, dumps);
    OnTree(d, op, o, DiskOpsOf(op, o)[..n], dumps);
    var size := |ApplyAll(d.files[op.inode], DiskOpsOf(op, o)[..n], dumps)|;
    forall more | n < more <= |DiskOpsOf(op, o)|
      ensures Replay(d, DiskOpsOf(op, o)[..more], dumps).Some?
      ensures |Replay(d, DiskOpsOf(op, o)[..more], dumps).value.FileOf(op.inode)| < size
    {
      OnTree(d, op, o, DiskOpsOf(op, o)[..more], dumps);
    }
    assert Replay(d, DiskOpsOf(op, o)[..n], dumps) == Some(SetBytes(d, op.inode, d.files[op.inode][..size]));
  }

  // Main result for growing truncates.  Every prefix leaves the old bytes, zeros up to the slice in flux,
  // and that slice as the label says; the file ends with it.  Nothing else in the tree changes.
  lemma GrowCrash(d: Fs, op: MicroOp, o: Options, diskEnd: nat, dumps: Dumps)
    requires op.Trunc? && o.splits > 0 && op.inode in d.files && op.inode !in d.dirs
    requires op.finalSize > op.initialSize == |d.files[op.inode]| && diskEnd < |DiskOpsOf(op, o)|
    ensures var c := d.files[op.inode]; var s := Pieces(o, |c|, op.finalSize);
            && diskEnd / 2 < |s|
            && |c| <= s[diskEnd / 2].lo < s[diskEnd / 2].hi <= op.finalSize
            && Replay(d, DiskOpsOf(op, o)[..diskEnd + 1], dumps)
               == Some(SetBytes(d, op.inode, Resize(c, s[diskEnd / 2].lo) + Fill(s[diskEnd / 2].hi - s[diskEnd / 2].lo, GrowLabel(diskEnd))))
  {
    hide Replay, ApplyAll, DiskOpsOf, Pieces;
    GrowBytes(d.files[op.inode], op, o, diskEnd, dumps);
    OnTree(d, op, o, DiskOpsOf(op, o)[..diskEnd + 1], dumps);
  }

  predicate EndsInGarbage(c: Content) {
    c != [] && c[|c| - 1] == Garbage
  }

  /** The reporter says "garbage" of every truncate that ends at an even index, and "partial" otherwise,
      whether the truncate grows or shrinks the file. */
  predicate SaysGarbage(diskEnd: nat) {
    diskEnd % 2 == 0
  }

  // A truncate that was cut short leaves garbage at the end exactly when it grows the file and ends at an
  // even index; so the label is right exactly when the file grows or the index is odd.
  lemma TruncLabelIsRightIff(d: Fs, op: MicroOp, o: Options, diskEnd: nat, dumps: Dumps)
    requires op.Trunc? && o.splits > 0 && op.inode in d.files && op.inode !in d.dirs
    requires op.finalSize != op.initialSize == |d.files[op.inode]| && diskEnd < |DiskOpsOf(op, o)|
    requires Garbage !in d.files[op.inode]
    ensures var r := Replay(d, DiskOpsOf(op, o)[..diskEnd + 1], dumps);
            && r.Some?
            && (EndsInGarbage(r.value.FileOf(op.inode)) <==> op.finalSize > op.initialSize && diskEnd % 2 == 0)
            && ((SaysGarbage(diskEnd) <==> EndsInGarbage(r.value.FileOf(op.inode))) <==> op.finalSize > op.initialSize || diskEnd % 2 == 1)
  {
    hide Replay, DiskOpsOf, Pieces;
    if op.finalSize > op.initialSize {
      GrowCrash(d, op, o, diskEnd, dumps);
    } else {
      ShrinkCrash(d, op, o, diskEnd + 1, dumps);
    }
  }

  // Prefixes of an unlink.

  // Part of the ops that take a name away: the bytes go first, if it is the last name, and the name goes last.
  lemma UnlinkPrefix(d: Fs, parent: nat, name: Path, inode: nat, hardlinks: nat, o: Options, n: nat, dumps: Dumps)
    requires o.splits > 0 && inode in d.files && inode !in d.dirs
    requires n < |UnlinkOps(parent, name, inode, |d.files[inode]|, hardlinks, o)|
    ensures var ops := UnlinkOps(parent, name, inode, |d.files[inode]|, hardlinks, o);
            var r := Replay(d, ops[..n], dumps);
            && (hardlinks != 1 ==> |ops| == 1)
            && r.Some? && |r.value.FileOf(inode)| <= |d.files[inode]|
            && r.value == SetBytes(d, inode, d.files[inode][..|r.value.FileOf(inode)|])
            && (n == 0 ==> r.value == d)
            && (hardlinks == 1 && n == |ops| - 1 ==> r.value.FileOf(inode) == [])
            && forall m :: n < m < |ops| ==>
                 Replay(d, ops[..m], dumps).Some? && |Replay(d, ops[..m], dumps).value.FileOf(inode)| < |r.value.FileOf(inode)|
  {
    hide Replay, TruncOps;
    var c := d.files[inode];
    var ops, cut := UnlinkOps(parent, name, inode, |c|, hardlinks, o), Trunc(name, inode, |c|, 0);
    ReplayNone(d, dumps);
    assert ops[..0] == [] && c[..|c|] == c && d.files[inode := c] == d.files;
    if hardlinks == 1 {
      assert DiskOpsOf(cut, o) == TruncOps(inode, |c|, 0, o) && ops[..|ops| - 1] == DiskOpsOf(cut, o);
      if |c| > 0 {
        assert forall m :: 0 <= m < |ops| ==> ops[..m] == DiskOpsOf(cut, o)[..m];
        ShrinkCrash(d, cut, o, n, dumps);
      } else {
        NothingToCut(inode, o);
      }
    }
  }

  lemma NothingToCut(inode: nat, o: Options)
    requires o.splits > 0
    ensures TruncOps(inode, 0, 0, o) == []
  {
  }

  // Main result for unlinks.  Every prefix short of the whole leaves all names as they are, and of the file
  // its first bytes: all of them while other names remain; and if it is the last name, fewer with every
  // op, until there are none.  Then the name goes.
  lemma UnlinkCrash(d: Fs, op: MicroOp, o: Options, n: nat, dumps: Dumps)
    requires op.Unlink? && o.splits > 0 && d.InTree(op.parent) && op.inode in d.files && op.inode !in d.dirs
    requires op.size == |d.files[op.inode]| && n <= |DiskOpsOf(op, o)|
    requires Key(op.parent, Base(op.name)) in d.entries && d.entries[Key(op.parent, Base(op.name))].FileNode?
    ensures var ops, c := DiskOpsOf(op, o), d.files[op.inode];
            var r := Replay(d, ops[..n], dumps);
            && |ops| >= 1 && (op.hardlinks != 1 ==> |ops| == 1)
            && r.Some? && |r.value.FileOf(op.inode)| <= |c|
            && (n < |ops| ==> r.value == SetBytes(d, op.inode, c[..|r.value.FileOf(op.inode)|]))
            && (n == 0 ==> r.value == d)
            && (op.hardlinks == 1 && n == |ops| - 1 ==> r.value.FileOf(op.inode) == [])
            && (forall m :: n < m < |ops| ==>
                  Replay(d, ops[..m], dumps).Some? && |Replay(d, ops[..m], dumps).value.FileOf(op.inode)| < |r.value.FileOf(op.inode)|)
            && (n == |ops| ==> r.value == SetBytes(d, op.inode, if op.hardlinks == 1 then [] else c).(
                                 entries := d.entries - {Key(op.parent, Base(op.name))}))
  {
    hide Replay, UnlinkOps;
    var ops := DiskOpsOf(op, o);
    LastIsDelete(op.parent, op.name, op.inode, op.size, op.hardlinks, o);
    if n < |ops| {
      UnlinkPrefix(d, op.parent, op.name, op.inode, op.hardlinks, o, n, dumps);
    } else {
      assert ops[..n] == ops;
      UnlinkExactly(d, op.parent, op.name, op.inode, op.size, op.hardlinks, o, dumps);
      assert d.files[op.inode := d.files[op.inode]] == d.files;
      UnlinkPrefix(d, op.parent, op.name, op.inode, op.hardlinks, o, 0, dumps);
    }
  }

  lemma LastIsDelete(parent: nat, name: Path, inode: nat, size: nat, hardlinks: nat, o: Options)
    requires o.splits > 0
    ensures |UnlinkOps(parent, name, inode, size, hardlinks, o)| >= 1
  {
  }

  // Prefixes of an expanded rename.

  /** A rename that moves a name: two different names, and two different files if there are two. */
  predicate MovingRename(d: Fs, op: MicroOp) {
    && op.Rename? && RenameReady(d, op)
    && Key(op.sourceParent, Base(op.source)) != Key(op.destParent, Base(op.dest))
    && (op.destHardlinks >= 1 ==> op.destInode != op.sourceInode)
  }

  /** The names after the first n disk ops, when t of them take the old destination away. */
  function NamesDuring(op: MicroOp, entries: map<Key, Node>, t: nat, n: nat): map<Key, Node>
    requires op.Rename? && n <= t + 6
  {
    var source, dest := Key(op.sourceParent, Base(op.source)), Key(op.destParent, Base(op.dest));
    if n == 0 then entries
    else if n <= t then entries - {source}
    else TailNames(op, entries - {source} - {dest}, n - t - 1)
  }

  /** Nothing but the bytes of one file has changed, and that file was at most cut. */
  ghost predicate OnlyCut(d: Fs, d': Fs, inode: nat) {
    && d'.root == d.root && d'.dirs == d.dirs && d'.files.Keys == d.files.Keys
    && (forall i: nat :: i != inode ==> d'.FileOf(i) == d.FileOf(i))
    && d'.FileOf(inode) <= d.FileOf(inode)
  }

  /** The bytes of the replaced file when k of the t ops that take it away are done: all of them as long as it
      has other names, and none when its name goes. */
  ghost predicate DestBytes(d: Fs, d': Fs, op: MicroOp, t: nat, k: nat)
    requires op.Rename?
  {
    && OnlyCut(d, d', op.destInode)
    && (op.destHardlinks != 1 || k == 0 ==> d'.files == d.files)
    && (op.destHardlinks == 1 && k + 1 >= t ==> d'.FileOf(op.destInode) == [])
  }

  // Part of the ops that take the old destination away, short of deleting its name.
  lemma DestTruncates(d: Fs, op: MicroOp, o: Options, n: nat, dumps: Dumps)
    requires op.Rename? && o.splits > 0 && op.destHardlinks >= 1 && n < |UnlinkDestOps(op, o)|
    requires op.destInode in d.files && op.destInode !in d.dirs && op.destSize == |d.files[op.destInode]|
    ensures var ops := UnlinkDestOps(op, o);
            var r := Replay(d, ops[..n], dumps);
            && r.Some? && r.value.entries == d.entries
            && DestBytes(d, r.value, op, |ops|, n)
            && forall m :: n < m < |ops| ==>
                 && Replay(d, ops[..m], dumps).Some?
                 && |Replay(d, ops[..m], dumps).value.FileOf(op.destInode)| < |r.value.FileOf(op.destInode)|
  {
    hide Replay, UnlinkOps;
    UnlinkPrefix(d, op.destParent, op.dest, op.destInode, op.destHardlinks, o, n, dumps);
  }

  lemma ReplayNone(d: Fs, dumps: Dumps)
    ensures Replay(d, [], dumps) == Some(d)
  {
  }

  // Main result for renames.  The names after every prefix, exactly; the file being renamed keeps its bytes
  // throughout, and the old destination keeps all of its bytes if it has other names, and otherwise loses
  // some with every op until its name goes.
  lemma RenameCrash(d: Fs, op: MicroOp, o: Options, n: nat, dumps: Dumps)
    requires o.splits > 0 && o.expanded && MovingRename(d, op) && n <= |DiskOpsOf(op, o)|
    ensures var t, r := |UnlinkDestOps(op, o)|, Replay(d, DiskOpsOf(op, o)[..n], dumps);
            && |DiskOpsOf(op, o)| == t + 6
            && r.Some? && r.value.entries == NamesDuring(op, d.entries, t, n)
            && DestBytes(d, r.value, op, t, if n == 0 then 0 else n - 1)
            && forall m :: 0 < n < m <= t ==>
                 && Replay(d, DiskOpsOf(op, o)[..m], dumps).Some?
                 && |Replay(d, DiskOpsOf(op, o)[..m], dumps).value.FileOf(op.destInode)| < |r.value.FileOf(op.destInode)|
  {
    hide Replay, Step, DiskOpsOf, UnlinkDestOps, ExpandedTail, TailNames;
    var source, dest := Key(op.sourceParent, Base(op.source)), Key(op.destParent, Base(op.dest));
    var gone, tail := UnlinkDestOps(op, o), ExpandedTail(op);
    var ops := DiskOpsOf(op, o);
    RenameOps(op, o);
    var d1 := d.(entries := d.entries - {source});
    if n == 0 {
      assert ops[..0] == [] == gone[..0];
      ReplayNone(d, dumps);
      if op.destHardlinks == 1 {
        GoneIsUnlink(op, o);
        DestTruncates(d, op, o, 0, dumps);
      }
    } else if n <= |gone| {
      DestTruncates(d1, op, o, n - 1, dumps);
      forall m | n <= m <= |gone| ensures Replay(d, ops[..m], dumps) == Replay(d1, gone[..m - 1], dumps) {
        AfterSource(d, op, o, m, dumps);
      }
    } else {
      var i := n - |gone| - 1;
      var d2 := d1.(entries := d1.entries - {dest}, files := FilesAfterRename(d, op));
      DeleteFileName(d, op.sourceParent, op.source, op.sourceInode, dumps);
      ReplayOne(d, SourceUnlink(op), dumps);
      assert ops[..n] == [SourceUnlink(op)] + (gone + tail[..i]);
      ReplayConcat(d, [SourceUnlink(op)], gone + tail[..i], dumps);
      ReplayConcat(d1, gone, tail[..i], dumps);
      UnlinkDestExactly(d, op, o, dumps, d1.entries);
      TailExactly(d2, op, i, dumps);
    }
  }

  lemma GoneIsUnlink(op: MicroOp, o: Options)
    requires op.Rename? && o.splits > 0 && op.destHardlinks >= 1
    ensures UnlinkDestOps(op, o) != []
  {
  }

  lemma AfterSource(d: Fs, op: MicroOp, o: Options, m: nat, dumps: Dumps)
    requires o.splits > 0 && o.expanded && MovingRename(d, op) && 0 < m <= |UnlinkDestOps(op, o)|
    ensures m <= |DiskOpsOf(op, o)|
    ensures Replay(d, DiskOpsOf(op, o)[..m], dumps)
         == Replay(d.(entries := d.entries - {Key(op.sourceParent, Base(op.source))}), UnlinkDestOps(op, o)[..m - 1], dumps)
  {
    hide Replay, Step, DiskOpsOf, UnlinkDestOps, ExpandedTail;
    var gone := UnlinkDestOps(op, o);
    RenameOps(op, o);
    DeleteFileName(d, op.sourceParent, op.source, op.sourceInode, dumps);
    ReplayOne(d, SourceUnlink(op), dumps);
    assert DiskOpsOf(op, o)[..m] == [SourceUnlink(op)] + gone[..m - 1];
    ReplayConcat(d, [SourceUnlink(op)], gone[..m - 1], dumps);
  }

  // Main result for plain renames.  First the old destination loses its bytes, if it has no other name, then
  // its name; then the old name goes, and at last the new name is there.
  lemma PlainRenameCrash(d: Fs, op: MicroOp, o: Options, n: nat, dumps: Dumps)
    requires o.splits > 0 && !o.expanded && MovingRename(d, op) && n <= |DiskOpsOf(op, o)|
    ensures var t, r := |UnlinkDestOps(op, o)|, Replay(d, DiskOpsOf(op, o)[..n], dumps);
            var source, dest := Key(op.sourceParent, Base(op.source)), Key(op.destParent, Base(op.dest));
            && |DiskOpsOf(op, o)| == t + 2 && (t == 0 <==> op.destHardlinks == 0)
            && r.Some?
            && r.value.entries == (if n < t then d.entries
                                   else if n == t then d.entries - {dest}
                                   else if n == t + 1 then d.entries - {dest} - {source}
                                   else (d.entries - {source})[dest := FileNode(op.sourceInode)])
            && DestBytes(d, r.value, op, t, n)
            && forall m :: n < m < t ==>
                 && Replay(d, DiskOpsOf(op, o)[..m], dumps).Some?
                 && |Replay(d, DiskOpsOf(op, o)[..m], dumps).value.FileOf(op.destInode)| < |r.value.FileOf(op.destInode)|
  {
    hide Replay, Step, DiskOpsOf, UnlinkDestOps;
    var source, dest := Key(op.sourceParent, Base(op.source)), Key(op.destParent, Base(op.dest));
    var gone, ops := UnlinkDestOps(op, o), DiskOpsOf(op, o);
    PlainRenameOps(op, o);
    var d2 := d.(entries := d.entries - {dest}, files := FilesAfterRename(d, op));
    var d3 := d2.(entries := d.entries - {dest} - {source});
    if n < |gone| {
      DestTruncates(d, op, o, n, dumps);
      assert forall m :: 0 <= m <= |gone| ==> ops[..m] == gone[..m];
    } else {
      var tail := [SourceUnlink(op), DestLink(op)];
      assert ops[..n] == gone + tail[..n - |gone|];
      ReplayConcat(d, gone, tail[..n - |gone|], dumps);
      UnlinkDestExactly(d, op, o, dumps, d.entries);
      DeleteFileName(d2, op.sourceParent, op.source, op.sourceInode, dumps);
      LinkFileName(d3, op.destParent, op.dest, op.sourceInode, dumps);
      ReplayTwo(d2, d3, SourceUnlink(op), DestLink(op), n - |gone|, dumps);
      assert d3.entries[dest := FileNode(op.sourceInode)] == (d.entries - {source})[dest := FileNode(op.sourceInode)];
    }
  }

  lemma ReplayTwo(d: Fs, mid: Fs, a: DiskOp, b: DiskOp, n: nat, dumps: Dumps)
    requires n <= 2 && Step(d, a, dumps) == Some(mid)
    ensures Replay(d, [a, b][..n], dumps) == if n == 0 then Some(d) else if n == 1 then Some(mid) else Step(mid, b, dumps)
  {
    hide Replay, Step;
    ReplayNone(d, dumps);
    ReplayOne(d, a, dumps);
    ReplayOne(mid, b, dumps);
    ReplayConcat(d, [a], [b], dumps);
    assert [a, b][..0] == [] && [a, b][..1] == [a] && [a, b][..2] == [a] + [b];
  }

  lemma PlainRenameOps(op: MicroOp, o: Options)
    requires op.Rename? && o.splits > 0 && !o.expanded
    ensures DiskOpsOf(op, o) == UnlinkDestOps(op, o) + [SourceUnlink(op), DestLink(op)]
    ensures UnlinkDestOps(op, o) == [] <==> op.destHardlinks == 0
  {
  }

  // The names as someone who looks for the two of them sees them: all six combinations, in this order.
  lemma RenameSixStates(d: Fs, op: MicroOp, t: nat, n: nat)
    requires MovingRename(d, op) && op.destHardlinks >= 1 && 1 <= t && n <= t + 6
    ensures var source, dest := Key(op.sourceParent, Base(op.source)), Key(op.destParent, Base(op.dest));
            var old_, new_ := FileNode(op.destInode), FileNode(op.sourceInode);
            var e := NamesDuring(op, d.entries, t, n);
            && (n == 0 <==> source in e && e[source] == new_ && dest in e && e[dest] == old_)
            && (1 <= n <= t <==> source !in e && dest in e && e[dest] == old_)
            && (n == t + 1 || n == t + 3 <==> source !in e && dest !in e)
            && (n == t + 2 <==> source in e && e[source] == new_ && dest !in e)
            && (n == t + 4 || n == t + 6 <==> source !in e && dest in e && e[dest] == new_)
            && (n == t + 5 <==> source in e && e[source] == new_ && dest in e && e[dest] == new_)
  {
  }

  // No prefix disturbs a third name.
  lemma OtherNamesStay(d: Fs, op: MicroOp, t: nat, n: nat, k: Key)
    requires MovingRename(d, op) && n <= t + 6
    requires k != Key(op.sourceParent, Base(op.source)) && k != Key(op.destParent, Base(op.dest))
    ensures k in NamesDuring(op, d.entries, t, n) <==> k in d.entries
    ensures k in d.entries ==> NamesDuring(op, d.entries, t, n)[k] == d.entries[k]
  {
  }
}
