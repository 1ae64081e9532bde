/** The scripts that drive the editor over a trace. */
module Specifier {
  import opened FileSystem
  import opened DiskOps
  import opened MicroOps
  import opened Compiler
  import opened Agreement
  import opened CrashPoints
  import opened Replayers
  import opened Slicing
  import opened CrashStates
  import opened TraceMarks

  /** The scripts pass over ops that change no file, and may consider some kinds of micro op only. */
  predicate PseudoOp(op: MicroOp) {
    op.SyncFile? || op.SyncRange? || op.Stdout? || op.Stderr?
  }

  predicate SyncOp(op: MicroOp) {
    op.SyncFile? || op.SyncRange?
  }

  /** Does omit_one leave out the disk op with this number? */
  predicate Selected(lines: seq<Line>, n: nat, consider: MicroOp -> bool)
    requires n < |Flat(lines)|
  {
    var (i, j) := DoubleOf(lines, n);
    var op, dop := lines[i].op, lines[i].rows[j].disk;
    && !PseudoOp(op) && consider(op)
    && !(op.Append? && dop.Write? && !dop.payload.Dump?)
    && !(op.Trunc? && dop.Write? && dop.payload != Zeros)
    && !(op.Trunc? && dop.Truncate? && j != |lines[i].rows| - 1)
  }

  /** Does omit_one stop at the disk op with this number? */
  predicate StopsAt(lines: seq<Line>, n: nat)
    requires n < |Flat(lines)|
  {
    !SyncOp(lines[DoubleOf(lines, n).0].op)
  }

  /** One replay of a script: the op that was left out, where the crash was, and what was replayed. */
  datatype Run = Run(dropped: nat, till: nat, ops: seq<DiskOp>)

  /** The runs of a script come one after the other: by op that was left out, and by crash point. */
  predicate InOrder(log: seq<Run>) {
    forall i, j :: 0 <= i < j < |log| ==>
      log[i].dropped < log[j].dropped || (log[i].dropped == log[j].dropped && log[i].till < log[j].till)
  }

  // Which disk ops of a freshly compiled micro op are left out: of an append those that write data, of a
  // growing truncate those that write zeros, of a shrinking one the last, of the others all; and of syncs and
  // output none.
  lemma SelectedOfCompiled(lines: seq<Line>, i: nat, j: nat, o: Options, consider: MicroOp -> bool)
    requires IsDouble(lines, i, j) && o.splits > 0 && lines[i].rows == Tagged(DiskOpsOf(lines[i].op, o))
    ensures 0 <= Single(lines, i, j) < |Flat(lines)|
    ensures Selected(lines, Single(lines, i, j), consider) <==>
            && consider(lines[i].op)
            && match lines[i].op
               case Append(_, _, _, _, _, _) => j % 3 == 2
               case Trunc(_, _, initialSize, finalSize) => if initialSize < finalSize then j % 2 == 1 else j == |lines[i].rows| - 1
               case SyncFile(_, _, _) => false
               case SyncRange(_, _, _, _) => false
               case Stdout(_) => false
               case Stderr(_) => false
               case _ => true
  {
    hide Flat, Single, DiskOpsOf;
    SingleIsInverse(lines, i, j);
    assert lines[i].rows[j].disk == DiskOpsOf(lines[i].op, o)[j];
    if lines[i].op.Append? {
      AppendOpAt(lines[i].op, o, j);
    } else if lines[i].op.Trunc? {
      TruncOpAt(lines[i].op, o, j);
    }
  }

  // Replays stop at every disk op that does not belong to a sync.
  lemma StopsAtPair(lines: seq<Line>, i: nat, j: nat)
    requires IsDouble(lines, i, j)
    ensures 0 <= Single(lines, i, j) < |Flat(lines)|
    ensures StopsAt(lines, Single(lines, i, j)) <==> !lines[i].op.SyncFile? && !lines[i].op.SyncRange?
  {
    hide Flat, Single;
    SingleIsInverse(lines, i, j);
  }

  lemma AppendOpAt(op: MicroOp, o: Options, j: nat)
    requires op.Append? && o.splits > 0 && j < |DiskOpsOf(op, o)|
    ensures DiskOpsOf(op, o)[j].Write?
    ensures DiskOpsOf(op, o)[j].payload.Dump? <==> j % 3 == 2
  {
    hide AppendOps, Pieces, ProperSlices;
    var s := Pieces(o, op.offset, op.offset + op.count);
    var once := AppendAll(op.inode, op.offset, op.count, op.dumpFile, op.dumpOffset, o);
    var k := if j < |once| then j else j - |once|;
    assert k < |once| && DiskOpsOf(op, o)[j] == once[k];
    AppendSliceAt(op.inode, s, op.dumpFile, op.dumpOffset, k);
    assert k % 3 == j % 3 by { ThreeTimes(k, |s|); }
  }

  lemma ThreeTimes(k: nat, n: nat)
    ensures (k + 3 * n) % 3 == k % 3
  {
  }

  lemma {:induction false} AppendSliceAt(inode: nat, s: seq<Slice>, file: string, dump: nat, j: nat)
    requires ProperSlices(s)
    ensures |AppendOps(inode, s, file, dump)| == 3 * |s|
    ensures j < 3 * |s| ==> AppendOps(inode, s, file, dump)[j].Write? && (AppendOps(inode, s, file, dump)[j].payload.Dump? <==> j % 3 == 2)
    decreases |s|
  {
    if s != [] {
      AppendSliceAt(inode, s[1..], file, dump + (s[0].hi - s[0].lo), if j < 3 then 0 else j - 3);
    }
  }

  lemma TruncOpAt(op: MicroOp, o: Options, j: nat)
    requires op.Trunc? && o.splits > 0 && j < |DiskOpsOf(op, o)|
    ensures if op.initialSize < op.finalSize
            then DiskOpsOf(op, o)[j].Write? && (DiskOpsOf(op, o)[j].payload == Zeros <==> j % 2 == 1)
            else DiskOpsOf(op, o)[j].Truncate?
  {
    if op.initialSize <= op.finalSize {
      GrowSliceAt(op.inode, Pieces(o, op.initialSize, op.finalSize), j);
    } else {
      var s := Pieces(o, op.finalSize, op.initialSize);
      ShrinkLength(op.inode, s);
      GetDiskOps.ShrinkAt(op.inode, s, |s| - 1 - j);
    }
  }

  lemma {:induction false} GrowSliceAt(inode: nat, s: seq<Slice>, j: nat)
    requires ProperSlices(s)
    ensures |GrowOps(inode, s)| == 2 * |s|
    ensures j < 2 * |s| ==> GrowOps(inode, s)[j].Write? && (GrowOps(inode, s)[j].payload == Zeros <==> j % 2 == 1)
    decreases |s|
  {
    if s != [] {
      GrowSliceAt(inode, s[1..], if j < 2 then 0 else j - 2);
    }
  }

  /** The inner loop of omit_one, for one disk op. */
  method OmitAndStop(r: Replayer, dropped: nat, limit: int) returns (log: seq<Run>)
    requires Clear(Flat(r.lines)) && dropped < |Flat(r.lines)| && limit < |Flat(r.lines)|
    requires !PseudoOp(r.lines[DoubleOf(r.lines, dropped).0].op)
    modifies r`lines, r`microEnd, r`diskEnd
    ensures r.lines == old(r.lines)
    ensures InOrder(log)
    ensures forall x :: x in log ==>
      && x.dropped == dropped < x.till <= limit && StopsAt(r.lines, x.till)
      && x.ops == WithoutOne(Disks(Flat(r.lines)), dropped, x.till)
    ensures forall till :: dropped < till <= limit && StopsAt(r.lines, till) ==>
              Run(dropped, till, WithoutOne(Disks(Flat(r.lines)), dropped, till)) in log
  {
    hide Flat, Kept, ToReplay, WithoutOne, DoubleOf;
    log := [];
    var till := dropped + 1;
    while till <= limit
      invariant dropped < till && r.lines == old(r.lines) && InOrder(log)
      invariant forall x :: x in log ==>
        && x.dropped == dropped < x.till < till && x.till <= limit && StopsAt(r.lines, x.till)
        && x.ops == WithoutOne(Disks(Flat(r.lines)), dropped, x.till)
      invariant forall t :: dropped < t < till && t <= limit && StopsAt(r.lines, t) ==>
                  Run(dropped, t, WithoutOne(Disks(Flat(r.lines)), dropped, t)) in log
      decreases limit - till
    {
      var at := DopsDouble(r.lines, till);
      if !SyncOp(r.lines[at.value.0].op) {
        var out := DopsDouble(r.lines, dropped);
        ReplayWithoutOne(r.lines, dropped, till);
        r.DopsEndAt(at.value.0, at.value.1);
        r.DopsOmit(out.value.0, out.value.1);
        var ops := r.DopsReplay();
        r.DopsInclude(out.value.0, out.value.1);
        log := log + [Run(dropped, till, ops)];
      }
      till := till + 1;
    }
  }

  /** omit_one.  `limit` gives, for every disk op, the last one that may still follow it when it is left out. */
  method OmitOne(r: Replayer, consider: MicroOp -> bool, limit: nat -> int) returns (log: seq<Run>)
    requires Clear(Flat(r.lines)) && forall n :: limit(n) < |Flat(r.lines)|
    modifies r`lines, r`microEnd, r`diskEnd
    ensures r.lines == old(r.lines)
    ensures InOrder(log)
    ensures forall x :: x in log ==> x.dropped < x.till < |Flat(r.lines)| && x.ops == WithoutOne(Disks(Flat(r.lines)), x.dropped, x.till)
    ensures forall dropped: nat, till: nat ::
              (exists x :: x in log && x.dropped == dropped && x.till == till)
              <==> dropped < till <= limit(dropped) && Selected(r.lines, dropped, consider) && StopsAt(r.lines, till)
  {
    log := [];
    for n := 0 to |Flat(r.lines)|
      invariant r.lines == old(r.lines) && InOrder(log)
      invariant forall x :: x in log ==>
        && x.dropped < n && x.dropped < x.till <= limit(x.dropped)
        && Selected(r.lines, x.dropped, consider) && StopsAt(r.lines, x.till)
        && x.ops == WithoutOne(Disks(Flat(r.lines)), x.dropped, x.till)
      invariant forall dropped: nat, till: nat ::
                  dropped < n && dropped < till <= limit(dropped) && Selected(r.lines, dropped, consider) && StopsAt(r.lines, till)
                  ==> Run(dropped, till, WithoutOne(Disks(Flat(r.lines)), dropped, till)) in log
    {
      if Selected(r.lines, n, consider) {
        var more := OmitAndStop(r, n, limit(n));
        log := log + more;
      }
    }
  }

  // The crash point at a disk op replays the flat list up to it, when no flag is set.
  lemma ReplayUpTo(lines: seq<Line>, n: nat)
    requires Clear(Flat(lines)) && n < |Flat(lines)|
    ensures var (i, j) := DoubleOf(lines, n); IsDouble(lines, i, j) && ToReplay(lines, i, j) == Disks(Flat(lines))[..n + 1]
  {
    DoubleIsInverse(lines, n);
    KeptAll(Flat(lines)[..n + 1]);
    assert Disks(Flat(lines)[..n + 1]) == Disks(Flat(lines))[..n + 1];
  }

  /** prefix_run: one crash point at every disk op of a considered micro op. */
  method PrefixRun(r: Replayer, consider: MicroOp -> bool) returns (log: seq<(nat, seq<DiskOp>)>)
    requires Clear(Flat(r.lines))
    modifies r`microEnd, r`diskEnd
    ensures forall i, j :: 0 <= i < j < |log| ==> log[i].0 < log[j].0
    ensures forall x :: x in log <==>
              x.0 < |Flat(r.lines)| && consider(r.lines[DoubleOf(r.lines, x.0).0].op) && x.1 == Disks(Flat(r.lines))[..x.0 + 1]
  {
    hide Flat, Kept, ToReplay, DoubleOf, Disks;
    log := [];
    for n := 0 to |Flat(r.lines)|
      invariant forall i, j :: 0 <= i < j < |log| ==> log[i].0 < log[j].0
      invariant forall x :: x in log <==>
                  x.0 < n && consider(r.lines[DoubleOf(r.lines, x.0).0].op) && x.1 == Disks(Flat(r.lines))[..x.0 + 1]
    {
      var at := DopsDouble(r.lines, n);
      if consider(r.lines[at.value.0].op) {
        ReplayUpTo(r.lines, n);
        r.DopsEndAt(at.value.0, at.value.1);
        var ops := r.DopsReplay();
        log := log + [(n, ops)];
      }
    }
  }

  /** The lines with the flags of rows a to b - 1 of line i set, and its other flags clear. */
  function Flagged(lines: seq<Line>, i: nat, a: nat, b: nat): (r: seq<Line>)
    requires i < |lines|
    ensures |r| == |lines| && |r[i].rows| == |lines[i].rows| && r[i].op == lines[i].op
    ensures forall k :: 0 <= k < |lines| && k != i ==> r[k] == lines[k]
  {
    var rows := lines[i].rows;
    lines[i := Line(lines[i].op, seq(|rows|, k requires 0 <= k < |rows| => Row(rows[k].disk, a <= k < b)))]
  }

  lemma FlagMore(lines: seq<Line>, i: nat, n: nat)
    requires IsDouble(lines, i, n)
    ensures Flagged(lines, i, 0, n + 1) == SetFlag(Flagged(lines, i, 0, n), i, n, true)
    ensures Flagged(lines, i, n + 1, |lines[i].rows|) == SetFlag(Flagged(lines, i, n, |lines[i].rows|), i, n, false)
  {
    var all := |lines[i].rows|;
    assert Flagged(lines, i, 0, n + 1)[i].rows == SetFlag(Flagged(lines, i, 0, n), i, n, true)[i].rows;
    assert Flagged(lines, i, n + 1, all)[i].rows == SetFlag(Flagged(lines, i, n, all), i, n, false)[i].rows;
  }

  lemma FlagNone(lines: seq<Line>, i: nat, n: nat)
    requires i < |lines| && Clear(lines[i].rows)
    ensures Flagged(lines, i, n, n) == lines
  {
    assert Flagged(lines, i, n, n)[i].rows == lines[i].rows;
  }

  lemma {:induction false} KeptNone(rows: seq<Row>)
    requires forall k :: 0 <= k < |rows| ==> rows[k].omitted
    ensures Kept(rows) == []
    decreases |rows|
  {
    if rows != [] {
      KeptNone(rows[1..]);
    }
  }

  // With all flags of a line set, a crash point at the end of a later line replays what it would if the
  // line was not there.
  lemma ReplayWithoutLine(lines: seq<Line>, i: nat, j: nat)
    requires i < j < |lines|
    ensures var flagged := Flagged(lines, i, 0, |lines[i].rows|);
            ToReplay(flagged, j, |flagged[j].rows| - 1) == Kept(Flat(lines[..i] + lines[i + 1..j + 1]))
  {
    hide Flat, Kept, ToReplay;
    var flagged := Flagged(lines, i, 0, |lines[i].rows|);
    EndOfLine(flagged, j);
    var front, row, back := lines[..i], flagged[i].rows, lines[i + 1..j + 1];
    FlatAround(flagged[..j + 1], i);
    assert flagged[..j + 1][..i] == front && flagged[..j + 1][i + 1..] == back;
    FlatConcat(front, back);
    KeptConcat(Flat(front) + row, Flat(back));
    KeptConcat(Flat(front), row);
    KeptNone(row);
    KeptConcat(Flat(front), Flat(back));
  }

  /** The last line whose disk ops all lie at or before the disk op with this number. */
  function LastWhole(lines: seq<Line>, n: nat): (r: int)
    requires n < |Flat(lines)|
    ensures -1 <= r < |lines|
  {
    var (i, j) := DoubleOf(lines, n);
    if j == |lines[i].rows| - 1 then i else i - 1
  }

  // A line lies before the limit as a whole exactly when its last disk op does.
  lemma LastWholeIff(lines: seq<Line>, n: nat, k: nat)
    requires n < |Flat(lines)| && k < |lines| && lines[k].rows != []
    ensures k <= LastWhole(lines, n) <==> Single(lines, k, |lines[k].rows| - 1) <= n
  {
    hide Flat, Single;
    var (i, j) := DoubleOf(lines, n);
    DoubleIsInverse(lines, n);
    SingleOrder(lines, k, |lines[k].rows| - 1, i, j);
  }

  predicate LineSelected(lines: seq<Line>, i: nat)
    requires i < |lines|
  {
    lines[i].rows != [] && !PseudoOp(lines[i].op)
  }

  predicate LineStopsAt(lines: seq<Line>, j: nat)
    requires j < |lines|
  {
    lines[j].rows != [] && !SyncOp(lines[j].op)
  }

  // Which micro ops are left out, and at which ones replays end, when the disk ops are freshly compiled: those
  // that have disk ops; syncs and output are never left out, and no replay ends at a sync.
  lemma SelectedLines(lines: seq<Line>, i: nat, o: Options)
    requires i < |lines| && o.splits > 0 && lines[i].rows == Tagged(DiskOpsOf(lines[i].op, o))
    ensures LineSelected(lines, i) <==> DiskOpsOf(lines[i].op, o) != [] && Promised([lines[i].op]) == []
    ensures LineStopsAt(lines, i) <==>
              && DiskOpsOf(lines[i].op, o) != []
              && (Promised([lines[i].op]) == [] || lines[i].op.Stdout? || lines[i].op.Stderr?)
  {
    hide DiskOpsOf;
    assert [lines[i].op][1..] == [] && Promised([]) == [];
    assert |lines[i].rows| == |DiskOpsOf(lines[i].op, o)|;
  }

  /** The body of the loop of omit_one_micro_op, for one micro op. */
  method OmitLine(r: Replayer, i: nat, till: int) returns (log: seq<Run>)
    requires i < |r.lines| && Clear(r.lines[i].rows) && LineSelected(r.lines, i) && till < |r.lines|
    modifies r`lines, r`microEnd, r`diskEnd
    ensures r.lines == old(r.lines)
    ensures InOrder(log)
    ensures forall x :: x in log <==>
              && x.dropped == i < x.till <= till && LineStopsAt(r.lines, x.till)
              && x.ops == Kept(Flat(r.lines[..i] + r.lines[i + 1..x.till + 1]))
  {
    hide Flat, Kept, ToReplay;
    log := [];
    ghost var lines := r.lines;
    var all := |r.lines[i].rows|;
    FlagNone(lines, i, 0);
    for n := 0 to all
      invariant r.lines == Flagged(lines, i, 0, n)
    {
      FlagMore(lines, i, n);
      r.DopsOmit(i, n);
    }
    var j := i + 1;
    while j <= till
      invariant i < j && r.lines == Flagged(lines, i, 0, all) && InOrder(log)
      invariant forall x :: x in log <==>
                  && x.dropped == i < x.till <= till && x.till < j && LineStopsAt(lines, x.till)
                  && x.ops == Kept(Flat(lines[..i] + lines[i + 1..x.till + 1]))
      decreases till - j
    {
      if !SyncOp(r.lines[j].op) && r.lines[j].rows != [] {
        ReplayWithoutLine(lines, i, j);
        r.DopsEndAt(j, |r.lines[j].rows| - 1);
        var ops := r.DopsReplay();
        log := log + [Run(i, j, ops)];
      }
      j := j + 1;
    }
    for n := 0 to all
      invariant r.lines == Flagged(lines, i, n, all)
    {
      FlagMore(lines, i, n);
      r.DopsInclude(i, n);
    }
    FlagNone(lines, i, all);
  }

  /** omit_one_micro_op.  `limit` gives the last disk op that may still follow when line i is left out. */
  method OmitOneMicroOp(r: Replayer, limit: nat -> nat) returns (log: seq<Run>)
    requires Clear(Flat(r.lines)) && forall i :: 0 <= i < |r.lines| && r.lines[i].rows != [] ==> limit(i) < |Flat(r.lines)|
    modifies r`lines, r`microEnd, r`diskEnd
    ensures r.lines == old(r.lines)
    ensures InOrder(log)
    ensures forall x :: x in log <==>
              && x.dropped < x.till < |r.lines|
              && LineSelected(r.lines, x.dropped) && LineStopsAt(r.lines, x.till)
              && Single(r.lines, x.till, |r.lines[x.till].rows| - 1) <= limit(x.dropped)
              && x.ops == Kept(Flat(r.lines[..x.dropped] + r.lines[x.dropped + 1..x.till + 1]))
  {
    hide Flat, Kept, LastWhole, InOrder, Clear, Single;
    log := [];
    NoRuns();
    for i := 0 to |r.lines|
      invariant r.lines == old(r.lines) && InOrder(log)
      invariant forall x :: x in log <==>
                  && x.dropped < i && x.dropped < x.till < |r.lines|
                  && LineSelected(r.lines, x.dropped) && LineStopsAt(r.lines, x.till)
                  && Single(r.lines, x.till, |r.lines[x.till].rows| - 1) <= limit(x.dropped)
                  && x.ops == Kept(Flat(r.lines[..x.dropped] + r.lines[x.dropped + 1..x.till + 1]))
    {
      if LineSelected(r.lines, i) {
        ClearLine(r.lines, i);
        forall k | 0 <= k < |r.lines| && LineStopsAt(r.lines, k)
          ensures k <= LastWhole(r.lines, limit(i)) <==> Single(r.lines, k, |r.lines[k].rows| - 1) <= limit(i)
        {
          LastWholeIff(r.lines, limit(i), k);
        }
        var more := OmitLine(r, i, LastWhole(r.lines, limit(i)));
        InOrderConcat(log, more);
        log := log + more;
      }
    }
  }

  lemma NoRuns()
    ensures InOrder([])
  {
  }

  lemma InOrderConcat(a: seq<Run>, b: seq<Run>)
    requires InOrder(a) && InOrder(b) && forall x, y :: x in a && y in b ==> x.dropped < y.dropped
    ensures InOrder(a + b)
  {
    forall i, j | 0 <= i < |a| && 0 <= j < |b| ensures a[i].dropped < b[j].dropped {
      assert a[i] in a && b[j] in b;
    }
  }

  lemma ClearLine(lines: seq<Line>, i: nat)
    requires i < |lines| && Clear(Flat(lines))
    ensures Clear(lines[i].rows)
  {
    forall j | 0 <= j < |lines[i].rows| ensures !lines[i].rows[j].omitted {
      SingleAt(lines, i, j);
    }
  }

  // What omit_one_micro_op replays is the trace without the op, compiled; so if that trace could have
  // been recorded, the replay shows the tree that the micro ops without the op make.
  lemma WithoutLineAgrees(fs: Fs, lines: seq<Line>, i: nat, j: nat, o: seq<Options>, dumps: Dumps)
    requires i < j < |lines| && CompiledWith(WithoutLine(lines, i, j), o)
    requires fs.Valid() && WellFormedTrace(fs, Ops(WithoutLine(lines, i, j)), dumps) && NoUnsafeRename(Ops(WithoutLine(lines, i, j)), o)
    ensures var plain := MicroReplay(fs, Ops(WithoutLine(lines, i, j)), dumps);
            var disk := Replay(fs, Kept(Flat(lines[..i] + lines[i + 1..j + 1])), dumps);
            plain.Some? && disk.Some? && SameTree(plain.value, disk.value)
  {
    hide DiskOpsOf, WellFormedTrace, SameTree, MicroReplay, Replay, UnsafeRename, CompileAll;
    var kept := WithoutLine(lines, i, j);
    KeptIsCompiled(kept, o);
    ReplayersAgree(fs, Ops(kept), o, dumps);
    assert PrefixAgrees(fs, Ops(kept), o, |kept|, dumps);
    assert Ops(kept)[..|kept|] == Ops(kept) && o[..|kept|] == o;
  }

  /** The lines up to line j, without line i. */
  function WithoutLine(lines: seq<Line>, i: nat, j: nat): (kept: seq<Line>)
    requires i < j < |lines|
    ensures |kept| == j
  {
    lines[..i] + lines[i + 1..j + 1]
  }
}
