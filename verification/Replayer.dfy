/** The editor of crash points. */
module Replayers {
  import opened FileSystem
  import opened DiskOps
  import opened MicroOps
  import opened Slicing
  import opened Compiler
  import opened CrashPoints
  import opened Splitting
  import opened GetDiskOps
  import opened Agreement

  /** A saved editor state. */
  datatype Saved = Saved(lines: seq<Line>, microEnd: int, diskEnd: int)

  function Tagged(ops: seq<DiskOp>): (rows: seq<Row>)
    ensures Clear(rows) && Disks(rows) == ops
  {
    var rows := seq(|ops|, k requires 0 <= k < |ops| => Row(ops[k], false));
    assert Disks(rows) == ops;
    rows
  }

  /** A micro op whose disk ops can be made. */
  predicate Compilable(op: MicroOp) {
    op.Overwrite? ==> op.count > 0
  }

  function Regenerated(lines: seq<Line>, ids: seq<nat>, o: Options): (r: seq<Line>)
    requires o.splits > 0 && forall k :: 0 <= k < |ids| ==> ids[k] < |lines|
    ensures |r| == |lines|
    decreases |ids|
  {
    if ids == [] then lines
    else Regenerated(lines[ids[0] := Line(lines[ids[0]].op, Tagged(DiskOpsOf(lines[ids[0]].op, o)))], ids[1..], o)
  }

  function PartLines(parts: seq<MicroOp>, rows: seq<Row>): (r: seq<Line>)
    ensures |r| == |parts|
  {
    seq(|parts|, k requires 0 <= k < |parts| => Line(parts[k], rows))
  }

  function Ops(lines: seq<Line>): (ops: seq<MicroOp>)
    ensures |ops| == |lines|
  {
    seq(|lines|, k requires 0 <= k < |lines| => lines[k].op)
  }

  class Replayer {
    var lines: seq<Line>
    var microEnd: int
    var diskEnd: int
    var saved: map<int, Saved>

    /** The crash point lies within the trace. */
    predicate InBounds()
      reads this
    {
      -1 <= microEnd < |lines| && (microEnd >= 0 ==> -1 <= diskEnd < |lines[microEnd].rows|)
    }

    constructor (microOps: seq<MicroOp>)
      requires forall k :: 0 <= k < |microOps| ==> Compilable(microOps[k])
      ensures Ops(lines) == microOps && Clear(Flat(lines))
      ensures forall k :: 0 <= k < |lines| ==> lines[k].rows == Tagged(DiskOpsOf(lines[k].op, Options(3, Count, false)))
      ensures microEnd == |lines| - 1 && InBounds()
      ensures microOps != [] ==> diskEnd == |lines[microEnd].rows| - 1
      ensures saved == map[0 := Saved(lines, microEnd, diskEnd)]
    {
      lines := PartLines(microOps, []);
      microEnd := |microOps| - 1;
      diskEnd := 0;
      saved := map[];
      new;
      hide DiskOpsOf, Regenerated;
      var ids := seq(|microOps|, k requires 0 <= k < |microOps| => k);
      DopsGenerate(ids, Options(3, Count, false));
      RegeneratedAll(PartLines(microOps, []), ids, Options(3, Count, false));
      ClearLines(lines);
      assert microOps != [] ==> ids[microEnd] == microEnd;
      Save(0);
    }

    /** dops_generate */
    method DopsGenerate(ids: seq<nat>, o: Options)
      requires o.splits > 0 && forall k :: 0 <= k < |ids| ==> ids[k] < |lines| && Compilable(lines[ids[k]].op)
      modifies this`lines, this`diskEnd
      ensures lines == Regenerated(old(lines), ids, o)
      ensures diskEnd == if 0 <= microEnd && microEnd in ids then |lines[microEnd].rows| - 1 else old(diskEnd)
    {
      hide DiskOpsOf, Regenerated;
      var n := 0;
      ghost var start := lines;
      assert ids[0..] == ids;
      while n < |ids|
        invariant 0 <= n <= |ids| && |lines| == |start|
        invariant forall k :: 0 <= k < |lines| ==> lines[k].op == start[k].op
        invariant Regenerated(lines, ids[n..], o) == Regenerated(start, ids, o)
        invariant diskEnd == if 0 <= microEnd && microEnd in ids[..n] then |lines[microEnd].rows| - 1 else old(diskEnd)
      {
        var id := ids[n];
        var made := GetDiskOps.GetDiskOps(lines[id].op, o);
        RegenerateFirst(lines, ids[n..], o);
        assert ids[n..][0] == id && ids[n..][1..] == ids[n + 1..];
        lines := lines[id := Line(lines[id].op, Tagged(made.value))];
        if id == microEnd {
          diskEnd := |lines[id].rows| - 1;
        }
        assert ids[..n + 1] == ids[..n] + [id];
        n := n + 1;
      }
      assert ids[..n] == ids;
      RegenerateNone(lines, o);
    }

    /** end_at: after the last disk op of a micro op. */
    method EndAt(i: nat)
      requires i < |lines|
      modifies this`microEnd, this`diskEnd
      ensures microEnd == i && diskEnd == |lines[i].rows| - 1 && InBounds()
      ensures ToReplay(lines, microEnd, diskEnd) == Kept(Flat(lines[..i + 1]))
    {
      microEnd, diskEnd := i, |lines[i].rows| - 1;
      EndOfLine(lines, i);
    }

    /** dops_end_at */
    method DopsEndAt(i: int, j: int)
      modifies this`microEnd, this`diskEnd
      ensures microEnd == i && diskEnd == j && (IsDouble(lines, i, j) ==> InBounds())
    {
      microEnd, diskEnd := i, j;
    }

    /** dops_omit: output is never left out. */
    method DopsOmit(i: nat, j: nat)
      requires IsDouble(lines, i, j)
      modifies this`lines
      ensures lines == if old(lines[i].op.Stdout? || lines[i].op.Stderr?) then old(lines) else SetFlag(old(lines), i, j, true)
    {
      if !(lines[i].op.Stdout? || lines[i].op.Stderr?) {
        lines := SetFlag(lines, i, j, true);
      }
    }

    /** dops_include */
    method DopsInclude(i: nat, j: nat)
      requires IsDouble(lines, i, j)
      modifies this`lines
      ensures lines == SetFlag(old(lines), i, j, false)
    {
      lines := SetFlag(lines, i, j, false);
    }

    /** save */
    method Save(i: int)
      modifies this`saved
      ensures saved == old(saved)[i := Saved(lines, microEnd, diskEnd)]
    {
      saved := saved[i := Saved(lines, microEnd, diskEnd)];
    }

    /** load: False where the assertion that i was saved fails. */
    method Load(i: int) returns (ok: bool)
      modifies this`lines, this`microEnd, this`diskEnd
      ensures ok <==> i in saved
      ensures ok ==> Saved(lines, microEnd, diskEnd) == saved[i]
      ensures !ok ==> Saved(lines, microEnd, diskEnd) == old(Saved(lines, microEnd, diskEnd))
    {
      ok := i in saved;
      if ok {
        lines, microEnd, diskEnd := saved[i].lines, saved[i].microEnd, saved[i].diskEnd;
      }
    }

    /** split: the parts take the place of the op, with copies of its disk ops, and the end point moves by
        the number of lines gained, wherever it is. */
    method SplitOp(i: nat, how: SplitBy) returns (parts: seq<MicroOp>)
      requires i < |lines| && Splittable(lines[i].op) && how.Legal()
      modifies this`lines, this`microEnd
      ensures Parts(old(lines[i].op), parts, old(lines[i].op.offset), old(lines[i].op.offset + lines[i].op.count))
      ensures old(lines[i].op.count) > 0 <==> parts != []
      ensures lines == old(lines[..i]) + PartLines(parts, old(lines[i].rows)) + old(lines[i + 1..])
      ensures microEnd == old(microEnd) - 1 + |parts|
    {
      var line := lines[i];
      parts := Split(line.op, how);
      lines := lines[..i] + lines[i + 1..];
      microEnd := microEnd - 1;
      ghost var rest := lines;
      var n := 0;
      while n < |parts|
        invariant 0 <= n <= |parts|
        invariant lines == rest[..i] + PartLines(parts, line.rows)[..n] + rest[i..]
        invariant microEnd == old(microEnd) - 1 + n
      {
        lines := lines[..i + n] + [Line(parts[n], line.rows)] + lines[i + n..];
        microEnd := microEnd + 1;
        n := n + 1;
      }
    }

    /** The replay of the current crash point. */
    method DopsReplay() returns (ops: seq<DiskOp>)
      requires InBounds()
      ensures ops == ToReplay(lines, microEnd, diskEnd)
    {
      ops := BuildToReplay(lines, microEnd, diskEnd);
    }
  }

  lemma RegenerateFirst(lines: seq<Line>, ids: seq<nat>, o: Options)
    requires o.splits > 0 && ids != [] && forall k :: 0 <= k < |ids| ==> ids[k] < |lines|
    ensures Regenerated(lines, ids, o)
         == Regenerated(lines[ids[0] := Line(lines[ids[0]].op, Tagged(DiskOpsOf(lines[ids[0]].op, o)))], ids[1..], o)
  {
  }

  lemma RegenerateNone(lines: seq<Line>, o: Options)
    requires o.splits > 0
    ensures Regenerated(lines, [], o) == lines
  {
  }

  lemma {:induction false} RegeneratedAt(lines: seq<Line>, ids: seq<nat>, o: Options, k: nat)
    requires o.splits > 0 && k < |lines| && forall n :: 0 <= n < |ids| ==> ids[n] < |lines|
    ensures Regenerated(lines, ids, o)[k]
         == if k in ids then Line(lines[k].op, Tagged(DiskOpsOf(lines[k].op, o))) else lines[k]
    decreases |ids|
  {
    if ids != [] {
      RegeneratedAt(lines[ids[0] := Line(lines[ids[0]].op, Tagged(DiskOpsOf(lines[ids[0]].op, o)))], ids[1..], o, k);
      assert k in ids <==> k == ids[0] || k in ids[1..];
    }
  }

  lemma RegeneratedAll(lines: seq<Line>, ids: seq<nat>, o: Options)
    requires o.splits > 0 && |ids| == |lines| && forall k :: 0 <= k < |ids| ==> ids[k] == k
    ensures Ops(Regenerated(lines, ids, o)) == Ops(lines)
    ensures forall k :: 0 <= k < |lines| ==> Regenerated(lines, ids, o)[k].rows == Tagged(DiskOpsOf(lines[k].op, o))
  {
    forall k | 0 <= k < |lines|
      ensures Regenerated(lines, ids, o)[k] == Line(lines[k].op, Tagged(DiskOpsOf(lines[k].op, o)))
    {
      assert ids[k] == k;
      RegeneratedAt(lines, ids, o, k);
    }
  }

  lemma {:induction false} ClearLines(lines: seq<Line>)
    requires forall k :: 0 <= k < |lines| ==> Clear(lines[k].rows)
    ensures Clear(Flat(lines))
    decreases |lines|
  {
    if lines != [] {
      ClearLines(lines[1..]);
    }
  }

  /** The lines are freshly compiled, each with its own options. */
  predicate CompiledWith(lines: seq<Line>, o: seq<Options>) {
    ProperOptions(o, |lines|) && forall k :: 0 <= k < |lines| ==> lines[k].rows == Tagged(DiskOpsOf(lines[k].op, o[k]))
  }

  // The disk ops of freshly generated lines are those of the compiled trace.
  lemma {:induction false} KeptIsCompiled(lines: seq<Line>, o: seq<Options>)
    requires CompiledWith(lines, o)
    ensures Kept(Flat(lines)) == CompileAll(Ops(lines), o)
    decreases |lines|
  {
    hide DiskOpsOf;
    if lines != [] {
      KeptConcat(lines[0].rows, Flat(lines[1..]));
      KeptAll(lines[0].rows);
      KeptIsCompiled(lines[1..], o[1..]);
      assert Ops(lines)[1..] == Ops(lines[1..]);
    }
  }

  // Ending a freshly generated trace after a micro op, and replaying it, shows the tree that the micro
  // ops up to there make.
  lemma EndedReplayAgrees(fs: Fs, lines: seq<Line>, o: seq<Options>, i: nat, dumps: Dumps)
    requires i < |lines| && CompiledWith(lines, o)
    requires fs.Valid() && WellFormedTrace(fs, Ops(lines), dumps) && NoUnsafeRename(Ops(lines), o)
    ensures var plain, disk := MicroReplay(fs, Ops(lines)[..i + 1], dumps), Replay(fs, Kept(Flat(lines[..i + 1])), dumps);
            plain.Some? && disk.Some? && SameTree(plain.value, disk.value)
  {
    hide DiskOpsOf, WellFormedTrace, SameTree, MicroReplay, Replay, UnsafeRename;
    KeptIsCompiled(lines[..i + 1], o[..i + 1]);
    assert Ops(lines[..i + 1]) == Ops(lines)[..i + 1];
    ReplayersAgree(fs, Ops(lines), o, dumps);
    assert PrefixAgrees(fs, Ops(lines), o, i + 1, dumps);
  }

  /** The ops up to the end point, with the parts in the place of op i when it is among them. */
  function ReplayedAfterSplit(ops: seq<MicroOp>, i: nat, parts: seq<MicroOp>, microEnd: nat): seq<MicroOp>
    requires i < |ops| && microEnd < |ops|
  {
    if i <= microEnd then ops[..i] + parts + ops[i + 1..microEnd + 1] else ops[..microEnd + 1]
  }

  // A split keeps the end point on the same op exactly when the op lies at or before the end point, or
  // is split into one part.  Splitting an op behind the end point drags the end point along.
  lemma SplitKeepsEndPoint(ops: seq<MicroOp>, i: nat, parts: seq<MicroOp>, microEnd: nat)
    requires i < |ops| && microEnd < |ops| && parts != []
    ensures var after, end := ops[..i] + parts + ops[i + 1..], microEnd - 1 + |parts|;
            && 0 <= end < |after|
            && (after[..end + 1] == ReplayedAfterSplit(ops, i, parts, microEnd) <==> i <= microEnd || |parts| == 1)
  {
    var after, end := ops[..i] + parts + ops[i + 1..], microEnd - 1 + |parts|;
    if i <= microEnd {
      assert after[..end + 1] == ReplayedAfterSplit(ops, i, parts, microEnd);
    } else if |parts| == 1 {
      assert after[..end + 1] == ops[..microEnd + 1];
    }
  }

  // So with the end point at or behind the op, the crash point replays what it replayed before.
  lemma SplitKeepsCrashPoint(fs: Fs, ops: seq<MicroOp>, i: nat, parts: seq<MicroOp>, microEnd: nat, dumps: Dumps)
    requires i <= microEnd < |ops| && Splittable(ops[i]) && ops[i].count > 0
    requires Parts(ops[i], parts, ops[i].offset, ops[i].offset + ops[i].count) && parts != []
    requires InDump(dumps, ops[i].dumpFile, ops[i].dumpOffset, ops[i].count)
    ensures var after, end := ops[..i] + parts + ops[i + 1..], microEnd - 1 + |parts|;
            MicroReplay(fs, after[..end + 1], dumps) == MicroReplay(fs, ops[..microEnd + 1], dumps)
  {
    hide MicroReplay;
    SplitKeepsEndPoint(ops, i, parts, microEnd);
    SplitKeepsMeaning(fs, ops[..i], ops[i], parts, ops[i + 1..microEnd + 1], dumps);
    assert ops[..i] + [ops[i]] + ops[i + 1..microEnd + 1] == ops[..microEnd + 1];
  }
}
