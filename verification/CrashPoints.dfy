/** The numbering of disk ops, and the list of disk ops that a crash point replays. */
module CrashPoints {
  import opened FileBytes
  import opened FileSystem
  import opened DiskOps
  import opened MicroOps

  /** A disk op with the flag that leaves it out of replays. */
  datatype Row = Row(disk: DiskOp, omitted: bool)

  /** A micro op with the disk ops that were made for it. */
  datatype Line = Line(op: MicroOp, rows: seq<Row>)

  /** All disk ops, in order. */
  function Flat(lines: seq<Line>): seq<Row> {
    if lines == [] then [] else lines[0].rows + Flat(lines[1..])
  }

  /** How many disk ops come before line i. */
  function Before(lines: seq<Line>, i: nat): nat
    requires i <= |lines|
  {
    |Flat(lines[..i])|
  }

  predicate IsDouble(lines: seq<Line>, i: int, j: int) {
    0 <= i < |lines| && 0 <= j < |lines[i].rows|
  }

  /** The flat number of disk op j of line i. */
  function Single(lines: seq<Line>, i: nat, j: int): int
    requires i <= |lines|
  {
    Before(lines, i) + j
  }

  lemma {:induction false} FlatConcat(a: seq<Line>, b: seq<Line>)
    ensures Flat(a + b) == Flat(a) + Flat(b)
    decreases |a|
  {
    if a == [] {
      assert a + b == b;
    } else {
      assert (a + b)[1..] == a[1..] + b;
      FlatConcat(a[1..], b);
    }
  }

  // The disk ops around line i.
  lemma FlatAround(lines: seq<Line>, i: nat)
    requires i < |lines|
    ensures Flat(lines) == Flat(lines[..i]) + lines[i].rows + Flat(lines[i + 1..])
    ensures Before(lines, i + 1) == Before(lines, i) + |lines[i].rows|
  {
    assert lines == lines[..i] + ([lines[i]] + lines[i + 1..]);
    FlatConcat(lines[..i], [lines[i]] + lines[i + 1..]);
    assert lines[..i + 1] == lines[..i] + [lines[i]];
    FlatConcat(lines[..i], [lines[i]]);
    assert Flat([lines[i]]) == lines[i].rows by { assert [lines[i]][1..] == [] && Flat([]) == []; }
  }

  lemma {:induction false} BeforeMonotone(lines: seq<Line>, i: nat, k: nat)
    requires i <= k <= |lines|
    ensures Before(lines, i) <= Before(lines, k) <= |Flat(lines)|
    decreases k
  {
    assert lines == lines[..k] + lines[k..];
    FlatConcat(lines[..k], lines[k..]);
    if i < k {
      BeforeMonotone(lines, i, k - 1);
      FlatAround(lines, k - 1);
    }
  }

  // The flat number of a pair is in range, and leads to the op the pair names.
  lemma SingleAt(lines: seq<Line>, i: nat, j: nat)
    requires IsDouble(lines, i, j)
    ensures 0 <= Single(lines, i, j) < |Flat(lines)|
    ensures Flat(lines)[Single(lines, i, j)] == lines[i].rows[j]
  {
    FlatAround(lines, i);
  }

  // Numbering keeps the order of pairs, lines without disk ops included.
  lemma SingleOrder(lines: seq<Line>, i: nat, j: nat, i': nat, j': nat)
    requires IsDouble(lines, i, j) && IsDouble(lines, i', j')
    ensures Single(lines, i, j) < Single(lines, i', j') <==> i < i' || (i == i' && j < j')
    ensures Single(lines, i, j) == Single(lines, i', j') <==> i == i' && j == j'
  {
    FlatAround(lines, i);
    FlatAround(lines, i');
    if i < i' {
      BeforeMonotone(lines, i + 1, i');
    } else if i' < i {
      BeforeMonotone(lines, i' + 1, i);
    }
  }

  /** The pair of a flat number. */
  function DoubleOf(lines: seq<Line>, single: nat): (r: (nat, nat))
    requires single < |Flat(lines)|
    ensures IsDouble(lines, r.0, r.1)
  {
    if single < |lines[0].rows| then (0, single)
    else
      var (i, j) := DoubleOf(lines[1..], single - |lines[0].rows|);
      (i + 1, j)
  }

  lemma {:induction false} DoubleIsInverse(lines: seq<Line>, single: nat)
    requires single < |Flat(lines)|
    ensures var (i, j) := DoubleOf(lines, single); IsDouble(lines, i, j) && Single(lines, i, j) == single
    decreases |lines|
  {
    if single >= |lines[0].rows| {
      DoubleIsInverse(lines[1..], single - |lines[0].rows|);
      var (i, j) := DoubleOf(lines[1..], single - |lines[0].rows|);
      assert lines[..i + 1] == [lines[0]] + lines[1..][..i];
    } else {
      assert lines[..0] == [];
    }
  }

  lemma SingleIsInverse(lines: seq<Line>, i: nat, j: nat)
    requires IsDouble(lines, i, j)
    ensures 0 <= Single(lines, i, j) < |Flat(lines)| && DoubleOf(lines, Single(lines, i, j)) == (i, j)
  {
    SingleAt(lines, i, j);
    DoubleIsInverse(lines, Single(lines, i, j));
    var (i', j') := DoubleOf(lines, Single(lines, i, j));
    SingleOrder(lines, i, j, i', j');
  }

  /** dops_double: the pair of a flat number, by walking the lines; None where the walk runs out. */
  method DopsDouble(lines: seq<Line>, single: nat) returns (r: Option<(nat, nat)>)
    ensures r.Some? <==> single < |Flat(lines)|
    ensures r.Some? ==> r.value == DoubleOf(lines, single)
    ensures r.Some? ==> IsDouble(lines, r.value.0, r.value.1) && Single(lines, r.value.0, r.value.1) == single
  {
    var seen := 0;
    assert lines[..0] == [];
    for i := 0 to |lines|
      invariant seen == Before(lines, i) <= single
    {
      FlatAround(lines, i);
      BeforeMonotone(lines, i, i);
      if single < seen + |lines[i].rows| {
        SingleIsInverse(lines, i, single - seen);
        return Some((i, single - seen));
      }
      seen := seen + |lines[i].rows|;
    }
    assert lines[..|lines|] == lines;
    r := None;
  }

  /** dops_single: the flat number of a pair; -1 for no pair.  A line number beyond the trace counts all
      disk ops. */
  method DopsSingle(lines: seq<Line>, double: Option<(nat, int)>) returns (r: int)
    ensures double.None? ==> r == -1
    ensures double.Some? ==> r == Single(lines, Min(double.value.0, |lines|), double.value.1)
  {
    if double.None? {
      return -1;
    }
    var seen := 0;
    assert lines[..0] == [];
    for i := 0 to Min(double.value.0, |lines|)
      invariant seen == Before(lines, i)
    {
      FlatAround(lines, i);
      seen := seen + |lines[i].rows|;
    }
    r := seen + double.value.1;
  }

  /** The disk ops of the rows that are not left out. */
  function Kept(rows: seq<Row>): seq<DiskOp> {
    if rows == [] then []
    else (if rows[0].omitted then [] else [rows[0].disk]) + Kept(rows[1..])
  }

  lemma {:induction false} KeptConcat(a: seq<Row>, b: seq<Row>)
    ensures Kept(a + b) == Kept(a) + Kept(b)
    decreases |a|
  {
    if a == [] {
      assert a + b == b;
    } else {
      assert (a + b)[1..] == a[1..] + b;
      KeptConcat(a[1..], b);
    }
  }

  lemma KeptOne(row: Row)
    ensures Kept([row]) == if row.omitted then [] else [row.disk]
  {
    assert [row][1..] == [] && Kept([]) == [];
  }

  function Disks(rows: seq<Row>): (ops: seq<DiskOp>)
    ensures |ops| == |rows|
  {
    seq(|rows|, k requires 0 <= k < |rows| => rows[k].disk)
  }

  predicate Clear(rows: seq<Row>) {
    forall k :: 0 <= k < |rows| ==> !rows[k].omitted
  }

  lemma {:induction false} KeptAll(rows: seq<Row>)
    requires Clear(rows)
    ensures Kept(rows) == Disks(rows)
    decreases |rows|
  {
    if rows != [] {
      KeptAll(rows[1..]);
      assert Disks(rows) == [rows[0].disk] + Disks(rows[1..]);
    }
  }

  lemma DisksParts(rows: seq<Row>, k: nat)
    requires k <= |rows|
    ensures Disks(rows)[..k] == Disks(rows[..k]) && Disks(rows)[k..] == Disks(rows[k..])
  {
  }

  // With one flag set, exactly that op is missing.
  lemma KeptAllButOne(rows: seq<Row>, k: nat)
    requires k < |rows| && Clear(rows[..k]) && rows[k].omitted && Clear(rows[k + 1..])
    ensures Kept(rows) == Disks(rows)[..k] + Disks(rows)[k + 1..]
  {
    hide Kept, Disks, Clear;
    var front, x, back := rows[..k], rows[k], rows[k + 1..];
    assert rows == front + ([x] + back);
    KeptConcat(front, [x] + back);
    KeptConcat([x], back);
    KeptOne(x);
    assert [] + Kept(back) == Kept(back);
    KeptAll(front);
    KeptAll(back);
    DisksParts(rows, k);
    DisksParts(rows, k + 1);
  }

  /** What a crash point replays: every kept disk op up to it. */
  function ToReplay(lines: seq<Line>, microEnd: int, diskEnd: int): seq<DiskOp>
    requires -1 <= microEnd < |lines| && (microEnd >= 0 ==> -1 <= diskEnd < |lines[microEnd].rows|)
  {
    if microEnd < 0 then []
    else
      BeforeMonotone(lines, microEnd, microEnd);
      FlatAround(lines, microEnd);
      Kept(Flat(lines)[..Single(lines, microEnd, diskEnd) + 1])
  }

  // A crash point at the end of a line replays whole lines.
  lemma EndOfLine(lines: seq<Line>, j: nat)
    requires j < |lines|
    ensures ToReplay(lines, j, |lines[j].rows| - 1) == Kept(Flat(lines[..j + 1]))
  {
    FlatAround(lines, j);
    assert lines == lines[..j + 1] + lines[j + 1..];
    FlatConcat(lines[..j + 1], lines[j + 1..]);
    assert Flat(lines)[..Before(lines, j + 1)] == Flat(lines[..j + 1]);
  }

  /** The inner loop: the kept ops of the first rows of a line are added. */
  method KeepRows(ops: seq<DiskOp>, rows: seq<Row>, till: nat, ghost before: seq<Row>) returns (r: seq<DiskOp>)
    requires till <= |rows| && ops == Kept(before)
    ensures r == Kept(before + rows[..till])
  {
    hide Kept;
    r := ops;
    assert before + rows[..0] == before;
    for j := 0 to till
      invariant r == Kept(before + rows[..j])
    {
      assert before + rows[..j + 1] == before + rows[..j] + [rows[j]];
      KeptConcat(before + rows[..j], [rows[j]]);
      KeptOne(rows[j]);
      if !rows[j].omitted {
        r := r + [rows[j].disk];
      }
    }
  }

  /** The two nested loops that build the list. */
  method BuildToReplay(lines: seq<Line>, microEnd: int, diskEnd: int) returns (r: seq<DiskOp>)
    requires -1 <= microEnd < |lines| && (microEnd >= 0 ==> -1 <= diskEnd < |lines[microEnd].rows|)
    ensures r == ToReplay(lines, microEnd, diskEnd)
  {
    hide Kept;
    r := [];
    assert lines[..0] == [] && Flat([]) == [];
    KeptAll([]);
    for i := 0 to microEnd + 1
      invariant i <= microEnd ==> r == Kept(Flat(lines[..i]))
      invariant i == microEnd + 1 ==> r == ToReplay(lines, microEnd, diskEnd)
    {
      var rows := lines[i].rows;
      var till := if i == microEnd then diskEnd + 1 else |rows|;
      r := KeepRows(r, rows, till, Flat(lines[..i]));
      FlatUpTo(lines, i, till);
    }
  }

  lemma FlatUpTo(lines: seq<Line>, i: nat, till: nat)
    requires i < |lines| && till <= |lines[i].rows|
    ensures Before(lines, i) + till <= |Flat(lines)|
    ensures Flat(lines)[..Before(lines, i) + till] == Flat(lines[..i]) + lines[i].rows[..till]
    ensures till == |lines[i].rows| ==> Flat(lines[..i]) + lines[i].rows[..till] == Flat(lines[..i + 1])
  {
    FlatAround(lines, i);
    assert lines[..i + 1] == lines[..i] + [lines[i]];
    FlatConcat(lines[..i], [lines[i]]);
    assert Flat([lines[i]]) == lines[i].rows by { assert [lines[i]][1..] == [] && Flat([]) == []; }
  }

  function SetFlag(lines: seq<Line>, i: nat, j: nat, omitted: bool): seq<Line>
    requires IsDouble(lines, i, j)
  {
    lines[i := lines[i].(rows := lines[i].rows[j := lines[i].rows[j].(omitted := omitted)])]
  }

  // Setting a flag changes one row of the flat list.
  lemma FlatSetFlag(lines: seq<Line>, i: nat, j: nat, omitted: bool)
    requires IsDouble(lines, i, j)
    ensures 0 <= Single(lines, i, j) < |Flat(lines)|
    ensures Flat(SetFlag(lines, i, j, omitted)) == Flat(lines)[Single(lines, i, j) := lines[i].rows[j].(omitted := omitted)]
    ensures forall k :: 0 <= k <= |lines| ==> Before(SetFlag(lines, i, j, omitted), k) == Before(lines, k)
  {
    hide Flat;
    var new_ := SetFlag(lines, i, j, omitted);
    FlatAround(lines, i);
    FlatAround(new_, i);
    assert new_[..i] == lines[..i] && new_[i + 1..] == lines[i + 1..];
    forall k | 0 <= k <= |lines| ensures Before(new_, k) == Before(lines, k) {
      SameLengths(lines, new_, k);
    }
  }

  lemma {:induction false} SameLengths(a: seq<Line>, b: seq<Line>, k: nat)
    requires |a| == |b| && k <= |a| && forall n :: 0 <= n < |a| ==> |a[n].rows| == |b[n].rows|
    ensures Before(a, k) == Before(b, k)
    decreases k
  {
    if k > 0 {
      SameLengths(a, b, k - 1);
      FlatAround(a, k - 1);
      FlatAround(b, k - 1);
    }
  }

  /** The ops up to number `till`, without number `dropped`. */
  function WithoutOne(ops: seq<DiskOp>, dropped: nat, till: nat): seq<DiskOp>
    requires dropped < till < |ops|
  {
    ops[..dropped] + ops[dropped + 1..till + 1]
  }

  lemma FlagBack(lines: seq<Line>, i: nat, j: nat)
    requires IsDouble(lines, i, j)
    ensures SetFlag(SetFlag(lines, i, j, true), i, j, lines[i].rows[j].omitted) == lines
  {
    var rows := lines[i].rows;
    assert rows[j := rows[j].(omitted := true)][j := rows[j]] == rows;
  }

  // What a crash point replays when one flag is set.
  lemma ReplayWithoutOne(lines: seq<Line>, dropped: nat, till: nat)
    requires Clear(Flat(lines)) && dropped < till < |Flat(lines)|
    ensures var (i, j), (i', j') := DoubleOf(lines, dropped), DoubleOf(lines, till);
            && IsDouble(lines, i, j) && IsDouble(SetFlag(lines, i, j, true), i', j')
            && ToReplay(SetFlag(lines, i, j, true), i', j') == WithoutOne(Disks(Flat(lines)), dropped, till)
            && SetFlag(SetFlag(lines, i, j, true), i, j, false) == lines
  {
    DoubleIsInverse(lines, dropped);
    DoubleIsInverse(lines, till);
    var (i, j) := DoubleOf(lines, dropped);
    FlatSetFlag(lines, i, j, true);
    SingleAt(lines, i, j);
    assert !lines[i].rows[j].omitted;
    FlagBack(lines, i, j);
    var flat, rows := Flat(lines), Flat(SetFlag(lines, i, j, true))[..till + 1];
    KeptAllButOne(rows, dropped);
    assert Disks(rows) == Disks(flat)[..till + 1];
  }
}
