/** The disk ops of an overwrite inside a file may reach the disk in any order, and any of them may
    be missing: each byte is old or new depending only on whether its slice was written. */
module Overwrites {
  import opened FileBytes
  import opened FileSystem
  import opened DiskOps
  import opened MicroOps
  import opened Slicing
  import opened Compiler
  import opened CrashStates

  /** A disk op that writes a part of the micro op's range, with the bytes that belong there. */
  predicate PartOf(d: DiskOp, op: MicroOp)
    requires op.Overwrite?
  {
    && d.Write? && d.inode == op.inode && 0 < d.count
    && op.offset <= d.offset && d.offset + d.count <= op.offset + op.count
    && d.payload == Dump(op.dumpFile, op.dumpOffset + (d.offset - op.offset))
  }

  predicate Covers(d: DiskOp, k: nat) {
    d.Write? && d.offset <= k < d.offset + d.count
  }

  /** Some op of the list writes the byte. */
  ghost predicate Written(w: seq<DiskOp>, k: nat) {
    exists i :: 0 <= i < |w| && Covers(w[i], k)
  }

  lemma PartAt(c: Content, d: DiskOp, op: MicroOp, data: Content, k: nat, dumps: Dumps)
    requires op.Overwrite? && PartOf(d, op) && op.offset + op.count <= |c| && k < |c|
    requires InDump(dumps, op.dumpFile, op.dumpOffset, op.count)
    requires data == ReadDump(dumps, op.dumpFile, op.dumpOffset, op.count) && |data| == op.count
    ensures |Apply(c, d, dumps)| == |c|
    ensures Apply(c, d, dumps)[k] == if Covers(d, k) then data[k - op.offset] else c[k]
  {
    hide ReadDump, PWrite;
    var from := d.offset - op.offset;
    DumpParts(dumps, op.dumpFile, op.dumpOffset, op.count, from, from + d.count);
    PWriteAt(c, d.offset, data[from..from + d.count], k);
  }

  // Any list of such parts, in any order, with any repetitions and gaps.
  lemma {:induction false} SomeParts(c: Content, w: seq<DiskOp>, op: MicroOp, data: Content, k: nat, dumps: Dumps)
    requires op.Overwrite? && op.offset + op.count <= |c| && k < |c|
    requires forall i :: 0 <= i < |w| ==> PartOf(w[i], op)
    requires InDump(dumps, op.dumpFile, op.dumpOffset, op.count)
    requires data == ReadDump(dumps, op.dumpFile, op.dumpOffset, op.count) && |data| == op.count
    ensures |ApplyAll(c, w, dumps)| == |c|
    ensures Written(w, k) ==> op.offset <= k < op.offset + op.count
    ensures ApplyAll(c, w, dumps)[k] == if Written(w, k) then data[k - op.offset] else c[k]
    decreases |w|
  {
    hide ReadDump, PWrite, Apply;
    if w != [] {
      PartAt(c, w[0], op, data, k, dumps);
      SomeParts(Apply(c, w[0], dumps), w[1..], op, data, k, dumps);
      assert forall i :: 0 <= i < |w[1..]| ==> w[1..][i] == w[i + 1];
      assert forall i :: 0 < i < |w| ==> w[i] == w[1..][i - 1];
    }
  }

  lemma {:induction false} OverwriteOpAt(inode: nat, s: seq<Slice>, lo: nat, hi: nat, file: string, dump: nat, j: nat)
    requires Chain(s, lo, hi) && ProperSlices(s) && j < |s|
    ensures |OverwriteOps(inode, s, file, dump)| == |s| && lo <= s[j].lo
    ensures OverwriteOps(inode, s, file, dump)[j] == Write(inode, s[j].lo, s[j].hi - s[j].lo, Dump(file, dump + (s[j].lo - lo)))
    decreases |s|
  {
    if |s| > 1 {
      OverwriteOpAt(inode, s[1..], s[0].hi, hi, file, dump + (s[0].hi - s[0].lo), if j == 0 then 0 else j - 1);
    }
  }

  lemma OpsAreParts(op: MicroOp, o: Options)
    requires op.Overwrite? && o.splits > 0 && op.count > 0
    ensures var s := Pieces(o, op.offset, op.offset + op.count);
            && |DiskOpsOf(op, o)| == |s|
            && forall j :: 0 <= j < |s| ==>
                 && PartOf(DiskOpsOf(op, o)[j], op)
                 && DiskOpsOf(op, o)[j].offset == s[j].lo && DiskOpsOf(op, o)[j].count == s[j].hi - s[j].lo
  {
    var s := Pieces(o, op.offset, op.offset + op.count);
    ChainBounds(s, op.offset, op.offset + op.count);
    OverwriteOpAt(op.inode, s, op.offset, op.offset + op.count, op.dumpFile, op.dumpOffset, 0);
    forall j | 0 <= j < |s| ensures PartOf(DiskOpsOf(op, o)[j], op)
                            && DiskOpsOf(op, o)[j].offset == s[j].lo && DiskOpsOf(op, o)[j].count == s[j].hi - s[j].lo
    {
      OverwriteOpAt(op.inode, s, op.offset, op.offset + op.count, op.dumpFile, op.dumpOffset, j);
    }
  }

  lemma SameCover(v: seq<DiskOp>, w: seq<DiskOp>)
    requires forall d :: d in v ==> d in w
    ensures forall k: nat :: Written(v, k) ==> Written(w, k)
  {
    forall k: nat | Written(v, k) ensures Written(w, k) {
      var i :| 0 <= i < |v| && Covers(v[i], k);
      assert v[i] in w;
    }
  }

  // Two lists of an overwrite's disk ops that hold the same ops, in any order and any
  // number of times, leave the same file.
  lemma SameBytesLeft(c: Content, op: MicroOp, o: Options, v: seq<DiskOp>, w: seq<DiskOp>, dumps: Dumps)
    requires op.Overwrite? && o.splits > 0 && op.count > 0 && op.offset + op.count <= |c|
    requires InDump(dumps, op.dumpFile, op.dumpOffset, op.count)
    requires (forall d :: d in v ==> d in DiskOpsOf(op, o)) && (forall d :: d in v <==> d in w)
    ensures ApplyAll(c, v, dumps) == ApplyAll(c, w, dumps)
  {
    hide DiskOpsOf, ReadDump, ApplyAll;
    var data := ReadDump(dumps, op.dumpFile, op.dumpOffset, op.count);
    DumpParts(dumps, op.dumpFile, op.dumpOffset, op.count, 0, 0);
    OpsAreParts(op, o);
    forall i | 0 <= i < |v| ensures PartOf(v[i], op) {
      assert v[i] in v;
    }
    forall i | 0 <= i < |w| ensures PartOf(w[i], op) {
      assert w[i] in w;
    }
    SameCover(v, w);
    SameCover(w, v);
    var a, b := ApplyAll(c, v, dumps), ApplyAll(c, w, dumps);
    SomeParts(c, v, op, data, op.offset, dumps);
    SomeParts(c, w, op, data, op.offset, dumps);
    forall k | 0 <= k < |c| ensures a[k] == b[k] {
      SomeParts(c, v, op, data, k, dumps);
      SomeParts(c, w, op, data, k, dumps);
    }
  }

  lemma PermutedBytes(c: Content, op: MicroOp, o: Options, w: seq<DiskOp>, dumps: Dumps)
    requires op.Overwrite? && o.splits > 0 && op.count > 0 && op.offset + op.count <= |c|
    requires InDump(dumps, op.dumpFile, op.dumpOffset, op.count)
    requires multiset(w) == multiset(DiskOpsOf(op, o))
    ensures ApplyAll(c, w, dumps) == PWrite(c, op.offset, ReadDump(dumps, op.dumpFile, op.dumpOffset, op.count))
  {
    hide DiskOpsOf, ReadDump, ApplyAll, PWrite;
    var ops := DiskOpsOf(op, o);
    forall d ensures d in w <==> d in ops {
      assert d in w <==> d in multiset(w);
      assert d in ops <==> d in multiset(ops);
    }
    SameBytesLeft(c, op, o, w, ops, dumps);
    IsOverwriteAll(op, o);
    OverwriteAllEffect(c, op.inode, op.offset, op.count, op.dumpFile, op.dumpOffset, o, dumps);
  }

  lemma IsOverwriteAll(op: MicroOp, o: Options)
    requires op.Overwrite? && o.splits > 0
    ensures DiskOpsOf(op, o) == OverwriteAll(op.inode, op.offset, op.count, op.dumpFile, op.dumpOffset, o)
  {
  }

  // Without slice j, its bytes are the ones that are no longer written.
  lemma WrittenWithout(s: seq<Slice>, lo: nat, hi: nat, ops: seq<DiskOp>, j: nat, k: nat)
    requires Chain(s, lo, hi) && |ops| == |s| && j < |s|
    requires forall i :: 0 <= i < |s| ==> ops[i].Write? && ops[i].offset == s[i].lo && ops[i].count == s[i].hi - s[i].lo
    ensures Written(ops[..j] + ops[j + 1..], k) <==> Written(ops, k) && !(s[j].lo <= k < s[j].hi)
  {
    var w := ops[..j] + ops[j + 1..];
    ChainBounds(s, lo, hi);
    if Written(w, k) {
      var i :| 0 <= i < |w| && Covers(w[i], k);
      var i' := if i < j then i else i + 1;
      assert w[i] == ops[i'];
      ChainDisjoint(s, lo, hi, if i' < j then i' else j, if i' < j then j else i');
    }
    if Written(ops, k) && !(s[j].lo <= k < s[j].hi) {
      var i :| 0 <= i < |ops| && Covers(ops[i], k);
      assert w[if i < j then i else i - 1] == ops[i];
    }
  }

  // Leaving out slice j gives the finished file, with the old bytes in slice j.
  lemma OmittedBytes(c: Content, op: MicroOp, o: Options, j: nat, k: nat, dumps: Dumps)
    requires op.Overwrite? && o.splits > 0 && op.count > 0 && op.offset + op.count <= |c| && k < |c|
    requires InDump(dumps, op.dumpFile, op.dumpOffset, op.count) && j < |DiskOpsOf(op, o)| == |Pieces(o, op.offset, op.offset + op.count)|
    ensures var s, ops := Pieces(o, op.offset, op.offset + op.count), DiskOpsOf(op, o);
            var full, part := ApplyAll(c, ops, dumps), ApplyAll(c, ops[..j] + ops[j + 1..], dumps);
            && |full| == |part| == |c|
            && part[k] == if s[j].lo <= k < s[j].hi then c[k] else full[k]
  {
    hide DiskOpsOf, ReadDump, ApplyAll, PWrite, Pieces, Written;
    var s, ops := Pieces(o, op.offset, op.offset + op.count), DiskOpsOf(op, o);
    var data := ReadDump(dumps, op.dumpFile, op.dumpOffset, op.count);
    DumpParts(dumps, op.dumpFile, op.dumpOffset, op.count, 0, 0);
    OpsAreParts(op, o);
    SomeParts(c, ops, op, data, k, dumps);
    SomeParts(c, ops[..j] + ops[j + 1..], op, data, k, dumps);
    WrittenWithout(s, op.offset, op.offset + op.count, ops, j, k);
  }

  // The same on whole trees.

  predicate InsideFile(d: Fs, op: MicroOp, o: Options, dumps: Dumps) {
    && op.Overwrite? && o.splits > 0 && op.count > 0 && op.inode in d.files && op.inode !in d.dirs
    && op.offset + op.count <= |d.files[op.inode]| && InDump(dumps, op.dumpFile, op.dumpOffset, op.count)
  }

  // Main result: two selections of an overwrite's disk ops that hold the same ops, in any order and any
  // number of times, leave the same tree.
  lemma OrderDoesNotMatter(d: Fs, op: MicroOp, o: Options, v: seq<DiskOp>, w: seq<DiskOp>, dumps: Dumps)
    requires InsideFile(d, op, o, dumps)
    requires (forall x :: x in v ==> x in DiskOpsOf(op, o)) && (forall x :: x in v <==> x in w)
    ensures Replay(d, v, dumps).Some? && Replay(d, v, dumps) == Replay(d, w, dumps)
  {
    hide Replay, ApplyAll, DiskOpsOf;
    SameBytesLeft(d.files[op.inode], op, o, v, w, dumps);
    OnTree(d, op, o, v, dumps);
    OnTree(d, op, o, w, dumps);
  }

  // Main result: any permutation of the disk ops of an overwrite is the overwrite.
  lemma Permutation(d: Fs, op: MicroOp, o: Options, w: seq<DiskOp>, dumps: Dumps)
    requires InsideFile(d, op, o, dumps) && multiset(w) == multiset(DiskOpsOf(op, o))
    ensures Replay(d, w, dumps)
         == Some(SetBytes(d, op.inode, PWrite(d.files[op.inode], op.offset, ReadDump(dumps, op.dumpFile, op.dumpOffset, op.count))))
  {
    hide Replay, ApplyAll, DiskOpsOf, PWrite, ReadDump;
    PermutedBytes(d.files[op.inode], op, o, w, dumps);
    forall x | x in w ensures x in DiskOpsOf(op, o) {
      assert x in multiset(w);
    }
    OnTree(d, op, o, w, dumps);
  }

  // Main result: leaving out slice j gives the finished tree, except that the file has its old bytes in
  // slice j.
  lemma OmitSlice(d: Fs, op: MicroOp, o: Options, j: nat, dumps: Dumps)
    requires InsideFile(d, op, o, dumps) && j < |DiskOpsOf(op, o)|
    ensures var s, ops, c := Pieces(o, op.offset, op.offset + op.count), DiskOpsOf(op, o), d.files[op.inode];
            var full := PWrite(c, op.offset, ReadDump(dumps, op.dumpFile, op.dumpOffset, op.count));
            && |ops| == |s| && op.offset <= s[j].lo < s[j].hi <= |c| == |full|
            && Replay(d, ops, dumps) == Some(SetBytes(d, op.inode, full))
            && Replay(d, ops[..j] + ops[j + 1..], dumps)
               == Some(SetBytes(d, op.inode, full[..s[j].lo] + c[s[j].lo..s[j].hi] + full[s[j].hi..]))
  {
    hide Replay, ApplyAll, DiskOpsOf, PWrite, ReadDump, Pieces;
    var s, ops, c := Pieces(o, op.offset, op.offset + op.count), DiskOpsOf(op, o), d.files[op.inode];
    OpsAreParts(op, o);
    SliceBounds(op, o, j);
    PermutedBytes(c, op, o, ops, dumps);
    var full, part := ApplyAll(c, ops, dumps), ApplyAll(c, ops[..j] + ops[j + 1..], dumps);
    OmittedBytes(c, op, o, j, op.offset, dumps);
    forall k | 0 <= k < |c|
      ensures |full| == |part| == |c| && part[k] == if s[j].lo <= k < s[j].hi then c[k] else full[k]
    {
      OmittedBytes(c, op, o, j, k, dumps);
    }
    assert part == full[..s[j].lo] + c[s[j].lo..s[j].hi] + full[s[j].hi..];
    OnTree(d, op, o, ops, dumps);
    OnTree(d, op, o, ops[..j] + ops[j + 1..], dumps);
  }

  lemma SliceBounds(op: MicroOp, o: Options, j: nat)
    requires op.Overwrite? && o.splits > 0 && op.count > 0 && j < |Pieces(o, op.offset, op.offset + op.count)|
    ensures var s := Pieces(o, op.offset, op.offset + op.count);
            op.offset <= s[j].lo < s[j].hi <= op.offset + op.count
  {
    ChainBounds(Pieces(o, op.offset, op.offset + op.count), op.offset, op.offset + op.count);
  }
}
