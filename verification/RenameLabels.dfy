/** The names that the reporter gives to the states of a rename that was cut short. */
module RenameLabels {
  import opened FileSystem
  import opened DiskOps
  import opened MicroOps
  import opened Compiler
  import opened Agreement
  import opened CrashStates

  /** What a label says of the new name: not there, the replaced file with all of its bytes, with some of
      them or without any, or the renamed file. */
  datatype DestName = NoName | OldFile | CutFile | EmptyFile | NewFile

  /** Whether the old name is said to lead to the renamed file, and what is said of the new name. */
  datatype Label = Label(source: bool, dest: DestName)

  /** The label at index diskEnd of the list, when the rename has n disk ops. */
  function LabelAt(n: nat, diskEnd: nat): Label
    requires n >= 6 && diskEnd < (if n == 6 then 6 else n - 1)
  {
    var key := if n == 6 then diskEnd - 1 else diskEnd;
    if key == n - 2 then Label(true, NewFile)
    else if key == n - 3 then Label(false, NewFile)
    else if key == n - 4 || key == n - 6 then Label(false, NoName)
    else if key == n - 5 then Label(true, NoName)
    else if key == n - 7 then Label(true, EmptyFile)
    else if key == 0 then Label(false, OldFile)
    else Label(true, CutFile)
  }

  /** The reporter's table, filled key by key and read out in the order of the keys.  The case of a rename
      to a new name is never recognized: no disk op is called "link". */
  method Labels(n: nat) returns (labels: seq<Label>)
    requires n >= 6
    ensures |labels| == if n == 6 then 6 else n - 1
    ensures forall k :: 0 <= k < |labels| ==> labels[k] == LabelAt(n, k)
  {
    var table: map<int, Label> := map[0 := Label(false, OldFile)];
    table := table[n - 7 := Label(true, EmptyFile)];
    table := table[n - 6 := Label(false, NoName)];
    table := table[n - 5 := Label(true, NoName)];
    table := table[n - 4 := Label(false, NoName)];
    table := table[n - 3 := Label(false, NewFile)];
    table := table[n - 2 := Label(true, NewFile)];
    ghost var fixed := table;
    var x := 1;
    while x < n - 7
      invariant 1 <= x && (x <= n - 7 || x == 1)
      invariant forall k :: k in table <==> k in fixed || 1 <= k < x
      invariant forall k :: k in table ==> table[k] == if 1 <= k < x then Label(true, CutFile) else fixed[k]
    {
      table := table[x := Label(true, CutFile)];
      x := x + 1;
    }
    var first := if n == 6 then -1 else 0;
    assert forall k :: k in table <==> first <= k <= n - 2;
    labels := [];
    var key := first;
    while key <= n - 2
      invariant first <= key <= n - 1 && |labels| == key - first
      invariant forall k :: 0 <= k < |labels| ==> labels[k] == LabelAt(n, k)
    {
      labels := labels + [table[key]];
      key := key + 1;
    }
  }

  /** Is what a label says of the old name true? */
  predicate SourceHolds(said: Label, op: MicroOp, after: Fs)
    requires op.Rename?
  {
    var source := Key(op.sourceParent, Base(op.source));
    if said.source then source in after.entries && after.entries[source] == FileNode(op.sourceInode)
    else source !in after.entries
  }

  /** Is what it says of the new name true, when the rename was begun in the tree `before`? */
  predicate DestHolds(said: Label, op: MicroOp, before: Fs, after: Fs)
    requires op.Rename?
  {
    var dest := Key(op.destParent, Base(op.dest));
    var leadsToOld := dest in after.entries && after.entries[dest] == FileNode(op.destInode);
    var bytes, all := after.FileOf(op.destInode), before.FileOf(op.destInode);
    match said.dest
    case NoName => dest !in after.entries
    case OldFile => leadsToOld && bytes == all
    case CutFile => leadsToOld && bytes != all
    case EmptyFile => leadsToOld && bytes == []
    case NewFile => dest in after.entries && after.entries[dest] == FileNode(op.sourceInode)
  }

  predicate Holds(said: Label, op: MicroOp, before: Fs, after: Fs)
    requires op.Rename?
  {
    SourceHolds(said, op, after) && DestHolds(said, op, before, after)
  }

  // Part by part: for a rename that replaces a file the labels say the right thing of the new name, but for
  // the first one when the file has other names and bytes; what they say of the old name is wrong while the
  // replaced file loses its bytes.  For a rename to a new name the parts are right here and there.
  lemma LabelPartsIff(d: Fs, op: MicroOp, o: Options, diskEnd: nat, dumps: Dumps)
    requires o.splits > 0 && o.expanded && MovingRename(d, op)
    requires var n := |DiskOpsOf(op, o)|; n >= 6 && diskEnd < (if n == 6 then 6 else n - 1)
    ensures var n, r := |DiskOpsOf(op, o)|, Replay(d, DiskOpsOf(op, o)[..diskEnd + 1], dumps);
            && r.Some?
            && (SourceHolds(LabelAt(n, diskEnd), op, r.value) <==>
                  if n == 6 then diskEnd == 3 else diskEnd >= n - 6 || (diskEnd == 0 && n > 7))
            && (DestHolds(LabelAt(n, diskEnd), op, d, r.value) <==>
                  if n == 6 then diskEnd == 1 || diskEnd == 2 || diskEnd == 4 || diskEnd == 5
                  else !(n == 7 && diskEnd == 0 && d.FileOf(op.destInode) != []))
  {
    hide Replay, Step, DiskOpsOf, UnlinkDestOps;
    RenameCrash(d, op, o, diskEnd + 1, dumps);
    RenameCrash(d, op, o, 1, dumps);
    GoneLength(op, o);
  }

  lemma GoneLength(op: MicroOp, o: Options)
    requires op.Rename? && o.splits > 0
    ensures |UnlinkDestOps(op, o)| > 1 ==> op.destHardlinks == 1
    ensures op.destHardlinks == 0 <==> UnlinkDestOps(op, o) == []
  {
  }

  // The label is true exactly when the rename replaces a file, and either nothing but the old name is
  // gone yet and the replaced file still has bytes to lose, or the replaced file's name is gone as well.
  // For a rename to a new name every label is false.
  lemma LabelIsRightIff(d: Fs, op: MicroOp, o: Options, diskEnd: nat, dumps: Dumps)
    requires o.splits > 0 && o.expanded && MovingRename(d, op)
    requires var n := |DiskOpsOf(op, o)|; n >= 6 && diskEnd < (if n == 6 then 6 else n - 1)
    ensures var n, r := |DiskOpsOf(op, o)|, Replay(d, DiskOpsOf(op, o)[..diskEnd + 1], dumps);
            && r.Some?
            && (Holds(LabelAt(n, diskEnd), op, d, r.value) <==> n > 6 && (diskEnd >= n - 6 || (diskEnd == 0 && n > 7)))
  {
    hide Replay, Step, DiskOpsOf;
    RenameCrash(d, op, o, diskEnd + 1, dumps);
    if diskEnd == 0 {
      FirstOp(d, op, o, dumps);
    }
  }

  // The first op takes the old name away and nothing else.
  lemma FirstOp(d: Fs, op: MicroOp, o: Options, dumps: Dumps)
    requires o.splits > 0 && o.expanded && MovingRename(d, op)
    ensures |DiskOpsOf(op, o)| >= 1
    ensures Replay(d, DiskOpsOf(op, o)[..1], dumps) == Some(d.(entries := d.entries - {Key(op.sourceParent, Base(op.source))}))
  {
    hide Replay, Step, DiskOpsOf, UnlinkDestOps, ExpandedTail;
    RenameOps(op, o);
    assert DiskOpsOf(op, o)[..1] == [SourceUnlink(op)];
    DeleteFileName(d, op.sourceParent, op.source, op.sourceInode, dumps);
    ReplayOne(d, SourceUnlink(op), dumps);
  }
}
