/** Replaying disk ops and replaying micro ops show the same tree. */
module Agreement {
  import opened FileBytes
  import opened FileSystem
  import opened DiskOps
  import opened MicroOps
  import opened Compiler

  // Single steps of the disk replayer on names, exactly.

  lemma DeleteFileName(d: Fs, parent: nat, name: Path, inode: nat, dumps: Dumps)
    requires d.InTree(parent)
    requires Key(parent, Base(name)) in d.entries ==> d.entries[Key(parent, Base(name))].FileNode?
    ensures Step(d, DeleteDirEntry(parent, name, inode, false), dumps) == Some(d.(entries := d.entries - {Key(parent, Base(name))}))
  {
    var key := Key(parent, Base(name));
    assert key !in d.entries ==> d.entries - {key} == d.entries;
  }

  lemma LinkFileName(d: Fs, parent: nat, name: Path, inode: nat, dumps: Dumps)
    requires d.InTree(parent) && inode in d.files && inode !in d.dirs
    requires Key(parent, Base(name)) in d.entries ==> d.entries[Key(parent, Base(name))].FileNode?
    ensures Step(d, CreateDirEntry(parent, name, inode, false), dumps)
         == Some(d.(entries := d.entries[Key(parent, Base(name)) := FileNode(inode)]))
  {
    assert d.files[inode := d.files[inode]] == d.files;
  }

  /** The store after an unlink: a last name takes the bytes with it. */
  function FilesAfterUnlink(d: Fs, inode: nat, hardlinks: nat): map<nat, Content> {
    if hardlinks == 1 then d.files[inode := []] else d.files
  }

  lemma UnlinkExactly(d: Fs, parent: nat, name: Path, inode: nat, size: nat, hardlinks: nat, o: Options, dumps: Dumps)
    requires o.splits > 0 && d.InTree(parent) && inode in d.files && inode !in d.dirs && size == |d.files[inode]|
    requires Key(parent, Base(name)) in d.entries ==> d.entries[Key(parent, Base(name))].FileNode?
    ensures Replay(d, UnlinkOps(parent, name, inode, size, hardlinks, o), dumps)
         == Some(d.(entries := d.entries - {Key(parent, Base(name))}, files := FilesAfterUnlink(d, inode, hardlinks)))
  {
    var cut := if hardlinks == 1 then TruncOps(inode, size, 0, o) else [];
    var mid := d.(files := FilesAfterUnlink(d, inode, hardlinks));
    var delete := DeleteDirEntry(parent, name, inode, false);
    ReplayConcat(d, cut, [delete], dumps);
    if hardlinks == 1 {
      TruncExactly(d, inode, 0, o, dumps);
      assert Resize(d.files[inode], 0) == [];
    }
    ReplayOne(mid, delete, dumps);
    DeleteFileName(mid, parent, name, inode, dumps);
  }

  lemma TruncExactly(d: Fs, inode: nat, finalSize: nat, o: Options, dumps: Dumps)
    requires o.splits > 0 && inode in d.files && inode !in d.dirs
    ensures Replay(d, TruncOps(inode, |d.files[inode]|, finalSize, o), dumps)
         == Some(SetBytes(d, inode, Resize(d.files[inode], finalSize)))
  {
    var c := d.files[inode];
    var s := if |c| > finalSize then Pieces(o, finalSize, |c|) else Pieces(o, |c|, finalSize);
    TruncOnFile(inode, s, dumps);
    ReplayOnFile(d, TruncOps(inode, |c|, finalSize, o), inode, dumps);
    TruncEffect(c, inode, finalSize, o, dumps);
  }

  lemma AppendExactly(d: Fs, op: MicroOp, o: Options, dumps: Dumps)
    requires op.Append? && o.splits > 0 && op.inode in d.files && op.inode !in d.dirs
    requires InDump(dumps, op.dumpFile, op.dumpOffset, op.count) && op.offset == |d.files[op.inode]|
    ensures Replay(d, DiskOpsOf(op, o), dumps)
         == Some(SetBytes(d, op.inode, d.files[op.inode] + ReadDump(dumps, op.dumpFile, op.dumpOffset, op.count)))
  {
    var c, data := d.files[op.inode], ReadDump(dumps, op.dumpFile, op.dumpOffset, op.count);
    var once := AppendAll(op.inode, op.offset, op.count, op.dumpFile, op.dumpOffset, o);
    DataOnFile(op.inode, Pieces(o, op.offset, op.offset + op.count), op.dumpFile, op.dumpOffset, dumps);
    assert AllOnFile(once, op.inode, dumps);
    ReplayOnFile(d, DiskOpsOf(op, o), op.inode, dumps);
    AppendAllEffect(c, op.inode, op.offset, op.count, op.dumpFile, op.dumpOffset, o, dumps);
    AppendTwiceEffect(c, op.inode, op.offset, op.count, op.dumpFile, op.dumpOffset, o, dumps);
    PWriteAtEnd(c, data);
  }

  lemma OverwriteExactly(d: Fs, op: MicroOp, o: Options, dumps: Dumps)
    requires op.Overwrite? && o.splits > 0 && op.inode in d.files && op.inode !in d.dirs
    requires InDump(dumps, op.dumpFile, op.dumpOffset, op.count)
    ensures Replay(d, DiskOpsOf(op, o), dumps)
         == Some(SetBytes(d, op.inode, PWrite(d.files[op.inode], op.offset, ReadDump(dumps, op.dumpFile, op.dumpOffset, op.count))))
  {
    DataOnFile(op.inode, Pieces(o, op.offset, op.offset + op.count), op.dumpFile, op.dumpOffset, dumps);
    ReplayOnFile(d, DiskOpsOf(op, o), op.inode, dumps);
    OverwriteAllEffect(d.files[op.inode], op.inode, op.offset, op.count, op.dumpFile, op.dumpOffset, o, dumps);
  }

  // Renames.

  /** A rename whose two names already lead to one file: POSIX leaves both names alone, and the disk
      ops take one of them, or the bytes, away. */
  predicate UnsafeRename(op: MicroOp, o: Options) {
    && op.Rename? && op.destHardlinks >= 1 && op.destInode == op.sourceInode
    && (Key(op.sourceParent, Base(op.source)) != Key(op.destParent, Base(op.dest))
        || o.expanded
        || (op.destHardlinks == 1 && op.destSize > 0))
  }

  /** The store after the disk ops of a rename. */
  function FilesAfterRename(d: Fs, op: MicroOp): map<nat, Content>
    requires op.Rename?
  {
    if op.destHardlinks >= 1 then FilesAfterUnlink(d, op.destInode, op.destHardlinks) else d.files
  }

  /** The names after the disk ops of a rename. */
  function NamesAfterRename(d: Fs, op: MicroOp, expanded: bool): map<Key, Node>
    requires op.Rename?
  {
    var source, dest := Key(op.sourceParent, Base(op.source)), Key(op.destParent, Base(op.dest));
    if expanded then d.entries[dest := FileNode(op.sourceInode)] - {source}
    else (d.entries - {source})[dest := FileNode(op.sourceInode)]
  }

  /** What a rename needs of the tree it runs on. */
  predicate RenameReady(d: Fs, op: MicroOp)
    requires op.Rename?
  {
    var source, dest := Key(op.sourceParent, Base(op.source)), Key(op.destParent, Base(op.dest));
    && d.InTree(op.sourceParent) && d.InTree(op.destParent)
    && op.sourceInode in d.files && op.sourceInode !in d.dirs
    && source in d.entries && d.entries[source] == FileNode(op.sourceInode)
    && (if op.destHardlinks == 0 then dest !in d.entries
        else
          && dest in d.entries && d.entries[dest] == FileNode(op.destInode)
          && op.destInode in d.files && op.destInode !in d.dirs && op.destSize == |d.files[op.destInode]|)
  }

  /** The disk ops that take the old destination away. */
  function UnlinkDestOps(op: MicroOp, o: Options): seq<DiskOp>
    requires op.Rename? && o.splits > 0
  {
    if op.destHardlinks >= 1 then UnlinkOps(op.destParent, op.dest, op.destInode, op.destSize, op.destHardlinks, o) else []
  }

  lemma UnlinkDestExactly(d: Fs, op: MicroOp, o: Options, dumps: Dumps, entries: map<Key, Node>)
    requires op.Rename? && o.splits > 0 && RenameReady(d, op)
    requires var dest := Key(op.destParent, Base(op.dest));
             if dest in entries then dest in d.entries && entries[dest] == d.entries[dest] else true
    ensures Replay(d.(entries := entries), UnlinkDestOps(op, o), dumps)
         == Some(d.(entries := entries - {Key(op.destParent, Base(op.dest))}, files := FilesAfterRename(d, op)))
  {
    var dest := Key(op.destParent, Base(op.dest));
    if op.destHardlinks >= 1 {
      UnlinkExactly(d.(entries := entries), op.destParent, op.dest, op.destInode, op.destSize, op.destHardlinks, o, dumps);
    } else {
      assert entries - {dest} == entries;
    }
  }

  // A plain rename: the old destination goes, the source name goes, the destination name comes.
  lemma RenamePlainExactly(d: Fs, op: MicroOp, o: Options, dumps: Dumps)
    requires op.Rename? && o.splits > 0 && !o.expanded && RenameReady(d, op)
    ensures Replay(d, DiskOpsOf(op, o), dumps)
         == Some(d.(entries := NamesAfterRename(d, op, false), files := FilesAfterRename(d, op)))
  {
    var source, dest := Key(op.sourceParent, Base(op.source)), Key(op.destParent, Base(op.dest));
    var unlink := DeleteDirEntry(op.sourceParent, op.source, op.sourceInode, false);
    var link := CreateDirEntry(op.destParent, op.dest, op.sourceInode, false);
    var d1 := d.(entries := d.entries - {dest}, files := FilesAfterRename(d, op));
    var d2 := d1.(entries := d.entries - {dest} - {source});
    UnlinkDestExactly(d, op, o, dumps, d.entries);
    DeleteFileName(d1, op.sourceParent, op.source, op.sourceInode, dumps);
    LinkFileName(d2, op.destParent, op.dest, op.sourceInode, dumps);
    assert d2.entries[dest := FileNode(op.sourceInode)] == NamesAfterRename(d, op, false);
    ReplayConcat(d, UnlinkDestOps(op, o), [unlink] + [link], dumps);
    ReplayConcat(d1, [unlink], [link], dumps);
    ReplayOne(d1, unlink, dumps);
    ReplayOne(d2, link, dumps);
    assert UnlinkDestOps(op, o) + ([unlink] + [link]) == DiskOpsOf(op, o);
  }

  function SourceUnlink(op: MicroOp): DiskOp
    requires op.Rename?
  {
    DeleteDirEntry(op.sourceParent, op.source, op.sourceInode, false)
  }

  function SourceLink(op: MicroOp): DiskOp
    requires op.Rename?
  {
    CreateDirEntry(op.sourceParent, op.source, op.sourceInode, false)
  }

  function DestLink(op: MicroOp): DiskOp
    requires op.Rename?
  {
    CreateDirEntry(op.destParent, op.dest, op.sourceInode, false)
  }

  /** An expanded rename, once the old destination is gone. */
  function ExpandedTail(op: MicroOp): seq<DiskOp>
    requires op.Rename?
  {
    [SourceLink(op), SourceUnlink(op), DestLink(op), SourceLink(op), SourceUnlink(op)]
  }

  /** The names after the first n ops of the tail. */
  function TailNames(op: MicroOp, entries: map<Key, Node>, n: nat): map<Key, Node>
    requires op.Rename? && n <= 5
  {
    var source, dest, node := Key(op.sourceParent, Base(op.source)), Key(op.destParent, Base(op.dest)), FileNode(op.sourceInode);
    if n == 0 || n == 2 then entries
    else if n == 1 then entries[source := node]
    else if n == 3 then entries[dest := node]
    else if n == 4 then entries[dest := node][source := node]
    else entries[dest := node] - {source}
  }

  lemma {:induction false} TailExactly(d: Fs, op: MicroOp, n: nat, dumps: Dumps)
    requires op.Rename? && n <= 5
    requires d.InTree(op.sourceParent) && d.InTree(op.destParent) && op.sourceInode in d.files && op.sourceInode !in d.dirs
    requires Key(op.sourceParent, Base(op.source)) !in d.entries && Key(op.destParent, Base(op.dest)) !in d.entries
    ensures Replay(d, ExpandedTail(op)[..n], dumps) == Some(d.(entries := TailNames(op, d.entries, n)))
  {
    if n > 0 {
      TailExactly(d, op, n - 1, dumps);
      var ops := ExpandedTail(op);
      var mid := d.(entries := TailNames(op, d.entries, n - 1));
      assert ops[..n] == ops[..n - 1] + [ops[n - 1]];
      ReplayConcat(d, ops[..n - 1], [ops[n - 1]], dumps);
      ReplayOne(mid, ops[n - 1], dumps);
      assert n == 2 || n == 5 ==>
          mid.entries - {Key(op.sourceParent, Base(op.source))} == TailNames(op, d.entries, n);
      if n == 1 || n == 4 {
        LinkFileName(mid, op.sourceParent, op.source, op.sourceInode, dumps);
      } else if n == 3 {
        LinkFileName(mid, op.destParent, op.dest, op.sourceInode, dumps);
      } else {
        DeleteFileName(mid, op.sourceParent, op.source, op.sourceInode, dumps);
      }
    }
  }

  // An expanded rename ends where the plain one does, except that a rename of a name onto itself
  // ends without the name.
  lemma RenameOps(op: MicroOp, o: Options)
    requires op.Rename? && o.splits > 0 && o.expanded
    ensures DiskOpsOf(op, o) == [SourceUnlink(op)] + (UnlinkDestOps(op, o) + ExpandedTail(op)) && |ExpandedTail(op)| == 5
    ensures op.destHardlinks == 0 ==> UnlinkDestOps(op, o) == []
  {
  }

  lemma RenameExpandedExactly(d: Fs, op: MicroOp, o: Options, dumps: Dumps)
    requires op.Rename? && o.splits > 0 && o.expanded && RenameReady(d, op)
    ensures Replay(d, DiskOpsOf(op, o), dumps)
         == Some(d.(entries := NamesAfterRename(d, op, true), files := FilesAfterRename(d, op)))
  {
    hide Replay, Step, DiskOpsOf, UnlinkDestOps, ExpandedTail, TailNames;
    var source, dest := Key(op.sourceParent, Base(op.source)), Key(op.destParent, Base(op.dest));
    var d1 := d.(entries := d.entries - {source});
    var d2 := d1.(entries := d.entries - {source} - {dest}, files := FilesAfterRename(d, op));
    var gone := UnlinkDestOps(op, o);
    RenameOps(op, o);
    DeleteFileName(d, op.sourceParent, op.source, op.sourceInode, dumps);
    ReplayOne(d, SourceUnlink(op), dumps);
    UnlinkDestExactly(d, op, o, dumps, d.entries - {source});
    TailExactly(d2, op, 5, dumps);
    assert ExpandedTail(op)[..5] == ExpandedTail(op);
    ReplayConcat(d, [SourceUnlink(op)], gone + ExpandedTail(op), dumps);
    ReplayConcat(d1, gone, ExpandedTail(op), dumps);
    ExpandedNames(op, d.entries);
  }

  lemma ExpandedNames(op: MicroOp, entries: map<Key, Node>)
    requires op.Rename?
    ensures var source, dest := Key(op.sourceParent, Base(op.source)), Key(op.destParent, Base(op.dest));
            TailNames(op, entries - {source} - {dest}, 5) == entries[dest := FileNode(op.sourceInode)] - {source}
  {
    var source, dest, node := Key(op.sourceParent, Base(op.source)), Key(op.destParent, Base(op.dest)), FileNode(op.sourceInode);
    var a, b := (entries - {source} - {dest})[dest := node] - {source}, entries[dest := node] - {source};
    assert forall k :: k in a <==> k in b;
  }

  lemma RenameExactly(d: Fs, op: MicroOp, o: Options, dumps: Dumps)
    requires op.Rename? && o.splits > 0 && RenameReady(d, op)
    ensures Replay(d, DiskOpsOf(op, o), dumps)
         == Some(d.(entries := NamesAfterRename(d, op, o.expanded), files := FilesAfterRename(d, op)))
  {
    if o.expanded {
      RenameExpandedExactly(d, op, o, dumps);
    } else {
      RenamePlainExactly(d, op, o, dumps);
    }
  }

  // Agreement, op by op.

  lemma ReadyToRename(m: Fs, d: Fs, op: MicroOp, dumps: Dumps)
    requires m.Valid() && Agree(m, d) && op.Rename? && WellFormed(m, op, dumps)
    ensures RenameReady(d, op)
    ensures op.destHardlinks >= 1 ==> op.destHardlinks == |m.Names(op.destInode)|
    ensures MicroStep(m, op, dumps)
         == Some(if op.destHardlinks >= 1 && op.destInode == op.sourceInode then m
                 else m.(entries := NamesAfterRename(m, op, false)))
  {
    DirectoryIsLinked(m, op.source);
    DirectoryIsLinked(m, op.dest);
    var dest := Key(op.destParent, Base(op.dest));
    assert dest in m.entries ==> dest in m.Names(op.destInode);
  }

  // With different inodes, names and contents come out right.
  lemma RenameAgrees(m: Fs, d: Fs, op: MicroOp, o: Options, dumps: Dumps)
    requires m.Valid() && Agree(m, d) && op.Rename? && WellFormed(m, op, dumps) && o.splits > 0 && !UnsafeRename(op, o)
    ensures Replay(d, DiskOpsOf(op, o), dumps).Some?
    ensures Agree(MicroStep(m, op, dumps).value, Replay(d, DiskOpsOf(op, o), dumps).value)
  {
    hide DiskOpsOf, Replay, MicroStep, WellFormed;
    ReadyToRename(m, d, op, dumps);
    RenameExactly(d, op, o, dumps);
    var dest := Key(op.destParent, Base(op.dest));
    var m', d' := MicroStep(m, op, dumps).value, Replay(d, DiskOpsOf(op, o), dumps).value;
    forall k | k in m'.entries && m'.entries[k].FileNode?
      ensures m'.FileOf(m'.entries[k].inode) == d'.FileOf(m'.entries[k].inode)
    {
      if op.destHardlinks == 1 && m'.entries[k].inode == op.destInode && op.destInode != op.sourceInode {
        OnlyName(m, op.destInode, dest, k);
      }
    }
  }

  lemma UnlinkAgrees(m: Fs, d: Fs, op: MicroOp, o: Options, dumps: Dumps)
    requires m.Valid() && Agree(m, d) && op.Unlink? && WellFormed(m, op, dumps) && o.splits > 0
    ensures Replay(d, DiskOpsOf(op, o), dumps).Some?
    ensures Agree(MicroStep(m, op, dumps).value, Replay(d, DiskOpsOf(op, o), dumps).value)
  {
    hide Replay;
    var key := Key(op.parent, Base(op.name));
    DirectoryIsLinked(m, op.name);
    UnlinkExactly(d, op.parent, op.name, op.inode, op.size, op.hardlinks, o, dumps);
    var m', d' := MicroStep(m, op, dumps).value, Replay(d, DiskOpsOf(op, o), dumps).value;
    forall k | k in m'.entries && m'.entries[k].FileNode?
      ensures m'.FileOf(m'.entries[k].inode) == d'.FileOf(m'.entries[k].inode)
    {
      if op.hardlinks == 1 && m'.entries[k].inode == op.inode {
        OnlyName(m, op.inode, key, k);
      }
    }
  }

  lemma NewNameAgrees(m: Fs, d: Fs, op: MicroOp, o: Options, dumps: Dumps)
    requires m.Valid() && Agree(m, d) && (op.Creat? || op.Link? || op.Mkdir? || op.Rmdir?)
    requires WellFormed(m, op, dumps) && o.splits > 0
    ensures Replay(d, DiskOpsOf(op, o), dumps).Some?
    ensures Agree(MicroStep(m, op, dumps).value, Replay(d, DiskOpsOf(op, o), dumps).value)
  {
    hide Replay;
    ReplayOne(d, DiskOpsOf(op, o)[0], dumps);
    match op
    case Creat(name, _, _) => DirectoryIsLinked(m, name);
    case Link(source, dest, inode, parent) =>
      DirectoryIsLinked(m, dest);
      ResolveIsEntry(m, source);
      LinkFileName(d, parent, dest, inode, dumps);
    case Mkdir(name, _, _) => DirectoryIsLinked(m, name);
    case Rmdir(name, _, _) => DirectoryIsLinked(m, name);
  }

  lemma NewBytesAgree(m: Fs, d: Fs, op: MicroOp, o: Options, dumps: Dumps)
    requires m.Valid() && Agree(m, d) && (op.Trunc? || op.Append? || op.Overwrite?)
    requires WellFormed(m, op, dumps) && o.splits > 0
    ensures Replay(d, DiskOpsOf(op, o), dumps).Some?
    ensures Agree(MicroStep(m, op, dumps).value, Replay(d, DiskOpsOf(op, o), dumps).value)
  {
    hide Replay, PWrite, Resize, ReadDump, DiskOpsOf;
    ResolveIsEntry(m, op.name);
    match op
    case Trunc(_, inode, _, finalSize) =>
      TruncExactly(d, inode, finalSize, o, dumps);
      TruncIsTruncOps(op, o);
    case Append(_, _, _, _, _, _) =>
      AppendAgrees(m, d, op, o, dumps);
    case Overwrite(_, _, _, _, _, _) => OverwriteExactly(d, op, o, dumps);
  }

  lemma TruncIsTruncOps(op: MicroOp, o: Options)
    requires op.Trunc? && o.splits > 0
    ensures DiskOpsOf(op, o) == TruncOps(op.inode, op.initialSize, op.finalSize, o)
  {
  }

  lemma AppendAgrees(m: Fs, d: Fs, op: MicroOp, o: Options, dumps: Dumps)
    requires m.Valid() && Agree(m, d) && op.Append? && WellFormed(m, op, dumps) && o.splits > 0
    ensures Replay(d, DiskOpsOf(op, o), dumps).Some?
    ensures Agree(MicroStep(m, op, dumps).value, Replay(d, DiskOpsOf(op, o), dumps).value)
  {
    hide Replay, PWrite, Resize, ReadDump, DiskOpsOf;
    ResolveIsEntry(m, op.name);
    AppendExactly(d, op, o, dumps);
    ReadDumpSplit(dumps, op.dumpFile, op.dumpOffset, op.count, 0);
    AppendIsResizeAndWrite(m.FileOf(op.inode), op.count, ReadDump(dumps, op.dumpFile, op.dumpOffset, op.count));
  }

  lemma AppendIsResizeAndWrite(c: Content, count: nat, data: Content)
    requires |data| == count
    ensures PWrite(Resize(c, |c| + count), |c|, data) == c + data
  {
    ResizeThenWrite(c, |c|, data);
    assert Resize(c, |c|) == c;
  }

  // Every well-formed op that is not an unsafe rename.
  lemma OpAgrees(m: Fs, d: Fs, op: MicroOp, o: Options, dumps: Dumps)
    requires m.Valid() && Agree(m, d) && WellFormed(m, op, dumps) && o.splits > 0 && !UnsafeRename(op, o)
    ensures Replay(d, DiskOpsOf(op, o), dumps).Some?
    ensures Agree(MicroStep(m, op, dumps).value, Replay(d, DiskOpsOf(op, o), dumps).value)
  {
    if op.Rename? {
      RenameAgrees(m, d, op, o, dumps);
    } else if op.Unlink? {
      UnlinkAgrees(m, d, op, o, dumps);
    } else if op.Creat? || op.Link? || op.Mkdir? || op.Rmdir? {
      NewNameAgrees(m, d, op, o, dumps);
    } else if op.Trunc? || op.Append? || op.Overwrite? {
      NewBytesAgree(m, d, op, o, dumps);
    } else {
      ReplayOne(d, DiskOpsOf(op, o)[0], dumps);
    }
  }

  // Whole traces.

  predicate ProperOptions(o: seq<Options>, n: nat) {
    |o| == n && forall k :: 0 <= k < n ==> o[k].splits > 0
  }

  /** The disk ops of a trace; every micro op may be split its own way. */
  function CompileAll(ops: seq<MicroOp>, o: seq<Options>): seq<DiskOp>
    requires ProperOptions(o, |ops|)
  {
    if ops == [] then [] else DiskOpsOf(ops[0], o[0]) + CompileAll(ops[1..], o[1..])
  }

  lemma {:induction false} TraceAgrees(m: Fs, d: Fs, ops: seq<MicroOp>, o: seq<Options>, dumps: Dumps)
    requires m.Valid() && Agree(m, d) && WellFormedTrace(m, ops, dumps) && ProperOptions(o, |ops|)
    requires forall k :: 0 <= k < |ops| ==> !UnsafeRename(ops[k], o[k])
    ensures MicroReplay(m, ops, dumps).Some? && MicroReplay(m, ops, dumps).value.Valid()
    ensures Replay(d, CompileAll(ops, o), dumps).Some?
    ensures Agree(MicroReplay(m, ops, dumps).value, Replay(d, CompileAll(ops, o), dumps).value)
    decreases |ops|
  {
    if ops != [] {
      hide WellFormed, MicroStep, DiskOpsOf, Agree, UnsafeRename;
      WellFormedStep(m, ops[0], dumps);
      OpAgrees(m, d, ops[0], o[0], dumps);
      ReplayConcat(d, DiskOpsOf(ops[0], o[0]), CompileAll(ops[1..], o[1..]), dumps);
      TraceAgrees(MicroStep(m, ops[0], dumps).value, Replay(d, DiskOpsOf(ops[0], o[0]), dumps).value, ops[1..], o[1..], dumps);
    }
  }

  // Where unsafe renames go wrong.

  // A path that runs through directories does not notice which files have names.
  lemma {:induction false} DirectoriesStay(a: Fs, b: Fs, p: Path)
    requires a.root == b.root
    requires forall k :: k in a.entries && a.entries[k].DirNode? ==> k in b.entries && b.entries[k] == a.entries[k]
    ensures a.Resolve(p).Some? && a.Resolve(p).value.DirNode? ==> b.Resolve(p) == a.Resolve(p)
    ensures a.DirOf(p).Some? ==> b.DirOf(p) == a.DirOf(p)
    decreases |p|
  {
    if p != [] {
      DirectoriesStay(a, b, Parent(p));
    }
  }

  // The source name shows the difference: it is missing, or it shows an empty file.
  lemma RenameDisagrees(m: Fs, d: Fs, op: MicroOp, o: Options, dumps: Dumps)
    requires m.Valid() && Agree(m, d) && WellFormed(m, op, dumps) && o.splits > 0 && UnsafeRename(op, o)
    ensures MicroStep(m, op, dumps) == Some(m)
    ensures Replay(d, DiskOpsOf(op, o), dumps).Some?
    ensures !SameTree(m, Replay(d, DiskOpsOf(op, o), dumps).value)
  {
    hide DiskOpsOf, Replay, MicroStep;
    ReadyToRename(m, d, op, dumps);
    RenameExactly(d, op, o, dumps);
    var d' := Replay(d, DiskOpsOf(op, o), dumps).value;
    DirectoriesStay(m, d', op.source);
    assert Look(m, op.source) == File(m.FileOf(op.sourceInode));
    assert Look(d', op.source) != Look(m, op.source);
  }

  // A rename of one name of a file to another one can be recorded: two names of one file of one byte.
  lemma RenameOfAliasedName(o: Options)
    requires o.splits > 0
    ensures var fs := Fs(1, map[Key(1, "a") := FileNode(2), Key(1, "b") := FileNode(2)], map[2 := [ZERO]], map[1 := Linked]);
            var op := Rename(["a"], ["b"], 2, 1, 1, 2, 1, 2, 1);
            && fs.Valid() && WellFormed(fs, op, map[]) && UnsafeRename(op, o)
            && MicroStep(fs, op, map[]) == Some(fs)
            && Replay(fs, DiskOpsOf(op, o), map[]).Some?
            && !SameTree(fs, Replay(fs, DiskOpsOf(op, o), map[]).value)
  {
    var fs := Fs(1, map[Key(1, "a") := FileNode(2), Key(1, "b") := FileNode(2)], map[2 := [ZERO]], map[1 := Linked]);
    var op := Rename(["a"], ["b"], 2, 1, 1, 2, 1, 2, 1);
    AliasedTree(fs);
    AgreeRefl(fs);
    RenameDisagrees(fs, fs, op, o, map[]);
  }

  lemma AliasedTree(fs: Fs)
    requires fs == Fs(1, map[Key(1, "a") := FileNode(2), Key(1, "b") := FileNode(2)], map[2 := [ZERO]], map[1 := Linked])
    ensures fs.Valid() && fs.Names(2) == {Key(1, "a"), Key(1, "b")}
    ensures fs.Resolve(["a"]) == fs.Resolve(["b"]) == Some(FileNode(2)) && fs.DirOf(["a"]) == fs.DirOf(["b"]) == Some(1)
  {
    assert Base(["a"]) == "a" && Base(["b"]) == "b" && Parent(["a"]) == [] && Parent(["b"]) == [];
    assert fs.Resolve([]) == Some(DirNode(1));
  }

  /** What the verify-replayer pass compares: both replays of the first t micro ops, as trees. */
  ghost predicate PrefixAgrees(fs: Fs, ops: seq<MicroOp>, o: seq<Options>, t: nat, dumps: Dumps)
    requires ProperOptions(o, |ops|) && t <= |ops|
  {
    var plain, disk := MicroReplay(fs, ops[..t], dumps), Replay(fs, CompileAll(ops[..t], o[..t]), dumps);
    plain.Some? && disk.Some? && SameTree(plain.value, disk.value)
  }

  predicate NoUnsafeRename(ops: seq<MicroOp>, o: seq<Options>)
    requires |ops| == |o|
  {
    forall k :: 0 <= k < |ops| ==> !UnsafeRename(ops[k], o[k])
  }

  lemma {:induction false} WellFormedPrefix(fs: Fs, ops: seq<MicroOp>, t: nat, dumps: Dumps)
    requires fs.Valid() && WellFormedTrace(fs, ops, dumps) && t <= |ops|
    ensures WellFormedTrace(fs, ops[..t], dumps)
    ensures MicroReplay(fs, ops[..t], dumps).Some? && MicroReplay(fs, ops[..t], dumps).value.Valid()
    ensures WellFormedTrace(MicroReplay(fs, ops[..t], dumps).value, ops[t..], dumps)
    decreases t
  {
    hide WellFormed, MicroStep;
    if t > 0 {
      WellFormedStep(fs, ops[0], dumps);
      WellFormedPrefix(MicroStep(fs, ops[0], dumps).value, ops[1..], t - 1, dumps);
      assert ops[..t][1..] == ops[1..][..t - 1] && ops[1..][t - 1..] == ops[t..];
    }
  }

  lemma {:induction false} CompileConcat(ops: seq<MicroOp>, o: seq<Options>, t: nat)
    requires ProperOptions(o, |ops|) && t <= |ops|
    ensures CompileAll(ops, o) == CompileAll(ops[..t], o[..t]) + CompileAll(ops[t..], o[t..])
    decreases t
  {
    hide DiskOpsOf;
    if t > 0 {
      CompileConcat(ops[1..], o[1..], t - 1);
      assert ops[..t][1..] == ops[1..][..t - 1] && o[..t][1..] == o[1..][..t - 1];
      assert ops[1..][t - 1..] == ops[t..] && o[1..][t - 1..] == o[t..];
    } else {
      assert ops[..0] == [] && ops[0..] == ops && o[0..] == o;
    }
  }

  // The first unsafe rename is where the two replays part.
  lemma FirstUnsafeRename(fs: Fs, ops: seq<MicroOp>, o: seq<Options>, k: nat, dumps: Dumps)
    requires fs.Valid() && WellFormedTrace(fs, ops, dumps) && ProperOptions(o, |ops|)
    requires k < |ops| && UnsafeRename(ops[k], o[k]) && NoUnsafeRename(ops[..k], o[..k])
    ensures !PrefixAgrees(fs, ops, o, k + 1, dumps)
  {
    hide WellFormed, MicroStep, DiskOpsOf, SameTree, Agree, UnsafeRename, CompileAll;
    WellFormedPrefix(fs, ops, k, dumps);
    AgreeRefl(fs);
    TraceAgrees(fs, fs, ops[..k], o[..k], dumps);
    var m, d := MicroReplay(fs, ops[..k], dumps).value, Replay(fs, CompileAll(ops[..k], o[..k]), dumps).value;
    assert WellFormed(m, ops[k], dumps) by { assert ops[k..][0] == ops[k]; }
    RenameDisagrees(m, d, ops[k], o[k], dumps);
    assert ops[..k + 1] == ops[..k] + [ops[k]];
    MicroConcat(fs, ops[..k], [ops[k]], dumps);
    assert MicroReplay(m, [ops[k]], dumps) == Some(m);
    CompileNext(ops, o, k);
    ReplayConcat(fs, CompileAll(ops[..k], o[..k]), DiskOpsOf(ops[k], o[k]), dumps);
  }

  lemma CompileNext(ops: seq<MicroOp>, o: seq<Options>, k: nat)
    requires ProperOptions(o, |ops|) && k < |ops|
    ensures CompileAll(ops[..k + 1], o[..k + 1]) == CompileAll(ops[..k], o[..k]) + DiskOpsOf(ops[k], o[k])
  {
    hide DiskOpsOf;
    CompileConcat(ops[..k + 1], o[..k + 1], k);
    assert ops[..k + 1][..k] == ops[..k] && o[..k + 1][..k] == o[..k];
    assert ops[..k + 1][k..] == [ops[k]] && o[..k + 1][k..] == [o[k]];
    assert [ops[k]][1..] == [] && CompileAll([], []) == [];
  }

  lemma AgreeRefl(fs: Fs)
    ensures Agree(fs, fs)
  {
  }

  // Main result.  On every well-formed trace, with any choice of splits, split mode and expansion for
  // each micro op: the two replays show the same tree after every prefix of the trace exactly when
  // the trace has no unsafe rename.
  lemma ReplayersAgree(fs: Fs, ops: seq<MicroOp>, o: seq<Options>, dumps: Dumps)
    requires fs.Valid() && WellFormedTrace(fs, ops, dumps) && ProperOptions(o, |ops|)
    ensures (forall t: nat :: t <= |ops| ==> PrefixAgrees(fs, ops, o, t, dumps)) <==> NoUnsafeRename(ops, o)
  {
    hide WellFormed, MicroStep, DiskOpsOf, SameTree, Agree, UnsafeRename;
    if NoUnsafeRename(ops, o) {
      forall t: nat | t <= |ops| ensures PrefixAgrees(fs, ops, o, t, dumps) {
        WellFormedPrefix(fs, ops, t, dumps);
        AgreeRefl(fs);
        TraceAgrees(fs, fs, ops[..t], o[..t], dumps);
        AgreeIsSameTree(MicroReplay(fs, ops[..t], dumps).value, Replay(fs, CompileAll(ops[..t], o[..t]), dumps).value);
      }
    } else {
      var k: nat := FindFirstUnsafe(ops, o);
      FirstUnsafeRename(fs, ops, o, k, dumps);
    }
  }

  lemma FindFirstUnsafe(ops: seq<MicroOp>, o: seq<Options>) returns (k: nat)
    requires |ops| == |o| && !NoUnsafeRename(ops, o)
    ensures k < |ops| && UnsafeRename(ops[k], o[k]) && NoUnsafeRename(ops[..k], o[..k])
  {
    k := 0;
    while !UnsafeRename(ops[k], o[k])
      invariant k < |ops| && forall j :: 0 <= j < k ==> !UnsafeRename(ops[j], o[j])
      decreases |ops| - k
    {
      k := k + 1;
    }
  }
}
