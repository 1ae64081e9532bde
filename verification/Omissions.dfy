/** Replays of rows from which the op that made an inode was left out: the replayer makes the inode itself,
    among the held ones, and the rest of the rows goes on as if nothing had happened. */
module Omissions {
  import opened FileSystem
  import opened DiskOps
  import opened MicroOps
  import opened Compiler
  import opened Agreement
  import opened ReplayInvariants

  // A name that was never made.

  /** The names differ in one name of a file only.  The file itself may be unknown to one of the trees. */
  ghost predicate NameMore(full: Fs, part: Fs, key: Key, inode: nat) {
    && full.root == part.root && full.dirs == part.dirs && NotADirectoryIn(part, inode) && key.dir in part.dirs
    && full.entries == part.entries[key := FileNode(inode)] && key !in part.entries
    && full.files.Keys == part.files.Keys + {inode}
  }

  /** The names are the same. */
  ghost predicate FileMore(full: Fs, part: Fs, inode: nat) {
    && full.root == part.root && full.dirs == part.dirs && NotADirectoryIn(part, inode) && full.entries == part.entries
    && full.files.Keys == part.files.Keys + {inode}
  }

  /** The trees differ in one name of a file only.  A file without bytes may be known to one of them only. */
  ghost predicate ButOneName(full: Fs, part: Fs, key: Key, inode: nat) {
    NameMore(full, part, key, inode) && SameBytes(full, part)
  }

  /** The trees are the same, but for a file without bytes and names. */
  ghost predicate ButOneFile(full: Fs, part: Fs, inode: nat) {
    FileMore(full, part, inode) && SameBytes(full, part)
  }

  ghost predicate NotADirectoryIn(fs: Fs, inode: nat) {
    inode !in fs.dirs && forall k :: k in fs.entries ==> fs.entries[k] != DirNode(inode)
  }

  ghost predicate SameBytes(full: Fs, part: Fs) {
    forall i: nat :: full.FileOf(i) == part.FileOf(i)
  }

  /** Ops on bytes and on names of files, but not on this name; and the inode is not taken for a directory. */
  predicate Elsewhere(op: DiskOp, key: Key, inode: nat) {
    match op
    case CreateDirEntry(parent, entry, _, isDir) => !isDir && Key(parent, Base(entry)) != key && parent != inode
    case DeleteDirEntry(parent, entry, _, isDir) => !isDir && Key(parent, Base(entry)) != key && parent != inode
    case _ => true
  }

  /** The inode is not taken for a directory. */
  predicate NotADirectory(op: DiskOp, inode: nat) {
    match op
    case CreateDirEntry(parent, _, i, isDir) => parent != inode && (isDir ==> i != inode)
    case DeleteDirEntry(parent, _, i, isDir) => parent != inode && (isDir ==> i != inode)
    case _ => true
  }

  // What a step does to the bytes of all files depends on these bytes alone.
  lemma StepSameBytes(full: Fs, part: Fs, op: DiskOp, dumps: Dumps)
    requires SameBytes(full, part)
    ensures Step(full, op, dumps).Some? && Step(part, op, dumps).Some? ==> SameBytes(Step(full, op, dumps).value, Step(part, op, dumps).value)
  {
    if Step(full, op, dumps).Some? && Step(part, op, dumps).Some? {
      forall i: nat ensures Step(full, op, dumps).value.FileOf(i) == Step(part, op, dumps).value.FileOf(i) {
        assert full.FileOf(i) == part.FileOf(i);
        StepBytes(full, op, i, dumps);
        StepBytes(part, op, i, dumps);
      }
    }
  }

  lemma StepBytes(fs: Fs, op: DiskOp, i: nat, dumps: Dumps)
    requires Step(fs, op, dumps).Some?
    ensures Step(fs, op, dumps).value.FileOf(i) == if OnFile(op, i, dumps) then Apply(fs.FileOf(i), op, dumps) else fs.FileOf(i)
  {
  }

  // A step on a name, taken apart.
  lemma LinkStep(fs: Fs, op: DiskOp, dumps: Dumps)
    requires op.CreateDirEntry?
    ensures OpenDirectory(fs, op.parent).None? ==> Step(fs, op, dumps) == None
    ensures OpenDirectory(fs, op.parent).Some? && op.isDir ==>
              Step(fs, op, dumps) == CreateDirectory(OpenDirectory(fs, op.parent).value, Key(op.parent, Base(op.entry)), op.inode)
    ensures OpenDirectory(fs, op.parent).Some? && !op.isDir ==>
              Step(fs, op, dumps) == CreateLink(OpenDirectory(fs, op.parent).value, Key(op.parent, Base(op.entry)), op.inode)
  {
  }

  lemma DeleteStep(fs: Fs, op: DiskOp, dumps: Dumps)
    requires op.DeleteDirEntry?
    ensures OpenDirectory(fs, op.parent).None? ==> Step(fs, op, dumps) == None
    ensures OpenDirectory(fs, op.parent).Some? ==>
              Step(fs, op, dumps) == DeleteEntry(OpenDirectory(fs, op.parent).value, Key(op.parent, Base(op.entry)), op.inode, op.isDir)
  {
  }

  // A step on bytes keeps names and directories, and knows its inode afterwards.
  lemma BytesStep(fs: Fs, op: DiskOp, dumps: Dumps)
    requires !op.CreateDirEntry? && !op.DeleteDirEntry?
    ensures Step(fs, op, dumps).Some? <==>
              || (op.Truncate? && OpenFile(fs, op.inode).Some?)
              || (op.Write? && OpenFile(fs, op.inode).Some? && Bytes(dumps, op.payload, op.count).Some?)
              || op.Sync? || op.Output?
    ensures Step(fs, op, dumps).Some? ==>
              var next := Step(fs, op, dumps).value;
              && next.root == fs.root && next.entries == fs.entries && next.dirs == fs.dirs
              && next.files.Keys == if op.Truncate? || op.Write? then fs.files.Keys + {op.inode} else fs.files.Keys
  {
  }

  lemma OpenNameMore(full: Fs, part: Fs, key: Key, inode: nat, dir: nat)
    requires NameMore(full, part, key, inode) && dir != inode
    ensures OpenDirectory(full, dir).Some? <==> OpenDirectory(part, dir).Some?
    ensures OpenDirectory(full, dir).Some? ==> NameMore(OpenDirectory(full, dir).value, OpenDirectory(part, dir).value, key, inode)
  {
  }

  lemma LinkNameMore(full: Fs, part: Fs, key: Key, inode: nat, k: Key, i: nat)
    requires NameMore(full, part, key, inode) && k != key
    ensures CreateLink(full, k, i).Some? <==> CreateLink(part, k, i).Some?
    ensures CreateLink(full, k, i).Some? ==> NameMore(CreateLink(full, k, i).value, CreateLink(part, k, i).value, key, inode)
  {
  }

  lemma DeleteNameMore(full: Fs, part: Fs, key: Key, inode: nat, k: Key, i: nat)
    requires NameMore(full, part, key, inode) && k != key
    ensures DeleteEntry(full, k, i, false).Some? <==> DeleteEntry(part, k, i, false).Some?
    ensures DeleteEntry(full, k, i, false).Some? ==>
              NameMore(DeleteEntry(full, k, i, false).value, DeleteEntry(part, k, i, false).value, key, inode)
  {
  }

  lemma StepNameMore(full: Fs, part: Fs, op: DiskOp, key: Key, inode: nat, dumps: Dumps)
    requires NameMore(full, part, key, inode) && Elsewhere(op, key, inode)
    ensures Step(full, op, dumps).Some? <==> Step(part, op, dumps).Some?
    ensures Step(full, op, dumps).Some? ==> NameMore(Step(full, op, dumps).value, Step(part, op, dumps).value, key, inode)
  {
    hide Step, CreateLink, CreateDirectory, DeleteEntry, OpenDirectory;
    if op.CreateDirEntry? {
      LinkStep(full, op, dumps);
      LinkStep(part, op, dumps);
      OpenNameMore(full, part, key, inode, op.parent);
      if OpenDirectory(full, op.parent).Some? {
        LinkNameMore(OpenDirectory(full, op.parent).value, OpenDirectory(part, op.parent).value, key, inode, Key(op.parent, Base(op.entry)), op.inode);
      }
    } else if op.DeleteDirEntry? {
      DeleteStep(full, op, dumps);
      DeleteStep(part, op, dumps);
      OpenNameMore(full, part, key, inode, op.parent);
      if OpenDirectory(full, op.parent).Some? {
        DeleteNameMore(OpenDirectory(full, op.parent).value, OpenDirectory(part, op.parent).value, key, inode, Key(op.parent, Base(op.entry)), op.inode);
      }
    } else {
      BytesStep(full, op, dumps);
      BytesStep(part, op, dumps);
    }
  }

  lemma StepButOneName(full: Fs, part: Fs, op: DiskOp, key: Key, inode: nat, dumps: Dumps)
    requires ButOneName(full, part, key, inode) && Elsewhere(op, key, inode)
    ensures Step(full, op, dumps).Some? <==> Step(part, op, dumps).Some?
    ensures Step(full, op, dumps).Some? ==> ButOneName(Step(full, op, dumps).value, Step(part, op, dumps).value, key, inode)
  {
    hide Step, SameBytes, NameMore, Elsewhere, NotADirectory;
    StepNameMore(full, part, op, key, inode, dumps);
    StepSameBytes(full, part, op, dumps);
  }

  lemma OpenFileMore(full: Fs, part: Fs, inode: nat, dir: nat)
    requires FileMore(full, part, inode) && dir != inode
    ensures OpenDirectory(full, dir).Some? <==> OpenDirectory(part, dir).Some?
    ensures OpenDirectory(full, dir).Some? ==> FileMore(OpenDirectory(full, dir).value, OpenDirectory(part, dir).value, inode)
  {
  }

  lemma LinkFileMore(full: Fs, part: Fs, inode: nat, k: Key, i: nat)
    requires FileMore(full, part, inode)
    ensures CreateLink(full, k, i).Some? <==> CreateLink(part, k, i).Some?
    ensures CreateLink(full, k, i).Some? ==> FileMore(CreateLink(full, k, i).value, CreateLink(part, k, i).value, inode)
  {
  }

  lemma DirectoryFileMore(full: Fs, part: Fs, inode: nat, k: Key, i: nat)
    requires FileMore(full, part, inode) && i != inode
    ensures CreateDirectory(full, k, i).Some? <==> CreateDirectory(part, k, i).Some?
    ensures CreateDirectory(full, k, i).Some? ==> FileMore(CreateDirectory(full, k, i).value, CreateDirectory(part, k, i).value, inode)
  {
  }

  lemma DeleteFileMore(full: Fs, part: Fs, inode: nat, k: Key, i: nat, isDir: bool)
    requires FileMore(full, part, inode) && (isDir ==> i != inode)
    ensures DeleteEntry(full, k, i, isDir).Some? <==> DeleteEntry(part, k, i, isDir).Some?
    ensures DeleteEntry(full, k, i, isDir).Some? ==> FileMore(DeleteEntry(full, k, i, isDir).value, DeleteEntry(part, k, i, isDir).value, inode)
  {
  }

  lemma StepFileMore(full: Fs, part: Fs, op: DiskOp, inode: nat, dumps: Dumps)
    requires FileMore(full, part, inode) && NotADirectory(op, inode)
    ensures Step(full, op, dumps).Some? <==> Step(part, op, dumps).Some?
    ensures Step(full, op, dumps).Some? ==> FileMore(Step(full, op, dumps).value, Step(part, op, dumps).value, inode)
  {
    hide Step, CreateLink, CreateDirectory, DeleteEntry, OpenDirectory;
    if op.CreateDirEntry? {
      LinkStep(full, op, dumps);
      LinkStep(part, op, dumps);
      OpenFileMore(full, part, inode, op.parent);
      if OpenDirectory(full, op.parent).Some? {
        if op.isDir {
          DirectoryFileMore(OpenDirectory(full, op.parent).value, OpenDirectory(part, op.parent).value, inode, Key(op.parent, Base(op.entry)), op.inode);
        } else {
          LinkFileMore(OpenDirectory(full, op.parent).value, OpenDirectory(part, op.parent).value, inode, Key(op.parent, Base(op.entry)), op.inode);
        }
      }
    } else if op.DeleteDirEntry? {
      DeleteStep(full, op, dumps);
      DeleteStep(part, op, dumps);
      OpenFileMore(full, part, inode, op.parent);
      if OpenDirectory(full, op.parent).Some? {
        DeleteFileMore(OpenDirectory(full, op.parent).value, OpenDirectory(part, op.parent).value, inode, Key(op.parent, Base(op.entry)), op.inode, op.isDir);
      }
    } else {
      BytesStep(full, op, dumps);
      BytesStep(part, op, dumps);
    }
  }

  lemma StepButOneFile(full: Fs, part: Fs, op: DiskOp, inode: nat, dumps: Dumps)
    requires ButOneFile(full, part, inode) && NotADirectory(op, inode)
    ensures Step(full, op, dumps).Some? <==> Step(part, op, dumps).Some?
    ensures Step(full, op, dumps).Some? ==> ButOneFile(Step(full, op, dumps).value, Step(part, op, dumps).value, inode)
  {
    hide Step, SameBytes, FileMore, Elsewhere, NotADirectory;
    StepFileMore(full, part, op, inode, dumps);
    StepSameBytes(full, part, op, dumps);
  }

  lemma {:induction false} ReplayButOneName(full: Fs, part: Fs, ops: seq<DiskOp>, key: Key, inode: nat, dumps: Dumps)
    requires ButOneName(full, part, key, inode) && forall op :: op in ops ==> Elsewhere(op, key, inode)
    ensures Replay(full, ops, dumps).Some? <==> Replay(part, ops, dumps).Some?
    ensures Replay(full, ops, dumps).Some? ==> ButOneName(Replay(full, ops, dumps).value, Replay(part, ops, dumps).value, key, inode)
    decreases |ops|
  {
    hide Step, ButOneName, Elsewhere;
    if ops != [] {
      StepButOneName(full, part, ops[0], key, inode, dumps);
      if Step(full, ops[0], dumps).Some? {
        ReplayButOneName(Step(full, ops[0], dumps).value, Step(part, ops[0], dumps).value, ops[1..], key, inode, dumps);
      }
    }
  }

  lemma {:induction false} ReplayButOneFile(full: Fs, part: Fs, ops: seq<DiskOp>, inode: nat, dumps: Dumps)
    requires ButOneFile(full, part, inode) && forall op :: op in ops ==> NotADirectory(op, inode)
    ensures Replay(full, ops, dumps).Some? <==> Replay(part, ops, dumps).Some?
    ensures Replay(full, ops, dumps).Some? ==> ButOneFile(Replay(full, ops, dumps).value, Replay(part, ops, dumps).value, inode)
    decreases |ops|
  {
    hide Step, ButOneFile, NotADirectory;
    if ops != [] {
      StepButOneFile(full, part, ops[0], inode, dumps);
      if Step(full, ops[0], dumps).Some? {
        ReplayButOneFile(Step(full, ops[0], dumps).value, Step(part, ops[0], dumps).value, ops[1..], inode, dumps);
      }
    }
  }

  lemma ButOneFileIsSameTree(full: Fs, part: Fs, inode: nat)
    requires ButOneFile(full, part, inode)
    ensures SameTree(full, part)
  {
    forall p: Path ensures Look(full, p) == Look(part, p) {
      ResolveAgrees(full, part, p);
    }
  }

  // Main result for a name that is made and taken away again: leaving out the op that makes it changes
  // neither whether the replay raises nor what it shows in the end, whatever is done to bytes and to other
  // names in between, and whatever comes afterwards.
  lemma OmittedName(fs: Fs, name: Path, parent: nat, inode: nat, other: nat, mid: seq<DiskOp>, rest: seq<DiskOp>, dumps: Dumps)
    requires Sane(fs) && fs.InTree(parent) && fs.Fresh(inode) && Key(parent, Base(name)) !in fs.entries
    requires forall op :: op in mid ==> Elsewhere(op, Key(parent, Base(name)), inode)
    requires forall op :: op in rest ==> NotADirectory(op, inode)
    ensures var make, drop := CreateDirEntry(parent, name, inode, false), DeleteDirEntry(parent, name, other, false);
            var full, part := Replay(fs, [make] + mid + [drop] + rest, dumps), Replay(fs, mid + [drop] + rest, dumps);
            && (full.Some? <==> part.Some?)
            && (full.Some? ==> SameTree(full.value, part.value))
  {
    hide Replay, Step, ButOneName, ButOneFile, Elsewhere, NotADirectory, SameTree;
    var key, make, drop := Key(parent, Base(name)), CreateDirEntry(parent, name, inode, false), DeleteDirEntry(parent, name, other, false);
    var made := fs.(entries := fs.entries[key := FileNode(inode)], files := fs.files[inode := []]);
    MadeName(fs, name, parent, inode, dumps);
    ReplayButOneName(made, fs, mid, key, inode, dumps);
    assert [make] + mid + [drop] + rest == [make] + (mid + ([drop] + rest)) && mid + [drop] + rest == mid + ([drop] + rest);
    ReplayConcat(fs, [make], mid + ([drop] + rest), dumps);
    ReplayOne(fs, make, dumps);
    ReplayConcat(made, mid, [drop] + rest, dumps);
    ReplayConcat(fs, mid, [drop] + rest, dumps);
    if Replay(fs, mid, dumps).Some? {
      var a, b := Replay(made, mid, dumps).value, Replay(fs, mid, dumps).value;
      DroppedName(a, b, name, parent, inode, other, dumps);
      ReplayConcat(a, [drop], rest, dumps);
      ReplayConcat(b, [drop], rest, dumps);
      ReplayOne(a, drop, dumps);
      ReplayOne(b, drop, dumps);
      if Step(a, drop, dumps).Some? {
        ReplayButOneFile(Step(a, drop, dumps).value, Step(b, drop, dumps).value, rest, inode, dumps);
        if Replay(Step(a, drop, dumps).value, rest, dumps).Some? {
          ButOneFileIsSameTree(Replay(Step(a, drop, dumps).value, rest, dumps).value, Replay(Step(b, drop, dumps).value, rest, dumps).value, inode);
        }
      }
    }
  }

  lemma MadeName(fs: Fs, name: Path, parent: nat, inode: nat, dumps: Dumps)
    requires Sane(fs) && fs.InTree(parent) && fs.Fresh(inode) && Key(parent, Base(name)) !in fs.entries
    ensures var made := fs.(entries := fs.entries[Key(parent, Base(name)) := FileNode(inode)], files := fs.files[inode := []]);
            && Step(fs, CreateDirEntry(parent, name, inode, false), dumps) == Some(made)
            && ButOneName(made, fs, Key(parent, Base(name)), inode)
  {
  }

  lemma DroppedName(full: Fs, part: Fs, name: Path, parent: nat, inode: nat, other: nat, dumps: Dumps)
    requires ButOneName(full, part, Key(parent, Base(name)), inode)
    ensures var drop := DeleteDirEntry(parent, name, other, false);
            && (Step(full, drop, dumps).Some? <==> Step(part, drop, dumps).Some?)
            && (Step(full, drop, dumps).Some? ==> ButOneFile(Step(full, drop, dumps).value, Step(part, drop, dumps).value, inode))
  {
    assert part.entries[Key(parent, Base(name)) := FileNode(inode)] - {Key(parent, Base(name))} == part.entries;
  }

  // Create, write, rename: with the creat left out, the tree is the one of the full list, for the plain and
  // the expanded form, and whatever the rename replaces.
  lemma OmittedCreat(fs: Fs, name: Path, parent: nat, inode: nat, w: seq<DiskOp>, op: MicroOp, o: Options, dumps: Dumps)
    requires Sane(fs) && fs.InTree(parent) && fs.Fresh(inode) && Key(parent, Base(name)) !in fs.entries && AllOnFile(w, inode, dumps)
    requires op.Rename? && o.splits > 0 && op.source == name && op.sourceParent == parent && op.sourceInode == inode
    requires op.destParent != inode && Key(op.destParent, Base(op.dest)) != Key(parent, Base(name))
    ensures var full := Replay(fs, DiskOpsOf(Creat(name, parent, inode), o) + w + DiskOpsOf(op, o), dumps);
            var part := Replay(fs, w + DiskOpsOf(op, o), dumps);
            && (full.Some? <==> part.Some?)
            && (full.Some? ==> SameTree(full.value, part.value))
  {
    hide Replay, SameTree;
    var key, make, drop := Key(parent, Base(name)), [CreateDirEntry(parent, name, inode, false)], SourceUnlink(op);
    var gone := UnlinkDestOps(op, o);
    GoneIsElsewhere(op, o, key, inode);
    assert parent != inode;
    forall x | x in w ensures Elsewhere(x, key, inode) {
      assert OnFile(x, inode, dumps);
    }
    if o.expanded {
      var tail := ExpandedTail(op);
      RenameOps(op, o);
      OmittedName(fs, name, parent, inode, inode, w, gone + tail, dumps);
      assert make + w + [drop] + (gone + tail) == make + w + DiskOpsOf(op, o);
      assert w + [drop] + (gone + tail) == w + DiskOpsOf(op, o);
    } else {
      OmittedName(fs, name, parent, inode, inode, w + gone, [DestLink(op)], dumps);
      assert DiskOpsOf(op, o) == gone + [drop] + [DestLink(op)];
      assert make + (w + gone) + [drop] + [DestLink(op)] == make + w + DiskOpsOf(op, o);
      assert (w + gone) + [drop] + [DestLink(op)] == w + DiskOpsOf(op, o);
    }
  }

  lemma GoneIsElsewhere(op: MicroOp, o: Options, key: Key, inode: nat)
    requires op.Rename? && o.splits > 0 && op.destParent != inode && Key(op.destParent, Base(op.dest)) != key
    ensures forall x :: x in UnlinkDestOps(op, o) ==> Elsewhere(x, key, inode) && NotADirectory(x, inode)
  {
    var ops := UnlinkDestOps(op, o);
    if op.destHardlinks == 1 {
      var cut, s := TruncOps(op.destInode, op.destSize, 0, o), Pieces(o, 0, op.destSize);
      TruncOnFile(op.destInode, s, map[]);
      assert cut == if op.destSize > 0 then ShrinkOps(op.destInode, s) else GrowOps(op.destInode, s);
      forall x | x in cut ensures x.Truncate? || x.Write? {
        assert OnFile(x, op.destInode, map[]);
      }
    }
  }

  // And the new name leads to all the bytes that were written, although the file was never made.
  lemma OmittedCreatResult(fs: Fs, w: seq<DiskOp>, op: MicroOp, o: Options, dumps: Dumps)
    requires op.Rename? && o.splits > 0 && !o.expanded && op.destHardlinks == 0
    requires fs.InTree(op.sourceParent) && fs.InTree(op.destParent) && fs.Fresh(op.sourceInode)
    requires Key(op.sourceParent, Base(op.source)) !in fs.entries && Key(op.destParent, Base(op.dest)) !in fs.entries
    requires AllOnFile(w, op.sourceInode, dumps) && w != []
    ensures Replay(fs, w + DiskOpsOf(op, o), dumps)
         == Some(fs.(entries := fs.entries[Key(op.destParent, Base(op.dest)) := FileNode(op.sourceInode)],
                     files := fs.files[op.sourceInode := ApplyAll([], w, dumps)]))
  {
    hide Replay, Step, ApplyAll;
    var drop, link := SourceUnlink(op), DestLink(op);
    var mid := fs.(files := fs.files[op.sourceInode := ApplyAll([], w, dumps)]);
    ReplayOnInode(fs, w, op.sourceInode, dumps);
    assert DiskOpsOf(op, o) == [drop] + [link];
    ReplayConcat(fs, w, [drop] + [link], dumps);
    ReplayConcat(mid, [drop], [link], dumps);
    ReplayOne(mid, drop, dumps);
    DeleteFileName(mid, op.sourceParent, op.source, op.sourceInode, dumps);
    assert mid.entries - {Key(op.sourceParent, Base(op.source))} == mid.entries;
    ReplayOne(mid, link, dumps);
    LinkFileName(mid, op.destParent, op.dest, op.sourceInode, dumps);
  }
}
