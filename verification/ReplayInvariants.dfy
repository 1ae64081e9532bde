/** What holds of every tree that the two replayers can make, whatever the ops are. */
module ReplayInvariants {
  import opened FileSystem
  import opened DiskOps
  import opened MicroOps

  // Disk ops.

  /** Names belong to known directories and lead to inodes that exist, and a directory has at most one name. */
  ghost predicate Sane(fs: Fs) {
    && (forall k :: k in fs.entries ==> k.dir in fs.dirs)
    && (forall k :: k in fs.entries && fs.entries[k].FileNode? ==> fs.entries[k].inode in fs.files)
    && (forall k :: k in fs.entries && fs.entries[k].DirNode? ==> fs.InTree(fs.entries[k].inode))
    && (forall j, k :: j in fs.entries && k in fs.entries && fs.entries[j].DirNode? && fs.entries[j] == fs.entries[k] ==> j == k)
  }

  lemma ValidIsSane(fs: Fs)
    requires fs.Valid()
    ensures Sane(fs)
  {
  }

  // No disk op, well placed or not, ever breaks this, takes a file's inode away, or changes the bytes of an
  // inode that it does not name.
  lemma StepStaysSane(fs: Fs, op: DiskOp, dumps: Dumps)
    requires Sane(fs) && Step(fs, op, dumps).Some?
    ensures var next := Step(fs, op, dumps).value;
            && Sane(next) && next.root == fs.root && fs.files.Keys <= next.files.Keys && fs.dirs.Keys <= next.dirs.Keys
            && forall i: nat :: !((op.Truncate? || op.Write?) && op.inode == i) ==> next.FileOf(i) == fs.FileOf(i)
  {
    hide Sane;
    match op
    case CreateDirEntry(parent, entry, inode, isDir) =>
      OpenStaysSane(fs, parent);
      var held, key := OpenDirectory(fs, parent).value, Key(parent, Base(entry));
      if isDir {
        DirectoryStaysSane(held, key, inode);
      } else {
        LinkStaysSane(held, key, inode);
      }
    case DeleteDirEntry(parent, entry, inode, isDir) =>
      OpenStaysSane(fs, parent);
      DeleteStaysSane(OpenDirectory(fs, parent).value, Key(parent, Base(entry)), inode, isDir);
    case Truncate(inode, _, _) => BytesStaySane(fs, Step(fs, op, dumps).value);
    case Write(inode, _, _, _) => BytesStaySane(fs, Step(fs, op, dumps).value);
    case Sync(_, _, _) =>
    case Output(_, _) =>
  }

  lemma OpenStaysSane(fs: Fs, inode: nat)
    requires Sane(fs) && OpenDirectory(fs, inode).Some?
    ensures var next := OpenDirectory(fs, inode).value;
            Sane(next) && inode in next.dirs && next.files == fs.files && next.entries == fs.entries && fs.dirs.Keys <= next.dirs.Keys && next.root == fs.root
  {
  }

  lemma BytesStaySane(fs: Fs, next: Fs)
    requires Sane(fs) && next == fs.(files := next.files) && fs.files.Keys <= next.files.Keys
    ensures Sane(next)
  {
  }

  lemma LinkStaysSane(fs: Fs, key: Key, inode: nat)
    requires Sane(fs) && key.dir in fs.dirs && CreateLink(fs, key, inode).Some?
    ensures Sane(CreateLink(fs, key, inode).value)
  {
  }

  lemma DirectoryStaysSane(fs: Fs, key: Key, inode: nat)
    requires Sane(fs) && key.dir in fs.dirs && CreateDirectory(fs, key, inode).Some?
    ensures Sane(CreateDirectory(fs, key, inode).value)
  {
    if key in fs.entries {
      ReplacedStaysSane(fs, key, inode, fs.entries[key].inode);
    }
  }

  lemma ReplacedStaysSane(fs: Fs, key: Key, inode: nat, prev: nat)
    requires Sane(fs) && key in fs.entries && fs.entries[key] == DirNode(prev) && !fs.InTree(inode)
    ensures Sane(fs.(entries := fs.entries[key := DirNode(inode)], dirs := fs.dirs[inode := Held][prev := Removed][inode := Linked]))
    ensures Sane(fs.(entries := fs.entries[key := DirNode(inode)], dirs := fs.dirs[prev := Removed][inode := Linked]))
  {
  }

  lemma DeleteStaysSane(fs: Fs, key: Key, inode: nat, isDir: bool)
    requires Sane(fs) && DeleteEntry(fs, key, inode, isDir).Some?
    ensures Sane(DeleteEntry(fs, key, inode, isDir).value)
  {
  }

  lemma {:induction false} ReplayStaysSane(fs: Fs, ops: seq<DiskOp>, dumps: Dumps)
    requires Sane(fs) && Replay(fs, ops, dumps).Some?
    ensures var last := Replay(fs, ops, dumps).value;
            && Sane(last) && last.root == fs.root && fs.files.Keys <= last.files.Keys && fs.dirs.Keys <= last.dirs.Keys
            && forall i: nat :: (forall op :: op in ops && (op.Truncate? || op.Write?) ==> op.inode != i) ==> last.FileOf(i) == fs.FileOf(i)
    decreases |ops|
  {
    hide Step, Sane;
    if ops != [] {
      StepStaysSane(fs, ops[0], dumps);
      ReplayStaysSane(Step(fs, ops[0], dumps).value, ops[1..], dumps);
    }
  }

  // What a disk op does to names, on any tree.
  lemma StepNames(fs: Fs, op: DiskOp, dumps: Dumps)
    requires Step(fs, op, dumps).Some?
    ensures Step(fs, op, dumps).value.entries ==
            match op
            case CreateDirEntry(parent, entry, inode, isDir) => fs.entries[Key(parent, Base(entry)) := if isDir then DirNode(inode) else FileNode(inode)]
            case DeleteDirEntry(parent, entry, _, _) => fs.entries - {Key(parent, Base(entry))}
            case _ => fs.entries
  {
    if op.DeleteDirEntry? {
      assert Key(op.parent, Base(op.entry)) !in fs.entries ==> fs.entries - {Key(op.parent, Base(op.entry))} == fs.entries;
    }
  }

  /** Every directory of the tree has its name there. */
  ghost predicate NoOrphans(fs: Fs) {
    forall d :: fs.InTree(d) && d != fs.root ==> exists k :: k in fs.entries && fs.entries[k] == DirNode(d)
  }

  // A directory whose name is deleted or taken by another one leaves the tree.
  lemma StepLeavesNoOrphans(fs: Fs, op: DiskOp, dumps: Dumps)
    requires Sane(fs) && NoOrphans(fs) && Step(fs, op, dumps).Some?
    ensures NoOrphans(Step(fs, op, dumps).value)
  {
    hide Sane, Step, Fs.InTree;
    var next := Step(fs, op, dumps).value;
    RootStays(fs, op, dumps);
    forall d | next.InTree(d) && d != next.root ensures exists k :: k in next.entries && next.entries[k] == DirNode(d) {
      if fs.InTree(d) {
        var k :| k in fs.entries && fs.entries[k] == DirNode(d);
        StillNamed(fs, op, d, k, dumps);
      } else {
        NewlyNamed(fs, op, d, dumps);
      }
    }
  }

  lemma RootStays(fs: Fs, op: DiskOp, dumps: Dumps)
    requires Step(fs, op, dumps).Some?
    ensures Step(fs, op, dumps).value.root == fs.root
  {
  }

  lemma StillNamed(fs: Fs, op: DiskOp, d: nat, k: Key, dumps: Dumps)
    requires Step(fs, op, dumps).Some? && k in fs.entries && fs.entries[k] == DirNode(d) && Step(fs, op, dumps).value.InTree(d)
    ensures var next := Step(fs, op, dumps).value; k in next.entries && next.entries[k] == DirNode(d)
  {
  }

  lemma NewlyNamed(fs: Fs, op: DiskOp, d: nat, dumps: Dumps)
    requires Step(fs, op, dumps).Some? && Step(fs, op, dumps).value.InTree(d) && !fs.InTree(d)
    ensures op.CreateDirEntry?
    ensures var next, k := Step(fs, op, dumps).value, Key(op.parent, Base(op.entry)); k in next.entries && next.entries[k] == DirNode(d)
  {
  }

  /** The inode cannot be opened as a file: a directory of that number is held, or its path is stale. */
  predicate HeldDirectory(fs: Fs, inode: nat) {
    inode in fs.dirs && !fs.InTree(inode)
  }

  /** The inode cannot be opened as a directory: its path is stale, or a file has its number. */
  predicate NoDirectory(fs: Fs, inode: nat) {
    if inode in fs.dirs then fs.dirs[inode] == Removed else inode in fs.files
  }

  /** A name, with what it leads to. */
  predicate NamesFile(fs: Fs, key: Key) {
    key in fs.entries && fs.entries[key].FileNode?
  }

  predicate NamesDirectory(fs: Fs, key: Key) {
    key in fs.entries && fs.entries[key].DirNode?
  }

  // When a disk op raises.
  lemma RaisesIff(fs: Fs, op: DiskOp, dumps: Dumps)
    requires Sane(fs)
    ensures Step(fs, op, dumps).None? <==>
            match op
            case CreateDirEntry(parent, entry, inode, isDir) =>
              var key := Key(parent, Base(entry));
              || NoDirectory(fs, parent)
              || (!isDir && (NamesDirectory(fs, key) || HeldDirectory(fs, inode) || (inode == parent && parent !in fs.dirs)))
              || (isDir && (fs.InTree(inode) || NoDirectory(fs, inode) || NamesFile(fs, key)))
              || (isDir && NamesDirectory(fs, key) && !fs.Empty(fs.entries[key].inode))
            case DeleteDirEntry(parent, entry, inode, isDir) =>
              var key := Key(parent, Base(entry));
              || NoDirectory(fs, parent)
              || (isDir && NamesFile(fs, key))
              || (NamesDirectory(fs, key) && !(isDir && fs.entries[key] == DirNode(inode)))
            case Truncate(inode, _, _) => HeldDirectory(fs, inode)
            case Write(inode, _, _, payload) => HeldDirectory(fs, inode) || (payload.Dump? && payload.file !in dumps)
            case Sync(_, _, _) => false
            case Output(_, _) => false
  {
  }

  // Micro ops.

  // No micro op that succeeds leaves an invalid tree, whether the trace was recorded on that tree or not.
  lemma AnyStepValid(fs: Fs, op: MicroOp, dumps: Dumps)
    requires fs.Valid() && MicroStep(fs, op, dumps).Some?
    ensures MicroStep(fs, op, dumps).value.Valid()
  {
    hide Fs.Valid;
    match op
    case Creat(name, _, inode) =>
      DirectoryIsLinked(fs, name);
      var key := Key(fs.DirOf(name).value, Base(name));
      if key !in fs.entries {
        NewFileValid(fs, key, inode);
      }
    case Unlink(name, _, _, _, _) => DropAName(fs, Key(fs.DirOf(name).value, Base(name)));
    case Link(source, dest, _, _) =>
      DirectoryIsLinked(fs, dest);
      AliasValid(fs, source, Key(fs.DirOf(dest).value, Base(dest)));
    case Rename(source, dest, _, _, _, _, _, _, _) => AnyRenameValid(fs, source, dest);
    case Trunc(name, _, _, _) => BytesStayValid(fs, name, MicroStep(fs, op, dumps).value);
    case Append(name, _, _, _, _, _) => BytesStayValid(fs, name, MicroStep(fs, op, dumps).value);
    case Overwrite(name, _, _, _, _, _) => BytesStayValid(fs, name, MicroStep(fs, op, dumps).value);
    case Mkdir(name, _, inode) =>
      DirectoryIsLinked(fs, name);
      AddADirectory(fs, Key(fs.DirOf(name).value, Base(name)), inode);
    case Rmdir(name, _, _) =>
      var key := Key(fs.DirOf(name).value, Base(name));
      DropADirectory(fs, key, fs.entries[key].inode);
    case _ =>
  }

  lemma NewFileValid(fs: Fs, key: Key, inode: nat)
    requires fs.Valid() && fs.InTree(key.dir) && fs.Fresh(inode) && key !in fs.entries
    ensures fs.(entries := fs.entries[key := FileNode(inode)], files := fs.files[inode := []]).Valid()
  {
    NameAFile(fs, key, inode, fs.files[inode := []]);
  }

  lemma AliasValid(fs: Fs, source: Path, key: Key)
    requires fs.Valid() && fs.InTree(key.dir) && fs.Resolve(source).Some? && fs.Resolve(source).value.FileNode?
    ensures fs.(entries := fs.entries[key := fs.Resolve(source).value]).Valid() || (key in fs.entries && fs.entries[key].DirNode?)
  {
    ResolveIsEntry(fs, source);
  }

  lemma BytesStayValid(fs: Fs, name: Path, next: Fs)
    requires fs.Valid() && OpenNamed(fs, name).Some? && next == SetBytes(fs, OpenNamed(fs, name).value, next.FileOf(OpenNamed(fs, name).value))
    ensures next.Valid()
  {
    NewBytesValid(fs, name, OpenNamed(fs, name).value, next.FileOf(OpenNamed(fs, name).value));
  }

  lemma AnyRenameValid(fs: Fs, source: Path, dest: Path)
    requires fs.Valid() && RenameStep(fs, source, dest).Some?
    ensures RenameStep(fs, source, dest).value.Valid()
  {
    DirectoryIsLinked(fs, source);
    DirectoryIsLinked(fs, dest);
    ResolveIsEntry(fs, source);
  }

  lemma {:induction false} AnyRunValid(fs: Fs, ops: seq<MicroOp>, dumps: Dumps)
    requires fs.Valid() && MicroReplay(fs, ops, dumps).Some?
    ensures MicroReplay(fs, ops, dumps).value.Valid()
    decreases |ops|
  {
    hide MicroStep, Fs.Valid;
    if ops != [] {
      AnyStepValid(fs, ops[0], dumps);
      AnyRunValid(MicroStep(fs, ops[0], dumps).value, ops[1..], dumps);
    }
  }

  // Ops on names change the bytes of no file, and ops on bytes no name and the bytes of one file only.
  lemma AnyStepFrame(fs: Fs, op: MicroOp, dumps: Dumps)
    requires MicroStep(fs, op, dumps).Some?
    ensures var next := MicroStep(fs, op, dumps).value;
            if op.Trunc? || op.Append? || op.Overwrite? then
              next.entries == fs.entries && next.dirs == fs.dirs && forall i: nat :: Some(i) != OpenNamed(fs, op.name) ==> next.FileOf(i) == fs.FileOf(i)
            else
              forall i: nat :: next.FileOf(i) == fs.FileOf(i)
  {
  }

  predicate IsFile(fs: Fs, p: Path) {
    fs.Resolve(p).Some? && fs.Resolve(p).value.FileNode?
  }

  predicate IsDirectory(fs: Fs, p: Path) {
    fs.Resolve(p).Some? && fs.Resolve(p).value.DirNode?
  }

  // When a micro op raises, in terms of what its paths lead to.
  lemma MicroRaisesIff(fs: Fs, op: MicroOp, dumps: Dumps)
    requires fs.Valid()
    ensures MicroStep(fs, op, dumps).None? <==>
            match op
            case Creat(name, _, inode) => fs.DirOf(name).None? || IsDirectory(fs, name) || (fs.Resolve(name).None? && !fs.Fresh(inode))
            case Unlink(name, _, _, _, _) => !IsFile(fs, name)
            case Link(source, dest, _, _) => !IsFile(fs, source) || fs.DirOf(dest).None? || fs.Resolve(dest).Some?
            case Rename(source, dest, _, _, _, _, _, _, _) => !IsFile(fs, source) || fs.DirOf(dest).None? || IsDirectory(fs, dest)
            case Trunc(name, _, _, _) => !IsFile(fs, name)
            case Append(name, _, _, _, file, _) => !IsFile(fs, name) || file !in dumps
            case Overwrite(name, _, _, _, file, _) => !IsFile(fs, name) || file !in dumps
            case Mkdir(name, _, inode) => fs.DirOf(name).None? || fs.Resolve(name).Some? || !fs.Fresh(inode)
            case Rmdir(name, _, _) => !IsDirectory(fs, name) || name == [] || !fs.Empty(fs.Resolve(name).value.inode)
            case _ => false
  {
    hide Fs.Valid;
    FilesAreThere(fs);
  }

  lemma FilesAreThere(fs: Fs)
    requires fs.Valid()
    ensures forall k :: k in fs.entries && fs.entries[k].FileNode? ==> fs.entries[k].inode in fs.files
  {
  }
}
