/** Micro ops: the trace after system calls have been decomposed, and their plain meaning. */
module MicroOps {
  import opened FileBytes
  import opened FileSystem
  import opened DiskOps

  datatype MicroOp =
    | Creat(name: Path, parent: nat, inode: nat)
    | Unlink(name: Path, parent: nat, inode: nat, hardlinks: nat, size: nat)
    | Link(source: Path, dest: Path, sourceInode: nat, destParent: nat)
    | Rename(source: Path, dest: Path, sourceInode: nat, sourceParent: nat, sourceSize: nat,
             destInode: nat, destParent: nat, destHardlinks: nat, destSize: nat)
    | Trunc(name: Path, inode: nat, initialSize: nat, finalSize: nat)
    | Append(name: Path, inode: nat, offset: nat, count: nat, dumpFile: string, dumpOffset: nat)
    | Overwrite(name: Path, inode: nat, offset: nat, count: nat, dumpFile: string, dumpOffset: nat)
    | Mkdir(name: Path, parent: nat, inode: nat)
    | Rmdir(name: Path, parent: nat, inode: nat)
    | SyncFile(name: Path, inode: nat, size: nat)
    | SyncRange(name: Path, inode: nat, offset: nat, count: nat)
    | Stdout(data: string)
    | Stderr(data: string)

  /** The file that opening a path for writing leads to. */
  function OpenNamed(fs: Fs, name: Path): Option<nat> {
    match fs.Resolve(name)
    case Some(FileNode(i)) => if i in fs.files then Some(i) else None
    case _ => None
  }

  function SetBytes(fs: Fs, inode: nat, c: Content): Fs {
    fs.(files := fs.files[inode := c])
  }

  /** What one micro op does to the tree, system call by system call; None where a call would fail.
      A new inode gets the number that the trace recorded for it. */
  function MicroStep(fs: Fs, op: MicroOp, dumps: Dumps): Option<Fs> {
    match op
    case Creat(name, _, inode) =>
      (match fs.DirOf(name)
       case None => None
       case Some(d) =>
         var key := Key(d, Base(name));
         if key in fs.entries then (if fs.entries[key].FileNode? then Some(fs) else None)
         else if !fs.Fresh(inode) then None
         else Some(fs.(entries := fs.entries[key := FileNode(inode)], files := fs.files[inode := []])))
    case Unlink(name, _, _, _, _) =>
      (match fs.DirOf(name)
       case None => None
       case Some(d) =>
         var key := Key(d, Base(name));
         if key !in fs.entries || fs.entries[key].DirNode? then None
         else Some(fs.(entries := fs.entries - {key})))
    case Link(source, dest, _, _) =>
      (match (fs.Resolve(source), fs.DirOf(dest))
       case (Some(FileNode(i)), Some(d)) =>
         var key := Key(d, Base(dest));
         if key in fs.entries then None else Some(fs.(entries := fs.entries[key := FileNode(i)]))
       case _ => None)
    case Rename(source, dest, _, _, _, _, _, _, _) => RenameStep(fs, source, dest)
    case Trunc(name, _, _, finalSize) =>
      (match OpenNamed(fs, name)
       case None => None
       case Some(i) => Some(SetBytes(fs, i, Resize(fs.FileOf(i), finalSize))))
    case Append(name, _, offset, count, file, dumpOffset) =>
      (match OpenNamed(fs, name)
       case None => None
       case Some(i) =>
         if file !in dumps then None
         else Some(SetBytes(fs, i, PWrite(Resize(fs.FileOf(i), offset + count), offset, ReadDump(dumps, file, dumpOffset, count)))))
    case Overwrite(name, _, offset, count, file, dumpOffset) =>
      (match OpenNamed(fs, name)
       case None => None
       case Some(i) =>
         if file !in dumps then None
         else Some(SetBytes(fs, i, PWrite(fs.FileOf(i), offset, ReadDump(dumps, file, dumpOffset, count)))))
    case Mkdir(name, _, inode) =>
      (match fs.DirOf(name)
       case None => None
       case Some(d) =>
         var key := Key(d, Base(name));
         if key in fs.entries || !fs.Fresh(inode) then None
         else Some(fs.(entries := fs.entries[key := DirNode(inode)], dirs := fs.dirs[inode := Linked])))
    case Rmdir(name, _, _) =>
      (match fs.DirOf(name)
       case None => None
       case Some(d) =>
         var key := Key(d, Base(name));
         if key !in fs.entries || fs.entries[key].FileNode? || !fs.Empty(fs.entries[key].inode) then None
         else Some(fs.(entries := fs.entries - {key}, dirs := fs.dirs[fs.entries[key].inode := Removed])))
    case SyncFile(_, _, _) => Some(fs)
    case SyncRange(_, _, _, _) => Some(fs)
    case Stdout(_) => Some(fs)
    case Stderr(_) => Some(fs)
  }

  /** rename of a regular file.  When both names already lead to one file, nothing happens. */
  function RenameStep(fs: Fs, source: Path, dest: Path): Option<Fs> {
    match (fs.Resolve(source), fs.DirOf(source), fs.DirOf(dest))
    case (Some(FileNode(i)), Some(from), Some(to)) =>
      var old_, new_ := Key(from, Base(source)), Key(to, Base(dest));
      if new_ in fs.entries && fs.entries[new_].DirNode? then None
      else if new_ in fs.entries && fs.entries[new_] == FileNode(i) then Some(fs)
      else Some(fs.(entries := (fs.entries - {old_})[new_ := FileNode(i)]))
    case _ => None
  }

  function MicroReplay(fs: Fs, ops: seq<MicroOp>, dumps: Dumps): Option<Fs>
    decreases |ops|
  {
    if ops == [] then Some(fs)
    else
      match MicroStep(fs, ops[0], dumps)
      case None => None
      case Some(next) => MicroReplay(next, ops[1..], dumps)
  }

  /** The recorded inodes, sizes and link counts of an op are those of the tree it is replayed on,
      new names and new inodes are new, and the dump holds the bytes that were written. */
  predicate WellFormed(fs: Fs, op: MicroOp, dumps: Dumps) {
    match op
    case Creat(name, parent, inode) =>
      fs.DirOf(name) == Some(parent) && Key(parent, Base(name)) !in fs.entries && fs.Fresh(inode)
    case Unlink(name, parent, inode, hardlinks, size) =>
      && fs.DirOf(name) == Some(parent) && fs.Resolve(name) == Some(FileNode(inode))
      && hardlinks == |fs.Names(inode)| && size == |fs.FileOf(inode)|
    case Link(source, dest, sourceInode, destParent) =>
      && fs.Resolve(source) == Some(FileNode(sourceInode))
      && fs.DirOf(dest) == Some(destParent) && Key(destParent, Base(dest)) !in fs.entries
    case Rename(source, dest, sourceInode, sourceParent, _, destInode, destParent, destHardlinks, destSize) =>
      && fs.DirOf(source) == Some(sourceParent) && fs.Resolve(source) == Some(FileNode(sourceInode))
      && fs.DirOf(dest) == Some(destParent)
      && (match fs.Resolve(dest)
          case None => destHardlinks == 0
          case Some(node) =>
            && node == FileNode(destInode)
            && destHardlinks == |fs.Names(destInode)| && destSize == |fs.FileOf(destInode)|)
    case Trunc(name, inode, initialSize, _) =>
      fs.Resolve(name) == Some(FileNode(inode)) && initialSize == |fs.FileOf(inode)|
    case Append(name, inode, offset, count, file, dumpOffset) =>
      fs.Resolve(name) == Some(FileNode(inode)) && offset == |fs.FileOf(inode)| && InDump(dumps, file, dumpOffset, count)
    case Overwrite(name, inode, _, count, file, dumpOffset) =>
      fs.Resolve(name) == Some(FileNode(inode)) && count > 0 && InDump(dumps, file, dumpOffset, count)
    case Mkdir(name, parent, inode) =>
      fs.DirOf(name) == Some(parent) && Key(parent, Base(name)) !in fs.entries && fs.Fresh(inode)
    case Rmdir(name, parent, inode) =>
      fs.DirOf(name) == Some(parent) && fs.Resolve(name) == Some(DirNode(inode)) && fs.Empty(inode)
    case _ => true
  }

  /** Every op of the trace is well formed on the tree that the ops before it make. */
  predicate WellFormedTrace(fs: Fs, ops: seq<MicroOp>, dumps: Dumps)
    decreases |ops|
  {
    ops != [] ==>
      && WellFormed(fs, ops[0], dumps)
      && match MicroStep(fs, ops[0], dumps)
         case None => false
         case Some(next) => WellFormedTrace(next, ops[1..], dumps)
  }

  lemma NameAFile(fs: Fs, key: Key, inode: nat, files: map<nat, Content>)
    requires fs.Valid() && fs.InTree(key.dir) && inode !in fs.dirs && files.Keys == fs.files.Keys + {inode}
    ensures fs.(entries := fs.entries[key := FileNode(inode)], files := files).Valid()
  {
  }

  lemma DropAName(fs: Fs, key: Key)
    requires fs.Valid()
    ensures fs.(entries := fs.entries - {key}).Valid()
  {
  }

  lemma AddADirectory(fs: Fs, key: Key, inode: nat)
    requires fs.Valid() && fs.InTree(key.dir) && fs.Fresh(inode)
    ensures fs.(entries := fs.entries[key := DirNode(inode)], dirs := fs.dirs[inode := Linked]).Valid()
  {
  }

  lemma DropADirectory(fs: Fs, key: Key, inode: nat)
    requires fs.Valid() && key in fs.entries && fs.entries[key] == DirNode(inode) && fs.Empty(inode)
    ensures fs.(entries := fs.entries - {key}, dirs := fs.dirs[inode := Removed]).Valid()
  {
  }

  // The directory a path runs through is in the tree.
  lemma DirectoryIsLinked(fs: Fs, p: Path)
    requires fs.Valid() && fs.DirOf(p).Some?
    ensures fs.InTree(fs.DirOf(p).value)
  {
    if Parent(p) != [] {
      ResolveIsEntry(fs, Parent(p));
    }
  }

  lemma RenameStepValid(fs: Fs, op: MicroOp, dumps: Dumps)
    requires fs.Valid() && op.Rename? && WellFormed(fs, op, dumps)
    ensures RenameStep(fs, op.source, op.dest).Some? && RenameStep(fs, op.source, op.dest).value.Valid()
  {
    DirectoryIsLinked(fs, op.dest);
    var source, dest := Key(op.sourceParent, Base(op.source)), Key(op.destParent, Base(op.dest));
    var without := fs.(entries := fs.entries - {source});
    DropAName(fs, source);
    NameAFile(without, dest, op.sourceInode, fs.files);
  }

  lemma NewBytesValid(fs: Fs, name: Path, inode: nat, c: Content)
    requires fs.Valid() && fs.Resolve(name) == Some(FileNode(inode))
    ensures OpenNamed(fs, name) == Some(inode) && SetBytes(fs, inode, c).Valid()
  {
    ResolveIsEntry(fs, name);
  }

  // A well-formed op never fails, and keeps the tree valid.
  lemma WellFormedStep(fs: Fs, op: MicroOp, dumps: Dumps)
    requires fs.Valid() && WellFormed(fs, op, dumps)
    ensures MicroStep(fs, op, dumps).Some? && MicroStep(fs, op, dumps).value.Valid()
  {
    match op
    case Creat(name, parent, inode) =>
      DirectoryIsLinked(fs, name);
      NameAFile(fs, Key(parent, Base(name)), inode, fs.files[inode := []]);
    case Unlink(name, parent, _, _, _) =>
      DropAName(fs, Key(parent, Base(name)));
    case Link(source, dest, inode, parent) =>
      DirectoryIsLinked(fs, dest);
      ResolveIsEntry(fs, source);
      NameAFile(fs, Key(parent, Base(dest)), inode, fs.files);
    case Rename(_, _, _, _, _, _, _, _, _) =>
      RenameStepValid(fs, op, dumps);
    case Trunc(name, inode, _, _) =>
      NewBytesValid(fs, name, inode, MicroStep(fs, op, dumps).value.FileOf(inode));
    case Append(name, inode, _, _, _, _) =>
      NewBytesValid(fs, name, inode, MicroStep(fs, op, dumps).value.FileOf(inode));
    case Overwrite(name, inode, _, _, _, _) =>
      NewBytesValid(fs, name, inode, MicroStep(fs, op, dumps).value.FileOf(inode));
    case Mkdir(name, parent, inode) =>
      DirectoryIsLinked(fs, name);
      AddADirectory(fs, Key(parent, Base(name)), inode);
    case Rmdir(name, parent, inode) =>
      DropADirectory(fs, Key(parent, Base(name)), inode);
    case _ =>
  }

  lemma {:induction false} MicroConcat(fs: Fs, a: seq<MicroOp>, b: seq<MicroOp>, dumps: Dumps)
    ensures MicroReplay(fs, a + b, dumps)
         == match MicroReplay(fs, a, dumps) case None => None case Some(mid) => MicroReplay(mid, b, dumps)
    decreases |a|
  {
    hide MicroStep;
    if a == [] {
      assert a + b == b;
    } else {
      assert (a + b)[1..] == a[1..] + b;
      match MicroStep(fs, a[0], dumps)
      case None =>
      case Some(next) => MicroConcat(next, a[1..], b, dumps);
    }
  }

  lemma {:induction false} WellFormedConcat(fs: Fs, first: seq<MicroOp>, rest: seq<MicroOp>, dumps: Dumps)
    requires WellFormedTrace(fs, first, dumps) && MicroReplay(fs, first, dumps).Some?
    requires WellFormedTrace(MicroReplay(fs, first, dumps).value, rest, dumps)
    ensures WellFormedTrace(fs, first + rest, dumps)
    decreases |first|
  {
    hide MicroStep, WellFormed;
    if first == [] {
      assert first + rest == rest;
    } else {
      assert (first + rest)[1..] == first[1..] + rest;
      WellFormedConcat(MicroStep(fs, first[0], dumps).value, first[1..], rest, dumps);
    }
  }
}
