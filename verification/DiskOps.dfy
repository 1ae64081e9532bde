/** Disk ops: what a micro op is compiled into, and the interpreter that replays them. */
module DiskOps {
  import opened FileBytes
  import opened FileSystem

  /** Where the bytes of a write come from. */
  datatype Payload = Zeros | Random | Dump(file: string, offset: nat)

  datatype DiskOp =
    | CreateDirEntry(parent: nat, entry: Path, inode: nat, isDir: bool)
    | DeleteDirEntry(parent: nat, entry: Path, inode: nat, isDir: bool)
    | Truncate(inode: nat, initialSize: nat, finalSize: nat)
    | Write(inode: nat, offset: nat, count: nat, payload: Payload)
    | Sync(inode: nat, offset: nat, count: nat)
    | Output(isError: bool, data: string)

  function Cells(bytes: seq<byte>): (c: Content)
    ensures |c| == |bytes| && forall k :: 0 <= k < |bytes| ==> c[k] == Byte(bytes[k])
  {
    seq(|bytes|, k requires 0 <= k < |bytes| => Byte(bytes[k]))
  }

  /** lseek and read: short at the end of the dump. */
  function ReadDump(dumps: Dumps, file: string, offset: nat, count: nat): Content
    requires file in dumps
  {
    Cells(dumps[file][Min(offset, |dumps[file]|)..Min(offset + count, |dumps[file]|)])
  }

  // Two reads side by side are one read.
  lemma ReadDumpSplit(dumps: Dumps, file: string, offset: nat, a: nat, b: nat)
    requires InDump(dumps, file, offset, a + b)
    ensures |ReadDump(dumps, file, offset, a)| == a
    ensures ReadDump(dumps, file, offset, a) + ReadDump(dumps, file, offset + a, b) == ReadDump(dumps, file, offset, a + b)
  {
  }

  // A read, byte by byte: as many bytes as there are, and no more than asked for.
  lemma ReadDumpAt(dumps: Dumps, file: string, offset: nat, count: nat, k: nat)
    requires file in dumps
    ensures |ReadDump(dumps, file, offset, count)| == Min(count, Max(0, |dumps[file]| - offset))
    ensures k < |ReadDump(dumps, file, offset, count)| ==>
              offset + k < |dumps[file]| && ReadDump(dumps, file, offset, count)[k] == Byte(dumps[file][offset + k])
  {
  }

  predicate InDump(dumps: Dumps, file: string, offset: nat, count: nat) {
    file in dumps && offset + count <= |dumps[file]|
  }

  function Bytes(dumps: Dumps, payload: Payload, count: nat): Option<Content> {
    match payload
    case Zeros => Some(Fill(count, ZERO))
    case Random => Some(Fill(count, Garbage))
    case Dump(file, offset) => if file in dumps then Some(ReadDump(dumps, file, offset, count)) else None
  }

  /** get_inode_directory: an unknown directory inode is created among the held ones. */
  function OpenDirectory(fs: Fs, inode: nat): Option<Fs> {
    if inode in fs.dirs then (if fs.dirs[inode] == Removed then None else Some(fs))
    else if inode in fs.files then None
    else Some(fs.(dirs := fs.dirs[inode := Held]))
  }

  /** get_inode_file: an unknown file inode is created empty. */
  function OpenFile(fs: Fs, inode: nat): Option<Fs> {
    if inode in fs.dirs && fs.dirs[inode] != Linked then None
    else Some(fs.(files := fs.files[inode := fs.FileOf(inode)]))
  }

  /** One round of the replay loop; None where the replayer would raise. */
  function Step(fs: Fs, op: DiskOp, dumps: Dumps): Option<Fs> {
    match op
    case CreateDirEntry(parent, entry, inode, isDir) =>
      var held := OpenDirectory(fs, parent);
      if held.None? then None
      else if isDir then CreateDirectory(held.value, Key(parent, Base(entry)), inode)
      else CreateLink(held.value, Key(parent, Base(entry)), inode)
    case DeleteDirEntry(parent, entry, inode, isDir) =>
      var held := OpenDirectory(fs, parent);
      if held.None? then None
      else DeleteEntry(held.value, Key(parent, Base(entry)), inode, isDir)
    case Truncate(inode, _, finalSize) =>
      var ready := OpenFile(fs, inode);
      if ready.None? then None
      else Some(ready.value.(files := ready.value.files[inode := Resize(fs.FileOf(inode), finalSize)]))
    case Write(inode, offset, count, payload) =>
      var ready, bytes := OpenFile(fs, inode), Bytes(dumps, payload, count);
      if ready.None? || bytes.None? then None
      else Some(ready.value.(files := ready.value.files[inode := PWrite(fs.FileOf(inode), offset, bytes.value)]))
    case Sync(_, _, _) => Some(fs)
    case Output(_, _) => Some(fs)
  }

  /** A file name takes the place of an older file of that name, never of a directory. */
  function CreateLink(fs: Fs, key: Key, inode: nat): Option<Fs> {
    if key in fs.entries && fs.entries[key].DirNode? then None
    else
      var ready := OpenFile(fs, inode);
      if ready.None? then None
      else Some(ready.value.(entries := fs.entries[key := FileNode(inode)]))
  }

  /** A directory gets its one name; it may take the place of an empty directory. */
  function CreateDirectory(fs: Fs, key: Key, inode: nat): Option<Fs> {
    if inode in fs.dirs && fs.dirs[inode] != Held then None
    else
      var held := OpenDirectory(fs, inode);
      if held.None? then None
      else if key !in fs.entries then
        Some(held.value.(entries := fs.entries[key := DirNode(inode)], dirs := held.value.dirs[inode := Linked]))
      else
        match fs.entries[key]
        case FileNode(_) => None
        case DirNode(prev) =>
          if !fs.Empty(prev) then None
          else Some(held.value.(entries := fs.entries[key := DirNode(inode)],
                                dirs := held.value.dirs[prev := Removed][inode := Linked]))
  }

  /** Deleting a name that is not there does nothing; deleting a directory moves it out of the tree. */
  function DeleteEntry(fs: Fs, key: Key, inode: nat, isDir: bool): Option<Fs> {
    if key !in fs.entries then Some(fs)
    else
      match fs.entries[key]
      case FileNode(_) => if isDir then None else Some(fs.(entries := fs.entries - {key}))
      case DirNode(d) =>
        if !isDir || d != inode then None
        else Some(fs.(entries := fs.entries - {key}, dirs := fs.dirs[d := Removed]))
  }

  function Replay(fs: Fs, ops: seq<DiskOp>, dumps: Dumps): Option<Fs>
    decreases |ops|
  {
    if ops == [] then Some(fs)
    else
      match Step(fs, ops[0], dumps)
      case None => None
      case Some(next) => Replay(next, ops[1..], dumps)
  }

  lemma {:induction false} ReplayConcat(fs: Fs, a: seq<DiskOp>, b: seq<DiskOp>, dumps: Dumps)
    ensures Replay(fs, a + b, dumps)
         == match Replay(fs, a, dumps) case None => None case Some(mid) => Replay(mid, b, dumps)
    decreases |a|
  {
    if a == [] {
      assert a + b == b;
    } else {
      assert (a + b)[1..] == a[1..] + b;
      match Step(fs, a[0], dumps)
      case None =>
      case Some(next) => ReplayConcat(next, a[1..], b, dumps);
    }
  }

  lemma ReplayOne(fs: Fs, op: DiskOp, dumps: Dumps)
    ensures Replay(fs, [op], dumps) == Step(fs, op, dumps)
  {
    match Step(fs, op, dumps)
    case None =>
    case Some(next) => assert Replay(next, [], dumps) == Some(next);
  }

  /** Ops that touch nothing but the bytes of one file. */
  predicate OnFile(op: DiskOp, inode: nat, dumps: Dumps) {
    match op
    case Truncate(i, _, _) => i == inode
    case Write(i, _, count, payload) => i == inode && Bytes(dumps, payload, count).Some?
    case _ => false
  }

  predicate AllOnFile(ops: seq<DiskOp>, inode: nat, dumps: Dumps) {
    forall k :: 0 <= k < |ops| ==> OnFile(ops[k], inode, dumps)
  }

  function Apply(c: Content, op: DiskOp, dumps: Dumps): Content {
    match op
    case Truncate(_, _, finalSize) => Resize(c, finalSize)
    case Write(_, offset, count, payload) =>
      (match Bytes(dumps, payload, count)
       case None => c
       case Some(data) => PWrite(c, offset, data))
    case _ => c
  }

  /** The bytes of one file after a list of ops on it. */
  function ApplyAll(c: Content, ops: seq<DiskOp>, dumps: Dumps): Content
    decreases |ops|
  {
    if ops == [] then c else ApplyAll(Apply(c, ops[0], dumps), ops[1..], dumps)
  }

  lemma ApplyOne(c: Content, op: DiskOp, dumps: Dumps)
    ensures ApplyAll(c, [op], dumps) == Apply(c, op, dumps)
  {
    assert ApplyAll(Apply(c, op, dumps), [], dumps) == Apply(c, op, dumps);
  }

  lemma {:induction false} ApplyConcat(c: Content, a: seq<DiskOp>, b: seq<DiskOp>, dumps: Dumps)
    ensures ApplyAll(c, a + b, dumps) == ApplyAll(ApplyAll(c, a, dumps), b, dumps)
    decreases |a|
  {
    if a == [] {
      assert a + b == b;
    } else {
      assert (a + b)[1..] == a[1..] + b;
      ApplyConcat(Apply(c, a[0], dumps), a[1..], b, dumps);
    }
  }

  // Ops on one file change the bytes of that file and nothing else.
  lemma {:induction false} ReplayOnFile(fs: Fs, ops: seq<DiskOp>, inode: nat, dumps: Dumps)
    requires AllOnFile(ops, inode, dumps) && inode in fs.files && inode !in fs.dirs
    ensures Replay(fs, ops, dumps) == Some(fs.(files := fs.files[inode := ApplyAll(fs.files[inode], ops, dumps)]))
    decreases |ops|
  {
    if ops == [] {
      assert fs.files[inode := fs.files[inode]] == fs.files;
    } else {
      var c := Apply(fs.files[inode], ops[0], dumps);
      var next := fs.(files := fs.files[inode := c]);
      assert Step(fs, ops[0], dumps) == Some(next) by {
        assert fs.files[inode := fs.files[inode]][inode := c] == fs.files[inode := c];
      }
      ReplayOnFile(next, ops[1..], inode, dumps);
      var last := ApplyAll(c, ops[1..], dumps);
      assert next.files[inode := last] == fs.files[inode := last];
    }
  }

  // The same when the inode has no file yet: the first op makes it.
  lemma ReplayOnInode(fs: Fs, ops: seq<DiskOp>, inode: nat, dumps: Dumps)
    requires AllOnFile(ops, inode, dumps) && ops != [] && inode !in fs.dirs
    ensures Replay(fs, ops, dumps) == Some(fs.(files := fs.files[inode := ApplyAll(fs.FileOf(inode), ops, dumps)]))
  {
    var c := Apply(fs.FileOf(inode), ops[0], dumps);
    var next := fs.(files := fs.files[inode := c]);
    assert Step(fs, ops[0], dumps) == Some(next) by {
      assert fs.files[inode := fs.FileOf(inode)][inode := c] == fs.files[inode := c];
    }
    ReplayOnFile(next, ops[1..], inode, dumps);
    var last := ApplyAll(c, ops[1..], dumps);
    assert next.files[inode := last] == fs.files[inode := last];
  }
}
