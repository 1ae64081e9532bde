/** Replays of rows from which the op that made a directory was left out: the replayer holds the directory
    outside of the tree, and names are made in it all the same. */
module OmittedDirectories {
  import opened FileSystem
  import opened DiskOps
  import opened ReplayInvariants
  import opened Omissions

  /** The trees differ in the one name of a directory only; the other tree may hold the directory. */
  ghost predicate ButOneDirectory(full: Fs, part: Fs, key: Key, d: nat) {
    && full.root == part.root != d && full.files == part.files && d !in part.files && key.dir in part.dirs
    && full.dirs == part.dirs[d := Linked] && (d in part.dirs ==> part.dirs[d] == Held)
    && full.entries == part.entries[key := DirNode(d)] && key !in part.entries
    && forall k :: k in part.entries ==> part.entries[k] != DirNode(d)
  }

  /** Ops on bytes and on names of files, inside the directory or anywhere else, but not on its own name. */
  predicate OnFiles(op: DiskOp, key: Key, d: nat) {
    match op
    case CreateDirEntry(parent, entry, i, isDir) => !isDir && Key(parent, Base(entry)) != key && i != d
    case DeleteDirEntry(parent, entry, _, isDir) => !isDir && Key(parent, Base(entry)) != key
    case Truncate(i, _, _) => i != d
    case Write(i, _, _, _) => i != d
    case _ => true
  }

  lemma OpenButOneDirectory(full: Fs, part: Fs, key: Key, d: nat, dir: nat)
    requires ButOneDirectory(full, part, key, d)
    ensures OpenDirectory(full, dir).Some? <==> OpenDirectory(part, dir).Some?
    ensures OpenDirectory(full, dir).Some? ==> ButOneDirectory(OpenDirectory(full, dir).value, OpenDirectory(part, dir).value, key, d)
  {
  }

  lemma LinkButOneDirectory(full: Fs, part: Fs, key: Key, d: nat, k: Key, i: nat)
    requires ButOneDirectory(full, part, key, d) && k != key && i != d
    ensures CreateLink(full, k, i).Some? <==> CreateLink(part, k, i).Some?
    ensures CreateLink(full, k, i).Some? ==> ButOneDirectory(CreateLink(full, k, i).value, CreateLink(part, k, i).value, key, d)
  {
  }

  lemma DeleteButOneDirectory(full: Fs, part: Fs, key: Key, d: nat, k: Key, i: nat)
    requires ButOneDirectory(full, part, key, d) && k != key
    ensures DeleteEntry(full, k, i, false).Some? <==> DeleteEntry(part, k, i, false).Some?
    ensures DeleteEntry(full, k, i, false).Some? ==>
              ButOneDirectory(DeleteEntry(full, k, i, false).value, DeleteEntry(part, k, i, false).value, key, d)
  {
  }

  lemma StepSameFiles(full: Fs, part: Fs, op: DiskOp, dumps: Dumps)
    requires full.files == part.files && !op.CreateDirEntry? && !op.DeleteDirEntry?
    ensures Step(full, op, dumps).Some? && Step(part, op, dumps).Some? ==> Step(full, op, dumps).value.files == Step(part, op, dumps).value.files
  {
  }

  lemma StepButOneDirectory(full: Fs, part: Fs, op: DiskOp, key: Key, d: nat, dumps: Dumps)
    requires ButOneDirectory(full, part, key, d) && OnFiles(op, key, d)
    ensures Step(full, op, dumps).Some? <==> Step(part, op, dumps).Some?
    ensures Step(full, op, dumps).Some? ==> ButOneDirectory(Step(full, op, dumps).value, Step(part, op, dumps).value, key, d)
  {
    hide Step, CreateLink, CreateDirectory, DeleteEntry, OpenDirectory;
    if op.CreateDirEntry? {
      LinkStep(full, op, dumps);
      LinkStep(part, op, dumps);
      OpenButOneDirectory(full, part, key, d, op.parent);
      if OpenDirectory(full, op.parent).Some? {
        LinkButOneDirectory(OpenDirectory(full, op.parent).value, OpenDirectory(part, op.parent).value, key, d, Key(op.parent, Base(op.entry)), op.inode);
      }
    } else if op.DeleteDirEntry? {
      DeleteStep(full, op, dumps);
      DeleteStep(part, op, dumps);
      OpenButOneDirectory(full, part, key, d, op.parent);
      if OpenDirectory(full, op.parent).Some? {
        DeleteButOneDirectory(OpenDirectory(full, op.parent).value, OpenDirectory(part, op.parent).value, key, d, Key(op.parent, Base(op.entry)), op.inode);
      }
    } else {
      BytesStep(full, op, dumps);
      BytesStep(part, op, dumps);
      StepSameFiles(full, part, op, dumps);
    }
  }

  lemma {:induction false} ReplayButOneDirectory(full: Fs, part: Fs, ops: seq<DiskOp>, key: Key, d: nat, dumps: Dumps)
    requires ButOneDirectory(full, part, key, d) && forall op :: op in ops ==> OnFiles(op, key, d)
    ensures Replay(full, ops, dumps).Some? <==> Replay(part, ops, dumps).Some?
    ensures Replay(full, ops, dumps).Some? ==> ButOneDirectory(Replay(full, ops, dumps).value, Replay(part, ops, dumps).value, key, d)
    decreases |ops|
  {
    hide Step, ButOneDirectory, OnFiles;
    if ops != [] {
      StepButOneDirectory(full, part, ops[0], key, d, dumps);
      if Step(full, ops[0], dumps).Some? {
        ReplayButOneDirectory(Step(full, ops[0], dumps).value, Step(part, ops[0], dumps).value, ops[1..], key, d, dumps);
      }
    }
  }

  /** The path is this name or goes through it. */
  predicate Through(fs: Fs, p: Path, key: Key)
    decreases |p|
  {
    p != [] && (Through(fs, Parent(p), key) || (fs.DirOf(p) == Some(key.dir) && Base(p) == key.name))
  }

  lemma {:induction false} OtherPaths(full: Fs, part: Fs, key: Key, d: nat, p: Path)
    requires ButOneDirectory(full, part, key, d)
    ensures part.Resolve(p) == if Through(full, p, key) then None else full.Resolve(p)
    ensures part.DirOf(p) == if p != [] && Through(full, Parent(p), key) then None else full.DirOf(p)
    decreases |p|
  {
    if p != [] {
      OtherPaths(full, part, key, d, Parent(p));
    }
  }

  // Main result for a directory: with its mkdir left out, a replay of ops on files raises exactly when the
  // full one does, names made inside the directory included, and everything that does not lie in the directory
  // is as in the full replay; so a file that was made in it and moved out is there, with its bytes.
  lemma OmittedMkdir(fs: Fs, name: Path, parent: nat, d: nat, ops: seq<DiskOp>, dumps: Dumps)
    requires Sane(fs) && fs.root in fs.dirs && fs.InTree(parent) && fs.Fresh(d) && Key(parent, Base(name)) !in fs.entries
    requires forall op :: op in ops ==> OnFiles(op, Key(parent, Base(name)), d)
    ensures var full, part := Replay(fs, [CreateDirEntry(parent, name, d, true)] + ops, dumps), Replay(fs, ops, dumps);
            && (full.Some? <==> part.Some?)
            && (full.Some? ==> forall p: Path ::
                  Look(part.value, p) == if Through(full.value, p, Key(parent, Base(name))) then Missing else Look(full.value, p))
  {
    hide Replay, Step, ButOneDirectory, OnFiles;
    var key, make := Key(parent, Base(name)), CreateDirEntry(parent, name, d, true);
    var made := fs.(entries := fs.entries[key := DirNode(d)], dirs := fs.dirs[d := Linked]);
    MadeDirectory(fs, name, parent, d, dumps);
    ReplayConcat(fs, [make], ops, dumps);
    ReplayOne(fs, make, dumps);
    ReplayButOneDirectory(made, fs, ops, key, d, dumps);
    if Replay(fs, ops, dumps).Some? {
      var full, part := Replay(made, ops, dumps).value, Replay(fs, ops, dumps).value;
      forall p: Path ensures Look(part, p) == if Through(full, p, key) then Missing else Look(full, p) {
        OtherPaths(full, part, key, d, p);
        SameStore(full, part, key, d);
      }
    }
  }

  lemma SameStore(full: Fs, part: Fs, key: Key, d: nat)
    requires ButOneDirectory(full, part, key, d)
    ensures full.files == part.files
  {
  }

  lemma MadeDirectory(fs: Fs, name: Path, parent: nat, d: nat, dumps: Dumps)
    requires Sane(fs) && fs.root in fs.dirs && fs.InTree(parent) && fs.Fresh(d) && Key(parent, Base(name)) !in fs.entries
    ensures var made := fs.(entries := fs.entries[Key(parent, Base(name)) := DirNode(d)], dirs := fs.dirs[d := Linked]);
            && Step(fs, CreateDirEntry(parent, name, d, true), dumps) == Some(made)
            && ButOneDirectory(made, fs, Key(parent, Base(name)), d)
  {
    assert fs.dirs[d := Held][d := Linked] == fs.dirs[d := Linked];
  }
}
