/** The replayed directory tree: an inode store and the names that lead to it. */
module FileSystem {
  import opened FileBytes

  datatype Option<+T> = None | Some(value: T)

  /** The byte dumps recorded beside a trace. */
  type Dumps = map<string, seq<byte>>

  /** A path is the list of its components, from the root of the snapshot. */
  type Path = seq<string>

  function Base(p: Path): string {
    if p == [] then "" else p[|p| - 1]
  }

  function Parent(p: Path): Path {
    if p == [] then [] else p[..|p| - 1]
  }

  datatype Node = FileNode(inode: nat) | DirNode(inode: nat)

  datatype Key = Key(dir: nat, name: string)

  /** What is known of a directory inode: kept in the `.inodes` directory, reachable by a name, or
      taken out of the tree again (its recorded path is then stale, and is not followed). */
  datatype DirState = Held | Linked | Removed

  datatype Fs = Fs(root: nat, entries: map<Key, Node>, files: map<nat, Content>, dirs: map<nat, DirState>)
  {
    function FileOf(inode: nat): Content {
      if inode in files then files[inode] else []
    }

    /** The node a path leads to. */
    function Resolve(p: Path): Option<Node>
      decreases |p|
    {
      if p == [] then Some(DirNode(root))
      else
        match DirOf(p)
        case None => None
        case Some(d) => if Key(d, Base(p)) in entries then Some(entries[Key(d, Base(p))]) else None
    }

    /** The directory that holds a path's last component. */
    function DirOf(p: Path): Option<nat>
      decreases |p|, 0
    {
      if p == [] then None
      else
        match Resolve(Parent(p))
        case Some(DirNode(d)) => Some(d)
        case _ => None
    }

    /** The names of a file: st_nlink counts them. */
    function Names(inode: nat): set<Key> {
      set k | k in entries && entries[k] == FileNode(inode)
    }

    predicate Fresh(inode: nat) {
      inode !in files && inode !in dirs
    }

    predicate Empty(dir: nat) {
      forall k :: k in entries ==> k.dir != dir
    }

    predicate InTree(dir: nat) {
      dir in dirs && dirs[dir] == Linked
    }

    predicate Exists(node: Node) {
      match node
      case FileNode(i) => i in files
      case DirNode(i) => i != root && InTree(i)
    }

    /** Names lead only to inodes that exist, a directory has at most one name, and only
        directories that are in the tree hold names. */
    ghost predicate Valid() {
      && InTree(root)
      && files.Keys !! dirs.Keys
      && (forall k :: k in entries ==> InTree(k.dir) && Exists(entries[k]))
      && (forall j, k :: j in entries && k in entries && entries[j].DirNode? && entries[j] == entries[k] ==> j == k)
    }
  }

  /** What a path shows to someone who walks the tree: `diff -ar` compares exactly this. */
  datatype View = Missing | Directory | File(content: Content)

  function Look(fs: Fs, p: Path): View {
    match fs.Resolve(p)
    case None => Missing
    case Some(DirNode(_)) => Directory
    case Some(FileNode(i)) => File(fs.FileOf(i))
  }

  ghost predicate SameTree(a: Fs, b: Fs) {
    forall p: Path :: Look(a, p) == Look(b, p)
  }

  /** The same names lead to the same inodes, and every file that has a name has the same bytes.
      The contents of files without a name may differ. */
  ghost predicate Agree(a: Fs, b: Fs) {
    && a.root == b.root && a.entries == b.entries && a.dirs == b.dirs
    && a.files.Keys == b.files.Keys
    && forall k :: k in a.entries && a.entries[k].FileNode? ==> a.FileOf(a.entries[k].inode) == b.FileOf(a.entries[k].inode)
  }

  lemma {:induction false} ResolveAgrees(a: Fs, b: Fs, p: Path)
    requires a.root == b.root && a.entries == b.entries
    ensures a.Resolve(p) == b.Resolve(p) && a.DirOf(p) == b.DirOf(p)
    decreases |p|
  {
    if p != [] {
      ResolveAgrees(a, b, Parent(p));
    }
  }

  lemma ResolveIsEntry(fs: Fs, p: Path)
    requires fs.Resolve(p).Some? && p != []
    ensures fs.DirOf(p).Some? && Key(fs.DirOf(p).value, Base(p)) in fs.entries
    ensures fs.Resolve(p).value == fs.entries[Key(fs.DirOf(p).value, Base(p))]
  {
  }

  lemma AgreeIsSameTree(a: Fs, b: Fs)
    requires Agree(a, b)
    ensures SameTree(a, b)
  {
    forall p: Path ensures Look(a, p) == Look(b, p) {
      ResolveAgrees(a, b, p);
    }
  }

  // A file with one name has no other.
  lemma OnlyName(fs: Fs, inode: nat, k: Key, other: Key)
    requires |fs.Names(inode)| == 1
    requires k in fs.Names(inode) && other in fs.Names(inode)
    ensures k == other
  {
    var rest := fs.Names(inode) - {k};
    assert |rest| == 0;
    assert other in rest || other == k;
  }
}
