/** From writes to mapped memory to the bytes of files: what the recorded writes, resolved against the
    region table and replayed as micro ops, leave behind. */
module MappedFiles {
  import opened FileBytes
  import opened FileSystem
  import opened DiskOps
  import opened MicroOps
  import opened Compiler
  import opened Agreement
  import opened MemoryRegions
  import opened Coalescer

  /** The region that an address belongs to. */
  ghost function RegionOf(m: Regions, x: nat): Option<nat> {
    if k :| k in m && m[k].Has(x) then Some(k) else None
  }

  function SetByte(fs: Fs, inode: nat, at: nat, value: byte): Fs {
    SetBytes(fs, inode, PWrite(fs.FileOf(inode), at, [Byte(value)]))
  }

  /** What a write op does with one stored byte: it goes to the place that the address stands for, and the
      file grows when the place lies behind its end. */
  ghost function StoreByte(m: Regions, fs: Fs, b: ByteStore): Fs
    requires Disjoint(m)
  {
    match RegionOf(m, b.addr)
    case None => fs
    case Some(k) => SetByte(fs, m[k].inode, m[k].offset + (b.addr - m[k].start), b.value)
  }

  /** Bytes written one after another. */
  ghost function StoreThrough(m: Regions, fs: Fs, s: seq<ByteStore>): Fs
    requires Disjoint(m)
    decreases |s|
  {
    if s == [] then fs else StoreThrough(m, StoreByte(m, fs, s[0]), s[1..])
  }

  /** The address stands for a place at or behind the end of its file. */
  ghost predicate Behind(m: Regions, fs: Fs, b: ByteStore)
    requires Disjoint(m)
  {
    match RegionOf(m, b.addr)
    case None => false
    case Some(k) => m[k].offset + (b.addr - m[k].start) >= |fs.FileOf(m[k].inode)|
  }

  /** What POSIX mmap says of the store of one byte to shared memory: bytes behind the end of the file never
      reach it. */
  ghost function PosixStore(m: Regions, fs: Fs, b: ByteStore): Fs
    requires Disjoint(m)
  {
    if Behind(m, fs, b) then fs else StoreByte(m, fs, b)
  }

  /** Stores one after another, as the process makes them. */
  ghost function PosixThrough(m: Regions, fs: Fs, s: seq<ByteStore>): Fs
    requires Disjoint(m)
    decreases |s|
  {
    if s == [] then fs else PosixThrough(m, PosixStore(m, fs, s[0]), s[1..])
  }

  /** No store lies behind the end of its file. */
  ghost predicate AllInside(m: Regions, fs: Fs, s: seq<ByteStore>)
    requires Disjoint(m)
  {
    forall i :: 0 <= i < |s| ==> !Behind(m, fs, s[i])
  }

  ghost predicate SameSizes(a: Fs, b: Fs) {
    forall inode: nat :: |a.FileOf(inode)| == |b.FileOf(inode)|
  }

  // Stores as the process makes them leave every size as it is.
  lemma StoreKeepsSizes(m: Regions, fs: Fs, b: ByteStore)
    requires Disjoint(m)
    ensures SameSizes(PosixStore(m, fs, b), fs)
    ensures !Behind(m, fs, b) ==> SameSizes(StoreByte(m, fs, b), fs)
  {
    hide RegionOf, Disjoint, PWrite;
    var r := RegionOf(m, b.addr);
    if r.Some? && !Behind(m, fs, b) {
      PlaceIsThere(m, b.addr);
      PWriteAt(fs.FileOf(m[r.value].inode), m[r.value].offset + (b.addr - m[r.value].start), [Byte(b.value)], 0);
    }
  }

  lemma {:induction false} SizesStay(m: Regions, fs: Fs, s: seq<ByteStore>)
    requires Disjoint(m)
    ensures SameSizes(PosixThrough(m, fs, s), fs)
    decreases |s|
  {
    hide Disjoint, PosixStore;
    if s != [] {
      StoreKeepsSizes(m, fs, s[0]);
      SizesStay(m, PosixStore(m, fs, s[0]), s[1..]);
    }
  }

  // Written bytes never make a file smaller, and the one behind the end makes it larger.
  lemma {:induction false} SizesGrow(m: Regions, fs: Fs, s: seq<ByteStore>, inode: nat)
    requires Disjoint(m)
    ensures |StoreThrough(m, fs, s).FileOf(inode)| >= |fs.FileOf(inode)|
    decreases |s|
  {
    hide Disjoint, StoreByte;
    if s != [] {
      OneGrows(m, fs, s[0], inode);
      SizesGrow(m, StoreByte(m, fs, s[0]), s[1..], inode);
    }
  }

  lemma OneGrows(m: Regions, fs: Fs, b: ByteStore, inode: nat)
    requires Disjoint(m)
    ensures |StoreByte(m, fs, b).FileOf(inode)| >= |fs.FileOf(inode)|
    ensures var r := RegionOf(m, b.addr);
            r.Some? && m[r.value].inode == inode ==>
              |StoreByte(m, fs, b).FileOf(inode)| > m[r.value].offset + (b.addr - m[r.value].start)
  {
    hide RegionOf, Disjoint, PWrite;
    var r := RegionOf(m, b.addr);
    if r.Some? {
      PlaceIsThere(m, b.addr);
      PWriteAt(fs.FileOf(m[r.value].inode), m[r.value].offset + (b.addr - m[r.value].start), [Byte(b.value)], 0);
    }
  }

  lemma BehindStays(m: Regions, a: Fs, b: Fs, s: seq<ByteStore>)
    requires Disjoint(m) && SameSizes(a, b)
    ensures AllInside(m, a, s) <==> AllInside(m, b, s)
  {
    hide RegionOf, Disjoint;
    assert forall x :: Behind(m, a, x) <==> Behind(m, b, x);
  }

  lemma {:induction false} InsideIsPosix(m: Regions, fs: Fs, s: seq<ByteStore>)
    requires Disjoint(m) && AllInside(m, fs, s)
    ensures StoreThrough(m, fs, s) == PosixThrough(m, fs, s)
    decreases |s|
  {
    hide Disjoint, StoreByte, Behind;
    if s != [] {
      StoreKeepsSizes(m, fs, s[0]);
      BehindStays(m, StoreByte(m, fs, s[0]), fs, s[1..]);
      InsideIsPosix(m, StoreByte(m, fs, s[0]), s[1..]);
    }
  }

  // Written bytes are the stores of the process exactly when none of them lies behind the end of its file.
  lemma StoresArePosixIff(m: Regions, fs: Fs, s: seq<ByteStore>)
    requires Disjoint(m)
    ensures StoreThrough(m, fs, s) == PosixThrough(m, fs, s) <==> AllInside(m, fs, s)
  {
    hide Disjoint, StoreThrough, PosixThrough, StoreByte, RegionOf, Behind;
    if AllInside(m, fs, s) {
      InsideIsPosix(m, fs, s);
    } else {
      var i :| 0 <= i < |s| && Behind(m, fs, s[i]);
      var inode := BehindGrows(m, fs, s, i);
      SizesStay(m, fs, s);
    }
  }

  lemma BehindGrows(m: Regions, fs: Fs, s: seq<ByteStore>, i: nat) returns (inode: nat)
    requires Disjoint(m) && i < |s| && Behind(m, fs, s[i])
    ensures |StoreThrough(m, fs, s).FileOf(inode)| > |fs.FileOf(inode)|
  {
    hide Disjoint, StoreThrough, StoreByte, RegionOf;
    PlaceIsThere(m, s[i].addr);
    inode := m[RegionOf(m, s[i].addr).value].inode;
    var front := StoreThrough(m, fs, s[..i]);
    assert s == s[..i] + ([s[i]] + s[i + 1..]);
    StoreConcat(m, fs, s[..i], [s[i]] + s[i + 1..]);
    StoreConcat(m, front, [s[i]], s[i + 1..]);
    StoreOne(m, front, s[i]);
    OneGrows(m, front, s[i], inode);
    SizesGrow(m, StoreByte(m, front, s[i]), s[i + 1..], inode);
  }

  lemma StoreOne(m: Regions, fs: Fs, b: ByteStore)
    requires Disjoint(m)
    ensures StoreThrough(m, fs, [b]) == StoreByte(m, fs, b)
  {
    assert [b][1..] == [];
  }

  lemma PlaceIsThere(m: Regions, x: nat)
    requires Disjoint(m) && RegionOf(m, x).Some?
    ensures var k := RegionOf(m, x).value; k in m && m[k].Has(x) && m[k].offset + (x - m[k].start) >= 0
  {
  }

  // A mapping may run past the end of its file, and a byte stored there grows the replayed file: one byte of
  // a page is backed by the file, the sixth byte of the page is stored, and six bytes are there in the end.
  lemma StoreBehindTheEnd(fs: Fs)
    requires fs.FileOf(2) == [ZERO]
    ensures var m: Regions := map[4096 := Region(4096, 8191, ["f"], 2, 0)];
            var s := [ByteStore(4101, 65)];
            && Disjoint(m) && !AllInside(m, fs, s)
            && StoreThrough(m, fs, s).FileOf(2) == [ZERO, ZERO, ZERO, ZERO, ZERO, Byte(65)]
            && PosixThrough(m, fs, s).FileOf(2) == [ZERO]
  {
    var m: Regions := map[4096 := Region(4096, 8191, ["f"], 2, 0)];
    var s := [ByteStore(4101, 65)];
    RegionIs(m, 4101, 4096);
    StoreOne(m, fs, s[0]);
    assert Behind(m, fs, s[0]) && s[1..] == [];
    assert PosixThrough(m, fs, s) == PosixThrough(m, fs, []);
  }

  /** The names of all mapped files lead to the files that were mapped. */
  ghost predicate Mappable(fs: Fs, m: Regions) {
    fs.Valid() && forall k :: k in m ==> fs.Resolve(m[k].name) == Some(FileNode(m[k].inode))
  }

  lemma {:induction false} StoreConcat(m: Regions, fs: Fs, a: seq<ByteStore>, b: seq<ByteStore>)
    requires Disjoint(m)
    ensures StoreThrough(m, fs, a + b) == StoreThrough(m, StoreThrough(m, fs, a), b)
    decreases |a|
  {
    hide StoreByte, Disjoint;
    if a == [] {
      assert a + b == b;
    } else {
      assert (a + b)[1..] == a[1..] + b;
      StoreConcat(m, StoreByte(m, fs, a[0]), a[1..], b);
    }
  }

  // An address belongs to one region at most.
  lemma RegionIs(m: Regions, x: nat, k: nat)
    requires Disjoint(m) && k in m && m[k].Has(x)
    ensures RegionOf(m, x) == Some(k)
  {
    assert forall j :: j in m && m[j].Has(x) ==> j == k;
  }

  lemma StoresFirst(addr: nat, bytes: seq<byte>)
    requires bytes != []
    ensures Stores(addr, bytes)[0] == ByteStore(addr, bytes[0]) && Stores(addr, bytes)[1..] == Stores(addr + 1, bytes[1..])
  {
  }

  // Stores to addresses that are not mapped reach no file.
  lemma {:induction false} StoreNowhere(m: Regions, fs: Fs, addr: nat, bytes: seq<byte>)
    requires Disjoint(m) && forall x :: addr <= x < addr + |bytes| ==> RegionOf(m, x) == None
    ensures StoreThrough(m, fs, Stores(addr, bytes)) == fs
    decreases |bytes|
  {
    hide RegionOf, Disjoint;
    if bytes != [] {
      StoresFirst(addr, bytes);
      StoreNowhere(m, fs, addr + 1, bytes[1..]);
    }
  }

  ghost predicate StandsFor(m: Regions, f: Target, at: nat, addr: nat, x: nat) {
    Maps(m, x, f, at + (x - addr))
  }

  /** The n addresses from `addr` on stand for the n places from `at` on of one file. */
  ghost predicate Straight(m: Regions, f: Target, at: nat, addr: nat, n: nat) {
    forall x: nat :: addr <= x < addr + n ==> StandsFor(m, f, at, addr, x)
  }

  // Stores to addresses that stand for places side by side in one file are one write to that file.
  lemma {:induction false} StoreInside(m: Regions, fs: Fs, f: Target, at: nat, addr: nat, bytes: seq<byte>)
    requires Disjoint(m) && f.inode in fs.files
    requires Straight(m, f, at, addr, |bytes|)
    ensures StoreThrough(m, fs, Stores(addr, bytes)) == SetBytes(fs, f.inode, PWrite(fs.FileOf(f.inode), at, Cells(bytes)))
    decreases |bytes|
  {
    hide RegionOf, PWrite, Disjoint;
    if bytes == [] {
      PWriteEmpty(fs.FileOf(f.inode), at);
      assert fs.files[f.inode := fs.files[f.inode]] == fs.files;
      assert Cells([]) == [];
    } else {
      assert StandsFor(m, f, at, addr, addr);
      StraightRest(m, f, at, addr, |bytes|);
      var k :| k in m && m[k].Maps(addr, f, at);
      RegionIs(m, addr, k);
      StoresFirst(addr, bytes);
      var next := SetByte(fs, f.inode, at, bytes[0]);
      StoreInside(m, next, f, at + 1, addr + 1, bytes[1..]);
      PWriteSplit(fs.FileOf(f.inode), at, [Byte(bytes[0])], Cells(bytes[1..]));
      assert [Byte(bytes[0])] + Cells(bytes[1..]) == Cells(bytes);
      var last := PWrite(next.FileOf(f.inode), at + 1, Cells(bytes[1..]));
      assert next.files[f.inode := last] == fs.files[f.inode := last];
    }
  }

  lemma StraightRest(m: Regions, f: Target, at: nat, addr: nat, n: nat)
    requires Straight(m, f, at, addr, n) && n > 0
    ensures Straight(m, f, at + 1, addr + 1, n - 1)
  {
    var at', addr' := at + 1, addr + 1;
    forall x: nat | addr' <= x < addr + n ensures StandsFor(m, f, at', addr', x) {
      assert StandsFor(m, f, at, addr, x);
    }
  }

  lemma PWriteEmpty(c: Content, at: nat)
    ensures PWrite(c, at, []) == c
  {
  }

  // The write op of a resolved piece, replayed, is the stores to its addresses.
  lemma PieceIsStores(m: Regions, fs: Fs, p: Region, a: nat, bytes: seq<byte>, file: string, off: nat, dumps: Dumps)
    requires Disjoint(m) && Mappable(fs, m) && a <= p.start <= p.end < a + |bytes| && p.offset >= 0
    requires Straight(m, p.Backing(), p.offset, p.start, p.end + 1 - p.start)
    requires InDump(dumps, file, off, |bytes|) && ReadDump(dumps, file, off, |bytes|) == Cells(bytes)
    ensures var next := StoreThrough(m, fs, Stores(p.start, bytes[p.start - a..p.end + 1 - a]));
            && WellFormed(fs, WriteOfPiece(p, a, file, off), dumps)
            && MicroStep(fs, WriteOfPiece(p, a, file, off), dumps) == Some(next) && Mappable(next, m)
  {
    hide PWrite, ReadDump, StoreThrough, Stores, Disjoint, Fs.Valid;
    var d, at := bytes[p.start - a..p.end + 1 - a], p.start - a;
    assert StandsFor(m, p.Backing(), p.offset, p.start, p.start);
    MappedName(m, fs, p);
    StoreInside(m, fs, p.Backing(), p.offset, p.start, d);
    PartOfDump(dumps, file, off, bytes, at, |d|);
    var c := PWrite(fs.FileOf(p.inode), p.offset, Cells(d));
    NewBytesValid(fs, p.name, p.inode, c);
    forall j | j in m ensures SetBytes(fs, p.inode, c).Resolve(m[j].name) == Some(FileNode(m[j].inode)) {
      ResolveAgrees(fs, SetBytes(fs, p.inode, c), m[j].name);
    }
  }

  lemma MappedName(m: Regions, fs: Fs, p: Region)
    requires Mappable(fs, m) && p.start <= p.end && Maps(m, p.start, p.Backing(), p.offset)
    ensures fs.Resolve(p.name) == Some(FileNode(p.inode)) && p.inode in fs.files
  {
    var k :| k in m && m[k].Maps(p.start, p.Backing(), p.offset);
    FileIsThere(fs, p.name, p.inode);
  }

  lemma FileIsThere(fs: Fs, name: Path, inode: nat)
    requires fs.Valid() && fs.Resolve(name) == Some(FileNode(inode))
    ensures inode in fs.files
  {
    ResolveIsEntry(fs, name);
  }

  lemma PartOfDump(dumps: Dumps, file: string, off: nat, bytes: seq<byte>, at: nat, n: nat)
    requires InDump(dumps, file, off, |bytes|) && ReadDump(dumps, file, off, |bytes|) == Cells(bytes) && at + n <= |bytes|
    ensures InDump(dumps, file, off + at, n) && ReadDump(dumps, file, off + at, n) == Cells(bytes[at..at + n])
  {
    hide ReadDump;
    ReadDumpSplit(dumps, file, off, at, |bytes| - at);
    ReadDumpSplit(dumps, file, off + at, n, |bytes| - at - n);
    var front, part := ReadDump(dumps, file, off, at), ReadDump(dumps, file, off + at, n);
    assert Cells(bytes) == front + (part + ReadDump(dumps, file, off + at + n, |bytes| - at - n));
    assert part == Cells(bytes)[at..at + n] == Cells(bytes[at..at + n]);
  }

  // The first resolved piece begins where the first mapped address is, and the other pieces resolve what
  // comes behind it.
  lemma FirstPiece(m: Regions, a: nat, b: int, s: seq<Region>)
    requires Disjoint(m) && Resolved(m, a, b, s) && s != []
    ensures a <= s[0].start <= s[0].end <= b && s[0].offset >= 0
    ensures Straight(m, s[0].Backing(), s[0].offset, s[0].start, s[0].end + 1 - s[0].start)
    ensures forall x :: a <= x < s[0].start ==> RegionOf(m, x) == None
    ensures Resolved(m, s[0].end + 1, b, s[1..])
  {
    hide RegionOf, Disjoint, Maps;
    var p := s[0];
    forall x: nat | p.start <= x < p.end + 1 ensures StandsFor(m, p.Backing(), p.offset, p.start, x) {
      assert s[0].Maps(x, p.Backing(), p.offset + (x - p.start));
      assert SomeMaps(s, x, p.Backing(), p.offset + (x - p.start));
    }
    forall x | a <= x < p.start ensures RegionOf(m, x) == None {
      NotMapped(m, a, b, s, x);
    }
    forall x: nat, f: Target, at: int
      ensures SomeMaps(s[1..], x, f, at) <==> p.end + 1 <= x <= b && Maps(m, x, f, at)
    {
      RestMaps(m, a, b, s, x, f, at);
    }
  }

  lemma NotMapped(m: Regions, a: nat, b: int, s: seq<Region>, x: nat)
    requires Disjoint(m) && Resolved(m, a, b, s) && a <= x <= b && forall i :: 0 <= i < |s| ==> !s[i].Has(x)
    ensures RegionOf(m, x) == None
  {
    if k :| k in m && m[k].Has(x) {
      assert m[k].Maps(x, m[k].Backing(), m[k].offset + (x - m[k].start));
      assert Maps(m, x, m[k].Backing(), m[k].offset + (x - m[k].start));
    }
  }

  lemma RestMaps(m: Regions, a: nat, b: int, s: seq<Region>, x: nat, f: Target, at: int)
    requires Disjoint(m) && Resolved(m, a, b, s) && s != []
    ensures SomeMaps(s[1..], x, f, at) <==> s[0].end + 1 <= x <= b && Maps(m, x, f, at)
  {
    if SomeMaps(s[1..], x, f, at) {
      var i :| 0 <= i < |s[1..]| && s[1..][i].Maps(x, f, at);
      assert s[i + 1].Maps(x, f, at);
      assert SomeMaps(s, x, f, at);
    }
    if s[0].end + 1 <= x <= b && Maps(m, x, f, at) {
      assert SomeMaps(s, x, f, at);
      var i :| 0 <= i < |s| && s[i].Maps(x, f, at);
      assert s[1..][i - 1].Maps(x, f, at);
    }
  }

  /** The ops could have been recorded on this tree, and their replay writes these bytes one after another. */
  ghost predicate GoesThrough(m: Regions, fs: Fs, ops: seq<MicroOp>, s: seq<ByteStore>, dumps: Dumps)
    requires Disjoint(m)
  {
    && WellFormedTrace(fs, ops, dumps)
    && MicroReplay(fs, ops, dumps) == Some(StoreThrough(m, fs, s))
    && Mappable(StoreThrough(m, fs, s), m)
  }

  // The write ops of a write to memory, replayed, write its bytes one after another.
  lemma {:induction false} WritesGoThrough(m: Regions, fs: Fs, ops: seq<MicroOp>, pieces: seq<Region>, a: nat, bytes: seq<byte>,
                                           file: string, off: nat, dumps: Dumps)
    requires Disjoint(m) && Mappable(fs, m) && Resolved(m, a, a + |bytes| - 1, pieces) && AreWrites(ops, pieces, a, file, off)
    requires InDump(dumps, file, off, |bytes|) && ReadDump(dumps, file, off, |bytes|) == Cells(bytes)
    ensures GoesThrough(m, fs, ops, Stores(a, bytes), dumps)
    decreases |pieces|
  {
    hide Disjoint, Mappable, Maps, SomeMaps, RegionOf, ReadDump, MicroStep, WellFormed, StoreThrough, Straight, Stores, WriteOfPiece;
    if pieces == [] {
      forall x | a <= x < a + |bytes| ensures RegionOf(m, x) == None {
        NotMapped(m, a, a + |bytes| - 1, pieces, x);
      }
      StoreNowhere(m, fs, a, bytes);
    } else {
      var p, n := pieces[0], pieces[0].end + 1 - a;
      var gap, d, rest := bytes[..p.start - a], bytes[p.start - a..n], bytes[n..];
      FirstPiece(m, a, a + |bytes| - 1, pieces);
      StoreNowhere(m, fs, a, gap);
      PieceIsStores(m, fs, p, a, bytes, file, off, dumps);
      var next := StoreThrough(m, fs, Stores(p.start, d));
      PartOfDump(dumps, file, off, bytes, n, |rest|);
      RestWrites(ops, pieces, a, p.end + 1, file, off);
      WritesGoThrough(m, next, ops[1..], pieces[1..], p.end + 1, rest, file, off + n, dumps);
      assert bytes == gap + d + rest;
      StoresJoin(a, gap, d);
      StoresJoin(a, gap + d, rest);
      StoreConcat(m, fs, Stores(a, gap), Stores(p.start, d));
      StoreConcat(m, fs, Stores(a, gap + d), Stores(p.end + 1, rest));
    }
  }

  // Main result for one write to memory: its ops are well formed, and they leave what the process leaves
  // if and only if no byte lies behind the end of its file.
  lemma WritesAreStores(m: Regions, fs: Fs, ops: seq<MicroOp>, pieces: seq<Region>, a: nat, bytes: seq<byte>,
                        file: string, off: nat, dumps: Dumps)
    requires Disjoint(m) && Mappable(fs, m) && Resolved(m, a, a + |bytes| - 1, pieces) && AreWrites(ops, pieces, a, file, off)
    requires InDump(dumps, file, off, |bytes|) && ReadDump(dumps, file, off, |bytes|) == Cells(bytes)
    ensures WellFormedTrace(fs, ops, dumps) && MicroReplay(fs, ops, dumps).Some?
    ensures MicroReplay(fs, ops, dumps) == Some(PosixThrough(m, fs, Stores(a, bytes))) <==> AllInside(m, fs, Stores(a, bytes))
  {
    hide Disjoint, Mappable, WellFormedTrace, MicroReplay, StoreThrough, PosixThrough, AllInside, Resolved, AreWrites;
    WritesGoThrough(m, fs, ops, pieces, a, bytes, file, off, dumps);
    StoresArePosixIff(m, fs, Stores(a, bytes));
  }

  lemma RestWrites(ops: seq<MicroOp>, pieces: seq<Region>, a: nat, b: nat, file: string, off: nat)
    requires AreWrites(ops, pieces, a, file, off) && pieces != [] && b >= a && forall i :: 1 <= i < |pieces| ==> b <= pieces[i].start
    ensures AreWrites(ops[1..], pieces[1..], b, file, off + (b - a))
  {
  }

  /** The reader's treatment of a run of records: every one is resolved against the table, at the running
      offset of its bytes. */
  method RecordsToOps(t: MemregionTracker, r: seq<Record>, file: string) returns (ops: seq<MicroOp>)
    requires Disjoint(t.regions) && forall x :: x in r ==> x.size > 0
    ensures forall op :: op in ops ==> op.Overwrite?
    ensures forall fs, dumps ::
              Mappable(fs, t.regions) && file in dumps && Total(r) <= |dumps[file]| ==>
                var s := StoresRead(r, dumps[file]);
                && WellFormedTrace(fs, ops, dumps)
                && MicroReplay(fs, ops, dumps) == Some(StoreThrough(t.regions, fs, s))
                && (MicroReplay(fs, ops, dumps) == Some(PosixThrough(t.regions, fs, s)) <==> AllInside(t.regions, fs, s))
  {
    hide StoreThrough, Disjoint, Mappable, Resolved, AreWrites, GoesThrough;
    ops := [];
    var off := 0;
    forall fs, dumps | Mappable(fs, t.regions)
      ensures GoesThrough(t.regions, fs, [], [], dumps)
    {
      NoRecords(t.regions, fs, dumps);
    }
    assert r[..0] == [];
    for i := 0 to |r|
      invariant off == Total(r[..i])
      invariant forall op :: op in ops ==> op.Overwrite?
      invariant forall fs, dumps ::
                  Mappable(fs, t.regions) && file in dumps && Total(r[..i]) <= |dumps[file]| ==>
                    GoesThrough(t.regions, fs, ops, StoresRead(r[..i], dumps[file]), dumps)
    {
      var more := t.MemoryWrite(r[i].addr, r[i].size, file, off);
      ghost var pieces :| Resolved(t.regions, r[i].addr, r[i].addr + r[i].size - 1, pieces) && AreWrites(more, pieces, r[i].addr, file, off);
      TotalStep(r, i);
      forall fs, dumps | Mappable(fs, t.regions) && file in dumps && Total(r[..i + 1]) <= |dumps[file]|
        ensures GoesThrough(t.regions, fs, ops + more, StoresRead(r[..i + 1], dumps[file]), dumps)
      {
        NextRecord(t.regions, fs, r, i, ops, more, pieces, file, dumps);
      }
      ops := ops + more;
      off := off + r[i].size;
    }
    assert r[..|r|] == r;
    forall fs, dumps | Mappable(fs, t.regions) && file in dumps && Total(r) <= |dumps[file]|
      ensures var s := StoresRead(r, dumps[file]);
              && WellFormedTrace(fs, ops, dumps)
              && MicroReplay(fs, ops, dumps) == Some(StoreThrough(t.regions, fs, s))
              && (MicroReplay(fs, ops, dumps) == Some(PosixThrough(t.regions, fs, s)) <==> AllInside(t.regions, fs, s))
    {
      ThroughIsPosixIff(t.regions, fs, ops, StoresRead(r, dumps[file]), dumps);
    }
  }

  lemma ThroughIsPosixIff(m: Regions, fs: Fs, ops: seq<MicroOp>, s: seq<ByteStore>, dumps: Dumps)
    requires Disjoint(m) && GoesThrough(m, fs, ops, s, dumps)
    ensures WellFormedTrace(fs, ops, dumps) && MicroReplay(fs, ops, dumps) == Some(StoreThrough(m, fs, s))
    ensures MicroReplay(fs, ops, dumps) == Some(PosixThrough(m, fs, s)) <==> AllInside(m, fs, s)
  {
    hide StoreThrough, PosixThrough, AllInside, WellFormedTrace, MicroReplay, Disjoint;
    StoresArePosixIff(m, fs, s);
  }

  lemma NoRecords(m: Regions, fs: Fs, dumps: Dumps)
    requires Disjoint(m) && Mappable(fs, m)
    ensures GoesThrough(m, fs, [], [], dumps)
  {
  }

  lemma NextRecord(m: Regions, fs: Fs, r: seq<Record>, i: nat, ops: seq<MicroOp>, more: seq<MicroOp>, pieces: seq<Region>, file: string, dumps: Dumps)
    requires Disjoint(m) && i < |r| && file in dumps && Total(r[..i + 1]) <= |dumps[file]|
    requires Resolved(m, r[i].addr, r[i].addr + r[i].size - 1, pieces) && AreWrites(more, pieces, r[i].addr, file, Total(r[..i]))
    requires Total(r[..i]) <= |dumps[file]| && GoesThrough(m, fs, ops, StoresRead(r[..i], dumps[file]), dumps)
    ensures GoesThrough(m, fs, ops + more, StoresRead(r[..i + 1], dumps[file]), dumps)
  {
    hide StoreThrough, Disjoint, Mappable, Resolved, AreWrites, WellFormedTrace, MicroReplay;
    var off, mid := Total(r[..i]), StoreThrough(m, fs, StoresRead(r[..i], dumps[file]));
    TotalStep(r, i);
    assert r[..i + 1][..i] == r[..i] && r[..i + 1][i] == r[i];
    var bytes := dumps[file][off..off + r[i].size];
    WritesGoThrough(m, mid, more, pieces, r[i].addr, bytes, file, off, dumps);
    MicroConcat(fs, ops, more, dumps);
    WellFormedConcat(fs, ops, more, dumps);
    StoreConcat(m, fs, StoresRead(r[..i], dumps[file]), Stores(r[i].addr, bytes));
  }

  /** From the memory tracer to the files: the records that it wrote, joined or not, become well-formed micro
      ops.  Their replay leaves in the files what the traced writes leave, stored byte by byte and in their
      order, if and only if none of the bytes lies behind the end of its file. */
  method TracedWritesToOps(w: MwriteTracker, t: MemregionTracker, file: string) returns (ops: seq<MicroOp>)
    requires w.Valid() && Disjoint(t.regions) && forall x :: x in w.history ==> x.bytes != []
    ensures forall op :: op in ops ==> op.Overwrite?
    ensures forall fs, dumps ::
              Mappable(fs, t.regions) && file in dumps && dumps[file] == w.dump ==>
                var s := StoresOf(w.history);
                && WellFormedTrace(fs, ops, dumps)
                && MicroReplay(fs, ops, dumps) == Some(StoreThrough(t.regions, fs, s))
                && (MicroReplay(fs, ops, dumps) == Some(PosixThrough(t.regions, fs, s)) <==> AllInside(t.regions, fs, s))
  {
    hide StoreThrough, PosixThrough, AllInside, Disjoint, Mappable, WellFormedTrace, MicroReplay;
    ops := RecordsToOps(t, w.All(), file);
  }

  // And from there to the disk: compiled in any way, the ops leave what the process leaves.
  lemma TracedWritesToDisk(m: Regions, fs: Fs, ops: seq<MicroOp>, s: seq<ByteStore>, o: seq<Options>, dumps: Dumps)
    requires Disjoint(m) && fs.Valid() && WellFormedTrace(fs, ops, dumps) && ProperOptions(o, |ops|)
    requires (forall op :: op in ops ==> op.Overwrite?) && MicroReplay(fs, ops, dumps) == Some(StoreThrough(m, fs, s))
    ensures Replay(fs, CompileAll(ops, o), dumps).Some?
    ensures AllInside(m, fs, s) ==> SameTree(PosixThrough(m, fs, s), Replay(fs, CompileAll(ops, o), dumps).value)
  {
    hide StoreThrough, PosixThrough, AllInside, WellFormedTrace, MicroReplay, Replay, CompileAll, SameTree, Agree, Disjoint;
    forall k | 0 <= k < |ops| ensures !UnsafeRename(ops[k], o[k]) {
      assert ops[k] in ops;
    }
    AgreeRefl(fs);
    TraceAgrees(fs, fs, ops, o, dumps);
    AgreeIsSameTree(StoreThrough(m, fs, s), Replay(fs, CompileAll(ops, o), dumps).value);
    StoresArePosixIff(m, fs, s);
  }

  /** Address x stands for this place of this inode, through whichever region and path. */
  ghost predicate Reaches(m: Regions, x: nat, inode: nat, at: nat) {
    exists name :: Maps(m, x, Target(name, inode), at)
  }

  lemma ReachesIs(m: Regions, x: nat, inode: nat, at: nat)
    requires Disjoint(m)
    ensures match RegionOf(m, x)
            case None => !Reaches(m, x, inode, at)
            case Some(k) =>
              && k in m && m[k].offset + (x - m[k].start) >= 0
              && (Reaches(m, x, inode, at) <==> m[k].inode == inode && m[k].offset + (x - m[k].start) == at)
  {
    if name :| Maps(m, x, Target(name, inode), at) {
      var k :| k in m && m[k].Maps(x, Target(name, inode), at);
      RegionIs(m, x, k);
    }
    if RegionOf(m, x).Some? {
      var k := RegionOf(m, x).value;
      if m[k].inode == inode && m[k].offset + (x - m[k].start) == at {
        assert m[k].Maps(x, m[k].Backing(), at);
        assert Maps(m, x, Target(m[k].name, inode), at);
      }
    }
  }

  lemma {:induction false} PosixConcat(m: Regions, fs: Fs, a: seq<ByteStore>, b: seq<ByteStore>)
    requires Disjoint(m)
    ensures PosixThrough(m, fs, a + b) == PosixThrough(m, PosixThrough(m, fs, a), b)
    decreases |a|
  {
    hide PosixStore, Disjoint;
    if a == [] {
      assert a + b == b;
    } else {
      assert (a + b)[1..] == a[1..] + b;
      PosixConcat(m, PosixStore(m, fs, a[0]), a[1..], b);
    }
  }

  // A place that no store reaches keeps its byte, and the file gets no place that it does not have.
  lemma {:induction false} OtherStores(m: Regions, fs: Fs, s: seq<ByteStore>, inode: nat, at: nat)
    requires Disjoint(m)
    requires at >= |fs.FileOf(inode)| || forall i :: 0 <= i < |s| ==> !Reaches(m, s[i].addr, inode, at)
    ensures |PosixThrough(m, fs, s).FileOf(inode)| == |fs.FileOf(inode)|
    ensures At(PosixThrough(m, fs, s).FileOf(inode), at) == At(fs.FileOf(inode), at)
    decreases |s|
  {
    hide Disjoint, Reaches, At, PosixStore;
    if s != [] {
      OnePosixStore(m, fs, s[0], inode, at);
      StoreKeepsSizes(m, fs, s[0]);
      OtherStores(m, PosixStore(m, fs, s[0]), s[1..], inode, at);
    }
  }

  // A place of a file ends with the value of the last store to any address that stands for it, so that
  // several mappings of one place share their bytes.
  lemma LastStoreWins(m: Regions, fs: Fs, s: seq<ByteStore>, inode: nat, at: nat, i: nat)
    requires Disjoint(m) && i < |s| && Reaches(m, s[i].addr, inode, at) && at < |fs.FileOf(inode)|
    requires forall j :: i < j < |s| ==> !Reaches(m, s[j].addr, inode, at)
    ensures At(PosixThrough(m, fs, s).FileOf(inode), at) == Byte(s[i].value)
  {
    hide Disjoint, Reaches, At, PosixStore;
    var front := PosixThrough(m, fs, s[..i]);
    assert s == s[..i] + ([s[i]] + s[i + 1..]);
    PosixConcat(m, fs, s[..i], [s[i]] + s[i + 1..]);
    PosixConcat(m, front, [s[i]], s[i + 1..]);
    assert [s[i]][1..] == [] && PosixThrough(m, front, [s[i]]) == PosixStore(m, front, s[i]);
    SizesStay(m, fs, s[..i]);
    StoreKeepsSizes(m, front, s[i]);
    OnePosixStore(m, front, s[i], inode, at);
    OtherStores(m, PosixStore(m, front, s[i]), s[i + 1..], inode, at);
  }

  lemma OnePosixStore(m: Regions, fs: Fs, b: ByteStore, inode: nat, at: nat)
    requires Disjoint(m)
    ensures At(PosixStore(m, fs, b).FileOf(inode), at)
         == if Reaches(m, b.addr, inode, at) && at < |fs.FileOf(inode)| then Byte(b.value) else At(fs.FileOf(inode), at)
  {
    hide RegionOf, Disjoint, Reaches, StoreByte, At;
    ReachesIs(m, b.addr, inode, at);
    OneStore(m, fs, b, inode, at);
  }

  lemma OneStore(m: Regions, fs: Fs, b: ByteStore, inode: nat, at: nat)
    requires Disjoint(m)
    ensures At(StoreByte(m, fs, b).FileOf(inode), at)
         == if Reaches(m, b.addr, inode, at) then Byte(b.value) else At(fs.FileOf(inode), at)
  {
    hide RegionOf, Disjoint, Reaches, PWrite, At;
    ReachesIs(m, b.addr, inode, at);
    var r := RegionOf(m, b.addr);
    if r.Some? {
      PWriteAt(fs.FileOf(m[r.value].inode), m[r.value].offset + (b.addr - m[r.value].start), [Byte(b.value)], at);
    }
  }
}
