/** The two tables of mapped regions over the same run of calls: the tracer's, which decides what writes are
    recorded, and the reader's, which decides where they go. */
module RegionTables {
  import opened AddressRanges
  import opened FileBytes
  import opened FileSystem
  import opened MemoryRegions
  import opened Coalescer
  import opened MappedFiles
  import RegionArray

  type Slot = RegionArray.Slot

  /** What is mapped: nothing that is shared and writable, a file of no interest, or a file of the snapshot. */
  datatype What = NotShared | Elsewhere | Watched(target: Target, offset: nat)

  /** A successful mmap or munmap call, and the addresses it is about. */
  datatype Event = Mmap(start: nat, end: nat, fixed: bool, what: What) | Munmap(start: nat, end: nat)
  {
    predicate Proper() {
      0 < start <= end
    }
  }

  // The tracer.

  ghost function Cleared(s: set<Slot>, e: Event): set<Slot>
    requires e.Proper() && e.Mmap?
  {
    if e.fixed then RegionArray.Carved(s, e.start, e.end) else s
  }

  /** Every shared writable mapping of a file is tracked. */
  ghost function TracerStep(s: set<Slot>, e: Event): set<Slot>
    requires e.Proper()
  {
    match e
    case Mmap(start, end, _, what) => if what.NotShared? then Cleared(s, e) else Cleared(s, e) + {RegionArray.Slot(start, end)}
    case Munmap(start, end) => s - RegionArray.Overlapping(s, start, end)
  }

  /** Of those, the mappings of files of the snapshot. */
  ghost function WatchedStep(s: set<Slot>, e: Event): set<Slot>
    requires e.Proper()
  {
    if e.Mmap? && e.what.Elsewhere? then Cleared(s, e) else TracerStep(s, e)
  }

  /** The tracer's assertion that a new region overlaps no other holds. */
  ghost predicate Accepts(s: set<Slot>, e: Event)
    requires e.Proper()
  {
    e.Mmap? && !e.what.NotShared? ==> RegionArray.Overlapping(Cleared(s, e), e.start, e.end) == {}
  }

  // The reader.

  function ReaderCleared(m: Regions, e: Event): Regions
    requires e.Mmap?
  {
    if e.fixed then RemovedBelow(m, e.start, e.end) else m
  }

  function ReaderStep(m: Regions, e: Event): Regions {
    match e
    case Mmap(start, end, _, Watched(target, offset)) =>
      ReaderCleared(m, e)[start := Region(start, end, target.name, target.inode, offset)]
    case Mmap(_, _, _, _) => ReaderCleared(m, e)
    case Munmap(start, end) => map k | k in m && !m[k].Overlaps(start, end) :: m[k]
  }

  /** What an address stands for after the call: a new mapping starts at its own offset of its own file; an
      address that the call does not touch stands for what it did, unless a fixed mapping has taken away what
      lies above it; and munmap takes whole regions away. */
  ghost predicate MapsAfter(m: Regions, e: Event, x: nat, f: Target, at: int) {
    match e
    case Mmap(start, end, fixed, what) =>
      if what.Watched? && start <= x <= end then f == what.target && at == what.offset + (x - start)
      else if fixed then MapsBelow(m, x, f, at, start, end)
      else Maps(m, x, f, at)
    case Munmap(start, end) => exists k :: k in m && m[k].Maps(x, f, at) && !(m[k].start <= end && start <= m[k].end)
  }

  lemma StepMaps(m: Regions, e: Event, x: nat, f: Target, at: int)
    requires Disjoint(m) && e.Proper()
    requires !(e.Mmap? && e.what.Watched? && Overlapping(ReaderCleared(m, e), e.start, e.end) != {})
    ensures Maps(ReaderStep(m, e), x, f, at) <==> MapsAfter(m, e, x, f, at)
  {
    hide Overlap, Disjoint;
    match e
    case Munmap(start, end) => UnmapMaps(m, start, end, x, f, at);
    case Mmap(start, end, fixed, what) =>
      if fixed {
        RemovedMaps(m, start, end, x, f, at);
        RemovedDisjoint(m, start, end);
      }
      if what.Watched? {
        NewMaps(ReaderCleared(m, e), Region(start, end, what.target.name, what.target.inode, what.offset), x, f, at);
        if fixed && start <= x <= end {
          NoneInside(m, start, end, x, f, at);
        }
      }
  }

  lemma UnmapMaps(m: Regions, a: nat, b: nat, x: nat, f: Target, at: int)
    requires Disjoint(m) && 0 < a <= b
    ensures Maps(ReaderStep(m, Munmap(a, b)), x, f, at)
       <==> exists k :: k in m && m[k].Maps(x, f, at) && !(m[k].start <= b && a <= m[k].end)
  {
    hide Overlap;
    var after := ReaderStep(m, Munmap(a, b));
    forall k | k in m ensures m[k].Overlaps(a, b) <==> m[k].start <= b && a <= m[k].end {
      OverlapIsSharing(m[k].start, m[k].end, a, b);
    }
    if k :| k in m && m[k].Maps(x, f, at) && !(m[k].start <= b && a <= m[k].end) {
      assert k in after && after[k].Maps(x, f, at);
    }
    if k :| k in after && after[k].Maps(x, f, at) {
      assert k in m && m[k].Maps(x, f, at);
    }
  }

  lemma RemovedMaps(m: Regions, a: nat, b: nat, x: nat, f: Target, at: int)
    requires Disjoint(m) && 0 < a <= b
    ensures Maps(RemovedBelow(m, a, b), x, f, at) <==> MapsBelow(m, x, f, at, a, b)
  {
    hide Overlap;
    var removed := RemovedBelow(m, a, b);
    if k :| k in m && m[k].Maps(x, f, at) && (x < a || !m[k].Overlaps(a, b)) {
      assert k in removed && removed[k].Maps(x, f, at);
    }
    if k :| k in removed && removed[k].Maps(x, f, at) {
      OverlapIsSharing(m[k].start, m[k].end, a, b);
      assert m[k].Maps(x, f, at);
    }
  }

  lemma NoneInside(m: Regions, a: nat, b: nat, x: nat, f: Target, at: int)
    requires Disjoint(m) && a <= x <= b
    ensures !MapsBelow(m, x, f, at, a, b)
  {
    hide Overlap;
    forall k | k in m && m[k].Maps(x, f, at) ensures m[k].Overlaps(a, b) {
      OverlapIsSharing(m[k].start, m[k].end, a, b);
    }
  }

  lemma NewMaps(m: Regions, r: Region, x: nat, f: Target, at: int)
    requires Disjoint(m) && r.start <= r.end && Overlapping(m, r.start, r.end) == {}
    ensures Maps(m[r.start := r], x, f, at)
       <==> if r.start <= x <= r.end then f == r.Backing() && at == r.offset + (x - r.start) else Maps(m, x, f, at)
  {
    hide Overlap;
    var after := m[r.start := r];
    forall k | k in m ensures k != r.start && (m[k].end < r.start || r.end < m[k].start) {
      assert k !in Overlapping(m, r.start, r.end);
      OverlapIsSharing(m[k].start, m[k].end, r.start, r.end);
    }
    if k :| k in m && m[k].Maps(x, f, at) {
      assert after[k].Maps(x, f, at);
    }
    if r.Maps(x, f, at) {
      assert after[r.start].Maps(x, f, at);
    }
    if k :| k in after && after[k].Maps(x, f, at) {
      assert k != r.start ==> m[k].Maps(x, f, at);
    }
  }

  // A store made through a new mapping reaches its own place of its own file.
  lemma StoreAfterMmap(m: Regions, fs: Fs, e: Event, x: nat, value: byte)
    requires Disjoint(m) && e.Proper() && e.Mmap? && e.what.Watched? && e.start <= x <= e.end
    requires Overlapping(ReaderCleared(m, e), e.start, e.end) == {} && Disjoint(ReaderStep(m, e))
    ensures StoreByte(ReaderStep(m, e), fs, ByteStore(x, value))
         == SetByte(fs, e.what.target.inode, e.what.offset + (x - e.start), value)
  {
    hide Disjoint, SetByte;
    var after := ReaderStep(m, e);
    assert e.start in after && after[e.start].Has(x);
    RegionIs(after, x, e.start);
  }

  /** The branches of the reader; false where the assertion that nothing overlaps fails. */
  method ReaderEvent(t: MemregionTracker, e: Event) returns (ok: bool)
    requires Disjoint(t.regions) && e.Proper()
    modifies t
    ensures Disjoint(t.regions)
    ensures ok <==> !(e.Mmap? && e.what.Watched? && Overlapping(ReaderCleared(old(t.regions), e), e.start, e.end) != {})
    ensures ok ==> t.regions == ReaderStep(old(t.regions), e)
    ensures ok ==> forall x: nat, f: Target, at: int :: Maps(t.regions, x, f, at) <==> MapsAfter(old(t.regions), e, x, f, at)
  {
    hide Disjoint, Overlap;
    if !(e.Mmap? && e.what.Watched? && Overlapping(ReaderCleared(t.regions, e), e.start, e.end) != {}) {
      forall x: nat, f: Target, at: int ensures Maps(ReaderStep(t.regions, e), x, f, at) <==> MapsAfter(t.regions, e, x, f, at) {
        StepMaps(t.regions, e, x, f, at);
      }
    }
    ok := true;
    match e {
      case Mmap(start, end, fixed, what) =>
        if fixed {
          t.RemoveOverlaps(start, end, false);
        }
        if what.Watched? {
          ok := t.Insert(Region(start, end, what.target.name, what.target.inode, what.offset));
        }
      case Munmap(start, end) =>
        t.RemoveOverlaps(start, end, true);
    }
  }

  // One table against the other.

  /** The reader's regions as intervals. */
  ghost function Slots(m: Regions): set<Slot>
    requires Disjoint(m)
  {
    set k | k in m :: RegionArray.Slot(m[k].start, m[k].end)
  }

  lemma RemovedDisjoint(m: Regions, a: nat, b: int)
    requires Disjoint(m) && 0 < a <= b
    ensures Disjoint(RemovedBelow(m, a, b))
    ensures Overlapping(RemovedBelow(m, a, b), a, b) == {}
  {
    hide Overlap;
    forall k | k in RemovedBelow(m, a, b)
      ensures m[k].start == k && !RemovedBelow(m, a, b)[k].Overlaps(a, b)
      ensures k <= RemovedBelow(m, a, b)[k].end <= m[k].end
    {
      OverlapIsSharing(m[k].start, m[k].end, a, b);
      if m[k].Overlaps(a, b) {
        OverlapIsSharing(k, a - 1, a, b);
      }
    }
  }

  // An interval that is left of a carved one.
  lemma CarvedOrigin(s: set<Slot>, a: nat, b: nat, q: Slot) returns (r: Slot)
    requires RegionArray.Separate(s) && 0 < a <= b && q in RegionArray.Carved(s, a, b)
    ensures r in s && r.start <= q.start <= q.end <= r.end && 0 < q.start && (q.end < a || b < q.start)
    ensures q == r || (q == RegionArray.Slot(r.start, a - 1) && r.start < a) || (q == RegionArray.Slot(b + 1, r.end) && b < r.end)
  {
    if q in s && !q.Overlaps(a, b) {
      r := q;
      OverlapIsSharing(q.start, q.end, a, b);
    } else {
      r :| r in RegionArray.Overlapping(s, a, b) && q in RegionArray.Pieces(r, a, b);
      RegionArray.PiecesOf(r, a, b, q);
    }
  }

  lemma CarvedSeparate(s: set<Slot>, a: nat, b: nat)
    requires RegionArray.Separate(s) && 0 < a <= b
    ensures RegionArray.Separate(RegionArray.Carved(s, a, b))
  {
    hide Overlap, RegionArray.Carved;
    var c := RegionArray.Carved(s, a, b);
    forall q | q in c ensures 0 < q.start <= q.end {
      var r := CarvedOrigin(s, a, b, q);
    }
    forall p, q | p in c && q in c && p != q ensures p.end < q.start || q.end < p.start {
      var x := CarvedOrigin(s, a, b, p);
      var y := CarvedOrigin(s, a, b, q);
    }
  }

  lemma TracerSeparate(s: set<Slot>, e: Event)
    requires RegionArray.Separate(s) && e.Proper() && Accepts(s, e)
    ensures RegionArray.Separate(TracerStep(s, e))
  {
    hide RegionArray.Separate, RegionArray.Carved;
    match e
    case Mmap(start, end, fixed, what) =>
      if fixed {
        CarvedSeparate(s, start, end);
      }
      if !what.NotShared? {
        RegionArray.NewIsSeparate(Cleared(s, e), RegionArray.Slot(start, end));
      }
    case Munmap(start, end) => SubsetSeparate(s, s - RegionArray.Overlapping(s, start, end));
  }

  lemma SubsetSeparate(s: set<Slot>, w: set<Slot>)
    requires RegionArray.Separate(s) && w <= s
    ensures RegionArray.Separate(w)
  {
  }

  // Fewer intervals stay fewer, and what fits among more fits among fewer.
  lemma StepMonotone(w: set<Slot>, s: set<Slot>, e: Event)
    requires e.Proper() && w <= s
    ensures WatchedStep(w, e) <= TracerStep(s, e)
    ensures Accepts(s, e) ==> Accepts(w, e)
    ensures e.Mmap? ==> Cleared(w, e) <= Cleared(s, e)
  {
    hide Overlap;
  }

  /** The mapping drops what a region has above it: it is fixed and ends strictly inside a region. */
  ghost predicate Loses(m: Regions, e: Event) {
    e.Mmap? && e.fixed && ReachesBeyond(m, e.end)
  }

  // A fixed mapping leaves the reader the intervals that it leaves the tracer, but for those above the hole.
  lemma RemovedSlots(m: Regions, w: set<Slot>, a: nat, b: nat)
    requires Disjoint(m) && Slots(m) <= w && 0 < a <= b
    ensures Disjoint(RemovedBelow(m, a, b)) && Slots(RemovedBelow(m, a, b)) <= RegionArray.Carved(w, a, b)
  {
    hide Overlap, Disjoint, RegionArray.Carved;
    RemovedDisjoint(m, a, b);
    var removed := RemovedBelow(m, a, b);
    forall k | k in removed ensures removed[k].end >= 0 && RegionArray.Slot(removed[k].start, removed[k].end) in RegionArray.Carved(w, a, b) {
      NotEmpty(m, k);
      NotEmpty(removed, k);
      var r := RegionArray.Slot(m[k].start, m[k].end);
      assert r in w;
      if m[k].Overlaps(a, b) {
        PieceIsCarved(w, r, RegionArray.Slot(k, a - 1), a, b);
      } else {
        RestIsCarved(w, r, a, b);
      }
    }
  }

  lemma PieceIsCarved(w: set<Slot>, r: Slot, q: Slot, a: nat, b: nat)
    requires a > 0 && r in w && r.Overlaps(a, b) && q in RegionArray.Pieces(r, a, b)
    ensures q in RegionArray.Carved(w, a, b)
  {
    hide Overlap;
    assert r in RegionArray.Overlapping(w, a, b);
  }

  lemma RestIsCarved(w: set<Slot>, r: Slot, a: nat, b: nat)
    requires a > 0 && r in w && !r.Overlaps(a, b)
    ensures r in RegionArray.Carved(w, a, b)
  {
    hide Overlap;
  }

  lemma RemovedSlotsIff(m: Regions, a: nat, b: nat)
    requires Disjoint(m) && 0 < a <= b && RegionArray.Separate(Slots(m))
    ensures Disjoint(RemovedBelow(m, a, b))
    ensures Slots(RemovedBelow(m, a, b)) == RegionArray.Carved(Slots(m), a, b) <==> !ReachesBeyond(m, b)
    ensures forall k :: k in m && m[k].start <= b < m[k].end ==>
              && RegionArray.Slot(b + 1, m[k].end) in RegionArray.Carved(Slots(m), a, b)
              && RegionArray.Slot(b + 1, m[k].end) !in Slots(RemovedBelow(m, a, b))
  {
    hide Overlap, Disjoint, RegionArray.Carved, RegionArray.Separate;
    var w, removed := Slots(m), RemovedBelow(m, a, b);
    RemovedSlots(m, w, a, b);
    forall k | k in m && m[k].start <= b < m[k].end
      ensures RegionArray.Slot(b + 1, m[k].end) in RegionArray.Carved(w, a, b)
      ensures RegionArray.Slot(b + 1, m[k].end) !in Slots(removed)
    {
      TailIsLost(m, a, b, k);
    }
    if !ReachesBeyond(m, b) {
      forall q | q in RegionArray.Carved(w, a, b) ensures q in Slots(removed) {
        CarvedIsKept(m, a, b, q);
      }
    }
  }

  lemma TailIsLost(m: Regions, a: nat, b: nat, k: nat)
    requires Disjoint(m) && Disjoint(RemovedBelow(m, a, b)) && 0 < a <= b && k in m && m[k].start <= b < m[k].end
    ensures RegionArray.Slot(b + 1, m[k].end) !in Slots(RemovedBelow(m, a, b))
    ensures m[k].end >= a ==> RegionArray.Slot(b + 1, m[k].end) in RegionArray.Carved(Slots(m), a, b)
  {
    hide Overlap, RegionArray.Carved;
    var r := RegionArray.Slot(m[k].start, m[k].end);
    OverlapIsSharing(m[k].start, m[k].end, a, b);
    PieceIsCarved(Slots(m), r, RegionArray.Slot(b + 1, r.end), a, b);
    assert forall j :: j in m && k < j ==> m[k].end < m[j].start;
    assert b + 1 !in RemovedBelow(m, a, b);
  }

  lemma SlotOf(m: Regions, r: Slot) returns (k: nat)
    requires Disjoint(m) && r in Slots(m)
    ensures k in m && k == m[k].start == r.start && m[k].end == r.end
  {
    k :| k in m && r == RegionArray.Slot(m[k].start, m[k].end);
  }

  lemma CarvedIsKept(m: Regions, a: nat, b: nat, q: Slot)
    requires Disjoint(m) && Disjoint(RemovedBelow(m, a, b)) && 0 < a <= b && RegionArray.Separate(Slots(m))
    requires !ReachesBeyond(m, b) && q in RegionArray.Carved(Slots(m), a, b)
    ensures q in Slots(RemovedBelow(m, a, b))
  {
    hide Overlap, Disjoint, RegionArray.Separate, RegionArray.Carved;
    var removed := RemovedBelow(m, a, b);
    var r := CarvedOrigin(Slots(m), a, b, q);
    var k := SlotOf(m, r);
    NotEmpty(m, k);
    OverlapIsSharing(m[k].start, m[k].end, a, b);
    assert !(m[k].start <= b < m[k].end);
    assert k in removed && q == RegionArray.Slot(removed[k].start, removed[k].end);
  }

  // A region that overlaps no other becomes one more interval.
  lemma InsertedSlots(m: Regions, r: Region)
    requires Disjoint(m) && r.start <= r.end && r.offset >= 0
    requires RegionArray.Overlapping(Slots(m), r.start, r.end) == {}
    ensures Overlapping(m, r.start, r.end) == {} && r.start !in m && Disjoint(m[r.start := r])
    ensures Slots(m[r.start := r]) == Slots(m) + {RegionArray.Slot(r.start, r.end)}
  {
    hide Overlap;
    forall k | k in m
      ensures !m[k].Overlaps(r.start, r.end) && k == m[k].start != r.start && (m[k].end < r.start || r.end < m[k].start)
    {
      var q := RegionArray.Slot(m[k].start, m[k].end);
      assert q in Slots(m) && q !in RegionArray.Overlapping(Slots(m), r.start, r.end);
      OverlapIsSharing(m[k].start, m[k].end, r.start, r.end);
    }
    var after := m[r.start := r];
    assert forall k :: k in m ==> after[k] == m[k];
    assert Disjoint(after);
    OneMoreSlot(m, r);
  }

  lemma OneMoreSlot(m: Regions, r: Region)
    requires Disjoint(m) && r.start !in m && Disjoint(m[r.start := r])
    ensures r.end >= 0 && Slots(m[r.start := r]) == Slots(m) + {RegionArray.Slot(r.start, r.end)}
  {
    hide Disjoint;
    var after := m[r.start := r];
    NotEmpty(after, r.start);
    assert RegionArray.Slot(after[r.start].start, after[r.start].end) in Slots(after);
    forall q | q in Slots(m) ensures q in Slots(after) {
      var k := SlotOf(m, q);
      assert k in after && after[k] == m[k];
    }
    forall q | q in Slots(after) ensures q in Slots(m) + {RegionArray.Slot(r.start, r.end)} {
      var k := SlotOf(after, q);
      assert k != r.start ==> k in m && m[k] == after[k];
    }
  }

  // munmap: both drop every region that it touches.
  lemma UnmappedSlots(m: Regions, w: set<Slot>, e: Event)
    requires Disjoint(m) && Slots(m) <= w && e.Proper() && e.Munmap?
    ensures Disjoint(ReaderStep(m, e)) && Slots(ReaderStep(m, e)) <= WatchedStep(w, e)
    ensures Slots(m) == w ==> Slots(ReaderStep(m, e)) == WatchedStep(w, e)
  {
    hide Overlap;
    var after := ReaderStep(m, e);
    forall q | q in Slots(m) && q !in RegionArray.Overlapping(w, e.start, e.end) ensures q in Slots(after) {
      var k := SlotOf(m, q);
      assert k in after && after[k] == m[k];
    }
    forall q | q in Slots(after) ensures q in Slots(m) && q !in RegionArray.Overlapping(w, e.start, e.end) {
      var k := SlotOf(after, q);
      assert k in m && after[k] == m[k];
    }
  }

  // One call on both tables: the reader never has an interval that the tracer has not, and from equal tables
  // it keeps up exactly when nothing is lost.
  lemma StepAgrees(m: Regions, w: set<Slot>, e: Event)
    requires Disjoint(m) && RegionArray.Separate(w) && Slots(m) <= w && e.Proper() && Accepts(w, e)
    ensures Disjoint(ReaderStep(m, e)) && Slots(ReaderStep(m, e)) <= WatchedStep(w, e)
    ensures e.Mmap? && e.what.Watched? ==> Overlapping(ReaderCleared(m, e), e.start, e.end) == {}
    ensures Slots(m) == w ==> (Slots(ReaderStep(m, e)) == WatchedStep(w, e) <==> !Loses(m, e))
  {
    hide Overlap, Disjoint, RegionArray.Separate, RegionArray.Carved, RegionArray.Overlapping, ReachesBeyond;
    if e.Munmap? {
      UnmappedSlots(m, w, e);
    } else {
      var cleared := ReaderCleared(m, e);
      ClearedAgrees(m, w, e);
      if e.what.Watched? {
        var r := Region(e.start, e.end, e.what.target.name, e.what.target.inode, e.what.offset);
        FewerOverlap(Slots(cleared), Cleared(w, e), e.start, e.end);
        InsertedSlots(cleared, r);
        if Slots(m) == w && Loses(m, e) {
          LostTailStays(m, w, e);
        }
      }
    }
  }

  lemma FewerOverlap(a: set<Slot>, b: set<Slot>, start: nat, end: nat)
    requires a <= b && RegionArray.Overlapping(b, start, end) == {}
    ensures RegionArray.Overlapping(a, start, end) == {}
  {
    hide Overlap;
    forall r | r in a ensures !r.Overlaps(start, end) {
      assert r !in RegionArray.Overlapping(b, start, end);
    }
  }

  lemma ClearedAgrees(m: Regions, w: set<Slot>, e: Event)
    requires Disjoint(m) && RegionArray.Separate(w) && Slots(m) <= w && e.Proper() && e.Mmap?
    ensures Disjoint(ReaderCleared(m, e)) && Slots(ReaderCleared(m, e)) <= Cleared(w, e)
    ensures Slots(m) == w ==> (Slots(ReaderCleared(m, e)) == Cleared(w, e) <==> !Loses(m, e))
  {
    hide Overlap, Disjoint, RegionArray.Separate, RegionArray.Carved, ReachesBeyond;
    if e.fixed {
      RemovedSlots(m, w, e.start, e.end);
      if Slots(m) == w {
        RemovedSlotsIff(m, e.start, e.end);
      }
    }
  }

  // The interval above the hole is still missing when the new region is in.
  lemma LostTailStays(m: Regions, w: set<Slot>, e: Event)
    requires Disjoint(m) && RegionArray.Separate(w) && Slots(m) == w && e.Proper() && Loses(m, e)
    requires Disjoint(ReaderCleared(m, e))
    ensures exists q :: q in Cleared(w, e) && q !in Slots(ReaderCleared(m, e)) && q.start > e.end
  {
    hide Overlap, Disjoint, RegionArray.Separate, RegionArray.Carved;
    RemovedSlotsIff(m, e.start, e.end);
    var k :| k in m && m[k].start <= e.end < m[k].end;
    var q := RegionArray.Slot(e.end + 1, m[k].end);
    assert q in Cleared(w, e) && q !in Slots(ReaderCleared(m, e)) && q.start > e.end;
  }

  // Runs of calls.

  ghost function TracerAt(s: set<Slot>, es: seq<Event>, k: nat): set<Slot>
    requires k <= |es| && forall i :: 0 <= i < |es| ==> es[i].Proper()
    decreases k
  {
    if k == 0 then s else TracerAt(TracerStep(s, es[0]), es[1..], k - 1)
  }

  ghost function WatchedAt(w: set<Slot>, es: seq<Event>, k: nat): set<Slot>
    requires k <= |es| && forall i :: 0 <= i < |es| ==> es[i].Proper()
    decreases k
  {
    if k == 0 then w else WatchedAt(WatchedStep(w, es[0]), es[1..], k - 1)
  }

  function ReaderAt(m: Regions, es: seq<Event>, k: nat): Regions
    requires k <= |es|
    decreases k
  {
    if k == 0 then m else ReaderAt(ReaderStep(m, es[0]), es[1..], k - 1)
  }

  /** The tracer runs through. */
  ghost predicate AcceptedRun(s: set<Slot>, es: seq<Event>)
    requires forall i :: 0 <= i < |es| ==> es[i].Proper()
    decreases |es|
  {
    es == [] || (Accepts(s, es[0]) && AcceptedRun(TracerStep(s, es[0]), es[1..]))
  }

  /** No fixed mapping of the run ends strictly inside a region that the reader has then. */
  ghost predicate NothingLost(m: Regions, es: seq<Event>)
    decreases |es|
  {
    es == [] || (!Loses(m, es[0]) && NothingLost(ReaderStep(m, es[0]), es[1..]))
  }

  /** The reader has at most what the tracer has of the watched files, and that is part of what it tracks. */
  ghost predicate Nested(m: Regions, w: set<Slot>, s: set<Slot>) {
    Disjoint(m) && Slots(m) <= w <= s && RegionArray.Separate(s)
  }

  lemma NestedStep(m: Regions, w: set<Slot>, s: set<Slot>, e: Event)
    requires Nested(m, w, s) && e.Proper() && Accepts(s, e)
    ensures Nested(ReaderStep(m, e), WatchedStep(w, e), TracerStep(s, e))
    ensures Slots(m) == w ==> (Slots(ReaderStep(m, e)) == WatchedStep(w, e) <==> !Loses(m, e))
  {
    hide Overlap, Disjoint, RegionArray.Separate, Accepts, TracerStep, WatchedStep, Loses;
    SubsetSeparate(s, w);
    StepMonotone(w, s, e);
    StepAgrees(m, w, e);
    TracerSeparate(s, e);
  }

  // Whatever the calls, the reader gives no write a place that the tracer does not record writes for.
  lemma {:induction false} ReaderStaysNested(m: Regions, w: set<Slot>, s: set<Slot>, es: seq<Event>, k: nat)
    requires Nested(m, w, s) && k <= |es| && (forall i :: 0 <= i < |es| ==> es[i].Proper()) && AcceptedRun(s, es)
    ensures Nested(ReaderAt(m, es, k), WatchedAt(w, es, k), TracerAt(s, es, k))
    decreases k
  {
    hide Nested, Accepts, TracerStep, WatchedStep, ReaderStep, Loses;
    if k > 0 {
      NestedStep(m, w, s, es[0]);
      ReaderStaysNested(ReaderStep(m, es[0]), WatchedStep(w, es[0]), TracerStep(s, es[0]), es[1..], k - 1);
    }
  }

  ghost predicate EqualAt(m: Regions, w: set<Slot>, es: seq<Event>, k: nat)
    requires k <= |es| && forall i :: 0 <= i < |es| ==> es[i].Proper()
  {
    Disjoint(ReaderAt(m, es, k)) && Slots(ReaderAt(m, es, k)) == WatchedAt(w, es, k)
  }

  // Main result: from equal tables, and over any run that the tracer accepts, the reader has all the time
  // exactly the tracked regions of the watched files if and only if nothing is lost.
  lemma {:induction false} TablesAgreeIff(m: Regions, w: set<Slot>, s: set<Slot>, es: seq<Event>)
    requires Nested(m, w, s) && Slots(m) == w && (forall i :: 0 <= i < |es| ==> es[i].Proper()) && AcceptedRun(s, es)
    ensures (forall k :: 0 <= k <= |es| ==> EqualAt(m, w, es, k)) <==> NothingLost(m, es)
    decreases |es|
  {
    hide Accepts, TracerStep, WatchedStep, ReaderStep, Loses, RegionArray.Separate, Disjoint;
    if es != [] {
      NestedStep(m, w, s, es[0]);
      var m', w' := ReaderStep(m, es[0]), WatchedStep(w, es[0]);
      assert ReaderAt(m, es, 1) == ReaderAt(m', es[1..], 0) == m' && WatchedAt(w, es, 1) == WatchedAt(w', es[1..], 0) == w';
      assert EqualAt(m, w, es, 1) <==> !Loses(m, es[0]);
      if !Loses(m, es[0]) {
        TablesAgreeIff(m', w', TracerStep(s, es[0]), es[1..]);
        forall k | 0 <= k <= |es[1..]| ensures EqualAt(m, w, es, k + 1) <==> EqualAt(m', w', es[1..], k) {
        }
        if forall k :: 0 <= k <= |es| ==> EqualAt(m, w, es, k) {
          forall k | 0 <= k <= |es[1..]| ensures EqualAt(m', w', es[1..], k) {
            assert EqualAt(m, w, es, k + 1);
          }
        }
        if forall k :: 0 <= k <= |es[1..]| ==> EqualAt(m', w', es[1..], k) {
          forall k | 0 <= k <= |es| ensures EqualAt(m, w, es, k) {
            assert k > 0 ==> EqualAt(m', w', es[1..], k - 1);
          }
        }
      }
    }
  }

  ghost predicate ReaderHas(m: Regions, x: nat) {
    exists k :: k in m && m[k].Has(x)
  }

  lemma SameAddresses(m: Regions, x: nat)
    requires Disjoint(m) && RegionArray.Separate(Slots(m))
    ensures ReaderHas(m, x) <==> RegionArray.Mapped(Slots(m), x)
  {
    if k :| k in m && m[k].Has(x) {
      var r := RegionArray.Slot(m[k].start, m[k].end);
      assert r in Slots(m) && r.Has(x);
    }
    if r :| r in Slots(m) && r.Has(x) {
      var k := SlotOf(m, r);
      assert m[k].Has(x);
    }
  }

  lemma TracerHasAfter(w: set<Slot>, e: Event, x: nat)
    requires RegionArray.Separate(w) && e.Proper() && e.Mmap? && e.fixed
    ensures RegionArray.Mapped(WatchedStep(w, e), x)
       <==> (RegionArray.Mapped(w, x) && !(e.start <= x <= e.end)) || (e.what.Watched? && e.start <= x <= e.end)
  {
    hide RegionArray.Carved, RegionArray.Separate;
    RegionArray.CarvedMapped(w, e.start, e.end, x);
    var r := RegionArray.Slot(e.start, e.end);
    if e.what.Watched? {
      assert r in WatchedStep(w, e) && (r.Has(x) <==> e.start <= x <= e.end);
      if q :| q in Cleared(w, e) && q.Has(x) {
        assert q in WatchedStep(w, e);
      }
    }
  }

  lemma ReaderHasAfter(m: Regions, e: Event, x: nat)
    requires Disjoint(m) && e.Proper() && e.Mmap? && e.fixed
    ensures ReaderHas(ReaderStep(m, e), x)
       <==> (exists k :: k in m && m[k].Has(x) && (x < e.start || !m[k].Overlaps(e.start, e.end))) || (e.what.Watched? && e.start <= x <= e.end)
  {
    hide Overlap, Disjoint;
    RemovedDisjoint(m, e.start, e.end);
    var cleared, after := ReaderCleared(m, e), ReaderStep(m, e);
    if k :| k in m && m[k].Has(x) && (x < e.start || !m[k].Overlaps(e.start, e.end)) {
      NotEmpty(m, k);
      assert k in cleared && cleared[k].Has(x);
      StartIsFree(m, e, k);
      assert k in after && after[k].Has(x);
    }
    if e.what.Watched? && e.start <= x <= e.end {
      assert e.start in after && after[e.start].Has(x);
    }
    if k :| k in after && after[k].Has(x) {
      if k in cleared && after[k] == cleared[k] {
        NotEmpty(m, k);
        OverlapIsSharing(m[k].start, m[k].end, e.start, e.end);
        assert m[k].Has(x);
      }
    }
  }

  lemma StartIsFree(m: Regions, e: Event, k: nat)
    requires Disjoint(m) && e.Proper() && e.Mmap? && e.fixed && k in ReaderCleared(m, e)
    ensures k != e.start
  {
    hide Overlap;
    OverlapIsSharing(m[k].start, m[k].end, e.start, e.end);
  }

  // What one call drops, from equal tables: the addresses above a fixed mapping, up to the end of the region
  // that it ends in.  Writes to them are recorded, and no op is made for them.
  lemma WhatIsLost(m: Regions, w: set<Slot>, e: Event, x: nat)
    requires Disjoint(m) && RegionArray.Separate(w) && Slots(m) == w && e.Proper() && Accepts(w, e)
    ensures Disjoint(ReaderStep(m, e))
    ensures RegionArray.Mapped(WatchedStep(w, e), x) && !ReaderHas(ReaderStep(m, e), x)
       <==> e.Mmap? && e.fixed && exists k :: k in m && m[k].start <= e.end < x <= m[k].end
  {
    hide Overlap, Disjoint, RegionArray.Separate, RegionArray.Carved, RegionArray.Overlapping, RegionArray.Mapped, ReaderStep, WatchedStep, TracerStep, Accepts;
    StepAgrees(m, w, e);
    SameAddresses(m, x);
    if e.Mmap? && e.fixed {
      TracerHasAfter(w, e, x);
      ReaderHasAfter(m, e, x);
      LostAddress(m, e, x);
    } else {
      WatchedSeparate(w, e);
      SameAddresses(ReaderStep(m, e), x);
    }
  }

  lemma WatchedSeparate(w: set<Slot>, e: Event)
    requires RegionArray.Separate(w) && e.Proper() && Accepts(w, e)
    ensures RegionArray.Separate(WatchedStep(w, e))
  {
    hide RegionArray.Separate, RegionArray.Carved;
    TracerSeparate(w, e);
    SubsetSeparate(TracerStep(w, e), WatchedStep(w, e));
  }

  lemma LostAddress(m: Regions, e: Event, x: nat)
    requires Disjoint(m) && e.Proper()
    ensures ReaderHas(m, x) && !(e.start <= x <= e.end) && !(exists k :: k in m && m[k].Has(x) && (x < e.start || !m[k].Overlaps(e.start, e.end)))
       <==> exists k :: k in m && m[k].start <= e.end < x <= m[k].end
  {
    hide Overlap;
    forall k | k in m && m[k].Has(x) ensures forall j :: j in m && m[j].Has(x) ==> j == k {
      assert forall j :: j in m && j < k ==> m[j].end < m[k].start;
      assert forall j :: j in m && k < j ==> m[k].end < m[j].start;
    }
    forall k | k in m ensures m[k].Overlaps(e.start, e.end) <==> m[k].start <= e.end && e.start <= m[k].end {
      OverlapIsSharing(m[k].start, m[k].end, e.start, e.end);
    }
    if k :| k in m && m[k].start <= e.end < x <= m[k].end {
      assert m[k].Has(x);
    }
  }

  // One page mapped privately over the second of three shared pages: the tracer goes on recording writes to
  // the third page, and the reader has forgotten it.
  lemma ThirdPageIsLost()
    ensures var m: Regions := map[4096 := Region(4096, 16383, ["f"], 2, 0)];
            var e := Mmap(8192, 12287, true, NotShared);
            && Disjoint(m) && RegionArray.Separate(Slots(m)) && Loses(m, e)
            && RegionArray.Mapped(TracerStep(Slots(m), e), 12288) && !ReaderHas(ReaderStep(m, e), 12288)
  {
    var m: Regions := map[4096 := Region(4096, 16383, ["f"], 2, 0)];
    var e := Mmap(8192, 12287, true, NotShared);
    assert m[4096].start <= e.end < 12288 <= m[4096].end;
    WhatIsLost(m, Slots(m), e, 12288);
  }
}
