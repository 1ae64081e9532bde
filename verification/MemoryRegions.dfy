/** The table of memory-mapped file regions in the micro-op converter. */
module MemoryRegions {
  import opened AddressRanges
  import opened FileSystem
  import opened MicroOps

  /** A file, and the path under which it was opened. */
  datatype Target = Target(name: Path, inode: nat)

  /** Addresses from `start` to `end`, both included, mapped to a file from `offset` on. */
  datatype Region = Region(start: nat, end: int, name: Path, inode: nat, offset: int)
  {
    predicate Has(x: nat) {
      start <= x <= end
    }

    function Backing(): Target {
      Target(name, inode)
    }

    /** Address x stands for this place of this file. */
    predicate Maps(x: nat, f: Target, at: int) {
      Has(x) && Backing() == f && at == offset + (x - start)
    }

    predicate Overlaps(a: nat, b: int) {
      Overlap(start, end, a, b)
    }
  }

  type Regions = map<nat, Region>

  /** Regions are filed under their start, are not empty, and share no address. */
  ghost predicate Disjoint(m: Regions) {
    && (forall k :: k in m ==> m[k].start == k && m[k].start <= m[k].end && m[k].offset >= 0)
    && (forall j, k :: j in m && k in m && j < k ==> m[j].end < m[k].start)
  }

  ghost predicate Maps(m: Regions, x: nat, f: Target, at: int) {
    exists k :: k in m && m[k].Maps(x, f, at)
  }

  ghost function Overlapping(m: Regions, a: nat, b: int): set<nat> {
    set k | k in m && m[k].Overlaps(a, b)
  }

  /** The regions that stand for an address, but of a region at the hole only the addresses below it. */
  ghost predicate MapsBelow(m: Regions, x: nat, f: Target, at: int, a: nat, b: int) {
    exists k :: k in m && m[k].Maps(x, f, at) && (x < a || !m[k].Overlaps(a, b))
  }

  /** What the removal loop leaves of the table. */
  ghost predicate CarvedBelow(before: Regions, after: Regions, a: nat, b: int) {
    forall x: nat, f: Target, at: int :: Maps(after, x, f, at) <==> MapsBelow(before, x, f, at, a, b)
  }

  /** What removing the hole and nothing else would leave. */
  ghost predicate CarvedExactly(before: Regions, after: Regions, a: nat, b: int) {
    forall x: nat, f: Target, at: int :: Maps(after, x, f, at) <==> Maps(before, x, f, at) && !(a <= x <= b)
  }

  /** Some region begins at or before the end of the hole and reaches beyond it. */
  ghost predicate ReachesBeyond(m: Regions, b: int) {
    exists k :: k in m && m[k].start <= b < m[k].end
  }

  // The loop removes the hole and nothing else exactly when no region reaches beyond the hole.
  lemma ExactIff(before: Regions, after: Regions, a: nat, b: int)
    requires Disjoint(before) && a <= b && CarvedBelow(before, after, a, b)
    ensures CarvedExactly(before, after, a, b) <==> !ReachesBeyond(before, b)
  {
    if ReachesBeyond(before, b) {
      var k :| k in before && before[k].start <= b < before[k].end;
      LostTail(before, after, a, b, k);
    } else {
      forall x: nat, f: Target, at: int
        ensures Maps(after, x, f, at) <==> Maps(before, x, f, at) && !(a <= x <= b)
      {
        SameBelow(before, x, f, at, a, b);
      }
    }
  }

  lemma LostTail(before: Regions, after: Regions, a: nat, b: int, k: nat)
    requires Disjoint(before) && a <= b && CarvedBelow(before, after, a, b)
    requires k in before && before[k].start <= b < before[k].end
    ensures b >= 0
    ensures var r := before[k]; var at := r.offset + (b + 1 - r.start);
            Maps(before, b + 1, r.Backing(), at) && !Maps(after, b + 1, r.Backing(), at)
  {
    var r := before[k];
    var at := r.offset + (b + 1 - r.start);
    assert r.Maps(b + 1, r.Backing(), at);
    forall j | j in before && before[j].Maps(b + 1, r.Backing(), at) ensures j == k {
    }
    assert !MapsBelow(before, b + 1, r.Backing(), at, a, b);
  }

  lemma SameBelow(before: Regions, x: nat, f: Target, at: int, a: nat, b: int)
    requires Disjoint(before) && a <= b && !ReachesBeyond(before, b)
    ensures MapsBelow(before, x, f, at, a, b) <==> Maps(before, x, f, at) && !(a <= x <= b)
  {
    forall k | k in before && before[k].Maps(x, f, at)
      ensures (x < a || !before[k].Overlaps(a, b)) <==> !(a <= x <= b)
    {
      OverlapIsSharing(before[k].start, before[k].end, a, b);
      assert !(before[k].start <= b < before[k].end);
    }
  }

  // The removal loop, round by round.

  /** What a region may have become. */
  predicate CutFrom(r: Region, s: Region, a: nat, b: int, whole: bool) {
    s == r || (!whole && r.Overlaps(a, b) && r.start < a && s == r.(end := a - 1))
  }

  ghost predicate Carving(before: Regions, m: Regions, a: nat, b: int, whole: bool) {
    && (forall k :: k in before && !before[k].Overlaps(a, b) ==> k in m && m[k] == before[k])
    && (forall k :: k in m ==> k in before && CutFrom(before[k], m[k], a, b, whole))
    && (!whole ==> forall k :: k in before && k < a ==> k in m)
  }

  lemma CarvingStart(m: Regions, a: nat, b: int, whole: bool)
    ensures Carving(m, m, a, b, whole)
  {
  }

  function CarveOne(m: Regions, k: nat, a: nat, whole: bool): Regions
    requires k in m
  {
    if !whole && m[k].start < a then (m - {k})[k := m[k].(end := a - 1)] else m - {k}
  }

  lemma CarveStep(before: Regions, m: Regions, k: nat, a: nat, b: int, whole: bool)
    requires Disjoint(before) && Disjoint(m) && a <= b && Carving(before, m, a, b, whole)
    requires k in m && m[k].Overlaps(a, b)
    ensures var after := CarveOne(m, k, a, whole);
            && Disjoint(after) && Carving(before, after, a, b, whole)
            && Overlapping(after, a, b) == Overlapping(m, a, b) - {k}
  {
    hide Overlap, Disjoint, Carving;
    var after := CarveOne(m, k, a, whole);
    assert m[k].start == k && m[k].start <= m[k].end by { NotEmpty(m, k); }
    OverlapIsSharing(m[k].start, m[k].end, a, b);
    CarveStepDisjoint(m, after, k, a);
    CarveStepCarving(before, m, k, a, b, whole);
    if k in after {
      OverlapIsSharing(after[k].start, after[k].end, a, b);
    }
  }

  lemma NotEmpty(m: Regions, k: nat)
    requires Disjoint(m) && k in m
    ensures m[k].start == k && m[k].start <= m[k].end && m[k].offset >= 0
  {
  }

  lemma CarveStepDisjoint(m: Regions, after: Regions, k: nat, a: nat)
    requires Disjoint(m) && k in m
    requires forall j :: j in after ==> j in m && (j != k ==> after[j] == m[j])
    requires k in after ==> k < a && after[k] == m[k].(end := a - 1) && a <= m[k].end + 1
    ensures Disjoint(after)
  {
  }

  lemma CarveStepCarving(before: Regions, m: Regions, k: nat, a: nat, b: int, whole: bool)
    requires Disjoint(before) && a <= b && Carving(before, m, a, b, whole) && k in m && m[k].Overlaps(a, b) && m[k].start == k
    ensures Carving(before, CarveOne(m, k, a, whole), a, b, whole)
  {
    hide Overlap, Disjoint;
    NotEmpty(before, k);
    if m[k] != before[k] {
      OverlapIsSharing(m[k].start, m[k].end, a, b);
    }
    assert m[k] == before[k];
  }

  lemma CarvingDone(before: Regions, after: Regions, a: nat, b: int)
    requires Disjoint(before) && Disjoint(after) && a <= b && Carving(before, after, a, b, false) && Overlapping(after, a, b) == {}
    ensures CarvedBelow(before, after, a, b)
  {
    forall x: nat, f: Target, at: int
      ensures Maps(after, x, f, at) <==> MapsBelow(before, x, f, at, a, b)
    {
      CarvedMaps(before, after, a, b, x, f, at);
    }
  }

  /** The table after remove_overlaps: of a region that overlaps the hole only the part below it is left. */
  function RemovedBelow(m: Regions, a: nat, b: int): Regions {
    map k | k in m && (k < a || !m[k].Overlaps(a, b)) :: if m[k].Overlaps(a, b) then m[k].(end := a - 1) else m[k]
  }

  lemma CarvingIsRemoval(before: Regions, after: Regions, a: nat, b: int)
    requires Disjoint(before) && Carving(before, after, a, b, false) && Overlapping(after, a, b) == {}
    ensures after == RemovedBelow(before, a, b)
  {
    hide Overlap;
    var removed := RemovedBelow(before, a, b);
    forall k | k in after ensures k in removed && after[k] == removed[k] {
      assert k !in Overlapping(after, a, b) && before[k].start == k;
      assert CutFrom(before[k], after[k], a, b, false);
    }
    assert forall k :: k in removed ==> k in after;
  }

  lemma CarvedMaps(before: Regions, after: Regions, a: nat, b: int, x: nat, f: Target, at: int)
    requires Disjoint(before) && Disjoint(after) && a <= b && Carving(before, after, a, b, false) && Overlapping(after, a, b) == {}
    ensures Maps(after, x, f, at) <==> MapsBelow(before, x, f, at, a, b)
  {
    hide Overlap, Disjoint;
    if Maps(after, x, f, at) {
      var k :| k in after && after[k].Maps(x, f, at);
      assert k !in Overlapping(after, a, b);
      NotEmpty(before, k);
      OverlapIsSharing(before[k].start, before[k].end, a, b);
      assert before[k].Maps(x, f, at);
    }
    if MapsBelow(before, x, f, at, a, b) {
      var k :| k in before && before[k].Maps(x, f, at) && (x < a || !before[k].Overlaps(a, b));
      NotEmpty(before, k);
      assert k in after && after[k].Maps(x, f, at);
    }
  }

  lemma WholeDone(before: Regions, after: Regions, a: nat, b: int)
    requires Carving(before, after, a, b, true) && Overlapping(after, a, b) == {}
    ensures after == map k | k in before && !before[k].Overlaps(a, b) :: before[k]
  {
    var kept := map k | k in before && !before[k].Overlaps(a, b) :: before[k];
    forall k ensures k in after <==> k in kept {
      assert k in after ==> k in Overlapping(after, a, b) || !after[k].Overlaps(a, b);
    }
  }

  // Resolving a range.

  /** A region cut down to a range. */
  function Clip(r: Region, a: nat, b: int): Region {
    var s := if r.start < a then a else r.start;
    Region(s, if r.end > b then b else r.end, r.name, r.inode, r.offset + (s - r.start))
  }

  predicate Sorted(s: seq<Region>) {
    forall i, j :: 0 <= i < j < |s| ==> s[i].end < s[j].start
  }

  ghost predicate SomeMaps(s: seq<Region>, x: nat, f: Target, at: int) {
    exists i :: 0 <= i < |s| && s[i].Maps(x, f, at)
  }

  /** These are the mapped parts of a range, in order: each lies in the range, and together they stand for
      exactly the mapped addresses of the range, with the places of the files that the table gives. */
  ghost predicate Resolved(m: Regions, a: nat, b: int, s: seq<Region>) {
    && Sorted(s)
    && (forall i :: 0 <= i < |s| ==> a <= s[i].start <= s[i].end <= b && s[i].offset >= 0)
    && forall x: nat, f: Target, at: int :: SomeMaps(s, x, f, at) <==> a <= x <= b && Maps(m, x, f, at)
  }

  lemma ClipMaps(r: Region, a: nat, b: int, x: nat, f: Target, at: int)
    requires r.start <= r.end && a <= b && r.Overlaps(a, b)
    ensures Clip(r, a, b).Maps(x, f, at) <==> a <= x <= b && r.Maps(x, f, at)
    ensures a <= Clip(r, a, b).start <= Clip(r, a, b).end <= b
  {
  }

  lemma PiecesAreMapped(m: Regions, taken: seq<nat>, r: seq<Region>, a: nat, b: int, x: nat, f: Target, at: int)
    requires Disjoint(m) && a <= b && |taken| == |r|
    requires forall i :: 0 <= i < |r| ==> taken[i] in m && m[taken[i]].Overlaps(a, b) && r[i] == Clip(m[taken[i]], a, b)
    requires forall k :: k in m && m[k].Overlaps(a, b) ==> k in taken
    ensures SomeMaps(r, x, f, at) <==> a <= x <= b && Maps(m, x, f, at)
  {
    hide Overlap, Clip, Disjoint;
    if SomeMaps(r, x, f, at) {
      var i :| 0 <= i < |r| && r[i].Maps(x, f, at);
      NotEmpty(m, taken[i]);
      ClipMaps(m[taken[i]], a, b, x, f, at);
    }
    if a <= x <= b && Maps(m, x, f, at) {
      var k :| k in m && m[k].Maps(x, f, at);
      NotEmpty(m, k);
      OverlapIsSharing(m[k].start, m[k].end, a, b);
      var i :| 0 <= i < |taken| && taken[i] == k;
      ClipMaps(m[k], a, b, x, f, at);
      assert r[i].Maps(x, f, at);
    }
  }

  lemma ClippedSorted(m: Regions, taken: seq<nat>, r: seq<Region>, a: nat, b: int)
    requires Disjoint(m) && a <= b && |taken| == |r|
    requires forall i :: 0 <= i < |r| ==> taken[i] in m && m[taken[i]].Overlaps(a, b) && r[i] == Clip(m[taken[i]], a, b)
    requires forall i, j :: 0 <= i < j < |r| ==> taken[i] < taken[j]
    ensures Sorted(r)
  {
    forall i, j | 0 <= i < j < |r| ensures r[i].end < r[j].start {
      OverlapIsSharing(m[taken[i]].start, m[taken[i]].end, a, b);
      OverlapIsSharing(m[taken[j]].start, m[taken[j]].end, a, b);
    }
  }

  method Least(s: set<nat>) returns (k: nat)
    requires s != {}
    ensures k in s && forall x :: x in s ==> k <= x
  {
    k :| k in s;
    var rest := s - {k};
    while rest != {}
      invariant rest <= s && k in s
      invariant forall x :: x in s && x !in rest ==> k <= x
      decreases |rest|
    {
      var x :| x in rest;
      if x < k {
        k := x;
      }
      rest := rest - {x};
    }
  }

  class MemregionTracker {
    var regions: Regions

    constructor ()
      ensures regions == map[]
    {
      regions := map[];
    }

    /** __find_overlap: some region of the table that shares an address with the range. */
    method FindOverlap(a: nat, b: int) returns (r: Option<nat>)
      ensures r.None? ==> Overlapping(regions, a, b) == {}
      ensures r.Some? ==> r.value in Overlapping(regions, a, b)
    {
      var todo := regions.Keys;
      while todo != {}
        invariant todo <= regions.Keys
        invariant forall k :: k in regions && k !in todo ==> !regions[k].Overlaps(a, b)
        decreases |todo|
      {
        var k :| k in todo;
        if regions[k].Overlaps(a, b) {
          return Some(k);
        }
        todo := todo - {k};
      }
      r := None;
    }

    /** insert: False where the assertion that nothing overlaps fails. */
    method Insert(r: Region) returns (ok: bool)
      requires Disjoint(regions) && r.start <= r.end && r.offset >= 0
      modifies this
      ensures Disjoint(regions)
      ensures ok <==> Overlapping(old(regions), r.start, r.end) == {}
      ensures regions == if ok then old(regions)[r.start := r] else old(regions)
    {
      var found := FindOverlap(r.start, r.end);
      ok := found.None?;
      if ok {
        assert forall k :: k in regions ==> k !in Overlapping(regions, r.start, r.end);
        regions := regions[r.start := r];
      } else {
        assert found.value in Overlapping(regions, r.start, r.end);
      }
    }

    /** remove_overlaps, with the comparison it makes for the part above the hole. */
    method RemoveOverlaps(a: nat, b: int, wholeRegions: bool)
      requires Disjoint(regions) && a <= b
      modifies this
      ensures Disjoint(regions) && Overlapping(regions, a, b) == {}
      ensures !wholeRegions ==> CarvedBelow(old(regions), regions, a, b) && regions == RemovedBelow(old(regions), a, b)
      ensures wholeRegions ==> regions == map k | k in old(regions) && !old(regions)[k].Overlaps(a, b) :: old(regions)[k]
    {
      hide Overlap, Disjoint, Carving, CarvedBelow;
      ghost var before := regions;
      CarvingStart(before, a, b, wholeRegions);
      var found := FindOverlap(a, b);
      while found.Some?
        invariant Disjoint(regions) && Carving(before, regions, a, b, wholeRegions)
        invariant found.None? ==> Overlapping(regions, a, b) == {}
        invariant found.Some? ==> found.value in Overlapping(regions, a, b)
        decreases |Overlapping(regions, a, b)|, found.Some?
      {
        var region := regions[found.value];
        CarveStep(before, regions, found.value, a, b, wholeRegions);
        NotEmpty(regions, found.value);
        OverlapIsSharing(region.start, region.end, a, b);
        ghost var expected := CarveOne(regions, found.value, a, wholeRegions);
        var next := regions - {found.value};
        if !wholeRegions {
          var below := region.(end := a - 1);
          var above := region.(start := b + 1, offset := (b + 1 - region.start) + region.offset);
          if region.start < a {
            next := next[below.start := below];
          }
          if region.start > b {
            next := next[above.start := above];
          }
        }
        assert next == expected;
        regions := next;
        found := FindOverlap(a, b);
      }
      if wholeRegions {
        WholeDone(before, regions, a, b);
      } else {
        CarvingDone(before, regions, a, b);
        CarvingIsRemoval(before, regions, a, b);
      }
    }

    /** resolve_range: the mapped parts of a range, in order. */
    method ResolveRange(a: nat, b: int) returns (r: seq<Region>)
      requires Disjoint(regions) && a <= b
      ensures Resolved(regions, a, b, r)
    {
      hide Overlap, Disjoint, Sorted, SomeMaps, Maps;
      var todo := set k | k in regions && regions[k].Overlaps(a, b);
      r := [];
      ghost var taken: seq<nat> := [];
      while todo != {}
        invariant |taken| == |r| && forall k :: k in todo ==> k in regions && regions[k].Overlaps(a, b)
        invariant forall i :: 0 <= i < |r| ==> taken[i] in regions && regions[taken[i]].Overlaps(a, b) && r[i] == Clip(regions[taken[i]], a, b)
        invariant forall k :: k in regions && regions[k].Overlaps(a, b) ==> k in todo || k in taken
        invariant forall i, k :: 0 <= i < |r| && k in todo ==> taken[i] < k
        invariant forall i, j :: 0 <= i < j < |r| ==> taken[i] < taken[j]
        decreases |todo|
      {
        var k := Least(todo);
        var region := regions[k];
        NotEmpty(regions, k);
        OverlapIsSharing(region.start, region.end, a, b);
        if region.start < a {
          assert a <= region.end;
          region := region.(offset := (a - region.start) + region.offset, start := a);
        }
        if region.end > b {
          assert b >= region.start;
          region := region.(end := b);
        }
        assert region.start >= a && region.end <= b;
        r, taken := r + [region], taken + [k];
        todo := todo - {k};
      }
      ClippedSorted(regions, taken, r, a, b);
      forall i | 0 <= i < |r| ensures a <= r[i].start <= r[i].end <= b && r[i].offset >= 0 {
        NotEmpty(regions, taken[i]);
        ClipMaps(regions[taken[i]], a, b, a, Target([], 0), 0);
      }
      forall x: nat, f: Target, at: int
        ensures SomeMaps(r, x, f, at) <==> a <= x <= b && Maps(regions, x, f, at)
      {
        PiecesAreMapped(regions, taken, r, a, b, x, f, at);
      }
    }

    /** The mwrite branch: one write op for every mapped part of the range. */
    method MemoryWrite(a: nat, length: nat, dumpFile: string, dumpOffset: nat) returns (ops: seq<MicroOp>)
      requires Disjoint(regions) && length > 0
      ensures forall k :: 0 <= k < |ops| ==> ops[k].Overwrite? && ops[k].count > 0 && ops[k].dumpFile == dumpFile
      ensures exists pieces :: Resolved(regions, a, a + length - 1, pieces) && AreWrites(ops, pieces, a, dumpFile, dumpOffset)
      ensures forall f: Target, at: int, d: int ::
                Emitted(ops, f, at, d)
                <==> dumpOffset <= d < dumpOffset + length && Maps(regions, a + (d - dumpOffset), f, at)
    {
      hide Disjoint, Sorted, Maps;
      var pieces := ResolveRange(a, a + length - 1);
      ops := [];
      for i := 0 to |pieces|
        invariant |ops| == i
        invariant forall k :: 0 <= k < i ==> ops[k] == WriteOfPiece(pieces[k], a, dumpFile, dumpOffset)
      {
        var region := pieces[i];
        var count: nat := region.end - region.start + 1;
        var curDumpOffset: nat := dumpOffset + (region.start - a);
        assert count > 0;
        ops := ops + [Overwrite(region.name, region.inode, region.offset, count, dumpFile, curDumpOffset)];
      }
      forall f: Target, at: int, d: int
        ensures Emitted(ops, f, at, d) <==> d - dumpOffset + a >= 0 && SomeMaps(pieces, d - dumpOffset + a, f, at)
      {
        EmittedIsMapped(pieces, ops, a, dumpFile, dumpOffset, f, at, d);
      }
      assert AreWrites(ops, pieces, a, dumpFile, dumpOffset);
    }

    /** The msync branch: one sync op for every mapped part of the range. */
    method MemorySync(a: nat, length: nat) returns (ops: seq<MicroOp>)
      requires Disjoint(regions) && length > 0
      ensures forall k :: 0 <= k < |ops| ==> ops[k].SyncRange? && ops[k].count > 0
      ensures forall f: Target, at: int ::
                Synced(ops, f, at) <==> exists x: nat :: a <= x < a + length && Maps(regions, x, f, at)
    {
      hide Disjoint, Sorted, Maps;
      var pieces := ResolveRange(a, a + length - 1);
      ops := [];
      for i := 0 to |pieces|
        invariant |ops| == i
        invariant forall k :: 0 <= k < i ==>
          ops[k] == SyncRange(pieces[k].name, pieces[k].inode, pieces[k].offset, pieces[k].end - pieces[k].start + 1)
      {
        var region := pieces[i];
        var count: nat := region.end - region.start + 1;
        ops := ops + [SyncRange(region.name, region.inode, region.offset, count)];
      }
      forall f: Target, at: int
        ensures Synced(ops, f, at) <==> exists x: nat :: SomeMaps(pieces, x, f, at)
      {
        SyncedIsMapped(pieces, ops, f, at);
      }
    }
  }

  function WriteOfPiece(r: Region, a: nat, dumpFile: string, dumpOffset: nat): MicroOp
    requires a <= r.start <= r.end && r.offset >= 0
  {
    Overwrite(r.name, r.inode, r.offset, r.end - r.start + 1, dumpFile, dumpOffset + (r.start - a))
  }

  predicate AreWrites(ops: seq<MicroOp>, pieces: seq<Region>, a: nat, dumpFile: string, dumpOffset: nat) {
    && |ops| == |pieces|
    && forall k :: 0 <= k < |ops| ==>
         && a <= pieces[k].start <= pieces[k].end && pieces[k].offset >= 0
         && ops[k] == WriteOfPiece(pieces[k], a, dumpFile, dumpOffset)
  }

  /** Some write op puts byte d of the dump at place `at` of the file. */
  ghost predicate Emitted(ops: seq<MicroOp>, f: Target, at: int, d: int) {
    exists k :: 0 <= k < |ops| && Puts(ops[k], f, at, d)
  }

  predicate Puts(op: MicroOp, f: Target, at: int, d: int) {
    op.Overwrite? && Target(op.name, op.inode) == f && op.offset <= at < op.offset + op.count && d == op.dumpOffset + (at - op.offset)
  }

  ghost predicate Synced(ops: seq<MicroOp>, f: Target, at: int) {
    exists k :: 0 <= k < |ops| && Syncs(ops[k], f, at)
  }

  predicate Syncs(op: MicroOp, f: Target, at: int) {
    op.SyncRange? && Target(op.name, op.inode) == f && op.offset <= at < op.offset + op.count
  }

  lemma EmittedIsMapped(pieces: seq<Region>, ops: seq<MicroOp>, a: nat, dumpFile: string, dumpOffset: nat, f: Target, at: int, d: int)
    requires |ops| == |pieces|
    requires forall k :: 0 <= k < |ops| ==> a <= pieces[k].start <= pieces[k].end && pieces[k].offset >= 0
    requires forall k :: 0 <= k < |ops| ==> ops[k] == WriteOfPiece(pieces[k], a, dumpFile, dumpOffset)
    ensures Emitted(ops, f, at, d) <==> d - dumpOffset + a >= 0 && SomeMaps(pieces, d - dumpOffset + a, f, at)
  {
    if Emitted(ops, f, at, d) {
      var k :| 0 <= k < |ops| && Puts(ops[k], f, at, d);
      assert pieces[k].Maps(d - dumpOffset + a, f, at);
    }
    if d - dumpOffset + a >= 0 && SomeMaps(pieces, d - dumpOffset + a, f, at) {
      var k :| 0 <= k < |pieces| && pieces[k].Maps(d - dumpOffset + a, f, at);
      assert Puts(ops[k], f, at, d);
    }
  }

  lemma SyncedIsMapped(pieces: seq<Region>, ops: seq<MicroOp>, f: Target, at: int)
    requires |ops| == |pieces| && forall k :: 0 <= k < |pieces| ==> pieces[k].start <= pieces[k].end && pieces[k].offset >= 0
    requires forall k :: 0 <= k < |ops| ==>
      ops[k] == SyncRange(pieces[k].name, pieces[k].inode, pieces[k].offset, pieces[k].end - pieces[k].start + 1)
    ensures Synced(ops, f, at) <==> exists x: nat :: SomeMaps(pieces, x, f, at)
  {
    if Synced(ops, f, at) {
      var k :| 0 <= k < |ops| && Syncs(ops[k], f, at);
      assert pieces[k].Maps(pieces[k].start + (at - pieces[k].offset), f, at);
      assert SomeMaps(pieces, pieces[k].start + (at - pieces[k].offset), f, at);
    }
    if x: nat :| SomeMaps(pieces, x, f, at) {
      var k :| 0 <= k < |pieces| && pieces[k].Maps(x, f, at);
      assert Syncs(ops[k], f, at);
    }
  }
}
