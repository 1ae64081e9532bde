/** The region tracker of the memory tracer: an array of slots with holes, and a high-water mark. */
module RegionArray {
  import opened AddressRanges

  const MAX_MEM_REGIONS: nat := 2000

  /** Addresses from `start` to `end`, both included.  Start 0 marks a slot as free. */
  datatype Slot = Slot(start: nat, end: nat)
  {
    predicate Used() {
      start != 0
    }

    predicate Has(x: nat) {
      Used() && start <= x <= end
    }

    predicate Overlaps(a: nat, b: nat) {
      Overlap(start, end, a, b)
    }
  }

  // The abstract view: a set of intervals.

  ghost predicate Separate(s: set<Slot>) {
    && (forall r :: r in s ==> 0 < r.start <= r.end)
    && (forall q, r :: q in s && r in s && q != r ==> q.end < r.start || r.end < q.start)
  }

  ghost predicate Mapped(s: set<Slot>, x: nat) {
    exists r :: r in s && r.Has(x)
  }

  ghost function Overlapping(s: set<Slot>, a: nat, b: nat): set<Slot> {
    set r | r in s && r.Overlaps(a, b)
  }

  /** What is left of one interval around a hole. */
  function Pieces(r: Slot, a: nat, b: nat): set<Slot>
    requires a > 0
  {
    (if r.start < a then {Slot(r.start, a - 1)} else {}) + (if r.end > b then {Slot(b + 1, r.end)} else {})
  }

  /** The intervals around a hole. */
  ghost function Carved(s: set<Slot>, a: nat, b: nat): set<Slot>
    requires a > 0
  {
    (s - Overlapping(s, a, b)) + set r, q | r in Overlapping(s, a, b) && q in Pieces(r, a, b) :: q
  }

  lemma PiecesOf(r: Slot, a: nat, b: nat, q: Slot)
    requires 0 < r.start <= r.end && 0 < a <= b && r.Overlaps(a, b) && q in Pieces(r, a, b)
    ensures 0 < q.start <= q.end && !q.Overlaps(a, b) && r.start <= q.start && q.end <= r.end
    ensures q.end < a || b < q.start
  {
  }

  // Carving removes exactly the addresses of the hole.
  lemma CarvedMapped(s: set<Slot>, a: nat, b: nat, x: nat)
    requires Separate(s) && 0 < a <= b
    ensures Mapped(Carved(s, a, b), x) <==> Mapped(s, x) && !(a <= x <= b)
  {
    hide Overlap;
    if Mapped(Carved(s, a, b), x) {
      var q :| q in Carved(s, a, b) && q.Has(x);
      if q in s && !q.Overlaps(a, b) {
        OverlapIsSharing(q.start, q.end, a, b);
      } else {
        var r :| r in Overlapping(s, a, b) && q in Pieces(r, a, b);
        PiecesOf(r, a, b, q);
        assert r.Has(x);
      }
    }
    if Mapped(s, x) && !(a <= x <= b) {
      var r :| r in s && r.Has(x);
      if r.Overlaps(a, b) {
        OverlapIsSharing(r.start, r.end, a, b);
        var q := if x < a then Slot(r.start, a - 1) else Slot(b + 1, r.end);
        assert q in Pieces(r, a, b) && q in Carved(s, a, b) && q.Has(x);
      } else {
        assert r in Carved(s, a, b);
      }
    }
  }

  /** One round of the removal loop. */
  ghost function CarveOne(s: set<Slot>, r: Slot, a: nat, b: nat): set<Slot>
    requires a > 0
  {
    (s - {r}) + Pieces(r, a, b)
  }

  lemma CarveOneSeparate(s: set<Slot>, r: Slot, a: nat, b: nat)
    requires Separate(s) && 0 < a <= b && r in s && r.Overlaps(a, b)
    ensures Separate(CarveOne(s, r, a, b))
  {
    hide Overlap;
    forall q | q in Pieces(r, a, b) ensures 0 < q.start <= q.end && r.start <= q.start && q.end <= r.end && (q.end < a || b < q.start) {
      PiecesOf(r, a, b, q);
    }
  }

  lemma CarveOneStep(s: set<Slot>, r: Slot, a: nat, b: nat)
    requires Separate(s) && 0 < a <= b && r in s && r.Overlaps(a, b)
    ensures Overlapping(CarveOne(s, r, a, b), a, b) == Overlapping(s, a, b) - {r}
    ensures Carved(CarveOne(s, r, a, b), a, b) == Carved(s, a, b)
    ensures Pieces(r, a, b) !! s - {r}
  {
    hide Overlap;
    forall q | q in Pieces(r, a, b) ensures !q.Overlaps(a, b) && q !in s - {r} {
      PiecesOf(r, a, b, q);
    }
    assert Overlapping(CarveOne(s, r, a, b), a, b) == Overlapping(s, a, b) - {r};
    var after := CarveOne(s, r, a, b);
    forall q ensures q in Carved(after, a, b) <==> q in Carved(s, a, b) {
      if q in Pieces(r, a, b) {
        assert q in Carved(s, a, b) && q in after && q !in Overlapping(after, a, b);
      }
    }
  }

  lemma CarvedNothing(s: set<Slot>, a: nat, b: nat)
    requires a > 0 && Overlapping(s, a, b) == {}
    ensures Carved(s, a, b) == s
  {
  }

  // The concrete view: slots, some of them free.

  ghost function Intervals(s: seq<Slot>): set<Slot> {
    set i | 0 <= i < |s| && s[i].Used() :: s[i]
  }

  /** No interval is filed twice. */
  ghost predicate Distinct(s: seq<Slot>) {
    forall i, j :: 0 <= i < j < |s| && s[i].Used() && s[j].Used() ==> s[i] != s[j]
  }

  lemma {:induction false} IntervalsSize(s: seq<Slot>)
    requires Distinct(s)
    ensures |Intervals(s)| <= |s|
    ensures |Intervals(s)| == |s| <==> forall i :: 0 <= i < |s| ==> s[i].Used()
    decreases |s|
  {
    if s != [] {
      var rest, last := s[..|s| - 1], s[|s| - 1];
      IntervalsSize(rest);
      if last.Used() {
        assert last !in Intervals(rest);
        assert Intervals(s) == Intervals(rest) + {last};
      } else {
        assert Intervals(s) == Intervals(rest);
      }
    }
  }

  lemma FillSlot(s: seq<Slot>, i: nat, r: Slot)
    requires Distinct(s) && i < |s| && !s[i].Used() && r.Used() && r !in Intervals(s)
    ensures Intervals(s[i := r]) == Intervals(s) + {r} && Distinct(s[i := r])
  {
    var t := s[i := r];
    assert t[i] == r;
    forall q | q in Intervals(s) ensures q in Intervals(t) {
      var j :| 0 <= j < |s| && s[j].Used() && s[j] == q;
      assert t[j] == q;
    }
    forall j | 0 <= j < |s| && s[j].Used() ensures s[j] != r {
      assert s[j] in Intervals(s);
    }
  }

  lemma AppendSlot(s: seq<Slot>, r: Slot)
    requires Distinct(s) && r.Used() && r !in Intervals(s)
    ensures Intervals(s + [r]) == Intervals(s) + {r} && Distinct(s + [r])
  {
    var t := s + [r];
    assert t[|s|] == r;
    forall q | q in Intervals(s) ensures q in Intervals(t) {
      var j :| 0 <= j < |s| && s[j].Used() && s[j] == q;
      assert t[j] == q;
    }
    forall j | 0 <= j < |s| && s[j].Used() ensures s[j] != r {
      assert s[j] in Intervals(s);
    }
  }

  lemma FreeSlot(s: seq<Slot>, i: nat)
    requires Distinct(s) && i < |s| && s[i].Used()
    ensures Intervals(s[i := Slot(0, s[i].end)]) == Intervals(s) - {s[i]} && Distinct(s[i := Slot(0, s[i].end)])
    ensures i == |s| - 1 ==> Intervals(s[..i]) == Intervals(s) - {s[i]} && Distinct(s[..i])
  {
    var t := s[i := Slot(0, s[i].end)];
    forall q | q in Intervals(s) - {s[i]} ensures q in Intervals(t) && (i == |s| - 1 ==> q in Intervals(s[..i])) {
      var j :| 0 <= j < |s| && s[j].Used() && s[j] == q;
      assert j != i && t[j] == q;
      if i == |s| - 1 {
        assert s[..i][j] == q;
      }
    }
  }

  /** How a system call was taken in. */
  datatype Outcome = Done | OverlapAssert | CapacityAssert

  class MemregionTracker {
    const region: array<Slot>
    var regionLast: nat

    ghost predicate Valid()
      reads this, region
    {
      regionLast <= region.Length == MAX_MEM_REGIONS && Distinct(region[..regionLast]) && Separate(View())
    }

    /** The tracked intervals. */
    ghost function View(): set<Slot>
      reads this, region
    {
      if regionLast <= region.Length then Intervals(region[..regionLast]) else {}
    }

    constructor ()
      ensures Valid() && View() == {} && fresh(region)
    {
      region := new Slot[MAX_MEM_REGIONS](_ => Slot(0, 0));
      regionLast := 0;
    }

    /** _insert: the first free slot below the mark, or the next one; False where no slot is left. */
    method InsertSlot(start: nat, end: nat) returns (ok: bool)
      requires regionLast <= region.Length == MAX_MEM_REGIONS && Distinct(region[..regionLast])
      requires 0 < start && Slot(start, end) !in View()
      modifies this`regionLast, region
      ensures regionLast <= region.Length && Distinct(region[..regionLast])
      ensures ok <==> |old(View())| < MAX_MEM_REGIONS
      ensures ok ==> View() == old(View()) + {Slot(start, end)}
      ensures !ok ==> View() == old(View())
    {
      hide Distinct, Intervals;
      ghost var s := region[..regionLast];
      IntervalsSize(s);
      var i := 0;
      while i < regionLast && region[i].start != 0
        invariant 0 <= i <= regionLast && forall j :: 0 <= j < i ==> region[j].Used()
      {
        i := i + 1;
      }
      if i < regionLast {
        FillSlot(s, i, Slot(start, end));
        region[i] := Slot(start, end);
        assert region[..regionLast] == s[i := Slot(start, end)];
        ok := true;
      } else {
        ok := regionLast < MAX_MEM_REGIONS;
        if ok {
          AppendSlot(s, Slot(start, end));
          region[regionLast] := Slot(start, end);
          regionLast := regionLast + 1;
          assert region[..regionLast] == s + [Slot(start, end)];
        }
      }
    }

    /** _remove: lower the mark, or leave a hole. */
    method RemoveSlot(i: nat)
      requires i < regionLast <= region.Length && Distinct(region[..regionLast]) && region[i].Used()
      modifies this`regionLast, region
      ensures regionLast <= region.Length && Distinct(region[..regionLast])
      ensures View() == old(View()) - {old(region[i])}
    {
      ghost var s := region[..regionLast];
      FreeSlot(s, i);
      if i == regionLast - 1 {
        regionLast := regionLast - 1;
        assert region[..regionLast] == s[..i];
      } else {
        region[i] := Slot(0, region[i].end);
        assert region[..regionLast] == s[i := Slot(0, s[i].end)];
      }
    }

    /** _find_overlap: -1 when nothing overlaps. */
    method FindOverlap(a: nat, b: nat) returns (i: int)
      requires regionLast <= region.Length
      ensures i == -1 ==> Overlapping(View(), a, b) == {}
      ensures i != -1 ==> 0 <= i < regionLast && region[i].Used() && region[i] in Overlapping(View(), a, b)
    {
      i := 0;
      while i < regionLast
        invariant 0 <= i <= regionLast
        invariant forall j :: 0 <= j < i ==> !(region[j].Used() && region[j].Overlaps(a, b))
      {
        if region[i].start != 0 && region[i].Overlaps(a, b) {
          assert region[..regionLast][i] == region[i];
          return;
        }
        i := i + 1;
      }
      i := -1;
    }

    /** One round of _remove_overlaps: False where the slots run out. */
    method CarveRound(i: nat, a: nat, b: nat, entireRegions: bool) returns (ok: bool)
      requires Valid() && 0 < a <= b
      requires i < regionLast && region[i].Used() && region[i] in Overlapping(View(), a, b)
      modifies this`regionLast, region
      ensures ok <==> entireRegions || |old(View())| < MAX_MEM_REGIONS || !BothSides(old(region[i]), a, b)
      ensures ok ==> Valid()
      ensures ok ==> View() == if entireRegions then old(View()) - {old(region[i])} else CarveOne(old(View()), old(region[i]), a, b)
    {
      hide Overlap, Distinct, Separate, Intervals, Overlapping, CarveOne, Pieces;
      ghost var s, found := View(), region[i];
      var foundStart, foundEnd := region[i].start, region[i].end;
      TwoPieces(s, found, a, b);
      IntervalsSize(region[..regionLast]);
      RemoveSlot(i);
      ok := true;
      if !entireRegions {
        if foundStart < a {
          ok := InsertSlot(foundStart, a - 1);
        }
        if foundEnd > b {
          ok := InsertSlot(b + 1, foundEnd);
        }
      }
    }

    /** _remove_overlaps: False where the slots run out. */
    method RemoveOverlaps(a: nat, b: nat, entireRegions: bool) returns (ok: bool)
      requires Valid() && 0 < a <= b
      modifies this`regionLast, region
      ensures ok <==> entireRegions || |old(View())| < MAX_MEM_REGIONS || !Straddled(old(View()), a, b)
      ensures ok ==> Valid() && Overlapping(View(), a, b) == {}
      ensures ok ==> View() == if entireRegions then old(View()) - Overlapping(old(View()), a, b) else Carved(old(View()), a, b)
    {
      hide Overlap, Distinct, Separate, Carved, Intervals, Overlapping, CarveOne;
      ghost var before := View();
      var i := FindOverlap(a, b);
      while i != -1
        invariant Valid()
        invariant i == -1 ==> Overlapping(View(), a, b) == {}
        invariant i != -1 ==> 0 <= i < regionLast && region[i].Used() && region[i] in Overlapping(View(), a, b)
        invariant entireRegions ==> View() - Overlapping(View(), a, b) == before - Overlapping(before, a, b)
        invariant !entireRegions ==> Carved(View(), a, b) == Carved(before, a, b)
        invariant View() == before || !Straddled(View(), a, b)
        invariant !entireRegions && |before| >= MAX_MEM_REGIONS && Straddled(before, a, b) ==> View() == before
        decreases |Overlapping(View(), a, b)|
      {
        ghost var s, found := View(), region[i];
        RoundProgress(s, found, a, b);
        var done := CarveRound(i, a, b, entireRegions);
        if !done {
          return false;
        }
        i := FindOverlap(a, b);
      }
      StraddlesOverlap(View(), a, b);
      CarvedNothing(View(), a, b);
      ok := true;
    }

    /** insert: the mapping that a call made. */
    method Insert(start: nat, end: nat) returns (r: Outcome)
      requires Valid() && 0 < start <= end
      modifies this`regionLast, region
      ensures r == OverlapAssert <==> Overlapping(old(View()), start, end) != {}
      ensures r == CapacityAssert <==> Overlapping(old(View()), start, end) == {} && |old(View())| >= MAX_MEM_REGIONS
      ensures r == Done ==> Valid() && View() == old(View()) + {Slot(start, end)}
    {
      hide Overlap, Distinct, Intervals;
      var i := FindOverlap(start, end);
      if i != -1 {
        return OverlapAssert;
      }
      NewIsSeparate(View(), Slot(start, end));
      var ok := InsertSlot(start, end);
      r := if ok then Done else CapacityAssert;
    }

    /** address_mapped */
    method AddressMapped(x: nat) returns (mapped: bool)
      requires Valid()
      ensures mapped <==> Mapped(View(), x)
    {
      MappedOverlaps(View(), x);
      var i := FindOverlap(x, x);
      mapped := i != -1;
    }

    /** The exit of an mmap call that returned `start`. */
    method OnMmap(start: nat, length: nat, fixed: bool, tracked: bool) returns (r: Outcome)
      requires Valid() && start > 0 && length > 0
      modifies this`regionLast, region
      ensures fixed ==> r != OverlapAssert
      ensures var end := start + length - 1;
              var cleared := if fixed then Carved(old(View()), start, end) else old(View());
              && (r == Done ==> Valid() && View() == if tracked then cleared + {Slot(start, end)} else cleared)
              && (r == OverlapAssert <==> !fixed && tracked && Overlapping(old(View()), start, end) != {})
              && (r == CapacityAssert <==>
                    || (fixed && |old(View())| >= MAX_MEM_REGIONS && Straddled(old(View()), start, end))
                    || (tracked && |cleared| >= MAX_MEM_REGIONS && (fixed || Overlapping(old(View()), start, end) == {})))
      ensures r == CapacityAssert ==> |old(View())| + 1 >= MAX_MEM_REGIONS
    {
      hide Overlap, Distinct, Separate, Carved, Intervals, Straddled;
      var end := start + length - 1;
      r := Done;
      if fixed {
        CarvedSize(View(), start, end);
        var ok := RemoveOverlaps(start, end, false);
        if !ok {
          return CapacityAssert;
        }
      }
      if tracked {
        r := Insert(start, end);
      }
    }

    /** The exit of a successful munmap call. */
    method OnMunmap(start: nat, length: nat)
      requires Valid() && start > 0 && length > 0
      modifies this`regionLast, region
      ensures Valid() && View() == old(View()) - Overlapping(old(View()), start, start + length - 1)
    {
      hide Carved;
      var ok := RemoveOverlaps(start, start + length - 1, true);
    }
  }

  lemma MappedOverlaps(s: set<Slot>, x: nat)
    requires Separate(s)
    ensures Mapped(s, x) <==> Overlapping(s, x, x) != {}
  {
    forall r | r in s ensures r.Has(x) <==> r in Overlapping(s, x, x) {
    }
  }

  // What one round takes out and puts in.
  lemma TwoPieces(s: set<Slot>, r: Slot, a: nat, b: nat)
    requires Separate(s) && 0 < a <= b && r in Overlapping(s, a, b)
    ensures 0 < r.start && r in s && |s - {r}| == |s| - 1
    ensures Separate(s - {r}) && Separate(CarveOne(s, r, a, b))
    ensures r.start < a ==> Slot(r.start, a - 1) !in s - {r}
    ensures r.end > b ==> Slot(b + 1, r.end) !in s - {r} && (r.start < a ==> Slot(b + 1, r.end) != Slot(r.start, a - 1))
    ensures CarveOne(s, r, a, b) == AddPieces(s - {r}, r, a, b)
  {
    hide Overlap, Separate;
    InSeparate(s, r);
    OverlapIsSharing(r.start, r.end, a, b);
    CarveOneSeparate(s, r, a, b);
    CarveOneStep(s, r, a, b);
    DropSeparate(s, r);
    hide Overlapping, Carved;
    assert r.start < a ==> Slot(r.start, a - 1) in Pieces(r, a, b);
    assert r.end > b ==> Slot(b + 1, r.end) in Pieces(r, a, b);
  }

  /** The pieces, one at a time. */
  function AddPieces(s: set<Slot>, r: Slot, a: nat, b: nat): set<Slot>
    requires a > 0
  {
    var one := if r.start < a then s + {Slot(r.start, a - 1)} else s;
    if r.end > b then one + {Slot(b + 1, r.end)} else one
  }

  predicate BothSides(r: Slot, a: nat, b: nat) {
    r.start < a && b < r.end
  }

  /** Some interval reaches over the hole on both sides. */
  ghost predicate Straddled(s: set<Slot>, a: nat, b: nat) {
    exists r :: r in s && BothSides(r, a, b)
  }

  lemma StraddlesOverlap(s: set<Slot>, a: nat, b: nat)
    requires Overlapping(s, a, b) == {} && a <= b
    ensures !Straddled(s, a, b)
  {
    forall r | r in s ensures !BothSides(r, a, b) {
      assert r !in Overlapping(s, a, b);
    }
  }

  // An interval that straddles the hole is the only one that overlaps it.
  lemma OnlyStraddler(s: set<Slot>, a: nat, b: nat, r: Slot, q: Slot)
    requires Separate(s) && 0 < a <= b && r in s && BothSides(r, a, b) && q in Overlapping(s, a, b)
    ensures q == r
  {
  }

  lemma RoundProgress(s: set<Slot>, r: Slot, a: nat, b: nat)
    requires Separate(s) && 0 < a <= b && r in Overlapping(s, a, b)
    ensures Carved(CarveOne(s, r, a, b), a, b) == Carved(s, a, b)
    ensures |Overlapping(CarveOne(s, r, a, b), a, b)| < |Overlapping(s, a, b)|
    ensures (s - {r}) - Overlapping(s - {r}, a, b) == s - Overlapping(s, a, b)
    ensures |Overlapping(s - {r}, a, b)| < |Overlapping(s, a, b)|
    ensures !Straddled(CarveOne(s, r, a, b), a, b) && !Straddled(s - {r}, a, b)
    ensures Straddled(s, a, b) <==> BothSides(r, a, b)
  {
    hide Overlap, Carved, Separate;
    CarveOneStep(s, r, a, b);
    assert Overlapping(s - {r}, a, b) == Overlapping(s, a, b) - {r};
    if q :| q in s && BothSides(q, a, b) {
      OnlyStraddler(s, a, b, q, r);
    }
    forall q | q in s - {r} ensures !BothSides(q, a, b) {
      if BothSides(q, a, b) {
        OnlyStraddler(s, a, b, q, r);
      }
    }
  }

  lemma NewIsSeparate(s: set<Slot>, r: Slot)
    requires Separate(s) && 0 < r.start <= r.end && Overlapping(s, r.start, r.end) == {}
    ensures r !in s && Separate(s + {r})
  {
    forall q | q in s ensures q != r && (q.end < r.start || r.end < q.start) {
      assert q !in Overlapping(s, r.start, r.end);
    }
  }

  lemma InSeparate(s: set<Slot>, r: Slot)
    requires Separate(s) && r in s
    ensures 0 < r.start <= r.end
  {
  }

  lemma DropSeparate(s: set<Slot>, r: Slot)
    requires Separate(s)
    ensures Separate(s - {r})
  {
  }

  // Carving adds at most one interval.
  lemma CarvedSize(s: set<Slot>, a: nat, b: nat)
    requires Separate(s) && 0 < a <= b
    ensures |Carved(s, a, b)| <= |s| + 1
    decreases |Overlapping(s, a, b)|
  {
    hide Overlap, Carved, Separate, Straddled;
    if Overlapping(s, a, b) == {} {
      CarvedNothing(s, a, b);
    } else {
      var r :| r in Overlapping(s, a, b);
      RoundProgress(s, r, a, b);
      CarveOneSeparate(s, r, a, b);
      CarveOneStep(s, r, a, b);
      if BothSides(r, a, b) {
        AllGone(s, a, b, r);
        CarvedNothing(CarveOne(s, r, a, b), a, b);
        assert |CarveOne(s, r, a, b)| == |s| + 1;
      } else {
        assert |CarveOne(s, r, a, b)| <= |s|;
        CarvedSize(CarveOne(s, r, a, b), a, b);
      }
    }
  }

  lemma AllGone(s: set<Slot>, a: nat, b: nat, r: Slot)
    requires Separate(s) && 0 < a <= b && r in Overlapping(s, a, b) && BothSides(r, a, b)
    ensures Overlapping(CarveOne(s, r, a, b), a, b) == {}
  {
    CarveOneStep(s, r, a, b);
    forall q | q in Overlapping(s, a, b) ensures q == r {
      OnlyStraddler(s, a, b, r, q);
    }
  }
}
