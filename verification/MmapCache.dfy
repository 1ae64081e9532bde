/** The cache of a process's mapped files: built sorted from the lines of its map listing, searched by
    halving. */
module MmapCache {

  /** Addresses are 64 bits wide, and sums of them wrap. */
  const WORD: nat := 0x1_0000_0000_0000_0000

  /** A parsed line: a mapped file, the addresses [start, end) it takes, and the file offset of the first. */
  datatype Line = Line(start: nat, end: nat, offset: nat, name: string)

  /** Lines without a name and lines like "[heap]" are skipped. */
  predicate Skipped(line: Line) {
    line.name == "" || (line.name[0] == '[' && line.name[|line.name| - 1] == ']')
  }

  function Kept(lines: seq<Line>): seq<Line> {
    if lines == [] then []
    else Kept(lines[..|lines| - 1]) + (if Skipped(lines[|lines| - 1]) then [] else [lines[|lines| - 1]])
  }

  // Names in brackets and empty names are skipped, a bracket at one end is not enough.
  lemma SkippedNames(start: nat, end: nat, offset: nat)
    ensures Skipped(Line(start, end, offset, "")) && Skipped(Line(start, end, offset, "[heap]")) && Skipped(Line(start, end, offset, "[]"))
    ensures !Skipped(Line(start, end, offset, "[")) && !Skipped(Line(start, end, offset, "]"))
    ensures !Skipped(Line(start, end, offset, "/lib/a")) && !Skipped(Line(start, end, offset, "[a")) && !Skipped(Line(start, end, offset, "a]"))
  {
  }

  // The kept lines are the others, in their order.
  lemma {:induction false} KeptAre(lines: seq<Line>, line: Line)
    ensures line in Kept(lines) <==> line in lines && !Skipped(line)
    ensures |Kept(lines)| <= |lines|
    decreases |lines|
  {
    if lines != [] {
      KeptAre(lines[..|lines| - 1], line);
      assert lines == lines[..|lines| - 1] + [lines[|lines| - 1]];
    }
  }

  /** Regions are in the right order and apart. */
  ghost predicate Sorted(s: seq<Line>) {
    && (forall k :: 0 <= k < |s| ==> s[k].start <= s[k].end)
    && (forall j, k :: 0 <= j < k < |s| ==> s[j].start < s[k].start && s[j].end <= s[k].start)
  }

  /** What is checked when `line` comes behind the entries `s`. */
  predicate Fits(s: seq<Line>, line: Line) {
    && line.start <= line.end
    && (s != [] ==> s[|s| - 1].start < line.start && s[|s| - 1].end <= line.start)
  }

  /** Looking at the last entry alone is enough. */
  lemma FitsIsSorted(s: seq<Line>, line: Line)
    requires Sorted(s)
    ensures Fits(s, line) <==> Sorted(s + [line])
  {
    var t := s + [line];
    assert t[|s|] == line;
    if Sorted(t) && s != [] {
      assert t[|s| - 1] == s[|s| - 1];
    }
    if Fits(s, line) {
      forall j, k | 0 <= j < k < |t| ensures t[j].start < t[k].start && t[j].end <= t[k].start {
        if k == |s| {
          assert t[|s| - 1] == s[|s| - 1] && t[j] == s[j];
        }
      }
    }
  }

  /** The entries of a longer listing begin with those of a shorter one. */
  lemma {:induction false} KeptPrefix(lines: seq<Line>, n: nat)
    requires n <= |lines|
    ensures |Kept(lines[..n])| <= |Kept(lines)| && Kept(lines)[..|Kept(lines[..n])|] == Kept(lines[..n])
  {
    if n == |lines| {
      assert lines[..n] == lines;
    } else {
      var rest := lines[..|lines| - 1];
      assert rest[..n] == lines[..n];
      KeptPrefix(rest, n);
    }
  }

  /** A listing is rejected for good as soon as one line does not fit. */
  lemma RejectedEarly(lines: seq<Line>, n: nat)
    requires n < |lines| && Sorted(Kept(lines[..n])) && !Skipped(lines[n]) && !Fits(Kept(lines[..n]), lines[n])
    ensures !Sorted(Kept(lines))
  {
    var s := Kept(lines[..n]) + [lines[n]];
    assert lines[..n + 1][..n] == lines[..n] && lines[..n + 1][n] == lines[n];
    assert Kept(lines[..n + 1]) == s;
    FitsIsSorted(Kept(lines[..n]), lines[n]);
    KeptPrefix(lines, n + 1);
    assert forall k :: 0 <= k < |s| ==> s[k] == Kept(lines)[k];
  }

  predicate Holds(line: Line, addr: nat) {
    line.start <= addr < line.end
  }

  datatype Answer = Exits | Nothing | At(name: string, offset: nat)

  /** The file and the offset in it that a line gives for an address. */
  function Offset(line: Line, addr: nat): Answer
    requires line.start <= addr
  {
    At(line.name, (addr - line.start + line.offset) % WORD)
  }

  /** What a search is for: the entry that holds the address, if there is one. */
  ghost function Meaning(s: seq<Line>, addr: nat): Answer {
    if exists k :: 0 <= k < |s| && Holds(s[k], addr) then
      var k :| 0 <= k < |s| && Holds(s[k], addr);
      Offset(s[k], addr)
    else
      Nothing
  }

  /** There is only one such entry. */
  lemma MeaningAt(s: seq<Line>, addr: nat, k: nat)
    requires Sorted(s) && k < |s| && Holds(s[k], addr)
    ensures Meaning(s, addr) == Offset(s[k], addr)
    ensures forall j :: 0 <= j < |s| && Holds(s[j], addr) ==> j == k
  {
    assert forall j :: 0 <= j < k ==> s[j].end <= s[k].start;
    assert forall j :: k < j < |s| ==> s[k].end <= s[j].start;
  }

  // File offset plus distance from the start, in machine words.
  lemma OffsetIs(line: Line, addr: nat)
    requires line.start <= addr
    ensures var r := Offset(line, addr);
            r.At? && r.name == line.name && r.offset < WORD && (r.offset + line.start) % WORD == (addr + line.offset) % WORD
  {
  }

  lemma NothingMeant(s: seq<Line>, addr: nat)
    requires forall k :: 0 <= k < |s| ==> !Holds(s[k], addr)
    ensures Meaning(s, addr) == Nothing
  {
  }

  /** All entries end at or below the address. */
  ghost predicate AllBelow(s: seq<Line>, addr: nat) {
    forall k :: 0 <= k < |s| ==> s[k].end <= addr
  }

  /** What the search gives, when `beyond` is what memory holds behind the last entry. */
  ghost function Found(s: seq<Line>, beyond: Line, addr: nat): Answer {
    if AllBelow(s, addr) && Holds(beyond, addr) then Offset(beyond, addr) else Meaning(s, addr)
  }

  /** The search means what it should exactly when the entry behind the last one is not taken for an
      entry. */
  lemma FoundIsMeaningIff(s: seq<Line>, beyond: Line, addr: nat)
    requires Sorted(s)
    ensures Found(s, beyond, addr) == Meaning(s, addr) <==> !(AllBelow(s, addr) && Holds(beyond, addr))
  {
    if k :| 0 <= k < |s| && Holds(s[k], addr) {
      assert s[k].end > addr;
    }
  }

  /** It can be: an address above all entries, and left-over memory that holds it. */
  lemma StaleEntry()
    ensures Sorted([Line(0, 4096, 0, "/a")]) && Meaning([Line(0, 4096, 0, "/a")], 9000) == Nothing
    ensures Found([Line(0, 4096, 0, "/a")], Line(8192, 12288, 0, "/b"), 9000) == At("/b", 808)
  {
    var s := [Line(0, 4096, 0, "/a")];
    assert forall k :: 0 <= k < |s| ==> !Holds(s[k], 9000);
  }

  class Cache {
    var head: array?<Line>
    var size: nat

    /** One entry behind the last is always allocated. */
    ghost predicate Valid()
      reads this, head
    {
      if head == null then size == 0 else size < head.Length && Sorted(head[..size])
    }

    constructor ()
      ensures Valid() && head == null
    {
      head, size := null, 0;
    }

    /** alloc_mmap_cache; false where the program exits. */
    method Build(lines: seq<Line>) returns (ok: bool)
      modifies this
      ensures ok <==> old(head) == null && old(size) == 0 && Sorted(Kept(lines))
      ensures ok ==> Valid() && head != null && fresh(head) && head[..size] == Kept(lines)
    {
      if head != null || size != 0 {
        return false;
      }
      var cache := new Line[10];
      var i := 0;
      while i < |lines|
        invariant 0 <= i <= |lines| && fresh(cache) && head == null
        invariant size < cache.Length && cache[..size] == Kept(lines[..i]) && Sorted(cache[..size])
      {
        var line := lines[i];
        assert lines[..i + 1][..i] == lines[..i] && lines[..i + 1][i] == line;
        i := i + 1;
        if Skipped(line) {
          continue;
        }
        FitsIsSorted(cache[..size], line);
        var fits;
        fits, cache := Store(cache, size, line);
        if !fits {
          RejectedEarly(lines, i - 1);
          return false;
        }
        size := size + 1;
      }
      assert lines[..i] == lines;
      head := cache;
      ok := true;
    }

    /** One kept line becomes an entry, if it fits; then there is room for another. */
    static method Store(cache: array<Line>, size: nat, line: Line) returns (fits: bool, larger: array<Line>)
      requires size < cache.Length
      modifies cache
      ensures fits <==> Fits(old(cache[..size]), line)
      ensures fits ==> size + 1 < larger.Length && larger[..size + 1] == old(cache[..size]) + [line]
      ensures larger == cache || fresh(larger)
    {
      ghost var before := cache[..size];
      cache[size] := line;
      assert cache[..size] == before && cache[..size + 1] == before + [line];
      larger := cache;
      if line.end < line.start {
        return false, larger;
      }
      if size > 0 && (cache[size - 1].start >= line.start || cache[size - 1].end > line.start) {
        return false, larger;
      }
      if size + 1 >= cache.Length {
        larger := Doubled(cache);
        assert larger[..size + 1] == larger[..cache.Length][..size + 1];
      }
      fits := true;
    }

    /** realloc: the entries keep their contents, and those behind them hold anything. */
    static method Doubled(cache: array<Line>) returns (bigger: array<Line>)
      ensures fresh(bigger) && bigger.Length == 2 * cache.Length && bigger[..cache.Length] == cache[..]
    {
      bigger := new Line[2 * cache.Length];
      forall k | 0 <= k < cache.Length {
        bigger[k] := cache[k];
      }
    }

    /** delete_mmap_cache */
    method Delete()
      modifies this
      ensures Valid() && head == null && size == 0
    {
      head, size := null, 0;
    }

    /** The search of print_normalized_addr: the entry that holds the address, or -1.  It starts one entry too
        high, and can end there. */
    method Search(addr: nat) returns (i: int)
      requires Valid() && head != null
      ensures -1 <= i <= size && (i >= 0 ==> Holds(head[i], addr))
      ensures i == size ==> AllBelow(head[..size], addr)
      ensures i == -1 ==> (forall k :: 0 <= k < size ==> !Holds(head[k], addr)) && !(AllBelow(head[..size], addr) && Holds(head[size], addr))
    {
      var lower: int, upper: int := 0, size;
      while lower <= upper
        invariant 0 <= lower <= upper + 1 && lower <= size && upper <= size
        invariant forall k :: 0 <= k < lower && k < size ==> head[k].end <= addr
        invariant forall k :: upper < k < size ==> addr < head[k].start
        invariant upper == size || (size > 0 && addr < head[..size][size - 1].start)
        decreases upper - lower + 1
      {
        var mid := (upper + lower) / 2;
        var cur := head[mid];
        if Holds(cur, addr) {
          return mid;
        } else if lower == upper {
          assert lower == mid;
          assert mid < size ==> size > 0 && head[..size][mid].start <= head[..size][size - 1].start <= head[..size][size - 1].end;
          return -1;
        } else if addr < cur.start {
          assert mid < size && forall k :: mid < k < size ==> head[..size][mid].start < head[..size][k].start;
          upper := mid - 1;
        } else {
          assert mid < size && forall k :: 0 <= k < mid ==> head[..size][k].end <= head[..size][mid].start;
          lower := mid + 1;
        }
      }
      assert head[..size][size - 1].start <= head[..size][size - 1].end;
      i := -1;
    }

    /** print_normalized_addr: what is printed. */
    method NormalizedAddr(addr: nat) returns (r: Answer)
      requires Valid()
      ensures head == null ==> r == Exits
      ensures head != null ==> r == Found(head[..size], head[size], addr)
      ensures head != null ==> forall k :: 0 <= k < size && Holds(head[k], addr) ==>
                && r.At? && r.name == head[k].name && r.offset < WORD
                && (r.offset + head[k].start) % WORD == (addr + head[k].offset) % WORD
      ensures head != null && (forall k :: 0 <= k <= size ==> !Holds(head[k], addr)) ==> r == Nothing
    {
      hide Offset, Meaning;
      if head == null {
        return Exits;
      }
      var i := Search(addr);
      ghost var s := head[..size];
      assert forall k :: 0 <= k < size ==> s[k] == head[k];
      if i < 0 {
        NothingMeant(s, addr);
        return Nothing;
      }
      OffsetIs(head[i], addr);
      if i < size {
        MeaningAt(s, addr, i);
        assert s[i].end > addr;
      }
      r := Offset(head[i], addr);
    }
  }
}
