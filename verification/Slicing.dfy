/** The slicing loops shared by truncates, appends and writes. */
module Slicing {
  import opened FileBytes

  datatype SplitMode = Aligned | Count

  /** How far one step of a slicing loop advances. */
  datatype Stride = ToMultiple(block: nat) | Fixed(size: nat)
  {
    predicate Positive() {
      match this
      case ToMultiple(block) => block > 0
      case Fixed(size) => size > 0
    }

    function Next(start: nat, remaining: nat): (n: nat)
      requires remaining > 0 && Positive()
      ensures 0 < n <= remaining
    {
      match this
      case ToMultiple(block) => Min(block - start % block, remaining)
      case Fixed(size) => Min(size, remaining)
    }
  }

  function StrideFor(mode: SplitMode, splits: nat, total: nat): (s: Stride)
    requires splits > 0
    ensures total > 0 ==> s.Positive()
  {
    match mode
    case Aligned => ToMultiple(splits)
    case Count => Fixed(CeilDiv(total, splits))
  }

  datatype Slice = Slice(lo: nat, hi: nat)

  /** The slices of [start, end), in order. */
  function Slices(start: nat, end: nat, stride: Stride): (s: seq<Slice>)
    requires start <= end
    requires start < end ==> stride.Positive()
    ensures start < end ==> s != [] && s[0].lo == start && s[|s| - 1].hi == end
    ensures start == end ==> s == []
    decreases end - start
  {
    if start == end then []
    else
      var mid := start + stride.Next(start, end - start);
      [Slice(start, mid)] + Slices(mid, end, stride)
  }

  /** Slices that follow one another from lo to hi, none of them empty. */
  predicate Chain(s: seq<Slice>, lo: nat, hi: nat) {
    if s == [] then lo == hi
    else s[0].lo == lo && lo < s[0].hi <= hi && Chain(s[1..], s[0].hi, hi)
  }

  function SlicesOf(mode: SplitMode, splits: nat, start: nat, end: nat): seq<Slice>
    requires splits > 0 && start <= end
  {
    Slices(start, end, StrideFor(mode, splits, end - start))
  }

  lemma {:induction false} SlicesChain(start: nat, end: nat, stride: Stride)
    requires start <= end && (start < end ==> stride.Positive())
    ensures Chain(Slices(start, end, stride), start, end)
    decreases end - start
  {
    if start < end {
      SlicesChain(start + stride.Next(start, end - start), end, stride);
    }
  }

  lemma SlicesStep(start: nat, end: nat, stride: Stride)
    requires start < end && stride.Positive()
    ensures var s, mid := Slices(start, end, stride), start + stride.Next(start, end - start);
            s != [] && s[0] == Slice(start, mid) && s[1..] == Slices(mid, end, stride)
  {
  }

  // Positions of a chain: each slice starts where the one before it ended.
  lemma {:induction false} ChainAt(s: seq<Slice>, lo: nat, hi: nat, k: nat)
    requires Chain(s, lo, hi) && k < |s|
    ensures lo <= s[k].lo < s[k].hi <= hi
    ensures s[k].lo == if k == 0 then lo else s[k - 1].hi
    ensures k + 1 == |s| ==> s[k].hi == hi
    ensures Chain(s[..k], lo, s[k].lo)
    ensures Chain(s[k + 1..], s[k].hi, hi)
  {
    if k > 0 {
      ChainAt(s[1..], s[0].hi, hi, k - 1);
      assert s[1..][..k - 1] == s[..k][1..];
      assert s[1..][k..] == s[k + 1..];
    }
  }

  lemma {:induction false} ChainExtend(s: seq<Slice>, lo: nat, mid: nat, hi: nat)
    requires Chain(s, lo, mid) && mid < hi
    ensures Chain(s + [Slice(mid, hi)], lo, hi)
  {
    var t := s + [Slice(mid, hi)];
    if s == [] {
      assert t[1..] == [] && Chain([], hi, hi);
    } else {
      ChainExtend(s[1..], s[0].hi, mid, hi);
      ChainAt(s, lo, mid, 0);
      assert t[1..] == s[1..] + [Slice(mid, hi)];
    }
  }

  // Two different slices of a chain share no position.
  lemma {:induction false} ChainDisjoint(s: seq<Slice>, lo: nat, hi: nat, i: nat, j: nat)
    requires Chain(s, lo, hi) && i < j < |s|
    ensures s[i].hi <= s[j].lo
  {
    if i == 0 {
      ChainAt(s[1..], s[0].hi, hi, j - 1);
    } else {
      ChainDisjoint(s[1..], s[0].hi, hi, i - 1, j - 1);
    }
  }

  // Every position of the range lies in some slice.
  lemma {:induction false} ChainCovers(s: seq<Slice>, lo: nat, hi: nat, p: nat) returns (k: nat)
    requires Chain(s, lo, hi) && lo <= p < hi
    ensures k < |s| && s[k].lo <= p < s[k].hi
  {
    if p < s[0].hi {
      k := 0;
    } else {
      k := ChainCovers(s[1..], s[0].hi, hi, p);
      k := k + 1;
    }
  }

  // With a fixed stride every slice but the last is full.
  lemma {:induction false} FixedCount(start: nat, end: nat, size: nat)
    requires start < end && size > 0
    ensures (|Slices(start, end, Fixed(size))| - 1) * size < end - start
    decreases end - start
  {
    var mid := start + Fixed(size).Next(start, end - start);
    var n := |Slices(mid, end, Fixed(size))|;
    if mid < end {
      FixedCount(mid, end, size);
      assert n * size == (n - 1) * size + size;
    }
  }

  // Count mode never makes more slices than were asked for.
  lemma CountModeBound(start: nat, end: nat, splits: nat)
    requires splits > 0 && start <= end
    ensures |SlicesOf(Count, splits, start, end)| <= splits
  {
    if start < end {
      var size := CeilDiv(end - start, splits);
      FixedCount(start, end, size);
      MulMonotone(splits, |Slices(start, end, Fixed(size))| - 1, size);
    }
  }

  lemma {:induction false} FixedSlices(start: nat, end: nat, size: nat, k: nat)
    requires start <= end && size > 0 && k < |Slices(start, end, Fixed(size))|
    ensures var s := Slices(start, end, Fixed(size));
            && (k + 1 < |s| ==> s[k].hi - s[k].lo == size)
            && 0 < s[k].hi - s[k].lo <= size
    decreases end - start
  {
    if k > 0 {
      FixedSlices(Slices(start, end, Fixed(size))[0].hi, end, size, k - 1);
    }
  }

  // Count mode: all slices but the last have the size that splitting evenly gives, rounded up.
  lemma CountModeEven(start: nat, end: nat, splits: nat, k: nat)
    requires splits > 0 && start <= end && k < |SlicesOf(Count, splits, start, end)|
    ensures var s := SlicesOf(Count, splits, start, end);
            && (k + 1 < |s| ==> s[k].hi - s[k].lo == CeilDiv(end - start, splits))
            && 0 < s[k].hi - s[k].lo <= CeilDiv(end - start, splits)
  {
    hide Slices, CeilDiv;
    if start < end {
      FixedSlices(start, end, CeilDiv(end - start, splits), k);
    }
  }

  lemma MulMonotone(a: nat, b: nat, c: nat)
    ensures a <= b ==> a * c <= b * c
  {
  }

  // Aligned mode: a slice never has a multiple of the block strictly inside it, and every slice
  // but the last ends on one.
  lemma {:induction false} AlignedSlices(start: nat, end: nat, block: nat, k: nat)
    requires block > 0 && start <= end
    requires k < |Slices(start, end, ToMultiple(block))|
    ensures var s := Slices(start, end, ToMultiple(block));
            && s[k].lo < s[k].hi
            && s[k].lo / block == (s[k].hi - 1) / block
            && (k + 1 < |s| ==> s[k].hi % block == 0)
    decreases end - start
  {
    var n := ToMultiple(block).Next(start, end - start);
    if k > 0 {
      AlignedSlices(start + n, end, block, k - 1);
    } else {
      WithinBlock(start, n, block);
    }
  }

  lemma WithinBlock(start: nat, n: nat, block: nat)
    requires block > 0 && 0 < n <= block - start % block
    ensures start / block == (start + n - 1) / block
    ensures n == block - start % block ==> (start + n) % block == 0
  {
    var q, r := start / block, start % block;
    assert start == q * block + r;
    QuotientIs(start + n - 1, q, block);
    if n == block - r {
      assert start + n == (q + 1) * block;
      QuotientIs(start + n, q + 1, block);
    }
  }

  lemma QuotientIs(a: nat, q: nat, b: nat)
    requires b > 0 && q * b <= a < (q + 1) * b
    ensures a / b == q && a % b == a - q * b
  {
    var p, r := a / b, a % b;
    assert a == p * b + r && (p + 1) * b == p * b + b;
    MulMonotone(p + 1, q, b);
    MulMonotone(q + 1, p, b);
  }

  // The reporter calls a write or an append "across_boundary" when its first and its last byte lie
  // in different blocks: exactly when aligned splitting makes more than one slice of it.
  lemma AcrossBoundary(offset: nat, count: nat, block: nat)
    requires block > 0 && count > 0
    ensures offset / block != (offset + count - 1) / block
       <==> |SlicesOf(Aligned, block, offset, offset + count)| >= 2
  {
    hide Slices;
    var n := ToMultiple(block).Next(offset, count);
    WithinBlock(offset, n, block);
    SlicesStep(offset, offset + count, ToMultiple(block));
    if n < count {
      var q := offset / block;
      assert offset == q * block + offset % block;
      var last := offset + count - 1;
      assert (q + 1) * block <= last;
      assert last == last / block * block + last % block;
      MulMonotone(last / block + 1, q + 1, block);
    }
  }

  // For a truncate the reporter compares the blocks of the two sizes instead.  So its label is right unless
  // the larger size is a multiple of the block and aligned splitting makes one slice.
  lemma TruncAcrossBoundary(lo: nat, hi: nat, block: nat)
    requires block > 0 && lo < hi
    ensures lo / block != hi / block <==> |SlicesOf(Aligned, block, lo, hi)| >= 2 || hi % block == 0
  {
    hide Slices;
    AcrossBoundary(lo, hi - lo, block);
    PreviousBlock(hi, block);
    BlockMonotone(lo, hi - 1, block);
  }

  lemma PreviousBlock(n: nat, block: nat)
    requires block > 0 && n > 0
    ensures (n - 1) / block == if n % block == 0 then n / block - 1 else n / block
  {
    var q, r := n / block, n % block;
    assert n == q * block + r && (q - 1) * block == q * block - block && (q + 1) * block == q * block + block;
    if r == 0 {
      assert q > 0;
      QuotientIs(n - 1, q - 1, block);
    } else {
      QuotientIs(n - 1, q, block);
    }
  }

  lemma BlockMonotone(a: nat, b: nat, block: nat)
    requires block > 0 && a <= b
    ensures a / block <= b / block
  {
    var p, q := a / block, b / block;
    assert a == p * block + a % block && b == q * block + b % block && (q + 1) * block == q * block + block;
    MulMonotone(q + 1, p, block);
  }
}
