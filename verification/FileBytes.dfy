/** File contents as the replayers see them, and the two system calls that change them. */
module FileBytes {
  type byte = b: int | 0 <= b < 256

  /** One byte of a file.  `Garbage` stands for every byte the replayer fills in at random. */
  datatype Cell = Byte(value: nat) | Garbage

  const ZERO: Cell := Byte(0)

  type Content = seq<Cell>

  function Max(a: int, b: int): int {
    if a < b then b else a
  }

  function Min(a: int, b: int): int {
    if a < b then a else b
  }

  /** The least integer not below a / b: what math.ceil(float(a) / b) computes. */
  function CeilDiv(a: nat, b: nat): (q: nat)
    requires b > 0
    ensures (q as int - 1) * b < a <= q * b
  {
    assert a == a / b * b + a % b;
    (a + b - 1) / b
  }

  function Fill(n: nat, c: Cell): (s: Content)
    ensures |s| == n
    ensures forall k :: 0 <= k < n ==> s[k] == c
  {
    seq(n, k => c)
  }

  /** ftruncate: cut the file, or extend it with zero bytes. */
  function Resize(c: Content, size: nat): Content {
    seq(size, k requires 0 <= k => if k < |c| then c[k] else ZERO)
  }

  /** write at an offset: bytes past the old end that are not written read as zero,
      and writing nothing changes nothing. */
  function PWrite(c: Content, offset: nat, data: Content): Content {
    if data == [] then c
    else
      seq(Max(|c|, offset + |data|), k requires 0 <= k =>
          if offset <= k < offset + |data| then data[k - offset]
          else if k < |c| then c[k]
          else ZERO)
  }

  /** The byte at a position, as a read past the end of a file that is about to grow sees it. */
  function At(c: Content, k: nat): Cell {
    if k < |c| then c[k] else ZERO
  }

  lemma PWriteAt(c: Content, offset: nat, data: Content, k: nat)
    ensures At(PWrite(c, offset, data), k)
         == if offset <= k < offset + |data| then data[k - offset] else At(c, k)
    ensures |PWrite(c, offset, data)| == if data == [] then |c| else Max(|c|, offset + |data|)
  {
  }

  // Two writes side by side are one write.
  lemma PWriteSplit(c: Content, offset: nat, a: Content, b: Content)
    ensures PWrite(PWrite(c, offset, a), offset + |a|, b) == PWrite(c, offset, a + b)
  {
    forall k: nat ensures At(PWrite(PWrite(c, offset, a), offset + |a|, b), k) == At(PWrite(c, offset, a + b), k) {
      PWriteSplitAt(c, offset, a, b, k);
    }
    PWriteSplitAt(c, offset, a, b, 0);
    SameBytes(PWrite(PWrite(c, offset, a), offset + |a|, b), PWrite(c, offset, a + b));
  }

  lemma PWriteSplitAt(c: Content, offset: nat, a: Content, b: Content, k: nat)
    ensures At(PWrite(PWrite(c, offset, a), offset + |a|, b), k) == At(PWrite(c, offset, a + b), k)
    ensures |PWrite(PWrite(c, offset, a), offset + |a|, b)| == |PWrite(c, offset, a + b)|
  {
    PWriteAt(c, offset, a, k);
    PWriteAt(PWrite(c, offset, a), offset + |a|, b, k);
    PWriteAt(c, offset, a + b, k);
  }

  lemma SameBytes(c: Content, d: Content)
    requires |c| == |d| && forall k: nat :: At(c, k) == At(d, k)
    ensures c == d
  {
    forall k | 0 <= k < |c| ensures c[k] == d[k] {
      assert At(c, k) == At(d, k);
    }
  }

  // The later of two writes of the same range wins.
  lemma PWriteOver(c: Content, offset: nat, a: Content, b: Content)
    requires |a| == |b|
    ensures PWrite(PWrite(c, offset, a), offset, b) == PWrite(c, offset, b)
  {
  }

  lemma PWriteAtEnd(c: Content, data: Content)
    ensures PWrite(c, |c|, data) == c + data
  {
  }

  lemma PWriteMiddle(a: Content, b: Content, data: Content, e: Content)
    requires |b| == |data|
    ensures PWrite(a + b + e, |a|, data) == a + data + e
  {
    forall k: nat ensures At(PWrite(a + b + e, |a|, data), k) == At(a + data + e, k) {
      PWriteAt(a + b + e, |a|, data, k);
    }
    SameBytes(PWrite(a + b + e, |a|, data), a + data + e);
  }

  lemma ResizeUp(c: Content, size: nat)
    requires |c| <= size
    ensures PWrite(c, |c|, Fill(size - |c|, ZERO)) == Resize(c, size)
  {
  }

  lemma ResizeDown(c: Content, size: nat)
    requires size <= |c|
    ensures Resize(c, size) == c[..size]
  {
  }

  // An append as one resize and one write: whatever followed the offset is replaced.
  lemma ResizeThenWrite(c: Content, offset: nat, data: Content)
    ensures PWrite(Resize(c, offset + |data|), offset, data) == Resize(c, offset) + data
  {
  }
}
