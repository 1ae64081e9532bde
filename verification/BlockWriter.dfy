/** The replayer's way of writing zeros or garbage: up to three runs of dd. */
module BlockWriter {
  import opened FileBytes
  import opened Slicing

  /** dd with conv=notrunc: `blocks` blocks of one byte value, `seek` blocks into the file. */
  function Dd(c: Content, seek: nat, blocks: nat, blockSize: nat, fill: Cell): Content {
    PWrite(c, seek * blockSize, Fill(blocks * blockSize, fill))
  }

  lemma RoundUp(offset: nat, block: nat)
    requires block > 0
    ensures offset <= CeilDiv(offset, block) * block < offset + block
  {
  }

  lemma RoundDown(n: nat, block: nat)
    requires block > 0
    ensures n / block * block <= n < n / block * block + block
  {
    assert n == n / block * block + n % block;
  }

  lemma ExactQuotient(q: nat, block: nat)
    requires block > 0
    ensures q * block / block == q && q * block % block == 0
  {
    QuotientIs(q * block, q, block);
  }

  lemma FillJoin(c: Content, offset: nat, a: nat, b: nat, fill: Cell)
    ensures PWrite(PWrite(c, offset, Fill(a, fill)), offset + a, Fill(b, fill)) == PWrite(c, offset, Fill(a + b, fill))
  {
    PWriteSplit(c, offset, Fill(a, fill), Fill(b, fill));
    assert Fill(a, fill) + Fill(b, fill) == Fill(a + b, fill);
  }

  // Rounding the range inwards to whole blocks, when it is longer than one block.
  lemma InnerBlocks(offset: nat, count: nat, block: nat)
    requires 0 < block < count
    ensures var q := CeilDiv(offset, block);
            var n := (offset + count - q * block) / block;
            && offset <= q * block < offset + block
            && q * block + n * block <= offset + count
            && (q + n) * block == q * block + n * block
            && q * block / block == q && (q + n) * block % block == 0
  {
    var q := CeilDiv(offset, block);
    var n := (offset + count - q * block) / block;
    RoundUp(offset, block);
    RoundDown(offset + count - q * block, block);
    ExactQuotient(q, block);
    ExactQuotient(q + n, block);
  }

  datatype Layout = Layout(preCount: nat, blockSize: nat, blocksOffset: nat, blocksCount: nat, postOffset: nat, postCount: nat)
  {
    /** The three runs follow one another from offset to the end of the range. */
    predicate Covers(offset: nat, count: nat) {
      && preCount + blocksCount * blockSize + postCount == count
      && (blocksCount > 0 ==> blocksOffset * blockSize == offset + preCount && blocksCount * blockSize > 0)
      && (postCount > 0 ==> postOffset == offset + preCount + blocksCount * blockSize)
    }
  }

  method Plan(offset: nat, count: nat) returns (l: Layout)
    requires count > 4096
    ensures l.Covers(offset, count)
    ensures l.preCount < l.blockSize && l.postCount < l.blockSize
    ensures l.blockSize == 4096 || l.blockSize == 1024 * 1024
    ensures l.blockSize == 1024 * 1024 <==> count > 4 * 1024 * 1024
  {
    var blockSize := if count > 4 * 1024 * 1024 then 1024 * 1024 else 4096;
    InnerBlocks(offset, count, blockSize);
    var blocksByteOffset: nat := CeilDiv(offset, blockSize) * blockSize;
    var blocksByteCount: nat := Max(0, offset + count - blocksByteOffset);
    var blocksCount: nat := blocksByteCount / blockSize;
    blocksByteCount := blocksCount * blockSize;
    var blocksOffset := blocksByteOffset / blockSize;
    hide CeilDiv, Max;

    var preBlocksCount: nat := blocksByteOffset - offset;
    assert preBlocksCount <= count;
    var postBlocksOffset: nat, postBlocksCount: nat := 0, 0;
    if preBlocksCount < count {
      postBlocksOffset := blocksByteOffset + blocksByteCount;
      assert postBlocksOffset % blockSize == 0;
      postBlocksCount := offset + count - postBlocksOffset;
    }
    assert preBlocksCount + blocksCount * blockSize + postBlocksCount == count;
    assert preBlocksCount < count ==> blocksOffset * blockSize == offset + preBlocksCount;
    assert postBlocksCount > 0 ==> (blocksOffset + blocksCount) * blockSize == postBlocksOffset;
    l := Layout(preBlocksCount, blockSize, blocksOffset, blocksCount, postBlocksOffset, postBlocksCount);
  }

  /** The special write of a slice of zeros or of garbage.  `pieces` lists the ranges that were written,
      in order: unaligned bytes, whole blocks, unaligned bytes. */
  method SpecialWrite(c: Content, offset: nat, count: nat, fill: Cell) returns (r: Content, pieces: seq<Slice>)
    ensures r == PWrite(c, offset, Fill(count, fill))
    ensures Chain(pieces, offset, offset + count) && |pieces| <= 3
    ensures count <= 4096 ==> |pieces| <= 1
  {
    hide PWrite, CeilDiv;
    if count <= 4096 {
      pieces := if count == 0 then [] else [Slice(offset, offset + count)];
      return PWrite(c, offset, Fill(count, fill)), pieces;
    }
    var l := Plan(offset, count);
    var blocksByteCount: nat := l.blocksCount * l.blockSize;
    r, pieces := c, [];
    NothingWritten(c, offset, fill);
    if l.preCount > 0 {
      r := Dd(r, offset, l.preCount, 1, fill);
      ChainExtend(pieces, offset, offset, offset + l.preCount);
      pieces := pieces + [Slice(offset, offset + l.preCount)];
    }
    assert r == PWrite(c, offset, Fill(l.preCount, fill));
    FillJoin(c, offset, l.preCount, blocksByteCount, fill);
    NothingWritten(r, offset + l.preCount, fill);
    if l.blocksCount > 0 {
      r := Dd(r, l.blocksOffset, l.blocksCount, l.blockSize, fill);
      ChainExtend(pieces, offset, offset + l.preCount, offset + l.preCount + blocksByteCount);
      pieces := pieces + [Slice(offset + l.preCount, offset + l.preCount + blocksByteCount)];
    }
    assert r == PWrite(c, offset, Fill(l.preCount + blocksByteCount, fill));
    FillJoin(c, offset, l.preCount + blocksByteCount, l.postCount, fill);
    NothingWritten(r, offset + l.preCount + blocksByteCount, fill);
    if l.postCount > 0 {
      r := Dd(r, l.postOffset, l.postCount, 1, fill);
      ChainExtend(pieces, offset, l.postOffset, l.postOffset + l.postCount);
      pieces := pieces + [Slice(l.postOffset, l.postOffset + l.postCount)];
    }
  }

  lemma NothingWritten(c: Content, offset: nat, fill: Cell)
    ensures PWrite(c, offset, Fill(0, fill)) == c
  {
  }
}
