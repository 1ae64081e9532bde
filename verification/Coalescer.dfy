/** The memory tracer's record of writes: bytes are dumped at once, contiguous writes share one record. */
module Coalescer {
  import opened FileBytes

  const COALESCE_MICROSECS: nat := 200000
  const TWO_TO_THE_64: nat := 0x1_0000_0000_0000_0000

  /** Memory, as far as it has been written. */
  type Memory = map<nat, byte>

  datatype MemWrite = MemWrite(addr: nat, bytes: seq<byte>)

  /** A line of the trace: where, and how many bytes. */
  datatype Record = Record(addr: nat, size: nat)

  function Store(m: Memory, addr: nat, bytes: seq<byte>): Memory
    decreases |bytes|
  {
    if bytes == [] then m else Store(m[addr := bytes[0]], addr + 1, bytes[1..])
  }

  // Two contiguous writes are one write.
  lemma {:induction false} StoreJoin(m: Memory, addr: nat, a: seq<byte>, b: seq<byte>)
    ensures Store(Store(m, addr, a), addr + |a|, b) == Store(m, addr, a + b)
    decreases |a|
  {
    if a == [] {
      assert a + b == b;
    } else {
      assert (a + b)[1..] == a[1..] + b;
      StoreJoin(m[addr := a[0]], addr + 1, a[1..], b);
    }
  }

  /** The writes themselves, one by one. */
  function ApplyWrites(m: Memory, w: seq<MemWrite>): Memory {
    if w == [] then m else Store(ApplyWrites(m, w[..|w| - 1]), w[|w| - 1].addr, w[|w| - 1].bytes)
  }

  function Total(r: seq<Record>): nat {
    if r == [] then 0 else Total(r[..|r| - 1]) + r[|r| - 1].size
  }

  /** The reader: it keeps a running offset into the dump, and takes as many bytes as each record says. */
  function Read(m: Memory, r: seq<Record>, dump: seq<byte>): Memory
    requires Total(r) <= |dump|
  {
    if r == [] then m
    else
      var offset := Total(r[..|r| - 1]);
      Store(Read(m, r[..|r| - 1], dump), r[|r| - 1].addr, dump[offset..offset + r[|r| - 1].size])
  }

  /** The store of one byte. */
  datatype ByteStore = ByteStore(addr: nat, value: byte)

  /** A write, byte by byte. */
  function Stores(addr: nat, bytes: seq<byte>): (s: seq<ByteStore>)
    ensures |s| == |bytes|
  {
    seq(|bytes|, k requires 0 <= k < |bytes| => ByteStore(addr + k, bytes[k]))
  }

  function StoresOf(w: seq<MemWrite>): seq<ByteStore> {
    if w == [] then [] else StoresOf(w[..|w| - 1]) + Stores(w[|w| - 1].addr, w[|w| - 1].bytes)
  }

  /** What the reader stores, byte by byte. */
  function StoresRead(r: seq<Record>, dump: seq<byte>): seq<ByteStore>
    requires Total(r) <= |dump|
  {
    if r == [] then []
    else
      var offset := Total(r[..|r| - 1]);
      StoresRead(r[..|r| - 1], dump) + Stores(r[|r| - 1].addr, dump[offset..offset + r[|r| - 1].size])
  }

  lemma StoresJoin(addr: nat, a: seq<byte>, b: seq<byte>)
    ensures Stores(addr, a) + Stores(addr + |a|, b) == Stores(addr, a + b)
  {
  }

  /** The reader's loop: a record at a time, adding the record's size to the offset. */
  method ReadTrace(m: Memory, r: seq<Record>, dump: seq<byte>) returns (result: Memory)
    requires Total(r) <= |dump|
    ensures result == Read(m, r, dump)
  {
    hide Store;
    result := m;
    var dumpOffset: nat := 0;
    for i := 0 to |r|
      invariant dumpOffset == Total(r[..i]) <= |dump|
      invariant result == Read(m, r[..i], dump)
    {
      TotalStep(r, i);
      assert r[..i + 1][..i] == r[..i];
      TotalMonotone(r, i + 1);
      result := Store(result, r[i].addr, dump[dumpOffset..dumpOffset + r[i].size]);
      dumpOffset := dumpOffset + r[i].size;
    }
    assert r[..|r|] == r;
  }

  lemma TotalStep(r: seq<Record>, i: nat)
    requires i < |r|
    ensures Total(r[..i + 1]) == Total(r[..i]) + r[i].size
  {
    assert r[..i + 1][..i] == r[..i];
  }

  lemma {:induction false} TotalMonotone(r: seq<Record>, i: nat)
    requires i <= |r|
    ensures Total(r[..i]) <= Total(r)
    decreases |r| - i
  {
    if i < |r| {
      TotalMonotone(r, i + 1);
      TotalStep(r, i);
    } else {
      assert r[..i] == r;
    }
  }

  // More bytes at the end of the dump do not change what the records mean.
  lemma {:induction false} ReadLonger(m: Memory, r: seq<Record>, dump: seq<byte>, more: seq<byte>)
    requires Total(r) <= |dump|
    ensures Read(m, r, dump + more) == Read(m, r, dump)
    ensures StoresRead(r, dump + more) == StoresRead(r, dump)
    decreases |r|
  {
    if r != [] {
      var offset := Total(r[..|r| - 1]);
      ReadLonger(m, r[..|r| - 1], dump, more);
      assert (dump + more)[offset..offset + r[|r| - 1].size] == dump[offset..offset + r[|r| - 1].size];
    }
  }

  lemma TotalLast(r: seq<Record>, last: Record)
    ensures Total(r + [last]) == Total(r) + last.size
  {
    assert (r + [last])[..|r|] == r;
  }

  lemma ReadLast(m: Memory, r: seq<Record>, last: Record, dump: seq<byte>)
    requires Total(r) + last.size <= |dump|
    ensures Total(r + [last]) == Total(r) + last.size
    ensures Read(m, r + [last], dump) == Store(Read(m, r, dump), last.addr, dump[Total(r)..Total(r) + last.size])
    ensures StoresRead(r + [last], dump) == StoresRead(r, dump) + Stores(last.addr, dump[Total(r)..Total(r) + last.size])
  {
    assert (r + [last])[..|r|] == r;
  }

  // The bytes of a new write, as one more record or as a longer last record.

  lemma NewRecord(m: Memory, r: seq<Record>, dump: seq<byte>, addr: nat, bytes: seq<byte>)
    requires Total(r) == |dump|
    ensures Total(r + [Record(addr, |bytes|)]) == |dump + bytes|
    ensures Read(m, r + [Record(addr, |bytes|)], dump + bytes) == Store(Read(m, r, dump), addr, bytes)
    ensures StoresRead(r + [Record(addr, |bytes|)], dump + bytes) == StoresRead(r, dump) + Stores(addr, bytes)
  {
    hide Store, Read;
    TotalLast(r, Record(addr, |bytes|));
    ReadLast(m, r, Record(addr, |bytes|), dump + bytes);
    ReadLonger(m, r, dump, bytes);
    assert (dump + bytes)[Total(r)..Total(r) + |bytes|] == bytes;
  }

  lemma LongerRecord(m: Memory, r: seq<Record>, last: Record, dump: seq<byte>, bytes: seq<byte>)
    requires Total(r) + last.size == |dump|
    ensures var longer := Record(last.addr, last.size + |bytes|);
            && Total(r + [longer]) == |dump + bytes|
            && Read(m, r + [longer], dump + bytes) == Store(Read(m, r + [last], dump), last.addr + last.size, bytes)
            && StoresRead(r + [longer], dump + bytes) == StoresRead(r + [last], dump) + Stores(last.addr + last.size, bytes)
  {
    hide Store, Read;
    var longer := Record(last.addr, last.size + |bytes|);
    TotalLast(r, longer);
    ReadLast(m, r, last, dump);
    ReadLast(m, r, longer, dump + bytes);
    ReadLonger(m, r, dump, bytes);
    var old_ := dump[Total(r)..Total(r) + last.size];
    assert (dump + bytes)[Total(r)..Total(r) + longer.size] == old_ + bytes;
    StoreJoin(Read(m, r, dump), last.addr, old_, bytes);
    StoresJoin(last.addr, old_, bytes);
  }

  /** Microseconds from one clock reading to a later one, in the tracer's unsigned arithmetic: a clock
      that went back gives a huge difference. */
  function TimeDiff(future: nat, past: nat): (d: nat)
    ensures past <= future < past + TWO_TO_THE_64 ==> d == future - past
    ensures future < past <= future + TWO_TO_THE_64 ==> d == TWO_TO_THE_64 - (past - future)
  {
    (future - past) % TWO_TO_THE_64
  }

  class MwriteTracker {
    /** Where the next write must start to be added to the open record; 0 when no record is open. */
    var nextLocation: nat
    var lastTime: nat
    var size: nat
    /** The address that the open record was begun with. */
    var openAddr: nat
    var records: seq<Record>
    var dump: seq<byte>
    /** Every write that was taken in. */
    ghost var history: seq<MemWrite>

    /** The records of the trace, the open one included. */
    function All(): seq<Record>
      reads this
    {
      if nextLocation != 0 then records + [Record(openAddr, size)] else records
    }

    ghost predicate Valid()
      reads this
    {
      && (nextLocation != 0 ==> nextLocation == openAddr + size)
      && Total(All()) == |dump|
      && (forall m: Memory :: Read(m, All(), dump) == ApplyWrites(m, history))
      && StoresRead(All(), dump) == StoresOf(history)
      && ((forall w :: w in history ==> w.bytes != []) ==> forall x :: x in All() ==> x.size > 0)
    }

    constructor ()
      ensures Valid() && history == [] && nextLocation == 0 && records == [] && dump == []
    {
      nextLocation, lastTime, size, openAddr := 0, 0, 0, 0;
      records, dump, history := [], [], [];
    }

    /** flush_mwrite: close the open record. */
    method Flush()
      requires Valid()
      modifies this`nextLocation, this`records
      ensures Valid() && nextLocation == 0 && records == old(All())
    {
      if nextLocation != 0 {
        records := records + [Record(openAddr, size)];
        nextLocation := 0;
      }
    }

    /** EmitWrite, for a write of at most 100 bytes. */
    method EmitWrite(ea: nat, bytes: seq<byte>, time: nat, mapped: bool)
      requires Valid() && |bytes| <= 100 && (mapped ==> ea > 0)
      modifies this
      ensures Valid()
      ensures history == if mapped then old(history) + [MemWrite(ea, bytes)] else old(history)
      ensures dump == if mapped then old(dump) + bytes else old(dump)
      ensures var joins := old(nextLocation) == ea && TimeDiff(time, old(lastTime)) < COALESCE_MICROSECS;
              All() == if !mapped then old(All())
                       else if joins then old(records) + [Record(old(openAddr), old(size) + |bytes|)]
                       else old(All()) + [Record(ea, |bytes|)]
      ensures mapped ==> nextLocation == ea + |bytes| && lastTime == time
    {
      hide Store, Read, Total, ApplyWrites, StoresRead, StoresOf, Stores;
      if mapped {
        ghost var before, all, last := dump, All(), Record(openAddr, size);
        dump := dump + bytes;
        history := history + [MemWrite(ea, bytes)];
        HistoryLast(old(history), MemWrite(ea, bytes));
        if nextLocation == ea && TimeDiff(time, lastTime) < COALESCE_MICROSECS {
          TotalLast(records, last);
          TotalLast(records, Record(openAddr, size + |bytes|));
          forall m: Memory
            ensures Read(m, records + [Record(openAddr, size + |bytes|)], dump) == Store(Read(m, all, before), ea, bytes)
          {
            LongerRecord(m, records, last, before, bytes);
          }
          LongerRecord(map[], records, last, before, bytes);
          size := size + |bytes|;
        } else {
          TotalLast(all, Record(ea, |bytes|));
          forall m: Memory
            ensures Read(m, all + [Record(ea, |bytes|)], dump) == Store(Read(m, all, before), ea, bytes)
          {
            NewRecord(m, all, before, ea, bytes);
          }
          NewRecord(map[], all, before, ea, bytes);
          if nextLocation != 0 {
            records := records + [Record(openAddr, size)];
            nextLocation := 0;
          }
          openAddr := ea;
          size := |bytes|;
        }
        nextLocation := ea + |bytes|;
        lastTime := time;
        forall m: Memory ensures Read(m, All(), dump) == ApplyWrites(m, history) {
          assert Read(m, all, before) == ApplyWrites(m, old(history));
          assert Read(m, All(), dump) == Store(Read(m, all, before), ea, bytes);
        }
      }
    }
  }

  lemma HistoryLast(w: seq<MemWrite>, last: MemWrite)
    ensures forall m: Memory :: ApplyWrites(m, w + [last]) == Store(ApplyWrites(m, w), last.addr, last.bytes)
    ensures StoresOf(w + [last]) == StoresOf(w) + Stores(last.addr, last.bytes)
  {
    assert (w + [last])[..|w|] == w;
  }
}
