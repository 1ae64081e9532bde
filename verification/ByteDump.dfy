/** The byte dump of a traced process: what the tracer appends for each write call, and where the reader
    of the trace finds it again. */
module ByteDump {
  import opened FileBytes
  import opened FileSystem
  import opened DiskOps
  import opened MicroOps
  import opened WriteCalls

  /** The buffers of one call; a call that does not gather has one. */
  type Buffers = seq<seq<byte>>

  function Joined(buffers: Buffers): seq<byte> {
    if buffers == [] then [] else Joined(buffers[..|buffers| - 1]) + buffers[|buffers| - 1]
  }

  /** Everything that a run of calls dumps. */
  function Dumped(calls: seq<Buffers>): seq<byte> {
    if calls == [] then [] else Dumped(calls[..|calls| - 1]) + Joined(calls[|calls| - 1])
  }

  class Tracer {
    var dump: seq<byte>

    constructor ()
      ensures dump == []
    {
      dump := [];
    }

    /** dump_bytes */
    method DumpBytes(bytes: seq<byte>)
      modifies this
      ensures dump == old(dump) + bytes
    {
      dump := dump + bytes;
    }

    /** dump_iov: the bytes of all buffers in order, and how many they are. */
    method DumpIov(buffers: Buffers) returns (total: nat)
      modifies this
      ensures dump == old(dump) + Joined(buffers) && total == |Joined(buffers)|
    {
      total := 0;
      for cur := 0 to |buffers|
        invariant dump == old(dump) + Joined(buffers[..cur]) && total == |Joined(buffers[..cur])|
      {
        assert buffers[..cur + 1][..cur] == buffers[..cur];
        DumpBytes(buffers[cur]);
        total := total + |buffers[cur]|;
      }
      assert buffers[..|buffers|] == buffers;
    }

    /** A run of calls: the trace shows the total of each. */
    method TraceCalls(calls: seq<Buffers>) returns (totals: seq<nat>)
      modifies this
      ensures dump == old(dump) + Dumped(calls)
      ensures |totals| == |calls| && forall k :: 0 <= k < |calls| ==> totals[k] == |Joined(calls[k])|
    {
      totals := [];
      for k := 0 to |calls|
        invariant dump == old(dump) + Dumped(calls[..k])
        invariant |totals| == k && forall n :: 0 <= n < k ==> totals[n] == |Joined(calls[n])|
      {
        assert calls[..k + 1][..k] == calls[..k];
        var total := DumpIov(calls[k]);
        totals := totals + [total];
      }
      assert calls[..|calls|] == calls;
    }
  }

  /** The reader's loop over the trace of a process: it adds up the totals. */
  method Offsets(totals: seq<nat>, calls: seq<Buffers>) returns (offsets: seq<nat>)
    requires |totals| == |calls| && forall k :: 0 <= k < |calls| ==> totals[k] == |Joined(calls[k])|
    ensures |offsets| == |calls| && forall k :: 0 <= k < |calls| ==> offsets[k] == |Dumped(calls[..k])|
  {
    offsets := [];
    var dumpOffset := 0;
    for k := 0 to |totals|
      invariant dumpOffset == |Dumped(calls[..k])| && |offsets| == k
      invariant forall n :: 0 <= n < k ==> offsets[n] == |Dumped(calls[..n])|
    {
      assert calls[..k + 1][..k] == calls[..k];
      offsets := offsets + [dumpOffset];
      dumpOffset := dumpOffset + totals[k];
    }
  }

  // What was dumped stays where it is.
  lemma {:induction false} DumpedPrefix(calls: seq<Buffers>, k: nat)
    requires k <= |calls|
    ensures |Dumped(calls[..k])| <= |Dumped(calls)| && Dumped(calls)[..|Dumped(calls[..k])|] == Dumped(calls[..k])
    decreases |calls| - k
  {
    if k == |calls| {
      assert calls[..k] == calls;
    } else {
      DumpedPrefix(calls, k + 1);
      assert calls[..k + 1][..k] == calls[..k];
      var a, b := Dumped(calls[..k]), Joined(calls[k]);
      assert Dumped(calls)[..|a|] == Dumped(calls)[..|a| + |b|][..|a|];
    }
  }

  // The reader's offset of a call finds exactly the bytes of that call, whatever other calls there were.
  lemma OwnBytes(calls: seq<Buffers>, k: nat, dumps: Dumps, file: string)
    requires k < |calls| && file in dumps && dumps[file] == Dumped(calls)
    ensures var offset, count := |Dumped(calls[..k])|, |Joined(calls[k])|;
            InDump(dumps, file, offset, count) && ReadDump(dumps, file, offset, count) == Cells(Joined(calls[k]))
  {
    DumpedPrefix(calls, k + 1);
    assert calls[..k + 1][..k] == calls[..k];
    var a, b := Dumped(calls[..k]), Joined(calls[k]);
    assert Dumped(calls)[|a|..|a| + |b|] == Dumped(calls)[..|a| + |b|][|a|..] == b;
  }

  /** A gathering write, buffer after buffer. */
  function WriteEach(c: Content, pos: nat, buffers: Buffers): Content {
    if buffers == [] then c
    else
      var front := buffers[..|buffers| - 1];
      PWrite(WriteEach(c, pos, front), pos + |Joined(front)|, Cells(buffers[|buffers| - 1]))
  }

  lemma PWriteNothing(c: Content, pos: nat)
    ensures PWrite(c, pos, []) == c
  {
  }

  lemma CellsConcat(a: seq<byte>, b: seq<byte>)
    ensures Cells(a + b) == Cells(a) + Cells(b)
  {
  }

  // Writing the buffers one after another is writing their concatenation.
  lemma {:induction false} GatheredIsOneWrite(c: Content, pos: nat, buffers: Buffers)
    ensures WriteEach(c, pos, buffers) == PWrite(c, pos, Cells(Joined(buffers)))
    decreases |buffers|
  {
    hide PWrite;
    if buffers == [] {
      assert Cells([]) == [] && PWrite(c, pos, []) == c by { PWriteNothing(c, pos); }
    } else {
      var front, last := buffers[..|buffers| - 1], buffers[|buffers| - 1];
      GatheredIsOneWrite(c, pos, front);
      PWriteSplit(c, pos, Cells(Joined(front)), Cells(last));
      CellsConcat(Joined(front), last);
    }
  }

  // From the traced process to the micro ops: with the count and the dump offset that the reader finds,
  // the micro ops of a call do to the file what the buffers of the call, written one by one, do.
  lemma CallIsReplayed(fs: Fs, name: Path, inode: nat, sync: bool, calls: seq<Buffers>, k: nat, pos: nat, dumps: Dumps, file: string)
    requires k < |calls| && file in dumps && dumps[file] == Dumped(calls) && Joined(calls[k]) != []
    requires fs.Valid() && fs.Resolve(name) == Some(FileNode(inode)) && inode in fs.files
    ensures var a := WriteArgs(name, inode, sync, |Joined(calls[k])|, file, |Dumped(calls[..k])|);
            MicroReplay(fs, WriteOps(a, pos, |fs.FileOf(inode)|), dumps)
            == Some(SetBytes(fs, inode, WriteEach(fs.FileOf(inode), pos, calls[k])))
  {
    hide WriteOps, MicroReplay, PWrite;
    OwnBytes(calls, k, dumps, file);
    GatheredIsOneWrite(fs.FileOf(inode), pos, calls[k]);
    WriteIsPosix(fs, WriteArgs(name, inode, sync, |Joined(calls[k])|, file, |Dumped(calls[..k])|), pos, |fs.FileOf(inode)|, dumps);
  }
}
