/** replay_disk_ops with use_cached: a tree that is kept between calls, and extended when it can be. */
module ReplayCache {
  import opened FileSystem
  import opened DiskOps
  import opened Structs

  predicate Decodable(rows: seq<Struct>) {
    forall k :: 0 <= k < |rows| ==> Decode(rows[k]).Some?
  }

  function DecodeAll(rows: seq<Struct>): (ops: seq<DiskOp>)
    requires Decodable(rows)
    ensures |ops| == |rows|
  {
    seq(|rows|, k requires 0 <= k < |rows| => Decode(rows[k]).value)
  }

  /** Comparing two lists of rows, row by row. */
  predicate RowsEq(a: seq<Struct>, b: seq<Struct>) {
    |a| == |b| && forall k :: 0 <= k < |a| ==> Eq(a[k], b[k])
  }

  lemma RowsEqSameOps(a: seq<Struct>, b: seq<Struct>)
    requires RowsEq(a, b) && Decodable(a)
    ensures Decodable(b) && DecodeAll(a) == DecodeAll(b)
  {
    forall k | 0 <= k < |a| ensures Decode(b[k]) == Decode(a[k]) {
      EqSameEffect(a[k], b[k]);
    }
  }

  /** The tree that a replay leaves behind: the last one before an op that fails. */
  function LastTree(fs: Fs, ops: seq<DiskOp>, dumps: Dumps): Fs
    decreases |ops|
  {
    if ops == [] || Step(fs, ops[0], dumps).None? then fs
    else LastTree(Step(fs, ops[0], dumps).value, ops[1..], dumps)
  }

  lemma {:induction false} LastTreeIsResult(fs: Fs, ops: seq<DiskOp>, dumps: Dumps)
    ensures Replay(fs, ops, dumps).Some? ==> Replay(fs, ops, dumps).value == LastTree(fs, ops, dumps)
    decreases |ops|
  {
    hide Step;
    if ops != [] && Step(fs, ops[0], dumps).Some? {
      LastTreeIsResult(Step(fs, ops[0], dumps).value, ops[1..], dumps);
    }
  }

  // After a replay that raises, the tree is the one before the op that raised, with all ops before it done.
  lemma {:induction false} LeftOverTree(fs: Fs, ops: seq<DiskOp>, dumps: Dumps) returns (k: nat)
    requires Replay(fs, ops, dumps).None?
    ensures k < |ops| && Replay(fs, ops[..k], dumps) == Some(LastTree(fs, ops, dumps)) && Step(LastTree(fs, ops, dumps), ops[k], dumps).None?
    decreases |ops|
  {
    hide Step;
    if Step(fs, ops[0], dumps).None? {
      k := 0;
      assert ops[..0] == [];
    } else {
      k := LeftOverTree(Step(fs, ops[0], dumps).value, ops[1..], dumps);
      k := k + 1;
      assert ops[..k][1..] == ops[1..][..k - 1];
    }
  }

  /** The globals of the replayer: the rows that the kept tree stands for, and the tree. */
  datatype Cache = Cache(rows: seq<Struct>, tree: Fs)

  /** May the kept tree be extended?  A cache without rows is never used. */
  predicate Hit(cache: Cache, rows: seq<Struct>) {
    cache.rows != [] && |cache.rows| <= |rows| && RowsEq(rows[..|cache.rows|], cache.rows)
  }

  /** One call: the new globals and the tree that is handed out; None when the replay raises. */
  function Call(cache: Cache, snapshot: Fs, rows: seq<Struct>, dumps: Dumps): (Cache, Option<Fs>)
    requires Decodable(rows)
  {
    var todo := if Hit(cache, rows) then rows[|cache.rows|..] else rows;
    var tree := if Hit(cache, rows) then cache.tree else snapshot;
    (Cache(if Hit(cache, rows) then cache.rows + todo else rows, LastTree(tree, DecodeAll(todo), dumps)),
     Replay(tree, DecodeAll(todo), dumps))
  }

  /** The kept tree is what replaying the kept rows from scratch gives. */
  ghost predicate Consistent(cache: Cache, snapshot: Fs, dumps: Dumps) {
    Decodable(cache.rows) && (cache.rows != [] ==> Replay(snapshot, DecodeAll(cache.rows), dumps) == Some(cache.tree))
  }

  // A call on a consistent cache gives what a replay from scratch gives, failure included; and unless
  // it fails, the cache stays consistent.
  lemma CallIsReplay(cache: Cache, snapshot: Fs, rows: seq<Struct>, dumps: Dumps)
    requires Consistent(cache, snapshot, dumps) && Decodable(rows)
    ensures var (next, r) := Call(cache, snapshot, rows, dumps);
            r == Replay(snapshot, DecodeAll(rows), dumps) && (r.Some? ==> Consistent(next, snapshot, dumps))
  {
    hide Replay, LastTree, Decode, Eq;
    if Hit(cache, rows) {
      var n := |cache.rows|;
      RowsEqSameOps(rows[..n], cache.rows);
      assert DecodeAll(rows) == DecodeAll(rows[..n]) + DecodeAll(rows[n..]);
      ReplayConcat(snapshot, DecodeAll(rows[..n]), DecodeAll(rows[n..]), dumps);
      LastTreeIsResult(cache.tree, DecodeAll(rows[n..]), dumps);
      assert DecodeAll(cache.rows + rows[n..]) == DecodeAll(rows);
    } else {
      LastTreeIsResult(snapshot, DecodeAll(rows), dumps);
    }
  }

  /** The kept rows are those of a call that raised, or extend such rows: no tree belongs to them. */
  ghost predicate Spoiled(cache: Cache, snapshot: Fs, dumps: Dumps) {
    Decodable(cache.rows) && cache.rows != [] && Replay(snapshot, DecodeAll(cache.rows), dumps).None?
  }

  ghost predicate Sound(cache: Cache, snapshot: Fs, dumps: Dumps) {
    Consistent(cache, snapshot, dumps) || Spoiled(cache, snapshot, dumps)
  }

  /** A call extends rows that cannot be replayed, and what it adds happens to work on the left-over tree. */
  ghost predicate ReusesFailure(cache: Cache, snapshot: Fs, rows: seq<Struct>, dumps: Dumps)
    requires Decodable(rows)
  {
    && Spoiled(cache, snapshot, dumps) && Hit(cache, rows)
    && Replay(cache.tree, DecodeAll(rows[|cache.rows|..]), dumps).Some?
  }

  // A hit on kept rows replays them in front of what is left to do.
  lemma HitIsExtension(cache: Cache, snapshot: Fs, rows: seq<Struct>, dumps: Dumps)
    requires Decodable(cache.rows) && Decodable(rows) && Hit(cache, rows)
    ensures var rest := rows[|cache.rows|..];
            && DecodeAll(cache.rows + rest) == DecodeAll(rows) == DecodeAll(cache.rows) + DecodeAll(rest)
            && (Replay(snapshot, DecodeAll(cache.rows), dumps).None? ==> Replay(snapshot, DecodeAll(rows), dumps).None?)
  {
    hide Replay, Decode, Eq;
    var n := |cache.rows|;
    RowsEqSameOps(rows[..n], cache.rows);
    assert DecodeAll(rows) == DecodeAll(rows[..n]) + DecodeAll(rows[n..]);
    ReplayConcat(snapshot, DecodeAll(rows[..n]), DecodeAll(rows[n..]), dumps);
    assert DecodeAll(cache.rows + rows[n..]) == DecodeAll(rows);
  }

  // Whatever a call does, the globals stay those of a good replay or of a failed one.
  lemma SoundStays(cache: Cache, snapshot: Fs, rows: seq<Struct>, dumps: Dumps)
    requires Sound(cache, snapshot, dumps) && Decodable(rows)
    ensures Sound(Call(cache, snapshot, rows, dumps).0, snapshot, dumps)
  {
    hide Replay, LastTree, Decode, Eq;
    var (next, r) := Call(cache, snapshot, rows, dumps);
    if Hit(cache, rows) {
      HitIsExtension(cache, snapshot, rows, dumps);
      if Consistent(cache, snapshot, dumps) {
        CallIsReplay(cache, snapshot, rows, dumps);
      }
    } else {
      FreshCall(cache, snapshot, rows, dumps);
    }
  }

  // Main result for one call: on every cache that can come up, the call gives what a replay from scratch
  // gives if and only if it does not reuse a failure.
  lemma CallIsReplayIff(cache: Cache, snapshot: Fs, rows: seq<Struct>, dumps: Dumps)
    requires Sound(cache, snapshot, dumps) && Decodable(rows)
    ensures Call(cache, snapshot, rows, dumps).1 == Replay(snapshot, DecodeAll(rows), dumps)
       <==> !ReusesFailure(cache, snapshot, rows, dumps)
  {
    hide Replay, LastTree, Decode, Eq;
    if !Hit(cache, rows) {
      FreshCall(cache, snapshot, rows, dumps);
    } else if Consistent(cache, snapshot, dumps) {
      CallIsReplay(cache, snapshot, rows, dumps);
    } else {
      HitIsExtension(cache, snapshot, rows, dumps);
    }
  }

  // So a hit on a spoiled cache hands out nothing but wrong trees, and leaves the cache spoiled.
  lemma SpoiledHit(cache: Cache, snapshot: Fs, rows: seq<Struct>, dumps: Dumps)
    requires Spoiled(cache, snapshot, dumps) && Decodable(rows) && Hit(cache, rows)
    ensures Replay(snapshot, DecodeAll(rows), dumps).None?
    ensures Spoiled(Call(cache, snapshot, rows, dumps).0, snapshot, dumps)
  {
    hide Replay, LastTree, Decode, Eq;
    HitIsExtension(cache, snapshot, rows, dumps);
  }

  // The kept rows after a call: they mean what its rows mean, and its rows are a hit on them.
  lemma KeptRows(cache: Cache, snapshot: Fs, rows: seq<Struct>, more: seq<Struct>, dumps: Dumps)
    requires Decodable(rows) && Decodable(more) && rows != [] && (Hit(cache, rows) ==> Decodable(cache.rows))
    ensures var next := Call(cache, snapshot, rows, dumps).0;
            && |next.rows| == |rows| && Decodable(next.rows) && DecodeAll(next.rows) == DecodeAll(rows)
            && Hit(next, rows + more) && (rows + more)[|rows|..] == more && Decodable(rows + more)
  {
    hide Replay, LastTree, Decode, Eq;
    var next := Call(cache, snapshot, rows, dumps).0;
    if Hit(cache, rows) {
      HitIsExtension(cache, snapshot, rows, dumps);
      assert forall k :: 0 <= k < |cache.rows| ==> rows[..|cache.rows|][k] == rows[k];
    }
    assert (rows + more)[..|rows|] == rows;
    forall k | 0 <= k < |rows| ensures Eq(rows[k], next.rows[k]) {
      EqReflexive(rows[k]);
    }
  }

  // A call that raises spoils the cache.  From scratch, rows that extend the failed ones all fail; here
  // they give what the extension gives on the left-over tree, and the same rows once more always succeed.
  lemma CallAfterFailure(cache: Cache, snapshot: Fs, rows: seq<Struct>, more: seq<Struct>, dumps: Dumps)
    requires Sound(cache, snapshot, dumps) && Decodable(rows) && Decodable(more)
    requires Call(cache, snapshot, rows, dumps).1.None?
    ensures var next := Call(cache, snapshot, rows, dumps).0;
            && Spoiled(next, snapshot, dumps)
            && Decodable(rows + more) && Replay(snapshot, DecodeAll(rows + more), dumps).None?
            && Call(next, snapshot, rows + more, dumps).1 == Replay(next.tree, DecodeAll(more), dumps)
            && (more == [] ==> Call(next, snapshot, rows + more, dumps).1 == Some(next.tree))
  {
    hide LastTree, Decode, Eq, Step;
    var next := Call(cache, snapshot, rows, dumps).0;
    CallIsReplayIff(cache, snapshot, rows, dumps);
    KeptRows(cache, snapshot, rows, more, dumps);
    SpoiledHit(next, snapshot, rows + more, dumps);
  }

  /** Every call is made on the globals that the call before it left. */
  function Calls(cache: Cache, snapshot: Fs, calls: seq<seq<Struct>>, dumps: Dumps): (results: seq<Option<Fs>>)
    requires forall i :: 0 <= i < |calls| ==> Decodable(calls[i])
    ensures |results| == |calls|
    decreases |calls|
  {
    if calls == [] then []
    else
      var (next, r) := Call(cache, snapshot, calls[0], dumps);
      [r] + Calls(next, snapshot, calls[1..], dumps)
  }

  /** The globals that call i is made on. */
  function CacheAt(cache: Cache, snapshot: Fs, calls: seq<seq<Struct>>, dumps: Dumps, i: nat): Cache
    requires i <= |calls| && forall k :: 0 <= k < |calls| ==> Decodable(calls[k])
    decreases i
  {
    if i == 0 then cache
    else CacheAt(Call(cache, snapshot, calls[0], dumps).0, snapshot, calls[1..], dumps, i - 1)
  }

  // Main result: over any sequence of calls with any lists of rows, call i hands out what a replay of its
  // own rows from scratch gives if and only if it does not reuse a failure.
  lemma {:induction false} CallsAreReplaysIff(cache: Cache, snapshot: Fs, calls: seq<seq<Struct>>, dumps: Dumps, i: nat)
    requires forall k :: 0 <= k < |calls| ==> Decodable(calls[k])
    requires Sound(cache, snapshot, dumps) && i < |calls|
    ensures Sound(CacheAt(cache, snapshot, calls, dumps, i), snapshot, dumps)
    ensures Calls(cache, snapshot, calls, dumps)[i] == Replay(snapshot, DecodeAll(calls[i]), dumps)
       <==> !ReusesFailure(CacheAt(cache, snapshot, calls, dumps, i), snapshot, calls[i], dumps)
    decreases |calls|
  {
    hide Replay, LastTree, Decode, Eq, Sound, ReusesFailure;
    SoundStays(cache, snapshot, calls[0], dumps);
    if i == 0 {
      CallIsReplayIff(cache, snapshot, calls[0], dumps);
    } else {
      CallsAreReplaysIff(Call(cache, snapshot, calls[0], dumps).0, snapshot, calls[1..], dumps, i - 1);
    }
  }

  /** What a caller can check: no call extends the rows of a call that failed just before it. */
  predicate NoReuseAfterFailure(cache: Cache, snapshot: Fs, calls: seq<seq<Struct>>, dumps: Dumps)
    requires forall i :: 0 <= i < |calls| ==> Decodable(calls[i])
    decreases |calls|
  {
    |calls| >= 2 ==>
      var (next, r) := Call(cache, snapshot, calls[0], dumps);
      && (r.None? ==> !Hit(next, calls[1]))
      && NoReuseAfterFailure(next, snapshot, calls[1..], dumps)
  }

  // With that check, every call hands out the right tree.
  lemma {:induction false} CallsAreReplays(cache: Cache, snapshot: Fs, calls: seq<seq<Struct>>, dumps: Dumps, i: nat)
    requires forall i :: 0 <= i < |calls| ==> Decodable(calls[i])
    requires Consistent(cache, snapshot, dumps) || (calls != [] && !Hit(cache, calls[0]))
    requires NoReuseAfterFailure(cache, snapshot, calls, dumps) && i < |calls|
    ensures Calls(cache, snapshot, calls, dumps)[i] == Replay(snapshot, DecodeAll(calls[i]), dumps)
    decreases |calls|
  {
    hide Replay, LastTree, Decode, Eq;
    var (next, r) := Call(cache, snapshot, calls[0], dumps);
    if Hit(cache, calls[0]) {
      CallIsReplay(cache, snapshot, calls[0], dumps);
    } else {
      FreshCall(cache, snapshot, calls[0], dumps);
    }
    if i > 0 {
      CallsAreReplays(next, snapshot, calls[1..], dumps, i - 1);
    }
  }

  // A call that does not extend the kept rows starts from the snapshot, whatever the cache holds.
  lemma FreshCall(cache: Cache, snapshot: Fs, rows: seq<Struct>, dumps: Dumps)
    requires Decodable(rows) && !Hit(cache, rows)
    ensures var (next, r) := Call(cache, snapshot, rows, dumps);
            r == Replay(snapshot, DecodeAll(rows), dumps) && (r.Some? ==> Consistent(next, snapshot, dumps))
  {
    LastTreeIsResult(snapshot, DecodeAll(rows), dumps);
  }

  /** The replayer's module state. */
  class CachedReplayer {
    const snapshot: Fs
    const dumps: Dumps
    var cachedRows: seq<Struct>
    var tree: Fs

    ghost function State(): Cache
      reads this
    {
      Cache(cachedRows, tree)
    }

    constructor (snapshot: Fs, dumps: Dumps)
      ensures this.snapshot == snapshot && this.dumps == dumps && cachedRows == []
      ensures Consistent(State(), snapshot, dumps)
    {
      this.snapshot, this.dumps := snapshot, dumps;
      cachedRows, tree := [], snapshot;
    }

    /** replay_disk_ops(rows, use_cached = True) */
    method Replay(rows: seq<Struct>) returns (r: Option<Fs>)
      requires Decodable(rows)
      modifies this
      ensures (State(), r) == Call(old(State()), snapshot, rows, dumps)
      ensures old(Sound(State(), snapshot, dumps)) ==>
                && Sound(State(), snapshot, dumps)
                && (r == DiskOps.Replay(snapshot, DecodeAll(rows), dumps) <==> !old(ReusesFailure(State(), snapshot, rows, dumps)))
      ensures old(Consistent(State(), snapshot, dumps)) && r.Some? ==> Consistent(State(), snapshot, dumps)
    {
      hide Sound, Consistent, ReusesFailure;
      if Sound(State(), snapshot, dumps) {
        CallIsReplayIff(State(), snapshot, rows, dumps);
        SoundStays(State(), snapshot, rows, dumps);
      }
      if Consistent(State(), snapshot, dumps) {
        CallIsReplay(State(), snapshot, rows, dumps);
      }
      var todo := rows;
      if cachedRows != [] && |cachedRows| <= |rows| && RowsEq(rows[..|cachedRows|], cachedRows) {
        todo := rows[|cachedRows|..];
        cachedRows := cachedRows + todo;
      } else {
        cachedRows := rows;
        tree := snapshot;
      }
      ghost var start := tree;
      var i := 0;
      assert DecodeAll(todo)[0..] == DecodeAll(todo);
      while i < |todo|
        invariant 0 <= i <= |todo| && cachedRows == Call(old(State()), snapshot, rows, dumps).0.rows
        invariant DiskOps.Replay(start, DecodeAll(todo), dumps) == DiskOps.Replay(tree, DecodeAll(todo)[i..], dumps)
        invariant LastTree(start, DecodeAll(todo), dumps) == LastTree(tree, DecodeAll(todo)[i..], dumps)
      {
        var next := Step(tree, Decode(todo[i]).value, dumps);
        assert DecodeAll(todo)[i..][0] == Decode(todo[i]).value;
        assert DecodeAll(todo)[i..][1..] == DecodeAll(todo)[i + 1..];
        if next.None? {
          return None;
        }
        tree := next.value;
        i := i + 1;
      }
      r := Some(tree);
    }
  }
}
