/** The table of traced processes. */
module TcbTable {

  /** One traced process.  A free entry is all zeros. */
  class Tcb {
    var pid: nat
    var inUse: bool
    var outf: nat
    var curcol: nat

    constructor ()
      ensures pid == 0 && !inUse && outf == 0 && curcol == 0
    {
      pid, inUse, outf, curcol := 0, false, 0, 0;
    }

    /** memset to zero. */
    method Clear()
      modifies this
      ensures pid == 0 && !inUse && outf == 0 && curcol == 0
    {
      pid, inUse, outf, curcol := 0, false, 0, 0;
    }
  }

  ghost predicate Distinct(s: seq<Tcb>) {
    forall i, j :: 0 <= i < j < |s| ==> s[i] != s[j]
  }

  class Table {
    var tab: array<Tcb>
    var nprocs: nat

    ghost function Entries(): set<Tcb>
      reads this`tab, tab
    {
      set t | t in tab[..]
    }

    /** The entries in use. */
    ghost function Active(): set<Tcb>
      reads this`tab, tab, Entries()
    {
      set t | t in tab[..] && t.inUse
    }

    /** The count is right, entries are distinct, and exactly the free ones have no pid. */
    ghost predicate Valid()
      reads this, tab, Entries()
    {
      && tab.Length > 0
      && Distinct(tab[..])
      && nprocs == |Active()|
      && forall t :: t in Entries() ==> (t.inUse <==> t.pid != 0)
    }

    /** No two processes in use have one pid. */
    ghost predicate UniquePids()
      reads this, tab, Entries()
    {
      forall s, t :: s in Active() && t in Active() && s.pid == t.pid ==> s == t
    }

    /** Entries of the table are never moved. */
    ghost predicate Preserved(entries: seq<Tcb>)
      reads this`tab, tab
    {
      |entries| <= tab.Length && tab[..|entries|] == entries
    }

    constructor (size: nat)
      requires size > 0
      ensures Valid() && UniquePids() && Active() == {} && fresh(tab) && fresh(Entries())
    {
      var first := new Tcb();
      var t := new Tcb[size](_ => first);
      tab := t;
      nprocs := 0;
      new;
      var i := 0;
      while i < size
        invariant 0 <= i <= size && tab == t && fresh(t) && t.Length == size && nprocs == 0
        invariant forall j :: 0 <= j < size ==> fresh(t[j]) && !t[j].inUse && t[j].pid == 0
        invariant forall j :: i <= j < size ==> t[j] == first
        invariant forall j, k :: 0 <= j < k < i ==> t[j] != t[k]
        invariant forall j :: 0 <= j < i ==> t[j] != first
        modifies t
      {
        t[i] := new Tcb();
        i := i + 1;
      }
      assert Active() == {};
    }

    /** The allocations of expand_tcbtab. */
    method Doubled() returns (bigger: array<Tcb>)
      requires Valid()
      ensures fresh(bigger) && bigger.Length == 2 * tab.Length && bigger[..tab.Length] == tab[..]
      ensures forall k :: tab.Length <= k < bigger.Length ==> fresh(bigger[k]) && !bigger[k].inUse && bigger[k].pid == 0
      ensures Distinct(bigger[..])
    {
      var n, first := tab.Length, tab[0];
      bigger := new Tcb[2 * n](_ => first);
      forall k | 0 <= k < n {
        bigger[k] := tab[k];
      }
      var i := n;
      while i < 2 * n
        invariant n <= i <= 2 * n && fresh(bigger) && bigger.Length == 2 * n
        invariant forall k :: 0 <= k < n ==> bigger[k] == tab[k]
        invariant forall k :: n <= k < i ==> fresh(bigger[k]) && !bigger[k].inUse && bigger[k].pid == 0
        invariant forall j, k :: n <= j < k < i ==> bigger[j] != bigger[k]
        modifies bigger
      {
        bigger[i] := new Tcb();
        i := i + 1;
      }
    }

    /** expand_tcbtab: twice the entries; those that were there stay the same objects. */
    method Expand()
      requires Valid()
      modifies this`tab
      ensures Valid() && fresh(tab) && tab.Length == 2 * old(tab.Length)
      ensures Preserved(old(tab[..])) && fresh(Entries() - old(Entries()))
      ensures Active() == old(Active()) && nprocs == old(nprocs)
    {
      hide Distinct;
      var bigger := Doubled();
      ghost var before, small := Active(), tab[..];
      tab := bigger;
      assert forall t :: t in small ==> t in tab[..|small|];
      assert forall t :: t in tab[..] && t !in small ==> fresh(t) && !t.inUse && t.pid == 0 by {
        forall t | t in tab[..] && t !in small ensures fresh(t) && !t.inUse && t.pid == 0 {
          var k :| 0 <= k < tab.Length && tab[k] == t;
          assert tab[..|small|] == small;
        }
      }
      assert Active() == before;
    }

    /** Some process in use has this pid. */
    ghost predicate Known(pid: int)
      reads this`tab, tab, Entries()
    {
      exists t :: t in Active() && t.pid == pid
    }

    /** The first lines of alloctcb: a full table is expanded, and then it is not full. */
    method MakeRoom()
      requires Valid()
      modifies this`tab
      ensures Valid() && nprocs < tab.Length && Active() == old(Active()) && nprocs == old(nprocs)
      ensures Preserved(old(tab[..])) && fresh(Entries() - old(Entries()))
      ensures tab.Length == if old(nprocs == tab.Length) then 2 * old(tab.Length) else old(tab.Length)
    {
      ActiveFits();
      if nprocs == tab.Length {
        Expand();
        ActiveFits();
      }
    }

    /** The loop of alloctcb: it always finds an entry, and the first free one. */
    method FindFree() returns (t: Tcb)
      requires Valid() && nprocs < tab.Length
      ensures !t.inUse && t in Entries() && t !in Active()
      ensures exists i :: 0 <= i < tab.Length && tab[i] == t && forall k :: 0 <= k < i ==> tab[k].inUse
    {
      SomeFree();
      var i := 0;
      while i < tab.Length && tab[i].inUse
        invariant 0 <= i <= tab.Length && forall k :: 0 <= k < i ==> tab[k].inUse
      {
        i := i + 1;
      }
      t := tab[i];
    }

    /** alloctcb: make room if there is none, and take the first free entry.  There always is one. */
    method Alloc(pid: nat) returns (t: Tcb)
      requires Valid() && pid != 0
      modifies this, Entries()
      ensures Valid() && nprocs == old(nprocs) + 1
      ensures t !in old(Active()) && Active() == old(Active()) + {t}
      ensures t.pid == pid && t.outf == 0 && t.curcol == 0
      ensures forall s :: s in old(Active()) ==> s.pid == old(s.pid) && s.outf == old(s.outf) && s.curcol == old(s.curcol)
      ensures tab.Length == if old(nprocs == tab.Length) then 2 * old(tab.Length) else old(tab.Length)
      ensures Preserved(old(tab[..])) && fresh(Entries() - old(Entries()))
    {
      hide Table.Valid, Distinct, Table.Preserved;
      ghost var before := Active();
      MakeRoom();
      t := FindFree();
      assert Active() == before;
      Occupy(t, pid);
    }

    /** The entry that alloctcb found is cleared, and filled in. */
    method Occupy(t: Tcb, pid: nat)
      requires Valid() && t in Entries() && !t.inUse && pid != 0
      modifies this`nprocs, t
      ensures Valid() && nprocs == old(nprocs) + 1 && Active() == old(Active()) + {t}
      ensures t.pid == pid && t.outf == 0 && t.curcol == 0
    {
      hide Distinct;
      ghost var before := Active();
      assert t !in before;
      t.Clear();
      t.pid := pid;
      t.inUse := true;
      nprocs := nprocs + 1;
      assert Active() == before + {t};
    }

    /** There are at most as many processes as entries. */
    lemma ActiveFits()
      requires Valid()
      ensures nprocs <= tab.Length
    {
      DistinctSize(tab[..]);
      SubsetSize(Active(), Entries());
    }

    /** When the table is not full some entry is free. */
    lemma SomeFree()
      requires Valid() && nprocs != tab.Length
      ensures exists i :: 0 <= i < tab.Length && !tab[i].inUse
    {
      if forall i :: 0 <= i < tab.Length ==> tab[i].inUse {
        assert Active() == Entries();
        DistinctSize(tab[..]);
      }
    }

    /** droptcb: an entry without a pid is left alone. */
    method Drop(t: Tcb)
      requires Valid() && t in Entries()
      modifies this`nprocs, t
      ensures Valid() && Active() == old(Active()) - {t} && !t.inUse
      ensures nprocs == if old(t.pid) == 0 then old(nprocs) else old(nprocs) - 1
    {
      if t.pid != 0 {
        ghost var before := Active();
        assert before == (before - {t}) + {t};
        nprocs := nprocs - 1;
        t.Clear();
        assert Active() == before - {t};
      }
    }

    /** pid2tcb */
    method Lookup(pid: int) returns (t: Tcb?)
      requires Valid()
      ensures t != null ==> t in Active() && t.pid == pid
      ensures t == null <==> pid <= 0 || !Known(pid)
    {
      if pid <= 0 {
        return null;
      }
      var i := 0;
      while i < tab.Length
        invariant 0 <= i <= tab.Length && forall k :: 0 <= k < i ==> !(tab[k].inUse && tab[k].pid == pid)
      {
        if tab[i].pid == pid && tab[i].inUse {
          assert tab[..][i] == tab[i];
          return tab[i];
        }
        i := i + 1;
      }
      t := null;
    }

    /** The entry of a process.  A process that is not known yet gets one when children are followed;
        otherwise it is an error, given as null. */
    method LookupOrAlloc(pid: nat, follow: bool) returns (t: Tcb?)
      requires Valid() && UniquePids() && pid != 0
      modifies this, Entries()
      ensures Valid() && UniquePids() && Preserved(old(tab[..])) && fresh(Entries() - old(Entries()))
      ensures t == null <==> !old(Known(pid)) && !follow
      ensures t == null ==> Active() == old(Active())
      ensures t != null ==> t.pid == pid && Active() == old(Active()) + {t} && (t in old(Active()) <==> old(Known(pid)))
      ensures forall s :: s in old(Active()) ==> s.pid == old(s.pid) && s.outf == old(s.outf) && s.curcol == old(s.curcol)
    {
      hide Table.Valid, Distinct;
      t := Lookup(pid);
      if t == null && follow {
        t := Alloc(pid);
      }
    }

    /** The head of the trace loop, for an event of process `pid`.  `oldPid` is what an exec event gives as
        the former pid of its thread, and 0 for any other event.  If a process of that pid is known, it
        takes over the pid and the output of the leader, and the leader's entry is dropped. */
    method TakeEvent(pid: nat, oldPid: int, follow: bool) returns (t: Tcb?)
      requires Valid() && UniquePids() && pid != 0
      modifies this, Entries()
      ensures Valid() && UniquePids() && Preserved(old(tab[..])) && fresh(Entries() - old(Entries()))
      ensures t == null <==> !old(Known(pid)) && !follow
      ensures t != null ==> t in Active() && t.pid == pid
      ensures t != null && oldPid > 0 && oldPid != pid ==> !Known(oldPid)
      ensures t != null && oldPid > 0 && oldPid != pid && old(Known(oldPid)) ==> t in old(Active()) && old(t.pid) == oldPid
      ensures t != null && oldPid > 0 && oldPid != pid && old(Known(oldPid)) ==>
                forall s :: s in old(Active()) && old(s.pid) == pid ==> t.outf == old(s.outf) && t.curcol == old(s.curcol)
      ensures t != null && old(Known(pid)) && !(oldPid > 0 && oldPid != pid && old(Known(oldPid))) ==>
                t in old(Active()) && t.outf == old(t.outf) && t.curcol == old(t.curcol)
      ensures forall s :: s in old(Active()) && old(s.pid) != pid && old(s.pid) != oldPid ==>
                s in Active() && s.pid == old(s.pid) && s.outf == old(s.outf) && s.curcol == old(s.curcol)
      ensures forall s :: s in Active() && s != t ==>
                s in old(Active()) && s.pid == old(s.pid) && s.outf == old(s.outf) && s.curcol == old(s.curcol)
    {
      hide Table.Valid, Distinct;
      t := LookupOrAlloc(pid, follow);
      if t != null && oldPid > 0 && oldPid != pid {
        var thread := Lookup(oldPid);
        if thread != null {
          ghost var entries := tab[..];
          TakeOver(t, thread, pid);
          t := thread;
          assert tab[..] == entries;
        }
      }
    }

    /** The execve switch. */
    method TakeOver(leader: Tcb, thread: Tcb, pid: nat)
      requires Valid() && UniquePids() && leader in Active() && thread in Active() && leader != thread && leader.pid == pid
      modifies this`nprocs, leader, thread
      ensures Valid() && UniquePids()
      ensures Active() == old(Active()) - {leader} && nprocs == old(nprocs) - 1
      ensures thread.pid == pid && thread.outf == old(leader.outf) && thread.curcol == old(leader.curcol)
      ensures old(thread.pid) != pid ==> !Known(old(thread.pid))
    {
      hide Table.Valid, Distinct;
      SwapOutput(leader, thread);
      Drop(leader);
      Relabel(thread, pid);
    }

    /** A process gets a pid that no other process in use has. */
    method Relabel(thread: Tcb, pid: nat)
      requires Valid() && UniquePids() && thread in Active() && pid != 0
      requires forall s :: s in Active() && s.pid == pid ==> s == thread
      modifies thread`pid
      ensures Valid() && UniquePids() && Active() == old(Active()) && thread.pid == pid
      ensures old(thread.pid) != pid ==> !Known(old(thread.pid))
    {
      hide Distinct;
      ghost var before := Active();
      thread.pid := pid;
      assert Active() == before;
    }

    /** The two processes exchange their output files. */
    method SwapOutput(leader: Tcb, thread: Tcb)
      requires Valid() && leader != thread
      modifies leader`outf, leader`curcol, thread`outf, thread`curcol
      ensures Valid() && Active() == old(Active())
      ensures thread.outf == old(leader.outf) && leader.outf == old(thread.outf) && thread.curcol == old(leader.curcol) && leader.curcol == 0
    {
      ghost var before := Active();
      var out := thread.outf;
      thread.outf := leader.outf;
      leader.outf := out;
      thread.curcol := leader.curcol;
      leader.curcol := 0;
      assert Active() == before;
    }
  }

  lemma {:induction false} DistinctSize(s: seq<Tcb>)
    requires Distinct(s)
    ensures |set t | t in s| == |s|
    decreases |s|
  {
    if s != [] {
      var rest, last := s[..|s| - 1], s[|s| - 1];
      DistinctSize(rest);
      assert (set t | t in s) == (set t | t in rest) + {last};
      assert last !in rest;
    }
  }

  lemma {:induction false} SubsetSize(a: set<Tcb>, b: set<Tcb>)
    requires a <= b
    ensures |a| <= |b|
  {
    if a != {} {
      var t :| t in a;
      SubsetSize(a - {t}, b - {t});
    }
  }
}
