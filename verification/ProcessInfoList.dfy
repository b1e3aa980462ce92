/** The singly-linked list of active processes (runtime/bin/process_linux) on the heap, proved to
    do what the exit-code protocol assumes of it. A pipe's descriptor stands for its child. */
module ProcessInfoList {
  import opened ProcessExit

  class ProcessInfo {
    const pid: Pid
    const fd: nat
    var next: ProcessInfo?

    constructor (pid: Pid, fd: nat)
      ensures this.pid == pid && this.fd == fd && next == null
    {
      this.pid, this.fd, this.next := pid, fd, null;
    }
  }

  function Entries(infos: seq<ProcessInfo>): (r: seq<Entry>)
    ensures |r| == |infos|
    ensures forall i :: 0 <= i < |r| ==> r[i] == Entry(infos[i].pid, infos[i].fd)
  {
    if infos == [] then [] else [Entry(infos[0].pid, infos[0].fd)] + Entries(infos[1..])
  }

  class ProcessList {
    var active: ProcessInfo?
    ghost var Infos: seq<ProcessInfo>

    ghost predicate Valid()
      reads this, Infos
    {
      && active == (if Infos == [] then null else Infos[0])
      && (forall i, j :: 0 <= i < j < |Infos| ==> Infos[i] != Infos[j])
      && (forall i {:trigger Successor(Infos, i)} :: 0 <= i < |Infos| ==> Infos[i].next == Successor(Infos, i))
    }

    static ghost function Successor(q: seq<ProcessInfo>, i: nat): ProcessInfo? {
      if i + 1 < |q| then q[i + 1] else null
    }

    constructor ()
      ensures Valid() && Infos == []
    {
      active, Infos := null, [];
    }

    method AddProcess(pid: Pid, fd: nat)
      requires Valid()
      modifies this
      ensures Valid() && Entries(Infos) == [Entry(pid, fd)] + old(Entries(Infos))
      ensures fresh(Infos[0]) && Infos[1..] == old(Infos)
    {
      var info := new ProcessInfo(pid, fd);
      info.next := active;
      active := info;
      ghost var q := Infos;
      Infos := [info] + q;
      forall i | 0 <= i < |Infos| ensures Infos[i].next == Successor(Infos, i) {
        assert i > 0 ==> old(q[i - 1].next) == Successor(q, i - 1);
      }
    }

    /** The pipe of the first process with this pid, or 0. */
    method LookupProcessExitFd(pid: Pid) returns (fd: nat)
      requires Valid()
      ensures fd == (match Find(Entries(Infos), pid) case PipeOf(child) => child case _ => 0)
    {
      var current := active;
      ghost var k := 0;
      assert Infos[0..] == Infos;
      while current != null
        invariant k <= |Infos| && current == if k < |Infos| then Infos[k] else null
        invariant Find(Entries(Infos), pid) == Find(Entries(Infos[k..]), pid)
        decreases |Infos| - k
      {
        assert Infos[k..][1..] == Infos[k + 1..];
        if current.pid == pid {
          return current.fd;
        }
        assert current.next == Successor(Infos, k);
        current := current.next;
        k := k + 1;
      }
      return 0;
    }

    /** Takes off the first process with this pid, if there is one. */
    method RemoveProcess(pid: Pid)
      requires Valid()
      modifies this, Infos
      ensures Valid() && Entries(Infos) == Without(old(Entries(Infos)), pid)
    {
      hide Entries, Without;
      var prev: ProcessInfo?, current := null, active;
      ghost var k := 0;
      while current != null
        invariant Valid() && Infos == old(Infos) && k <= |Infos|
        invariant current == if k < |Infos| then Infos[k] else null
        invariant prev == if k == 0 then null else Infos[k - 1]
        invariant NoneBefore(Infos, pid, k)
        decreases |Infos| - k
      {
        if current.pid == pid {
          EntriesWithout(Infos, pid, k);
          Unlink(prev, current, k);
          return;
        }
        assert current.next == Successor(Infos, k);
        prev, current := current, current.next;
        k := k + 1;
      }
      NoneAtAll(Infos, pid);
    }

    method Unlink(prev: ProcessInfo?, current: ProcessInfo, ghost k: nat)
      requires Valid() && k < |Infos| && current == Infos[k] && prev == if k == 0 then null else Infos[k - 1]
      modifies this, Infos
      ensures Valid() && Infos == old(Infos)[..k] + old(Infos)[k + 1..]
    {
      ghost var q := Infos;
      assert current.next == Successor(q, k);
      if prev == null {
        active := current.next;
      } else {
        prev.next := current.next;
      }
      Infos := q[..k] + q[k + 1..];
      forall i | 0 <= i < |Infos| ensures Infos[i].next == Successor(Infos, i) {
        var j := if i < k then i else i + 1;
        assert Infos[i] == q[j] && old(q[j].next) == Successor(q, j);
        assert j != k - 1 && k > 0 ==> q[j] != q[k - 1];
      }
    }
  }

  predicate NoneBefore(infos: seq<ProcessInfo>, pid: Pid, k: nat)
    requires k <= |infos|
  {
    forall i :: 0 <= i < k ==> infos[i].pid != pid
  }

  lemma EntriesWithout(infos: seq<ProcessInfo>, pid: Pid, k: nat)
    requires k < |infos| && infos[k].pid == pid && NoneBefore(infos, pid, k)
    ensures Entries(infos[..k] + infos[k + 1..]) == Without(Entries(infos), pid)
  {
    WithoutAt(Entries(infos), pid, k);
  }

  lemma NoneAtAll(infos: seq<ProcessInfo>, pid: Pid)
    requires NoneBefore(infos, pid, |infos|)
    ensures Without(Entries(infos), pid) == Entries(infos)
  {
    WithoutNone(Entries(infos), pid);
  }

  lemma {:induction false} WithoutAt(entries: seq<Entry>, pid: Pid, k: nat)
    requires k < |entries| && entries[k].pid == pid && forall i :: 0 <= i < k ==> entries[i].pid != pid
    ensures Without(entries, pid) == entries[..k] + entries[k + 1..]
  {
    if k > 0 {
      WithoutAt(entries[1..], pid, k - 1);
      assert [entries[0]] + entries[1..][..k - 1] == entries[..k];
      assert entries[1..][k..] == entries[k + 1..];
    }
  }

  lemma {:induction false} WithoutNone(entries: seq<Entry>, pid: Pid)
    requires forall e :: e in entries ==> e.pid != pid
    ensures Without(entries, pid) == entries
  {
    if entries != [] {
      assert entries == [entries[0]] + entries[1..];
      WithoutNone(entries[1..], pid);
    }
  }
}
