/** The linked list of waiters inside the Windows monitor (runtime/platform/thread_win), on the
    heap: nodes are reused, so a node off the list may still point into it. */
module WaiterList {
  class MonitorWaitData {
    var next: MonitorWaitData?
    var signalled: bool

    constructor ()
      ensures next == null && !signalled
    {
      next, signalled := null, false;
    }
  }

  class MonitorData {
    var head: MonitorWaitData?
    var tail: MonitorWaitData?
    /** The waiters, oldest first. */
    ghost var Waiters: seq<MonitorWaitData>

    ghost predicate Valid()
      reads this, Waiters
    {
      && head == (if Waiters == [] then null else Waiters[0])
      && tail == (if Waiters == [] then null else Waiters[|Waiters| - 1])
      && (forall i, j :: 0 <= i < j < |Waiters| ==> Waiters[i] != Waiters[j])
      && (forall i {:trigger Successor(Waiters, i)} :: 0 <= i < |Waiters| ==> Waiters[i].next == Successor(Waiters, i))
    }

    static ghost function Successor(q: seq<MonitorWaitData>, i: nat): MonitorWaitData? {
      if i + 1 < |q| then q[i + 1] else null
    }

    constructor ()
      ensures Valid() && Waiters == []
    {
      head, tail, Waiters := null, null, [];
    }

    /** Queues a node up at the end; its link must have been reset. */
    method AddWaiter(waitData: MonitorWaitData)
      requires Valid() && waitData !in Waiters && waitData.next == null
      modifies this, Waiters
      ensures Valid() && Waiters == old(Waiters) + [waitData]
      ensures forall w :: w in old(Waiters) ==> w.signalled == old(w.signalled)
    {
      ghost var q := Waiters;
      if tail == null {
        head, tail := waitData, waitData;
      } else {
        tail.next := waitData;
        tail := waitData;
      }
      Waiters := q + [waitData];
      forall i | 0 <= i < |Waiters| ensures Waiters[i].next == Successor(Waiters, i) {
        assert i < |q| ==> old(q[i].next) == Successor(q, i);
        assert i < |q| - 1 ==> q[i] != q[|q| - 1];
      }
    }

    /** Takes off the k-th node, whose predecessor is known. */
    method Unlink(previous: MonitorWaitData?, current: MonitorWaitData, ghost k: nat)
      requires Valid() && k < |Waiters| && current == Waiters[k]
      requires previous == if k == 0 then null else Waiters[k - 1]
      modifies this, Waiters
      ensures Valid() && Waiters == old(Waiters)[..k] + old(Waiters)[k + 1..]
      ensures forall w :: w in old(Waiters) ==> w.signalled == old(w.signalled)
    {
      ghost var q := Waiters;
      assert current.next == Successor(q, k);
      assert k > 0 ==> q[0] != q[k] && q[0] != q[|q| - 1];
      assert k < |q| - 1 ==> q[k] != q[|q| - 1];
      if head == tail {
        head, tail := null, null;
      } else if current == head {
        head := head.next;
      } else if current == tail {
        tail := previous;
        previous.next := null;
      } else {
        previous.next := current.next;
      }
      Waiters := q[..k] + q[k + 1..];
      forall i | 0 <= i < |Waiters| ensures Waiters[i].next == Successor(Waiters, i) {
        var j := if i < k then i else i + 1;
        assert Waiters[i] == q[j] && old(q[j].next) == Successor(q, j);
        assert j != k - 1 && k > 0 ==> q[j] != q[k - 1];
      }
    }

    /** Takes a node off the list, wherever it is; a node that is not listed changes nothing. */
    method RemoveWaiter(waitData: MonitorWaitData)
      requires Valid()
      modifies this, Waiters
      ensures Valid()
      ensures waitData !in old(Waiters) ==> Waiters == old(Waiters)
      ensures forall i :: 0 <= i < |old(Waiters)| && old(Waiters)[i] == waitData ==>
                Waiters == old(Waiters)[..i] + old(Waiters)[i + 1..]
      ensures forall w :: w in old(Waiters) ==> w.signalled == old(w.signalled)
    {
      var previous: MonitorWaitData?, current := null, head;
      ghost var k := 0;
      while current != null
        invariant Valid() && Waiters == old(Waiters) && k <= |Waiters|
        invariant current == if k < |Waiters| then Waiters[k] else null
        invariant previous == if k == 0 then null else Waiters[k - 1]
        invariant waitData !in Waiters[..k]
        invariant forall w :: w in Waiters ==> w.signalled == old(w.signalled)
        decreases |Waiters| - k
      {
        if current == waitData {
          Unlink(previous, current, k);
          return;
        }
        assert current.next == Successor(Waiters, k);
        previous, current := current, current.next;
        k := k + 1;
      }
    }

    /** Wakes the oldest waiter, if there is one. */
    method SignalAndRemoveFirstWaiter()
      requires Valid()
      modifies this, Waiters
      ensures Valid()
      ensures old(Waiters) == [] ==> Waiters == []
      ensures old(Waiters) != [] ==> Waiters == old(Waiters)[1..] && old(Waiters)[0].signalled
      ensures forall w :: w in Waiters ==> w.signalled == old(w.signalled)
    {
      var first := head;
      if first != null {
        ghost var q := Waiters;
        assert first.next == Successor(q, 0);
        if head == tail {
          head, tail := null, null;
        } else {
          head := head.next;
        }
        first.signalled := true;
        Waiters := q[1..];
        forall i | 0 <= i < |Waiters| ensures Waiters[i].next == Successor(Waiters, i) {
          assert old(q[i + 1].next) == Successor(q, i + 1);
        }
      }
    }

    /** Empties the list and wakes everyone who was on it. */
    method SignalAndRemoveAllWaiters()
      requires Valid()
      modifies this, Waiters
      ensures Valid() && Waiters == []
      ensures forall w :: w in old(Waiters) ==> w.signalled
    {
      var current := head;
      head, tail := null, null;
      ghost var q, k := Waiters, 0;
      Waiters := [];
      while current != null
        invariant Valid() && Waiters == [] && k <= |q|
        invariant current == if k < |q| then q[k] else null
        invariant forall i {:trigger Successor(q, i)} :: 0 <= i < |q| ==> q[i].next == Successor(q, i)
        invariant forall i :: 0 <= i < k ==> q[i].signalled
        decreases |q| - k
      {
        current.signalled := true;
        assert current.next == Successor(q, k);
        current := current.next;
        k := k + 1;
      }
    }
  }
}
