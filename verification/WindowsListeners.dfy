/** Listening sockets on a Windows completion port, and the system of all sockets: accepts in
    flight, connections accepted but not yet handed to Dart, and what closing does to them. */
module WindowsListeners {
  import C = WindowsClients

  type SocketId = nat
  type BufferId = nat

  const MAX_PENDING_ACCEPTS: nat := 5

  datatype Place = InAccept | Disposed(times: nat)
  datatype Message = Message(inEvent: bool, close: bool)

  datatype Listener = Listener(
    closing: bool, pendingAccepts: int, accepted: seq<SocketId>,
    flights: set<BufferId>, places: map<BufferId, Place>, queue: seq<Message>,
    retired: bool, finishing: bool, deletions: nat)

  const NEW_LISTENER: Listener := Listener(false, 0, [], {}, map[], [], false, false, 0)

  datatype Event =
    | Send(message: Message)
    | AcceptCall
    | Interrupt(buffers: set<BufferId>, refused: set<BufferId>)
    | AcceptDone(buffer: BufferId, usable: bool, client: SocketId)
    | Finish

  /** The counter is the number of accepts in flight, each of which owns its buffer; a closing
      listener has no connections waiting and expects no message; it is deleted exactly when
      the last accept has come back. */
  ghost predicate Inv(n: Listener) {
    && n.pendingAccepts == |n.flights|
    && (forall b :: b in n.places ==>
          (n.places[b] == InAccept <==> b in n.flights) && (n.places[b].Disposed? ==> n.places[b].times == 1))
    && n.flights <= n.places.Keys
    && (n.closing ==> n.accepted == [] && n.queue == [] && n.retired)
    && (forall i :: 0 <= i < |n.queue| && n.queue[i].close ==> n.retired && i == |n.queue| - 1)
    && n.deletions <= 1
    && (n.deletions == 1 <==> n.closing && n.flights == {} && !n.finishing)
  }

  function Dispose(n: Listener, b: BufferId): Listener {
    var times := if b in n.places && n.places[b].Disposed? then n.places[b].times + 1 else 1;
    n.(places := n.places[b := Disposed(times)])
  }

  predicate IsClosed(n: Listener) {
    n.closing && n.pendingAccepts == 0
  }

  function DeleteIfClosed(n: Listener): Listener {
    if IsClosed(n) then n.(deletions := n.deletions + 1) else n
  }

  /** Accepts are issued until five are in flight; one that the system refuses has its buffer
      disposed and is tried again. */
  function RequestAccepts(n: Listener, buffers: set<BufferId>, refused: set<BufferId>): Listener {
    if n.pendingAccepts >= MAX_PENDING_ACCEPTS then n
    else n.(flights := n.flights + buffers, pendingAccepts := n.pendingAccepts + |buffers|,
            places := n.places + (map b | b in buffers :: InAccept) + (map b | b in refused :: Disposed(1)))
  }

  function Interrupted(n: Listener, buffers: set<BufferId>, refused: set<BufferId>): Listener
    requires n.queue != []
  {
    var m, n0 := n.queue[0], n.(queue := n.queue[1..]);
    var n1 := if m.inEvent then RequestAccepts(n0, buffers, refused) else n0;
    if m.close then DeleteIfClosed(n1.(closing := true, accepted := [])) else n1
  }

  function AcceptCompleted(n: Listener, b: BufferId, usable: bool, client: SocketId): Listener {
    var n1 := Dispose(n, b).(pendingAccepts := n.pendingAccepts - 1, flights := n.flights - {b}, finishing := true);
    if !n.closing && usable then n1.(accepted := n.accepted + [client]) else n1
  }

  predicate Enabled(n: Listener, e: Event) {
    match e
    case Send(_) => !n.retired
    case AcceptCall => !n.retired
    case Interrupt(buffers, refused) =>
      && !n.finishing && n.queue != [] && buffers !! n.places.Keys && refused !! n.places.Keys && buffers !! refused
      && (n.pendingAccepts < MAX_PENDING_ACCEPTS ==> |buffers| == MAX_PENDING_ACCEPTS - n.pendingAccepts)
    case AcceptDone(b, _, _) => !n.finishing && b in n.flights
    case Finish => n.finishing
  }

  function Next(n: Listener, e: Event): Listener
    requires Enabled(n, e)
  {
    match e
    case Send(m) => n.(queue := n.queue + [m], retired := n.retired || m.close)
    case AcceptCall => if n.accepted == [] then n else n.(accepted := n.accepted[1..])
    case Interrupt(buffers, refused) => Interrupted(n, buffers, refused)
    case AcceptDone(b, usable, client) => AcceptCompleted(n, b, usable, client)
    case Finish => DeleteIfClosed(n.(finishing := false))
  }

  lemma RequestInv(n: Listener, buffers: set<BufferId>, refused: set<BufferId>)
    requires Inv(n) && !n.closing && buffers !! n.places.Keys && refused !! n.places.Keys && buffers !! refused
    ensures Inv(RequestAccepts(n, buffers, refused))
  {
    assert n.flights !! buffers;
    assert |n.flights + buffers| == |n.flights| + |buffers|;
  }

  lemma CloseInv(n: Listener)
    requires Inv(n) && !n.closing && n.queue == [] && n.retired && !n.finishing
    ensures Inv(DeleteIfClosed(n.(closing := true, accepted := [])))
  {}

  lemma InterruptInv(n: Listener, buffers: set<BufferId>, refused: set<BufferId>)
    requires Inv(n) && Enabled(n, Interrupt(buffers, refused))
    ensures Inv(Interrupted(n, buffers, refused))
  {
    var m, n0 := n.queue[0], n.(queue := n.queue[1..]);
    assert Inv(n0) && !n0.closing && (m.close ==> n0.queue == [] && n0.retired);
    RequestInv(n0, buffers, refused);
    var n1 := if m.inEvent then RequestAccepts(n0, buffers, refused) else n0;
    assert n1.queue == n0.queue && n1.retired == n0.retired && n1.closing == n0.closing && n1.finishing == n0.finishing;
    hide Inv, RequestAccepts;
    if m.close { CloseInv(n1); }
  }

  lemma AcceptDoneInv(n: Listener, b: BufferId, usable: bool, client: SocketId)
    requires Inv(n) && Enabled(n, AcceptDone(b, usable, client))
    ensures Inv(AcceptCompleted(n, b, usable, client))
  {
    assert n.flights == (n.flights - {b}) + {b};
    assert n.places[b] == InAccept;
  }

  lemma NextInv(n: Listener, e: Event)
    requires Inv(n) && Enabled(n, e)
    ensures Inv(Next(n, e))
  {
    match e {
      case Interrupt(buffers, refused) => InterruptInv(n, buffers, refused);
      case AcceptDone(b, usable, client) => AcceptDoneInv(n, b, usable, client);
      case _ =>
    }
  }

  /** A listener that is deleted has closed, with no accept in flight and no connection waiting,
      and nothing can happen to it afterwards. */
  lemma DeletedIsDone(n: Listener)
    requires Inv(n) && n.deletions > 0
    ensures n.deletions == 1 && n.pendingAccepts == 0 && n.accepted == [] && forall e :: !Enabled(n, e)
  {
    assert n.flights == {};
  }

  // ---------------------------------------------------------------- all sockets together

  datatype System = System(clients: map<SocketId, C.Client>, listeners: map<SocketId, Listener>)

  const NO_SOCKETS: System := System(map[], map[])

  datatype SystemEvent =
    | Connect(socket: SocketId)
    | Listen(socket: SocketId)
    | OnClient(socket: SocketId, event: C.Event)
    | OnListener(socket: SocketId, what: Event)

  /** An accepted connection that nobody has claimed yet. */
  predicate Unclaimed(sys: System, s: SocketId) {
    s in sys.clients && !sys.clients[s].known && !sys.clients[s].closing
  }

  predicate ListedAt(sys: System, l: SocketId, s: SocketId) {
    l in sys.listeners && s in sys.listeners[l].accepted
  }

  ghost predicate Listed(sys: System, s: SocketId) {
    exists l :: ListedAt(sys, l, s)
  }

  predicate NoRepeats(q: seq<SocketId>) {
    forall i, j :: 0 <= i < j < |q| ==> q[i] != q[j]
  }

  /** The waiting lists of all listeners hold exactly the unclaimed connections, each once. */
  ghost predicate ListsOk(sys: System) {
    && (forall s :: Unclaimed(sys, s) ==> Listed(sys, s))
    && (forall l, s :: ListedAt(sys, l, s) ==> Unclaimed(sys, s))
    && (forall l, l', s :: ListedAt(sys, l, s) && ListedAt(sys, l', s) ==> l == l')
    && (forall l :: l in sys.listeners ==> NoRepeats(sys.listeners[l].accepted))
  }

  ghost predicate SocketsOk(sys: System) {
    && (forall s :: s in sys.clients ==> C.Inv(sys.clients[s]))
    && (forall l :: l in sys.listeners ==> Inv(sys.listeners[l]))
  }

  predicate Fresh(sys: System, s: SocketId) {
    s !in sys.clients && s !in sys.listeners
  }

  predicate CanHappen(sys: System, e: SystemEvent) {
    match e
    case Connect(s) => Fresh(sys, s)
    case Listen(s) => Fresh(sys, s)
    case OnClient(s, ce) => s in sys.clients && C.Enabled(sys.clients[s], ce) && !ce.HandOver? && !ce.CloseUnclaimed?
    case OnListener(l, le) =>
      l in sys.listeners && Enabled(sys.listeners[l], le) && (le.AcceptDone? ==> Fresh(sys, le.client))
  }

  /** What a listener's step does to the client sockets: a usable accept adds one, handing over
      makes the oldest known, and closing closes all that still wait. */
  function ClientsAfter(sys: System, l: SocketId, e: Event): map<SocketId, C.Client>
    requires l in sys.listeners
  {
    var n := sys.listeners[l];
    match e
    case AcceptCall =>
      if n.accepted != [] && Unclaimed(sys, n.accepted[0])
      then sys.clients[n.accepted[0] := C.Next(sys.clients[n.accepted[0]], C.HandOver)]
      else sys.clients
    case AcceptDone(_, usable, client) =>
      if !n.closing && usable then sys.clients[client := C.NewClient(false)] else sys.clients
    case Interrupt(_, _) =>
      if n.queue != [] && n.queue[0].close
      then map s | s in sys.clients ::
             if s in n.accepted && Unclaimed(sys, s) then C.Next(sys.clients[s], C.CloseUnclaimed) else sys.clients[s]
      else sys.clients
    case _ => sys.clients
  }

  function SystemNext(sys: System, e: SystemEvent): System
    requires CanHappen(sys, e)
  {
    match e
    case Connect(s) => sys.(clients := sys.clients[s := C.NewClient(true)])
    case Listen(s) => sys.(listeners := sys.listeners[s := NEW_LISTENER])
    case OnClient(s, ce) => sys.(clients := sys.clients[s := C.Next(sys.clients[s], ce)])
    case OnListener(l, le) => System(ClientsAfter(sys, l, le), sys.listeners[l := Next(sys.listeners[l], le)])
  }

  lemma HandOverInv(c: C.Client)
    requires C.Inv(c) && !c.known && !c.closing
    ensures C.Inv(C.Next(c, C.HandOver)) && C.Next(c, C.HandOver).known
  {}

  lemma CloseUnclaimedInv(c: C.Client)
    requires C.Inv(c) && !c.known && !c.closing
    ensures C.Inv(C.Next(c, C.CloseUnclaimed)) && C.Next(c, C.CloseUnclaimed).closing
  {
    C.NextInv(c, C.CloseUnclaimed);
  }

  lemma KnownStays(c: C.Client, e: C.Event)
    requires C.Inv(c) && C.Enabled(c, e) && !e.HandOver? && !e.CloseUnclaimed?
    ensures c.known && C.Next(c, e).known
  {
    match e {
      case Interrupt(issued, b) =>
        C.PopInv(c);
        KnownThrough(c, issued, b);
      case ReadCall(_) =>
      case _ => hide C.ReadCalled, C.Interrupted;
    }
  }

  lemma KnownThrough(c: C.Client, issued: bool, b: BufferId)
    requires c.queue != [] && c.known
    ensures C.Interrupted(c, issued, b).known
  {
    C.InterruptFrame(c, issued, b);
  }

  lemma ClientsAfterOk(sys: System, l: SocketId, e: Event)
    requires SocketsOk(sys) && CanHappen(sys, OnListener(l, e))
    ensures forall s :: s in ClientsAfter(sys, l, e) ==> C.Inv(ClientsAfter(sys, l, e)[s])
  {
    hide C.Inv, C.Next;
    var n := sys.listeners[l];
    forall s | s in ClientsAfter(sys, l, e) ensures C.Inv(ClientsAfter(sys, l, e)[s]) {
      C.NewClientInv(false);
      if Unclaimed(sys, s) {
        HandOverInv(sys.clients[s]);
        CloseUnclaimedInv(sys.clients[s]);
      }
    }
  }

  lemma SocketsStay(sys: System, e: SystemEvent)
    requires SocketsOk(sys) && CanHappen(sys, e)
    ensures SocketsOk(SystemNext(sys, e))
  {
    hide C.Inv, C.Next, C.Enabled, Inv, Next, Enabled, ClientsAfter;
    match e {
      case Connect(s) => C.NewClientInv(true);
      case Listen(s) => NewListenerInv();
      case OnClient(s, ce) => C.NextInv(sys.clients[s], ce);
      case OnListener(l, le) =>
        ClientsAfterOk(sys, l, le);
        NextInv(sys.listeners[l], le);
    }
  }

  lemma NewListenerInv()
    ensures Inv(NEW_LISTENER)
  {}

  /** How a listener's waiting list changes. */
  lemma AcceptedAfter(n: Listener, e: Event)
    requires Inv(n) && Enabled(n, e)
    ensures Next(n, e).accepted ==
              match e
              case AcceptCall => (if n.accepted == [] then [] else n.accepted[1..])
              case AcceptDone(_, usable, client) => (if !n.closing && usable then n.accepted + [client] else n.accepted)
              case Interrupt(_, _) => (if n.queue[0].close then [] else n.accepted)
              case _ => n.accepted
  {}

  lemma ListsAfterAcceptCall(sys: System, l: SocketId)
    requires ListsOk(sys) && CanHappen(sys, OnListener(l, AcceptCall)) && Inv(sys.listeners[l])
    ensures ListsOk(SystemNext(sys, OnListener(l, AcceptCall)))
  {
    hide Inv, Next, C.Next;
    var n, sys' := sys.listeners[l], SystemNext(sys, OnListener(l, AcceptCall));
    AcceptedAfter(n, AcceptCall);
    if n.accepted != [] {
      var first := n.accepted[0];
      assert ListedAt(sys, l, first);
      HandOverKnown(sys.clients[first]);
      forall l', s | ListedAt(sys', l', s) ensures ListedAt(sys, l', s) && s != first {}
      forall s | Unclaimed(sys', s) ensures Listed(sys', s) {
        assert Unclaimed(sys, s);
        var l' :| ListedAt(sys, l', s);
        assert ListedAt(sys', l', s);
      }
    } else {
      assert sys'.clients == sys.clients;
      SameLists(sys, sys');
    }
  }

  lemma HandOverKnown(c: C.Client)
    requires !c.known && !c.closing
    ensures C.Next(c, C.HandOver).known
  {}

  /** Nothing changes for the lists when no list and no client's claim changes. */
  lemma SameLists(sys: System, sys': System)
    requires ListsOk(sys) && sys'.listeners.Keys == sys.listeners.Keys
    requires forall l :: l in sys.listeners ==> sys'.listeners[l].accepted == sys.listeners[l].accepted
    requires forall s :: Unclaimed(sys', s) <==> Unclaimed(sys, s)
    ensures ListsOk(sys')
  {
    forall l, s ensures ListedAt(sys', l, s) <==> ListedAt(sys, l, s) {}
    forall s | Unclaimed(sys', s) ensures Listed(sys', s) {
      assert Unclaimed(sys, s);
      var l :| ListedAt(sys, l, s);
      assert ListedAt(sys', l, s);
    }
  }

  lemma ListsAfterAccept(sys: System, l: SocketId, e: Event)
    requires ListsOk(sys) && CanHappen(sys, OnListener(l, e)) && Inv(sys.listeners[l]) && e.AcceptDone?
    ensures ListsOk(SystemNext(sys, OnListener(l, e)))
  {
    hide Inv, Next;
    var n, sys' := sys.listeners[l], SystemNext(sys, OnListener(l, e));
    AcceptedAfter(n, e);
    if !n.closing && e.usable {
      assert forall l' :: !ListedAt(sys, l', e.client);
      assert !ListedAt(sys, l, e.client);
      forall l', s ensures ListedAt(sys', l', s) <==> ListedAt(sys, l', s) || (l' == l && s == e.client) {}
      forall s | Unclaimed(sys', s) ensures Listed(sys', s) {
        if s == e.client {
          assert ListedAt(sys', l, s);
        } else {
          assert Unclaimed(sys, s);
          var l' :| ListedAt(sys, l', s);
          assert ListedAt(sys', l', s);
        }
      }
    } else {
      SameLists(sys, sys');
    }
  }

  lemma ListsAfterInterrupt(sys: System, l: SocketId, e: Event)
    requires ListsOk(sys) && SocketsOk(sys) && CanHappen(sys, OnListener(l, e)) && e.Interrupt?
    ensures ListsOk(SystemNext(sys, OnListener(l, e)))
  {
    var n, sys' := sys.listeners[l], SystemNext(sys, OnListener(l, e));
    AcceptedAfter(n, e);
    hide Inv, Next, C.Next, C.Inv;
    if n.queue[0].close {
      forall l', s ensures ListedAt(sys', l', s) <==> ListedAt(sys, l', s) && l' != l {}
      forall s | s in sys.clients ensures Unclaimed(sys', s) <==> Unclaimed(sys, s) && !ListedAt(sys, l, s) {
        if Unclaimed(sys, s) { CloseUnclaimedInv(sys.clients[s]); }
      }
      forall s | Unclaimed(sys', s) ensures Listed(sys', s) {
        assert Unclaimed(sys, s);
        var l' :| ListedAt(sys, l', s);
        assert ListedAt(sys', l', s);
      }
    } else {
      SameLists(sys, sys');
    }
  }

  lemma ListsStay(sys: System, e: SystemEvent)
    requires ListsOk(sys) && SocketsOk(sys) && CanHappen(sys, e)
    ensures ListsOk(SystemNext(sys, e))
  {
    hide ListsOk, C.Inv, C.Next, C.Enabled, Inv, Next, Enabled;
    var sys' := SystemNext(sys, e);
    match e {
      case Connect(s) => SameLists(sys, sys');
      case Listen(s) => ListsAfterListen(sys, s);
      case OnClient(s, ce) =>
        KnownStays(sys.clients[s], ce);
        SameLists(sys, sys');
      case OnListener(l, le) =>
        match le {
          case AcceptCall => ListsAfterAcceptCall(sys, l);
          case AcceptDone(_, _, _) => ListsAfterAccept(sys, l, le);
          case Interrupt(_, _) => ListsAfterInterrupt(sys, l, le);
          case _ =>
            AcceptedAfter(sys.listeners[l], le);
            SameLists(sys, sys');
        }
    }
  }

  lemma ListsAfterListen(sys: System, l: SocketId)
    requires ListsOk(sys) && Fresh(sys, l)
    ensures ListsOk(sys.(listeners := sys.listeners[l := NEW_LISTENER]))
  {
    var sys' := sys.(listeners := sys.listeners[l := NEW_LISTENER]);
    forall l', s ensures ListedAt(sys', l', s) <==> ListedAt(sys, l', s) {}
    forall s | Unclaimed(sys', s) ensures Listed(sys', s) {
      assert Unclaimed(sys, s);
      var l' :| ListedAt(sys, l', s);
      assert ListedAt(sys', l', s);
    }
  }

  // ---------------------------------------------------------------------- whole runs

  predicate SystemRun(sys: System, run: seq<SystemEvent>)
    decreases |run|
  {
    run == [] || (CanHappen(sys, run[0]) && SystemRun(SystemNext(sys, run[0]), run[1..]))
  }

  function SystemAfter(sys: System, run: seq<SystemEvent>): System
    requires SystemRun(sys, run)
    decreases |run|
  {
    if run == [] then sys else SystemAfter(SystemNext(sys, run[0]), run[1..])
  }

  lemma {:induction false} SystemKeeps(sys: System, run: seq<SystemEvent>)
    requires SocketsOk(sys) && ListsOk(sys) && SystemRun(sys, run)
    ensures SocketsOk(SystemAfter(sys, run)) && ListsOk(SystemAfter(sys, run))
    decreases |run|
  {
    hide SocketsOk, ListsOk, SystemNext, CanHappen;
    if run != [] {
      SocketsStay(sys, run[0]);
      ListsStay(sys, run[0]);
      SystemKeeps(SystemNext(sys, run[0]), run[1..]);
    }
  }

  /** In every run of any number of sockets: no socket is deleted twice; of the closing clients
      with nothing in flight, exactly those that a Dart program knows are deleted; a deleted
      listener has no accept in flight and no connection waiting; a connection waits for Accept in
      exactly one list, once, exactly while it is open and unclaimed. */
  lemma SystemIsSafe(run: seq<SystemEvent>)
    requires SystemRun(NO_SOCKETS, run)
    ensures var sys := SystemAfter(NO_SOCKETS, run);
            && (forall s :: s in sys.clients ==>
                  && sys.clients[s].deletions <= 1
                  && (C.IsClosed(sys.clients[s]) && sys.clients[s].handler == C.Idle ==>
                        (sys.clients[s].deletions == 1 <==> sys.clients[s].known)))
            && (forall l :: l in sys.listeners ==>
                  && sys.listeners[l].deletions <= 1
                  && sys.listeners[l].pendingAccepts == |sys.listeners[l].flights|
                  && (sys.listeners[l].deletions == 1 ==>
                        sys.listeners[l].flights == {} && sys.listeners[l].accepted == []))
            && ListsOk(sys)
  {
    SystemKeeps(NO_SOCKETS, run);
    hide ListsOk;
  }

  /** A connection that a closing listener closed is never deleted: whatever happens later, it
      stays as it was, because no message and no completion will ever name it. */
  lemma {:induction false} UnclaimedIsNeverDeleted(sys: System, s: SocketId, run: seq<SystemEvent>)
    requires SocketsOk(sys) && ListsOk(sys) && SystemRun(sys, run)
    requires s in sys.clients && !sys.clients[s].known && sys.clients[s].closing
    ensures s in SystemAfter(sys, run).clients && SystemAfter(sys, run).clients[s] == sys.clients[s]
    ensures sys.clients[s].deletions == 0
    decreases |run|
  {
    assert sys.clients[s].deletions == 0 by { assert C.Inv(sys.clients[s]); }
    hide SocketsOk, ListsOk, SystemNext, CanHappen, C.Inv;
    if run != [] {
      SocketsStay(sys, run[0]);
      ListsStay(sys, run[0]);
      UnclaimedStays(sys, s, run[0]);
      UnclaimedIsNeverDeleted(SystemNext(sys, run[0]), s, run[1..]);
    }
  }

  lemma UnclaimedStays(sys: System, s: SocketId, e: SystemEvent)
    requires SocketsOk(sys) && CanHappen(sys, e)
    requires s in sys.clients && !sys.clients[s].known && sys.clients[s].closing
    ensures s in SystemNext(sys, e).clients && SystemNext(sys, e).clients[s] == sys.clients[s]
  {
    hide C.Inv, C.Next, Next, Enabled, C.Enabled;
    if e.OnClient? { KnownStays(sys.clients[e.socket], e.event); }
  }

  lemma {:induction false} AfterOneMore(sys: System, run: seq<SystemEvent>, e: SystemEvent)
    requires SystemRun(sys, run) && CanHappen(SystemAfter(sys, run), e)
    ensures SystemRun(sys, run + [e]) && SystemAfter(sys, run + [e]) == SystemNext(SystemAfter(sys, run), e)
    decreases |run|
  {
    hide SystemNext, CanHappen;
    if run == [] {
      assert run + [e] == [e] && [e][1..] == [];
    } else {
      assert (run + [e])[1..] == run[1..] + [e];
      AfterOneMore(SystemNext(sys, run[0]), run[1..], e);
    }
  }

  lemma Go(run: seq<SystemEvent>, sys: System, e: SystemEvent) returns (run': seq<SystemEvent>, sys': System)
    requires SystemRun(NO_SOCKETS, run) && SystemAfter(NO_SOCKETS, run) == sys && CanHappen(sys, e)
    ensures SystemRun(NO_SOCKETS, run') && SystemAfter(NO_SOCKETS, run') == sys' == SystemNext(sys, e)
  {
    AfterOneMore(NO_SOCKETS, run, e);
    run', sys' := run + [e], SystemNext(sys, e);
  }

  const FIVE: set<BufferId> := {10, 11, 12, 13, 14}

  lemma AskedToAccept() returns (run: seq<SystemEvent>, sys: System)
    ensures SystemRun(NO_SOCKETS, run) && SystemAfter(NO_SOCKETS, run) == sys
    ensures sys == NO_SOCKETS.(listeners := map[1 := NEW_LISTENER.(queue := [Message(true, false)])])
  {
    assert SystemRun(NO_SOCKETS, []) && SystemAfter(NO_SOCKETS, []) == NO_SOCKETS;
    hide SystemRun, SystemAfter;
    run, sys := Go([], NO_SOCKETS, Listen(1));
    run, sys := Go(run, sys, OnListener(1, Send(Message(true, false))));
    assert sys.listeners[1] == NEW_LISTENER.(queue := [Message(true, false)]);
    assert sys.listeners == map[1 := NEW_LISTENER.(queue := [Message(true, false)])];
  }

  lemma Accepting() returns (run: seq<SystemEvent>, sys: System)
    ensures SystemRun(NO_SOCKETS, run) && SystemAfter(NO_SOCKETS, run) == sys
    ensures sys.listeners.Keys == {1} && sys.clients == map[]
    ensures var n := sys.listeners[1];
            && n.accepted == [] && n.queue == [] && !n.closing && !n.retired && !n.finishing
            && n.pendingAccepts == 5 && n.flights == FIVE && n.places.Keys == FIVE
  {
    run, sys := AskedToAccept();
    hide SystemRun, SystemAfter;
    run, sys := Go(run, sys, OnListener(1, Interrupt(FIVE, {})));
  }

  /** A listener that waits for connections and has accepted one. */
  lemma OneAccepted() returns (run: seq<SystemEvent>, sys: System)
    ensures SystemRun(NO_SOCKETS, run) && SystemAfter(NO_SOCKETS, run) == sys
    ensures 1 in sys.listeners && sys.clients == map[2 := C.NewClient(false)]
    ensures var n := sys.listeners[1];
            && n.accepted == [2] && n.queue == [] && !n.retired && !n.finishing
            && n.pendingAccepts == 4 && n.places.Keys == FIVE
  {
    run, sys := Accepting();
    hide SystemRun, SystemAfter;
    run, sys := Go(run, sys, OnListener(1, AcceptDone(10, true, 2)));
    run, sys := Go(run, sys, OnListener(1, Finish));
  }

  /** The connection that is never deleted: its listener closes before anyone has claimed it. */
  lemma UnclaimedHappens() returns (run: seq<SystemEvent>)
    ensures SystemRun(NO_SOCKETS, run)
    ensures var sys := SystemAfter(NO_SOCKETS, run);
            2 in sys.clients && !sys.clients[2].known && sys.clients[2].closing && sys.clients[2].deletions == 0
  {
    var sys;
    run, sys := OneAccepted();
    hide SystemRun, SystemAfter;
    run, sys := Go(run, sys, OnListener(1, Send(Message(false, true))));
    run, sys := Go(run, sys, OnListener(1, Interrupt({20}, {})));
  }
}
