/** The epoll event handler (runtime/bin/eventhandler_linux) on values: what each socket asks
    for, what the kernel has registered, and a log of the interrupt messages processed and the
    events posted to Dart. */
module Epoll {
  type Fd = int

  const TIMER_ID: int := -1
  const STDIN: Fd := 0

  datatype Flag =
    | InEvent | OutEvent | ErrorEvent | CloseEvent
    | CloseCommand | ShutdownReadCommand | ShutdownWriteCommand | ListeningSocket | Pipe

  datatype PollFlag = PollIn | PollOut | PollError | PollHangup

  datatype Socket = Socket(port: int, mask: set<Flag>, closedRead: bool, closedWrite: bool, tracked: bool)

  const NEW_SOCKET: Socket := Socket(0, {}, false, false, false)

  datatype Message = Message(id: int, port: int, data: set<Flag>)

  datatype Log = Processed(fd: Fd) | Posted(fd: Fd, port: int, mask: set<Flag>)

  /** `fatal` records that an epoll_ctl call was made that the kernel refuses: adding what is
      registered, or changing or deleting what is not. */
  datatype State = State(sockets: map<Fd, Socket>, kernel: map<Fd, set<PollFlag>>, log: seq<Log>, fatal: bool)

  const START: State := State(map[], map[], [], false)

  /** The events to ask the kernel for. */
  function PollEvents(sd: Socket): set<PollFlag> {
    (if !sd.closedRead && InEvent in sd.mask then {PollIn} else {}) +
    (if !sd.closedWrite && OutEvent in sd.mask then {PollOut} else {})
  }

  function Remove(s: State, fd: Fd): State
    requires fd in s.sockets
  {
    if s.sockets[fd].tracked then
      s.(sockets := s.sockets[fd := s.sockets[fd].(tracked := false)], kernel := s.kernel - {fd},
         fatal := s.fatal || fd !in s.kernel)
    else s
  }

  function Update(s: State, fd: Fd): State
    requires fd in s.sockets
  {
    var sd := s.sockets[fd];
    if sd.port != 0 && PollEvents(sd) != {} then
      s.(sockets := s.sockets[fd := sd.(tracked := true)], kernel := s.kernel[fd := PollEvents(sd)],
         fatal := s.fatal || (sd.tracked <==> fd !in s.kernel))
    else s
  }

  function Put(s: State, fd: Fd, sd: Socket): State {
    s.(sockets := s.sockets[fd := sd])
  }

  /** What a message asks for a descriptor whose socket is known. */
  function Apply(s: State, m: Message): State
    requires m.id in s.sockets
  {
    var fd, sd := m.id, s.sockets[m.id];
    if ShutdownReadCommand in m.data then Update(Put(s, fd, sd.(closedRead := true)), fd)
    else if ShutdownWriteCommand in m.data then Update(Put(s, fd, sd.(closedWrite := true)), fd)
    else if CloseCommand in m.data then var s1 := Remove(s, fd); s1.(sockets := s1.sockets - {fd})
    else Update(Put(s, fd, sd.(port := m.port, mask := m.data)), fd)
  }

  /** One interrupt message. */
  function Handle(s: State, m: Message): State {
    if m.id == TIMER_ID then s
    else
      var s1 := if m.id in s.sockets then s else Put(s, m.id, NEW_SOCKET);
      Apply(s1, m).(log := s.log + [Processed(m.id)])
  }

  function HandleAll(s: State, ms: seq<Message>): State
    decreases |ms|
  {
    if ms == [] then s else HandleAll(Handle(s, ms[0]), ms[1..])
  }

  /** What the system says about a descriptor when it is asked: whether bytes are available,
      and what a peek for a byte returns. */
  datatype Peek = PeekNothing | PeekEnd | PeekError
  datatype Ready = Ready(fd: Fd, events: set<PollFlag>, available: bool, peek: Peek)

  /** The events to post for what the kernel reported, and the socket after that. */
  function Report(sd: Socket, r: Ready): (set<Flag>, Socket) {
    if ListeningSocket in sd.mask then
      var trouble := (if PollHangup in r.events then {CloseEvent} else {}) +
          (if PollError in r.events then {ErrorEvent} else {});
      (if PollIn !in r.events then {} else if trouble != {} then trouble else {InEvent}, sd)
    else
      var (mask1, sd1) := ReportRead(sd, r);
      if PollOut !in r.events then (mask1, sd1)
      else if PollError in r.events then ({ErrorEvent}, sd1.(closedWrite := true))
      else (mask1 + {OutEvent}, sd1)
  }

  function ReportRead(sd: Socket, r: Ready): (set<Flag>, Socket) {
    if PollIn in r.events then
      if r.available then ({InEvent}, sd)
      else if PollHangup in r.events then
        (if PollError in r.events then {ErrorEvent} else {CloseEvent}, sd.(closedRead := true))
      else if PollError in r.events then ({ErrorEvent}, sd)
      else if Pipe in sd.mask then (if r.fd == STDIN then ({CloseEvent}, sd.(closedRead := true)) else ({}, sd))
      else if r.peek == PeekEnd then ({CloseEvent}, sd.(closedRead := true))
      else ({}, sd)
    else if Pipe in sd.mask && PollHangup in r.events then ({CloseEvent}, sd.(closedRead := true))
    else ({}, sd)
  }

  /** One event that the kernel reported: if there is something to post, the descriptor is
      unregistered first. */
  function Deliver(s: State, r: Ready): State {
    if r.fd !in s.sockets then s
    else
      var (mask, sd) := Report(s.sockets[r.fd], r);
      var s' := Put(s, r.fd, sd);
      if mask == {} then s'
      else Remove(s', r.fd).(log := s.log + [Posted(r.fd, sd.port, mask)])
  }

  function DeliverAll(s: State, batch: seq<Ready>): State
    decreases |batch|
  {
    if batch == [] then s else DeliverAll(Deliver(s, batch[0]), batch[1..])
  }

  /** One turn of the poll loop: the events of a batch, then all messages waiting. */
  datatype Turn = Turn(batch: seq<Ready>, messages: seq<Message>)

  function Step(s: State, t: Turn): State {
    HandleAll(DeliverAll(s, t.batch), t.messages)
  }

  // ------------------------------------------------------------------- the invariant

  ghost predicate KernelOk(s: State) {
    && !s.fatal
    && (forall fd :: fd in s.kernel <==> fd in s.sockets && s.sockets[fd].tracked)
  }

  ghost predicate PortsOk(s: State) {
    forall fd :: fd in s.sockets && s.sockets[fd].tracked ==> s.sockets[fd].port != 0
  }

  /** The last thing that happened to the descriptor was a post. */
  predicate AwaitsDart(log: seq<Log>, fd: Fd) {
    log != [] && (if log[|log| - 1].fd == fd then log[|log| - 1].Posted? else AwaitsDart(log[..|log| - 1], fd))
  }

  /** Between two posts for a descriptor, a message for it was processed. */
  ghost predicate Alternates(log: seq<Log>) {
    forall i, j :: 0 <= i < j < |log| && log[i].Posted? && log[j].Posted? && log[i].fd == log[j].fd ==>
      exists k :: i < k < j && log[k] == Processed(log[i].fd)
  }

  ghost predicate PostsOk(s: State) {
    && Alternates(s.log)
    && (forall fd :: fd in s.kernel ==> !AwaitsDart(s.log, fd))
    && (forall i :: 0 <= i < |s.log| && s.log[i].Posted? ==> s.log[i].port != 0 && s.log[i].mask != {})
  }

  ghost predicate Inv(s: State) {
    KernelOk(s) && PortsOk(s) && PostsOk(s)
  }

  /** A registration without a port for a descriptor that the kernel watches. */
  predicate DropsPort(s: State, m: Message) {
    && m.id != TIMER_ID && m.port == 0 && m.id in s.kernel
    && ShutdownReadCommand !in m.data && ShutdownWriteCommand !in m.data && CloseCommand !in m.data
  }

  lemma UpdateKernel(s: State, fd: Fd)
    requires KernelOk(s) && fd in s.sockets
    ensures KernelOk(Update(s, fd))
  {}

  lemma CloseKernel(s: State, fd: Fd)
    requires KernelOk(s) && fd in s.sockets
    ensures var s1 := Remove(s, fd); KernelOk(s1.(sockets := s1.sockets - {fd}))
  {}

  lemma PutKernel(s: State, fd: Fd, sd: Socket)
    requires KernelOk(s) && sd.tracked == (fd in s.sockets && s.sockets[fd].tracked)
    ensures KernelOk(Put(s, fd, sd))
  {}

  lemma HandleKernel(s: State, m: Message)
    requires KernelOk(s)
    ensures KernelOk(Handle(s, m))
  {
    var fd := m.id;
    PutKernel(s, fd, if fd in s.sockets then s.sockets[fd] else NEW_SOCKET);
    var s1 := if fd in s.sockets then s else Put(s, fd, NEW_SOCKET);
    var sd := s1.sockets[fd];
    if ShutdownReadCommand in m.data {
      PutKernel(s1, fd, sd.(closedRead := true));
      UpdateKernel(Put(s1, fd, sd.(closedRead := true)), fd);
    } else if ShutdownWriteCommand in m.data {
      PutKernel(s1, fd, sd.(closedWrite := true));
      UpdateKernel(Put(s1, fd, sd.(closedWrite := true)), fd);
    } else if CloseCommand in m.data {
      CloseKernel(s1, fd);
    } else {
      PutKernel(s1, fd, sd.(port := m.port, mask := m.data));
      UpdateKernel(Put(s1, fd, sd.(port := m.port, mask := m.data)), fd);
    }
    hide Update, Remove;
  }

  lemma HandlePorts(s: State, m: Message)
    requires KernelOk(s) && PortsOk(s)
    ensures PortsOk(Handle(s, m)) <==> !DropsPort(s, m)
  {
  }

  lemma {:induction false} SinceLastPost(log: seq<Log>, fd: Fd, i: nat)
    requires i < |log| && log[i].Posted? && log[i].fd == fd && !AwaitsDart(log, fd)
    ensures exists k :: i < k < |log| && log[k] == Processed(fd)
  {
    var n := |log| - 1;
    if log[n].fd == fd {
      assert log[n] == Processed(fd);
    } else {
      SinceLastPost(log[..n], fd, i);
      var k :| i < k < n && log[..n][k] == Processed(fd);
      assert log[k] == Processed(fd);
    }
  }

  lemma AlternatesMore(log: seq<Log>, e: Log)
    requires Alternates(log) && (e.Posted? ==> !AwaitsDart(log, e.fd))
    ensures Alternates(log + [e])
  {
    var log' := log + [e];
    forall i, j | 0 <= i < j < |log'| && log'[i].Posted? && log'[j].Posted? && log'[i].fd == log'[j].fd
      ensures exists k :: i < k < j && log'[k] == Processed(log'[i].fd)
    {
      if j < |log| {
        var k :| i < k < j && log[k] == Processed(log[i].fd);
        assert log'[k] == Processed(log'[i].fd);
      } else {
        SinceLastPost(log, e.fd, i);
        var k :| i < k < |log| && log[k] == Processed(e.fd);
        assert log'[k] == Processed(log'[i].fd);
      }
    }
  }

  lemma AwaitsMore(log: seq<Log>, e: Log, fd: Fd)
    ensures AwaitsDart(log + [e], fd) == if e.fd == fd then e.Posted? else AwaitsDart(log, fd)
  {
    assert (log + [e])[..|log|] == log;
  }

  /** Only the descriptor of the message can become registered. */
  lemma HandleElsewhere(s: State, m: Message, fd: Fd)
    requires fd != m.id
    ensures fd in Handle(s, m).kernel <==> fd in s.kernel
    ensures Handle(s, m).log == if m.id == TIMER_ID then s.log else s.log + [Processed(m.id)]
  {}

  lemma HandlePosts(s: State, m: Message)
    requires PostsOk(s)
    ensures PostsOk(Handle(s, m))
  {
    var s' := Handle(s, m);
    HandleElsewhere(s, m, m.id + 1);
    if m.id != TIMER_ID {
      AlternatesMore(s.log, Processed(m.id));
      forall fd | fd in s'.kernel ensures !AwaitsDart(s'.log, fd) {
        AwaitsMore(s.log, Processed(m.id), fd);
        if fd != m.id { HandleElsewhere(s, m, fd); }
      }
    }
    hide Handle, Alternates;
  }

  /** A message keeps the invariant exactly unless it takes the port away from a descriptor that
      the kernel watches. */
  lemma HandleInv(s: State, m: Message)
    requires Inv(s)
    ensures Inv(Handle(s, m)) <==> !DropsPort(s, m)
  {
    HandleKernel(s, m);
    HandlePorts(s, m);
    HandlePosts(s, m);
  }

  /** The kernel reports each registered descriptor at most once in a batch. */
  ghost predicate Reports(s: State, batch: seq<Ready>) {
    && (forall i :: 0 <= i < |batch| ==> batch[i].fd in s.kernel)
    && (forall i, j :: 0 <= i < j < |batch| ==> batch[i].fd != batch[j].fd)
  }

  lemma ReportKeeps(sd: Socket, r: Ready)
    ensures Report(sd, r).1.port == sd.port && Report(sd, r).1.tracked == sd.tracked && Report(sd, r).1.mask == sd.mask
  {}

  lemma DeliverInv(s: State, r: Ready)
    requires Inv(s) && r.fd in s.kernel
    ensures Inv(Deliver(s, r))
  {
    var (mask, sd) := Report(s.sockets[r.fd], r);
    ReportKeeps(s.sockets[r.fd], r);
    hide Report;
    var s' := Deliver(s, r);
    assert KernelOk(s') && PortsOk(s');
    if mask != {} {
      var e := Posted(r.fd, sd.port, mask);
      AlternatesMore(s.log, e);
      forall fd | fd in s'.kernel ensures !AwaitsDart(s'.log, fd) { AwaitsMore(s.log, e, fd); }
    }
    hide Alternates, Deliver, KernelOk;
  }

  lemma DeliverElsewhere(s: State, r: Ready, fd: Fd)
    requires fd != r.fd
    ensures fd in Deliver(s, r).kernel <==> fd in s.kernel
  {
    hide Report;
  }

  lemma DeliverReports(s: State, batch: seq<Ready>)
    requires Reports(s, batch) && batch != []
    ensures Reports(Deliver(s, batch[0]), batch[1..])
  {
    forall i | 0 <= i < |batch[1..]| ensures batch[1..][i].fd in Deliver(s, batch[0]).kernel {
      assert batch[1..][i] == batch[i + 1];
      DeliverElsewhere(s, batch[0], batch[i + 1].fd);
    }
  }

  lemma {:induction false} DeliverAllInv(s: State, batch: seq<Ready>)
    requires Inv(s) && Reports(s, batch)
    ensures Inv(DeliverAll(s, batch))
    decreases |batch|
  {
    if batch != [] {
      DeliverInv(s, batch[0]);
      DeliverReports(s, batch);
      hide Inv, Deliver;
      DeliverAllInv(Deliver(s, batch[0]), batch[1..]);
    }
  }

  ghost predicate KeepsPorts(s: State, ms: seq<Message>)
    decreases |ms|
  {
    ms != [] ==> !DropsPort(s, ms[0]) && KeepsPorts(Handle(s, ms[0]), ms[1..])
  }

  lemma {:induction false} HandleAllInv(s: State, ms: seq<Message>)
    requires Inv(s) && KeepsPorts(s, ms)
    ensures Inv(HandleAll(s, ms))
    decreases |ms|
  {
    hide Inv, Handle, DropsPort;
    if ms != [] {
      HandleInv(s, ms[0]);
      HandleAllInv(Handle(s, ms[0]), ms[1..]);
    }
  }

  // ---------------------------------------------------------------------- whole runs

  ghost predicate Run(s: State, turns: seq<Turn>)
    decreases |turns|
  {
    turns != [] ==>
      && Reports(s, turns[0].batch) && KeepsPorts(DeliverAll(s, turns[0].batch), turns[0].messages)
      && Run(Step(s, turns[0]), turns[1..])
  }

  function After(s: State, turns: seq<Turn>): State
    decreases |turns|
  {
    if turns == [] then s else After(Step(s, turns[0]), turns[1..])
  }

  lemma {:induction false} RunInv(s: State, turns: seq<Turn>)
    requires Inv(s) && Run(s, turns)
    ensures Inv(After(s, turns))
    decreases |turns|
  {
    hide Inv, Reports, KeepsPorts, DeliverAll, HandleAll;
    if turns != [] {
      DeliverAllInv(s, turns[0].batch);
      HandleAllInv(DeliverAll(s, turns[0].batch), turns[0].messages);
      RunInv(Step(s, turns[0]), turns[1..]);
    }
  }

  /** Whenever every registration of a watched descriptor carries a port: the kernel watches
      exactly the tracked descriptors, no epoll_ctl call is refused, every post goes to a port,
      and between two posts for a descriptor some message for it was processed. */
  lemma OnePostAtATime(turns: seq<Turn>)
    requires Run(START, turns)
    ensures var s := After(START, turns);
            && !s.fatal && (forall fd :: fd in s.kernel <==> fd in s.sockets && s.sockets[fd].tracked)
            && (forall fd :: fd in s.kernel ==> s.sockets[fd].port != 0)
            && (forall i :: 0 <= i < |s.log| && s.log[i].Posted? ==> s.log[i].port != 0)
            && Alternates(s.log)
  {
    assert Inv(START);
    RunInv(START, turns);
    hide Alternates;
  }

  /** A registration that always carries a port never drops one. */
  lemma {:induction false} PortsGiven(s: State, ms: seq<Message>)
    requires forall i :: 0 <= i < |ms| ==>
               ms[i].port != 0 || ms[i].data * {ShutdownReadCommand, ShutdownWriteCommand, CloseCommand} != {}
    ensures KeepsPorts(s, ms)
    decreases |ms|
  {
    if ms != [] {
      assert ms[0].port == 0 ==>
        exists f :: f in ms[0].data && f in {ShutdownReadCommand, ShutdownWriteCommand, CloseCommand};
      PortsGiven(Handle(s, ms[0]), ms[1..]);
    }
  }

  /** Data comes before trouble: a socket that is not listening is told of data alone or with
      room to write, of an error alone, or of the end of input alone or with room to write; and
      it is marked closed for reading only together with the end of input or an error. */
  lemma OneOutcome(sd: Socket, r: Ready)
    requires ListeningSocket !in sd.mask
    ensures var (mask, sd') := Report(sd, r);
            && (InEvent in mask ==> mask <= {InEvent, OutEvent} && r.available)
            && (ErrorEvent in mask ==> mask == {ErrorEvent} && PollError in r.events)
            && (CloseEvent in mask ==> mask <= {CloseEvent, OutEvent} && (r.available ==> PollIn !in r.events))
            && (sd'.closedRead && !sd.closedRead ==> CloseEvent in mask || ErrorEvent in mask)
            && (sd'.closedWrite && !sd.closedWrite ==> mask == {ErrorEvent})
  {}

  /** A watched descriptor whose port is taken away is posted to no port. */
  lemma PortDropped()
    ensures var s := Step(START, Turn([], [Message(4, 9, {InEvent}), Message(4, 0, {InEvent})]));
            4 in s.kernel && s.sockets[4].port == 0 &&
            Deliver(s, Ready(4, {PollIn}, true, PeekNothing)).log[2] == Posted(4, 0, {InEvent})
  {
    var m1, m2 := Message(4, 9, {InEvent}), Message(4, 0, {InEvent});
    assert [m1, m2][1..] == [m2] && [m2][1..] == [];
    var s1 := Handle(START, m1);
    var s2 := Handle(s1, m2);
    assert HandleAll(s2, []) == s2;
    assert HandleAll(s1, [m2]) == HandleAll(s2, []);
    assert PollIn in PollEvents(Socket(9, {InEvent}, false, false, false));
  }

  // -------------------------------------------------- what the kernel watches a socket for

  /** The kernel watches every descriptor for what its socket asks for, which is something. */
  ghost predicate Current(s: State) {
    forall fd :: fd in s.kernel && fd in s.sockets ==> s.kernel[fd] == PollEvents(s.sockets[fd]) && s.kernel[fd] != {}
  }

  /** The socket as a message that does not close it leaves it. */
  function Changed(sd: Socket, m: Message): Socket {
    if ShutdownReadCommand in m.data then sd.(closedRead := true)
    else if ShutdownWriteCommand in m.data then sd.(closedWrite := true)
    else sd.(port := m.port, mask := m.data)
  }

  predicate Closes(m: Message) {
    ShutdownReadCommand !in m.data && ShutdownWriteCommand !in m.data && CloseCommand in m.data
  }

  /** The message leaves a watched descriptor with nothing to ask for. */
  predicate AsksNothing(s: State, m: Message) {
    && m.id != TIMER_ID && m.id in s.kernel && m.id in s.sockets && !Closes(m)
    && PollEvents(Changed(s.sockets[m.id], m)) == {}
  }

  lemma ApplyIs(s: State, m: Message)
    requires m.id in s.sockets && !Closes(m)
    ensures Apply(s, m) == Update(Put(s, m.id, Changed(s.sockets[m.id], m)), m.id)
  {
    hide Update, Remove;
  }

  /** Nothing about the descriptor differs. */
  ghost predicate SameAt(s: State, s': State, fd: Fd) {
    && (fd in s'.kernel <==> fd in s.kernel) && (fd in s.kernel && fd in s'.kernel ==> s'.kernel[fd] == s.kernel[fd])
    && (fd in s'.sockets <==> fd in s.sockets)
    && (fd in s.sockets && fd in s'.sockets ==> s'.sockets[fd] == s.sockets[fd])
  }

  lemma UpdateOthers(s: State, own: Fd, sd: Socket, fd: Fd)
    requires fd != own
    ensures SameAt(s, Put(s, own, sd), fd) && SameAt(s, Update(Put(s, own, sd), own), fd)
  {}

  lemma CloseOthers(s: State, own: Fd, fd: Fd)
    requires fd != own && own in s.sockets
    ensures var s1 := Remove(s, own); SameAt(s, s1.(sockets := s1.sockets - {own}), fd)
  {}

  lemma HandleOthers(s: State, m: Message, fd: Fd)
    requires fd != m.id
    ensures SameAt(s, Handle(s, m), fd)
  {
    if m.id != TIMER_ID {
      UpdateOthers(s, m.id, NEW_SOCKET, fd);
      var s1 := if m.id in s.sockets then s else Put(s, m.id, NEW_SOCKET);
      if Closes(m) {
        CloseOthers(s1, m.id, fd);
      } else {
        ApplyIs(s1, m);
        UpdateOthers(s1, m.id, Changed(s1.sockets[m.id], m), fd);
        hide Apply;
      }
      hide Update, Remove, Changed;
    }
  }

  lemma HandleOwn(s: State, m: Message)
    requires Inv(s) && Current(s) && !DropsPort(s, m) && m.id != TIMER_ID
    ensures var s', fd := Handle(s, m), m.id;
            fd in s'.kernel && fd in s'.sockets ==>
              (s'.kernel[fd] == PollEvents(s'.sockets[fd]) && s'.kernel[fd] != {} <==> !AsksNothing(s, m))
    ensures AsksNothing(s, m) ==> m.id in Handle(s, m).kernel && m.id in Handle(s, m).sockets
  {
    var s1 := if m.id in s.sockets then s else Put(s, m.id, NEW_SOCKET);
    if !Closes(m) { ApplyIs(s1, m); }
    hide Apply, PostsOk;
    if Closes(m) { HandleClose(s, m); }
  }

  lemma HandleClose(s: State, m: Message)
    requires Closes(m) && m.id != TIMER_ID
    ensures m.id !in Handle(s, m).sockets
  {}

  lemma PortedCurrent(s: State, m: Message)
    requires Inv(s) && Current(s) && !DropsPort(s, m)
    ensures Current(Handle(s, m)) <==> !AsksNothing(s, m)
  {
    if m.id != TIMER_ID {
      HandleOwn(s, m);
      hide Inv, Handle, AsksNothing;
      forall fd | fd != m.id
        ensures fd in Handle(s, m).kernel && fd in Handle(s, m).sockets ==>
                  Handle(s, m).kernel[fd] == PollEvents(Handle(s, m).sockets[fd]) && Handle(s, m).kernel[fd] != {}
      {
        HandleOthers(s, m, fd);
        assert SameAt(s, Handle(s, m), fd);
      }
    }
  }

  /** A message keeps the kernel up to date and the ports in place, exactly unless it takes the
      port of a watched descriptor or leaves one with nothing to ask for: then the old
      registration stays. */
  lemma HandleCurrent(s: State, m: Message)
    requires Inv(s) && Current(s)
    ensures Inv(Handle(s, m)) && Current(Handle(s, m)) <==> !DropsPort(s, m) && !AsksNothing(s, m)
    ensures !DropsPort(s, m) ==> (Current(Handle(s, m)) <==> !AsksNothing(s, m))
  {
    hide Inv, Current, Handle, DropsPort, AsksNothing;
    HandleInv(s, m);
    if !DropsPort(s, m) { PortedCurrent(s, m); }
  }

  lemma QuietReport(sd: Socket, r: Ready)
    ensures Report(sd, r).0 == {} ==> Report(sd, r).1 == sd
  {}

  /** Reported events always keep it up to date. */
  lemma DeliverCurrent(s: State, r: Ready)
    requires KernelOk(s) && Current(s)
    ensures Current(Deliver(s, r))
  {
    if r.fd in s.sockets {
      QuietReport(s.sockets[r.fd], r);
      ReportKeeps(s.sockets[r.fd], r);
    }
    hide Report;
  }

  lemma {:induction false} DeliverAllCurrent(s: State, batch: seq<Ready>)
    requires Inv(s) && Current(s) && Reports(s, batch)
    ensures Current(DeliverAll(s, batch))
    decreases |batch|
  {
    if batch != [] {
      DeliverInv(s, batch[0]);
      DeliverCurrent(s, batch[0]);
      DeliverReports(s, batch);
      hide Inv, Current, Deliver;
      DeliverAllCurrent(Deliver(s, batch[0]), batch[1..]);
    }
  }

  predicate KeepsAsking(s: State, ms: seq<Message>)
    decreases |ms|
  {
    ms != [] ==> !AsksNothing(s, ms[0]) && KeepsAsking(Handle(s, ms[0]), ms[1..])
  }

  ghost predicate CurrentThroughout(s: State, ms: seq<Message>)
    decreases |ms|
  {
    Current(s) && (ms != [] ==> CurrentThroughout(Handle(s, ms[0]), ms[1..]))
  }

  lemma {:induction false} HandleAllCurrent(s: State, ms: seq<Message>)
    requires Inv(s) && Current(s) && KeepsPorts(s, ms)
    ensures CurrentThroughout(s, ms) <==> KeepsAsking(s, ms)
    ensures KeepsAsking(s, ms) ==> Current(HandleAll(s, ms))
    decreases |ms|
  {
    hide Inv, Current, Handle, DropsPort, AsksNothing;
    if ms != [] {
      HandleInv(s, ms[0]);
      HandleCurrent(s, ms[0]);
      if !AsksNothing(s, ms[0]) {
        HandleAllCurrent(Handle(s, ms[0]), ms[1..]);
      } else {
        assert !CurrentThroughout(Handle(s, ms[0]), ms[1..]);
      }
    }
  }

  predicate RunKeepsAsking(s: State, turns: seq<Turn>)
    decreases |turns|
  {
    turns != [] ==>
      KeepsAsking(DeliverAll(s, turns[0].batch), turns[0].messages) && RunKeepsAsking(Step(s, turns[0]), turns[1..])
  }

  ghost predicate RunStaysCurrent(s: State, turns: seq<Turn>)
    decreases |turns|
  {
    turns != [] ==>
      CurrentThroughout(DeliverAll(s, turns[0].batch), turns[0].messages) &&
          RunStaysCurrent(Step(s, turns[0]), turns[1..])
  }

  /** In every run the kernel watches exactly for what the sockets ask, exactly if no message
      leaves a watched descriptor with nothing to ask for. */
  lemma {:induction false} RunCurrent(s: State, turns: seq<Turn>)
    requires Inv(s) && Current(s) && Run(s, turns)
    ensures RunStaysCurrent(s, turns) <==> RunKeepsAsking(s, turns)
    decreases |turns|
  {
    hide Inv, Current, Reports, KeepsPorts, KeepsAsking, CurrentThroughout, DeliverAll, HandleAll;
    if turns != [] {
      var s1 := DeliverAll(s, turns[0].batch);
      DeliverAllInv(s, turns[0].batch);
      DeliverAllCurrent(s, turns[0].batch);
      HandleAllInv(s1, turns[0].messages);
      HandleAllCurrent(s1, turns[0].messages);
      if KeepsAsking(s1, turns[0].messages) {
        RunCurrent(Step(s, turns[0]), turns[1..]);
      }
    }
  }

  /** A socket that asked only for input, shut down for reading, is still watched for input. */
  lemma StaleInterest()
    ensures var s := Handle(Handle(START, Message(4, 9, {InEvent})), Message(4, 0, {ShutdownReadCommand}));
            Inv(s) && 4 in s.kernel && s.kernel[4] == {PollIn} && PollEvents(s.sockets[4]) == {}
  {
    var m1, m2 := Message(4, 9, {InEvent}), Message(4, 0, {ShutdownReadCommand});
    HandleInv(START, m1);
    HandleInv(Handle(START, m1), m2);
    var s1 := Handle(START, m1);
    assert PollEvents(Socket(9, {InEvent}, false, false, false)) == {PollIn};
    assert s1.sockets == map[4 := Socket(9, {InEvent}, false, false, true)] && s1.kernel == map[4 := {PollIn}];
  }
}
