/** The epoll event handler on the heap: socket objects in a map, and a kernel that keeps pointers
    to them. Every method is proved to take the step that the model of values takes. */
module EpollHandler {
  import opened Epoll

  class SocketData {
    var tracked: bool
    var fd: Fd
    var port: int
    var mask: set<Flag>
    var closedRead: bool
    var closedWrite: bool

    constructor (fd: Fd)
      ensures this.fd == fd && View() == NEW_SOCKET
    {
      this.tracked, this.fd, this.port, this.mask := false, fd, 0, {};
      this.closedRead, this.closedWrite := false, false;
    }

    ghost function View(): Socket
      reads this
    {
      Socket(port, mask, closedRead, closedWrite, tracked)
    }

    method GetPollEvents() returns (events: set<PollFlag>)
      ensures events == PollEvents(View())
    {
      events := {};
      if !closedRead {
        if InEvent in mask {
          events := events + {PollIn};
        }
      }
      if !closedWrite {
        if OutEvent in mask {
          events := events + {PollOut};
        }
      }
    }
  }

  /** A delivery with and without something to post. */
  lemma DeliverIs(s: State, r: Ready, mask: set<Flag>, sd: Socket)
    requires r.fd in s.sockets && mask == Report(s.sockets[r.fd], r).0 && sd == Report(s.sockets[r.fd], r).1
    ensures r.fd in Put(s, r.fd, sd).sockets && Put(s, r.fd, sd).log == s.log
    ensures Deliver(s, r) == if mask == {} then Put(s, r.fd, sd)
                             else Remove(Put(s, r.fd, sd), r.fd).(log := s.log + [Posted(r.fd, sd.port, mask)])
  {
    hide Report, Remove;
  }

  lemma MapValues(sockets: map<Fd, SocketData>, fd: Fd, sd: SocketData)
    ensures forall o :: o in sockets[fd := sd].Values ==> o in sockets.Values || o == sd
    ensures forall o :: o in (sockets[fd := sd] - {fd}).Values ==> o in sockets.Values
    ensures fd in sockets ==> sockets[fd] in sockets.Values
  {}

  datatype Registration = Registration(events: set<PollFlag>, data: SocketData)

  class EventHandlerImplementation {
    var sockets: map<Fd, SocketData>
    var kernel: map<Fd, Registration>
    ghost var log: seq<Log>

    /** Every entry is the object for its descriptor, and every pointer that the kernel holds
        is the live entry of the descriptor it is registered for. */
    ghost predicate Valid()
      reads `sockets, `kernel, sockets.Values
    {
      && (forall fd :: fd in sockets ==> sockets[fd].fd == fd)
      && (forall fd :: fd in kernel ==> fd in sockets && kernel[fd].data == sockets[fd])
      && (forall fd :: fd in kernel <==> fd in sockets && sockets[fd].tracked)
    }

    ghost function Views(): map<Fd, Socket>
      reads `sockets, sockets.Values
    {
      map fd | fd in sockets :: sockets[fd].View()
    }

    ghost function Registered(): map<Fd, set<PollFlag>>
      reads `kernel
    {
      map fd | fd in kernel :: kernel[fd].events
    }

    ghost function View(): State
      reads this, sockets.Values
    {
      State(Views(), Registered(), log, false)
    }

    constructor ()
      ensures Valid() && View() == START
    {
      sockets, kernel, log := map[], map[], [];
    }

    /** The object for a descriptor, made if there is none. */
    method GetSocketData(fd: Fd) returns (sd: SocketData)
      requires Valid()
      modifies this`sockets
      ensures Valid() && fd in sockets && sockets[fd] == sd && sd.fd == fd
      ensures View() == (if fd in old(sockets) then old(View()) else Put(old(View()), fd, NEW_SOCKET))
      ensures sockets == old(sockets)[fd := sd] && (sd in old(sockets.Values) || fresh(sd))
    {
      if fd in sockets {
        sd := sockets[fd];
      } else {
        sd := new SocketData(fd);
        sockets := sockets[fd := sd];
      }
    }

    method RemoveFromEpollInstance(sd: SocketData)
      requires Valid() && sd.fd in sockets && sockets[sd.fd] == sd
      modifies this`kernel, sd`tracked
      ensures Valid() && View() == Remove(old(View()), sd.fd) && !sd.tracked
    {
      if sd.tracked {
        kernel := kernel - {sd.fd};
        sd.tracked := false;
        OneChanged(sd);
        assert Registered() == old(Registered()) - {sd.fd};
      }
    }

    method UpdateEpollInstance(sd: SocketData)
      requires Valid() && sd.fd in sockets && sockets[sd.fd] == sd
      modifies this`kernel, sd`tracked
      ensures Valid() && View() == Update(old(View()), sd.fd)
    {
      var events := sd.GetPollEvents();
      if sd.port != 0 && events != {} {
        kernel := kernel[sd.fd := Registration(events, sd)];
        sd.tracked := true;
        OneChanged(sd);
        assert Registered() == old(Registered())[sd.fd := events];
      }
    }

    /** Each object is in the map once, so that changing one changes one entry. */
    twostate lemma OneChanged(sd: SocketData)
      requires sockets == old(sockets) && sd.fd == old(sd.fd) && sd.fd in sockets && sockets[sd.fd] == sd
      requires forall fd :: fd in sockets ==> old(sockets[fd].fd) == fd
      requires forall fd :: fd in sockets && sockets[fd] != sd ==> unchanged(sockets[fd])
      ensures Views() == old(Views())[sd.fd := sd.View()]
    {
      forall fd | fd in sockets && fd != sd.fd ensures sockets[fd].View() == old(sockets[fd].View()) {
        assert sockets[fd] != sd;
      }
    }

    method ShutdownRead(sd: SocketData)
      requires Valid() && sd.fd in sockets && sockets[sd.fd] == sd
      modifies sd`closedRead
      ensures Valid() && View() == Put(old(View()), sd.fd, old(sd.View()).(closedRead := true))
    {
      sd.closedRead := true;
      OneChanged(sd);
    }

    method ShutdownWrite(sd: SocketData)
      requires Valid() && sd.fd in sockets && sockets[sd.fd] == sd
      modifies sd`closedWrite
      ensures Valid() && View() == Put(old(View()), sd.fd, old(sd.View()).(closedWrite := true))
    {
      sd.closedWrite := true;
      OneChanged(sd);
    }

    method SetPortAndMask(sd: SocketData, port: int, mask: set<Flag>)
      requires Valid() && sd.fd in sockets && sockets[sd.fd] == sd
      modifies sd`port, sd`mask
      ensures Valid() && View() == Put(old(View()), sd.fd, old(sd.View()).(port := port, mask := mask))
    {
      sd.port, sd.mask := port, mask;
      OneChanged(sd);
    }

    /** Drops an unregistered object from the map. */
    method Forget(sd: SocketData)
      requires Valid() && sd.fd in sockets && sockets[sd.fd] == sd && !sd.tracked
      modifies this`sockets, sd
      ensures Valid() && View() == old(View()).(sockets := old(View()).sockets - {old(sd.fd)})
      ensures sockets == old(sockets) - {old(sd.fd)}
    {
      var fd := sd.fd;
      sockets := sockets - {fd};
      sd.port, sd.mask, sd.closedRead, sd.closedWrite, sd.fd := 0, {}, false, false, -1;
      forall f | f in sockets ensures sockets[f].fd == f && sockets[f].View() == old(sockets[f].View()) {
        assert old(sockets[f].fd) == f && sockets[f] != sd;
      }
      assert Views() == old(Views()) - {fd};
    }

    method Close(sd: SocketData)
      requires Valid() && sd.fd in sockets && sockets[sd.fd] == sd
      modifies this`kernel, this`sockets, sd
      ensures Valid()
      ensures var s1 := Remove(old(View()), old(sd.fd)); View() == s1.(sockets := s1.sockets - {old(sd.fd)})
      ensures sockets == old(sockets) - {old(sd.fd)}
    {
      hide Remove;
      RemoveFromEpollInstance(sd);
      Forget(sd);
    }

    method ApplyMessage(sd: SocketData, m: Message)
      requires Valid() && m.id in sockets && sockets[m.id] == sd
      modifies this`kernel, this`sockets, sd
      ensures Valid() && View() == Apply(old(View()), m)
      ensures sockets == old(sockets) || sockets == old(sockets) - {m.id}
    {
      hide Update, Remove;
      assert sd.View() == View().sockets[m.id];
      if ShutdownReadCommand in m.data {
        ShutdownRead(sd);
        UpdateEpollInstance(sd);
      } else if ShutdownWriteCommand in m.data {
        ShutdownWrite(sd);
        UpdateEpollInstance(sd);
      } else if CloseCommand in m.data {
        Close(sd);
      } else {
        SetPortAndMask(sd, m.port, m.data);
        UpdateEpollInstance(sd);
      }
    }

    method HandleInterrupt(m: Message)
      requires Valid()
      modifies this, sockets.Values
      ensures Valid() && View() == Handle(old(View()), m)
      ensures fresh(sockets.Values - old(sockets.Values))
    {
      assert m.id in View().sockets <==> m.id in sockets;
      hide Apply, Put, Valid, Views, Registered;
      if m.id != TIMER_ID {
        var sd := GetSocketData(m.id);
        MapValues(old(sockets), m.id, sd);
        ApplyMessage(sd, m);
        log := log + [Processed(m.id)];
      }
    }

    method HandleInterruptFd(messages: seq<Message>)
      requires Valid()
      modifies this, sockets.Values
      ensures Valid() && View() == HandleAll(old(View()), messages)
    {
      hide Handle;
      var i := 0;
      assert messages[0..] == messages;
      while i < |messages|
        invariant i <= |messages| && Valid()
        invariant fresh(sockets.Values - old(sockets.Values))
        invariant HandleAll(View(), messages[i..]) == HandleAll(old(View()), messages)
      {
        assert messages[i..][1..] == messages[i + 1..];
        HandleInterrupt(messages[i]);
        i := i + 1;
      }
    }

    /** Reads what the kernel reported for a socket; marks it closed where that says so. */
    method GetPollEvents(r: Ready, sd: SocketData) returns (mask: set<Flag>)
      modifies sd`closedRead, sd`closedWrite
      requires sd.fd == r.fd
      ensures (mask, sd.View()) == Report(old(sd.View()), r)
    {
      mask := {};
      if ListeningSocket in sd.mask {
        if PollIn in r.events {
          if PollHangup in r.events { mask := mask + {CloseEvent}; }
          if PollError in r.events { mask := mask + {ErrorEvent}; }
          assert mask == (if PollHangup in r.events then {CloseEvent} else {}) +
              (if PollError in r.events then {ErrorEvent} else {});
          if mask == {} {
            mask := mask + {InEvent};
            assert mask == {InEvent};
          }
        }
      } else {
        if PollIn in r.events {
          if r.available {
            mask := {InEvent};
          } else if PollHangup in r.events {
            if PollError in r.events {
              mask := {ErrorEvent};
            } else {
              mask := {CloseEvent};
            }
            sd.closedRead := true;
          } else if PollError in r.events {
            mask := {ErrorEvent};
          } else if Pipe in sd.mask {
            if sd.fd == STDIN {
              mask := {CloseEvent};
              sd.closedRead := true;
            }
          } else if r.peek == PeekEnd {
            mask := {CloseEvent};
            sd.closedRead := true;
          }
        }
        if Pipe in sd.mask {
          if PollIn !in r.events && PollHangup in r.events {
            mask := {CloseEvent};
            sd.closedRead := true;
          }
        }
        if PollOut in r.events {
          if PollError in r.events {
            mask := {ErrorEvent};
            sd.closedWrite := true;
          } else {
            mask := mask + {OutEvent};
          }
        }
      }
    }

    /** The same for an object that is in the map. */
    method Examine(r: Ready, sd: SocketData) returns (mask: set<Flag>)
      requires Valid() && r.fd in sockets && sockets[r.fd] == sd
      modifies sd`closedRead, sd`closedWrite
      ensures Valid() && sd.View() == Report(old(sd.View()), r).1 && mask == Report(old(sd.View()), r).0
      ensures View() == Put(old(View()), r.fd, sd.View())
    {
      hide Report;
      mask := GetPollEvents(r, sd);
      OneChanged(sd);
    }

    /** One reported event, for the object that the kernel was given. */
    method HandleEvent(r: Ready)
      requires Valid() && r.fd in kernel
      modifies this`kernel, this`log, kernel[r.fd].data
      ensures Valid() && View() == Deliver(old(View()), r)
      ensures sockets == old(sockets)
    {
      var sd := kernel[r.fd].data;
      ghost var s, before := View(), sd.View();
      assert r.fd in s.sockets && s.sockets[r.fd] == before;
      hide Report, Remove, Put;
      var mask := Examine(r, sd);
      DeliverIs(s, r, mask, sd.View());
      if mask != {} {
        Post(sd, mask);
      }
    }

    /** Unregisters the descriptor and posts. */
    method Post(sd: SocketData, mask: set<Flag>)
      requires Valid() && sd.fd in sockets && sockets[sd.fd] == sd
      modifies this`kernel, this`log, sd`tracked
      ensures Valid() && View() == Remove(old(View()), sd.fd).(log := old(log) + [Posted(sd.fd, sd.port, mask)])
    {
      hide Remove;
      RemoveFromEpollInstance(sd);
      hide Valid, Views, Registered;
      log := log + [Posted(sd.fd, sd.port, mask)];
    }

    /** A turn of the poll loop. */
    method HandleEvents(batch: seq<Ready>, messages: seq<Message>)
      requires Valid() && Reports(View(), batch)
      modifies this, sockets.Values
      ensures Valid() && View() == Step(old(View()), Turn(batch, messages))
    {
      hide Deliver;
      var i := 0;
      assert batch[0..] == batch;
      while i < |batch|
        invariant i <= |batch| && Valid() && sockets == old(sockets)
        invariant Reports(View(), batch[i..])
        invariant DeliverAll(View(), batch[i..]) == DeliverAll(old(View()), batch)
      {
        assert batch[i..][1..] == batch[i + 1..];
        DeliverReports(View(), batch[i..]);
        HandleEvent(batch[i]);
        i := i + 1;
      }
      HandleInterruptFd(messages);
    }
  }
}
