/** The client socket of the Windows event handler on the heap: it holds its I/O buffers by
    reference, and the system holds those of the operations in flight. Run under the socket's
    lock, each method takes one step of the interleaving model and finds the source's assertions
    true; a run of methods is a run of the model. */
module WindowsSocket {
  import opened Options
  import opened Words
  import opened WindowsClients

  const READ_SIZE: nat := 1024
  const MAX_WRITE: nat := 4096

  lemma SliceAt(all: Bytes, from: nat, mid: nat, to: nat)
    requires from <= mid <= to <= |all|
    ensures all[from..to][..mid - from] == all[from..mid] && all[from..to][mid - from..] == all[mid..to]
  {}

  /** The identity of a buffer stands for its address. */
  class IOBuffer {
    const id: BufferId
    const operation: Operation
    const data: array<byte>
    var index: int
    var dataLength: int

    constructor (id: BufferId, operation: Operation, size: nat)
      ensures this.id == id && this.operation == operation && data.Length == size && fresh(data)
      ensures index == 0 && dataLength == 0
    {
      this.id, this.operation, this.index, this.dataLength := id, operation, 0, 0;
      data := new byte[size];
    }

    /** A completion stored either a number of bytes that fits, or -1. */
    predicate Readable()
      reads this
    {
      (dataLength == -1 && index == 0) || 0 <= index <= dataLength <= data.Length
    }

    function GetRemainingLength(): int
      reads this
    {
      dataLength - index
    }

    predicate IsEmpty()
      reads this
    {
      GetRemainingLength() == 0
    }

    /** What is left to be read. */
    function Rest(): Bytes
      reads this, data
    {
      if 0 <= index <= dataLength <= data.Length then data[index..dataLength] else []
    }

    /** Hands out the next bytes in order. After a failed completion it is asked for -1 bytes,
        and is empty afterwards. */
    method Read(count: nat) returns (n: int, out: Bytes)
      requires Readable()
      modifies `index
      ensures dataLength >= 0 ==> Readable() && n == if count > |old(Rest())| then |old(Rest())| else count
      ensures dataLength >= 0 ==> out == old(Rest())[..n] && Rest() == old(Rest())[n..]
      ensures dataLength < 0 ==> n == -1 && out == [] && IsEmpty()
    {
      ghost var all, rest, was := data[..], Rest(), index;
      n, out := count, [];
      if n > GetRemainingLength() {
        n := GetRemainingLength();
      }
      if n > 0 {
        out := data[index..index + n];
      }
      index := index + n;
      if dataLength >= 0 {
        SliceAt(all, was, was + n, dataLength);
        assert rest == all[was..dataLength];
        assert Rest() == all[was + n..dataLength];
        assert out == all[was..was + n];
      }
    }

    /** Fills the whole buffer. */
    method Write(bytes: Bytes)
      requires |bytes| == data.Length
      modifies `dataLength, data
      ensures data[..] == bytes && dataLength == |bytes|
    {
      forall i | 0 <= i < |bytes| {
        data[i] := bytes[i];
      }
      dataLength := |bytes|;
    }

    /** The system has stored the bytes of a completed read, and the event handler their number,
        or -1 if it failed. */
    method Complete(outcome: Option<Bytes>)
      requires index == 0 && (outcome.Some? ==> |outcome.value| <= data.Length)
      modifies `dataLength, data
      ensures Readable() && dataLength == if outcome.Some? then |outcome.value| else -1
      ensures outcome.Some? ==> Rest() == outcome.value
    {
      dataLength := -1;
      if outcome.Some? {
        dataLength := |outcome.value|;
        forall i | 0 <= i < |outcome.value| {
          data[i] := outcome.value[i];
        }
      }
    }
  }

  ghost function IdOf(b: IOBuffer?): Option<BufferId> {
    if b == null then None else Some(b.id)
  }

  /** The part of the model's state that is in the socket's fields. */
  datatype Fields = Fields(closing: bool, closedRead: bool, closedWrite: bool, queue: seq<Message>, handler: Handler,
                           pendingRead: Option<BufferId>, pendingWrite: Option<BufferId>, ready: Option<Ready>)

  ghost function FieldsOf(c: Client): Fields {
    Fields(c.closing, c.closedRead, c.closedWrite, c.queue, c.handler, c.pendingRead, c.pendingWrite, c.ready)
  }

  ghost predicate Apart(a: IOBuffer?, b: IOBuffer?) {
    a != null && b != null ==> a != b && a.data != b.data
  }

  class ClientSocket {
    var closing: bool
    var closedRead: bool
    var closedWrite: bool
    var pendingRead: IOBuffer?
    var dataReady: IOBuffer?
    var pendingWrite: IOBuffer?

    /** The socket's surroundings: the buffers that the system holds, the interrupt messages on
        their way, and how far the event handler is with a completion. */
    var inFlight: set<IOBuffer>
    var messages: seq<Message>
    var handler: Handler

    ghost function ReadyView(): Option<Ready>
      reads `dataReady, dataReady, if dataReady == null then {} else {dataReady.data}
    {
      if dataReady == null then None
      else Some(if dataReady.dataLength >= 0 then Data(dataReady.id, dataReady.Rest()) else Failed(dataReady.id))
    }

    ghost function Repr(): set<object>
      reads `pendingRead, `dataReady, `pendingWrite
    {
      (if pendingRead == null then {} else {pendingRead, pendingRead.data}) +
      (if dataReady == null then {} else {dataReady, dataReady.data}) +
      (if pendingWrite == null then {} else {pendingWrite, pendingWrite.data})
    }

    /** Buffers are what their places say, no two of them share storage, and the system holds
        exactly the pending ones. */
    ghost predicate Shape()
      reads `pendingRead, `dataReady, `pendingWrite, `inFlight, pendingRead, dataReady
    {
      && (pendingRead != null ==>
            pendingRead.operation == ReadOp && pendingRead.data.Length == READ_SIZE && pendingRead.index == 0)
      && (dataReady != null ==> dataReady.operation == ReadOp && dataReady.Readable())
      && (pendingWrite != null ==> pendingWrite.operation == WriteOp)
      && Apart(pendingRead, dataReady) && Apart(pendingRead, pendingWrite) && Apart(dataReady, pendingWrite)
      && inFlight == (if pendingRead == null then {} else {pendingRead}) +
           (if pendingWrite == null then {} else {pendingWrite})
    }

    ghost function View(): Fields
      reads this, dataReady, if dataReady == null then {} else {dataReady.data}
    {
      Fields(closing, closedRead, closedWrite, messages, handler, IdOf(pendingRead), IdOf(pendingWrite), ReadyView())
    }

    /** The socket is in state c, which the model can reach. */
    ghost predicate Valid(c: Client)
      reads this, Repr()
    {
      Shape() && View() == FieldsOf(c) && Inv(c)
    }

    constructor (ghost known: bool)
      ensures Valid(NewClient(known)) && Repr() == {}
    {
      closing, closedRead, closedWrite := false, false, false;
      pendingRead, dataReady, pendingWrite := null, null, null;
      inFlight, messages, handler := {}, [], Idle;
      new;
      NewClientInv(known);
    }

    function Available(): int
      reads this, dataReady
    {
      if dataReady == null then 0 else dataReady.GetRemainingLength()
    }

    predicate IsClosed()
      reads this
    {
      closing && pendingRead == null && pendingWrite == null
    }

    // ------------------------------------------------------------------- Dart threads

    /** Hands out the next bytes in order, and drops a buffer that is empty. */
    method Read(ghost c: Client, count: nat) returns (n: int, out: Bytes)
      requires Valid(c) && InUse(c)
      modifies `dataReady, dataReady
      ensures Valid(Next(c, ReadCall(count))) && Repr() <= old(Repr())
      ensures n == ReadCount(c, count) && Next(c, ReadCall(count)).handed == c.handed + out
      ensures |out| == (if n < 0 then 0 else n)
    {
      ReadCallInv(c, count);
      ReadCallIs(c, count);
      hide Inv, ReadCalled, ReadCount, Shape;
      n, out := DrainReady(count);
    }

    /** The ready buffer hands out bytes, and goes when it is empty. */
    method DrainReady(count: nat) returns (n: int, out: Bytes)
      requires Shape()
      modifies `dataReady, dataReady
      ensures Shape() && Repr() <= old(Repr()) && View() == old(View()).(ready := ReadyView())
      ensures old(ReadyView()).None? ==> n == 0 && out == [] && ReadyView().None?
      ensures old(ReadyView()).Some? && old(ReadyView()).value.Failed? ==> n == -1 && out == [] && ReadyView().None?
      ensures old(ReadyView()).Some? && old(ReadyView()).value.Data? ==>
                var rest := old(ReadyView()).value.rest;
                && n == (if count > |rest| then |rest| else count) && out == rest[..n]
                && ReadyView() == if n == |rest| then None else Some(Data(old(ReadyView()).value.buffer, rest[n..]))
    {
      n, out := 0, [];
      if dataReady != null {
        n, out := dataReady.Read(count);
        assert pendingRead != dataReady;
        if dataReady.IsEmpty() {
          dataReady := null;
        }
      }
    }

    /** Starts a write of at most 4096 bytes unless one is pending. What the system then holds is a
        prefix of the caller's bytes; a write that it refuses leaves nothing behind. */
    method Write(ghost c: Client, bytes: Bytes, issued: bool, b: BufferId) returns (n: int)
      requires Valid(c) && InUse(c) && b !in c.places
      modifies `pendingWrite, `inFlight
      ensures Valid(Next(c, WriteCall(issued, b))) && fresh(Repr() - old(Repr()))
      ensures old(pendingWrite) != null ==> n == 0 && pendingWrite == old(pendingWrite)
      ensures old(pendingWrite) == null && issued ==>
                && n == (if |bytes| > MAX_WRITE then MAX_WRITE else |bytes|)
                && pendingWrite != null && pendingWrite in inFlight && pendingWrite.data[..] == bytes[..n]
      ensures old(pendingWrite) == null && !issued ==> n == -1 && pendingWrite == null
    {
      WriteCallInv(c, issued, b);
      WriteCallIs(c, issued, b);
      assert pendingWrite == null <==> c.pendingWrite.None?;
      hide Inv, WriteCalled, Shape;
      if pendingWrite != null {
        return 0;
      }
      n := Launch(bytes, issued, b);
    }

    method Launch(bytes: Bytes, issued: bool, b: BufferId) returns (n: int)
      requires Shape() && pendingWrite == null
      modifies `pendingWrite, `inFlight
      ensures Shape() && View() == old(View()).(pendingWrite := if issued then Some(b) else None) &&
              fresh(Repr() - old(Repr()))
      ensures issued ==>
                && n == (if |bytes| > MAX_WRITE then MAX_WRITE else |bytes|)
                && pendingWrite != null && pendingWrite in inFlight && pendingWrite.data[..] == bytes[..n]
      ensures !issued ==> n == -1 && pendingWrite == null
    {
      hide Shape, ReadyView;
      n := if |bytes| > MAX_WRITE then MAX_WRITE else |bytes|;
      var buffer := FilledBuffer(bytes[..n], b);
      var ok := IssueWrite(buffer, issued);
      if !ok {
        n := -1;
      }
    }

    static method FilledBuffer(bytes: Bytes, b: BufferId) returns (buffer: IOBuffer)
      ensures fresh(buffer) && fresh(buffer.data) && buffer.id == b && buffer.operation == WriteOp &&
              buffer.data[..] == bytes
    {
      buffer := new IOBuffer(b, WriteOp, |bytes|);
      buffer.Write(bytes);
    }

    method IssueWrite(buffer: IOBuffer, issued: bool) returns (ok: bool)
      requires Shape() && pendingWrite == null && buffer.operation == WriteOp && buffer.data !in Repr()
      modifies `pendingWrite, `inFlight
      ensures Shape() && ok == issued
      ensures View() == old(View()).(pendingWrite := if issued then Some(buffer.id) else None)
      ensures pendingWrite == (if issued then buffer else null) && (issued ==> buffer in inFlight)
      ensures Repr() <= old(Repr()) + {buffer, buffer.data}
    {
      pendingWrite := buffer;
      if issued {
        inFlight := inFlight + {buffer};
        return true;
      }
      pendingWrite := null;
      return false;
    }

    // -------------------------------------------------------------- the event handler

    /** Asks the system for a read; the source asserts that none is pending. */
    method IssueRead(issued: bool, b: BufferId)
      requires Shape() && pendingRead == null && dataReady == null
      modifies `pendingRead, `inFlight
      ensures Shape() && View() == old(View()).(pendingRead := if issued then Some(b) else None) &&
              fresh(Repr() - old(Repr()))
    {
      var buffer := new IOBuffer(b, ReadOp, READ_SIZE);
      if issued {
        pendingRead := buffer;
        inFlight := inFlight + {buffer};
      }
    }

    /** A message asks for input. */
    method RequestInput(issued: bool, b: BufferId)
      requires Shape() && ReadyOk(View())
      modifies `pendingRead, `inFlight
      ensures Shape() && View() == Requested(old(View()), issued, b) && fresh(Repr() - old(Repr()))
    {
      if Available() <= 0 && pendingRead == null && !closedRead {
        IssueRead(issued, b);
      }
    }

    method CloseSocket()
      requires Shape()
      modifies `closing, `dataReady
      ensures Shape() && View() == old(View()).(closing := true, ready := None) && Repr() <= old(Repr())
    {
      closing := true;
      dataReady := null;
    }

    /** An interrupt message: input may be requested, directions shut down, the socket closed. It
        is deleted exactly when that leaves nothing in flight, with nothing left to dispose. */
    method HandleInterrupt(ghost c: Client, issued: bool, b: BufferId) returns (deleted: bool)
      requires Valid(c) && Enabled(c, Interrupt(issued, b))
      modifies this
      ensures Valid(Next(c, Interrupt(issued, b))) && fresh(Repr() - old(Repr()))
      ensures deleted <==> Next(c, Interrupt(issued, b)).deletions > c.deletions
      ensures deleted <==> closing && pendingRead == null && pendingWrite == null
      ensures deleted ==> dataReady == null
    {
      InterruptInv(c, issued, b);
      InterruptIs(c, issued, b);
      InterruptFields(c, issued, b);
      ReadyFacts(c);
      hide Inv, Interrupted, Shape, Shown;
      TakeMessage(issued, b);
      deleted := IsClosed();
    }

    method TakeMessage(issued: bool, b: BufferId)
      requires Shape() && ReadyOk(View()) && messages != []
      modifies `closing, `closedRead, `closedWrite, `pendingRead, `dataReady, `inFlight, `messages
      ensures Shape() && View() == Shown(old(View()), issued, b) && fresh(Repr() - old(Repr()))
    {
      var m := messages[0];
      assert View().queue[0] == m;
      hide Shape, View, Obeyed;
      Pop();
      Obey(m, issued, b);
      if m.close {
        CloseSocket();
      }
    }

    method Obey(m: Message, issued: bool, b: BufferId)
      requires Shape() && ReadyOk(View())
      modifies `closedRead, `closedWrite, `pendingRead, `inFlight
      ensures Shape() && View() == Obeyed(old(View()), m, issued, b) && fresh(Repr() - old(Repr()))
    {
      hide Shape, View, Requested;
      if m.inEvent {
        RequestInput(issued, b);
      }
      Shutdown(m.shutRead, m.shutWrite);
    }

    method Pop()
      requires Shape() && messages != []
      modifies `messages
      ensures Shape() && View() == old(View()).(queue := old(View()).queue[1..]) && Repr() == old(Repr())
    {
      hide Shape;
      messages := messages[1..];
    }

    method Shutdown(read: bool, write: bool)
      requires Shape()
      modifies `closedRead, `closedWrite
      ensures Shape() && Repr() == old(Repr())
      ensures View() == old(View()).(closedRead := old(View()).closedRead || read,
                                     closedWrite := old(View()).closedWrite || write)
    {
      hide Shape;
      closedRead, closedWrite := closedRead || read, closedWrite || write;
    }

    /** A completed read: the source's two assertions hold, and the buffer becomes ready data
        exactly if the socket is not closing and the completion was not empty. */
    method HandleRead(ghost c: Client, buffer: IOBuffer, outcome: Option<Bytes>)
      requires Valid(c) && handler == Idle && buffer in inFlight && buffer.operation == ReadOp
      requires outcome.Some? ==> |outcome.value| <= READ_SIZE
      modifies `pendingRead, `dataReady, `inFlight, `handler, buffer`dataLength, buffer.data
      ensures Enabled(c, ReadDone(buffer.id, outcome)) && Valid(Next(c, ReadDone(buffer.id, outcome)))
      ensures Repr() <= old(Repr())
      ensures pendingRead == null && dataReady == (if !closing && outcome != Some([]) then buffer else null)
    {
      assert pendingRead == buffer;
      ReadInFlight(c);
      assert dataReady == null;
      ReadDoneInv(c, buffer.id, outcome);
      ReadDoneIs(c, buffer.id, outcome);
      hide Inv, ReadCompleted;
      buffer.Complete(outcome);
      ReadComplete(buffer);
    }

    method ReadComplete(buffer: IOBuffer)
      requires Shape() && pendingRead == buffer && dataReady == null
      requires buffer.Readable()
      modifies `pendingRead, `dataReady, `inFlight, `handler
      ensures Shape() && Repr() <= old(Repr()) && pendingRead == null
      ensures dataReady == (if !closing && buffer.dataLength != 0 then buffer else null)
      ensures View() == old(View()).(pendingRead := None, ready := ReadyView(),
                                     handler := Finishing(buffer.dataLength <= 0))
    {
      if !closing && !buffer.IsEmpty() {
        dataReady := pendingRead;
      }
      pendingRead := null;
      inFlight, handler := inFlight - {buffer}, Finishing(buffer.dataLength <= 0);
    }

    /** A completed write: the source's assertion holds, and a new write may start. */
    method HandleWrite(ghost c: Client, buffer: IOBuffer)
      requires Valid(c) && handler == Idle && buffer in inFlight && buffer.operation == WriteOp
      modifies `pendingWrite, `inFlight, `handler
      ensures Enabled(c, WriteDone(buffer.id)) && Valid(Next(c, WriteDone(buffer.id)))
      ensures Repr() <= old(Repr()) && pendingWrite == null && buffer !in inFlight
    {
      assert pendingWrite == buffer;
      WriteInFlight(c);
      WriteDoneInv(c, buffer.id);
      WriteDoneIs(c, buffer.id);
      hide Inv, WriteCompleted, Shape;
      WriteComplete(buffer);
    }

    method WriteComplete(buffer: IOBuffer)
      requires Shape() && pendingWrite == buffer
      modifies `pendingWrite, `inFlight, `handler
      ensures Shape() && Repr() <= old(Repr()) && pendingWrite == null && buffer !in inFlight
      ensures View() == old(View()).(pendingWrite := None, handler := Finishing(false))
    {
      pendingWrite := null;
      inFlight, handler := inFlight - {buffer}, Finishing(false);
    }

    /** After a completion: the end of input is noted, and a closed socket is deleted, exactly when
        nothing is in flight, with nothing left to dispose. */
    method FinishCompletion(ghost c: Client) returns (deleted: bool)
      requires Valid(c) && handler.Finishing?
      modifies `closedRead, `handler
      ensures Valid(Next(c, Finish)) && Repr() == old(Repr())
      ensures deleted <==> Next(c, Finish).deletions > c.deletions
      ensures deleted <==> closing && pendingRead == null && pendingWrite == null
      ensures deleted ==> dataReady == null
    {
      FinishInv(c);
      FinishIs(c);
      assert dataReady == null <==> c.ready.None?;
      hide Inv, Shape, Finished;
      NoteCompletion();
      deleted := IsClosed();
    }

    method NoteCompletion()
      requires Shape() && handler.Finishing?
      modifies `closedRead, `handler
      ensures Shape() && Repr() == old(Repr())
      ensures View() == old(View()).(closedRead := old(closedRead) || old(handler).markClosedRead, handler := Idle)
    {
      hide Shape;
      closedRead := closedRead || handler.markClosedRead;
      handler := Idle;
    }

    // ---------------------------------------------------------------------- whole runs

    /** One event: the system names a buffer that it holds, and the methods do the rest. */
    method Step(ghost c: Client, e: Event, payload: BufferId -> Bytes)
      requires Valid(c) && Enabled(c, e) && Fits(e)
      modifies this, Repr()
      ensures Valid(Next(c, e)) && fresh(Repr() - old(Repr()))
    {
      match e
      case Send(m) => Receive(c, m);
      case HandOver => Claim(c);
      case CloseUnclaimed => Abandon(c);
      case ReadCall(count) => var _, _ := Read(c, count);
      case WriteCall(issued, b) => var _ := Write(c, payload(b), issued, b);
      case Interrupt(issued, b) => var _ := HandleInterrupt(c, issued, b);
      case ReadDone(b, outcome) =>
        InFlight(c, b);
        var buffer :| buffer in inFlight && buffer.id == b && buffer.operation == ReadOp;
        HandleRead(c, buffer, outcome);
      case WriteDone(b) =>
        InFlight(c, b);
        var buffer :| buffer in inFlight && buffer.id == b && buffer.operation == WriteOp;
        HandleWrite(c, buffer);
      case Finish => var _ := FinishCompletion(c);
    }

    /** What the model has in flight, the system holds. */
    lemma InFlight(c: Client, b: BufferId)
      requires Valid(c) && b in c.flights
      ensures exists buffer :: buffer in inFlight && buffer.id == b && buffer.operation == c.flights[b]
    {
      FlightIs(c, b);
      hide Inv;
      var buffer := if c.flights[b] == ReadOp then pendingRead else pendingWrite;
      assert buffer in inFlight && buffer.id == b;
    }

    method Receive(ghost c: Client, m: Message)
      requires Valid(c) && Enabled(c, Send(m))
      modifies `messages
      ensures Valid(Next(c, Send(m))) && Repr() == old(Repr())
    {
      SendInv(c, m);
      hide Inv, Shape;
      messages := messages + [m];
    }

    ghost method Claim(c: Client)
      requires Valid(c) && Enabled(c, HandOver)
      ensures Valid(Next(c, HandOver))
    {
      NextInv(c, HandOver);
      hide Inv, Shape;
    }

    method Abandon(ghost c: Client)
      requires Valid(c) && Enabled(c, CloseUnclaimed)
      modifies `closing, `dataReady
      ensures Valid(Next(c, CloseUnclaimed)) && Repr() <= old(Repr())
    {
      NextInv(c, CloseUnclaimed);
      CloseFields(c);
      hide Inv, Shape, Close;
      CloseSocket();
    }

    /** Any run of events that the model allows, the methods can carry out, and they end in the
        state that the model ends in. */
    method Run(ghost c: Client, run: seq<Event>, payload: BufferId -> Bytes)
      requires Valid(c) && Possible(c, run) && forall e :: e in run ==> Fits(e)
      modifies this, Repr()
      ensures Valid(After(c, run))
    {
      hide Valid, Enabled, Next;
      ghost var c1 := c;
      var i := 0;
      assert run[0..] == run;
      while i < |run|
        invariant i <= |run| && Valid(c1) && Possible(c1, run[i..]) && After(c1, run[i..]) == After(c, run)
        invariant fresh(Repr() - old(Repr()))
      {
        assert run[i..][0] == run[i] && run[i..][1..] == run[i + 1..];
        Step(c1, run[i], payload);
        c1 := Next(c1, run[i]);
        i := i + 1;
      }
    }
  }

  /** A new socket through any run: it is deleted at most once, and then the system holds nothing
      of it and no buffer is left; and the bytes handed out are a prefix of those received. */
  method Serve(ghost known: bool, run: seq<Event>, payload: BufferId -> Bytes) returns (socket: ClientSocket)
    requires Possible(NewClient(known), run) && forall e :: e in run ==> Fits(e)
    ensures fresh(socket) && socket.Valid(After(NewClient(known), run))
    ensures var c := After(NewClient(known), run);
            && c.deletions <= 1 && c.handed <= c.received
            && (c.deletions == 1 ==> socket.inFlight == {} && socket.Repr() == {})
  {
    socket := new ClientSocket(known);
    socket.Run(NewClient(known), run, payload);
    BuffersAndBytes(known, run, 0);
    DeletedFields(known, run);
    hide Inv, Possible, After;
  }

  lemma DeletedFields(known: bool, run: seq<Event>)
    requires Possible(NewClient(known), run)
    ensures var c := After(NewClient(known), run);
            c.deletions <= 1 && (c.deletions == 1 ==> c.pendingRead.None? && c.pendingWrite.None? && c.ready.None?)
  {
    NewClientInv(known);
    RunInv(NewClient(known), run);
  }

  /** A completed read stores no more than its buffer holds. */
  predicate Fits(e: Event) {
    e.ReadDone? && e.outcome.Some? ==> |e.outcome.value| <= READ_SIZE
  }

  lemma FlightIs(c: Client, b: BufferId)
    requires Inv(c) && b in c.flights
    ensures Some(b) == if c.flights[b] == ReadOp then c.pendingRead else c.pendingWrite
  {}

  /** A failed completion waits only if reading is over, and ready data is not empty. */
  ghost predicate ReadyOk(c: Fields) {
    && (c.ready.Some? && c.ready.value.Failed? ==> c.closedRead)
    && (c.ready.Some? && c.ready.value.Data? ==> c.ready.value.rest != [])
  }

  /** What a request for input, and a whole message, do to the fields. */
  ghost function Requested(f: Fields, issued: bool, b: BufferId): Fields {
    if f.pendingRead.None? && f.ready.None? && !f.closedRead && issued then f.(pendingRead := Some(b)) else f
  }

  ghost function Shown(f: Fields, issued: bool, b: BufferId): Fields
    requires f.queue != []
  {
    var f1 := Obeyed(f.(queue := f.queue[1..]), f.queue[0], issued, b);
    if f.queue[0].close then f1.(closing := true, ready := None) else f1
  }

  ghost function Obeyed(f: Fields, m: Message, issued: bool, b: BufferId): Fields {
    var f1 := if m.inEvent then Requested(f, issued, b) else f;
    f1.(closedRead := f1.closedRead || m.shutRead, closedWrite := f1.closedWrite || m.shutWrite)
  }

  lemma RequestFields(c: Client, issued: bool, b: BufferId)
    requires ReadyOk(FieldsOf(c))
    ensures FieldsOf(RequestRead(c, issued, b)) == Requested(FieldsOf(c), issued, b)
  {
    hide Dispose;
    DisposeIs(c, b);
  }

  lemma CloseFields(c: Client)
    ensures FieldsOf(Close(c)) == FieldsOf(c).(closing := true, ready := None)
    ensures FieldsOf(DeleteIfClosed(c)) == FieldsOf(c)
  {
    hide Dispose;
    if c.ready.Some? { DisposeIs(c, c.ready.value.buffer); }
  }

  lemma ObeyFields(c: Client, m: Message, issued: bool, b: BufferId)
    requires ReadyOk(FieldsOf(c))
    ensures FieldsOf(Shut(if m.inEvent then RequestRead(c, issued, b) else c, m)) == Obeyed(FieldsOf(c), m, issued, b)
  {
    hide RequestRead, Requested, FieldsOf, Shut;
    RequestFields(c, issued, b);
    ShutFields(if m.inEvent then RequestRead(c, issued, b) else c, m);
  }

  lemma InterruptFields(c: Client, issued: bool, b: BufferId)
    requires c.queue != [] && ReadyOk(FieldsOf(c))
    ensures FieldsOf(Interrupted(c, issued, b)) == Shown(FieldsOf(c), issued, b)
  {
    PopFields(c);
    hide RequestRead, Obeyed, FieldsOf, Close, DeleteIfClosed, Popped, Shut;
    var m, c0 := c.queue[0], Popped(c);
    ObeyFields(c0, m, issued, b);
    var c2 := Shut(if m.inEvent then RequestRead(c0, issued, b) else c0, m);
    CloseFields(c2);
    CloseFields(Close(c2));
  }

  lemma PopFields(c: Client)
    requires c.queue != []
    ensures FieldsOf(c).queue == c.queue && FieldsOf(Popped(c)) == FieldsOf(c).(queue := c.queue[1..])
    ensures ReadyOk(FieldsOf(c)) ==> ReadyOk(FieldsOf(Popped(c)))
  {}

  lemma ShutFields(c: Client, m: Message)
    ensures FieldsOf(Shut(c, m)) == FieldsOf(c).(closedRead := FieldsOf(c).closedRead || m.shutRead,
                                                 closedWrite := FieldsOf(c).closedWrite || m.shutWrite)
  {}

  lemma EmptiedFields(c: Client, b: BufferId, rest: Bytes)
    ensures FieldsOf(Emptied(c, b, rest)) == FieldsOf(c).(ready := None)
    ensures Emptied(c, b, rest).handed == c.handed + rest && Emptied(c, b, rest).ready.None?
  {
    hide Dispose;
    DisposeIs(c, b);
  }

  lemma ShortenedFields(c: Client, b: BufferId, rest: Bytes, n: nat)
    requires n < |rest|
    ensures FieldsOf(Shortened(c, b, rest, n)) == FieldsOf(c).(ready := Some(Data(b, rest[n..])))
    ensures Shortened(c, b, rest, n).handed == c.handed + rest[..n] &&
            Shortened(c, b, rest, n).ready == Some(Data(b, rest[n..]))
  {}

  lemma DroppedFields(c: Client, b: BufferId)
    ensures FieldsOf(Dispose(c, b).(ready := None)) == FieldsOf(c).(ready := None)
    ensures Dispose(c, b).handed == c.handed + []
  {}

  /** What a Read call leaves. */
  lemma ReadCallIs(c: Client, count: nat)
    ensures var c' := ReadCalled(c, count); var n := ReadCount(c, count);
            && FieldsOf(c') == FieldsOf(c).(ready := c'.ready)
            && (c.ready.None? ==> c'.ready.None? && c'.handed == c.handed + [] && n == 0)
            && (c.ready.Some? && c.ready.value.Failed? ==> c'.ready.None? && c'.handed == c.handed + [] && n == -1)
            && (c.ready.Some? && c.ready.value.Data? ==>
                  var rest := c.ready.value.rest;
                  && n == (if count > |rest| then |rest| else count) && c'.handed == c.handed + rest[..n]
                  && c'.ready == if n == |rest| then None else Some(Data(c.ready.value.buffer, rest[n..])))
  {
    assert FieldsOf(c).ready == c.ready && c.handed + [] == c.handed;
    hide Emptied, Shortened, Dispose, FieldsOf;
    match c.ready {
      case None =>
      case Some(Failed(b)) => DroppedFields(c, b);
      case Some(Data(b, rest)) =>
        if count >= |rest| {
          EmptiedFields(c, b, rest);
          assert rest[..|rest|] == rest;
        } else {
          ShortenedFields(c, b, rest, count);
        }
    }
  }

  lemma WriteCallIs(c: Client, issued: bool, b: BufferId)
    ensures c.pendingWrite.Some? ==> WriteCalled(c, issued, b) == c
    ensures c.pendingWrite.None? ==>
              FieldsOf(WriteCalled(c, issued, b)) == FieldsOf(c).(pendingWrite := if issued then Some(b) else None)
  {
    hide Dispose;
    DisposeIs(c, b);
  }

  lemma WriteDoneIs(c: Client, b: BufferId)
    ensures FieldsOf(WriteCompleted(c, b)) == FieldsOf(c).(pendingWrite := None, handler := Finishing(false))
  {}

  lemma ReadDoneIs(c: Client, b: BufferId, outcome: Option<Bytes>)
    requires c.ready.None?
    ensures var got := if outcome.Some? then outcome.value else [];
            FieldsOf(ReadCompleted(c, b, outcome)) ==
            FieldsOf(c).(pendingRead := None, handler := Finishing(got == []),
                         ready := if c.closing || outcome == Some([]) then None
                                  else Some(if outcome.Some? then Data(b, got) else Failed(b)))
  {}

  lemma FinishIs(c: Client)
    requires Inv(c) && c.handler.Finishing?
    ensures c.deletions == 0 && (c.closing ==> c.ready.None?)
    ensures Finished(c).deletions > 0 <==> c.closing && c.pendingRead.None? && c.pendingWrite.None?
    ensures FieldsOf(Finished(c)) ==
            FieldsOf(c).(closedRead := c.closedRead || c.handler.markClosedRead, handler := Idle)
  {}

  lemma ReadyFacts(c: Client)
    requires Inv(c) && c.handler == Idle
    ensures ReadyOk(FieldsOf(c))
  {}

  lemma ReadInFlight(c: Client)
    requires Inv(c) && c.pendingRead.Some?
    ensures c.pendingRead.value in c.flights && c.flights[c.pendingRead.value] == ReadOp && c.ready.None?
  {}

  lemma WriteInFlight(c: Client)
    requires Inv(c) && c.pendingWrite.Some?
    ensures c.pendingWrite.value in c.flights && c.flights[c.pendingWrite.value] == WriteOp
  {}

  /** What a deletion in handling a message means. */
  lemma InterruptIs(c: Client, issued: bool, b: BufferId)
    requires Inv(c) && Enabled(c, Interrupt(issued, b))
    ensures var c' := Interrupted(c, issued, b);
            && c.deletions == 0
            && (c'.deletions > 0 <==> c'.closing && c'.pendingRead.None? && c'.pendingWrite.None?)
            && (c'.deletions > 0 ==> c'.ready.None?)
  {
    InterruptInv(c, issued, b);
    PopInv(c);
    InterruptFrame(c, issued, b);
  }
}
