/** A client socket on a Windows completion port (runtime/bin/eventhandler_win): asynchronous
    reads and writes, the buffers they own, and the deferred deletion of a closed socket.
    The event-handler thread takes this socket's interrupt messages and completions one at a
    time; Dart threads call Read and Write under the socket's lock at any moment in between. */
module WindowsClients {
  import opened Options
  import opened Words

  type BufferId = nat

  /** Data waiting to be read: what is left of a buffer, or a buffer whose completion failed
      and whose data length is therefore -1. */
  datatype Ready = Data(buffer: BufferId, rest: Bytes) | Failed(buffer: BufferId)

  datatype Operation = ReadOp | WriteOp

  /** Who owns a buffer; a disposed buffer counts how often it was disposed. */
  datatype Place = InRead | InReady | InWrite | Disposed(times: nat)

  datatype Message = Message(inEvent: bool, outEvent: bool, shutRead: bool, shutWrite: bool, close: bool)

  /** After a completion the handler still has to look whether the socket can be deleted. */
  datatype Handler = Idle | Finishing(markClosedRead: bool)

  /** The socket's own fields, then its surroundings: operations the system has in flight, the
      owner of every buffer ever allocated for it, messages on their way, whether Dart code knows
      it and has asked to close it, and how often it was deleted. `received` and `handed` record
      the bytes of all successful completions and those that Read has given out. */
  datatype Client = Client(
    closing: bool, closedRead: bool, closedWrite: bool,
    pendingRead: Option<BufferId>, ready: Option<Ready>, pendingWrite: Option<BufferId>,
    flights: map<BufferId, Operation>, places: map<BufferId, Place>, queue: seq<Message>,
    known: bool, retired: bool, handler: Handler, deletions: nat,
    received: Bytes, handed: Bytes)

  function NewClient(known: bool): Client {
    Client(false, false, false, None, None, None, map[], map[], [], known, false, Idle, 0, [], [])
  }

  /** What may happen to the socket, with what the operating system decides: whether an
      operation is accepted, which bytes arrive, which name a new buffer gets. */
  datatype Event =
    | Send(message: Message)
    | HandOver
    | CloseUnclaimed
    | ReadCall(count: nat)
    | WriteCall(issued: bool, buffer: BufferId)
    | Interrupt(issued: bool, buffer: BufferId)
    | ReadDone(buffer: BufferId, outcome: Option<Bytes>)
    | WriteDone(buffer: BufferId)
    | Finish

  // ------------------------------------------------------------------- the invariant

  /** The operations in flight are the ones the socket remembers. */
  ghost predicate FlightsMatch(c: Client) {
    && (forall b :: b in c.flights ==> Some(b) == if c.flights[b] == ReadOp then c.pendingRead else c.pendingWrite)
    && (c.pendingRead.Some? ==> c.pendingRead.value in c.flights && c.flights[c.pendingRead.value] == ReadOp)
    && (c.pendingWrite.Some? ==> c.pendingWrite.value in c.flights && c.flights[c.pendingWrite.value] == WriteOp)
  }

  /** Every buffer has exactly one owner: the recorded place is where the socket holds it, and
      a disposed buffer is held nowhere and was disposed once. */
  ghost predicate Owned(c: Client) {
    && (forall b :: b in c.places ==>
          && (c.places[b] == InRead <==> c.pendingRead == Some(b))
          && (c.places[b] == InWrite <==> c.pendingWrite == Some(b))
          && (c.places[b] == InReady <==> c.ready.Some? && c.ready.value.buffer == b)
          && (c.places[b].Disposed? ==> c.places[b].times == 1))
    && (c.pendingRead.Some? ==> c.pendingRead.value in c.places)
    && (c.pendingWrite.Some? ==> c.pendingWrite.value in c.places)
    && (c.ready.Some? ==> c.ready.value.buffer in c.places)
  }

  function Rest(c: Client): Bytes {
    if c.ready.Some? && c.ready.value.Data? then c.ready.value.rest else []
  }

  /** A pending read and ready data exclude each other; a failed completion ends reading; the
      bytes given out so far are a prefix of the bytes received. */
  ghost predicate DataOk(c: Client) {
    && (c.ready.Some? ==> c.pendingRead.None? && !c.closing)
    && (c.ready.Some? && c.ready.value.Data? ==> c.ready.value.rest != [])
    && (c.ready.Some? && c.ready.value.Failed? ==> c.closedRead || c.handler == Finishing(true))
    && (if c.closing then c.handed <= c.received else c.handed + Rest(c) == c.received)
  }

  /** Nothing follows a close message, and no message is left once the socket is closing. */
  ghost predicate QueueOk(c: Client) {
    && (c.closing || !c.known ==> c.queue == [])
    && (forall i :: 0 <= i < |c.queue| && c.queue[i].close ==> c.retired && i == |c.queue| - 1)
    && (c.closing && c.known ==> c.retired)
    && (!c.known ==> c.flights == map[] && c.ready.None? && c.handler == Idle && !c.retired && c.deletions == 0)
  }

  /** A deleted socket was deleted once, while closing, with nothing in flight or on its way;
      and a socket that Dart closed is deleted as soon as that is so. */
  ghost predicate DeletionOk(c: Client) {
    && c.deletions <= 1
    && (c.deletions == 1 ==>
          c.known && c.closing && c.flights == map[] && c.queue == [] && c.handler == Idle && c.ready.None?)
    && (c.known && IsClosed(c) && c.handler == Idle ==> c.deletions == 1)
  }

  /** The invariant while a closed socket is about to be looked at for deletion. */
  ghost predicate AlmostInv(c: Client) {
    FlightsMatch(c) && Owned(c) && DataOk(c) && QueueOk(c)
  }

  ghost predicate Inv(c: Client) {
    FlightsMatch(c) && Owned(c) && DataOk(c) && QueueOk(c) && DeletionOk(c)
  }

  // ------------------------------------------------------------------ the transitions

  function Dispose(c: Client, b: BufferId): Client {
    var times := if b in c.places && c.places[b].Disposed? then c.places[b].times + 1 else 1;
    c.(places := c.places[b := Disposed(times)])
  }

  /** Only the owner of the buffer changes. */
  lemma DisposeIs(c: Client, b: BufferId)
    ensures Dispose(c, b) == c.(places := Dispose(c, b).places)
    ensures !(b in c.places && c.places[b].Disposed?) ==> Dispose(c, b).places == c.places[b := Disposed(1)]
  {}

  /** IsClosed: closing, and nothing is in flight. */
  predicate IsClosed(c: Client) {
    c.closing && c.pendingRead.None? && c.pendingWrite.None?
  }

  function DeleteIfClosed(c: Client): Client {
    if IsClosed(c) then c.(deletions := c.deletions + 1) else c
  }

  /** How many bytes Read copies: -1 when the ready buffer holds a failed completion. */
  function ReadCount(c: Client, count: nat): int {
    match c.ready
    case None => 0
    case Some(Data(_, rest)) => if count > |rest| then |rest| else count
    case Some(Failed(_)) => -1
  }

  /** All that is left of a buffer is handed out, or only the first n bytes. */
  function Emptied(c: Client, b: BufferId, rest: Bytes): Client {
    Dispose(c, b).(ready := None, handed := c.handed + rest)
  }

  function Shortened(c: Client, b: BufferId, rest: Bytes, n: nat): Client
    requires n < |rest|
  {
    c.(ready := Some(Data(b, rest[n..])), handed := c.handed + rest[..n])
  }

  function ReadCalled(c: Client, count: nat): Client {
    match c.ready
    case None => c
    case Some(Failed(b)) => Dispose(c, b).(ready := None)
    case Some(Data(b, rest)) => if count >= |rest| then Emptied(c, b, rest) else Shortened(c, b, rest, count)
  }

  /** A write waits for the previous one; a buffer that the system refuses is disposed. */
  function WriteCalled(c: Client, issued: bool, b: BufferId): Client {
    if c.pendingWrite.Some? then c
    else if issued then
      c.(pendingWrite := Some(b), flights := c.flights[b := WriteOp], places := c.places[b := InWrite])
    else Dispose(c, b)
  }

  /** The read that a message asks for is issued unless data is ready, a read is pending, or
      reading is over. */
  function RequestRead(c: Client, issued: bool, b: BufferId): Client {
    if ReadCount(c, 1) > 0 || c.pendingRead.Some? || c.closedRead then c
    else if issued then
      c.(pendingRead := Some(b), flights := c.flights[b := ReadOp], places := c.places[b := InRead])
    else Dispose(c, b)
  }

  /** close() and AfterClose(): ready data is dropped. */
  function Close(c: Client): Client {
    var c' := if c.ready.Some? then Dispose(c, c.ready.value.buffer).(ready := None) else c;
    c'.(closing := true)
  }

  function Popped(c: Client): Client
    requires c.queue != []
  {
    c.(queue := c.queue[1..])
  }

  function Shut(c: Client, m: Message): Client {
    c.(closedRead := c.closedRead || m.shutRead, closedWrite := c.closedWrite || m.shutWrite)
  }

  function Interrupted(c: Client, issued: bool, b: BufferId): Client
    requires c.queue != []
  {
    var m, c0 := c.queue[0], Popped(c);
    var c1 := if m.inEvent then RequestRead(c0, issued, b) else c0;
    var c2 := Shut(c1, m);
    if m.close then DeleteIfClosed(Close(c2)) else c2
  }

  function ReadCompleted(c: Client, b: BufferId, outcome: Option<Bytes>): Client {
    var got := if outcome.Some? then outcome.value else [];
    var c1 := c.(pendingRead := None, flights := c.flights - {b}, received := c.received + got,
                 handler := Finishing(got == []));
    if c.closing || outcome == Some([]) then Dispose(c1, b)
    else c1.(ready := Some(if outcome.Some? then Data(b, got) else Failed(b)), places := c1.places[b := InReady])
  }

  function WriteCompleted(c: Client, b: BufferId): Client {
    Dispose(c, b).(pendingWrite := None, flights := c.flights - {b}, handler := Finishing(false))
  }

  function Finished(c: Client): Client
    requires c.handler.Finishing?
  {
    DeleteIfClosed(c.(closedRead := c.closedRead || c.handler.markClosedRead, handler := Idle))
  }

  /** Dart code uses a socket that it knows and has not asked to close. */
  predicate InUse(c: Client) {
    c.known && !c.retired
  }

  predicate Enabled(c: Client, e: Event) {
    match e
    case Send(_) => InUse(c)
    case HandOver => !c.known && !c.closing
    case CloseUnclaimed => !c.known && !c.closing
    case ReadCall(_) => InUse(c)
    case WriteCall(_, b) => InUse(c) && b !in c.places
    case Interrupt(_, b) => c.handler == Idle && c.queue != [] && b !in c.places
    case ReadDone(b, _) => c.handler == Idle && b in c.flights && c.flights[b] == ReadOp
    case WriteDone(b) => c.handler == Idle && b in c.flights && c.flights[b] == WriteOp
    case Finish => c.handler.Finishing?
  }

  function Next(c: Client, e: Event): Client
    requires Enabled(c, e)
  {
    match e
    case Send(m) => c.(queue := c.queue + [m], retired := c.retired || m.close)
    case HandOver => c.(known := true)
    case CloseUnclaimed => Close(c)
    case ReadCall(count) => ReadCalled(c, count)
    case WriteCall(issued, b) => WriteCalled(c, issued, b)
    case Interrupt(issued, b) => Interrupted(c, issued, b)
    case ReadDone(b, outcome) => ReadCompleted(c, b, outcome)
    case WriteDone(b) => WriteCompleted(c, b)
    case Finish => Finished(c)
  }

  // ------------------------------------------------------- every step keeps the invariant

  lemma SendInv(c: Client, m: Message)
    requires Inv(c) && InUse(c)
    ensures Inv(Next(c, Send(m)))
  {}

  /** Taking the first n bytes keeps the given-out bytes and the rest together. */
  lemma TakeSome(handed: Bytes, rest: Bytes, n: nat)
    requires n <= |rest|
    ensures (handed + rest[..n]) + rest[n..] == handed + rest
  {
    assert rest == rest[..n] + rest[n..];
    Associate(handed, rest[..n], rest[n..]);
  }

  lemma ReadCallData(c: Client, count: nat)
    requires DataOk(c)
    ensures DataOk(ReadCalled(c, count))
  {
    hide Dispose;
    if c.ready.Some? { DisposeIs(c, c.ready.value.buffer); }
    assert c.handed + [] == c.handed;
    if c.ready.Some? && c.ready.value.Data? && !c.closing {
      var rest := c.ready.value.rest;
      var n := if count > |rest| then |rest| else count;
      TakeSome(c.handed, rest, n);
      assert (c.handed + rest) + [] == c.handed + rest;
      assert n < |rest| ==> rest[n..] != [];
    }
  }

  lemma ReadyLeaves(c: Client, c': Client)
    requires Owned(c) && c.ready.Some? && c'.places == c.places[c.ready.value.buffer := Disposed(1)]
    requires c'.ready.None? && c'.pendingRead == c.pendingRead && c'.pendingWrite == c.pendingWrite
    ensures Owned(c')
  {}

  lemma ReadyStays(c: Client, c': Client)
    requires Owned(c) && c'.places == c.places
    requires c'.pendingRead == c.pendingRead && c'.pendingWrite == c.pendingWrite
    requires c.ready.Some? <==> c'.ready.Some?
    requires c.ready.Some? ==> c'.ready.value.buffer == c.ready.value.buffer
    ensures Owned(c')
  {}

  lemma ReadCallInv(c: Client, count: nat)
    requires Inv(c) && InUse(c)
    ensures Inv(ReadCalled(c, count))
  {
    ReadCallData(c, count);
    var c' := ReadCalled(c, count);
    assert c.ready.Some? ==> c.places[c.ready.value.buffer] == InReady;
    if c.ready.Some? { DisposeIs(c, c.ready.value.buffer); }
    hide DataOk, Owned, Dispose;
    if c.ready.Some? && c'.ready.None? { ReadyLeaves(c, c'); } else { ReadyStays(c, c'); }
  }

  lemma WriteCallInv(c: Client, issued: bool, b: BufferId)
    requires Inv(c) && InUse(c) && b !in c.places
    ensures Inv(WriteCalled(c, issued, b))
  {}

  lemma ReadDoneData(c: Client, b: BufferId, outcome: Option<Bytes>)
    requires DataOk(c) && c.pendingRead == Some(b)
    ensures DataOk(ReadCompleted(c, b, outcome))
  {
    var got := if outcome.Some? then outcome.value else [];
    assert c.ready.None? && Rest(c) == [];
    assert c.received + [] == c.received && c.handed + [] == c.handed;
    if c.closing {
      assert c.handed <= c.received <= c.received + got;
    }
  }

  lemma ReadDoneFlights(c: Client, b: BufferId, outcome: Option<Bytes>)
    requires FlightsMatch(c) && b in c.flights && c.flights[b] == ReadOp
    ensures FlightsMatch(ReadCompleted(c, b, outcome))
  {
    var c' := ReadCompleted(c, b, outcome);
    assert c'.flights == c.flights - {b} && c'.pendingRead.None? && c'.pendingWrite == c.pendingWrite;
    hide ReadCompleted;
  }

  /** A buffer that leaves the pending read, for the ready slot or for disposal. */
  lemma ReadDoneOwned(c: Client, b: BufferId, place: Place, r: Option<Ready>, c': Client)
    requires Owned(c) && c.ready.None? && c.pendingRead == Some(b)
    requires (place == Disposed(1) && r.None?) || (place == InReady && r.Some? && r.value.buffer == b)
    requires c'.places == c.places[b := place] && c'.pendingRead.None? && c'.ready == r &&
              c'.pendingWrite == c.pendingWrite
    ensures Owned(c')
  {}

  lemma ReadDoneInv(c: Client, b: BufferId, outcome: Option<Bytes>)
    requires Inv(c) && Enabled(c, ReadDone(b, outcome))
    ensures Inv(ReadCompleted(c, b, outcome))
  {
    assert c.pendingRead == Some(b) && c.ready.None?;
    ReadDoneData(c, b, outcome);
    ReadDoneFlights(c, b, outcome);
    assert c.places[b] == InRead;
    var c' := ReadCompleted(c, b, outcome);
    ReadDoneOwned(c, b, if c'.ready.Some? then InReady else Disposed(1), c'.ready, c');
    hide DataOk, Owned, FlightsMatch;
  }

  lemma WriteDoneInv(c: Client, b: BufferId)
    requires Inv(c) && Enabled(c, WriteDone(b))
    ensures Inv(WriteCompleted(c, b))
  {}

  lemma FinishInv(c: Client)
    requires Inv(c) && Enabled(c, Finish)
    ensures Inv(Finished(c))
  {}

  lemma RequestReadInv(c: Client, issued: bool, b: BufferId)
    requires Inv(c) && c.handler == Idle && c.known && !c.closing && b !in c.places
    ensures Inv(RequestRead(c, issued, b))
  {}

  lemma CloseInv(c: Client)
    requires Inv(c) && c.queue == [] && !c.closing && (c.known ==> c.retired)
    ensures AlmostInv(Close(c)) && (!c.known ==> Inv(Close(c)))
  {
    CloseData(c);
    hide DataOk;
  }

  lemma CloseData(c: Client)
    requires DataOk(c)
    ensures DataOk(Close(c))
  {
    assert c.handed <= c.handed + Rest(c);
  }

  lemma DeleteInv(c: Client)
    requires AlmostInv(c) && c.handler == Idle && c.deletions == 0 && c.known
    ensures Inv(DeleteIfClosed(c))
  {}

  /** A message that is taken from the queue: a close message was the last one. */
  lemma PopInv(c: Client)
    requires Inv(c) && c.queue != []
    ensures Inv(Popped(c)) && c.known && !c.closing && c.deletions == 0
    ensures c.queue[0].close ==> c.queue[1..] == [] && c.retired
  {}

  lemma RequestFrame(c: Client, issued: bool, b: BufferId)
    ensures var c' := RequestRead(c, issued, b);
            c'.queue == c.queue && c'.known == c.known && c'.retired == c.retired && c'.closing == c.closing &&
            c'.handler == c.handler && c'.deletions == c.deletions
  {}

  lemma CloseFrame(c: Client)
    ensures Close(c).handler == c.handler && Close(c).deletions == c.deletions && Close(c).known == c.known
  {}

  lemma InterruptInv(c: Client, issued: bool, b: BufferId)
    requires Inv(c) && Enabled(c, Interrupt(issued, b))
    ensures Inv(Interrupted(c, issued, b))
  {
    hide Inv, AlmostInv, RequestRead, Close, DeleteIfClosed;
    PopInv(c);
    var m, c0 := c.queue[0], Popped(c);
    RequestReadInv(c0, issued, b);
    RequestFrame(c0, issued, b);
    var c1 := if m.inEvent then RequestRead(c0, issued, b) else c0;
    ShutInv(c1, m);
    var c2 := Shut(c1, m);
    if m.close {
      CloseInv(c2);
      CloseFrame(c2);
      DeleteInv(Close(c2));
    }
  }

  lemma ShutInv(c: Client, m: Message)
    requires Inv(c)
    ensures Inv(Shut(c, m))
  {}

  /** Every enabled event keeps the invariant. */
  lemma NextInv(c: Client, e: Event)
    requires Inv(c) && Enabled(c, e)
    ensures Inv(Next(c, e))
  {
    match e {
      case Send(m) => SendInv(c, m);
      case HandOver =>
      case CloseUnclaimed => CloseInv(c);
      case ReadCall(count) => ReadCallInv(c, count);
      case WriteCall(issued, b) => WriteCallInv(c, issued, b);
      case Interrupt(issued, b) => InterruptInv(c, issued, b);
      case ReadDone(b, outcome) => ReadDoneInv(c, b, outcome);
      case WriteDone(b) => WriteDoneInv(c, b);
      case Finish => FinishInv(c);
    }
  }

  // ---------------------------------------------------------------------- whole runs

  predicate Possible(c: Client, run: seq<Event>)
    decreases |run|
  {
    run == [] || (Enabled(c, run[0]) && Possible(Next(c, run[0]), run[1..]))
  }

  function After(c: Client, run: seq<Event>): Client
    requires Possible(c, run)
    decreases |run|
  {
    if run == [] then c else After(Next(c, run[0]), run[1..])
  }

  /** The invariant holds after every possible run of events. */
  lemma {:induction false} RunInv(c: Client, run: seq<Event>)
    requires Inv(c) && Possible(c, run)
    ensures Inv(After(c, run))
    decreases |run|
  {
    hide Inv, Next, Enabled;
    if run != [] {
      NextInv(c, run[0]);
      RunInv(Next(c, run[0]), run[1..]);
    }
  }

  lemma NewClientInv(known: bool)
    ensures Inv(NewClient(known))
  {}

  /** In every run: a socket is deleted at most once; whatever is in flight names a socket that
      still exists; once it is deleted nothing can happen to it any more; and one that Dart has
      closed is deleted exactly when nothing of it is in flight. */
  lemma DeletionIsSafe(known: bool, run: seq<Event>)
    requires Possible(NewClient(known), run)
    ensures var c := After(NewClient(known), run);
            && c.deletions <= 1
            && (c.flights != map[] || c.queue != [] || c.handler.Finishing? ==> c.deletions == 0)
            && (c.deletions == 1 ==> forall e :: !Enabled(c, e))
            && (c.known && c.closing && c.handler == Idle ==> (c.deletions == 1 <==> c.flights == map[]))
  {
    NewClientInv(known);
    RunInv(NewClient(known), run);
    var c := After(NewClient(known), run);
    hide Owned, DataOk;
    if c.flights == map[] {
      assert c.pendingRead.None? && c.pendingWrite.None?;
    }
  }

  /** The step that deletes finds the destructor's assertions true. */
  lemma DestructorAssertions(known: bool, run: seq<Event>, e: Event)
    requires Possible(NewClient(known), run) && Enabled(After(NewClient(known), run), e)
    ensures var c := After(NewClient(known), run);
            Next(c, e).deletions != c.deletions ==>
              && Next(c, e).deletions == 1 && Next(c, e).closing
              && Next(c, e).pendingRead.None? && Next(c, e).pendingWrite.None? && Next(c, e).ready.None?
  {
    NewClientInv(known);
    RunInv(NewClient(known), run);
    var c := After(NewClient(known), run);
    NextInv(c, e);
    hide Owned, DataOk, Next;
    var c' := Next(c, e);
    assert c'.deletions <= 1 && c'.deletions >= c.deletions by {
      DeletionsGrow(c, e);
    }
  }

  lemma DeletionsGrow(c: Client, e: Event)
    requires Enabled(c, e)
    ensures Next(c, e).deletions >= c.deletions
  {
    match e {
      case Interrupt(issued, b) => InterruptGrows(c, issued, b);
      case ReadCall(_) =>
      case _ => hide ReadCalled;
    }
  }

  lemma ShutFrame(c: Client, m: Message)
    ensures Shut(c, m) == c.(closedRead := Shut(c, m).closedRead, closedWrite := Shut(c, m).closedWrite)
  {}

  /** Handling a message decides nothing about who knows the socket, and deletes it or not. */
  lemma InterruptFrame(c: Client, issued: bool, b: BufferId)
    requires c.queue != []
    ensures var c' := Interrupted(c, issued, b);
            c'.known == c.known && c'.handler == c.handler && c'.deletions >= c.deletions
  {
    hide RequestRead, Close, Shut;
    var m, c0 := c.queue[0], Popped(c);
    RequestFrame(c0, issued, b);
    var c1 := if m.inEvent then RequestRead(c0, issued, b) else c0;
    ShutFrame(c1, m);
    CloseFrame(Shut(c1, m));
  }

  lemma InterruptGrows(c: Client, issued: bool, b: BufferId)
    requires c.queue != []
    ensures Interrupted(c, issued, b).deletions >= c.deletions
  {
    InterruptFrame(c, issued, b);
  }

  /** The holders of a buffer: the pending read, the ready data, the pending write, the heap. */
  function Holders(c: Client, b: BufferId): nat {
    (if c.pendingRead == Some(b) then 1 else 0) +
    (if c.ready.Some? && c.ready.value.buffer == b then 1 else 0) +
    (if c.pendingWrite == Some(b) then 1 else 0) +
    (if b in c.places && c.places[b].Disposed? then c.places[b].times else 0)
  }

  /** In every run each allocated buffer has exactly one holder, so it is disposed at most once,
      and the bytes that Read has given out are a prefix of those received, in order. */
  lemma BuffersAndBytes(known: bool, run: seq<Event>, b: BufferId)
    requires Possible(NewClient(known), run)
    ensures var c := After(NewClient(known), run);
            && Holders(c, b) == (if b in c.places then 1 else 0)
            && !(c.pendingRead.Some? && c.ready.Some?)
            && c.handed <= c.received
  {
    NewClientInv(known);
    RunInv(NewClient(known), run);
    var c := After(NewClient(known), run);
    hide QueueOk, DeletionOk;
    if b in c.places {
      assert c.places[b] == InRead || c.places[b] == InReady || c.places[b] == InWrite || c.places[b].Disposed?;
    }
    assert !c.closing ==> c.handed <= c.handed + Rest(c);
  }

  // ---------------------------------------------------------- a failed read completion

  /** A failed completion waits to be read. */
  predicate FailureWaits(c: Client) {
    c.ready.Some? && c.ready.value.Failed?
  }

  predicate Fails(c: Client, e: Event) {
    e.ReadDone? && e.outcome.None? && !c.closing
  }

  /** Neither a Read call nor the handling of a close message. */
  predicate LeavesReady(c: Client, e: Event) {
    !e.ReadCall? && !(e.Interrupt? && c.queue != [] && c.queue[0].close)
  }

  predicate Quiet(c: Client, run: seq<Event>)
    requires Possible(c, run)
    decreases |run|
  {
    run != [] ==> LeavesReady(c, run[0]) && Quiet(Next(c, run[0]), run[1..])
  }

  /** The k-th event of the run is a failed read completion of a socket that is not closing, and
      no Read call and no handled close message come after it. */
  predicate FailsAt(c: Client, run: seq<Event>, k: nat)
    requires Possible(c, run) && k < |run|
    decreases |run|
  {
    if k == 0 then Fails(c, run[0]) && Quiet(Next(c, run[0]), run[1..])
    else FailsAt(Next(c, run[0]), run[1..], k - 1)
  }

  ghost predicate FailsSomewhere(c: Client, run: seq<Event>)
    requires Possible(c, run)
  {
    exists k :: 0 <= k < |run| && FailsAt(c, run, k)
  }

  lemma FailsNowOrLater(c: Client, run: seq<Event>)
    requires Possible(c, run) && run != []
    ensures FailsSomewhere(c, run) <==>
            (Fails(c, run[0]) && Quiet(Next(c, run[0]), run[1..])) || FailsSomewhere(Next(c, run[0]), run[1..])
  {
    hide Next, Enabled, Fails, Quiet;
    var c', rest := Next(c, run[0]), run[1..];
    if k :| 0 <= k < |run| && FailsAt(c, run, k) {
      assert k > 0 ==> FailsAt(c', rest, k - 1);
    }
    if k :| 0 <= k < |rest| && FailsAt(c', rest, k) {
      assert FailsAt(c, run, k + 1);
    }
    if Fails(c, run[0]) && Quiet(c', rest) {
      assert FailsAt(c, run, 0);
    }
  }

  lemma RequestReady(c: Client, issued: bool, b: BufferId)
    ensures RequestRead(c, issued, b).ready == c.ready
  {}

  lemma InterruptReady(c: Client, issued: bool, b: BufferId)
    requires c.queue != []
    ensures Interrupted(c, issued, b).ready == if c.queue[0].close then None else c.ready
  {
    hide RequestRead, Shut;
    var c0 := Popped(c);
    RequestReady(c0, issued, b);
    ShutFrame(if c.queue[0].inEvent then RequestRead(c0, issued, b) else c0, c.queue[0]);
  }

  lemma FailureStep(c: Client, e: Event)
    requires Inv(c) && Enabled(c, e)
    ensures FailureWaits(Next(c, e)) <==> Fails(c, e) || (FailureWaits(c) && LeavesReady(c, e))
  {
    match e {
      case Interrupt(issued, b) =>
        InterruptReady(c, issued, b);
        hide Interrupted, Inv;
      case ReadDone(b, _) =>
        assert c.pendingRead == Some(b) && c.ready.None?;
        hide Inv;
      case CloseUnclaimed => assert c.ready.None?;
      case _ => hide Inv, Interrupted, ReadCompleted;
    }
  }

  lemma {:induction false} FailureRun(c: Client, run: seq<Event>)
    requires Inv(c) && Possible(c, run)
    ensures FailureWaits(After(c, run)) <==> (FailureWaits(c) && Quiet(c, run)) || FailsSomewhere(c, run)
    decreases |run|
  {
    hide Inv, Next, Enabled, FailureWaits, LeavesReady, Fails, FailsSomewhere;
    if run == [] {
      assert !FailsSomewhere(c, []) by { FailsNever(c); }
    } else {
      NextInv(c, run[0]);
      FailureStep(c, run[0]);
      FailureRun(Next(c, run[0]), run[1..]);
      FailsNowOrLater(c, run);
    }
  }

  lemma FailsNever(c: Client)
    ensures !FailsSomewhere(c, [])
  {}

  /** Read is asked to copy a negative number of bytes exactly if some read completion failed
      while the socket was not closing, and since then nobody has called Read and no close message
      was handled. The socket is then closed for reading once the handler is done with it. */
  lemma NegativeRead(known: bool, run: seq<Event>, count: nat)
    requires Possible(NewClient(known), run)
    ensures ReadCount(After(NewClient(known), run), count) < 0 <==>
            FailsSomewhere(NewClient(known), run)
    ensures var c := After(NewClient(known), run);
            ReadCount(c, count) < 0 && c.handler == Idle ==> c.closedRead && c.pendingRead.None?
  {
    NewClientInv(known);
    RunInv(NewClient(known), run);
    FailureRun(NewClient(known), run);
  }

  /** Such a run: a read is asked for, issued, and fails. */
  lemma NegativeReadHappens(count: nat) returns (run: seq<Event>)
    ensures Possible(NewClient(true), run) && ReadCount(After(NewClient(true), run), count) == -1
  {
    var e1, e2, e3 := Send(Message(true, false, false, false, false)), Interrupt(true, 0), ReadDone(0, None);
    run := [e1, e2, e3];
    assert run[1..] == [e2, e3] && [e2, e3][1..] == [e3] && [e3][1..] == [];
    var c1 := Next(NewClient(true), e1);
    var c2 := Next(c1, e2);
    assert c2.pendingRead == Some(0) && c2.flights == map[0 := ReadOp];
    var c3 := Next(c2, e3);
    assert Possible(c3, []) && Possible(c2, [e3]) && Possible(c1, [e2, e3]);
    assert After(c2, [e3]) == After(c3, []) == c3 && After(c1, [e2, e3]) == After(c2, [e3]);
  }
}
