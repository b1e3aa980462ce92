/** The debugger connection as it runs: a fixed buffer that is filled by reads, emptied from the
    front in place, and the loop that handles messages. */
module DebuggerConnection {
  import opened Words
  import opened Json
  import opened JsonGrammar
  import opened JsonReader
  import opened Framing

  class MessageBuffer {
    const buf: array<byte>
    var dataLength: nat
    var alive: bool

    ghost predicate Valid()
      reads this, buf
    {
      buf.Length == BUFFER_SIZE && dataLength < BUFFER_SIZE && buf[dataLength] == 0
    }

    ghost function Data(): (d: Bytes)
      requires Valid()
      reads this, buf
      ensures |d| == dataLength
    {
      buf[..dataLength]
    }

    constructor ()
      ensures Valid() && Data() == [] && alive && fresh(buf)
    {
      buf := new byte[BUFFER_SIZE];
      dataLength, alive := 0, true;
      new;
      buf[0] := 0;
    }

    method IsValidMessage() returns (r: bool)
      requires Valid()
      ensures r <==> IsMessage(Data())
    {
      if dataLength == 0 {
        return false;
      }
      var reader := new JSONReader(buf[..dataLength]);
      var end := reader.EndOfObject();
      r := end.At?;
    }

    /** Takes in what a read delivers; an empty read means that the peer is gone. */
    method ReadData(received: Bytes)
      requires Valid() && |received| <= ROOM - dataLength
      modifies this, buf
      ensures Valid() && Data() == old(Data()) + received
      ensures alive == (old(alive) && (received != [] || old(dataLength) == ROOM))
    {
      var maxRead := BUFFER_SIZE - dataLength - 1;
      if maxRead == 0 {
        return;
      }
      if received == [] {
        alive := false;
        return;
      }
      var n := dataLength;
      for k := 0 to |received|
        invariant dataLength == n && alive == old(alive) && buf[..n] == old(Data())
        invariant buf[n..n + k] == received[..k]
      {
        buf[n + k] := received[k];
      }
      dataLength := n + |received|;
      buf[dataLength] := 0;
      assert buf[..dataLength] == buf[..n] + buf[n..dataLength];
    }

    /** Removes the first message by moving the text behind it, up to its NUL, to the front. */
    method PopMessage()
      requires Valid()
      modifies this`dataLength, buf
      ensures Valid() && Data() == Pop(old(Data()))
    {
      var reader := new JSONReader(buf[..dataLength]);
      var place := reader.EndOfObject();
      if place.At? {
        EndsInside(Data());
        ShiftFrom(place.brace + 1);
      }
    }

    method ShiftFrom(from: nat)
      requires Valid() && 0 < from <= dataLength
      modifies this`dataLength, buf
      ensures Valid() && Data() == CText(old(Data())[from..])
    {
      ghost var length, text := dataLength, buf[..dataLength];
      var end := from;
      dataLength := 0;
      while buf[end] != 0
        invariant from <= end <= length && dataLength == end - from
        invariant buf.Length == BUFFER_SIZE && length < BUFFER_SIZE && buf[length] == 0
        invariant forall k :: end <= k < length ==> buf[k] == text[k]
        invariant forall k :: from <= k < end ==> buf[k - from] == text[k] != 0
        decreases length - end
      {
        buf[dataLength] := buf[end];
        end := end + 1;
        dataLength := dataLength + 1;
      }
      buf[dataLength] := 0;
      CTextPrefix(text[from..], dataLength);
    }
  }

  /** The text of a C string is known from where its NUL is. */
  lemma {:induction false} CTextPrefix(data: Bytes, n: nat)
    requires n <= |data| && (forall k :: 0 <= k < n ==> data[k] != 0) && (n == |data| || data[n] == 0)
    ensures CText(data) == data[..n]
  {
    if n > 0 {
      CTextPrefix(data[1..], n - 1);
      assert data[..n] == [data[0]] + data[1..][..n - 1];
    }
  }

  /** The body of the message loop: looks up the command, acts on it, and pops. What a handler
      does with the message is not part of the framing. */
  method HandleMessage(msgbuf: MessageBuffer) returns (popped: seq<Popped>)
    requires msgbuf.Valid() && IsMessage(msgbuf.Data())
    modifies msgbuf`dataLength, msgbuf.buf
    ensures msgbuf.Valid() && (popped, msgbuf.Data()) == Turn(old(msgbuf.Data()))
  {
    hide Json.EndOfObject, Json.Seek, CText;
    ghost var data := msgbuf.Data();
    var reader := new JSONReader(msgbuf.buf[..msgbuf.dataLength]);
    var end := reader.EndOfObject();
    EndsInside(data);
    assert msgbuf.buf[..end.brace + 1] == Head(data);
    popped := [Popped(msgbuf.buf[..end.brace + 1], true)];
    var found := reader.Seek(COMMAND);
    if !found {
      msgbuf.PopMessage();
      var next := new JSONReader(msgbuf.buf[..msgbuf.dataLength]);
      var nextEnd := next.EndOfObject();
      if nextEnd.At? {
        EndsInside(msgbuf.Data());
        assert msgbuf.buf[..nextEnd.brace + 1] == Head(msgbuf.Data());
        popped := popped + [Popped(msgbuf.buf[..nextEnd.brace + 1], false)];
      }
    }
    msgbuf.PopMessage();
  }

  /** The whole session over a stream that arrives in pieces of the given sizes. It reports
      `stuck` where the original would spin: the buffer is full and holds no message. Otherwise it
      ends because the connection did, with everything read. */
  method HandleMessages(msgbuf: MessageBuffer, stream: Bytes, sizes: seq<nat>)
    returns (log: seq<Popped>, unread: Bytes, stuck: bool)
    requires msgbuf.Valid() && msgbuf.alive && msgbuf.Data() == []
    modifies msgbuf, msgbuf.buf
    ensures msgbuf.Valid()
    ensures Outcome(log, msgbuf.Data(), unread) == Session([], stream, sizes, [])
    ensures stuck <==> |msgbuf.Data()| == ROOM
    ensures stuck <==> msgbuf.alive
    ensures !stuck ==> unread == []
    ensures NulFree(stream) ==> (stuck <==> |Remains(stream)| >= ROOM) && Texts(log) == Cut(stream)
  {
    if NulFree(stream) { SessionIs(stream, sizes); }
    hide Cut, Remains, NulFree, Texts;
    stuck := false;
    hide IsMessage, Turn;
    log, unread := [], stream;
    var pieces := sizes;
    while true
      invariant msgbuf.Valid() && msgbuf.alive
      invariant Session(msgbuf.Data(), unread, pieces, log) == Session([], stream, sizes, [])
      decreases msgbuf.dataLength + |unread|, |unread|
    {
      var valid := msgbuf.IsValidMessage();
      if !valid {
        if msgbuf.dataLength == ROOM {
          stuck := true;
          return;
        }
        if unread == [] {
          msgbuf.ReadData([]);
          assert msgbuf.Data() + [] == msgbuf.Data();
          return;
        }
        var n := Delivered(pieces, ROOM - msgbuf.dataLength, |unread|);
        msgbuf.ReadData(unread[..n]);
        unread := unread[n..];
        pieces := if pieces == [] then [] else pieces[1..];
      } else {
        TurnShrinks(msgbuf.Data());
        var popped := HandleMessage(msgbuf);
        log := log + popped;
      }
    }
  }

  /** Two empty objects: complete messages, neither of which has a command. Read byte by byte both
      are examined; read together, the second one is dropped. */
  lemma CommandlessExample()
    ensures var m: Bytes := [0x7B, 0x7D];
            && Session([], m + m, [], []).log == [Popped(m, true), Popped(m, true)]
            && Session([], m + m, [4], []).log == [Popped(m, true), Popped(m, false)]
  {
    EmptyObject();
    hide WellFormed, HasCommand, Session;
    TwoBytewise([0x7B, 0x7D]);
    TwoAtOnce([0x7B, 0x7D]);
  }

  /** Two equal messages byte by byte: both are examined. */
  lemma TwoBytewise(m: Bytes)
    requires WellFormed(m)
    ensures Session([], m + m, [], []).log == [Popped(m, true), Popped(m, true)]
  {
    var ms := [m, m];
    assert ms[1..] == [m] && [m][1..] == [];
    assert Join([m]) == m by { assert Join([m]) == [m][0] + Join([m][1..]) == m + []; }
    assert Join(ms) == m + m by { assert Join(ms) == ms[0] + Join(ms[1..]); }
    NothingInNothing();
    hide WellFormed, Session, EndOfObject, Join, Cut, Remains;
    CutIsUnique(ms, []);
    assert m + m + [] == m + m;
    assert NulFree(m + m) by { assert WellFormed(m); }
    Bytewise(m + m);
  }

  lemma EmptyObject()
    ensures var m: Bytes := [0x7B, 0x7D]; WellFormed(m) && !HasCommand(m)
  {
    var m: Bytes := [0x7B, 0x7D];
    assert Scan(m, 0) == Lexeme(LBrace, 0, 1);
    assert Scan(m, 1) == Lexeme(RBrace, 1, 2);
    assert Seek(m, STARS) == Ended(Lexeme(RBrace, 1, 2)) == Seek(m, COMMAND);
    hide Json.Seek;
  }

  /** A message without a command read together with one more: only the first is examined. */
  lemma TwoAtOnce(m: Bytes)
    requires WellFormed(m) && !HasCommand(m) && 2 * |m| <= ROOM
    ensures Session([], m + m, [2 * |m|], []).log == [Popped(m, true), Popped(m, false)]
  {
    var stream, sizes, n := m + m, [2 * |m|], 2 * |m|;
    assert stream[..n] == stream && stream[n..] == [] && sizes[1..] == [];
    DoubleTurn(m, m);
    OneRead(stream, sizes, [], n);
    NothingInNothing();
    hide EndOfObject, Turn;
    assert !IsMessage([]);
    assert Session([], [], [], [] + [Popped(m, true), Popped(m, false)]).log == [Popped(m, true), Popped(m, false)];
  }
}
