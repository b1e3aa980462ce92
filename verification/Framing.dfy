/** The debugger's message framing (runtime/bin/dbg_connection): messages are cut out of a byte
    stream that arrives in arbitrary pieces, by asking after each piece whether the buffer now
    starts with a complete object. */
module Framing {
  import opened Words
  import opened Json
  import opened JsonGrammar

  const BUFFER_SIZE: nat := 256

  /** Bytes that fit beside the terminating NUL. */
  const ROOM: nat := 255

  const COMMAND: Bytes := [0x63, 0x6F, 0x6D, 0x6D, 0x61, 0x6E, 0x64]

  predicate IsMessage(data: Bytes) {
    data != [] && EndOfObject(data).At?
  }

  predicate HasCommand(data: Bytes) {
    Seek(data, COMMAND).Found?
  }

  /** The bytes before the first NUL. */
  function CText(data: Bytes): (r: Bytes)
    ensures |r| <= |data|
  {
    if data == [] || data[0] == 0 then [] else [data[0]] + CText(data[1..])
  }

  function Head(data: Bytes): (r: Bytes)
    requires EndOfObject(data).At?
    ensures 0 < |r| <= |data|
  {
    EndsInside(data);
    data[..EndOfObject(data).brace + 1]
  }

  function Later(data: Bytes): (r: Bytes)
    requires EndOfObject(data).At?
    ensures |r| < |data|
  {
    EndsInside(data);
    data[EndOfObject(data).brace + 1..]
  }

  /** What stays in the buffer when the first message is removed. */
  function Rest(data: Bytes): (r: Bytes)
    requires EndOfObject(data).At?
    ensures |r| < |data|
  {
    CText(Later(data))
  }

  function Pop(data: Bytes): Bytes {
    if EndOfObject(data).At? then Rest(data) else data
  }

  /** A message that left the buffer; `examined` if its command was looked at. */
  datatype Popped = Popped(bytes: Bytes, examined: bool)

  /** One turn of the dispatch loop: a message without a command is popped twice. */
  function Turn(data: Bytes): (seq<Popped>, Bytes)
    requires IsMessage(data)
  {
    var rest := Rest(data);
    var first := [Popped(Head(data), true)];
    if HasCommand(data) || EndOfObject(rest).Nowhere? then (first, rest)
    else (first + [Popped(Head(rest), false)], Rest(rest))
  }

  /** How many bytes the next read delivers: the sender and the system choose, within the room
      in the buffer and what was sent. */
  function Delivered(sizes: seq<nat>, room: nat, sent: nat): (n: nat)
    requires room > 0 && sent > 0
    ensures 0 < n <= room && n <= sent
  {
    var most := if room <= sent then room else sent;
    if sizes == [] || sizes[0] == 0 then 1 else if sizes[0] <= most then sizes[0] else most
  }

  datatype Outcome = Outcome(log: seq<Popped>, left: Bytes, unread: Bytes)

  /** A whole session: the buffer holds `data`, `stream` is still to arrive in pieces of the
      given sizes. It ends when the stream does, or when the buffer is full of no message. */
  function Session(data: Bytes, stream: Bytes, sizes: seq<nat>, log: seq<Popped>): Outcome
    requires |data| <= ROOM
    decreases |data| + |stream|, |stream|
  {
    if IsMessage(data) then
      var (popped, rest) := Turn(data);
      TurnShrinks(data);
      Session(rest, stream, sizes, log + popped)
    else if stream == [] || |data| == ROOM then Outcome(log, data, stream)
    else
      var n := Delivered(sizes, ROOM - |data|, |stream|);
      Session(data + stream[..n], stream[n..], if sizes == [] then [] else sizes[1..], log)
  }

  lemma TurnShrinks(data: Bytes)
    requires IsMessage(data)
    ensures |Turn(data).1| < |data|
  {}

  // -------------------------------------------------------------- conservation

  function Join(parts: seq<Bytes>): Bytes {
    if parts == [] then [] else parts[0] + Join(parts[1..])
  }

  function BytesOf(log: seq<Popped>): Bytes {
    if log == [] then [] else log[0].bytes + BytesOf(log[1..])
  }

  predicate NulFree(data: Bytes) {
    forall i :: 0 <= i < |data| ==> data[i] != 0
  }

  lemma {:induction false} CTextWhole(data: Bytes)
    requires NulFree(data)
    ensures CText(data) == data
  {
    if data != [] { CTextWhole(data[1..]); }
  }

  lemma {:induction false} BytesAppend(a: seq<Popped>, b: seq<Popped>)
    ensures BytesOf(a + b) == BytesOf(a) + BytesOf(b)
  {
    if a == [] {
      assert a + b == b;
    } else {
      assert (a + b)[1..] == a[1..] + b;
      BytesAppend(a[1..], b);
    }
  }

  lemma SplitMessage(data: Bytes)
    requires EndOfObject(data).At? && NulFree(data)
    ensures data == Head(data) + Rest(data) && Rest(data) == Later(data) && NulFree(Rest(data))
  {
    EndsInside(data);
    assert data == Head(data) + Later(data);
    NulFreeParts(Head(data), Later(data));
    CTextWhole(Later(data));
  }

  lemma NulFreeParts(a: Bytes, b: Bytes)
    requires NulFree(a + b)
    ensures NulFree(a) && NulFree(b)
  {
    assert forall i :: 0 <= i < |a| ==> a[i] == (a + b)[i];
    assert forall i :: 0 <= i < |b| ==> b[i] == (a + b)[|a| + i];
  }

  lemma TurnConserves(data: Bytes)
    requires IsMessage(data) && NulFree(data)
    ensures var (popped, rest) := Turn(data);
            BytesOf(popped) + rest == data && NulFree(rest)
  {
    SplitMessage(data);
    hide EndOfObject, HasCommand, Head, Rest, BytesOf;
    var rest := Rest(data);
    BytesOfOne(Popped(Head(data), true));
    if !HasCommand(data) && EndOfObject(rest).At? {
      SplitMessage(rest);
      BytesOfOne(Popped(Head(rest), false));
      BytesAppend([Popped(Head(data), true)], [Popped(Head(rest), false)]);
      Associate(Head(data), Head(rest), Rest(rest));
    }
  }

  lemma BytesOfOne(p: Popped)
    ensures BytesOf([p]) == p.bytes
  {
    assert [p][1..] == [];
  }

  /** Nothing is lost or invented: the popped messages, the buffer and the unread stream are
      always the bytes that were sent. */
  lemma {:induction false} SessionConserves(data: Bytes, stream: Bytes, sizes: seq<nat>, log: seq<Popped>)
    requires |data| <= ROOM && NulFree(data) && NulFree(stream)
    ensures var o := Session(data, stream, sizes, log);
            BytesOf(o.log) + o.left + o.unread == BytesOf(log) + data + stream
    decreases |data| + |stream|, |stream|
  {
    hide IsMessage, Turn, BytesOf, Delivered;
    if IsMessage(data) {
      var (popped, rest) := Turn(data);
      TurnShrinks(data);
      TurnConserves(data);
      SessionConserves(rest, stream, sizes, log + popped);
      BytesAppend(log, popped);
      Associate(BytesOf(log), BytesOf(popped), rest);
    } else if stream != [] && |data| < ROOM {
      var n := Delivered(sizes, ROOM - |data|, |stream|);
      SessionConserves(data + stream[..n], stream[n..], if sizes == [] then [] else sizes[1..], log);
      assert stream == stream[..n] + stream[n..];
      Associate(BytesOf(log), data, stream[..n]);
      Associate(BytesOf(log) + data, stream[..n], stream[n..]);
    }
  }

  // ------------------------------------------------------- what a stream is cut into

  /** The text starts with an object that fits into the buffer. */
  predicate Begins(text: Bytes) {
    EndOfObject(text).At? && EndOfObject(text).brace < ROOM
  }

  /** The messages at the front of a stream, and what follows the last of them. */
  function Cut(stream: Bytes): seq<Bytes>
    decreases |stream|
  {
    if Begins(stream) then [Head(stream)] + Cut(Later(stream)) else []
  }

  function Remains(stream: Bytes): Bytes
    decreases |stream|
  {
    if Begins(stream) then Remains(Later(stream)) else stream
  }

  /** A complete message: NUL-free, closed by its last byte, and small enough for the buffer. */
  predicate WellFormed(m: Bytes) {
    0 < |m| <= ROOM && NulFree(m) && EndOfObject(m) == At(|m| - 1)
  }

  predicate AllWellFormed(ms: seq<Bytes>) {
    forall i :: 0 <= i < |ms| ==> WellFormed(ms[i])
  }

  lemma HeadIsMessage(text: Bytes)
    requires Begins(text)
    ensures EndOfObject(Head(text)) == At(|Head(text)| - 1) && |Head(text)| <= ROOM
    ensures HasCommand(Head(text)) <==> HasCommand(text)
    ensures text == Head(text) + Later(text)
  {
    EndsInside(text);
    assert text == Head(text) + Later(text);
    EndOfObjectInTime(Head(text), Later(text));
    hide EndOfObject, Seek;
  }

  /** A stream is cut into complete messages and a rest that does not start with one. */
  lemma {:induction false} CutConserves(stream: Bytes)
    requires NulFree(stream)
    ensures Join(Cut(stream)) + Remains(stream) == stream && AllWellFormed(Cut(stream)) && !Begins(Remains(stream))
    decreases |stream|
  {
    if Begins(stream) {
      var m, later := Head(stream), Later(stream);
      HeadIsMessage(stream);
      NulFreeParts(m, later);
      CutConserves(later);
      hide Begins, EndOfObject;
      assert Cut(stream)[1..] == Cut(later);
      Associate(m, Join(Cut(later)), Remains(later));
    }
  }

  /** There is only one way to do so: what the sender put together is what is cut off. */
  lemma {:induction false} CutIsUnique(ms: seq<Bytes>, tail: Bytes)
    requires AllWellFormed(ms) && !Begins(tail)
    ensures Cut(Join(ms) + tail) == ms && Remains(Join(ms) + tail) == tail
  {
    if ms == [] {
      assert Join(ms) + tail == tail;
    } else {
      var m, rest := ms[0], Join(ms[1..]) + tail;
      assert WellFormed(m) && AllWellFormed(ms[1..]);
      Associate(m, Join(ms[1..]), tail);
      EndOfObjectStable(m, rest);
      assert Head(m + rest) == m && Later(m + rest) == rest;
      CutIsUnique(ms[1..], tail);
      hide Begins, EndOfObject;
      assert Cut(m + rest) == [m] + ms[1..];
    }
  }

  // ---------------------------------------------------------- what every session does

  function Texts(log: seq<Popped>): seq<Bytes> {
    seq(|log|, i requires 0 <= i < |log| => log[i].bytes)
  }

  lemma TextsAppend(a: seq<Popped>, b: seq<Popped>)
    ensures Texts(a + b) == Texts(a) + Texts(b)
  {}

  lemma CutStep(text: Bytes)
    requires Begins(text)
    ensures Cut(text) == [Head(text)] + Cut(Later(text)) && Remains(text) == Remains(Later(text))
  {}

  lemma BeginsLonger(data: Bytes, stream: Bytes)
    requires EndOfObject(data).At? && |data| <= ROOM
    ensures Begins(data) && Begins(data + stream)
    ensures Head(data + stream) == Head(data) && Later(data + stream) == Later(data) + stream
  {
    EndsInside(data);
    EndOfObjectStable(data, stream);
    hide EndOfObject;
    var k := EndOfObject(data).brace + 1;
    assert (data + stream)[..k] == data[..k] && (data + stream)[k..] == data[k..] + stream;
  }

  /** A message popped from the buffer is the first of those that the stream is cut into. */
  lemma PopOne(data: Bytes, stream: Bytes)
    requires EndOfObject(data).At? && |data| <= ROOM && NulFree(data)
    ensures NulFree(Rest(data)) && |Head(data)| + |Rest(data)| == |data|
    ensures Cut(data + stream) == [Head(data)] + Cut(Rest(data) + stream)
    ensures Remains(data + stream) == Remains(Rest(data) + stream)
    ensures HasCommand(Head(data)) <==> HasCommand(data)
  {
    hide EndOfObject, HasCommand, Rest, Head, Later, Begins, Cut, Remains;
    BeginsLonger(data, stream);
    HeadIsMessage(data);
    SplitMessage(data);
    CutStep(data + stream);
  }

  /** A buffer without a message that cannot read any more is in front of no message. */
  lemma NoneBegins(data: Bytes, stream: Bytes)
    requires !IsMessage(data) && (stream == [] || |data| == ROOM)
    ensures !Begins(data + stream)
  {
    NothingInNothing();
    if Begins(data + stream) {
      assert stream == [] ==> data + stream == data;
      hide EndOfObject;
      EndOfObjectInTime(data, stream);
    }
  }

  lemma NothingInNothing()
    ensures EndOfObject([]) == Nowhere
  {
    assert Scan([], 0).token == EOM;
  }

  lemma TurnCuts(data: Bytes, stream: Bytes)
    requires IsMessage(data) && |data| <= ROOM && NulFree(data)
    ensures var (popped, rest) := Turn(data);
            && NulFree(rest) && Cut(data + stream) == Texts(popped) + Cut(rest + stream)
            && Remains(data + stream) == Remains(rest + stream)
  {
    hide EndOfObject, HasCommand, Head, Rest, Cut, Remains, NulFree, Texts;
    var rest, first := Rest(data), Popped(Head(data), true);
    PopOne(data, stream);
    TextsOne(first);
    if !HasCommand(data) && EndOfObject(rest).At? {
      var second := Popped(Head(rest), false);
      PopOne(rest, stream);
      TextsOne(second);
      TextsAppend([first], [second]);
      Associate([Head(data)], [Head(rest)], Cut(Rest(rest) + stream));
    }
  }

  lemma TextsOne(p: Popped)
    ensures Texts([p]) == [p.bytes]
  {}

  /** However a NUL-free stream arrives, the popped messages are those it is cut into, the rest
      stays, and as much of it as fits is in the buffer. When it does not fit, the original reads
      nothing any more, notices no end of the connection, and spins. */
  lemma {:induction false} SessionCuts(data: Bytes, stream: Bytes, sizes: seq<nat>, log: seq<Popped>)
    requires |data| <= ROOM && NulFree(data) && NulFree(stream)
    ensures var o, all := Session(data, stream, sizes, log), data + stream;
            && Texts(o.log) == Texts(log) + Cut(all) && o.left + o.unread == Remains(all)
            && |o.left| == (if |Remains(all)| < ROOM then |Remains(all)| else ROOM)
    decreases |data| + |stream|, |stream|
  {
    hide Begins, IsMessage, Turn, Texts, EndOfObject;
    if IsMessage(data) {
      var (popped, rest) := Turn(data);
      TurnShrinks(data);
      TurnCuts(data, stream);
      SessionCuts(rest, stream, sizes, log + popped);
      TextsAppend(log, popped);
      Associate(Texts(log), Texts(popped), Cut(rest + stream));
    } else if stream == [] || |data| == ROOM {
      NoneBegins(data, stream);
    } else {
      var n := Delivered(sizes, ROOM - |data|, |stream|);
      Associate(data, stream[..n], stream[n..]);
      assert stream == stream[..n] + stream[n..];
      SessionCuts(data + stream[..n], stream[n..], if sizes == [] then [] else sizes[1..], log);
    }
  }

  /** The whole outcome but for the marks on the messages is a function of the stream. */
  lemma SessionIs(stream: Bytes, sizes: seq<nat>)
    requires NulFree(stream)
    ensures var o, left := Session([], stream, sizes, []), Remains(stream);
            var n := if |left| < ROOM then |left| else ROOM;
            Texts(o.log) == Cut(stream) && o.left == left[..n] && o.unread == left[n..]
  {
    SessionCuts([], stream, sizes, []);
    assert [] + stream == stream;
    hide Session, Cut, Remains;
    var o := Session([], stream, sizes, []);
    assert o.left == (o.left + o.unread)[..|o.left|] && o.unread == (o.left + o.unread)[|o.left|..];
  }

  // -------------------------------------------------- independence of the chunking

  /** A message without a command cannot share the buffer with its successor. */
  predicate Safe(ms: seq<Bytes>) {
    forall i :: 0 <= i < |ms| - 1 ==> HasCommand(ms[i]) || |ms[i]| + |ms[i + 1]| > ROOM
  }

  predicate AllExamined(log: seq<Popped>) {
    forall k :: 0 <= k < |log| ==> log[k].examined
  }

  function Examined(ms: seq<Bytes>): seq<Popped> {
    seq(|ms|, i requires 0 <= i < |ms| => Popped(ms[i], true))
  }

  lemma ExaminedIs(log: seq<Popped>)
    ensures AllExamined(log) <==> log == Examined(Texts(log))
  {
    if log == Examined(Texts(log)) {
      forall k | 0 <= k < |log| ensures log[k].examined {
        assert log[k] == Examined(Texts(log))[k];
      }
    }
  }

  /** One turn on a safe stream examines all that it pops. */
  lemma SafeTurn(data: Bytes, stream: Bytes)
    requires IsMessage(data) && |data| <= ROOM && NulFree(data) && Safe(Cut(data + stream))
    ensures AllExamined(Turn(data).0)
  {
    hide EndOfObject, HasCommand, Head, Rest, Cut, Remains, NulFree;
    var rest, ms := Rest(data), Cut(data + stream);
    PopOne(data, stream);
    if EndOfObject(rest).At? {
      PopOne(rest, stream);
      assert ms[0] == Head(data) && ms[1] == Head(rest);
    }
  }

  /** However the bytes of a safe stream arrive, every message is examined. */
  lemma {:induction false} SafeSession(data: Bytes, stream: Bytes, sizes: seq<nat>, log: seq<Popped>)
    requires |data| <= ROOM && NulFree(data) && NulFree(stream) && Safe(Cut(data + stream)) && AllExamined(log)
    ensures AllExamined(Session(data, stream, sizes, log).log)
    decreases |data| + |stream|, |stream|
  {
    hide IsMessage, Turn, Cut, Safe;
    if IsMessage(data) {
      var (popped, rest) := Turn(data);
      TurnShrinks(data);
      TurnCuts(data, stream);
      SafeTurn(data, stream);
      SafeLater(Texts(popped), Cut(rest + stream));
      hide Texts;
      SafeSession(rest, stream, sizes, log + popped);
    } else if stream != [] && |data| < ROOM {
      var n := Delivered(sizes, ROOM - |data|, |stream|);
      Associate(data, stream[..n], stream[n..]);
      assert stream == stream[..n] + stream[n..];
      SafeSession(data + stream[..n], stream[n..], if sizes == [] then [] else sizes[1..], log);
    }
  }

  lemma SafeLater(a: seq<Bytes>, b: seq<Bytes>)
    requires Safe(a + b)
    ensures Safe(b)
  {
    hide HasCommand;
    forall i | 0 <= i < |b| - 1 ensures HasCommand(b[i]) || |b[i]| + |b[i + 1]| > ROOM {
      assert (a + b)[|a| + i] == b[i] && (a + b)[|a| + i + 1] == b[i + 1];
    }
  }

  /** A marked message stays in the log. */
  lemma {:induction false} LogGrows(data: Bytes, stream: Bytes, sizes: seq<nat>, log: seq<Popped>)
    requires |data| <= ROOM
    ensures log <= Session(data, stream, sizes, log).log
    decreases |data| + |stream|, |stream|
  {
    hide IsMessage, Turn;
    if IsMessage(data) {
      var (popped, rest) := Turn(data);
      TurnShrinks(data);
      LogGrows(rest, stream, sizes, log + popped);
    } else if stream != [] && |data| < ROOM {
      var n := Delivered(sizes, ROOM - |data|, |stream|);
      LogGrows(data + stream[..n], stream[n..], if sizes == [] then [] else sizes[1..], log);
    }
  }

  /** Pieces that deliver one message at a time, and then the i-th together with the next. */
  function Schedule(ms: seq<Bytes>, i: nat): seq<nat>
    requires i + 1 < |ms|
  {
    if i == 0 then [|ms[0]| + |ms[1]|] else [|ms[0]|] + Schedule(ms[1..], i - 1)
  }

  lemma MessageAlone(m: Bytes)
    requires WellFormed(m)
    ensures IsMessage(m) && Head(m) == m && Later(m) == [] && Rest(m) == []
  {
    assert m[..|m|] == m;
  }

  lemma SingleTurn(m: Bytes)
    requires WellFormed(m)
    ensures IsMessage(m) && Turn(m) == ([Popped(m, true)], [])
  {
    MessageAlone(m);
    NothingInNothing();
    hide EndOfObject, HasCommand, Head, Rest;
  }

  lemma MessageFirst(m: Bytes, rest: Bytes)
    requires WellFormed(m) && NulFree(rest)
    ensures IsMessage(m + rest) && Head(m + rest) == m && Rest(m + rest) == rest
    ensures HasCommand(m + rest) <==> HasCommand(m)
  {
    EndOfObjectStable(m, rest);
    assert Later(m + rest) == rest;
    CTextWhole(rest);
    hide EndOfObject, Seek;
  }

  lemma DoubleTurn(m: Bytes, m': Bytes)
    requires WellFormed(m) && WellFormed(m') && !HasCommand(m)
    ensures IsMessage(m + m') && Turn(m + m') == ([Popped(m, true), Popped(m', false)], [])
  {
    MessageFirst(m, m');
    MessageAlone(m');
    hide EndOfObject, HasCommand, Head, Rest, WellFormed;
    assert [Popped(m, true)] + [Popped(m', false)] == [Popped(m, true), Popped(m', false)];
  }

  /** A commandless message that arrives with its successor makes the successor disappear. */
  lemma {:induction false} UnsafeSession(stream: Bytes, i: nat, log: seq<Popped>)
    requires NulFree(stream)
    requires var ms := Cut(stream); i + 1 < |ms| && !HasCommand(ms[i]) && |ms[i]| + |ms[i + 1]| <= ROOM
    ensures !AllExamined(Session([], stream, Schedule(Cut(stream), i), log).log)
    decreases |stream|
  {
    hide Session, AllExamined, HasCommand, Schedule, EndOfObject, Head, Later;
    if i == 0 {
      UnsafeNow(stream, log);
    } else {
      ScheduleStep(stream, i, log);
      NulFreeParts(Head(stream), Later(stream));
      assert Cut(stream)[1..] == Cut(Later(stream));
      UnsafeSession(Later(stream), i - 1, log + [Popped(Head(stream), true)]);
    }
  }

  /** The first piece of a schedule is the first message alone. */
  lemma ScheduleStep(stream: Bytes, i: nat, log: seq<Popped>)
    requires NulFree(stream) && 0 < i && i + 1 < |Cut(stream)|
    ensures i < |Cut(Later(stream))| && stream == Head(stream) + Later(stream)
    ensures Session([], stream, Schedule(Cut(stream), i), log) ==
            Session([], Later(stream), Schedule(Cut(Later(stream)), i - 1), log + [Popped(Head(stream), true)])
  {
    var m, later, ms := Head(stream), Later(stream), Cut(stream);
    var sizes := Schedule(ms, i);
    HeadIsMessage(stream);
    NulFreeParts(m, later);
    assert ms[0] == m && ms[1..] == Cut(later);
    SingleTurn(m);
    hide Session, Turn, WellFormed, IsMessage, EndOfObject, Head, Later, Cut;
    assert stream[..|m|] == m && stream[|m|..] == later;
    assert sizes[0] == |m| && sizes[1..] == Schedule(ms[1..], i - 1);
    OneRead(stream, sizes, log, |m|);
  }

  lemma FirstTwo(stream: Bytes) returns (m: Bytes, m': Bytes, tail: Bytes)
    requires NulFree(stream) && 1 < |Cut(stream)|
    ensures WellFormed(m) && WellFormed(m') && Cut(stream)[0] == m && Cut(stream)[1] == m'
    ensures stream == m + m' + tail
  {
    var later := Later(stream);
    m, m', tail := Head(stream), Head(later), Later(later);
    HeadIsMessage(stream);
    NulFreeParts(m, later);
    HeadIsMessage(later);
    NulFreeParts(m', tail);
    hide EndOfObject, Head, Later, HasCommand;
    Associate(m, m', tail);
  }

  lemma UnsafeNow(stream: Bytes, log: seq<Popped>)
    requires NulFree(stream)
    requires var ms := Cut(stream); 1 < |ms| && !HasCommand(ms[0]) && |ms[0]| + |ms[1]| <= ROOM
    ensures !AllExamined(Session([], stream, Schedule(Cut(stream), 0), log).log)
  {
    hide Session, Turn, HasCommand, EndOfObject, Head, Later, Cut, IsMessage;
    var m, m', tail := FirstTwo(stream);
    DoubleTurn(m, m');
    var n, sizes := |m| + |m'|, Schedule(Cut(stream), 0);
    assert |m| > 0;
    hide WellFormed;
    assert stream[..n] == m + m' && stream[n..] == tail && sizes[1..] == [];
    OneRead(stream, sizes, log, n);
    var log' := log + [Popped(m, true), Popped(m', false)];
    LogGrows([], tail, [], log');
    var last := Session([], tail, [], log').log;
    assert last[|log| + 1] == log'[|log| + 1] == Popped(m', false);
  }

  /** An empty buffer reads first; if that completes a message, its turn comes next. */
  lemma OneRead(stream: Bytes, sizes: seq<nat>, log: seq<Popped>, n: nat)
    requires stream != [] && sizes != [] && n == Delivered(sizes, ROOM, |stream|) && IsMessage(stream[..n])
    ensures var (popped, rest) := Turn(stream[..n]);
            && |rest| <= ROOM
            && Session([], stream, sizes, log) == Session(rest, stream[n..], sizes[1..], log + popped)
  {
    NothingInNothing();
    assert [] + stream[..n] == stream[..n];
    TurnShrinks(stream[..n]);
    hide EndOfObject, Turn;
  }

  /** Read byte by byte, every message is complete before the next begins, so each is examined,
      with or without a command. */
  lemma {:induction false} ByteByByte(data: Bytes, stream: Bytes, log: seq<Popped>)
    requires |data| <= ROOM && AllExamined(log) && (EndOfObject(data).At? ==> EndOfObject(data).brace == |data| - 1)
    ensures AllExamined(Session(data, stream, [], log).log)
    decreases |data| + |stream|, |stream|
  {
    NothingInNothing();
    if IsMessage(data) {
      assert Later(data) == [] && Turn(data) == ([Popped(Head(data), true)], []);
      hide EndOfObject, Turn, Head;
      ByteByByte([], stream, log + [Popped(Head(data), true)]);
    } else if stream != [] && |data| < ROOM {
      var longer := data + stream[..1];
      hide EndOfObject;
      if EndOfObject(longer).At? {
        EndsInside(longer);
        if EndOfObject(longer).brace < |data| { EndOfObjectInTime(data, stream[..1]); }
      }
      ByteByByte(longer, stream[1..], log);
    }
  }

  lemma Bytewise(stream: Bytes)
    requires NulFree(stream)
    ensures Session([], stream, [], []).log == Examined(Cut(stream))
  {
    NothingInNothing();
    ByteByByte([], stream, []);
    hide Session, Cut, Remains, EndOfObject;
    SessionIs(stream, []);
    ExaminedIs(Session([], stream, [], []).log);
  }

  lemma SafeIs(stream: Bytes, sizes: seq<nat>)
    requires NulFree(stream) && Safe(Cut(stream))
    ensures Session([], stream, sizes, []).log == Examined(Cut(stream))
  {
    hide Session, Cut, Remains, Safe;
    assert [] + stream == stream;
    SafeSession([], stream, sizes, []);
    SessionIs(stream, sizes);
    ExaminedIs(Session([], stream, sizes, []).log);
  }

  /** Exactly when framing is independent of how a NUL-free stream is cut: any two ways give the
      same outcome if and only if no commandless message fits into the buffer together with the
      message after it. Then, and always byte by byte, every message is examined once. */
  lemma FramingIndependence(stream: Bytes)
    requires NulFree(stream)
    ensures (forall sizes, sizes' :: Session([], stream, sizes, []) == Session([], stream, sizes', [])) <==>
            Safe(Cut(stream))
    ensures Session([], stream, [], []).log == Examined(Cut(stream))
  {
    hide Session, Cut, Remains, Texts, HasCommand, Schedule, NulFree;
    Bytewise(stream);
    var ms := Cut(stream);
    if Safe(ms) {
      forall sizes
        ensures Session([], stream, sizes, []) == Session([], stream, [], [])
      {
        SafeIs(stream, sizes);
        SessionIs(stream, sizes);
        SessionIs(stream, []);
      }
    } else {
      var i :| 0 <= i < |ms| - 1 && !HasCommand(ms[i]) && |ms[i]| + |ms[i + 1]| <= ROOM;
      UnsafeSession(stream, i, []);
      assert AllExamined(Examined(ms));
      assert Session([], stream, Schedule(ms, i), []).log != Session([], stream, [], []).log;
    }
  }

  /** How any session ends, with or without NULs: with all bytes read, or with a buffer full of no
      message. */
  lemma {:induction false} WhenStuck(data: Bytes, stream: Bytes, sizes: seq<nat>, log: seq<Popped>)
    requires |data| <= ROOM
    ensures var o := Session(data, stream, sizes, log);
            !IsMessage(o.left) && |o.left| <= ROOM && (o.unread != [] ==> |o.left| == ROOM)
    decreases |data| + |stream|, |stream|
  {
    hide IsMessage, Turn;
    if IsMessage(data) {
      var (popped, rest) := Turn(data);
      TurnShrinks(data);
      WhenStuck(rest, stream, sizes, log + popped);
    } else if stream != [] && |data| < ROOM {
      var n := Delivered(sizes, ROOM - |data|, |stream|);
      WhenStuck(data + stream[..n], stream[n..], if sizes == [] then [] else sizes[1..], log);
    }
  }

  /** It happens: bytes after a closing bracket pile up until the buffer is full, however they
      arrive, and nothing that follows is read. */
  lemma {:induction false} Jammed(data: Bytes, stream: Bytes, sizes: seq<nat>, log: seq<Popped>)
    requires |data| <= ROOM && data + stream != [] && (data + stream)[0] == 0x5D
    ensures var all := data + stream; var room := if |all| < ROOM then |all| else ROOM;
            Session(data, stream, sizes, log) == Outcome(log, all[..room], all[room..])
    decreases |data| + |stream|, |stream|
  {
    BracketIsNoMessage(data);
    hide IsMessage, Turn;
    if stream == [] || |data| == ROOM {
      assert (data + stream)[..|data|] == data && (data + stream)[|data|..] == stream;
    } else {
      var n := Delivered(sizes, ROOM - |data|, |stream|);
      assert data + stream[..n] + stream[n..] == data + stream;
      Jammed(data + stream[..n], stream[n..], if sizes == [] then [] else sizes[1..], log);
    }
  }

  lemma BracketIsNoMessage(data: Bytes)
    requires data != [] ==> data[0] == 0x5D
    ensures !IsMessage(data)
  {
    if data != [] { assert Scan(data, 0).token != LBrace; }
  }
}
