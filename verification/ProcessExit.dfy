/** Delivery of exit codes (runtime/bin/process_linux): the fork handshake, the list of active
    processes, the SIGCHLD handler with its pipe, and the thread that reaps children, as
    interleaved steps. A child is identified apart from its pid, since the system reuses pids;
    it stands for the exit pipe that its Start call made. */
module ProcessExit {
  type ChildId = nat
  type Pid = nat

  datatype Status = Status(code: int, negative: bool)

  /** Blocked: waiting for the parent's notification. */
  datatype Life = Blocked | Running | Exited(status: Status)

  /** How far the Start call in the parent has come. */
  datatype Start = Forked | Listed | Told | Failed

  /** What LookupProcessExitFd found for the pid of a reaped child. */
  datatype Verdict = NotYet | Missing | PipeOf(child: ChildId)

  /** `ran` records that the child passed the handshake, `removed` that its entry was taken off
      the list, and `messages` what was written to its exit pipe. */
  datatype Child = Child(pid: Pid, life: Life, start: Start, reaped: bool, ran: bool,
                         verdict: Verdict, removed: bool, messages: seq<Status>)

  datatype Entry = Entry(pid: Pid, child: ChildId)

  /** Where the exit-code thread is. Got, Found and Sent: it handles a reaped child, before the
      lookup, before writing to the pipe it found, and before removing the entry. */
  datatype Thread =
    | Polling | Reaping | Got(child: ChildId) | Found(child: ChildId, entry: Entry) | Sent(child: ChildId) | Stopped

  datatype Wake = WakeByte | TerminateByte

  /** `pending` are the exits behind a SIGCHLD that no handler has taken; each handler that runs
      has taken some, and has yet to write its byte. */
  datatype State = State(
    children: map<ChildId, Child>, entries: seq<Entry>,
    pending: set<ChildId>, handlers: seq<set<ChildId>>, pipe: seq<Wake>, terminating: bool, thread: Thread)

  const START: State := State(map[], [], {}, [], [], false, Polling)

  datatype Step =
    | Fork(c: ChildId, pid: Pid)
    | Add(c: ChildId) | Fail(c: ChildId) | Tell(c: ChildId)
    | Proceed(c: ChildId) | Exit(c: ChildId, code: nat) | Kill(c: ChildId, signal: nat)
    | TakeSignal | WriteByte(handler: nat, room: bool)
    | Terminate(full: bool)
    | ReadByte | WaitPid(c: ChildId) | NoneLeft | Lookup | Send(open: bool) | Remove

  function Find(entries: seq<Entry>, pid: Pid): (r: Verdict)
    ensures r != NotYet
  {
    if entries == [] then Missing
    else if entries[0].pid == pid then PipeOf(entries[0].child)
    else Find(entries[1..], pid)
  }

  function Without(entries: seq<Entry>, pid: Pid): seq<Entry> {
    if entries == [] then []
    else if entries[0].pid == pid then entries[1..]
    else [entries[0]] + Without(entries[1..], pid)
  }

  function Set(s: State, c: ChildId, child: Child): State {
    s.(children := s.children[c := child])
  }

  predicate Zombie(child: Child) {
    child.life.Exited? && !child.reaped
  }

  /** The child that the exit-code thread is handling. */
  predicate Handles(t: Thread, c: ChildId) {
    match t
    case Got(d) => c == d
    case Found(d, _) => c == d
    case Sent(d) => c == d
    case _ => false
  }

  predicate InPhase(s: State, c: ChildId, life: Life, start: Start) {
    c in s.children && s.children[c].life == life && s.children[c].start == start
  }

  predicate Enabled(s: State, e: Step) {
    match e
    case Fork(c, pid) =>
      c !in s.children && forall d :: d in s.children && !s.children[d].reaped ==> s.children[d].pid != pid
    case Add(c) => c in s.children && s.children[c].start == Forked
    case Fail(c) => c in s.children && s.children[c].start == Forked
    case Tell(c) => c in s.children && s.children[c].start == Listed
    case Proceed(c) => InPhase(s, c, Blocked, Told)
    case Exit(c, _) => c in s.children && s.children[c].life == Running
    case Kill(c, _) => c in s.children && !s.children[c].life.Exited?
    case TakeSignal => s.pending != {}
    case WriteByte(h, room) => h < |s.handlers| && (room || s.pipe != [])
    case Terminate(full) => full ==> s.pipe != []
    case ReadByte => s.thread == Polling && s.pipe != []
    case WaitPid(c) => s.thread == Reaping && c in s.children && Zombie(s.children[c])
    case NoneLeft => s.thread == Reaping && forall c :: c in s.children ==> !Zombie(s.children[c])
    case Lookup => s.thread.Got? && s.thread.child in s.children
    case Send(_) =>
      && s.thread.Found? && s.thread.entry.child in s.children && s.thread.child in s.children
      && s.children[s.thread.child].life.Exited?
    case Remove => s.thread.Sent? && s.thread.child in s.children
  }

  function Die(s: State, c: ChildId, status: Status): State
    requires c in s.children
  {
    Set(s, c, s.children[c].(life := Exited(status))).(pending := s.pending + {c})
  }

  function LookupStep(s: State): State
    requires Enabled(s, Lookup)
  {
    var c := s.thread.child;
    var verdict := Find(s.entries, s.children[c].pid);
    Set(s, c, s.children[c].(verdict := verdict)).(
      thread := if verdict.PipeOf? then Found(c, Entry(s.children[c].pid, verdict.child)) else Reaping)
  }

  /** The message goes into the pipe that was found, unless its reader is gone. */
  function SendStep(s: State, open: bool): State
    requires Enabled(s, Send(open))
  {
    var d := s.thread.entry.child;
    var status := s.children[s.thread.child].life.status;
    var s' := if open then Set(s, d, s.children[d].(messages := s.children[d].messages + [status])) else s;
    s'.(thread := Sent(s.thread.child))
  }

  function RemoveStep(s: State): State
    requires Enabled(s, Remove)
  {
    var pid := s.children[s.thread.child].pid;
    var s' := match Find(s.entries, pid)
              case PipeOf(d) => if d in s.children then Set(s, d, s.children[d].(removed := true)) else s
              case _ => s;
    s'.(entries := Without(s.entries, pid), thread := Reaping)
  }

  function Next(s: State, e: Step): State
    requires Enabled(s, e)
  {
    match e
    case Fork(c, pid) => Set(s, c, Child(pid, Blocked, Forked, false, false, NotYet, false, []))
    case Add(c) => Set(s, c, s.children[c].(start := Listed)).(entries := [Entry(s.children[c].pid, c)] + s.entries)
    case Fail(c) => Set(s, c, s.children[c].(start := Failed))
    case Tell(c) => Set(s, c, s.children[c].(start := Told))
    case Proceed(c) => Set(s, c, s.children[c].(life := Running, ran := true))
    case Exit(c, code) => Die(s, c, Status(code, false))
    case Kill(c, signal) => Die(s, c, Status(signal, true))
    case TakeSignal => s.(pending := {}, handlers := s.handlers + [s.pending])
    case WriteByte(h, room) =>
      s.(handlers := s.handlers[..h] + s.handlers[h + 1..], pipe := if room then s.pipe + [WakeByte] else s.pipe)
    case Terminate(full) => s.(terminating := true, pipe := if full then s.pipe else s.pipe + [TerminateByte])
    case ReadByte => s.(pipe := s.pipe[1..], thread := if s.pipe[0] == TerminateByte then Stopped else Reaping)
    case WaitPid(c) => Set(s, c, s.children[c].(reaped := true)).(thread := Got(c))
    case NoneLeft => s.(thread := Polling)
    case Lookup => LookupStep(s)
    case Send(open) => SendStep(s, open)
    case Remove => RemoveStep(s)
  }

  // ---------------------------------------------------------------- no exit is forgotten

  predicate InPass(t: Thread) {
    t.Reaping? || t.Got? || t.Found? || t.Sent?
  }

  predicate Taken(s: State, c: ChildId) {
    exists h :: 0 <= h < |s.handlers| && c in s.handlers[h]
  }

  /** Whoever has exited and was not reaped is behind a signal that is still to be handled, or
      there is a wake-up byte in the pipe, or a reap pass is under way. */
  ghost predicate Watched(s: State) {
    && (s.thread == Stopped || TerminateByte in s.pipe ==> s.terminating)
    && (!s.terminating && s.pipe == [] && !InPass(s.thread) ==>
          forall c :: c in s.children && Zombie(s.children[c]) ==> c in s.pending || Taken(s, c))
  }

  lemma WatchedStays(s: State, e: Step)
    requires Watched(s) && Enabled(s, e)
    ensures Watched(Next(s, e))
  {
    if e.TakeSignal? {
      var s' := Next(s, e);
      forall c | Taken(s, c) || c in s.pending ensures Taken(s', c) {
        var h := if c in s.pending then |s.handlers| else var h :| 0 <= h < |s.handlers| && c in s.handlers[h]; h;
        assert c in s'.handlers[h];
      }
    }
  }

  // ------------------------------------------------------------------------ delivery

  predicate IsListed(s: State, c: ChildId) {
    c in s.children && (s.children[c].start == Listed || s.children[c].start == Told) && !s.children[c].removed
  }

  /** Walking the list, an entry of another child with this pid comes before the child's own. */
  predicate Overtaken(entries: seq<Entry>, pid: Pid, c: ChildId) {
    entries != [] && entries[0].child != c && (entries[0].pid == pid || Overtaken(entries[1..], pid, c))
  }

  /** A step that makes the exit-code thread take one child's entry for another's: while it
      handles a child, some other child with the same pid is added in front; or it reaps a child
      although an entry with the same pid is left over in front of the child's own. */
  predicate Misleads(s: State, e: Step)
    requires Enabled(s, e)
  {
    match e
    case Add(d) => HandlesPid(s, s.children[d].pid) && !Handles(s.thread, d)
    case WaitPid(c) => Overtaken(s.entries, s.children[c].pid, c)
    case _ => false
  }

  predicate HandlesPid(s: State, pid: Pid) {
    (s.thread.Got? || s.thread.Found? || s.thread.Sent?) &&
    s.thread.child in s.children && s.children[s.thread.child].pid == pid
  }

  /** The list holds exactly the processes added and not removed, each once; and only what was
      added is removed. */
  ghost predicate EntriesOk(s: State) {
    && (forall c :: c in s.children && s.children[c].removed ==> s.children[c].start in {Listed, Told})
    && (forall e :: e in s.entries ==> IsListed(s, e.child) && s.children[e.child].pid == e.pid)
    && (forall c :: IsListed(s, c) ==> Entry(s.children[c].pid, c) in s.entries)
    && DistinctChildren(s.entries)
  }

  ghost predicate DistinctChildren(entries: seq<Entry>) {
    forall i, j :: 0 <= i < j < |entries| ==> entries[i].child != entries[j].child
  }

  /** The promise to one child: it gets at most one message, its own status; only its own pipe
      is ever found for it; it leaves the list only by that; and nothing is found only if it
      never passed the handshake. */
  predicate Honest(c: ChildId, child: Child) {
    && (child.messages == [] || (child.life.Exited? && child.messages == [child.life.status]))
    && (child.verdict == NotYet || child.verdict == Missing || child.verdict == PipeOf(c))
    && (child.removed ==> child.verdict == PipeOf(c))
    && (child.verdict == Missing ==> !child.ran && child.messages == [])
  }

  ghost predicate AllHonest(s: State) {
    forall c :: c in s.children ==> Honest(c, s.children[c])
  }

  /** What is known of one child: it runs only after it was told; it is looked up only once it
      is reaped; and the promise is kept. */
  predicate ChildOk(c: ChildId, child: Child, t: Thread) {
    && Honest(c, child)
    && (child.life == Running ==> child.ran)
    && (child.ran ==> child.start == Told)
    && (child.reaped ==> child.life.Exited?)
    && (child.verdict != NotYet ==> child.reaped)
    && (child.reaped && child.verdict == NotYet ==> t == Got(c))
    && (child.removed ==> !Handles(t, c))
    && (child.verdict == PipeOf(c) ==> child.start != Forked && child.start != Failed)
    && (child.verdict == PipeOf(c) && !child.removed ==> Handles(t, c))
    && (child.messages != [] ==> child.verdict == PipeOf(c))
  }

  ghost predicate ThreadOk(s: State) {
    match s.thread
    case Got(c) => c in s.children && s.children[c].reaped && s.children[c].verdict == NotYet
    case Found(c, entry) =>
      && c in s.children && entry == Entry(s.children[c].pid, c)
      && s.children[c].verdict == PipeOf(c) && s.children[c].messages == []
    case Sent(c) => c in s.children && s.children[c].verdict == PipeOf(c)
    case _ => true
  }

  ghost predicate ChildrenOk(s: State) {
    forall c :: c in s.children ==> ChildOk(c, s.children[c], s.thread)
  }

  /** The lookup for the child being handled finds its own pipe if it is listed, else nothing. */
  ghost predicate FindsOwn(s: State) {
    forall c :: Handles(s.thread, c) && c in s.children ==>
      Find(s.entries, s.children[c].pid) == if IsListed(s, c) then PipeOf(c) else Missing
  }

  ghost predicate Inv(s: State) {
    EntriesOk(s) && ThreadOk(s) && ChildrenOk(s) && FindsOwn(s)
  }

  lemma {:induction false} FindEntry(entries: seq<Entry>, pid: Pid)
    ensures Find(entries, pid) == Missing <==> forall e :: e in entries ==> e.pid != pid
    ensures Find(entries, pid).PipeOf? ==> Entry(pid, Find(entries, pid).child) in entries
  {
    if entries != [] && entries[0].pid != pid {
      FindEntry(entries[1..], pid);
      assert entries == [entries[0]] + entries[1..];
    }
  }

  /** The first entry with a pid is the child's own, or there is none, exactly if the child is
      not overtaken. */
  lemma {:induction false} FindOwn(entries: seq<Entry>, pid: Pid, c: ChildId)
    requires forall e :: e in entries && e.child == c ==> e.pid == pid
    ensures Find(entries, pid) == (if Entry(pid, c) in entries then PipeOf(c) else Missing)
            <==> !Overtaken(entries, pid, c)
  {
    if entries != [] {
      var rest := entries[1..];
      assert entries == [entries[0]] + rest;
      if entries[0].pid != pid {
        assert entries[0].child != c;
        FindOwn(rest, pid, c);
      }
    }
  }

  /** Removing by pid takes off the entry that a lookup would find, and no other. */
  lemma {:induction false} WithoutEntry(entries: seq<Entry>, pid: Pid)
    requires DistinctChildren(entries)
    ensures forall e :: e in Without(entries, pid) <==> e in entries && Find(entries, pid) != PipeOf(e.child)
    ensures DistinctChildren(Without(entries, pid))
  {
    if entries != [] {
      var rest := entries[1..];
      assert entries == [entries[0]] + rest;
      if entries[0].pid != pid {
        WithoutEntry(rest, pid);
        FindEntry(rest, pid);
      }
    }
  }

  lemma EntriesFrame(s: State, s': State)
    requires EntriesOk(s) && s'.entries == s.entries
    requires forall d :: IsListed(s', d) <==> IsListed(s, d)
    requires forall d :: IsListed(s, d) && IsListed(s', d) ==> s'.children[d].pid == s.children[d].pid
    requires forall d :: d in s'.children && s'.children[d].removed ==>
               d in s.children && s.children[d].removed && s'.children[d].start in {Listed, Told}
    ensures EntriesOk(s')
  {}

  lemma AddEntries(s: State, c: ChildId)
    requires EntriesOk(s) && Enabled(s, Add(c))
    ensures EntriesOk(Next(s, Add(c)))
  {
    var s' := Next(s, Add(c));
    assert !s.children[c].removed && !IsListed(s, c);
    assert forall d :: d != c ==> (IsListed(s', d) <==> IsListed(s, d));
  }

  /** One entry leaves the list, and its child is marked. */
  lemma TakenOff(s: State, s': State, d: ChildId)
    requires EntriesOk(s) && IsListed(s, d) && DistinctChildren(s'.entries)
    requires s'.children == s.children[d := s.children[d].(removed := true)]
    requires forall e :: e in s'.entries <==> e in s.entries && e.child != d
    ensures EntriesOk(s')
  {
    hide DistinctChildren;
    assert forall c :: IsListed(s', c) <==> IsListed(s, c) && c != d;
  }

  lemma RemoveEntries(s: State)
    requires EntriesOk(s) && Enabled(s, Remove)
    ensures EntriesOk(Next(s, Remove))
  {
    var s', pid := Next(s, Remove), s.children[s.thread.child].pid;
    FindEntry(s.entries, pid);
    WithoutEntry(s.entries, pid);
    var found := Find(s.entries, pid);
    hide Find, Without, DistinctChildren;
    if found.PipeOf? {
      assert IsListed(s, Entry(pid, found.child).child);
      hide EntriesOk, IsListed;
      TakenOff(s, s', found.child);
    } else {
      assert forall d :: IsListed(s', d) <==> IsListed(s, d);
    }
  }

  /** One child changes in a way that the list does not notice. */
  lemma ChildEntries(s: State, s': State, c: ChildId)
    requires EntriesOk(s) && s'.entries == s.entries && c in s'.children
    requires s'.children == s.children[c := s'.children[c]]
    requires c !in s.children ==> s'.children[c].start == Forked && !s'.children[c].removed
    requires c in s.children ==>
               && s'.children[c].pid == s.children[c].pid && s'.children[c].removed == s.children[c].removed
               && (s'.children[c].start in {Listed, Told} <==> s.children[c].start in {Listed, Told})
    ensures EntriesOk(s')
  {
    assert forall d :: IsListed(s', d) <==> IsListed(s, d);
    EntriesFrame(s, s');
  }

  /** The list stays right in every step, whatever pids the system gives out. */
  lemma EntriesStay(s: State, e: Step)
    requires EntriesOk(s) && Enabled(s, e)
    ensures EntriesOk(Next(s, e))
  {
    hide EntriesOk, Find, Without;
    match e {
      case Add(c) => AddEntries(s, c);
      case Remove => RemoveEntries(s);
      case Fork(c, _) => ChildEntries(s, Next(s, e), c);
      case Fail(c) => ChildEntries(s, Next(s, e), c);
      case Tell(c) => ChildEntries(s, Next(s, e), c);
      case Proceed(c) => ChildEntries(s, Next(s, e), c);
      case Exit(c, _) => ChildEntries(s, Next(s, e), c);
      case Kill(c, _) => ChildEntries(s, Next(s, e), c);
      case WaitPid(c) => ChildEntries(s, Next(s, e), c);
      case Lookup => ChildEntries(s, Next(s, e), s.thread.child);
      case Send(open) =>
        if open {
          ChildEntries(s, Next(s, e), s.thread.entry.child);
        } else {
          SameEntries(s, Next(s, e));
        }
      case _ => SameEntries(s, Next(s, e));
    }
  }

  lemma SameEntries(s: State, s': State)
    requires EntriesOk(s) && s'.entries == s.entries && s'.children == s.children
    ensures EntriesOk(s')
  {
    assert forall d :: IsListed(s', d) <==> IsListed(s, d);
  }

  // -------------------------------------------------------- every step keeps the promise

  /** A child that the thread handles neither before nor after does not notice the thread. */
  lemma OtherThread(c: ChildId, child: Child, t: Thread, t': Thread)
    requires ChildOk(c, child, t) && !Handles(t, c) && !Handles(t', c)
    ensures ChildOk(c, child, t')
  {}

  /** When only one child changes, and the thread handles no other. */
  lemma ChildrenFrame(s: State, s': State, c: ChildId)
    requires ChildrenOk(s) && c in s'.children && s'.children == s.children[c := s'.children[c]]
    requires ChildOk(c, s'.children[c], s'.thread)
    requires s'.thread == s.thread || forall d :: Handles(s.thread, d) || Handles(s'.thread, d) ==> d == c
    ensures ChildrenOk(s')
  {
    hide ChildOk;
    forall d | d in s'.children && d != c ensures ChildOk(d, s'.children[d], s'.thread) {
      if s'.thread != s.thread { OtherThread(d, s.children[d], s.thread, s'.thread); }
    }
  }

  /** The thread and the list do not notice a change of one child. */
  lemma HandledFrame(s: State, s': State, c: ChildId)
    requires ThreadOk(s) && FindsOwn(s) && s'.thread == s.thread && s'.entries == s.entries
    requires c in s'.children && s'.children == s.children[c := s'.children[c]]
    requires c in s.children ==>
               && s'.children[c].pid == s.children[c].pid && s'.children[c].reaped == s.children[c].reaped
               && s'.children[c].verdict == s.children[c].verdict && s'.children[c].messages == s.children[c].messages
               && (IsListed(s', c) <==> IsListed(s, c))
    ensures ThreadOk(s') && FindsOwn(s')
  {
    assert forall d :: Handles(s.thread, d) ==> d in s.children;
  }

  /** Steps that change one child, and neither the list nor the thread. */
  lemma ChildStep(s: State, s': State, c: ChildId)
    requires Inv(s) && EntriesOk(s') && s'.thread == s.thread && s'.entries == s.entries
    requires c in s'.children && s'.children == s.children[c := s'.children[c]]
    requires ChildOk(c, s'.children[c], s.thread)
    requires c in s.children ==>
               && s'.children[c].pid == s.children[c].pid && s'.children[c].reaped == s.children[c].reaped
               && s'.children[c].verdict == s.children[c].verdict && s'.children[c].messages == s.children[c].messages
               && (IsListed(s', c) <==> IsListed(s, c))
    ensures Inv(s')
  {
    hide EntriesOk, ChildrenOk, ChildOk, FindsOwn, ThreadOk;
    ChildrenFrame(s, s', c);
    HandledFrame(s, s', c);
  }

  lemma LifeStep(s: State, e: Step)
    requires Inv(s) && Enabled(s, e) && (e.Fork? || e.Fail? || e.Tell? || e.Proceed? || e.Exit? || e.Kill?)
    ensures Inv(Next(s, e))
  {
    EntriesStay(s, e);
    var s' := Next(s, e);
    assert e.c in s.children ==> ChildOk(e.c, s.children[e.c], s.thread);
    assert !(e.c in s.children) ==> !Handles(s.thread, e.c);
    hide EntriesOk, ChildrenOk, FindsOwn;
    ChildStep(s, s', e.c);
  }

  /** The signal, its handlers and the pipe do not matter. */
  lemma IdleStep(s: State, e: Step)
    requires Inv(s) && Enabled(s, e) && (e.TakeSignal? || e.WriteByte? || e.Terminate? || e.ReadByte? || e.NoneLeft?)
    ensures Inv(Next(s, e))
  {
    EntriesStay(s, e);
    var s' := Next(s, e);
    hide EntriesOk;
    assert s'.thread == s.thread || forall d :: !Handles(s.thread, d) && !Handles(s'.thread, d);
    assert forall d :: IsListed(s', d) <==> IsListed(s, d);
    forall d | d in s.children ensures ChildOk(d, s.children[d], s'.thread) {
      if s'.thread != s.thread { OtherThread(d, s.children[d], s.thread, s'.thread); }
    }
    hide ChildOk;
  }

  /** Adding a child keeps the lookup right exactly unless the child being handled is another
      with the same pid. */
  lemma AddFinds(s: State, c: ChildId)
    requires Inv(s) && Enabled(s, Add(c))
    ensures FindsOwn(Next(s, Add(c))) <==> !Misleads(s, Add(c))
  {
    var s' := Next(s, Add(c));
    assert ChildOk(c, s.children[c], s.thread);
    hide EntriesOk, ChildrenOk, ChildOk;
    if s.thread.Got? || s.thread.Found? || s.thread.Sent? {
      var d := s.thread.child;
      assert Handles(s.thread, d) && forall o :: Handles(s.thread, o) ==> o == d;
      assert IsListed(s', d) <==> IsListed(s, d) || d == c;
    }
  }

  lemma AddInv(s: State, c: ChildId)
    requires Inv(s) && Enabled(s, Add(c))
    ensures Inv(Next(s, Add(c))) <==> !Misleads(s, Add(c))
  {
    EntriesStay(s, Add(c));
    AddFinds(s, c);
    var s' := Next(s, Add(c));
    assert ChildOk(c, s.children[c], s.thread);
    assert ChildOk(c, s'.children[c], s.thread);
    hide EntriesOk, FindsOwn, ChildOk, ChildrenOk;
    ChildrenFrame(s, s', c);
    assert ThreadOk(s');
  }

  lemma WaitPidInv(s: State, c: ChildId)
    requires Inv(s) && Enabled(s, WaitPid(c))
    ensures Inv(Next(s, WaitPid(c))) <==> !Misleads(s, WaitPid(c))
  {
    EntriesStay(s, WaitPid(c));
    var s' := Next(s, WaitPid(c));
    assert ChildOk(c, s.children[c], s.thread);
    ChildrenFrame(s, s', c);
    FindOwn(s.entries, s.children[c].pid, c);
    assert IsListed(s, c) <==> Entry(s.children[c].pid, c) in s.entries;
    hide EntriesOk, ChildrenOk, ChildOk, Find, Overtaken;
  }

  lemma LookupInv(s: State)
    requires Inv(s) && Enabled(s, Lookup)
    ensures Inv(Next(s, Lookup))
  {
    EntriesStay(s, Lookup);
    var s', c := Next(s, Lookup), s.thread.child;
    assert ChildOk(c, s.children[c], s.thread);
    assert Find(s.entries, s.children[c].pid) == if IsListed(s, c) then PipeOf(c) else Missing;
    hide EntriesOk, Find, FindsOwn;
    assert ChildOk(c, s'.children[c], s'.thread);
    ChildrenFrame(s, s', c);
    hide ChildrenOk, ChildOk;
    assert ThreadOk(s');
    assert FindsOwn(s') by { LookupFinds(s, s'); }
  }

  lemma LookupFinds(s: State, s': State)
    requires FindsOwn(s) && s'.entries == s.entries && s.thread.Got? && s.thread.child in s.children
    requires s'.thread == Reaping || (s'.thread.Found? && s'.thread.child == s.thread.child)
    requires s'.children.Keys == s.children.Keys
    requires forall d :: d in s.children ==>
               s'.children[d].pid == s.children[d].pid && (IsListed(s', d) <==> IsListed(s, d))
    ensures FindsOwn(s')
  {}

  lemma SendInv(s: State, open: bool)
    requires Inv(s) && Enabled(s, Send(open))
    ensures Inv(Next(s, Send(open)))
  {
    EntriesStay(s, Send(open));
    var s', c := Next(s, Send(open)), s.thread.child;
    assert ChildOk(c, s.children[c], s.thread);
    assert s'.children == s.children[c := s'.children[c]];
    ChildrenFrame(s, s', c);
    hide EntriesOk, ChildrenOk, ChildOk, Find;
    assert IsListed(s', c) <==> IsListed(s, c);
  }

  lemma RemoveInv(s: State)
    requires Inv(s) && Enabled(s, Remove)
    ensures Inv(Next(s, Remove))
  {
    EntriesStay(s, Remove);
    var s', c := Next(s, Remove), s.thread.child;
    assert ChildOk(c, s.children[c], s.thread);
    assert IsListed(s, c) && Find(s.entries, s.children[c].pid) == PipeOf(c);
    ChildrenFrame(s, s', c);
    hide EntriesOk, ChildrenOk, ChildOk, Find, Without;
  }

  /** Every step keeps the invariant exactly unless it misleads the exit-code thread. */
  lemma NextInv(s: State, e: Step)
    requires Inv(s) && Enabled(s, e)
    ensures Inv(Next(s, e)) <==> !Misleads(s, e)
  {
    match e {
      case Add(c) => AddInv(s, c);
      case WaitPid(c) => WaitPidInv(s, c);
      case Lookup => LookupInv(s);
      case Send(open) => SendInv(s, open);
      case Remove => RemoveInv(s);
      case Fork(_, _) => LifeStep(s, e);
      case Fail(_) => LifeStep(s, e);
      case Tell(_) => LifeStep(s, e);
      case Proceed(_) => LifeStep(s, e);
      case Exit(_, _) => LifeStep(s, e);
      case Kill(_, _) => LifeStep(s, e);
      case _ => IdleStep(s, e);
    }
  }

  // ------------------------------------------------------------ what a misled thread does

  function TryStep(s: State, e: Step): State {
    if Enabled(s, e) then Next(s, e) else s
  }

  /** The exit-code thread finishes with the child that it is handling. */
  function Settle(s: State): State {
    TryStep(TryStep(TryStep(s, Lookup), Send(true)), Remove)
  }

  lemma SettleInv(s: State)
    requires Inv(s)
    ensures Inv(Settle(s))
  {
    hide Inv, Next, Enabled;
    var s1 := TryStep(s, Lookup);
    if Enabled(s, Lookup) { LookupInv(s); }
    var s2 := TryStep(s1, Send(true));
    if Enabled(s1, Send(true)) { SendInv(s1, true); }
    if Enabled(s2, Remove) { RemoveInv(s2); }
  }

  /** A verdict once given stays. */
  lemma VerdictStays(s: State, c: ChildId)
    requires c in s.children
    ensures c in TryStep(s, Send(true)).children && TryStep(s, Send(true)).children[c].verdict == s.children[c].verdict
    ensures c in TryStep(s, Remove).children && TryStep(s, Remove).children[c].verdict == s.children[c].verdict
  {
    hide Find, Without;
  }

  /** Before the lookup: another child's pipe is found. */
  lemma HarmAtLookup(s: State)
    requires EntriesOk(s) && s.thread.Got? && s.thread.child in s.children && !FindsOwn(s)
    ensures !AllHonest(Settle(s))
  {
    var c := s.thread.child;
    var pid := s.children[c].pid;
    FindEntry(s.entries, pid);
    assert IsListed(s, c) ==> Entry(pid, c) in s.entries;
    var found := Find(s.entries, pid);
    assert found.PipeOf? && found.child != c;
    var s1 := TryStep(s, Lookup);
    assert c in s1.children && s1.children[c].verdict == found;
    hide EntriesOk, FindsOwn, Find, Next, Enabled;
    VerdictStays(s1, c);
    VerdictStays(TryStep(s1, Send(true)), c);
    assert !Honest(c, Settle(s).children[c]) by { SettleIs(s, s1); }
  }

  lemma SettleIs(s: State, s1: State)
    requires s1 == TryStep(s, Lookup)
    ensures Settle(s) == TryStep(TryStep(s1, Send(true)), Remove)
  {}

  /** Before the removal: another child's entry is removed. */
  lemma HarmAtRemove(s: State, d: ChildId)
    requires s.thread.Sent? && s.thread.child in s.children && d in s.children
    requires Find(s.entries, s.children[s.thread.child].pid) == PipeOf(d) && s.children[d].verdict != PipeOf(d)
    ensures !AllHonest(TryStep(s, Remove))
  {
    var s' := TryStep(s, Remove);
    hide Find, Without;
    assert d in s'.children && s'.children[d].removed && !Honest(d, s'.children[d]);
  }

  lemma SendFrame(s: State, d: ChildId)
    requires s.thread.Found? && d in s.children && s.thread.child in s.children && s.thread.entry.child in s.children
    requires s.children[s.thread.child].life.Exited?
    ensures var s2 := TryStep(s, Send(true));
            && s2.thread == Sent(s.thread.child) && s2.entries == s.entries && s2.children.Keys == s.children.Keys
            && s2.children[d].verdict == s.children[d].verdict
            && s2.children[s.thread.child].pid == s.children[s.thread.child].pid
  {}

  /** A misled thread breaks the promise to some child as soon as it has finished. */
  lemma Harm(s: State, e: Step)
    requires Inv(s) && Enabled(s, e) && Misleads(s, e)
    ensures !AllHonest(Settle(Next(s, e)))
  {
    var s' := Next(s, e);
    EntriesStay(s, e);
    if e.WaitPid? {
      WaitPidInv(s, e.c);
      WaitPidKeeps(s, e.c);
      HarmAtLookup(s');
    } else {
      AddFinds(s, e.c);
      assert ChildOk(e.c, s.children[e.c], s.thread) && ChildOk(s.thread.child, s.children[s.thread.child], s.thread);
      AddFront(s, e.c);
      hide EntriesOk, ChildrenOk, Find, FindsOwn;
      if s.thread.Got? {
        HarmAtLookup(s');
      } else if s.thread.Found? {
        SendFrame(s', e.c);
        HarmAtRemove(TryStep(s', Send(true)), e.c);
        SettleNoLookup(s');
      } else {
        HarmAtRemove(s', e.c);
        SettleNoLookup(s');
      }
    }
  }

  lemma SettleNoLookup(s: State)
    requires s.thread.Found? || s.thread.Sent?
    ensures Settle(s) == TryStep(TryStep(s, Send(true)), Remove)
    ensures s.thread.Sent? ==> Settle(s) == TryStep(s, Remove)
  {}

  lemma AddFront(s: State, c: ChildId)
    requires Enabled(s, Add(c))
    ensures Find(Next(s, Add(c)).entries, s.children[c].pid) == PipeOf(c)
    ensures Next(s, Add(c)).thread == s.thread
    ensures forall d :: d in s.children ==>
              d in Next(s, Add(c)).children &&
                  Next(s, Add(c)).children[d].(start := s.children[d].start) == s.children[d]
  {}

  /** Apart from the lookup, reaping keeps everything. */
  lemma WaitPidKeeps(s: State, c: ChildId)
    requires Inv(s) && Enabled(s, WaitPid(c)) && Misleads(s, WaitPid(c))
    ensures !FindsOwn(Next(s, WaitPid(c)))
  {
    var s' := Next(s, WaitPid(c));
    assert ChildOk(c, s.children[c], s.thread);
    FindOwn(s.entries, s.children[c].pid, c);
    assert IsListed(s, c) <==> Entry(s.children[c].pid, c) in s.entries;
    assert Handles(s'.thread, c) && (IsListed(s', c) <==> IsListed(s, c));
    hide EntriesOk, ChildrenOk, ChildOk, Find, Overtaken;
  }

  // ---------------------------------------------------------------------- whole runs

  predicate Possible(s: State, run: seq<Step>)
    decreases |run|
  {
    run == [] || (Enabled(s, run[0]) && Possible(Next(s, run[0]), run[1..]))
  }

  function After(s: State, run: seq<Step>): State
    requires Possible(s, run)
    decreases |run|
  {
    if run == [] then s else After(Next(s, run[0]), run[1..])
  }

  /** No step of the run misleads the exit-code thread. */
  predicate Orderly(s: State, run: seq<Step>)
    requires Possible(s, run)
    decreases |run|
  {
    run != [] ==> !Misleads(s, run[0]) && Orderly(Next(s, run[0]), run[1..])
  }

  /** In every state of the run the promise to every child is kept, and is still kept once the
      exit-code thread has finished with the child that it is handling. */
  ghost predicate Delivers(s: State, run: seq<Step>)
    requires Possible(s, run)
    decreases |run|
  {
    AllHonest(s) && AllHonest(Settle(s)) && (run != [] ==> Delivers(Next(s, run[0]), run[1..]))
  }

  lemma InvIsHonest(s: State)
    requires Inv(s)
    ensures AllHonest(s)
  {
    forall c | c in s.children ensures Honest(c, s.children[c]) {
      assert ChildOk(c, s.children[c], s.thread);
    }
  }

  /** Delivery succeeds throughout a run exactly if no step misleads the exit-code thread. */
  lemma {:induction false} RunDelivers(s: State, run: seq<Step>)
    requires Inv(s) && Possible(s, run)
    ensures Delivers(s, run) <==> Orderly(s, run)
    ensures Orderly(s, run) ==> Inv(After(s, run))
    decreases |run|
  {
    hide Inv, Next, Enabled, Misleads, Settle, AllHonest;
    InvIsHonest(s);
    SettleInv(s);
    InvIsHonest(Settle(s));
    if run != [] {
      NextInv(s, run[0]);
      if Misleads(s, run[0]) {
        Harm(s, run[0]);
        assert !Delivers(Next(s, run[0]), run[1..]);
      } else {
        RunDelivers(Next(s, run[0]), run[1..]);
      }
    }
  }

  lemma {:induction false} RunEntries(s: State, run: seq<Step>)
    requires EntriesOk(s) && Possible(s, run)
    ensures EntriesOk(After(s, run))
    decreases |run|
  {
    hide EntriesOk, Next, Enabled;
    if run != [] {
      EntriesStay(s, run[0]);
      RunEntries(Next(s, run[0]), run[1..]);
    }
  }

  lemma {:induction false} RunWatched(s: State, run: seq<Step>)
    requires Watched(s) && Possible(s, run)
    ensures Watched(After(s, run))
    decreases |run|
  {
    hide Watched, Next, Enabled;
    if run != [] {
      WatchedStays(s, run[0]);
      RunWatched(Next(s, run[0]), run[1..]);
    }
  }

  /** No exit is forgotten: in every run, until termination is requested, a child that has
      exited, is not reaped, and whose SIGCHLD has been handled, finds a wake-up byte in the pipe
      or a reap pass under way. */
  lemma NoExitForgotten(run: seq<Step>, c: ChildId)
    requires Possible(START, run)
    ensures var s := After(START, run);
            c in s.children && Zombie(s.children[c]) && c !in s.pending && !Taken(s, c) && !s.terminating ==>
              WakeByte in s.pipe || InPass(s.thread)
  {
    assert Watched(START);
    RunWatched(START, run);
    var s := After(START, run);
    if s.pipe != [] {
      assert s.pipe[0] in s.pipe;
      assert s.pipe[0] == WakeByte || s.pipe[0] == TerminateByte;
    }
  }

  /** A child is done with: reaped, and the exit-code thread has moved on. */
  predicate DoneWith(s: State, c: ChildId) {
    c in s.children && s.children[c].reaped && !Handles(s.thread, c)
  }

  /** In every run without such a step, and whatever pids the system gives out: a child gets at
      most one message, with its own status; once it is done with, either its own pipe was found
      and its entry is off the list, or none was found, and that only happens to a child that was
      killed before it passed the handshake. */
  lemma Delivery(run: seq<Step>, c: ChildId)
    requires Possible(START, run) && Orderly(START, run) && c in After(START, run).children
    ensures var s := After(START, run); var child := s.children[c];
            && (child.messages == [] || (child.life.Exited? && child.messages == [child.life.status]))
            && (DoneWith(s, c) ==>
                  || (child.verdict == PipeOf(c) && child.removed && forall e :: e in s.entries ==> e.child != c)
                  || (child.verdict == Missing && child.messages == [] && !child.ran))
            && (DoneWith(s, c) && child.ran ==> child.verdict == PipeOf(c))
  {
    RunDelivers(START, run);
    var s := After(START, run);
    assert ChildOk(c, s.children[c], s.thread);
    forall e | e in s.entries ensures IsListed(s, e.child) {}
  }

  /** In every run at all, the list holds exactly the children added and not removed. Without a
      misleading step, a child leaves it only when its own pipe was found for its own exit, so
      one that was reaped before it was added stays for good. */
  lemma ListIsActive(run: seq<Step>, c: ChildId)
    requires Possible(START, run)
    ensures var s := After(START, run);
            && ((exists e :: e in s.entries && e.child == c) <==> IsListed(s, c))
            && (Orderly(START, run) && c in s.children && s.children[c].removed ==> s.children[c].verdict == PipeOf(c))
  {
    RunEntries(START, run);
    RunDelivers(START, run);
    var s := After(START, run);
    if Orderly(START, run) && c in s.children { assert ChildOk(c, s.children[c], s.thread); }
    if IsListed(s, c) { assert Entry(s.children[c].pid, c) in s.entries; }
    hide FindsOwn;
  }

  /** What the system promises: two children that are not reaped have different pids. */
  ghost predicate SystemPids(s: State) {
    forall c, d :: c in s.children && d in s.children && !s.children[c].reaped && !s.children[d].reaped && c != d ==>
      s.children[c].pid != s.children[d].pid
  }

  lemma SystemPidsStay(s: State, e: Step)
    requires SystemPids(s) && Enabled(s, e)
    ensures SystemPids(Next(s, e))
  {
    hide Find, Without;
  }

  /** The system gives out no pid that an unreaped child has, so every run keeps the promise. */
  lemma {:induction false} RunPids(s: State, run: seq<Step>)
    requires SystemPids(s) && Possible(s, run)
    ensures SystemPids(After(s, run))
    decreases |run|
  {
    hide SystemPids, Next, Enabled;
    if run != [] {
      SystemPidsStay(s, run[0]);
      RunPids(Next(s, run[0]), run[1..]);
    }
  }

  /** Who can be the first to be misled: a thread that handles a reaped child whose pid the system
      has already given to another; or one that reaps a child with the pid of one that was itself
      reaped before it was added, and has stayed on the list since. */
  lemma WhoMisleads(run: seq<Step>, e: Step)
    requires Possible(START, run) && Orderly(START, run) && Enabled(After(START, run), e)
    requires Misleads(After(START, run), e)
    ensures var s := After(START, run);
            && (e.Add? || e.WaitPid?)
            && (e.Add? ==> exists c :: Handles(s.thread, c) && c in s.children && c != e.c &&
                                       s.children[c].reaped && s.children[c].pid == s.children[e.c].pid)
            && (e.WaitPid? ==> exists d :: IsListed(s, d) && s.children[d].pid == s.children[e.c].pid &&
                                           s.children[d].reaped && s.children[d].verdict == Missing)
  {
    RunDelivers(START, run);
    RunPids(START, run);
    hide Possible, After, Orderly;
    MisleadingStep(After(START, run), e);
  }

  lemma MisleadingStep(s: State, e: Step)
    requires Inv(s) && SystemPids(s) && Enabled(s, e) && Misleads(s, e)
    ensures e.Add? || e.WaitPid?
    ensures e.Add? ==> exists c :: Handles(s.thread, c) && c in s.children && c != e.c &&
                                   s.children[c].reaped && s.children[c].pid == s.children[e.c].pid
    ensures e.WaitPid? ==> exists d :: IsListed(s, d) && s.children[d].pid == s.children[e.c].pid &&
                                       s.children[d].reaped && s.children[d].verdict == Missing
  {
    if e.WaitPid? {
      var d := Overtaker(s.entries, s.children[e.c].pid, e.c);
      assert IsListed(s, d) && s.children[d].pid == s.children[e.c].pid;
      assert ChildOk(d, s.children[d], s.thread);
    } else {
      var c := s.thread.child;
      assert ChildOk(c, s.children[c], s.thread);
      assert Handles(s.thread, c);
    }
  }

  lemma {:induction false} Overtaker(entries: seq<Entry>, pid: Pid, c: ChildId) returns (d: ChildId)
    requires Overtaken(entries, pid, c)
    ensures d != c && Entry(pid, d) in entries
  {
    if entries[0].pid == pid {
      d := entries[0].child;
    } else {
      d := Overtaker(entries[1..], pid, c);
    }
  }

  lemma {:induction false} AfterOneMore(s: State, run: seq<Step>, e: Step)
    requires Possible(s, run) && Enabled(After(s, run), e)
    ensures Possible(s, run + [e]) && After(s, run + [e]) == Next(After(s, run), e)
    decreases |run|
  {
    hide Next, Enabled;
    if run == [] {
      assert run + [e] == [e];
      assert [e][1..] == [];
    } else {
      assert (run + [e])[1..] == run[1..] + [e];
      AfterOneMore(Next(s, run[0]), run[1..], e);
    }
  }

  lemma Go(run: seq<Step>, s: State, e: Step) returns (run': seq<Step>, s': State)
    requires Possible(START, run) && After(START, run) == s && Enabled(s, e)
    ensures Possible(START, run') && After(START, run') == s' == Next(s, e)
  {
    AfterOneMore(START, run, e);
    run', s' := run + [e], Next(s, e);
  }

  lemma StartRun()
    ensures Possible(START, []) && After(START, []) == START
  {}

  lemma OneChildStarted() returns (run: seq<Step>, s: State)
    ensures Possible(START, run) && After(START, run) == s
    ensures s == START.(children := map[0 := Child(7, Running, Told, false, true, NotYet, false, [])],
                        entries := [Entry(7, 0)])
  {
    StartRun();
    hide Possible, After;
    run, s := Go([], START, Fork(0, 7));
    run, s := Go(run, s, Add(0));
    run, s := Go(run, s, Tell(0));
    run, s := Go(run, s, Proceed(0));
  }

  /** A child that runs and exits, up to the point where it is reaped. */
  lemma OneChildReaped() returns (run: seq<Step>, s: State)
    ensures Possible(START, run) && After(START, run) == s && s.thread == Got(0)
    ensures s.children == map[0 := Child(7, Exited(Status(0, false)), Told, true, true, NotYet, false, [])]
    ensures s.entries == [Entry(7, 0)]
  {
    run, s := OneChildStarted();
    hide Possible, After;
    run, s := Go(run, s, Exit(0, 0));
    assert 0 in s.pending;
    run, s := Go(run, s, TakeSignal);
    run, s := Go(run, s, WriteByte(0, true));
    run, s := Go(run, s, ReadByte);
    run, s := Go(run, s, WaitPid(0));
  }

  /** Early reuse does harm: child 0 has been reaped; before the lookup the system gives its pid
      to child 1, which is added in front; and child 1 receives the exit of child 0. */
  lemma EarlyReuse() returns (run: seq<Step>)
    ensures Possible(START, run)
    ensures var s := After(START, run);
            0 in s.children && 1 in s.children && s.children[0].messages == [] &&
            !s.children[1].life.Exited? && s.children[1].messages == [Status(0, false)]
  {
    var s;
    run, s := OneChildReaped();
    hide Possible, After;
    run, s := Go(run, s, Fork(1, 7));
    run, s := Go(run, s, Add(1));
    assert Find(s.entries, 7) == PipeOf(1);
    run, s := Go(run, s, Lookup);
    run, s := Go(run, s, Send(true));
  }

  lemma KilledAndSignalled() returns (run: seq<Step>, s: State)
    ensures Possible(START, run) && After(START, run) == s
    ensures var child := Child(7, Exited(Status(9, true)), Forked, false, false, NotYet, false, []);
            s == START.(children := map[0 := child], pipe := [WakeByte])
  {
    StartRun();
    hide Possible, After;
    run, s := Go([], START, Fork(0, 7));
    run, s := Go(run, s, Kill(0, 9));
    assert 0 in s.pending;
    run, s := Go(run, s, TakeSignal);
    run, s := Go(run, s, WriteByte(0, true));
  }

  /** A child killed before it was added: reaped and not found. */
  lemma KilledEarly() returns (run: seq<Step>, s: State)
    ensures Possible(START, run) && After(START, run) == s
    ensures var child := Child(7, Exited(Status(9, true)), Forked, true, false, Missing, false, []);
            s == START.(children := map[0 := child], thread := Reaping)
  {
    run, s := KilledAndSignalled();
    hide Possible, After;
    run, s := Go(run, s, ReadByte);
    run, s := Go(run, s, WaitPid(0));
    run, s := Go(run, s, Lookup);
  }

  /** Only then is it added, and another child gets its pid. */
  lemma AddedLate() returns (run: seq<Step>, s: State)
    ensures Possible(START, run) && After(START, run) == s
    ensures var first := Child(7, Exited(Status(9, true)), Listed, true, false, Missing, false, []);
            var second := Child(7, Blocked, Forked, false, false, NotYet, false, []);
            s == START.(children := map[0 := first, 1 := second], entries := [Entry(7, 0)], thread := Reaping)
  {
    run, s := KilledEarly();
    hide Possible, After;
    run, s := Go(run, s, Add(0));
    run, s := Go(run, s, Fork(1, 7));
  }

  /** The other way to be misled: the entry of a child that was reaped before it was added is
      left over, and receives the exit of a later child with the same pid. */
  lemma LeftoverEntry() returns (run: seq<Step>)
    ensures Possible(START, run)
    ensures var s := After(START, run);
            0 in s.children && s.children[0].life == Exited(Status(9, true)) &&
                s.children[0].messages == [Status(15, true)]
  {
    var s;
    run, s := AddedLate();
    hide Possible, After;
    run, s := Go(run, s, Kill(1, 15));
    run, s := Go(run, s, WaitPid(1));
    assert Find(s.entries, 7) == PipeOf(0);
    run, s := Go(run, s, Lookup);
    run, s := Go(run, s, Send(true));
  }

  /** Being listed does not help: the entry left over may have been added later, and stand in front. */
  lemma LeftoverInFront() returns (run: seq<Step>)
    ensures Possible(START, run)
    ensures var s := After(START, run);
            IsListed(s, 1) && Enabled(s, WaitPid(1)) && Misleads(s, WaitPid(1))
  {
    var s;
    run, s := KilledEarly();
    hide Possible, After;
    run, s := Go(run, s, Fork(1, 7));
    run, s := Go(run, s, Add(1));
    run, s := Go(run, s, Add(0));
    run, s := Go(run, s, Kill(1, 15));
    assert Find(s.entries, 7) == PipeOf(0);
    FindOwn(s.entries, 7, 1);
  }
}
