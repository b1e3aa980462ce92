/** The Windows monitor (runtime/platform/thread_win) as interleaved steps of any number of
    threads. Waiters form a list linked through per-thread nodes; the lock on the list does not
    protect the link that a thread resets before it queues up again, nor the link that NotifyAll
    reads after it has woken a thread. A timed wait gives up in two steps, and a signal that comes
    in between leaves the thread's event set; everything here holds exactly as long as no thread
    queues up with its event set. */
module WindowsMonitor {
  import opened Options

  type Thread = nat

  /** Where a thread is. Inside: it owns the monitor. Prepared: it has reset its node's link.
      Added: it has queued up and still owns the monitor. Blocked: it waits for its event.
      GivingUp: its wait has timed out, and it has not yet taken itself off the list.
      Woken: it must take the monitor again. Signalling and Signalled: it runs NotifyAll, before
      setting the event of a thread and between that and reading the thread's link. */
  datatype Place =
    | Outside | Inside | Prepared | Added | Blocked | GivingUp | Woken
    | Signalling(current: Option<Thread>) | Signalled(last: Thread)

  /** The list is `head`, `tail` and the links. The ghost part records the list as a sequence,
      the threads that a running NotifyAll still has to signal and those it found waiting, and
      when each thread queued up. */
  datatype State = State(
    owner: Option<Thread>, places: map<Thread, Place>, events: set<Thread>,
    head: Option<Thread>, tail: Option<Thread>, links: map<Thread, Option<Thread>>,
    order: seq<Thread>, remaining: seq<Thread>, targets: set<Thread>,
    clock: nat, arrivals: map<Thread, nat>)

  const START: State := State(None, map[], {}, None, None, map[], [], [], {}, 0, map[])

  datatype Step =
    | Enter(t: Thread) | Exit(t: Thread)
    | Prepare(t: Thread) | Add(t: Thread) | Release(t: Thread) | Wake(t: Thread) | Reenter(t: Thread)
    | Notify(t: Thread)
    | BeginAll(t: Thread) | SignalOne(t: Thread) | Advance(t: Thread) | EndAll(t: Thread)
    | GiveUp(t: Thread) | Remove(t: Thread)
    | UseElsewhere(t: Thread, link: Option<Thread>) | SignalElsewhere(t: Thread) | WakeElsewhere(t: Thread)

  function At(s: State, t: Thread): Place {
    if t in s.places then s.places[t] else Outside
  }

  function Link(links: map<Thread, Option<Thread>>, t: Thread): Option<Thread> {
    if t in links then links[t] else None
  }

  function Move(s: State, t: Thread, p: Place): State {
    s.(places := s.places[t := p])
  }

  predicate Owns(p: Place) {
    p.Inside? || p.Prepared? || p.Added? || p.Signalling? || p.Signalled?
  }

  predicate RunsAll(p: Place) {
    p.Signalling? || p.Signalled?
  }

  /** A thread's node and event serve it in all monitors. It can use another one while it has
      nothing to do with this one, or owns it. */
  predicate MayBeElsewhere(s: State, t: Thread) {
    At(s, t) == Outside || At(s, t) == Inside
  }

  predicate Enabled(s: State, e: Step) {
    match e
    case Enter(t) => At(s, t) == Outside && s.owner == None
    case Exit(t) => At(s, t) == Inside
    case Prepare(t) => At(s, t) == Inside
    case Add(t) => At(s, t) == Prepared
    case Release(t) => At(s, t) == Added
    case Wake(t) => At(s, t) == Blocked && t in s.events
    case Reenter(t) => At(s, t) == Woken && s.owner == None
    case Notify(t) => At(s, t) == Inside
    case BeginAll(t) => At(s, t) == Inside
    case SignalOne(t) => At(s, t).Signalling? && At(s, t).current.Some?
    case Advance(t) => At(s, t).Signalled?
    case EndAll(t) => At(s, t) == Signalling(None)
    case GiveUp(t) => At(s, t) == Blocked && t !in s.events
    case Remove(t) => At(s, t) == GivingUp && (s.owner.Some? ==> !RunsAll(At(s, s.owner.value)))
    case UseElsewhere(t, _) => MayBeElsewhere(s, t)
    case SignalElsewhere(t) => MayBeElsewhere(s, t)
    case WakeElsewhere(t) => MayBeElsewhere(s, t) && t in s.events
  }

  function AddWaiter(s: State, t: Thread): State {
    var s' := if s.tail == None then s.(head := Some(t), tail := Some(t))
              else s.(links := s.links[s.tail.value := Some(t)], tail := Some(t));
    s'.(order := s.order + [t], clock := s.clock + 1, arrivals := s.arrivals[t := s.clock])
  }

  function SignalFirst(s: State): State {
    if s.head == None then s
    else
      var s' := if s.head == s.tail then s.(head := None, tail := None) else s.(head := Link(s.links, s.head.value));
      s'.(events := s.events + {s.head.value}, order := if s.order == [] then [] else s.order[1..])
  }

  function IndexOf(q: seq<Thread>, t: Thread): (i: nat)
    requires t in q
    ensures i < |q| && q[i] == t
  {
    if q[0] == t then 0 else 1 + IndexOf(q[1..], t)
  }

  function Without(q: seq<Thread>, i: nat): seq<Thread>
    requires i < |q|
  {
    q[..i] + q[i + 1..]
  }

  /** What the walk along the list does when it comes to t, if it does. */
  function RemoveWaiter(s: State, t: Thread): State {
    if t !in s.order then s
    else
      var i := IndexOf(s.order, t);
      var s' := if s.head == s.tail then s.(head := None, tail := None)
                else if s.head == Some(t) then s.(head := Link(s.links, t))
                else if i == 0 then s
                else if s.tail == Some(t) then
                  s.(tail := Some(s.order[i - 1]), links := s.links[s.order[i - 1] := None])
                else s.(links := s.links[s.order[i - 1] := Link(s.links, t)]);
      s'.(order := Without(s.order, i))
  }

  function Next(s: State, e: Step): State
    requires Enabled(s, e)
  {
    match e
    case Enter(t) => Move(s, t, Inside).(owner := Some(t))
    case Exit(t) => Move(s, t, Outside).(owner := None)
    case Prepare(t) => Move(s, t, Prepared).(links := s.links[t := None])
    case Add(t) => Move(AddWaiter(s, t), t, Added)
    case Release(t) => Move(s, t, Blocked).(owner := None)
    case Wake(t) => Move(s, t, Woken).(events := s.events - {t})
    case Reenter(t) => Move(s, t, Inside).(owner := Some(t))
    case Notify(t) => SignalFirst(s)
    case BeginAll(t) =>
      Move(s, t, Signalling(s.head)).(head := None, tail := None, remaining := s.order, order := [],
                                      targets := set c | c in s.order)
    case SignalOne(t) =>
      var c := At(s, t).current.value;
      Move(s, t, Signalled(c)).(events := s.events + {c},
                                remaining := if s.remaining == [] then [] else s.remaining[1..])
    case Advance(t) => Move(s, t, Signalling(Link(s.links, At(s, t).last)))
    case EndAll(t) => Move(s, t, Inside).(targets := {})
    case GiveUp(t) => Move(s, t, GivingUp)
    case Remove(t) => Move(RemoveWaiter(s, t), t, Woken)
    case UseElsewhere(t, link) => s.(links := s.links[t := link])
    case SignalElsewhere(t) => Move(s, t, At(s, t)).(events := s.events + {t})
    case WakeElsewhere(t) => Move(s, t, At(s, t)).(events := s.events - {t})
  }

  /** A thread queues up although its event is still set, from a signal that came after its last
      wait, here or in another monitor, had timed out. */
  predicate Stale(s: State, e: Step)
    requires Enabled(s, e)
  {
    e.Add? && e.t in s.events
  }

  // ------------------------------------------------------------------- the invariant

  /** The list that starts at `from` is q, and it ends. */
  ghost predicate Linked(links: map<Thread, Option<Thread>>, from: Option<Thread>, q: seq<Thread>) {
    && from == (if q == [] then None else Some(q[0]))
    && (forall i {:trigger Successor(q, i)} :: 0 <= i < |q| ==> Link(links, q[i]) == Successor(q, i))
  }

  function Successor(q: seq<Thread>, i: nat): Option<Thread> {
    if i + 1 < |q| then Some(q[i + 1]) else None
  }

  predicate NoRepeats(q: seq<Thread>) {
    forall i, j :: 0 <= i < j < |q| ==> q[i] != q[j]
  }

  ghost predicate Shape(links: map<Thread, Option<Thread>>, head: Option<Thread>, tail: Option<Thread>,
          q: seq<Thread>) {
    && Linked(links, head, q) && NoRepeats(q)
    && tail == (if q == [] then None else Some(q[|q| - 1]))
  }

  /** A list in the order in which its threads queued up. */
  ghost predicate InOrder(q: seq<Thread>, arrivals: map<Thread, nat>, clock: nat) {
    && (forall i :: 0 <= i < |q| ==> q[i] in arrivals && arrivals[q[i]] < clock)
    && (forall i, j :: 0 <= i < j < |q| ==> arrivals[q[i]] < arrivals[q[j]])
  }

  /** A thread that has queued up and has not been signalled. */
  predicate Waiting(s: State, t: Thread) {
    (At(s, t) == Added || At(s, t) == Blocked) && t !in s.events
  }

  /** A thread that belongs on the list: not signalled, it waits or has not yet taken itself off. */
  predicate Listable(s: State, t: Thread) {
    (At(s, t) == Added || At(s, t) == Blocked || At(s, t) == GivingUp) && t !in s.events
  }

  ghost predicate OwnerOk(s: State) {
    forall t: Thread :: Owns(At(s, t)) <==> s.owner == Some(t)
  }

  /** The listed threads and those that a running NotifyAll has yet to signal are the ones that
      belong on the list. */
  ghost predicate WaitersOk(s: State) {
    && (forall t: Thread :: Listable(s, t) <==> t in s.order || t in s.remaining)
    && (forall t: Thread :: At(s, t) == Added ==> t !in s.events)
    && (forall t: Thread :: At(s, t) == Prepared ==> Link(s.links, t) == None)
  }

  /** A thread whose event is set, or that has consumed it and wants the monitor back. */
  predicate Released(s: State, t: Thread) {
    ((At(s, t) == Blocked || At(s, t) == GivingUp) && t in s.events) || At(s, t) == Woken
  }

  ghost predicate TargetsOk(s: State) {
    forall t :: t in s.targets ==> t in s.remaining || Released(s, t)
  }

  /** While NotifyAll runs, the list is empty, what remains hangs on the current thread or on
      the link of the one just signalled, and every target is still to be signalled or already
      is. Otherwise nothing remains. */
  ghost predicate AllOk(s: State) {
    && NoRepeats(s.remaining)
    && (forall t :: t in s.remaining ==> t in s.targets)
    && (if s.owner.Some? && RunsAll(At(s, s.owner.value))
        then s.order == [] && Traversing(s, At(s, s.owner.value))
        else s.remaining == [] && s.targets == {})
  }

  ghost predicate Traversing(s: State, p: Place)
    requires RunsAll(p)
  {
    match p
    case Signalling(current) => Linked(s.links, current, s.remaining)
    case Signalled(last) =>
      Linked(s.links, Link(s.links, last), s.remaining) && last in s.targets && last !in s.remaining
  }

  ghost predicate Inv(s: State) {
    && OwnerOk(s) && WaitersOk(s) && TargetsOk(s) && AllOk(s)
    && Shape(s.links, s.head, s.tail, s.order) && InOrder(s.order, s.arrivals, s.clock)
  }

  lemma StartInv()
    ensures Inv(START)
  {}

  // -------------------------------------------------------------------- lists of links

  lemma LinkedElsewhere(links: map<Thread, Option<Thread>>, from: Option<Thread>, q: seq<Thread>, t: Thread,
          l: Option<Thread>)
    requires Linked(links, from, q) && t !in q
    ensures Linked(links[t := l], from, q)
  {}

  lemma ShapeAdd(links: map<Thread, Option<Thread>>, head: Option<Thread>, tail: Option<Thread>, q: seq<Thread>,
          t: Thread)
    requires Shape(links, head, tail, q) && t !in q && Link(links, t) == None
    ensures tail == None ==> Shape(links, Some(t), Some(t), q + [t])
    ensures tail.Some? ==> Shape(links[tail.value := Some(t)], head, Some(t), q + [t])
  {
    if tail.Some? {
      var links', q' := links[tail.value := Some(t)], q + [t];
      forall i | 0 <= i < |q'| ensures Link(links', q'[i]) == Successor(q', i) {
        assert i < |q| ==> Link(links, q[i]) == Successor(q, i);
        assert i < |q| - 1 ==> q[i] != q[|q| - 1];
      }
    }
  }

  lemma ShapeRest(links: map<Thread, Option<Thread>>, head: Option<Thread>, tail: Option<Thread>, q: seq<Thread>)
    requires Shape(links, head, tail, q) && q != []
    ensures head == Some(q[0]) && (head == tail <==> |q| == 1)
    ensures Linked(links, Link(links, q[0]), q[1..]) && NoRepeats(q[1..]) && q[0] !in q[1..]
    ensures if head == tail then Shape(links, None, None, q[1..]) else Shape(links, Link(links, q[0]), tail, q[1..])
  {
    assert |q| > 1 ==> q[0] != q[|q| - 1];
    assert Link(links, q[0]) == Successor(q, 0);
    forall i | 0 <= i < |q[1..]| ensures Link(links, q[1..][i]) == Successor(q[1..], i) {
      assert Link(links, q[i + 1]) == Successor(q, i + 1);
    }
  }

  lemma LinkedRest(links: map<Thread, Option<Thread>>, from: Option<Thread>, q: seq<Thread>)
    requires Linked(links, from, q) && from.Some? && NoRepeats(q)
    ensures q != [] && from == Some(q[0])
    ensures Linked(links, Link(links, q[0]), q[1..]) && NoRepeats(q[1..]) && q[0] !in q[1..]
  {
    assert Shape(links, from, Some(q[|q| - 1]), q);
    ShapeRest(links, from, Some(q[|q| - 1]), q);
  }

  lemma InOrderAdd(q: seq<Thread>, arrivals: map<Thread, nat>, clock: nat, t: Thread)
    requires InOrder(q, arrivals, clock) && t !in q
    ensures InOrder(q + [t], arrivals[t := clock], clock + 1)
  {}

  // ------------------------------------------------------- every step keeps the invariant

  lemma OwnerStays(s: State, e: Step)
    requires OwnerOk(s) && Enabled(s, e)
    ensures OwnerOk(Next(s, e))
  {
    hide RemoveWaiter;
    if e.Remove? { RemoveFrame(s, e.t); }
  }

  /** A thread moves; the list, the traversal and who waits stay as they are. */
  lemma QuietStep(s: State, s': State, t: Thread)
    requires Inv(s) && OwnerOk(s')
    requires s' == s.(owner := s'.owner, places := s.places[t := At(s', t)], events := s'.events)
    requires t in s'.places && !RunsAll(At(s, t)) && !RunsAll(At(s', t))
    requires forall c: Thread :: c != t ==> (c in s.events <==> c in s'.events)
    requires Listable(s, t) <==> Listable(s', t)
    requires Released(s, t) && !Owns(At(s', t)) ==> Released(s', t)
    requires At(s', t) == Added ==> t !in s'.events
    requires At(s', t) == Prepared ==> Link(s'.links, t) == None
    ensures Inv(s')
  {
    hide Linked, Shape, InOrder, NoRepeats;
    forall c: Thread | c != t
      ensures At(s', c) == At(s, c) && Listable(s', c) == Listable(s, c) && Released(s', c) == Released(s, c)
    {}
  }

  /** A thread that does not wait resets its link. */
  lemma LinkStep(s: State, t: Thread, l: Option<Thread>)
    requires Inv(s) && (At(s, t) == Inside || At(s, t) == Outside)
    ensures Inv(s.(links := s.links[t := l]))
  {
    assert !Listable(s, t) && !Released(s, t);
    var s' := s.(links := s.links[t := l]);
    LinkedElsewhere(s.links, s.head, s.order, t, l);
    if s.owner.Some? && RunsAll(At(s, s.owner.value)) {
      match At(s, s.owner.value) {
        case Signalling(current) => LinkedElsewhere(s.links, current, s.remaining, t, l);
        case Signalled(last) =>
          assert Released(s, last) && last != t;
          LinkedElsewhere(s.links, Link(s.links, last), s.remaining, t, l);
      }
    }
    hide Linked, InOrder, NoRepeats;
    forall c: Thread
      ensures At(s', c) == At(s, c) && Listable(s', c) == Listable(s, c) && Released(s', c) == Released(s, c)
    {}
  }

  lemma AddInv(s: State, t: Thread)
    requires Inv(s) && At(s, t) == Prepared && t !in s.events
    ensures Inv(Next(s, Add(t)))
  {
    OwnerStays(s, Add(t));
    var s' := Next(s, Add(t));
    assert s.owner == Some(t) && s.remaining == [] && s.targets == {};
    assert !Listable(s, t);
    ShapeAdd(s.links, s.head, s.tail, s.order, t);
    InOrderAdd(s.order, s.arrivals, s.clock, t);
    hide Linked, Shape, InOrder, NoRepeats, OwnerOk;
    assert forall c: Thread :: c != t ==> At(s', c) == At(s, c);
  }

  lemma NotifyInv(s: State, t: Thread)
    requires Inv(s) && At(s, t) == Inside
    ensures Inv(Next(s, Notify(t)))
  {
    OwnerStays(s, Notify(t));
    if s.order != [] {
      ShapeRest(s.links, s.head, s.tail, s.order);
      OrderIsBlocked(s, t, s.order[0]);
      InOrderRest(s.order, s.arrivals, s.clock);
      hide Linked, Shape, InOrder, NoRepeats, OwnerOk;
      var s' := Next(s, Notify(t));
      assert forall c: Thread :: At(s', c) == At(s, c);
      assert forall c: Thread :: c in s.order <==> c == s.order[0] || c in s.order[1..];
    }
  }

  lemma InOrderRest(q: seq<Thread>, arrivals: map<Thread, nat>, clock: nat)
    requires InOrder(q, arrivals, clock) && q != []
    ensures InOrder(q[1..], arrivals, clock)
  {}

  lemma OrderIsBlocked(s: State, t: Thread, c: Thread)
    requires OwnerOk(s) && WaitersOk(s) && c in s.order && Owns(At(s, t)) && At(s, t) != Added
    ensures (At(s, c) == Blocked || At(s, c) == GivingUp) && c !in s.events && c != t
  {
    assert Listable(s, c);
  }

  lemma BeginAllInv(s: State, t: Thread)
    requires Inv(s) && At(s, t) == Inside
    ensures Inv(Next(s, BeginAll(t)))
  {
    OwnerStays(s, BeginAll(t));
    var s' := Next(s, BeginAll(t));
    forall c | c in s.order ensures c != t { OrderIsBlocked(s, t, c); }
    hide Linked, InOrder, NoRepeats, OwnerOk;
    assert forall c: Thread :: c != t ==> At(s', c) == At(s, c);
  }

  lemma SignalOneInv(s: State, t: Thread)
    requires Inv(s) && Enabled(s, SignalOne(t))
    ensures Inv(Next(s, SignalOne(t)))
  {
    OwnerStays(s, SignalOne(t));
    var s' := Next(s, SignalOne(t));
    LinkedRest(s.links, At(s, t).current, s.remaining);
    assert Listable(s, s.remaining[0]);
    hide Linked, Shape, InOrder, NoRepeats, OwnerOk;
    assert forall c: Thread :: c != t ==> At(s', c) == At(s, c);
    assert forall c: Thread :: c in s.remaining <==> c == s.remaining[0] || c in s.remaining[1..];
  }

  lemma AdvanceInv(s: State, t: Thread)
    requires Inv(s) && Enabled(s, Advance(t))
    ensures Inv(Next(s, Advance(t)))
  {
    OwnerStays(s, Advance(t));
    var s' := Next(s, Advance(t));
    hide Linked, Shape, InOrder, NoRepeats, OwnerOk;
    assert forall c: Thread :: c != t ==> At(s', c) == At(s, c);
  }

  lemma EndAllInv(s: State, t: Thread)
    requires Inv(s) && Enabled(s, EndAll(t))
    ensures Inv(Next(s, EndAll(t)))
  {
    OwnerStays(s, EndAll(t));
    var s' := Next(s, EndAll(t));
    hide Shape, InOrder, OwnerOk;
    assert s.remaining == [];
    assert forall c: Thread :: c != t ==> At(s', c) == At(s, c);
  }

  lemma LinkedWithout(links: map<Thread, Option<Thread>>, q: seq<Thread>, i: nat)
    requires 0 < i < |q| && Linked(links, Some(q[0]), q) && NoRepeats(q)
    ensures Linked(links[q[i - 1] := Link(links, q[i])], Some(q[0]), Without(q, i))
  {
    var q', links' := Without(q, i), links[q[i - 1] := Link(links, q[i])];
    assert Link(links, q[i]) == Successor(q, i);
    forall k | 0 <= k < |q'| ensures Link(links', q'[k]) == Successor(q', k) {
      var k0 := if k < i then k else k + 1;
      assert q'[k] == q[k0] && Link(links, q[k0]) == Successor(q, k0);
      assert k0 != i - 1 ==> q[k0] != q[i - 1];
    }
  }

  lemma NoRepeatsWithout(q: seq<Thread>, i: nat)
    requires NoRepeats(q) && i < |q|
    ensures NoRepeats(Without(q, i))
  {}

  lemma ShapeRemove(links: map<Thread, Option<Thread>>, head: Option<Thread>, tail: Option<Thread>, q: seq<Thread>,
          i: nat)
    requires Shape(links, head, tail, q) && 0 < i < |q|
    ensures head != tail && head != Some(q[i]) && (tail == Some(q[i]) <==> i == |q| - 1)
    ensures i == |q| - 1 ==> Shape(links[q[i - 1] := None], head, Some(q[i - 1]), Without(q, i))
    ensures i < |q| - 1 ==> Shape(links[q[i - 1] := Link(links, q[i])], head, tail, Without(q, i))
  {
    assert q[0] != q[i] && q[0] != q[|q| - 1];
    assert Link(links, q[i]) == Successor(q, i);
    LinkedWithout(links, q, i);
    NoRepeatsWithout(q, i);
    assert i < |q| - 1 ==> q[i] != q[|q| - 1];
    hide Linked, NoRepeats;
    assert i == |q| - 1 ==> Without(q, i)[|q| - 2] == q[i - 1];
    assert i < |q| - 1 ==> Without(q, i)[|q| - 2] == q[|q| - 1];
  }

  lemma WithoutFacts(q: seq<Thread>, i: nat, arrivals: map<Thread, nat>, clock: nat)
    requires i < |q| && NoRepeats(q) && InOrder(q, arrivals, clock)
    ensures InOrder(Without(q, i), arrivals, clock)
    ensures forall c: Thread :: c in Without(q, i) <==> c in q && c != q[i]
  {
    var q' := Without(q, i);
    assert forall k :: 0 <= k < |q'| ==> q'[k] == q[if k < i then k else k + 1];
    forall c: Thread | c in q && c != q[i] ensures c in q' {
      var k :| 0 <= k < |q| && q[k] == c;
      assert q'[if k < i then k else k - 1] == c;
    }
  }

  /** Only the list changes, and only the links of listed threads. */
  lemma RemoveFrame(s: State, t: Thread)
    ensures var s' := RemoveWaiter(s, t);
            s' == s.(head := s'.head, tail := s'.tail, links := s'.links, order := s'.order)
    ensures forall c: Thread :: c !in s.order ==> Link(RemoveWaiter(s, t).links, c) == Link(s.links, c)
    ensures t in s.order ==> RemoveWaiter(s, t).order == Without(s.order, IndexOf(s.order, t))
  {
    hide Without, IndexOf;
  }

  lemma WithoutFirst(q: seq<Thread>)
    requires q != []
    ensures Without(q, 0) == q[1..]
  {}

  lemma RemoveShape(s: State, t: Thread)
    requires Shape(s.links, s.head, s.tail, s.order) && t in s.order
    ensures var s' := RemoveWaiter(s, t); Shape(s'.links, s'.head, s'.tail, s'.order)
  {
    var i, s' := IndexOf(s.order, t), RemoveWaiter(s, t);
    ShapeRest(s.links, s.head, s.tail, s.order);
    if i == 0 {
      WithoutFirst(s.order);
      hide Shape, Linked, NoRepeats, Without, IndexOf;
      assert s'.order == s.order[1..];
    } else {
      ShapeRemove(s.links, s.head, s.tail, s.order, i);
      hide Shape, Linked, NoRepeats, Without, IndexOf;
      assert s'.order == Without(s.order, i);
    }
  }

  lemma RemoveListed(s: State, t: Thread)
    requires Inv(s) && Enabled(s, Remove(t)) && t in s.order
    ensures Inv(Next(s, Remove(t)))
  {
    OwnerStays(s, Remove(t));
    assert s.remaining == [] && s.targets == {};
    RemoveShape(s, t);
    RemoveFrame(s, t);
    WithoutFacts(s.order, IndexOf(s.order, t), s.arrivals, s.clock);
    RemoveWaiters(s, t, RemoveWaiter(s, t));
    hide Linked, Shape, InOrder, NoRepeats, OwnerOk, WaitersOk, RemoveWaiter, Without, IndexOf;
  }

  /** A thread that was signalled after all is no longer on the list. */
  lemma RemoveUnlisted(s: State, t: Thread)
    requires Inv(s) && Enabled(s, Remove(t)) && t !in s.order
    ensures Inv(Next(s, Remove(t)))
  {
    OwnerStays(s, Remove(t));
    NotListed(s, t);
    assert s.remaining == [] && !Listable(s, t);
    hide Inv, RemoveWaiter, OwnerOk;
    QuietStep(s, Next(s, Remove(t)), t);
  }

  lemma RemoveInv(s: State, t: Thread)
    requires Inv(s) && Enabled(s, Remove(t))
    ensures Inv(Next(s, Remove(t)))
  {
    hide Inv;
    if t in s.order { RemoveListed(s, t); } else { RemoveUnlisted(s, t); }
  }

  lemma RemoveWaiters(s: State, t: Thread, r: State)
    requires WaitersOk(s) && s.remaining == [] && At(s, t) == GivingUp
    requires r == s.(head := r.head, tail := r.tail, links := r.links, order := r.order)
    requires forall c: Thread :: c in r.order <==> c in s.order && c != t
    requires forall c: Thread :: c !in s.order ==> Link(r.links, c) == Link(s.links, c)
    ensures WaitersOk(Move(r, t, Woken))
  {
    var s' := Move(r, t, Woken);
    assert forall c: Thread :: c != t ==> At(s', c) == At(s, c) && (Listable(s', c) <==> Listable(s, c));
    forall c: Thread | At(s', c) == Prepared ensures Link(s'.links, c) == None {
      assert !Listable(s, c);
    }
  }

  /** Every step keeps the invariant, exactly unless a thread queues up with its event set. */
  lemma NextInv(s: State, e: Step)
    requires Inv(s) && Enabled(s, e)
    ensures Inv(Next(s, e)) <==> !Stale(s, e)
  {
    if Stale(s, e) {
      StaleBreaks(s, e);
    } else {
      CleanStep(s, e);
    }
  }

  /** The list itself: it ends, and holds exactly the threads that belong on it, each once, in the
      order in which they queued up. While NotifyAll runs there is none. */
  ghost predicate ListRight(s: State) {
    (s.owner == None || !RunsAll(At(s, s.owner.value))) ==>
      && Linked(s.links, s.head, s.order) && NoRepeats(s.order)
      && (forall t: Thread :: t in s.order <==> Listable(s, t))
      && InOrder(s.order, s.arrivals, s.clock)
  }

  lemma InvIsRight(s: State)
    requires Inv(s)
    ensures ListRight(s)
  {
    hide Linked, InOrder, NoRepeats;
  }

  lemma StaleBreaks(s: State, e: Step)
    requires Inv(s) && Enabled(s, e) && Stale(s, e)
    ensures !ListRight(Next(s, e)) && !Inv(Next(s, e))
  {
    var s' := Next(s, e);
    assert e.t in s'.order && !Listable(s', e.t) && s'.owner == Some(e.t) && !RunsAll(At(s', e.t));
    hide Linked, InOrder, NoRepeats;
    if Inv(s') { InvIsRight(s'); }
  }

  lemma CleanStep(s: State, e: Step)
    requires Inv(s) && Enabled(s, e) && !Stale(s, e)
    ensures Inv(Next(s, e))
  {
    OwnerStays(s, e);
    match e {
      case Add(t) => AddInv(s, t);
      case Notify(t) => NotifyInv(s, t);
      case BeginAll(t) => BeginAllInv(s, t);
      case SignalOne(t) => SignalOneInv(s, t);
      case Advance(t) => AdvanceInv(s, t);
      case EndAll(t) => EndAllInv(s, t);
      case Prepare(t) => PrepareInv(s, t);
      case Remove(t) => RemoveInv(s, t);
      case UseElsewhere(t, l) => LinkStep(s, t, l);
      case _ =>
        hide Inv;
        MoveInv(s, e);
    }
  }

  /** Steps that only move a thread, and may set or consume its own event. */
  lemma MoveInv(s: State, e: Step)
    requires Inv(s) && Enabled(s, e) && OwnerOk(Next(s, e))
    requires e.Enter? || e.Exit? || e.Release? || e.Wake? || e.Reenter? || e.GiveUp? || e.SignalElsewhere? ||
             e.WakeElsewhere?
    ensures Inv(Next(s, e))
  {
    hide Inv, AddWaiter, SignalFirst, RemoveWaiter, OwnerOk;
    var s' := Next(s, e);
    assert s' == s.(owner := s'.owner, places := s.places[e.t := At(s', e.t)], events := s'.events);
    assert e.Release? ==> e.t !in s.events by { ReleaseFresh(s, e.t); }
    QuietStep(s, s', e.t);
  }

  lemma ReleaseFresh(s: State, t: Thread)
    requires Inv(s)
    ensures At(s, t) == Added ==> t !in s.events
  {}

  lemma PrepareInv(s: State, t: Thread)
    requires Inv(s) && At(s, t) == Inside
    ensures Inv(Next(s, Prepare(t)))
  {
    OwnerStays(s, Prepare(t));
    LinkStep(s, t, None);
    QuietStep(s.(links := s.links[t := None]), Next(s, Prepare(t)), t);
  }

  // ---------------------------------------------------------------------- whole runs

  predicate Possible(s: State, run: seq<Step>)
    decreases |run|
  {
    run == [] || (Enabled(s, run[0]) && Possible(Next(s, run[0]), run[1..]))
  }

  function After(s: State, run: seq<Step>): State
    requires Possible(s, run)
    decreases |run|
  {
    if run == [] then s else After(Next(s, run[0]), run[1..])
  }

  /** In the run no thread queues up with its event set. */
  predicate Fresh(s: State, run: seq<Step>)
    requires Possible(s, run)
    decreases |run|
  {
    run != [] ==> !Stale(s, run[0]) && Fresh(Next(s, run[0]), run[1..])
  }

  ghost predicate Throughout(s: State, run: seq<Step>)
    requires Possible(s, run)
    decreases |run|
  {
    ListRight(s) && (run != [] ==> Throughout(Next(s, run[0]), run[1..]))
  }

  /** The list is right in every state of a run exactly if no thread queues up with its event
      set, whatever signals come late. */
  lemma {:induction false} RunInv(s: State, run: seq<Step>)
    requires Inv(s) && Possible(s, run)
    ensures Throughout(s, run) <==> Fresh(s, run)
    ensures Fresh(s, run) ==> Inv(After(s, run))
    decreases |run|
  {
    hide Inv, Next, Enabled, Stale, ListRight;
    InvIsRight(s);
    if run != [] {
      NextInv(s, run[0]);
      if !Stale(s, run[0]) {
        RunInv(Next(s, run[0]), run[1..]);
      } else {
        StaleBreaks(s, run[0]);
        assert !Throughout(Next(s, run[0]), run[1..]);
      }
    }
  }

  lemma Reached(run: seq<Step>)
    requires Possible(START, run) && Fresh(START, run)
    ensures Inv(After(START, run))
  {
    StartInv();
    RunInv(START, run);
  }

  /** Nobody has given up, and an event is set only for a thread that is blocked. */
  ghost predicate Untimed(s: State) {
    && (forall t: Thread :: At(s, t) != GivingUp)
    && (forall t :: t in s.events ==> At(s, t) == Blocked)
  }

  /** A step that can leave an event set behind: a timed wait gives up, or a wait in another
      monitor is signalled. */
  predicate LeavesEvents(e: Step) {
    e.GiveUp? || e.SignalElsewhere?
  }

  /** With untimed waits in this monitor only, no thread queues up with its event set. */
  lemma {:induction false} UntimedIsFresh(s: State, run: seq<Step>)
    requires Possible(s, run) && Inv(s) && Untimed(s) && forall i :: 0 <= i < |run| ==> !LeavesEvents(run[i])
    ensures Fresh(s, run) && Untimed(After(s, run))
    decreases |run|
  {
    hide Inv, Untimed;
    if run != [] {
      UntimedStep(s, run[0]);
      NextInv(s, run[0]);
      UntimedIsFresh(Next(s, run[0]), run[1..]);
    }
  }

  lemma UntimedStep(s: State, e: Step)
    requires Inv(s) && Enabled(s, e) && Untimed(s) && !LeavesEvents(e)
    ensures !Stale(s, e) && Untimed(Next(s, e))
  {
    OthersStay(s, e);
    UntimedEvents(s, e);
    OwnPlace(s, e);
    hide Next, Inv;
  }

  lemma OwnPlace(s: State, e: Step)
    requires Enabled(s, e) && Untimed(s) && !LeavesEvents(e)
    ensures At(Next(s, e), e.t) != GivingUp
    ensures e.t in s.events ==> e.Wake?
  {
    hide AddWaiter, SignalFirst, RemoveWaiter;
    AddFrame(s, e.t);
  }

  /** A step signals only a listed thread. */
  lemma UntimedEvents(s: State, e: Step)
    requires Inv(s) && Enabled(s, e) && Untimed(s) && !LeavesEvents(e)
    ensures forall c :: c in Next(s, e).events && c !in s.events ==> At(s, c) == Blocked && c != e.t
    ensures e.Wake? ==> e.t !in Next(s, e).events
  {
    match e {
      case Notify(t) => NotifySignals(s, t);
      case SignalOne(t) => SignalOneSignals(s, t);
      case Remove(t) =>
        hide Inv;
        RemoveFrame(s, t);
      case _ =>
        hide Inv, AddWaiter, SignalFirst, RemoveWaiter;
        AddEvents(s, e.t);
    }
  }

  lemma NotifySignals(s: State, t: Thread)
    requires Inv(s) && At(s, t) == Inside && Untimed(s)
    ensures forall c :: c in Next(s, Notify(t)).events && c !in s.events ==> At(s, c) == Blocked && c != t
  {
    LinkedHead(s.links, s.head, s.order);
    if s.order != [] { OrderIsBlocked(s, t, s.order[0]); }
    hide Inv;
  }

  lemma SignalOneSignals(s: State, t: Thread)
    requires Inv(s) && Enabled(s, SignalOne(t)) && Untimed(s)
    ensures forall c :: c in Next(s, SignalOne(t)).events && c !in s.events ==> At(s, c) == Blocked && c != t
  {
    assert s.owner == Some(t);
    TraversalFinds(s, t);
    hide Inv;
  }

  lemma AddEvents(s: State, t: Thread)
    ensures AddWaiter(s, t).events == s.events
  {}

  lemma OthersStay(s: State, e: Step)
    requires Enabled(s, e)
    ensures forall c: Thread :: c != e.t ==> At(Next(s, e), c) == At(s, c)
  {
    hide AddWaiter, SignalFirst, RemoveWaiter;
    AddFrame(s, e.t);
    RemoveFrame(s, e.t);
  }

  lemma AddFrame(s: State, t: Thread)
    ensures AddWaiter(s, t).places == s.places && SignalFirst(s).places == s.places
  {}

  /** Nobody on the list has been there longer than t. */
  ghost predicate Oldest(s: State, t: Thread) {
    && Listable(s, t) && t in s.arrivals
    && forall c :: Listable(s, c) ==> c in s.arrivals && s.arrivals[t] <= s.arrivals[c]
  }

  /** While no NotifyAll runs, the list that starts at the head ends, visits exactly the threads
      that wait and are not signalled, and those just giving up, each once, and is sorted by the
      time of queueing up. */
  lemma ListIsWaiting(run: seq<Step>)
    requires Possible(START, run) && Fresh(START, run)
    ensures ListRight(After(START, run))
    ensures var s := After(START, run);
            forall t: Thread :: Listable(s, t) <==> Waiting(s, t) || (At(s, t) == GivingUp && t !in s.events)
  {
    Reached(run);
    InvIsRight(After(START, run));
  }

  /** Notify signals the thread that has been on the list longest, if there is one, and nobody
      else. */
  lemma NotifyWakesOldest(run: seq<Step>, t: Thread)
    requires Possible(START, run) && Fresh(START, run) && Enabled(After(START, run), Notify(t))
    ensures var s := After(START, run); var s' := Next(s, Notify(t));
            && ((forall c: Thread :: !Listable(s, c)) ==> s' == s)
            && (forall c: Thread :: Listable(s, c) ==> s.head.Some? && Oldest(s, s.head.value))
            && (forall c: Thread :: Oldest(s, c) ==> s.head == Some(c) && s'.events == s.events + {c})
            && (forall c: Thread :: Listable(s', c) <==> Listable(s, c) && !Oldest(s, c))
  {
    Reached(run);
    assert Next(After(START, run), Notify(t)) == SignalFirst(After(START, run));
    hide Inv, Oldest, Possible, After, Fresh, Listable, SignalFirst;
    FirstIsSignalled(After(START, run), t);
  }

  lemma FirstIsSignalled(s: State, t: Thread)
    requires Inv(s) && At(s, t) == Inside
    ensures (forall c: Thread :: !Listable(s, c)) ==> SignalFirst(s) == s
    ensures forall c: Thread :: Listable(s, c) ==> s.head.Some? && Oldest(s, s.head.value)
    ensures forall c: Thread :: Oldest(s, c) ==> s.head == Some(c) && SignalFirst(s).events == s.events + {c}
    ensures forall c: Thread :: Listable(SignalFirst(s), c) <==> Listable(s, c) && !Oldest(s, c)
  {
    hide Inv, Oldest, Listable, SignalFirst;
    FirstIsOldest(s, t);
    SignalFirstIs(s);
    if s.order != [] {
      assert s.order[0] in s.order && Oldest(s, s.order[0]) && Listable(s, s.order[0]);
    }
  }

  lemma SignalFirstIs(s: State)
    requires s.head == if s.order == [] then None else Some(s.order[0])
    ensures s.order == [] ==> SignalFirst(s) == s
    ensures s.order != [] ==> SignalFirst(s).events == s.events + {s.order[0]}
    ensures forall c: Thread :: Listable(SignalFirst(s), c) <==> Listable(s, c) && (s.order != [] ==> c != s.order[0])
  {
    var s' := SignalFirst(s);
    assert s'.places == s.places;
    assert forall c: Thread :: At(s', c) == At(s, c);
  }

  lemma FirstIsOldest(s: State, t: Thread)
    requires Inv(s) && At(s, t) == Inside
    ensures forall c: Thread :: Listable(s, c) <==> c in s.order
    ensures s.head == (if s.order == [] then None else Some(s.order[0]))
    ensures forall c: Thread :: Oldest(s, c) <==> s.order != [] && c == s.order[0]
  {
    assert s.owner == Some(t) && s.remaining == [];
    if s.order != [] {
      var first := s.order[0];
      assert Listable(s, first);
      hide OwnerOk, TargetsOk, AllOk, Linked, NoRepeats;
      forall c: Thread | Listable(s, c) ensures c in s.arrivals && (c == first || s.arrivals[first] < s.arrivals[c]) {
        var i :| 0 <= i < |s.order| && s.order[i] == c;
      }
    }
  }

  /** NotifyAll, even though woken threads run while it goes through the list: when it ends,
      every thread that it found has been signalled and nobody is left to be woken; and it never
      sets the event of a thread it did not find. */
  lemma NotifyAllWakesAll(run: seq<Step>, t: Thread)
    requires Possible(START, run) && Fresh(START, run)
    ensures var s := After(START, run);
            && (Enabled(s, BeginAll(t)) ==> forall c: Thread :: c in Next(s, BeginAll(t)).targets <==> Listable(s, c))
            && (Enabled(s, SignalOne(t)) ==> At(s, t).current.value in s.targets && Listable(s, At(s, t).current.value))
            && (Enabled(s, EndAll(t)) ==>
                  (forall c :: c in s.targets ==> Released(s, c)) && forall c: Thread :: !Listable(s, c))
  {
    Reached(run);
    TraversalFinds(After(START, run), t);
    hide Inv, Possible, After, Fresh;
  }

  lemma TraversalFinds(s: State, t: Thread)
    requires Inv(s)
    ensures Enabled(s, BeginAll(t)) ==> forall c: Thread :: c in s.order <==> Listable(s, c)
    ensures Enabled(s, SignalOne(t)) ==> At(s, t).current.value in s.targets && Listable(s, At(s, t).current.value)
    ensures Enabled(s, EndAll(t)) ==>
              (forall c :: c in s.targets ==> Released(s, c)) && forall c: Thread :: !Listable(s, c)
  {
    assert Owns(At(s, t)) ==> s.owner == Some(t);
    hide Shape, InOrder;
  }

  // ----------------------------------------------------------------- no missed wake-up

  ghost predicate WaitsThroughout(s: State, run: seq<Step>, w: Thread)
    requires Possible(s, run)
    decreases |run|
  {
    Waiting(s, w) && (run != [] ==> WaitsThroughout(Next(s, run[0]), run[1..], w))
  }

  function Notifies(run: seq<Step>): nat {
    if run == [] then 0 else (if run[0].Notify? then 1 else 0) + Notifies(run[1..])
  }

  predicate FinishesAll(run: seq<Step>) {
    exists i :: 0 <= i < |run| && run[i].EndAll?
  }

  /** A step during which w keeps its k-th place, moves forward, or is taken over by NotifyAll. */
  ghost predicate Keeps(s: State, w: Thread, k: nat) {
    w in s.remaining || (exists i :: 0 <= i <= k && i < |s.order| && s.order[i] == w)
  }

  lemma WaitTakenOver(s: State, e: Step, w: Thread)
    requires Inv(s) && Enabled(s, e) && Waiting(s, w) && Waiting(Next(s, e), w) && w in s.remaining
    ensures !e.EndAll? && !e.Notify? && w in Next(s, e).remaining
  {
    assert Owns(At(s, e.t)) ==> s.owner == Some(e.t);
    hide InOrder, NoRepeats, RemoveWaiter, Shape;
    if e.Remove? { RemoveFrame(s, e.t); }
    if e.SignalOne? { LinkedHead(s.links, At(s, e.t).current, s.remaining); }
  }

  lemma LinkedHead(links: map<Thread, Option<Thread>>, from: Option<Thread>, q: seq<Thread>)
    requires Linked(links, from, q)
    ensures from == if q == [] then None else Some(q[0])
  {}

  lemma WaitListed(s: State, e: Step, w: Thread, k: nat)
    requires Inv(s) && Enabled(s, e) && Waiting(s, w) && Waiting(Next(s, e), w) && k < |s.order| && s.order[k] == w
    ensures !e.EndAll?
    ensures e.Notify? ==> k > 0 && k - 1 < |Next(s, e).order| && Next(s, e).order[k - 1] == w
    ensures !e.Notify? ==> Keeps(Next(s, e), w, k)
  {
    assert Owns(At(s, e.t)) ==> s.owner == Some(e.t);
    hide InOrder, NoRepeats, RemoveWaiter, TargetsOk, WaitersOk, Traversing;
    var s' := Next(s, e);
    match e {
      case Remove(t) =>
        RemoveFrame(s, t);
        if t in s.order {
          var i := IndexOf(s.order, t);
          assert i != k;
          assert s'.order[if k < i then k else k - 1] == w;
        }
      case Add(t) => assert s'.order[k] == w;
      case BeginAll(t) => assert w in s'.remaining;
      case Notify(t) =>
        LinkedHead(s.links, s.head, s.order);
        assert k > 0;
        assert s'.order[k - 1] == w;
      case _ => assert s'.order == s.order ==> s'.order[k] == w;
    }
  }

  /** No wake-up is missed: from the moment a thread has queued up behind k others, it waits
      through at most k calls of Notify and through no complete NotifyAll. */
  lemma {:induction false} NotMissed(s: State, run: seq<Step>, w: Thread, k: nat)
    requires Inv(s) && Possible(s, run) && Fresh(s, run) && WaitsThroughout(s, run, w)
    requires w in s.remaining || (k < |s.order| && s.order[k] == w)
    ensures Notifies(run) <= (if w in s.remaining then 0 else k)
    ensures !FinishesAll(run)
    decreases |run|
  {
    hide Inv, Next, Enabled, Waiting, Stale;
    if run != [] {
      var s' := Next(s, run[0]);
      NextInv(s, run[0]);
      if w in s.remaining {
        WaitTakenOver(s, run[0], w);
        NotMissed(s', run[1..], w, k);
      } else {
        WaitListed(s, run[0], w, k);
        if run[0].Notify? {
          NotMissed(s', run[1..], w, k - 1);
        } else if w in s'.remaining {
          NotMissed(s', run[1..], w, k);
        } else {
          var i :| 0 <= i <= k && i < |s'.order| && s'.order[i] == w;
          NotMissed(s', run[1..], w, i);
        }
      }
    }
  }

  // ------------------------------------------------------------- when a signal is late

  lemma {:induction false} AfterOneMore(s: State, run: seq<Step>, e: Step)
    requires Possible(s, run) && Enabled(After(s, run), e)
    ensures Possible(s, run + [e]) && After(s, run + [e]) == Next(After(s, run), e)
    decreases |run|
  {
    hide Next, Enabled;
    if run == [] {
      assert run + [e] == [e];
      assert [e][1..] == [];
    } else {
      assert (run + [e])[1..] == run[1..] + [e];
      AfterOneMore(Next(s, run[0]), run[1..], e);
    }
  }

  lemma Go(run: seq<Step>, s: State, e: Step) returns (run': seq<Step>, s': State)
    requires Possible(START, run) && After(START, run) == s && Enabled(s, e)
    ensures Possible(START, run') && After(START, run') == s' == Next(s, e)
  {
    AfterOneMore(START, run, e);
    run', s' := run + [e], Next(s, e);
  }

  /** From inside the monitor a thread queues up and leaves. */
  lemma QueueUp(run: seq<Step>, s: State, t: Thread) returns (run': seq<Step>, s': State)
    requires Possible(START, run) && After(START, run) == s && At(s, t) == Inside
    ensures Possible(START, run') && After(START, run') == s'
    ensures At(s', t) == Blocked && s'.owner == None && s'.events == s.events
    ensures s.tail == None ==> s'.head == Some(t) && s'.tail == Some(t) && s'.order == s.order + [t]
    ensures s.tail == Some(t) ==> s'.head == s.head && Link(s'.links, t) == Some(t)
    ensures forall c: Thread :: c != t ==> At(s', c) == At(s, c)
  {
    hide Possible, After;
    run', s' := Go(run, s, Prepare(t));
    run', s' := Go(run', s', Add(t));
    run', s' := Go(run', s', Release(t));
  }

  lemma GaveUp() returns (run: seq<Step>, s: State)
    ensures Possible(START, run) && After(START, run) == s
    ensures s.order == [0] && s.head == Some(0) && s.tail == Some(0) && s.events == {} && s.owner == None
    ensures At(s, 0) == GivingUp && At(s, 1) == Outside
  {
    StartRun();
    hide Possible, After;
    run, s := Go([], START, Enter(0));
    assert At(s, 1) == Outside;
    run, s := QueueUp(run, s, 0);
    assert At(s, 1) == Outside;
    run, s := Go(run, s, GiveUp(0));
  }

  /** Thread 0 gives up while thread 1 notifies it: its event stays set. */
  lemma LateSignal() returns (run: seq<Step>, s: State)
    ensures Possible(START, run) && After(START, run) == s
    ensures s.order == [] && s.head == None && s.tail == None && s.events == {0} && At(s, 0) == GivingUp &&
            s.owner == None
  {
    run, s := GaveUp();
    hide Possible, After;
    run, s := Go(run, s, Enter(1));
    run, s := Go(run, s, Notify(1));
    run, s := Go(run, s, Exit(1));
  }

  /** If the thread then queues up with its event set, that wait ends at once although it is still
      listed; and when it waits a third time, it becomes its own successor, so that NotifyAll
      never ends. */
  lemma LateSignalMakesCycle() returns (run: seq<Step>)
    ensures Possible(START, run)
    ensures var s := After(START, run); s.head == Some(0) && Link(s.links, 0) == Some(0)
  {
    var s;
    run, s := LateSignal();
    NotListed(s, 0);
    hide Possible, After, RemoveWaiter;
    run, s := Go(run, s, Remove(0));
    run, s := Go(run, s, Reenter(0));
    run, s := QueueUp(run, s, 0);
    run, s := Go(run, s, Wake(0));
    run, s := Go(run, s, Reenter(0));
    run, s := QueueUp(run, s, 0);
  }

  /** A signal in another monitor does the same, without any timed wait here: the thread then
      queues up with its event set. */
  lemma LateSignalElsewhere() returns (run: seq<Step>)
    ensures Possible(START, run) && !Fresh(START, run) && forall i :: 0 <= i < |run| ==> !run[i].GiveUp?
    ensures !ListRight(After(START, run))
  {
    run := [SignalElsewhere(0), Enter(0), Prepare(0), Add(0)];
    var s1 := Next(START, run[0]);
    var s2 := Next(s1, run[1]);
    var s3 := Next(s2, run[2]);
    var s4 := Next(s3, run[3]);
    assert s4.order == [0] && 0 in s4.events && s4.owner == Some(0) && At(s4, 0) == Added;
    assert !ListRight(s4) by { assert 0 in s4.order && !Listable(s4, 0); }
    assert Stale(s3, run[3]) && Enabled(START, run[0]) && Enabled(s1, run[1]) && Enabled(s2, run[2]);
    hide ListRight, Next, Enabled, Stale;
    OneStep(s3, run[3..]);
    OneStep(s2, run[2..]);
    OneStep(s1, run[1..]);
    OneStep(START, run);
  }

  lemma OneStep(s: State, run: seq<Step>)
    requires run != [] && Enabled(s, run[0]) && Possible(Next(s, run[0]), run[1..])
    ensures Possible(s, run) && After(s, run) == After(Next(s, run[0]), run[1..])
    ensures Fresh(s, run) <==> !Stale(s, run[0]) && Fresh(Next(s, run[0]), run[1..])
  {}

  lemma StartRun()
    ensures Possible(START, []) && After(START, []) == START
  {}

  lemma NotListed(s: State, t: Thread)
    requires t !in s.order
    ensures RemoveWaiter(s, t) == s
  {}
}
