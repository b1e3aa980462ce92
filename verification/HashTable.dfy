/** The open-addressing table of runtime/bin/hashmap: linear probing, growth at about
    80% load, and removal that shifts later entries back instead of leaving tombstones.
    Pointers are naturals and 0 is NULL; an `Entry*` is an index into the slot array. */
module HashTable {
  import opened BitMath
  import opened Options

  type Pointer = nat
  const NULL: Pointer := 0

  datatype Entry = Entry(key: Pointer, value: Pointer, hash: nat)

  /** A lookup compares the stored hash and the key pointer, so this pair names an entry. */
  type Id = (Pointer, nat)

  function IdOf(e: Entry): Id {
    (e.key, e.hash)
  }

  /** The slot where the search for `hash` starts. */
  function Home(hash: nat, capacity: nat): (s: nat)
    requires IsPowerOfTwo(capacity)
    ensures s < capacity
  {
    MaskIsMod(hash, capacity);
    BitAnd(hash, capacity - 1)
  }

  /** `j` is on the circular walk that starts at `from` and stops before `to`. */
  predicate InArc(from: int, j: int, to: int) {
    if from <= to then from <= j < to else j >= from || j < to
  }

  /** Slot `i` holds an entry, not counting the slot `hole` that is being vacated (-1: none). */
  predicate Used(t: seq<Entry>, i: int, hole: int) {
    0 <= i < |t| && i != hole && t[i].key != NULL
  }

  // ---------------------------------------------------------------- invariants

  /** No search is cut short: every slot walked over before reaching an entry is in use. */
  ghost predicate Findable(t: seq<Entry>, hole: int)
    requires IsPowerOfTwo(|t|)
  {
    forall i, j :: Used(t, i, hole) && 0 <= j < |t| && InArc(Home(t[i].hash, |t|), j, i)
      ==> j == hole || t[j].key != NULL
  }

  ghost predicate Unique(t: seq<Entry>, hole: int) {
    forall i, j :: Used(t, i, hole) && Used(t, j, hole) && i != j ==> IdOf(t[i]) != IdOf(t[j])
  }

  ghost predicate Holds(t: seq<Entry>, hole: int, id: Id) {
    exists i :: Used(t, i, hole) && IdOf(t[i]) == id
  }

  /** The used slots are exactly the bindings of `m`. */
  ghost predicate Represents(t: seq<Entry>, hole: int, m: map<Id, Pointer>) {
    && (forall i :: Used(t, i, hole) ==> IdOf(t[i]) in m && m[IdOf(t[i])] == t[i].value)
    && (forall id :: id in m ==> Holds(t, hole, id))
  }

  ghost predicate Consistent(t: seq<Entry>, hole: int, m: map<Id, Pointer>) {
    && IsPowerOfTwo(|t|)
    && Findable(t, hole) && Unique(t, hole) && Represents(t, hole, m)
  }

  ghost function Count(t: seq<Entry>): nat {
    if t == [] then 0 else Count(t[..|t| - 1]) + if t[|t| - 1].key != NULL then 1 else 0
  }

  lemma {:induction false} CountUpdate(t: seq<Entry>, i: nat, e: Entry)
    requires i < |t|
    ensures Count(t[i := e]) ==
            Count(t) - (if t[i].key != NULL then 1 else 0) + (if e.key != NULL then 1 else 0)
  {
    var n := |t| - 1;
    if i == n {
      assert t[i := e][..n] == t[..n];
    } else {
      assert t[i := e][..n] == t[..n][i := e];
      CountUpdate(t[..n], i, e);
    }
  }

  lemma {:induction false} CountBounds(t: seq<Entry>)
    ensures Count(t) <= |t|
    ensures Count(t) < |t| ==> exists i :: 0 <= i < |t| && t[i].key == NULL
    ensures Count(t) == 0 ==> forall i :: 0 <= i < |t| ==> t[i].key == NULL
  {
    if t != [] {
      var n := |t| - 1;
      CountBounds(t[..n]);
      assert forall i :: 0 <= i < n ==> t[..n][i] == t[i];
      if Count(t[..n]) < n {
        var i :| 0 <= i < n && t[..n][i].key == NULL;
        assert t[i].key == NULL;
      }
    }
  }

  lemma {:induction false} CountEmpty(t: seq<Entry>)
    requires forall i :: 0 <= i < |t| ==> t[i].key == NULL
    ensures Count(t) == 0
  {
    if t != [] { CountEmpty(t[..|t| - 1]); }
  }

  // ------------------------------------------------------ the circular arithmetic

  /** Walking from `from`, one of two distinct slots comes first. */
  lemma ArcTotal(n: nat, from: int, a: int, b: int)
    requires 0 <= from < n && 0 <= a < n && 0 <= b < n && a != b
    ensures InArc(from, a, b) || InArc(from, b, a)
  {}

  /** A walk to `i` that crosses `c`, where `i` is not among the slots after `c` up to `p`,
      also crosses the slot after `p`. */
  lemma PassesBoth(n: nat, from: int, c: int, p: int, i: int)
    requires 0 <= from < n && 0 <= c < n && 0 <= p < n && 0 <= i < n
    ensures InArc(from, c, i) && i != p && !InArc(c, i, p) && i != Step(p, n) ==> InArc(from, Step(p, n), i)
  {}

  function Step(i: int, n: int): int {
    if i + 1 == n then 0 else i + 1
  }

  /** The test in the removal loop: the home `start` lies outside the circular range (c, q]. */
  predicate MayMove(c: int, q: int, start: int) {
    (q > c && (start <= c || start > q)) || (q < c && (start <= c && start > q))
  }

  /** The slots after the hole `c` up to `q` have been examined: an entry there does not
      need the hole for its own search. */
  ghost predicate Settled(t: seq<Entry>, c: int, q: int)
    requires IsPowerOfTwo(|t|)
  {
    forall i :: Used(t, i, c) && (i == q || InArc(c, i, q)) ==> !InArc(Home(t[i].hash, |t|), c, i)
  }

  /** Moving the entry at `q` into the hole `c` keeps the table consistent, with the hole at `q`. */
  lemma MoveKeeps(t: seq<Entry>, c: int, q: int, m: map<Id, Pointer>)
    requires Consistent(t, c, m)
    requires 0 <= c < |t| && Used(t, q, c)
    requires MayMove(c, q, Home(t[q].hash, |t|))
    ensures Consistent(t[c := t[q]], q, m)
  {
    var u := t[c := t[q]];
    forall i, j | Used(u, i, q) && 0 <= j < |u| && InArc(Home(u[i].hash, |u|), j, i)
      ensures j == q || u[j].key != NULL
    {
      if j != c {
        if i == c {
          assert InArc(Home(t[q].hash, |t|), j, q);
        } else {
          assert Used(t, i, c);
        }
      }
    }
    forall i, j | Used(u, i, q) && Used(u, j, q) && i != j
      ensures IdOf(u[i]) != IdOf(u[j])
    {
      var i', j' := if i == c then q else i, if j == c then q else j;
      assert Used(t, i', c) && Used(t, j', c) && i' != j';
    }
    forall i | Used(u, i, q)
      ensures IdOf(u[i]) in m && m[IdOf(u[i])] == u[i].value
    {
      assert Used(t, if i == c then q else i, c);
    }
    forall id | id in m
      ensures Holds(u, q, id)
    {
      assert Holds(t, c, id);
      var i :| Used(t, i, c) && IdOf(t[i]) == id;
      var i' := if i == q then c else i;
      assert Used(u, i', q) && IdOf(u[i']) == id;
    }
  }

  /** An empty slot right after the examined range lets the hole be cleared for good. */
  lemma ClearKeeps(t: seq<Entry>, c: int, q: int, p: int, m: map<Id, Pointer>, e: Entry)
    requires Consistent(t, c, m)
    requires 0 <= c < |t| && 0 <= q < |t| && q != c && t[q].key == NULL
    requires q == Step(p, |t|) && 0 <= p < |t| && Settled(t, c, p)
    requires e.key == NULL
    ensures Consistent(t[c := e], -1, m)
  {
    var u := t[c := e];
    forall i, j | Used(u, i, -1) && 0 <= j < |u| && InArc(Home(u[i].hash, |u|), j, i)
      ensures u[j].key != NULL
    {
      assert Used(t, i, c);
      PassesBoth(|t|, Home(t[i].hash, |t|), c, p, i);
    }
    forall i, j | Used(u, i, -1) && Used(u, j, -1) && i != j
      ensures IdOf(u[i]) != IdOf(u[j])
    {
      assert Used(t, i, c) && Used(t, j, c);
    }
    forall i | Used(u, i, -1)
      ensures IdOf(u[i]) in m && m[IdOf(u[i])] == u[i].value
    {
      assert Used(t, i, c);
    }
    forall id | id in m
      ensures Holds(u, -1, id)
    {
      assert Holds(t, c, id);
      var i :| Used(t, i, c) && IdOf(t[i]) == id;
      assert Used(u, i, -1);
    }
  }

  /** The state of the removal loop: `c` is the slot to clear, everything after it up to `q`
      is settled, and the empty slot `e` still lies ahead. */
  ghost predicate Scanning(t: seq<Entry>, c: int, q: int, e: int, m: map<Id, Pointer>) {
    && Consistent(t, c, m)
    && 0 <= c < |t| && 0 <= q < |t| && 0 <= e < |t|
    && Settled(t, c, q)
    && t[c].key != NULL && t[e].key == NULL
    && e != q && !InArc(c, e, q)
  }

  lemma BeginScan(t: seq<Entry>, c: int, e: int, m: map<Id, Pointer>)
    requires Consistent(t, -1, m) && Used(t, c, -1) && 0 <= e < |t| && t[e].key == NULL
    ensures Scanning(t, c, c, e, m - {IdOf(t[c])})
  {
    VacateKeeps(t, c, m);
  }

  lemma ScanStays(t: seq<Entry>, c: int, p: int, e: int, m: map<Id, Pointer>)
    requires Scanning(t, c, p, e, m)
    requires var q := Step(p, |t|); t[q].key != NULL && !MayMove(c, q, Home(t[q].hash, |t|))
    ensures Scanning(t, c, Step(p, |t|), e, m)
  {
    var q := Step(p, |t|);
    forall i | Used(t, i, c) && (i == q || InArc(c, i, q))
      ensures !InArc(Home(t[i].hash, |t|), c, i)
    {
      assert i == q || i == p || InArc(c, i, p);
    }
  }

  lemma ScanMoves(t: seq<Entry>, c: int, p: int, e: int, m: map<Id, Pointer>)
    requires Scanning(t, c, p, e, m)
    requires var q := Step(p, |t|); t[q].key != NULL && MayMove(c, q, Home(t[q].hash, |t|))
    ensures var q := Step(p, |t|); Scanning(t[c := t[q]], q, q, e, m)
  {
    MoveKeeps(t, c, Step(p, |t|), m);
  }

  lemma EndScan(t: seq<Entry>, c: int, p: int, e: int, m: map<Id, Pointer>)
    requires Scanning(t, c, p, e, m) && t[Step(p, |t|)].key == NULL
    ensures Consistent(t[c := t[c].(key := NULL)], -1, m)
  {
    ClearKeeps(t, c, Step(p, |t|), p, m, t[c].(key := NULL));
  }

  lemma EmptySlot(t: seq<Entry>) returns (e: int)
    requires Count(t) < |t|
    ensures 0 <= e < |t| && t[e].key == NULL
  {
    CountBounds(t);
    e :| 0 <= e < |t| && t[e].key == NULL;
  }

  /** Vacating slot `c` removes exactly the binding that it held. */
  lemma VacateKeeps(t: seq<Entry>, c: int, m: map<Id, Pointer>)
    requires Consistent(t, -1, m)
    requires Used(t, c, -1)
    ensures Consistent(t, c, m - {IdOf(t[c])})
  {
    var m' := m - {IdOf(t[c])};
    forall i, j | Used(t, i, c) && 0 <= j < |t| && InArc(Home(t[i].hash, |t|), j, i)
      ensures j == c || t[j].key != NULL
    {
      assert Used(t, i, -1);
    }
    forall i, j | Used(t, i, c) && Used(t, j, c) && i != j
      ensures IdOf(t[i]) != IdOf(t[j])
    {
      assert Used(t, i, -1) && Used(t, j, -1);
    }
    forall i | Used(t, i, c)
      ensures IdOf(t[i]) in m' && m'[IdOf(t[i])] == t[i].value
    {
      assert Used(t, i, -1);
    }
    forall id | id in m'
      ensures Holds(t, c, id)
    {
      assert Holds(t, -1, id);
      var i :| Used(t, i, -1) && IdOf(t[i]) == id;
      assert Used(t, i, c);
    }
  }

  /** A new entry at the empty slot where its own search ended. */
  lemma InsertKeeps(t: seq<Entry>, p: int, e: Entry, m: map<Id, Pointer>)
    requires Consistent(t, -1, m)
    requires 0 <= p < |t| && t[p].key == NULL && e.key != NULL
    requires IdOf(e) !in m
    requires forall j :: 0 <= j < |t| && InArc(Home(e.hash, |t|), j, p) ==> t[j].key != NULL
    ensures Consistent(t[p := e], -1, m[IdOf(e) := e.value])
  {
    var u, m' := t[p := e], m[IdOf(e) := e.value];
    forall i, j | Used(u, i, -1) && 0 <= j < |u| && InArc(Home(u[i].hash, |u|), j, i)
      ensures u[j].key != NULL
    {
      if i != p { assert Used(t, i, -1); }
    }
    forall i, j | Used(u, i, -1) && Used(u, j, -1) && i != j
      ensures IdOf(u[i]) != IdOf(u[j])
    {
      if i != p { assert Used(t, i, -1); }
      if j != p { assert Used(t, j, -1); }
    }
    forall i | Used(u, i, -1)
      ensures IdOf(u[i]) in m' && m'[IdOf(u[i])] == u[i].value
    {
      if i != p { assert Used(t, i, -1); }
    }
    forall id | id in m'
      ensures Holds(u, -1, id)
    {
      if id == IdOf(e) {
        assert Used(u, p, -1);
      } else {
        assert Holds(t, -1, id);
        var i :| Used(t, i, -1) && IdOf(t[i]) == id;
        assert Used(u, i, -1);
      }
    }
  }

  lemma WriteKeeps(t: seq<Entry>, p: int, v: Pointer, m: map<Id, Pointer>)
    requires Consistent(t, -1, m) && Used(t, p, -1)
    ensures Consistent(t[p := t[p].(value := v)], -1, m[IdOf(t[p]) := v])
  {
    var u, m' := t[p := t[p].(value := v)], m[IdOf(t[p]) := v];
    assert forall i :: 0 <= i < |t| ==> IdOf(u[i]) == IdOf(t[i]) && u[i].key == t[i].key && u[i].hash == t[i].hash;
    assert forall i :: Used(u, i, -1) <==> Used(t, i, -1);
    forall id | id in m'
      ensures Holds(u, -1, id)
    {
      assert Holds(t, -1, id);
      var i :| Used(t, i, -1) && IdOf(t[i]) == id;
      assert Used(u, i, -1);
    }
  }

  lemma EmptyConsistent(t: seq<Entry>)
    requires IsPowerOfTwo(|t|)
    requires forall i :: 0 <= i < |t| ==> t[i].key == NULL
    ensures Consistent(t, -1, map[])
  {}

  /** The map without the binding of the last slot, if that slot is used. */
  ghost function Shorter(t: seq<Entry>, m: map<Id, Pointer>): map<Id, Pointer>
    requires t != []
  {
    var last := t[|t| - 1];
    if last.key == NULL then m else m - {IdOf(last)}
  }

  lemma ShorterRepresents(t: seq<Entry>, m: map<Id, Pointer>)
    requires t != [] && Unique(t, -1) && Represents(t, -1, m)
    ensures Represents(t[..|t| - 1], -1, Shorter(t, m))
  {
    var n := |t| - 1;
    var s, m' := t[..n], Shorter(t, m);
    forall i | Used(s, i, -1)
      ensures IdOf(s[i]) in m' && m'[IdOf(s[i])] == s[i].value
    {
      assert Used(t, i, -1) && s[i] == t[i];
      if t[n].key != NULL { assert Used(t, n, -1); }
    }
    forall id | id in m'
      ensures Holds(s, -1, id)
    {
      assert Holds(t, -1, id);
      var i :| Used(t, i, -1) && IdOf(t[i]) == id;
      assert Used(s, i, -1);
    }
  }

  lemma ShorterSize(t: seq<Entry>, m: map<Id, Pointer>)
    requires t != [] && Represents(t, -1, m)
    ensures |m| == |Shorter(t, m)| + if t[|t| - 1].key != NULL then 1 else 0
  {
    var last := t[|t| - 1];
    if last.key != NULL {
      assert Used(t, |t| - 1, -1);
      assert m.Keys == Shorter(t, m).Keys + {IdOf(last)};
    }
  }

  /** As many slots are in use as there are bindings. */
  lemma {:induction false} CountIsSize(t: seq<Entry>, m: map<Id, Pointer>)
    requires Unique(t, -1) && Represents(t, -1, m)
    ensures Count(t) == |m|
  {
    if t == [] {
      assert forall id :: id in m ==> Holds(t, -1, id);
      assert m.Keys == {};
    } else {
      ShorterRepresents(t, m);
      ShorterSize(t, m);
      assert Unique(t[..|t| - 1], -1) by {
        assert forall i :: Used(t[..|t| - 1], i, -1) ==> Used(t, i, -1) && t[..|t| - 1][i] == t[i];
      }
      hide Unique, Represents;
      CountIsSize(t[..|t| - 1], Shorter(t, m));
    }
  }

  /** A table stands for one map only. */
  lemma RepresentsOne(t: seq<Entry>, m: map<Id, Pointer>, m': map<Id, Pointer>)
    requires Represents(t, -1, m) && Represents(t, -1, m')
    ensures m == m'
  {
    assert forall id :: id in m ==> Holds(t, -1, id) && id in m' && m[id] == m'[id];
    assert forall id :: id in m' ==> Holds(t, -1, id) && id in m;
  }

  lemma {:induction false} CountPrefix(t: seq<Entry>, p: nat)
    requires p <= |t|
    ensures Count(t[..p]) <= Count(t) && (p == |t| ==> Count(t[..p]) == Count(t))
    ensures Count(t[..p]) == Count(t) ==> forall i :: p <= i < |t| ==> t[i].key == NULL
  {
    if p < |t| {
      var n := |t| - 1;
      assert t[..n][..p] == t[..p];
      CountPrefix(t[..n], p);
      assert forall i :: p <= i < n ==> t[..n][i] == t[i];
    } else {
      assert t[..p] == t;
    }
  }

  lemma ConsistentParts(t: seq<Entry>, hole: int, m: map<Id, Pointer>)
    requires Consistent(t, hole, m)
    ensures IsPowerOfTwo(|t|) && Unique(t, hole) && Represents(t, hole, m)
  {}

  lemma PrefixNone(t: seq<Entry>)
    ensures Represents(t[..0], -1, map[]) && Count(t[..0]) == 0
  {}

  lemma PrefixAll(t: seq<Entry>, p: nat, m: map<Id, Pointer>)
    requires p <= |t| && Represents(t[..p], -1, m) && Count(t[..p]) == Count(t)
    ensures Represents(t, -1, m)
  {
    CountPrefix(t, p);
    assert forall i :: Used(t, i, -1) ==> Used(t[..p], i, -1) && t[..p][i] == t[i];
    forall id | id in m
      ensures Holds(t, -1, id)
    {
      assert Holds(t[..p], -1, id);
      var i :| Used(t[..p], i, -1) && IdOf(t[..p][i]) == id;
      assert Used(t, i, -1);
    }
  }

  lemma PrefixUsed(t: seq<Entry>, p: nat)
    requires p < |t|
    ensures forall i :: Used(t[..p], i, -1) ==> Used(t[..p + 1], i, -1) && t[..p][i] == t[..p + 1][i]
    ensures forall i :: Used(t[..p + 1], i, -1) ==> Used(t, i, -1) && t[..p + 1][i] == t[i]
    ensures forall i :: Used(t[..p + 1], i, -1) ==> i == p || Used(t[..p], i, -1)
  {}

  lemma PrefixSkips(t: seq<Entry>, p: nat, m: map<Id, Pointer>)
    requires p < |t| && t[p].key == NULL && Represents(t[..p], -1, m)
    ensures Represents(t[..p + 1], -1, m) && Count(t[..p + 1]) == Count(t[..p])
  {
    PrefixUsed(t, p);
    assert t[..p + 1][..p] == t[..p];
    forall id | id in m
      ensures Holds(t[..p + 1], -1, id)
    {
      assert Holds(t[..p], -1, id);
    }
  }

  lemma PrefixFresh(t: seq<Entry>, p: nat, m: map<Id, Pointer>)
    requires p < |t| && t[p].key != NULL && Unique(t, -1) && Represents(t[..p], -1, m)
    ensures IdOf(t[p]) !in m
  {
    PrefixUsed(t, p);
    if IdOf(t[p]) in m {
      assert Holds(t[..p], -1, IdOf(t[p]));
      var i :| Used(t[..p], i, -1) && IdOf(t[..p][i]) == IdOf(t[p]);
      assert Used(t, i, -1) && Used(t, p, -1) && i != p;
    }
  }

  /** Reinserting slot `p` of the old table extends the part of the map already moved. */
  lemma PrefixGrows(t: seq<Entry>, p: nat, m: map<Id, Pointer>)
    requires p < |t| && t[p].key != NULL && Represents(t[..p], -1, m) && IdOf(t[p]) !in m
    ensures Represents(t[..p + 1], -1, m[IdOf(t[p]) := t[p].value])
    ensures Count(t[..p + 1]) == Count(t[..p]) + 1
  {
    var u, m' := t[..p + 1], m[IdOf(t[p]) := t[p].value];
    PrefixUsed(t, p);
    assert u[..p] == t[..p];
    assert Used(u, p, -1) && u[p] == t[p];
    forall id | id in m'
      ensures Holds(u, -1, id)
    {
      if id in m {
        assert Holds(t[..p], -1, id);
        var i :| Used(t[..p], i, -1) && IdOf(t[..p][i]) == id;
        assert Used(u, i, -1) && IdOf(u[i]) == id;
      }
    }
    forall i | Used(u, i, -1)
      ensures IdOf(u[i]) in m' && m'[IdOf(u[i])] == u[i].value
    {
      if i != p { assert Used(t[..p], i, -1); }
    }
  }

  ghost predicate NeedsGrowth(occupancy: nat, capacity: nat) {
    occupancy + occupancy / 4 >= capacity
  }

  // ------------------------------------------------------------ iteration and runs

  /** `ids` names the used slots before `p`, each once. */
  ghost predicate VisitedUpTo(t: seq<Entry>, ids: seq<Id>, p: nat) {
    && (forall a, b :: 0 <= a < b < |ids| ==> ids[a] != ids[b])
    && (forall i :: Used(t, i, -1) && i < p ==> IdOf(t[i]) in ids)
    && (forall id :: id in ids ==> exists i :: Used(t, i, -1) && i < p && IdOf(t[i]) == id)
  }

  lemma VisitedStep(t: seq<Entry>, ids: seq<Id>, p: nat, q: nat)
    requires Unique(t, -1) && VisitedUpTo(t, ids, p)
    requires Used(t, p, -1) && p < q <= |t| && forall i :: p < i < q ==> t[i].key == NULL
    ensures VisitedUpTo(t, ids + [IdOf(t[p])], q)
  {
    var more := ids + [IdOf(t[p])];
    forall id | id in more
      ensures exists i :: Used(t, i, -1) && i < q && IdOf(t[i]) == id
    {
      if id in ids {
        var i :| Used(t, i, -1) && i < p && IdOf(t[i]) == id;
      }
    }
    assert IdOf(t[p]) !in ids;
    forall i | Used(t, i, -1) && i < q
      ensures IdOf(t[i]) in more
    {
      if i < p { assert IdOf(t[i]) in ids; } else { assert i == p && more[|ids|] == IdOf(t[p]); }
    }
  }

  lemma VisitedAll(t: seq<Entry>, ids: seq<Id>, m: map<Id, Pointer>)
    requires VisitedUpTo(t, ids, |t|) && Represents(t, -1, m)
    ensures forall id :: id in ids <==> id in m
    ensures |ids| == |m|
  {
    forall id | id in m
      ensures id in ids
    {
      assert Holds(t, -1, id);
    }
    assert (set id | id in ids) == m.Keys;
    DistinctSize(ids);
  }

  lemma {:induction false} DistinctSize(ids: seq<Id>)
    requires forall a, b :: 0 <= a < b < |ids| ==> ids[a] != ids[b]
    ensures |set id | id in ids| == |ids|
  {
    if ids != [] {
      var n := |ids| - 1;
      DistinctSize(ids[..n]);
      assert ids[n] !in ids[..n];
      assert (set id | id in ids) == (set id | id in ids[..n]) + {ids[n]} by {
        assert ids == ids[..n] + [ids[n]];
      }
    }
  }

  /** What a client does: look a key up with or without insertion, write the value of the
      entry that comes back, remove a key, or clear the table. */
  datatype Op =
    | Find(key: Pointer)
    | Ensure(key: Pointer)
    | Put(key: Pointer, value: Pointer)
    | Delete(key: Pointer)
    | Reset

  /** The same operation on a plain finite map. */
  function MapStep(op: Op, m: map<Pointer, Pointer>): (Option<Pointer>, map<Pointer, Pointer>) {
    match op
    case Find(k) => (if k in m then Some(m[k]) else None, m)
    case Ensure(k) => if k in m then (Some(m[k]), m) else (Some(NULL), m[k := NULL])
    case Put(k, v) => (None, m[k := v])
    case Delete(k) => (None, m - {k})
    case Reset => (None, map[])
  }

  /** The answers of a whole run on the plain map, and the map it ends with. */
  function MapRun(ops: seq<Op>, m: map<Pointer, Pointer>): (seq<Option<Pointer>>, map<Pointer, Pointer>) {
    if ops == [] then ([], m)
    else
      var (a, m') := MapStep(ops[0], m);
      var (rest, last) := MapRun(ops[1..], m');
      ([a] + rest, last)
  }

  /** When hashes are a function of the key, the table's bindings are those of `m`. */
  ghost predicate Tagged(c: map<Id, Pointer>, hash: Pointer -> nat, m: map<Pointer, Pointer>) {
    && (forall id :: id in c ==> id.1 == hash(id.0) && id.0 in m)
    && (forall k :: k in m ==> (k, hash(k)) in c && c[(k, hash(k))] == m[k])
  }

  lemma TaggedAt(c: map<Id, Pointer>, hash: Pointer -> nat, m: map<Pointer, Pointer>, k: Pointer)
    requires Tagged(c, hash, m)
    ensures k in m <==> (k, hash(k)) in c
    ensures k in m ==> c[(k, hash(k))] == m[k]
  {}

  lemma TaggedEmpty(hash: Pointer -> nat)
    ensures Tagged(map[], hash, map[])
  {}

  lemma TaggedPut(c: map<Id, Pointer>, hash: Pointer -> nat, m: map<Pointer, Pointer>, k: Pointer, v: Pointer)
    requires Tagged(c, hash, m)
    ensures Tagged(c[(k, hash(k)) := v], hash, m[k := v])
  {}

  lemma TaggedDelete(c: map<Id, Pointer>, hash: Pointer -> nat, m: map<Pointer, Pointer>, k: Pointer)
    requires Tagged(c, hash, m)
    ensures Tagged(c - {(k, hash(k))}, hash, m - {k})
  {}

  lemma ValueAt(t: seq<Entry>, p: nat, m: map<Id, Pointer>)
    requires Consistent(t, -1, m) && p < |t| && t[p].key != NULL
    ensures IdOf(t[p]) in m && m[IdOf(t[p])] == t[p].value
  {
    assert Used(t, p, -1);
  }

  lemma VisitedKeys(ids: seq<Id>, keys: seq<Pointer>, c: map<Id, Pointer>, hash: Pointer -> nat,
          m: map<Pointer, Pointer>)
    requires Tagged(c, hash, m) && forall id :: id in ids <==> id in c
    requires forall a, b :: 0 <= a < b < |ids| ==> ids[a] != ids[b]
    requires |keys| == |ids| && forall j :: 0 <= j < |ids| ==> keys[j] == ids[j].0
    ensures forall a, b :: 0 <= a < b < |keys| ==> keys[a] != keys[b]
    ensures forall k :: k in keys <==> k in m
  {
    assert forall j :: 0 <= j < |ids| ==> ids[j] in ids && ids[j] == (keys[j], hash(keys[j]));
    forall k | k in m
      ensures k in keys
    {
      var j :| 0 <= j < |ids| && ids[j] == (k, hash(k));
      assert keys[j] == k;
    }
  }

  datatype Found = Missing | At(slot: nat)

  class HashMap {
    var slots: array<Entry>
    var occupancy: nat

    /** The finite map that the table stands for. */
    ghost var Contents: map<Id, Pointer>

    ghost predicate Shape()
      reads this, slots
    {
      Consistent(slots[..], -1, Contents) && occupancy == Count(slots[..])
    }

    /** At rest the load is below the growth limit, so some slot is empty. */
    ghost predicate Valid()
      reads this, slots
    {
      Shape() && !NeedsGrowth(occupancy, slots.Length)
    }

    constructor (initialCapacity: nat)
      requires IsPowerOfTwo(initialCapacity)
      ensures Valid() && fresh(slots) && slots.Length == initialCapacity
      ensures Contents == map[] && occupancy == 0
    {
      slots := new Entry[initialCapacity];
      new;
      Clear();
    }

    method Clear()
      requires IsPowerOfTwo(slots.Length)
      modifies this`occupancy, this`Contents, slots
      ensures Valid() && Contents == map[] && occupancy == 0
    {
      for i := 0 to slots.Length
        invariant forall k :: 0 <= k < i ==> slots[k].key == NULL
      {
        slots[i] := slots[i].(key := NULL);
      }
      occupancy := 0;
      Contents := map[];
      CountEmpty(slots[..]);
      EmptyConsistent(slots[..]);
    }

    method Probe(key: Pointer, hash: nat) returns (p: nat)
      requires key != NULL && Shape() && occupancy < slots.Length
      ensures p < slots.Length
      ensures (key, hash) in Contents <==> slots[p].key != NULL
      ensures slots[p].key != NULL ==> IdOf(slots[p]) == (key, hash)
      ensures forall j :: 0 <= j < slots.Length && InArc(Home(hash, slots.Length), j, p) ==> slots[j].key != NULL
    {
      var n := slots.Length;
      ghost var t := slots[..];
      ghost var empty := EmptySlot(t);
      p := Home(hash, n);
      while slots[p].key != NULL && (hash != slots[p].hash || key != slots[p].key)
        invariant p < n
        invariant forall j :: 0 <= j < n && InArc(Home(hash, n), j, p) ==> t[j].key != NULL && IdOf(t[j]) != (key, hash)
        decreases if empty >= p then empty - p else empty + n - p
      {
        assert !InArc(Home(hash, n), empty, p);
        p := p + 1;
        if p >= n {
          p := 0;
        }
        assert p != Home(hash, n);
      }
      if slots[p].key == NULL && (key, hash) in Contents {
        assert Holds(t, -1, (key, hash));
        var i :| Used(t, i, -1) && IdOf(t[i]) == (key, hash);
        ArcTotal(n, Home(hash, n), i, p);
        assert false;
      }
      if slots[p].key != NULL {
        assert Used(t, p, -1);
      }
    }

    /** The entry for the key, added with value NULL if it is missing and `insert` is set.
        The measure shows that a reinsertion made by `Resize` never resizes again. */
    method Lookup(key: Pointer, hash: nat, insert: bool) returns (r: Found)
      requires key != NULL && Valid()
      modifies this, slots
      ensures Valid() && (slots == old(slots) || fresh(slots))
      ensures slots == old(slots) || (insert && NeedsGrowth(old(occupancy) + 1, old(slots.Length)))
      ensures occupancy == old(occupancy) + if (key, hash) in old(Contents) || !insert then 0 else 1
      ensures r.Missing? <==> (key, hash) !in old(Contents) && !insert
      ensures r.At? ==> r.slot < slots.Length && IdOf(slots[r.slot]) == (key, hash)
      ensures Contents == if (key, hash) in old(Contents) || !insert then old(Contents)
                          else old(Contents)[(key, hash) := NULL]
      decreases if insert && NeedsGrowth(occupancy + 1, slots.Length) then 3 else 0
    {
      var p := Probe(key, hash);
      if slots[p].key != NULL {
        return At(p);
      }
      if insert {
        ghost var t := slots[..];
        slots[p] := Entry(key, NULL, hash);
        occupancy := occupancy + 1;
        Contents := Contents[(key, hash) := NULL];
        assert slots[..] == t[p := Entry(key, NULL, hash)];
        InsertKeeps(t, p, Entry(key, NULL, hash), old(Contents));
        CountUpdate(t, p, Entry(key, NULL, hash));
        if occupancy + occupancy / 4 >= slots.Length {
          Resize();
          p := Probe(key, hash);
        }
        return At(p);
      }
      return Missing;
    }

    method Resize()
      requires Shape()
      requires !NeedsGrowth(occupancy, 2 * slots.Length)
      modifies this
      ensures Valid() && fresh(slots) && slots.Length == 2 * old(slots.Length)
      ensures Contents == old(Contents) && occupancy == old(occupancy)
      decreases 2
    {
      hide Consistent, Represents, Unique, InArc;
      var map_ := slots;
      var n := occupancy;
      ghost var t := slots[..];
      ConsistentParts(t, -1, Contents);
      PowerOfTwoDoubles(map_.Length);
      slots := new Entry[2 * map_.Length];
      Clear();
      PrefixNone(t);
      var p := 0;
      while n > 0
        invariant p <= map_.Length && map_[..] == t
        invariant Valid() && fresh(slots) && slots.Length == 2 * map_.Length
        invariant Represents(t[..p], -1, Contents) && occupancy == Count(t[..p])
        invariant n == Count(t) - Count(t[..p])
        decreases map_.Length - p
      {
        CountPrefix(t, p);
        CountPrefix(t, p + 1);
        if map_[p].key != NULL {
          Reinsert(t, p, map_[p]);
          n := n - 1;
        } else {
          PrefixSkips(t, p, Contents);
        }
        p := p + 1;
      }
      PrefixAll(t, p, Contents);
      RepresentsOne(t, Contents, old(Contents));
    }

    /** One turn of the rehash loop. */
    method Reinsert(ghost t: seq<Entry>, p: nat, e: Entry)
      requires p < |t| && e == t[p] && e.key != NULL && Unique(t, -1)
      requires Valid() && !NeedsGrowth(occupancy + 1, slots.Length)
      requires Represents(t[..p], -1, Contents) && occupancy == Count(t[..p])
      modifies this, slots
      ensures Valid() && slots == old(slots)
      ensures Represents(t[..p + 1], -1, Contents)
      ensures occupancy == Count(t[..p + 1]) == old(occupancy) + 1
      decreases 1
    {
      hide Consistent, Represents, Unique, Count, InArc;
      PrefixFresh(t, p, Contents);
      PrefixGrows(t, p, Contents);
      var r := Lookup(e.key, e.hash, true);
      SetValue(r.slot, e.value);
      assert Contents == old(Contents)[IdOf(e) := e.value];
    }

    /** The client's write `entry->value = v` through a pointer that Lookup returned. */
    method SetValue(slot: nat, v: Pointer)
      requires Valid() && slot < slots.Length && slots[slot].key != NULL
      modifies this`Contents, slots
      ensures Valid()
      ensures Contents == old(Contents)[old(IdOf(slots[slot])) := v]
      ensures forall i :: 0 <= i < slots.Length && i != slot ==> slots[i] == old(slots[i])
      ensures slots[slot] == old(slots[slot]).(value := v)
    {
      ghost var t := slots[..];
      slots[slot] := slots[slot].(value := v);
      Contents := Contents[IdOf(slots[slot]) := v];
      assert slots[..] == t[slot := slots[slot]];
      assert Used(t, slot, -1);
      WriteKeeps(t, slot, v, old(Contents));
      CountUpdate(t, slot, slots[slot]);
    }

    method Remove(key: Pointer, hash: nat)
      requires key != NULL && Valid()
      modifies this`occupancy, this`Contents, slots
      ensures Valid() && Contents == old(Contents) - {(key, hash)}
    {
      hide Consistent, Settled, Count, InArc, IsPowerOfTwo;
      var candidate := Probe(key, hash);
      if slots[candidate].key == NULL {
        assert Contents - {(key, hash)} == Contents;
        return;
      }
      ghost var m := Contents - {(key, hash)};
      ConsistentParts(slots[..], -1, Contents);
      ghost var empty := EmptySlot(slots[..]);
      BeginScan(slots[..], candidate, empty, Contents);
      var next := candidate;
      while true
        invariant IsPowerOfTwo(slots.Length)
        invariant Scanning(slots[..], candidate, next, empty, m)
        invariant Count(slots[..]) == occupancy == old(occupancy)
        decreases if empty >= next then empty - next else empty + slots.Length - next
      {
        ghost var t, prev := slots[..], next;
        next := next + 1;
        if next == slots.Length {
          next := 0;
        }
        if slots[next].key == NULL {
          EndScan(t, candidate, prev, empty, m);
          break;
        }
        var start := Home(slots[next].hash, slots.Length);
        if (next > candidate && (start <= candidate || start > next)) ||
           (next < candidate && (start <= candidate && start > next)) {
          ScanMoves(t, candidate, prev, empty, m);
          CountUpdate(t, candidate, t[next]);
          slots[candidate] := slots[next];
          assert slots[..] == t[candidate := t[next]];
          candidate := next;
        } else {
          ScanStays(t, candidate, prev, empty, m);
        }
      }
      ghost var t := slots[..];
      slots[candidate] := slots[candidate].(key := NULL);
      assert slots[..] == t[candidate := slots[candidate]];
      CountUpdate(t, candidate, slots[candidate]);
      occupancy := occupancy - 1;
      Contents := m;
    }

    /** The first used slot after `p`; `p` is -1 when iteration starts. */
    method Next(p: int) returns (r: Found)
      requires -1 <= p < slots.Length
      ensures r.Missing? ==> forall i :: p < i < slots.Length ==> slots[i].key == NULL
      ensures r.At? ==> p < r.slot < slots.Length && slots[r.slot].key != NULL
      ensures r.At? ==> forall i :: p < i < r.slot ==> slots[i].key == NULL
    {
      for q := p + 1 to slots.Length
        invariant forall i :: p < i < q ==> slots[i].key == NULL
      {
        if slots[q].key != NULL {
          return At(q);
        }
      }
      return Missing;
    }

    /** The documented loop `for (p = Start(); p != NULL; p = Next(p))`. */
    method VisitAll() returns (ids: seq<Id>)
      requires Valid()
      ensures forall a, b :: 0 <= a < b < |ids| ==> ids[a] != ids[b]
      ensures forall id :: id in ids <==> id in Contents
      ensures |ids| == occupancy == |Contents|
    {
      hide InArc, IsPowerOfTwo;
      ghost var t := slots[..];
      CountIsSize(t, Contents);
      ids := [];
      var p := Next(-1);
      while p.At?
        invariant p.At? ==> p.slot < slots.Length && slots[p.slot].key != NULL
        invariant VisitedUpTo(t, ids, if p.At? then p.slot else |t|)
        decreases if p.At? then slots.Length - p.slot else -1
      {
        ghost var before, at := ids, p.slot;
        ids := ids + [IdOf(slots[p.slot])];
        p := Next(p.slot);
        VisitedStep(t, before, at, if p.At? then p.slot else |t|);
      }
      VisitedAll(t, ids, Contents);
    }

    /** Runs a client's operations, each key hashed by `hash`, then iterates over the table. */
    method Replay(ops: seq<Op>, hash: Pointer -> nat) returns (answers: seq<Option<Pointer>>, keys: seq<Pointer>)
      requires Valid() && Contents == map[]
      requires forall op :: op in ops && !op.Reset? ==> op.key != NULL
      modifies this, slots
      ensures Valid()
      ensures answers == MapRun(ops, map[]).0
      ensures forall a, b :: 0 <= a < b < |keys| ==> keys[a] != keys[b]
      ensures forall k :: k in keys <==> k in MapRun(ops, map[]).1
    {
      hide Consistent, Count, NeedsGrowth;
      answers := [];
      ghost var m: map<Pointer, Pointer> := map[];
      assert ops[0..] == ops;
      assert [] + MapRun(ops, m).0 == MapRun(ops, m).0;
      var i := 0;
      while i < |ops|
        invariant i <= |ops| && Valid() && (slots == old(slots) || fresh(slots))
        invariant Tagged(Contents, hash, m)
        invariant MapRun(ops, map[]) == (answers + MapRun(ops[i..], m).0, MapRun(ops[i..], m).1)
      {
        assert ops[i..][1..] == ops[i + 1..];
        assert ops[i] in ops;
        var a := Perform(ops[i], hash, m);
        ghost var m' := MapStep(ops[i], m).1;
        assert answers + ([a] + MapRun(ops[i + 1..], m').0) == (answers + [a]) + MapRun(ops[i + 1..], m').0;
        answers := answers + [a];
        m := m';
        i := i + 1;
      }
      var ids := VisitAll();
      keys := seq(|ids|, j requires 0 <= j < |ids| => ids[j].0);
      VisitedKeys(ids, keys, Contents, hash, m);
    }

    method Perform(op: Op, hash: Pointer -> nat, ghost m: map<Pointer, Pointer>) returns (a: Option<Pointer>)
      requires Valid() && Tagged(Contents, hash, m)
      requires !op.Reset? ==> op.key != NULL
      modifies this, slots
      ensures Valid() && (slots == old(slots) || fresh(slots))
      ensures a == MapStep(op, m).0
      ensures Tagged(Contents, hash, MapStep(op, m).1)
    {
      hide Consistent, Count, NeedsGrowth, Tagged;
      a := None;
      match op {
        case Find(k) =>
          TaggedAt(Contents, hash, m, k);
          var r := Lookup(k, hash(k), false);
          if r.At? {
            ValueAt(slots[..], r.slot, Contents);
            a := Some(slots[r.slot].value);
          }
        case Ensure(k) =>
          TaggedAt(Contents, hash, m, k);
          TaggedPut(Contents, hash, m, k, NULL);
          var r := Lookup(k, hash(k), true);
          ValueAt(slots[..], r.slot, Contents);
          a := Some(slots[r.slot].value);
        case Put(k, v) =>
          TaggedPut(Contents, hash, m, k, v);
          var r := Lookup(k, hash(k), true);
          SetValue(r.slot, v);
          assert Contents == old(Contents)[(k, hash(k)) := v];
        case Delete(k) =>
          TaggedDelete(Contents, hash, m, k);
          Remove(k, hash(k));
        case Reset =>
          ConsistentParts(slots[..], -1, Contents);
          Clear();
          TaggedEmpty(hash);
      }
    }
  }
}
