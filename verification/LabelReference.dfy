/** The reference assembler: it knows from the start where every label will be bound, so it
    writes each displacement directly. The one-pass assembler is proved to produce its code. */
module LabelReference {
  import opened Words
  import opened Labels

  type Positions = map<LabelId, nat>

  /** A jump is short when its label is bound close behind it, or is unbound and promised near. */
  predicate IsShort(l: LabelId, near: bool, at: nat, bound: Positions) {
    if l in bound then IsInt8(bound[l] - at - 2) else near
  }

  function Size(i: Instr, at: nat, bound: Positions): nat
    requires LegalOp(i)
  {
    match i
    case Raw(bytes) => |bytes|
    case JumpTo(op, l, near) => if IsShort(l, near, at, bound) then 2 else |op.LongOpcode()| + 4
    case CallTo(_) => 5
    case Bind(_) => 0
    case CallExternal(_) => 5
    case JumpExternal(op, _) => |op.LongOpcode()| + 4
    case WithObject(opcode, _) => |opcode| + 4
  }

  function BoundAfter(i: Instr, at: nat, bound: Positions): Positions {
    if i.Bind? then bound[i.target := at] else bound
  }

  /** Where each label of the program ends up. */
  function Layout(prog: seq<Instr>, at: nat, bound: Positions): Positions
    requires LegalProgram(prog)
    decreases |prog|
  {
    if prog == [] then bound
    else Layout(prog[1..], at + Size(prog[0], at, bound), BoundAfter(prog[0], at, bound))
  }

  function EndOf(prog: seq<Instr>, at: nat, bound: Positions): nat
    requires LegalProgram(prog)
    decreases |prog|
  {
    if prog == [] then at
    else EndOf(prog[1..], at + Size(prog[0], at, bound), BoundAfter(prog[0], at, bound))
  }

  predicate Targets(i: Instr, final: Positions) {
    i.JumpTo? || i.CallTo? || i.Bind? ==> i.target in final
  }

  /** The bytes of one instruction placed at `at`. */
  function Encode(i: Instr, at: nat, bound: Positions, final: Positions): Bytes
    requires LegalOp(i) && Targets(i, final)
  {
    match i
    case Raw(bytes) => bytes
    case JumpTo(op, l, near) =>
      if IsShort(l, near, at, bound) then op.ShortOpcode() + [LowByte(final[l] - (at + 2))]
      else op.LongOpcode() + Word(final[l] - (at + |op.LongOpcode()| + 4))
    case CallTo(l) => [CALL] + Word(final[l] - (at + 5) - if l in bound then 1 else 0)
    case Bind(_) => []
    case CallExternal(a) => [CALL] + Word(a)
    case JumpExternal(op, a) => op.LongOpcode() + Word(a)
    case WithObject(opcode, _) => opcode + RESERVED
  }

  /** The program binds each label at most once and only targets labels that it binds. */
  predicate WellBound(prog: seq<Instr>, at: nat, bound: Positions, final: Positions)
    requires LegalProgram(prog)
    decreases |prog|
  {
    prog == [] ||
    (&& Targets(prog[0], final)
     && (prog[0].Bind? ==> prog[0].target !in bound)
     && WellBound(prog[1..], at + Size(prog[0], at, bound), BoundAfter(prog[0], at, bound), final))
  }

  function Reference(prog: seq<Instr>, at: nat, bound: Positions, final: Positions): Bytes
    requires LegalProgram(prog) && WellBound(prog, at, bound, final)
    decreases |prog|
  {
    if prog == [] then []
    else Encode(prog[0], at, bound, final) +
         Reference(prog[1..], at + Size(prog[0], at, bound), BoundAfter(prog[0], at, bound), final)
  }

  /** The fixup that an instruction leaves, and those of a whole program, newest first. */
  function FixupOf(i: Instr, at: nat): seq<Fixup>
    requires LegalOp(i)
  {
    match i
    case CallExternal(_) => [Fixup(at + 1, Relocation)]
    case JumpExternal(op, _) => [Fixup(at + |op.LongOpcode()|, Relocation)]
    case WithObject(opcode, h) => [Fixup(at + |opcode|, Handle(h))]
    case _ => []
  }

  function Fixups(prog: seq<Instr>, at: nat, bound: Positions): seq<Fixup>
    requires LegalProgram(prog)
    decreases |prog|
  {
    if prog == [] then []
    else Fixups(prog[1..], at + Size(prog[0], at, bound), BoundAfter(prog[0], at, bound)) + FixupOf(prog[0], at)
  }

  // ------------------------------------------------------------------ the invariant

  /** A placeholder: `width` bytes at `at` that await the position of `target`. */
  datatype Site = Site(target: LabelId, at: nat, width: nat)

  function SitesOf(i: Instr, at: nat, bound: Positions): seq<Site>
    requires LegalOp(i)
  {
    match i
    case JumpTo(op, l, near) =>
      if l in bound then []
      else if near then [Site(l, at + 1, 1)]
      else [Site(l, at + |op.LongOpcode()|, 4)]
    case CallTo(l) => if l in bound then [] else [Site(l, at + 1, 4)]
    case _ => []
  }

  /** Placeholders lie inside the code, in order, and never overlap. */
  ghost predicate Placed(sites: seq<Site>, n: nat) {
    && (forall i :: 0 <= i < |sites| ==> sites[i].width in {1, 4} && sites[i].at + sites[i].width <= n)
    && (forall i, j :: 0 <= i < j < |sites| ==> sites[i].at + sites[i].width <= sites[j].at)
  }

  /** Long placeholders of `l`, newest first. */
  ghost function FarSites(sites: seq<Site>, l: LabelId): seq<nat> {
    if sites == [] then []
    else
      var n := |sites| - 1;
      (if sites[n].target == l && sites[n].width == 4 then [sites[n].at] else []) + FarSites(sites[..n], l)
  }

  /** Short placeholders of `l`, oldest first. */
  ghost function NearSites(sites: seq<Site>, l: LabelId): seq<nat> {
    if sites == [] then []
    else
      var n := |sites| - 1;
      NearSites(sites[..n], l) + if sites[n].target == l && sites[n].width == 1 then [sites[n].at] else []
  }

  /** The links that start at `position` visit exactly `sites`. */
  ghost predicate Linked(code: Bytes, position: int, sites: seq<nat>)
    decreases |sites|
  {
    if sites == [] then position == 0
    else position == sites[0] + 4 && position <= |code| && Linked(code, WordAt(code, sites[0]), sites[1..])
  }

  /** What the assembler knows about label `l`. */
  ghost predicate LabelOk(code: Bytes, s: LabelState, l: LabelId, sites: seq<Site>, bound: Positions) {
    if l in bound then s.IsBound() && s.Position() == bound[l] <= |code| && s.near == []
    else s.near == NearSites(sites, l) && Linked(code, s.position, FarSites(sites, l))
  }

  predicate Covers(s: Site, k: int) {
    s.at <= k < s.at + s.width
  }

  /** Byte `k` belongs to a placeholder whose label is still unbound. */
  ghost predicate Awaited(sites: seq<Site>, bound: Positions, k: int) {
    exists i :: 0 <= i < |sites| && sites[i].target !in bound && Covers(sites[i], k)
  }

  function Displacement(s: Site, position: nat): (r: Bytes)
    ensures |r| == if s.width == 1 then 1 else 4
  {
    var d := position - (s.at + s.width);
    if s.width == 1 then [LowByte(d)] else Word(d)
  }

  /** The reference code already holds the right displacement at the placeholder. */
  ghost predicate Filled(ref: Bytes, s: Site, final: Positions) {
    && s.target in final && s.at + s.width <= |ref|
    && ref[s.at..s.at + s.width] == Displacement(s, final[s.target])
  }

  ghost predicate Simulates(st: State, sites: seq<Site>, ref: Bytes, bound: Positions, final: Positions) {
    && |st.code| == |ref| <= CODE_LIMIT
    && Placed(sites, |ref|)
    && (forall l :: LabelOk(st.code, st.At(l), l, sites, bound))
    && (forall l :: l in bound ==> l in final && final[l] == bound[l])
    && (forall i :: 0 <= i < |sites| ==> Filled(ref, sites[i], final))
    && (forall k :: 0 <= k < |ref| && !Awaited(sites, bound, k) ==> st.code[k] == ref[k])
  }

  // --------------------------------------------------------- lists of placeholders

  /** Later links sit at lower positions, a whole word apart. */
  ghost predicate Descending(f: seq<nat>) {
    forall i, j :: 0 <= i < j < |f| ==> f[j] + 4 <= f[i]
  }

  ghost predicate Ascending(f: seq<nat>) {
    forall i, j :: 0 <= i < j < |f| ==> f[i] < f[j]
  }

  lemma {:induction false} FarMembers(sites: seq<Site>, l: LabelId, a: nat)
    ensures a in FarSites(sites, l) <==> Site(l, a, 4) in sites
  {
    if sites != [] {
      var n := |sites| - 1;
      FarMembers(sites[..n], l, a);
      assert sites == sites[..n] + [sites[n]];
    }
  }

  lemma {:induction false} NearMembers(sites: seq<Site>, l: LabelId, a: nat)
    ensures a in NearSites(sites, l) <==> Site(l, a, 1) in sites
  {
    if sites != [] {
      var n := |sites| - 1;
      NearMembers(sites[..n], l, a);
      assert sites == sites[..n] + [sites[n]];
    }
  }

  lemma PlacedPrefix(sites: seq<Site>, n: nat)
    requires Placed(sites, n) && sites != []
    ensures Placed(sites[..|sites| - 1], sites[|sites| - 1].at) && sites[|sites| - 1].at < n
  {}

  lemma {:induction false} FarSitesAre(sites: seq<Site>, l: LabelId, n: nat)
    requires Placed(sites, n)
    ensures Descending(FarSites(sites, l))
    ensures forall i :: 0 <= i < |FarSites(sites, l)| ==> FarSites(sites, l)[i] + 4 <= n
  {
    if sites != [] {
      PlacedPrefix(sites, n);
      var last := sites[|sites| - 1];
      assert last.at + last.width <= n;
      hide Placed;
      FarSitesAre(sites[..|sites| - 1], l, last.at);
    }
  }

  lemma {:induction false} NearSitesAre(sites: seq<Site>, l: LabelId, n: nat)
    requires Placed(sites, n)
    ensures Ascending(NearSites(sites, l))
    ensures forall i :: 0 <= i < |NearSites(sites, l)| ==> NearSites(sites, l)[i] < n
  {
    if sites != [] {
      PlacedPrefix(sites, n);
      hide Placed;
      NearSitesAre(sites[..|sites| - 1], l, sites[|sites| - 1].at);
    }
  }

  // ----------------------------------------------------------------- links and patches

  /** Links survive any change that leaves the placeholders themselves alone. */
  lemma {:induction false} LinkedFrame(code: Bytes, code': Bytes, position: int, sites: seq<nat>)
    requires Linked(code, position, sites) && |code| <= |code'|
    requires forall i, k :: 0 <= i < |sites| && sites[i] <= k < sites[i] + 4 && k < |code| ==> code'[k] == code[k]
    ensures Linked(code', position, sites)
    decreases |sites|
  {
    if sites != [] {
      SameWord(code, code', sites[0]);
      LinkedFrame(code, code', WordAt(code, sites[0]), sites[1..]);
    }
  }

  lemma {:induction false} LinkedIsChain(code: Bytes, position: int, sites: seq<nat>)
    requires Linked(code, position, sites)
    requires Descending(sites)
    ensures Chain(code, position) == sites
    decreases |sites|
  {
    if sites != [] {
      LinkedIsChain(code, WordAt(code, sites[0]), sites[1..]);
      if |sites| > 1 {
        assert sites[1] == sites[1..][0] && WordAt(code, sites[0]) == sites[1] + 4;
      }
    }
  }

  lemma {:induction false} PatchFarElsewhere(code: Bytes, sites: seq<nat>, bound: nat, k: nat)
    requires k < |code| && forall i :: 0 <= i < |sites| ==> !(sites[i] <= k < sites[i] + 4)
    ensures PatchFar(code, sites, bound)[k] == code[k]
    decreases |sites|
  {
    hide Store, Word;
    if sites != [] {
      PatchFarElsewhere(Store(code, sites[0], Word(bound - (sites[0] + 4))), sites[1..], bound, k);
    }
  }

  lemma PatchFarLeaves(code: Bytes, sites: seq<nat>, bound: nat, at: nat)
    requires at + 4 <= |code| && forall i :: 0 <= i < |sites| ==> sites[i] + 4 <= at
    ensures PatchFar(code, sites, bound)[at..at + 4] == code[at..at + 4]
  {
    var r := PatchFar(code, sites, bound);
    forall k | at <= k < at + 4
      ensures r[k] == code[k]
    {
      PatchFarElsewhere(code, sites, bound, k);
    }
  }

  lemma {:induction false} PatchFarAt(code: Bytes, sites: seq<nat>, bound: nat, i: nat)
    requires Descending(sites)
    requires i < |sites| && sites[i] + 4 <= |code|
    ensures PatchFar(code, sites, bound)[sites[i]..sites[i] + 4] == Word(bound - (sites[i] + 4))
    decreases |sites|
  {
    hide Store, Word;
    var c := Store(code, sites[0], Word(bound - (sites[0] + 4)));
    var rest := sites[1..];
    if i > 0 {
      PatchFarAt(c, rest, bound, i - 1);
    } else {
      PatchFarLeaves(c, rest, bound, sites[0]);
    }
  }

  lemma {:induction false} PatchNearElsewhere(code: Bytes, sites: seq<nat>, bound: nat, k: nat)
    requires k < |code| && k !in sites
    ensures PatchNear(code, sites, bound)[k] == code[k]
    decreases |sites|
  {
    hide Store, LowByte;
    if sites != [] {
      var n := |sites| - 1;
      PatchNearElsewhere(Store(code, sites[n], [LowByte(bound - (sites[n] + 1))]), sites[..n], bound, k);
    }
  }

  lemma {:induction false} PatchNearAt(code: Bytes, sites: seq<nat>, bound: nat, i: nat)
    requires Ascending(sites)
    requires i < |sites| && sites[i] < |code|
    ensures PatchNear(code, sites, bound)[sites[i]] == LowByte(bound - (sites[i] + 1))
    decreases |sites|
  {
    hide Store, LowByte;
    var n := |sites| - 1;
    var c := Store(code, sites[n], [LowByte(bound - (sites[n] + 1))]);
    if i < n {
      PatchNearAt(c, sites[..n], bound, i);
    } else {
      assert c[sites[n]] == c[sites[n]..sites[n] + 1][0];
      assert sites[n] !in sites[..n];
      PatchNearElsewhere(c, sites[..n], bound, sites[n]);
    }
  }

  // ------------------------------------------------------------- emitting an instruction

  lemma SitesExtend(sites: seq<Site>, s: Site, l: LabelId)
    ensures FarSites(sites + [s], l) ==
            if s.target == l && s.width == 4 then [s.at] + FarSites(sites, l) else FarSites(sites, l)
    ensures NearSites(sites + [s], l) ==
            if s.target == l && s.width == 1 then NearSites(sites, l) + [s.at] else NearSites(sites, l)
  {
    assert (sites + [s])[..|sites|] == sites;
  }

  /** What is known about a label survives when code is appended. */
  lemma LabelOkAppend(code: Bytes, more: Bytes, s: LabelState, l: LabelId, sites: seq<Site>, bound: Positions)
    requires LabelOk(code, s, l, sites, bound) && Placed(sites, |code|)
    ensures LabelOk(code + more, s, l, sites, bound)
  {
    if l !in bound {
      FarSitesAre(sites, l, |code|);
      LinkedFrame(code, code + more, s.position, FarSites(sites, l));
    }
  }

  /** An instruction without a placeholder: the reference emits the same bytes. */
  lemma AppendPlain(st: State, st': State, sites: seq<Site>, ref: Bytes, more: Bytes, bound: Positions,
          final: Positions)
    requires Simulates(st, sites, ref, bound, final) && |ref + more| <= CODE_LIMIT
    requires st'.code == st.code + more && forall l :: st'.At(l) == st.At(l)
    ensures Simulates(st', sites, ref + more, bound, final)
  {
    forall l
      ensures LabelOk(st'.code, st'.At(l), l, sites, bound)
    {
      assert LabelOk(st.code, st.At(l), l, sites, bound);
      LabelOkAppend(st.code, more, st.At(l), l, sites, bound);
    }
    forall i | 0 <= i < |sites|
      ensures Filled(ref + more, sites[i], final)
    {
      FilledAppend(ref, more, sites[i], final);
    }
  }

  lemma FilledAppend(ref: Bytes, more: Bytes, s: Site, final: Positions)
    requires Filled(ref, s, final)
    ensures Filled(ref + more, s, final)
  {
    assert (ref + more)[s.at..s.at + s.width] == ref[s.at..s.at + s.width];
  }

  /** A label's own state after a short placeholder for it was emitted. */
  lemma LabelOkNear(code: Bytes, opcode: Bytes, s: LabelState, l: LabelId, sites: seq<Site>, bound: Positions)
    requires LabelOk(code, s, l, sites, bound) && Placed(sites, |code|) && l !in bound
    ensures var at := |code| + |opcode|;
            LabelOk(code + opcode + [0], s.(near := s.near + [at]), l, sites + [Site(l, at, 1)], bound)
  {
    SitesExtend(sites, Site(l, |code| + |opcode|, 1), l);
    LabelOkAppend(code, opcode + [0], s, l, sites, bound);
    Associate(code, opcode, [0]);
    hide Linked, FarSites, NearSites;
  }

  /** A label's own state after a long placeholder was linked in front of the others. */
  lemma LabelOkFar(code: Bytes, opcode: Bytes, s: LabelState, l: LabelId, sites: seq<Site>, bound: Positions)
    requires LabelOk(code, s, l, sites, bound) && Placed(sites, |code|) && l !in bound && |code| <= CODE_LIMIT
    ensures var at := |code| + |opcode|;
            LabelOk(code + opcode + Word(s.position), s.(position := at + 4), l, sites + [Site(l, at, 4)], bound)
  {
    var at, word := |code| + |opcode|, Word(s.position);
    hide Word;
    var code' := code + opcode + word;
    SitesExtend(sites, Site(l, at, 4), l);
    LabelOkAppend(code, opcode + word, s, l, sites, bound);
    Associate(code, opcode, word);
    assert 0 <= s.position <= |code|;
    hide WordAt, NearSites, FarSites;
    assert code'[at..at + 4] == word;
    WordRoundTrip(code', at, s.position);
    assert ([at] + FarSites(sites, l))[1..] == FarSites(sites, l);
  }

  /** A placeholder: the reference emits the final displacement instead. */
  lemma AppendSite(st: State, st': State, sites: seq<Site>, ref: Bytes, opcode: Bytes, hold: Bytes, s: Site,
                   bound: Positions, final: Positions)
    requires Simulates(st, sites, ref, bound, final) && |ref| + |opcode| + s.width <= CODE_LIMIT
    requires s.target !in bound && s.target in final
    requires s.at == |ref| + |opcode| && s.width in {1, 4} && |hold| == s.width
    requires st'.code == st.code + opcode + hold
    requires forall l :: l != s.target ==> st'.At(l) == st.At(l)
    requires LabelOk(st'.code, st'.At(s.target), s.target, sites + [s], bound)
    ensures Simulates(st', sites + [s], ref + opcode + Displacement(s, final[s.target]), bound, final)
  {
    hide LabelOk, Filled, Awaited, Displacement;
    var d := Displacement(s, final[s.target]);
    LabelsAfterSite(st, st', sites, opcode, hold, s, bound);
    FilledAfterSite(sites, ref, opcode, s, final);
    BytesAfterSite(st.code, sites, ref, opcode, hold, d, s, bound);
  }

  lemma LabelsAfterSite(st: State, st': State, sites: seq<Site>, opcode: Bytes, hold: Bytes, s: Site, bound: Positions)
    requires Placed(sites, |st.code|) && forall l :: LabelOk(st.code, st.At(l), l, sites, bound)
    requires st'.code == st.code + opcode + hold
    requires forall l :: l != s.target ==> st'.At(l) == st.At(l)
    requires LabelOk(st'.code, st'.At(s.target), s.target, sites + [s], bound)
    ensures forall l :: LabelOk(st'.code, st'.At(l), l, sites + [s], bound)
  {
    assert st'.code == st.code + (opcode + hold);
    forall l | l != s.target
      ensures LabelOk(st'.code, st'.At(l), l, sites + [s], bound)
    {
      assert LabelOk(st.code, st.At(l), l, sites, bound);
      LabelOkAppend(st.code, opcode + hold, st.At(l), l, sites, bound);
      SitesExtend(sites, s, l);
    }
  }

  lemma FilledAfterSite(sites: seq<Site>, ref: Bytes, opcode: Bytes, s: Site, final: Positions)
    requires forall i :: 0 <= i < |sites| ==> Filled(ref, sites[i], final)
    requires s.target in final && s.at == |ref| + |opcode| && s.width in {1, 4}
    ensures var ref' := ref + opcode + Displacement(s, final[s.target]);
            forall i :: 0 <= i < |sites + [s]| ==> Filled(ref', (sites + [s])[i], final)
  {
    var d := Displacement(s, final[s.target]);
    var ref' := ref + opcode + d;
    assert ref' == ref + (opcode + d);
    forall i | 0 <= i < |sites|
      ensures Filled(ref', sites[i], final)
    {
      FilledAppend(ref, opcode + d, sites[i], final);
    }
  }

  lemma BytesAfterSite(code: Bytes, sites: seq<Site>, ref: Bytes, opcode: Bytes, hold: Bytes, d: Bytes, s: Site,
          bound: Positions)
    requires |code| == |ref| && |hold| == |d| == s.width && s.at == |ref| + |opcode| && s.target !in bound
    requires forall k :: 0 <= k < |ref| && !Awaited(sites, bound, k) ==> code[k] == ref[k]
    ensures forall k :: 0 <= k < |ref + opcode + d| && !Awaited(sites + [s], bound, k) ==>
                          (code + opcode + hold)[k] == (ref + opcode + d)[k]
  {
    forall k | 0 <= k < |ref + opcode + d| && !Awaited(sites + [s], bound, k)
      ensures (code + opcode + hold)[k] == (ref + opcode + d)[k]
    {
      AwaitedExtend(sites, s, bound, k);
    }
  }

  lemma AwaitedExtend(sites: seq<Site>, s: Site, bound: Positions, k: int)
    requires !Awaited(sites + [s], bound, k)
    ensures !Awaited(sites, bound, k) && (s.target !in bound ==> !Covers(s, k))
  {
    assert (sites + [s])[|sites|] == s;
    assert forall i :: 0 <= i < |sites| ==> (sites + [s])[i] == sites[i];
  }

  // --------------------------------------------------------------------- binding a label

  /** The code after all placeholders of `l` were patched. */
  ghost function Patched(code: Bytes, sites: seq<Site>, l: LabelId): (r: Bytes)
    ensures |r| == |code|
  {
    PatchNear(PatchFar(code, FarSites(sites, l), |code|), NearSites(sites, l), |code|)
  }

  lemma BindPatches(code: Bytes, s: LabelState, l: LabelId, sites: seq<Site>, bound: Positions)
    requires LabelOk(code, s, l, sites, bound) && l !in bound && Placed(sites, |code|)
    ensures BindCode(code, s) == Patched(code, sites, l)
  {
    FarSitesAre(sites, l, |code|);
    LinkedIsChain(code, s.position, FarSites(sites, l));
  }

  /** Binding changes no byte outside the placeholders of its own label. */
  lemma BindElsewhere(code: Bytes, sites: seq<Site>, l: LabelId, k: nat)
    requires Placed(sites, |code|) && k < |code|
    requires forall i :: 0 <= i < |sites| && sites[i].target == l ==> !Covers(sites[i], k)
    ensures Patched(code, sites, l)[k] == code[k]
  {
    var f := FarSites(sites, l);
    forall i | 0 <= i < |f|
      ensures !(f[i] <= k < f[i] + 4)
    {
      assert f[i] in f;
      FarMembers(sites, l, f[i]);
      var j :| 0 <= j < |sites| && sites[j] == Site(l, f[i], 4);
      assert !Covers(sites[j], k);
    }
    NearMembers(sites, l, k);
    assert Covers(Site(l, k, 1), k);
    assert Site(l, k, 1) !in sites;
    PatchFarElsewhere(code, f, |code|, k);
    PatchNearElsewhere(PatchFar(code, f, |code|), NearSites(sites, l), |code|, k);
  }

  lemma BindAtFar(code: Bytes, sites: seq<Site>, l: LabelId, i: nat)
    requires Placed(sites, |code|) && i < |sites| && sites[i].target == l && sites[i].width == 4
    ensures var s := sites[i];
            Patched(code, sites, l)[s.at..s.at + 4] == Word(|code| - (s.at + 4))
  {
    hide Store, Word;
    var s := sites[i];
    var f, n := FarSites(sites, l), NearSites(sites, l);
    FarSitesAre(sites, l, |code|);
    FarMembers(sites, l, s.at);
    assert s == Site(l, s.at, 4) && s in sites;
    assert s.at in f;
    var j :| 0 <= j < |f| && f[j] == s.at;
    PatchFarAt(code, f, |code|, j);
    var far, r := PatchFar(code, f, |code|), Patched(code, sites, l);
    forall k | s.at <= k < s.at + 4
      ensures r[k] == far[k]
    {
      NearIsApart(sites, l, i, k, |code|);
      PatchNearElsewhere(far, n, |code|, k);
    }
    assert r[s.at..s.at + 4] == far[s.at..s.at + 4];
  }

  lemma BindAtNear(code: Bytes, sites: seq<Site>, l: LabelId, i: nat)
    requires Placed(sites, |code|) && i < |sites| && sites[i].target == l && sites[i].width == 1
    ensures Patched(code, sites, l)[sites[i].at] == LowByte(|code| - (sites[i].at + 1))
  {
    hide Store, Word;
    var s := sites[i];
    var n := NearSites(sites, l);
    NearSitesAre(sites, l, |code|);
    NearMembers(sites, l, s.at);
    assert s == Site(l, s.at, 1) && s in sites;
    assert s.at in n;
    var j :| 0 <= j < |n| && n[j] == s.at;
    PatchNearAt(PatchFar(code, FarSites(sites, l), |code|), n, |code|, j);
  }

  /** Each placeholder of the label receives the distance to where the label is bound. */
  lemma BindAt(code: Bytes, sites: seq<Site>, l: LabelId, i: nat)
    requires Placed(sites, |code|) && i < |sites| && sites[i].target == l
    ensures var s := sites[i];
            Patched(code, sites, l)[s.at..s.at + s.width] == Displacement(s, |code|)
  {
    if sites[i].width == 4 { BindAtFar(code, sites, l, i); } else { BindAtNear(code, sites, l, i); }
    hide Patched, Word;
  }

  lemma NearIsApart(sites: seq<Site>, l: LabelId, i: nat, k: nat, n: nat)
    requires Placed(sites, n) && i < |sites| && sites[i].width == 4 && Covers(sites[i], k)
    ensures k !in NearSites(sites, l)
  {
    NearMembers(sites, l, k);
    forall j | 0 <= j < |sites|
      ensures sites[j] != Site(l, k, 1)
    {
      if j != i { ApartSites(sites, n, i, j, k); }
    }
  }

  lemma ApartSites(sites: seq<Site>, n: nat, i: nat, j: nat, k: int)
    requires Placed(sites, n) && i < |sites| && j < |sites| && i != j
    ensures !(Covers(sites[i], k) && Covers(sites[j], k))
  {
    assert i < j || j < i;
  }

  /** Labels other than the bound one keep their links. */
  lemma BindOthers(code: Bytes, sites: seq<Site>, l: LabelId, o: LabelId, s: LabelState, bound: Positions)
    requires Placed(sites, |code|) && LabelOk(code, s, o, sites, bound) && o != l
    ensures LabelOk(Patched(code, sites, l), s, o, sites, bound[l := |code|])
  {
    if o !in bound {
      var f, r := FarSites(sites, o), Patched(code, sites, l);
      forall i, k | 0 <= i < |f| && f[i] <= k < f[i] + 4 && k < |code|
        ensures r[k] == code[k]
      {
        assert f[i] in f;
        FarMembers(sites, o, f[i]);
        var j :| 0 <= j < |sites| && sites[j] == Site(o, f[i], 4);
        assert Covers(sites[j], k);
        BindElsewhere(code, sites, l, k);
      }
      LinkedFrame(code, r, s.position, f);
    }
  }

  /** After binding, only placeholders of still unbound labels differ from the reference. */
  lemma BindBytes(code: Bytes, sites: seq<Site>, ref: Bytes, l: LabelId, bound: Positions, final: Positions, k: nat)
    requires |code| == |ref| && Placed(sites, |code|) && l !in bound && l in final && final[l] == |code|
    requires forall i :: 0 <= i < |sites| ==> Filled(ref, sites[i], final)
    requires k < |ref| && (!Awaited(sites, bound, k) ==> code[k] == ref[k])
    requires !Awaited(sites, bound[l := |code|], k)
    ensures Patched(code, sites, l)[k] == ref[k]
  {
    hide Patched, Displacement;
    if i :| 0 <= i < |sites| && sites[i].target == l && Covers(sites[i], k) {
      var s := sites[i];
      BindAt(code, sites, l, i);
      assert Filled(ref, s, final);
      assert Patched(code, sites, l)[k] == Patched(code, sites, l)[s.at..s.at + s.width][k - s.at];
      assert ref[k] == ref[s.at..s.at + s.width][k - s.at];
    } else {
      BindElsewhere(code, sites, l, k);
    }
  }

  lemma BindStep(st: State, sites: seq<Site>, ref: Bytes, l: LabelId, bound: Positions, final: Positions)
    requires Simulates(st, sites, ref, bound, final)
    requires l !in bound && l in final && final[l] == |ref|
    ensures Simulates(Step(st, Bind(l)), sites, ref, bound[l := |ref|], final)
  {
    hide Filled, Awaited, Patched, BindCode, Linked;
    var st', bound' := Step(st, Bind(l)), bound[l := |ref|];
    assert LabelOk(st.code, st.At(l), l, sites, bound);
    BindPatches(st.code, st.At(l), l, sites, bound);
    forall o
      ensures LabelOk(st'.code, st'.At(o), o, sites, bound')
    {
      if o != l {
        assert LabelOk(st.code, st.At(o), o, sites, bound);
        BindOthers(st.code, sites, l, o, st.At(o), bound);
      }
    }
    forall k | 0 <= k < |ref| && !Awaited(sites, bound', k)
      ensures st'.code[k] == ref[k]
    {
      BindBytes(st.code, sites, ref, l, bound, final, k);
    }
  }

  // ----------------------------------------------------------------------- whole programs

  lemma EncodeSize(i: Instr, at: nat, bound: Positions, final: Positions)
    requires LegalOp(i) && Targets(i, final)
    ensures |Encode(i, at, bound, final)| == Size(i, at, bound)
  {}

  /** A jump to a bound label writes the distance back to it. */
  lemma JumpBack(st: State, op: Jump, l: LabelId, near: bool, sites: seq<Site>, ref: Bytes, bound: Positions,
          final: Positions)
    requires Simulates(st, sites, ref, bound, final) && op.Legal() && l in bound
    requires |ref| + Size(JumpTo(op, l, near), |ref|, bound) <= CODE_LIMIT
    ensures Simulates(Step(st, JumpTo(op, l, near)), sites, ref + Encode(JumpTo(op, l, near), |ref|, bound, final),
            bound, final)
  {
    assert LabelOk(st.code, st.At(l), l, sites, bound);
    var more := Encode(JumpTo(op, l, near), |ref|, bound, final);
    var st' := Step(st, JumpTo(op, l, near));
    assert st'.code == st.code + more;
    hide Simulates, Encode;
    AppendPlain(st, st', sites, ref, more, bound, final);
  }

  /** What the invariant says about one unbound label. */
  lemma UnboundLabel(st: State, l: LabelId, sites: seq<Site>, ref: Bytes, bound: Positions, final: Positions)
    requires Simulates(st, sites, ref, bound, final) && l !in bound
    ensures LabelOk(st.code, st.At(l), l, sites, bound) && st.At(l).position >= 0
    ensures |st.code| == |ref| <= CODE_LIMIT && Placed(sites, |st.code|)
  {
    assert LabelOk(st.code, st.At(l), l, sites, bound);
    assert FarSites(sites, l) != [] ==> FarSites(sites, l)[0] >= 0;
  }

  /** Emitting a placeholder for an unbound label. */
  lemma LinkAhead(st: State, st': State, l: LabelId, near: bool, opcode: Bytes, sites: seq<Site>, ref: Bytes,
                  bound: Positions, final: Positions)
    requires Simulates(st, sites, ref, bound, final) && l !in bound && l in final
    requires |ref| + |opcode| + 4 <= CODE_LIMIT || (near && |ref| + |opcode| + 1 <= CODE_LIMIT)
    requires st'.code == st.code + opcode + if near then [0] else Word(st.At(l).position)
    requires st'.At(l) == if near then st.At(l).(near := st.At(l).near + [|st.code| + |opcode|])
                          else st.At(l).(position := |st.code| + |opcode| + 4)
    requires forall o :: o != l ==> st'.At(o) == st.At(o)
    ensures var site := Site(l, |ref| + |opcode|, if near then 1 else 4);
            Simulates(st', sites + [site], ref + opcode + Displacement(site, final[l]), bound, final)
  {
    hide Simulates, LabelOk, Displacement;
    var hold := if near then [0] else Word(st.At(l).position);
    UnboundLabel(st, l, sites, ref, bound, final);
    if near {
      LabelOkNear(st.code, opcode, st.At(l), l, sites, bound);
    } else {
      LabelOkFar(st.code, opcode, st.At(l), l, sites, bound);
    }
    AppendSite(st, st', sites, ref, opcode, hold, Site(l, |ref| + |opcode|, if near then 1 else 4), bound, final);
  }

  lemma JumpAhead(st: State, op: Jump, l: LabelId, near: bool, sites: seq<Site>, ref: Bytes, bound: Positions,
          final: Positions)
    requires Simulates(st, sites, ref, bound, final) && op.Legal() && l !in bound && l in final
    requires |ref| + Size(JumpTo(op, l, near), |ref|, bound) <= CODE_LIMIT
    ensures var i := JumpTo(op, l, near);
            Simulates(Step(st, i), sites + SitesOf(i, |ref|, bound), ref + Encode(i, |ref|, bound, final), bound, final)
  {
    hide Simulates, LabelOk;
    var i := JumpTo(op, l, near);
    UnboundLabel(st, l, sites, ref, bound, final);
    var opcode := if near then op.ShortOpcode() else op.LongOpcode();
    LinkAhead(st, Step(st, i), l, near, opcode, sites, ref, bound, final);
    var site := Site(l, |ref| + |opcode|, if near then 1 else 4);
    assert ref + Encode(i, |ref|, bound, final) == ref + opcode + Displacement(site, final[l]);
  }

  lemma CallBack(st: State, l: LabelId, sites: seq<Site>, ref: Bytes, bound: Positions, final: Positions)
    requires Simulates(st, sites, ref, bound, final) && l in bound && |ref| + 5 <= CODE_LIMIT
    ensures Simulates(Step(st, CallTo(l)), sites, ref + Encode(CallTo(l), |ref|, bound, final), bound, final)
  {
    assert LabelOk(st.code, st.At(l), l, sites, bound);
    var more := Encode(CallTo(l), |ref|, bound, final);
    var st' := Step(st, CallTo(l));
    assert st'.code == st.code + more;
    hide Simulates, Encode;
    AppendPlain(st, st', sites, ref, more, bound, final);
  }

  lemma CallAhead(st: State, l: LabelId, sites: seq<Site>, ref: Bytes, bound: Positions, final: Positions)
    requires Simulates(st, sites, ref, bound, final) && l !in bound && l in final && |ref| + 5 <= CODE_LIMIT
    ensures Simulates(Step(st, CallTo(l)), sites + SitesOf(CallTo(l), |ref|, bound),
                      ref + Encode(CallTo(l), |ref|, bound, final), bound, final)
  {
    hide Simulates, LabelOk;
    UnboundLabel(st, l, sites, ref, bound, final);
    LinkAhead(st, Step(st, CallTo(l)), l, false, [CALL], sites, ref, bound, final);
    var site := Site(l, |ref| + 1, 4);
    assert ref + Encode(CallTo(l), |ref|, bound, final) == ref + [CALL] + Displacement(site, final[l]);
  }

  /** Every instruction keeps the one-pass code in step with the reference code. */
  lemma StepSimulates(st: State, i: Instr, sites: seq<Site>, ref: Bytes, bound: Positions, final: Positions)
    requires Simulates(st, sites, ref, bound, final)
    requires LegalOp(i) && Targets(i, final) && |ref| + Size(i, |ref|, bound) <= CODE_LIMIT
    requires i.Bind? ==> i.target !in bound && final[i.target] == |ref|
    ensures Simulates(Step(st, i), sites + SitesOf(i, |ref|, bound), ref + Encode(i, |ref|, bound, final),
                      BoundAfter(i, |ref|, bound), final)
  {
    var more := Encode(i, |ref|, bound, final);
    EncodeSize(i, |ref|, bound, final);
    hide Simulates;
    match i {
      case JumpTo(op, l, near) =>
        if l in bound {
          JumpBack(st, op, l, near, sites, ref, bound, final);
          assert sites + [] == sites;
        } else {
          JumpAhead(st, op, l, near, sites, ref, bound, final);
        }
      case CallTo(l) =>
        if l in bound {
          CallBack(st, l, sites, ref, bound, final);
          assert sites + [] == sites;
        } else {
          CallAhead(st, l, sites, ref, bound, final);
        }
      case Bind(l) =>
        BindStep(st, sites, ref, l, bound, final);
        assert sites + [] == sites && ref + [] == ref;
      case _ =>
        assert Step(st, i).code == st.code + more;
        AppendPlain(st, Step(st, i), sites, ref, more, bound, final);
        assert sites + [] == sites;
    }
  }

  lemma {:induction false} LayoutKeeps(prog: seq<Instr>, at: nat, bound: Positions, final: Positions)
    requires LegalProgram(prog) && WellBound(prog, at, bound, final)
    ensures forall l :: l in bound ==> l in Layout(prog, at, bound) && Layout(prog, at, bound)[l] == bound[l]
    decreases |prog|
  {
    if prog != [] {
      LayoutKeeps(prog[1..], at + Size(prog[0], at, bound), BoundAfter(prog[0], at, bound), final);
    }
  }

  lemma {:induction false} EndGrows(prog: seq<Instr>, at: nat, bound: Positions)
    requires LegalProgram(prog)
    ensures at <= EndOf(prog, at, bound)
    decreases |prog|
  {
    if prog != [] {
      EndGrows(prog[1..], at + Size(prog[0], at, bound), BoundAfter(prog[0], at, bound));
    }
  }

  lemma StepFixups(st: State, i: Instr)
    requires LegalOp(i)
    ensures Step(st, i).fixups == FixupOf(i, |st.code|) + st.fixups
  {
    hide EmitJump, EmitCall, BindCode, Word;
    if FixupOf(i, |st.code|) == [] {
      assert Step(st, i).fixups == st.fixups;
    }
  }

  /** What one more instruction at the front needs from, and adds to, the rest of the program. */
  lemma Advance(prog: seq<Instr>, ref: Bytes, bound: Positions, final: Positions)
    requires LegalProgram(prog) && prog != []
    requires WellBound(prog, |ref|, bound, final) && final == Layout(prog, |ref|, bound)
    requires EndOf(prog, |ref|, bound) <= CODE_LIMIT
    ensures LegalOp(prog[0]) && Targets(prog[0], final) && LegalProgram(prog[1..])
    ensures var i, ref' := prog[0], ref + Encode(prog[0], |ref|, bound, final);
            var bound' := BoundAfter(i, |ref|, bound);
            && |ref'| == |ref| + Size(i, |ref|, bound) <= CODE_LIMIT
            && (i.Bind? ==> i.target !in bound && final[i.target] == |ref|)
            && WellBound(prog[1..], |ref'|, bound', final) && final == Layout(prog[1..], |ref'|, bound')
            && EndOf(prog[1..], |ref'|, bound') <= CODE_LIMIT
  {
    EncodeSize(prog[0], |ref|, bound, final);
    hide Encode, Size, LegalOp, Targets;
    var i, ref' := prog[0], ref + Encode(prog[0], |ref|, bound, final);
    EndGrows(prog[1..], |ref'|, BoundAfter(i, |ref|, bound));
    LayoutKeeps(prog[1..], |ref'|, BoundAfter(i, |ref|, bound), final);
  }

  lemma ReferenceAdvance(prog: seq<Instr>, at: nat, bound: Positions, final: Positions)
    requires LegalProgram(prog) && prog != [] && WellBound(prog, at, bound, final)
    ensures Reference(prog, at, bound, final) ==
            Encode(prog[0], at, bound, final) +
            Reference(prog[1..], at + Size(prog[0], at, bound), BoundAfter(prog[0], at, bound), final)
  {
    hide Size, LegalOp, Encode, Targets, BoundAfter, Layout;
  }

  lemma FixupsAdvance(prog: seq<Instr>, at: nat, bound: Positions)
    requires LegalProgram(prog) && prog != []
    ensures Fixups(prog, at, bound) ==
            Fixups(prog[1..], at + Size(prog[0], at, bound), BoundAfter(prog[0], at, bound)) + FixupOf(prog[0], at)
  {
    hide Size, LegalOp, FixupOf, BoundAfter;
  }

  lemma {:induction false} RunSimulates(st: State, prog: seq<Instr>, sites: seq<Site>, ref: Bytes, bound: Positions,
          final: Positions)
    returns (sites': seq<Site>)
    requires LegalProgram(prog) && Simulates(st, sites, ref, bound, final)
    requires WellBound(prog, |ref|, bound, final) && final == Layout(prog, |ref|, bound)
    requires EndOf(prog, |ref|, bound) <= CODE_LIMIT
    ensures Simulates(Run(st, prog), sites', ref + Reference(prog, |ref|, bound, final), final, final)
    ensures Run(st, prog).fixups == Fixups(prog, |ref|, bound) + st.fixups
    decreases |prog|
  {
    if prog == [] {
      assert ref + [] == ref;
      assert [] + st.fixups == st.fixups;
      sites' := sites;
    } else {
      assert |st.code| == |ref|;
      hide Simulates, Encode, Step, FixupOf, Size, SitesOf, Targets, LegalOp, Reference, WellBound, Layout, EndOf,
          Fixups, BoundAfter;
      var i := prog[0];
      Advance(prog, ref, bound, final);
      FixupsAdvance(prog, |ref|, bound);
      ReferenceAdvance(prog, |ref|, bound, final);
      var ref', bound' := ref + Encode(i, |ref|, bound, final), BoundAfter(i, |ref|, bound);
      StepSimulates(st, i, sites, ref, bound, final);
      StepFixups(st, i);
      sites' := RunSimulates(Step(st, i), prog[1..], sites + SitesOf(i, |ref|, bound), ref', bound', final);
      Associate(Fixups(prog[1..], |ref'|, bound'), FixupOf(i, |ref|), st.fixups);
      Associate(ref, Encode(i, |ref|, bound, final), Reference(prog[1..], |ref'|, bound', final));
    }
  }

  const START: State := State([], map[], [])

  /** A program that a caller may give to the assembler: each label is bound once, every
      target is bound somewhere, and the code fits. */
  predicate Acceptable(prog: seq<Instr>) {
    && LegalProgram(prog)
    && WellBound(prog, 0, map[], Layout(prog, 0, map[]))
    && EndOf(prog, 0, map[]) <= CODE_LIMIT
  }

  function ReferenceCode(prog: seq<Instr>): Bytes
    requires Acceptable(prog)
  {
    Reference(prog, 0, map[], Layout(prog, 0, map[]))
  }

  /** Main theorem: once all labels are bound, chained and stacked placeholders have all been
      patched to exactly the bytes of the assembler that knew the positions in advance. */
  lemma OnePassIsReference(prog: seq<Instr>)
    requires Acceptable(prog)
    ensures Run(START, prog).code == ReferenceCode(prog)
    ensures Run(START, prog).fixups == Fixups(prog, 0, map[])
  {
    var final := Layout(prog, 0, map[]);
    var sites := RunSimulates(START, prog, [], [], map[], final);
    assert [] + ReferenceCode(prog) == ReferenceCode(prog);
    assert Fixups(prog, 0, map[]) + [] == Fixups(prog, 0, map[]);
    var code := Run(START, prog).code;
    forall k | 0 <= k < |code|
      ensures code[k] == ReferenceCode(prog)[k]
    {
      assert forall i :: 0 <= i < |sites| ==> Filled(ReferenceCode(prog), sites[i], final);
      assert !Awaited(sites, final, k);
    }
  }
}
