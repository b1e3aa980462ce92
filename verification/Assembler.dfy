/** The assembler as it runs: a byte buffer that is reallocated as it fills, labels updated in
    place, and the loops that bind a label and process the fixup chain. Every method is proved
    to compute the corresponding function of `Labels` or `Finalization`. */
module Assembler {
  import opened Words
  import opened Labels
  import opened LabelReference
  import opened Finalization

  const INITIAL_CAPACITY: nat := 4096
  const MEGABYTE: nat := 0x10_0000
  const MINIMUM_GAP: nat := 32

  class Label {
    var position: int
    var unresolved: nat
    const nearPositions: array<nat>

    ghost predicate Valid()
      reads this, nearPositions
    {
      nearPositions.Length == MAX_NEAR && unresolved <= MAX_NEAR
    }

    ghost function State(): LabelState
      requires Valid()
      reads this, nearPositions
    {
      LabelState(position, nearPositions[..unresolved])
    }

    constructor ()
      ensures Valid() && State() == UNUSED && fresh(nearPositions)
    {
      position, unresolved := 0, 0;
      nearPositions := new nat[MAX_NEAR];
    }
  }

  /** Every link points to a whole word further down, and the last one ends the chain. */
  ghost predicate ChainSound(code: Bytes, position: int)
    decreases if position < 0 then 0 else position
  {
    position == 0 ||
    (&& 4 <= position <= |code|
     && 0 <= WordAt(code, position - 4) <= position - 4
     && ChainSound(code, WordAt(code, position - 4)))
  }

  lemma {:induction false} LinkedIsSound(code: Bytes, position: int, sites: seq<nat>)
    requires Linked(code, position, sites) && Descending(sites)
    ensures ChainSound(code, position)
    decreases |sites|
  {
    if sites != [] {
      LinkedIsSound(code, WordAt(code, sites[0]), sites[1..]);
      if |sites| > 1 {
        assert sites[1] == sites[1..][0];
      }
    }
  }

  /** The chain from `position` only looks at bytes below it. */
  lemma {:induction false} ChainBelow(code: Bytes, code': Bytes, position: int)
    requires ChainSound(code, position) && |code'| == |code|
    requires forall k :: 0 <= k < position <= |code| ==> code'[k] == code[k]
    ensures ChainSound(code', position) && Chain(code', position) == Chain(code, position)
    decreases if position < 0 then 0 else position
  {
    if position != 0 {
      SameWord(code, code', position - 4);
      hide WordAt;
      ChainBelow(code, code', WordAt(code, position - 4));
    }
  }

  ghost predicate Separate(labels: seq<Label>) {
    forall i, j :: 0 <= i < j < |labels| ==>
      labels[i] != labels[j] && labels[i].nearPositions != labels[j].nearPositions
  }

  function Target(i: Instr): int {
    if i.JumpTo? || i.CallTo? || i.Bind? then i.target else -1
  }

  /** The label's stack of short placeholders has room. */
  predicate NearFits(st: State, i: Instr) {
    i.JumpTo? && i.near && !st.At(i.target).IsBound() ==> |st.At(i.target).near| < MAX_NEAR
  }

  ghost predicate BindReady(st: State, l: LabelId) {
    && !st.At(l).IsBound() && ChainSound(st.code, st.At(l).position)
    && forall k :: 0 <= k < |st.At(l).near| ==> st.At(l).near[k] < |st.code|
  }

  predicate ProgramNearFits(st: State, prog: seq<Instr>)
    requires LegalProgram(prog)
    decreases |prog|
  {
    prog == [] || (NearFits(st, prog[0]) && ProgramNearFits(Step(st, prog[0]), prog[1..]))
  }

  /** A run under way: the state so far, what is still to emit, and the simulation's witnesses. */
  datatype Track = Track(st: State, prog: seq<Instr>, sites: seq<Site>, ref: Bytes, bound: Positions)

  ghost predicate Tracks(t: Track, final: Positions) {
    && LegalProgram(t.prog) && ProgramNearFits(t.st, t.prog)
    && Simulates(t.st, t.sites, t.ref, t.bound, final)
    && WellBound(t.prog, |t.ref|, t.bound, final) && final == Layout(t.prog, |t.ref|, t.bound)
    && EndOf(t.prog, |t.ref|, t.bound) <= CODE_LIMIT
  }

  ghost function Next(t: Track, final: Positions): Track
    requires t.prog != [] && LegalOp(t.prog[0]) && Targets(t.prog[0], final)
  {
    var i, at := t.prog[0], |t.ref|;
    Track(Step(t.st, i), t.prog[1..], t.sites + SitesOf(i, at, t.bound), t.ref + Encode(i, at, t.bound, final),
        BoundAfter(i, at, t.bound))
  }

  lemma EmptyTracks(prog: seq<Instr>)
    requires Acceptable(prog) && ProgramNearFits(START, prog)
    ensures Tracks(Track(START, prog, [], [], map[]), Layout(prog, 0, map[]))
  {}

  lemma TrackReady(t: Track, final: Positions)
    requires Tracks(t, final) && t.prog != []
    ensures LegalOp(t.prog[0]) && Targets(t.prog[0], final) && NearFits(t.st, t.prog[0])
    ensures t.prog[0].Bind? ==> BindReady(t.st, t.prog[0].target)
  {
    Advance(t.prog, t.ref, t.bound, final);
    hide Simulates, Layout, EndOf, Size, Encode, Step;
    if t.prog[0].Bind? {
      var l := t.prog[0].target;
      UnboundLabel(t.st, l, t.sites, t.ref, t.bound, final);
      FarSitesAre(t.sites, l, |t.st.code|);
      NearSitesAre(t.sites, l, |t.st.code|);
      LinkedIsSound(t.st.code, t.st.At(l).position, FarSites(t.sites, l));
    }
  }

  lemma TrackStep(t: Track, final: Positions)
    requires Tracks(t, final) && t.prog != []
    ensures LegalOp(t.prog[0]) && Targets(t.prog[0], final)
    ensures Tracks(Next(t, final), final)
    ensures LegalProgram(t.prog) && LegalProgram(t.prog[1..])
    ensures Run(Next(t, final).st, t.prog[1..]) == Run(t.st, t.prog)
  {
    Advance(t.prog, t.ref, t.bound, final);
    hide Simulates, Encode, Step, Size, SitesOf, Targets, LegalOp, BoundAfter;
    StepSimulates(t.st, t.prog[0], t.sites, t.ref, t.bound, final);
  }

  lemma {:induction false} FixupsWithin(prog: seq<Instr>, at: nat, bound: Positions, f: Fixup)
    requires LegalProgram(prog) && f in Fixups(prog, at, bound)
    ensures f.at + 4 <= EndOf(prog, at, bound)
    decreases |prog|
  {
    assert prog != [];
    EndAdvance(prog, at, bound);
    var at', bound' := at + Size(prog[0], at, bound), BoundAfter(prog[0], at, bound);
    FixupsAdvance(prog, at, bound);
    if f in Fixups(prog[1..], at', bound') {
      FixupsWithin(prog[1..], at', bound', f);
    } else {
      assert f in FixupOf(prog[0], at);
      assert f.at + 4 == at';
    }
  }

  lemma FixupsFit(prog: seq<Instr>)
    requires Acceptable(prog)
    ensures forall f :: f in Run(START, prog).fixups ==> f.at + 4 <= |Run(START, prog).code|
  {
    OnePassIsReference(prog);
    WholeSize(prog, 0, map[], Layout(prog, 0, map[]));
    forall f | f in Fixups(prog, 0, map[])
      ensures f.at + 4 <= EndOf(prog, 0, map[])
    {
      FixupsWithin(prog, 0, map[], f);
    }
  }

  class Assembler {
    var contents: array<byte>
    var size: nat
    var fixups: seq<Fixup>
    var pointerOffsets: seq<nat>

    /** Unwritten bytes hold the breakpoint instruction. */
    ghost predicate Valid()
      reads this, contents
    {
      && INITIAL_CAPACITY <= contents.Length && size <= contents.Length
      && forall k :: size <= k < contents.Length ==> contents[k] == BREAKPOINT
    }

    ghost function Code(): (c: Bytes)
      requires Valid()
      reads this, contents
      ensures |c| == size
    {
      contents[..size]
    }

    constructor ()
      ensures Valid() && Code() == [] && fixups == [] && pointerOffsets == [] && fresh(contents)
    {
      contents := new byte[INITIAL_CAPACITY](_ => BREAKPOINT);
      size, fixups, pointerOffsets := 0, [], [];
    }

    /** Room for one more instruction; the code itself is unchanged when the buffer moves. */
    method EnsureCapacity()
      requires Valid()
      modifies this`contents
      ensures Valid() && Code() == old(Code()) && size + MINIMUM_GAP <= contents.Length
      ensures contents == old(contents) || fresh(contents)
    {
      if size >= contents.Length - MINIMUM_GAP {
        ExtendCapacity();
      }
    }

    method ExtendCapacity()
      requires Valid()
      modifies this`contents
      ensures Valid() && Code() == old(Code()) && fresh(contents)
      ensures contents.Length == if old(contents.Length) <= MEGABYTE then 2 * old(contents.Length)
                                 else old(contents.Length) + MEGABYTE
    {
      var oldContents, oldSize, oldCapacity := contents, size, contents.Length;
      var newCapacity := if oldCapacity * 2 < oldCapacity + MEGABYTE then oldCapacity * 2 else oldCapacity + MEGABYTE;
      var newContents := new byte[newCapacity](_ => BREAKPOINT);
      for k := 0 to oldSize
        invariant newContents[..k] == oldContents[..k]
        invariant forall j :: k <= j < newCapacity ==> newContents[j] == BREAKPOINT
      {
        newContents[k] := oldContents[k];
      }
      contents := newContents;
    }

    method EmitByte(b: byte)
      requires Valid() && size < contents.Length
      modifies this`size, contents
      ensures Valid() && Code() == old(Code()) + [b]
    {
      contents[size] := b;
      size := size + 1;
    }

    method EmitBytes(bytes: Bytes)
      requires Valid() && size + |bytes| <= contents.Length
      modifies this`size, contents
      ensures Valid() && Code() == old(Code()) + bytes
    {
      for k := 0 to |bytes|
        invariant Valid() && size + (|bytes| - k) <= contents.Length
        invariant Code() == old(Code()) + bytes[..k]
      {
        EmitByte(bytes[k]);
      }
      assert bytes[..|bytes|] == bytes;
    }

    method LoadWord(at: nat) returns (v: int)
      requires Valid() && at + 4 <= size
      ensures v == WordAt(Code(), at)
    {
      v := WordAt(contents[..size], at);
    }

    method StoreBytes(at: nat, bytes: Bytes)
      requires Valid() && at + |bytes| <= size
      modifies contents
      ensures Valid() && Code() == Store(old(Code()), at, bytes)
    {
      for k := 0 to |bytes|
        invariant Valid()
        invariant Code() == old(Code())[..at] + bytes[..k] + old(Code())[at + k..]
      {
        contents[at + k] := bytes[k];
      }
    }

    method EmitLabelLink(lbl: Label)
      requires Valid() && lbl.Valid() && lbl.position >= 0 && size + 4 <= contents.Length
      modifies this`size, contents, lbl`position
      ensures Valid() && lbl.Valid()
      ensures (Code(), lbl.State()) == Labels.EmitLabelLink(old(Code()), old(lbl.State()))
    {
      var at := size;
      EmitBytes(Word(lbl.position));
      lbl.position := at + 4;
    }

    method EmitNearLabelLink(lbl: Label)
      requires Valid() && lbl.Valid() && lbl.unresolved < MAX_NEAR && size < contents.Length
      modifies this`size, contents, lbl, lbl.nearPositions
      ensures Valid() && lbl.Valid() && Code() == old(Code()) + [0]
      ensures lbl.State() == old(lbl.State()).(near := old(lbl.State()).near + [old(size)])
    {
      var at := size;
      EmitByte(0);
      lbl.nearPositions[lbl.unresolved] := at;
      lbl.unresolved := lbl.unresolved + 1;
    }

    /** `j` and `jmp`. */
    method Jmp(op: Jump, lbl: Label, near: bool)
      requires Valid() && lbl.Valid() && op.Legal()
      requires lbl.position >= 0 && near ==> lbl.unresolved < MAX_NEAR
      modifies this`contents, this`size, contents, lbl, lbl.nearPositions
      ensures Valid() && lbl.Valid() && (contents == old(contents) || fresh(contents))
      ensures (Code(), lbl.State()) == EmitJump(old(Code()), old(lbl.State()), op, near)
    {
      hide Word, LowByte, IsInt8;
      EnsureCapacity();
      if lbl.position < 0 {
        var offset := -lbl.position - 4 - size;
        if IsInt8(offset - 2) {
          EmitBytes(op.ShortOpcode());
          EmitByte(LowByte(offset - 2));
        } else {
          EmitBytes(op.LongOpcode());
          EmitBytes(Word(offset - (|op.LongOpcode()| + 4)));
        }
      } else if near {
        EmitBytes(op.ShortOpcode());
        EmitNearLabelLink(lbl);
      } else {
        EmitBytes(op.LongOpcode());
        EmitLabelLink(lbl);
      }
    }

    method Call(lbl: Label)
      requires Valid() && lbl.Valid()
      modifies this`contents, this`size, contents, lbl`position
      ensures Valid() && lbl.Valid() && (contents == old(contents) || fresh(contents))
      ensures (Code(), lbl.State()) == EmitCall(old(Code()), old(lbl.State()))
    {
      EnsureCapacity();
      EmitByte(CALL);
      if lbl.position < 0 {
        var offset := -lbl.position - 4 - size;
        EmitBytes(Word(offset - 5));
      } else {
        EmitLabelLink(lbl);
      }
    }

    /** Follows the links and writes the distance to `bound` into each long placeholder. */
    method PatchLinks(lbl: Label, bound: nat)
      requires Valid() && lbl.position >= 0 && ChainSound(Code(), lbl.position)
      modifies contents, lbl`position
      ensures Valid() && lbl.position == 0
      ensures Code() == PatchFar(old(Code()), Chain(old(Code()), old(lbl.position)), bound)
    {
      hide WordAt, Word, Store;
      ghost var far := PatchFar(Code(), Chain(Code(), lbl.position), bound);
      while lbl.position > 0
        invariant Valid() && ChainSound(Code(), lbl.position)
        invariant PatchFar(Code(), Chain(Code(), lbl.position), bound) == far
        decreases lbl.position
      {
        ghost var code := Code();
        var at := lbl.position - 4;
        var next := LoadWord(at);
        StoreBytes(at, Word(bound - (at + 4)));
        lbl.position := next;
        ChainBelow(code, Code(), next);
        assert ([at] + Chain(code, next))[1..] == Chain(code, next);
      }
    }

    /** Pops the short placeholders and writes the distance to `bound` into each. */
    method PatchNearLinks(lbl: Label, bound: nat)
      requires Valid() && lbl.Valid() && contents as object != lbl.nearPositions as object
      requires forall k :: 0 <= k < lbl.unresolved ==> lbl.nearPositions[k] < size
      modifies contents, lbl`unresolved
      ensures Valid() && lbl.unresolved == 0
      ensures Code() == PatchNear(old(Code()), old(lbl.nearPositions[..lbl.unresolved]), bound)
    {
      hide LowByte, Store;
      ghost var near, code := lbl.nearPositions[..lbl.unresolved], Code();
      assert near[..|near|] == near;
      while lbl.unresolved > 0
        invariant Valid() && lbl.Valid() && lbl.unresolved <= |near|
        invariant lbl.nearPositions[..] == old(lbl.nearPositions[..])
        invariant PatchNear(Code(), near[..lbl.unresolved], bound) == PatchNear(code, near, bound)
        decreases lbl.unresolved
      {
        ghost var n := lbl.unresolved - 1;
        assert near[..n + 1][..n] == near[..n] && near[..n + 1][n] == near[n];
        lbl.unresolved := lbl.unresolved - 1;
        var at := lbl.nearPositions[lbl.unresolved];
        assert at == near[n];
        StoreBytes(at, [LowByte(bound - (at + 1))]);
      }
    }

    /** Resolves every placeholder of the label to the current position. */
    method Bind(lbl: Label)
      requires Valid() && lbl.Valid() && !lbl.State().IsBound()
      requires ChainSound(Code(), lbl.position)
      requires forall k :: 0 <= k < lbl.unresolved ==> lbl.nearPositions[k] < size
      requires contents as object != lbl.nearPositions as object
      modifies contents, lbl
      ensures Valid() && lbl.Valid()
      ensures Code() == BindCode(old(Code()), old(lbl.State()))
      ensures lbl.State() == LabelState(0 - size - 4, [])
    {
      hide PatchFar, PatchNear, Chain, ChainSound;
      var bound: int := size;
      PatchLinks(lbl, bound);
      PatchNearLinks(lbl, bound);
      lbl.position := -bound - 4;
    }

    /** Any instruction without labels or fixups. */
    method EmitInstruction(bytes: Bytes)
      requires Valid() && |bytes| <= MAX_INSTRUCTION
      modifies this`contents, this`size, contents
      ensures Valid() && (contents == old(contents) || fresh(contents))
      ensures Code() == old(Code()) + bytes
    {
      EnsureCapacity();
      EmitBytes(bytes);
    }

    /** A call or jump to an absolute address, to be made relative at finalization. */
    method EmitExternal(opcode: Bytes, address: nat)
      requires Valid() && |opcode| <= 2
      modifies this`contents, this`size, this`fixups, contents
      ensures Valid() && (contents == old(contents) || fresh(contents))
      ensures Code() == old(Code()) + opcode + Word(address)
      ensures fixups == [Fixup(old(size) + |opcode|, Relocation)] + old(fixups)
    {
      EnsureCapacity();
      EmitBytes(opcode);
      fixups := [Fixup(size, Relocation)] + fixups;
      EmitBytes(Word(address));
    }

    /** An instruction that ends in an object pointer: the slot is only reserved. */
    method EmitWithObject(opcode: Bytes, handle: nat)
      requires Valid() && |opcode| + 4 <= MAX_INSTRUCTION
      modifies this`contents, this`size, this`fixups, contents
      ensures Valid() && (contents == old(contents) || fresh(contents))
      ensures Code() == old(Code()) + opcode + RESERVED
      ensures fixups == [Fixup(old(size) + |opcode|, Handle(handle))] + old(fixups)
    {
      EnsureCapacity();
      EmitBytes(opcode);
      fixups := [Fixup(size, Handle(handle))] + fixups;
      size := size + 4;
    }

    /** Copies the code into its final place and applies the fixup chain there. */
    method FinalizeInstructions(region: array<byte>, start: nat)
      requires Valid() && region != contents && region.Length == size
      requires forall f :: f in fixups ==> f.at + 4 <= size
      modifies region, this`pointerOffsets
      ensures Valid() && Code() == old(Code())
      ensures region[..] == ProcessAll(Code(), start, fixups)
      ensures pointerOffsets == old(pointerOffsets) + PointerOffsets(fixups)
    {
      hide ProcessAll, PointerOffsets;
      CopyCode(region);
      ProcessFixups(region, start);
    }

    method CopyCode(region: array<byte>)
      requires Valid() && region != contents && region.Length == size
      modifies region
      ensures region[..] == Code()
    {
      for k := 0 to region.Length
        invariant region[..k] == contents[..k]
      {
        region[k] := contents[k];
      }
    }

    method ProcessFixups(region: array<byte>, start: nat)
      requires region != contents
      requires forall f :: f in fixups ==> f.at + 4 <= region.Length
      modifies region, this`pointerOffsets
      ensures region[..] == ProcessAll(old(region[..]), start, fixups)
      ensures pointerOffsets == old(pointerOffsets) + PointerOffsets(fixups)
    {
      hide Process;
      var fixup := fixups;
      while fixup != []
        invariant forall f :: f in fixup ==> f.at + 4 <= region.Length
        invariant ProcessAll(region[..], start, fixup) == ProcessAll(old(region[..]), start, fixups)
        invariant pointerOffsets + PointerOffsets(fixup) == old(pointerOffsets) + PointerOffsets(fixups)
        decreases |fixup|
      {
        ghost var offsets := pointerOffsets;
        ProcessFixup(region, start, fixup[0]);
        Associate(offsets, if fixup[0].kind.Handle? then [fixup[0].at] else [], PointerOffsets(fixup[1..]));
        fixup := fixup[1..];
      }
    }

    method ProcessFixup(region: array<byte>, start: nat, f: Fixup)
      requires f.at + 4 <= region.Length
      modifies region, this`pointerOffsets
      ensures region[..] == Process(old(region[..]), start, f)
      ensures pointerOffsets == old(pointerOffsets) + if f.kind.Handle? then [f.at] else []
    {
      hide Word, WordAt, Store;
      match f.kind {
        case Relocation =>
          var pointer := WordAt(region[..], f.at);
          var delta := SignedWord((start + f.at + 4) % WORD_SPAN);
          Overwrite(region, f.at, Word(pointer - delta));
        case Handle(address) =>
          Overwrite(region, f.at, Word(address));
          pointerOffsets := pointerOffsets + [f.at];
      }
    }

    /** The labels are distinct objects, apart from the buffer, and in the states of `st`. */
    ghost predicate Matches(labels: seq<Label>, st: State)
      requires Valid()
      reads this, contents, labels, set l | l in labels :: l.nearPositions
    {
      && Separate(labels)
      && (forall i :: 0 <= i < |labels| ==> labels[i].nearPositions as object != contents as object)
      && Code() == st.code && fixups == st.fixups
      && (forall i :: 0 <= i < |labels| ==> labels[i].Valid() && labels[i].State() == st.At(i))
    }

    method PerformJump(i: Instr, labels: seq<Label>, ghost st: State)
      requires i.JumpTo?
      requires Valid() && Matches(labels, st) && LegalOp(i)
      requires Target(i) < |labels| && NearFits(st, i)
      modifies this`contents, this`size, this`fixups, contents, labels, set l | l in labels :: l.nearPositions
      ensures Valid() && Matches(labels, Step(st, i)) && (contents == old(contents) || fresh(contents))
    {
      hide Word, BindCode, EmitJump, EmitCall;
      Jmp(i.op, labels[i.target], i.near);
    }

    method PerformCall(i: Instr, labels: seq<Label>, ghost st: State)
      requires i.CallTo?
      requires Valid() && Matches(labels, st) && LegalOp(i)
      requires Target(i) < |labels|
      modifies this`contents, this`size, this`fixups, contents, labels, set l | l in labels :: l.nearPositions
      ensures Valid() && Matches(labels, Step(st, i)) && (contents == old(contents) || fresh(contents))
    {
      hide Word, BindCode, EmitJump, EmitCall;
      Call(labels[i.target]);
    }

    method PerformBind(i: Instr, labels: seq<Label>, ghost st: State)
      requires i.Bind?
      requires Valid() && Matches(labels, st) && LegalOp(i)
      requires Target(i) < |labels|
      requires BindReady(st, i.target)
      modifies this`contents, this`size, this`fixups, contents, labels, set l | l in labels :: l.nearPositions
      ensures Valid() && Matches(labels, Step(st, i)) && (contents == old(contents) || fresh(contents))
    {
      hide Word, BindCode, EmitJump, EmitCall;
      Bind(labels[i.target]);
    }

    method PerformExternal(i: Instr, labels: seq<Label>, ghost st: State)
      requires i.CallExternal? || i.JumpExternal?
      requires Valid() && Matches(labels, st) && LegalOp(i)
      modifies this`contents, this`size, this`fixups, contents, labels, set l | l in labels :: l.nearPositions
      ensures Valid() && Matches(labels, Step(st, i)) && (contents == old(contents) || fresh(contents))
    {
      hide Word, BindCode, EmitJump, EmitCall;
      EmitExternal(if i.CallExternal? then [CALL] else i.op.LongOpcode(), i.address);
    }

    method PerformOther(i: Instr, labels: seq<Label>, ghost st: State)
      requires i.Raw? || i.WithObject?
      requires Valid() && Matches(labels, st) && LegalOp(i)
      modifies this`contents, this`size, this`fixups, contents, labels, set l | l in labels :: l.nearPositions
      ensures Valid() && Matches(labels, Step(st, i)) && (contents == old(contents) || fresh(contents))
    {
      hide Word, BindCode, EmitJump, EmitCall;
      if i.Raw? { EmitInstruction(i.bytes); } else { EmitWithObject(i.opcode, i.handle); }
    }

    /** Emits one instruction of a program. */
    method Perform(i: Instr, labels: seq<Label>, ghost st: State)
      requires Valid() && Matches(labels, st) && LegalOp(i)
      requires Target(i) < |labels| && NearFits(st, i)
      requires i.Bind? ==> BindReady(st, i.target)
      modifies this`contents, this`size, this`fixups, contents, labels, set l | l in labels :: l.nearPositions
      ensures Valid() && Matches(labels, Step(st, i)) && (contents == old(contents) || fresh(contents))
    {
      hide Matches, Step, LegalOp, NearFits, BindReady, Target;
      if i.JumpTo? {
        PerformJump(i, labels, st);
      } else if i.CallTo? {
        PerformCall(i, labels, st);
      } else if i.Bind? {
        PerformBind(i, labels, st);
      } else if i.CallExternal? || i.JumpExternal? {
        PerformExternal(i, labels, st);
      } else {
        PerformOther(i, labels, st);
      }
    }

    /** Assembles a whole program and finalizes it at `start`. */
    method Assemble(prog: seq<Instr>, labels: seq<Label>, start: nat) returns (region: array<byte>)
      requires Valid() && Matches(labels, START) && pointerOffsets == []
      requires Acceptable(prog) && ProgramNearFits(START, prog)
      requires forall i :: i in prog ==> Target(i) < |labels|
      modifies this, contents, labels, set l | l in labels :: l.nearPositions
      ensures Valid() && Code() == ReferenceCode(prog)
      ensures region[..] == FinalReference(prog, 0, map[], Layout(prog, 0, map[]), start)
      ensures pointerOffsets == PointerOffsets(Run(START, prog).fixups)
    {
      EmitProgram(prog, labels);
      hide Run, Matches, FinalReference, Reference, Layout, WellBound;
      OnePassIsReference(prog);
      FinalizedIsReference(prog, start);
      FixupsFit(prog);
      region := new byte[size];
      FinalizeInstructions(region, start);
    }

    method EmitProgram(prog: seq<Instr>, labels: seq<Label>)
      requires Valid() && Matches(labels, START)
      requires Acceptable(prog) && ProgramNearFits(START, prog)
      requires forall i :: i in prog ==> Target(i) < |labels|
      modifies this`contents, this`size, this`fixups, contents, labels, set l | l in labels :: l.nearPositions
      ensures Valid() && (contents == old(contents) || fresh(contents))
      ensures Code() == Run(START, prog).code && fixups == Run(START, prog).fixups
    {
      ghost var t := Track(START, prog, [], [], map[]);
      ghost var final := Layout(prog, 0, map[]);
      EmptyTracks(prog);
      var rest := prog;
      while rest != []
        invariant Valid() && (contents == old(contents) || fresh(contents))
        invariant forall i :: i in rest ==> Target(i) < |labels|
        invariant t.prog == rest && Tracks(t, final) && Matches(labels, t.st)
        invariant Run(t.st, rest) == Run(START, prog)
        decreases |rest|
      {
        hide Run, Matches, Tracks, Step;
        TrackReady(t, final);
        Perform(rest[0], labels, t.st);
        TrackStep(t, final);
        t := Next(t, final);
        rest := rest[1..];
      }
    }
  }

  method Overwrite(region: array<byte>, at: nat, bytes: Bytes)
    requires at + |bytes| <= region.Length
    modifies region
    ensures region[..] == Store(old(region[..]), at, bytes)
  {
    for k := 0 to |bytes|
      invariant region[..] == old(region[..])[..at] + bytes[..k] + old(region[..])[at + k..]
    {
      region[at + k] := bytes[k];
    }
  }
}
