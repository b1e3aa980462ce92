/** What the finished code does: where its jumps and calls land, and how finalization at a
    start address turns absolute addresses into relative ones and fills object slots. */
module Finalization {
  import opened Words
  import opened Labels
  import opened LabelReference

  // ------------------------------------------------------------------- decoding

  datatype Decoded = NotABranch | Branch(length: nat, target: int)

  /** The relative branches of the instruction set: one-byte displacement after 70..7F and EB,
      four-byte displacement after 0F 80..8F, E8 and E9, both relative to the next instruction. */
  function Decode(code: Bytes, at: nat): Decoded {
    if at + 2 <= |code| && (0x70 <= code[at] <= 0x7F || code[at] == 0xEB) then
      Branch(2, at + 2 + SignedByte(code[at + 1]))
    else if at + 5 <= |code| && (code[at] == 0xE8 || code[at] == 0xE9) then
      Branch(5, at + 5 + WordAt(code, at + 1))
    else if at + 6 <= |code| && code[at] == 0x0F && 0x80 <= code[at + 1] <= 0x8F then
      Branch(6, at + 6 + WordAt(code, at + 2))
    else NotABranch
  }

  // ------------------------------------------------- an instruction within its program

  lemma SplitLegal(pre: seq<Instr>, rest: seq<Instr>)
    requires LegalProgram(pre + rest)
    ensures LegalProgram(pre) && LegalProgram(rest)
  {
    assert forall i :: 0 <= i < |pre| ==> pre[i] == (pre + rest)[i];
    assert forall i :: 0 <= i < |rest| ==> rest[i] == (pre + rest)[|pre| + i];
  }

  lemma {:induction false} SplitLayout(pre: seq<Instr>, rest: seq<Instr>, at: nat, bound: Positions)
    requires LegalProgram(pre) && LegalProgram(rest) && LegalProgram(pre + rest)
    ensures Layout(pre + rest, at, bound) == Layout(rest, EndOf(pre, at, bound), Layout(pre, at, bound))
    ensures EndOf(pre + rest, at, bound) == EndOf(rest, EndOf(pre, at, bound), Layout(pre, at, bound))
    decreases |pre|
  {
    hide Size, BoundAfter, LegalOp;
    if pre == [] {
      assert pre + rest == rest;
    } else {
      assert (pre + rest)[1..] == pre[1..] + rest && (pre + rest)[0] == pre[0];
      SplitLayout(pre[1..], rest, at + Size(pre[0], at, bound), BoundAfter(pre[0], at, bound));
    }
  }

  lemma {:induction false} SplitBound(pre: seq<Instr>, rest: seq<Instr>, at: nat, bound: Positions, final: Positions)
    requires LegalProgram(pre) && LegalProgram(rest) && LegalProgram(pre + rest) &&
              WellBound(pre + rest, at, bound, final)
    ensures WellBound(pre, at, bound, final)
    ensures WellBound(rest, EndOf(pre, at, bound), Layout(pre, at, bound), final)
    decreases |pre|
  {
    hide Size, BoundAfter, LegalOp, Targets;
    if pre == [] {
      assert pre + rest == rest;
    } else {
      assert (pre + rest)[1..] == pre[1..] + rest && (pre + rest)[0] == pre[0];
      SplitBound(pre[1..], rest, at + Size(pre[0], at, bound), BoundAfter(pre[0], at, bound), final);
    }
  }

  lemma {:induction false} SplitReference(pre: seq<Instr>, rest: seq<Instr>, at: nat, bound: Positions,
          final: Positions)
    requires LegalProgram(pre) && LegalProgram(rest) && LegalProgram(pre + rest) &&
              WellBound(pre + rest, at, bound, final)
    requires WellBound(pre, at, bound, final)
    requires WellBound(rest, EndOf(pre, at, bound), Layout(pre, at, bound), final)
    ensures Reference(pre + rest, at, bound, final) ==
            Reference(pre, at, bound, final) + Reference(rest, EndOf(pre, at, bound), Layout(pre, at, bound), final)
    decreases |pre|
  {
    hide Size, BoundAfter, LegalOp, Targets, Encode;
    if pre == [] {
      assert pre + rest == rest;
      assert [] + Reference(rest, at, bound, final) == Reference(rest, at, bound, final);
    } else {
      assert (pre + rest)[1..] == pre[1..] + rest && (pre + rest)[0] == pre[0];
      var at', bound' := at + Size(pre[0], at, bound), BoundAfter(pre[0], at, bound);
      SplitReference(pre[1..], rest, at', bound', final);
      ReferenceAdvance(pre, at, bound, final);
      ReferenceAdvance(pre + rest, at, bound, final);
      hide Reference;
      Associate(Encode(pre[0], at, bound, final), Reference(pre[1..], at', bound', final),
                Reference(rest, EndOf(pre, at, bound), Layout(pre, at, bound), final));
    }
  }

  lemma {:induction false} WholeSize(prog: seq<Instr>, at: nat, bound: Positions, final: Positions)
    requires LegalProgram(prog) && WellBound(prog, at, bound, final)
    ensures |Reference(prog, at, bound, final)| == EndOf(prog, at, bound) - at
    decreases |prog|
  {
    if prog != [] {
      EncodeSize(prog[0], at, bound, final);
      hide Size, BoundAfter, LegalOp, Targets, Encode;
      WholeSize(prog[1..], at + Size(prog[0], at, bound), BoundAfter(prog[0], at, bound), final);
    }
  }

  lemma SliceOf(a: Bytes, b: Bytes, c: Bytes)
    ensures |a + (b + c)| >= |a| + |b| && (a + (b + c))[|a|..|a| + |b|] == b
  {}

  /** The bytes of the instruction after `pre` are those of its own encoding. */
  lemma InstructionAt(pre: seq<Instr>, i: Instr, post: seq<Instr>)
    requires Acceptable(pre + [i] + post)
    ensures LegalProgram(pre) && LegalOp(i)
    ensures var prog := pre + [i] + post;
            var final, at, bound := Layout(prog, 0, map[]), EndOf(pre, 0, map[]), Layout(pre, 0, map[]);
            && Targets(i, final)
            && at + Size(i, at, bound) <= |Run(START, prog).code| <= CODE_LIMIT
            && Run(START, prog).code[at..at + Size(i, at, bound)] == Encode(i, at, bound, final)
            && (forall l :: l in bound ==> l in final && final[l] == bound[l] <= at)
            && (forall l :: l in final ==> final[l] <= CODE_LIMIT)
  {
    hide Size, LegalOp, Targets, Encode, Run, Reference;
    var prog, rest := pre + [i] + post, [i] + post;
    assert prog == pre + rest && rest[0] == i && rest[1..] == post;
    var final := Layout(prog, 0, map[]);
    OnePassIsReference(prog);
    SplitLegal(pre, rest);
    var at, bound := EndOf(pre, 0, map[]), Layout(pre, 0, map[]);
    SplitLayout(pre, rest, 0, map[]);
    SplitBound(pre, rest, 0, map[], final);
    SplitReference(pre, rest, 0, map[], final);
    WholeSize(pre, 0, map[], final);
    WholeSize(prog, 0, map[], final);
    EncodeSize(i, at, bound, final);
    LayoutKeeps(rest, at, bound, final);
    LayoutWithin(pre, 0, map[]);
    LayoutWithin(prog, 0, map[]);
    var code, e := Run(START, prog).code, Encode(i, at, bound, final);
    ReferenceAdvance(rest, at, bound, final);
    SliceOf(Reference(pre, 0, map[], final), e,
        Reference(post, at + Size(i, at, bound), BoundAfter(i, at, bound), final));
  }

  /** Labels are bound no further than the end of the code so far. */
  lemma {:induction false} LayoutWithin(prog: seq<Instr>, at: nat, bound: Positions)
    requires LegalProgram(prog) && forall l :: l in bound ==> bound[l] <= at
    ensures forall l :: l in Layout(prog, at, bound) ==> Layout(prog, at, bound)[l] <= EndOf(prog, at, bound)
    decreases |prog|
  {
    if prog != [] {
      LayoutWithin(prog[1..], at + Size(prog[0], at, bound), BoundAfter(prog[0], at, bound));
    }
  }

  // ------------------------------------------------------------------ where jumps land

  lemma JumpDecodes(code: Bytes, op: Jump, l: LabelId, near: bool, at: nat, bound: Positions, final: Positions)
    requires op.Legal() && l in final && final[l] <= CODE_LIMIT && |code| <= CODE_LIMIT
    requires l in bound ==> final[l] == bound[l]
    requires var n := Size(JumpTo(op, l, near), at, bound);
             at + n <= |code| && code[at..at + n] == Encode(JumpTo(op, l, near), at, bound, final)
    ensures var d := Decode(code, at);
            && d.Branch? && d.length == Size(JumpTo(op, l, near), at, bound)
            && (d.target == final[l] <==> l in bound || !near || IsInt8(final[l] - (at + 2)))
  {
    if IsShort(l, near, at, bound) {
      var e := code[at..at + 2];
      assert e[0] == code[at] && e[1] == code[at + 1];
      hide Word, WordAt, LowByte, SignedByte;
      ByteRoundTrip(final[l] - (at + 2));
    } else {
      LongDecodes(code, at, op.LongOpcode(), final[l]);
    }
  }

  lemma LongDecodes(code: Bytes, at: nat, opcode: Bytes, target: int)
    requires opcode == [0xE9] || opcode == [CALL] || (|opcode| == 2 && opcode[0] == 0x0F && 0x80 <= opcode[1] <= 0x8F)
    requires var n := |opcode| + 4;
             at + n <= |code| <= CODE_LIMIT && code[at..at + n] == opcode + Word(target - (at + n))
    requires -1 <= target <= CODE_LIMIT
    ensures Decode(code, at) == Branch(|opcode| + 4, target)
  {
    hide Word, WordAt;
    var n, k := |opcode| + 4, |opcode|;
    var e := code[at..at + n];
    assert e[0] == code[at] && e[1] == code[at + 1];
    assert code[at + k..at + k + 4] == e[k..];
    WordRoundTrip(code, at + k, target - (at + n));
  }

  /** Where a call to `l` lands: a label that was already bound is missed by one byte. */
  function CallLanding(l: LabelId, bound: Positions, final: Positions): int
    requires l in final
  {
    var p: int := final[l];
    if l in bound then p - 1 else p
  }

  // ------------------------------------------------------------------- finalization

  /** One fixup applied to the code copied to address `start`. */
  function Process(region: Bytes, start: nat, f: Fixup): (r: Bytes)
    ensures |r| == |region|
    ensures forall k :: 0 <= k < |region| && !(f.at <= k < f.at + 4) ==> r[k] == region[k]
  {
    match f.kind
    case Relocation =>
      if f.at + 4 <= |region| then
        Store(region, f.at, Word(WordAt(region, f.at) - SignedWord((start + f.at + 4) % WORD_SPAN)))
      else region
    case Handle(address) => Store(region, f.at, Word(address))
  }

  /** The fixup chain from its newest element back. */
  function ProcessAll(region: Bytes, start: nat, fixups: seq<Fixup>): (r: Bytes)
    ensures |r| == |region|
    decreases |fixups|
  {
    if fixups == [] then region else ProcessAll(Process(region, start, fixups[0]), start, fixups[1..])
  }

  /** The slots recorded for the garbage collector while the chain is processed. */
  function PointerOffsets(fixups: seq<Fixup>): seq<nat> {
    if fixups == [] then []
    else (if fixups[0].kind.Handle? then [fixups[0].at] else []) + PointerOffsets(fixups[1..])
  }

  /** The bytes of an instruction in code that runs at `start`: external targets are relative
      to the next instruction and object slots hold the handle. */
  function FinalEncode(i: Instr, at: nat, bound: Positions, final: Positions, start: nat): Bytes
    requires LegalOp(i) && Targets(i, final)
  {
    match i
    case CallExternal(a) => [CALL] + Word(a - (start + at + 5))
    case JumpExternal(op, a) => op.LongOpcode() + Word(a - (start + at + |op.LongOpcode()| + 4))
    case WithObject(opcode, h) => opcode + Word(h)
    case _ => Encode(i, at, bound, final)
  }

  function FinalReference(prog: seq<Instr>, at: nat, bound: Positions, final: Positions, start: nat): Bytes
    requires LegalProgram(prog) && WellBound(prog, at, bound, final)
    decreases |prog|
  {
    if prog == [] then []
    else FinalEncode(prog[0], at, bound, final, start) +
         FinalReference(prog[1..], at + Size(prog[0], at, bound), BoundAfter(prog[0], at, bound), final, start)
  }

  lemma {:induction false} ProcessSplit(region: Bytes, start: nat, a: seq<Fixup>, b: seq<Fixup>)
    ensures ProcessAll(region, start, a + b) == ProcessAll(ProcessAll(region, start, a), start, b)
    decreases |a|
  {
    if a == [] {
      assert a + b == b;
    } else {
      assert (a + b)[1..] == a[1..] + b && (a + b)[0] == a[0];
      hide Process;
      ProcessSplit(Process(region, start, a[0]), start, a[1..], b);
    }
  }

  lemma WordIsModular(a: int, b: int)
    requires (a - b) % WORD_SPAN == 0
    ensures Word(a) == Word(b)
  {
    assert a % WORD_SPAN == b % WORD_SPAN;
  }

  lemma SignedCongruent(v: int)
    ensures (SignedWord(v % WORD_SPAN) - v) % WORD_SPAN == 0
  {}

  lemma DifferenceCongruent(a: int, b: int, c: int, d: int)
    requires (a - c) % WORD_SPAN == 0 && (b - d) % WORD_SPAN == 0
    ensures ((a - b) - (c - d)) % WORD_SPAN == 0
  {}

  /** Relocating a stored absolute address leaves its distance from the next instruction. */
  lemma RelocationStores(region: Bytes, start: nat, at: nat, address: nat)
    requires at + 4 <= |region| && region[at..at + 4] == Word(address)
    ensures Process(region, start, Fixup(at, Relocation))[at..at + 4] == Word(address - (start + at + 4))
  {
    var delta := start + at + 4;
    WordRoundTrip(region, at, address);
    assert WordAt(region, at) == SignedWord(address % WORD_SPAN);
    hide Word, UnsignedAt;
    SignedCongruent(address);
    SignedCongruent(delta);
    hide SignedWord;
    DifferenceCongruent(WordAt(region, at), SignedWord(delta % WORD_SPAN), address, delta);
    WordIsModular(WordAt(region, at) - SignedWord(delta % WORD_SPAN), address - delta);
  }

  /** The bytes from `at` to `end` of `r` are `part`, and `r` agrees with `region` elsewhere. */
  ghost predicate Replaces(r: Bytes, region: Bytes, at: nat, end: nat, part: Bytes) {
    && |r| == |region| && at <= end <= |r|
    && r[at..end] == part
    && forall k :: 0 <= k < |region| && !(at <= k < end) ==> r[k] == region[k]
  }

  /** An instruction that ends in a slot: the fixup rewrites the slot and nothing else. */
  lemma SlotFixed(region: Bytes, at: nat, opcode: Bytes, f: Fixup, start: nat, target: Bytes)
    requires f.at == at + |opcode| && f.at + 4 <= |region| && |target| == 4
    requires region[at..f.at] == opcode
    requires Process(region, start, f)[f.at..f.at + 4] == target
    ensures Replaces(ProcessAll(region, start, [f]), region, at, f.at + 4, opcode + target)
  {
    hide Process;
    var r := Process(region, start, f);
    assert [f][1..] == [];
    assert ProcessAll(region, start, [f]) == r;
    assert r[at..f.at] == region[at..f.at];
    assert r[at..f.at + 4] == r[at..f.at] + r[f.at..f.at + 4];
  }

  lemma SlotBefore(region: Bytes, at: nat, opcode: Bytes, word: Bytes)
    requires |word| == 4 && at + |opcode| + 4 <= |region|
    requires region[at..at + |opcode| + 4] == opcode + word
    ensures region[at..at + |opcode|] == opcode
    ensures region[at + |opcode|..at + |opcode| + 4] == word
  {
    var e := region[at..at + |opcode| + 4];
    assert e[..|opcode|] == opcode && e[|opcode|..] == word;
    assert region[at..at + |opcode|] == e[..|opcode|];
    assert region[at + |opcode|..at + |opcode| + 4] == e[|opcode|..];
  }

  lemma FixExternal(region: Bytes, at: nat, opcode: Bytes, address: nat, start: nat)
    requires at + |opcode| + 4 <= |region|
    requires region[at..at + |opcode| + 4] == opcode + Word(address)
    ensures Replaces(ProcessAll(region, start, [Fixup(at + |opcode|, Relocation)]), region, at, at + |opcode| + 4,
                     opcode + Word(address - (start + at + |opcode| + 4)))
  {
    hide Word, Process;
    SlotBefore(region, at, opcode, Word(address));
    RelocationStores(region, start, at + |opcode|, address);
    SlotFixed(region, at, opcode, Fixup(at + |opcode|, Relocation), start, Word(address - (start + at + |opcode| + 4)));
  }

  lemma FixObject(region: Bytes, at: nat, opcode: Bytes, handle: nat, start: nat)
    requires at + |opcode| + 4 <= |region|
    requires region[at..at + |opcode| + 4] == opcode + RESERVED
    ensures Replaces(ProcessAll(region, start, [Fixup(at + |opcode|, Handle(handle))]), region, at, at + |opcode| + 4,
                     opcode + Word(handle))
  {
    hide Word;
    SlotBefore(region, at, opcode, RESERVED);
    SlotFixed(region, at, opcode, Fixup(at + |opcode|, Handle(handle)), start, Word(handle));
  }

  lemma FixBranch(region: Bytes, i: Instr, at: nat, bound: Positions, final: Positions, start: nat)
    requires i.CallExternal? || i.JumpExternal?
    requires LegalOp(i) && Targets(i, final)
    requires at + Size(i, at, bound) <= |region|
    requires region[at..at + Size(i, at, bound)] == Encode(i, at, bound, final)
    ensures Replaces(ProcessAll(region, start, FixupOf(i, at)), region, at, at + Size(i, at, bound),
                     FinalEncode(i, at, bound, final, start))
  {
    hide Word, Process, Replaces, ProcessAll;
    if i.CallExternal? {
      FixExternal(region, at, [CALL], i.address, start);
    } else {
      FixExternal(region, at, i.op.LongOpcode(), i.address, start);
    }
  }

  lemma FixOther(region: Bytes, i: Instr, at: nat, bound: Positions, final: Positions, start: nat)
    requires !i.CallExternal? && !i.JumpExternal?
    requires LegalOp(i) && Targets(i, final)
    requires at + Size(i, at, bound) <= |region|
    requires region[at..at + Size(i, at, bound)] == Encode(i, at, bound, final)
    ensures Replaces(ProcessAll(region, start, FixupOf(i, at)), region, at, at + Size(i, at, bound),
                     FinalEncode(i, at, bound, final, start))
  {
    hide Word, Process, Replaces, ProcessAll;
    if i.WithObject? {
      FixObject(region, at, i.opcode, i.handle, start);
    } else {
      NothingReplaced(region, start, at, at + Size(i, at, bound), Encode(i, at, bound, final));
    }
  }

  /** One instruction: its fixup, if any, turns its encoding into the final one. */
  lemma FixInstruction(region: Bytes, i: Instr, at: nat, bound: Positions, final: Positions, start: nat)
    requires LegalOp(i) && Targets(i, final)
    requires at + Size(i, at, bound) <= |region|
    requires region[at..at + Size(i, at, bound)] == Encode(i, at, bound, final)
    ensures Replaces(ProcessAll(region, start, FixupOf(i, at)), region, at, at + Size(i, at, bound),
                     FinalEncode(i, at, bound, final, start))
  {
    hide Replaces, ProcessAll, Encode, FinalEncode, FixupOf, Size;
    if i.CallExternal? || i.JumpExternal? {
      FixBranch(region, i, at, bound, final, start);
    } else {
      FixOther(region, i, at, bound, final, start);
    }
  }

  lemma NothingReplaced(region: Bytes, start: nat, at: nat, end: nat, part: Bytes)
    requires at <= end <= |region| && region[at..end] == part
    ensures Replaces(ProcessAll(region, start, []), region, at, end, part)
  {}

  lemma ReplaceTwo(region: Bytes, r1: Bytes, r2: Bytes, at: nat, mid: nat, end: nat, a: Bytes, b: Bytes)
    requires Replaces(r1, region, mid, end, b) && Replaces(r2, r1, at, mid, a)
    ensures Replaces(r2, region, at, end, a + b)
  {
    assert r2[mid..end] == r1[mid..end];
    assert r2[at..end] == r2[at..mid] + r2[mid..end];
  }

  /** Processing a program's fixups, newest first, finalizes its stretch of the code. */
  lemma {:induction false} FixProgram(region: Bytes, prog: seq<Instr>, at: nat, bound: Positions, final: Positions,
          start: nat)
    requires LegalProgram(prog) && WellBound(prog, at, bound, final)
    requires EndOf(prog, at, bound) <= |region| && at <= EndOf(prog, at, bound)
    requires region[at..EndOf(prog, at, bound)] == Reference(prog, at, bound, final)
    ensures Replaces(ProcessAll(region, start, Fixups(prog, at, bound)), region, at, EndOf(prog, at, bound),
                     FinalReference(prog, at, bound, final, start))
    decreases |prog|
  {
    if prog == [] {
      NothingReplaced(region, start, at, at, []);
    } else {
      FixProgramStep(region, prog, at, bound, final, start);
    }
  }

  lemma FixProgramStep(region: Bytes, prog: seq<Instr>, at: nat, bound: Positions, final: Positions, start: nat)
    requires LegalProgram(prog) && WellBound(prog, at, bound, final) && prog != []
    requires EndOf(prog, at, bound) <= |region| && at <= EndOf(prog, at, bound)
    requires region[at..EndOf(prog, at, bound)] == Reference(prog, at, bound, final)
    ensures Replaces(ProcessAll(region, start, Fixups(prog, at, bound)), region, at, EndOf(prog, at, bound),
                     FinalReference(prog, at, bound, final, start))
    decreases |prog|, 0
  {
    hide Size, Encode, FinalEncode, LegalOp, Targets, FixupOf, Reference, FinalReference, Fixups, Process, Replaces,
        EndOf, ProcessAll, WellBound, BoundAfter;
    FinalAdvance(prog, at, bound, final, start);
    EndAdvance(prog, at, bound);
    var i, end := prog[0], EndOf(prog, at, bound);
    var at', bound' := at + Size(i, at, bound), BoundAfter(i, at, bound);
    EncodeSize(i, at, bound, final);
    ReferenceAdvance(prog, at, bound, final);
    FixupsAdvance(prog, at, bound);
    var e := Encode(i, at, bound, final);
    RestOfCode(region, at, at', end, e, Reference(prog[1..], at', bound', final));
    FixProgram(region, prog[1..], at', bound', final, start);
    var r1 := ProcessAll(region, start, Fixups(prog[1..], at', bound'));
    ReplacedKeeps(region, r1, at, at', end, e, FinalReference(prog[1..], at', bound', final, start));
    FixInstruction(r1, i, at, bound, final, start);
    assert at + Size(i, at, bound) == at';
    ReplaceTwo(region, r1, ProcessAll(r1, start, FixupOf(i, at)), at, at', end, FinalEncode(i, at, bound, final, start),
               FinalReference(prog[1..], at', bound', final, start));
    ProcessSplit(region, start, Fixups(prog[1..], at', bound'), FixupOf(i, at));
  }

  lemma RestOfCode(region: Bytes, at: nat, mid: nat, end: nat, a: Bytes, b: Bytes)
    requires at <= mid <= end <= |region| && mid == at + |a| && region[at..end] == a + b
    ensures region[at..mid] == a && region[mid..end] == b
  {
    assert region[at..mid] == region[at..end][..|a|];
    assert region[mid..end] == region[at..end][|a|..];
  }

  lemma ReplacedKeeps(region: Bytes, r: Bytes, at: nat, mid: nat, end: nat, a: Bytes, b: Bytes)
    requires Replaces(r, region, mid, end, b) && at <= mid && region[at..mid] == a
    ensures |r| == |region| && r[at..mid] == a
  {}

  /** Main theorem: after finalization the code is that of the assembler that knew both the
      label positions and the start address. */
  lemma FinalizedIsReference(prog: seq<Instr>, start: nat)
    requires Acceptable(prog)
    ensures var st := Run(START, prog);
            ProcessAll(st.code, start, st.fixups) == FinalReference(prog, 0, map[], Layout(prog, 0, map[]), start)
  {
    hide Run;
    var final := Layout(prog, 0, map[]);
    var code := Run(START, prog).code;
    OnePassIsReference(prog);
    WholeSize(prog, 0, map[], final);
    EndGrows(prog, 0, map[]);
    var end := EndOf(prog, 0, map[]);
    assert code[0..end] == code;
    FixProgram(code, prog, 0, map[], final, start);
    var r := ProcessAll(code, start, Fixups(prog, 0, map[]));
    assert r[0..end] == r;
  }

  lemma FinalSize(i: Instr, at: nat, bound: Positions, final: Positions, start: nat)
    requires LegalOp(i) && Targets(i, final)
    ensures |FinalEncode(i, at, bound, final, start)| == Size(i, at, bound)
  {}

  /** `part` stands at `offset` of `whole`. */
  ghost predicate PartAt(whole: Bytes, offset: int, part: Bytes) {
    0 <= offset && offset + |part| <= |whole| && whole[offset..offset + |part|] == part
  }

  lemma PartShift(first: Bytes, rest: Bytes, offset: int, part: Bytes)
    requires PartAt(rest, offset, part)
    ensures PartAt(first + rest, |first| + offset, part)
  {
    var o := |first| + offset;
    assert (first + rest)[o..o + |part|] == rest[offset..offset + |part|];
  }

  lemma PartFirst(first: Bytes, rest: Bytes)
    ensures PartAt(first + rest, 0, first)
  {}

  lemma PrefixNone(prog: seq<Instr>, at: nat, bound: Positions)
    ensures EndOf(prog[..0], at, bound) == at && Layout(prog[..0], at, bound) == bound
  {}

  lemma PrefixAdvance(prog: seq<Instr>, k: nat, at: nat, bound: Positions)
    requires LegalProgram(prog) && 0 < k < |prog|
    ensures LegalProgram(prog[..k]) && LegalProgram(prog[1..]) && LegalProgram(prog[1..][..k - 1])
    ensures var at', bound' := at + Size(prog[0], at, bound), BoundAfter(prog[0], at, bound);
            && EndOf(prog[..k], at, bound) == EndOf(prog[1..][..k - 1], at', bound')
            && Layout(prog[..k], at, bound) == Layout(prog[1..][..k - 1], at', bound')
  {
    hide Size, LegalOp, BoundAfter;
    assert prog[..k][1..] == prog[1..][..k - 1] && prog[..k][0] == prog[0];
  }

  lemma FinalAdvance(prog: seq<Instr>, at: nat, bound: Positions, final: Positions, start: nat)
    requires LegalProgram(prog) && prog != [] && WellBound(prog, at, bound, final)
    ensures LegalOp(prog[0]) && Targets(prog[0], final) && LegalProgram(prog[1..])
    ensures var at', bound' := at + Size(prog[0], at, bound), BoundAfter(prog[0], at, bound);
            && WellBound(prog[1..], at', bound', final)
            && FinalReference(prog, at, bound, final, start) ==
               FinalEncode(prog[0], at, bound, final, start) + FinalReference(prog[1..], at', bound', final, start)
  {
    hide Size, LegalOp, BoundAfter, FinalEncode, Targets;
  }

  /** The finished bytes of instruction `k` within the code of the whole program. */
  lemma {:induction false} FinalAt(prog: seq<Instr>, k: nat, at: nat, bound: Positions, final: Positions, start: nat)
    requires LegalProgram(prog) && WellBound(prog, at, bound, final) && k < |prog|
    ensures LegalProgram(prog[..k]) && LegalOp(prog[k]) && Targets(prog[k], final)
    ensures var here, known := EndOf(prog[..k], at, bound), Layout(prog[..k], at, bound);
            PartAt(FinalReference(prog, at, bound, final, start), here - at,
                FinalEncode(prog[k], here, known, final, start))
    decreases |prog|
  {
    hide FinalEncode, Size, LegalOp, Targets, FinalReference, EndOf, Layout, WellBound, PartAt, BoundAfter;
    FinalAdvance(prog, at, bound, final, start);
    FinalSize(prog[0], at, bound, final, start);
    var at', bound' := at + Size(prog[0], at, bound), BoundAfter(prog[0], at, bound);
    var first, rest := FinalEncode(prog[0], at, bound, final, start),
        FinalReference(prog[1..], at', bound', final, start);
    if k == 0 {
      PrefixNone(prog, at, bound);
      PartFirst(first, rest);
    } else {
      PrefixAdvance(prog, k, at, bound);
      FinalAt(prog[1..], k - 1, at', bound', final, start);
      var here, known := EndOf(prog[..k], at, bound), Layout(prog[..k], at, bound);
      PartShift(first, rest, here - at', FinalEncode(prog[k], here, known, final, start));
    }
  }

  /** The code as it runs: copied to `start`, with all fixups applied. */
  function Finalized(prog: seq<Instr>, start: nat): Bytes
    requires LegalProgram(prog)
  {
    ProcessAll(Run(START, prog).code, start, Run(START, prog).fixups)
  }

  /** The finished bytes of the instruction after `pre`. */
  lemma FinishedAt(pre: seq<Instr>, i: Instr, post: seq<Instr>, start: nat)
    requires Acceptable(pre + [i] + post)
    ensures LegalProgram(pre) && LegalOp(i)
    ensures var prog := pre + [i] + post;
            var final, at, bound := Layout(prog, 0, map[]), EndOf(pre, 0, map[]), Layout(pre, 0, map[]);
            && Targets(i, final) && |Finalized(prog, start)| <= CODE_LIMIT
            && PartAt(Finalized(prog, start), at, FinalEncode(i, at, bound, final, start))
            && (forall l :: l in bound ==> l in final && final[l] == bound[l] <= at)
            && (forall l :: l in final ==> final[l] <= CODE_LIMIT)
  {
    hide Run, ProcessAll, FinalReference, FinalEncode, Layout, EndOf, WellBound, PartAt, Targets, Size, Encode, LegalOp;
    var prog, k := pre + [i] + post, |pre|;
    SplitAt(pre, i, post);
    InstructionAt(pre, i, post);
    FinalizedIsReference(prog, start);
    FinalAt(prog, k, 0, map[], Layout(prog, 0, map[]), start);
  }

  lemma SplitAt(pre: seq<Instr>, i: Instr, post: seq<Instr>)
    ensures (pre + [i] + post)[..|pre|] == pre && (pre + [i] + post)[|pre|] == i
  {}

  /** In the finished code a jump lands exactly on its label, except that a jump promised to be
      near and emitted before its label lands there exactly when the distance fits a signed byte. */
  lemma JumpLands(pre: seq<Instr>, op: Jump, l: LabelId, near: bool, post: seq<Instr>, start: nat)
    requires Acceptable(pre + [JumpTo(op, l, near)] + post)
    ensures LegalProgram(pre) && op.Legal()
    ensures var prog := pre + [JumpTo(op, l, near)] + post;
            var final, at, bound := Layout(prog, 0, map[]), EndOf(pre, 0, map[]), Layout(pre, 0, map[]);
            var d := Decode(Finalized(prog, start), at);
            && l in final
            && d.Branch? && d.length == Size(JumpTo(op, l, near), at, bound)
            && (d.target == final[l] <==> l in bound || !near || IsInt8(final[l] - (at + 2)))
  {
    var i := JumpTo(op, l, near);
    var prog := pre + [i] + post;
    FinishedAt(pre, i, post, start);
    var final, at, bound := Layout(prog, 0, map[]), EndOf(pre, 0, map[]), Layout(pre, 0, map[]);
    EncodeSize(i, at, bound, final);
    hide Finalized, Layout, EndOf, Decode, Size, Encode;
    JumpDecodes(Finalized(prog, start), op, l, near, at, bound, final);
  }

  /** In the finished code a call lands on its label when the label was still unbound, and one
      byte before the label when it was already bound. */
  lemma CallLands(pre: seq<Instr>, l: LabelId, post: seq<Instr>, start: nat)
    requires Acceptable(pre + [CallTo(l)] + post)
    ensures LegalProgram(pre)
    ensures var prog := pre + [CallTo(l)] + post;
            var final, at, bound := Layout(prog, 0, map[]), EndOf(pre, 0, map[]), Layout(pre, 0, map[]);
            && l in final
            && Decode(Finalized(prog, start), at) == Branch(5, CallLanding(l, bound, final))
  {
    var prog := pre + [CallTo(l)] + post;
    FinishedAt(pre, CallTo(l), post, start);
    var final, at, bound := Layout(prog, 0, map[]), EndOf(pre, 0, map[]), Layout(pre, 0, map[]);
    hide Finalized, Layout, EndOf, Decode;
    LongDecodes(Finalized(prog, start), at, [CALL], CallLanding(l, bound, final));
  }

  /** A backward call at the start of the code lands before the code. */
  lemma BackwardCall(start: nat)
    ensures var prog := [Bind(0), CallTo(0)];
            LegalProgram(prog) && Decode(Finalized(prog, start), 0) == Branch(5, -1)
  {
    var pre, call := [Bind(0)], CallTo(0);
    var prog := pre + [call] + [];
    assert prog == [Bind(0), call] && prog[1..] == [call] && prog[1..][1..] == [] && pre[1..] == [];
    assert Layout([call], 0, map[0 := 0]) == Layout([], 5, map[0 := 0]);
    assert Layout(prog, 0, map[]) == Layout([call], 0, map[0 := 0]) == map[0 := 0];
    assert WellBound([call], 0, map[0 := 0], map[0 := 0]);
    assert EndOf([call], 0, map[0 := 0]) == EndOf([], 5, map[0 := 0]) == 5;
    assert Acceptable(prog);
    assert Layout(pre, 0, map[]) == Layout([], 0, map[0 := 0]) &&
        EndOf(pre, 0, map[]) == EndOf([], 0, map[0 := 0]) == 0;
    CallLands(pre, 0, [], start);
  }

  /** k blocks of bytes, then the label. */
  function Ahead(k: nat, block: Bytes): seq<Instr> {
    if k == 0 then [Bind(0)] else [Raw(block)] + Ahead(k - 1, block)
  }

  lemma {:induction false} AheadLayout(k: nat, block: Bytes, at: nat, final: Positions)
    requires 0 in final && |block| == 32
    ensures LegalProgram(Ahead(k, block)) && WellBound(Ahead(k, block), at, map[], final)
    ensures Layout(Ahead(k, block), at, map[]) == map[0 := at + 32 * k] &&
            EndOf(Ahead(k, block), at, map[]) == at + 32 * k
  {
    if k == 0 {
      assert [Bind(0)][1..] == [];
      assert Layout([], at, map[0 := at]) == map[0 := at] && EndOf([], at, map[0 := at]) == at;
    } else {
      AheadLayout(k - 1, block, at + 32, final);
      OneBlock(block, Ahead(k - 1, block), at, final);
    }
  }

  lemma OneBlock(block: Bytes, rest: seq<Instr>, at: nat, final: Positions)
    requires |block| == 32 && LegalProgram(rest)
    ensures var prog := [Raw(block)] + rest;
            && LegalProgram(prog) && (WellBound(rest, at + 32, map[], final) ==> WellBound(prog, at, map[], final))
            && Layout(prog, at, map[]) == Layout(rest, at + 32, map[])
            && EndOf(prog, at, map[]) == EndOf(rest, at + 32, map[])
  {
    var prog := [Raw(block)] + rest;
    assert prog[0] == Raw(block) && prog[1..] == rest;
    assert Size(Raw(block), at, map[]) == 32;
  }

  /** A near jump over k blocks of 32 bytes lands on its label exactly for up to three of them. */
  lemma NearJumpRange(k: nat, block: Bytes, start: nat)
    requires |block| == 32 && 2 + 32 * k <= CODE_LIMIT
    ensures var prog := [JumpTo(Always, 0, true)] + Ahead(k, block);
            && LegalProgram(prog) && Decode(Finalized(prog, start), 0).Branch?
            && (Decode(Finalized(prog, start), 0).target == 2 + 32 * k <==> k <= 3)
  {
    var jump := JumpTo(Always, 0, true);
    var prog, final := [jump] + Ahead(k, block), map[0 := 2 + 32 * k];
    AheadLayout(k, block, 2, final);
    assert prog[0] == jump && prog[1..] == Ahead(k, block) && prog == [] + [jump] + Ahead(k, block);
    assert Size(jump, 0, map[]) == 2 && BoundAfter(jump, 0, map[]) == map[];
    assert LegalProgram(prog) && Layout(prog, 0, map[]) == final && EndOf(prog, 0, map[]) == 2 + 32 * k;
    assert WellBound(prog, 0, map[], final);
    assert EndOf([], 0, map[]) == 0 && Layout([], 0, map[]) == map[];
    hide Layout, EndOf, WellBound, Finalized, Decode;
    JumpLands([], Always, 0, true, Ahead(k, block), start);
  }

  /** A finished external call or jump reaches its absolute address, modulo 2^32. */
  lemma ExternalLands(prog: seq<Instr>, k: nat, start: nat)
    requires Acceptable(prog) && k < |prog| && (prog[k].CallExternal? || prog[k].JumpExternal?)
    ensures LegalProgram(prog[..k])
    ensures var st := Run(START, prog);
            var d := Decode(ProcessAll(st.code, start, st.fixups), EndOf(prog[..k], 0, map[]));
            d.Branch? && (start + d.target - prog[k].address) % WORD_SPAN == 0
  {
    hide Run, FinalReference, Layout, EndOf, WellBound, Decode, Word, ProcessAll;
    var final := Layout(prog, 0, map[]);
    FinalizedIsReference(prog, start);
    FinalAt(prog, k, 0, map[], final, start);
    var i, here := prog[k], EndOf(prog[..k], 0, map[]);
    var region := FinalReference(prog, 0, map[], final, start);
    if i.CallExternal? {
      ExternalDecodes(region, here, [CALL], start, i.address);
    } else {
      ExternalDecodes(region, here, i.op.LongOpcode(), start, i.address);
    }
  }

  lemma ExternalDecodes(code: Bytes, at: nat, opcode: Bytes, start: nat, address: nat)
    requires opcode == [0xE9] || opcode == [CALL] || (|opcode| == 2 && opcode[0] == 0x0F && 0x80 <= opcode[1] <= 0x8F)
    requires var n := |opcode| + 4;
             at + n <= |code| && code[at..at + n] == opcode + Word(address - (start + at + n))
    ensures var d := Decode(code, at); d.Branch? && (start + d.target - address) % WORD_SPAN == 0
  {
    hide Word;
    var n, k := |opcode| + 4, |opcode|;
    var e := code[at..at + n];
    assert e[0] == code[at] && e[1] == code[at + 1];
    assert code[at + k..at + k + 4] == e[k..];
    var distance := address - (start + at + n);
    WordRoundTrip(code, at + k, distance);
    hide UnsignedAt;
    SignedCongruent(distance);
    assert WordAt(code, at + k) == SignedWord(distance % WORD_SPAN);
    assert Decode(code, at) == Branch(n, at + n + WordAt(code, at + k));
  }

  // ---------------------------------------------------------------- object slots

  /** Position `p` is the object slot of instruction `k`. */
  ghost predicate ObjectSlot(prog: seq<Instr>, k: nat, at: nat, bound: Positions, p: nat)
    requires LegalProgram(prog)
  {
    && k < |prog| && prog[k].WithObject?
    && p == EndOf(prog[..k], at, bound) + |prog[k].opcode|
  }

  lemma {:induction false} OffsetsAppend(a: seq<Fixup>, b: seq<Fixup>)
    ensures PointerOffsets(a + b) == PointerOffsets(a) + PointerOffsets(b)
  {
    if a == [] {
      assert a + b == b;
    } else {
      assert (a + b)[1..] == a[1..] + b && (a + b)[0] == a[0];
      OffsetsAppend(a[1..], b);
      Associate(if a[0].kind.Handle? then [a[0].at] else [], PointerOffsets(a[1..]), PointerOffsets(b));
    }
  }

  lemma OffsetsAdvance(prog: seq<Instr>, at: nat, bound: Positions)
    requires LegalProgram(prog) && prog != []
    ensures PointerOffsets(Fixups(prog, at, bound)) ==
            PointerOffsets(Fixups(prog[1..], at + Size(prog[0], at, bound), BoundAfter(prog[0], at, bound))) +
            if prog[0].WithObject? then [at + |prog[0].opcode|] else []
  {
    var later := Fixups(prog[1..], at + Size(prog[0], at, bound), BoundAfter(prog[0], at, bound));
    FixupsAdvance(prog, at, bound);
    OffsetsAppend(later, FixupOf(prog[0], at));
    assert FixupOf(prog[0], at) != [] ==> FixupOf(prog[0], at)[1..] == [];
    hide Fixups, Size;
  }

  lemma SlotAdvance(prog: seq<Instr>, k: nat, at: nat, bound: Positions, p: nat)
    requires LegalProgram(prog) && 0 < k < |prog|
    ensures ObjectSlot(prog, k, at, bound, p) <==>
            ObjectSlot(prog[1..], k - 1, at + Size(prog[0], at, bound), BoundAfter(prog[0], at, bound), p)
  {
    PrefixAdvance(prog, k, at, bound);
    hide EndOf, Size, LegalOp, BoundAfter;
  }

  /** Every object slot is recorded. */
  lemma {:induction false} SlotIsRecorded(prog: seq<Instr>, k: nat, at: nat, bound: Positions, p: nat)
    requires LegalProgram(prog) && ObjectSlot(prog, k, at, bound, p)
    ensures p in PointerOffsets(Fixups(prog, at, bound))
    decreases |prog|
  {
    OffsetsAdvance(prog, at, bound);
    if k > 0 {
      SlotAdvance(prog, k, at, bound, p);
      SlotIsRecorded(prog[1..], k - 1, at + Size(prog[0], at, bound), BoundAfter(prog[0], at, bound), p);
    }
  }

  /** Only object slots are recorded. */
  lemma {:induction false} RecordedIsSlot(prog: seq<Instr>, at: nat, bound: Positions, p: nat) returns (k: nat)
    requires LegalProgram(prog) && p in PointerOffsets(Fixups(prog, at, bound))
    ensures ObjectSlot(prog, k, at, bound, p)
    ensures at <= p < EndOf(prog, at, bound)
    decreases |prog|
  {
    assert prog != [];
    hide Fixups, LegalOp, Size, ObjectSlot, EndOf;
    OffsetsAdvance(prog, at, bound);
    EndAdvance(prog, at, bound);
    var at', bound' := at + Size(prog[0], at, bound), BoundAfter(prog[0], at, bound);
    hide PointerOffsets, BoundAfter;
    if p in PointerOffsets(Fixups(prog[1..], at', bound')) {
      k := RecordedIsSlot(prog[1..], at', bound', p);
      SlotWithin(prog[1..], k, at', bound', p);
      SlotAdvance(prog, k + 1, at, bound, p);
      k := k + 1;
    } else {
      FirstSlot(prog, at, bound);
      k := 0;
    }
  }

  lemma SlotWithin(prog: seq<Instr>, k: nat, at: nat, bound: Positions, p: nat)
    requires LegalProgram(prog) && ObjectSlot(prog, k, at, bound, p)
    ensures k < |prog|
  {}

  lemma EndAdvance(prog: seq<Instr>, at: nat, bound: Positions)
    requires LegalProgram(prog) && prog != []
    ensures LegalProgram(prog[1..])
    ensures var at', bound' := at + Size(prog[0], at, bound), BoundAfter(prog[0], at, bound);
            EndOf(prog, at, bound) == EndOf(prog[1..], at', bound') >= at'
  {
    EndGrows(prog[1..], at + Size(prog[0], at, bound), BoundAfter(prog[0], at, bound));
    hide Size, BoundAfter, LegalOp;
  }

  lemma FirstSlot(prog: seq<Instr>, at: nat, bound: Positions)
    requires LegalProgram(prog) && prog != [] && prog[0].WithObject?
    ensures ObjectSlot(prog, 0, at, bound, at + |prog[0].opcode|)
    ensures at + |prog[0].opcode| < at + Size(prog[0], at, bound)
  {
    PrefixNone(prog, at, bound);
  }

  /** No slot is recorded twice: the newest comes first and positions only fall. */
  lemma RecordedLater(prog: seq<Instr>, at: nat, bound: Positions)
    requires LegalProgram(prog)
    ensures var later := PointerOffsets(Fixups(prog, at, bound)); forall a :: 0 <= a < |later| ==> at <= later[a]
  {
    hide Fixups, PointerOffsets, ObjectSlot, LegalProgram;
    var later := PointerOffsets(Fixups(prog, at, bound));
    forall a | 0 <= a < |later|
      ensures at <= later[a]
    {
      var _ := RecordedIsSlot(prog, at, bound, later[a]);
    }
  }

  lemma {:induction false} RecordedOnce(prog: seq<Instr>, at: nat, bound: Positions)
    requires LegalProgram(prog)
    ensures Falling(PointerOffsets(Fixups(prog, at, bound)))
    decreases |prog|
  {
    if prog != [] {
      EndAdvance(prog, at, bound);
      hide Fixups, PointerOffsets, LegalOp, LegalProgram, Size, BoundAfter, Falling, ObjectSlot, EndOf;
      var at', bound' := at + Size(prog[0], at, bound), BoundAfter(prog[0], at, bound);
      OffsetsAdvance(prog, at, bound);
      RecordedOnce(prog[1..], at', bound');
      RecordedLater(prog[1..], at', bound');
      var later := PointerOffsets(Fixups(prog[1..], at', bound'));
      if prog[0].WithObject? {
        FirstSlot(prog, at, bound);
        FallingAppend(later, at + |prog[0].opcode|);
      } else {
        assert later + [] == later;
      }
    }
  }

  ghost predicate Falling(s: seq<nat>) {
    forall a, b :: 0 <= a < b < |s| ==> s[b] < s[a]
  }

  lemma FallingAppend(s: seq<nat>, x: nat)
    requires Falling(s) && forall a :: 0 <= a < |s| ==> x < s[a]
    ensures Falling(s + [x])
  {}

  /** The recorded pointer offsets are exactly the object slots, each once. */
  lemma PointersAreSlots(prog: seq<Instr>)
    requires Acceptable(prog)
    ensures var offsets := PointerOffsets(Run(START, prog).fixups);
            && (forall p :: p in offsets <==> exists k :: ObjectSlot(prog, k, 0, map[], p))
            && Falling(offsets)
  {
    hide Falling;
    OnePassIsReference(prog);
    RecordedOnce(prog, 0, map[]);
    var offsets := PointerOffsets(Fixups(prog, 0, map[]));
    forall p | p in offsets
      ensures exists k :: ObjectSlot(prog, k, 0, map[], p)
    {
      var k := RecordedIsSlot(prog, 0, map[], p);
    }
    forall p: nat, k: nat | ObjectSlot(prog, k, 0, map[], p)
      ensures p in offsets
    {
      SlotIsRecorded(prog, k, 0, map[], p);
    }
    hide Run, Fixups;
  }
}
