/** Labels of the one-pass IA-32 assembler (runtime/vm/assembler_ia32): a jump to a label that
    is not yet bound leaves a placeholder. Long placeholders are chained through the code bytes
    themselves, short ones are kept on a stack in the label; binding patches both.
    The functions here say what each emitter leaves behind; `Reference` gives the code that an
    assembler knowing all label positions would emit. */
module Labels {
  import opened Words

  /** Largest code size for which positions and displacements fit the runtime's 32-bit int. */
  const CODE_LIMIT: nat := 0x7FFF_FF00
  const MAX_INSTRUCTION: nat := 32
  const MAX_NEAR: nat := 20

  /** `position` is 0 when nothing is linked, p + 4 when the newest link is at p, and
      -p - 4 when the label is bound to p; `near` stacks the short placeholders. */
  datatype LabelState = LabelState(position: int, near: seq<nat>) {
    predicate IsBound() { position < 0 }
    function Position(): int { -position - 4 }
  }

  const UNUSED: LabelState := LabelState(0, [])

  datatype Jump = Conditional(condition: nat) | Always {
    predicate Legal() {
      Conditional? ==> condition < 16
    }
    function ShortOpcode(): Bytes
      requires Legal()
    {
      match this
      case Conditional(c) => [0x70 + c]
      case Always => [0xEB]
    }
    function LongOpcode(): Bytes
      requires Legal()
    {
      match this
      case Conditional(c) => [0x0F, 0x80 + c]
      case Always => [0xE9]
    }
  }

  const CALL: byte := 0xE8

  // ------------------------------------------------------- what the emitters do

  /** `j` and `jmp` to a label: the code and the label afterwards. */
  function EmitJump(code: Bytes, l: LabelState, op: Jump, near: bool): (Bytes, LabelState)
    requires op.Legal()
  {
    if l.IsBound() then
      var offset := l.Position() - |code|;
      if IsInt8(offset - 2) then
        (code + op.ShortOpcode() + [LowByte(offset - 2)], l)
      else
        (code + op.LongOpcode() + Word(offset - (|op.LongOpcode()| + 4)), l)
    else if near then
      (code + op.ShortOpcode() + [0], l.(near := l.near + [|code| + 1]))
    else
      EmitLabelLink(code + op.LongOpcode(), l)
  }

  /** `call` to a label. The bound case measures from the byte after the opcode and then
      subtracts the size of the whole instruction. */
  function EmitCall(code: Bytes, l: LabelState): (Bytes, LabelState) {
    var c := code + [CALL];
    if l.IsBound() then (c + Word(l.Position() - |c| - 5), l) else EmitLabelLink(c, l)
  }

  /** A placeholder that holds the label's previous link. */
  function EmitLabelLink(code: Bytes, l: LabelState): (Bytes, LabelState) {
    (code + Word(l.position), l.(position := |code| + 4))
  }

  /** The placeholders reached from `position` through the code, newest first. */
  function Chain(code: Bytes, position: int): seq<nat>
    decreases if position < 0 then 0 else position
  {
    if position < 4 || position > |code| then []
    else
      var next := WordAt(code, position - 4);
      [position - 4] + if next <= position - 4 then Chain(code, next) else []
  }

  /** Writes the distance to `bound` into each long placeholder. */
  function PatchFar(code: Bytes, sites: seq<nat>, bound: nat): (r: Bytes)
    ensures |r| == |code|
    decreases |sites|
  {
    if sites == [] then code
    else PatchFar(Store(code, sites[0], Word(bound - (sites[0] + 4))), sites[1..], bound)
  }

  /** Writes the distance to `bound` into each short placeholder, last pushed first. */
  function PatchNear(code: Bytes, sites: seq<nat>, bound: nat): (r: Bytes)
    ensures |r| == |code|
    decreases |sites|
  {
    if sites == [] then code
    else
      var n := |sites| - 1;
      PatchNear(Store(code, sites[n], [LowByte(bound - (sites[n] + 1))]), sites[..n], bound)
  }

  function BindCode(code: Bytes, l: LabelState): (r: Bytes)
    ensures |r| == |code|
  {
    PatchNear(PatchFar(code, Chain(code, l.position), |code|), l.near, |code|)
  }

  // ------------------------------------------------------------------ programs

  /** A fixup waits for the final address of the code: a direct call or jump to an absolute
      address, or a slot for an object handle. */
  datatype FixupKind = Relocation | Handle(address: nat)
  datatype Fixup = Fixup(at: nat, kind: FixupKind)

  type LabelId = nat

  /** An instruction to emit. `Raw` is any instruction without labels or fixups. */
  datatype Instr =
    | Raw(bytes: Bytes)
    | JumpTo(op: Jump, target: LabelId, near: bool)
    | CallTo(target: LabelId)
    | Bind(target: LabelId)
    | CallExternal(address: nat)
    | JumpExternal(op: Jump, address: nat)
    | WithObject(opcode: Bytes, handle: nat)

  /** Bytes of the buffer that were never written hold the breakpoint instruction. */
  const BREAKPOINT: byte := 0xF4
  const RESERVED: Bytes := [BREAKPOINT, BREAKPOINT, BREAKPOINT, BREAKPOINT]

  /** The assembler between instructions; the newest fixup comes first. */
  datatype State = State(code: Bytes, labels: map<LabelId, LabelState>, fixups: seq<Fixup>) {
    function At(l: LabelId): LabelState {
      if l in labels then labels[l] else UNUSED
    }
  }

  predicate LegalOp(i: Instr) {
    match i
    case Raw(bytes) => |bytes| <= MAX_INSTRUCTION
    case JumpTo(op, _, _) => op.Legal()
    case JumpExternal(op, _) => op.Legal()
    case WithObject(opcode, _) => |opcode| + 4 <= MAX_INSTRUCTION
    case _ => true
  }

  function Step(st: State, i: Instr): State
    requires LegalOp(i)
  {
    match i
    case Raw(bytes) => st.(code := st.code + bytes)
    case JumpTo(op, l, near) =>
      var (c, s) := EmitJump(st.code, st.At(l), op, near);
      State(c, st.labels[l := s], st.fixups)
    case CallTo(l) =>
      var (c, s) := EmitCall(st.code, st.At(l));
      State(c, st.labels[l := s], st.fixups)
    case Bind(l) =>
      State(BindCode(st.code, st.At(l)), st.labels[l := LabelState(-|st.code| - 4, [])], st.fixups)
    case CallExternal(a) => EmitExternal(st, [CALL], a)
    case JumpExternal(op, a) => EmitExternal(st, op.LongOpcode(), a)
    case WithObject(opcode, h) =>
      State(st.code + opcode + RESERVED, st.labels, [Fixup(|st.code| + |opcode|, Handle(h))] + st.fixups)
  }

  function EmitExternal(st: State, opcode: Bytes, address: nat): State {
    State(st.code + opcode + Word(address), st.labels, [Fixup(|st.code| + |opcode|, Relocation)] + st.fixups)
  }

  predicate LegalProgram(prog: seq<Instr>) {
    forall i :: 0 <= i < |prog| ==> LegalOp(prog[i])
  }

  function Run(st: State, prog: seq<Instr>): State
    requires LegalProgram(prog)
    decreases |prog|
  {
    if prog == [] then st else Run(Step(st, prog[0]), prog[1..])
  }
}
