/** Operands of IA-32 instructions: the ModRM byte, the SIB byte and the displacement that
    `Operand` and `Address` build, against a decoder written from the Intel Software Developer's
    Manual, volume 2, section 2.1.5 (tables 2-2 and 2-3). */
module OperandsIA32 {
  import opened Options
  import opened Words

  const ESP: nat := 4
  const EBP: nat := 5

  /** What an operand means: a register, or base + index * 2^scale + displacement. */
  datatype Meaning =
    | InRegister(reg: nat)
    | InMemory(base: Option<nat>, index: Option<(nat, nat)>, disp: int)

  /** The reg field, the meaning and the number of bytes read; `None` when bytes are missing. */
  datatype Decoded = Decoded(reg: nat, meaning: Meaning, length: nat)

  function DecodeDisp(code: Bytes, at: nat, size: nat): Option<int> {
    if at + size > |code| then None
    else if size == 1 then Some(SignedByte(code[at]))
    else if size == 4 then Some(WordAt(code, at))
    else Some(0)
  }

  function DispSize(mod: nat): nat {
    if mod == 1 then 1 else if mod == 2 then 4 else 0
  }

  function DecodeOperand(code: Bytes): Option<Decoded> {
    if |code| < 1 then None
    else
      var mod, reg, rm := code[0] / 64, code[0] / 8 % 8, code[0] % 8;
      if mod == 3 then Some(Decoded(reg, InRegister(rm), 1))
      else if rm == 4 then DecodeSIB(code, mod, reg)
      else
        var absolute := mod == 0 && rm == 5;
        var size := if absolute then 4 else DispSize(mod);
        match DecodeDisp(code, 1, size)
        case None => None
        case Some(d) => Some(Decoded(reg, InMemory(if absolute then None else Some(rm), None, d), 1 + size))
  }

  function DecodeSIB(code: Bytes, mod: nat, reg: nat): Option<Decoded> {
    if |code| < 2 then None
    else
      var scale, index, base := code[1] / 64, code[1] / 8 % 8, code[1] % 8;
      var noBase := mod == 0 && base == 5;
      var size := if noBase then 4 else DispSize(mod);
      match DecodeDisp(code, 2, size)
      case None => None
      case Some(d) =>
        Some(Decoded(reg,
                     InMemory(if noBase then None else Some(base),
                              if index == 4 then None else Some((index, scale)), d),
                     2 + size))
  }

  /** The operand holds exactly one decodable operand with an empty reg field. */
  ghost predicate Means(code: Bytes, m: Meaning) {
    DecodeOperand(code) == Some(Decoded(0, m, |code|))
  }

  /** Displacement bytes for the three displacement sizes. */
  ghost predicate DispBytes(d: Bytes, size: nat, disp: int) {
    && |d| == size
    && (size == 0 ==> disp == 0)
    && (size == 1 ==> d == [LowByte(disp)] && IsInt8(disp))
    && (size == 4 ==> d == Word(disp) && IsInt32(disp))
    && size in {0, 1, 4}
  }

  lemma DispDecodes(head: Bytes, d: Bytes, size: nat, disp: int)
    requires DispBytes(d, size, disp)
    ensures DecodeDisp(head + d, |head|, size) == Some(disp)
  {
    var code := head + d;
    if size == 1 {
      assert code[|head|] == d[0];
      ByteRoundTrip(disp);
    } else if size == 4 {
      assert code[|head|..|head| + 4] == d;
      WordRoundTrip(code, |head|, disp);
    }
  }

  lemma PlainMeans(mod: nat, rm: nat, d: Bytes, disp: int)
    requires mod < 3 && rm < 8 && rm != 4 && !(mod == 0 && rm == 5) && DispBytes(d, DispSize(mod), disp)
    ensures Means([mod * 64 + rm] + d, InMemory(Some(rm), None, disp))
  {
    DispDecodes([mod * 64 + rm], d, DispSize(mod), disp);
    hide DecodeDisp, DispBytes;
  }

  /** The three fields of a ModRM or SIB byte. */
  lemma Fields(hi: nat, mid: nat, lo: nat)
    requires hi < 4 && mid < 8 && lo < 8
    ensures var b := hi * 64 + mid * 8 + lo;
            b < 256 && b / 64 == hi && b / 8 % 8 == mid && b % 8 == lo
  {}

  lemma SIBMeans(mod: nat, scale: nat, index: nat, base: nat, d: Bytes, disp: int)
    requires mod < 3 && scale < 4 && index < 8 && base < 8
    requires DispBytes(d, if mod == 0 && base == 5 then 4 else DispSize(mod), disp)
    ensures Means([mod * 64 + 4] + [scale * 64 + index * 8 + base] + d,
                  InMemory(if mod == 0 && base == 5 then None else Some(base),
                           if index == 4 then None else Some((index, scale)), disp))
  {
    Fields(mod, 0, 4);
    Fields(scale, index, base);
    var b0: byte, b1: byte := mod * 64 + 4, scale * 64 + index * 8 + base;
    assert b0 / 64 == mod && b0 / 8 % 8 == 0 && b0 % 8 == 4;
    var head := [b0] + [b1];
    DispDecodes(head, d, if mod == 0 && base == 5 then 4 else DispSize(mod), disp);
    hide DecodeDisp, DispBytes, DispSize;
    var code := head + d;
    assert code[0] == b0 && code[1] == b1 && |code| == 2 + |d|;
  }

  lemma AbsoluteMeans(addr: nat)
    requires addr < WORD_SPAN
    ensures Means([5] + Word(addr), InMemory(None, None, SignedWord(addr)))
  {
    var code := [5] + Word(addr);
    assert code[1..5] == Word(addr);
    WordRoundTrip(code, 1, addr);
    hide Word;
  }

  /** The bytes `EmitOperand` writes: the reg field is added to the ModRM byte. */
  function EmitOperand(reg: nat, operand: Bytes): Bytes
    requires reg < 8 && operand != [] && operand[0] / 8 % 8 == 0
  {
    [operand[0] + reg * 8] + operand[1..]
  }

  /** Whatever follows, an emitted operand decodes to its register field and its meaning. */
  lemma EmittedDecodes(reg: nat, operand: Bytes, m: Meaning, rest: Bytes)
    requires reg < 8 && Means(operand, m)
    ensures operand != [] && operand[0] / 8 % 8 == 0
    ensures DecodeOperand(EmitOperand(reg, operand) + rest) == Some(Decoded(reg, m, |operand|))
  {
    var e := EmitOperand(reg, operand) + rest;
    AddReg(operand[0], reg);
    assert e[0] == operand[0] + reg * 8;
    assert forall k :: 1 <= k < |operand| ==> e[k] == operand[k];
    SameDisp(operand, e, 2, |operand| - 2);
    SameDisp(operand, e, 1, |operand| - 1);
    hide DecodeDisp, EmitOperand;
  }

  lemma AddReg(b: byte, reg: nat)
    requires b / 8 % 8 == 0 && reg < 8
    ensures (b + reg * 8) / 64 == b / 64 && (b + reg * 8) / 8 % 8 == reg && (b + reg * 8) % 8 == b % 8
    ensures b + reg * 8 < 256
  {
    var hi, lo := b / 64, b % 8;
    assert b == hi * 64 + lo;
    Fields(hi, reg, lo);
  }

  lemma SameDisp(code: Bytes, code': Bytes, at: nat, size: int)
    requires forall k :: 1 <= k < |code| && k < |code'| ==> code'[k] == code[k]
    requires 1 <= at && |code| <= |code'|
    ensures size >= 0 && at + size <= |code| ==> DecodeDisp(code', at, size) == DecodeDisp(code, at, size)
  {
    if size == 4 && at + 4 <= |code| { SameWord(code, code', at); }
  }

  class Operand {
    var length: nat
    const encoding: array<byte>

    ghost predicate Valid()
      reads this
    {
      encoding.Length == 6 && length <= 6
    }

    ghost function Bytes(): (b: Bytes)
      requires Valid()
      reads this, encoding
      ensures |b| == length
    {
      encoding[..length]
    }

    method SetModRM(mod: nat, rm: nat)
      requires Valid() && mod < 4 && rm < 8
      modifies this`length, encoding
      ensures Valid() && Bytes() == [mod * 64 + rm]
    {
      encoding[0] := mod * 64 + rm;
      length := 1;
    }

    method SetSIB(scale: nat, index: nat, base: nat)
      requires Valid() && length == 1 && scale < 4 && index < 8 && base < 8
      modifies this`length, encoding
      ensures Valid() && Bytes() == old(Bytes()) + [scale * 64 + index * 8 + base]
    {
      encoding[1] := scale * 64 + index * 8 + base;
      length := 2;
    }

    method SetDisp8(disp: int)
      requires Valid() && (length == 1 || length == 2) && IsInt8(disp)
      modifies this`length, encoding
      ensures Valid() && Bytes() == old(Bytes()) + [LowByte(disp)]
    {
      encoding[length] := LowByte(disp);
      length := length + 1;
    }

    method SetDisp32(disp: int)
      requires Valid() && (length == 1 || length == 2)
      modifies this`length, encoding
      ensures Valid() && Bytes() == old(Bytes()) + Word(disp)
    {
      var w, n := Word(disp), length;
      for k := 0 to 4
        invariant encoding[..n] == old(Bytes())
        invariant encoding[n..n + k] == w[..k]
      {
        encoding[n + k] := w[k];
      }
      length := n + 4;
      assert encoding[..n + 4] == encoding[..n] + encoding[n..n + 4];
    }

    constructor Register(reg: nat)
      requires reg < 8
      ensures Valid() && Means(Bytes(), InRegister(reg))
    {
      length, encoding := 0, new byte[6];
      new;
      SetModRM(3, reg);
    }

    /** `Address(base, disp)` */
    constructor Base(base: nat, disp: int)
      requires base < 8 && IsInt32(disp)
      ensures Valid() && Means(Bytes(), InMemory(Some(base), None, disp))
    {
      length, encoding := 0, new byte[6];
      new;
      hide Means, Word, LowByte;
      var mod := if disp == 0 && base != EBP then 0 else if IsInt8(disp) then 1 else 2;
      SetModRM(mod, base);
      if base == ESP { SetSIB(0, ESP, base); }
      if mod == 1 { SetDisp8(disp); } else if mod == 2 { SetDisp32(disp); }
      ghost var d := if mod == 0 then [] else if mod == 1 then [LowByte(disp)] else Word(disp);
      if base == ESP {
        assert Bytes() == [mod * 64 + 4] + [0 * 64 + 4 * 8 + 4] + d;
        SIBMeans(mod, 0, ESP, base, d, disp);
      } else {
        assert Bytes() == [mod * 64 + base] + d;
        PlainMeans(mod, base, d, disp);
      }
    }

    /** `Address(index, scale, disp)` */
    constructor Index(index: nat, scale: nat, disp: int)
      requires index < 8 && index != ESP && scale < 4 && IsInt32(disp)
      ensures Valid() && Means(Bytes(), InMemory(None, Some((index, scale)), disp))
    {
      length, encoding := 0, new byte[6];
      new;
      hide Means, Word;
      SetModRM(0, ESP);
      SetSIB(scale, index, EBP);
      SetDisp32(disp);
      SIBMeans(0, scale, index, EBP, Word(disp), disp);
    }

    /** `Address(base, index, scale, disp)` */
    constructor BaseIndex(base: nat, index: nat, scale: nat, disp: int)
      requires base < 8 && index < 8 && index != ESP && scale < 4 && IsInt32(disp)
      ensures Valid() && Means(Bytes(), InMemory(Some(base), Some((index, scale)), disp))
    {
      length, encoding := 0, new byte[6];
      new;
      hide Means, Word, LowByte;
      var mod := if disp == 0 && base != EBP then 0 else if IsInt8(disp) then 1 else 2;
      SetModRM(mod, ESP);
      SetSIB(scale, index, base);
      if mod == 1 { SetDisp8(disp); } else if mod == 2 { SetDisp32(disp); }
      ghost var d := if mod == 0 then [] else if mod == 1 then [LowByte(disp)] else Word(disp);
      assert Bytes() == [mod * 64 + 4] + [scale * 64 + index * 8 + base] + d;
      SIBMeans(mod, scale, index, base, d, disp);
    }

    /** `Address::Absolute(addr)` */
    constructor Absolute(addr: nat)
      requires addr < WORD_SPAN
      ensures Valid() && Means(Bytes(), InMemory(None, None, SignedWord(addr)))
    {
      length, encoding := 0, new byte[6];
      new;
      hide Means, Word;
      SetModRM(0, EBP);
      SetDisp32(addr);
      AbsoluteMeans(addr);
    }
  }
}
