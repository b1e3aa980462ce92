/** Operands of 64-bit instructions: ModRM, SIB, displacement and the REX prefix bits that
    `Operand` and `Address` of runtime/vm/assembler_x64.h choose, against a decoder written from
    the Intel Software Developer's Manual, volume 2, section 2.2.1. */
module OperandsX64 {
  import opened Options
  import opened Words
  import opened OperandsIA32

  const RSP: nat := 4
  const RBP: nat := 5
  const R12: nat := 12

  /** The four bits of a REX prefix. */
  datatype Rex = Rex(w: bool, r: bool, x: bool, b: bool)

  function Bit(v: bool, weight: nat): nat {
    if v then weight else 0
  }

  function Extend(v: bool): nat {
    Bit(v, 8)
  }

  /** No prefix is emitted when no bit is set. */
  function Prefix(rex: Rex): Bytes {
    var value := Bit(rex.w, 8) + Bit(rex.r, 4) + Bit(rex.x, 2) + Bit(rex.b, 1);
    if value == 0 then [] else [0x40 + value]
  }

  function ReadPrefix(prefix: Bytes): Rex {
    if prefix == [] then Rex(false, false, false, false)
    else
      var v := prefix[0];
      Rex(v / 8 % 2 == 1, v / 4 % 2 == 1, v / 2 % 2 == 1, v % 2 == 1)
  }

  lemma PrefixRoundTrip(rex: Rex)
    ensures ReadPrefix(Prefix(rex)) == rex
  {}

  /** Displacement relative to the instruction pointer, which no constructor here produces. */
  datatype Operand64 = Plain(meaning: Meaning) | RipRelative(disp: int)

  datatype Decoded64 = Decoded64(reg: nat, operand: Operand64, length: nat)

  function Decode64(rex: Rex, code: Bytes): Option<Decoded64> {
    if |code| < 1 then None
    else
      var mod, reg, rm := code[0] / 64, code[0] / 8 % 8 + Extend(rex.r), code[0] % 8;
      if mod == 3 then Some(Decoded64(reg, Plain(InRegister(rm + Extend(rex.b))), 1))
      else if rm == 4 then DecodeSIB64(rex, code, mod, reg)
      else
        var relative := mod == 0 && rm == 5;
        var size := if relative then 4 else DispSize(mod);
        match DecodeDisp(code, 1, size)
        case None => None
        case Some(d) =>
          Some(Decoded64(reg, if relative then RipRelative(d) else Plain(InMemory(Some(rm + Extend(rex.b)), None, d)),
              1 + size))
  }

  function DecodeSIB64(rex: Rex, code: Bytes, mod: nat, reg: nat): Option<Decoded64> {
    if |code| < 2 then None
    else
      var scale, index, base := code[1] / 64, code[1] / 8 % 8 + Extend(rex.x), code[1] % 8;
      var noBase := mod == 0 && base == 5;
      var size := if noBase then 4 else DispSize(mod);
      match DecodeDisp(code, 2, size)
      case None => None
      case Some(d) =>
        Some(Decoded64(reg,
                       Plain(InMemory(if noBase then None else Some(base + Extend(rex.b)),
                                      if index == 4 then None else Some((index, scale)), d)),
                       2 + size))
  }

  /** With its own two REX bits the operand decodes to `m`, with an empty reg field. */
  ghost predicate Means64(x: bool, b: bool, code: Bytes, m: Meaning) {
    Decode64(Rex(false, false, x, b), code) == Some(Decoded64(0, Plain(m), |code|))
  }

  lemma PlainMeans64(mod: nat, base: nat, d: Bytes, disp: int)
    requires mod < 3 && base < 16 && base % 8 != 4 && !(mod == 0 && base % 8 == 5) && DispBytes(d, DispSize(mod), disp)
    ensures Means64(false, base > 7, [mod * 64 + base % 8] + d, InMemory(Some(base), None, disp))
  {
    Fields(mod, 0, base % 8);
    DispDecodes([mod * 64 + base % 8], d, DispSize(mod), disp);
    hide DecodeDisp, DispBytes, DispSize;
    var code := [mod * 64 + base % 8] + d;
    assert code[0] == mod * 64 + base % 8;
  }

  lemma SIBMeans64(mod: nat, scale: nat, index: nat, base: nat, d: Bytes, disp: int)
    requires mod < 3 && scale < 4 && index < 16 && base < 16
    requires DispBytes(d, if mod == 0 && base % 8 == 5 then 4 else DispSize(mod), disp)
    ensures Means64(index > 7, base > 7, [mod * 64 + 4] + [scale * 64 + index % 8 * 8 + base % 8] + d,
                    InMemory(if mod == 0 && base % 8 == 5 then None else Some(base),
                             if index == 4 then None else Some((index, scale)), disp))
  {
    SIBCore(mod, scale, index % 8, base % 8, index > 7, base > 7, d, disp);
    assert index % 8 + Extend(index > 7) == index && base % 8 + Extend(base > 7) == base;
    hide Means64, DispBytes;
  }

  /** The same in terms of the three-bit fields and the two prefix bits. */
  lemma SIBCore(mod: nat, scale: nat, index: nat, base: nat, x: bool, b: bool, d: Bytes, disp: int)
    requires mod < 3 && scale < 4 && index < 8 && base < 8
    requires DispBytes(d, if mod == 0 && base == 5 then 4 else DispSize(mod), disp)
    ensures Means64(x, b, [mod * 64 + 4] + [scale * 64 + index * 8 + base] + d,
                    InMemory(if mod == 0 && base == 5 then None else Some(base + Extend(b)),
                             if index + Extend(x) == 4 then None else Some((index + Extend(x), scale)), disp))
  {
    Fields(mod, 0, 4);
    Fields(scale, index, base);
    var b0: byte, b1: byte := mod * 64 + 4, scale * 64 + index * 8 + base;
    var head := [b0] + [b1];
    var size := if mod == 0 && base == 5 then 4 else DispSize(mod);
    DispDecodes(head, d, size, disp);
    SIBDecodes(Rex(false, false, x, b), head + d, mod, scale, index, base, size, disp);
    hide DecodeDisp, DispBytes, DispSize, DecodeSIB64, Extend;
  }

  lemma SIBDecodes(rex: Rex, code: Bytes, mod: nat, scale: nat, index: nat, base: nat, size: nat, disp: int)
    requires |code| == 2 + size && code[0] / 64 == mod < 3 && code[0] / 8 % 8 == 0 && code[0] % 8 == 4
    requires code[1] / 64 == scale && code[1] / 8 % 8 == index && code[1] % 8 == base
    requires size == (if mod == 0 && base == 5 then 4 else DispSize(mod)) && DecodeDisp(code, 2, size) == Some(disp)
    requires !rex.r
    ensures Decode64(rex, code) ==
            Some(Decoded64(0, Plain(InMemory(if mod == 0 && base == 5 then None else Some(base + Extend(rex.b)),
                                             if index + Extend(rex.x) == 4 then None
                                                 else Some((index + Extend(rex.x), scale)),
                                             disp)), |code|))
  {
    hide DecodeDisp, DispSize;
  }

  /** The prefix that `EmitOperandREX` emits for register `reg` and extra bits `w`. */
  function OperandRex(reg: nat, w: bool, x: bool, b: bool): Rex {
    Rex(w, reg > 7, x, b)
  }

  /** The emitted prefix and operand together decode to the register and the meaning. */
  lemma EmittedDecodes64(reg: nat, w: bool, x: bool, b: bool, operand: Bytes, m: Meaning, rest: Bytes)
    requires reg < 16 && Means64(x, b, operand, m)
    ensures operand != [] && operand[0] / 8 % 8 == 0
    ensures var rex := ReadPrefix(Prefix(OperandRex(reg, w, x, b)));
            Decode64(rex, EmitOperand(reg % 8, operand) + rest) == Some(Decoded64(reg, Plain(m), |operand|))
  {
    PrefixRoundTrip(OperandRex(reg, w, x, b));
    AddReg(operand[0], reg % 8);
    ReplaceReg(Rex(false, false, x, b), OperandRex(reg, w, x, b), operand, EmitOperand(reg % 8, operand) + rest);
    hide Prefix, ReadPrefix, Decode64, EmitOperand;
    assert reg % 8 + Extend(reg > 7) == reg;
  }

  /** Bytes that differ only in the reg field, and prefixes only in R and W, decode alike. */
  lemma ReplaceReg(rex: Rex, rex': Rex, operand: Bytes, e: Bytes)
    requires rex'.x == rex.x && rex'.b == rex.b && operand != [] && |operand| <= |e|
    requires Decode64(rex, operand).Some? && Decode64(rex, operand).value.length == |operand|
    requires e[0] / 64 == operand[0] / 64 && e[0] % 8 == operand[0] % 8
    requires forall k :: 1 <= k < |operand| ==> e[k] == operand[k]
    ensures Decode64(rex', e) == Some(Decode64(rex, operand).value.(reg := e[0] / 8 % 8 + Extend(rex'.r)))
  {
    SameDisp(operand, e, 2, |operand| - 2);
    SameDisp(operand, e, 1, |operand| - 1);
    hide DecodeDisp, Extend;
  }

  class Operand {
    var length: nat
    var rexX: bool
    var rexB: bool
    const encoding: array<byte>

    ghost predicate Valid()
      reads this
    {
      encoding.Length == 6 && length <= 6
    }

    ghost function Bytes(): (b: Bytes)
      requires Valid()
      reads this, encoding
      ensures |b| == length
    {
      encoding[..length]
    }

    /** REX.B is left to the SIB byte when R12 is a base. */
    method SetModRM(mod: nat, rm: nat)
      requires Valid() && mod < 4 && rm < 16
      modifies this`length, this`rexB, encoding
      ensures Valid() && Bytes() == [mod * 64 + rm % 8]
      ensures rexB == (old(rexB) || (rm > 7 && !(rm == R12 && mod != 3)))
    {
      if rm > 7 && !(rm == R12 && mod != 3) {
        rexB := true;
      }
      encoding[0] := mod * 64 + rm % 8;
      length := 1;
    }

    method SetSIB(scale: nat, index: nat, base: nat)
      requires Valid() && length == 1 && scale < 4 && index < 16 && base < 16
      requires base > 7 ==> !rexB
      modifies this`length, this`rexX, this`rexB, encoding
      ensures Valid() && Bytes() == old(Bytes()) + [scale * 64 + index % 8 * 8 + base % 8]
      ensures rexB == (old(rexB) || base > 7) && rexX == (old(rexX) || index > 7)
    {
      if base > 7 {
        rexB := true;
      }
      if index > 7 {
        rexX := true;
      }
      encoding[1] := scale * 64 + index % 8 * 8 + base % 8;
      length := 2;
    }

    method SetDisp8(disp: int)
      requires Valid() && (length == 1 || length == 2) && IsInt8(disp)
      modifies this`length, encoding
      ensures Valid() && Bytes() == old(Bytes()) + [LowByte(disp)]
    {
      encoding[length] := LowByte(disp);
      length := length + 1;
    }

    method SetDisp32(disp: int)
      requires Valid() && (length == 1 || length == 2)
      modifies this`length, encoding
      ensures Valid() && Bytes() == old(Bytes()) + Word(disp)
    {
      var w, n := Word(disp), length;
      for k := 0 to 4
        invariant encoding[..n] == old(Bytes())
        invariant encoding[n..n + k] == w[..k]
      {
        encoding[n + k] := w[k];
      }
      length := n + 4;
      assert encoding[..n + 4] == encoding[..n] + encoding[n..n + 4];
    }

    /** The displacement that goes with the `mod` field. */
    method SetDisp(mod: nat, disp: int)
      requires Valid() && (length == 1 || length == 2) && mod < 3 && IsInt32(disp)
      requires (mod == 0 ==> disp == 0) && (mod == 1 ==> IsInt8(disp))
      modifies this`length, encoding
      ensures Valid() && old(length) <= length
      ensures Bytes() == old(Bytes()) + Bytes()[old(length)..]
      ensures DispBytes(Bytes()[old(length)..], DispSize(mod), disp)
    {
      if mod == 1 {
        SetDisp8(disp);
      } else if mod == 2 {
        SetDisp32(disp);
      }
    }

    constructor Register(reg: nat)
      requires reg < 16
      ensures Valid() && Means64(rexX, rexB, Bytes(), InRegister(reg))
    {
      length, encoding, rexX, rexB := 0, new byte[6], false, false;
      new;
      SetModRM(3, reg);
    }

    /** `Address(base, disp)` */
    constructor Base(base: nat, disp: int)
      requires base < 16 && IsInt32(disp)
      ensures Valid() && Means64(rexX, rexB, Bytes(), InMemory(Some(base), None, disp))
    {
      length, encoding, rexX, rexB := 0, new byte[6], false, false;
      new;
      hide Means64;
      var mod := if disp == 0 && base % 8 != RBP then 0 else if IsInt8(disp) then 1 else 2;
      if base % 8 == RSP {
        SetBaseSIB(mod, base, disp);
      } else {
        SetBasePlain(mod, base, disp);
      }
    }

    /** A base with the low bits of RSP needs a SIB byte. */
    method SetBaseSIB(mod: nat, base: nat, disp: int)
      requires Valid() && !rexX && !rexB && mod < 3 && base < 16 && base % 8 == RSP && IsInt32(disp)
      requires (mod == 0 ==> disp == 0) && (mod == 1 ==> IsInt8(disp))
      modifies this, encoding
      ensures Valid() && Means64(rexX, rexB, Bytes(), InMemory(Some(base), None, disp))
    {
      hide Means64, DispBytes;
      SetModRM(mod, base);
      SetSIB(0, RSP, base);
      ghost var head := Bytes();
      SetDisp(mod, disp);
      assert head == [mod * 64 + 4] + [0 * 64 + RSP % 8 * 8 + base % 8];
      SIBMeans64(mod, 0, RSP, base, Bytes()[|head|..], disp);
    }

    method SetBasePlain(mod: nat, base: nat, disp: int)
      requires Valid() && !rexX && !rexB && mod < 3 && base < 16 && base % 8 != RSP && IsInt32(disp)
      requires (mod == 0 ==> disp == 0 && base % 8 != RBP) && (mod == 1 ==> IsInt8(disp))
      modifies this, encoding
      ensures Valid() && Means64(rexX, rexB, Bytes(), InMemory(Some(base), None, disp))
    {
      hide Means64, DispBytes;
      SetModRM(mod, base);
      ghost var head := Bytes();
      SetDisp(mod, disp);
      PlainMeans64(mod, base, Bytes()[|head|..], disp);
    }

    /** `Address(index, scale, disp)` */
    constructor Index(index: nat, scale: nat, disp: int)
      requires index < 16 && index != RSP && scale < 4 && IsInt32(disp)
      ensures Valid() && Means64(rexX, rexB, Bytes(), InMemory(None, Some((index, scale)), disp))
    {
      length, encoding, rexX, rexB := 0, new byte[6], false, false;
      new;
      hide Means64, Word;
      SetModRM(0, RSP);
      SetSIB(scale, index, RBP);
      SetDisp32(disp);
      assert Bytes() == [0 * 64 + 4] + [scale * 64 + index % 8 * 8 + RBP % 8] + Word(disp);
      SIBMeans64(0, scale, index, RBP, Word(disp), disp);
    }

    /** `Address(base, index, scale, disp)` */
    constructor BaseIndex(base: nat, index: nat, scale: nat, disp: int)
      requires base < 16 && index < 16 && index != RSP && scale < 4 && IsInt32(disp)
      ensures Valid() && Means64(rexX, rexB, Bytes(), InMemory(Some(base), Some((index, scale)), disp))
    {
      length, encoding, rexX, rexB := 0, new byte[6], false, false;
      new;
      hide Means64, DispBytes;
      var mod := if disp == 0 && base % 8 != RBP then 0 else if IsInt8(disp) then 1 else 2;
      SetModRM(mod, RSP);
      SetSIB(scale, index, base);
      ghost var head := Bytes();
      SetDisp(mod, disp);
      ghost var d := Bytes()[|head|..];
      assert head == [mod * 64 + 4] + [scale * 64 + index % 8 * 8 + base % 8];
      SIBMeans64(mod, scale, index, base, d, disp);
    }
  }
}
