/** The integer natives of runtime/lib/integers: small integers in a tagged word, 64-bit integers
    and big integers. Each fast path computes in a machine type; the model wraps at that type's
    width, and the theorems say that nothing is ever lost to it. The big-integer routines are
    taken as exact. */
module Integers {
  import opened BitMath
  import opened Options

  datatype Arch = Ia32 | X64 {
    function WordBits(): nat { if Ia32? then 32 else 64 }
    function SmiBits(): nat { WordBits() - 2 }
  }

  const MINT_BITS: nat := 63

  function Pow2(n: nat): (p: int)
    ensures p > 0
  {
    if n == 0 then 1 else 2 * Pow2(n - 1)
  }

  /** Values of an n-bit two's complement type. */
  predicate IsInt(n: nat, v: int)
    requires n > 0
  {
    -Pow2(n - 1) <= v < Pow2(n - 1)
  }

  /** What an n-bit machine operation leaves of the exact result. */
  function Wrap(n: nat, v: int): int
    requires n > 0
  {
    (v + Pow2(n - 1)) % Pow2(n) - Pow2(n - 1)
  }

  lemma WrapExact(n: nat, v: int)
    requires n > 0
    ensures IsInt(n, Wrap(n, v))
    ensures Wrap(n, v) == v <==> IsInt(n, v)
  {
    var h, p, u := Pow2(n - 1), Pow2(n), v + Pow2(n - 1);
    assert p == 2 * h;
    if 0 <= u < p {
      ModUnique(u, p, 0, u);
    }
  }

  datatype Integer = Smi(value: int) | Mint(value: int) | Bigint(value: int)

  predicate IsSmiValue(arch: Arch, v: int) {
    IsInt(arch.SmiBits() + 1, v)
  }

  predicate IsInt64(v: int) {
    IsInt(64, v)
  }

  /** A value that its representation can hold. */
  predicate Representable(arch: Arch, i: Integer) {
    match i
    case Smi(v) => IsSmiValue(arch, v)
    case Mint(v) => IsInt64(v)
    case Bigint(_) => true
  }

  /** CheckInteger: the value is in its most compact representation. */
  predicate Canonical(arch: Arch, i: Integer) {
    match i
    case Smi(v) => IsSmiValue(arch, v)
    case Mint(v) => IsInt64(v) && !IsSmiValue(arch, v)
    case Bigint(v) => !IsInt64(v)
  }

  function Compact(arch: Arch, v: int): Integer {
    if IsSmiValue(arch, v) then Smi(v) else if IsInt64(v) then Mint(v) else Bigint(v)
  }

  /** Integer::New on a 64-bit value. */
  function NewInteger(arch: Arch, v: int): Integer
    requires IsInt64(v)
  {
    if IsSmiValue(arch, v) then Smi(v) else Mint(v)
  }

  function AsInteger(arch: Arch, i: Integer): Integer {
    match i
    case Smi(_) => i
    case Mint(v) => if IsSmiValue(arch, v) then Smi(v) else i
    case Bigint(v) => if IsSmiValue(arch, v) then Smi(v) else if IsInt64(v) then Mint(v) else i
  }

  lemma {:induction false} Pow2Grows(a: nat, b: nat)
    requires a <= b
    ensures Pow2(a) <= Pow2(b)
  {
    if a < b { Pow2Grows(a, b - 1); }
  }

  lemma SmiIsInt64(arch: Arch, v: int)
    requires IsSmiValue(arch, v)
    ensures IsInt64(v) && IsInt(arch.WordBits(), v)
  {
    Pow2Grows(arch.SmiBits(), 63);
    Pow2Grows(arch.SmiBits(), arch.WordBits() - 1);
  }

  /** AsInteger finds the one canonical representation of the value. */
  lemma AsIntegerCompacts(arch: Arch, i: Integer)
    requires Representable(arch, i)
    ensures AsInteger(arch, i) == Compact(arch, i.value)
    ensures Canonical(arch, Compact(arch, i.value))
    ensures Canonical(arch, i) ==> i == Compact(arch, i.value)
  {
    if IsSmiValue(arch, i.value) { SmiIsInt64(arch, i.value); }
  }

  // ---------------------------------------------------------------- exact operations

  datatype Op = Add | Sub | Mul | TruncDiv | Mod

  function Abs(v: int): nat {
    if v < 0 then -v else v
  }

  /** Division that rounds toward zero. */
  function Quotient(a: int, b: int): int
    requires b != 0
  {
    if (a < 0) == (b < 0) then Abs(a) / Abs(b) else -(Abs(a) / Abs(b))
  }

  /** The remainder of the C family, with the sign of the dividend. */
  function Remainder(a: int, b: int): int
    requires b != 0
  {
    a - b * Quotient(a, b)
  }

  /** The mathematical results; the modulus is the Euclidean one. */
  function Exact(op: Op, a: int, b: int): int
    requires (op == TruncDiv || op == Mod) ==> b != 0
  {
    match op
    case Add => a + b
    case Sub => a - b
    case Mul => a * b
    case TruncDiv => Quotient(a, b)
    case Mod => a % b
  }

  /** The operations of an n-bit machine type. */
  function MachineMod(n: nat, a: int, b: int): int
    requires n > 0 && b != 0
  {
    var r := Wrap(n, Remainder(a, b));
    if r < 0 then (if b < 0 then Wrap(n, r - b) else Wrap(n, r + b)) else r
  }

  /** The shared fast path: `None` where the product may not fit and falls through. */
  function FastPath(arch: Arch, op: Op, n: nat, a: int, b: int, productFits: bool): Option<int>
    requires n > 0 && ((op == TruncDiv || op == Mod) ==> b != 0)
  {
    match op
    case Add => Some(Wrap(n, a + b))
    case Sub => Some(Wrap(n, a - b))
    case Mul => if productFits then Some(Wrap(64, a * b)) else None
    case TruncDiv => Some(Wrap(n, Quotient(a, b)))
    case Mod => Some(MachineMod(n, a, b))
  }

  function Binop(arch: Arch, op: Op, l: Integer, r: Integer): Integer
    requires (op == TruncDiv || op == Mod) ==> r.value != 0
  {
    var a, b := l.value, r.value;
    var smis := if l.Smi? && r.Smi? then
        FastPath(arch, op, arch.WordBits(), a, b, arch.SmiBits() < 32 || (IsInt(32, a) && IsInt(32, b)))
      else None;
    if smis.Some? then NewFrom(arch, smis.value)
    else
      var mints := if arch.SmiBits() < 32 && !l.Bigint? && !r.Bigint? && IsInt(63, a) && IsInt(63, b) then
          FastPath(arch, op, 64, a, b, IsInt(32, a) && IsInt(32, b))
        else None;
      if mints.Some? then NewFrom(arch, mints.value)
      else AsInteger(arch, Bigint(Exact(op, a, b)))
  }

  /** Integer::New takes an int64_t: its argument is converted to 64 bits. */
  function NewFrom(arch: Arch, v: int): Integer {
    var w := Wrap(64, v);
    WrapExact(64, v);
    NewInteger(arch, w)
  }

  // ------------------------------------------------------------------ exactness

  lemma DivideBounds(a: nat, b: nat)
    requires b > 0
    ensures 0 <= a / b <= a && 0 <= a - b * (a / b) < b
  {
    if a / b > a {
      MulAtLeast(a / b, b);
    }
  }

  lemma NegateProduct(x: int, y: int)
    ensures -x * y == -(x * y) && x * -y == -(x * y)
  {}

  /** The remainder is that of the magnitudes, with the sign of the dividend. */
  lemma RemainderIs(a: int, b: int)
    requires b != 0
    ensures var r := Abs(a) - Abs(b) * (Abs(a) / Abs(b));
            Remainder(a, b) == if a < 0 then -r else r
  {
    var q := Abs(a) / Abs(b);
    assert Quotient(a, b) == if (a < 0) == (b < 0) then q else -q;
    NegateProduct(b, q);
    assert b < 0 ==> Abs(b) * q == -b * q;
  }

  lemma QuotientBounds(a: int, b: int)
    requires b != 0
    ensures Abs(Quotient(a, b)) <= Abs(a)
    ensures Abs(Remainder(a, b)) < Abs(b)
  {
    DivideBounds(Abs(a), Abs(b));
    RemainderIs(a, b);
    hide Remainder;
  }

  lemma Distribute(b: int, q: int)
    ensures b * (q - 1) == b * q - b && b * (q + 1) == b * q + b
  {}

  /** Shifting a negative remainder by the divisor's magnitude gives the Euclidean modulus. */
  lemma RemainderToModulus(a: int, b: int)
    requires b != 0
    ensures a % b == Remainder(a, b) + if Remainder(a, b) >= 0 then 0 else Abs(b)
  {
    QuotientBounds(a, b);
    hide Quotient;
    var r, q := Remainder(a, b), Quotient(a, b);
    assert a == b * q + r;
    Distribute(b, q);
    if r >= 0 {
      EuclidUnique(a, b, q, r);
    } else if b > 0 {
      EuclidUnique(a, b, q - 1, r + b);
    } else {
      EuclidUnique(a, b, q + 1, r - b);
    }
  }

  lemma EuclidUnique(a: int, b: int, q: int, r: int)
    requires b != 0 && a == b * q + r && 0 <= r < Abs(b)
    ensures a % b == r
  {
    var q', r' := a / b, a % b;
    assert a == b * q' + r' && 0 <= r' < Abs(b);
    var d := if b > 0 then q' - q else q - q';
    assert Abs(b) * d == r - r' by {
      if b > 0 {
        assert b * (q' - q) == b * q' - b * q;
      } else {
        assert -b * (q - q') == b * q' - b * q;
      }
    }
    NoSmallMultiple(Abs(b), d);
  }

  lemma ProductFits(a: int, b: int)
    requires IsInt(32, a) && IsInt(32, b)
    ensures IsInt64(a * b)
  {
    var p: int := 0x8000_0000;
    Pow2Values();
    assert -p <= a <= p && -p <= b <= p;
    assert Abs(a) * Abs(b) <= p * p by {
      MulMono(Abs(a), p, Abs(b));
      MulMono(Abs(b), p, p);
    }
    assert a * b == Abs(a) * Abs(b) || a * b == -(Abs(a) * Abs(b));
  }

  lemma MulMono(a: nat, b: nat, c: nat)
    requires a <= b
    ensures a * c <= b * c
  {
    assert (b - a) * c >= 0;
  }

  lemma Pow2Values()
    ensures Pow2(30) == 0x4000_0000 && Pow2(31) == 0x8000_0000 && Pow2(32) == 0x1_0000_0000
    ensures Pow2(62) == 0x4000_0000_0000_0000 && Pow2(63) == 0x8000_0000_0000_0000
  {
    assert Pow2(8) == 256;
    Pow2Sum(8, 8);
    Pow2Sum(16, 14);
    Pow2Sum(16, 16);
    Pow2Sum(32, 30);
  }

  lemma {:induction false} Pow2Sum(a: nat, b: nat)
    ensures Pow2(a + b) == Pow2(a) * Pow2(b)
  {
    if a > 0 {
      Pow2Sum(a - 1, b);
      assert 2 * (Pow2(a - 1) * Pow2(b)) == 2 * Pow2(a - 1) * Pow2(b);
    }
  }

  lemma MachineModExact(n: nat, a: int, b: int)
    requires n > 1 && IsInt(n - 1, a) && IsInt(n - 1, b) && b != 0
    ensures MachineMod(n, a, b) == a % b && IsInt(n, a % b)
  {
    QuotientBounds(a, b);
    RemainderToModulus(a, b);
    hide Remainder, Wrap;
    var r := Remainder(a, b);
    assert Pow2(n - 1) == 2 * Pow2(n - 2);
    WrapExact(n, r);
    WrapExact(n, r - b);
    WrapExact(n, r + b);
  }

  /** Operands with a bit to spare: no fast path overflows its machine type. */
  lemma FastPathExact(arch: Arch, op: Op, n: nat, a: int, b: int, productFits: bool)
    requires n > 1 && IsInt(n - 1, a) && IsInt(n - 1, b) && ((op == TruncDiv || op == Mod) ==> b != 0)
    requires productFits ==> IsInt(32, a) && IsInt(32, b)
    ensures var f := FastPath(arch, op, n, a, b, productFits);
            && (f.None? <==> op == Mul && !productFits)
            && (f.Some? ==> f.value == Exact(op, a, b) && (IsInt64(f.value) || IsInt(n, f.value)))
  {
    assert Pow2(n - 1) == 2 * Pow2(n - 2);
    hide Wrap, MachineMod, Quotient;
    match op {
      case Add => WrapExact(n, a + b);
      case Sub => WrapExact(n, a - b);
      case Mul =>
        if productFits {
          ProductFits(a, b);
          WrapExact(64, a * b);
        }
      case TruncDiv =>
        QuotientBounds(a, b);
        WrapExact(n, Quotient(a, b));
      case Mod =>
        MachineModExact(n, a, b);
    }
  }

  lemma NewFromExact(arch: Arch, v: int)
    requires IsInt64(v)
    ensures NewFrom(arch, v) == Compact(arch, v)
  {
    WrapExact(64, v);
  }

  lemma InInt64(n: nat, v: int)
    requires n in {32, 64} && IsInt(n, v)
    ensures IsInt64(v)
  {
    Pow2Grows(n - 1, 63);
  }

  lemma SmiFits32(v: int)
    requires IsSmiValue(Ia32, v)
    ensures IsInt(32, v)
  {
    Pow2Grows(30, 31);
  }

  /** A fast path that does not fall through gives the compact exact result. */
  lemma FastResult(arch: Arch, op: Op, n: nat, a: int, b: int, productFits: bool)
    requires n in {32, 64} && IsInt(n - 1, a) && IsInt(n - 1, b) && ((op == TruncDiv || op == Mod) ==> b != 0)
    requires productFits ==> IsInt(32, a) && IsInt(32, b)
    ensures var f := FastPath(arch, op, n, a, b, productFits);
            f.Some? ==> NewFrom(arch, f.value) == Compact(arch, Exact(op, a, b))
  {
    hide Exact, FastPath, Compact, NewFrom, IsInt;
    FastPathExact(arch, op, n, a, b, productFits);
    var f := FastPath(arch, op, n, a, b, productFits);
    if f.Some? {
      if IsInt(n, f.value) { InInt64(n, f.value); }
      NewFromExact(arch, f.value);
    }
  }

  /** Every binary operation on canonical operands gives the exact result, compactly. */
  lemma BinopExact(arch: Arch, op: Op, l: Integer, r: Integer)
    requires Canonical(arch, l) && Canonical(arch, r)
    requires (op == TruncDiv || op == Mod) ==> r.value != 0
    ensures Binop(arch, op, l, r) == Compact(arch, Exact(op, l.value, r.value))
    ensures Canonical(arch, Binop(arch, op, l, r))
  {
    hide Exact, FastPath, AsInteger, NewFrom, IsInt, Compact;
    var a, b := l.value, r.value;
    var fits32 := IsInt(32, a) && IsInt(32, b);
    AsIntegerCompacts(arch, Bigint(Exact(op, a, b)));
    if l.Smi? && r.Smi? {
      if arch == Ia32 {
        SmiFits32(a);
        SmiFits32(b);
      }
      FastResult(arch, op, arch.WordBits(), a, b, arch.SmiBits() < 32 || fits32);
    }
    if IsInt(63, a) && IsInt(63, b) {
      FastResult(arch, op, 64, a, b, fits32);
    }
  }

  // --------------------------------------------------------------------- shifts

  /** The position of the highest set bit. */
  function Log2(t: nat): nat {
    if t < 2 then 0 else 1 + Log2(t / 2)
  }

  lemma {:induction false} Log2Bounds(t: nat)
    requires t > 0
    ensures Pow2(Log2(t)) <= t < Pow2(Log2(t) + 1)
  {
    if t >= 2 { Log2Bounds(t / 2); }
  }

  /** The bits of a negated value, read as unsigned: exact even for the least value, whose
      negation overflows the signed type. */
  function Magnitude(v: int): int
    requires IsInt64(v)
  {
    if v > 0 then v else Wrap(64, -v) % Pow2(64)
  }

  lemma MagnitudeIsAbs(v: int)
    requires IsInt64(v)
    ensures Magnitude(v) == Abs(v)
    ensures v <= 0 ==> (Wrap(64, -v) == -v <==> v != -Pow2(63))
  {
    var h, p := Pow2(63), Pow2(64);
    assert p == 2 * h;
    hide Pow2;
    if v == -h {
      assert -v + h == p;
      EuclidUnique(p, p, 1, 0);
      ModShift(v, p);
    } else if v <= 0 {
      WrapExact(64, -v);
      EuclidUnique(-v, p, 0, -v);
    }
  }

  lemma ModShift(v: int, p: int)
    requires -p <= v < 0 && p > 0
    ensures v % p == if v == -p then 0 else v + p
  {
    if v > -p { EuclidUnique(v, p, -1, v + p); } else { EuclidUnique(v, p, -1, 0); }
  }

  /** The loop `while ((t >>= 1) != 0)`. */
  method HighestBit(v: int) returns (count: nat)
    requires IsInt64(v)
    ensures v != 0 ==> Pow2(count) <= Abs(v) < Pow2(count + 1)
    ensures v == 0 ==> count == 0
    ensures count == Log2(Abs(v))
  {
    MagnitudeIsAbs(v);
    if v != 0 { Log2Bounds(Abs(v)); }
    hide Magnitude;
    var t := Magnitude(v);
    count := 0;
    t := t / 2;
    while t != 0
      invariant t >= 0 && Log2(Abs(v)) == count + if t == 0 then 0 else 1 + Log2(t)
    {
      count := count + 1;
      t := t / 2;
    }
  }

  datatype Shift = Shl | Shr

  /** Multiplication by a power of two, and the quotient rounded down. */
  function ExactShift(kind: Shift, v: int, amount: nat): int {
    if kind == Shl then v * Pow2(amount) else v / Pow2(amount)
  }

  function MachineShl(n: nat, v: int, amount: nat): int
    requires 0 <= amount < n
  {
    Wrap(n, v * Pow2(amount))
  }

  /** The arithmetic right shift of a machine type. */
  function MachineShr(n: nat, v: int, amount: nat): int
    requires 0 <= amount < n
  {
    v / Pow2(amount)
  }

  function SmiShift(arch: Arch, kind: Shift, v: int, amount: nat): Integer {
    if kind == Shl then
      if v == 0 || amount == 0 then Smi(v)
      else
        var cnt := Log2(Abs(v));
        if cnt + amount >= arch.SmiBits() then
          if cnt + amount >= MINT_BITS then Bigint(ExactShift(Shl, v, amount))
          else NewFrom(arch, MachineShl(64, v, amount))
        else Smi(MachineShl(arch.WordBits(), v, amount))
    else
      var n := arch.WordBits();
      Smi(MachineShr(n, v, if amount >= n then n - 1 else amount))
  }

  datatype Outcome = Throws | Returns(result: Integer)

  /** A shift of any integer by a small integer; a negative amount is an illegal argument. */
  function ShiftOperation(arch: Arch, kind: Shift, value: Integer, amount: int): Outcome {
    if amount < 0 then Throws
    else if value.Smi? then Returns(AsInteger(arch, SmiShift(arch, kind, value.value, amount)))
    else
      var v := value.value;
      if value.Mint? && Log2(Abs(v)) + amount < MINT_BITS then
        Returns(AsInteger(arch,
            NewFrom(arch, if kind == Shl then MachineShl(64, v, amount) else MachineShr(64, v, amount))))
      else Returns(AsInteger(arch, Bigint(ExactShift(kind, v, amount))))
  }

  /** A left shift that keeps the highest bit below position n loses nothing. */
  lemma ShlFits(n: nat, v: int, amount: nat)
    requires v != 0 && Log2(Abs(v)) + amount < n
    ensures -Pow2(n) < v * Pow2(amount) < Pow2(n)
  {
    var cnt := Log2(Abs(v));
    Log2Bounds(Abs(v));
    Pow2Sum(cnt + 1, amount);
    Pow2Grows(cnt + 1 + amount, n);
    hide Pow2, Log2;
    ScaledBound(v, Pow2(amount), Pow2(cnt + 1), Pow2(n));
  }

  lemma ScaledBound(v: int, p: int, a: int, top: int)
    requires p > 0 && Abs(v) < a && a * p <= top
    ensures -top < v * p < top
  {
    MulLess(v, a, p);
    MulLess(-a, v, p);
    NegateProduct(a, p);
  }

  lemma MulLess(a: int, b: int, c: int)
    requires a < b && c > 0
    ensures a * c < b * c
  {
    assert (b - a) * c > 0;
  }

  /** Shifting out all value bits leaves the sign. */
  lemma ShrToSign(v: int, k: nat)
    requires -Pow2(k) <= v < Pow2(k)
    ensures v / Pow2(k) == if v < 0 then -1 else 0
  {
    var p := Pow2(k);
    FloorUnique(v, p, if v < 0 then -1 else 0);
  }

  lemma FloorUnique(v: int, p: int, q: int)
    requires p > 0 && p * q <= v < p * q + p
    ensures v / p == q
  {
    EuclidUnique(v, p, q, v - p * q);
    var q' := v / p;
    assert p * (q' - q) == 0;
    NoSmallMultiple(p, q' - q);
  }

  lemma PositiveFactor(p: int, d: int)
    requires p > 0 && p * d > 0
    ensures d > 0
  {}

  /** Dividing a negative number by a positive one, rounding down, stays between it and -1. */
  lemma NegativeFloor(v: int, p: int)
    requires v < 0 < p
    ensures v <= v / p < 0
  {
    var q := v / p;
    assert p * q <= v < p * q + p;
    NegateProduct(p, q);
    PositiveFactor(p, -q);
    ShrTooLow(v, p, q);
  }

  lemma ShrTooLow(v: int, p: int, q: int)
    requires v < 0 < p && v < p * q + p
    ensures q >= v
  {
    // p * (q + 1) > v, and p * v <= v, so q + 1 > v.
    assert p * (q + 1) == p * q + p;
    MulAtLeast(-v, p);
    NegateProduct(v, p);
    assert p * (q + 1 - v) == p * (q + 1) - v * p;
    PositiveFactor(p, q + 1 - v);
  }

  lemma ShrShrinks(v: int, amount: nat)
    ensures Abs(v / Pow2(amount)) <= Abs(v) && (v < 0 <==> v / Pow2(amount) < 0)
  {
    hide Pow2;
    if v >= 0 {
      DivideBounds(v, Pow2(amount));
    } else {
      NegativeFloor(v, Pow2(amount));
    }
  }

  /** A left shift below position 63 is exact in 64 bits. */
  lemma Shl64Exact(arch: Arch, v: int, amount: nat)
    requires v != 0 && Log2(Abs(v)) + amount < MINT_BITS
    ensures IsInt64(v * Pow2(amount))
    ensures AsInteger(arch, NewFrom(arch, MachineShl(64, v, amount))) == Compact(arch, v * Pow2(amount))
  {
    var exact := v * Pow2(amount);
    ShlFits(63, v, amount);
    WrapExact(64, exact);
    hide Wrap, Pow2, NewFrom, AsInteger, Compact;
    NewFromExact(arch, exact);
    CompactStays(arch, exact);
  }

  lemma CompactStays(arch: Arch, v: int)
    ensures AsInteger(arch, Compact(arch, v)) == Compact(arch, v)
  {
    AsIntegerCompacts(arch, Compact(arch, v));
  }

  /** A left shift below the small-integer width is exact in a word and stays small. */
  lemma ShlSmallExact(arch: Arch, v: int, amount: nat)
    requires v != 0 && Log2(Abs(v)) + amount < arch.SmiBits()
    ensures MachineShl(arch.WordBits(), v, amount) == v * Pow2(amount) && IsSmiValue(arch, v * Pow2(amount))
  {
    ShlFits(arch.SmiBits(), v, amount);
    Pow2Grows(arch.SmiBits(), arch.WordBits() - 1);
    WrapExact(arch.WordBits(), v * Pow2(amount));
    hide Wrap, Pow2;
  }

  lemma SmiShlExact(arch: Arch, v: int, amount: nat)
    requires IsSmiValue(arch, v)
    ensures AsInteger(arch, SmiShift(arch, Shl, v, amount)) == Compact(arch, ExactShift(Shl, v, amount))
  {
    if v == 0 || amount == 0 {
      assert v * Pow2(amount) == v;
    } else {
      hide Wrap, Pow2, NewFrom, IsInt;
      var cnt := Log2(Abs(v));
      if cnt + amount >= MINT_BITS {
        AsIntegerCompacts(arch, Bigint(v * Pow2(amount)));
      } else if cnt + amount >= arch.SmiBits() {
        Shl64Exact(arch, v, amount);
      } else {
        ShlSmallExact(arch, v, amount);
      }
    }
  }

  lemma SmiShrExact(arch: Arch, v: int, amount: nat)
    requires IsSmiValue(arch, v)
    ensures AsInteger(arch, SmiShift(arch, Shr, v, amount)) == Compact(arch, ExactShift(Shr, v, amount))
  {
    var n := arch.WordBits();
    if amount >= n {
      Pow2Grows(arch.SmiBits(), n - 1);
      Pow2Grows(arch.SmiBits(), amount);
      ShrToSign(v, n - 1);
      ShrToSign(v, amount);
    }
    ShrShrinks(v, amount);
    assert IsSmiValue(arch, v / Pow2(amount));
  }

  /** Every shift of a canonical integer by a non-negative amount is exact and compact. */
  lemma ShiftExact(arch: Arch, kind: Shift, value: Integer, amount: int)
    requires Canonical(arch, value)
    ensures ShiftOperation(arch, kind, value, amount) ==
            if amount < 0 then Throws else Returns(Compact(arch, ExactShift(kind, value.value, amount)))
  {
    if amount >= 0 {
      var v := value.value;
      var exact := ExactShift(kind, v, amount);
      AsIntegerCompacts(arch, Bigint(exact));
      if value.Smi? {
        if kind == Shl { SmiShlExact(arch, v, amount); } else { SmiShrExact(arch, v, amount); }
      } else if value.Mint? && Log2(Abs(v)) + amount < MINT_BITS {
        MintShiftFits(arch, kind, v, amount);
        NewFromExact(arch, exact);
        AsIntegerCompacts(arch, Compact(arch, exact));
      }
      hide SmiShift, AsInteger, Compact, ExactShift, IsInt;
    }
  }

  lemma MintShiftFits(arch: Arch, kind: Shift, v: int, amount: nat)
    requires IsInt64(v) && Log2(Abs(v)) + amount < MINT_BITS
    ensures IsInt64(ExactShift(kind, v, amount))
    ensures (if kind == Shl then MachineShl(64, v, amount) else MachineShr(64, v, amount)) ==
            ExactShift(kind, v, amount)
  {
    if kind == Shl {
      if v != 0 { ShlFits(63, v, amount); }
      WrapExact(64, v * Pow2(amount));
    } else {
      ShrShrinks(v, amount);
    }
  }
}
