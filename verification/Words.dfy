/** Bytes, and 32-bit words stored in little-endian two's complement. */
module Words {

  type byte = x: int | 0 <= x < 256

  type Bytes = seq<byte>

  const WORD_SPAN: int := 0x1_0000_0000
  const WORD_HALF: int := 0x8000_0000

  predicate IsInt8(v: int) {
    -128 <= v < 128
  }

  predicate IsInt32(v: int) {
    -WORD_HALF <= v < WORD_HALF
  }

  /** The byte that `v & 0xFF` leaves. */
  function LowByte(v: int): byte {
    v % 256
  }

  function SignedByte(b: byte): int {
    if b < 128 then b else b - 256
  }

  function Word(v: int): (w: Bytes)
    ensures |w| == 4
  {
    var u := v % WORD_SPAN;
    [u % 256, (u / 256) % 256, (u / 65536) % 256, u / 16777216]
  }

  function SignedWord(u: int): int {
    if u < WORD_HALF then u else u - WORD_SPAN
  }

  function UnsignedAt(code: Bytes, at: nat): int
    requires at + 4 <= |code|
  {
    var b0: int, b1: int, b2: int, b3: int := code[at], code[at + 1], code[at + 2], code[at + 3];
    b0 + 256 * b1 + 65536 * b2 + 16777216 * b3
  }

  function WordAt(code: Bytes, at: nat): int
    requires at + 4 <= |code|
  {
    SignedWord(UnsignedAt(code, at))
  }

  lemma UnsignedOfWord(v: int)
    ensures UnsignedAt(Word(v), 0) == v % WORD_SPAN
  {
    var u := v % WORD_SPAN;
    var q := u / 256;
    var q2 := u / 65536;
    assert q / 256 == q2;
    assert q2 / 256 == u / 16777216;
  }

  /** Reading back a stored word gives the value modulo 2^32, as a signed number. */
  lemma WordRoundTrip(code: Bytes, at: nat, v: int)
    requires at + 4 <= |code| && code[at..at + 4] == Word(v)
    ensures UnsignedAt(code, at) == v % WORD_SPAN
    ensures IsInt32(v) ==> WordAt(code, at) == v
  {
    UnsignedOfWord(v);
    assert code[at..at + 4][0] == code[at] && code[at..at + 4][1] == code[at + 1];
    assert code[at..at + 4][2] == code[at + 2] && code[at..at + 4][3] == code[at + 3];
  }

  lemma ByteRoundTrip(v: int)
    ensures SignedByte(LowByte(v)) == v <==> IsInt8(v)
  {}

  /** `code` with `bytes` written over it at `at`; a write outside the buffer has no effect. */
  function Store(code: Bytes, at: nat, bytes: Bytes): (r: Bytes)
    ensures |r| == |code|
    ensures at + |bytes| <= |code| ==> r[at..at + |bytes|] == bytes
    ensures forall k :: 0 <= k < |code| && !(at <= k < at + |bytes|) ==> r[k] == code[k]
  {
    if at + |bytes| <= |code| then code[..at] + bytes + code[at + |bytes|..] else code
  }

  /** A word is unchanged where the four bytes are. */
  lemma SameWord(code: Bytes, code': Bytes, at: nat)
    requires at + 4 <= |code| && at + 4 <= |code'|
    requires forall k :: at <= k < at + 4 ==> code'[k] == code[k]
    ensures WordAt(code', at) == WordAt(code, at)
  {}

  lemma Associate<T>(a: seq<T>, b: seq<T>, c: seq<T>)
    ensures (a + b) + c == a + (b + c)
  {}
}
