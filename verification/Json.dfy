/** The JSON variant that runtime/platform/json recognizes: the tokens, the skipping of nested
    values, the search for a name, and the grammar they are measured against. Text is a byte
    sequence that ends at its first NUL or at its end; bytes above 127 are negative characters. */
module Json {
  import opened Words

  datatype Token =
    | Illegal | LBrace | RBrace | LBrack | RBrack | Colon | Comma
    | String | Integer | True | False | Null | EOM

  /** A recognized token: where its text starts and where scanning goes on. */
  datatype Lexeme = Lexeme(token: Token, start: nat, next: nat)

  function CharAt(text: Bytes, p: nat): byte {
    if p < |text| then text[p] else 0
  }

  predicate IsSpace(c: byte) { c == 0x20 || c == 0x09 || c == 0x0A }
  predicate IsDigit(c: byte) { 0x30 <= c <= 0x39 }
  predicate IsLetter(c: byte) { 0x41 <= c <= 0x5A || 0x61 <= c <= 0x7A }

  const QUOTE: byte := 0x22
  const MINUS: byte := 0x2D
  const BACKSLASH: byte := 0x5C
  const TRUE: Bytes := [0x74, 0x72, 0x75, 0x65]
  const FALSE: Bytes := [0x66, 0x61, 0x6C, 0x73, 0x65]
  const NULL: Bytes := [0x6E, 0x75, 0x6C, 0x6C]

  function SkipSpace(text: Bytes, p: nat): (q: nat)
    ensures p <= q && (p <= |text| ==> q <= |text|) && !IsSpace(CharAt(text, q))
    decreases |text| - p
  {
    if IsSpace(CharAt(text, p)) then SkipSpace(text, p + 1) else p
  }

  /** The end of the run of characters a string may hold: not a quote, not NUL, not a
      backslash (escapes are unimplemented) and not a negative character. */
  function StringRun(text: Bytes, p: nat): (q: nat)
    ensures p <= q && (p <= |text| ==> q <= |text|)
    decreases |text| - p
  {
    var c := CharAt(text, p);
    if c == QUOTE || c == 0 || c == BACKSLASH || c >= 128 then p else StringRun(text, p + 1)
  }

  function DigitRun(text: Bytes, p: nat): (q: nat)
    ensures p <= q && (p <= |text| ==> q <= |text|) && !IsDigit(CharAt(text, q))
    decreases |text| - p
  {
    if IsDigit(CharAt(text, p)) then DigitRun(text, p + 1) else p
  }

  /** The literal stands at `p` and is not continued by a letter. */
  predicate LiteralAt(text: Bytes, p: nat, literal: Bytes) {
    && (forall i :: 0 <= i < |literal| ==> CharAt(text, p + i) == literal[i])
    && !IsLetter(CharAt(text, p + |literal|))
  }

  function ScanString(text: Bytes, p: nat): Lexeme {
    var q := StringRun(text, p + 1);
    if CharAt(text, q) == QUOTE then Lexeme(String, p + 1, q + 1) else Lexeme(Illegal, p + 1, q)
  }

  function ScanNumber(text: Bytes, p: nat): Lexeme {
    var d := if CharAt(text, p) == MINUS then p + 1 else p;
    if !IsDigit(CharAt(text, d)) then Lexeme(Illegal, p, d)
    else
      var q := DigitRun(text, d);
      var c := CharAt(text, q);
      Lexeme(if c == 0x2E || c == 0x65 || c == 0x45 then Illegal else Integer, p, q)
  }

  function ScanLiteral(text: Bytes, p: nat): Lexeme {
    if LiteralAt(text, p, TRUE) then Lexeme(True, p, p + 4)
    else if LiteralAt(text, p, FALSE) then Lexeme(False, p, p + 5)
    else if LiteralAt(text, p, NULL) then Lexeme(Null, p, p + 4)
    else Lexeme(Illegal, p, p)
  }

  function Punctuation(c: byte): Token {
    match c as int
    case 0x7B => LBrace
    case 0x7D => RBrace
    case 0x5B => LBrack
    case 0x5D => RBrack
    case 0x3A => Colon
    case 0x2C => Comma
    case _ => Illegal
  }

  /** The next token at or after `pos`. */
  function Scan(text: Bytes, pos: nat): Lexeme {
    var p := SkipSpace(text, pos);
    var c := CharAt(text, p);
    if c == 0 then Lexeme(EOM, p, p)
    else if Punctuation(c) != Illegal then Lexeme(Punctuation(c), p, p + 1)
    else if c == QUOTE then ScanString(text, p)
    else if IsDigit(c) || c == MINUS then ScanNumber(text, p)
    else ScanLiteral(text, p)
  }

  predicate Legal(t: Token) {
    t != Illegal && t != EOM
  }

  /** Every legal token advances and stays inside the text. */
  lemma ScanAdvances(text: Bytes, pos: nat)
    ensures var t := Scan(text, pos);
            && (Legal(t.token) ==> pos <= t.start < t.next <= |text|)
            && (IsClose(t.token) ==> t.next == t.start + 1)
            && pos <= t.next
  {
    var p := SkipSpace(text, pos);
    if LiteralAt(text, p, TRUE) { assert CharAt(text, p + 3) == TRUE[3]; }
    if LiteralAt(text, p, FALSE) { assert CharAt(text, p + 4) == FALSE[4]; }
    if LiteralAt(text, p, NULL) { assert CharAt(text, p + 3) == NULL[3]; }
  }

  // ------------------------------------------------------------- skipping and seeking

  predicate IsClose(t: Token) {
    t == RBrace || t == RBrack
  }

  /** The closing token for an opening one. */
  function Closing(t: Token): Token {
    if t == LBrace then RBrace else RBrack
  }

  predicate IsOpen(t: Token) {
    t == LBrace || t == LBrack
  }

  /** The token with which `Skip(matching)` ends when it starts at `pos`. */
  function SkipFrom(text: Bytes, pos: nat, matching: Token): (r: Lexeme)
    requires IsClose(matching)
    ensures Legal(r.token) ==> r.token == matching && pos < r.next <= |text|
    decreases |text| - pos
  {
    ScanAdvances(text, pos);
    var t := Scan(text, pos);
    if !Legal(t.token) then t
    else if IsOpen(t.token) then
      var inner := SkipFrom(text, t.next, Closing(t.token));
      if Legal(inner.token) then SkipFrom(text, inner.next, matching) else inner
    else if t.token == matching then t
    else if IsClose(t.token) then t.(token := Illegal)
    else SkipFrom(text, t.next, matching)
  }

  /** The result of `Seek`: the value of the name, the closing brace, or a syntax error. */
  datatype Sought = Found(value: Lexeme) | Ended(brace: Lexeme) | Error

  predicate IsValueStart(t: Token) {
    t in {String, Integer, LBrace, LBrack, True, False, Null}
  }

  /** The last token of the value that starts with `v`. */
  function ValueEnd(text: Bytes, v: Lexeme): Lexeme {
    if IsOpen(v.token) then SkipFrom(text, v.next, Closing(v.token)) else v
  }

  function Name(text: Bytes, t: Lexeme): Bytes
    requires t.start < t.next <= |text|
  {
    text[t.start..t.next - 1]
  }

  /** The search goes on with token `t`, which should be a name. */
  function SeekMembers(text: Bytes, t: Lexeme, name: Bytes): Sought
    requires t.token == String ==> t.start < t.next <= |text|
    decreases if t.next <= |text| then |text| - t.next else -1
  {
    if t.token != String then Error
    else
      ScanAdvances(text, t.next);
      var colon := Scan(text, t.next);
      if colon.token != Colon then Error
      else
        ScanAdvances(text, colon.next);
        var v := Scan(text, colon.next);
        if !IsValueStart(v.token) then Error
        else if Name(text, t) == name then Found(v)
        else
          var e := ValueEnd(text, v);
          if !Legal(e.token) then Error
          else
            ScanAdvances(text, e.next);
            var s := Scan(text, e.next);
            if s.token == Comma then
              ScanAdvances(text, s.next);
              SeekMembers(text, Scan(text, s.next), name)
            else if s.token == RBrace then Ended(s)
            else Error
  }

  function Seek(text: Bytes, name: Bytes): Sought {
    var t := Scan(text, 0);
    if t.token != LBrace then Error
    else
      ScanAdvances(text, t.next);
      var first := Scan(text, t.next);
      if first.token == RBrace then Ended(first) else SeekMembers(text, first, name)
  }

  const STARS: Bytes := [0x2A, 0x2A, 0x2A]

  datatype Place = Nowhere | At(brace: nat)

  /** The closing brace of the object that the text starts with. */
  function EndOfObject(text: Bytes): Place {
    match Seek(text, STARS)
    case Ended(brace) => At(brace.start)
    case _ => Nowhere
  }
}
