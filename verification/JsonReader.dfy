/** The scanner and reader objects of runtime/platform/json: fields updated by scanning loops
    and the recursive Skip, each proved to leave the token that the functions of `Json` give. */
module JsonReader {
  import opened Words
  import opened Json

  /** Characters counted by TokenLen: a string's start lies after its quote. */
  function LengthOf(t: Lexeme): int {
    if t.token == String then t.next - 1 - t.start else t.next - t.start
  }

  class JSONScanner {
    const text: Bytes
    var currentPos: nat
    var tokenStart: nat
    var tokenLength: int
    var token: Token

    /** Set where the original stops as unimplemented: an escape inside a string. */
    var aborted: bool

    function Now(): Lexeme
      reads this
    {
      Lexeme(token, tokenStart, currentPos)
    }

    /** The length is kept for the tokens that have a text. */
    ghost predicate Measured()
      reads this
    {
      token in {String, Integer, True, False, Null} ==> tokenLength == LengthOf(Now())
    }

    constructor (jsonText: Bytes)
      ensures text == jsonText && Now() == Lexeme(Illegal, 0, 0) && !aborted
    {
      text := jsonText;
      currentPos, tokenStart, tokenLength, token, aborted := 0, 0, 0, Illegal, false;
    }

    method SetText()
      modifies this
      ensures Now() == Lexeme(Illegal, 0, 0) && aborted == old(aborted)
    {
      currentPos, tokenStart, tokenLength, token := 0, 0, 0, Illegal;
    }

    method Recognize(t: Token)
      modifies this`currentPos, this`token
      ensures currentPos == old(currentPos) + 1 && token == t
    {
      currentPos := currentPos + 1;
      token := t;
    }

    method IsLiteral(literal: Bytes) returns (r: bool)
      requires forall i :: 0 <= i < |literal| ==> literal[i] != 0
      modifies this`currentPos
      ensures r == LiteralAt(text, old(currentPos), literal)
      ensures currentPos == old(currentPos) + if r then |literal| else 0
    {
      var i := 0;
      while i < |literal| && CharAt(text, currentPos + i) == literal[i]
        invariant i <= |literal|
        invariant forall k :: 0 <= k < i ==> CharAt(text, currentPos + k) == literal[k]
      {
        i := i + 1;
      }
      if i == |literal| && !IsLetter(CharAt(text, currentPos + i)) {
        currentPos := currentPos + i;
        return true;
      }
      return false;
    }

    method ScanString()
      requires CharAt(text, currentPos) == QUOTE
      modifies this
      ensures Now() == Json.ScanString(text, old(currentPos)) && Measured()
      ensures aborted == (old(aborted) || CharAt(text, StringRun(text, old(currentPos) + 1)) == BACKSLASH)
    {
      currentPos := currentPos + 1;
      tokenStart := currentPos;
      while CharAt(text, currentPos) != QUOTE
        invariant tokenStart == old(currentPos) + 1 && aborted == old(aborted)
        invariant StringRun(text, currentPos) == StringRun(text, tokenStart)
        decreases |text| - currentPos
      {
        if CharAt(text, currentPos) == 0 {
          tokenLength := 0;
          token := Illegal;
          return;
        } else if CharAt(text, currentPos) == BACKSLASH {
          aborted := true;
          token := Illegal;
          return;
        } else if CharAt(text, currentPos) >= 128 {
          tokenLength := 0;
          token := Illegal;
          return;
        } else {
          currentPos := currentPos + 1;
        }
      }
      token := String;
      tokenLength := currentPos - tokenStart;
      currentPos := currentPos + 1;
    }

    method ScanNumber()
      requires tokenStart == currentPos
      modifies this
      ensures Now() == Json.ScanNumber(text, old(currentPos)) && Measured() && aborted == old(aborted)
    {
      if CharAt(text, currentPos) == MINUS {
        currentPos := currentPos + 1;
      }
      if !IsDigit(CharAt(text, currentPos)) {
        token := Illegal;
        tokenLength := 0;
        return;
      }
      ghost var first := currentPos;
      while IsDigit(CharAt(text, currentPos))
        invariant tokenStart == old(currentPos) && aborted == old(aborted)
        invariant DigitRun(text, currentPos) == DigitRun(text, first)
        decreases |text| - currentPos
      {
        currentPos := currentPos + 1;
      }
      var c := CharAt(text, currentPos);
      if c == 0x2E || c == 0x65 || c == 0x45 {
        token := Illegal;
        tokenLength := 0;
        return;
      }
      token := Integer;
      tokenLength := currentPos - tokenStart;
    }

    method ScanLiteral()
      requires tokenStart == currentPos
      modifies this
      ensures Now() == Json.ScanLiteral(text, old(currentPos)) && Measured() && aborted == old(aborted)
    {
      hide LiteralAt;
      var isTrue := IsLiteral(TRUE);
      if isTrue {
        token, tokenLength := True, 4;
        return;
      }
      var isFalse := IsLiteral(FALSE);
      if isFalse {
        token, tokenLength := False, 5;
        return;
      }
      var isNull := IsLiteral(NULL);
      if isNull {
        token, tokenLength := Null, 4;
      } else {
        token, tokenLength := Illegal, 0;
      }
    }

    method Scan()
      modifies this
      ensures Now() == Json.Scan(text, old(currentPos)) && Measured()
      ensures aborted && !old(aborted) ==> token == Illegal
    {
      while IsSpace(CharAt(text, currentPos))
        invariant SkipSpace(text, currentPos) == SkipSpace(text, old(currentPos)) && aborted == old(aborted)
        decreases |text| - currentPos
      {
        currentPos := currentPos + 1;
      }
      tokenStart := currentPos;
      var c := CharAt(text, currentPos);
      if c == 0 {
        tokenLength := 0;
        token := EOM;
      } else if Punctuation(c) != Illegal {
        Recognize(Punctuation(c));
      } else if c == QUOTE {
        ScanString();
      } else if IsDigit(c) || c == MINUS {
        ScanNumber();
      } else {
        ScanLiteral();
      }
    }

    /** Skips to the token that matches an opening bracket just read. */
    method Skip(matching: Token)
      requires IsClose(matching) && Legal(token)
      modifies this
      ensures Now() == SkipFrom(text, old(currentPos), matching)
      decreases |text| - currentPos
    {
      hide Json.Scan;
      ghost var first := currentPos;
      while Legal(token)
        invariant Legal(token) ==> first <= currentPos
        invariant if Legal(token) then SkipFrom(text, currentPos, matching) == SkipFrom(text, first, matching)
                  else Now() == SkipFrom(text, first, matching)
        decreases if !Legal(token) then 0 else if currentPos <= |text| then |text| - currentPos + 2 else 1
      {
        ghost var here := currentPos;
        ScanAdvances(text, here);
        Scan();
        if token == LBrace {
          Skip(RBrace);
        } else if token == LBrack {
          Skip(RBrack);
        } else if token == matching {
          return;
        } else if token == RBrace || token == RBrack {
          token := Illegal;
        }
      }
    }

    method IsStringLiteral(literal: Bytes) returns (r: bool)
      requires Measured() && (token == String ==> tokenStart < currentPos <= |text|)
      ensures r <==> token == String && Name(text, Now()) == literal
    {
      if token != String {
        return false;
      }
      var i := 0;
      while i < tokenLength && i < |literal| && CharAt(text, tokenStart + i) == literal[i]
        invariant 0 <= i <= tokenLength && i <= |literal|
        invariant forall k :: 0 <= k < i ==> text[tokenStart + k] == literal[k]
      {
        i := i + 1;
      }
      r := i == tokenLength && i == |literal|;
      if !r && i < tokenLength && i < |literal| {
        assert Name(text, Now())[i] != literal[i];
      }
    }
  }

  class JSONReader {
    const scanner: JSONScanner
    var error: bool

    constructor (jsonObject: Bytes)
      ensures fresh(scanner) && scanner.text == jsonObject && !error
    {
      scanner := new JSONScanner(jsonObject);
      error := false;
    }

    /** The state after a search that came to the given end. */
    ghost predicate Reports(found: bool, s: Sought)
      reads this, scanner
    {
      match s
      case Found(v) => found && !error && scanner.Now() == v && scanner.Measured()
      case Ended(b) => !found && !error && scanner.Now() == b
      case Error => !found && error
    }

    /** Looks a name up in the object; the scanner is left on its value. */
    method Seek(name: Bytes) returns (found: bool)
      modifies this, scanner
      ensures Reports(found, Json.Seek(scanner.text, name))
    {
      hide Json.Scan;
      ghost var text := scanner.text;
      ScanAdvances(text, 0);
      error := false;
      scanner.SetText();
      scanner.Scan();
      if scanner.token != LBrace {
        error := true;
        return false;
      }
      ScanAdvances(text, scanner.currentPos);
      scanner.Scan();
      if scanner.token == RBrace {
        return false;
      }
      found := SeekPairs(name);
    }

    method SeekPairs(name: Bytes) returns (found: bool)
      requires !error && scanner.Measured()
      requires scanner.token == String ==> scanner.tokenStart < scanner.currentPos <= |scanner.text|
      modifies this, scanner
      ensures Reports(found, SeekMembers(scanner.text, old(scanner.Now()), name))
    {
      hide Json.Scan;
      ghost var text, first := scanner.text, scanner.Now();
      while scanner.token == String
        invariant !error && scanner.Measured()
        invariant scanner.token == String ==> scanner.tokenStart < scanner.currentPos <= |text|
        invariant SeekMembers(text, scanner.Now(), name) == SeekMembers(text, first, name)
        decreases if scanner.currentPos <= |text| then |text| - scanner.currentPos else 0, scanner.token == String
      {
        var match_ := scanner.IsStringLiteral(name);
        ScanAdvances(text, scanner.currentPos);
        scanner.Scan();
        if scanner.token != Colon {
          error := true;
          return false;
        }
        ScanAdvances(text, scanner.currentPos);
        scanner.Scan();
        if IsValueStart(scanner.token) {
          if match_ {
            return true;
          }
        } else {
          error := true;
          return false;
        }
        var legal := SkipValue();
        if !legal {
          error := true;
          return false;
        }
        ScanAdvances(text, scanner.currentPos);
        scanner.Scan();
        if scanner.token == Comma {
          ScanAdvances(text, scanner.currentPos);
          scanner.Scan();
        } else if scanner.token == RBrace {
          return false;
        } else {
          error := true;
          return false;
        }
      }
      error := true;
      return false;
    }

    /** Moves to the end of the value that the current token starts. */
    method SkipValue() returns (legal: bool)
      requires IsValueStart(scanner.token)
      modifies scanner
      ensures scanner.Now() == ValueEnd(scanner.text, old(scanner.Now()))
      ensures legal == Legal(scanner.token)
    {
      legal := true;
      if scanner.token == LBrace {
        scanner.Skip(RBrace);
        if scanner.token != RBrace {
          legal := false;
        }
      } else if scanner.token == LBrack {
        scanner.Skip(RBrack);
        if scanner.token != RBrack {
          legal := false;
        }
      }
    }

    method EndOfObject() returns (end: Place)
      modifies this, scanner
      ensures end == Json.EndOfObject(scanner.text)
    {
      hide Json.Scan, SeekMembers;
      var found := Seek(STARS);
      if !found && !error {
        return At(scanner.tokenStart);
      }
      return Nowhere;
    }
  }
}
