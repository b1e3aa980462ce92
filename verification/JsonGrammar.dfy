/** The grammar of the recognized objects, given by derivations, and the theorems that tie the
    scanner's answers to it: names and colons are checked at the top level only, and nested
    values are checked for matching brackets. */
module JsonGrammar {
  import opened Words
  import opened Json

  /** What may stand between brackets: single tokens and bracketed groups, up to the close. */
  datatype Items = Close | Item(rest: Items) | Group(inner: Items, rest: Items)

  /** The tokens from `pos` are those of `items`, and `last` is the closing token. */
  ghost predicate Spells(text: Bytes, pos: nat, items: Items, matching: Token, last: Lexeme)
    decreases items
  {
    var t := Scan(text, pos);
    match items
    case Close => t == last && t.token == matching
    case Item(rest) =>
      Legal(t.token) && !IsOpen(t.token) && !IsClose(t.token) && Spells(text, t.next, rest, matching, last)
    case Group(inner, rest) =>
      && IsOpen(t.token)
      && exists mid :: Spells(text, t.next, inner, Closing(t.token), mid) &&
           Spells(text, mid.next, rest, matching, last)
  }

  datatype Value = Scalar | Nested(items: Items)
  datatype Member = Member(name: Bytes, value: Value)

  ghost predicate SpellsValue(text: Bytes, v: Lexeme, value: Value, end: Lexeme) {
    match value
    case Scalar => IsValueStart(v.token) && !IsOpen(v.token) && end == v
    case Nested(items) => IsOpen(v.token) && Spells(text, v.next, items, Closing(v.token), end)
  }

  /** Token `t` is the name of member `m`, whose value ends with token `end`. */
  ghost predicate SpellsMember(text: Bytes, t: Lexeme, m: Member, end: Lexeme) {
    && t.token == String && t.start < t.next <= |text| && Name(text, t) == m.name
    && var colon := Scan(text, t.next);
    colon.token == Colon && SpellsValue(text, Scan(text, colon.next), m.value, end)
  }

  /** Token `t` starts the non-empty list `members`, which `brace` closes. */
  ghost predicate SpellsMembers(text: Bytes, t: Lexeme, members: seq<Member>, brace: Lexeme)
    decreases |members|
  {
    && members != []
    && exists end ::
         && SpellsMember(text, t, members[0], end)
         && var s := Scan(text, end.next);
         if |members| == 1 then s == brace && s.token == RBrace
         else s.token == Comma && SpellsMembers(text, Scan(text, s.next), members[1..], brace)
  }

  /** The text starts with an object that has these members and closes with `brace`. */
  ghost predicate SpellsObject(text: Bytes, members: seq<Member>, brace: Lexeme) {
    var open := Scan(text, 0);
    var first := Scan(text, open.next);
    && open.token == LBrace
    && if members == [] then first == brace && first.token == RBrace else SpellsMembers(text, first, members, brace)
  }

  ghost predicate Names(members: seq<Member>, name: Bytes) {
    exists i :: 0 <= i < |members| && members[i].name == name
  }

  // ------------------------------------------------------------------------ nesting

  /** A properly nested sequence is skipped exactly to its close. */
  lemma {:induction false} NestingIsSkipped(text: Bytes, pos: nat, items: Items, matching: Token, last: Lexeme)
    requires IsClose(matching) && Spells(text, pos, items, matching, last)
    ensures SkipFrom(text, pos, matching) == last && last.token == matching
    ensures pos <= last.start < last.next <= |text|
    decreases items
  {
    ScanAdvances(text, pos);
    var t := Scan(text, pos);
    hide Scan;
    match items {
      case Close =>
      case Item(rest) =>
        NestingIsSkipped(text, t.next, rest, matching, last);
      case Group(inner, rest) =>
        var mid :| Spells(text, t.next, inner, Closing(t.token), mid) && Spells(text, mid.next, rest, matching, last);
        NestingIsSkipped(text, t.next, inner, Closing(t.token), mid);
        NestingIsSkipped(text, mid.next, rest, matching, last);
    }
  }

  /** If skipping ends with the matching token, what it skipped was properly nested. */
  lemma {:induction false} SkippedIsNesting(text: Bytes, pos: nat, matching: Token) returns (items: Items)
    requires IsClose(matching) && Legal(SkipFrom(text, pos, matching).token)
    ensures Spells(text, pos, items, matching, SkipFrom(text, pos, matching))
    decreases |text| - pos
  {
    ScanAdvances(text, pos);
    var t := Scan(text, pos);
    hide Scan;
    if IsOpen(t.token) {
      var inner := SkippedIsNesting(text, t.next, Closing(t.token));
      var mid := SkipFrom(text, t.next, Closing(t.token));
      var rest := SkippedIsNesting(text, mid.next, matching);
      items := Group(inner, rest);
    } else if t.token == matching {
      items := Close;
    } else {
      var rest := SkippedIsNesting(text, t.next, matching);
      items := Item(rest);
    }
  }

  /** Skip ends with the matching token exactly when a properly nested token sequence reaches
      that token; otherwise it ends in Illegal or at the end of the text. */
  lemma SkipIsNesting(text: Bytes, pos: nat, matching: Token, last: Lexeme)
    requires IsClose(matching)
    ensures var r := SkipFrom(text, pos, matching);
            && (r == last && r.token == matching <==> exists items :: Spells(text, pos, items, matching, last))
            && (r.token == matching || r.token == Illegal || r.token == EOM)
  {
    if SkipFrom(text, pos, matching) == last && last.token == matching {
      var items := SkippedIsNesting(text, pos, matching);
    }
    forall items | Spells(text, pos, items, matching, last)
      ensures SkipFrom(text, pos, matching) == last && last.token == matching
    {
      NestingIsSkipped(text, pos, items, matching, last);
    }
  }

  // ------------------------------------------------------------------------ members

  lemma ValueIsSkipped(text: Bytes, v: Lexeme, value: Value, end: Lexeme)
    requires SpellsValue(text, v, value, end) && v.start < v.next <= |text|
    ensures IsValueStart(v.token) && ValueEnd(text, v) == end && Legal(end.token)
    ensures v.start <= end.start < end.next <= |text| && v.next <= end.next
  {
    if value.Nested? {
      NestingIsSkipped(text, v.next, value.items, Closing(v.token), end);
    }
  }

  /** Seeking a name in a list of members finds it if it is there, and else the closing brace. */
  lemma {:induction false} MembersAreSought(text: Bytes, t: Lexeme, members: seq<Member>, brace: Lexeme, name: Bytes)
    requires SpellsMembers(text, t, members, brace)
    ensures !Names(members, name) ==> SeekMembers(text, t, name) == Ended(brace)
    ensures Names(members, name) ==> SeekMembers(text, t, name).Found?
    ensures t.token == String && t.start < t.next <= brace.start < brace.next <= |text| && brace.token == RBrace &&
            brace.next == brace.start + 1
    decreases |members|
  {
    hide Scan;
    var end :|
      && SpellsMember(text, t, members[0], end)
      && var s := Scan(text, end.next);
      if |members| == 1 then s == brace && s.token == RBrace
      else s.token == Comma && SpellsMembers(text, Scan(text, s.next), members[1..], brace);
    MemberIsRead(text, t, members[0], end);
    ScanAdvances(text, end.next);
    var s := Scan(text, end.next);
    if |members| > 1 {
      ScanAdvances(text, s.next);
      MembersAreSought(text, Scan(text, s.next), members[1..], brace, name);
      NamesSplit(members, name);
    }
  }

  lemma MemberIsRead(text: Bytes, t: Lexeme, m: Member, end: Lexeme)
    requires SpellsMember(text, t, m, end)
    ensures var colon := Scan(text, t.next);
            var v := Scan(text, colon.next);
            && t.next <= colon.start < colon.next <= v.start < v.next <= |text|
            && IsValueStart(v.token) && ValueEnd(text, v) == end && Legal(end.token)
            && v.start <= end.start < end.next <= |text| && v.next <= end.next
  {
    var colon := Scan(text, t.next);
    ScanAdvances(text, t.next);
    ScanAdvances(text, colon.next);
    hide Scan;
    var v := Scan(text, colon.next);
    assert Legal(v.token);
    ValueIsSkipped(text, v, m.value, end);
  }

  lemma NamesSplit(members: seq<Member>, name: Bytes)
    requires members != []
    ensures Names(members, name) <==> members[0].name == name || Names(members[1..], name)
  {
    if Names(members[1..], name) {
      var i :| 0 <= i < |members[1..]| && members[1..][i].name == name;
      assert members[i + 1].name == name;
    }
    if i :| 0 <= i < |members| && members[i].name == name && i > 0 {
      assert members[1..][i - 1].name == name;
    }
  }

  /** A search that runs into the closing brace has read a list of members. */
  lemma {:induction false} SoughtIsMembers(text: Bytes, t: Lexeme, name: Bytes) returns (members: seq<Member>)
    requires t.token == String ==> t.start < t.next <= |text|
    requires SeekMembers(text, t, name).Ended?
    ensures SpellsMembers(text, t, members, SeekMembers(text, t, name).brace) && !Names(members, name)
    decreases if t.next <= |text| then |text| - t.next else -1
  {
    var colon := Scan(text, t.next);
    ScanAdvances(text, t.next);
    var v := Scan(text, colon.next);
    ScanAdvances(text, colon.next);
    var brace := SeekMembers(text, t, name).brace;
    hide Scan;
    var value := Scalar;
    if IsOpen(v.token) {
      var items := SkippedIsNesting(text, v.next, Closing(v.token));
      value := Nested(items);
    }
    var end := ValueEnd(text, v);
    assert SpellsMember(text, t, Member(Name(text, t), value), end);
    ScanAdvances(text, end.next);
    var s := Scan(text, end.next);
    members := [Member(Name(text, t), value)];
    if s.token == Comma {
      ScanAdvances(text, s.next);
      var rest := SoughtIsMembers(text, Scan(text, s.next), name);
      members := members + rest;
      assert members[1..] == rest;
      NamesSplit(members, name);
    }
    hide SeekMembers, ValueEnd;
    assert var s := Scan(text, end.next);
      if |members| == 1 then s == brace && s.token == RBrace
      else s.token == Comma && SpellsMembers(text, Scan(text, s.next), members[1..], brace);
  }

  /** In a well-formed object, seeking a name finds it exactly when the object has it. */
  lemma ObjectIsSought(text: Bytes, members: seq<Member>, brace: Lexeme, name: Bytes)
    requires SpellsObject(text, members, brace)
    ensures Seek(text, name).Found? <==> Names(members, name)
    ensures !Names(members, name) ==> Seek(text, name) == Ended(brace)
    ensures brace.token == RBrace && brace.start < brace.next <= |text| && brace.next == brace.start + 1
  {
    var open := Scan(text, 0);
    ScanAdvances(text, 0);
    ScanAdvances(text, open.next);
    hide Scan;
    if members != [] {
      MembersAreSought(text, Scan(text, open.next), members, brace, name);
    }
  }

  lemma SoughtIsObject(text: Bytes, name: Bytes) returns (members: seq<Member>)
    requires Seek(text, name).Ended?
    ensures SpellsObject(text, members, Seek(text, name).brace) && !Names(members, name)
  {
    var open := Scan(text, 0);
    ScanAdvances(text, open.next);
    var first := Scan(text, open.next);
    hide Scan;
    members := [];
    if first.token != RBrace {
      members := SoughtIsMembers(text, first, name);
    }
  }

  /** EndOfObject answers position `k` exactly when the text starts with an object of the
      grammar, without a member named by three stars, whose closing brace is at `k`. */
  lemma EndOfObjectIsGrammar(text: Bytes, k: nat)
    ensures EndOfObject(text) == At(k) <==>
            exists members, brace :: SpellsObject(text, members, brace) && !Names(members, STARS) && brace.start == k
  {
    if EndOfObject(text) == At(k) {
      var members := SoughtIsObject(text, STARS);
    }
    forall members, brace | SpellsObject(text, members, brace) && !Names(members, STARS) && brace.start == k
      ensures EndOfObject(text) == At(k)
    {
      ObjectIsSought(text, members, brace, STARS);
    }
  }

  // ------------------------------------------------------------- texts that agree

  /** Two texts with the same first n bytes. */
  predicate Agree(a: Bytes, b: Bytes, n: nat) {
    n <= |a| && n <= |b| && forall k :: 0 <= k < n ==> CharAt(a, k) == CharAt(b, k)
  }

  lemma {:induction false} SpaceAgrees(a: Bytes, b: Bytes, n: nat, p: nat)
    requires Agree(a, b, n) && SkipSpace(a, p) < n
    ensures SkipSpace(b, p) == SkipSpace(a, p)
    decreases n - p
  {
    if IsSpace(CharAt(a, p)) { SpaceAgrees(a, b, n, p + 1); }
  }

  lemma {:induction false} StringAgrees(a: Bytes, b: Bytes, n: nat, p: nat)
    requires Agree(a, b, n) && StringRun(a, p) < n
    ensures StringRun(b, p) == StringRun(a, p)
    decreases n - p
  {
    if StringRun(a, p) != p { StringAgrees(a, b, n, p + 1); }
  }

  lemma {:induction false} DigitAgrees(a: Bytes, b: Bytes, n: nat, p: nat)
    requires Agree(a, b, n) && DigitRun(a, p) < n
    ensures DigitRun(b, p) == DigitRun(a, p)
    decreases n - p
  {
    if IsDigit(CharAt(a, p)) { DigitAgrees(a, b, n, p + 1); }
  }

  lemma LiteralAgrees(a: Bytes, b: Bytes, n: nat, p: nat, literal: Bytes)
    requires Agree(a, b, n)
    ensures p + |literal| < n ==> (LiteralAt(b, p, literal) <==> LiteralAt(a, p, literal))
  {}

  /** A token depends on no byte but those up to the one after it, and a closing one not even on
      that. */
  lemma ScanAgrees(a: Bytes, b: Bytes, n: nat, pos: nat)
    requires Agree(a, b, n)
    requires var t := Scan(a, pos); Legal(t.token) && (t.next < n || (t.next == n && IsClose(t.token)))
    ensures Scan(b, pos) == Scan(a, pos)
  {
    ScanAdvances(a, pos);
    var p := SkipSpace(a, pos);
    SpaceAgrees(a, b, n, pos);
    var c := CharAt(a, p);
    hide SkipSpace, ScanString, ScanNumber, ScanLiteral;
    if Punctuation(c) != Illegal {
    } else if c == QUOTE {
      StringTokenAgrees(a, b, n, p);
    } else if IsDigit(c) || c == MINUS {
      NumberAgrees(a, b, n, p);
    } else {
      LiteralsAgree(a, b, n, p);
    }
  }

  lemma StringTokenAgrees(a: Bytes, b: Bytes, n: nat, p: nat)
    requires Agree(a, b, n) && Legal(ScanString(a, p).token) && ScanString(a, p).next <= n
    ensures ScanString(b, p) == ScanString(a, p)
  {
    StringAgrees(a, b, n, p + 1);
  }

  lemma NumberAgrees(a: Bytes, b: Bytes, n: nat, p: nat)
    requires Agree(a, b, n) && Legal(ScanNumber(a, p).token) && ScanNumber(a, p).next < n
    ensures ScanNumber(b, p) == ScanNumber(a, p)
  {
    DigitAgrees(a, b, n, if CharAt(a, p) == MINUS then p + 1 else p);
  }

  lemma LiteralsAgree(a: Bytes, b: Bytes, n: nat, p: nat)
    requires Agree(a, b, n)
    requires Legal(ScanLiteral(a, p).token) && ScanLiteral(a, p).next < n
    ensures ScanLiteral(b, p) == ScanLiteral(a, p)
  {
    LiteralAgrees(a, b, n, p, TRUE);
    LiteralAgrees(a, b, n, p, NULL);
    if LiteralAt(a, p, FALSE) { LiteralAgrees(a, b, n, p, FALSE); }
    assert CharAt(a, p) == CharAt(b, p);
    assert LiteralAt(a, p, TRUE) ==> CharAt(a, p + 0) == TRUE[0];
    assert LiteralAt(b, p, TRUE) ==> CharAt(b, p + 0) == TRUE[0];
    assert LiteralAt(a, p, FALSE) ==> CharAt(a, p + 0) == FALSE[0];
    assert LiteralAt(b, p, FALSE) ==> CharAt(b, p + 0) == FALSE[0];
    assert LiteralAt(a, p, NULL) ==> CharAt(a, p + 0) == NULL[0];
    assert LiteralAt(b, p, NULL) ==> CharAt(b, p + 0) == NULL[0];
  }

  lemma {:induction false} SpellsAgrees(a: Bytes, b: Bytes, n: nat, pos: nat, items: Items, matching: Token,
          last: Lexeme)
    requires Agree(a, b, n) && IsClose(matching) && Spells(a, pos, items, matching, last) && last.next <= n
    ensures Spells(b, pos, items, matching, last)
    decreases items
  {
    NestingIsSkipped(a, pos, items, matching, last);
    ScanAdvances(a, pos);
    var t := Scan(a, pos);
    match items {
      case Close =>
        ScanAgrees(a, b, n, pos);
      case Item(rest) =>
        NestingIsSkipped(a, t.next, rest, matching, last);
        ScanAgrees(a, b, n, pos);
        hide Scan, SkipFrom;
        SpellsAgrees(a, b, n, t.next, rest, matching, last);
      case Group(inner, rest) =>
        var mid :| Spells(a, t.next, inner, Closing(t.token), mid) && Spells(a, mid.next, rest, matching, last);
        NestingIsSkipped(a, t.next, inner, Closing(t.token), mid);
        NestingIsSkipped(a, mid.next, rest, matching, last);
        ScanAgrees(a, b, n, pos);
        hide Scan, SkipFrom;
        SpellsAgrees(a, b, n, t.next, inner, Closing(t.token), mid);
        SpellsAgrees(a, b, n, mid.next, rest, matching, last);
    }
  }

  lemma ValueAgrees(a: Bytes, b: Bytes, n: nat, v: Lexeme, value: Value, end: Lexeme)
    requires Agree(a, b, n) && SpellsValue(a, v, value, end) && end.next <= n
    ensures SpellsValue(b, v, value, end)
  {
    if value.Nested? { SpellsAgrees(a, b, n, v.next, value.items, Closing(v.token), end); }
  }

  lemma {:induction false} MembersAgree(a: Bytes, b: Bytes, n: nat, t: Lexeme, members: seq<Member>, brace: Lexeme)
    requires Agree(a, b, n) && SpellsMembers(a, t, members, brace) && brace.next <= n
    ensures SpellsMembers(b, t, members, brace)
    decreases |members|
  {
    hide Scan, SpellsMember, SeekMembers, ValueEnd, Names, SkipFrom, Agree;
    var end :|
      && SpellsMember(a, t, members[0], end)
      && var s := Scan(a, end.next);
      if |members| == 1 then s == brace && s.token == RBrace
      else s.token == Comma && SpellsMembers(a, Scan(a, s.next), members[1..], brace);
    ScanAdvances(a, end.next);
    var s := Scan(a, end.next);
    MemberIsRead(a, t, members[0], end);
    if |members| == 1 {
      ScanAgrees(a, b, n, end.next);
    } else {
      var next := Scan(a, s.next);
      MembersAreSought(a, next, members[1..], brace, []);
      ScanAdvances(a, s.next);
      ScanAgrees(a, b, n, end.next);
      ScanAgrees(a, b, n, s.next);
      MembersAgree(a, b, n, next, members[1..], brace);
    }
    MemberAgrees(a, b, n, t, members[0], end);
    assert var s := Scan(b, end.next);
      if |members| == 1 then s == brace && s.token == RBrace
      else s.token == Comma && SpellsMembers(b, Scan(b, s.next), members[1..], brace);
  }

  lemma MemberAgrees(a: Bytes, b: Bytes, n: nat, t: Lexeme, m: Member, end: Lexeme)
    requires Agree(a, b, n) && SpellsMember(a, t, m, end) && end.next < n
    ensures SpellsMember(b, t, m, end)
  {
    hide Scan;
    MemberIsRead(a, t, m, end);
    var colon := Scan(a, t.next);
    ScanAgrees(a, b, n, t.next);
    ScanAgrees(a, b, n, colon.next);
    ValueAgrees(a, b, n, Scan(a, colon.next), m.value, end);
    NameAgrees(a, b, n, t);
  }

  lemma NameAgrees(a: Bytes, b: Bytes, n: nat, t: Lexeme)
    requires Agree(a, b, n) && t.start < t.next <= n
    ensures Name(b, t) == Name(a, t)
  {
    forall k | t.start <= k < t.next ensures a[k] == b[k] {
      assert CharAt(a, k) == CharAt(b, k);
    }
  }

  /** An object that ends within what two texts have in common is in both. */
  lemma ObjectAgrees(a: Bytes, b: Bytes, n: nat, members: seq<Member>, brace: Lexeme)
    requires Agree(a, b, n) && SpellsObject(a, members, brace) && brace.next <= n
    ensures SpellsObject(b, members, brace)
  {
    hide Scan, Agree, SpellsMembers, Seek, SeekMembers, Names, ValueEnd, SkipFrom;
    var open := Scan(a, 0);
    ScanAdvances(a, 0);
    ScanAdvances(a, open.next);
    var first := Scan(a, open.next);
    ObjectIsSought(a, members, brace, []);
    if members != [] { MembersAreSought(a, first, members, brace, []); }
    ScanAgrees(a, b, n, 0);
    ScanAgrees(a, b, n, open.next);
    if members != [] { MembersAgree(a, b, n, first, members, brace); }
  }

  /** The answer of EndOfObject, and whether a name is present, depend on the text up to the
      closing brace only. */
  lemma EndOfObjectAgrees(a: Bytes, b: Bytes, n: nat)
    requires Agree(a, b, n) && EndOfObject(a).At? && EndOfObject(a).brace < n
    ensures EndOfObject(b) == EndOfObject(a)
    ensures forall name :: Seek(b, name).Found? <==> Seek(a, name).Found?
  {
    var members := SoughtIsObject(a, STARS);
    var brace := Seek(a, STARS).brace;
    ObjectIsSought(a, members, brace, STARS);
    ObjectAgrees(a, b, n, members, brace);
    ObjectIsSought(b, members, brace, STARS);
    hide Seek, SpellsObject;
    forall name
      ensures Seek(b, name).Found? <==> Seek(a, name).Found?
    {
      ObjectIsSought(a, members, brace, name);
      ObjectIsSought(b, members, brace, name);
    }
  }

  /** A non-null answer of EndOfObject does not change when text is appended, and neither does
      the answer whether a name is present. */
  lemma EndOfObjectStable(text: Bytes, more: Bytes)
    requires EndOfObject(text).At?
    ensures EndOfObject(text + more) == EndOfObject(text)
    ensures forall name :: Seek(text + more, name).Found? <==> Seek(text, name).Found?
    ensures EndOfObject(text).brace < |text|
  {
    EndsInside(text);
    hide EndOfObject, Seek;
    EndOfObjectAgrees(text, text + more, |text|);
  }

  lemma EndsInside(text: Bytes)
    requires EndOfObject(text).At?
    ensures EndOfObject(text).brace < |text|
  {
    var members := SoughtIsObject(text, STARS);
    ObjectIsSought(text, members, Seek(text, STARS).brace, STARS);
  }

  /** Conversely, an object that a longer text starts with is recognized as soon as its closing
      brace is there. */
  lemma EndOfObjectInTime(text: Bytes, more: Bytes)
    requires EndOfObject(text + more).At? && EndOfObject(text + more).brace < |text|
    ensures EndOfObject(text) == EndOfObject(text + more)
    ensures forall name :: Seek(text, name).Found? <==> Seek(text + more, name).Found?
  {
    hide EndOfObject, Seek;
    EndOfObjectAgrees(text + more, text, |text|);
  }
}
