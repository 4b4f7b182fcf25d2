/** The grammar of RFC 8259 as a relation between texts and the values they spell, and the proof that the reader
    decides it. */
module JsonGrammar {
  import opened Strings
  import opened Numbers
  import opened Json
  import opened JsonReader

  // ------------------------------------------------------------ the grammar

  /** Section 2: spaces, tabs and line breaks. */
  predicate Spaces(t: Text) {
    forall i :: 0 <= i < |t| ==> t[i] == 32 || t[i] == 9 || t[i] == 10 || t[i] == 13
  }

  /** Section 7: the letters that escape a unit. */
  function Letter(t: Unit): int {
    if t == 34 then 34
    else if t == 92 then 92
    else if t == 47 then 47
    else if t == 98 then 8
    else if t == 102 then 12
    else if t == 110 then 10
    else if t == 114 then 13
    else if t == 116 then 9
    else -1
  }

  /** The value of a hexadecimal digit in either case. */
  function Hexadecimal(t: Unit): int {
    if 48 <= t <= 57 then t - 48
    else if 97 <= t <= 102 then t - 87
    else if 65 <= t <= 70 then t - 55
    else -1
  }

  predicate SpellsHex(a: Unit, b: Unit, c: Unit, d: Unit, u: Unit) {
    && Hexadecimal(a) >= 0 && Hexadecimal(b) >= 0 && Hexadecimal(c) >= 0 && Hexadecimal(d) >= 0
    && u == 4096 * Hexadecimal(a) + 256 * Hexadecimal(b) + 16 * Hexadecimal(c) + Hexadecimal(d)
  }

  /** A unit stands for itself, or is escaped by a letter or by its number. */
  predicate SpellsUnit(t: Text, u: Unit) {
    || (t == [u] && u >= 32 && u != 34 && u != 92)
    || (|t| == 2 && t[0] == 92 && Letter(t[1]) == u)
    || (|t| == 6 && t[0] == 92 && t[1] == 117 && SpellsHex(t[2], t[3], t[4], t[5], u))
  }

  lemma LettersExactly(t: Unit, u: Unit)
    ensures EscapedUnit(t) == Some(u) <==> Letter(t) == u
  {
  }

  lemma HexExactly(t: Text, u: Unit)
    requires |t| >= 4
    ensures ReadHex4(t) == Some(u) <==> SpellsHex(t[0], t[1], t[2], t[3], u)
  {
    HexUnit(t[0]);
    HexUnit(t[1]);
    HexUnit(t[2]);
    HexUnit(t[3]);
    hide HexValue, Hexadecimal;
  }

  lemma HexUnit(u: Unit)
    ensures Hexadecimal(u) >= 0 <==> HexValue(u).Some?
    ensures HexValue(u).Some? ==> HexValue(u).value == Hexadecimal(u)
  {
  }

  lemma SpacesExactly(t: Text)
    ensures Spaces(t) <==> forall i :: 0 <= i < |t| ==> IsSpace(t[i])
  {
  }

  ghost predicate SpellsChars(t: Text, s: Text) {
    if s == [] then t == []
    else exists k :: 0 < k <= |t| && SpellsUnit(t[..k], s[0]) && SpellsChars(t[k..], s[1..])
  }

  ghost predicate SpellsString(t: Text, s: Text) {
    |t| >= 2 && t[0] == 34 && t[|t| - 1] == 34 && SpellsChars(t[1..|t| - 1], s)
  }

  ghost predicate SpellsSpacedString(t: Text, s: Text) {
    exists i, j :: 0 <= i <= j <= |t| && Spaces(t[..i]) && Spaces(t[j..]) && SpellsString(t[i..j], s)
  }

  /** A value with spaces around it. */
  ghost predicate Spells(t: Text, v: Value)
    decreases |t|, 1
  {
    exists i, j :: 0 <= i <= j <= |t| && Spaces(t[..i]) && Spaces(t[j..]) && SpellsBare(t[i..j], v)
  }

  ghost predicate SpellsBare(t: Text, v: Value)
    decreases |t|, 0
  {
    match v
    case Null => t == Lit("null")
    case Bool(b) => t == if b then Lit("true") else Lit("false")
    case Str(s) => SpellsString(t, s)
    case Num(n) => SpellsNumber(t, n)
    case Arr(items) =>
      |t| >= 2 && t[0] == 91 && t[|t| - 1] == 93 && SpellsList(t[1..|t| - 1], items)
    case Obj(fields) =>
      |t| >= 2 && t[0] == 123 && t[|t| - 1] == 125 &&
      exists members :: Assigned([], members) == fields && SpellsMembers(t[1..|t| - 1], members)
    case Foreign => false
  }

  /** Section 5: values with commas between them, or nothing. */
  ghost predicate SpellsList(t: Text, items: seq<Value>)
    decreases |t|, 3
  {
    if items == [] then Spaces(t) else SpellsItems(t, items)
  }

  ghost predicate SpellsItems(t: Text, items: seq<Value>)
    requires items != []
    decreases |t|, 2
  {
    if |items| == 1 then Spells(t, items[0])
    else exists k :: 0 <= k < |t| && t[k] == 44 && Spells(t[..k], items[0]) && SpellsItems(t[k + 1..], items[1..])
  }

  /** Section 4: names and values with commas between them, or nothing. */
  ghost predicate SpellsMembers(t: Text, members: seq<Named<Value>>)
    decreases |t|, 3
  {
    if members == [] then Spaces(t) else SpellsFields(t, members)
  }

  ghost predicate SpellsFields(t: Text, members: seq<Named<Value>>)
    requires members != []
    decreases |t|, 2
  {
    if |members| == 1 then SpellsMember(t, members[0])
    else
      exists k :: 0 <= k < |t| && t[k] == 44 && SpellsMember(t[..k], members[0]) &&
        SpellsFields(t[k + 1..], members[1..])
  }

  ghost predicate SpellsMember(t: Text, member: Named<Value>)
    decreases |t|, 1
  {
    exists k :: 0 <= k < |t| && t[k] == 58 && SpellsSpacedString(t[..k], member.name) &&
      Spells(t[k + 1..], member.item)
  }

  /** Members assigned one after the other: a repeated name keeps its place and takes the last item. */
  function Assigned(done: seq<Named<Value>>, members: seq<Named<Value>>): seq<Named<Value>>
    decreases |members|
  {
    if members == [] then done else Assigned(SetField(done, members[0].name, members[0].item), members[1..])
  }

  // ----------------------------------------------- one step of the grammar at a time

  lemma SpellsIntro(a: Text, t: Text, b: Text, v: Value)
    requires Spaces(a) && Spaces(b) && SpellsBare(t, v)
    ensures Spells(a + t + b, v)
  {
    hide SpellsBare, Spaces;
    var s := a + t + b;
    assert s[..|a|] == a && s[|a|..|a| + |t|] == t && s[|a| + |t|..] == b;
  }

  lemma SpellsElim(s: Text, v: Value) returns (a: Text, t: Text, b: Text)
    requires Spells(s, v)
    ensures s == a + t + b && Spaces(a) && Spaces(b) && SpellsBare(t, v)
  {
    hide SpellsBare, Spaces;
    var i, j :| 0 <= i <= j <= |s| && Spaces(s[..i]) && Spaces(s[j..]) && SpellsBare(s[i..j], v);
    a, t, b := s[..i], s[i..j], s[j..];
  }

  lemma SpacedIntro(a: Text, t: Text, b: Text, s: Text)
    requires Spaces(a) && Spaces(b) && SpellsString(t, s)
    ensures SpellsSpacedString(a + t + b, s)
  {
    hide SpellsString, Spaces;
    var w := a + t + b;
    assert w[..|a|] == a && w[|a|..|a| + |t|] == t && w[|a| + |t|..] == b;
  }

  lemma SpacedElim(w: Text, s: Text) returns (a: Text, t: Text, b: Text)
    requires SpellsSpacedString(w, s)
    ensures w == a + t + b && Spaces(a) && Spaces(b) && SpellsString(t, s)
  {
    hide SpellsString, Spaces;
    var i, j :| 0 <= i <= j <= |w| && Spaces(w[..i]) && Spaces(w[j..]) && SpellsString(w[i..j], s);
    a, t, b := w[..i], w[i..j], w[j..];
  }

  lemma SpacesJoin(a: Text, b: Text)
    requires Spaces(a) && Spaces(b)
    ensures Spaces(a + b)
  {
  }

  /** Spaces may be added on either side. */
  lemma SpellsWider(a: Text, t: Text, b: Text, v: Value)
    requires Spaces(a) && Spaces(b) && Spells(t, v)
    ensures Spells(a + t + b, v)
  {
    hide Spells, SpellsBare, Spaces;
    var c, bare, d := SpellsElim(t, v);
    SpacesJoin(a, c);
    SpacesJoin(d, b);
    SpellsIntro(a + c, bare, d + b, v);
    assert a + t + b == (a + c) + bare + (d + b);
  }

  lemma ItemsIntro(t: Text, v: Value, rest: Text, more: seq<Value>)
    requires more != [] && Spells(t, v) && SpellsItems(rest, more)
    ensures SpellsItems(t + [COMMA] + rest, [v] + more)
  {
    var s, items := t + [COMMA] + rest, [v] + more;
    assert s[..|t|] == t && s[|t|] == COMMA && s[|t| + 1..] == rest && items[1..] == more && items[0] == v;
    hide Spells;
    assert Spells(s[..|t|], items[0]) && SpellsItems(s[|t| + 1..], items[1..]);
  }

  lemma ItemsElim(s: Text, items: seq<Value>) returns (t: Text, rest: Text)
    requires |items| > 1 && SpellsItems(s, items)
    ensures s == t + [COMMA] + rest && Spells(t, items[0]) && SpellsItems(rest, items[1..]) && |rest| < |s|
  {
    hide Spells;
    var k :| 0 <= k < |s| && s[k] == COMMA && Spells(s[..k], items[0]) && SpellsItems(s[k + 1..], items[1..]);
    t, rest := s[..k], s[k + 1..];
  }

  lemma FieldsIntro(t: Text, member: Named<Value>, rest: Text, more: seq<Named<Value>>)
    requires more != [] && SpellsMember(t, member) && SpellsFields(rest, more)
    ensures SpellsFields(t + [COMMA] + rest, [member] + more)
  {
    var s, members := t + [COMMA] + rest, [member] + more;
    assert s[..|t|] == t && s[|t|] == COMMA && s[|t| + 1..] == rest && members[1..] == more && members[0] == member;
    hide SpellsMember;
    assert SpellsMember(s[..|t|], members[0]) && SpellsFields(s[|t| + 1..], members[1..]);
  }

  lemma FieldsElim(s: Text, members: seq<Named<Value>>) returns (t: Text, rest: Text)
    requires |members| > 1 && SpellsFields(s, members)
    ensures s == t + [COMMA] + rest && SpellsMember(t, members[0]) && SpellsFields(rest, members[1..]) && |rest| < |s|
  {
    hide SpellsMember;
    var k :| 0 <= k < |s| && s[k] == COMMA && SpellsMember(s[..k], members[0]) &&
        SpellsFields(s[k + 1..], members[1..]);
    t, rest := s[..k], s[k + 1..];
  }

  lemma MemberIntro(t: Text, name: Text, rest: Text, v: Value)
    requires SpellsSpacedString(t, name) && Spells(rest, v)
    ensures SpellsMember(t + [COLON] + rest, Named(name, v))
  {
    hide Spells, SpellsSpacedString;
    var s := t + [COLON] + rest;
    assert s[..|t|] == t && s[|t|] == COLON && s[|t| + 1..] == rest;
  }

  lemma MemberElim(s: Text, member: Named<Value>) returns (t: Text, rest: Text)
    requires SpellsMember(s, member)
    ensures s == t + [COLON] + rest && SpellsSpacedString(t, member.name) && Spells(rest, member.item) && |rest| < |s|
  {
    hide Spells, SpellsSpacedString;
    var k :| 0 <= k < |s| && s[k] == COLON && SpellsSpacedString(s[..k], member.name) &&
        Spells(s[k + 1..], member.item);
    t, rest := s[..k], s[k + 1..];
  }

  lemma CharsIntro(t: Text, u: Unit, rest: Text, s: Text)
    requires t != [] && SpellsUnit(t, u) && SpellsChars(rest, s)
    ensures SpellsChars(t + rest, [u] + s)
  {
    hide SpellsUnit;
    var w, x := t + rest, [u] + s;
    assert w[..|t|] == t && w[|t|..] == rest && x[1..] == s && x[0] == u;
    assert SpellsUnit(w[..|t|], x[0]) && SpellsChars(w[|t|..], x[1..]);
  }

  lemma CharsElim(w: Text, s: Text) returns (t: Text, rest: Text)
    requires s != [] && SpellsChars(w, s)
    ensures w == t + rest && t != [] && SpellsUnit(t, s[0]) && SpellsChars(rest, s[1..])
  {
    hide SpellsUnit;
    var k :| 0 < k <= |w| && SpellsUnit(w[..k], s[0]) && SpellsChars(w[k..], s[1..]);
    t, rest := w[..k], w[k..];
  }

  /** Something between two units. */
  lemma Enclosed(open: Unit, inner: Text, close: Unit)
    ensures var t := [open] + inner + [close];
            |t| >= 2 && t[0] == open && t[|t| - 1] == close && t[1..|t| - 1] == inner
  {
  }

  lemma EnclosedBack(t: Text)
    requires |t| >= 2
    ensures t == [t[0]] + t[1..|t| - 1] + [t[|t| - 1]]
  {
  }

  // ------------------------------------- what the grammar spells, the reader reads

  lemma UnitReads(t: Text, u: Unit, rest: Text)
    requires SpellsUnit(t, u)
    ensures ReadChars(t + rest) == Prepend(u, ReadChars(rest))
  {
    if |t| == 6 {
      NumberUnitReads(t, u, rest);
    } else if |t| == 2 {
      LetterReads(t, u, rest);
    } else {
      ReadPlainUnit(u, rest);
    }
  }

  lemma LetterReads(t: Text, u: Unit, rest: Text)
    requires |t| == 2 && t[0] == 92 && Letter(t[1]) == u
    ensures ReadChars(t + rest) == Prepend(u, ReadChars(rest))
  {
    LettersExactly(t[1], u);
    assert EscapedUnit(LOWER_U) == None;
    hide EscapedUnit, Letter, ReadHex4;
    var s := t + rest;
    assert s[0] == t[0] && s[1] == t[1] && s[2..] == rest;
  }

  lemma NumberUnitReads(t: Text, u: Unit, rest: Text)
    requires |t| == 6 && t[0] == 92 && t[1] == 117 && SpellsHex(t[2], t[3], t[4], t[5], u)
    ensures ReadChars(t + rest) == Prepend(u, ReadChars(rest))
  {
    hide EscapedUnit, SpellsHex, ReadHex4;
    var s := t + rest;
    assert s[0] == t[0] && s[1] == t[1] && s[6..] == rest;
    assert s[2..][0] == t[2] && s[2..][1] == t[3] && s[2..][2] == t[4] && s[2..][3] == t[5];
    HexExactly(s[2..], u);
  }

  lemma {:induction false} CharsRead(t: Text, s: Text, rest: Text)
    requires SpellsChars(t, s)
    ensures ReadChars(t + [QUOTE] + rest) == Got(s, rest)
    decreases |s|
  {
    hide SpellsChars, SpellsUnit, ReadChars;
    if s == [] {
      NoChars(t);
      ReadClosingQuote(rest);
      assert t + [QUOTE] + rest == [QUOTE] + rest;
    } else {
      var first, more := CharsElim(t, s);
      CharsRead(more, s[1..], rest);
      UnitReads(first, s[0], more + [QUOTE] + rest);
      assert t + [QUOTE] + rest == first + (more + [QUOTE] + rest);
      assert s == [s[0]] + s[1..];
    }
  }

  lemma NoChars(t: Text)
    ensures SpellsChars(t, []) <==> t == []
  {
  }

  /** What follows a value is neither a space nor part of a number. */
  predicate Closes(rest: Text) {
    rest == [] || (!IsSpace(rest[0]) && !IsNumberUnit(rest[0]))
  }

  lemma SpacesSkipped(a: Text, rest: Text)
    requires Spaces(a) && (rest == [] || !IsSpace(rest[0]))
    ensures SkipSpace(a + rest) == rest
  {
    SkipSpaces(a, rest);
  }

  lemma SpacesStop(a: Text, rest: Text)
    requires Spaces(a) && Closes(rest)
    ensures Stops(a + rest)
  {
    if a != [] {
      assert (a + rest)[0] == a[0];
    } else {
      assert a + rest == rest;
    }
  }

  lemma StringReads(t: Text, s: Text, rest: Text)
    requires SpellsString(t, s)
    ensures ReadBare(t + rest) == Got(Str(s), rest)
    ensures (t + rest)[0] == QUOTE && ReadChars((t + rest)[1..]) == Got(s, rest)
  {
    hide SpellsChars, ReadChars, ReadItems, ReadFields, ReadNumber, ReadWord, SkipSpace;
    EnclosedBack(t);
    var inner := t[1..|t| - 1];
    CharsRead(inner, s, rest);
    assert (t + rest)[1..] == inner + [QUOTE] + rest;
  }

  /** Every spelled value starts with a unit that starts values. */
  lemma BareStart(t: Text, v: Value)
    requires SpellsBare(t, v)
    ensures ValueStart(t)
  {
    hide SpellsChars, SpellsList, SpellsMembers, SpellsNumber;
    WordsStart();
    if v.Num? {
      NumberStarts(t, v.n);
    }
  }

  lemma NumberStarts(t: Text, n: Number)
    requires SpellsNumber(t, n)
    ensures ValueStart(t) && NumberShaped(t)
  {
    hide SpellsNumber;
    SpelledNumberShaped(t, n);
  }

  lemma ValueSkips(t: Text, v: Value, rest: Text)
    requires Spells(t, v)
    ensures var s := SkipSpace(t + rest); ValueStart(s) && SkipSpace(s) == s
    ensures exists a, bare :: Spaces(a) && t + rest == a + SkipSpace(t + rest) && SpellsBare(bare, v)
  {
    hide Spells, SpellsBare, Spaces;
    var a, bare, b := SpellsElim(t, v);
    BareStart(bare, v);
    var after := bare + (b + rest);
    assert after[0] == bare[0];
    assert t + rest == a + after;
    SpacesSkipped(a, after);
    NoSpace(after);
  }

  lemma {:induction false} ItemsStart(t: Text, items: seq<Value>, rest: Text)
    requires items != [] && SpellsItems(t, items)
    ensures var s := SkipSpace(t + rest); ValueStart(s) && SkipSpace(s) == s
  {
    hide Spells, SkipSpace;
    if |items| == 1 {
      ValueSkips(t, items[0], rest);
    } else {
      var first, more := ItemsElim(t, items);
      ValueSkips(first, items[0], [COMMA] + more + rest);
      assert t + rest == first + ([COMMA] + more + rest);
    }
  }

  lemma MemberSkips(t: Text, member: Named<Value>, rest: Text)
    requires SpellsMember(t, member)
    ensures var s := SkipSpace(t + rest); s != [] && s[0] == QUOTE && SkipSpace(s) == s
  {
    hide SpellsMember, SpellsSpacedString, Spells, Spaces, SpellsChars;
    var name, item := MemberElim(t, member);
    var a, str, b := SpacedElim(name, member.name);
    var after := str + (b + [COLON] + item + rest);
    assert after[0] == QUOTE;
    assert t + rest == a + after;
    SpacesSkipped(a, after);
    NoSpace(after);
  }

  lemma FieldsStart(t: Text, members: seq<Named<Value>>, rest: Text)
    requires members != [] && SpellsFields(t, members)
    ensures var s := SkipSpace(t + rest); s != [] && s[0] == QUOTE && SkipSpace(s) == s
  {
    hide SpellsMember, SkipSpace;
    if |members| == 1 {
      MemberSkips(t, members[0], rest);
    } else {
      var first, more := FieldsElim(t, members);
      MemberSkips(first, members[0], [COMMA] + more + rest);
      assert t + rest == first + ([COMMA] + more + rest);
    }
  }

  /** A spelled value is read, and leaves what follows it but for spaces. */
  lemma {:induction false} ValueReads(t: Text, v: Value, rest: Text)
    requires Spells(t, v) && Closes(rest)
    ensures ReadValue(t + rest).Got? && ReadValue(t + rest).value == v && SkipSpace(ReadValue(t + rest).rest) == rest
    decreases |t|, 1
  {
    hide Spells, SpellsBare, Spaces, ReadBare;
    var a, bare, b := SpellsElim(t, v);
    BareStart(bare, v);
    var after := bare + (b + rest);
    assert after[0] == bare[0];
    assert t + rest == a + after;
    SpacesSkipped(a, after);
    SpacesStop(b, rest);
    SpacesSkipped(b, rest);
    BareReads(bare, v, b + rest);
  }

  lemma {:induction false} BareReads(t: Text, v: Value, rest: Text)
    requires SpellsBare(t, v) && Stops(rest)
    ensures ReadBare(t + rest) == Got(v, rest)
    decreases |t|, 0
  {
    hide ReadBare, SpellsNumber, SpellsList, SpellsMembers, SpellsString, Lit, Assigned;
    match v
    case Null => ReadNull(rest);
    case Bool(b) => ReadBool(b, rest);
    case Str(s) => StringReads(t, s, rest);
    case Num(n) => NumberReads(t, n, rest);
    case Arr(items) =>
      EnclosedBack(t);
      ListReads(t[1..|t| - 1], items, rest);
      assert t + rest == [LEFT_BRACKET] + (t[1..|t| - 1] + [RIGHT_BRACKET] + rest);
    case Obj(fields) =>
      EnclosedBack(t);
      var members :| Assigned([], members) == fields && SpellsMembers(t[1..|t| - 1], members);
      MembersRead(t[1..|t| - 1], members, rest);
      assert t + rest == [LEFT_BRACE] + (t[1..|t| - 1] + [RIGHT_BRACE] + rest);
  }

  lemma NumberReads(t: Text, n: Number, rest: Text)
    requires SpellsNumber(t, n) && Stops(rest)
    ensures ReadBare(t + rest) == Got(Num(n), rest)
  {
    hide SpellsNumber, ReadNumber, ReadItems, ReadFields, ReadChars, ReadWord, SkipSpace;
    ReadNumberExactly(t, n);
    SpelledNumberShaped(t, n);
    NumberRunIs(t, rest);
    var s := t + rest;
    assert s[0] == t[0] && s[..|t|] == t && s[|t|..] == rest;
  }

  lemma {:induction false} ListReads(t: Text, items: seq<Value>, rest: Text)
    requires SpellsList(t, items)
    ensures ReadBare([LEFT_BRACKET] + (t + [RIGHT_BRACKET] + rest)) == Got(Arr(items), rest)
    decreases |t|, 3
  {
    hide SpellsItems, ReadBare, ReadItems, SkipSpace, Spaces;
    var s := t + [RIGHT_BRACKET] + rest;
    if items == [] {
      SpacesSkipped(t, [RIGHT_BRACKET] + rest);
      assert s == t + ([RIGHT_BRACKET] + rest);
      ReadSpacedEmptyArray(s, rest);
    } else {
      ItemsStart(t, items, [RIGHT_BRACKET] + rest);
      assert s == t + ([RIGHT_BRACKET] + rest);
      ReadBareArray(s, SkipSpace(s));
      ReadSpaced(s, SkipSpace(s));
      ItemsRead(t, items, rest, []);
      assert [] + items == items;
    }
  }

  lemma ReadSpacedEmptyArray(s: Text, rest: Text)
    requires SkipSpace(s) == [RIGHT_BRACKET] + rest
    ensures ReadBare([LEFT_BRACKET] + s) == Got(Arr([]), rest)
  {
    hide ReadItems, SkipSpace;
    assert ([LEFT_BRACKET] + s)[1..] == s && ([RIGHT_BRACKET] + rest)[1..] == rest;
  }

  lemma ReadSpacedEmptyObject(s: Text, rest: Text)
    requires SkipSpace(s) == [RIGHT_BRACE] + rest
    ensures ReadBare([LEFT_BRACE] + s) == Got(Obj([]), rest)
  {
    hide ReadFields, SkipSpace;
    assert ([LEFT_BRACE] + s)[1..] == s && ([RIGHT_BRACE] + rest)[1..] == rest;
  }

  lemma {:induction false} ItemsRead(t: Text, items: seq<Value>, rest: Text, done: seq<Value>)
    requires items != [] && SpellsItems(t, items)
    ensures ReadItems(t + [RIGHT_BRACKET] + rest, done) == Got(Arr(done + items), rest)
    decreases |t|, 2
  {
    hide Spells, ReadValue, ReadItems, SkipSpace;
    var s := t + [RIGHT_BRACKET] + rest;
    if |items| == 1 {
      var follow := [RIGHT_BRACKET] + rest;
      ValueReads(t, items[0], follow);
      assert s == t + follow;
      ReadItemsLast(s, items[0], ReadValue(s).rest, rest, done);
      assert done + items == done + [items[0]];
    } else {
      var first, more := ItemsElim(t, items);
      var next := more + [RIGHT_BRACKET] + rest;
      ValueReads(first, items[0], [COMMA] + next);
      assert s == first + ([COMMA] + next);
      ReadItemsMore(s, items[0], ReadValue(s).rest, next, done);
      ItemsRead(more, items[1..], rest, done + [items[0]]);
      assert done + [items[0]] + items[1..] == done + items;
    }
  }

  /** A spelled member is found where it is. */
  lemma {:induction false} MemberReads(t: Text, member: Named<Value>, rest: Text)
    requires SpellsMember(t, member) && Closes(rest)
    ensures FieldAt(t + rest, member.name, member.item, rest)
    decreases |t|, 1
  {
    hide SpellsMember, SpellsSpacedString, SpellsString, Spells, Spaces, ReadValue, ReadChars, SkipSpace, ReadBare;
    var name, item := MemberElim(t, member);
    var a, str, b := SpacedElim(name, member.name);
    var colon := [COLON] + (item + rest);
    var after := str + (b + colon);
    StringReads(str, member.name, b + colon);
    assert t + rest == a + after;
    SpacesSkipped(a, after);
    SpacesSkipped(b, colon);
    assert colon[1..] == item + rest;
    ValueReads(item, member.item, rest);
  }

  lemma {:induction false} FieldsRead(t: Text, members: seq<Named<Value>>, rest: Text, done: seq<Named<Value>>)
    requires members != [] && SpellsFields(t, members)
    ensures ReadFields(t + [RIGHT_BRACE] + rest, done) == Got(Obj(Assigned(done, members)), rest)
    decreases |t|, 2
  {
    hide SpellsMember, FieldAt, ReadFields, SetField;
    var s := t + [RIGHT_BRACE] + rest;
    var member := members[0];
    if |members| == 1 {
      MemberReads(t, member, [RIGHT_BRACE] + rest);
      assert s == t + ([RIGHT_BRACE] + rest);
      ReadFieldsLast(s, member.name, member.item, rest, done);
      assert Assigned(done, members) == Assigned(SetField(done, member.name, member.item), []);
    } else {
      var first, more := FieldsElim(t, members);
      var next := more + [RIGHT_BRACE] + rest;
      MemberReads(first, member, [COMMA] + next);
      assert s == first + ([COMMA] + next);
      ReadFieldsMore(s, member.name, member.item, next, done);
      FieldsRead(more, members[1..], rest, SetField(done, member.name, member.item));
    }
  }

  lemma {:induction false} MembersRead(t: Text, members: seq<Named<Value>>, rest: Text)
    requires SpellsMembers(t, members)
    ensures ReadBare([LEFT_BRACE] + (t + [RIGHT_BRACE] + rest)) == Got(Obj(Assigned([], members)), rest)
    decreases |t|, 3
  {
    hide SpellsFields, ReadBare, ReadFields, SkipSpace, Spaces;
    var s := t + [RIGHT_BRACE] + rest;
    if members == [] {
      SpacesSkipped(t, [RIGHT_BRACE] + rest);
      assert s == t + ([RIGHT_BRACE] + rest);
      ReadSpacedEmptyObject(s, rest);
    } else {
      FieldsStart(t, members, [RIGHT_BRACE] + rest);
      assert s == t + ([RIGHT_BRACE] + rest);
      ReadBareObject(s, SkipSpace(s));
      ReadSpaced(s, SkipSpace(s));
      FieldsRead(t, members, rest, []);
    }
  }

  // ------------------------------------- what the reader reads, the grammar spells

  lemma {:induction false} SkippedSpaces(s: Text) returns (a: Text)
    ensures Spaces(a) && s == a + SkipSpace(s)
    ensures SkipSpace(SkipSpace(s)) == SkipSpace(s)
  {
    a := [];
    if s != [] && IsSpace(s[0]) {
      a := SkippedSpaces(s[1..]);
      a := [s[0]] + a;
    }
  }

  /** The first unit or escape of a string. */
  function FirstPiece(s: Text): nat {
    if s == [] || s[0] != BACKSLASH then 1
    else if |s| > 1 && s[1] == LOWER_U then 6
    else 2
  }

  lemma FirstRead(s: Text)
    requires ReadChars(s).Got? && (s == [] || s[0] != QUOTE)
    ensures var k := FirstPiece(s);
            && k <= |s| && ReadChars(s[k..]).Got? && ReadChars(s).rest == ReadChars(s[k..]).rest
            && ReadChars(s).value != [] && SpellsUnit(s[..k], ReadChars(s).value[0])
            && ReadChars(s).value[1..] == ReadChars(s[k..]).value
  {
    if s[0] != BACKSLASH {
      FirstPlain(s);
    } else if s[1] == LOWER_U {
      FirstNumber(s);
    } else {
      FirstLetter(s);
    }
  }

  lemma FirstPlain(s: Text)
    requires ReadChars(s).Got? && s != [] && s[0] != QUOTE && s[0] != BACKSLASH
    ensures ReadChars(s[1..]).Got? && ReadChars(s) == Got([s[0]] + ReadChars(s[1..]).value, ReadChars(s[1..]).rest)
    ensures SpellsUnit(s[..1], s[0])
  {
    hide EscapedUnit, ReadHex4, SpellsHex, Letter;
    assert s[..1] == [s[0]];
  }

  lemma FirstLetter(s: Text)
    requires ReadChars(s).Got? && s != [] && s[0] == BACKSLASH && (|s| < 2 || s[1] != LOWER_U)
    ensures |s| >= 2 && EscapedUnit(s[1]).Some? && ReadChars(s[2..]).Got?
    ensures ReadChars(s) == Got([EscapedUnit(s[1]).value] + ReadChars(s[2..]).value, ReadChars(s[2..]).rest)
    ensures SpellsUnit(s[..2], EscapedUnit(s[1]).value)
  {
    hide EscapedUnit, ReadHex4, SpellsHex, Letter;
    LettersExactly(s[1], EscapedUnit(s[1]).value);
    assert s[..2][0] == s[0] && s[..2][1] == s[1];
  }

  lemma FirstNumber(s: Text)
    requires ReadChars(s).Got? && |s| >= 2 && s[0] == BACKSLASH && s[1] == LOWER_U
    ensures |s| >= 6 && ReadHex4(s[2..]).Some? && ReadChars(s[6..]).Got?
    ensures ReadChars(s) == Got([ReadHex4(s[2..]).value] + ReadChars(s[6..]).value, ReadChars(s[6..]).rest)
    ensures SpellsUnit(s[..6], ReadHex4(s[2..]).value)
  {
    hide EscapedUnit, ReadHex4, SpellsHex, Letter;
    HexPiece(s);
    HexExactly(s[2..], ReadHex4(s[2..]).value);
    var t := s[..6];
    assert t[0] == s[0] && t[1] == s[1] && t[2] == s[2..][0] && t[3] == s[2..][1] && t[4] == s[2..][2] &&
           t[5] == s[2..][3];
  }

  lemma HexPiece(s: Text)
    ensures ReadHex4(if |s| < 2 then [] else s[2..]).Some? ==> |s| >= 6 && ReadHex4(s[..6][2..]) == ReadHex4(s[2..])
  {
    hide HexValue;
  }

  lemma {:induction false} CharsSpelled(s: Text) returns (t: Text)
    requires ReadChars(s).Got?
    ensures s == t + [QUOTE] + ReadChars(s).rest && SpellsChars(t, ReadChars(s).value)
    decreases |s|
  {
    hide SpellsUnit, SpellsChars;
    if s != [] && s[0] == QUOTE {
      t := [];
      NoChars(t);
    } else {
      hide ReadChars;
      FirstRead(s);
      var k := FirstPiece(s);
      var more := CharsSpelled(s[k..]);
      var value := ReadChars(s).value;
      CharsIntro(s[..k], value[0], more, value[1..]);
      t := s[..k] + more;
      assert value == [value[0]] + value[1..];
      assert s == s[..k] + s[k..];
    }
  }

  /** A string that was read after its opening quote. */
  lemma StringSpelled(s: Text) returns (t: Text)
    requires s != [] && s[0] == QUOTE && ReadChars(s[1..]).Got?
    ensures s == t + ReadChars(s[1..]).rest && SpellsString(t, ReadChars(s[1..]).value)
  {
    hide ReadChars, SpellsChars;
    var inner := CharsSpelled(s[1..]);
    Enclosed(QUOTE, inner, QUOTE);
    t := [QUOTE] + inner + [QUOTE];
  }

  /** The text a reader has used up. */
  function Used(s: Text, rest: Text): Text
    requires |rest| <= |s|
  {
    s[..|s| - |rest|]
  }

  lemma UsedIs(t: Text, rest: Text)
    ensures Used(t + rest, rest) == t
  {
  }

  lemma {:induction false} ValueSpelled(s: Text) returns (t: Text)
    requires ReadValue(s).Got?
    ensures s == t + SkipSpace(ReadValue(s).rest) && Spells(t, ReadValue(s).value)
    decreases |s|, 2
  {
    hide ReadBare, SkipSpace, Spells, SpellsBare, Spaces;
    var a := SkippedSpaces(s);
    var bare := BareSpelled(SkipSpace(s));
    var b := SkippedSpaces(ReadValue(s).rest);
    SpellsIntro(a, bare, b, ReadValue(s).value);
    t := a + bare + b;
  }

  lemma WordSpelled(s: Text, word: Text, v: Value)
    requires ReadWord(s, word, v).Got?
    ensures ReadWord(s, word, v).value == v && s == word + ReadWord(s, word, v).rest
  {
  }

  lemma {:induction false} BareSpelled(s: Text) returns (t: Text)
    requires ReadBare(s).Got?
    ensures s == t + ReadBare(s).rest && SpellsBare(t, ReadBare(s).value)
    decreases |s|, 1
  {
    hide ReadItems, ReadFields, ReadChars, ReadNumber, ReadWord, SkipSpace, SpellsString, SpellsList, SpellsMembers,
         SpellsNumber, Spaces, NumberRun, ValueStart;
    if s[0] == QUOTE {
      t := StringSpelled(s);
    } else if s[0] == LEFT_BRACKET {
      var inner, items := ArraySpelled(s);
      Enclosed(LEFT_BRACKET, inner, RIGHT_BRACKET);
      t := [LEFT_BRACKET] + inner + [RIGHT_BRACKET];
    } else if s[0] == LEFT_BRACE {
      var inner, members := ObjectSpelled(s);
      Enclosed(LEFT_BRACE, inner, RIGHT_BRACE);
      t := [LEFT_BRACE] + inner + [RIGHT_BRACE];
      assert Assigned([], members) == ReadBare(s).value.fields && SpellsMembers(t[1..|t| - 1], members);
    } else if s[0] == LOWER_N {
      WordSpelled(s, Lit("null"), Null);
      t := Lit("null");
    } else if s[0] == LOWER_T {
      WordSpelled(s, Lit("true"), Bool(true));
      t := Lit("true");
    } else if s[0] == LOWER_F {
      WordSpelled(s, Lit("false"), Bool(false));
      t := Lit("false");
    } else {
      var k := NumberRun(s);
      t := s[..k];
      ReadNumberExactly(t, ReadNumber(t).value);
    }
  }

  lemma {:induction false} ArraySpelled(s: Text) returns (inner: Text, items: seq<Value>)
    requires s != [] && s[0] == LEFT_BRACKET && ReadBare(s).Got?
    ensures ReadBare(s).value == Arr(items) && SpellsList(inner, items)
    ensures s == [LEFT_BRACKET] + inner + [RIGHT_BRACKET] + ReadBare(s).rest
    decreases |s|, 0
  {
    hide ReadItems, ReadFields, ReadChars, ReadNumber, ReadWord, SkipSpace, SpellsItems, Spaces;
    var a := SkippedSpaces(s[1..]);
    var start := SkipSpace(s[1..]);
    if NextIs(start, RIGHT_BRACKET) {
      inner, items := a, [];
      assert start == [RIGHT_BRACKET] + start[1..];
    } else {
      var listed;
      listed, items := ItemsSpelled(start, []);
      assert [] + items == items;
      SpacedItems(a, listed, items);
      inner := a + listed;
    }
  }

  lemma SpacedItems(a: Text, t: Text, items: seq<Value>)
    requires items != [] && Spaces(a) && SpellsItems(t, items)
    ensures SpellsItems(a + t, items)
  {
    hide Spells, Spaces, SpellsItems;
    NoSpaces();
    if |items| == 1 {
      OneItem(t, items);
      OneItem(a + t, items);
      SpellsWider(a, t, [], items[0]);
      assert a + t + [] == a + t;
    } else {
      var first, more := ItemsElim(t, items);
      SpellsWider(a, first, [], items[0]);
      assert a + first + [] == a + first;
      ItemsIntro(a + first, items[0], more, items[1..]);
      assert a + t == (a + first) + [COMMA] + more && items == [items[0]] + items[1..];
    }
  }

  lemma OneItem(t: Text, items: seq<Value>)
    requires |items| == 1
    ensures SpellsItems(t, items) <==> Spells(t, items[0])
  {
    hide Spells;
  }

  lemma NoSpaces()
    ensures Spaces([])
  {
  }

  lemma {:induction false} ItemsSpelled(s: Text, done: seq<Value>) returns (t: Text, items: seq<Value>)
    requires ReadItems(s, done).Got?
    ensures items != [] && ReadItems(s, done).value == Arr(done + items) && SpellsItems(t, items)
    ensures s == t + [RIGHT_BRACKET] + ReadItems(s, done).rest
    decreases |s|, 3
  {
    hide ReadValue, SkipSpace, Spells;
    var first := ValueSpelled(s);
    var v, after := ReadValue(s).value, SkipSpace(ReadValue(s).rest);
    if NextIs(after, COMMA) {
      var rest, more := ItemsSpelled(after[1..], done + [v]);
      ItemsIntro(first, v, rest, more);
      t, items := first + [COMMA] + rest, [v] + more;
      assert after == [COMMA] + after[1..];
      assert done + [v] + more == done + items;
    } else {
      t, items := first, [v];
      assert after == [RIGHT_BRACKET] + after[1..];
    }
  }

  lemma {:induction false} ObjectSpelled(s: Text) returns (inner: Text, members: seq<Named<Value>>)
    requires s != [] && s[0] == LEFT_BRACE && ReadBare(s).Got?
    ensures ReadBare(s).value == Obj(Assigned([], members)) && SpellsMembers(inner, members)
    ensures s == [LEFT_BRACE] + inner + [RIGHT_BRACE] + ReadBare(s).rest
    decreases |s|, 0
  {
    hide ReadItems, ReadFields, ReadChars, ReadNumber, ReadWord, SkipSpace, SpellsFields, Spaces;
    var a := SkippedSpaces(s[1..]);
    var start := SkipSpace(s[1..]);
    if NextIs(start, RIGHT_BRACE) {
      inner, members := a, [];
      assert start == [RIGHT_BRACE] + start[1..];
    } else {
      var listed;
      listed, members := FieldsSpelled(start, []);
      SpacedFields(a, listed, members);
      inner := a + listed;
    }
  }

  lemma SpacedMember(a: Text, t: Text, member: Named<Value>)
    requires Spaces(a) && SpellsMember(t, member)
    ensures SpellsMember(a + t, member)
  {
    hide Spells, Spaces, SpellsMember, SpellsSpacedString, SpellsString;
    var name, item := MemberElim(t, member);
    var b, str, c := SpacedElim(name, member.name);
    SpacesJoin(a, b);
    SpacedIntro(a + b, str, c, member.name);
    MemberIntro((a + b) + str + c, member.name, item, member.item);
    assert a + t == (a + b) + str + c + [COLON] + item;
  }

  lemma SpacedFields(a: Text, t: Text, members: seq<Named<Value>>)
    requires members != [] && Spaces(a) && SpellsFields(t, members)
    ensures SpellsFields(a + t, members)
  {
    hide SpellsMember, Spaces;
    if |members| == 1 {
      SpacedMember(a, t, members[0]);
    } else {
      var first, more := FieldsElim(t, members);
      SpacedMember(a, first, members[0]);
      FieldsIntro(a + first, members[0], more, members[1..]);
      assert a + t == (a + first) + [COMMA] + more && members == [members[0]] + members[1..];
    }
  }

  /** The name and the item that `ReadFields` reads first. */
  lemma FirstField(s: Text, done: seq<Named<Value>>) returns (name: Text, v: Value, after: Text)
    requires ReadFields(s, done).Got?
    ensures FieldAt(s, name, v, after) && |after| < |s|
    ensures NextIs(after, COMMA) ==>
              ReadFields(after[1..], SetField(done, name, v)).Got? &&
              ReadFields(s, done) == ReadFields(after[1..], SetField(done, name, v))
    ensures !NextIs(after, COMMA) ==>
              NextIs(after, RIGHT_BRACE) && ReadFields(s, done) == Got(Obj(SetField(done, name, v)), after[1..])
  {
    hide ReadChars, ReadValue, SetField, SkipSpace;
    var start := SkipSpace(s);
    var got := ReadChars(start[1..]);
    var colon := SkipSpace(got.rest);
    var item := ReadValue(colon[1..]);
    name, v, after := got.value, item.value, SkipSpace(item.rest);
  }

  lemma {:induction false} MemberSpelled(s: Text, name: Text, v: Value, after: Text) returns (t: Text)
    requires FieldAt(s, name, v, after)
    ensures s == t + after && SpellsMember(t, Named(name, v))
    decreases |s|, 2
  {
    hide ReadChars, ReadValue, SkipSpace, Spells, SpellsString, SpellsSpacedString, Spaces, SpellsMember;
    var start := SkipSpace(s);
    var a := SkippedSpaces(s);
    var str := StringSpelled(start);
    var got := ReadChars(start[1..]);
    var b := SkippedSpaces(got.rest);
    var colon := SkipSpace(got.rest);
    var item := ValueSpelled(colon[1..]);
    SpacedIntro(a, str, b, name);
    MemberIntro(a + str + b, name, item, v);
    t := a + str + b + [COLON] + item;
    assert colon == [COLON] + colon[1..];
  }

  lemma {:induction false} FieldsSpelled(s: Text, done: seq<Named<Value>>) returns (t: Text, members: seq<Named<Value>>)
    requires ReadFields(s, done).Got?
    ensures members != [] && ReadFields(s, done).value == Obj(Assigned(done, members)) && SpellsFields(t, members)
    ensures s == t + [RIGHT_BRACE] + ReadFields(s, done).rest
    decreases |s|, 3
  {
    hide ReadFields, FieldAt, SetField, SpellsMember;
    var name, v, after := FirstField(s, done);
    var member := Named(name, v);
    var first := MemberSpelled(s, name, v, after);
    if NextIs(after, COMMA) {
      var rest, more := FieldsSpelled(after[1..], SetField(done, name, v));
      FieldsIntro(first, member, rest, more);
      t, members := first + [COMMA] + rest, [member] + more;
      assert after == [COMMA] + after[1..] && members[1..] == more;
    } else {
      t, members := first, [member];
      assert after == [RIGHT_BRACE] + after[1..];
      assert Assigned(done, members) == Assigned(SetField(done, name, v), members[1..]) && members[1..] == [];
    }
  }

  /** Main result: `JSON.parse` accepts exactly the texts of the grammar, and gives the value they spell. */
  lemma ParseExactly(t: Text, v: Value)
    ensures Parse(t) == Some(v) <==> Spells(t, v)
  {
    hide ReadValue, Spells;
    if Spells(t, v) {
      ValueReads(t, v, []);
      assert t + [] == t;
    }
    if Parse(t) == Some(v) {
      var spelled := ValueSpelled(t);
      assert spelled + [] == spelled;
    }
  }

  /** So no text spells two values. */
  lemma SpellsOne(t: Text, v: Value, w: Value)
    requires Spells(t, v) && Spells(t, w)
    ensures v == w
  {
    hide Spells, Parse;
    ParseExactly(t, v);
    ParseExactly(t, w);
  }
}
