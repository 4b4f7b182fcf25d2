/** A JSON reader, written independently of the printer, and the proof that it undoes the printer. */
module JsonReader {
  import opened Strings
  import opened Utf8
  import opened Numbers
  import opened Json

  datatype Read<+T> = Failed | Got(value: T, rest: Text)

  predicate IsSpace(u: Unit) { u == 32 || u == 9 || u == 10 || u == 13 }

  function SkipSpace(s: Text): (r: Text)
    ensures |r| <= |s|
  {
    if s != [] && IsSpace(s[0]) then SkipSpace(s[1..]) else s
  }

  function HexValue(u: Unit): Option<nat> {
    if IsDigit(u) then Some(u - ZERO)
    else if LOWER_A <= u <= LOWER_F then Some(u - LOWER_A + 10)
    else if UPPER_A <= u <= UPPER_F then Some(u - UPPER_A + 10)
    else None
  }

  function ReadHex4(s: Text): Option<Unit> {
    if |s| < 4 then None
    else match (HexValue(s[0]), HexValue(s[1]), HexValue(s[2]), HexValue(s[3]))
      case (Some(a), Some(b), Some(c), Some(d)) =>
        var n := a * 4096 + b * 256 + c * 16 + d;
        if n < 0x1_0000 then Some(n) else None
      case _ => None
  }

  /** The unit a two-character escape stands for. */
  function EscapedUnit(u: Unit): Option<Unit> {
    if u == QUOTE || u == BACKSLASH || u == SLASH then Some(u)
    else if u == LOWER_B then Some(8)
    else if u == LOWER_T then Some(9)
    else if u == LOWER_N then Some(10)
    else if u == LOWER_F then Some(12)
    else if u == LOWER_R then Some(13)
    else None
  }

  /** The rest of a string whose opening quote was read. */
  function ReadChars(s: Text): (r: Read<Text>)
    ensures r.Got? ==> |r.rest| < |s|
  {
    if s == [] || s[0] < 32 then Failed
    else if s[0] == QUOTE then Got([], s[1..])
    else if s[0] != BACKSLASH then
      match ReadChars(s[1..])
      case Failed => Failed
      case Got(t, rest) => Got([s[0]] + t, rest)
    else if |s| < 2 then Failed
    else if s[1] == LOWER_U then
      match ReadHex4(s[2..])
      case None => Failed
      case Some(u) =>
        (match ReadChars(s[6..])
         case Failed => Failed
         case Got(t, rest) => Got([u] + t, rest))
    else
      match EscapedUnit(s[1])
      case None => Failed
      case Some(u) =>
        (match ReadChars(s[2..])
         case Failed => Failed
         case Got(t, rest) => Got([u] + t, rest))
  }

  /** The longest prefix of units that occur in numbers. */
  function NumberRun(s: Text): (k: nat)
    ensures k <= |s|
    ensures forall i :: 0 <= i < k ==> IsNumberUnit(s[i])
    ensures k < |s| ==> !IsNumberUnit(s[k])
  {
    if s == [] || !IsNumberUnit(s[0]) then 0 else 1 + NumberRun(s[1..])
  }

  /** Assigning a property: a repeated name keeps its place and takes the new item. */
  function SetField<T>(fields: seq<Named<T>>, name: Text, item: T): seq<Named<T>> {
    var i := Position(fields, name);
    if i < |fields| then fields[i := Named(name, item)] else fields + [Named(name, item)]
  }

  predicate NextIs(s: Text, u: Unit) { s != [] && s[0] == u }

  function ReadWord(s: Text, word: Text, v: Value): Read<Value> {
    if |word| <= |s| && s[..|word|] == word && word != [] then Got(v, s[|word|..]) else Failed
  }

  function ReadValue(s: Text): (r: Read<Value>)
    ensures r.Got? ==> |r.rest| < |s|
    decreases |s|, 1
  {
    ReadBare(SkipSpace(s))
  }

  /** A value at the very start of the text. */
  function ReadBare(s: Text): (r: Read<Value>)
    ensures r.Got? ==> |r.rest| < |s|
    decreases |s|, 0
  {
    if s == [] then Failed
    else if s[0] == QUOTE then
      match ReadChars(s[1..])
      case Failed => Failed
      case Got(t, rest) => Got(Str(t), rest)
    else if s[0] == LEFT_BRACKET then
      var inner := SkipSpace(s[1..]);
      if NextIs(inner, RIGHT_BRACKET) then Got(Arr([]), inner[1..]) else ReadItems(inner, [])
    else if s[0] == LEFT_BRACE then
      var inner := SkipSpace(s[1..]);
      if NextIs(inner, RIGHT_BRACE) then Got(Obj([]), inner[1..]) else ReadFields(inner, [])
    else if s[0] == LOWER_N then ReadWord(s, Lit("null"), Null)
    else if s[0] == LOWER_T then ReadWord(s, Lit("true"), Bool(true))
    else if s[0] == LOWER_F then ReadWord(s, Lit("false"), Bool(false))
    else
      var k := NumberRun(s);
      match ReadNumber(s[..k])
      case None => Failed
      case Some(n) => Got(Num(n), s[k..])
  }

  function ReadItems(s: Text, done: seq<Value>): (r: Read<Value>)
    ensures r.Got? ==> |r.rest| < |s|
    decreases |s|, 2
  {
    match ReadValue(s)
    case Failed => Failed
    case Got(v, rest) =>
      var after := SkipSpace(rest);
      if NextIs(after, COMMA) then ReadItems(after[1..], done + [v])
      else if NextIs(after, RIGHT_BRACKET) then Got(Arr(done + [v]), after[1..])
      else Failed
  }

  function ReadFields(s: Text, done: seq<Named<Value>>): (r: Read<Value>)
    ensures r.Got? ==> |r.rest| < |s|
    decreases |s|, 2
  {
    var start := SkipSpace(s);
    if !NextIs(start, QUOTE) then Failed
    else match ReadChars(start[1..])
      case Failed => Failed
      case Got(name, afterName) =>
        var colon := SkipSpace(afterName);
        if !NextIs(colon, COLON) then Failed
        else match ReadValue(colon[1..])
          case Failed => Failed
          case Got(v, rest) =>
            var after := SkipSpace(rest);
            var fields := SetField(done, name, v);
            if NextIs(after, COMMA) then ReadFields(after[1..], fields)
            else if NextIs(after, RIGHT_BRACE) then Got(Obj(fields), after[1..])
            else Failed
  }

  /** `JSON.parse`: one value with nothing but spaces around it. */
  function Parse(s: Text): Option<Value> {
    match ReadValue(s)
    case Got(v, rest) => if SkipSpace(rest) == [] then Some(v) else None
    case Failed => None
  }

  // ------------------------------------------------------------ inversion

  lemma {:induction false} SkipSpaces(spaces: Text, s: Text)
    requires forall i :: 0 <= i < |spaces| ==> IsSpace(spaces[i])
    requires s == [] || !IsSpace(s[0])
    ensures SkipSpace(spaces + s) == s
  {
    if spaces == [] {
      assert spaces + s == s;
    } else {
      assert (spaces + s)[1..] == spaces[1..] + s;
      SkipSpaces(spaces[1..], s);
    }
  }

  lemma SkipBreak(gap: nat, level: nat, s: Text)
    requires s == [] || !IsSpace(s[0])
    ensures SkipSpace(Break(gap, level) + s) == s
    ensures forall i :: 0 <= i < |Break(gap, level)| ==> IsSpace(Break(gap, level)[i])
  {
    SkipSpaces(Break(gap, level), s);
  }

  lemma HexDigitRoundTrip(n: nat)
    requires n < 16
    ensures HexValue(HexDigit(n)) == Some(n)
  {
  }

  lemma HexParts(u: Unit)
    ensures u / 4096 < 16
    ensures u / 4096 * 4096 + u / 256 % 16 * 256 + u / 16 % 16 * 16 + u % 16 == u
  {
    var a, b := u / 16, u / 256;
    assert b == a / 16 && u / 4096 == b / 16;
    assert u == 16 * a + u % 16 && a == 16 * b + a % 16 && b == 16 * (b / 16) + b % 16;
  }

  lemma Hex4RoundTrip(u: Unit, s: Text)
    ensures ReadHex4(Hex4(u) + s) == Some(u)
  {
    hide HexValue, HexDigit;
    HexParts(u);
    HexDigitRoundTrip(u / 4096);
    HexDigitRoundTrip(u / 256 % 16);
    HexDigitRoundTrip(u / 16 % 16);
    HexDigitRoundTrip(u % 16);
  }

  function Prepend(u: Unit, r: Read<Text>): Read<Text> {
    match r
    case Failed => Failed
    case Got(t, rest) => Got([u] + t, rest)
  }

  lemma ReadPlainUnit(u: Unit, s: Text)
    requires u >= 32 && u != QUOTE && u != BACKSLASH
    ensures ReadChars([u] + s) == Prepend(u, ReadChars(s))
  {
    assert ([u] + s)[1..] == s;
  }

  /** Reading one quoted unit gives the unit back and leaves the rest to be read. */
  lemma ReadQuoteUnit(u: Unit, s: Text)
    ensures ReadChars(QuoteUnit(u) + s) == Prepend(u, ReadChars(s))
  {
    var q := QuoteUnit(u);
    var whole := q + s;
    assert whole[|q|..] == s;
    if |q| == 6 {
      Hex4RoundTrip(u, s);
      assert whole[2..] == Hex4(u) + s;
    } else if |q| == 2 {
      assert EscapedUnit(q[1]) == Some(u);
    } else {
      ReadPlainUnit(u, s);
    }
  }

  lemma ReadClosingQuote(rest: Text)
    ensures ReadChars([QUOTE] + rest) == Got([], rest)
  {
    assert ([QUOTE] + rest)[1..] == rest;
  }

  lemma QuotePair(s: Text, tail: Text)
    requires IsPair(s)
    ensures QuoteBody(s) + tail == [s[0]] + ([s[1]] + (QuoteBody(s[2..]) + tail))
    ensures s == [s[0]] + ([s[1]] + s[2..])
  {
    hide QuoteBody;
    QuoteBodyPair(s);
    var rest := QuoteBody(s[2..]);
    assert ([s[0], s[1]] + rest) + tail == [s[0]] + ([s[1]] + (rest + tail));
  }

  lemma QuoteBodyPair(s: Text)
    requires IsPair(s)
    ensures QuoteBody(s) == [s[0], s[1]] + QuoteBody(s[2..])
  {
  }

  lemma QuoteSingle(s: Text, tail: Text)
    requires s != [] && !IsPair(s)
    ensures QuoteBody(s) + tail == QuoteUnit(s[0]) + (QuoteBody(s[1..]) + tail)
    ensures s == [s[0]] + s[1..]
  {
    hide QuoteUnit, QuoteBody;
    var first, rest := QuoteUnit(s[0]), QuoteBody(s[1..]);
    QuoteBodySingle(s);
    assert (first + rest) + tail == first + (rest + tail);
  }

  lemma QuoteBodySingle(s: Text)
    requires s != [] && !IsPair(s)
    ensures QuoteBody(s) == QuoteUnit(s[0]) + QuoteBody(s[1..])
  {
    hide QuoteUnit;
  }

  lemma {:induction false} ReadQuoteBody(s: Text, rest: Text)
    ensures ReadChars(QuoteBody(s) + [QUOTE] + rest) == Got(s, rest)
  {
    hide ReadChars, QuoteUnit;
    var tail := [QUOTE] + rest;
    assert QuoteBody(s) + [QUOTE] + rest == QuoteBody(s) + tail;
    if s == [] {
      ReadClosingQuote(rest);
      assert QuoteBody(s) + tail == tail;
    } else if IsPair(s) {
      hide QuoteBody;
      ReadQuoteBody(s[2..], rest);
      var t := QuoteBody(s[2..]) + tail;
      assert QuoteBody(s[2..]) + [QUOTE] + rest == t;
      QuotePair(s, tail);
      ReadPlainUnit(s[1], t);
      ReadPlainUnit(s[0], [s[1]] + t);
    } else {
      hide QuoteBody;
      ReadQuoteBody(s[1..], rest);
      var t := QuoteBody(s[1..]) + tail;
      assert QuoteBody(s[1..]) + [QUOTE] + rest == t;
      QuoteSingle(s, tail);
      ReadQuoteUnit(s[0], t);
    }
  }

  lemma NumberRunIs(t: Text, rest: Text)
    requires forall i :: 0 <= i < |t| ==> IsNumberUnit(t[i])
    requires rest == [] || !IsNumberUnit(rest[0])
    ensures NumberRun(t + rest) == |t|
  {
    var s := t + rest;
    var k := NumberRun(s);
    assert forall i :: 0 <= i < |t| ==> s[i] == t[i];
    assert rest != [] ==> s[|t|] == rest[0];
  }

  /** What may follow a value in a printed document. */
  predicate Stops(rest: Text) {
    rest == [] || !IsNumberUnit(rest[0])
  }

  /** A text that starts like a value: with neither a space nor a closing bracket. */
  predicate ValueStart(t: Text) {
    t != [] && !IsSpace(t[0]) && t[0] != RIGHT_BRACKET && t[0] != RIGHT_BRACE
  }

  lemma WordsStart()
    ensures ValueStart(Lit("null")) && ValueStart(Lit("true")) && ValueStart(Lit("false"))
  {
  }

  lemma QuoteStart(s: Text)
    ensures ValueStart(Quote(s))
  {
    hide QuoteBody;
  }

  lemma NumberStart(n: Number)
    requires !n.NotFinite?
    ensures ValueStart(NumberText(n))
  {
    hide NumberText, ReadNumber;
    ReadNumberText(n);
  }

  lemma StringifyStart(v: Value, gap: nat, level: nat)
    requires Pure(v)
    ensures ValueStart(Stringify(v, gap, level))
  {
    hide Stringify, Quote, NumberText, StringifyItems, StringifyFields, Break;
    ScalarTexts(gap, level);
    match v
    case Null => WordsStart();
    case Bool(_) => WordsStart();
    case Str(s) => QuoteStart(s);
    case Num(n) => NumberStart(n);
    case Arr(items) =>
      EmptyTexts(gap, level);
      if items != [] {
        ArrayText(items, gap, level);
      }
    case Obj(fields) =>
      EmptyTexts(gap, level);
      if fields != [] {
        ObjectText(fields, gap, level);
      }
  }

  lemma StringifyItemsStart(items: seq<Value>, gap: nat, level: nat)
    requires items != [] && Pure(items[0])
    ensures var t := StringifyItems(items, gap, level); t != [] && !IsSpace(t[0]) && t[0] != RIGHT_BRACKET
  {
    hide Stringify, Break;
    StringifyStart(items[0], gap, level);
  }

  lemma StringifyFieldsStart(fields: seq<Named<Value>>, gap: nat, level: nat)
    requires fields != []
    ensures var t := StringifyFields(fields, gap, level); t != [] && t[0] == QUOTE && !IsSpace(t[0])
  {
    hide Stringify, Break, QuoteBody;
  }

  lemma NoSpace(s: Text)
    requires s != [] && !IsSpace(s[0])
    ensures SkipSpace(s) == s
  {
  }

  // One step of the reader at a time.

  lemma ReadItemsLast(s: Text, v: Value, rest: Text, tail: Text, done: seq<Value>)
    requires ReadValue(s) == Got(v, rest) && SkipSpace(rest) == [RIGHT_BRACKET] + tail
    ensures ReadItems(s, done) == Got(Arr(done + [v]), tail)
  {
    assert ([RIGHT_BRACKET] + tail)[1..] == tail;
  }

  lemma ReadItemsMore(s: Text, v: Value, rest: Text, tail: Text, done: seq<Value>)
    requires ReadValue(s) == Got(v, rest) && SkipSpace(rest) == [COMMA] + tail
    ensures ReadItems(s, done) == ReadItems(tail, done + [v])
  {
    assert ([COMMA] + tail)[1..] == tail;
  }

  /** Where the item of a named field starts, and what follows it. */
  ghost predicate FieldAt(s: Text, name: Text, v: Value, after: Text) {
    && NextIs(SkipSpace(s), QUOTE)
    && ReadChars(SkipSpace(s)[1..]).Got?
    && var got := ReadChars(SkipSpace(s)[1..]);
    && got.value == name
    && NextIs(SkipSpace(got.rest), COLON)
    && ReadValue(SkipSpace(got.rest)[1..]).Got?
    && var item := ReadValue(SkipSpace(got.rest)[1..]);
    && item.value == v
    && SkipSpace(item.rest) == after
  }

  lemma ReadFieldsLast(s: Text, name: Text, v: Value, tail: Text, done: seq<Named<Value>>)
    requires FieldAt(s, name, v, [RIGHT_BRACE] + tail)
    ensures ReadFields(s, done) == Got(Obj(SetField(done, name, v)), tail)
  {
    assert ([RIGHT_BRACE] + tail)[1..] == tail;
  }

  lemma ReadFieldsMore(s: Text, name: Text, v: Value, tail: Text, done: seq<Named<Value>>)
    requires FieldAt(s, name, v, [COMMA] + tail)
    ensures ReadFields(s, done) == ReadFields(tail, SetField(done, name, v))
  {
    assert ([COMMA] + tail)[1..] == tail;
  }

  /** Leading spaces do not matter to the readers of items and of fields. */
  lemma ReadSpaced(spaced: Text, s: Text)
    requires SkipSpace(spaced) == s && SkipSpace(s) == s
    ensures forall done :: ReadItems(spaced, done) == ReadItems(s, done)
    ensures forall done :: ReadFields(spaced, done) == ReadFields(s, done)
  {
    assert ReadValue(spaced) == ReadValue(s);
  }

  lemma ReadBareArray(s: Text, inner: Text)
    requires SkipSpace(s) == inner && inner != [] && inner[0] != RIGHT_BRACKET
    ensures ReadBare([LEFT_BRACKET] + s) == ReadItems(inner, [])
  {
    assert ([LEFT_BRACKET] + s)[1..] == s;
  }

  lemma ReadBareObject(s: Text, inner: Text)
    requires SkipSpace(s) == inner && inner != [] && inner[0] != RIGHT_BRACE
    ensures ReadBare([LEFT_BRACE] + s) == ReadFields(inner, [])
  {
    assert ([LEFT_BRACE] + s)[1..] == s;
  }

  lemma ReadEmptyArray(rest: Text)
    ensures ReadBare([LEFT_BRACKET, RIGHT_BRACKET] + rest) == Got(Arr([]), rest)
  {
    hide ReadItems;
    var s := [LEFT_BRACKET, RIGHT_BRACKET] + rest;
    assert s[1..] == [RIGHT_BRACKET] + rest;
    assert s[1..][1..] == rest;
    assert SkipSpace(s[1..]) == s[1..];
  }

  lemma ReadEmptyObject(rest: Text)
    ensures ReadBare([LEFT_BRACE, RIGHT_BRACE] + rest) == Got(Obj([]), rest)
  {
    hide ReadFields;
    var s := [LEFT_BRACE, RIGHT_BRACE] + rest;
    assert s[1..] == [RIGHT_BRACE] + rest;
    assert s[1..][1..] == rest;
    assert SkipSpace(s[1..]) == s[1..];
  }

  lemma ReadWordAt(word: Text, v: Value, rest: Text)
    requires word != []
    ensures ReadWord(word + rest, word, v) == Got(v, rest)
  {
    assert (word + rest)[..|word|] == word && (word + rest)[|word|..] == rest;
  }

  lemma ReadNull(rest: Text)
    ensures ReadBare(Lit("null") + rest) == Got(Null, rest)
  {
    hide ReadItems, ReadFields, ReadChars, ReadNumber, ReadWord;
    ReadWordAt(Lit("null"), Null, rest);
    assert (Lit("null") + rest)[0] == LOWER_N;
  }

  lemma ReadBool(b: bool, rest: Text)
    ensures ReadBare((if b then Lit("true") else Lit("false")) + rest) == Got(Bool(b), rest)
  {
    hide ReadItems, ReadFields, ReadChars, ReadNumber, ReadWord;
    if b {
      ReadWordAt(Lit("true"), Bool(true), rest);
      assert (Lit("true") + rest)[0] == LOWER_T;
    } else {
      ReadWordAt(Lit("false"), Bool(false), rest);
      assert (Lit("false") + rest)[0] == LOWER_F;
    }
  }

  lemma ReadNumeric(n: Number, rest: Text)
    requires !n.NotFinite? && Stops(rest)
    ensures ReadBare(NumberText(n) + rest) == Got(Num(n), rest)
  {
    hide NumberText, ReadNumber, ReadItems, ReadFields, ReadChars, ReadWord, SkipSpace;
    var t := NumberText(n);
    ReadNumberText(n);
    NumberRunIs(t, rest);
    var s := t + rest;
    assert s[0] == t[0] && s[..|t|] == t && s[|t|..] == rest;
  }

  lemma ReadQuoted(s: Text, rest: Text)
    ensures ReadBare(Quote(s) + rest) == Got(Str(s), rest)
  {
    hide QuoteBody, ReadChars, ReadItems, ReadFields, ReadNumber, ReadWord, SkipSpace;
    ReadQuoteBody(s, rest);
    assert (Quote(s) + rest)[1..] == QuoteBody(s) + [QUOTE] + rest;
  }

  /** The reader undoes the printer, whatever the indentation. */
  lemma {:induction false} ReadStringify(v: Value, gap: nat, level: nat, rest: Text)
    requires Pure(v) && Distinct(v) && Stops(rest)
    ensures ReadBare(Stringify(v, gap, level) + rest) == Got(v, rest)
    decreases v, 1
  {
    hide ReadBare, ReadItems, ReadFields, SkipSpace, Quote, NumberText, Break;
    match v
    case Null => ReadNull(rest);
    case Bool(b) => ReadBool(b, rest);
    case Str(x) => ReadQuoted(x, rest);
    case Num(n) => ReadNumeric(n, rest);
    case Arr(_) => ReadStringifyArray(v, gap, level, rest);
    case Obj(_) => ReadStringifyObject(v, gap, level, rest);
  }

  lemma {:induction false} ReadStringifyArray(v: Value, gap: nat, level: nat, rest: Text)
    requires v.Arr? && Pure(v) && Distinct(v)
    ensures ReadBare(Stringify(v, gap, level) + rest) == Got(v, rest)
    decreases v, 0
  {
    hide ReadBare, ReadItems, SkipSpace, Break, Stringify, StringifyItems, IsSpace;
    if v.items == [] {
      EmptyTexts(gap, level);
      ReadEmptyArray(rest);
    } else {
      var items, closing, t := v.items, Break(gap, level), StringifyItems(v.items, gap, level + 1);
      var body := t + closing + [RIGHT_BRACKET] + rest;
      StringifyItemsStart(items, gap, level + 1);
      assert body[0] == t[0];
      SkipBreak(gap, level + 1, body);
      SkipBreak(gap, level, []);
      ReadBareArray(Break(gap, level + 1) + body, body);
      ArrayText(items, gap, level);
      assert Stringify(v, gap, level) + rest == [LEFT_BRACKET] + (Break(gap, level + 1) + body);
      ReadStringifyItems(items, gap, level + 1, closing, rest, []);
      assert [] + items == items;
    }
  }

  lemma {:induction false} ReadStringifyObject(v: Value, gap: nat, level: nat, rest: Text)
    requires v.Obj? && Pure(v) && Distinct(v)
    ensures ReadBare(Stringify(v, gap, level) + rest) == Got(v, rest)
    decreases v, 0
  {
    hide ReadBare, ReadFields, SkipSpace, Break, Stringify, StringifyFields, IsSpace;
    if v.fields == [] {
      EmptyTexts(gap, level);
      ReadEmptyObject(rest);
    } else {
      var fields, closing, t := v.fields, Break(gap, level), StringifyFields(v.fields, gap, level + 1);
      var body := t + closing + [RIGHT_BRACE] + rest;
      StringifyFieldsStart(fields, gap, level + 1);
      assert body[0] == t[0];
      SkipBreak(gap, level + 1, body);
      SkipBreak(gap, level, []);
      ReadBareObject(Break(gap, level + 1) + body, body);
      ObjectText(fields, gap, level);
      assert Stringify(v, gap, level) + rest == [LEFT_BRACE] + (Break(gap, level + 1) + body);
      assert [] + fields == fields;
      ReadStringifyFields(fields, gap, level + 1, closing, rest, []);
    }
  }

  lemma {:induction false} ReadStringifyItems(
      items: seq<Value>, gap: nat, level: nat, closing: Text, rest: Text, done: seq<Value>)
    requires items != []
    requires forall i :: 0 <= i < |items| ==> Pure(items[i]) && Distinct(items[i])
    requires forall i :: 0 <= i < |closing| ==> IsSpace(closing[i])
    ensures ReadItems(StringifyItems(items, gap, level) + closing + [RIGHT_BRACKET] + rest, done) ==
            Got(Arr(done + items), rest)
    decreases items
  {
    hide ReadBare, ReadItems, SkipSpace, Stringify, Break;
    var s := StringifyItems(items, gap, level) + closing + [RIGHT_BRACKET] + rest;
    var first := Stringify(items[0], gap, level);
    StringifyStart(items[0], gap, level);
    if |items| == 1 {
      var follow := closing + ([RIGHT_BRACKET] + rest);
      assert s == first + follow;
      assert s[0] == first[0];
      NoSpace(s);
      ReadStringify(items[0], gap, level, follow);
      SkipSpaces(closing, [RIGHT_BRACKET] + rest);
      ReadItemsLast(s, items[0], follow, rest, done);
      assert done + items == done + [items[0]];
    } else {
      var next := StringifyItems(items[1..], gap, level) + closing + [RIGHT_BRACKET] + rest;
      var follow := [COMMA] + (Break(gap, level) + next);
      assert s == first + follow;
      assert s[0] == first[0];
      NoSpace(s);
      ReadStringify(items[0], gap, level, follow);
      NoSpace(follow);
      ReadItemsMore(s, items[0], follow, Break(gap, level) + next, done);
      StringifyItemsStart(items[1..], gap, level);
      assert next[0] == StringifyItems(items[1..], gap, level)[0];
      SkipBreak(gap, level, next);
      NoSpace(next);
      ReadSpaced(Break(gap, level) + next, next);
      ReadStringifyItems(items[1..], gap, level, closing, rest, done + [items[0]]);
      assert done + [items[0]] + items[1..] == done + items;
    }
  }

  lemma PrintedField(name: Text, item: Value, gap: nat, level: nat, follow: Text, after: Text)
    requires Pure(item) && Distinct(item) && Stops(follow) && SkipSpace(follow) == after
    requires ReadBare(Stringify(item, gap, level) + follow) == Got(item, follow)
    ensures FieldAt(Quote(name) + Colon(gap) + Stringify(item, gap, level) + follow, name, item, after)
  {
    hide ReadBare, ReadChars, QuoteBody, Stringify, SkipSpace;
    var first := Stringify(item, gap, level);
    var colon := Colon(gap) + (first + follow);
    var s := Quote(name) + Colon(gap) + first + follow;
    var tail := QuoteBody(name) + [QUOTE] + colon;
    assert s == [QUOTE] + tail;
    assert s[1..] == tail;
    NoSpace(s);
    ReadQuoteBody(name, colon);
    NoSpace(colon);
    StringifyStart(item, gap, level);
    assert (first + follow)[0] == first[0];
    assert colon[1..] == Colon(gap)[1..] + (first + follow);
    SkipSpaces(Colon(gap)[1..], first + follow);
  }

  lemma SetNewField<T>(done: seq<Named<T>>, fields: seq<Named<T>>)
    requires fields != [] && DistinctNames(done + fields)
    ensures SetField(done, fields[0].name, fields[0].item) == done + [fields[0]]
    ensures done + [fields[0]] + fields[1..] == done + fields
  {
    assert (done + fields)[|done|] == fields[0];
    assert forall i :: 0 <= i < |done| ==> (done + fields)[i] == done[i];
  }

  lemma {:induction false} ReadStringifyFields(
      fields: seq<Named<Value>>, gap: nat, level: nat, closing: Text, rest: Text, done: seq<Named<Value>>)
    requires fields != []
    requires forall i :: 0 <= i < |fields| ==> Pure(fields[i].item) && Distinct(fields[i].item)
    requires forall i :: 0 <= i < |closing| ==> IsSpace(closing[i])
    requires DistinctNames(done + fields)
    ensures ReadFields(StringifyFields(fields, gap, level) + closing + [RIGHT_BRACE] + rest, done) ==
            Got(Obj(done + fields), rest)
    decreases fields
  {
    hide ReadBare, ReadFields, SkipSpace, Stringify, Break, SetField, FieldAt, Quote;
    var name, item := fields[0].name, fields[0].item;
    var s := StringifyFields(fields, gap, level) + closing + [RIGHT_BRACE] + rest;
    var first := Stringify(item, gap, level);
    SetNewField(done, fields);
    if |fields| == 1 {
      var follow := closing + ([RIGHT_BRACE] + rest);
      assert s == Quote(name) + Colon(gap) + first + follow;
      ReadStringify(item, gap, level, follow);
      SkipSpaces(closing, [RIGHT_BRACE] + rest);
      PrintedField(name, item, gap, level, follow, [RIGHT_BRACE] + rest);
      ReadFieldsLast(s, name, item, rest, done);
      assert done + fields == done + [fields[0]];
    } else {
      var next := StringifyFields(fields[1..], gap, level) + closing + [RIGHT_BRACE] + rest;
      var follow := [COMMA] + (Break(gap, level) + next);
      assert s == Quote(name) + Colon(gap) + first + follow;
      ReadStringify(item, gap, level, follow);
      NoSpace(follow);
      PrintedField(name, item, gap, level, follow, follow);
      ReadFieldsMore(s, name, item, Break(gap, level) + next, done);
      StringifyFieldsStart(fields[1..], gap, level);
      assert next[0] == QUOTE;
      SkipBreak(gap, level, next);
      NoSpace(next);
      ReadSpaced(Break(gap, level) + next, next);
      ReadStringifyFields(fields[1..], gap, level, closing, rest, done + [fields[0]]);
    }
  }

  /** A printed document, followed by spaces only, reads back as the same value. */
  lemma ParseStringify(v: Value, gap: nat, trailing: Text)
    requires Pure(v) && Distinct(v)
    requires forall i :: 0 <= i < |trailing| ==> IsSpace(trailing[i])
    ensures Parse(Stringify(v, gap, 0) + trailing) == Some(v)
  {
    hide Stringify, ReadBare;
    StringifyStart(v, gap, 0);
    var s := Stringify(v, gap, 0) + trailing;
    assert SkipSpace(s) == s;
    ReadStringify(v, gap, 0, trailing);
    SkipSpaces(trailing, []);
    assert trailing + [] == trailing;
  }

  // -------------------------------------------------- what can be read at all

  lemma SetFieldKeeps<T>(fields: seq<Named<T>>, name: Text, item: T)
    requires DistinctNames(fields)
    ensures DistinctNames(SetField(fields, name, item))
    ensures forall i :: 0 <= i < |SetField(fields, name, item)| ==>
              SetField(fields, name, item)[i].item == item || SetField(fields, name, item)[i] in fields
  {
    var k := Position(fields, name);
    if k == |fields| {
      assert forall i :: 0 <= i < |fields| ==> fields[i].name in Names(fields);
    }
  }

  ghost predicate Proper(v: Value) {
    Pure(v) && Distinct(v)
  }

  ghost predicate AllJson(fields: seq<Named<Value>>) {
    DistinctNames(fields) && forall i :: 0 <= i < |fields| ==> Proper(fields[i].item)
  }

  lemma NumbersFinite(t: Text)
    ensures ReadNumber(t).Some? ==> !ReadNumber(t).value.NotFinite?
  {
    hide ReadMagnitude, DropStart, Trimmed, ReadDecimal, AllDigits;
  }

  lemma WordsJson(s: Text, word: Text, v: Value)
    requires Proper(v)
    ensures ReadWord(s, word, v).Got? ==> Proper(ReadWord(s, word, v).value)
  {
  }

  lemma {:induction false} ReadBareJson(s: Text)
    ensures ReadBare(s).Got? ==> Proper(ReadBare(s).value)
    decreases |s|, 0
  {
    hide ReadItems, ReadFields, ReadChars, ReadNumber, ReadWord, NumberRun;
    if s != [] {
      WordsJson(s, Lit("null"), Null);
      WordsJson(s, Lit("true"), Bool(true));
      WordsJson(s, Lit("false"), Bool(false));
      NumbersFinite(s[..NumberRun(s)]);
      ReadItemsJson(SkipSpace(s[1..]), []);
      ReadFieldsJson(SkipSpace(s[1..]), []);
    }
  }

  lemma {:induction false} ReadItemsJson(s: Text, done: seq<Value>)
    requires forall i :: 0 <= i < |done| ==> Proper(done[i])
    ensures ReadItems(s, done).Got? ==> Proper(ReadItems(s, done).value)
    decreases |s|, 2
  {
    hide ReadBare;
    ReadBareJson(SkipSpace(s));
    match ReadValue(s)
    case Failed =>
    case Got(v, rest) =>
      var after := SkipSpace(rest);
      if NextIs(after, COMMA) {
        ReadItemsJson(after[1..], done + [v]);
      }
  }

  lemma {:induction false} ReadFieldsJson(s: Text, done: seq<Named<Value>>)
    requires AllJson(done)
    ensures ReadFields(s, done).Got? ==> Proper(ReadFields(s, done).value)
    decreases |s|, 2
  {
    hide ReadBare, ReadChars, SetField;
    var start := SkipSpace(s);
    if NextIs(start, QUOTE) && ReadChars(start[1..]).Got? {
      var got := ReadChars(start[1..]);
      var colon := SkipSpace(got.rest);
      if NextIs(colon, COLON) {
        ReadBareJson(SkipSpace(colon[1..]));
        if ReadValue(colon[1..]).Got? {
          var item := ReadValue(colon[1..]);
          SetFieldJson(done, got.value, item.value);
          var after := SkipSpace(item.rest);
          if NextIs(after, COMMA) {
            ReadFieldsJson(after[1..], SetField(done, got.value, item.value));
          }
        }
      }
    }
  }

  lemma SetFieldJson(done: seq<Named<Value>>, name: Text, item: Value)
    requires AllJson(done) && Proper(item)
    ensures AllJson(SetField(done, name, item)) && Proper(Obj(SetField(done, name, item)))
  {
    hide SetField, Proper;
    SetFieldKeeps(done, name, item);
    var fields := SetField(done, name, item);
    forall i | 0 <= i < |fields| ensures Proper(fields[i].item) {
      if fields[i].item != item {
        var k :| 0 <= k < |done| && done[k] == fields[i];
      }
    }
    ObjectJson(fields);
  }

  lemma ObjectJson(fields: seq<Named<Value>>)
    requires AllJson(fields)
    ensures Proper(Obj(fields))
  {
  }

  /** What is read is JSON in which no object repeats a name; printed with any indentation it is read as itself. */
  lemma ParsedIsJson(s: Text, gap: nat)
    requires Parse(s).Some?
    ensures Pure(Parse(s).value) && Distinct(Parse(s).value)
    ensures Parse(Stringify(Parse(s).value, gap, 0)) == Parse(s)
  {
    hide ReadBare, Stringify;
    ReadBareJson(SkipSpace(s));
    var v := Parse(s).value;
    hide Parse;
    ParseStringify(v, gap, []);
    assert Stringify(v, gap, 0) + [] == Stringify(v, gap, 0);
  }
}
