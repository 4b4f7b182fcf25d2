/** The values the release scripts pass around, and `JSON.stringify`. */
module Json {
  import opened Strings
  import opened Utf8
  import opened Numbers

  datatype Named<+T> = Named(name: Text, item: T)

  /** A script value. `Obj` is a plain object with its own enumerable names in insertion order;
      `Foreign` is `undefined` and everything else JSON cannot carry. */
  datatype Value =
    | Null
    | Bool(b: bool)
    | Str(s: Text)
    | Num(n: Number)
    | Arr(items: seq<Value>)
    | Obj(fields: seq<Named<Value>>)
    | Foreign

  // ---------------------------------------------------------------- names

  function Names<T>(fields: seq<Named<T>>): set<Text> {
    set i | 0 <= i < |fields| :: fields[i].name
  }

  /** The position of a name, or the length when it is absent. */
  function Position<T>(fields: seq<Named<T>>, name: Text): (i: nat)
    ensures i <= |fields|
    ensures i < |fields| ==> fields[i].name == name
    ensures i < |fields| <==> name in Names(fields)
  {
    if fields == [] then 0
    else if fields[0].name == name then 0
    else
      assert fields == [fields[0]] + fields[1..];
      1 + Position(fields[1..], name)
  }

  ghost predicate DistinctNames<T>(fields: seq<Named<T>>) {
    forall i, j :: 0 <= i < j < |fields| ==> fields[i].name != fields[j].name
  }

  lemma PositionUnique<T>(fields: seq<Named<T>>, i: nat)
    requires DistinctNames(fields) && i < |fields|
    ensures Position(fields, fields[i].name) == i
  {
    assert fields[i].name in Names(fields);
  }

  /** Reading a property: a missing one is `undefined`. */
  function Get(v: Value, name: Text): Value {
    if v.Obj? && Position(v.fields, name) < |v.fields| then v.fields[Position(v.fields, name)].item
    else Foreign
  }

  predicate HasOwn(v: Value, name: Text) {
    v.Obj? && name in Names(v.fields)
  }

  /** No object anywhere repeats a name, as in every JavaScript object. */
  ghost predicate Distinct(v: Value) {
    match v
    case Arr(items) => forall i :: 0 <= i < |items| ==> Distinct(items[i])
    case Obj(fields) =>
      DistinctNames(fields) && forall i :: 0 <= i < |fields| ==> Distinct(fields[i].item)
    case _ => true
  }

  /** Everything inside is JSON. */
  predicate Pure(v: Value) {
    match v
    case Num(n) => !n.NotFinite?
    case Arr(items) => forall i :: 0 <= i < |items| ==> Pure(items[i])
    case Obj(fields) => forall i :: 0 <= i < |fields| ==> Pure(fields[i].item)
    case Foreign => false
    case _ => true
  }

  /** Equal up to the order of object names at every depth. */
  ghost predicate Same(a: Value, b: Value) {
    match a
    case Arr(xs) =>
      && b.Arr? && |xs| == |b.items|
      && forall i :: 0 <= i < |xs| ==> Same(xs[i], b.items[i])
    case Obj(fs) =>
      && b.Obj? && Names(fs) == Names(b.fields)
      && forall i :: 0 <= i < |fs| ==> Same(fs[i].item, Get(b, fs[i].name))
    case _ => a == b
  }

  // ------------------------------------------------------------ stringify

  function HexDigit(n: nat): Unit
    requires n < 16
  {
    if n < 10 then ZERO + n else LOWER_A + n - 10
  }

  function Hex4(u: Unit): Text {
    [HexDigit(u / 4096), HexDigit(u / 256 % 16), HexDigit(u / 16 % 16), HexDigit(u % 16)]
  }

  /** One unit inside a JSON string, on its own: a lone surrogate is escaped. */
  function QuoteUnit(u: Unit): Text {
    if u == QUOTE then [BACKSLASH, QUOTE]
    else if u == BACKSLASH then [BACKSLASH, BACKSLASH]
    else if u == 8 then [BACKSLASH, LOWER_B]
    else if u == 9 then [BACKSLASH, LOWER_T]
    else if u == 10 then [BACKSLASH, LOWER_N]
    else if u == 12 then [BACKSLASH, LOWER_F]
    else if u == 13 then [BACKSLASH, LOWER_R]
    else if u < 32 || 0xD800 <= u < 0xE000 then [BACKSLASH, LOWER_U] + Hex4(u)
    else [u]
  }

  /** The inside of a JSON string: surrogate pairs stay as they are. */
  function QuoteBody(s: Text): Text {
    if s == [] then []
    else if IsPair(s) then [s[0], s[1]] + QuoteBody(s[2..])
    else QuoteUnit(s[0]) + QuoteBody(s[1..])
  }

  function Quote(s: Text): Text {
    [QUOTE] + QuoteBody(s) + [QUOTE]
  }

  /** A line break and the indentation of `level`, or nothing when no gap is asked for. */
  function Break(gap: nat, level: nat): Text {
    if gap == 0 then [] else [10] + seq(gap * level, _ => 32)
  }

  function Colon(gap: nat): Text {
    if gap == 0 then [COLON] else [COLON, 32]
  }

  /** `JSON.stringify(v, null, gap)` seen at nesting `level`. A foreign value has no text of its own. */
  function Stringify(v: Value, gap: nat, level: nat): Text
    decreases v
  {
    match v
    case Null => Lit("null")
    case Bool(b) => if b then Lit("true") else Lit("false")
    case Str(s) => Quote(s)
    case Num(n) => NumberText(n)
    case Arr(items) =>
      if items == [] then [LEFT_BRACKET, RIGHT_BRACKET]
      else
        [LEFT_BRACKET] + Break(gap, level + 1) +
        StringifyItems(items, gap, level + 1) + Break(gap, level) + [RIGHT_BRACKET]
    case Obj(fields) =>
      if fields == [] then [LEFT_BRACE, RIGHT_BRACE]
      else
        [LEFT_BRACE] + Break(gap, level + 1) +
        StringifyFields(fields, gap, level + 1) + Break(gap, level) + [RIGHT_BRACE]
    case Foreign => Lit("null")
  }

  function StringifyItems(items: seq<Value>, gap: nat, level: nat): Text
    requires items != []
    decreases items
  {
    Stringify(items[0], gap, level) +
    if |items| == 1 then [] else [COMMA] + Break(gap, level) + StringifyItems(items[1..], gap, level)
  }

  function StringifyFields(fields: seq<Named<Value>>, gap: nat, level: nat): Text
    requires fields != []
    decreases fields
  {
    Quote(fields[0].name) + Colon(gap) + Stringify(fields[0].item, gap, level) +
    if |fields| == 1 then [] else [COMMA] + Break(gap, level) + StringifyFields(fields[1..], gap, level)
  }

  /** What a container prints to, one step only. */
  lemma ArrayText(items: seq<Value>, gap: nat, level: nat)
    requires items != []
    ensures Stringify(Arr(items), gap, level) ==
            [LEFT_BRACKET] + Break(gap, level + 1) + StringifyItems(items, gap, level + 1) + Break(gap, level) +
            [RIGHT_BRACKET]
  {
    hide Break, StringifyItems;
  }

  lemma ObjectText(fields: seq<Named<Value>>, gap: nat, level: nat)
    requires fields != []
    ensures Stringify(Obj(fields), gap, level) ==
            [LEFT_BRACE] + Break(gap, level + 1) + StringifyFields(fields, gap, level + 1) + Break(gap, level) +
            [RIGHT_BRACE]
  {
    hide Break, StringifyFields;
  }

  lemma EmptyTexts(gap: nat, level: nat)
    ensures Stringify(Arr([]), gap, level) == [LEFT_BRACKET, RIGHT_BRACKET]
    ensures Stringify(Obj([]), gap, level) == [LEFT_BRACE, RIGHT_BRACE]
  {
  }

  lemma ScalarTexts(gap: nat, level: nat)
    ensures Stringify(Null, gap, level) == Lit("null")
    ensures forall b :: Stringify(Bool(b), gap, level) == if b then Lit("true") else Lit("false")
    ensures forall s :: Stringify(Str(s), gap, level) == Quote(s)
    ensures forall n :: Stringify(Num(n), gap, level) == NumberText(n)
  {
    hide Quote, NumberText;
  }

  // ------------------------------------------------- no surrogate is alone

  lemma QuoteUnitPlain(u: Unit)
    ensures forall i :: 0 <= i < |QuoteUnit(u)| ==> !IsHigh(QuoteUnit(u)[i]) && !IsLow(QuoteUnit(u)[i])
  {
  }

  lemma {:induction false} QuoteWellFormed(s: Text)
    ensures WellFormed(QuoteBody(s)) && WellFormed(Quote(s))
  {
    hide QuoteUnit;
    if s == [] {
    } else if IsPair(s) {
      QuoteWellFormed(s[2..]);
      WellFormedAppend([s[0], s[1]], QuoteBody(s[2..]));
    } else {
      QuoteWellFormed(s[1..]);
      QuoteUnitPlain(s[0]);
      PlainWellFormed(QuoteUnit(s[0]));
      WellFormedAppend(QuoteUnit(s[0]), QuoteBody(s[1..]));
    }
    WellFormedAppend([QUOTE], QuoteBody(s));
    WellFormedAppend([QUOTE] + QuoteBody(s), [QUOTE]);
  }

  predicate AsciiChars(s: string) {
    forall c :: c in s ==> c as int < 128
  }

  lemma LiteralWellFormed(s: string)
    requires AsciiChars(s)
    ensures WellFormed(Lit(s))
  {
    assert forall i :: 0 <= i < |s| ==> s[i] in s;
    PlainWellFormed(Lit(s));
  }

  lemma BreakWellFormed(gap: nat, level: nat)
    ensures WellFormed(Break(gap, level)) && WellFormed(Colon(gap))
  {
    PlainWellFormed(Break(gap, level));
    PlainWellFormed(Colon(gap));
  }

  lemma NumberWellFormed(n: Number)
    ensures WellFormed(NumberText(n))
  {
    hide NumberText, ReadNumber, WellFormed;
    if n.NotFinite? {
      NullText();
      LiteralWellFormed("null");
    } else {
      ReadNumberText(n);
      PlainWellFormed(NumberText(n));
    }
  }

  lemma NullText()
    ensures NumberText(NotFinite) == Lit("null")
  {
  }

  lemma Wrapped(open: Unit, before: Text, middle: Text, after: Text, close: Unit)
    requires open < 128 && close < 128 && WellFormed(before) && WellFormed(middle) && WellFormed(after)
    ensures WellFormed([open] + before + middle + after + [close])
  {
    PlainWellFormed([open]);
    PlainWellFormed([close]);
    hide WellFormed;
    WellFormedAppend([open], before);
    WellFormedAppend([open] + before, middle);
    WellFormedAppend([open] + before + middle, after);
    WellFormedAppend([open] + before + middle + after, [close]);
  }

  /** `JSON.stringify` escapes every lone surrogate, wherever it occurs. */
  lemma {:induction false} StringifyWellFormed(v: Value, gap: nat, level: nat)
    ensures WellFormed(Stringify(v, gap, level))
    decreases v
  {
    hide Quote, NumberText, Break, StringifyItems, StringifyFields;
    LiteralWellFormed("null");
    LiteralWellFormed("true");
    LiteralWellFormed("false");
    PlainWellFormed([LEFT_BRACKET, RIGHT_BRACKET]);
    PlainWellFormed([LEFT_BRACE, RIGHT_BRACE]);
    BreakWellFormed(gap, level);
    BreakWellFormed(gap, level + 1);
    hide WellFormed;
    match v
    case Str(s) => QuoteWellFormed(s);
    case Num(n) => NumberWellFormed(n);
    case Arr(items) =>
      if items != [] {
        ItemsWellFormed(items, gap, level + 1);
        Wrapped(LEFT_BRACKET, Break(gap, level + 1), StringifyItems(items, gap, level + 1), Break(gap, level),
          RIGHT_BRACKET);
      }
    case Obj(fields) =>
      if fields != [] {
        FieldsWellFormed(fields, gap, level + 1);
        Wrapped(LEFT_BRACE, Break(gap, level + 1), StringifyFields(fields, gap, level + 1), Break(gap, level),
          RIGHT_BRACE);
      }
    case _ =>
  }

  lemma Separated(first: Text, gap: nat, level: nat, rest: Text)
    requires WellFormed(first) && WellFormed(rest)
    ensures WellFormed(first + ([COMMA] + Break(gap, level) + rest))
  {
    PlainWellFormed([COMMA]);
    BreakWellFormed(gap, level);
    hide WellFormed, Break;
    WellFormedAppend([COMMA], Break(gap, level));
    WellFormedAppend([COMMA] + Break(gap, level), rest);
    WellFormedAppend(first, [COMMA] + Break(gap, level) + rest);
  }

  lemma {:induction false} ItemsWellFormed(items: seq<Value>, gap: nat, level: nat)
    requires items != []
    ensures WellFormed(StringifyItems(items, gap, level))
    decreases items
  {
    hide WellFormed, Stringify, Break;
    StringifyWellFormed(items[0], gap, level);
    var first := Stringify(items[0], gap, level);
    if |items| > 1 {
      ItemsWellFormed(items[1..], gap, level);
      Separated(first, gap, level, StringifyItems(items[1..], gap, level));
    } else {
      assert first + [] == first;
    }
  }

  lemma {:induction false} FieldsWellFormed(fields: seq<Named<Value>>, gap: nat, level: nat)
    requires fields != []
    ensures WellFormed(StringifyFields(fields, gap, level))
    decreases fields
  {
    hide WellFormed, Stringify, Break, Colon, Quote;
    QuoteWellFormed(fields[0].name);
    BreakWellFormed(gap, level);
    StringifyWellFormed(fields[0].item, gap, level);
    WellFormedAppend(Quote(fields[0].name), Colon(gap));
    var first := Quote(fields[0].name) + Colon(gap) + Stringify(fields[0].item, gap, level);
    WellFormedAppend(Quote(fields[0].name) + Colon(gap), Stringify(fields[0].item, gap, level));
    if |fields| > 1 {
      FieldsWellFormed(fields[1..], gap, level);
      Separated(first, gap, level, StringifyFields(fields[1..], gap, level));
    } else {
      assert first + [] == first;
    }
  }
}
