/** How many bytes a printed value takes. */
module PrintedSize {
  import opened Strings
  import opened Numbers
  import opened Json
  import Utf8
  import opened Canonical

  // ----------------------------------------------------------- plain texts

  /** Units that JSON prints as they are, one byte each. */
  predicate PlainUnit(u: Unit) {
    32 <= u < 127 && u != QUOTE && u != BACKSLASH
  }

  predicate Plain(t: Text) {
    forall i :: 0 <= i < |t| ==> PlainUnit(t[i])
  }

  predicate Ascii(t: Text) {
    forall i :: 0 <= i < |t| ==> t[i] < 128
  }

  lemma {:induction false} PlainQuotes(t: Text)
    requires Plain(t)
    ensures QuoteBody(t) == t && Ascii(Quote(t)) && |Quote(t)| == |t| + 2
  {
    if t != [] {
      PlainQuotes(t[1..]);
      assert t == [t[0]] + t[1..];
    }
  }

  lemma AsciiBytes(t: Text)
    requires Ascii(t)
    ensures |Utf8.Encode(t)| == |t|
  {
    Utf8.EncodeAscii(t);
  }

  lemma PowerStep(k: nat)
    ensures Power10(k + 4) == 10_000 * Power10(k)
  {
    assert Power10(k + 4) == 10 * Power10(k + 3) && Power10(k + 3) == 10 * Power10(k + 2);
    assert Power10(k + 2) == 10 * Power10(k + 1) && Power10(k + 1) == 10 * Power10(k);
  }

  lemma SafeIntegerText(n: int)
    requires 0 < n <= MAX_SAFE
    ensures |NumberText(Whole(n))| <= 16 && Ascii(NumberText(Whole(n)))
  {
    PowerStep(0);
    PowerStep(4);
    PowerStep(8);
    PowerStep(12);
    DecimalLength(n, 16);
  }

  // ---------------------------------------------------------- printed sizes

  /** The item printed with a gap is ASCII and no longer than `most`. */
  ghost predicate Fits(v: Value, gap: nat, level: nat, most: nat) {
    Ascii(Stringify(v, gap, level)) && |Stringify(v, gap, level)| <= most
  }

  const LONGEST_KEY := 13

  ghost predicate FieldFits(field: Named<Value>, gap: nat, level: nat, most: nat) {
    Plain(field.name) && |field.name| <= LONGEST_KEY && Fits(field.item, gap, level, most)
  }

  ghost predicate AllFit(fields: seq<Named<Value>>, gap: nat, level: nat, most: nat) {
    forall i :: 0 <= i < |fields| ==> FieldFits(fields[i], gap, level, most)
  }

  /** One field, with what separates it from the next. */
  function FieldRoom(level: nat, most: nat): nat {
    LONGEST_KEY + 2 + 2 + most + 1 + (1 + 2 * level)
  }

  function ObjectRoom(count: nat, level: nat, most: nat): nat {
    count * FieldRoom(level + 1, most) + 7 + 4 * level
  }

  lemma BreakFits(gap: nat, level: nat)
    requires gap <= 2
    ensures Ascii(Break(gap, level)) && |Break(gap, level)| <= 1 + 2 * level
    ensures Ascii(Colon(gap)) && |Colon(gap)| <= 2
  {
    assert gap == 0 || gap == 1 || gap == 2;
  }

  lemma AsciiJoin(a: Text, b: Text)
    requires Ascii(a) && Ascii(b)
    ensures Ascii(a + b)
  {
  }

  lemma PrintedFieldFits(field: Named<Value>, gap: nat, level: nat, most: nat)
    requires gap <= 2 && FieldFits(field, gap, level, most)
    ensures var t := Quote(field.name) + Colon(gap) + Stringify(field.item, gap, level);
            Ascii(t) && |t| + 1 + |Break(gap, level)| <= FieldRoom(level, most)
  {
    hide Stringify, Quote, Break, Colon, Ascii, Plain;
    PlainQuotes(field.name);
    BreakFits(gap, level);
    AsciiJoin(Quote(field.name), Colon(gap));
    AsciiJoin(Quote(field.name) + Colon(gap), Stringify(field.item, gap, level));
  }

  lemma OneMore(n: nat, room: nat)
    requires n >= 1
    ensures n * room == (n - 1) * room + room
  {
  }

  lemma {:induction false} FieldsFit(fields: seq<Named<Value>>, gap: nat, level: nat, most: nat)
    requires gap <= 2 && fields != []
    requires AllFit(fields, gap, level, most)
    ensures var t := StringifyFields(fields, gap, level); Ascii(t) && |t| <= |fields| * FieldRoom(level, most)
    decreases |fields|
  {
    hide Stringify, Quote, Break, Colon, Ascii, FieldFits, FieldRoom;
    assert forall i :: 0 <= i < |fields[1..]| ==> fields[1..][i] == fields[i + 1];
    PrintedFieldFits(fields[0], gap, level, most);
    OneMore(|fields|, FieldRoom(level, most));
    var first := Quote(fields[0].name) + Colon(gap) + Stringify(fields[0].item, gap, level);
    if |fields| > 1 {
      var rest := StringifyFields(fields[1..], gap, level);
      FieldsFit(fields[1..], gap, level, most);
      BreakFits(gap, level);
      CommaAscii(Break(gap, level), rest);
      AsciiJoin(first, [COMMA] + Break(gap, level) + rest);
    } else {
      assert first + [] == first;
    }
  }

  lemma CommaAscii(a: Text, b: Text)
    requires Ascii(a) && Ascii(b)
    ensures Ascii([COMMA] + a + b)
  {
  }

  lemma ObjectFits(fields: seq<Named<Value>>, gap: nat, level: nat, most: nat)
    requires gap <= 2 && fields != []
    requires AllFit(fields, gap, level + 1, most)
    ensures Fits(Obj(fields), gap, level, ObjectRoom(|fields|, level, most))
  {
    hide StringifyFields, Break, FieldFits;
    FieldsFit(fields, gap, level + 1, most);
    BreakFits(gap, level);
    BreakFits(gap, level + 1);
    var t := StringifyFields(fields, gap, level + 1);
    assert Stringify(Obj(fields), gap, level) ==
           [LEFT_BRACE] + Break(gap, level + 1) + t + Break(gap, level) + [RIGHT_BRACE];
  }

  /** The same object with its names in canonical order. */
  lemma ArrangedFits(fields: seq<Named<Value>>, gap: nat, level: nat, most: nat)
    requires gap <= 2 && fields != []
    requires AllFit(ArrangeItems(fields), gap, level + 1, most)
    ensures Fits(Arrange(Obj(fields)), gap, level, ObjectRoom(|fields|, level, most))
  {
    hide FieldOrder, FieldFits, Fits, FieldRoom;
    var arranged := ArrangeItems(fields);
    var ordered := FieldOrder(arranged);
    FieldOrderPermutes(arranged);
    assert Arrange(Obj(fields)) == Obj(ordered);
    forall i | 0 <= i < |ordered| ensures FieldFits(ordered[i], gap, level + 1, most) {
      assert ordered[i] in arranged;
    }
    ObjectFits(ordered, gap, level, most);
  }

  lemma TextFits(t: Text, gap: nat, level: nat, most: nat)
    requires Plain(t) && |t| + 2 <= most
    ensures Fits(Str(t), gap, level, most)
  {
    PlainQuotes(t);
  }

  lemma NumberFits(n: int, gap: nat, level: nat, most: nat)
    requires 0 < n <= MAX_SAFE && 16 <= most
    ensures Fits(Num(Whole(n)), gap, level, most)
  {
    SafeIntegerText(n);
  }

  lemma EmptyFits(gap: nat, level: nat, most: nat)
    requires most >= 2
    ensures Fits(Arr([]), gap, level, most)
  {
  }

  lemma PairText(a: Value, b: Value, gap: nat)
    ensures Stringify(Arr([a, b]), gap, 1) ==
            [LEFT_BRACKET] + Break(gap, 2) + StringifyPair(a, b, gap) + Break(gap, 1) + [RIGHT_BRACKET]
  {
    hide Break, Stringify;
    assert [a, b][1..] == [b];
    assert StringifyItems([b], gap, 2) == Stringify(b, gap, 2);
    assert StringifyItems([a, b], gap, 2) == StringifyPair(a, b, gap);
    ArrayText([a, b], gap, 1);
  }

  function StringifyPair(a: Value, b: Value, gap: nat): Text {
    Stringify(a, gap, 2) + ([COMMA] + Break(gap, 2) + Stringify(b, gap, 2))
  }

  lemma PairFits(a: Value, b: Value, gap: nat, most: nat)
    requires gap <= 2 && Fits(a, gap, 2, most) && Fits(b, gap, 2, most)
    ensures Fits(Arr([a, b]), gap, 1, 2 * most + 16)
  {
    hide Break, Stringify;
    BreakFits(gap, 1);
    BreakFits(gap, 2);
    PairText(a, b, gap);
  }

  predicate PlainChars(s: string) {
    forall c :: c in s ==> 32 <= c as int < 127 && c != '"' && c != '\\'
  }

  lemma PlainLiteral(s: string)
    requires PlainChars(s)
    ensures Plain(Lit(s))
  {
    forall i | 0 <= i < |s| ensures PlainUnit(Lit(s)[i]) {
      assert s[i] in s;
    }
  }

  predicate GoodKey(key: Text) {
    Plain(key) && |key| <= LONGEST_KEY
  }

  lemma FitsMore(v: Value, gap: nat, level: nat, less: nat, most: nat)
    requires Fits(v, gap, level, less) && less <= most
    ensures Fits(v, gap, level, most)
  {
  }

  /** The items of an array, without a gap. */
  lemma {:induction false} ItemsFit(items: seq<Value>, level: nat, most: nat)
    requires items != [] && AllItemsFit(items, level, most)
    ensures var t := StringifyItems(items, 0, level); Ascii(t) && |t| <= |items| * (most + 1)
    decreases |items|
  {
    hide Stringify, Ascii;
    var first := Stringify(items[0], 0, level);
    OneMore(|items|, most + 1);
    if |items| > 1 {
      var rest := StringifyItems(items[1..], 0, level);
      ItemsFit(items[1..], level, most);
      CommaAscii([], rest);
      assert [COMMA] + [] + rest == [COMMA] + rest;
      AsciiJoin(first, [COMMA] + rest);
    } else {
      assert first + [] == first;
    }
  }

  ghost predicate AllItemsFit(items: seq<Value>, level: nat, most: nat) {
    forall i :: 0 <= i < |items| ==> Fits(items[i], 0, level, most)
  }

  function ListRoom(count: nat, most: nat): nat {
    count * (most + 1) + 2
  }

  lemma ListFits(items: seq<Value>, level: nat, most: nat)
    requires AllItemsFit(items, level + 1, most)
    ensures Fits(Arr(items), 0, level, ListRoom(|items|, most))
  {
    hide StringifyItems, Stringify;
    if items == [] {
      EmptyFits(0, level, ListRoom(0, most));
    } else {
      ItemsFit(items, level + 1, most);
      ArrayText(items, 0, level);
    }
  }

  // -------------------------------------------------------- counted values

  predicate EachSizeAtMost(fields: seq<Named<Value>>, most: nat) {
    forall i :: 0 <= i < |fields| ==> Size(fields[i].item) <= most
  }

  lemma {:induction false} SizeFieldsAtMost(fields: seq<Named<Value>>, most: nat)
    requires EachSizeAtMost(fields, most)
    ensures SizeFields(fields) <= |fields| * most
  {
    hide Size;
    if fields != [] {
      assert forall i :: 0 <= i < |fields[1..]| ==> fields[1..][i] == fields[i + 1];
      SizeFieldsAtMost(fields[1..], most);
      OneMore(|fields|, most);
    }
  }

  lemma {:induction false} SizeItemsAtMost(items: seq<Value>, most: nat)
    requires forall i :: 0 <= i < |items| ==> Size(items[i]) <= most
    ensures SizeItems(items) <= |items| * most
  {
    hide Size;
    if items != [] {
      SizeItemsAtMost(items[1..], most);
      OneMore(|items|, most);
    }
  }
}
