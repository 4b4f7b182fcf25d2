/** What `JSON.stringify` prints without indentation, token by token and unit by unit. */
module JsonText {
  import opened Strings
  import opened Utf8
  import opened Numbers
  import opened Json
  import opened Canonical

  // ---------------------------------------------------------------- tokens

  function Concat(tokens: seq<Text>): Text {
    if tokens == [] then [] else tokens[0] + Concat(tokens[1..])
  }

  /** The tokens of a value: nothing else separates them. */
  function Tokens(v: Value): seq<Text>
    decreases v
  {
    match v
    case Null => [Lit("null")]
    case Bool(b) => [if b then Lit("true") else Lit("false")]
    case Str(s) => [QuotedText(s)]
    case Num(n) => [NumberText(n)]
    case Arr(items) => [Lit("[")] + ItemTokens(items) + [Lit("]")]
    case Obj(fields) => [Lit("{")] + FieldTokens(fields) + [Lit("}")]
    case Foreign => [Lit("null")]
  }

  function ItemTokens(items: seq<Value>): seq<Text>
    decreases items
  {
    if items == [] then []
    else Tokens(items[0]) + (if |items| == 1 then [] else [Lit(",")]) + ItemTokens(items[1..])
  }

  function FieldTokens(fields: seq<Named<Value>>): seq<Text>
    decreases fields
  {
    if fields == [] then []
    else
      [QuotedText(fields[0].name), Lit(":")] + Tokens(fields[0].item) +
      (if |fields| == 1 then [] else [Lit(",")]) + FieldTokens(fields[1..])
  }

  // ---------------------------------------------------------------- strings

  /** Four hexadecimal digits in lower case. */
  function HexText(u: Unit): Text {
    var digits := Lit("0123456789abcdef");
    [digits[u / 4096], digits[u / 256 % 16], digits[u / 16 % 16], digits[u % 16]]
  }

  /** A surrogate that stands next to its other half. */
  predicate Paired(s: Text, i: nat)
    requires i < |s|
  {
    || (0xD800 <= s[i] <= 0xDBFF && i + 1 < |s| && 0xDC00 <= s[i + 1] <= 0xDFFF)
    || (0xDC00 <= s[i] <= 0xDFFF && i > 0 && 0xD800 <= s[i - 1] <= 0xDBFF)
  }

  /** What the unit at a position is printed as. */
  function UnitText(s: Text, i: nat): Text
    requires i < |s|
  {
    if s[i] == 34 then Lit("\\\"")
    else if s[i] == 92 then Lit("\\\\")
    else if s[i] == 8 then Lit("\\b")
    else if s[i] == 9 then Lit("\\t")
    else if s[i] == 10 then Lit("\\n")
    else if s[i] == 12 then Lit("\\f")
    else if s[i] == 13 then Lit("\\r")
    else if s[i] < 32 || (0xD800 <= s[i] <= 0xDFFF && !Paired(s, i)) then Lit("\\u") + HexText(s[i])
    else [s[i]]
  }

  function UnitTexts(s: Text): seq<Text> {
    seq(|s|, i requires 0 <= i < |s| => UnitText(s, i))
  }

  function QuotedText(s: Text): Text {
    Lit("\"") + Concat(UnitTexts(s)) + Lit("\"")
  }

  lemma HexTexts(u: Unit)
    ensures HexText(u) == Hex4(u)
  {
    HexDigits(u / 4096);
    HexDigits(u / 256 % 16);
    HexDigits(u / 16 % 16);
    HexDigits(u % 16);
  }

  lemma HexDigits(n: nat)
    requires n < 16
    ensures Lit("0123456789abcdef")[n] == HexDigit(n)
  {
    var s := "0123456789abcdef";
    assert s[0] == '0' && s[1] == '1' && s[2] == '2' && s[3] == '3' && s[4] == '4' && s[5] == '5' && s[6] == '6' &&
           s[7] == '7';
    assert s[8] == '8' && s[9] == '9' && s[10] == 'a' && s[11] == 'b' && s[12] == 'c' && s[13] == 'd' &&
           s[14] == 'e' && s[15] == 'f';
  }

  lemma EscapeTexts()
    ensures Lit("\\\"") == [92, 34] && Lit("\\\\") == [92, 92] && Lit("\\b") == [92, 98] && Lit("\\t") == [92, 116]
    ensures Lit("\\n") == [92, 110] && Lit("\\f") == [92, 102] && Lit("\\r") == [92, 114] && Lit("\\u") == [92, 117]
    ensures Lit("\"") == [34]
  {
  }

  /** A unit that is not part of a pair is printed on its own. */
  lemma UnitAlone(s: Text)
    requires s != [] && !Paired(s, 0)
    ensures UnitText(s, 0) == QuoteUnit(s[0])
  {
    hide Lit, HexText, Hex4;
    EscapeTexts();
    HexTexts(s[0]);
  }

  lemma PairTexts(s: Text)
    requires IsPair(s)
    ensures UnitText(s, 0) == [s[0]] && UnitText(s, 1) == [s[1]]
    ensures UnitTexts(s) == [[s[0]], [s[1]]] + UnitTexts(s[2..])
  {
    forall i | 2 <= i < |s| ensures UnitText(s, i) == UnitText(s[2..], i - 2) {
      assert s[i] == s[2..][i - 2];
      assert i + 1 < |s| ==> s[i + 1] == s[2..][i - 1];
      assert i > 2 ==> s[i - 1] == s[2..][i - 3];
      hide Lit, HexText;
    }
  }

  lemma SingleTexts(s: Text)
    requires s != [] && !IsPair(s)
    ensures !Paired(s, 0) && UnitTexts(s) == [UnitText(s, 0)] + UnitTexts(s[1..])
  {
    forall i | 1 <= i < |s| ensures UnitText(s, i) == UnitText(s[1..], i - 1) {
      assert s[i] == s[1..][i - 1];
      assert i + 1 < |s| ==> s[i + 1] == s[1..][i];
      assert i > 1 ==> s[i - 1] == s[1..][i - 2];
      hide Lit, HexText;
    }
  }

  lemma {:induction false} QuoteBodyUnits(s: Text)
    ensures QuoteBody(s) == Concat(UnitTexts(s))
  {
    hide QuoteUnit, UnitText;
    if s == [] {
    } else if IsPair(s) {
      PairTexts(s);
      QuoteBodyUnits(s[2..]);
      var texts := UnitTexts(s);
      assert texts[1..] == [[s[1]]] + UnitTexts(s[2..]) && texts[1..][1..] == UnitTexts(s[2..]);
      assert Concat(texts[1..]) == [s[1]] + Concat(UnitTexts(s[2..]));
    } else {
      SingleTexts(s);
      UnitAlone(s);
      QuoteBodyUnits(s[1..]);
      assert UnitTexts(s)[1..] == UnitTexts(s[1..]);
    }
  }

  /** Main result: in a quoted text a unit stands for itself unless it is a quote, a backslash, below 32 or a surrogate
      without its other half; those are escaped as written out above. */
  lemma QuoteExactly(s: Text)
    ensures Quote(s) == QuotedText(s)
  {
    hide QuoteBody, UnitTexts;
    QuoteBodyUnits(s);
    EscapeTexts();
  }

  // ------------------------------------------------------------- whole texts

  lemma {:induction false} ConcatAppend(a: seq<Text>, b: seq<Text>)
    ensures Concat(a + b) == Concat(a) + Concat(b)
  {
    if a == [] {
      assert a + b == b;
    } else {
      assert (a + b)[1..] == a[1..] + b;
      ConcatAppend(a[1..], b);
    }
  }

  lemma ConcatOne(t: Text)
    ensures Concat([t]) == t
  {
    assert Concat([t][1..]) == [];
  }

  lemma ConcatTwo(a: Text, b: Text)
    ensures Concat([a, b]) == a + b
  {
    assert [a, b][1..] == [b];
    ConcatOne(b);
  }

  lemma Punctuation()
    ensures Lit("[") == [91] && Lit("]") == [93] && Lit("{") == [123] && Lit("}") == [125]
    ensures Lit(",") == [44] && Lit(":") == [58]
  {
  }

  lemma Closed(open: Text, tokens: seq<Text>, close: Text)
    ensures Concat([open] + tokens + [close]) == open + Concat(tokens) + close
  {
    ConcatAppend([open] + tokens, [close]);
    ConcatAppend([open], tokens);
    ConcatOne(open);
    ConcatOne(close);
  }

  lemma NoBreaks(level: nat)
    ensures Break(0, level) == [] && Colon(0) == [58]
  {
  }

  /** Main result: the text without indentation is the concatenation of the tokens. */
  lemma {:induction false} StringifyTokens(v: Value, level: nat)
    ensures Stringify(v, 0, level) == Concat(Tokens(v))
    decreases v
  {
    hide Stringify, StringifyItems, StringifyFields, QuotedText, Quote, NumberText, Lit, Break, Colon, Concat;
    ScalarTexts(0, level);
    Punctuation();
    NoBreaks(level);
    NoBreaks(level + 1);
    match v
    case Null => ConcatOne(Lit("null"));
    case Bool(b) => ConcatOne(if b then Lit("true") else Lit("false"));
    case Str(s) =>
      QuoteExactly(s);
      ConcatOne(QuotedText(s));
    case Num(n) => ConcatOne(NumberText(n));
    case Arr(items) =>
      Closed(Lit("["), ItemTokens(items), Lit("]"));
      EmptyTexts(0, level);
      NoTokens();
      if items != [] {
        ItemsTokens(items, level + 1);
        ArrayText(items, 0, level);
      }
    case Obj(fields) =>
      Closed(Lit("{"), FieldTokens(fields), Lit("}"));
      EmptyTexts(0, level);
      NoTokens();
      if fields != [] {
        FieldsTokens(fields, level + 1);
        ObjectText(fields, 0, level);
      }
    case Foreign =>
      ForeignText(level);
      ConcatOne(Lit("null"));
  }

  lemma ForeignText(level: nat)
    ensures Stringify(Foreign, 0, level) == Lit("null")
  {
  }

  lemma NoTokens()
    ensures Concat([]) == [] && ItemTokens([]) == [] && FieldTokens([]) == []
  {
  }

  lemma {:induction false} ItemsTokens(items: seq<Value>, level: nat)
    requires items != []
    ensures StringifyItems(items, 0, level) == Concat(ItemTokens(items))
    decreases items
  {
    hide Stringify, Lit, Break, Tokens, Concat;
    StringifyTokens(items[0], level);
    NoBreaks(level);
    Punctuation();
    var first := Tokens(items[0]);
    if |items| == 1 {
      assert items[1..] == [];
      assert ItemTokens(items) == first;
    } else {
      ItemsTokens(items[1..], level);
      ConcatAppend(first + [Lit(",")], ItemTokens(items[1..]));
      ConcatAppend(first, [Lit(",")]);
      ConcatOne(Lit(","));
    }
  }

  lemma {:induction false} FieldsTokens(fields: seq<Named<Value>>, level: nat)
    requires fields != []
    ensures StringifyFields(fields, 0, level) == Concat(FieldTokens(fields))
    decreases fields
  {
    hide Stringify, Lit, Break, Colon, Tokens, Quote, QuotedText, Concat;
    StringifyTokens(fields[0].item, level);
    QuoteExactly(fields[0].name);
    NoBreaks(level);
    Punctuation();
    var name := [QuotedText(fields[0].name), Lit(":")];
    var item := Tokens(fields[0].item);
    ConcatTwo(QuotedText(fields[0].name), Lit(":"));
    ConcatAppend(name, item);
    if |fields| == 1 {
      assert fields[1..] == [];
      assert FieldTokens(fields) == name + item;
    } else {
      FieldsTokens(fields[1..], level);
      ConcatAppend(name + item + [Lit(",")], FieldTokens(fields[1..]));
      ConcatAppend(name + item, [Lit(",")]);
      ConcatOne(Lit(","));
    }
  }

  /** Main result: the canonical text of an accepted value is the concatenation of the tokens of that value with its
      names in canonical order. */
  lemma CanonicalTokens(v: Value)
    requires CanonicalText(v).Some?
    ensures CanonicalText(v).value == Concat(Tokens(Arrange(v)))
  {
    hide Stringify, Tokens, Arrange, Within, Encode;
    StringifyTokens(Arrange(v), 0);
  }

  /** The text of a value without indentation. */
  function Compact(v: Value): Text {
    Concat(Tokens(v))
  }

  function FieldParts(fields: seq<Named<Value>>): seq<Text> {
    seq(|fields|, i requires 0 <= i < |fields| => QuotedText(fields[i].name) + Lit(":") + Compact(fields[i].item))
  }

  function ItemParts(items: seq<Value>): seq<Text> {
    seq(|items|, i requires 0 <= i < |items| => Compact(items[i]))
  }

  lemma {:induction false} FieldTokensJoin(fields: seq<Named<Value>>)
    ensures Concat(FieldTokens(fields)) == Join(FieldParts(fields), COMMA)
  {
    hide Tokens, QuotedText, Lit, Concat;
    NoTokens();
    Punctuation();
    if fields != [] {
      var name := [QuotedText(fields[0].name), Lit(":")];
      var item, rest := Tokens(fields[0].item), fields[1..];
      ConcatTwo(QuotedText(fields[0].name), Lit(":"));
      ConcatAppend(name, item);
      var part := FieldParts(fields)[0];
      assert FieldParts(fields)[1..] == FieldParts(rest);
      FieldTokensJoin(rest);
      if rest == [] {
        assert FieldTokens(fields) == name + item;
      } else {
        ConcatAppend(name + item + [Lit(",")], FieldTokens(rest));
        ConcatAppend(name + item, [Lit(",")]);
        ConcatOne(Lit(","));
      }
    }
  }

  lemma {:induction false} ItemTokensJoin(items: seq<Value>)
    ensures Concat(ItemTokens(items)) == Join(ItemParts(items), COMMA)
  {
    hide Tokens, Lit, Concat;
    NoTokens();
    Punctuation();
    if items != [] {
      var first, rest := Tokens(items[0]), items[1..];
      assert ItemParts(items)[1..] == ItemParts(rest) && ItemParts(items)[0] == Concat(first);
      ItemTokensJoin(rest);
      if rest == [] {
        assert ItemTokens(items) == first;
      } else {
        ConcatAppend(first + [Lit(",")], ItemTokens(rest));
        ConcatAppend(first, [Lit(",")]);
        ConcatOne(Lit(","));
      }
    }
  }

  /** An object is its quoted names with colons and items, between commas and braces. */
  lemma CompactObject(fields: seq<Named<Value>>)
    ensures Compact(Obj(fields)) == Lit("{") + Join(FieldParts(fields), COMMA) + Lit("}")
  {
    hide FieldTokens, Lit, FieldParts, Concat;
    FieldTokensJoin(fields);
    Closed(Lit("{"), FieldTokens(fields), Lit("}"));
  }

  lemma CompactArray(items: seq<Value>)
    ensures Compact(Arr(items)) == Lit("[") + Join(ItemParts(items), COMMA) + Lit("]")
  {
    hide ItemTokens, Lit, ItemParts, Concat;
    ItemTokensJoin(items);
    Closed(Lit("["), ItemTokens(items), Lit("]"));
  }

  lemma CompactScalars(s: Text, n: Number)
    ensures Compact(Str(s)) == QuotedText(s) && Compact(Num(n)) == NumberText(n)
  {
    hide QuotedText, NumberText;
    ConcatOne(QuotedText(s));
    ConcatOne(NumberText(n));
  }

  // ---------------------------------------------------------------- numbers

  /** Main result: a whole number of less than twenty-two digits prints as its numeral, with a minus sign if
      negative. */
  lemma WholeText(n: int)
    requires -1_000_000_000_000_000_000_000 < n < 1_000_000_000_000_000_000_000
    ensures NumberText(Whole(n)) == if n < 0 then [45] + Decimal(-n) else Decimal(n)
  {
    hide Decimal, ExponentText, DropEnd;
    TwentyOne();
    DecimalLength(if n < 0 then -n else n, 21);
  }

  lemma TwentyOne()
    ensures Power10(21) == 1_000_000_000_000_000_000_000
  {
    assert Power10(7) == 10_000_000 by {
      assert Power10(3) == 10 * Power10(2) && Power10(2) == 10 * Power10(1) && Power10(1) == 10 * Power10(0);
      assert Power10(7) == 10 * Power10(6) && Power10(6) == 10 * Power10(5) && Power10(5) == 10 * Power10(4);
      assert Power10(4) == 10 * Power10(3);
    }
    PowerProduct(7, 7);
    PowerProduct(7, 14);
  }

  lemma {:induction false} PowerProduct(a: nat, b: nat)
    ensures Power10(a + b) == Power10(a) * Power10(b)
  {
    if a > 0 {
      PowerProduct(a - 1, b);
    }
  }

  /** One digit before the point, the others behind it, and where the point belongs. */
  function Scientific(digits: Text, sign: Text, exponent: nat): Text
    requires digits != []
  {
    digits[..1] + (if |digits| == 1 then [] else Lit(".") + digits[1..]) + sign + Decimal(exponent)
  }

  lemma ScientificText(digits: Digits, point: int)
    requires digits != []
    ensures point >= 1 ==> ExponentText(digits, point) == Scientific(digits, Lit("e+"), point - 1)
    ensures point <= 0 ==> ExponentText(digits, point) == Scientific(digits, Lit("e-"), 1 - point)
  {
    hide Decimal;
    assert Lit("e+") == [101, 43] && Lit("e-") == [101, 45] && Lit(".") == [46];
    var before := digits[..1] + (if |digits| == 1 then [] else [46] + digits[1..]);
    if point >= 1 {
      assert before + [LOWER_E] + ([PLUS] + Decimal(point - 1)) == before + [101, 43] + Decimal(point - 1);
    } else {
      assert before + [LOWER_E] + ([MINUS] + Decimal(1 - point)) == before + [101, 45] + Decimal(1 - point);
    }
  }

  lemma SignedText(negative: bool, t: Text)
    ensures Signed(negative, t) == (if negative then [45] else []) + t
  {
    assert [] + t == t;
  }

  /** Main result: a fraction prints with the point among its digits, before them and up to five zeros, or in scientific
      form. */
  lemma FractionTexts(d: FractionValue)
    ensures var sign: Text, k := if d.negative then [45] else [], d.point;
            && (1 <= k <= 21 ==> NumberText(Fraction(d)) == sign + (d.digits[..k] + Lit(".") + d.digits[k..]))
            && (-5 <= k <= 0 ==> NumberText(Fraction(d)) == sign + (Lit("0.") + seq(-k, _ => 48) + d.digits))
            && (k >= 22 ==> NumberText(Fraction(d)) == sign + Scientific(d.digits, Lit("e+"), k - 1))
            && (k <= -6 ==> NumberText(Fraction(d)) == sign + Scientific(d.digits, Lit("e-"), 1 - k))
  {
    hide ExponentText, Scientific, Signed;
    assert Lit("0.") == [48, 46] && Lit(".") == [46];
    SignedText(d.negative, FractionDigits(d.digits, d.point));
    ScientificText(d.digits, d.point);
    if -5 <= d.point <= 0 {
      assert Zeros(-d.point) == seq(-d.point, _ => 48);
    }
  }

  /** From twenty-two digits on a whole number prints in scientific form, without the zeros at its end. */
  lemma LargeWholeText(n: nat, digits: Digits, zeros: nat, negative: bool)
    requires n >= 1_000_000_000_000_000_000_000
    requires Decimal(n) == digits + seq(zeros, _ => 48) && digits != [] && digits[|digits| - 1] != 48
    ensures NumberText(Whole(if negative then 0 - n else n)) ==
            (if negative then [45] else []) + Scientific(digits, Lit("e+"), |digits| + zeros - 1)
  {
    hide Decimal, ExponentText, Scientific, Signed, DropEnd;
    TwentyOne();
    LongNumeral(n, 21);
    assert seq(zeros, _ => 48) == Zeros(zeros);
    EndZeros(digits, zeros);
    EndKeptDigits(digits);
    ScientificText(digits, |digits| + zeros);
    SignedText(negative, WholeDigits(n));
  }

  lemma EndKeptDigits(digits: Digits)
    requires digits != [] && digits[|digits| - 1] != ZERO
    ensures DropEnd(digits) == digits
  {
  }

  lemma {:induction false} LongNumeral(n: nat, k: nat)
    requires n >= Power10(k)
    ensures |Decimal(n)| > k
    decreases k
  {
    if k > 0 {
      assert n / 10 >= Power10(k - 1);
      LongNumeral(n / 10, k - 1);
      PowerPositive(k - 1);
    }
  }

  lemma {:induction false} PowerPositive(k: nat)
    ensures Power10(k) >= 1
  {
    if k > 0 {
      PowerPositive(k - 1);
    }
  }
}
