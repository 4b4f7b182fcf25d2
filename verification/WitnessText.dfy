/** The lines of the printed witness. */
module WitnessText {
  import opened Strings
  import opened Numbers
  import opened Json
  import opened JsonText
  import opened Timestamp
  import opened Witness
  import opened PrintedSize
  import opened WitnessSize
  import opened WitnessFile
  import opened RulesetText

  // ------------------------------------------------------------------ layout

  /** Two spaces for every level. */
  function Indented(level: nat): Text {
    seq(2 * level, _ => 32)
  }

  /** The parts, each on a line of its own, with commas at the ends of all but the last. */
  function LinesOf(parts: seq<Text>, level: nat): Text {
    if parts == [] then []
    else Lit("\n") + Indented(level) + parts[0] + (if |parts| == 1 then [] else Lit(",")) + LinesOf(parts[1..], level)
  }

  function Block(open: string, parts: seq<Text>, close: string, level: nat): Text {
    Lit(open) + LinesOf(parts, level + 1) + Lit("\n") + Indented(level) + Lit(close)
  }

  function PrettyFields(fields: seq<Named<Value>>, level: nat): seq<Text> {
    seq(|fields|, i requires 0 <= i < |fields| => QuotedText(fields[i].name) + Lit(": ") +
      Stringify(fields[i].item, 2, level))
  }

  function PrettyItems(items: seq<Value>, level: nat): seq<Text> {
    seq(|items|, i requires 0 <= i < |items| => Stringify(items[i], 2, level))
  }

  lemma LayoutTexts(level: nat)
    ensures Break(2, level) == Lit("\n") + Indented(level) && Colon(2) == Lit(": ")
    ensures Lit(",") == [COMMA] && Lit("{") == [LEFT_BRACE] && Lit("}") == [RIGHT_BRACE]
    ensures Lit("[") == [LEFT_BRACKET] && Lit("]") == [RIGHT_BRACKET]
  {
    assert Lit("\n") == [10] && Lit(": ") == [58, 32];
  }

  lemma {:induction false} FieldLines(fields: seq<Named<Value>>, level: nat)
    requires fields != []
    ensures Break(2, level) + StringifyFields(fields, 2, level) == LinesOf(PrettyFields(fields, level), level)
    decreases |fields|
  {
    hide Stringify, QuotedText, Quote, Lit, Indented, Break, Colon;
    LayoutTexts(level);
    QuoteExactly(fields[0].name);
    var parts := PrettyFields(fields, level);
    assert parts[0] == QuotedText(fields[0].name) + Lit(": ") + Stringify(fields[0].item, 2, level);
    assert parts[1..] == PrettyFields(fields[1..], level);
    if |fields| > 1 {
      FieldLines(fields[1..], level);
      FieldsStep(fields, level);
    } else {
      FieldsEnd(fields, level);
      LinesEnd(parts, level);
    }
  }

  lemma FieldsStep(fields: seq<Named<Value>>, level: nat)
    requires |fields| > 1
    ensures StringifyFields(fields, 2, level) ==
            Quote(fields[0].name) + Colon(2) + Stringify(fields[0].item, 2, level) + [COMMA] +
            (Break(2, level) + StringifyFields(fields[1..], 2, level))
  {
    hide Stringify, Quote, Break, Colon;
  }

  lemma FieldsEnd(fields: seq<Named<Value>>, level: nat)
    requires |fields| == 1
    ensures StringifyFields(fields, 2, level) == Quote(fields[0].name) + Colon(2) + Stringify(fields[0].item, 2, level)
  {
    hide Stringify, Quote, Break, Colon;
  }

  lemma LinesEnd(parts: seq<Text>, level: nat)
    requires |parts| == 1
    ensures LinesOf(parts, level) == Lit("\n") + Indented(level) + parts[0]
  {
    hide Lit, Indented;
    assert LinesOf(parts[1..], level) == [];
  }

  lemma {:induction false} ItemLines(items: seq<Value>, level: nat)
    requires items != []
    ensures Break(2, level) + StringifyItems(items, 2, level) == LinesOf(PrettyItems(items, level), level)
    decreases |items|
  {
    hide Stringify, Lit, Indented, Break;
    LayoutTexts(level);
    var parts := PrettyItems(items, level);
    assert parts[1..] == PrettyItems(items[1..], level);
    if |items| > 1 {
      ItemLines(items[1..], level);
      assert StringifyItems(items, 2, level) ==
             Stringify(items[0], 2, level) + [COMMA] + (Break(2, level) + StringifyItems(items[1..], 2, level));
    } else {
      LinesEnd(parts, level);
    }
  }

  /** Main result: an object is printed with one line for each field, and an array with one for each item; the lines
      of what is inside are indented by two more spaces. */
  lemma PrettyObject(fields: seq<Named<Value>>, level: nat)
    requires fields != []
    ensures Stringify(Obj(fields), 2, level) == Block("{", PrettyFields(fields, level + 1), "}", level)
  {
    hide StringifyFields, Lit, Indented, Break, PrettyFields, LinesOf;
    LayoutTexts(level);
    FieldLines(fields, level + 1);
    ObjectText(fields, 2, level);
  }

  lemma PrettyArray(items: seq<Value>, level: nat)
    requires items != []
    ensures Stringify(Arr(items), 2, level) == Block("[", PrettyItems(items, level + 1), "]", level)
  {
    hide StringifyItems, Lit, Indented, Break, PrettyItems, LinesOf;
    LayoutTexts(level);
    ItemLines(items, level + 1);
    ArrayText(items, 2, level);
  }

  // --------------------------------------------------------------- the witness

  function LineText(name: string, item: Text): Text {
    InQuotes(Lit(name)) + Lit(": ") + item
  }

  function RuleLines(r: Rule): Text
    requires 0 < r.id
  {
    Block("{",
          [LineText("id", Decimal(r.id)), LineText("target", InQuotes(r.target)),
           LineText("createdAt", InQuotes(r.createdAt)), LineText("updatedAt", InQuotes(r.updatedAt)),
           LineText("publicSha256", InQuotes(r.publicSha256)), LineText("bypassActors", Lit("[]"))],
          "}", 2)
  }

  function WitnessLines(w: Record): Text
    requires 0 < w.repositoryId && 0 < w.ownerId && 0 < w.environmentId && |w.rulesets| == 2
    requires 0 < w.rulesets[0].id && 0 < w.rulesets[1].id
  {
    Block("{",
          [LineText("schemaVersion", Lit("1")), LineText("repository", InQuotes(w.repository)),
           LineText("repositoryId", Decimal(w.repositoryId)), LineText("ownerId", Decimal(w.ownerId)),
           LineText("environmentId", Decimal(w.environmentId)), LineText("observedAt", InQuotes(w.observedAt)),
           LineText("rulesets", Block("[", [RuleLines(w.rulesets[0]), RuleLines(w.rulesets[1])], "]", 1))],
          "}", 0) + Lit("\n")
  }

  lemma LineOf(name: string, item: Value, level: nat, text: Text)
    requires PlainChars(name) && Stringify(item, 2, level) == text
    ensures QuotedText(Lit(name)) + Lit(": ") + Stringify(item, 2, level) == LineText(name, text)
  {
    hide QuotedText, Stringify;
    PlainLiteral(name);
    PlainQuoted(Lit(name));
  }

  lemma TextItem(t: Text, level: nat)
    requires Plain(t)
    ensures Stringify(Str(t), 2, level) == InQuotes(t)
  {
    hide QuotedText, Quote, Stringify, Plain, InQuotes;
    ScalarTexts(2, level);
    QuoteExactly(t);
    PlainQuoted(t);
  }

  lemma NumberItem(n: nat, level: nat)
    requires n <= 9007199254740991
    ensures Stringify(Num(Whole(n)), 2, level) == Decimal(n)
  {
    hide Stringify, NumberText, Decimal;
    ScalarTexts(2, level);
    WholeText(n);
  }

  lemma NoItems(level: nat)
    ensures Stringify(Arr([]), 2, level) == Lit("[]")
  {
    EmptyTexts(2, level);
    hide Stringify;
    Brackets();
  }

  lemma RuleText(r: Rule, observedAt: Text)
    requires Settled(observedAt) && ValidRule(r, observedAt)
    ensures Stringify(RuleValue(r), 2, 2) == RuleLines(r)
  {
    hide Stringify, QuotedText, Lit, InQuotes, LineText, Decimal, Plain, Normalise, InstantOf, IsSha256, LinesOf;
    PlainTarget(r.target);
    SettledText(r.createdAt);
    SettledText(r.updatedAt);
    PlainSha(r.publicSha256);
    NumberItem(r.id, 3);
    TextItem(r.target, 3);
    TextItem(r.createdAt, 3);
    TextItem(r.updatedAt, 3);
    TextItem(r.publicSha256, 3);
    NoItems(3);
    var fields := RuleValue(r).fields;
    LineOf("id", fields[0].item, 3, Decimal(r.id));
    LineOf("target", fields[1].item, 3, InQuotes(r.target));
    LineOf("createdAt", fields[2].item, 3, InQuotes(r.createdAt));
    LineOf("updatedAt", fields[3].item, 3, InQuotes(r.updatedAt));
    LineOf("publicSha256", fields[4].item, 3, InQuotes(r.publicSha256));
    LineOf("bypassActors", fields[5].item, 3, Lit("[]"));
    PrettyObject(fields, 2);
    assert PrettyFields(fields, 3) ==
           [LineText("id", Decimal(r.id)), LineText("target", InQuotes(r.target)),
            LineText("createdAt", InQuotes(r.createdAt)), LineText("updatedAt", InQuotes(r.updatedAt)),
            LineText("publicSha256", InQuotes(r.publicSha256)), LineText("bypassActors", Lit("[]"))];
  }

  lemma RulesText(w: Record)
    requires ValidRecord(w)
    ensures 0 < w.rulesets[0].id && 0 < w.rulesets[1].id
    ensures Stringify(Arr(RuleValues(w.rulesets)), 2, 1) ==
            Block("[", [RuleLines(w.rulesets[0]), RuleLines(w.rulesets[1])], "]", 1)
  {
    hide Stringify, RuleValue, RuleLines, RepositoryName, Settled, LinesOf, Normalise, InstantOf;
    RuleText(w.rulesets[0], w.observedAt);
    RuleText(w.rulesets[1], w.observedAt);
    PrettyArray(RuleValues(w.rulesets), 1);
    assert PrettyItems(RuleValues(w.rulesets), 2) == [RuleLines(w.rulesets[0]), RuleLines(w.rulesets[1])];
  }

  /** Main result: the printed witness, line by line. */
  lemma PrintedWitness(w: Record)
    requires ValidRecord(w)
    ensures 0 < w.repositoryId && 0 < w.ownerId && 0 < w.environmentId && |w.rulesets| == 2
    ensures 0 < w.rulesets[0].id && 0 < w.rulesets[1].id
    ensures FileText(RecordValue(w)) == WitnessLines(w)
  {
    hide Stringify, QuotedText, Lit, InQuotes, LineText, Decimal, Plain, RuleValue, RuleLines, ValidRule,
         RepositoryName,
         Normalise, InstantOf, LinesOf;
    RulesText(w);
    RepositoryNamePlain(w.repository);
    SettledText(w.observedAt);
    OneText();
    NumberItem(1, 1);
    TextItem(w.repository, 1);
    NumberItem(w.repositoryId, 1);
    NumberItem(w.ownerId, 1);
    NumberItem(w.environmentId, 1);
    TextItem(w.observedAt, 1);
    var fields := RecordValue(w).fields;
    var rules := Block("[", [RuleLines(w.rulesets[0]), RuleLines(w.rulesets[1])], "]", 1);
    assert fields[6].item == Arr(RuleValues(w.rulesets));
    LineOf("schemaVersion", fields[0].item, 1, Lit("1"));
    LineOf("repository", fields[1].item, 1, InQuotes(w.repository));
    LineOf("repositoryId", fields[2].item, 1, Decimal(w.repositoryId));
    LineOf("ownerId", fields[3].item, 1, Decimal(w.ownerId));
    LineOf("environmentId", fields[4].item, 1, Decimal(w.environmentId));
    LineOf("observedAt", fields[5].item, 1, InQuotes(w.observedAt));
    LineOf("rulesets", fields[6].item, 1, rules);
    PrettyObject(fields, 0);
    assert PrettyFields(fields, 1) ==
           [LineText("schemaVersion", Lit("1")), LineText("repository", InQuotes(w.repository)),
            LineText("repositoryId", Decimal(w.repositoryId)), LineText("ownerId", Decimal(w.ownerId)),
            LineText("environmentId", Decimal(w.environmentId)), LineText("observedAt", InQuotes(w.observedAt)),
            LineText("rulesets", rules)];
  }

  lemma OneText()
    ensures Decimal(1) == Lit("1") && Lit("\n") == [10]
  {
  }
}
