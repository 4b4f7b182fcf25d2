/** Rulesets in plain words: which are accepted, and the very text that is hashed for them. */
module RulesetText {
  import opened Strings
  import opened Ordering
  import Utf8
  import opened Numbers
  import opened Json
  import opened Canonical
  import opened JsonText
  import opened Witness
  import opened WitnessShape
  import opened PrintedSize
  import opened WitnessSize

  // ------------------------------------------------------- accepted rulesets

  predicate Alphanumeric(u: Unit) {
    48 <= u <= 57 || 65 <= u <= 90 || 97 <= u <= 122
  }

  /** Up to 39 letters, digits and hyphens that do not start with a hyphen. */
  predicate OwnerInFull(t: Text) {
    1 <= |t| <= 39 && Alphanumeric(t[0]) && forall i :: 0 <= i < |t| ==> Alphanumeric(t[i]) || t[i] == 45
  }

  /** Up to 100 letters, digits, hyphens, dots and underscores. */
  predicate ProjectInFull(t: Text) {
    1 <= |t| <= 100 && forall i :: 0 <= i < |t| ==> Alphanumeric(t[i]) || t[i] == 45 || t[i] == 46 || t[i] == 95
  }

  ghost predicate RepositoryInFull(v: Value) {
    v.Str? && exists owner, project :: OwnerInFull(owner) && ProjectInFull(project) && v.s == owner + Lit("/") + project
  }

  ghost predicate PositiveInFull(v: Value) {
    exists n: int :: 1 <= n <= 9007199254740991 && v == Num(Whole(n))
  }

  function ConditionsOn(reference: Text): Value {
    Obj([Named(Lit("ref_name"), Obj([Named(Lit("include"), Arr([Str(reference)])), Named(Lit("exclude"), Arr([]))]))])
  }

  lemma OwnerUnits(t: Text)
    ensures OwnerName(t) <==> OwnerInFull(t)
    ensures ProjectName(t) <==> ProjectInFull(t)
  {
  }

  lemma RepositoryExactly(v: Value)
    ensures RepositoryName(v) <==> RepositoryInFull(v)
  {
    hide OwnerName, ProjectName, OwnerInFull, ProjectInFull, Split;
    assert Lit("/") == [SLASH];
    if v.Str? {
      RepositoryNameExact(v.s);
      forall t ensures (OwnerName(t) <==> OwnerInFull(t)) && (ProjectName(t) <==> ProjectInFull(t)) {
        OwnerUnits(t);
      }
    }
  }

  lemma PositiveExactly(v: Value)
    ensures Positive(v) <==> PositiveInFull(v)
  {
    if Positive(v) {
      assert v == Num(Whole(v.n.n));
    }
  }

  /** Main result: the rulesets that pass, by their names, values and references written out. */
  lemma RulesetInFull(raw: Value, repository: Value)
    requires Distinct(raw)
    ensures ExactReferences(raw, repository) <==>
            && RepositoryInFull(repository) && PositiveInFull(Get(raw, Lit("id")))
            && Get(raw, Lit("source_type")) == Str(Lit("Repository")) && Get(raw, Lit("source")) == repository
            && Get(raw, Lit("enforcement")) == Str(Lit("active")) && Get(raw, Lit("rules")).Arr?
            && ((Get(raw, Lit("target")) == Str(Lit("branch"))
                 && Same(Get(raw, Lit("conditions")), ConditionsOn(Lit("refs/heads/main"))))
                || (Get(raw, Lit("target")) == Str(Lit("tag"))
                    && Same(Get(raw, Lit("conditions")), ConditionsOn(Lit("refs/tags/v*")))))
  {
    hide Get, Keys, Distinct, Same, RepositoryName, RepositoryInFull, Positive, PositiveInFull;
    RepositoryExactly(repository);
    PositiveExactly(Get(raw, ID));
    var conditions, target := Get(raw, CONDITIONS), Get(raw, TARGET);
    DistinctGet(raw, CONDITIONS);
    ConditionsExactly(conditions, target);
    BranchIsNotTag();
  }

  lemma ConditionsExactly(conditions: Value, target: Value)
    requires Distinct(conditions)
    ensures (Keys(conditions, [REF_NAME]) && Keys(Get(conditions, REF_NAME), [INCLUDE, EXCLUDE])
             && Get(Get(conditions, REF_NAME), INCLUDE) == Arr([Reference(target)])
             && Get(Get(conditions, REF_NAME), EXCLUDE) == Arr([]))
            <==> Same(conditions, ConditionsOn(Reference(target).s))
  {
    hide Get, Keys, Distinct, Same;
    var expected := ReferenceConditions(target);
    assert expected == ConditionsOn(Reference(target).s);
    ReferenceConditionsHold(target);
    if Same(conditions, expected) {
      SameSymmetric(conditions, expected);
      ConditionsUpToOrder(expected, conditions, target);
    }
    if Keys(conditions, [REF_NAME]) && Keys(Get(conditions, REF_NAME), [INCLUDE, EXCLUDE])
       && Get(Get(conditions, REF_NAME), INCLUDE) == Arr([Reference(target)])
       && Get(Get(conditions, REF_NAME), EXCLUDE) == Arr([]) {
      ConditionsShape(conditions, target);
    }
  }

  // --------------------------------------------------------- canonical order

  lemma LexFirst(a: Text, b: Text)
    requires a != [] && b != [] && a[0] < b[0]
    ensures LexLess(a, b)
  {
  }

  lemma {:induction false} LexPrefix(a: Text, b: Text)
    requires b != []
    ensures LexLess(a, a + b)
  {
    if a != [] {
      LexPrefix(a[1..], b);
      assert (a + b)[1..] == a[1..] + b;
    }
  }

  /** Fields that are listed in ascending order, none of them an index, are in canonical order. */
  lemma AlreadyOrdered<T(!new)>(fields: seq<Named<T>>, s: seq<Named<T>>)
    requires DistinctNames(fields) && SameElements(fields, s)
    requires forall i, j :: 0 <= i < j < |s| ==> LexLess(s[i].name, s[j].name)
    requires forall i :: 0 <= i < |s| ==> !IsIndexName(s[i].name)
    ensures FieldOrder(fields) == s
  {
    hide FieldOrder, IsIndexName, LexLess;
    var r := FieldOrder(fields);
    FieldOrderPermutes(fields);
    FieldOrderListed(fields);
    NameOrderStrict<T>();
    forall i, j | 0 <= i < j < |r| ensures NameBefore(r[i], r[j]) {
      assert r[i] in r && r[j] in r;
      assert r[i] in s && r[j] in s;
      assert ListedBefore(r[i].name, r[j].name);
    }
    assert Ascending(s, NameBefore);
    AscendingUnique(r, s, NameBefore);
  }

  lemma LetterFirst(t: Text)
    requires t != [] && !IsDigit(t[0])
    ensures !IsIndexName(t)
  {
  }

  // ------------------------------------------------------------- hashed text

  function Listed(id: Value, repository: Value, target: Value, conditions: Value, rules: Value): seq<Named<Value>> {
    [Named(Lit("conditions"), conditions), Named(Lit("enforcement"), Str(Lit("active"))), Named(Lit("id"), id),
     Named(Lit("rules"), rules), Named(Lit("source"), repository), Named(Lit("source_type"), Str(Lit("Repository"))),
     Named(Lit("target"), target)]
  }

  function ListedConditions(reference: Value): Value {
    Obj([Named(Lit("ref_name"), Obj([Named(Lit("exclude"), Arr([])), Named(Lit("include"), Arr([reference]))]))])
  }

  lemma ArrangedConditions(target: Value)
    ensures Arrange(ReferenceConditions(target)) == ListedConditions(Reference(target))
  {
    hide FieldOrder, Reference, LexLess, IsIndexName;
    var included, excluded := Named(INCLUDE, Arr([Reference(target)])), Named(EXCLUDE, Arr([]));
    LexFirst(EXCLUDE, INCLUDE);
    LetterFirst(INCLUDE);
    LetterFirst(EXCLUDE);
    LetterFirst(REF_NAME);
    ReferenceIsText(target);
    ArrangeLists(Reference(target));
    assert ArrangeItems([included, excluded]) == [included, excluded];
    SwappedElements(included, excluded);
    assert INCLUDE[0] != EXCLUDE[0];
    AlreadyOrdered([included, excluded], [excluded, included]);
    var refName := Obj([excluded, included]);
    assert Arrange(Obj([included, excluded])) == refName;
    assert ArrangeItems([Named(REF_NAME, Obj([included, excluded]))]) == [Named(REF_NAME, refName)];
    AlreadyOrdered([Named(REF_NAME, refName)], [Named(REF_NAME, refName)]);
  }

  lemma SwappedElements<T(!new)>(a: T, b: T)
    ensures SameElements([a, b], [b, a])
  {
  }

  lemma ReferenceIsText(target: Value)
    ensures Reference(target).Str?
  {
  }

  lemma ArrangeLists(v: Value)
    requires v.Str?
    ensures Arrange(Arr([v])) == Arr([v]) && Arrange(Arr([])) == Arr([])
  {
    assert Arrange(Arr([v])).items == [v];
    assert Arrange(Arr([])).items == [];
  }

  /** The seven names in ascending order. */
  lemma NamesAscend()
    ensures LexLess(CONDITIONS, ENFORCEMENT) && LexLess(ENFORCEMENT, ID) && LexLess(ID, RULES) && LexLess(RULES, SOURCE)
    ensures LexLess(SOURCE, SOURCE_TYPE) && LexLess(SOURCE_TYPE, TARGET)
    ensures !IsIndexName(CONDITIONS) && !IsIndexName(ENFORCEMENT) && !IsIndexName(ID) && !IsIndexName(RULES)
    ensures !IsIndexName(SOURCE) && !IsIndexName(SOURCE_TYPE) && !IsIndexName(TARGET)
  {
    hide LexLess, IsIndexName;
    LexFirst(CONDITIONS, ENFORCEMENT);
    LexFirst(ENFORCEMENT, ID);
    LexFirst(ID, RULES);
    LexFirst(RULES, SOURCE);
    LexFirst(SOURCE_TYPE, TARGET);
    assert SOURCE_TYPE == SOURCE + Lit("_type");
    LexPrefix(SOURCE, Lit("_type"));
    LetterFirst(CONDITIONS);
    LetterFirst(ENFORCEMENT);
    LetterFirst(ID);
    LetterFirst(RULES);
    LetterFirst(SOURCE);
    LetterFirst(SOURCE_TYPE);
    LetterFirst(TARGET);
  }

  lemma {:induction false} ChainAscends(names: seq<Text>)
    requires forall i, j :: 0 <= i < j < |names| && j == i + 1 ==> LexLess(names[i], names[j])
    ensures forall i, j :: 0 <= i < j < |names| ==> LexLess(names[i], names[j])
  {
    hide LexLess;
    if |names| > 1 {
      var rest := names[1..];
      assert forall i, j :: 0 <= i < j < |rest| && j == i + 1 ==> names[i + 1] == rest[i] && names[j + 1] == rest[j];
      ChainAscends(rest);
      assert LexLess(names[0], names[1]);
      forall i, j | 0 <= i < j < |names| ensures LexLess(names[i], names[j]) {
        if i > 0 {
          assert names[i] == rest[i - 1] && names[j] == rest[j - 1];
        } else if j > 1 {
          assert names[1] == rest[0] && names[j] == rest[j - 1];
          LexTransitive(names[0], names[1], names[j]);
        }
      }
    }
  }

  lemma ListedAscends(s: seq<Named<Value>>)
    requires |s| == 7 && s[0].name == CONDITIONS && s[1].name == ENFORCEMENT && s[2].name == ID && s[3].name == RULES
    requires s[4].name == SOURCE && s[5].name == SOURCE_TYPE && s[6].name == TARGET
    ensures forall i, j :: 0 <= i < j < |s| ==> LexLess(s[i].name, s[j].name)
    ensures forall i :: 0 <= i < |s| ==> !IsIndexName(s[i].name)
  {
    hide LexLess, IsIndexName;
    NamesAscend();
    hide CONDITIONS, ENFORCEMENT, ID, RULES, SOURCE, SOURCE_TYPE, TARGET;
    var names := [s[0].name, s[1].name, s[2].name, s[3].name, s[4].name, s[5].name, s[6].name];
    forall i, j | 0 <= i < j < |names| && j == i + 1 ensures LexLess(names[i], names[j]) {
      if i == 0 {
      } else if i == 1 {
      } else if i == 2 {
      } else if i == 3 {
      } else if i == 4 {
      }
    }
    ChainAscends(names);
    assert forall i :: 0 <= i < |s| ==> s[i].name == names[i];
  }

  lemma Reordered<T(!new)>(a: T, b: T, c: T, d: T, e: T, f: T, g: T)
    ensures SameElements([a, b, c, d, e, f, g], [f, e, a, g, c, b, d])
  {
  }

  /** The public fields of an accepted ruleset, in canonical order. */
  lemma ArrangedRuleset(raw: Value, repository: Value)
    requires Distinct(raw) && ExactReferences(raw, repository)
    ensures Arrange(PublicFields(raw)) ==
            Obj(Listed(Get(raw, ID), repository, Get(raw, TARGET), ListedConditions(Reference(Get(raw, TARGET))),
                       Arrange(Get(raw, RULES))))
  {
    hide Get, FieldOrder, Same, Distinct, PublicFields, ReferenceConditions, ListedConditions, Reference,
         RepositoryName,
         Keys, LexLess, IsIndexName;
    var id, target, rules := Get(raw, ID), Get(raw, TARGET), Get(raw, RULES);
    var expected := ExpectedFields(id, repository, target, rules);
    ExactShape(raw, repository);
    PublicFieldsDistinct(raw);
    PublicKeysDiffer();
    ExpectedDistinct(raw, repository);
    ArrangeFaithful(PublicFields(raw), expected);
    ArrangedConditions(target);
    RepositoryText(repository);
    var conditions := ListedConditions(Reference(target));
    var listed := Listed(id, repository, target, conditions, Arrange(rules));
    var arranged := ArrangeItems(expected.fields);
    ArrangeScalar(id);
    ArrangeScalar(repository);
    ArrangeScalar(target);
    ArrangeScalar(Str(Lit("Repository")));
    ArrangeScalar(Str(Lit("active")));
    ExpectedArranged(id, repository, target, rules);
    assert arranged == [listed[2], listed[5], listed[4], listed[6], listed[1], listed[0], listed[3]];
    Reordered(listed[2], listed[5], listed[4], listed[6], listed[1], listed[0], listed[3]);
    ListedAscends(listed);
    AlreadyOrdered(arranged, listed);
  }

  lemma ArrangeScalar(v: Value)
    ensures !v.Arr? && !v.Obj? ==> Arrange(v) == v
  {
  }

  lemma ExpectedArranged(id: Value, repository: Value, target: Value, rules: Value)
    ensures var arranged := ArrangeItems(ExpectedFields(id, repository, target, rules).fields);
            && |arranged| == 7
            && arranged[0] == Named(ID, Arrange(id)) &&
               arranged[1] == Named(SOURCE_TYPE, Arrange(Str(Lit("Repository"))))
            && arranged[2] == Named(SOURCE, Arrange(repository)) && arranged[3] == Named(TARGET, Arrange(target))
            && arranged[4] == Named(ENFORCEMENT, Arrange(Str(Lit("active"))))
            && arranged[5] == Named(CONDITIONS, Arrange(ReferenceConditions(target)))
            && arranged[6] == Named(RULES, Arrange(rules))
  {
    hide Arrange, ReferenceConditions, Lit;
  }

  lemma ExpectedDistinct(raw: Value, repository: Value)
    requires Distinct(raw) && ExactReferences(raw, repository)
    ensures Distinct(ExpectedFields(Get(raw, ID), repository, Get(raw, TARGET), Get(raw, RULES)))
  {
    hide Get, ReferenceConditions, Keys, RepositoryName;
    PublicKeysDiffer();
    ReferenceConditionsHold(Get(raw, TARGET));
    DistinctGet(raw, RULES);
    RepositoryText(repository);
    var items := ExpectedItems(Get(raw, ID), repository, Get(raw, TARGET), Get(raw, RULES));
    forall i | 0 <= i < |PUBLIC_KEYS| ensures Distinct(items[i]) {
    }
  }

  /** A plain text between quotes. */
  function InQuotes(t: Text): Text {
    Lit("\"") + t + Lit("\"")
  }

  function FieldText(name: string, item: Text): Text {
    InQuotes(Lit(name)) + Lit(":") + item
  }

  /** The text that is hashed for a ruleset. */
  function HashedText(id: nat, repository: Text, target: Text, reference: Text, rules: Text): Text {
    Lit("{") +
    Join([FieldText("conditions", ConditionsText(reference)), FieldText("enforcement", InQuotes(Lit("active"))),
          FieldText("id", Decimal(id)), FieldText("rules", rules),
          FieldText("source", InQuotes(repository)), FieldText("source_type", InQuotes(Lit("Repository"))),
          FieldText("target", InQuotes(target))], 44) +
    Lit("}")
  }

  function ConditionsText(reference: Text): Text {
    Lit("{") + FieldText("ref_name", ReferenceText(reference)) + Lit("}")
  }

  function ReferenceText(reference: Text): Text {
    Lit("{") + Join([FieldText("exclude", Lit("[]")), FieldText("include", Lit("[") + InQuotes(reference) + Lit("]"))],
      44) +
    Lit("}")
  }

  lemma PlainQuoted(t: Text)
    requires Plain(t)
    ensures QuotedText(t) == InQuotes(t)
  {
    hide QuotedText;
    QuoteExactly(t);
    PlainQuotes(t);
    assert Lit("\"") == [34];
  }

  lemma PartOf(name: string, item: Value, text: Text)
    requires PlainChars(name) && Compact(item) == text
    ensures QuotedText(Lit(name)) + Lit(":") + Compact(item) == FieldText(name, text)
  {
    hide QuotedText, Compact;
    PlainLiteral(name);
    PlainQuoted(Lit(name));
  }

  lemma EmptyText()
    ensures Compact(Arr([])) == Lit("[]")
  {
    hide Lit, Compact;
    CompactArray([]);
    Brackets();
    assert ItemParts([]) == [];
  }

  lemma Brackets()
    ensures Lit("[") == [91] && Lit("]") == [93] && Lit("[]") == [91, 93]
  {
  }

  lemma ReferenceTexts(reference: Text)
    requires Plain(reference)
    ensures Compact(ListedConditions(Str(reference))) == ConditionsText(reference)
  {
    hide Compact, QuotedText, FieldText, Lit, InQuotes;
    var inner := [Named(Lit("exclude"), Arr([])), Named(Lit("include"), Arr([Str(reference)]))];
    var outer := [Named(Lit("ref_name"), Obj(inner))];
    EmptyText();
    PlainQuoted(reference);
    CompactScalars(reference, Whole(0));
    CompactArray([Str(reference)]);
    assert ItemParts([Str(reference)]) == [InQuotes(reference)];
    PartOf("exclude", Arr([]), Lit("[]"));
    PartOf("include", Arr([Str(reference)]), Lit("[") + InQuotes(reference) + Lit("]"));
    CompactObject(inner);
    assert FieldParts(inner) == [FieldText("exclude", Lit("[]")),
                                 FieldText("include", Lit("[") + InQuotes(reference) + Lit("]"))];
    PartOf("ref_name", Obj(inner), ReferenceText(reference));
    CompactObject(outer);
    assert FieldParts(outer) == [FieldText("ref_name", ReferenceText(reference))];
  }

  lemma PlainParts(target: Text)
    requires target == Lit("branch") || target == Lit("tag")
    ensures Plain(target) && Plain(Lit("active")) && Plain(Lit("Repository")) && Plain(Reference(Str(target)).s)
    ensures Reference(Str(target)) ==
            Str(if target == Lit("branch") then Lit("refs/heads/main") else Lit("refs/tags/v*"))
  {
    hide Plain;
    PlainLiteral("branch");
    PlainLiteral("tag");
    PlainLiteral("active");
    PlainLiteral("Repository");
    PlainLiteral("refs/heads/main");
    PlainLiteral("refs/tags/v*");
  }

  lemma PartsAre(fields: seq<Named<Value>>, parts: seq<Text>)
    requires |fields| == |parts|
    requires forall i :: 0 <= i < |fields| ==>
             QuotedText(fields[i].name) + Lit(":") + Compact(fields[i].item) == parts[i]
    ensures FieldParts(fields) == parts
  {
    hide QuotedText, Compact, Lit;
  }

  /** A field with a plain text for its item. */
  lemma PlainPart(name: string, text: Text)
    requires PlainChars(name) && Plain(text)
    ensures QuotedText(Lit(name)) + Lit(":") + Compact(Str(text)) == FieldText(name, InQuotes(text))
  {
    hide QuotedText, Compact, FieldText, Lit, InQuotes, Plain;
    CompactScalars(text, Whole(0));
    PlainQuoted(text);
    PartOf(name, Str(text), InQuotes(text));
  }

  lemma PlainWords()
    ensures Plain(Lit("active")) && Plain(Lit("Repository"))
  {
    hide Plain;
    PlainLiteral("active");
    PlainLiteral("Repository");
  }

  lemma NumberPart(id: nat)
    requires 0 < id <= 9007199254740991
    ensures QuotedText(Lit("id")) + Lit(":") + Compact(Num(Whole(id))) == FieldText("id", Decimal(id))
  {
    hide QuotedText, Compact, FieldText, Lit, NumberText, Decimal;
    WholeText(id);
    CompactScalars([], Whole(id));
    PartOf("id", Num(Whole(id)), Decimal(id));
  }

  lemma ListedText(id: nat, repository: Text, target: Text, reference: Text, rules: Value)
    requires 0 < id <= 9007199254740991 && Plain(repository) && Plain(target) && Plain(reference)
    ensures Compact(Obj(Listed(Num(Whole(id)), Str(repository), Str(target), ListedConditions(Str(reference)),
            rules))) ==
            HashedText(id, repository, target, reference, Compact(rules))
  {
    hide Compact, QuotedText, FieldText, Lit, InQuotes, Plain, ConditionsText, ListedConditions, NumberText, Decimal,
         FieldParts, Join;
    var fields := Listed(Num(Whole(id)), Str(repository), Str(target), ListedConditions(Str(reference)), rules);
    ReferenceTexts(reference);
    PlainWords();
    PartOf("conditions", fields[0].item, ConditionsText(reference));
    PlainPart("enforcement", Lit("active"));
    NumberPart(id);
    PartOf("rules", rules, Compact(rules));
    PlainPart("source", repository);
    PlainPart("source_type", Lit("Repository"));
    PlainPart("target", target);
    CompactObject(fields);
    PartsAre(fields,
             [FieldText("conditions", ConditionsText(reference)), FieldText("enforcement", InQuotes(Lit("active"))),
              FieldText("id", Decimal(id)), FieldText("rules", Compact(rules)),
                FieldText("source", InQuotes(repository)),
              FieldText("source_type", InQuotes(Lit("Repository"))), FieldText("target", InQuotes(target))]);
  }

  /** Main result: the digest of a ruleset is the hash of the bytes of exactly this text: seven names in
      alphabetical order, the reference of its target, its rules in canonical order, and no space. */
  lemma RulesetDigest(sha: Hash, raw: Value, id: nat, repository: Text, target: Text)
    requires Distinct(raw) && PublicDigest(sha, raw).Some? && ExactReferences(raw, Str(repository))
    requires Get(raw, Lit("id")) == Num(Whole(id)) && Get(raw, Lit("target")) == Str(target)
    ensures target == Lit("branch") || target == Lit("tag")
    ensures var reference := if target == Lit("branch") then Lit("refs/heads/main") else Lit("refs/tags/v*");
            var rules := Compact(Arrange(Get(raw, Lit("rules"))));
            PublicDigest(sha, raw) == Some(sha(Utf8.Encode(HashedText(id, repository, target, reference, rules))))
  {
    hide Get, ExactReferences, PublicFields, CanonicalText, HashedText, Listed, ListedConditions, Concat, Tokens,
         Distinct,
         OwnsPublicFields, Plain, Reference, Utf8.Encode, Arrange;
    AcceptedRuleset(raw, id, repository, target);
    PlainParts(target);
    RepositoryNamePlain(repository);
    ArrangedRuleset(raw, Str(repository));
    CanonicalTokens(PublicFields(raw));
    ListedText(id, repository, target, Reference(Str(target)).s, Arrange(Get(raw, RULES)));
  }

  lemma AcceptedRuleset(raw: Value, id: int, repository: Text, target: Text)
    requires ExactReferences(raw, Str(repository))
    requires Get(raw, ID) == Num(Whole(id)) && Get(raw, TARGET) == Str(target)
    ensures 0 < id <= 9007199254740991 && RepositoryName(Str(repository)) &&
            (target == Lit("branch") || target == Lit("tag"))
  {
    hide Get, Keys, RepositoryName;
  }
}
