/** The accepted shapes, described from outside: rulesets and witnesses are fixed up to a few free fields and the order
    of their names. */
module WitnessShape {
  import opened Strings
  import opened Numbers
  import opened Json
  import opened Canonical
  import opened Witness
  import Utf8
  import Timestamp
  import opened WitnessAccepted

  // ------------------------------------------------------ repository names

  /** A repository name is an owner and a project with a slash between them. */
  lemma RepositoryNameExact(t: Text)
    ensures RepositoryName(Str(t)) <==>
            exists owner, project :: OwnerName(owner) && ProjectName(project) && t == owner + [SLASH] + project
  {
    if RepositoryName(Str(t)) {
      var parts := Split(t, SLASH);
      JoinSplit(t, SLASH);
      assert parts == [parts[0], parts[1]] && parts[1..] == [parts[1]];
      assert OwnerName(parts[0]) && ProjectName(parts[1]) && t == parts[0] + [SLASH] + parts[1];
    }
    if owner, project :| OwnerName(owner) && ProjectName(project) && t == owner + [SLASH] + project {
      var parts := [owner, project];
      assert parts[1..] == [project];
      SplitJoin(parts, SLASH);
    }
  }

  // -------------------------------------------------------------- rulesets

  function ReferenceConditions(target: Value): Value {
    Obj([Named(REF_NAME, Obj([Named(INCLUDE, Arr([Reference(target)])), Named(EXCLUDE, Arr([]))]))])
  }

  /** The public fields of a ruleset, where only identity, target and rules are free. */
  function ExpectedItems(id: Value, repository: Value, target: Value, rules: Value): (items: seq<Value>)
    ensures |items| == |PUBLIC_KEYS|
  {
    [id, Str(Lit("Repository")), repository, target, Str(Lit("active")), ReferenceConditions(target), rules]
  }

  function ExpectedFields(id: Value, repository: Value, target: Value, rules: Value): Value {
    var items := ExpectedItems(id, repository, target, rules);
    Obj(seq(|PUBLIC_KEYS|, i requires 0 <= i < |PUBLIC_KEYS| => Named(PUBLIC_KEYS[i], items[i])))
  }

  lemma KeysNames(v: Value, keys: seq<Text>)
    requires Distinct(v) && Keys(v, keys) && AllDifferent(keys)
    ensures Names(v.fields) == set i | 0 <= i < |keys| :: keys[i]
  {
    var wanted := set i | 0 <= i < |keys| :: keys[i];
    NamesCount(v.fields);
    KeysCount(keys);
    assert wanted <= Names(v.fields);
    SubsetOfSameSize(wanted, Names(v.fields));
  }

  lemma {:induction false} KeysCount(keys: seq<Text>)
    requires AllDifferent(keys)
    ensures |set i | 0 <= i < |keys| :: keys[i]| == |keys|
  {
    var all := set i | 0 <= i < |keys| :: keys[i];
    if keys != [] {
      var rest := keys[1..];
      KeysCount(rest);
      var others := set i | 0 <= i < |rest| :: rest[i];
      forall x ensures x in all <==> x == keys[0] || x in others {
        if x in others {
          var i :| 0 <= i < |rest| && rest[i] == x;
          assert keys[i + 1] == x;
        }
        if x in all && x != keys[0] {
          var i :| 0 <= i < |keys| && keys[i] == x;
          assert rest[i - 1] == x;
        }
      }
      assert keys[0] !in others;
      assert all == {keys[0]} + others;
    }
  }

  lemma SubsetOfSameSize(a: set<Text>, b: set<Text>)
    requires a <= b && |a| == |b|
    ensures a == b
  {
    assert b == a + (b - a);
    assert |b - a| == 0;
  }

  /** An object with exactly these names is, up to their order, the object that lists its items under them. */
  lemma SameAsListed(v: Value, fields: seq<Named<Value>>, keys: seq<Text>)
    requires Distinct(v) && Keys(v, keys) && AllDifferent(keys)
    requires |fields| == |keys| && forall i :: 0 <= i < |keys| ==> fields[i].name == keys[i]
    requires forall i :: 0 <= i < |keys| ==> Same(Get(v, keys[i]), fields[i].item)
    ensures Same(v, Obj(fields))
  {
    hide Keys;
    KeysNames(v, keys);
    KeysObject(v, keys);
    FieldsByKey(fields, keys);
    assert Names(fields) == Names(v.fields);
    forall i | 0 <= i < |v.fields| ensures Same(v.fields[i].item, Get(Obj(fields), v.fields[i].name)) {
      var name := v.fields[i].name;
      assert name in Names(v.fields);
      var k :| 0 <= k < |keys| && keys[k] == name;
      PositionUnique(v.fields, i);
      assert Get(v, keys[k]) == v.fields[i].item;
    }
  }

  lemma ConditionsShape(conditions: Value, target: Value)
    requires Distinct(conditions)
    requires Keys(conditions, [REF_NAME]) && Keys(Get(conditions, REF_NAME), [INCLUDE, EXCLUDE])
    requires Get(Get(conditions, REF_NAME), INCLUDE) == Arr([Reference(target)])
    requires Get(Get(conditions, REF_NAME), EXCLUDE) == Arr([])
    ensures Same(conditions, ReferenceConditions(target))
  {
    hide Get, Keys, Distinct;
    var refName := Get(conditions, REF_NAME);
    DistinctGet(conditions, REF_NAME);
    assert INCLUDE[0] != EXCLUDE[0];
    var fields := [Named(INCLUDE, Arr([Reference(target)])), Named(EXCLUDE, Arr([]))];
    SameArrays(target);
    SameAsListed(refName, fields, [INCLUDE, EXCLUDE]);
    SameAsListed(conditions, [Named(REF_NAME, Obj(fields))], [REF_NAME]);
  }

  lemma SameArrays(target: Value)
    ensures Same(Arr([Reference(target)]), Arr([Reference(target)])) && Same(Arr([]), Arr([]))
  {
  }

  /** Main result: a ruleset passes the checks exactly when its public fields are, up to name order, the expected
      ones for some identity, one of the two targets, and some list of rules. */
  lemma RulesetShape(raw: Value, repository: Value)
    requires Distinct(raw)
    ensures ExactReferences(raw, repository) <==>
            && RepositoryName(repository) && Positive(Get(raw, ID))
            && (Get(raw, TARGET) == Str(BRANCH) || Get(raw, TARGET) == Str(TAG)) && Get(raw, RULES).Arr?
            && Same(PublicFields(raw), ExpectedFields(Get(raw, ID), repository, Get(raw, TARGET), Get(raw, RULES)))
  {
    var id, target, rules := Get(raw, ID), Get(raw, TARGET), Get(raw, RULES);
    if ExactReferences(raw, repository) {
      ExactShape(raw, repository);
    }
    if RepositoryName(repository) && Positive(id) && (target == Str(BRANCH) || target == Str(TAG)) && rules.Arr? &&
       Same(PublicFields(raw), ExpectedFields(id, repository, target, rules)) {
      ShapeExact(raw, repository);
    }
  }

  lemma ExactShape(raw: Value, repository: Value)
    requires Distinct(raw) && ExactReferences(raw, repository)
    ensures Same(PublicFields(raw), ExpectedFields(Get(raw, ID), repository, Get(raw, TARGET), Get(raw, RULES)))
  {
    hide Get, Keys, RepositoryName, Distinct, ReferenceConditions;
    var id, target, rules := Get(raw, ID), Get(raw, TARGET), Get(raw, RULES);
    DistinctGet(raw, CONDITIONS);
    ConditionsShape(Get(raw, CONDITIONS), target);
    DistinctGet(raw, RULES);
    SameReflexive(rules);
    RepositoryText(repository);
    SamePlainValue(id);
    SamePlainValue(target);
    SamePlainValue(repository);
    SamePlainValue(Get(raw, SOURCE_TYPE));
    SamePlainValue(Get(raw, ENFORCEMENT));
    var items, actual := ExpectedItems(id, repository, target, rules), PublicFields(raw);
    PublicFieldsDistinct(raw);
    PublicFieldsByKey(raw);
    PublicKeysDiffer();
    FieldsByKey(actual.fields, PUBLIC_KEYS);
    forall i | 0 <= i < |PUBLIC_KEYS| ensures Same(Get(actual, PUBLIC_KEYS[i]), items[i]) {
      assert Get(actual, PUBLIC_KEYS[i]) == Get(raw, PUBLIC_KEYS[i]);
    }
    SameAsListed(actual, ExpectedFields(id, repository, target, rules).fields, PUBLIC_KEYS);
  }

  lemma SamePlainValue(v: Value)
    ensures !v.Arr? && !v.Obj? ==> Same(v, v)
  {
  }

  lemma ShapeExact(raw: Value, repository: Value)
    requires Distinct(raw)
    requires RepositoryName(repository) && Positive(Get(raw, ID)) && Get(raw, RULES).Arr?
    requires Get(raw, TARGET) == Str(BRANCH) || Get(raw, TARGET) == Str(TAG)
    requires Same(PublicFields(raw), ExpectedFields(Get(raw, ID), repository, Get(raw, TARGET), Get(raw, RULES)))
    ensures ExactReferences(raw, repository)
  {
    hide RepositoryName, Get, Keys, Distinct, Same, PublicFields, ReferenceConditions, ExpectedFields;
    var id, target, rules := Get(raw, ID), Get(raw, TARGET), Get(raw, RULES);
    ExpectedByKey(raw, id, repository, target, rules);
    var items := ExpectedItems(id, repository, target, rules);
    assert Same(Get(raw, PUBLIC_KEYS[1]), items[1]) && Same(Get(raw, PUBLIC_KEYS[2]), items[2]);
    assert Same(Get(raw, PUBLIC_KEYS[4]), items[4]) && Same(Get(raw, PUBLIC_KEYS[5]), items[5]);
    RepositoryText(repository);
    SameAsPlain(Get(raw, SOURCE_TYPE), items[1]);
    SameAsPlain(Get(raw, SOURCE), items[2]);
    SameAsPlain(Get(raw, ENFORCEMENT), items[4]);
    DistinctGet(raw, CONDITIONS);
    ReferenceConditionsHold(target);
    SameSymmetric(Get(raw, CONDITIONS), ReferenceConditions(target));
    ConditionsUpToOrder(ReferenceConditions(target), Get(raw, CONDITIONS), target);
  }

  lemma SameAsPlain(a: Value, b: Value)
    requires Same(a, b) && !b.Arr? && !b.Obj?
    ensures a == b
  {
  }

  lemma ExpectedByKey(raw: Value, id: Value, repository: Value, target: Value, rules: Value)
    requires Same(PublicFields(raw), ExpectedFields(id, repository, target, rules))
    ensures forall i :: 0 <= i < |PUBLIC_KEYS| ==>
            Same(Get(raw, PUBLIC_KEYS[i]), ExpectedItems(id, repository, target, rules)[i])
  {
    hide Get, Keys, Same, ExpectedItems;
    PublicFieldsByKey(raw);
    PublicKeysDiffer();
    var expected := ExpectedFields(id, repository, target, rules);
    FieldsByKey(expected.fields, PUBLIC_KEYS);
    forall i | 0 <= i < |PUBLIC_KEYS|
      ensures Same(Get(raw, PUBLIC_KEYS[i]), ExpectedItems(id, repository, target, rules)[i])
    {
      SameGet(PublicFields(raw), expected, PUBLIC_KEYS[i]);
      assert Get(PublicFields(raw), PUBLIC_KEYS[i]) == Get(raw, PUBLIC_KEYS[i]);
      assert Get(expected, PUBLIC_KEYS[i]) == expected.fields[i].item;
    }
  }

  lemma PlainListsDistinct(v: Value)
    requires v.Str?
    ensures Distinct(Arr([v])) && Distinct(Arr([]))
  {
    assert Distinct(v);
  }

  lemma ReferenceConditionsHold(target: Value)
    ensures var c := ReferenceConditions(target);
            && Distinct(c) && Keys(c, [REF_NAME]) && Keys(Get(c, REF_NAME), [INCLUDE, EXCLUDE])
            && Get(Get(c, REF_NAME), INCLUDE) == Arr([Reference(target)]) && Get(Get(c, REF_NAME), EXCLUDE) == Arr([])
  {
    hide Get, Keys;
    assert INCLUDE[0] != EXCLUDE[0];
    var inner := [Named(INCLUDE, Arr([Reference(target)])), Named(EXCLUDE, Arr([]))];
    FieldsByKey(inner, [INCLUDE, EXCLUDE]);
    assert Get(Obj(inner), [INCLUDE, EXCLUDE][0]) == inner[0].item &&
           Get(Obj(inner), [INCLUDE, EXCLUDE][1]) == inner[1].item;
    var outer := [Named(REF_NAME, Obj(inner))];
    FieldsByKey(outer, [REF_NAME]);
    assert Get(Obj(outer), [REF_NAME][0]) == outer[0].item;
    PlainListsDistinct(Reference(target));
    assert Distinct(Obj(inner));
  }

  // -------------------------------------------------------------- witnesses

  lemma RuleIsPure(r: Rule)
    ensures Pure(RuleValue(r)) && Distinct(RuleValue(r))
  {
    hide Get, Keys, Names, Position;
    RuleKeysDiffer();
    FieldsByKey(RuleValue(r).fields, RULE_KEYS);
  }

  lemma RecordIsPure(w: Record)
    ensures Pure(RecordValue(w)) && Distinct(RecordValue(w))
  {
    hide RuleValue, Get, Keys, Names, Position;
    WitnessKeysDiffer();
    FieldsByKey(RecordValue(w).fields, WITNESS_KEYS);
    var rules := RecordValue(w).fields[6].item;
    forall i | 0 <= i < |w.rulesets| ensures Pure(rules.items[i]) && Distinct(rules.items[i]) {
      RuleIsPure(w.rulesets[i]);
    }
    assert Pure(rules) && Distinct(rules);
  }

  lemma SameRuleValue(v: Value, r: Rule)
    requires Distinct(v) && RuleShape(v) == Some(r)
    ensures Same(v, RuleValue(r))
  {
    hide Get, Keys, Distinct;
    RuleKeysDiffer();
    var fields := RuleValue(r).fields;
    SameArrays(v);
    var id := Get(v, ID);
    assert id == Num(Whole(r.id));
    assert Get(v, RULE_KEYS[0]) == fields[0].item && Get(v, RULE_KEYS[1]) == fields[1].item;
    assert Get(v, RULE_KEYS[2]) == fields[2].item && Get(v, RULE_KEYS[3]) == fields[3].item;
    assert Get(v, RULE_KEYS[4]) == fields[4].item && Get(v, RULE_KEYS[5]) == fields[5].item;
    forall i | 0 <= i < |RULE_KEYS| ensures Same(Get(v, RULE_KEYS[i]), fields[i].item) {
      SamePlainValue(fields[i].item);
    }
    SameAsListed(v, fields, RULE_KEYS);
  }

  lemma {:induction false} SameRuleValues(items: seq<Value>, rules: seq<Rule>)
    requires RuleShapes(items) == Some(rules)
    requires forall i :: 0 <= i < |items| ==> Distinct(items[i])
    ensures |items| == |rules| && forall i :: 0 <= i < |items| ==> Same(items[i], RuleValue(rules[i]))
  {
    hide RuleShape, RuleValue, Same, Distinct;
    if items != [] {
      SameRuleValue(items[0], rules[0]);
      SameRuleValues(items[1..], rules[1..]);
      forall i | 0 <= i < |items| ensures Same(items[i], RuleValue(rules[i])) {
        if i > 0 {
          assert items[i] == items[1..][i - 1] && rules[i] == rules[1..][i - 1];
        }
      }
    }
  }

  /** A value of the right shape is the record printed, up to name order. */
  lemma SameRecordValue(v: Value, w: Record)
    requires Distinct(v) && RecordShape(v) == Some(w)
    ensures Same(v, RecordValue(w))
  {
    hide Get, Keys, Distinct, RuleValue, RuleShapes, RuleShape;
    WitnessKeysDiffer();
    var fields, rulesets := RecordValue(w).fields, Get(v, RULESETS);
    DistinctGet(v, RULESETS);
    DistinctItems(rulesets);
    SameRuleValues(rulesets.items, w.rulesets);
    assert Get(v, WITNESS_KEYS[0]) == fields[0].item && Get(v, WITNESS_KEYS[1]) == fields[1].item;
    assert Get(v, WITNESS_KEYS[2]) == fields[2].item && Get(v, WITNESS_KEYS[3]) == fields[3].item;
    assert Get(v, WITNESS_KEYS[4]) == fields[4].item && Get(v, WITNESS_KEYS[5]) == fields[5].item;
    assert Same(rulesets, fields[6].item);
    forall i | 0 <= i < |WITNESS_KEYS| ensures Same(Get(v, WITNESS_KEYS[i]), fields[i].item) {
      SamePlainValue(fields[i].item);
    }
    SameAsListed(v, fields, WITNESS_KEYS);
  }

  lemma DistinctItems(v: Value)
    requires Distinct(v) && v.Arr?
    ensures forall i :: 0 <= i < |v.items| ==> Distinct(v.items[i])
  {
  }

  /** `controlsWitnessDigest`. */
  function WitnessDigest(sha: Hash, v: Value): Option<Text> {
    if ReadRecord(v).None? then None else Some(sha(Utf8.Encode(CanonicalText(v).value)))
  }

  /** A value that is a listed object up to name order has its names and, up to name order, its items. */
  lemma SameListed(fields: seq<Named<Value>>, keys: seq<Text>, v: Value)
    requires AllDifferent(keys) && |fields| == |keys| && forall i :: 0 <= i < |keys| ==> fields[i].name == keys[i]
    requires Distinct(Obj(fields)) && Distinct(v) && Same(Obj(fields), v)
    ensures Keys(v, keys)
    ensures forall i :: 0 <= i < |keys| ==> Same(fields[i].item, Get(v, keys[i])) && Distinct(Get(v, keys[i]))
  {
    hide Get, Keys, Same, Distinct;
    FieldsByKey(fields, keys);
    SameKeys(Obj(fields), v, keys);
    forall i | 0 <= i < |keys| ensures Same(fields[i].item, Get(v, keys[i])) && Distinct(Get(v, keys[i])) {
      SameGet(Obj(fields), v, keys[i]);
      DistinctGet(v, keys[i]);
    }
  }

  lemma SameEmpty(v: Value)
    requires Same(Arr([]), v)
    ensures v == Arr([])
  {
  }

  lemma SameRuleShape(v: Value, r: Rule)
    requires Distinct(v) && Same(RuleValue(r), v) && 0 < r.id <= MAX_SAFE
    ensures RuleShape(v) == Some(r)
  {
    hide Get, Keys, Distinct, Same;
    RuleKeysDiffer();
    RuleIsPure(r);
    var fields := RuleValue(r).fields;
    SameListed(fields, RULE_KEYS, v);
    forall i | 0 <= i < 5 ensures fields[i].item == Get(v, RULE_KEYS[i]) {
      SamePlain(fields[i].item, Get(v, RULE_KEYS[i]));
    }
    assert Same(fields[5].item, Get(v, RULE_KEYS[5]));
    SameEmpty(Get(v, RULE_KEYS[5]));
    assert fields[0].item == Get(v, RULE_KEYS[0]) && fields[1].item == Get(v, RULE_KEYS[1]);
    assert fields[2].item == Get(v, RULE_KEYS[2]) && fields[3].item == Get(v, RULE_KEYS[3]);
    assert fields[4].item == Get(v, RULE_KEYS[4]);
  }

  lemma {:induction false} SameRuleShapes(items: seq<Value>, rules: seq<Rule>)
    requires |items| == |rules| && forall i :: 0 <= i < |items| ==>
             Distinct(items[i]) && Same(RuleValue(rules[i]), items[i])
    requires forall i :: 0 <= i < |rules| ==> 0 < rules[i].id <= MAX_SAFE
    ensures RuleShapes(items) == Some(rules)
  {
    hide RuleShape, RuleValue, Same, Distinct;
    if items != [] {
      SameRuleShape(items[0], rules[0]);
      SameRuleShapes(items[1..], rules[1..]);
      assert rules == [rules[0]] + rules[1..];
    }
  }

  lemma SameItems(a: Value, b: Value)
    requires a.Arr? && Same(a, b) && Distinct(b)
    ensures b.Arr? && |a.items| == |b.items|
    ensures forall i :: 0 <= i < |a.items| ==> Same(a.items[i], b.items[i]) && Distinct(b.items[i])
  {
  }

  /** Whatever is a record printed, up to name order, has the shape of that record. */
  lemma SameRecordShape(v: Value, w: Record)
    requires Distinct(v) && ValidRecord(w) && Same(RecordValue(w), v)
    ensures RecordShape(v) == Some(w)
  {
    hide Get, Keys, Distinct, Same, RuleValue, RuleShapes, RuleShape, RepositoryName, Settled, ValidRule;
    WitnessKeysDiffer();
    RecordIsPure(w);
    var fields := RecordValue(w).fields;
    SameListed(fields, WITNESS_KEYS, v);
    forall i | 0 <= i < 6 ensures fields[i].item == Get(v, WITNESS_KEYS[i]) {
      SamePlain(fields[i].item, Get(v, WITNESS_KEYS[i]));
    }
    assert fields[0].item == Get(v, WITNESS_KEYS[0]) && fields[1].item == Get(v, WITNESS_KEYS[1]);
    assert fields[2].item == Get(v, WITNESS_KEYS[2]) && fields[3].item == Get(v, WITNESS_KEYS[3]);
    assert fields[4].item == Get(v, WITNESS_KEYS[4]) && fields[5].item == Get(v, WITNESS_KEYS[5]);
    var rulesets := Get(v, WITNESS_KEYS[6]);
    assert fields[6].item == Arr(RuleValues(w.rulesets));
    SameItems(fields[6].item, rulesets);
    ValidIds(w);
    SameRuleShapes(rulesets.items, w.rulesets);
  }

  lemma ValidIds(w: Record)
    requires ValidRecord(w)
    ensures forall i :: 0 <= i < |w.rulesets| ==> 0 < w.rulesets[i].id <= MAX_SAFE
  {
    hide RepositoryName, Settled, Timestamp.Normalise, Timestamp.InstantOf;
  }

  /** Main result: accepted are exactly the values that are, up to name order, a valid record printed. */
  lemma WitnessShapeExact(v: Value, w: Record)
    requires Distinct(v)
    ensures ReadRecord(v) == Some(w) <==> ValidRecord(w) && Same(v, RecordValue(w))
  {
    hide RecordShape, Distinct, ValidRecord, Same, CanonicalText, RecordValue;
    RecordIsPure(w);
    if ReadRecord(v) == Some(w) {
      SameRecordValue(v, w);
    }
    if ValidRecord(w) && Same(v, RecordValue(w)) {
      SameSymmetric(v, RecordValue(w));
      SameRecordShape(v, w);
      RecordCanonical(w);
      SameAccepted(v, RecordValue(w));
    }
  }

  lemma AcceptedIsCanonical(v: Value)
    ensures ReadRecord(v).Some? ==> CanonicalText(v).Some?
  {
    hide RecordShape, ValidRecord, CanonicalText;
  }

  /** Main result: without a collision two accepted witnesses have the same digest exactly when they hold the same
      record. */
  lemma DigestIsRecord(sha: Hash, a: Value, b: Value)
    requires Distinct(a) && Distinct(b) && ReadRecord(a).Some? && ReadRecord(b).Some?
    requires HashedApart(sha, a, b)
    ensures WitnessDigest(sha, a) == WitnessDigest(sha, b) <==> ReadRecord(a) == ReadRecord(b)
  {
    hide ReadRecord, Distinct, ValidRecord, Same, CanonicalText, RecordValue, Utf8.Encode;
    var x, y := ReadRecord(a).value, ReadRecord(b).value;
    AcceptedIsCanonical(a);
    AcceptedIsCanonical(b);
    WitnessShapeExact(a, x);
    WitnessShapeExact(b, y);
    RecordIsPure(x);
    RecordIsPure(y);
    if x == y {
      SameAccepted(a, RecordValue(x));
      SameAccepted(b, RecordValue(x));
    }
    if WitnessDigest(sha, a) == WitnessDigest(sha, b) {
      CanonicalBytes(a, b);
      CanonicalFaithful(a, b);
      SameThrough(a, b, RecordValue(y));
      WitnessShapeExact(a, y);
    }
  }
}
