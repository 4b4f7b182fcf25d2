/** There is something to record: under every repository name, any two identities can be recorded. */
module WitnessExample {
  import opened Strings
  import opened Numbers
  import opened Json
  import opened Canonical
  import opened Timestamp
  import opened Witness
  import opened PrintedSize
  import opened WitnessSize
  import opened WitnessAccepted
  import opened WitnessShape

  const KEYS: seq<Text> := PUBLIC_KEYS + [BYPASS_ACTORS, CREATED_AT, UPDATED_AT]

  function PublicPart(id: int, repository: Text, target: Text): Value {
    ExpectedFields(Num(Whole(id)), Str(repository), Str(target), Arr([]))
  }

  /** A ruleset without rules, unchanged since it was made at `time`. */
  function Ruleset(id: int, repository: Text, target: Text, time: Text): Value {
    Obj(PublicPart(id, repository, target).fields +
        [Named(BYPASS_ACTORS, Arr([])), Named(CREATED_AT, Str(time)), Named(UPDATED_AT, Str(time))])
  }

  predicate Proper(id: int, repository: Text, target: Text) {
    0 < id <= MAX_SAFE && RepositoryName(Str(repository)) && (target == BRANCH || target == TAG)
  }

  lemma KeysDiffer()
    ensures AllDifferent(KEYS)
  {
    PublicKeysDiffer();
    BypassKeyDiffers();
    hide BYPASS_ACTORS, CREATED_AT, UPDATED_AT;
    LateKeysDiffer();
  }

  lemma LateKeysDiffer()
    ensures BYPASS_ACTORS != CREATED_AT && BYPASS_ACTORS != UPDATED_AT && CREATED_AT != UPDATED_AT
    ensures forall i :: 0 <= i < |PUBLIC_KEYS| ==> PUBLIC_KEYS[i] != CREATED_AT && PUBLIC_KEYS[i] != UPDATED_AT
  {
    assert |BYPASS_ACTORS| == 13 && |CREATED_AT| == 10 == |UPDATED_AT|;
    assert CREATED_AT[0] != UPDATED_AT[0] && CONDITIONS[1] != CREATED_AT[1];
    assert |ID| == 2 && |SOURCE_TYPE| == 11 && |SOURCE| == 6 && |TARGET| == 6 && |ENFORCEMENT| == 11 && |RULES| == 5;
  }

  /** What can be read from the ruleset. */
  lemma RulesetFields(id: int, repository: Text, target: Text, time: Text)
    ensures var raw := Ruleset(id, repository, target, time);
            && DistinctNames(raw.fields)
            && OwnsPublicFields(raw) && PublicFields(raw) == PublicPart(id, repository, target)
            && Get(raw, BYPASS_ACTORS) == Arr([]) && Get(raw, CREATED_AT) == Str(time) &&
               Get(raw, UPDATED_AT) == Str(time)
  {
    hide Get, Names, DistinctNames;
    var raw := Ruleset(id, repository, target, time);
    KeysDiffer();
    FieldsByKey(raw.fields, KEYS);
    assert Get(raw, KEYS[7]) == raw.fields[7].item && Get(raw, KEYS[8]) == raw.fields[8].item;
    assert Get(raw, KEYS[9]) == raw.fields[9].item;
    var public := PublicPart(id, repository, target);
    forall i | 0 <= i < |PUBLIC_KEYS|
      ensures HasOwn(raw, PUBLIC_KEYS[i]) && PublicFields(raw).fields[i] == public.fields[i]
    {
      assert KEYS[i] == PUBLIC_KEYS[i] && raw.fields[i] == public.fields[i];
    }
    assert PublicFields(raw).fields == public.fields;
  }

  lemma PublicDistinct(id: int, repository: Text, target: Text)
    ensures Distinct(PublicPart(id, repository, target))
  {
    hide ReferenceConditions;
    ReferenceConditionsHold(Str(target));
    PublicKeysDiffer();
  }

  lemma RulesetDistinct(id: int, repository: Text, target: Text, time: Text)
    ensures Distinct(Ruleset(id, repository, target, time))
  {
    hide Get, OwnsPublicFields, ExpectedItems, DistinctNames;
    RulesetFields(id, repository, target, time);
    PublicDistinct(id, repository, target);
  }

  lemma RulesetExact(id: int, repository: Text, target: Text, time: Text)
    requires Proper(id, repository, target)
    ensures ExactReferences(Ruleset(id, repository, target, time), Str(repository))
    ensures Get(Ruleset(id, repository, target, time), ID) == Num(Whole(id))
    ensures Get(Ruleset(id, repository, target, time), TARGET) == Str(target)
  {
    hide Get, Same, Distinct, RepositoryName, ExactReferences, Ruleset;
    var raw, public := Ruleset(id, repository, target, time), PublicPart(id, repository, target);
    RulesetFields(id, repository, target, time);
    assert public.fields[0].item == Get(raw, PUBLIC_KEYS[0]) && public.fields[3].item == Get(raw, PUBLIC_KEYS[3]);
    assert public.fields[6].item == Get(raw, PUBLIC_KEYS[6]);
    RulesetDistinct(id, repository, target, time);
    PublicDistinct(id, repository, target);
    SameReflexive(public);
    RulesetShape(raw, Str(repository));
  }

  // -------------------------------------- the public part is inside the bounds

  lemma PlainNames()
    ensures forall i :: 0 <= i < |PUBLIC_KEYS| ==> GoodKey(PUBLIC_KEYS[i])
    ensures GoodKey(REF_NAME) && GoodKey(INCLUDE) && GoodKey(EXCLUDE)
  {
    hide Plain;
    PlainLiteral("id");
    PlainLiteral("source_type");
    PlainLiteral("source");
    PlainLiteral("target");
    PlainLiteral("enforcement");
    PlainLiteral("conditions");
    PlainLiteral("rules");
    PlainLiteral("ref_name");
    PlainLiteral("include");
    PlainLiteral("exclude");
  }

  lemma PlainTexts(target: Text)
    ensures Plain(Lit("Repository")) && Plain(Lit("active"))
    ensures Reference(Str(target)).Str? && Plain(Reference(Str(target)).s) && |Reference(Str(target)).s| <= 15
  {
    hide Plain;
    PlainLiteral("Repository");
    PlainLiteral("active");
    PlainLiteral("refs/heads/main");
    PlainLiteral("refs/tags/v*");
  }

  lemma ArrangeSingle(t: Text)
    ensures Arrange(Arr([Str(t)])) == Arr([Str(t)]) && Arrange(Arr([])) == Arr([])
  {
    assert Arrange(Arr([Str(t)])).items == [Str(t)];
    assert Arrange(Arr([])).items == [];
  }

  lemma ConditionsFit(target: Text)
    ensures Fits(Arrange(ReferenceConditions(Str(target))), 0, 1, 500)
  {
    hide Fits, Plain, FieldOrder, Reference;
    PlainNames();
    PlainTexts(target);
    var reference := Reference(Str(target));
    TextFits(reference.s, 0, 4, 20);
    ListFits([reference], 3, 20);
    EmptyFits(0, 3, 23);
    var inner := [Named(INCLUDE, Arr([reference])), Named(EXCLUDE, Arr([]))];
    ArrangeSingle(reference.s);
    assert ArrangeItems(inner) == inner;
    ArrangedFits(inner, 0, 2, 23);
    FitsMore(Arrange(Obj(inner)), 0, 2, ObjectRoom(2, 2, 23), 200);
    var outer := [Named(REF_NAME, Obj(inner))];
    ArrangedFits(outer, 0, 1, 200);
    FitsMore(Arrange(Obj(outer)), 0, 1, ObjectRoom(1, 1, 200), 500);
  }

  lemma PublicFits(id: int, repository: Text, target: Text)
    requires Proper(id, repository, target)
    ensures Fits(Arrange(PublicPart(id, repository, target)), 0, 0, 5000)
  {
    hide Fits, Plain, FieldOrder, ReferenceConditions, RepositoryName;
    PlainNames();
    PlainTexts(target);
    PlainTarget(target);
    RepositoryNamePlain(repository);
    NumberFits(id, 0, 1, 500);
    TextFits(Lit("Repository"), 0, 1, 500);
    TextFits(repository, 0, 1, 500);
    TextFits(target, 0, 1, 500);
    TextFits(Lit("active"), 0, 1, 500);
    ConditionsFit(target);
    EmptyFits(0, 1, 500);
    ArrangeSingle(target);
    var fields := PublicPart(id, repository, target).fields;
    forall i | 0 <= i < |fields| ensures FieldFits(ArrangeItems(fields)[i], 0, 1, 500) {
      assert GoodKey(PUBLIC_KEYS[i]) && fields[i].name == PUBLIC_KEYS[i];
    }
    ArrangedFits(fields, 0, 0, 500);
    FitsMore(Arrange(Obj(fields)), 0, 0, ObjectRoom(7, 0, 500), 5000);
  }

  lemma SingleWithin(t: Text, depth: nat)
    requires |t| <= MAX_STRING && depth < MAX_DEPTH
    ensures Bounded(Arr([Str(t)]), depth) && Size(Arr([Str(t)])) == 2
    ensures Bounded(Arr([]), depth) && Size(Arr([])) == 1
  {
    assert [Str(t)][1..] == [];
    assert Bounded(Str(t), depth + 1);
    assert SizeItems([]) == 0 && SizeItems([Str(t)]) == Size(Str(t)) + SizeItems([]);
  }

  lemma ConditionsWithin(target: Text)
    ensures Bounded(ReferenceConditions(Str(target)), 1) && Size(ReferenceConditions(Str(target))) <= 6
  {
    hide Reference, SizeFields;
    PlainTexts(target);
    var reference := Reference(Str(target));
    var inner := [Named(INCLUDE, Arr([reference])), Named(EXCLUDE, Arr([]))];
    SingleWithin(reference.s, 3);
    SizeFieldsAtMost(inner, 2);
    assert Bounded(Obj(inner), 2) && Size(Obj(inner)) <= 5;
    var outer := [Named(REF_NAME, Obj(inner))];
    SizeFieldsAtMost(outer, 5);
    assert Bounded(Obj(outer), 1) && Size(Obj(outer)) <= 6;
  }

  lemma PublicWithin(id: int, repository: Text, target: Text)
    requires Proper(id, repository, target)
    ensures Within(PublicPart(id, repository, target))
  {
    hide ReferenceConditions, RepositoryName, SizeFields;
    RepositoryNamePlain(repository);
    PlainTarget(target);
    ConditionsWithin(target);
    var fields := PublicPart(id, repository, target).fields;
    forall i | 0 <= i < |fields| ensures Bounded(fields[i].item, 1) && Size(fields[i].item) <= 6 {
    }
    SizeFieldsAtMost(fields, 6);
  }

  lemma PublicCanonical(id: int, repository: Text, target: Text)
    requires Proper(id, repository, target)
    ensures CanonicalText(PublicPart(id, repository, target)).Some?
  {
    hide Proper, Within, PublicPart, Stringify, Arrange;
    PublicWithin(id, repository, target);
    PublicFits(id, repository, target);
    AsciiBytes(Stringify(Arrange(PublicPart(id, repository, target)), 0, 0));
  }

  // ---------------------------------------------------------------- a witness

  /** Two bare rulesets made at one moment and observed two seconds later. */
  function ExampleRequest(repository: Text, ids: (int, int), identity: (int, int, int), made: Text,
      seen: Text): Request {
    Request(Str(repository), Num(Whole(identity.0)), Num(Whole(identity.1)), Num(Whole(identity.2)), Str(seen),
            Arr([Ruleset(ids.0, repository, BRANCH, made), Ruleset(ids.1, repository, TAG, made)]))
  }

  predicate ProperIdentity(identity: (int, int, int)) {
    0 < identity.0 <= MAX_SAFE && 0 < identity.1 <= MAX_SAFE && 0 < identity.2 <= MAX_SAFE
  }

  lemma ExampleRecordable(id: int, repository: Text, target: Text, ms: int, q: Request)
    requires Proper(id, repository, target) && q.repository == Str(repository)
    requires MS_1970 <= ms && ms + 2000 < MS_10000
    requires Observable(q.observedAt) && InstantOf(q.observedAt.s) == ms + 2000
    ensures Recordable(Ruleset(id, repository, target, Moment(ms)), q)
  {
    hide Proper, PublicPart, Ruleset, Get, Normalise, InstantOf, ExactReferences, CanonicalText, PublicFields, Moment,
         MS_10000;
    MomentSettles(ms);
    RulesetFields(id, repository, target, Moment(ms));
    RulesetExact(id, repository, target, Moment(ms));
    PublicCanonical(id, repository, target);
    OwnsObject(Ruleset(id, repository, target, Moment(ms)));
  }

  /** Main result: whatever the repository, the identities and the moment, two bare rulesets observed two seconds after
      they were made are recorded. */
  lemma ExampleIsCreated(sha: Hash, repository: Text, ids: (int, int), identity: (int, int, int), ms: int)
    requires Proper(ids.0, repository, BRANCH) && Proper(ids.1, repository, TAG) && ids.0 != ids.1
    requires ProperIdentity(identity) && MS_1970 <= ms && ms + 2000 < MS_10000
    ensures Create(sha, ExampleRequest(repository, ids, identity, Moment(ms), Moment(ms + 2000))).Some?
  {
    hide Ruleset, Get, Normalise, InstantOf, Moment, Recordable, Create, MS_10000, BRANCH, TAG, RepositoryName;
    MomentSettles(ms);
    MomentSettles(ms + 2000);
    var q := ExampleRequest(repository, ids, identity, Moment(ms), Moment(ms + 2000));
    ExampleRecordable(ids.0, repository, BRANCH, ms, q);
    ExampleRecordable(ids.1, repository, TAG, ms, q);
    RulesetExact(ids.0, repository, BRANCH, Moment(ms));
    RulesetExact(ids.1, repository, TAG, Moment(ms));
    BranchIsNotTag();
    CreateExactly(sha, q);
  }
}
