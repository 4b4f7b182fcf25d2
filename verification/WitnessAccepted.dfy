/** Exactly which pairs of rulesets can be recorded. */
module WitnessAccepted {
  import opened Strings
  import opened Json
  import opened Canonical
  import opened Timestamp
  import opened Witness
  import opened PrintedSize
  import opened WitnessSize

  // ------------------------------------- a valid record is inside every bound

  lemma RuleWithin(r: Rule, observedAt: Text, depth: nat)
    requires Settled(observedAt) && ValidRule(r, observedAt) && depth < MAX_DEPTH
    ensures Bounded(RuleValue(r), depth) && Size(RuleValue(r)) <= 7
  {
    hide Settled, Normalise, InstantOf, SizeFields;
    SettledText(r.createdAt);
    SettledText(r.updatedAt);
    var fields := RuleValue(r).fields;
    forall i | 0 <= i < |fields| ensures Bounded(fields[i].item, depth + 1) {
    }
    SizeFieldsAtMost(fields, 1);
  }

  lemma PairWithin(a: Value, b: Value)
    requires Bounded(a, 2) && Bounded(b, 2) && Size(a) <= 7 && Size(b) <= 7
    ensures Bounded(Arr([a, b]), 1) && Size(Arr([a, b])) <= 15
  {
    assert [a, b][1..] == [b] && [b][1..] == [];
    assert SizeItems([b]) == Size(b) + SizeItems([]) && SizeItems([a, b]) == Size(a) + SizeItems([b]);
  }

  lemma RecordWithin(w: Record)
    requires ValidRecord(w)
    ensures Within(RecordValue(w))
  {
    hide Settled, Normalise, InstantOf, RepositoryName, ValidRule, RuleValue, SizeFields, SizeItems;
    SettledText(w.observedAt);
    RepositoryNamePlain(w.repository);
    RuleWithin(w.rulesets[0], w.observedAt, 2);
    RuleWithin(w.rulesets[1], w.observedAt, 2);
    PairWithin(RuleValue(w.rulesets[0]), RuleValue(w.rulesets[1]));
    var fields := RecordValue(w).fields;
    assert fields[6].item == Arr([RuleValue(w.rulesets[0]), RuleValue(w.rulesets[1])]);
    forall i | 0 <= i < |fields| ensures Bounded(fields[i].item, 1) && Size(fields[i].item) <= 15 {
    }
    SizeFieldsAtMost(fields, 15);
  }

  /** The bounds of the canonicaliser never stop a valid record. */
  lemma RecordCanonical(w: Record)
    requires ValidRecord(w)
    ensures CanonicalText(RecordValue(w)).Some?
  {
    hide ValidRecord, Within, RecordValue, Stringify, Arrange;
    RecordWithin(w);
    RecordFits(w, 0);
    AsciiBytes(Stringify(Arrange(RecordValue(w)), 0, 0));
  }

  // ------------------------------------------------------------- the moments

  /** An accepted timestamp whose UTC moment lies in the years 1970 to 9999. */
  predicate Observable(v: Value) {
    TimestampOf(v).Some? && MS_1970 <= InstantOf(v.s) < MS_10000
  }

  lemma ObservableSettles(v: Value)
    requires TimestampOf(v).Some?
    ensures Observable(v) <==> Settled(TimestampOf(v).value)
    ensures Observable(v) ==> InstantOf(TimestampOf(v).value) == InstantOf(v.s)
  {
    hide InstantOf;
    NormalisationSettles(v.s);
    if Observable(v) {
      ObservedInstant(v, TimestampOf(v).value);
    }
  }

  /** Created before it was updated, and updated at least two seconds before the observation. */
  predicate Ordered(raw: Value, observedAt: Value)
    requires Observable(Get(raw, CREATED_AT)) && Observable(Get(raw, UPDATED_AT)) && Observable(observedAt)
  {
    && InstantOf(Get(raw, CREATED_AT).s) <= InstantOf(Get(raw, UPDATED_AT).s)
    && InstantOf(Get(raw, UPDATED_AT).s) + 2000 <= InstantOf(observedAt.s)
  }

  // ------------------------------------------------------------- the rulesets

  /** An exact ruleset without bypass actors, its public fields inside the bounds. */
  predicate Public(raw: Value, repository: Value) {
    && raw.Obj? && ExactReferences(raw, repository) && OwnsPublicFields(raw)
    && Get(raw, BYPASS_ACTORS) == Arr([])
    && CanonicalText(PublicFields(raw)).Some?
  }

  predicate Recordable(raw: Value, q: Request)
    requires Observable(q.observedAt)
  {
    && Public(raw, q.repository)
    && Observable(Get(raw, CREATED_AT)) && Observable(Get(raw, UPDATED_AT)) && Ordered(raw, q.observedAt)
  }

  lemma RuleOfExactly(sha: Hash, raw: Value, repository: Value)
    ensures RuleOf(sha, raw, repository).Some? <==>
            Public(raw, repository) && TimestampOf(Get(raw, CREATED_AT)).Some? &&
              TimestampOf(Get(raw, UPDATED_AT)).Some?
    ensures RuleOf(sha, raw, repository).Some? ==>
              var r := RuleOf(sha, raw, repository).value;
              && Some(r.createdAt) == TimestampOf(Get(raw, CREATED_AT)) &&
                 Some(r.updatedAt) == TimestampOf(Get(raw, UPDATED_AT))
  {
    hide Get, Keys, RepositoryName, OwnsPublicFields, PublicFields, CanonicalText, TimestampOf;
    if raw.Obj? && ExactReferences(raw, repository) {
      assert Get(raw, SOURCE) == repository;
    }
  }

  /** An entry is valid exactly when its ruleset could be recorded at that moment. */
  lemma EntryValid(sha: Hash, raw: Value, q: Request)
    requires Observable(q.observedAt) && RuleOf(sha, raw, q.repository).Some?
    ensures Settled(TimestampOf(q.observedAt).value)
    ensures ValidRule(RuleOf(sha, raw, q.repository).value, TimestampOf(q.observedAt).value) <==> Recordable(raw, q)
  {
    hide Get, Public, TimestampOf, InstantOf, RuleOf, Settled, Observable;
    RuleOfExactly(sha, raw, q.repository);
    RuleOfPositive(sha, raw, q.repository);
    RuleOfSha(sha, raw, q.repository);
    ObservableIsTime(q.observedAt);
    ObservableSettles(q.observedAt);
    ObservableSettles(Get(raw, CREATED_AT));
    ObservableSettles(Get(raw, UPDATED_AT));
  }

  lemma RuleOfSha(sha: Hash, raw: Value, repository: Value)
    requires RuleOf(sha, raw, repository).Some?
    ensures IsSha256(RuleOf(sha, raw, repository).value.publicSha256)
  {
    hide Get, ExactReferences, OwnsPublicFields, PublicFields, CanonicalText, TimestampOf;
  }

  // --------------------------------------------------------------- the result

  /** Two recordable rulesets, of different identities and targets. */
  predicate RecordablePair(q: Request)
    requires Observable(q.observedAt) && q.rulesets.Arr? && |q.rulesets.items| == 2
  {
    var a, b := q.rulesets.items[0], q.rulesets.items[1];
    && Recordable(a, q) && Recordable(b, q)
    && Get(a, ID) != Get(b, ID) && Get(a, TARGET) != Get(b, TARGET)
  }

  /** Main result: a witness is created exactly for two recordable rulesets, one for each target, under a proper
      identity. The bounds on the witness itself and the order of the rulesets never matter. */
  lemma CreateExactly(sha: Hash, q: Request)
    ensures Create(sha, q).Some? <==>
            && RepositoryName(q.repository) && Positive(q.repositoryId) && Positive(q.ownerId) &&
               Positive(q.environmentId)
            && q.rulesets.Arr? && |q.rulesets.items| == 2
            && Observable(q.observedAt) && RecordablePair(q)
  {
    hide RuleOf, WitnessObject, TimestampOf, ExactReferences, Get, BRANCH, TAG, Recordable, Observable, CanonicalText,
         RecordShape, Settled, ValidRule, RepositoryName;
    if q.rulesets.Arr? && |q.rulesets.items| == 2 {
      var first, second := q.rulesets.items[0], q.rulesets.items[1];
      RecordableHasRule(sha, first, q);
      RecordableHasRule(sha, second, q);
      if TimestampOf(q.observedAt).Some? && RuleOf(sha, first, q.repository).Some? &&
         RuleOf(sha, second, q.repository).Some? {
        CreateOfRules(sha, q);
      }
      ObservableIsTime(q.observedAt);
    }
  }

  lemma ObservableIsTime(v: Value)
    ensures Observable(v) ==> TimestampOf(v).Some?
  {
    hide TimestampOf, InstantOf;
  }

  lemma RecordableHasRule(sha: Hash, raw: Value, q: Request)
    ensures Observable(q.observedAt) && Recordable(raw, q) ==> RuleOf(sha, raw, q.repository).Some?
  {
    hide Public, TimestampOf, RuleOf, InstantOf, Get;
    RuleOfExactly(sha, raw, q.repository);
  }

  /** The record of two entries under a proper identity. */
  function RecordOf(sha: Hash, q: Request): Record
    requires q.rulesets.Arr? && |q.rulesets.items| == 2 && TimestampOf(q.observedAt).Some?
    requires RuleOf(sha, q.rulesets.items[0], q.repository).Some? &&
             RuleOf(sha, q.rulesets.items[1], q.repository).Some?
    requires q.repository.Str? && Positive(q.repositoryId) && Positive(q.ownerId) && Positive(q.environmentId)
  {
    var a, b := RuleOf(sha, q.rulesets.items[0], q.repository), RuleOf(sha, q.rulesets.items[1], q.repository);
    Record(q.repository.s, q.repositoryId.n.n, q.ownerId.n.n, q.environmentId.n.n, TimestampOf(q.observedAt).value,
           ByTarget(a.value, b.value))
  }

  lemma RecordOfValid(sha: Hash, q: Request)
    requires q.rulesets.Arr? && |q.rulesets.items| == 2 && TimestampOf(q.observedAt).Some?
    requires RuleOf(sha, q.rulesets.items[0], q.repository).Some? &&
             RuleOf(sha, q.rulesets.items[1], q.repository).Some?
    requires RepositoryName(q.repository) && q.repository.Str?
    requires Positive(q.repositoryId) && Positive(q.ownerId) && Positive(q.environmentId)
    ensures ValidRecord(RecordOf(sha, q)) <==> Observable(q.observedAt) && RecordablePair(q)
  {
    hide RuleOf, TimestampOf, ExactReferences, Get, BRANCH, TAG, Recordable, Observable, Settled, ValidRule,
         RepositoryName;
    var first, second := q.rulesets.items[0], q.rulesets.items[1];
    RuleOfPositive(sha, first, q.repository);
    RuleOfPositive(sha, second, q.repository);
    ObservableSettles(q.observedAt);
    if Observable(q.observedAt) {
      EntryValid(sha, first, q);
      EntryValid(sha, second, q);
    }
  }

  /** Once both entries and the time are there, what is left is the validation of the record. */
  lemma CreateOfRules(sha: Hash, q: Request)
    requires q.rulesets.Arr? && |q.rulesets.items| == 2 && TimestampOf(q.observedAt).Some?
    requires RuleOf(sha, q.rulesets.items[0], q.repository).Some? &&
             RuleOf(sha, q.rulesets.items[1], q.repository).Some?
    ensures Create(sha, q).Some? <==>
            && RepositoryName(q.repository) && Positive(q.repositoryId) && Positive(q.ownerId) &&
               Positive(q.environmentId)
            && Observable(q.observedAt) && RecordablePair(q)
  {
    hide RuleOf, WitnessObject, TimestampOf, ExactReferences, Get, Recordable, RecordablePair, Observable,
         CanonicalText, RecordShape, ValidRecord, RepositoryName, ByTarget;
    var observedAt := TimestampOf(q.observedAt).value;
    var a, b := RuleOf(sha, q.rulesets.items[0], q.repository).value,
        RuleOf(sha, q.rulesets.items[1], q.repository).value;
    RuleOfPositive(sha, q.rulesets.items[0], q.repository);
    RuleOfPositive(sha, q.rulesets.items[1], q.repository);
    ByTargetHolds(a, b);
    ShapeOfObject(q.repository, q.repositoryId, q.ownerId, q.environmentId, observedAt, ByTarget(a, b));
    if q.repository.Str? && Positive(q.repositoryId) && Positive(q.ownerId) && Positive(q.environmentId) {
      var w := RecordOf(sha, q);
      assert WitnessObject(q.repository, q.repositoryId, q.ownerId, q.environmentId, observedAt, ByTarget(a, b)) ==
             RecordValue(w);
      if ValidRecord(w) {
        ValidName(w);
        RecordCanonical(w);
      }
      if RepositoryName(q.repository) {
        RecordOfValid(sha, q);
      }
    } else if RepositoryName(q.repository) {
      RepositoryText(q.repository);
    }
  }

  lemma ValidName(w: Record)
    requires ValidRecord(w)
    ensures RepositoryName(Str(w.repository))
  {
    hide RepositoryName, ValidRule;
  }
}
