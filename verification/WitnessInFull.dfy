/** What recording writes down and what verification compares, with names, numbers and inequalities written out. */
module WitnessInFull {
  import opened Strings
  import opened Numbers
  import opened Json
  import opened Canonical
  import opened Timestamp
  import opened Witness
  import opened RulesetText

  // ---------------------------------------------------------------- the parts

  const NAMES: seq<Text> :=
    [Lit("id"), Lit("source_type"), Lit("source"), Lit("target"), Lit("enforcement"), Lit("conditions"), Lit("rules")]

  /** The moment a value denotes, if it is an accepted timestamp. */
  function MomentOf(v: Value): Option<int> {
    if v.Str? && Normalise(v.s).Some? then Some(InstantOf(v.s)) else None
  }

  /** A whole number that a script number can hold exactly. */
  predicate Exact(n: Number) {
    n.Whole? && -9007199254740991 <= n.n <= 9007199254740991
  }

  /** Now is not before the moment, and not more than the maximum age after it. */
  predicate YoungEnough(observed: int, now: Number, maximumAge: Option<Number>) {
    && Exact(now) && observed <= now.n
    && (maximumAge.Some? ==>
       Exact(maximumAge.value) && 0 <= maximumAge.value.n && now.n <= observed + maximumAge.value.n)
  }

  predicate NoBypass(live: Value) {
    HasOwn(live, Lit("bypass_actors")) ==> Get(live, Lit("bypass_actors")) == Arr([])
  }

  /** The seven public fields are there and equal up to name order, and both times denote the same moments. */
  ghost predicate SameInFull(observed: Value, live: Value) {
    && (forall i :: 0 <= i < |NAMES| ==> HasOwn(live, NAMES[i]) && Same(Get(observed, NAMES[i]), Get(live, NAMES[i])))
    && SameMoment(Get(observed, Lit("created_at")), Get(live, Lit("created_at")))
    && SameMoment(Get(observed, Lit("updated_at")), Get(live, Lit("updated_at")))
  }

  predicate SameMoment(a: Value, b: Value) {
    MomentOf(a).Some? && MomentOf(a) == MomentOf(b)
  }

  lemma WindowExactly(observed: int, now: Number, maximumAge: Option<Number>)
    ensures InWindow(observed, now, maximumAge) <==> YoungEnough(observed, now, maximumAge)
  {
  }

  lemma BypassExactly(live: Value)
    ensures BypassAbsentOrEmpty(live) <==> NoBypass(live)
  {
    hide Get, HasOwn;
  }

  lemma MomentExactly(a: Value, b: Value)
    ensures SameInstant(a, b) <==> SameMoment(a, b)
  {
    hide Normalise, InstantOf;
  }

  lemma SamePublic(a: Value, b: Value)
    ensures Same(PublicFields(a), PublicFields(b)) <==>
            forall i :: 0 <= i < |NAMES| ==> Same(Get(a, NAMES[i]), Get(b, NAMES[i]))
  {
    hide Get;
    NamesArePublic();
    PublicFieldsByKey(a);
    PublicFieldsByKey(b);
    if Same(PublicFields(a), PublicFields(b)) {
      SameByKey(a, b);
    }
    if forall i :: 0 <= i < |NAMES| ==> Same(Get(a, NAMES[i]), Get(b, NAMES[i])) {
      var x, y := PublicFields(a).fields, PublicFields(b).fields;
      assert forall i :: 0 <= i < |x| ==> x[i].name == y[i].name;
      forall i | 0 <= i < |x| ensures Same(x[i].item, Get(PublicFields(b), x[i].name)) {
        assert x[i] == Named(PUBLIC_KEYS[i], Get(a, PUBLIC_KEYS[i]));
        assert Same(Get(a, NAMES[i]), Get(b, NAMES[i]));
      }
      assert Names(x) == Names(y);
    }
  }

  lemma NamesArePublic()
    ensures NAMES == PUBLIC_KEYS
  {
  }

  lemma ControlsExactly(observed: Value, live: Value)
    ensures SameControls(observed, live) <==> SameInFull(observed, live)
  {
    hide Get, HasOwn, Same, PublicFields, SameInstant, SameMoment;
    NamesArePublic();
    SamePublic(observed, live);
    MomentExactly(Get(observed, CREATED_AT), Get(live, CREATED_AT));
    MomentExactly(Get(observed, UPDATED_AT), Get(live, UPDATED_AT));
  }

  // ------------------------------------------------------------ verification

  /** Main result: a live ruleset passes exactly when repository and identities are those of the request, now lies
      between the observation and the maximum age after it, bypass actors are absent or empty, and the seven public
      fields and the two moments are those of one of the observed rulesets. */
  lemma DriftInFull(sha: Hash, q: Request, live: Value, c: Claim)
    requires Create(sha, q).Some?
    requires Distinct(live) && Distinct(q.rulesets.items[0]) && Distinct(q.rulesets.items[1])
    requires NoCollision(sha, q.rulesets.items[0], live) && NoCollision(sha, q.rulesets.items[1], live)
    ensures MomentOf(q.observedAt).Some?
    ensures Proof(sha, Create(sha, q).value, live, c) <==>
            && c.repository == q.repository && c.repositoryId == q.repositoryId
            && c.ownerId == q.ownerId && c.environmentId == q.environmentId
            && YoungEnough(MomentOf(q.observedAt).value, c.now, c.maximumAge)
            && NoBypass(live)
            && (SameInFull(q.rulesets.items[0], live) || SameInFull(q.rulesets.items[1], live))
  {
    hide Create, Proof, SameControls, SameInFull, InWindow, YoungEnough, NoCollision, Distinct, BypassAbsentOrEmpty,
         NoBypass, Normalise, InstantOf, RuleOf, ReadRecord, WitnessObject, ValidRecord;
    var _, _, _, _ := AcceptedRequest(sha, q);
    DriftDetection(sha, q, live, c);
    WindowExactly(MomentOf(q.observedAt).value, c.now, c.maximumAge);
    BypassExactly(live);
    ControlsExactly(q.rulesets.items[0], live);
    ControlsExactly(q.rulesets.items[1], live);
  }

  /** A recorded entry that is about this ruleset and agrees with it. */
  ghost predicate Agrees(sha: Hash, rule: Rule, raw: Value) {
    && Get(raw, Lit("id")) == Num(Whole(rule.id)) && Get(raw, Lit("target")) == Str(rule.target)
    && TimestampOf(Get(raw, Lit("created_at"))) == Some(rule.createdAt)
    && TimestampOf(Get(raw, Lit("updated_at"))) == Some(rule.updatedAt)
    && PublicDigest(sha, raw) == Some(rule.publicSha256)
  }

  /** Main result: the same for any witness, created or not. */
  lemma ProofInFull(sha: Hash, v: Value, raw: Value, c: Claim, w: Record)
    requires ReadRecord(v) == Some(w)
    ensures Normalise(w.observedAt).Some?
    ensures Proof(sha, v, raw, c) <==>
            && c.repository == Str(w.repository) && c.repositoryId == Num(Whole(w.repositoryId))
            && c.ownerId == Num(Whole(w.ownerId)) && c.environmentId == Num(Whole(w.environmentId))
            && YoungEnough(InstantOf(w.observedAt), c.now, c.maximumAge)
            && raw.Obj? && ExactReferences(raw, c.repository) && NoBypass(raw)
            && exists k :: 0 <= k < |w.rulesets| && Agrees(sha, w.rulesets[k], raw)
  {
    hide InWindow, YoungEnough, ExactReferences, BypassAbsentOrEmpty, NoBypass, TimestampOf, PublicDigest, Get,
         FindRule,
         Matches, Normalise, InstantOf, ValidRule, RepositoryName, RecordShape, CanonicalText;
    ValidOf(v, w);
    WindowExactly(InstantOf(w.observedAt), c.now, c.maximumAge);
    BypassExactly(raw);
    var a, b := w.rulesets[0], w.rulesets[1];
    assert w.rulesets == [a, b];
    FindsRule(w.rulesets, a, b, raw);
    NotBoth(a, b, raw);
    MatchExactly(a, raw);
    MatchExactly(b, raw);
    assert (exists k :: 0 <= k < |w.rulesets| && Agrees(sha, w.rulesets[k], raw)) <==>
           Agrees(sha, a, raw) || Agrees(sha, b, raw) by {
      if Agrees(sha, a, raw) {
        assert Agrees(sha, w.rulesets[0], raw);
      }
      if Agrees(sha, b, raw) {
        assert Agrees(sha, w.rulesets[1], raw);
      }
    }
  }

  lemma ValidOf(v: Value, w: Record)
    requires ReadRecord(v) == Some(w)
    ensures ValidRecord(w)
  {
    hide ValidRecord, RecordShape, CanonicalText;
  }

  lemma MatchExactly(r: Rule, raw: Value)
    ensures Matches(r, raw) <==> Get(raw, Lit("id")) == Num(Whole(r.id)) && Get(raw, Lit("target")) == Str(r.target)
  {
    hide Get;
  }

  // --------------------------------------------------------------- recording

  /** An item of the witness that records this ruleset. */
  ghost predicate Records(sha: Hash, item: Value, raw: Value) {
    && Get(item, Lit("id")) == Get(raw, Lit("id")) && Get(item, Lit("target")) == Get(raw, Lit("target"))
    && Get(item, Lit("createdAt")).Str? && Get(item, Lit("updatedAt")).Str? && Get(item, Lit("publicSha256")).Str?
    && TimestampOf(Get(raw, Lit("created_at"))) == Some(Get(item, Lit("createdAt")).s)
    && TimestampOf(Get(raw, Lit("updated_at"))) == Some(Get(item, Lit("updatedAt")).s)
    && PublicDigest(sha, raw) == Some(Get(item, Lit("publicSha256")).s)
    && Get(item, Lit("bypassActors")) == Arr([])
  }

  lemma RuleItems(r: Rule)
    ensures var item := RuleValue(r);
            && Get(item, ID) == Num(Whole(r.id)) && Get(item, TARGET) == Str(r.target)
            && Get(item, RULE_CREATED_AT) == Str(r.createdAt) && Get(item, RULE_UPDATED_AT) == Str(r.updatedAt)
            && Get(item, PUBLIC_SHA256) == Str(r.publicSha256) && Get(item, RULE_BYPASS_ACTORS) == Arr([])
  {
    hide Get;
    RuleKeysDiffer();
    var fields := RuleValue(r).fields;
    FieldsByKey(fields, RULE_KEYS);
    assert Get(RuleValue(r), RULE_KEYS[0]) == fields[0].item && Get(RuleValue(r), RULE_KEYS[1]) == fields[1].item;
    assert Get(RuleValue(r), RULE_KEYS[2]) == fields[2].item && Get(RuleValue(r), RULE_KEYS[3]) == fields[3].item;
    assert Get(RuleValue(r), RULE_KEYS[4]) == fields[4].item && Get(RuleValue(r), RULE_KEYS[5]) == fields[5].item;
  }

  lemma RecordItems(w: Record)
    ensures var v := RecordValue(w);
            && Get(v, SCHEMA_VERSION) == Num(Whole(1)) && Get(v, REPOSITORY) == Str(w.repository)
            && Get(v, REPOSITORY_ID) == Num(Whole(w.repositoryId)) && Get(v, OWNER_ID) == Num(Whole(w.ownerId))
            && Get(v, ENVIRONMENT_ID) == Num(Whole(w.environmentId)) && Get(v, OBSERVED_AT) == Str(w.observedAt)
            && Get(v, RULESETS) == Arr(RuleValues(w.rulesets))
  {
    hide Get, RuleValue;
    WitnessKeysDiffer();
    var v, fields := RecordValue(w), RecordValue(w).fields;
    FieldsByKey(fields, WITNESS_KEYS);
    assert Get(v, WITNESS_KEYS[0]) == fields[0].item && Get(v, WITNESS_KEYS[1]) == fields[1].item;
    assert Get(v, WITNESS_KEYS[2]) == fields[2].item && Get(v, WITNESS_KEYS[3]) == fields[3].item;
    assert Get(v, WITNESS_KEYS[4]) == fields[4].item && Get(v, WITNESS_KEYS[5]) == fields[5].item;
    assert Get(v, WITNESS_KEYS[6]) == fields[6].item == Arr(RuleValues(w.rulesets));
  }

  /** The entry of a ruleset, item by item. */
  lemma EntryRecords(sha: Hash, raw: Value, repository: Value)
    requires RuleOf(sha, raw, repository).Some?
    ensures Records(sha, RuleValue(RuleOf(sha, raw, repository).value), raw)
  {
    hide Get, ExactReferences, PublicDigest, TimestampOf, RuleValue;
    RuleOfPositive(sha, raw, repository);
    RuleItems(RuleOf(sha, raw, repository).value);
  }

  /** Main result: the witness holds version 1, the identities and the normalised moment of the request, and two items,
      first the one for the ruleset of the branch, then the one for the ruleset of the tag. */
  lemma CreatedInFull(sha: Hash, q: Request)
    requires Create(sha, q).Some?
    ensures q.rulesets.Arr? && |q.rulesets.items| == 2
    ensures var v := Create(sha, q).value;
            && Get(v, Lit("schemaVersion")) == Num(Whole(1)) && Get(v, Lit("repository")) == q.repository
            && Get(v, Lit("repositoryId")) == q.repositoryId && Get(v, Lit("ownerId")) == q.ownerId
            && Get(v, Lit("environmentId")) == q.environmentId
            && Get(v, Lit("observedAt")).Str? && TimestampOf(q.observedAt) == Some(Get(v, Lit("observedAt")).s)
    ensures var items, raws := Get(Create(sha, q).value, Lit("rulesets")), q.rulesets.items;
            && items.Arr? && |items.items| == 2
            && Get(items.items[0], Lit("target")) == Str(Lit("branch"))
            && Get(items.items[1], Lit("target")) == Str(Lit("tag"))
            && ((Records(sha, items.items[0], raws[0]) && Records(sha, items.items[1], raws[1]))
                || (Records(sha, items.items[0], raws[1]) && Records(sha, items.items[1], raws[0])))
  {
    hide Create, RuleOf, ReadRecord, RuleValue, Get, Records, TimestampOf, ExactReferences;
    var v, w, a, b := AcceptedRequest(sha, q);
    assert v == RecordValue(w);
    RecordItems(w);
    OrderedByTarget(w, a, b);
    EntryRecords(sha, q.rulesets.items[0], q.repository);
    EntryRecords(sha, q.rulesets.items[1], q.repository);
    RuleItems(w.rulesets[0]);
    RuleItems(w.rulesets[1]);
  }

  lemma OrderedByTarget(w: Record, a: Rule, b: Rule)
    requires ValidRecord(w) && w.rulesets == ByTarget(a, b)
    ensures w.rulesets[0].target == Lit("branch") && w.rulesets[1].target == Lit("tag")
    ensures w.rulesets == [a, b] || w.rulesets == [b, a]
  {
    hide RepositoryName, Settled, Normalise, InstantOf, BRANCH, TAG;
    BranchIsNotTag();
    TargetTexts();
    TargetsOfRecord(w, a, b);
  }

  lemma TargetTexts()
    ensures BRANCH == Lit("branch") && TAG == Lit("tag")
  {
  }

  lemma TargetsOfRecord(w: Record, a: Rule, b: Rule)
    requires ValidRecord(w) && w.rulesets == ByTarget(a, b)
    ensures w.rulesets[0].target != w.rulesets[1].target
    ensures forall i :: 0 <= i < 2 ==> w.rulesets[i].target == BRANCH || w.rulesets[i].target == TAG
  {
    hide RepositoryName, Settled, Normalise, InstantOf, BRANCH, TAG;
  }

  // ---------------------------------------------------------------- validation

  predicate HexInFull(t: Text) {
    |t| == 64 && forall i :: 0 <= i < |t| ==> 48 <= t[i] <= 57 || 97 <= t[i] <= 102
  }

  /** An entry that can stand in a witness of this moment. */
  predicate RuleInFull(r: Rule, observed: int) {
    && 1 <= r.id <= 9007199254740991 && (r.target == Lit("branch") || r.target == Lit("tag"))
    && HexInFull(r.publicSha256)
    && Normalise(r.createdAt) == Some(r.createdAt) && Normalise(r.updatedAt) == Some(r.updatedAt)
    && InstantOf(r.createdAt) <= InstantOf(r.updatedAt) <= observed - 2000
  }

  /** Main result: the records that pass the validation, in numbers. */
  lemma ValidInFull(w: Record)
    ensures ValidRecord(w) <==>
            && RepositoryInFull(Str(w.repository))
            && 1 <= w.repositoryId <= 9007199254740991 && 1 <= w.ownerId <= 9007199254740991
            && 1 <= w.environmentId <= 9007199254740991
            && Normalise(w.observedAt) == Some(w.observedAt)
            && |w.rulesets| == 2
            && RuleInFull(w.rulesets[0], InstantOf(w.observedAt)) && RuleInFull(w.rulesets[1], InstantOf(w.observedAt))
            && w.rulesets[0].id != w.rulesets[1].id && w.rulesets[0].target != w.rulesets[1].target
  {
    hide RepositoryName, RepositoryInFull, Normalise, InstantOf, ValidRule, RuleInFull;
    RepositoryExactly(Str(w.repository));
    if |w.rulesets| == 2 && Settled(w.observedAt) {
      RuleExactly(w.rulesets[0], w.observedAt);
      RuleExactly(w.rulesets[1], w.observedAt);
    }
  }

  lemma RuleExactly(r: Rule, observedAt: Text)
    requires Settled(observedAt)
    ensures ValidRule(r, observedAt) <==> RuleInFull(r, InstantOf(observedAt))
  {
    hide Normalise, InstantOf;
    TargetTexts();
  }
}
