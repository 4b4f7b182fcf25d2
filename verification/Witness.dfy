/** The release-controls witness: what is recorded about two rulesets, and when a live ruleset still matches. */
module Witness {
  import opened Strings
  import opened Numbers
  import opened Json
  import Utf8
  import opened Canonical
  import opened Timestamp

  // --------------------------------------------------------------- digests

  predicate IsSha256(t: Text) {
    |t| == 64 && forall i :: 0 <= i < |t| ==> IsDigit(t[i]) || LOWER_A <= t[i] <= LOWER_F
  }

  type HexDigest = t: Text | IsSha256(t) witness seq(64, _ => ZERO)

  /** SHA-256 in hexadecimal. Nothing is assumed about it here. */
  type Hash = Bytes -> HexDigest

  // ----------------------------------------------------------------- names

  const ID := Lit("id")
  const SOURCE_TYPE := Lit("source_type")
  const SOURCE := Lit("source")
  const TARGET := Lit("target")
  const ENFORCEMENT := Lit("enforcement")
  const CONDITIONS := Lit("conditions")
  const RULES := Lit("rules")
  const REF_NAME := Lit("ref_name")
  const INCLUDE := Lit("include")
  const EXCLUDE := Lit("exclude")
  const BYPASS_ACTORS := Lit("bypass_actors")
  const CREATED_AT := Lit("created_at")
  const UPDATED_AT := Lit("updated_at")

  const BRANCH := Lit("branch")
  const TAG := Lit("tag")

  const SCHEMA_VERSION := Lit("schemaVersion")
  const REPOSITORY := Lit("repository")
  const REPOSITORY_ID := Lit("repositoryId")
  const OWNER_ID := Lit("ownerId")
  const ENVIRONMENT_ID := Lit("environmentId")
  const OBSERVED_AT := Lit("observedAt")
  const RULESETS := Lit("rulesets")

  const RULE_CREATED_AT := Lit("createdAt")
  const RULE_UPDATED_AT := Lit("updatedAt")
  const PUBLIC_SHA256 := Lit("publicSha256")
  const RULE_BYPASS_ACTORS := Lit("bypassActors")

  const PUBLIC_KEYS: seq<Text> := [ID, SOURCE_TYPE, SOURCE, TARGET, ENFORCEMENT, CONDITIONS, RULES]
  const WITNESS_KEYS: seq<Text> :=
    [SCHEMA_VERSION, REPOSITORY, REPOSITORY_ID, OWNER_ID, ENVIRONMENT_ID, OBSERVED_AT, RULESETS]
  const RULE_KEYS: seq<Text> := [ID, TARGET, RULE_CREATED_AT, RULE_UPDATED_AT, PUBLIC_SHA256, RULE_BYPASS_ACTORS]

  ghost predicate AllDifferent(keys: seq<Text>) {
    forall i, j :: 0 <= i < j < |keys| ==> keys[i] != keys[j]
  }

  // ---------------------------------------------------------- field checks

  /** An object with exactly these names. */
  predicate Keys(v: Value, expected: seq<Text>) {
    v.Obj? && |v.fields| == |expected| && forall i :: 0 <= i < |expected| ==> HasOwn(v, expected[i])
  }

  predicate Positive(v: Value) {
    v.Num? && v.n.Whole? && 0 < v.n.n <= MAX_SAFE
  }

  predicate OwnerName(t: Text) {
    && 1 <= |t| <= 39
    && (IsLetter(t[0]) || IsDigit(t[0]))
    && forall i :: 0 <= i < |t| ==> IsLetter(t[i]) || IsDigit(t[i]) || t[i] == MINUS
  }

  predicate ProjectName(t: Text) {
    && 1 <= |t| <= 100
    && forall i :: 0 <= i < |t| ==>
         IsLetter(t[i]) || IsDigit(t[i]) || t[i] == MINUS || t[i] == UNDERSCORE || t[i] == DOT
  }

  predicate RepositoryName(v: Value) {
    v.Str? && var parts := Split(v.s, SLASH); |parts| == 2 && OwnerName(parts[0]) && ProjectName(parts[1])
  }

  /** The one reference a control may name. */
  function Reference(target: Value): Value {
    if target == Str(BRANCH) then Str(Lit("refs/heads/main")) else Str(Lit("refs/tags/v*"))
  }

  /** An active ruleset of this repository over exactly the expected reference. */
  predicate ExactReferences(raw: Value, repository: Value) {
    var target, conditions := Get(raw, TARGET), Get(raw, CONDITIONS);
    var refName := Get(conditions, REF_NAME);
    && RepositoryName(repository)
    && Positive(Get(raw, ID))
    && Get(raw, SOURCE_TYPE) == Str(Lit("Repository"))
    && Get(raw, SOURCE) == repository
    && Get(raw, ENFORCEMENT) == Str(Lit("active"))
    && (target == Str(BRANCH) || target == Str(TAG))
    && Get(raw, RULES).Arr?
    && Keys(conditions, [REF_NAME])
    && Keys(refName, [INCLUDE, EXCLUDE])
    && Get(refName, INCLUDE) == Arr([Reference(target)])
    && Get(refName, EXCLUDE) == Arr([])
  }

  function PublicFields(raw: Value): Value {
    Obj(seq(|PUBLIC_KEYS|, i requires 0 <= i < |PUBLIC_KEYS| => Named(PUBLIC_KEYS[i], Get(raw, PUBLIC_KEYS[i]))))
  }

  predicate OwnsPublicFields(raw: Value) {
    forall i :: 0 <= i < |PUBLIC_KEYS| ==> HasOwn(raw, PUBLIC_KEYS[i])
  }

  /** `rulesetPublicDigest`. */
  function PublicDigest(sha: Hash, raw: Value): Option<Text> {
    if !OwnsPublicFields(raw) || !ExactReferences(raw, Get(raw, SOURCE)) then None
    else
      match CanonicalText(PublicFields(raw))
      case None => None
      case Some(text) => Some(sha(Utf8.Encode(text)))
  }

  /** `timestamp` on any value. */
  function TimestampOf(v: Value): Option<Text> {
    if v.Str? then Normalise(v.s) else None
  }

  // ------------------------------------------------------------ the record

  datatype Rule = Rule(id: int, target: Text, createdAt: Text, updatedAt: Text, publicSha256: Text)

  datatype Record = Record(
    repository: Text, repositoryId: int, ownerId: int, environmentId: int, observedAt: Text, rulesets: seq<Rule>)

  predicate Settled(t: Text) {
    Normalise(t) == Some(t)
  }

  predicate ValidRule(r: Rule, observedAt: Text)
    requires Settled(observedAt)
  {
    && 0 < r.id <= MAX_SAFE
    && (r.target == BRANCH || r.target == TAG)
    && IsSha256(r.publicSha256)
    && Settled(r.createdAt) && Settled(r.updatedAt)
    && InstantOf(r.createdAt) <= InstantOf(r.updatedAt)
    && InstantOf(r.updatedAt) + 2000 <= InstantOf(observedAt)
  }

  predicate ValidRecord(w: Record) {
    && RepositoryName(Str(w.repository))
    && 0 < w.repositoryId <= MAX_SAFE && 0 < w.ownerId <= MAX_SAFE && 0 < w.environmentId <= MAX_SAFE
    && Settled(w.observedAt)
    && |w.rulesets| == 2
    && (forall i :: 0 <= i < |w.rulesets| ==> ValidRule(w.rulesets[i], w.observedAt))
    && w.rulesets[0].id != w.rulesets[1].id
    && w.rulesets[0].target != w.rulesets[1].target
  }

  function RuleValue(r: Rule): Value {
    Obj([Named(ID, Num(Whole(r.id))), Named(TARGET, Str(r.target)), Named(RULE_CREATED_AT, Str(r.createdAt)),
         Named(RULE_UPDATED_AT, Str(r.updatedAt)), Named(PUBLIC_SHA256, Str(r.publicSha256)),
         Named(RULE_BYPASS_ACTORS, Arr([]))])
  }

  /** The object literal `createControlsWitness` builds. */
  function WitnessObject(repository: Value, repositoryId: Value, ownerId: Value, environmentId: Value,
                         observedAt: Text, rulesets: seq<Rule>): Value {
    Obj([Named(SCHEMA_VERSION, Num(Whole(1))), Named(REPOSITORY, repository), Named(REPOSITORY_ID, repositoryId),
         Named(OWNER_ID, ownerId), Named(ENVIRONMENT_ID, environmentId), Named(OBSERVED_AT, Str(observedAt)),
         Named(RULESETS, Arr(seq(|rulesets|, i requires 0 <= i < |rulesets| => RuleValue(rulesets[i]))))])
  }

  function RecordValue(w: Record): Value {
    WitnessObject(Str(w.repository), Num(Whole(w.repositoryId)), Num(Whole(w.ownerId)), Num(Whole(w.environmentId)),
                  w.observedAt, w.rulesets)
  }

  /** The fields of a ruleset entry, when it has exactly those and each has its type. */
  function RuleShape(v: Value): Option<Rule> {
    var id, target := Get(v, ID), Get(v, TARGET);
    var created, updated, hash := Get(v, RULE_CREATED_AT), Get(v, RULE_UPDATED_AT), Get(v, PUBLIC_SHA256);
    if Keys(v, RULE_KEYS) && Positive(id) && target.Str? && created.Str? && updated.Str? && hash.Str? &&
       Get(v, RULE_BYPASS_ACTORS) == Arr([])
    then Some(Rule(id.n.n, target.s, created.s, updated.s, hash.s))
    else None
  }

  function RuleShapes(items: seq<Value>): Option<seq<Rule>> {
    if items == [] then Some([])
    else
      match (RuleShape(items[0]), RuleShapes(items[1..]))
      case (Some(r), Some(rest)) => Some([r] + rest)
      case _ => None
  }

  function RecordShape(v: Value): Option<Record> {
    var repository, observedAt, rulesets := Get(v, REPOSITORY), Get(v, OBSERVED_AT), Get(v, RULESETS);
    var repositoryId, ownerId, environmentId := Get(v, REPOSITORY_ID), Get(v, OWNER_ID), Get(v, ENVIRONMENT_ID);
    if Keys(v, WITNESS_KEYS) && Get(v, SCHEMA_VERSION) == Num(Whole(1)) && repository.Str? && Positive(repositoryId) &&
       Positive(ownerId) && Positive(environmentId) && observedAt.Str? && rulesets.Arr?
    then
      match RuleShapes(rulesets.items)
      case None => None
      case Some(rules) =>
        Some(Record(repository.s, repositoryId.n.n, ownerId.n.n, environmentId.n.n, observedAt.s, rules))
    else None
  }

  /** What `validatedWitness` accepts, with the fields it has checked. */
  function ReadRecord(v: Value): Option<Record> {
    match RecordShape(v)
    case None => None
    case Some(w) => if ValidRecord(w) && CanonicalText(v).Some? then Some(w) else None
  }

  /** The loop of `validatedWitness`: one pass with the sets of identities and targets seen so far. */
  method CheckRules(rules: seq<Rule>, observedAt: Text) returns (accepted: bool)
    requires Settled(observedAt)
    ensures accepted <==>
            && (forall i :: 0 <= i < |rules| ==> ValidRule(rules[i], observedAt))
            && (forall i, j :: 0 <= i < j < |rules| ==>
               rules[i].id != rules[j].id && rules[i].target != rules[j].target)
  {
    hide ValidRule, Settled;
    var identities: set<int> := {};
    var targets: set<Text> := {};
    for i := 0 to |rules|
      invariant forall j :: 0 <= j < i ==> ValidRule(rules[j], observedAt)
      invariant forall j, k :: 0 <= j < k < i ==> rules[j].id != rules[k].id && rules[j].target != rules[k].target
      invariant identities == set j | 0 <= j < i :: rules[j].id
      invariant targets == set j | 0 <= j < i :: rules[j].target
    {
      var rule := rules[i];
      if !ValidRule(rule, observedAt) || rule.id in identities || rule.target in targets {
        return false;
      }
      identities := identities + {rule.id};
      targets := targets + {rule.target};
    }
    return true;
  }

  /** `validatedWitness` as it runs. */
  method ValidatedWitness(v: Value) returns (accepted: bool)
    ensures accepted <==> ReadRecord(v).Some?
  {
    hide RecordShape, ValidRule, CanonicalText, RepositoryName, Settled;
    var shape := RecordShape(v);
    if shape.None? {
      return false;
    }
    var w := shape.value;
    if !RepositoryName(Str(w.repository)) || !(0 < w.repositoryId <= MAX_SAFE) || !(0 < w.ownerId <= MAX_SAFE) ||
       !(0 < w.environmentId <= MAX_SAFE) || !Settled(w.observedAt) || |w.rulesets| != 2 {
      return false;
    }
    accepted := CheckRules(w.rulesets, w.observedAt);
    accepted := accepted && CanonicalText(v).Some?;
  }

  // ----------------------------------------------------- create and verify

  datatype Request = Request(
    repository: Value, repositoryId: Value, ownerId: Value, environmentId: Value, observedAt: Value, rulesets: Value)

  /** The entry recorded for one observed ruleset. */
  function RuleOf(sha: Hash, raw: Value, repository: Value): Option<Rule> {
    if raw.Obj? && ExactReferences(raw, repository) && Get(raw, BYPASS_ACTORS) == Arr([]) then
      match (TimestampOf(Get(raw, CREATED_AT)), TimestampOf(Get(raw, UPDATED_AT)), PublicDigest(sha, raw))
      case (Some(created), Some(updated), Some(hash)) =>
        Some(Rule(Get(raw, ID).n.n, Get(raw, TARGET).s, created, updated, hash))
      case _ => None
    else None
  }

  /** The two entries in the order of their targets. */
  function ByTarget(a: Rule, b: Rule): seq<Rule> {
    if a.target == TAG && b.target == BRANCH then [b, a] else [a, b]
  }

  /** `createControlsWitness`. */
  function Create(sha: Hash, q: Request): Option<Value> {
    if !q.rulesets.Arr? || |q.rulesets.items| != 2 then None
    else
      var items := q.rulesets.items;
      match (TimestampOf(q.observedAt), RuleOf(sha, items[0], q.repository), RuleOf(sha, items[1], q.repository))
      case (Some(observedAt), Some(a), Some(b)) =>
        var v := WitnessObject(q.repository, q.repositoryId, q.ownerId, q.environmentId, observedAt, ByTarget(a, b));
        if ReadRecord(v).Some? then Some(v) else None
      case _ => None
  }

  /** What the verifier is told independently of the witness; no maximum age means none is imposed. */
  datatype Claim = Claim(
    repository: Value, repositoryId: Value, ownerId: Value, environmentId: Value, now: Number,
      maximumAge: Option<Number>)

  predicate SafeInteger(n: Number) {
    n.Whole? && -MAX_SAFE <= n.n <= MAX_SAFE
  }

  predicate InWindow(observed: int, now: Number, maximumAge: Option<Number>) {
    && SafeInteger(now) && observed <= now.n
    && (maximumAge.Some? ==>
          SafeInteger(maximumAge.value) && 0 <= maximumAge.value.n && now.n - observed <= maximumAge.value.n)
  }

  /** The moment of observation lies within the allowed age. */
  predicate ObservedInWindow(q: Request, now: Number, maximumAge: Option<Number>) {
    TimestampOf(q.observedAt).Some? && InWindow(InstantOf(q.observedAt.s), now, maximumAge)
  }

  predicate Matches(r: Rule, raw: Value) {
    Num(Whole(r.id)) == Get(raw, ID) && Str(r.target) == Get(raw, TARGET)
  }

  predicate BypassAbsentOrEmpty(raw: Value) {
    HasOwn(raw, BYPASS_ACTORS) ==> Get(raw, BYPASS_ACTORS) == Arr([])
  }

  function FindRule(rules: seq<Rule>, raw: Value): Option<Rule> {
    if rules == [] then None
    else if Matches(rules[0], raw) then Some(rules[0])
    else FindRule(rules[1..], raw)
  }

  /** `witnessRulesetProof`. */
  predicate Proof(sha: Hash, v: Value, raw: Value, c: Claim) {
    match ReadRecord(v)
    case None => false
    case Some(w) =>
      && Str(w.repository) == c.repository && Num(Whole(w.repositoryId)) == c.repositoryId
      && Num(Whole(w.ownerId)) == c.ownerId && Num(Whole(w.environmentId)) == c.environmentId
      && InWindow(InstantOf(w.observedAt), c.now, c.maximumAge)
      && raw.Obj? && ExactReferences(raw, c.repository) && BypassAbsentOrEmpty(raw)
      && match FindRule(w.rulesets, raw)
         case None => false
         case Some(rule) =>
           && TimestampOf(Get(raw, CREATED_AT)) == Some(rule.createdAt)
           && TimestampOf(Get(raw, UPDATED_AT)) == Some(rule.updatedAt)
           && PublicDigest(sha, raw) == Some(rule.publicSha256)
  }

  // ------------------------------------------------------- names are names

  lemma PublicKeysDiffer()
    ensures AllDifferent(PUBLIC_KEYS)
  {
    assert SOURCE_TYPE[0] != ENFORCEMENT[0];
    assert SOURCE[0] != TARGET[0];
  }

  lemma WitnessKeysDiffer()
    ensures AllDifferent(WITNESS_KEYS)
  {
    assert SCHEMA_VERSION[0] != ENVIRONMENT_ID[0];
    assert REPOSITORY[0] != OBSERVED_AT[0];
  }

  lemma RuleKeysDiffer()
    ensures AllDifferent(RULE_KEYS)
  {
    assert RULE_CREATED_AT[0] != RULE_UPDATED_AT[0];
    assert PUBLIC_SHA256[0] != RULE_BYPASS_ACTORS[0];
  }

  /** Fields named by different keys can be read back by key. */
  lemma FieldsByKey(fields: seq<Named<Value>>, keys: seq<Text>)
    requires AllDifferent(keys) && |fields| == |keys|
    requires forall i :: 0 <= i < |fields| ==> fields[i].name == keys[i]
    ensures DistinctNames(fields) && Keys(Obj(fields), keys)
    ensures forall i :: 0 <= i < |fields| ==> Get(Obj(fields), keys[i]) == fields[i].item
  {
    forall i | 0 <= i < |fields|
      ensures Get(Obj(fields), keys[i]) == fields[i].item && HasOwn(Obj(fields), keys[i])
    {
      PositionUnique(fields, i);
      assert fields[i].name in Names(fields);
    }
  }

  lemma RuleShapeOfValue(r: Rule)
    requires 0 < r.id <= MAX_SAFE
    ensures RuleShape(RuleValue(r)) == Some(r)
  {
    hide Get, Keys;
    RuleKeysDiffer();
    var fields := RuleValue(r).fields;
    FieldsByKey(fields, RULE_KEYS);
    assert Get(RuleValue(r), RULE_KEYS[0]) == fields[0].item && Get(RuleValue(r), RULE_KEYS[1]) == fields[1].item;
    assert Get(RuleValue(r), RULE_KEYS[2]) == fields[2].item && Get(RuleValue(r), RULE_KEYS[3]) == fields[3].item;
    assert Get(RuleValue(r), RULE_KEYS[4]) == fields[4].item && Get(RuleValue(r), RULE_KEYS[5]) == fields[5].item;
  }

  function RuleValues(rules: seq<Rule>): seq<Value> {
    seq(|rules|, i requires 0 <= i < |rules| => RuleValue(rules[i]))
  }

  lemma {:induction false} RuleShapesOfValues(rules: seq<Rule>)
    requires forall i :: 0 <= i < |rules| ==> 0 < rules[i].id <= MAX_SAFE
    ensures RuleShapes(RuleValues(rules)) == Some(rules)
  {
    hide RuleShape, RuleValue;
    if rules != [] {
      RuleShapeOfValue(rules[0]);
      RuleShapesOfValues(rules[1..]);
      assert RuleValues(rules)[1..] == RuleValues(rules[1..]);
      assert rules == [rules[0]] + rules[1..];
    }
  }

  /** The built object is read as what went into it. */
  lemma ShapeOfObject(repository: Value, repositoryId: Value, ownerId: Value, environmentId: Value,
                      observedAt: Text, rules: seq<Rule>)
    requires forall i :: 0 <= i < |rules| ==> 0 < rules[i].id <= MAX_SAFE
    ensures var shape := RecordShape(WitnessObject(repository, repositoryId, ownerId, environmentId, observedAt,
            rules));
            if repository.Str? && Positive(repositoryId) && Positive(ownerId) && Positive(environmentId)
            then shape == Some(Record(repository.s, repositoryId.n.n, ownerId.n.n, environmentId.n.n, observedAt,
              rules))
            else shape == None
  {
    var v := WitnessObject(repository, repositoryId, ownerId, environmentId, observedAt, rules);
    hide Get, Keys, RuleValue, RuleShapes;
    var fields := v.fields;
    WitnessKeysDiffer();
    FieldsByKey(fields, WITNESS_KEYS);
    RuleShapesOfValues(rules);
    assert Get(v, WITNESS_KEYS[0]) == fields[0].item && Get(v, WITNESS_KEYS[1]) == fields[1].item;
    assert Get(v, WITNESS_KEYS[2]) == fields[2].item && Get(v, WITNESS_KEYS[3]) == fields[3].item;
    assert Get(v, WITNESS_KEYS[4]) == fields[4].item && Get(v, WITNESS_KEYS[5]) == fields[5].item;
    assert Get(v, WITNESS_KEYS[6]) == fields[6].item == Arr(RuleValues(rules));
  }

  // ----------------------------------------- controls up to name order only

  lemma PublicFieldsByKey(raw: Value)
    ensures DistinctNames(PublicFields(raw).fields)
    ensures forall i :: 0 <= i < |PUBLIC_KEYS| ==> Get(PublicFields(raw), PUBLIC_KEYS[i]) == Get(raw, PUBLIC_KEYS[i])
  {
    hide Get;
    PublicKeysDiffer();
    FieldsByKey(PublicFields(raw).fields, PUBLIC_KEYS);
  }

  lemma PublicFieldsDistinct(raw: Value)
    requires Distinct(raw)
    ensures Distinct(PublicFields(raw))
  {
    PublicFieldsByKey(raw);
  }

  /** Same public fields means each public field is the same. */
  lemma SameByKey(a: Value, b: Value)
    requires Same(PublicFields(a), PublicFields(b))
    ensures forall i :: 0 <= i < |PUBLIC_KEYS| ==> Same(Get(a, PUBLIC_KEYS[i]), Get(b, PUBLIC_KEYS[i]))
  {
    PublicFieldsByKey(a);
    PublicFieldsByKey(b);
    forall i | 0 <= i < |PUBLIC_KEYS| ensures Same(Get(a, PUBLIC_KEYS[i]), Get(b, PUBLIC_KEYS[i])) {
      assert PublicFields(a).fields[i] == Named(PUBLIC_KEYS[i], Get(a, PUBLIC_KEYS[i]));
    }
  }

  lemma {:induction false} NamesCount<T>(fields: seq<Named<T>>)
    requires DistinctNames(fields)
    ensures |Names(fields)| == |fields|
  {
    if fields != [] {
      NamesCount(fields[1..]);
      assert Names(fields) == {fields[0].name} + Names(fields[1..]);
    }
  }

  lemma SameKeys(a: Value, b: Value, keys: seq<Text>)
    requires Same(a, b) && Distinct(a) && Distinct(b) && Keys(a, keys)
    ensures Keys(b, keys)
  {
    NamesCount(a.fields);
    NamesCount(b.fields);
  }

  lemma SameGet(a: Value, b: Value, name: Text)
    requires Same(a, b) && a.Obj?
    ensures Same(Get(a, name), Get(b, name))
  {
    if name in Names(a.fields) {
      var i := Position(a.fields, name);
      assert a.fields[i].name == name;
    }
  }

  lemma DistinctGet(v: Value, name: Text)
    requires Distinct(v)
    ensures Distinct(Get(v, name))
  {
  }

  /** The checks on a ruleset look only at its public fields, and not at name order. */
  lemma ExactUpToOrder(a: Value, b: Value, repository: Value)
    requires Distinct(a) && Distinct(b) && Same(PublicFields(a), PublicFields(b))
    requires ExactReferences(a, repository)
    ensures ExactReferences(b, repository)
  {
    hide Get, Keys, Same, Distinct, RepositoryName, PublicFields;
    SameByKey(a, b);
    assert Same(Get(a, PUBLIC_KEYS[0]), Get(b, PUBLIC_KEYS[0])) && Same(Get(a, PUBLIC_KEYS[1]), Get(b, PUBLIC_KEYS[1]));
    assert Same(Get(a, PUBLIC_KEYS[2]), Get(b, PUBLIC_KEYS[2])) && Same(Get(a, PUBLIC_KEYS[3]), Get(b, PUBLIC_KEYS[3]));
    assert Same(Get(a, PUBLIC_KEYS[4]), Get(b, PUBLIC_KEYS[4])) && Same(Get(a, PUBLIC_KEYS[5]), Get(b, PUBLIC_KEYS[5]));
    assert Same(Get(a, PUBLIC_KEYS[6]), Get(b, PUBLIC_KEYS[6]));
    SamePlain(Get(a, ID), Get(b, ID));
    SamePlain(Get(a, SOURCE_TYPE), Get(b, SOURCE_TYPE));
    SamePlain(Get(a, SOURCE), Get(b, SOURCE));
    SamePlain(Get(a, TARGET), Get(b, TARGET));
    SamePlain(Get(a, ENFORCEMENT), Get(b, ENFORCEMENT));
    SameArray(Get(a, RULES), Get(b, RULES));
    RepositoryText(repository);
    DistinctGet(a, CONDITIONS);
    DistinctGet(b, CONDITIONS);
    ConditionsUpToOrder(Get(a, CONDITIONS), Get(b, CONDITIONS), Get(a, TARGET));
  }

  lemma SamePlain(a: Value, b: Value)
    ensures Same(a, b) && !a.Arr? && !a.Obj? ==> a == b
  {
  }

  lemma SameArray(a: Value, b: Value)
    ensures Same(a, b) && a.Arr? ==> b.Arr?
  {
  }

  lemma RepositoryText(v: Value)
    requires RepositoryName(v)
    ensures v.Str?
  {
  }

  lemma ConditionsUpToOrder(a: Value, b: Value, target: Value)
    requires Distinct(a) && Distinct(b) && Same(a, b)
    requires Keys(a, [REF_NAME]) && Keys(Get(a, REF_NAME), [INCLUDE, EXCLUDE])
    requires Get(Get(a, REF_NAME), INCLUDE) == Arr([Reference(target)]) && Get(Get(a, REF_NAME), EXCLUDE) == Arr([])
    ensures Keys(b, [REF_NAME]) && Keys(Get(b, REF_NAME), [INCLUDE, EXCLUDE])
    ensures Get(Get(b, REF_NAME), INCLUDE) == Arr([Reference(target)]) && Get(Get(b, REF_NAME), EXCLUDE) == Arr([])
  {
    hide Get, Keys;
    SameKeys(a, b, [REF_NAME]);
    KeysObject(a, [REF_NAME]);
    SameGet(a, b, REF_NAME);
    var ra, rb := Get(a, REF_NAME), Get(b, REF_NAME);
    DistinctGet(a, REF_NAME);
    DistinctGet(b, REF_NAME);
    SameKeys(ra, rb, [INCLUDE, EXCLUDE]);
    KeysObject(ra, [INCLUDE, EXCLUDE]);
    SameGet(ra, rb, INCLUDE);
    SameGet(ra, rb, EXCLUDE);
    var ib := Get(rb, INCLUDE);
    assert Same(Reference(target), ib.items[0]);
    assert ib.items == [Reference(target)];
  }

  lemma KeysObject(v: Value, keys: seq<Text>)
    requires Keys(v, keys)
    ensures v.Obj?
  {
  }

  // ---------------------------------------------------------- main results

  /** Both values are accepted timestamps of the same millisecond. */
  predicate SameInstant(a: Value, b: Value) {
    && TimestampOf(a).Some? && TimestampOf(b).Some?
    && InstantOf(a.s) == InstantOf(b.s)
  }

  /** What a live ruleset must share with an observed one; nothing is said about any other field. */
  ghost predicate SameControls(observed: Value, live: Value) {
    && OwnsPublicFields(live)
    && Same(PublicFields(observed), PublicFields(live))
    && SameInstant(Get(observed, CREATED_AT), Get(live, CREATED_AT))
    && SameInstant(Get(observed, UPDATED_AT), Get(live, UPDATED_AT))
  }

  predicate SameIdentity(q: Request, c: Claim) {
    && q.repository == c.repository && q.repositoryId == c.repositoryId
    && q.ownerId == c.ownerId && q.environmentId == c.environmentId
  }

  /** The hash does not collide on the hashed bytes of these two rulesets. */
  ghost predicate NoCollision(sha: Hash, a: Value, b: Value) {
    HashedApart(sha, PublicFields(a), PublicFields(b))
  }

  /** The hash does not collide on the canonical bytes of these two values. */
  ghost predicate HashedApart(sha: Hash, a: Value, b: Value) {
    var x, y := CanonicalText(a), CanonicalText(b);
    x.Some? && y.Some? && sha(Utf8.Encode(x.value)) == sha(Utf8.Encode(y.value)) ==>
      Utf8.Encode(x.value) == Utf8.Encode(y.value)
  }

  lemma SameInstantNormalises(a: Value, b: Value)
    requires TimestampOf(a).Some?
    ensures TimestampOf(a) == TimestampOf(b) <==> SameInstant(a, b)
  {
    if TimestampOf(b).Some? {
      NormalisationKeepsInstant(a.s, b.s);
    }
  }

  /** A live ruleset agrees with the entry of an observed one exactly when the controls are the same. */
  lemma RuleAgrees(sha: Hash, observed: Value, live: Value, repository: Value)
    requires RuleOf(sha, observed, repository).Some?
    requires Distinct(observed) && Distinct(live) && NoCollision(sha, observed, live)
    ensures var rule := RuleOf(sha, observed, repository).value;
            (TimestampOf(Get(live, CREATED_AT)) == Some(rule.createdAt)
             && TimestampOf(Get(live, UPDATED_AT)) == Some(rule.updatedAt)
             && PublicDigest(sha, live) == Some(rule.publicSha256))
            <==> SameControls(observed, live)
  {
    hide ExactReferences, Get, PublicFields, OwnsPublicFields, Same, Distinct, CanonicalText, Utf8.Encode;
    SameInstantNormalises(Get(observed, CREATED_AT), Get(live, CREATED_AT));
    SameInstantNormalises(Get(observed, UPDATED_AT), Get(live, UPDATED_AT));
    PublicFieldsDistinct(observed);
    PublicFieldsDistinct(live);
    var a, b := PublicFields(observed), PublicFields(live);
    if PublicDigest(sha, live) == PublicDigest(sha, observed) {
      CanonicalBytes(a, b);
      CanonicalFaithful(a, b);
    }
    if Same(a, b) && OwnsPublicFields(live) {
      SameAccepted(a, b);
      SameSource(observed, live);
      ExactUpToOrder(observed, live, Get(observed, SOURCE));
    }
  }

  lemma SameSource(a: Value, b: Value)
    requires Same(PublicFields(a), PublicFields(b)) && exists repository :: ExactReferences(a, repository)
    ensures Get(a, SOURCE) == Get(b, SOURCE)
  {
    hide Get, Same, PublicFields, RepositoryName;
    SameByKey(a, b);
    assert Same(Get(a, PUBLIC_KEYS[2]), Get(b, PUBLIC_KEYS[2]));
    var repository :| ExactReferences(a, repository);
    RepositoryText(repository);
    SamePlain(Get(a, SOURCE), Get(b, SOURCE));
  }

  // The parts of an accepted request.

  /** What acceptance by `Create` says about the request and the record. */
  ghost predicate Created(sha: Hash, q: Request, v: Value, w: Record, a: Rule, b: Rule) {
    && q.rulesets.Arr? && |q.rulesets.items| == 2
    && RuleOf(sha, q.rulesets.items[0], q.repository) == Some(a)
    && RuleOf(sha, q.rulesets.items[1], q.repository) == Some(b)
    && TimestampOf(q.observedAt) == Some(w.observedAt)
    && v == WitnessObject(q.repository, q.repositoryId, q.ownerId, q.environmentId, w.observedAt, ByTarget(a, b))
    && ReadRecord(v) == Some(w) && ValidRecord(w)
    && w.rulesets == ByTarget(a, b)
    && q.repository == Str(w.repository) && q.repositoryId == Num(Whole(w.repositoryId))
    && q.ownerId == Num(Whole(w.ownerId)) && q.environmentId == Num(Whole(w.environmentId))
  }

  lemma RuleOfPositive(sha: Hash, raw: Value, repository: Value)
    requires RuleOf(sha, raw, repository).Some?
    ensures var r := RuleOf(sha, raw, repository).value;
            && 0 < r.id <= MAX_SAFE && (r.target == BRANCH || r.target == TAG)
            && Get(raw, ID) == Num(Whole(r.id)) && Get(raw, TARGET) == Str(r.target)
            && ExactReferences(raw, repository)
  {
    hide Get, Keys, RepositoryName;
  }

  lemma ByTargetHolds(a: Rule, b: Rule)
    ensures |ByTarget(a, b)| == 2 && forall i :: 0 <= i < 2 ==> ByTarget(a, b)[i] == a || ByTarget(a, b)[i] == b
  {
  }

  lemma AcceptedRequest(sha: Hash, q: Request) returns (v: Value, w: Record, a: Rule, b: Rule)
    requires Create(sha, q).Some?
    ensures v == Create(sha, q).value && Created(sha, q, v, w, a, b)
  {
    hide RuleOf, WitnessObject, ValidRecord, CanonicalText, RecordShape, TimestampOf, ExactReferences, Get, ByTarget;
    v := Create(sha, q).value;
    w := ReadRecord(v).value;
    var items := q.rulesets.items;
    a, b := RuleOf(sha, items[0], q.repository).value, RuleOf(sha, items[1], q.repository).value;
    RuleOfPositive(sha, items[0], q.repository);
    RuleOfPositive(sha, items[1], q.repository);
    ByTargetHolds(a, b);
    ShapeOfObject(q.repository, q.repositoryId, q.ownerId, q.environmentId, TimestampOf(q.observedAt).value,
      ByTarget(a, b));
  }

  /** The entry found for a live ruleset is the one of the observed ruleset with the same identity and target. */
  lemma FindsRule(rules: seq<Rule>, a: Rule, b: Rule, live: Value)
    requires (rules == [a, b] || rules == [b, a]) && a.id != b.id
    ensures FindRule(rules, live) ==
            if Matches(a, live) then Some(a) else if Matches(b, live) then Some(b) else None
  {
    assert rules[1..] == [rules[1]] && rules[1..][1..] == [];
    assert FindRule(rules[1..], live) == if Matches(rules[1], live) then Some(rules[1]) else None;
    NotBoth(a, b, live);
  }

  lemma OwnsObject(live: Value)
    requires OwnsPublicFields(live)
    ensures live.Obj?
  {
    assert HasOwn(live, PUBLIC_KEYS[0]);
  }

  lemma SameControlsMatches(sha: Hash, observed: Value, live: Value, repository: Value)
    requires RuleOf(sha, observed, repository).Some? && SameControls(observed, live)
    requires Distinct(observed) && Distinct(live)
    ensures Matches(RuleOf(sha, observed, repository).value, live)
    ensures live.Obj? && ExactReferences(live, repository)
  {
    hide Get, Same, Distinct, PublicFields, ExactReferences, RuleOf, OwnsPublicFields, TimestampOf;
    RuleOfPositive(sha, observed, repository);
    ExactUpToOrder(observed, live, repository);
    SameByKey(observed, live);
    assert Same(Get(observed, PUBLIC_KEYS[0]), Get(live, PUBLIC_KEYS[0]));
    assert Same(Get(observed, PUBLIC_KEYS[3]), Get(live, PUBLIC_KEYS[3]));
    SamePlain(Get(observed, ID), Get(live, ID));
    SamePlain(Get(observed, TARGET), Get(live, TARGET));
    OwnsObject(live);
  }

  /** Main result: a live ruleset passes exactly when identity and age are right, bypass actors are absent or
      empty, and its controls are those of one of the two observed rulesets, up to name order and time offset. */
  lemma DriftDetection(sha: Hash, q: Request, live: Value, c: Claim)
    requires Create(sha, q).Some?
    requires Distinct(live) && Distinct(q.rulesets.items[0]) && Distinct(q.rulesets.items[1])
    requires NoCollision(sha, q.rulesets.items[0], live) && NoCollision(sha, q.rulesets.items[1], live)
    ensures Proof(sha, Create(sha, q).value, live, c) <==>
            && SameIdentity(q, c)
            && ObservedInWindow(q, c.now, c.maximumAge)
            && BypassAbsentOrEmpty(live)
            && (SameControls(q.rulesets.items[0], live) || SameControls(q.rulesets.items[1], live))
  {
    var v, w, a, b := AcceptedRequest(sha, q);
    var first, second := q.rulesets.items[0], q.rulesets.items[1];
    hide RuleOf, WitnessObject, ExactReferences, Get, PublicFields, SameControls, InWindow, ReadRecord, RecordShape,
         PublicDigest, TimestampOf, BypassAbsentOrEmpty, NoCollision, Matches, FindRule, Distinct, Create;
    ObservedInstant(q.observedAt, w.observedAt);
    FindsRule(w.rulesets, a, b, live);
    RuleAgrees(sha, first, live, q.repository);
    RuleAgrees(sha, second, live, q.repository);
    if SameControls(first, live) {
      SameControlsMatches(sha, first, live, q.repository);
    }
    if SameControls(second, live) {
      SameControlsMatches(sha, second, live, q.repository);
      NotBoth(a, b, live);
    }
  }

  lemma NotBoth(a: Rule, b: Rule, live: Value)
    requires a.id != b.id
    ensures !(Matches(a, live) && Matches(b, live))
  {
  }

  lemma ObservedInstant(v: Value, observedAt: Text)
    requires TimestampOf(v) == Some(observedAt) && Settled(observedAt)
    ensures v.Str? && Normalise(v.s).Some? && InstantOf(v.s) == InstantOf(observedAt)
  {
    NormalisationKeepsInstant(v.s, observedAt);
  }

  /** A ruleset as later seen with its bypass actors hidden. */
  function Without(v: Value, name: Text): Value {
    if !v.Obj? then v else
    var i := Position(v.fields, name);
    if i < |v.fields| then Obj(v.fields[..i] + v.fields[i + 1..]) else v
  }

  lemma WithoutKeeps(v: Value, name: Text, other: Text)
    requires v.Obj? && DistinctNames(v.fields) && name != other
    ensures Get(Without(v, name), other) == Get(v, other)
    ensures HasOwn(Without(v, name), other) == HasOwn(v, other)
  {
    hide Position;
    var i, fields := Position(v.fields, name), v.fields;
    if i < |fields| {
      var rest := fields[..i] + fields[i + 1..];
      RemovedNames(fields, i);
      if other in Names(fields) {
        var j := Position(fields, other);
        var k := if j < i then j else j - 1;
        assert rest[k] == fields[j];
        assert other in Names(rest);
        PositionUnique(rest, k);
      }
    }
  }

  lemma RemovedNames(fields: seq<Named<Value>>, i: nat)
    requires DistinctNames(fields) && i < |fields|
    ensures var rest := fields[..i] + fields[i + 1..];
            && DistinctNames(rest) && (forall name :: name in Names(rest) ==> name in Names(fields))
            && (forall k :: 0 <= k < |rest| ==> rest[k] == fields[if k < i then k else k + 1])
  {
    var rest := fields[..i] + fields[i + 1..];
    assert forall k :: 0 <= k < |rest| ==> rest[k] == fields[if k < i then k else k + 1];
  }

  lemma WithoutDrops(v: Value, name: Text)
    requires v.Obj? && Distinct(v)
    ensures Distinct(Without(v, name)) && !HasOwn(Without(v, name), name)
  {
    var i, fields := Position(v.fields, name), v.fields;
    if i < |fields| {
      var rest := fields[..i] + fields[i + 1..];
      assert forall k :: 0 <= k < |rest| ==> rest[k] == fields[if k < i then k else k + 1];
      assert forall k :: 0 <= k < |rest| ==> rest[k].name != name;
    }
  }

  /** `live` shows the observed controls and times, whatever its other fields are. */
  ghost predicate ShowsControls(observed: Value, live: Value) {
    && OwnsPublicFields(live)
    && (forall i :: 0 <= i < |PUBLIC_KEYS| ==> Get(live, PUBLIC_KEYS[i]) == Get(observed, PUBLIC_KEYS[i]))
    && Get(live, CREATED_AT) == Get(observed, CREATED_AT) && Get(live, UPDATED_AT) == Get(observed, UPDATED_AT)
  }

  /** Main result: any live ruleset that shows what was just recorded verifies, at every moment of the allowed age. */
  lemma ShownVerifies(sha: Hash, q: Request, k: nat, live: Value, now: Number, maximumAge: Option<Number>)
    requires q.rulesets.Arr? && k < |q.rulesets.items| && Create(sha, q).Some?
    requires live.Obj? && ShowsControls(q.rulesets.items[k], live) && BypassAbsentOrEmpty(live)
    requires ObservedInWindow(q, now, maximumAge)
    ensures Proof(sha, Create(sha, q).value, live,
                  Claim(q.repository, q.repositoryId, q.ownerId, q.environmentId, now, maximumAge))
  {
    hide RuleOf, ExactReferences, Get, ReadRecord, ShowsControls, PublicDigest, TimestampOf, BypassAbsentOrEmpty,
         Matches, FindRule, Create, Proof, InWindow, PublicFields;
    var v, w, rule := EntryOf(sha, q, k);
    var observed := q.rulesets.items[k];
    ShownDigest(sha, observed, live, q.repository);
    ShownMatches(sha, observed, live, q.repository);
    WindowOfRecord(q, w, now, maximumAge);
    ProofByEntry(sha, v, w, rule, live,
                 Claim(q.repository, q.repositoryId, q.ownerId, q.environmentId, now, maximumAge));
  }

  lemma WindowOfRecord(q: Request, w: Record, now: Number, maximumAge: Option<Number>)
    requires TimestampOf(q.observedAt) == Some(w.observedAt) && Settled(w.observedAt)
    ensures ObservedInWindow(q, now, maximumAge) <==> InWindow(InstantOf(w.observedAt), now, maximumAge)
  {
    hide InWindow, Normalise;
    ObservedInstant(q.observedAt, w.observedAt);
  }

  /** The record of an accepted request, and the entry of its k-th ruleset in it. */
  lemma EntryOf(sha: Hash, q: Request, k: nat) returns (v: Value, w: Record, rule: Rule)
    requires q.rulesets.Arr? && k < |q.rulesets.items| && Create(sha, q).Some?
    ensures v == Create(sha, q).value && ReadRecord(v) == Some(w) && ValidRecord(w)
    ensures RuleOf(sha, q.rulesets.items[k], q.repository) == Some(rule) && rule in w.rulesets
    ensures TimestampOf(q.observedAt) == Some(w.observedAt)
    ensures q.repository == Str(w.repository) && q.repositoryId == Num(Whole(w.repositoryId))
    ensures q.ownerId == Num(Whole(w.ownerId)) && q.environmentId == Num(Whole(w.environmentId))
  {
    hide RuleOf, WitnessObject, ReadRecord, TimestampOf, Create, ValidRecord;
    var a, b;
    v, w, a, b := AcceptedRequest(sha, q);
    rule := if k == 0 then a else b;
    assert ByTarget(a, b) == [a, b] || ByTarget(a, b) == [b, a];
  }

  /** An entry of a valid record that the live ruleset matches is the entry found. */
  lemma ProofByEntry(sha: Hash, v: Value, w: Record, rule: Rule, live: Value, c: Claim)
    requires ReadRecord(v) == Some(w) && ValidRecord(w) && rule in w.rulesets
    requires Str(w.repository) == c.repository && Num(Whole(w.repositoryId)) == c.repositoryId
    requires Num(Whole(w.ownerId)) == c.ownerId && Num(Whole(w.environmentId)) == c.environmentId
    requires InWindow(InstantOf(w.observedAt), c.now, c.maximumAge)
    requires live.Obj? && ExactReferences(live, c.repository) && BypassAbsentOrEmpty(live) && Matches(rule, live)
    requires TimestampOf(Get(live, CREATED_AT)) == Some(rule.createdAt)
    requires TimestampOf(Get(live, UPDATED_AT)) == Some(rule.updatedAt)
    requires PublicDigest(sha, live) == Some(rule.publicSha256)
    ensures Proof(sha, v, live, c)
  {
    hide ReadRecord, InWindow, ExactReferences, BypassAbsentOrEmpty, TimestampOf, PublicDigest, Get, FindRule, Matches,
         Normalise, InstantOf, ValidRule, RepositoryName;
    var a, b := w.rulesets[0], w.rulesets[1];
    assert w.rulesets == [a, b];
    FindsRule([a, b], a, b, live);
    NotBoth(a, b, live);
  }

  /** The ruleset itself verifies, and so does the ruleset with its bypass actors removed. */
  lemma CreateThenVerify(sha: Hash, q: Request, k: nat, live: Value, now: Number, maximumAge: Option<Number>)
    requires q.rulesets.Arr? && k < |q.rulesets.items| && Create(sha, q).Some?
    requires Distinct(q.rulesets.items[k])
    requires live == q.rulesets.items[k] || live == Without(q.rulesets.items[k], BYPASS_ACTORS)
    requires ObservedInWindow(q, now, maximumAge)
    ensures Proof(sha, Create(sha, q).value, live,
                  Claim(q.repository, q.repositoryId, q.ownerId, q.environmentId, now, maximumAge))
  {
    hide RuleOf, Without, ShowsControls, OwnsPublicFields, Get, Proof, ObservedInWindow, Distinct, Create, ReadRecord,
         BypassAbsentOrEmpty, TimestampOf;
    var _, _, _ := EntryOf(sha, q, k);
    RuleOwns(sha, q.rulesets.items[k], q.repository);
    LiveShows(q.rulesets.items[k], live);
    ShownVerifies(sha, q, k, live, now, maximumAge);
  }

  lemma RuleOwns(sha: Hash, raw: Value, repository: Value)
    requires RuleOf(sha, raw, repository).Some?
    ensures raw.Obj? && OwnsPublicFields(raw) && Get(raw, BYPASS_ACTORS) == Arr([])
  {
    hide Get, ExactReferences;
  }

  lemma BypassKeyDiffers()
    ensures forall i :: 0 <= i < |PUBLIC_KEYS| ==> PUBLIC_KEYS[i] != BYPASS_ACTORS
    ensures CREATED_AT != BYPASS_ACTORS && UPDATED_AT != BYPASS_ACTORS
  {
  }

  lemma LiveShows(observed: Value, live: Value)
    requires observed.Obj? && Distinct(observed) && OwnsPublicFields(observed) &&
             Get(observed, BYPASS_ACTORS) == Arr([])
    requires live == observed || live == Without(observed, BYPASS_ACTORS)
    ensures ShowsControls(observed, live) && BypassAbsentOrEmpty(live) && live.Obj?
  {
    if live != observed {
      hide Get, Without, HasOwn;
      WithoutDrops(observed, BYPASS_ACTORS);
      BypassKeyDiffers();
      forall i | 0 <= i < |PUBLIC_KEYS|
        ensures Get(live, PUBLIC_KEYS[i]) == Get(observed, PUBLIC_KEYS[i]) && HasOwn(live, PUBLIC_KEYS[i])
      {
        WithoutKeeps(observed, BYPASS_ACTORS, PUBLIC_KEYS[i]);
      }
      WithoutKeeps(observed, BYPASS_ACTORS, CREATED_AT);
      WithoutKeeps(observed, BYPASS_ACTORS, UPDATED_AT);
      OwnsObject(live);
    }
  }

  lemma ShownFields(observed: Value, live: Value)
    requires ShowsControls(observed, live)
    ensures PublicFields(live) == PublicFields(observed)
    ensures Get(live, ID) == Get(observed, ID) && Get(live, SOURCE_TYPE) == Get(observed, SOURCE_TYPE)
    ensures Get(live, SOURCE) == Get(observed, SOURCE) && Get(live, TARGET) == Get(observed, TARGET)
    ensures Get(live, ENFORCEMENT) == Get(observed, ENFORCEMENT) && Get(live, CONDITIONS) == Get(observed, CONDITIONS)
    ensures Get(live, RULES) == Get(observed, RULES)
  {
    hide Get;
    assert PublicFields(live).fields == PublicFields(observed).fields;
    assert Get(live, PUBLIC_KEYS[0]) == Get(observed, PUBLIC_KEYS[0]);
    assert Get(live, PUBLIC_KEYS[1]) == Get(observed, PUBLIC_KEYS[1]);
    assert Get(live, PUBLIC_KEYS[2]) == Get(observed, PUBLIC_KEYS[2]);
    assert Get(live, PUBLIC_KEYS[3]) == Get(observed, PUBLIC_KEYS[3]);
    assert Get(live, PUBLIC_KEYS[4]) == Get(observed, PUBLIC_KEYS[4]);
    assert Get(live, PUBLIC_KEYS[5]) == Get(observed, PUBLIC_KEYS[5]);
    assert Get(live, PUBLIC_KEYS[6]) == Get(observed, PUBLIC_KEYS[6]);
  }

  lemma ShownExact(observed: Value, live: Value, repository: Value)
    requires ShowsControls(observed, live)
    ensures ExactReferences(live, repository) == ExactReferences(observed, repository)
    ensures PublicFields(live) == PublicFields(observed)
  {
    hide Get, Keys, RepositoryName, PublicFields, ShowsControls, Reference, Positive;
    ShownFields(observed, live);
  }

  lemma ShownDigest(sha: Hash, observed: Value, live: Value, repository: Value)
    requires RuleOf(sha, observed, repository).Some? && ShowsControls(observed, live)
    ensures ExactReferences(live, repository)
    ensures var r := RuleOf(sha, observed, repository).value;
            && TimestampOf(Get(live, CREATED_AT)) == Some(r.createdAt)
            && TimestampOf(Get(live, UPDATED_AT)) == Some(r.updatedAt)
            && PublicDigest(sha, live) == Some(r.publicSha256)
  {
    hide Get, ExactReferences, PublicFields, CanonicalText, TimestampOf;
    RuleOfPositive(sha, observed, repository);
    ShownExact(observed, live, repository);
    ShownExact(observed, live, Get(observed, SOURCE));
    assert Get(live, PUBLIC_KEYS[2]) == Get(observed, PUBLIC_KEYS[2]);
  }

  lemma ShownMatches(sha: Hash, observed: Value, live: Value, repository: Value)
    requires RuleOf(sha, observed, repository).Some? && ShowsControls(observed, live)
    ensures Matches(RuleOf(sha, observed, repository).value, live)
  {
    hide Get, RuleOf, ExactReferences, OwnsPublicFields;
    RuleOfPositive(sha, observed, repository);
    assert Get(live, PUBLIC_KEYS[0]) == Get(observed, PUBLIC_KEYS[0]);
    assert Get(live, PUBLIC_KEYS[3]) == Get(observed, PUBLIC_KEYS[3]);
  }

  /** Main result: the order in which the two rulesets are handed over makes no difference, accepted or refused. */
  lemma CreateIsSymmetric(sha: Hash, q: Request, first: Value, second: Value)
    requires q.rulesets == Arr([first, second])
    ensures Create(sha, q) == Create(sha, q.(rulesets := Arr([second, first])))
  {
    hide RuleOf, WitnessObject, ReadRecord, TimestampOf, ExactReferences, Get, BRANCH, TAG;
    var a, b := RuleOf(sha, first, q.repository), RuleOf(sha, second, q.repository);
    var observedAt := TimestampOf(q.observedAt);
    if a.Some? && b.Some? && observedAt.Some? {
      RuleOfPositive(sha, first, q.repository);
      RuleOfPositive(sha, second, q.repository);
      BranchIsNotTag();
      if a.value.target == b.value.target {
        EqualTargetsRefused(q, observedAt.value, a.value, b.value);
        EqualTargetsRefused(q, observedAt.value, b.value, a.value);
      }
    }
  }

  lemma BranchIsNotTag()
    ensures BRANCH != TAG
  {
  }

  lemma EqualTargetsRefused(q: Request, observedAt: Text, a: Rule, b: Rule)
    requires a.target == b.target && 0 < a.id <= MAX_SAFE && 0 < b.id <= MAX_SAFE
    ensures ReadRecord(WitnessObject(q.repository, q.repositoryId, q.ownerId, q.environmentId, observedAt, [a, b])) ==
            None
  {
    hide WitnessObject, RecordShape, CanonicalText, RepositoryName;
    ShapeOfObject(q.repository, q.repositoryId, q.ownerId, q.environmentId, observedAt, [a, b]);
  }
}
