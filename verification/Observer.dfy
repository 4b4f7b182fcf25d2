/** The observer: which of a repository's rulesets it reads, keeps and records. */
module Observer {
  import opened Strings
  import opened Numbers
  import opened Json
  import opened Witness

  const MAX_SUMMARIES := 8

  const LENGTH := Lit("length")
  const FIRST := Lit("0")

  /** `v?.length`: arrays, strings and objects with such a name answer it. */
  function LengthOf(v: Value): Value {
    match v
    case Arr(items) => Num(Whole(|items|))
    case Str(s) => Num(Whole(|s|))
    case _ => Get(v, LENGTH)
  }

  /** `v[0]`. */
  function FirstOf(v: Value): Value {
    match v
    case Arr(items) => if items == [] then Foreign else items[0]
    case Str(s) => if s == [] then Foreign else Str(s[..1])
    case _ => Get(v, FIRST)
  }

  /** An active ruleset of the repository itself. */
  predicate Ours(summary: Value, repository: Value) {
    && Get(summary, SOURCE) == repository
    && Get(summary, SOURCE_TYPE) == Str(Lit("Repository"))
    && Get(summary, ENFORCEMENT) == Str(Lit("active"))
  }

  /** The looser test by which the observer picks a ruleset: any list-like value will do. */
  predicate Chosen(rule: Value) {
    var target, refName := Get(rule, TARGET), Get(Get(rule, CONDITIONS), REF_NAME);
    && (target == Str(BRANCH) || target == Str(TAG))
    && LengthOf(Get(refName, INCLUDE)) == Num(Whole(1))
    && FirstOf(Get(refName, INCLUDE)) == Reference(target)
    && LengthOf(Get(refName, EXCLUDE)) == Num(Whole(0))
  }

  /** The details behind a ruleset's number; none when the request fails. */
  type Reader = Value -> Option<Value>

  /** Reading a property of `null` or `undefined` throws. */
  predicate HasProperties(v: Value) {
    !v.Null? && !v.Foreign?
  }

  /** What one summary adds to the rulesets; none where the observer gives up. */
  function Step(summary: Value, repository: Value, read: Reader): Option<seq<Value>> {
    if !HasProperties(summary) || !Positive(Get(summary, ID)) then None
    else if !Ours(summary, repository) then Some([])
    else
      match read(Get(summary, ID))
      case None => None
      case Some(rule) =>
        if !HasProperties(rule) then None else if Chosen(rule) then Some([rule]) else Some([])
  }

  function Selected(summaries: seq<Value>, repository: Value, read: Reader): Option<seq<Value>> {
    if summaries == [] then Some([])
    else
      match Step(summaries[0], repository, read)
      case None => None
      case Some(first) => Prepended(first, Selected(summaries[1..], repository, read))
  }

  function Prepended(first: seq<Value>, rest: Option<seq<Value>>): Option<seq<Value>> {
    match rest
    case None => None
    case Some(more) => Some(first + more)
  }

  lemma PrependTwice(a: seq<Value>, b: seq<Value>, rest: Option<seq<Value>>)
    ensures Prepended(a, Prepended(b, rest)) == Prepended(a + b, rest)
  {
    if rest.Some? {
      assert a + (b + rest.value) == (a + b) + rest.value;
    }
  }

  lemma SelectedStep(summaries: seq<Value>, repository: Value, read: Reader, i: nat)
    requires i < |summaries|
    ensures Selected(summaries[i..], repository, read) ==
            match Step(summaries[i], repository, read)
            case None => None
            case Some(first) => Prepended(first, Selected(summaries[i + 1..], repository, read))
  {
    hide Step;
    assert summaries[i..][0] == summaries[i] && summaries[i..][1..] == summaries[i + 1..];
  }

  /** The observer gives up exactly when some summary makes it: a number that is none, or details it cannot get. */
  lemma {:induction false} RefusesExactly(summaries: seq<Value>, repository: Value, read: Reader)
    ensures Selected(summaries, repository, read).None? <==>
            exists i :: 0 <= i < |summaries| && Step(summaries[i], repository, read).None?
  {
    hide Step;
    if summaries != [] {
      RefusesExactly(summaries[1..], repository, read);
      assert forall i :: 1 <= i < |summaries| ==> summaries[1..][i - 1] == summaries[i];
      assert forall i :: 0 <= i < |summaries[1..]| ==> summaries[1..][i] == summaries[i + 1];
    }
  }

  /** The loop over the summaries. */
  method SelectRulesets(summaries: seq<Value>, repository: Value, read: Reader) returns (r: Option<seq<Value>>)
    ensures r == Selected(summaries, repository, read)
    ensures r.None? <==> exists i :: 0 <= i < |summaries| && Step(summaries[i], repository, read).None?
  {
    hide Ours, Chosen, Selected, Positive, Get;
    RefusesExactly(summaries, repository, read);
    var rulesets: seq<Value> := [];
    ghost var all := Selected(summaries, repository, read);
    assert summaries[0..] == summaries;
    assert all.Some? ==> [] + all.value == all.value;
    for i := 0 to |summaries|
      invariant all == Prepended(rulesets, Selected(summaries[i..], repository, read))
    {
      var summary := summaries[i];
      ghost var before, added: seq<Value> := rulesets, [];
      SelectedStep(summaries, repository, read, i);
      if !HasProperties(summary) || !Positive(Get(summary, ID)) {
        return None;
      }
      if Ours(summary, repository) {
        var rule := read(Get(summary, ID));
        if rule.None? || !HasProperties(rule.value) {
          return None;
        }
        if Chosen(rule.value) {
          rulesets := rulesets + [rule.value];
          added := [rule.value];
        }
      }
      assert Step(summary, repository, read) == Some(added) && rulesets == before + added;
      PrependTwice(before, added, Selected(summaries[i + 1..], repository, read));
    }
    SelectedNone(repository, read);
    assert summaries[|summaries|..] == [] && rulesets + [] == rulesets;
    return Some(rulesets);
  }

  lemma SelectedNone(repository: Value, read: Reader)
    ensures Selected([], repository, read) == Some([])
  {
  }

  /** The request the observer makes of `createControlsWitness`. */
  function RequestFor(q: Request, rulesets: seq<Value>): Request {
    q.(rulesets := Arr(rulesets))
  }

  /** The witness the observer prints: identity and time are those of `q`, the rulesets are the selected ones. */
  function Observe(sha: Hash, q: Request, summaries: seq<Value>, read: Reader): Option<Value> {
    if |summaries| > MAX_SUMMARIES then None
    else
      match Selected(summaries, q.repository, read)
      case None => None
      case Some(rulesets) => Create(sha, RequestFor(q, rulesets))
  }

  /** The observer read this ruleset. */
  ghost predicate Seen(summaries: seq<Value>, repository: Value, read: Reader, raw: Value) {
    exists i :: 0 <= i < |summaries| && Ours(summaries[i], repository) && read(Get(summaries[i], ID)) == Some(raw)
  }

  /** The looser test lets every exact ruleset through. */
  lemma ExactIsChosen(raw: Value, repository: Value)
    requires ExactReferences(raw, repository)
    ensures Chosen(raw)
  {
    hide Get, Keys, RepositoryName;
  }

  lemma {:induction false} SelectedExactly(summaries: seq<Value>, repository: Value, read: Reader)
    requires Selected(summaries, repository, read).Some?
    ensures forall raw :: raw in Selected(summaries, repository, read).value <==>
                          Seen(summaries, repository, read, raw) && Chosen(raw)
  {
    hide Ours, Chosen, Get, Positive;
    if summaries != [] {
      var first, rest := summaries[0], summaries[1..];
      SelectedExactly(rest, repository, read);
      forall raw
        ensures Seen(summaries, repository, read, raw) <==>
                Seen(rest, repository, read, raw) || (Ours(first, repository) && read(Get(first, ID)) == Some(raw))
      {
        if i :| 0 <= i < |rest| && Ours(rest[i], repository) && read(Get(rest[i], ID)) == Some(raw) {
          assert rest[i] == summaries[i + 1];
        }
        if i :| 0 <= i < |summaries| && Ours(summaries[i], repository) && read(Get(summaries[i], ID)) == Some(raw) {
          assert i > 0 ==> rest[i - 1] == summaries[i];
        }
      }
    }
  }

  /** Main result: of all the rulesets the observer read, exactly those it selected verify against the witness it
      printed, and they are two. An active ruleset that is overlooked could not have been recorded. */
  lemma ObservedVerify(sha: Hash, q: Request, summaries: seq<Value>, read: Reader, raw: Value, now: Number,
                       maximumAge: Option<Number>)
    requires Observe(sha, q, summaries, read).Some?
    requires Seen(summaries, q.repository, read, raw) && Distinct(raw)
    requires ObservedInWindow(q, now, maximumAge)
    ensures |Selected(summaries, q.repository, read).value| == 2
    ensures Proof(sha, Observe(sha, q, summaries, read).value, raw,
                  Claim(q.repository, q.repositoryId, q.ownerId, q.environmentId, now, maximumAge))
            <==> raw in Selected(summaries, q.repository, read).value
  {
    hide Seen, Chosen, Create, Selected, ObservedInWindow, Distinct, Proof;
    var rulesets := Selected(summaries, q.repository, read).value;
    var request := RequestFor(q, rulesets);
    SelectedExactly(summaries, q.repository, read);
    CreatedFromTwo(sha, request);
    var claim := Claim(q.repository, q.repositoryId, q.ownerId, q.environmentId, now, maximumAge);
    SameWindow(q, request, now, maximumAge);
    if raw in rulesets {
      var k :| 0 <= k < |rulesets| && rulesets[k] == raw;
      CreateThenVerify(sha, request, k, raw, now, maximumAge);
    }
    if Proof(sha, Create(sha, request).value, raw, claim) {
      ProofNeedsExact(sha, Create(sha, request).value, raw, claim);
      ExactIsChosen(raw, q.repository);
    }
  }

  lemma SameWindow(q: Request, r: Request, now: Number, maximumAge: Option<Number>)
    requires q.observedAt == r.observedAt
    ensures ObservedInWindow(q, now, maximumAge) == ObservedInWindow(r, now, maximumAge)
  {
    hide InWindow, TimestampOf;
  }

  lemma CreatedFromTwo(sha: Hash, q: Request)
    requires Create(sha, q).Some?
    ensures q.rulesets.Arr? && |q.rulesets.items| == 2
  {
    hide RuleOf, WitnessObject, ReadRecord, TimestampOf;
  }

  lemma ProofNeedsExact(sha: Hash, v: Value, raw: Value, c: Claim)
    requires Proof(sha, v, raw, c)
    ensures ExactReferences(raw, c.repository)
  {
    hide ReadRecord, ExactReferences, InWindow, BypassAbsentOrEmpty, FindRule, TimestampOf, PublicDigest;
  }

  // ----------------------------------------------------------------- in full

  /** A value that a script takes for a list of `count` items with this first one: an array, or an object with such
      names. */
  ghost predicate LooksLike(v: Value, count: int, first: Value) {
    || (v.Arr? && |v.items| == count && (count > 0 ==> v.items[0] == first))
    || (v.Obj? && Get(v, Lit("length")) == Num(Whole(count)) && (count > 0 ==> Get(v, Lit("0")) == first))
    || (v.Str? && v.s == [] && count == 0)
  }

  /** A ruleset of one target over one reference. */
  ghost predicate PickedFor(rule: Value, target: Text, reference: Text) {
    var refName := Get(Get(rule, Lit("conditions")), Lit("ref_name"));
    && Get(rule, Lit("target")) == Str(target)
    && LooksLike(Get(refName, Lit("include")), 1, Str(reference))
    && LooksLike(Get(refName, Lit("exclude")), 0, Foreign)
  }

  lemma LooksExactly(v: Value, reference: Text)
    requires |reference| > 1
    ensures LengthOf(v) == Num(Whole(1)) && FirstOf(v) == Str(reference) <==> LooksLike(v, 1, Str(reference))
    ensures LengthOf(v) == Num(Whole(0)) <==> LooksLike(v, 0, Foreign)
  {
    hide Get;
    if v.Str? && |v.s| == 1 {
      assert |v.s[..1]| == 1;
    }
    NothingIsForeign(v);
  }

  lemma NothingIsForeign(v: Value)
    ensures !v.Obj? ==> Get(v, LENGTH) == Foreign
  {
  }

  /** Main result: the observer picks the rulesets over the main branch and over the version tags. */
  lemma ChosenInFull(rule: Value)
    ensures Chosen(rule) <==>
            PickedFor(rule, Lit("branch"), Lit("refs/heads/main")) || PickedFor(rule, Lit("tag"), Lit("refs/tags/v*"))
  {
    hide Get, LooksLike, LengthOf, FirstOf;
    var refName := Get(Get(rule, CONDITIONS), REF_NAME);
    LooksExactly(Get(refName, INCLUDE), Lit("refs/heads/main"));
    LooksExactly(Get(refName, INCLUDE), Lit("refs/tags/v*"));
    LooksExactly(Get(refName, EXCLUDE), Lit("refs/heads/main"));
    BranchIsNotTag();
    ReferencesInFull();
    hide Lit, Reference;
  }

  lemma ReferencesInFull()
    ensures Reference(Str(Lit("branch"))) == Str(Lit("refs/heads/main"))
    ensures Reference(Str(Lit("tag"))) == Str(Lit("refs/tags/v*"))
  {
    BranchIsNotTag();
  }

  /** Main result: what one summary adds. */
  lemma StepInFull(summary: Value, repository: Value, read: Reader)
    ensures var number := Get(summary, Lit("id"));
            Step(summary, repository, read) ==
            if !(number.Num? && number.n.Whole? && 1 <= number.n.n <= 9007199254740991) then None
            else if Get(summary, Lit("source")) != repository ||
                    Get(summary, Lit("source_type")) != Str(Lit("Repository"))
                    || Get(summary, Lit("enforcement")) != Str(Lit("active")) then Some([])
            else if read(number).None? || read(number).value.Null? || read(number).value.Foreign? then None
            else if Chosen(read(number).value) then Some([read(number).value]) else Some([])
  {
    hide Get, Chosen, Lit;
    PlainSummary(summary);
  }

  lemma PlainSummary(summary: Value)
    ensures !HasProperties(summary) ==> Get(summary, ID) == Foreign
  {
  }

  /** At most eight summaries are looked at. */
  lemma ObserveInFull(sha: Hash, q: Request, summaries: seq<Value>, read: Reader)
    ensures Observe(sha, q, summaries, read) ==
            if |summaries| > 8 || Selected(summaries, q.repository, read).None? then None
            else Create(sha, q.(rulesets := Arr(Selected(summaries, q.repository, read).value)))
  {
    hide Create, Selected;
  }
}
