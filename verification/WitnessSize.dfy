/** How long the printed witness can get. */
module WitnessSize {
  import opened Strings
  import opened Json
  import opened Canonical
  import opened Timestamp
  import opened Witness
  import opened PrintedSize

  lemma PlainTwo(n: int)
    requires 0 <= n < 100
    ensures Plain(Two(n))
  {
  }

  lemma PlainStamp(s: Stamp)
    requires Written(s)
    ensures Plain(Render(s))
  {
    PlainTwo(s.year / 100);
    PlainTwo(s.year % 100);
    PlainTwo(s.month);
    PlainTwo(s.day);
    PlainTwo(s.hour);
    PlainTwo(s.minute);
    PlainTwo(s.second);
    if s.zone.Offset? {
      PlainTwo(s.zone.hours);
      PlainTwo(s.zone.minutes);
    }
    hide Two;
    assert Plain(RenderDate(s));
    assert Plain(RenderZone(s.zone));
    assert Plain(RenderTail(s));
    hide RenderDate, RenderTail;
  }

  lemma SettledText(t: Text)
    requires Settled(t)
    ensures Plain(t) && |t| == 24
  {
    SettledInstant(t);
    MatchRenders(t);
    PlainStamp(Match(t).value);
  }

  lemma RepositoryNamePlain(t: Text)
    requires RepositoryName(Str(t))
    ensures Plain(t) && |t| <= 140
  {
    var parts := Split(t, SLASH);
    JoinSplit(t, SLASH);
    assert parts == [parts[0], parts[1]] && parts[1..] == [parts[1]];
    assert t == parts[0] + [SLASH] + parts[1];
  }

  lemma GoodWitnessKeys()
    ensures forall i :: 0 <= i < |WITNESS_KEYS| ==> GoodKey(WITNESS_KEYS[i])
  {
    hide Plain;
    PlainLiteral("schemaVersion");
    PlainLiteral("repository");
    PlainLiteral("repositoryId");
    PlainLiteral("ownerId");
    PlainLiteral("environmentId");
    PlainLiteral("observedAt");
    PlainLiteral("rulesets");
  }

  lemma GoodRuleKeys()
    ensures forall i :: 0 <= i < |RULE_KEYS| ==> GoodKey(RULE_KEYS[i])
  {
    hide Plain;
    PlainLiteral("id");
    PlainLiteral("target");
    PlainLiteral("createdAt");
    PlainLiteral("updatedAt");
    PlainLiteral("publicSha256");
    PlainLiteral("bypassActors");
  }

  lemma PlainSha(t: Text)
    requires IsSha256(t)
    ensures Plain(t) && |t| == 64
  {
  }

  lemma PlainTarget(t: Text)
    requires t == BRANCH || t == TAG
    ensures Plain(t) && |t| <= 6
  {
    PlainLiteral("branch");
    PlainLiteral("tag");
  }

  /** As printed, and as arranged for the digest. */
  lemma RuleFits(r: Rule, observedAt: Text, gap: nat)
    requires gap <= 2 && Settled(observedAt) && ValidRule(r, observedAt)
    ensures Fits(RuleValue(r), gap, 2, 566) && Fits(Arrange(RuleValue(r)), gap, 2, 566)
  {
    hide Fits, Plain, Settled, IsSha256, Normalise, InstantOf, FieldOrder;
    GoodRuleKeys();
    NumberFits(r.id, gap, 3, 66);
    PlainTarget(r.target);
    TextFits(r.target, gap, 3, 66);
    SettledText(r.createdAt);
    TextFits(r.createdAt, gap, 3, 66);
    SettledText(r.updatedAt);
    TextFits(r.updatedAt, gap, 3, 66);
    PlainSha(r.publicSha256);
    TextFits(r.publicSha256, gap, 3, 66);
    EmptyFits(gap, 3, 66);
    var fields := RuleValue(r).fields;
    forall i | 0 <= i < |fields|
      ensures FieldFits(fields[i], gap, 3, 66) && Arrange(fields[i].item) == fields[i].item
    {
      assert fields[i].name == RULE_KEYS[i];
    }
    assert ArrangeItems(fields) == fields;
    ObjectFits(fields, gap, 2, 66);
    ArrangedFits(fields, gap, 2, 66);
    FitsMore(RuleValue(r), gap, 2, 561, 566);
    FitsMore(Arrange(RuleValue(r)), gap, 2, 561, 566);
  }

  lemma RecordFits(w: Record, gap: nat)
    requires gap <= 2 && ValidRecord(w)
    ensures Fits(RecordValue(w), gap, 0, 8190) && Fits(Arrange(RecordValue(w)), gap, 0, 8190)
  {
    hide Fits, Plain, Settled, IsSha256, RepositoryName, ValidRule, RuleValue, FieldOrder;
    GoodWitnessKeys();
    RuleFits(w.rulesets[0], w.observedAt, gap);
    RuleFits(w.rulesets[1], w.observedAt, gap);
    var a, b := RuleValue(w.rulesets[0]), RuleValue(w.rulesets[1]);
    PairFits(a, b, gap, 566);
    PairFits(Arrange(a), Arrange(b), gap, 566);
    RepositoryNamePlain(w.repository);
    TextFits(w.repository, gap, 1, 1148);
    NumberFits(1, gap, 1, 1148);
    NumberFits(w.repositoryId, gap, 1, 1148);
    NumberFits(w.ownerId, gap, 1, 1148);
    NumberFits(w.environmentId, gap, 1, 1148);
    SettledText(w.observedAt);
    TextFits(w.observedAt, gap, 1, 1148);
    var fields := RecordValue(w).fields;
    assert fields[6].item == Arr([a, b]);
    assert Arrange(fields[6].item) == Arr([Arrange(a), Arrange(b)]);
    forall i | 0 <= i < |fields|
      ensures FieldFits(fields[i], gap, 1, 1148)
      ensures FieldFits(ArrangeItems(fields)[i], gap, 1, 1148)
    {
      assert fields[i].name == WITNESS_KEYS[i];
    }
    ObjectFits(fields, gap, 0, 1148);
    ArrangedFits(fields, gap, 0, 1148);
    FitsMore(RecordValue(w), gap, 0, 7 * FieldRoom(1, 1148) + 7, 8190);
    FitsMore(Arrange(RecordValue(w)), gap, 0, 7 * FieldRoom(1, 1148) + 7, 8190);
  }
}
