/** Release versions after Semantic Versioning 2.0.0, and how publishing moves the npm tags. */
module Channel {
  import opened Strings

  // -------------------------------------------------------------- versions

  const MAX_VERSION := 200
  const LATEST := Lit("latest")
  const BETA := Lit("beta")

  /** The parts of a version: three numbers, prerelease identifiers, build identifiers; empty means absent. */
  datatype SemVer = SemVer(core: seq<Text>, prerelease: seq<Text>, build: seq<Text>)

  predicate IdentifierUnit(u: Unit) {
    IsLetter(u) || IsDigit(u) || u == MINUS
  }

  predicate IsIdentifier(t: Text) {
    t != [] && forall i :: 0 <= i < |t| ==> IdentifierUnit(t[i])
  }

  /** Section 9: a numeric identifier has no leading zero. */
  predicate IsPrereleaseIdentifier(t: Text) {
    IsIdentifier(t) && (AllDigits(t) ==> IsNumeral(t))
  }

  /** Sections 2, 9 and 10 of Semantic Versioning 2.0.0. */
  predicate IsSemVer(v: SemVer) {
    && |v.core| == 3 && (forall i :: 0 <= i < |v.core| ==> IsNumeral(v.core[i]))
    && (forall i :: 0 <= i < |v.prerelease| ==> IsPrereleaseIdentifier(v.prerelease[i]))
    && (forall i :: 0 <= i < |v.build| ==> IsIdentifier(v.build[i]))
  }

  function Print(v: SemVer): Text {
    Join(v.core, DOT) +
    (if v.prerelease == [] then [] else [MINUS] + Join(v.prerelease, DOT)) +
    (if v.build == [] then [] else [PLUS] + Join(v.build, DOT))
  }

  /** One dotted group of the pattern: identifiers, none of them empty. */
  predicate IsDotted(t: Text) {
    var parts := Split(t, DOT);
    forall i :: 0 <= i < |parts| ==> IsIdentifier(parts[i])
  }

  predicate IsCore(t: Text) {
    var parts := Split(t, DOT);
    |parts| == 3 && forall i :: 0 <= i < |parts| ==> IsNumeral(parts[i])
  }

  /** `/^0\d+$/` */
  predicate ZeroPadded(t: Text) {
    |t| >= 2 && t[0] == ZERO && AllDigits(t)
  }

  datatype Release = Release(version: Text, prerelease: bool, npmTag: Text)

  /** The pattern's groups. Numbers and dots contain neither `-` nor `+`, and identifiers no `+`, so the groups are
      found by cutting at the first `+` and then at the first `-` before it. */
  function Head(t: Text): Text {
    t[..IndexOf(t, PLUS)]
  }

  /** `match[1]`: the prerelease group, when there is one. */
  function PrereleaseGroup(t: Text): Option<Text> {
    var head := Head(t);
    var dash := IndexOf(head, MINUS);
    if dash < |head| then Some(head[dash + 1..]) else None
  }

  /** `SEMVER.exec(version)` succeeds. */
  predicate Matches(t: Text) {
    var plus, head := IndexOf(t, PLUS), Head(t);
    && IsCore(head[..IndexOf(head, MINUS)])
    && (PrereleaseGroup(t).Some? ==> IsDotted(PrereleaseGroup(t).value))
    && (plus < |t| ==> IsDotted(t[plus + 1..]))
  }

  /** `releaseVersion`. */
  function ReleaseVersion(t: Text): Option<Release> {
    if |t| > MAX_VERSION || !Matches(t) then None
    else
      var group := PrereleaseGroup(t);
      if group.Some? &&
         exists i :: 0 <= i < |Split(group.value, DOT)| && ZeroPadded(Split(group.value, DOT)[i])
      then None
      else Some(Release(t, group.Some?, if group.Some? then BETA else LATEST))
  }

  predicate IsVersion(t: Text) {
    ReleaseVersion(t).Some?
  }

  predicate IsPrerelease(t: Text)
    requires IsVersion(t)
  {
    ReleaseVersion(t).value.prerelease
  }

  // --------------------------------------------- the recogniser is the grammar

  /** Reading the groups of a matching text. */
  function Parse(t: Text): SemVer {
    var plus, head := IndexOf(t, PLUS), Head(t);
    SemVer(Split(head[..IndexOf(head, MINUS)], DOT),
           if PrereleaseGroup(t).Some? then Split(PrereleaseGroup(t).value, DOT) else [],
           if plus < |t| then Split(t[plus + 1..], DOT) else [])
  }

  /** Cutting at the first `u` undoes appending `u` and a tail to a text free of `u`. */
  lemma CutAt(u: Unit, a: Text, b: Option<Text>)
    requires u !in a
    ensures var t := a + if b.Some? then [u] + b.value else [];
            && IndexOf(t, u) == |a| && t[..|a|] == a
            && (b.Some? <==> |a| < |t|) && (b.Some? ==> t[|a| + 1..] == b.value)
  {
    var t := a + if b.Some? then [u] + b.value else [];
    forall i | 0 <= i < |a| ensures t[i] != u {
      assert a[i] in a;
    }
    assert b.Some? ==> t[|a|] == u;
  }

  lemma {:induction false} JoinUnits(parts: seq<Text>, u: Unit)
    requires forall i :: 0 <= i < |parts| ==> u !in parts[i]
    requires u != DOT
    ensures u !in Join(parts, DOT)
  {
    if |parts| > 1 {
      JoinUnits(parts[1..], u);
    }
  }

  lemma IdentifierFree(t: Text)
    requires IsIdentifier(t)
    ensures DOT !in t && PLUS !in t
  {
  }

  lemma NumeralFree(t: Text)
    requires IsNumeral(t)
    ensures DOT !in t && PLUS !in t && MINUS !in t
  {
  }

  function Tail(parts: seq<Text>): Option<Text> {
    if parts == [] then None else Some(Join(parts, DOT))
  }

  lemma IdentifiersFree(v: SemVer)
    requires IsSemVer(v)
    ensures FreeOf(v.core, DOT) && FreeOf(v.prerelease, DOT) && FreeOf(v.build, DOT)
    ensures MINUS !in Join(v.core, DOT) && PLUS !in Join(v.core, DOT) && PLUS !in Join(v.prerelease, DOT)
  {
    hide IsNumeral, IsIdentifier, Join;
    forall i | 0 <= i < |v.core| ensures DOT !in v.core[i] && PLUS !in v.core[i] && MINUS !in v.core[i] {
      NumeralFree(v.core[i]);
    }
    forall i | 0 <= i < |v.prerelease| ensures DOT !in v.prerelease[i] && PLUS !in v.prerelease[i] {
      IdentifierFree(v.prerelease[i]);
    }
    forall i | 0 <= i < |v.build| ensures DOT !in v.build[i] {
      IdentifierFree(v.build[i]);
    }
    JoinUnits(v.core, PLUS);
    JoinUnits(v.core, MINUS);
    JoinUnits(v.prerelease, PLUS);
  }

  /** A printed version is matched, and its groups are the ones it was printed from. */
  lemma PrintMatches(v: SemVer)
    requires IsSemVer(v)
    ensures Matches(Print(v)) && Parse(Print(v)) == v
    ensures PrereleaseGroup(Print(v)).Some? <==> v.prerelease != []
  {
    hide IsNumeral, IsIdentifier, IsPrereleaseIdentifier, Split, Join, IndexOf, FreeOf, Print;
    IdentifiersFree(v);
    PrintCuts(v);
    SplitJoin(v.core, DOT);
    if v.prerelease != [] {
      SplitJoin(v.prerelease, DOT);
    }
    if v.build != [] {
      SplitJoin(v.build, DOT);
    }
    PrereleaseIdentifiers(v);
  }

  /** Where a printed version is cut, and into what. */
  lemma PrintCuts(v: SemVer)
    requires IsSemVer(v)
    ensures var t, head := Print(v), Head(Print(v));
            && head[..IndexOf(head, MINUS)] == Join(v.core, DOT)
            && PrereleaseGroup(t) == Tail(v.prerelease)
            && (IndexOf(t, PLUS) < |t| <==> v.build != [])
            && (v.build != [] ==> t[IndexOf(t, PLUS) + 1..] == Join(v.build, DOT))
  {
    hide IsSemVer, Split, Join, IndexOf, FreeOf, IsNumeral, IsIdentifier;
    IdentifiersFree(v);
    var core, pre, build := Join(v.core, DOT), Tail(v.prerelease), Tail(v.build);
    var head := core + if pre.Some? then [MINUS] + pre.value else [];
    HeadFree(core, pre);
    assert Print(v) == head + if build.Some? then [PLUS] + build.value else [];
    hide Print;
    CutAt(MINUS, core, pre);
    CutAt(PLUS, head, build);
    assert Head(Print(v)) == head;
  }

  lemma HeadFree(core: Text, pre: Option<Text>)
    requires PLUS !in core && (pre.Some? ==> PLUS !in pre.value)
    ensures PLUS !in core + if pre.Some? then [MINUS] + pre.value else []
  {
  }

  lemma PrereleaseIdentifiers(v: SemVer)
    requires IsSemVer(v)
    ensures forall i :: 0 <= i < |v.prerelease| ==> IsIdentifier(v.prerelease[i])
  {
    hide IsNumeral, IsIdentifier;
  }

  /** A matched text is printed from its groups. */
  lemma MatchedPrints(t: Text)
    requires Matches(t)
    ensures Print(Parse(t)) == t
  {
    hide IsCore, IsDotted, Split, Join, IndexOf;
    var plus, head := IndexOf(t, PLUS), Head(t);
    var dash := IndexOf(head, MINUS);
    CutHere(t, PLUS);
    CutHere(head, MINUS);
    JoinSplit(head[..dash], DOT);
    if dash < |head| {
      JoinSplit(head[dash + 1..], DOT);
    }
    if plus < |t| {
      JoinSplit(t[plus + 1..], DOT);
    }
  }

  /** A text is what lies before the first `u`, and the `u` and what follows it if there is one. */
  lemma CutHere(t: Text, u: Unit)
    ensures var k := IndexOf(t, u); t == t[..k] + if k < |t| then [u] + t[k + 1..] else []
  {
  }

  lemma PaddedNumeric(t: Text)
    requires IsIdentifier(t)
    ensures IsPrereleaseIdentifier(t) <==> !ZeroPadded(t)
  {
  }

  /** What remains after the zero-padding test is a semantic version. */
  lemma AcceptedParses(t: Text)
    requires |t| <= MAX_VERSION && Matches(t)
    ensures IsVersion(t) <==> IsSemVer(Parse(t))
  {
    hide IsNumeral, IsIdentifier, IsPrereleaseIdentifier, ZeroPadded, IndexOf, Split;
    var v := Parse(t);
    forall i | 0 <= i < |v.prerelease|
      ensures IsPrereleaseIdentifier(v.prerelease[i]) <==> !ZeroPadded(v.prerelease[i])
    {
      PaddedNumeric(v.prerelease[i]);
    }
  }

  /** Main result: the accepted texts are exactly the printed semantic versions of at most 200 units. */
  lemma RecogniserExact(t: Text)
    ensures IsVersion(t) <==> |t| <= MAX_VERSION && exists v :: IsSemVer(v) && Print(v) == t
  {
    hide IsSemVer, Print, Matches, Parse;
    if IsVersion(t) {
      VersionMatches(t);
      MatchedPrints(t);
      AcceptedParses(t);
    }
    if |t| <= MAX_VERSION && exists v :: IsSemVer(v) && Print(v) == t {
      var v :| IsSemVer(v) && Print(v) == t;
      PrintMatches(v);
      AcceptedParses(t);
    }
  }

  lemma VersionMatches(t: Text)
    requires IsVersion(t)
    ensures Matches(t) && |t| <= MAX_VERSION
  {
  }

  /** Main result: an accepted version is a prerelease exactly when a hyphen occurs before any plus, which is
      exactly when it has prerelease identifiers. */
  lemma PrereleaseExact(t: Text)
    requires IsVersion(t)
    ensures IsPrerelease(t) <==> exists i :: 0 <= i < |t| && t[i] == MINUS && PLUS !in t[..i]
    ensures IsPrerelease(t) <==> Parse(t).prerelease != []
  {
    hide Matches, IndexOf;
    var plus, head := IndexOf(t, PLUS), Head(t);
    var dash := IndexOf(head, MINUS);
    if dash < |head| {
      assert t[dash] == MINUS && PLUS !in t[..dash];
    }
    forall i | 0 <= i < |t| && t[i] == MINUS && PLUS !in t[..i] ensures dash < |head| {
      forall j | 0 <= j < i ensures t[j] != PLUS {
        assert t[..i][j] == t[j];
      }
      assert head[i] == MINUS;
    }
  }

  // ------------------------------------------------------------------ tags

  /** The value of an npm tag: anything but a text is refused as a version. */
  datatype TagValue = Version(t: Text) | NotText

  /** The dist-tags of a package; other names than `latest` and `beta` are left alone. */
  type Tags = map<Text, TagValue>

  predicate Valid(v: TagValue) {
    v.Version? && IsVersion(v.t)
  }

  /** `checkedTags`. */
  predicate Checked(tags: Tags) {
    (LATEST in tags ==> Valid(tags[LATEST])) && (BETA in tags ==> Valid(tags[BETA]))
  }

  /** `shouldUpdateLatest`, for tags that pass the check. */
  predicate ShouldUpdateLatest(tags: Tags)
    requires Checked(tags)
  {
    LATEST !in tags || IsPrerelease(tags[LATEST].t)
  }

  /** `releaseTagsMatch`: none where it throws. */
  function ReleaseTagsMatch(tags: Tags, version: Text, npmTag: Text): Option<bool> {
    if !Checked(tags) || !IsVersion(version) || npmTag != ReleaseVersion(version).value.npmTag then None
    else if npmTag == LATEST then Some(LATEST in tags && tags[LATEST] == Version(version))
    else Some(&& BETA in tags && tags[BETA] == Version(version)
              && LATEST in tags && (tags[LATEST] == Version(version) || !IsPrerelease(tags[LATEST].t)))
  }

  /** One publication: the workflow step that moves the tags. A prerelease looks at the tags first and stops when
      they are malformed; a stable version does not look. */
  function Publish(tags: Tags, version: Text): Tags
    requires IsVersion(version) && (IsPrerelease(version) ==> Checked(tags))
  {
    if IsPrerelease(version) then
      var updated := tags[BETA := Version(version)];
      if ShouldUpdateLatest(tags) then updated[LATEST := Version(version)] else updated
    else tags[LATEST := Version(version)]
  }

  lemma TagNamesDiffer()
    ensures LATEST != BETA
  {
    assert |LATEST| != |BETA|;
  }

  lemma PublishChecked(tags: Tags, version: Text)
    requires Checked(tags) && IsVersion(version)
    ensures Checked(Publish(tags, version))
  {
    hide IsVersion, IsPrerelease;
    TagNamesDiffer();
  }

  /** Main result: verification accepts exactly the fixed points of publication, and one step reaches them. */
  lemma MatchIsFixedPoint(tags: Tags, version: Text)
    requires Checked(tags) && IsVersion(version)
    ensures var npmTag := ReleaseVersion(version).value.npmTag;
            && (ReleaseTagsMatch(tags, version, npmTag) == Some(true) <==> Publish(tags, version) == tags)
            && ReleaseTagsMatch(Publish(tags, version), version, npmTag) == Some(true)
  {
    hide Matches, PrereleaseGroup, Split;
    TagNamesDiffer();
    PublishChecked(tags, version);
    var after := Publish(tags, version);
    if after == tags {
      assert after[if IsPrerelease(version) then BETA else LATEST] == Version(version);
    }
  }

  // ------------------------------------------------------------ whole runs

  ghost predicate AllVersions(versions: seq<Text>) {
    forall i :: 0 <= i < |versions| ==> IsVersion(versions[i])
  }

  /** A sequence of publications, oldest first. */
  function Run(tags: Tags, versions: seq<Text>): (r: Tags)
    requires Checked(tags) && AllVersions(versions)
    ensures Checked(r)
    decreases |versions|
  {
    if versions == [] then tags
    else
      var last := |versions| - 1;
      PublishChecked(Run(tags, versions[..last]), versions[last]);
      Publish(Run(tags, versions[..last]), versions[last])
  }

  /** The last version in the run of the given kind. */
  function LastOf(versions: seq<Text>, prerelease: bool): Option<Text>
    requires AllVersions(versions)
  {
    if versions == [] then None
    else
      var last := |versions| - 1;
      if IsPrerelease(versions[last]) == prerelease then Some(versions[last]) else LastOf(versions[..last], prerelease)
  }

  function Tag(tags: Tags, name: Text): Option<TagValue> {
    if name in tags then Some(tags[name]) else None
  }

  function AsTag(t: Option<Text>): Option<TagValue> {
    match t case None => None case Some(v) => Some(Version(v))
  }

  predicate StableLatest(tags: Tags)
    requires Checked(tags)
  {
    LATEST in tags && !IsPrerelease(tags[LATEST].t)
  }

  /** Main result, from any valid tags: `beta` is the last prerelease published; `latest` is the last stable version
      published, else the stable version it already was, else the last prerelease. Nothing else changes. */
  lemma {:induction false} WholeRun(tags: Tags, versions: seq<Text>)
    requires Checked(tags) && AllVersions(versions)
    ensures var r, stable, pre := Run(tags, versions), LastOf(versions, false), LastOf(versions, true);
            && Tag(r, Lit("beta")) == (if pre.Some? then AsTag(pre) else Tag(tags, Lit("beta")))
            && Tag(r, Lit("latest")) == (if stable.Some? then AsTag(stable)
                                         else if StableLatest(tags) || pre.None? then Tag(tags, Lit("latest"))
                                         else AsTag(pre))
            && (stable.Some? ==> StableLatest(r))
            && (forall name :: name != Lit("latest") && name != Lit("beta") ==> Tag(r, name) == Tag(tags, name))
    decreases |versions|
  {
    hide IsVersion, IsPrerelease;
    if versions != [] {
      var last := |versions| - 1;
      WholeRun(tags, versions[..last]);
      LastOfIs(versions[..last]);
      TagNamesDiffer();
    }
  }

  lemma {:induction false} LastOfIs(versions: seq<Text>)
    requires AllVersions(versions)
    ensures forall kind :: LastOf(versions, kind).Some? ==>
              IsVersion(LastOf(versions, kind).value) && IsPrerelease(LastOf(versions, kind).value) == kind
    decreases |versions|
  {
    hide IsVersion, IsPrerelease;
    if versions != [] {
      LastOfIs(versions[..|versions| - 1]);
    }
  }

  /** From a package without either tag. */
  lemma FreshRun(tags: Tags, versions: seq<Text>)
    requires Lit("latest") !in tags && Lit("beta") !in tags && AllVersions(versions)
    ensures var r, stable, pre := Run(tags, versions), LastOf(versions, false), LastOf(versions, true);
            Tag(r, Lit("beta")) == AsTag(pre) && Tag(r, Lit("latest")) == AsTag(if stable.Some? then stable else pre)
  {
    WholeRun(tags, versions);
  }

  lemma {:induction false} RunSplits(tags: Tags, a: seq<Text>, b: seq<Text>)
    requires Checked(tags) && AllVersions(a) && AllVersions(b)
    ensures AllVersions(a + b) && Run(tags, a + b) == Run(Run(tags, a), b)
    decreases |b|
  {
    hide IsVersion, Publish;
    if b == [] {
      assert a + b == a;
    } else {
      var last := |b| - 1;
      RunSplits(tags, a, b[..last]);
      assert (a + b)[..|a| + last] == a + b[..last];
    }
  }

  /** Once `latest` is stable it is never a prerelease again, whatever is published afterwards. */
  lemma StableForGood(tags: Tags, before: seq<Text>, after: seq<Text>)
    requires Checked(tags) && AllVersions(before) && AllVersions(after)
    requires StableLatest(Run(tags, before))
    ensures AllVersions(before + after) && StableLatest(Run(tags, before + after))
  {
    hide IsVersion, IsPrerelease, Run, LastOf;
    RunSplits(tags, before, after);
    var middle := Run(tags, before);
    WholeRun(middle, after);
    var r := Run(middle, after);
    if LastOf(after, false).None? {
      assert Tag(r, LATEST) == Tag(middle, LATEST);
    }
  }

  // ----------------------------------------------------------------- in full

  predicate IdentifierInFull(t: Text) {
    t != [] && forall i :: 0 <= i < |t| ==> 48 <= t[i] <= 57 || 65 <= t[i] <= 90 || 97 <= t[i] <= 122 || t[i] == 45
  }

  predicate DigitsInFull(t: Text) {
    t != [] && forall i :: 0 <= i < |t| ==> 48 <= t[i] <= 57
  }

  /** A zero, or digits that do not start with one. */
  predicate NumberInFull(t: Text) {
    DigitsInFull(t) && (t == Lit("0") || t[0] != 48)
  }

  /** Three numbers, then perhaps a hyphen and identifiers without padded numbers, then perhaps a plus and
      identifiers; dots within each group. */
  ghost predicate VersionInFull(t: Text, core: seq<Text>, pre: seq<Text>, build: seq<Text>) {
    && |core| == 3 && NumberInFull(core[0]) && NumberInFull(core[1]) && NumberInFull(core[2])
    && (forall i :: 0 <= i < |pre| ==> IdentifierInFull(pre[i]) && (DigitsInFull(pre[i]) ==> NumberInFull(pre[i])))
    && (forall i :: 0 <= i < |build| ==> IdentifierInFull(build[i]))
    && t == core[0] + Lit(".") + core[1] + Lit(".") + core[2] +
            (if pre == [] then [] else Lit("-") + Join(pre, 46)) +
              (if build == [] then [] else Lit("+") + Join(build, 46))
  }

  lemma UnitsInFull(t: Text)
    ensures IsIdentifier(t) <==> IdentifierInFull(t)
    ensures t != [] && AllDigits(t) <==> DigitsInFull(t)
    ensures IsNumeral(t) <==> NumberInFull(t)
  {
    assert Lit("0") == [48];
    if t != [] && |t| == 1 && t[0] == 48 {
      assert t == [48];
    }
  }

  lemma CoreText(core: seq<Text>)
    requires |core| == 3
    ensures Join(core, DOT) == core[0] + Lit(".") + core[1] + Lit(".") + core[2]
  {
    assert Lit(".") == [46];
    assert core[1..][1..] == [core[2]] && core[1..][0] == core[1];
    assert Join(core[1..][1..], DOT) == core[2];
    assert Join(core[1..], DOT) == core[1] + [DOT] + core[2];
    assert core[0] + [DOT] + (core[1] + [DOT] + core[2]) == core[0] + [DOT] + core[1] + [DOT] + core[2];
  }

  lemma SemVerInFull(t: Text, v: SemVer)
    ensures IsSemVer(v) && Print(v) == t <==> VersionInFull(t, v.core, v.prerelease, v.build)
  {
    hide Join, IsIdentifier, IsNumeral, AllDigits, IdentifierInFull, DigitsInFull, NumberInFull;
    assert Lit("-") == [45] && Lit("+") == [43];
    forall p: Text ensures (IsIdentifier(p) <==> IdentifierInFull(p)) && (IsNumeral(p) <==> NumberInFull(p))
      ensures p != [] && AllDigits(p) <==> DigitsInFull(p)
    {
      UnitsInFull(p);
    }
    IdentifiersNotEmpty();
    if |v.core| == 3 {
      CoreText(v.core);
    }
  }

  lemma IdentifiersNotEmpty()
    ensures forall p: Text :: IsIdentifier(p) ==> p != []
  {
  }

  /** Main result: the accepted versions, unit by unit. */
  lemma RecogniserInFull(t: Text)
    ensures IsVersion(t) <==> |t| <= 200 && exists core, pre, build :: VersionInFull(t, core, pre, build)
  {
    hide IsSemVer, Print, VersionInFull, IsVersion;
    RecogniserExact(t);
    forall v ensures IsSemVer(v) && Print(v) == t <==> VersionInFull(t, v.core, v.prerelease, v.build) {
      SemVerInFull(t, v);
    }
    if core, pre, build :| VersionInFull(t, core, pre, build) {
      var v := SemVer(core, pre, build);
      assert IsSemVer(v) && Print(v) == t;
    }
  }

  /** A hyphen before any plus. */
  ghost predicate HyphenFirst(t: Text) {
    exists i :: 0 <= i < |t| && t[i] == 45 && 43 !in t[..i]
  }

  /** Main result: a version is published under `beta` if it has a hyphen before any plus, and under `latest`
      otherwise. */
  lemma ReleaseInFull(t: Text)
    requires IsVersion(t)
    ensures ReleaseVersion(t) ==
            Some(if HyphenFirst(t) then Release(t, true, Lit("beta")) else Release(t, false, Lit("latest")))
  {
    hide Matches, Split, IndexOf;
    PrereleaseExact(t);
  }

  /** A tag that may be read: a version, under `latest` and `beta`. */
  ghost predicate ReadableTag(tags: Tags, name: Text) {
    name in tags ==> tags[name].Version? && IsVersion(tags[name].t)
  }

  /** Main result: what one publication sets. A prerelease becomes `beta`, and `latest` too unless that is a stable
      version; a stable version becomes `latest`. Nothing else changes. */
  lemma PublishInFull(tags: Tags, version: Text, name: Text)
    requires IsVersion(version) && Checked(tags)
    ensures ReadableTag(tags, Lit("latest")) && ReadableTag(tags, Lit("beta"))
    ensures var r := Publish(tags, version);
            if name == Lit("beta") then
              Tag(r, name) == if HyphenFirst(version) then Some(Version(version)) else Tag(tags, name)
            else if name == Lit("latest") then
              Tag(r, name) ==
              if HyphenFirst(version) && name in tags && !HyphenFirst(tags[name].t) then Tag(tags, name)
              else Some(Version(version))
            else Tag(r, name) == Tag(tags, name)
  {
    hide IsVersion, IsPrerelease, HyphenFirst;
    TagNamesDiffer();
    PrereleaseExactly(version);
    if LATEST in tags {
      PrereleaseExactly(tags[LATEST].t);
    }
  }

  lemma PrereleaseExactly(t: Text)
    requires IsVersion(t)
    ensures IsPrerelease(t) <==> HyphenFirst(t)
  {
    PrereleaseExact(t);
  }

  /** Main result: the final check refuses malformed tags, versions and channels; otherwise it asks that the tag of
      the channel is the version and, for a prerelease, that `latest` is the version too or some stable version. */
  lemma MatchInFull(tags: Tags, version: Text, npmTag: Text)
    ensures ReleaseTagsMatch(tags, version, npmTag).Some? <==>
            && ReadableTag(tags, Lit("latest")) && ReadableTag(tags, Lit("beta")) && IsVersion(version)
            && npmTag == if HyphenFirst(version) then Lit("beta") else Lit("latest")
    ensures ReleaseTagsMatch(tags, version, npmTag).Some? ==>
              (ReleaseTagsMatch(tags, version, npmTag).value <==>
               if HyphenFirst(version) then
                 && Tag(tags, Lit("beta")) == Some(Version(version))
                 && (Tag(tags, Lit("latest")) == Some(Version(version))
                     || (Lit("latest") in tags && !HyphenFirst(tags[Lit("latest")].t)))
               else Tag(tags, Lit("latest")) == Some(Version(version)))
  {
    hide IsVersion, IsPrerelease, HyphenFirst, ReleaseVersion;
    TagNamesDiffer();
    if IsVersion(version) {
      VersionIsRelease(version);
      ReleaseInFull(version);
    }
    if Checked(tags) && LATEST in tags {
      PrereleaseExactly(tags[LATEST].t);
    }
  }

  lemma VersionIsRelease(t: Text)
    ensures IsVersion(t) <==> ReleaseVersion(t).Some?
  {
    hide ReleaseVersion;
  }
}
