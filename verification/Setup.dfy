/** The setup planner: which npm arguments, if any, bring the core package to the maintained version. */
module Setup {
  import opened Strings

  // -------------------------------------------------------------- versions

  datatype Version = Version(major: nat, minor: nat, patch: nat)

  /** `/^(\d+)\.(\d+)\.(\d+)$/`, leading zeros included. */
  predicate IsTriple(t: Text) {
    var parts := Split(t, DOT);
    |parts| == 3 && forall i :: 0 <= i < |parts| ==> parts[i] != [] && AllDigits(parts[i])
  }

  /** `versionParts`. */
  function VersionParts(t: Text): Option<Version> {
    if IsTriple(t) then
      var parts := Split(t, DOT);
      Some(Version(ReadDecimal(parts[0]), ReadDecimal(parts[1]), ReadDecimal(parts[2])))
    else None
  }

  function Component(v: Version, i: nat): nat
    requires i < 3
  {
    if i == 0 then v.major else if i == 1 then v.minor else v.patch
  }

  /** Version order: the first difference decides. */
  predicate Older(a: Version, b: Version) {
    a.major < b.major || (a.major == b.major && (a.minor < b.minor || (a.minor == b.minor && a.patch < b.patch)))
  }

  /** `compareVersions`: the sign of the result is the order of the versions. */
  method CompareVersions(left: Version, right: Version) returns (r: int)
    ensures r < 0 <==> Older(left, right)
    ensures r > 0 <==> Older(right, left)
    ensures r == 0 <==> left == right
  {
    for index := 0 to 3
      invariant forall i: nat :: i < index ==> Component(left, i) == Component(right, i)
    {
      if Component(left, index) != Component(right, index) {
        assert forall i: nat :: i < index ==> Component(left, i) == Component(right, i);
        assert index > 0 ==> Component(left, 0) == Component(right, 0);
        assert index > 1 ==> Component(left, 1) == Component(right, 1);
        return Component(left, index) - Component(right, index);
      }
    }
    assert Component(left, 0) == Component(right, 0) && Component(left, 1) == Component(right, 1);
    assert Component(left, 2) == Component(right, 2);
    return 0;
  }

  // -------------------------------------------------------------- manifest

  const CORE := Lit("@rehearsal-db/core")
  const CORE_VERSION := Lit("2.0.0")
  const TARGET := Version(2, 0, 0)
  const LATEST := Lit("latest")

  datatype Group = Dependencies | DevDependencies | OptionalDependencies

  /** What the planner looks at in `package.json`; an absent group is an empty one. */
  datatype Manifest = Manifest(packageManager: Option<Text>, groups: map<Group, map<Text, Text>>)

  const GROUPS: seq<Group> := [Dependencies, DevDependencies, OptionalDependencies]

  function Flag(g: Group): Text {
    match g
    case Dependencies => Lit("--save-prod")
    case DevDependencies => Lit("--save-dev")
    case OptionalDependencies => Lit("--save-optional")
  }

  predicate Declares(m: Manifest, g: Group) {
    g in m.groups && CORE in m.groups[g]
  }

  /** The groups that declare the package, in the order of `groups`. */
  function DeclaredIn(m: Manifest, groups: seq<Group>): seq<Group> {
    if groups == [] then []
    else (if Declares(m, groups[0]) then [groups[0]] else []) + DeclaredIn(m, groups[1..])
  }

  function Declared(m: Manifest): seq<Group> {
    DeclaredIn(m, GROUPS)
  }

  function Declaration(m: Manifest, g: Group): Option<Text> {
    if Declares(m, g) then Some(m.groups[g][CORE]) else None
  }

  const CARET: Unit := 94
  const TILDE: Unit := 126

  /** `declaration.replace(/^[~^]/, "")`. */
  function Bare(t: Text): Text {
    if t != [] && (t[0] == CARET || t[0] == TILDE) then t[1..] else t
  }

  /** `^[~^]?2\.\d+\.\d+$`: the target's major, spelled without leading zeros. */
  predicate TargetSeries(t: Text) {
    IsTriple(Bare(t)) && Split(Bare(t), DOT)[0] == Decimal(TARGET.major)
  }

  const NPM := Lit("npm@")

  /** `/^npm@\d+\./`. */
  predicate IsNpm(t: Text) {
    && |t| >= 4 && t[..4] == NPM
    && var k := DigitRun(t[4..]);
       k >= 1 && 4 + k < |t| && t[4 + k] == DOT
  }

  // -------------------------------------------------------------- the plan

  /** `arguments` is null when the installed version is kept. */
  datatype Plan = Preserve | Install(arguments: seq<Text>)

  function Arguments(g: Group): seq<Text> {
    [Lit("install"), Flag(g), Lit("--save-exact"), CORE + [64] + CORE_VERSION, Lit("--ignore-scripts"),
     Lit("--no-audit"), Lit("--no-fund"), Lit("--registry=https://registry.npmjs.org"),
     Lit("--@rehearsal-db:registry=https://registry.npmjs.org")]
  }

  function GroupOf(m: Manifest): Group {
    if Declared(m) == [] then DevDependencies else Declared(m)[0]
  }

  /** `planCoreInstallation`: none where it throws. */
  function PlanInstallation(m: Manifest, installed: Option<Text>): Option<Plan> {
    if m.packageManager.Some? && !IsNpm(m.packageManager.value) then None
    else if |Declared(m)| > 1 then None
    else
      var group := GroupOf(m);
      var declaration := Declaration(m, group);
      if declaration.Some? && declaration.value != LATEST && !TargetSeries(declaration.value) then None
      else
        var version := if installed.Some? then VersionParts(installed.value) else None;
        if installed.Some? && (version.None? || version.value.major != TARGET.major || Declared(m) == []) then None
        else if version.Some? && !Older(version.value, TARGET) then Some(Preserve)
        else if declaration.Some? && declaration.value != [] && declaration.value != LATEST &&
                VersionParts(Bare(declaration.value)).Some? &&
                  Older(TARGET, VersionParts(Bare(declaration.value)).value)
        then None
        else Some(Install(Arguments(group)))
  }

  // --------------------------------------------------------------- effects

  /** The manifest after npm ran with the arguments for a group: the exact version is declared there. */
  function Applied(m: Manifest, g: Group): Manifest {
    var group := if g in m.groups then m.groups[g] else map[];
    m.(groups := m.groups[g := group[CORE := CORE_VERSION]])
  }

  ghost predicate OnlyGroup(m: Manifest, g: Group) {
    forall h :: Declares(m, h) ==> h == g
  }

  // ---------------------------------------------------------------- proofs

  lemma {:induction false} DeclaredExactly(m: Manifest, groups: seq<Group>)
    ensures forall g :: g in DeclaredIn(m, groups) <==> g in groups && Declares(m, g)
  {
    if groups != [] {
      DeclaredExactly(m, groups[1..]);
      assert groups == [groups[0]] + groups[1..];
    }
  }

  lemma AllGroups(g: Group)
    ensures g in GROUPS
  {
    match g
    case Dependencies => assert GROUPS[0] == g;
    case DevDependencies => assert GROUPS[1] == g;
    case OptionalDependencies => assert GROUPS[2] == g;
  }

  /** The planner's group is the one group that declares the package, if any does. */
  lemma SoleGroup(m: Manifest)
    requires |Declared(m)| <= 1
    ensures OnlyGroup(m, GroupOf(m))
    ensures Declared(m) == [] <==> !Declares(m, GroupOf(m))
  {
    DeclaredExactly(m, GROUPS);
    forall h | Declares(m, h) ensures h == GroupOf(m) {
      AllGroups(h);
      assert h in Declared(m);
    }
    if Declared(m) != [] {
      assert Declared(m)[0] in Declared(m);
    }
  }

  lemma FlagsDiffer(a: Group, b: Group)
    ensures Flag(a) == Flag(b) ==> a == b
  {
    assert |Lit("--save-prod")| == 11 && |Lit("--save-dev")| == 10 && |Lit("--save-optional")| == 15;
  }

  lemma TargetText(parts: seq<Text>)
    requires parts == [[ZERO + 2], [ZERO], [ZERO]]
    ensures CORE_VERSION == Join(parts, DOT)
  {
    assert parts[1..] == [[ZERO], [ZERO]] && parts[1..][1..] == [[ZERO]];
    assert Join(parts[1..][1..], DOT) == [ZERO];
    assert Join(parts[1..], DOT) == [ZERO] + [DOT] + [ZERO];
    assert Join(parts, DOT) == [ZERO + 2] + [DOT] + ([ZERO] + [DOT] + [ZERO]);
  }

  lemma TargetVersion()
    ensures VersionParts(CORE_VERSION) == Some(TARGET) && TargetSeries(CORE_VERSION)
    ensures CORE_VERSION != LATEST && Bare(CORE_VERSION) == CORE_VERSION
  {
    hide Split, Join;
    var parts: seq<Text> := [[ZERO + 2], [ZERO], [ZERO]];
    TargetText(parts);
    SplitJoin(parts, DOT);
    assert ReadDecimal([ZERO + 2]) == 2 && ReadDecimal([ZERO]) == 0;
    assert Decimal(2) == [ZERO + 2];
  }

  /** Main result: whenever arguments are returned, installing is no downgrade and no change of major or group. */
  lemma InstallIsSafe(m: Manifest, installed: Option<Text>)
    requires PlanInstallation(m, installed).Some? && PlanInstallation(m, installed).value.Install?
    ensures installed.Some? ==>
              && VersionParts(installed.value).Some?
              && VersionParts(installed.value).value.major == TARGET.major
              && Older(VersionParts(installed.value).value, TARGET)
    ensures exists g :: PlanInstallation(m, installed).value.arguments == Arguments(g) && OnlyGroup(m, g)
                        && (Declared(m) == [] ==> g == DevDependencies && installed.None?)
    ensures forall h :: PlanInstallation(m, installed).value.arguments == Arguments(h) ==> OnlyGroup(m, h)
    ensures forall g, t :: Declaration(m, g) == Some(t) && t != LATEST ==>
              && TargetSeries(t) && VersionParts(Bare(t)).Some?
              && !Older(TARGET, VersionParts(Bare(t)).value)
  {
    hide IsTriple, VersionParts, Split, IsNpm, Flag;
    SoleGroup(m);
    var g := GroupOf(m);
    assert PlanInstallation(m, installed).value.arguments == Arguments(g) && OnlyGroup(m, g);
    forall h | Arguments(g) == Arguments(h) ensures OnlyGroup(m, h) {
      assert Arguments(g)[1] == Arguments(h)[1];
      FlagsDiffer(g, h);
    }
    forall h, t | Declaration(m, h) == Some(t) && t != LATEST
      ensures TargetSeries(t) && VersionParts(Bare(t)).Some? && !Older(TARGET, VersionParts(Bare(t)).value)
    {
      assert h == g;
      TripleParts(Bare(t));
      EmptyIsNoTriple(t);
    }
  }

  lemma TripleParts(t: Text)
    ensures VersionParts(t).Some? <==> IsTriple(t)
  {
  }

  lemma EmptyIsNoTriple(t: Text)
    ensures IsTriple(Bare(t)) ==> t != []
  {
    assert Split<Unit>([], DOT) == [[]];
  }

  /** Main result: after the install took effect, planning again keeps what is there. */
  lemma InstallSettles(m: Manifest, installed: Option<Text>)
    requires PlanInstallation(m, installed).Some? && PlanInstallation(m, installed).value.Install?
    ensures PlanInstallation(Applied(m, GroupOf(m)), Some(CORE_VERSION)) == Some(Preserve)
    ensures Declaration(Applied(m, GroupOf(m)), GroupOf(m)) == Some(CORE_VERSION)
    ensures OnlyGroup(Applied(m, GroupOf(m)), GroupOf(m))
  {
    hide VersionParts, TargetSeries, IsNpm, Bare;
    SoleGroup(m);
    TargetVersion();
    var g := GroupOf(m);
    var after := Applied(m, g);
    assert Declares(after, g) && forall h :: h != g ==> (Declares(after, h) <==> Declares(m, h));
    DeclaredOne(after, g);
  }

  lemma DeclaredOne(m: Manifest, g: Group)
    requires Declares(m, g) && OnlyGroup(m, g)
    ensures Declared(m) == [g]
  {
    hide Declares;
    assert GROUPS[1..] == [DevDependencies, OptionalDependencies] && GROUPS[1..][1..] == [OptionalDependencies];
    assert GROUPS[1..][1..][1..] == [];
    DeclaredStep(m, GROUPS);
    DeclaredStep(m, GROUPS[1..]);
    DeclaredStep(m, GROUPS[1..][1..]);
  }

  lemma DeclaredStep(m: Manifest, groups: seq<Group>)
    requires groups != []
    ensures DeclaredIn(m, groups) == (if Declares(m, groups[0]) then [groups[0]] else []) + DeclaredIn(m, groups[1..])
    ensures DeclaredIn(m, []) == []
  {
    hide Declares;
  }

  /** Declared as `latest` or within the target's major. */
  predicate InSeries(m: Manifest, g: Group) {
    var declaration := Declaration(m, g);
    declaration.Some? && (declaration.value == LATEST || TargetSeries(declaration.value))
  }

  /** Exactly when the planner keeps an installed version: it is recognised, declared, of the target's major and not
      older than the target. */
  lemma PreserveExactly(m: Manifest, installed: Option<Text>)
    ensures PlanInstallation(m, installed) == Some(Preserve) <==>
            && (m.packageManager.Some? ==> IsNpm(m.packageManager.value))
            && |Declared(m)| == 1
            && InSeries(m, Declared(m)[0])
            && installed.Some? && VersionParts(installed.value).Some?
            && VersionParts(installed.value).value.major == TARGET.major
            && !Older(VersionParts(installed.value).value, TARGET)
  {
    hide VersionParts, TargetSeries, IsNpm, Bare;
    if |Declared(m)| <= 1 {
      SoleGroup(m);
    }
  }

  /** Exactly when arguments are returned: npm, at most one declaration, which is `latest` or of the target's series and
      not newer than it, and nothing installed unless it is declared, recognised and older within the same major. */
  lemma InstallExactly(m: Manifest, installed: Option<Text>)
    ensures (PlanInstallation(m, installed).Some? && PlanInstallation(m, installed).value.Install?) <==>
            && (m.packageManager.Some? ==> IsNpm(m.packageManager.value))
            && |Declared(m)| <= 1
            && (|Declared(m)| == 1 ==>
                  InSeries(m, Declared(m)[0]) && !DeclaresNewer(m, Declared(m)[0]))
            && (installed.Some? ==>
                  && |Declared(m)| == 1 && VersionParts(installed.value).Some?
                  && VersionParts(installed.value).value.major == TARGET.major
                  && Older(VersionParts(installed.value).value, TARGET))
  {
    hide VersionParts, IsTriple, IsNpm, Split;
    if |Declared(m)| <= 1 {
      SoleGroup(m);
      var declaration := Declaration(m, GroupOf(m));
      if declaration.Some? {
        EmptyIsNoTriple(declaration.value);
      }
    }
  }

  /** Declared as an exact, caret or tilde version above the target. */
  predicate DeclaresNewer(m: Manifest, g: Group) {
    var declaration := Declaration(m, g);
    && declaration.Some? && declaration.value != LATEST
    && VersionParts(Bare(declaration.value)).Some?
    && Older(TARGET, VersionParts(Bare(declaration.value)).value)
  }

  // ----------------------------------------------------------------- in full

  predicate DigitsInFull(t: Text) {
    t != [] && forall i :: 0 <= i < |t| ==> 48 <= t[i] <= 57
  }

  /** A group of dependencies and the flag that saves to it. */
  function FlagInFull(g: Group): Text {
    match g
    case Dependencies => Lit("--save-prod")
    case DevDependencies => Lit("--save-dev")
    case OptionalDependencies => Lit("--save-optional")
  }

  /** Main result: the arguments npm is given, one by one. */
  lemma ArgumentsInFull(g: Group)
    ensures Arguments(g) ==
            [Lit("install"), FlagInFull(g), Lit("--save-exact"), Lit("@rehearsal-db/core@2.0.0"),
              Lit("--ignore-scripts"),
             Lit("--no-audit"), Lit("--no-fund"), Lit("--registry=https://registry.npmjs.org"),
             Lit("--@rehearsal-db:registry=https://registry.npmjs.org")]
  {
    CoreText();
    hide Lit;
  }

  lemma CoreText()
    ensures CORE + [64] + CORE_VERSION == Lit("@rehearsal-db/core@2.0.0")
  {
  }

  lemma Triple(a: Text, b: Text, c: Text)
    requires DOT !in a && DOT !in b && DOT !in c
    ensures Split(a + Lit(".") + b + Lit(".") + c, DOT) == [a, b, c]
  {
    hide Split;
    var parts := [a, b, c];
    assert Lit(".") == [DOT];
    assert parts[1..] == [b, c] && parts[1..][1..] == [c];
    assert Join(parts[1..][1..], DOT) == c && Join(parts[1..], DOT) == b + [DOT] + c;
    assert a + [DOT] + (b + [DOT] + c) == a + Lit(".") + b + Lit(".") + c;
    SplitJoin(parts, DOT);
  }

  lemma DigitsHaveNoDot(t: Text)
    ensures DigitsInFull(t) <==> t != [] && AllDigits(t)
    ensures DigitsInFull(t) ==> DOT !in t
  {
  }

  /** Main result: a version is three groups of digits with dots between them, and the numbers are theirs. */
  lemma VersionInFull(t: Text, v: Version)
    ensures VersionParts(t) == Some(v) <==>
            exists a, b, c :: DigitsInFull(a) && DigitsInFull(b) && DigitsInFull(c) &&
                              t == a + Lit(".") + b + Lit(".") + c &&
                              AllDigits(a) && AllDigits(b) && AllDigits(c) &&
                              v == Version(ReadDecimal(a), ReadDecimal(b), ReadDecimal(c))
  {
    hide Split, DigitsInFull, AllDigits, ReadDecimal, Lit;
    if IsTriple(t) {
      var parts := Split(t, DOT);
      DigitsHaveNoDot(parts[0]);
      DigitsHaveNoDot(parts[1]);
      DigitsHaveNoDot(parts[2]);
      JoinSplit(t, DOT);
      Triple(parts[0], parts[1], parts[2]);
      JoinTriple(parts);
    }
    forall a, b, c | DigitsInFull(a) && DigitsInFull(b) && DigitsInFull(c) && t == a + Lit(".") + b + Lit(".") + c
      ensures AllDigits(a) && AllDigits(b) && AllDigits(c)
      ensures VersionParts(t) == Some(Version(ReadDecimal(a), ReadDecimal(b), ReadDecimal(c)))
    {
      DigitsHaveNoDot(a);
      DigitsHaveNoDot(b);
      DigitsHaveNoDot(c);
      Triple(a, b, c);
    }
  }

  lemma JoinTriple(parts: seq<Text>)
    requires |parts| == 3
    ensures Join(parts, DOT) == parts[0] + Lit(".") + parts[1] + Lit(".") + parts[2]
  {
    assert Lit(".") == [DOT];
    assert parts[1..][1..] == [parts[2]] && parts[1..][0] == parts[1];
    assert Join(parts[1..][1..], DOT) == parts[2] && Join(parts[1..], DOT) == parts[1] + [DOT] + parts[2];
    assert parts[0] + [DOT] + (parts[1] + [DOT] + parts[2]) == parts[0] + [DOT] + parts[1] + [DOT] + parts[2];
  }

  /** Main result: the series of the target is `2.` and two groups of digits, after a caret, a tilde or nothing. */
  lemma SeriesInFull(t: Text)
    ensures TargetSeries(t) <==>
            exists sign, b, c :: sign in [Lit(""), Lit("^"), Lit("~")] && DigitsInFull(b) && DigitsInFull(c) &&
                                 t == sign + Lit("2.") + b + Lit(".") + c
  {
    hide TargetSeries, DigitsInFull, Lit;
    if TargetSeries(t) {
      var sign, b, c := SeriesSplits(t);
    }
    forall sign, b, c | sign in [Lit(""), Lit("^"), Lit("~")] && DigitsInFull(b) && DigitsInFull(c) &&
                        t == sign + Lit("2.") + b + Lit(".") + c
      ensures TargetSeries(t)
    {
      SeriesBuilds(t, sign, b, c);
    }
  }

  lemma SeriesSplits(t: Text) returns (sign: Text, b: Text, c: Text)
    requires TargetSeries(t)
    ensures sign in [Lit(""), Lit("^"), Lit("~")] && DigitsInFull(b) && DigitsInFull(c)
    ensures t == sign + Lit("2.") + b + Lit(".") + c
  {
    hide IsTriple, Split, DigitsInFull, Bare, Decimal, Lit;
    SignTexts();
    var bare := Bare(t);
    b, c := MajorSplits(bare);
    SignIs(t);
    sign := t[..|t| - |bare|];
    Regroup(sign, [50] + Lit("."), b, Lit("."), c);
  }

  lemma Regroup(a: Text, b: Text, c: Text, d: Text, e: Text)
    ensures a + (b + c + d + e) == a + b + c + d + e
  {
  }

  lemma MajorSplits(t: Text) returns (b: Text, c: Text)
    requires IsTriple(t) && Split(t, DOT)[0] == [50]
    ensures DigitsInFull(b) && DigitsInFull(c) && t == [50] + Lit(".") + b + Lit(".") + c
  {
    hide Split, DigitsInFull, AllDigits, Lit;
    var parts := Split(t, DOT);
    JoinSplit(t, DOT);
    JoinTriple(parts);
    DigitsHaveNoDot(parts[1]);
    DigitsHaveNoDot(parts[2]);
    b, c := parts[1], parts[2];
  }

  lemma SeriesBuilds(t: Text, sign: Text, b: Text, c: Text)
    requires sign in [Lit(""), Lit("^"), Lit("~")] && DigitsInFull(b) && DigitsInFull(c)
    requires t == sign + Lit("2.") + b + Lit(".") + c
    ensures TargetSeries(t)
  {
    hide Split, DigitsInFull, AllDigits, Bare, Decimal;
    SignTexts();
    hide Lit;
    DigitsHaveNoDot(b);
    DigitsHaveNoDot(c);
    DigitsHaveNoDot([50]);
    Triple([50], b, c);
    var bare := [50] + Lit(".") + b + Lit(".") + c;
    assert t == sign + bare;
    assert bare[0] == 50;
    BareOf(t, sign, bare);
  }

  lemma SignTexts()
    ensures Lit("") == [] && Lit("^") == [94] && Lit("~") == [126] && Lit("2.") == [50] + Lit(".") && Decimal(2) == [50]
    ensures DigitsInFull([50])
  {
  }

  lemma SignIs(t: Text)
    ensures |Bare(t)| <= |t| && t == t[..|t| - |Bare(t)|] + Bare(t)
    ensures t[..|t| - |Bare(t)|] in [[], [94], [126]]
  {
    if |Bare(t)| < |t| {
      assert t[..1] == [t[0]];
    } else {
      assert t[..0] == [];
    }
  }

  lemma BareOf(t: Text, sign: Text, rest: Text)
    requires t == sign + rest && sign in [[], [94], [126]] && rest != [] && rest[0] == 50
    ensures Bare(t) == rest
  {
    if sign == [] {
      assert t == rest;
    } else {
      assert t[1..] == rest;
    }
  }

  /** Main result: npm is recognised by `npm@`, digits and a dot. */
  lemma NpmInFull(t: Text)
    ensures IsNpm(t) <==> exists digits, rest :: DigitsInFull(digits) && t == Lit("npm@") + digits + Lit(".") + rest
  {
    assert Lit(".") == [46];
    assert |Lit("npm@")| == 4;
    hide Lit;
    if IsNpm(t) {
      var k := DigitRun(t[4..]);
      var digits, rest := t[4..][..k], t[4 + k + 1..];
      assert t == t[..4] + digits + [t[4 + k]] + rest;
      assert DigitsInFull(digits);
    }
    forall digits, rest | DigitsInFull(digits) && t == Lit("npm@") + digits + Lit(".") + rest ensures IsNpm(t) {
      assert t[..4] == Lit("npm@") && t[4..] == digits + ([46] + rest);
      DigitRunIs(digits, [46] + rest);
      assert t[4 + |digits|] == ([46] + rest)[0];
    }
  }

  /** The package whose declaration counts, and the declaration that is always adopted. */
  lemma PackageInFull(m: Manifest, g: Group)
    ensures Declares(m, g) <==> g in m.groups && Lit("@rehearsal-db/core") in m.groups[g]
    ensures InSeries(m, g) <==>
              Declares(m, g) && (m.groups[g][Lit("@rehearsal-db/core")] == Lit("latest")
                                 || TargetSeries(m.groups[g][Lit("@rehearsal-db/core")]))
  {
    hide TargetSeries, Lit;
  }

  /** The version that is installed, in numbers and as a text. */
  lemma TargetInFull(v: Version)
    ensures CORE_VERSION == Lit("2.0.0") && VersionParts(CORE_VERSION) == Some(Version(2, 0, 0))
    ensures Older(v, TARGET) <==> v.major < 2
    ensures Older(TARGET, v) <==> v.major > 2 || (v.major == 2 && (v.minor > 0 || v.patch > 0))
  {
    TargetVersion();
  }
}
