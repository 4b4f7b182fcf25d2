/** Which change inventories of git may skip the full checks. */
module ChangeScope {
  import opened Strings

  const NUL: Unit := 0
  const ADDED: Unit := 65
  const MODIFIED: Unit := 77
  const NO_MODE := Lit("000000")
  const REGULAR_MODE := Lit("100644")

  // ------------------------------------------------------- allowed paths

  const ROOT_DOCUMENTS: seq<Text> :=
    [Lit("README.md"), Lit("BENCHMARKS.md"), Lit("CHANGELOG.md"), Lit("CODE_OF_CONDUCT.md"), Lit("COMPATIBILITY.md"),
     Lit("CONTRIBUTING.md"), Lit("PRIVACY.md"), Lit("SECURITY.md"), Lit("SUPPORT.md")]

  const DOCS := Lit("docs")
  const WORKSPACE := Lit("workspace")
  const NOTES := Lit("notes")
  const MARKDOWN := Lit(".md")

  predicate BadUnit(u: Unit) {
    u < 32 || u == 127 || u == BACKSLASH
  }

  predicate BadPart(part: Text) {
    part == [] || part == [DOT] || part == [DOT, DOT] || part == NOTES
  }

  /** `isDocumentationPath`. */
  predicate IsDocumentationPath(path: Text) {
    && (forall i :: 0 <= i < |path| ==> !BadUnit(path[i]))
    && var parts := Split(path, SLASH);
    && (forall i :: 0 <= i < |parts| ==> !BadPart(parts[i]))
    && !(parts[0] == DOCS && |parts| > 1 && parts[1] == WORKSPACE)
    && (path in ROOT_DOCUMENTS || (parts[0] == DOCS && |parts| > 1 && EndsWith(path, MARKDOWN)))
  }

  // ------------------------------------------------------------ metadata

  predicate IsHexUnit(u: Unit) {
    IsDigit(u) || LOWER_A <= u <= LOWER_F
  }

  predicate IsHash(t: Text) {
    |t| == 40 && forall i :: 0 <= i < |t| ==> IsHexUnit(t[i])
  }

  predicate AllZeros(t: Text) {
    t != [] && forall i :: 0 <= i < |t| ==> t[i] == ZERO
  }

  /** `commit`. */
  predicate IsCommit(t: Text) {
    IsHash(t) && !AllZeros(t)
  }

  datatype Metadata = Metadata(previousMode: Text, previousHash: Text, hash: Text, status: Unit)

  /** What the regular expression captures of a metadata field. */
  function Match(t: Text): Option<Metadata> {
    if |t| == 98 then
      var m := Metadata(t[1..7], t[15..55], t[56..96], t[97]);
      if && t[0] == COLON && t[7] == SPACE && t[14] == SPACE && t[55] == SPACE && t[96] == SPACE
         && (m.previousMode == NO_MODE || m.previousMode == REGULAR_MODE) && t[8..14] == REGULAR_MODE
         && IsHash(m.previousHash) && IsHash(m.hash) && (m.status == ADDED || m.status == MODIFIED)
      then Some(m) else None
    else None
  }

  predicate Consistent(m: Metadata) {
    if m.status == ADDED then m.previousMode == NO_MODE && AllZeros(m.previousHash)
    else m.previousMode == REGULAR_MODE && IsCommit(m.previousHash)
  }

  /** The three tests on one pair of fields. */
  predicate PairAllowed(metadata: Text, path: Text) {
    && Match(metadata).Some? && IsCommit(Match(metadata).value.hash)
    && Consistent(Match(metadata).value)
    && IsDocumentationPath(path)
  }

  /** The verdict on a list of fields taken two at a time. */
  predicate PairsAllowed(fields: seq<Text>) {
    |fields| % 2 == 0 &&
    (fields == [] || (PairAllowed(fields[0], fields[1]) && PairsAllowed(fields[2..])))
  }

  /** `docsOnly` as a function of the whole inventory. */
  predicate DocsOnly(diff: Text) {
    diff != [] && diff[|diff| - 1] == NUL && PairsAllowed(Split(diff[..|diff| - 1], NUL))
  }

  /** `classifyChanges`: the loop over pairs of fields with its early returns. */
  method ClassifyChanges(diff: Text) returns (docsOnly: bool)
    ensures docsOnly == DocsOnly(diff)
  {
    hide PairAllowed, Split;
    if diff == [] || diff[|diff| - 1] != NUL {
      return false;
    }
    var fields := Split(diff[..|diff| - 1], NUL);
    if fields == [] || |fields| % 2 != 0 {
      return false;
    }
    var index := 0;
    assert fields[0..] == fields;
    while index < |fields|
      invariant 0 <= index <= |fields| && index % 2 == 0
      invariant PairsAllowed(fields) == PairsAllowed(fields[index..])
    {
      var rest := fields[index..];
      assert rest[0] == fields[index] && rest[1] == fields[index + 1] && rest[2..] == fields[index + 2..];
      if !PairAllowed(fields[index], fields[index + 1]) {
        return false;
      }
      index := index + 2;
    }
    return true;
  }

  // ------------------------------------------------------- git's raw output

  /** One record of `git diff --raw -z`: a rename or a copy carries a second path. */
  datatype Change = Change(
    previousMode: Text, mode: Text, previousHash: Text, hash: Text, status: Text, paths: seq<Text>)

  const RENAMED: Unit := 82
  const COPIED: Unit := 67

  const SHA1_DIGITS := 40
  const SHA256_DIGITS := 64

  /** The shape git gives its records, in a repository with either kind of hash: no field contains NUL, and exactly
      renames and copies have two paths. */
  ghost predicate WellFormed(c: Change) {
    && NUL !in c.previousMode && NUL !in c.mode && NUL !in c.previousHash && NUL !in c.hash && NUL !in c.status
    && |c.previousMode| == 6 && |c.mode| == 6
    && |c.previousHash| == |c.hash| && (|c.hash| == SHA1_DIGITS || |c.hash| == SHA256_DIGITS)
    && c.status != []
    && |c.paths| == (if c.status[0] == RENAMED || c.status[0] == COPIED then 2 else 1)
    && FreeOf(c.paths, NUL)
  }

  function MetadataField(c: Change): Text {
    [COLON] + c.previousMode + [SPACE] + c.mode + [SPACE] + c.previousHash + [SPACE] + c.hash + [SPACE] + c.status
  }

  function FieldsOf(changes: seq<Change>): seq<Text> {
    if changes == [] then [] else [MetadataField(changes[0])] + changes[0].paths + FieldsOf(changes[1..])
  }

  /** Every field is followed by NUL. */
  function Serialise(fields: seq<Text>): Text {
    if fields == [] then [] else fields[0] + [NUL] + Serialise(fields[1..])
  }

  /** A change the prose lane may contain. */
  predicate ChangeAllowed(c: Change) {
    && c.mode == REGULAR_MODE && IsCommit(c.hash)
    && ((c.status == [ADDED] && c.previousMode == NO_MODE && |c.previousHash| == 40 && AllZeros(c.previousHash))
        || (c.status == [MODIFIED] && c.previousMode == REGULAR_MODE && IsCommit(c.previousHash)))
    && |c.paths| == 1 && IsDocumentationPath(c.paths[0])
  }

  // --------------------------------------------------------------- proofs

  /** The match of a written metadata field, whatever its parts are. */
  lemma MatchField(c: Change)
    requires WellFormed(c)
    ensures Match(MetadataField(c)) ==
            if |c.status| == 1 && (c.status[0] == ADDED || c.status[0] == MODIFIED) && c.mode == REGULAR_MODE
               && (c.previousMode == NO_MODE || c.previousMode == REGULAR_MODE) && IsHash(c.previousHash) &&
                  IsHash(c.hash)
            then Some(Metadata(c.previousMode, c.previousHash, c.hash, c.status[0])) else None
  {
    if |c.hash| == SHA256_DIGITS {
      assert |MetadataField(c)| == 145 + |c.status|;
    } else {
      MatchShortField(c);
    }
  }

  lemma MatchShortField(c: Change)
    requires WellFormed(c) && |c.hash| == SHA1_DIGITS
    ensures Match(MetadataField(c)) ==
            if |c.status| == 1 && (c.status[0] == ADDED || c.status[0] == MODIFIED) && c.mode == REGULAR_MODE
               && (c.previousMode == NO_MODE || c.previousMode == REGULAR_MODE) && IsHash(c.previousHash) &&
                  IsHash(c.hash)
            then Some(Metadata(c.previousMode, c.previousHash, c.hash, c.status[0])) else None
  {
    hide IsHash;
    var t := MetadataField(c);
    assert |t| == 97 + |c.status|;
    if |c.status| == 1 {
      assert t[1..7] == c.previousMode && t[8..14] == c.mode && t[15..55] == c.previousHash && t[56..96] == c.hash;
      assert t[97] == c.status[0];
    }
  }

  /** A one-path record is accepted as a pair exactly when the change is allowed. */
  lemma PairIsChange(c: Change)
    requires WellFormed(c)
    ensures PairAllowed(MetadataField(c), c.paths[0]) <==> ChangeAllowed(c)
  {
    MatchField(c);
    hide Match, MetadataField, IsDocumentationPath, AllZeros;
    ModesDiffer();
    if AllZeros(c.previousHash) {
      ZerosHash(c.previousHash);
    }
  }

  lemma ModesDiffer()
    ensures NO_MODE != REGULAR_MODE
  {
    assert NO_MODE[0] != REGULAR_MODE[0];
  }

  lemma ZerosHash(t: Text)
    ensures |t| == 40 && AllZeros(t) ==> IsHash(t)
  {
  }

  /** A rename or copy, met where metadata is expected, is refused there; it can never shift the pairs. */
  lemma {:induction false} PairsAreChanges(changes: seq<Change>)
    requires forall i :: 0 <= i < |changes| ==> WellFormed(changes[i])
    ensures PairsAllowed(FieldsOf(changes)) <==> forall i :: 0 <= i < |changes| ==> ChangeAllowed(changes[i])
  {
    hide PairAllowed, ChangeAllowed, WellFormed, MetadataField;
    if changes != [] {
      var c, fields := changes[0], FieldsOf(changes);
      PairIsChange(c);
      PathCount(c);
      var rest := FieldsOf(changes[1..]);
      assert fields[0] == MetadataField(c) && fields[1] == c.paths[0];
      assert fields[2..] == c.paths[1..] + rest;
      PairsAreChanges(changes[1..]);
      if ChangeAllowed(c) {
        AllowedHasOnePath(c);
        assert fields[2..] == rest;
        assert |fields| % 2 == 0 <==> |rest| % 2 == 0;
        assert forall i :: 1 <= i < |changes| ==> changes[i] == changes[1..][i - 1];
        assert (forall i :: 0 <= i < |changes| ==> ChangeAllowed(changes[i])) <==>
               (forall i :: 0 <= i < |changes[1..]| ==> ChangeAllowed(changes[1..][i])) by {
          AllFromTail(changes);
        }
      }
    }
  }

  lemma AllFromTail(changes: seq<Change>)
    requires changes != [] && ChangeAllowed(changes[0])
    ensures (forall i :: 0 <= i < |changes| ==> ChangeAllowed(changes[i])) <==>
            (forall i :: 0 <= i < |changes[1..]| ==> ChangeAllowed(changes[1..][i]))
  {
    hide ChangeAllowed;
    if forall i :: 0 <= i < |changes[1..]| ==> ChangeAllowed(changes[1..][i]) {
      forall i | 0 <= i < |changes| ensures ChangeAllowed(changes[i]) {
        if i > 0 {
          assert changes[i] == changes[1..][i - 1];
        }
      }
    }
  }

  lemma PathCount(c: Change)
    requires WellFormed(c)
    ensures c.paths != []
  {
  }

  lemma AllowedHasOnePath(c: Change)
    requires ChangeAllowed(c)
    ensures |c.paths| == 1
  {
  }

  lemma {:induction false} SerialiseJoins(fields: seq<Text>)
    requires fields != []
    ensures Serialise(fields) == Join(fields, NUL) + [NUL]
  {
    if |fields| > 1 {
      SerialiseJoins(fields[1..]);
    }
  }

  /** Splitting what was serialised gives the fields back. */
  lemma SerialisedSplits(fields: seq<Text>)
    requires fields != [] && FreeOf(fields, NUL)
    ensures var diff := Serialise(fields);
            diff != [] && diff[|diff| - 1] == NUL && Split(diff[..|diff| - 1], NUL) == fields
  {
    SerialiseJoins(fields);
    var diff := Serialise(fields);
    assert diff[..|diff| - 1] == Join(fields, NUL);
    SplitJoin(fields, NUL);
  }

  lemma {:induction false} FieldsFree(changes: seq<Change>)
    requires forall i :: 0 <= i < |changes| ==> WellFormed(changes[i])
    ensures FreeOf(FieldsOf(changes), NUL)
    ensures changes != [] ==> FieldsOf(changes) != []
  {
    if changes != [] {
      FieldsFree(changes[1..]);
      assert NUL !in MetadataField(changes[0]);
    }
  }

  lemma EmptyStream()
    ensures Serialise(FieldsOf([])) == []
  {
  }

  /** Main result: on git's own output the verdict is documentation-only exactly for a non-empty list of allowed
      changes. */
  lemma GitStreams(changes: seq<Change>)
    requires forall i :: 0 <= i < |changes| ==> WellFormed(changes[i])
    ensures DocsOnly(Serialise(FieldsOf(changes))) <==>
            changes != [] && forall i :: 0 <= i < |changes| ==> ChangeAllowed(changes[i])
  {
    hide WellFormed, ChangeAllowed, Split, PairsAllowed, FieldsOf, Serialise;
    if changes == [] {
      EmptyStream();
    } else {
      FieldsFree(changes);
      SerialisedSplits(FieldsOf(changes));
      PairsAreChanges(changes);
    }
  }

  // ------------------------------------------------ every accepted inventory

  /** The change an accepted pair of fields describes. */
  function ChangeOf(metadata: Text, path: Text): Change {
    match Match(metadata)
    case Some(m) => Change(m.previousMode, REGULAR_MODE, m.previousHash, m.hash, [m.status], [path])
    case None => Change([], [], [], [], [], [])
  }

  function ChangesOf(fields: seq<Text>): seq<Change> {
    if |fields| < 2 then [] else [ChangeOf(fields[0], fields[1])] + ChangesOf(fields[2..])
  }

  /** A matched metadata field is the one git writes for the change it describes. */
  lemma MatchedIsWritten(metadata: Text, path: Text)
    requires Match(metadata).Some?
    ensures MetadataField(ChangeOf(metadata, path)) == metadata
  {
    hide IsHash;
    var t := metadata;
    assert t == [t[0]] + t[1..7] + [t[7]] + t[8..14] + [t[14]] + t[15..55] + [t[55]] + t[56..96] + [t[96]] + [t[97]];
  }

  lemma MatchedIsWellFormed(metadata: Text, path: Text)
    requires Match(metadata).Some? && NUL !in path
    ensures WellFormed(ChangeOf(metadata, path))
  {
    var m := Match(metadata).value;
    HashFree(m.previousHash);
    HashFree(m.hash);
    ModesFree();
    hide IsHash;
    assert [m.status][0] == ADDED || [m.status][0] == MODIFIED;
  }

  lemma HashFree(t: Text)
    ensures IsHash(t) ==> NUL !in t
  {
  }

  lemma ModesFree()
    ensures NUL !in NO_MODE && NUL !in REGULAR_MODE && |NO_MODE| == 6 == |REGULAR_MODE|
  {
  }

  lemma AllowedPairIsChange(metadata: Text, path: Text)
    requires PairAllowed(metadata, path) && NUL !in path
    ensures var c := ChangeOf(metadata, path); WellFormed(c) && MetadataField(c) == metadata && c.paths == [path]
  {
    hide IsDocumentationPath, MetadataField, WellFormed;
    MatchedIsWritten(metadata, path);
    MatchedIsWellFormed(metadata, path);
  }

  lemma {:induction false} AllowedPairsAreChanges(fields: seq<Text>)
    requires PairsAllowed(fields) && FreeOf(fields, NUL)
    ensures forall i :: 0 <= i < |ChangesOf(fields)| ==> WellFormed(ChangesOf(fields)[i])
    ensures FieldsOf(ChangesOf(fields)) == fields
    decreases |fields|
  {
    hide PairAllowed, WellFormed, MetadataField, ChangeOf;
    if fields != [] {
      AllowedPairIsChange(fields[0], fields[1]);
      assert FreeOf(fields[2..], NUL);
      AllowedPairsAreChanges(fields[2..]);
      assert ChangesOf(fields)[1..] == ChangesOf(fields[2..]);
      assert fields == [fields[0]] + [fields[1]] + fields[2..];
    }
  }

  lemma Recovered(diff: Text) returns (changes: seq<Change>)
    requires DocsOnly(diff)
    ensures changes != [] && AllChangesAllowed(changes) && Serialise(FieldsOf(changes)) == diff
  {
    hide PairsAllowed, Split, WellFormed, ChangeAllowed, ChangesOf;
    var fields := Split(diff[..|diff| - 1], NUL);
    JoinSplit(diff[..|diff| - 1], NUL);
    AllowedPairsAreChanges(fields);
    SerialiseJoins(fields);
    changes := ChangesOf(fields);
    assert diff == diff[..|diff| - 1] + [NUL];
    GitStreams(changes);
    EachAllowed(changes);
  }

  /** Main result: the accepted inventories are exactly the serialisations of non-empty lists of allowed changes;
      no other text whatever is documentation-only. */
  lemma AcceptedInventories(diff: Text)
    ensures DocsOnly(diff) <==>
            exists changes :: changes != [] && AllChangesAllowed(changes) && Serialise(FieldsOf(changes)) == diff
  {
    hide PairsAllowed, Split, FieldsOf, Serialise, WellFormed, ChangeAllowed;
    if DocsOnly(diff) {
      var changes := Recovered(diff);
    }
    forall changes | changes != [] && AllChangesAllowed(changes) && Serialise(FieldsOf(changes)) == diff
      ensures DocsOnly(diff)
    {
      GitStreams(changes);
    }
  }

  ghost predicate AllChangesAllowed(changes: seq<Change>) {
    forall i :: 0 <= i < |changes| ==> WellFormed(changes[i]) && ChangeAllowed(changes[i])
  }

  lemma EachAllowed(changes: seq<Change>)
    requires forall i :: 0 <= i < |changes| ==> WellFormed(changes[i])
    requires forall i :: 0 <= i < |changes| ==> ChangeAllowed(changes[i])
    ensures AllChangesAllowed(changes)
  {
  }

  // --------------------------------------------------- the allowed paths

  /** Below `docs`, without a `workspace` directory first, ending in `.md`. */
  ghost predicate DocsParts(parts: seq<Text>) {
    && |parts| >= 2 && parts[0] == DOCS && parts[1] != WORKSPACE && FreeOf(parts, SLASH)
    && forall i :: 0 <= i < |parts| ==> !BadPart(parts[i])
  }

  predicate CleanUnits(path: Text) {
    forall i :: 0 <= i < |path| ==> !BadUnit(path[i])
  }

  predicate PlainName(s: string) {
    |s| > 5 && forall c :: c in s ==> 32 < c as int < 127 && c != '\\' && c != '/'
  }

  lemma RootName(s: string)
    requires PlainName(s)
    ensures CleanUnits(Lit(s)) && SLASH !in Lit(s) && !BadPart(Lit(s))
  {
    var t := Lit(s);
    assert '/' as int == SLASH && '\\' as int == BACKSLASH;
    forall i | 0 <= i < |t| ensures !BadUnit(t[i]) && t[i] != SLASH {
      assert s[i] in s;
    }
    assert |NOTES| == 5;
  }

  predicate OnePartName(t: Text) {
    CleanUnits(t) && SLASH !in t && !BadPart(t)
  }

  lemma FirstRootNames()
    ensures forall i :: 0 <= i < 5 ==> OnePartName(ROOT_DOCUMENTS[i])
  {
    hide CleanUnits, BadPart;
    RootName("README.md");
    RootName("BENCHMARKS.md");
    RootName("CHANGELOG.md");
    RootName("CODE_OF_CONDUCT.md");
    RootName("COMPATIBILITY.md");
  }

  lemma LastRootNames()
    ensures forall i :: 5 <= i < |ROOT_DOCUMENTS| ==> OnePartName(ROOT_DOCUMENTS[i])
  {
    hide CleanUnits, BadPart;
    RootName("CONTRIBUTING.md");
    RootName("PRIVACY.md");
    RootName("SECURITY.md");
    RootName("SUPPORT.md");
  }

  lemma RootNames()
    ensures forall i :: 0 <= i < |ROOT_DOCUMENTS| ==> OnePartName(ROOT_DOCUMENTS[i])
  {
    hide OnePartName;
    FirstRootNames();
    LastRootNames();
  }

  /** The allowed paths are exactly the nine root documents, and the Markdown files at any depth below `docs` but not
      below `docs/workspace`, with no part that is empty, `.`, `..` or `notes`. */
  lemma DocumentationPaths(path: Text)
    ensures IsDocumentationPath(path) <==>
            || path in ROOT_DOCUMENTS
            || (CleanUnits(path) && EndsWith(path, MARKDOWN)
                && exists parts :: DocsParts(parts) && Join(parts, SLASH) == path)
  {
    hide BadUnit, BadPart, EndsWith, Split, Join;
    var parts := Split(path, SLASH);
    JoinSplit(path, SLASH);
    RootNames();
    if path in ROOT_DOCUMENTS {
      SplitJoin([path], SLASH);
      OnePart(path);
      assert |DOCS| == 4 && |path| > 5 by {
        RootLengths(path);
      }
    } else if IsDocumentationPath(path) {
      assert DocsParts(parts) && Join(parts, SLASH) == path;
    }
    if other :| DocsParts(other) && Join(other, SLASH) == path {
      SplitJoin(other, SLASH);
    }
  }

  lemma OnePart(path: Text)
    ensures Join([path], SLASH) == path
  {
  }

  lemma RootLengths(path: Text)
    requires path in ROOT_DOCUMENTS
    ensures |path| > 5
  {
  }

  // ----------------------------------------------------------------- in full

  predicate CommitInFull(t: Text) {
    && |t| == 40 && (forall i :: 0 <= i < |t| ==> 48 <= t[i] <= 57 || 97 <= t[i] <= 102)
    && exists i :: 0 <= i < |t| && t[i] != 48
  }

  ghost predicate PartInFull(part: Text) {
    part != [] && part != Lit(".") && part != Lit("..") && part != Lit("notes") && 47 !in part
  }

  /** Parts below `docs`, not below `docs/workspace`. */
  ghost predicate DocsInFull(parts: seq<Text>) {
    && |parts| >= 2 && parts[0] == Lit("docs") && parts[1] != Lit("workspace")
    && forall i :: 0 <= i < |parts| ==> PartInFull(parts[i])
  }

  predicate PrintableUnits(path: Text) {
    forall i :: 0 <= i < |path| ==> path[i] >= 32 && path[i] != 127 && path[i] != 92
  }

  /** One of nine documents at the root, or a Markdown file below `docs`. */
  ghost predicate PathInFull(path: Text) {
    || path in [Lit("README.md"), Lit("BENCHMARKS.md"), Lit("CHANGELOG.md"), Lit("CODE_OF_CONDUCT.md"),
                Lit("COMPATIBILITY.md"), Lit("CONTRIBUTING.md"), Lit("PRIVACY.md"), Lit("SECURITY.md"),
                  Lit("SUPPORT.md")]
    || (PrintableUnits(path) && (exists name :: path == name + Lit(".md"))
        && exists parts :: DocsInFull(parts) && Join<Unit>(parts, 47) == path)
  }

  /** A regular file that was added or modified: modes, hashes and status written out. */
  ghost predicate ChangeInFull(c: Change) {
    && c.mode == Lit("100644") && CommitInFull(c.hash)
    && ((c.status == Lit("A") && c.previousMode == Lit("000000") && c.previousHash == seq(40, _ => 48))
        || (c.status == Lit("M") && c.previousMode == Lit("100644") && CommitInFull(c.previousHash)))
    && |c.paths| == 1 && PathInFull(c.paths[0])
  }

  lemma CommitExactly(t: Text)
    ensures IsCommit(t) <==> CommitInFull(t)
  {
  }

  lemma DocsExactly(parts: seq<Text>)
    ensures DocsParts(parts) <==> DocsInFull(parts)
  {
    assert Lit(".") == [DOT] && Lit("..") == [DOT, DOT];
    hide Lit;
    forall part ensures !BadPart(part) && SLASH !in part <==> PartInFull(part) {
    }
  }

  lemma EndsExactly(path: Text)
    ensures EndsWith(path, MARKDOWN) <==> exists name :: path == name + Lit(".md")
  {
    if EndsWith(path, MARKDOWN) {
      assert path == path[..|path| - |MARKDOWN|] + MARKDOWN;
    }
    if name :| path == name + Lit(".md") {
      assert path[|path| - |MARKDOWN|..] == MARKDOWN;
    }
  }

  lemma UnitsExactly(path: Text)
    ensures CleanUnits(path) <==> PrintableUnits(path)
  {
  }

  lemma RootsExactly()
    ensures ROOT_DOCUMENTS ==
            [Lit("README.md"), Lit("BENCHMARKS.md"), Lit("CHANGELOG.md"), Lit("CODE_OF_CONDUCT.md"),
             Lit("COMPATIBILITY.md"), Lit("CONTRIBUTING.md"), Lit("PRIVACY.md"), Lit("SECURITY.md"), Lit("SUPPORT.md")]
  {
    hide Lit;
  }

  /** Main result: the allowed paths, written out. */
  lemma PathExactly(path: Text)
    ensures IsDocumentationPath(path) <==> PathInFull(path)
  {
    hide IsDocumentationPath, CleanUnits, PrintableUnits, EndsWith, DocsParts, DocsInFull, Join, Lit, MARKDOWN;
    DocumentationPaths(path);
    RootsExactly();
    hide ROOT_DOCUMENTS;
    EndsExactly(path);
    UnitsExactly(path);
    forall parts ensures DocsParts(parts) <==> DocsInFull(parts) {
      DocsExactly(parts);
    }
  }

  lemma ZerosExactly(t: Text)
    ensures |t| == 40 && AllZeros(t) <==> t == seq(40, _ => 48)
  {
  }

  lemma ChangeExactly(c: Change)
    ensures ChangeAllowed(c) <==> ChangeInFull(c)
  {
    hide IsDocumentationPath, PathInFull, IsCommit, CommitInFull, AllZeros;
    assert Lit("A") == [65] && Lit("M") == [77];
    CommitExactly(c.hash);
    CommitExactly(c.previousHash);
    ZerosExactly(c.previousHash);
    if |c.paths| == 1 {
      PathExactly(c.paths[0]);
    }
  }

  /** Main result: the verdict on git's output, with every condition on a change written out. */
  lemma GitStreamsInFull(changes: seq<Change>)
    requires forall i :: 0 <= i < |changes| ==> WellFormed(changes[i])
    ensures DocsOnly(Serialise(FieldsOf(changes))) <==>
            changes != [] && forall i :: 0 <= i < |changes| ==> ChangeInFull(changes[i])
  {
    hide WellFormed, ChangeAllowed, ChangeInFull, DocsOnly, FieldsOf, Serialise;
    GitStreams(changes);
    forall i | 0 <= i < |changes| ensures ChangeAllowed(changes[i]) <==> ChangeInFull(changes[i]) {
      ChangeExactly(changes[i]);
    }
  }

  /** The text of one record: a colon, modes, hashes and status between spaces, then its paths, each closed by NUL. */
  lemma RecordText(c: Change)
    requires |c.paths| == 1
    ensures Serialise(FieldsOf([c])) ==
            Lit(":") + c.previousMode + Lit(" ") + c.mode + Lit(" ") + c.previousHash + Lit(" ") + c.hash + Lit(" ") +
            c.status + [0] + c.paths[0] + [0]
  {
    assert Lit(":") == [58] && Lit(" ") == [32];
    hide Lit;
    var m := MetadataField(c);
    assert [c][1..] == [] && FieldsOf([c][1..]) == [];
    assert FieldsOf([c]) == [m, c.paths[0]];
    var last: seq<Text> := [c.paths[0]];
    assert [m, c.paths[0]][1..] == last && last[1..] == [];
    assert Serialise(last) == c.paths[0] + [NUL] + Serialise([]);
    assert Serialise([m, c.paths[0]]) == m + [NUL] + (c.paths[0] + [NUL]);
  }
}
