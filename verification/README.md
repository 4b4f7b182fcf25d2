# Verified release and packaging rules

A Dafny model of the algorithms that decide how this package is released and shipped, with proofs of what they
promise. `dafny verify dfyconfig.toml` checks the whole project.

Text is a sequence of UTF-16 code units (`Strings`), as in ECMAScript, so lone surrogates and the length limits of
the scripts are modelled as they are. Refusals and exceptions are `None`.

* **Canonical JSON and the controls witness** (`Utf8`, `Numbers`, `Json`, `JsonText`, `JsonReader`, `JsonGrammar`,
  `CanonicalBounds`, `RulesetText`, `WitnessInFull`, `WitnessText`, `Canonical`, `ObjectGraph`, `Witness`,
  `PrintedSize`, `WitnessSize`, `WitnessAccepted`, `WitnessExample`, `WitnessShape`, `WitnessFile`, `Observer`,
  `Approval`, `ApprovalExample`). The canonicaliser runs imperatively over an arbitrary object graph with its shared
  node counter; it is proved to accept exactly the finite trees inside every bound and to refuse every cycle. Its text
  identifies exactly the values that differ only in name order, by a JSON reader that inverts the printer. On top of
  it: which rulesets can be recorded, what a witness records, when a live ruleset passes, the witness file, which
  rulesets the observer picks, and what the approval history depends on.
* **Timestamps** (`Calendar`, `Timestamp`, `TimestampText`). ECMAScript's day arithmetic is proved to be the Gregorian calendar;
  normalisation keeps the instant, and the inputs on which it is not stable are characterised.
* **ZIP bundles** (`ZipArchive`, `ZipReader`, `ZipBytes`). The byte-writing loop is proved against a specification of the archive,
  and a reader written from sections 4.3.7, 4.3.12 and 4.3.16 of PKWARE's APPNOTE.TXT recovers the entries.
* **npm channels** (`Channel`). The version pattern accepts exactly Semantic Versioning 2.0.0 up to 200 characters; the
  tag rules are followed over whole runs of publications.
* **Prose-only changes** (`ChangeScope`). The classifier's verdict on git's NUL-delimited output, whose rename and copy
  records have three fields while the loop steps by two.
* **Documentation text** (`Slugs`, `SlugText`, `DocumentText`): tags, slugs, escaping and heading ids.
* **Setup** (`Setup`, `SetupArguments`): the command line and the plan.

Many results come in two forms: a law, such as a round trip, and a statement in full, which says the same operation's
answer in literal texts, numbers and inequalities. The members whose names end in `InFull` are of the second kind.

Assumptions that a reader should know:

* A number is an exact decimal, so `-0` is `0` and `1.0` is `1`; it is printed as `Number::toString` of ECMA-262 prints
  it. Rounding to 64 bits is not modelled.
* SHA-256 is an arbitrary function of the UTF-8 bytes. Drift detection assumes only that it does not collide on the
  bytes of the rulesets being compared; an injective hash into 64 digits does not exist. `crc32` is an arbitrary
  32-bit function.
* An object lists its own names in insertion order except that array-index names come first, by value, as
  ECMA-262 orders them.
* `Date.parse` reads one or two fraction digits as tenths or hundredths of a second, as V8 does; ECMA-262 leaves that
  form to the implementation.

Results that differ from what one might expect:

* Canonical order is a fixed order of names, but not always the alphabetical order that the script's comment speaks of:
  `1` comes before `!` (`Canonical.NotAlphabetical`). It is alphabetical exactly when the index names of an object
  stand where the alphabet puts them (`Canonical.AlphabeticalExactly`).
* Normalising a timestamp twice is not always possible: offsets near the ends of 1970 and 9999 give a text that is
  itself refused (`Timestamp.EarlyException`, `Timestamp.LateException`). The exact condition is
  `Timestamp.NormalisationSettles`.
* Heading ids are not always unique: two headings `a` and one `a-2` share an id (`DocumentText.LookalikeExample`). The
  exact condition is `DocumentText.UniqueExactly`.
* The approval check is described as independent of comment text. What a comment of proper form says matters only
  through the length of the canonical text: exactly when it exceeds 262144 bytes is the history refused
  (`Approval.OnlyBytesMatter`). 65 comments of the longest allowed size are too many
  (`ApprovalExample.LongCommentsExample`). A comment where there was none also adds a name, and a review of 100 names is
  refused with it (`ApprovalExample.AddedCommentExample`).
* An archive whose count, directory size or offset happens to equal a ZIP64 escape value is written but cannot be read
  back; `ZipReader.ZipRoundTrip` says exactly when. 65535 empty files do it (`ZipReader.CountExample`), and one file
  whose record fills 4294967295 bytes (`ZipReader.OffsetExample`).

## Model

| member | source | states |
|---|---|---|
| Canonical.CanonicalFaithful | scripts/release/controls_witness.mjs:29-56 | two accepted values have the same canonical text exactly when they are equal up to the order of object names at every depth; array order counts |
| Canonical.CanonicalReads | scripts/release/controls_witness.mjs:40-53 | an independent JSON reader gives back the value with its names in canonical order |
| Canonical.CanonicalIdempotent | scripts/release/controls_witness.mjs:30-54 | the canonical text read back is the same value up to name order and canonicalises to the same text |
| JsonText.StringifyTokens | scripts/release/controls_witness.mjs:51 | the text without indentation is brackets, commas, colons, quoted texts and numbers one after the other, with nothing between them |
| JsonText.CanonicalTokens | scripts/release/controls_witness.mjs:51-53 | the canonical text is those tokens for the value with its names in canonical order |
| JsonText.QuoteExactly | scripts/release/controls_witness.mjs:51 | in a quoted text a unit stands for itself unless it is a quote, a backslash, below 32 or half a surrogate pair; those have the escapes written out |
| JsonText.WholeText | scripts/release/controls_witness.mjs:51 | a whole number below 10^21 in magnitude prints as its signed decimal numeral |
| JsonText.LargeWholeText | scripts/release/controls_witness.mjs:51 | a larger one prints its digits without the zeros at the end, and an exponent |
| JsonText.FractionTexts | scripts/release/controls_witness.mjs:51 | a fraction prints with the point among its digits, after up to five zeros, or with an exponent |
| CanonicalBounds.CanonicalExactly | scripts/release/controls_witness.mjs:30-54 | a value has a canonical text exactly when no value inside lies deeper than 20 or is too large by itself, at most 20000 values are inside and the text has at most 262144 bytes |
| Canonical.IndexNames | scripts/release/controls_witness.mjs:45-48 | the names listed first are the numerals of the numbers below 2^32 - 1 |
| Strings.LexLessExactly | scripts/release/controls_witness.mjs:45 | name order is by the first unit that differs, a prefix first |
| Canonical.FieldOrderListed | scripts/release/controls_witness.mjs:45-48 | whatever order names arrive in, they come out with index names by value first and the others by code unit |
| Canonical.FieldOrderCanonical | scripts/release/controls_witness.mjs:45-48 | the order of the output depends only on the set of fields |
| Canonical.AlphabeticalExactly | scripts/release/controls_witness.mjs:29-48 | the canonical order is alphabetical exactly when every index name is alphabetically before the index names of larger value and before all other names |
| Canonical.NotAlphabetical | scripts/release/controls_witness.mjs:29-48 | an object whose canonical order is not alphabetical |
| Canonical.CanonicalBytes | scripts/release/controls_witness.mjs:51-56 | the hashed UTF-8 bytes determine the canonical text |
| Utf8.EncodeInjective | scripts/release/controls_witness.mjs:52-56 | texts without lone surrogates have different bytes when they differ |
| Utf8.LoneSurrogatesCollide | scripts/release/controls_witness.mjs:52-56 | without that condition different texts share their bytes |
| Utf8.CharacterBytes | scripts/release/controls_witness.mjs:52-56 | the bytes of every character in the patterns of RFC 3629, and of half a surrogate pair |
| Utf8.PairBytes | scripts/release/controls_witness.mjs:52-56 | the four bytes of a surrogate pair |
| Utf8.EncodeAppend | scripts/release/controls_witness.mjs:52-56 | characters are encoded one after the other |
| Json.StringifyWellFormed | scripts/release/controls_witness.mjs:51 | printed JSON never holds a lone surrogate, whatever strings and names the value holds |
| JsonReader.ParseStringify | scripts/release/controls_witness.mjs:51 | the reader undoes the printer for every indentation, followed by spaces |
| JsonGrammar.ParseExactly | scripts/release/settings_witness.mjs:24 | the reader accepts exactly the texts of the grammar of RFC 8259, and gives the value they spell |
| JsonReader.ParsedIsJson | scripts/release/settings_witness.mjs:11-30 | whatever text is read, the value is JSON without repeated names, and printed with any indentation it is read as itself |
| Numbers.ReadNumberText | scripts/release/controls_witness.mjs:39-51 | a printed number, in whichever of the printed forms, is read back as the same number |
| Numbers.ReadNumberExactly | scripts/release/settings_witness.mjs:24 | the numbers read, and their values, are exactly those of section 6 of RFC 8259 |
| Numbers.ValueInFull | scripts/release/settings_witness.mjs:24 | the number read has the value of its digits times the power of ten, whole or not |
| Numbers.ZeroFraction | scripts/release/settings_witness.mjs:24 | a whole number spelled with a fraction of zeros is read as that whole number |
| Numbers.TwoPointsRefused | scripts/release/settings_witness.mjs:24 | a text with two points is no number |
| ObjectGraph.Canonicaliser.Run | scripts/release/controls_witness.mjs:31-50 | the recursive visitor with its shared counter and early refusals computes the counting specification, including the count at refusal |
| ObjectGraph.Canonicaliser.RunItems | scripts/release/controls_witness.mjs:40-43 | the loop over array items, resumable at every index |
| ObjectGraph.Canonicaliser.RunFields | scripts/release/controls_witness.mjs:44-49 | the loop over sorted names, resumable at every name |
| ObjectGraph.CanonicalOf | scripts/release/controls_witness.mjs:30-54 | a fresh counter per call, then the byte bound |
| ObjectGraph.VisitMeasures | scripts/release/controls_witness.mjs:31-50 | the counter-carrying recursion accepts exactly when depth, string, array and object bounds hold and counted plus own size is at most 20000; the counter then grew by exactly the size |
| ObjectGraph.AcceptsExactly | scripts/release/controls_witness.mjs:30-54 | on a graph that is a finite tree the run gives that tree's canonical text or its refusal |
| ObjectGraph.AcceptedIsTree | scripts/release/controls_witness.mjs:30-54 | whatever is accepted is a finite tree |
| ObjectGraph.CycleRefused | scripts/release/controls_witness.mjs:32-48 | everything from which a cycle can be reached is refused |
| ObjectGraph.VisitsBounded | scripts/release/controls_witness.mjs:31-33 | on any graph at most 20001 values are visited |
| Calendar.RollOverIsCalendar | scripts/release/controls_witness.mjs:66-88 | turning a date into a day number and back keeps month and day exactly when the day exists in the Gregorian calendar |
| Calendar.CivilToDayToCivil | scripts/release/controls_witness.mjs:80-84 | an existing date comes back as itself |
| Calendar.DayToCivilToDay | scripts/release/controls_witness.mjs:80-92 | every day number is the day of exactly the existing date read from it |
| Timestamp.AcceptedTexts | scripts/release/controls_witness.mjs:58-91 | accepted are exactly the written forms of existing days from 1970, times below 24:00:00 and offsets below a day other than `-00:00` |
| TimestampText.AcceptedInFull | scripts/release/controls_witness.mjs:58-91 | the accepted texts, by digits and punctuation at their places, days of the month, and offsets |
| TimestampText.InstantInFull | scripts/release/controls_witness.mjs:80-92 | the moment a text denotes: days since 1970 counted one by one, hours, minutes, seconds and milliseconds read at their places, minus the offset |
| TimestampText.OffsetInFull | scripts/release/controls_witness.mjs:81-92 | an offset of either sign moves the moment by 3600000 for each hour and 60000 for each minute, and the normal form is that of the moved moment |
| TimestampText.NormalFormInFull | scripts/release/controls_witness.mjs:90-92 | the normal form has 24 units, three digits after the dot and a Z, and denotes the same moment |
| TimestampText.OutsideInFull | scripts/release/controls_witness.mjs:90-92 | before 1970 and after 9999 the text is that of the last day of 1969 or the first of 10000 |
| Timestamp.NormalisationKeepsInstant | scripts/release/controls_witness.mjs:58-93 | accepted texts normalise to the same text exactly when they denote the same millisecond |
| Timestamp.NormalisationSettles | scripts/release/controls_witness.mjs:58-93 | normalising again changes nothing exactly when the UTC instant lies in the years 1970 to 9999, and is refused otherwise |
| Timestamp.MomentSettles | scripts/release/controls_witness.mjs:90-92 | every millisecond of the years 1970 to 9999 prints as a text that is accepted, denotes it and normalises to itself |
| Timestamp.EarlyException | scripts/release/controls_witness.mjs:69-92 | an accepted text whose normal form is refused, before 1970 in UTC |
| Timestamp.LateException | scripts/release/controls_witness.mjs:69-92 | an accepted text whose normal form is refused, after 9999 in UTC |
| Timestamp.FractionPadding | scripts/release/controls_witness.mjs:61-92 | a text with a zero added to its fraction is accepted alike and normalises to the same text |
| Timestamp.OffsetShift | scripts/release/controls_witness.mjs:81-92 | a text in UTC and the text an hour later an hour ahead are accepted alike and normalise to the same text |
| Witness.CheckRules | scripts/release/controls_witness.mjs:161-188 | one pass with the sets of identities and targets accepts exactly when every entry is valid and no identity or target repeats |
| Witness.ValidatedWitness | scripts/release/controls_witness.mjs:140-191 | the validation as it runs accepts exactly the specified values |
| Witness.DriftDetection | scripts/release/controls_witness.mjs:95-137 | a live ruleset passes exactly when identity and age are right, bypass actors are absent or empty, and its seven public fields and two instants are those of an observed ruleset up to name order and offset; no other field matters |
| WitnessInFull.DriftInFull | scripts/release/controls_witness.mjs:240-291 | the same with the seven names, the inequalities between now, the observation and the maximum age, and the bypass actors written out |
| WitnessInFull.ProofInFull | scripts/release/controls_witness.mjs:240-291 | for any valid witness, when a live ruleset passes |
| Witness.RuleAgrees | scripts/release/controls_witness.mjs:279-287 | comparing times and digest with a recorded entry is comparing the controls themselves |
| Witness.ShownVerifies | scripts/release/controls_witness.mjs:194-291 | any live ruleset that shows the recorded controls and times verifies throughout the allowed age |
| Witness.CreateThenVerify | scripts/release/controls_witness.mjs:194-291 | each recorded ruleset verifies, with its empty bypass actors kept or removed |
| Witness.CreateIsSymmetric | scripts/release/controls_witness.mjs:211-232 | swapping the two rulesets gives the identical witness or the same refusal |
| WitnessInFull.CreatedInFull | scripts/release/controls_witness.mjs:211-232 | the witness has version 1, the identities and the normalised moment of the request, first the item for the branch ruleset and then the one for the tag ruleset, each with identity, times and digest of its ruleset |
| WitnessInFull.ValidInFull | scripts/release/controls_witness.mjs:140-188 | the records that pass the validation, in numbers |
| RulesetText.RulesetInFull | scripts/release/controls_witness.mjs:95-118 | the rulesets that pass, with names, values and references written out |
| RulesetText.RulesetDigest | scripts/release/controls_witness.mjs:120-138 | the digest is the hash of exactly one written-out text: seven names in alphabetical order, the reference of the target, the rules in canonical order |
| WitnessText.PrettyObject | scripts/release/observe_controls.mjs:66-79 | an object printed with indentation has one line for each field |
| WitnessText.PrintedWitness | scripts/release/observe_controls.mjs:66-79 | the printed witness line by line |
| WitnessAccepted.CreateExactly | scripts/release/controls_witness.mjs:194-233 | a witness is created exactly for two exact rulesets without bypass actors, of different identity and target, created before updated and updated two seconds before the observation, all within the years 1970 to 9999; the bounds on the witness itself never matter |
| WitnessExample.ExampleIsCreated | scripts/release/controls_witness.mjs:194-233 | under every repository name, for any two identities and any moment, two bare rulesets observed two seconds after they were made are recorded |
| WitnessAccepted.RecordCanonical | scripts/release/controls_witness.mjs:189 | the canonicaliser's bounds never stop a valid record |
| Observer.SelectRulesets | scripts/release/observe_controls.mjs:36-65 | the loop over summaries keeps the specified rulesets, and gives up exactly when some summary makes it |
| Observer.ChosenInFull | scripts/release/observe_controls.mjs:51-64 | picked are rulesets over `refs/heads/main` for branches and over `refs/tags/v*` for tags, given as lists or what looks like them |
| Observer.StepInFull | scripts/release/observe_controls.mjs:41-65 | what one summary adds, with its names and values written out |
| Observer.ObserveInFull | scripts/release/observe_controls.mjs:36-79 | at most eight summaries are looked at, and the selected rulesets are recorded |
| Observer.RefusesExactly | scripts/release/observe_controls.mjs:41-50 | the observer gives up exactly when some summary has no proper number or its details cannot be read |
| Observer.SelectedExactly | scripts/release/observe_controls.mjs:41-65 | selected are exactly the rulesets read that pass the looser test |
| Observer.ExactIsChosen | scripts/release/observe_controls.mjs:51-64 | the observer's looser test overlooks no ruleset that could be recorded |
| Observer.ObservedVerify | scripts/release/observe_controls.mjs:36-79 | of all rulesets the observer read exactly the two it selected verify against the witness it printed |
| Approval.ApprovedInFull | scripts/release/controls_witness.mjs:298-342 | approved exactly when one to a hundred proper reviews fit the canonicaliser and in one of them the owner, as a user, approved the npm environment alone |
| Approval.OnlyBytesMatter | scripts/release/controls_witness.mjs:293-342 | when only the texts of comments change, and stay proper, an approved history stays approved exactly when its canonical text has at most 262144 bytes |
| Approval.CommentsDoNotMatter | scripts/release/controls_witness.mjs:298-342 | when comments change, appear or disappear, an approved history stays approved exactly when they are proper and the canonicaliser still accepts it |
| Approval.CommentsCanMatter | scripts/release/controls_witness.mjs:308-320 | 65 or more reviews with longest comments are refused, however they were approved before |
| ApprovalExample.LongCommentsExample | scripts/release/controls_witness.mjs:298-342 | histories of 65 to 100 reviews that are approved with empty comments and refused with longest ones |
| ApprovalExample.AddedCommentExample | scripts/release/controls_witness.mjs:47-48 | a review of 100 names that is approved without a comment and refused with one, however short |
| WitnessShape.RepositoryNameExact | scripts/release/controls_witness.mjs:25-27 | a repository name is an owner name, a slash and a project name |
| WitnessShape.RulesetShape | scripts/release/controls_witness.mjs:95-118 | a ruleset passes the checks exactly when its public fields are, up to name order, the expected ones with only identity, target and rules free |
| WitnessShape.WitnessShapeExact | scripts/release/controls_witness.mjs:140-191 | accepted are exactly the values that are, up to name order, a valid record printed |
| WitnessShape.DigestIsRecord | scripts/release/controls_witness.mjs:235-237 | without a collision two accepted witnesses have the same digest exactly when they hold the same record |
| WitnessFile.ReadControlsWitness | scripts/release/settings_witness.mjs:11-30 | of regular files inside the bound exactly those are accepted whose text spells, by the grammar and up to name order, a valid record; the result is the value spelled |
| WitnessFile.ReadFileExact | scripts/release/settings_witness.mjs:11-30 | the same about the specification function that the round trip uses |
| WitnessFile.FileRoundTrip | scripts/release/observe_controls.mjs:66-79 | every witness that can be created prints to between 1 and 16384 bytes and is read back from that file unchanged |
| ZipArchive.SafeNameExact | installers/build-bundles.mjs:24-30 | accepted names are exactly the slash-separated sequences of non-empty safe parts other than `.` and `..` |
| ZipArchive.WriteU16 | installers/build-bundles.mjs:36-42 | two little-endian bytes written in place, everything else unchanged |
| ZipArchive.WriteU32 | installers/build-bundles.mjs:35-41 | four little-endian bytes written in place, everything else unchanged |
| ZipArchive.WriteLocalHeader | installers/build-bundles.mjs:34-42 | the buffer holds the local header of APPNOTE.TXT 4.3.7 |
| ZipArchive.WriteCentralHeader | installers/build-bundles.mjs:43-57 | the buffer holds the central directory header of APPNOTE.TXT 4.3.12 |
| ZipArchive.WriteEndRecord | installers/build-bundles.mjs:62-68 | the buffer holds the end record of APPNOTE.TXT 4.3.16 |
| ZipArchive.DeterministicZip | installers/build-bundles.mjs:17-70 | the loop with two chunk lists and a running offset produces the specified archive, or fails exactly when a name is unsafe or a field does not fit |
| ZipBytes.ArchiveInBytes | installers/build-bundles.mjs:17-70 | every byte of an archive: signatures, version 20, flags 0x800, date 0x2821, sizes and checksum low byte first, both file modes, and where each local record starts |
| ZipBytes.SortedInFull | installers/build-bundles.mjs:21-23 | entries are written in ascending order of their names, those of one name in the order they came in |
| ZipReader.ArchiveExactly | installers/build-bundles.mjs:17-70 | an archive is written exactly for entries with safe names and fitting lengths whose count and total sizes fit the end record |
| ZipReader.ZipRoundTrip | installers/build-bundles.mjs:17-70 | a reader starting at the end record recovers exactly the sorted names, bytes, checksums and executable flags, and fails exactly when a field announces ZIP64 |
| ZipReader.CountExample | installers/build-bundles.mjs:62-69 | 65535 empty files of different names are written and cannot be read back |
| ZipReader.OffsetExample | installers/build-bundles.mjs:62-69 | one file whose record fills 4294967295 bytes is written and cannot be read back |
| ZipReader.ArchiveTiles | installers/build-bundles.mjs:57-69 | local records start at 0 and tile the file without gap or overlap up to the directory, which ends at the end record |
| ZipReader.ArchiveCanonical | installers/build-bundles.mjs:21-23 | permuting entries with distinct names does not change a byte, and directory names strictly ascend |
| ZipReader.ArchiveLength | installers/build-bundles.mjs:58-69 | the archive has 76 bytes, twice the name and the data per entry, plus 22 |
| Channel.RecogniserExact | scripts/release/channel.mjs:3-19 | the accepted texts are exactly the printed semantic versions of at most 200 units |
| Channel.RecogniserInFull | scripts/release/channel.mjs:3-19 | the accepted versions unit by unit |
| Channel.ReleaseInFull | scripts/release/channel.mjs:13-18 | a version with a hyphen before any plus is a prerelease under `beta`, any other is under `latest` |
| Channel.PublishInFull | scripts/release/channel.mjs:43-49 | what one publication sets `beta` and `latest` to |
| Channel.MatchInFull | scripts/release/channel.mjs:51-64 | what the final check refuses, and what it asks of both tags |
| Channel.PrintMatches | scripts/release/channel.mjs:3-11 | a printed version matches the pattern and its groups are its parts |
| Channel.MatchedPrints | scripts/release/channel.mjs:3-11 | printing the groups of a matched text gives the text |
| Channel.PrereleaseExact | scripts/release/channel.mjs:13-18 | a version is a prerelease exactly when a hyphen occurs before any plus |
| Channel.MatchIsFixedPoint | scripts/release/channel.mjs:35-64 | the tags match exactly when publishing again changes neither tag, and they match right after one step |
| Channel.WholeRun | scripts/release/channel.mjs:43-49 | after any run `beta` is the last prerelease, `latest` the last stable version, else the stable version it was, else the last prerelease; nothing else changes |
| Channel.FreshRun | docs/releasing.md:216-222 | the same from a package without either tag |
| Channel.StableForGood | scripts/release/channel.mjs:43-49 | once `latest` is stable no later run makes it a prerelease |
| ChangeScope.ClassifyChanges | scripts/verification/change_scope.mjs:41-66 | the loop over pairs with its early returns decides the specified verdict |
| ChangeScope.GitStreams | scripts/verification/change_scope.mjs:41-66 | on git's records, renames and copies with two paths included, the verdict is documentation-only exactly for a non-empty list of allowed changes |
| ChangeScope.GitStreamsInFull | scripts/verification/change_scope.mjs:24-66 | the same with modes, hashes, statuses and paths written out |
| ChangeScope.RecordText | scripts/verification/change_scope.mjs:41-66 | the text of one record of the stream |
| ChangeScope.AcceptedInventories | scripts/verification/change_scope.mjs:41-66 | no text other than the serialisation of such a list is documentation-only |
| ChangeScope.DocumentationPaths | scripts/verification/change_scope.mjs:24-39 | allowed paths are the nine root documents and the Markdown files below `docs` but not below `docs/workspace`, with no part that is empty, `.`, `..` or `notes` |
| DocumentText.EscapeIsSubstitution | scripts/docs/build.mjs:32-38 | five sequential replacements equal one substitution per character |
| DocumentText.EscapeInFull | scripts/docs/build.mjs:32-38 | the five entities written out, unit by unit |
| DocumentText.EscapeRoundTrip | scripts/docs/build.mjs:32-38 | a decoder recovers the text, and the output holds none of the four delimiters |
| Slugs.StripHtmlExact | scripts/docs/build.mjs:40-44 | results are exactly the texts without a tag, trimmed and singly spaced, and those stay as they are |
| Slugs.SlugExact | scripts/docs/build.mjs:46-52 | results are exactly the texts of lower-case ASCII letters, digits and single hyphens, and those stay as they are |
| SlugText.TagInFull | scripts/docs/build.mjs:40-44 | the first tag becomes a space |
| SlugText.WordsInFull | scripts/docs/build.mjs:40-44 | a text without tags keeps its words with one space between them |
| SlugText.SlugInFull | scripts/docs/build.mjs:46-52 | the slug is the words in lower-case letters, digits and hyphens, joined by single hyphens |
| SlugText.HeadingExample | scripts/docs/build.mjs:46-52 | `Getting Started` becomes `getting-started` |
| DocumentText.IdInFull | scripts/docs/build.mjs:81-84 | the id is the slug or `section`, followed by a hyphen and n + 1 after n earlier headings with it |
| DocumentText.HeadingRenderer.Render | scripts/docs/build.mjs:75-87 | one heading: its id, the counter map and the list of headings |
| DocumentText.RenderPage | scripts/docs/build.mjs:69-89 | the id of every heading of a page in terms of the slugs before it, and the list of second and third level headings |
| DocumentText.IdsNeedNoEscaping | scripts/docs/build.mjs:81-88 | every id is a non-empty text of slug units, so writing it unescaped into an attribute is safe |
| DocumentText.IdsCoincide | scripts/docs/build.mjs:81-84 | two headings share an id exactly when one has a plain slug that is the suffixed id of the other |
| DocumentText.UniqueExactly | scripts/docs/build.mjs:81-84 | the ids of a page are unique exactly when no slug is another slug followed by `-k` with k between two and the number of headings of that slug |
| DocumentText.LookalikeExample | scripts/docs/build.mjs:81-84 | for every slug that does not end in a hyphen, three headings whose ids are not unique |
| SetupArguments.ParseSetupArguments | installers/shared/setup.mjs:83-108 | the loop with its extra step after `--project` computes the specified reading |
| SetupArguments.ParseExact | installers/shared/setup.mjs:83-108 | accepted are exactly the lines of sensible items, each read as what it means |
| SetupArguments.SwitchesAnywhere | installers/shared/setup.mjs:91-98 | in an accepted line a switch counts wherever it stands and nothing else sets it |
| Setup.CompareVersions | installers/shared/setup.mjs:28-33 | the sign of the result is version order |
| Setup.ArgumentsInFull | installers/shared/setup.mjs:159-172 | the arguments npm is given one by one, with the flag of each group |
| Setup.VersionInFull | installers/shared/setup.mjs:24-27 | a version is three groups of digits between dots, and its numbers are theirs |
| Setup.SeriesInFull | installers/shared/setup.mjs:114 | the series of the target is `2.` and two groups of digits, after a caret, a tilde or nothing |
| Setup.NpmInFull | installers/shared/setup.mjs:115-118 | npm is recognised by `npm@`, digits and a dot |
| Setup.PackageInFull | installers/shared/setup.mjs:122-139 | the package whose declaration counts, and which declarations are adopted |
| Setup.TargetInFull | installers/shared/setup.mjs:12 | the version installed is 2.0.0, and what is older or newer |
| Setup.InstallIsSafe | installers/shared/setup.mjs:110-173 | whenever arguments are returned nothing is downgraded, no major changes and the one declaring group is kept |
| Setup.InstallExactly | installers/shared/setup.mjs:110-173 | exactly when arguments are returned |
| Setup.PreserveExactly | installers/shared/setup.mjs:139-151 | exactly when the installed version is kept |
| Setup.InstallSettles | installers/shared/setup.mjs:159-172 | after the install took effect the next plan keeps what is there |

## Left out

- ObjectGraph.Canonicaliser.Run: getters, proxies and array holes are not modelled; a graph node answers the same every time it is read.
- Witness.DriftDetection: assumes that the hash does not collide on the two rulesets compared with the live one.
- WitnessShape.DigestIsRecord: assumes that the hash does not collide on the two witnesses.
- WitnessFile.ReadControlsWitness: the file handle is its type, its reported size and its content; opening, closing, growth between the two reads and bytes that are not UTF-8 are not modelled.
- Numbers.ReadNumberText: numbers are exact decimals; the rounding of JavaScript to 64 bits, and with it overflow to infinity and underflow to zero, is not modelled.
- Timestamp.AcceptedTexts: `Date.parse` is ECMA-262's arithmetic, with V8's reading of short fractions.
- ZipReader.ZipRoundTrip: the reader handles stored entries made on Unix; compression, encryption, ZIP64, comments beyond their length and data descriptors are outside it.
- Channel.WholeRun: runs are serialised, as the workflow's concurrency group makes them; the registry's own moves of tags are not modelled.
- ChangeScope.GitStreams: git is the shape of its records; running it and decoding its bytes are not modelled.
- DocumentText.RenderPage: the HTML of each heading is an input; the Markdown parser is not part of this model.
- Slugs.SlugExact: lower-casing covers the letters whose lower-case form holds ASCII; all others are dropped either way.
- Setup.InstallSettles: npm is assumed to do what its arguments say: declare the exact version in the chosen group and install it.
- Setup.InstallIsSafe: version numbers are natural numbers, without the rounding of JavaScript beyond 2^53; declarations are texts.
- Observer.ObservedVerify: the settings verified before the rulesets are read are not modelled; requests are a function from ruleset numbers to details.
- `verificationScope`: two commit checks around the classifier.
- Host checks, reading package metadata and running npm: foreign effects.
- Messages and refusal codes: only acceptance and refusal are modelled.
