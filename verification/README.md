# boot2deb: decisions, verified

A Dafny model of the parts of boot2deb that decide things: which version of a package is
later, which dependencies a root does not meet, which name was meant, which date a second
falls on, which directory a path names, which keys and volumes are accepted, what moved
between two builds, which packages enter the trusted local repository, and two of the
checks in the documentation linter. Side effects are not modelled: a file is its text, and
a directory is a map from paths to contents.

Code that loops over its state is modelled by methods with loops. Each such method is
proved equal to a function, and the theorems are about that function. The two places where
boot2deb changes an object in place, the artifact ledger and the repository's package
list, are classes. Strings are sequences of characters of any length, and machine widths are
written out where the code depends on them (the epoch of a version, the bytes of a key, the
bits of a file mode). A theorem that needs more of its inputs than the code does says so in
its row. Where the code does not keep a property it is meant to have, a concrete input shows
it, and the exact condition under which it does is proved.

Layout: one module a file. `Text`, `Orders`, `Sorting`, `Lists`, `NameWalks`, `Decimals`
and `Wrappers` hold what the others share. `BuildFacts` is the data model of a comparison.
The others each follow one source file, or one concern of it.

## Where the code and its documentation part

The model follows the code. Each of these is stated as a lemma.

- `parse_status` selects by a suffix, so a half-installed package and one that is not
  installed count as installed (`StatusFile.StatesTaken`). The comment says that such a
  package must not satisfy anything.
- A mount point or a device node with a tab or a newline passes validation, and then the
  rendered file reads back differently (`DataVolumes.ReadsBackExactlyWhenClean`,
  `DataVolumes.TabPassesValidation`). The renderer's comment takes such fields to be
  excluded. A space does no harm in that file, but in the mount table it breaks the volume's
  line (`MountTable.FstabReadsBackExactlyWhenUnbroken`, `MountTable.SpaceBreaksOnlyTheTable`),
  and a mount that spells an escape is read as another (`MountEscapes.CodeReadsAsAnother`).
  `MountEscapes.FstabReadsBackExactlyWhenPlain` has the exact condition for the two together.
- The package rule against `/usr/local` tests how a path starts, so a member below it passes
  whose path takes an empty or a dot step on the way (`MemberPaths.UsrLocalMissedWhen`,
  `MemberPaths.DottedPathIsAdmitted`). That every admitted member stays below the directory
  it is unpacked in does hold (`MemberPaths.AdmittedMembersStayBelow`).
- Of two packages of one name only the last can meet a dependency by its name. A list with a
  repeated name can so fail to meet what the set of its packages does, exactly as
  `DependencyClosure.SatisfiedMeansMeets` and `DependencyClosure.ReportMeans` say.
- The blob section lists values without saying which blob each is of, so where two blobs of
  the left side are the same text it leads to more than one right side
  (`ChangesFollowed.BlobsAmbiguousWhen`).
- The stem that names a build point's artifacts is shared by points of two devices
  (`BuildPoints.StemCollision`). `BuildPoints.StemsCollideWhen` says exactly when two points
  share one, by the names in them, and `BuildPoints.DevicesCollideWhen` which devices can.
- Joining Pre-Depends to Depends with a comma loses the border between them where a bracket
  is left open or closed too often (`StatusFile.JoinedDependsRead` has the exact condition,
  `FieldJoins.ClosedTooOftenExposes` an input).
- An authorized key whose blob happens to end in the first word of the private-key marker is
  refused for a comment that starts with the second (`AuthorizedKeys.KeyLineAccepted`,
  `AuthorizedKeys.BoundaryIsMet`).
- The comparison of two builds takes a patch series as a set, so a new order of application
  is not reported (`BuildComparison.ReorderedSeriesIsSilent`), and takes a value that one
  document does not state for a difference (`BuildComparison.GainedFlavorIsReported`),
  though the comments on a side call silence no change.
- The comment finder forgets to end a line of code at a newline inside a block comment, so
  a later comment can be called trailing with no code on its line
  (`CommentScanner.TrailingPartsWhen`, `CommentScanner.TrailingCounterexample`).
- The ladder check divides by zero behind a cell marked `~` whose digits are a one
  (`LadderSteps.DividesByZeroWhen`), and reports a fall to below nothing that a cell of zero
  explains (`LadderSteps.OffExactlyWhen`, `LadderSteps.FallReported`).
- The ledger records names, and neither bytes nor a target. A package replaced after it was
  admitted is taken (`ArtifactLedger.ReplacedPackageIsTaken`), and so is one that was
  admitted for another target by a build that shares the directory
  (`ArtifactLedger.OtherTargetsPackageIsTaken`). Over any run
  `ArtifactLedger.TakenPackagePassesExactly` says when a taken package keeps every rule.

## Model

| member | source | states |
|---|---|---|
| Versions.OrdinalMeans | crates/core/src/debdep.rs:383-392 | `~` sorts below the end of a string, the end below letters, letters below everything else, and characters of one kind by code |
| Versions.CompareNumericIsValue | crates/core/src/debdep.rs:355-367 | comparing digit runs by trimmed length and then digits compares the numbers they denote, of any size |
| Versions.CompareNondigit | crates/core/src/debdep.rs:369-381 | the loop to the longer run is the lexicographic order of the runs padded with end-of-string |
| Versions.ComparePart | crates/core/src/debdep.rs:319-347 | the loop over alternating runs ends and answers as the comparison of canonical keys does |
| Versions.ChunkStep | crates/core/src/debdep.rs:320-347 | two parts compare by their first text and number and then by what follows, also where one part is used up |
| Versions.TextThenNumberThenRest | crates/core/src/debdep.rs:319-367 | of two parts written as a text, a number and a rest, the texts decide where they differ, then the smaller number is less whatever follows, and only then the rests decide |
| Versions.FirstDifferenceDecides | crates/core/src/debdep.rs:369-392 | two texts that agree up to some place are ordered by what stands there, a `~` before the end and the end before anything else |
| Versions.CompareKeysTotal | crates/core/src/debdep.rs:319-347 | keys compare to opposite answers when swapped, and tie exactly when they are equal but for trailing padding |
| Versions.CompareKeysChained | crates/core/src/debdep.rs:319-347 | the order of keys is transitive in every combination, ties being interchangeable |
| Versions.CompareVersions | crates/core/src/debdep.rs:297-303 | the chained comparison of the split parts gives the order that the rows below are about |
| Versions.SplitVersionReads | crates/core/src/debdep.rs:305-317 | a version written from epoch, upstream and revision splits into them, with 0 and nothing for what is missing |
| Versions.EpochThenUpstreamThenRevision | crates/core/src/debdep.rs:286-317 | of two written versions the smaller epoch is less whatever follows, with equal epochs differing upstream parts decide whatever the revisions, and only with tied upstream parts the revisions do |
| Versions.EpochIsItsNumber | crates/core/src/debdep.rs:308-312 | an epoch in decimal, zeros or a plus sign in front, is its number up to the greatest of 64 bits, and zero beyond it or where it is no number |
| Versions.VersionOrderTotal | crates/core/src/debdep.rs:286-303 | swapping two versions flips the answer; a tie is equal epochs and equal canonical keys |
| Versions.VersionOrderChained | crates/core/src/debdep.rs:286-303 | the order of versions is a total preorder: transitive, with ties a congruence |
| Versions.TildeSortsBelow | crates/core/src/debdep.rs:295-296 | a part followed by `~` and anything sorts before the part, for every part |
| Suggestions.EditDistance | crates/core/src/error.rs:1264-1278 | the two-row table, overwritten and swapped in place, gives the recursive Levenshtein distance |
| Suggestions.DistanceBounds | crates/core/src/error.rs:1260-1278 | the distance lies between the difference of the lengths and the longer length |
| Suggestions.DistanceZero | crates/core/src/error.rs:1260-1278 | the distance is zero exactly on equal strings |
| Suggestions.DistanceSymmetric | crates/core/src/error.rs:1260-1278 | the distance does not depend on the order of the two strings |
| Suggestions.TriangleInequality | crates/core/src/error.rs:1260-1278 | going through a third string is no shorter |
| Suggestions.DistanceIsFewestEdits | crates/core/src/error.rs:1260-1278 | the distance is the least number of single-character edits in any chain between the strings |
| Suggestions.SimilarNames | crates/core/src/error.rs:1237-1258 | the filter, score, sort and take chain gives the first three of the ranked near candidates |
| Suggestions.SuggestionsAreTheBest | crates/core/src/error.rs:1227-1258 | every suggestion is near and not the name itself, they come best first, and a near candidate is left out only behind three that rank no worse |
| Suggestions.BestNamesFirst | crates/core/src/error.rs:1227-1258 | the names shown hold this one, are held by it, or are one, two or three edits away as its length allows; related names come first, then fewer edits, then names in order; and another such name is left out only behind three that come before it |
| Calendar.CivilInvertsCounting | crates/core/src/datetime.rs:87-101 | every day number becomes a valid date whose count of days is that number |
| Calendar.CountingInvertsCivil | crates/core/src/datetime.rs:87-101 | every valid date comes back from its count of days |
| Calendar.CivilSteps | crates/core/src/datetime.rs:87-101 | the next day number becomes the calendar's next date under the 4, 100, 400 rule, before the epoch too |
| Calendar.CivilIsTheCalendar | crates/core/src/datetime.rs:87-101 | the closed form, truncating divisions and all, is the calendar stepped one day at a time from 1970-01-01 |
| Timestamps.DateOrderIsDayOrder | crates/core/src/datetime.rs:79-101 | year, month and day compare as the day numbers do |
| Timestamps.Rfc3339SortsInTimeOrder | crates/core/src/datetime.rs:25-35 | up to the year 9999 the spellings compare as strings exactly as the seconds do (section 5.1 of RFC 3339) |
| Timestamps.CompactIsRfc3339WithoutPunctuation | crates/core/src/datetime.rs:14-35 | the compact spelling is the RFC 3339 one without dashes and colons, for every moment |
| Timestamps.WeekdayFollowsTheDate | crates/core/src/datetime.rs:48-74 | the weekday looked up from the seconds is the one of the date's day number |
| Timestamps.WeekdaysCycle | crates/core/src/datetime.rs:70-71 | the weekday moves on by one with the next date and repeats with the 400-year cycle |
| Timestamps.WeekdaysInOrder | crates/core/src/datetime.rs:48-74 | the epoch is a Thursday, all seconds of a day share its weekday, and the next day has the weekday after it |
| TimestampReadings.Rfc3339ReadsBack | crates/core/src/datetime.rs:25-35 | every spelling, read by section 5.6 of RFC 3339, names the second it was made from, in any year |
| TimestampReadings.Rfc3339Columns | crates/core/src/datetime.rs:25-35 | up to the year 9999 it has twenty characters with the marks where the RFC puts them |
| LexicalPath.Normalize | crates/cli/src/fsutil.rs:39-61 | the loop that pushes and pops gives a normal path that names the same directory from everywhere |
| LexicalPath.NormalFormMeans | crates/cli/src/fsutil.rs:27-61 | normalising keeps the directory named from every working directory, and leaves `..` only in front of a relative path |
| LexicalPath.NormalFormUnique | crates/cli/src/fsutil.rs:27-61 | two normal paths that name one directory from everywhere are one path |
| LexicalPath.NormalFormDecidesMeaning | crates/cli/src/fsutil.rs:27-61 | two paths name one directory from everywhere exactly when they normalise alike |
| LexicalPath.NormalFormIdempotent | crates/cli/src/fsutil.rs:27-61 | normalising again changes nothing, and the normal paths are those it leaves alone |
| PathTexts.NormalizeText | crates/cli/src/fsutil.rs:39-61 | the same on the text of a path, through its components and back |
| PathTexts.ShownReads | crates/cli/src/fsutil.rs:39-61 | the text of a normal path has the components it was made of |
| PathTexts.NormalizedTextMeans | crates/cli/src/fsutil.rs:27-61 | the normalised text names the same directory from everywhere and is left alone by a second pass |
| PathTexts.NormalizedTextDecides | crates/cli/src/fsutil.rs:27-61 | two texts name one directory from everywhere exactly when they normalise to one text |
| CommentScanner.FindComments | style/prose-lint.py:1108-1140 | the scan that jumps with find and skips literals escape by escape ends, and reports the comments of the one-character automaton with their lines, flags and texts |
| CommentScanner.SkipLiteral | style/prose-lint.py:1131-1136 | the inner loop reaches the point where the automaton leaves the literal, unterminated ones included |
| CommentScanner.SpansAreComments | style/prose-lint.py:1108-1140 | what the automaton finds are whole comments, in order and disjoint, ended by their newline, their `*/` or the end |
| CommentReadings.FirstOpeningIsFirstComment | style/prose-lint.py:1108-1140 | in a text without quotes the first two slashes or slash and star start the first comment, of that kind, and where there are none there is no comment |
| CommentReadings.LiteralHoldsNoComment | style/prose-lint.py:1111-1136 | a literal of either quote, escapes and all, holds no comment whatever it is made of |
| CommentReadings.RenderedMeans | style/prose-lint.py:1108-1130 | a comment is reported with the number of the line it starts on and with its text, a block cut into lines |
| CommentReadings.BlankCharacters | style/prose-lint.py:1137-1139 | blank before a comment are the ASCII characters of isspace |
| CommentScanner.TrailingMeans | style/prose-lint.py:1111-1112 | the trailing flag says that code stands before the comment with no newline between them but newlines of comments |
| CommentScanner.TrailingPartsWhen | style/prose-lint.py:1125-1130 | the flag is the documented one except exactly behind an earlier block comment of several lines that has code before it on its first line, with nothing but blanks and comments between the two |
| CommentScanner.TrailingCounterexample | style/prose-lint.py:1125-1130 | a text whose second comment is called trailing with no code on its line |
| DependencyFields.SplitTopLevel | crates/core/src/debdep.rs:159-180 | the loop over characters gives the trimmed, non-empty pieces between separators outside brackets |
| DependencyFields.AlternativeReads | crates/core/src/debdep.rs:182-209 | a printed alternative reads as its name, relation and version, whatever qualifier and restriction stand with it |
| DependencyFields.GroupReads | crates/core/src/debdep.rs:159-209 | a printed group of alternatives reads back alternative by alternative |
| DependencyFields.FieldReads | crates/core/src/debdep.rs:159-209 | a printed field reads back as its tree of groups and alternatives |
| FieldJoins.JoinedFieldsRead | crates/core/src/debdep.rs:159-180 | joining two fields with a comma joins what they list exactly when the first leaves no bracket open and, where it closes too many, no comma of the second stands within that many |
| FieldJoins.ClosedTooOftenExposes | crates/core/src/debdep.rs:159-180 | a first field with one closing bracket too many and a second with a bracketed comma, whose join lists something else |
| DependencyClosure.RelationsAgree | crates/core/src/debdep.rs:140-157 | the five operators are the five order relations, the lone `<` and `>` admit equality, and reversing the operands reverses the operator |
| DeclarationReadings.DeclarationReads | crates/core/src/debdep.rs:60-111 | a stanza written from groups of alternatives and provided items is read as those, each group with its text, each item with its version or none |
| DependencyClosure.OwnVersionDecides | crates/core/src/debdep.rs:113-157 | a package alone meets a versioned dependency on its name exactly when its version, compared with the one asked for, is what the operator says, which no unknown operator is |
| DependencyClosure.ProvidedVersionDecides | crates/core/src/debdep.rs:113-157 | the same for a name it provides at a version; a bare Provides meets no versioned dependency and every other |
| DependencyClosure.Unsatisfied | crates/core/src/debdep.rs:60-111 | the loops that fill both tables and collect the unmet groups give the sorted report |
| DependencyClosure.SatisfiedMeansMet | crates/core/src/debdep.rs:61-138 | for every list the lookups answer whether the atom is met by the last package of its name or by what any package provides |
| DependencyClosure.SatisfiedMeansMeets | crates/core/src/debdep.rs:113-138 | the lookups answer whether some package of the set meets the atom by name or by providing it, a bare Provides meeting only an unversioned one, except exactly where only a package with a later one of its name would; where names are distinct there is no exception |
| DependencyClosure.ReportMeans | crates/core/src/debdep.rs:60-111 | for every list an entry is in the report exactly when it tells, of a group of a package that no alternative meets or that only packages with a later one of their name would, whose it is, at what version, its text, and the version there is of its first alternative; where names are distinct there is no group of the second kind |
| DependencyClosure.ReportInOrder | crates/core/src/debdep.rs:60-111 | the entries come by package name, and those of one name by the text of the group |
| DependencyClosure.EmptyReportMeansClosed | crates/core/src/debdep.rs:60-111 | for every list the report is empty exactly when the set is closed under its own dependencies and none of them is met only by a package with a later one of its name |
| DependencyClosure.FreshPackageUnmeetsNothing | crates/core/src/debdep.rs:60-111 | for every list, adding a package of a new name leaves no group of the others newly unmet |
| DependencyClosure.ClosedUnion | crates/core/src/debdep.rs:60-111 | two lists with empty reports and no common name have an empty report together |
| DependencyClosure.ReadTextDecides | crates/core/src/debdep.rs:87-107 | the text of a group decides what it asks for, which the sort by text relies on |
| DependencyClosure.UnsatisfiedPermuted | crates/core/src/debdep.rs:60-64 | for packages of distinct names the report is the same list in whatever order they come |
| StatusFile.ParseStatus | crates/core/src/debdep.rs:211-284 | the loop over stanzas pushes the packages of the selected ones |
| StatusFile.KnownFieldMeans | crates/core/src/debdep.rs:237-264 | each of the six fields is known by its own name in any case, and no other name is |
| StatusFile.StatusReads | crates/core/src/debdep.rs:211-284 | a written database reads back as the packages of the selected stanzas in order, long values joined and unknown fields passed over |
| StatusFile.InstalledStanza | crates/core/src/debdep.rs:265-281 | an installed package's stanza gives each value from the field of that name |
| StatusFile.StatesTaken | crates/core/src/debdep.rs:213-269 | of dpkg's states exactly installed, half-installed and not-installed are selected |
| StatusFile.JoinedDependsRead | crates/core/src/debdep.rs:272-276 | the joined dependencies list what Depends and Pre-Depends list exactly when one is empty, or Depends leaves no bracket open and exposes no comma of Pre-Depends |
| Base64.EncodeBytes | crates/core/src/base64.rs:18-34 | the loop over groups of three gives the encoding of section 4 of RFC 4648 |
| Base64.DecodeText | crates/core/src/base64.rs:36-76 | the padding test and the loop over groups of four give the decoding, or nothing |
| Base64.EncodeChunk | crates/core/src/base64.rs:20-32 | one group's shifts and masks give its characters and padding |
| Base64.DecodeChunk | crates/core/src/base64.rs:59-74 | one group's shifted sum, left-aligned, gives its bytes |
| Base64.DecodeEncode | crates/core/src/base64.rs:11-76 | decoding an encoded byte sequence gives it back, for every sequence |
| Base64.KnownEncodings | crates/core/src/base64.rs:11-34 | encodings that RFC 4648 gives, and one of the last two letters |
| Base64.DecodesExactlyTheGrammar | crates/core/src/base64.rs:36-76 | decoding succeeds on exactly the padded texts of the RFC's grammar |
| Base64.EncodeDecode | crates/core/src/base64.rs:36-76 | encoding a decoded text gives it back exactly when its unused bits are zero (section 3.5 of RFC 4648) |
| Base64.NoLoneCharacter | crates/core/src/base64.rs:60-63 | a group of one character is never met once the length has been checked |
| AuthorizedKeys.AcceptedMeans | crates/core/src/authkeys.rs:53-131 | an accepted entry is one trimmed line of a listed type whose blob repeats that type, with a control-free comment, and spells out no private key |
| AuthorizedKeys.RepeatsMeans | crates/core/src/authkeys.rs:91-131 | the blob repeats its type exactly when it decodes to bytes that start with the type as a string of section 5 of RFC 4251 |
| AuthorizedKeys.ListedTypes | crates/core/src/authkeys.rs:18-26 | the types taken are these seven |
| AuthorizedKeys.RefusalShows | crates/core/src/authkeys.rs:53-113 | a refused entry shows what it is refused for |
| AuthorizedKeys.NamedKeyAccepted | crates/core/src/authkeys.rs:53-113 | such a line is accepted exactly when it does not contain the private-key marker |
| AuthorizedKeys.KeyLineAccepted | crates/core/src/authkeys.rs:53-131 | a line built from a type, the blob of section 5 of RFC 4251 that repeats it and a comment is accepted except exactly where the comment holds the marker or completes one across the space after the blob |
| AuthorizedKeys.BoundaryIsMet | crates/core/src/authkeys.rs:53-131 | for every key type there are a blob that repeats it and a harmless comment whose line spells the marker across the space, and is refused |
| LadderSteps.OffExactlyWhenUnexplained | style/prose-lint.py:510-541 | with both figures clear of zero a step is reported exactly when no two values within the cells' rounding have a ratio within the step's rounding |
| LadderSteps.ExplainedExactlyBetween | style/prose-lint.py:518-521 | for a first figure clear of zero and any second one, a step has such values exactly when its interval meets the one from their least to their greatest ratio |
| LadderSteps.OffExactlyWhen | style/prose-lint.py:528-541 | for a first figure clear of zero and any second one, the check reports just the unexplained steps, except exactly for explained falls to below nothing |
| LadderSteps.FallReported | style/prose-lint.py:528-535 | a fall of 125 percent from 2 to 0 is reported though values explain it |
| LadderSteps.DividesByZeroWhen | style/prose-lint.py:525-532 | the division fails exactly behind a marked cell whose digits are a one |
| BuildPoints.NewPoint | crates/core/src/buildpoint.rs:62-79 | the loop with the set of features seen accepts or refuses as construction is specified to |
| BuildPoints.NewAcceptsWellFormed | crates/core/src/buildpoint.rs:56-79 | construction accepts exactly a recipe of one or two bare names with distinct bare features |
| BuildPoints.RefusalNamesTheFault | crates/core/src/buildpoint.rs:62-79 | a refusal names the recipe if that is no reference, or a feature that is no bare name or is there twice |
| BuildPoints.ParseReference | crates/core/src/buildpoint.rs:81-131 | parsing the reference of a well-formed point gives the point back, features in order |
| BuildPoints.ReferenceParse | crates/core/src/buildpoint.rs:81-131 | an accepted text is the reference of the point it parses to |
| BuildPoints.ReferencesAreExact | crates/core/src/buildpoint.rs:81-131 | the accepted texts are exactly the references, one point each |
| BuildPoints.StemHasNoSlash | crates/core/src/buildpoint.rs:139-169 | a stem names no directory |
| BuildPoints.StemsCollideWhen | crates/core/src/buildpoint.rs:139-169 | two points share a stem exactly when their features are the same and so are their names, or one device takes in the start of the other's leaf, or a bare leaf spells a device, a dash and a leaf |
| BuildPoints.DevicesCollideWhen | crates/core/src/buildpoint.rs:143-151 | two devices have points that share a stem exactly when one device name is the other, a dash and more that a leaf can start with |
| BuildPoints.StemIdentifiesWithinDevice | crates/core/src/buildpoint.rs:139-169 | points of one device share no stem |
| BuildPoints.StemCollision | crates/core/src/buildpoint.rs:167-169 | points of the devices asus-c201 and asus-c201-libreboot that share a stem |
| DataVolumes.CheckAll | crates/core/src/datavolume.rs:267-294 | each entry and then every pair, up to the first fault |
| DataVolumes.ValidateAllMeans | crates/core/src/datavolume.rs:180-294 | a list passes exactly when every entry is valid and no label or mount repeats |
| VolumeReadings.RefusedList | crates/core/src/datavolume.rs:186-294 | a refused list is refused for a fault that one of its declarations shows, or where all are valid for a label or mount that two of them share |
| DataVolumes.RenderConfig | crates/core/src/datavolume.rs:307-329 | the loop writes the header and one line a volume |
| DataVolumes.ReadsBackExactlyWhenClean | crates/core/src/datavolume.rs:296-329 | for a list that passes, the first-boot hook reads every volume back in order, and no line as a comment, exactly when no mount or node holds a tab or a newline |
| VolumeReadings.HookReadsTheDeclarations | crates/core/src/datavolume.rs:296-329 | for a list that passes, the hook, by the words it knows, sets up the declared volumes in order, each with its disk, label, file system, mount and policy, exactly when no mount or node holds a tab or a newline |
| MountTable.FstabReadsBackExactlyWhenUnbroken | crates/core/src/datavolume.rs:246-264 | for a list that passes, the mount table, split into fields and no escape decoded, gives every volume's six fields in order exactly when no mount holds a space, a tab or a newline |
| MountTable.SpaceBreaksOnlyTheTable | crates/core/src/datavolume.rs:182-264 | a mount with a space passes, reads back from the config file, and breaks the mount table |
| MountEscapes.FstabReadsBackExactlyWhenPlain | crates/core/src/datavolume.rs:246-264 | for a list that passes, the mount table with its four octal escapes decoded gives every volume back exactly when no mount holds a space, a tab, a newline or an escape |
| VolumeReadings.TableMountsTheDeclarations | crates/core/src/datavolume.rs:246-264 | for a list that passes, the table mounts each volume by its label at its mount, with nofail and the device timeout, exactly when no mount holds a space, a tab, a newline or an escape |
| MountEscapes.CodeReadsAsAnother | crates/core/src/datavolume.rs:182-264 | a mount that spells the escape of a space passes, is one field, and is read as another mount |
| DataVolumes.TabPassesValidation | crates/core/src/datavolume.rs:186-244 | a mount with a tab passes and reads back as two fields |
| SideMerge.Merge | crates/core/src/diff.rs:462-492 | the pushes and sorts fold one side into another field by field |
| SideMerge.MergedAssociative | crates/core/src/diff.rs:456-492 | three sides fold together the same in either grouping |
| SideMerge.MergedWithKnown | crates/core/src/diff.rs:456-492 | folding in a side that answers only what is answered changes nothing but the order of the axes |
| SideMerge.SilentIsRightIdentity | crates/core/src/diff.rs:456-492 | the empty side is a right identity up to sorting, and once sorted exactly |
| SideMerge.MergeIsLeftBiased | crates/core/src/diff.rs:475-486 | an axis of the left side keeps its pins, and a missing one takes the first pin of the right |
| SideMerge.MergedSideInOrder | crates/core/src/diff.rs:475-486 | the axes of the merged side come in the order of their names |
| SideMerge.MergedKernelAnswers | crates/core/src/diff.rs:463-474 | for any two kernels the merged one has the left id, every answer of the left, the right's answer where the left has none, and no other |
| SideMerge.MergedKernelIsLeftBiased | crates/core/src/diff.rs:463-474 | one kernel alone is kept, and so is one that the other adds nothing to |
| SideMerge.MergeFillsWhatIsOpen | crates/core/src/diff.rs:487-491 | blobs, packages, fragments, builder and files are the left ones, or the right ones where the left side has none |
| SideMerge.SilentIsLeftIdentity | crates/core/src/diff.rs:456-492 | the empty side takes everything from one that names each axis once, but for its title and the order of the axes |
| PackageDeltas.ComparePackages | crates/core/src/diff.rs:851-896 | indexing by name and the two loops give the four lists |
| PackageDeltas.EachNameOnce | crates/core/src/diff.rs:851-896 | every name stands in one of the lists at most, once and in order, and in none exactly where nothing moved |
| PackageDeltas.LinesTell | crates/core/src/diff.rs:851-896 | a line is there exactly when a package is new or gone, with its version and architecture, moved from its left version to its right one, or was rebuilt, as the right side has it |
| PackageDeltas.LastOfNameCounts | crates/core/src/diff.rs:863-869 | a package is taken as the last entry of its name has it |
| PackageDeltas.DeltaReconstructs | crates/core/src/diff.rs:594-610 | following the delta from the left versions gives the right versions |
| PackageDeltas.PackagesQuietWhen | crates/core/src/diff.rs:611-618 | the delta is empty exactly when both sides install the same names, versions and bytes |
| PackageDeltas.PackagesMirrored | crates/core/src/diff.rs:851-896 | swapping the sides mirrors the delta, up to the architecture a rebuilt package is shown with |
| ChangesFollowed.KernelChangesReconstruct | crates/core/src/diff.rs:541-552 | following the kernel section's changes from the left kernel gives the right one, values that came or went included |
| ChangesFollowed.SourceChangesReconstruct | crates/core/src/diff.rs:994-1030 | the line found for an axis leads from its left pin to its right one, and an axis without a line did not move |
| ChangesFollowed.PatchChangesReconstruct | crates/core/src/diff.rs:948-992 | the line found for an axis leads from the series and pin of the left side to those of the right, but for the order of the series |
| ChangesFollowed.BuilderChangesReconstruct | crates/core/src/diff.rs:1056-1101 | following the builder section gives the right builder and every mirror's right release |
| ChangesFollowed.BlobChangesReconstruct | crates/core/src/diff.rs:1032-1054 | where the pins of the left side differ from one another, following the blob section gives the right ones |
| ChangesFollowed.BlobsAmbiguousWhen | crates/core/src/diff.rs:1032-1054 | two right sides get the same blob section exactly when two pins of the left side are the same |
| BuildComparison.PatchesQuietWhen | crates/core/src/diff.rs:948-992 | the patch section is silent exactly when every axis names the same set of series at the same pin |
| BuildComparison.ReorderedSeriesIsSilent | crates/core/src/diff.rs:972-973 | two series applied in the other order compare as unchanged |
| BuildComparison.SourcesQuietWhen | crates/core/src/diff.rs:994-1030 | the source section is silent exactly when every axis is pinned alike |
| BuildComparison.KernelQuietWhen | crates/core/src/diff.rs:898-946 | the kernel section is silent exactly when both sides do not say, or say the same and their fragments do not differ |
| BuildComparison.BlobsQuietWhen | crates/core/src/diff.rs:1032-1054 | the blob section is silent exactly when both sides do not say or say the same |
| BuildComparison.BuilderQuietWhen | crates/core/src/diff.rs:1056-1101 | the builder section is silent exactly when the builders agree and every archive's release does |
| BuildComparison.ReportQuietWhen | crates/core/src/diff.rs:580-591 | the whole report is silent exactly when the sides agree on everything both record |
| BuildComparison.SilentSidesAreNamed | crates/core/src/diff.rs:797-850 | a section is compared exactly when both sides record it, and else names the side that does not, or neither |
| BuildComparison.EmptyAxesAreSilent | crates/core/src/diff.rs:948-1030 | the patch and source sections are compared exactly when some side lists an axis |
| BuildComparison.GainedFlavorIsReported | crates/core/src/diff.rs:547-552 | a flavor that only one document states is reported |
| BuildComparison.SelfComparisonIsQuiet | crates/core/src/diff.rs:797-815 | a build point compared with itself has nothing to report |
| BuildComparison.ComparisonMirrored | crates/core/src/diff.rs:797-1101 | swapping the sides mirrors every section and names the same silent side, up to the architecture of rebuilt packages |
| PackageRules.IdentifiesExactlyHeaders | crates/core/src/debcheck.rs:77-96 | exactly the ELF identification blocks are identified, as the class and machine they were written with in either byte order |
| PackageRules.Check | crates/core/src/debcheck.rs:203-312 | the loops push the findings of every field and every member in order |
| PackageRules.CheckEntry | crates/core/src/debcheck.rs:237-303 | one member's branches push the findings of the rules it breaks |
| PackageRules.FindingsMean | crates/core/src/debcheck.rs:199-312 | the report lists exactly the rules the package breaks, at the members that break them |
| PackageRules.AdmittedMeans | crates/core/src/debcheck.rs:201-202 | a report without findings means that no rule is broken |
| PackageAdmission.AdmittedExactly | crates/core/src/debcheck.rs:199-312 | a package is admitted exactly when it has its five fields, suits the target, installs more than directories, and each member has a relative path outside usr/local, belongs to root, sets no id, is closed to others unless a sticky directory, and runs on the target unless it is firmware |
| PackageAdmission.EachRuleFinds | crates/core/src/debcheck.rs:235-303 | each rule about members is reported at a path exactly when a member there offends against it |
| PackageAdmission.EachRuleFindsTheWhole | crates/core/src/debcheck.rs:205-233 | a field, the architecture and the emptiness of a package are reported exactly when they are at fault |
| PackageAdmission.TargetHeaders | crates/core/src/debcheck.rs:77-113 | the header bytes of an object file for each target are identified as that target |
| PackageRules.PassesForAnother | crates/core/src/debcheck.rs:199-312 | a package that passes for one target passes for another exactly when it is for all architectures or for that one |
| MemberPaths.AdmittedMembersStayBelow | crates/core/src/debcheck.rs:235-247 | every member of an admitted package leads, from whatever directory it is unpacked in, to that directory or below it |
| MemberPaths.PrefixIsSpelt | crates/core/src/debcheck.rs:27-28 | the rule against usr/local names only members that are there |
| MemberPaths.UsrLocalMissedWhen | crates/core/src/debcheck.rs:269-275 | of the members below usr/local that keep the path rule it misses exactly those with an empty or a dot step in front of either name |
| MemberPaths.DottedPathIsAdmitted | crates/core/src/debcheck.rs:269-275 | a package that passes with a file below usr/local |
| ControlFiles.ParseControl | crates/core/src/debcheck.rs:314-336 | the loop over lines gives the fields, continuation lines folded in |
| ControlFiles.ControlReads | crates/core/src/debcheck.rs:314-336 | a written control file reads back as its fields, values of several lines included |
| ArtifactLedger.OutputDir.RecordArtifacts | crates/cli/src/artifacts.rs:32-58 | the ledger becomes the sorted old names and staged names if every package passes, and is untouched otherwise |
| ArtifactLedger.OutputDir.CheckPackages | crates/cli/src/artifacts.rs:67-103 | every package is read, and those that are unreadable or break a rule are counted |
| ArtifactLedger.LedgerReads | crates/cli/src/artifacts.rs:105-122 | a written set of names reads back exactly when each is non-empty, trimmed and free of newlines |
| ArtifactLedger.LedgerDebsMeans | crates/cli/src/artifacts.rs:124-153 | the repository takes the recorded names that exist, each once and in order, or an error exactly when there is none |
| ArtifactLedger.LedgerHoldsTheAdmitted | crates/cli/src/artifacts.rs:20-58 | over every run of calls, writes and removals the ledger holds what it held and the lines of the names admitted calls staged, and nothing else |
| ArtifactLedger.LedgerIsTheAdmitted | crates/cli/src/artifacts.rs:20-58 | from an empty start the ledger is the sorted set of the admitted names exactly when all of them are clean |
| ArtifactLedger.TakenPackagePassesExactly | crates/cli/src/artifacts.rs:20-153 | over every run of calls for any targets that stage clean names, with any writes and removals between them, a package the repository takes keeps every rule for a target exactly when what was last written to it does, or where nothing was, when it is meant for that target |
| ArtifactLedger.OtherTargetsPackageIsTaken | crates/cli/src/artifacts.rs:132-153 | a package recorded for one target is taken for any other, with nothing written from outside, and breaks a rule there |
| ArtifactLedger.TakenPackagePassesUnlessSpoiled | crates/cli/src/artifacts.rs:28-31 | so in a run of calls for one target a taken package keeps every rule exactly when nothing was last written to it that breaks one |
| ArtifactLedger.TakenPackagesPass | crates/cli/src/artifacts.rs:28-31 | over every run that stages clean names and overwrites no recorded file, each taken package keeps every rule for one of the calls' targets, and for a given one exactly when it is meant for it |
| ArtifactLedger.ReplacedPackageIsTaken | crates/cli/src/artifacts.rs:132-153 | a package replaced after it was admitted is taken as it then is |
| RepoScope.FileNameReads | crates/cli/src/artifacts.rs:155-174 | a file name of three fields gives its package name and version |
| RepoScope.RepoInputs.Scope | crates/cli/src/artifacts.rs:195-220 | the list is filtered in place by the built kernel's version and the built modules' versions |
| RepoScope.ScopedTwice | crates/cli/src/artifacts.rs:195-220 | scoping again changes nothing |
| RepoScope.ScopingKeepsUnrelated | crates/cli/src/artifacts.rs:189-194 | every package this run did not build stays, in order, and a run that built nothing drops nothing |
| RepoScope.KernelNames | crates/cli/src/artifacts.rs:195-238 | the images and headers of a kernel are the packages whose names start with linux-image- and linux-headers- |
| RepoScope.BuiltKernelWins | crates/cli/src/artifacts.rs:176-238 | whatever stale packages were there, the highest version of the name to install is the built one after scoping, and no kernel or headers of another version are left |
| RepoScope.BuiltModulesNamed | crates/cli/src/artifacts.rs:281-287 | a run that built modules never refuses and installs by name exactly the packages it built whose names can be read, in the order built |
| RepoScope.BuiltModuleWins | crates/cli/src/artifacts.rs:195-287 | the same for every module package built in one version, whose name is among those to install |
| RepoScope.StandaloneRefusal | crates/cli/src/artifacts.rs:235-264 | a run that builds no kernel refuses exactly when two kernels of readable versions differ in name or version |
| RepoScope.RefusalListsKernels | crates/cli/src/artifacts.rs:235-264 | the refusal lists the file name of every kernel image there, in order |
| RepoScope.StandaloneChoice | crates/cli/src/artifacts.rs:235-264 | where it does not refuse, it names the one kernel there is and only one version can win |
| RepoScope.StandaloneWithoutKernel | crates/cli/src/artifacts.rs:235-264 | it names nothing exactly when there is no kernel of a readable version |
| RepoScope.StandaloneModules | crates/cli/src/artifacts.rs:281-310 | a run that builds no modules refuses exactly when two of them are for different kernel releases, and else names each once in order |
| RepoScope.ModuleNames | crates/cli/src/artifacts.rs:288-298 | the module packages are those with the infix -modules- before a kernel release, and those whose names end in -firmware |
| RepoScope.AfterMeans | crates/cli/src/artifacts.rs:294-298 | the kernel release of a module package is what follows the first occurrence of the infix |

## Left out

- `format_date_c` and `format_rfc2822` as texts: the weekday is proved, and the fields are
  those of the other two spellings.
- The wording of errors, findings and unavailable sections. A refusal is a value that says
  which check failed.
- How the ladder check finds its figures: the patterns are replaced by figures as digits
  and a count of decimals, and floating point by exact arithmetic.
- `kconfig::diff` and `files::compare`: parameters of the comparison, with the laws that a
  theorem needs of them as its premises.
- How a side of a comparison is read from a lock or a provenance manifest.
- Reading and writing files. Failures of the file system, a write to the ledger file from
  outside and paths without a file name or in another encoding are not modelled, and
  neither is the reader that makes a package's contents from its bytes.
- Normalising a path under symlinks: a directory of the model is reached by one way only.
- White space, control characters and letter case beyond ASCII.
- The feature override of a build point, and the parts of the linter, the loader and the
  manifest parser that the modelled code does not call.
- The lines that the image puts into its mount table above those of the volumes.
- Suggestions.SimilarNames: sorting is the stable sort of equal elements, which nothing
  distinguishes from the original's.
- BuildComparison.BuilderQuietWhen: an archive map is a list of entries looked up by its
  first match, so an order is carried that the original's map does not have.
- ArtifactLedger.TakenPackagePassesExactly: speaks of clean names, since a name with a newline
  would be read as two; the same holds for the two rows after it that follow runs.
- DependencyClosure.UnsatisfiedPermuted: for packages with distinct names, as a status
  database has them; with repeated names the last one listed is looked up and the order
  matters.
