# UpdateChecker and Version of modmail-viewer, in Dafny

modmail-viewer checks on start-up whether a newer release of itself has been
published. `UpdateChecker.isSemVerUpdateAvailable(version)` reads the newest
entry of the GitHub release feed. `Version` parses that entry's tag and the
running version with a Semantic Versioning regular expression
(`SEMVER_PATTERN`). One `compareTo` call decides whether the feed's version is
newer. `isUpdateAvailable()` runs the check only on release builds.

The model has five modules, one per file:

- `Wrappers` (wrappers.dfy): `Option` and `Result`.
- `JavaLang` (java_lang.dfy): the JDK behaviour the core relies on.
  - `Integer.parseInt` becomes `DecimalValue`, with the bound `INT_MAX`.
  - `StringBuilder.append(int)` becomes `Decimal`.
  - `String.compareTo` becomes `CompareStrings`.
  - `Character.isWhitespace` and `String.isBlank` become `IsWhitespace` and `IsBlank`.
- `SemVerPattern` (semver_pattern.dfy): what `SEMVER_PATTERN.matcher(s).find()` yields.
  - `Match` is a scanner that returns the five named groups or `None`.
  - `MatchSound` and `MatchComplete` tie the accepted strings to the grammar written out as text (`GroupsText`).
  - Java's `$` also matches before one final line terminator, and the model includes that.
- `SemVer` (semver.dfy): class `Version` as an immutable datatype.
  - The constructor becomes `Parse`. It returns `Ok(version)`, or `Err(NoMatch)` where `matcher.group` throws `IllegalStateException`, or `Err(FieldOverflow)` where `Integer.parseInt` throws `NumberFormatException`.
  - Also here: `AsVersionString`, `Equals` and `CompareTo`, with what they accept, what they render and how they order.
- `UpdateChecker` (update_checker.dfy): the update decision.
  - The HTTP request and the JSON decoding are foreign calls, so their result is an input of type `Feed`.
  - The three build facts that `ModmailViewer` supplies (`isSemVerRelease()`, `TAG`, `BRANCH`) are parameters.
  - `CheckOutcome` is the method as written, which may throw.
  - `IsSemVerUpdateAvailable` is the fail-closed decision, where every failure means "no update".
  - `GateOutcome` is `isUpdateAvailable()` as written, which passes the check's exceptions on; `IsUpdateAvailable` is the fail-closed gate.

Things worth knowing about the code:

- Two Versions differing only in build metadata are unequal, yet they compare as 0.
- A release and a pre-release with the same numbers also compare as 0. So a zero result is not an equivalence.
- `compareTo` is positive when its argument is the newer version. It is exactly antisymmetric, and "positive" is transitive.
- The rendering puts build metadata after a `-` instead of a `+`. So a version with metadata never parses back to itself, and `1.0.0+001` renders as the rejected `1.0.0-001`.
- Without metadata, parsing a version's rendering gives the version back; rendering a parsed text gives the text back without its final line terminator.

Two behaviours of the pattern that a reader might not expect:

- A build-metadata identifier is `[0-9a-zA-Z-]+`, so leading zeros and all-digit identifiers are allowed, as in Semantic Versioning 2.0.0.
- Java's `$` also lets one final line terminator through.

## Model

| member | source | states |
|---|---|---|
| JavaLang.Decimal | src/main/java/com/github/khakers/modmailviewer/UpdateChecker.java:106-113 | `append(int)` writes a numeral without leading zeros whose decimal value is the number |
| JavaLang.DecimalOfValue | src/main/java/com/github/khakers/modmailviewer/UpdateChecker.java:98-100 | on numerals without leading zeros, `parseInt` followed by `append(int)` gives back the numeral, so a group is determined by the parsed field |
| JavaLang.IntMaxPlusOne | src/main/java/com/github/khakers/modmailviewer/UpdateChecker.java:98-100 | `2147483648`, the smallest numeral `parseInt` rejects, denotes `Integer.MAX_VALUE + 1` |
| JavaLang.CompareStringsZero | src/main/java/com/github/khakers/modmailviewer/UpdateChecker.java:207-208 | `String.compareTo` is 0 exactly on equal strings |
| JavaLang.CompareStringsAntisymmetric | src/main/java/com/github/khakers/modmailviewer/UpdateChecker.java:207-208 | swapping the operands of `String.compareTo` negates the result exactly |
| JavaLang.CompareStringsNegative | src/main/java/com/github/khakers/modmailviewer/UpdateChecker.java:207-208 | `String.compareTo` is negative exactly when the first string is lexicographically smaller (a proper prefix, or smaller at the first difference) |
| JavaLang.CompareStringsTransitive | src/main/java/com/github/khakers/modmailviewer/UpdateChecker.java:207-208 | a negative `String.compareTo` is transitive |
| SemVerPattern.Match | src/main/java/com/github/khakers/modmailviewer/UpdateChecker.java:86 | every match yields groups the grammar allows: canonical numerals, and dot lists of identifiers of the right kind |
| SemVerPattern.MatchSound | src/main/java/com/github/khakers/modmailviewer/UpdateChecker.java:86 | a matched string is the grammar's text for its groups, followed by nothing or one final line terminator |
| SemVerPattern.MatchComplete | src/main/java/com/github/khakers/modmailviewer/UpdateChecker.java:86 | the grammar's text for any well-formed groups, with or without a final line terminator, matches with exactly those groups |
| SemVerPattern.MatchBodyComplete | src/main/java/com/github/khakers/modmailviewer/UpdateChecker.java:86 | between `^` and `$`, the text of well-formed groups is scanned back into the same groups |
| SemVerPattern.MatchBodySound | src/main/java/com/github/khakers/modmailviewer/UpdateChecker.java:86 | between `^` and `$`, an accepted body is the text of the groups it yields |
| SemVer.ParseSound | src/main/java/com/github/khakers/modmailviewer/UpdateChecker.java:95-104 | after a successful construction, the text is the version's standard text plus at most a final terminator; the pre-release and metadata are non-empty and well formed |
| SemVer.ParseComplete | src/main/java/com/github/khakers/modmailviewer/UpdateChecker.java:95-104 | every well-formed version is constructed from its standard text, with or without a final terminator, with all five fields equal |
| SemVer.ParseOverflow | src/main/java/com/github/khakers/modmailviewer/UpdateChecker.java:98-100 | grammatical text whose major, minor or patch exceeds `Integer.MAX_VALUE` throws `NumberFormatException` |
| SemVer.ParseNoMatch | src/main/java/com/github/khakers/modmailviewer/UpdateChecker.java:96-98 | the constructor throws `IllegalStateException` exactly on text that is no grammatical text plus a final terminator |
| SemVer.ParsedStartsWithDigit | src/main/java/com/github/khakers/modmailviewer/UpdateChecker.java:86 | text the pattern accepts starts with a digit |
| SemVer.RejectsPrefixedV | src/main/java/com/github/khakers/modmailviewer/UpdateChecker.java:86-98 | `v1.2` and `v1.2.3` make the constructor throw `IllegalStateException` |
| SemVer.RejectsMissingPatch | src/main/java/com/github/khakers/modmailviewer/UpdateChecker.java:86-98 | `1.2` makes the constructor throw `IllegalStateException` |
| SemVer.RejectsLeadingZero | src/main/java/com/github/khakers/modmailviewer/UpdateChecker.java:86-98 | `01.2.3` makes the constructor throw `IllegalStateException` |
| SemVer.ParsesRelease | src/main/java/com/github/khakers/modmailviewer/UpdateChecker.java:95-104 | `1.2.3` gives major 1, minor 2, patch 3 and no pre-release or metadata |
| SemVer.OverflowExample | src/main/java/com/github/khakers/modmailviewer/UpdateChecker.java:98 | `2147483648.0.0` throws `NumberFormatException` |
| SemVer.RenderWithoutMetadata | src/main/java/com/github/khakers/modmailviewer/UpdateChecker.java:106-122 | without metadata, `asVersionString` is the standard Semantic Versioning text (a well-formed pre-release is never blank) |
| SemVer.RoundTrip | src/main/java/com/github/khakers/modmailviewer/UpdateChecker.java:95-122 | a constructed version without metadata is constructed again, equal in all five fields, from its `asVersionString` |
| SemVer.RenderMetadataWithHyphen | src/main/java/com/github/khakers/modmailviewer/UpdateChecker.java:114-120 | `asVersionString` never contains `+`; with metadata it is the rendering without metadata, then `-`, then the metadata |
| SemVer.MetadataAfterPlus | src/main/java/com/github/khakers/modmailviewer/UpdateChecker.java:86 | in the standard text, a `+` stands right before the metadata |
| SemVer.NoPlusNoMetadata | src/main/java/com/github/khakers/modmailviewer/UpdateChecker.java:86 | text without `+` never yields a version with metadata |
| SemVer.MetadataNotRestored | src/main/java/com/github/khakers/modmailviewer/UpdateChecker.java:95-122 | a constructed version with metadata is never constructed back from its `asVersionString` |
| SemVer.NumericMetadataRendering | src/main/java/com/github/khakers/modmailviewer/UpdateChecker.java:106-122 | metadata `001` is well formed and is rendered as `1.0.0-001` |
| SemVer.LeadingZeroPreRelease | src/main/java/com/github/khakers/modmailviewer/UpdateChecker.java:86 | `-001` is no pre-release part: a numeric identifier may not have a leading zero |
| SemVer.NumericMetadataRenderingRejected | src/main/java/com/github/khakers/modmailviewer/UpdateChecker.java:86-98 | `1.0.0-001`, the rendering of `1.0.0+001`, makes the constructor throw `IllegalStateException` |
| SemVer.Equals | src/main/java/com/github/khakers/modmailviewer/UpdateChecker.java:124-130 | `equals` holds exactly when all five fields are equal |
| SemVer.CompareToReflexive | src/main/java/com/github/khakers/modmailviewer/UpdateChecker.java:186-187 | a version compares as 0 with itself |
| SemVer.CompareToNumbers | src/main/java/com/github/khakers/modmailviewer/UpdateChecker.java:189-205 | the first of major, minor, patch that differs decides: 1 when the argument's is larger, -1 when it is smaller |
| SemVer.CompareToTie | src/main/java/com/github/khakers/modmailviewer/UpdateChecker.java:207-211 | with equal numbers, the result is the argument's pre-release `compareTo` this one's when both exist, else 0 |
| SemVer.CompareToAntisymmetric | src/main/java/com/github/khakers/modmailviewer/UpdateChecker.java:156-160 | `x.compareTo(y) == -y.compareTo(x)` for all versions, stronger than the signum law |
| SemVer.CompareToTransitive | src/main/java/com/github/khakers/modmailviewer/UpdateChecker.java:162-164 | `x.compareTo(y) > 0` and `y.compareTo(z) > 0` imply `x.compareTo(z) > 0` |
| SemVer.CompareToIgnoresMetadata | src/main/java/com/github/khakers/modmailviewer/UpdateChecker.java:184-212 | replacing either version's metadata does not change the result |
| SemVer.ZeroIsNotEquivalence | src/main/java/com/github/khakers/modmailviewer/UpdateChecker.java:166-181 | `1.0.0` compares as 0 with `1.0.0-alpha` and `1.0.0-beta` while they are unequal and `alpha` vs `beta` is positive: the third law and consistency with `equals` fail |
| SemVer.OrderExamples | src/main/java/com/github/khakers/modmailviewer/UpdateChecker.java:184-212 | 1.2.3 vs 1.3.0 is positive, 2.0.0 vs 1.9.9 is negative, 1.0.0-alpha vs 1.0.0-beta is 1 |
| UpdateChecker.IsSemVerUpdateAvailable | src/main/java/com/github/khakers/modmailviewer/UpdateChecker.java:30-69 | an update is reported exactly when the feed has a newest tag, tag and current text both construct, and `current.compareTo(latest) > 0` |
| UpdateChecker.IsUpdateAvailable | src/main/java/com/github/khakers/modmailviewer/UpdateChecker.java:72-79 | a build that is not a semantic-version release reports no update; a release build reports the fail-closed check's answer for its own tag |
| UpdateChecker.FailClosedAgrees | src/main/java/com/github/khakers/modmailviewer/UpdateChecker.java:39-68 | where the method as written returns, failing closed gives the same answer; where it throws, failing closed answers "no update" |
| UpdateChecker.CheckOutcomeRaises | src/main/java/com/github/khakers/modmailviewer/UpdateChecker.java:48-53 | the method as written throws exactly when the feed document has no newest tag or either text fails to construct |
| UpdateChecker.UpdateMeansNewer | src/main/java/com/github/khakers/modmailviewer/UpdateChecker.java:57 | an update is reported exactly when the feed's numbers are greater, or equal with both pre-releases present and the feed's lexicographically greater; metadata never matters |
| UpdateChecker.NoUpdateToSameVersion | src/main/java/com/github/khakers/modmailviewer/UpdateChecker.java:57 | the running version is never an update of itself |
| UpdateChecker.UpdateIsAsymmetric | src/main/java/com/github/khakers/modmailviewer/UpdateChecker.java:57 | if the tag is an update of the current version, the current version is no update of the tag |
| UpdateChecker.GateFailClosedAgrees | src/main/java/com/github/khakers/modmailviewer/UpdateChecker.java:72-79 | where `isUpdateAvailable()` as written returns, the fail-closed gate gives the same answer; where it passes on an exception of the check, the gate answers "no update" |
| UpdateChecker.GateOutcomeRaises | src/main/java/com/github/khakers/modmailviewer/UpdateChecker.java:73-75 | as written, `isUpdateAvailable()` throws exactly on a release build whose check throws, for instance on an empty feed, and on any other build whose `BRANCH` is `null` (`NullPointerException` at line 75) |
| UpdateChecker.GateIgnoresFeed | src/main/java/com/github/khakers/modmailviewer/UpdateChecker.java:72-79 | a non-release build answers false whatever the feed holds |
| UpdateChecker.DecisionExamples | src/main/java/com/github/khakers/modmailviewer/UpdateChecker.java:30-69 | feed `2.0.0` with current `1.9.0` is an update; with current `2.0.0` it is not; a transport failure is not |
| UpdateChecker.ExceptionsEscape | src/main/java/com/github/khakers/modmailviewer/UpdateChecker.java:48-53 | as written, an empty feed throws `NullPointerException` and a tag `v1.2.3` throws `IllegalStateException` |

## Left out

- The HTTP request, the response body and `ObjectMapper.readTree` are foreign I/O. Their outcome is the `Feed` input: a transport failure, an unreadable body, or a document with or without a newest `tag_name`.
- All logging is left out, including the development-branch message of `isUpdateAvailable` and the `html_url` that is read only to be logged. `ModmailViewer.isSemVerRelease()`, `ModmailViewer.TAG` and `ModmailViewer.BRANCH` are parameters.
- The `assert response.body() != null` is left out. Assertions are disabled by default, and a null body is a foreign-call outcome.
- `hashCode` and `toString` are left out; they only feed hashing and logging.
- `isDockerContainer` is left out; it is a constant `false` that the decision never uses.
- `JavaLang.CompareStrings`: it compares Dafny characters, which are Unicode scalar values, where Java compares UTF-16 code units. The two agree on every character below U+10000, and so on every pre-release the pattern admits, which is ASCII.
- `SemVer.Version`: the fields are non-negative and at most `Integer.MAX_VALUE`, because only the constructor creates Versions and it produces nothing else.
- `Objects.equals` on a `null` field is modelled by `Option` equality.
- The `this == o` and class checks of `equals` are left out. Every argument in the core is a non-null `Version`.
- ChannelMentionExtension and UserToken are not part of this model.

## Findings

| source | as written | input that shows it | evidently intended | confidence | as-written member | corrected member |
|---|---|---|---|---|---|---|
| src/main/java/com/github/khakers/modmailviewer/UpdateChecker.java:48-53,64,73-74 | only `IOException` is caught, so the `NullPointerException` of a missing newest release and the `IllegalStateException` or `NumberFormatException` of an unparsable tag or current version escape `isSemVerUpdateAvailable`, and `isUpdateAvailable()` passes them on to its caller | an empty release feed `[]`, or a feed whose newest `tag_name` is `v1.2.3` | every failure to confirm a newer version answers `false` (fail closed) | not executed | UpdateChecker.ExceptionsEscape | UpdateChecker.IsSemVerUpdateAvailable |
