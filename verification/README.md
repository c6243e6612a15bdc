# Eclipse bundles to Maven artifacts

This project models the part of the `releng/eclipse` build tooling that turns
Eclipse plugin bundles into Maven artifacts. It covers the following pieces:

- OSGi bundle versions (`major[.minor][.micro][.qualifier]`) and version
  ranges (`[min,max)` with either bracket style). There are three copies of
  their parsers: `model/Version.kt`, `mavenize/EclipseVersionParser.kt` and
  `mavenize/EclipseBundle.kt`. Parsing is modelled as the regular-expression
  matches that `java.util.regex` makes, including its greedy choices.
- The `Require-Bundle` manifest header. A quote-aware split at commas gives
  the clauses. Each clause is a name followed by `;` elements that set the
  version, resolution and visibility. The header has four readers:
  - `mavenize/EclipseBundle.kt`;
  - `model/Bundle.kt`;
  - `model/eclipse/Bundle.kt`, the strict one;
  - `mavenize/BundleConverter.kt`, which reads straight into Maven
    dependencies.
- Reading a bundle from its manifest. A bundle is its symbolic name, its
  version, its required bundles, its fragment host and the bundle whose
  sources it holds.
- The conversions between Eclipse bundles and Maven coordinates and
  dependencies (`mavenize/Conversions.kt`).
- The three converters that make Maven artifacts out of bundles:
  - `EclipseBundleToMaven`, with its fragment emulator;
  - `EclipseBundleToMavenArtifact`;
  - `EclipseConverter`.

  A host bundle depends on each of its fragments. A source bundle gets the
  `sources` classifier.
- The POM file written for a converted bundle (`MavenMetadata.toPomXml`).
- The `build.properties` reader.
- The removal of qualifiers before an installation is mavenized, and the
  group assignment of a mavenized installation.
- The Gradle dependency notation `group:id:version[:classifier][@extension]`.

The shared modules have these roles:

- `Wrappers`: nullable results and thrown exceptions, as values.
- `KotlinText`: the Kotlin string operations the code calls (`trim`,
  `split`, `indexOf`, `startsWith`, `replace`, `toInt`), with Kotlin's
  semantics.
- `KotlinCollections`: `map`, and the unspecified iteration order of a hash
  set. Functions that iterate a set take an `order` parameter that lists each
  element exactly once.
- `VersionPatterns`: the two regular expressions.
- `RequireBundleSyntax`: the splitting loop and `stripElement`. All the
  header readers repeat these word for word.

Paths in the table are relative to the repository root.

## Model

| member | source | states |
|---|---|---|
| VersionPatterns.MatchVersion | releng/eclipse/src/main/kotlin/mb/releng/eclipse/model/Version.kt:13 | the version pattern matches a whole text exactly when it is a digit run, optionally followed by a dot and non-empty text without line terminators; the groups of a match put back together give the text |
| VersionPatterns.MatchVersionOfRender | releng/eclipse/src/main/kotlin/mb/releng/eclipse/model/Version.kt:13 | the match is the only well-formed reading of its text: matching what well-formed groups render to gives those groups back |
| VersionPatterns.GreedyMinorExample | releng/eclipse/src/main/kotlin/mb/releng/eclipse/model/Version.kt:13 | the groups are filled greedily: `1.2.x` has minor 2, no micro and qualifier `x` |
| VersionPatterns.GreedyQualifierExample | releng/eclipse/src/main/kotlin/mb/releng/eclipse/model/Version.kt:13 | everything after the third number is the qualifier: `1.2.3.4.5` has qualifier `4.5` |
| VersionPatterns.AbsorbsInLanguage | releng/eclipse/src/main/kotlin/mb/releng/eclipse/model/Version.kt:13 | a qualifier after fewer than three numbers is read as more numbers exactly when it is itself a version text |
| VersionPatterns.MatchVersionOfPrinted | releng/eclipse/src/main/kotlin/mb/releng/eclipse/model/Version.kt:30-31 | matching the text a printable version prints to gives back the printed groups |
| VersionPatterns.RenderWithoutQualifier | releng/eclipse/src/main/kotlin/mb/releng/eclipse/model/Version.kt:30-31 | the qualifier is printed last, so dropping it drops exactly its dotted text from the end |
| VersionPatterns.MatchRange | releng/eclipse/src/main/kotlin/mb/releng/eclipse/model/Version.kt:41 | the range pattern matches exactly the bracketed texts without line terminators inside that have a comma after the first inner character; a match is the brackets, the minimum, the last comma, a run of word characters and a maximum that does not start with one |
| VersionPatterns.MatchRangeIsGreedy | releng/eclipse/src/main/kotlin/mb/releng/eclipse/model/Version.kt:41 | the match is the one backtracking finds first: among all ways to split the middle, its group 2 is the longest, and then its skipped word run is the longest |
| VersionPatterns.MatchRangeMin | releng/eclipse/src/main/kotlin/mb/releng/eclipse/model/Version.kt:41 | group 2 is everything between the opening bracket and the last comma |
| VersionPatterns.MatchRangeOfPrinted | releng/eclipse/src/main/kotlin/mb/releng/eclipse/model/Version.kt:61-63 | a printed range without maximum matches with the minimum text as group 2 and nothing after the comma |
| VersionPatterns.MatchRangeMaxNeverVersion | releng/eclipse/src/main/kotlin/mb/releng/eclipse/model/Version.kt:49-50 | the `\w*` after the comma swallows the maximum's leading digits, so group 3 never parses as a version and every parsed range is unbounded |
| VersionPatterns.MatchRangeWholeMax | releng/eclipse/src/main/kotlin/mb/releng/eclipse/model/Version.kt:41 | the range pattern without the `\w*` around the comma matches the same texts, and its group 3 is everything after the last comma |
| VersionPatterns.MatchRangeWholeMaxOfPrinted | releng/eclipse/src/main/kotlin/mb/releng/eclipse/model/Version.kt:41 | with that pattern, a bracket, a minimum text, a comma, a comma-free maximum text and a bracket give back both texts |
| ModelVersion.Parse | releng/eclipse/src/main/kotlin/mb/releng/eclipse/model/Version.kt:15-23 | a version is read exactly when the whole text matches the version pattern; what is read is printable and starts with a digit |
| ModelVersion.Zero | releng/eclipse/src/main/kotlin/mb/releng/eclipse/model/Version.kt:25 | version zero prints as `0` and is what `0` parses to |
| ModelVersion.ParseOfToString | releng/eclipse/src/main/kotlin/mb/releng/eclipse/model/Version.kt:15-31 | printing a printable version with `ModelVersion.ToString` and parsing the text gives the version back |
| ModelVersion.ToStringOfParse | releng/eclipse/src/main/kotlin/mb/releng/eclipse/model/Version.kt:15-31 | parsing a text whose numbers have no leading zeros and printing the version gives the text back |
| ModelVersion.WithoutQualifier | releng/eclipse/src/main/kotlin/mb/releng/eclipse/model/Version.kt:28 | the version without qualifier prints as the version's text minus its dotted qualifier, and parses back to itself when a micro number comes with a minor one |
| ModelVersion.WithoutQualifierIdempotent | releng/eclipse/src/main/kotlin/mb/releng/eclipse/model/Version.kt:28 | removing the qualifier twice is removing it once |
| ModelVersion.RangeParse | releng/eclipse/src/main/kotlin/mb/releng/eclipse/model/Version.kt:43-53 | a range is read exactly when the range pattern matches and the text before the last comma parses as a version; the brackets give the inclusiveness and the maximum is always absent |
| ModelVersion.AnyVersionsRange | releng/eclipse/src/main/kotlin/mb/releng/eclipse/model/Version.kt:55 | the range of any version prints as `[0,)` and parses back from it |
| ModelVersion.WithoutQualifiers | releng/eclipse/src/main/kotlin/mb/releng/eclipse/model/Version.kt:58-59 | both bounds lose their qualifiers and keep their major, minor and micro numbers, each printing as before minus its dotted qualifier; brackets and the presence of a maximum are kept |
| ModelVersion.WithoutQualifiersIdempotent | releng/eclipse/src/main/kotlin/mb/releng/eclipse/model/Version.kt:58-59 | removing the qualifiers twice is removing them once |
| ModelVersion.RangeParseOfToString | releng/eclipse/src/main/kotlin/mb/releng/eclipse/model/Version.kt:43-63 | a range without maximum and with a printable minimum survives printing with `ModelVersion.RangeToString` and parsing |
| ModelVersion.RangeParseLosesMax | releng/eclipse/src/main/kotlin/mb/releng/eclipse/model/Version.kt:43-63 | a range with a maximum never survives printing and parsing |
| ModelVersion.RangeParseWholeMax | releng/eclipse/src/main/kotlin/mb/releng/eclipse/model/Version.kt:43-53 | `VersionRange.parse` with the corrected pattern: a read range matches the range pattern and takes its brackets from the text |
| ModelVersion.RangeParseWholeMaxOfToString | releng/eclipse/src/main/kotlin/mb/releng/eclipse/model/Version.kt:41-63 | with the corrected pattern, every range with printable bounds and a comma-free maximum survives printing and parsing, maximum included |
| ModelVersion.VersionOrRangeParse | releng/eclipse/src/main/kotlin/mb/releng/eclipse/model/Version.kt:68-79 | a version when the text is one, else a range when it is one, else nothing |
| ModelVersion.VersionOrRangeDisjoint | releng/eclipse/src/main/kotlin/mb/releng/eclipse/model/Version.kt:68-79 | no text is both a version and a range, so the order of the two attempts does not matter |
| EclipseVersionParser.Parse | releng/eclipse/src/main/kotlin/mb/releng/eclipse/mavenize/EclipseVersionParser.kt:10-18 | a version is read exactly when the whole text matches the version pattern; what is read is printable |
| EclipseVersionParser.Zero | releng/eclipse/src/main/kotlin/mb/releng/eclipse/mavenize/EclipseVersionParser.kt:20-22 | version zero prints as `0` and is what `0` parses to |
| EclipseVersionParser.ParseOfToString | releng/eclipse/src/main/kotlin/mb/releng/eclipse/mavenize/EclipseVersionParser.kt:10-31 | printing a printable version with `EclipseVersionParser.ToString` and parsing the text gives the version back |
| EclipseVersionParser.ToStringOfParse | releng/eclipse/src/main/kotlin/mb/releng/eclipse/mavenize/EclipseVersionParser.kt:10-31 | parsing a text without leading zeros and printing gives the text back |
| EclipseVersionParser.WithoutQualifier | releng/eclipse/src/main/kotlin/mb/releng/eclipse/mavenize/EclipseVersionParser.kt:25-27 | the version without qualifier prints as the version's text minus its dotted qualifier |
| EclipseVersionParser.WithoutQualifierIdempotent | releng/eclipse/src/main/kotlin/mb/releng/eclipse/mavenize/EclipseVersionParser.kt:25-27 | removing the qualifier twice is removing it once |
| EclipseVersionParser.RangeParse | releng/eclipse/src/main/kotlin/mb/releng/eclipse/mavenize/EclipseVersionParser.kt:38-48 | a range is read exactly when the pattern matches and the minimum parses; the maximum is always absent |
| EclipseVersionParser.AnyVersionsRange | releng/eclipse/src/main/kotlin/mb/releng/eclipse/mavenize/EclipseVersionParser.kt:50-52 | the range of any version prints as `[0,)` and parses back from it |
| EclipseVersionParser.RangeParseOfToString | releng/eclipse/src/main/kotlin/mb/releng/eclipse/mavenize/EclipseVersionParser.kt:38-57 | a range without maximum and with a printable minimum survives printing with `EclipseVersionParser.RangeToString` and parsing |
| EclipseVersionParser.RangeParseLosesMax | releng/eclipse/src/main/kotlin/mb/releng/eclipse/mavenize/EclipseVersionParser.kt:38-57 | a range with a maximum never survives printing and parsing |
| RequireBundleSyntax.Clauses | releng/eclipse/src/main/kotlin/mb/releng/eclipse/mavenize/EclipseBundle.kt:116-145 | the split fails exactly when the header has an odd number of quotes; otherwise it gives pieces that each start and end outside quotes and hold no comma outside quotes, which put back together with the split commas give the header, and an empty header gives no clauses |
| RequireBundleSyntax.ClauseSplitUnique | releng/eclipse/src/main/kotlin/mb/releng/eclipse/mavenize/EclipseBundle.kt:122-143 | at most one sequence of pieces is such a split of a header: a cut at a comma inside quotes would leave a piece with an odd number of quotes or one holding a comma outside quotes |
| RequireBundleSyntax.ClausesIsTheSplit | releng/eclipse/src/main/kotlin/mb/releng/eclipse/mavenize/EclipseBundle.kt:116-145 | whatever pieces split a header that way, the splitter returns exactly those pieces |
| RequireBundleSyntax.StripElement | releng/eclipse/src/main/kotlin/mb/releng/eclipse/mavenize/EclipseBundle.kt:177-186 | the value of an element is trimmed |
| RequireBundleSyntax.StripElementOfQuoted | releng/eclipse/src/main/kotlin/mb/releng/eclipse/mavenize/EclipseBundle.kt:177-186 | `key="value"` strips back to the trimmed value |
| RequireBundleSyntax.StripElementOfBare | releng/eclipse/src/main/kotlin/mb/releng/eclipse/mavenize/EclipseBundle.kt:177-186 | `key=value` with an unquoted trimmed value strips back to the value |
| RequireBundleSyntax.StripElementWithoutEquals | releng/eclipse/src/main/kotlin/mb/releng/eclipse/mavenize/EclipseBundle.kt:177-186 | an element without `=` strips to itself when it is trimmed and unquoted |
| RequireBundleSyntax.LastSelected | releng/eclipse/src/main/kotlin/mb/releng/eclipse/mavenize/EclipseBundle.kt:156-173 | the element whose assignment survives the loop is one that sets the attribute; there is none exactly when no element does |
| RequireBundleSyntax.LastSelectedIsLast | releng/eclipse/src/main/kotlin/mb/releng/eclipse/mavenize/EclipseBundle.kt:156-173 | no element after the chosen one sets the attribute: later elements overwrite earlier ones |
| RequireBundleSyntax.AnySelected | releng/eclipse/src/main/kotlin/mb/releng/eclipse/mavenize/BundleConverter.kt:99-104 | a flag the loop sets and never clears is set exactly when some element sets it |
| EclipseBundle.Parse | releng/eclipse/src/main/kotlin/mb/releng/eclipse/mavenize/EclipseBundle.kt:275-283 | a version is read exactly when the whole text matches the version pattern |
| EclipseBundle.Zero | releng/eclipse/src/main/kotlin/mb/releng/eclipse/mavenize/EclipseBundle.kt:285 | version zero prints as `0` and is what `0` parses to |
| EclipseBundle.ParseOfToString | releng/eclipse/src/main/kotlin/mb/releng/eclipse/mavenize/EclipseBundle.kt:275-291 | printing a printable version with `EclipseBundle.ToString` and parsing the text gives the version back |
| EclipseBundle.ToStringOfParse | releng/eclipse/src/main/kotlin/mb/releng/eclipse/mavenize/EclipseBundle.kt:275-291 | parsing a text without leading zeros and printing gives the text back |
| EclipseBundle.WithoutQualifier | releng/eclipse/src/main/kotlin/mb/releng/eclipse/mavenize/EclipseBundle.kt:288 | the version without qualifier prints as the version's text minus its dotted qualifier |
| EclipseBundle.WithoutQualifierIdempotent | releng/eclipse/src/main/kotlin/mb/releng/eclipse/mavenize/EclipseBundle.kt:288 | removing the qualifier twice is removing it once |
| EclipseBundle.RangeParse | releng/eclipse/src/main/kotlin/mb/releng/eclipse/mavenize/EclipseBundle.kt:303-313 | a range is read exactly when the pattern matches and the minimum parses; the maximum is always absent |
| EclipseBundle.AnyVersionsRange | releng/eclipse/src/main/kotlin/mb/releng/eclipse/mavenize/EclipseBundle.kt:315 | the range of any version prints as `[0,)` and parses back from it |
| EclipseBundle.WithoutQualifiers | releng/eclipse/src/main/kotlin/mb/releng/eclipse/mavenize/EclipseBundle.kt:318-319 | both bounds lose their qualifiers and keep their major, minor and micro numbers, each printing as before minus its dotted qualifier; brackets and the presence of a maximum are kept |
| EclipseBundle.WithoutQualifiersIdempotent | releng/eclipse/src/main/kotlin/mb/releng/eclipse/mavenize/EclipseBundle.kt:318-319 | removing the qualifiers twice is removing them once |
| EclipseBundle.RangeParseOfToString | releng/eclipse/src/main/kotlin/mb/releng/eclipse/mavenize/EclipseBundle.kt:303-323 | a range without maximum and with a printable minimum survives printing with `EclipseBundle.RangeToString` and parsing |
| EclipseBundle.RangeParseLosesMax | releng/eclipse/src/main/kotlin/mb/releng/eclipse/mavenize/EclipseBundle.kt:303-323 | a range with a maximum never survives printing and parsing |
| EclipseBundle.DependencyVersionParse | releng/eclipse/src/main/kotlin/mb/releng/eclipse/mavenize/EclipseBundle.kt:205-216 | a version when the text is one, else a range when it is one, else nothing |
| EclipseBundle.DependencyVersionDisjoint | releng/eclipse/src/main/kotlin/mb/releng/eclipse/mavenize/EclipseBundle.kt:205-216 | no text is both a version and a range |
| EclipseBundle.DependencyVersionParseOfToString | releng/eclipse/src/main/kotlin/mb/releng/eclipse/mavenize/EclipseBundle.kt:205-216 | a readable dependency version survives printing and parsing |
| EclipseBundle.ResolutionParse | releng/eclipse/src/main/kotlin/mb/releng/eclipse/mavenize/EclipseBundle.kt:225-232 | `optional` is the only text read as optional; every other text is mandatory |
| EclipseBundle.ResolutionToString | releng/eclipse/src/main/kotlin/mb/releng/eclipse/mavenize/EclipseBundle.kt:234-239 | the printed name of a resolution parses back to it |
| EclipseBundle.ResolutionToStringOfParse | releng/eclipse/src/main/kotlin/mb/releng/eclipse/mavenize/EclipseBundle.kt:225-239 | on the two names, printing undoes parsing |
| EclipseBundle.VisibilityParse | releng/eclipse/src/main/kotlin/mb/releng/eclipse/mavenize/EclipseBundle.kt:248-255 | `reexport` is the only text read as re-exported; every other text is private |
| EclipseBundle.VisibilityToString | releng/eclipse/src/main/kotlin/mb/releng/eclipse/mavenize/EclipseBundle.kt:257-262 | the printed name of a visibility parses back to it |
| EclipseBundle.VisibilityToStringOfParse | releng/eclipse/src/main/kotlin/mb/releng/eclipse/mavenize/EclipseBundle.kt:248-262 | on the two names, printing undoes parsing |
| EclipseBundle.ParseInner | releng/eclipse/src/main/kotlin/mb/releng/eclipse/mavenize/EclipseBundle.kt:147-175 | the bundle name is the trimmed text before the first `;` |
| EclipseBundle.ApplyElementStep | releng/eclipse/src/main/kotlin/mb/releng/eclipse/mavenize/EclipseBundle.kt:156-173 | one turn of the loop sets at most the attribute its element names, and never the name |
| EclipseBundle.ApplyElementsAttributes | releng/eclipse/src/main/kotlin/mb/releng/eclipse/mavenize/EclipseBundle.kt:152-173 | after the loop, each attribute comes from the last element that sets it, or keeps its default: no version, mandatory, private |
| EclipseBundle.ParseInnerAttributes | releng/eclipse/src/main/kotlin/mb/releng/eclipse/mavenize/EclipseBundle.kt:147-175 | a clause's version, resolution and visibility are those of its last trimmed `;` element of each kind |
| EclipseBundle.ParseRequireBundle | releng/eclipse/src/main/kotlin/mb/releng/eclipse/mavenize/EclipseBundle.kt:116-145 | fails with the unclosed-quote exception exactly when the quotes do not pair up; otherwise one dependency per clause, in order, each read by `parseInner` |
| EclipseBundle.DependencyToString | releng/eclipse/src/main/kotlin/mb/releng/eclipse/mavenize/EclipseBundle.kt:189-198 | the printed dependency starts with its name and a `;` |
| EclipseBundle.DependencyToStringMisreadsResolution | releng/eclipse/src/main/kotlin/mb/releng/eclipse/mavenize/EclipseBundle.kt:189-198 | an optional, private dependency without version prints to a clause that reads back as mandatory |
| EclipseBundle.DependencyToStringLosesAttributes | releng/eclipse/src/main/kotlin/mb/releng/eclipse/mavenize/EclipseBundle.kt:147-198 | for every dependency whose name and version text hold no `;`, the printed clause reads back with the name, trimmed, but always as mandatory and private, because the attributes after the name form one `;` element |
| EclipseBundle.DependencyToClause | releng/eclipse/src/main/kotlin/mb/releng/eclipse/mavenize/EclipseBundle.kt:189-198 | the clause with every attribute as a `;` element starts with the name and a `;` |
| EclipseBundle.ParseInnerOfClause | releng/eclipse/src/main/kotlin/mb/releng/eclipse/mavenize/EclipseBundle.kt:147-175 | a clause written with every attribute as a `;` element reads back as its name and the parsed attribute texts |
| EclipseBundle.ParseInnerOfDependencyToClause | releng/eclipse/src/main/kotlin/mb/releng/eclipse/mavenize/EclipseBundle.kt:147-198 | the corrected clause reads back as the dependency it was written for, when the name is trimmed and `;`-free and the version is readable |
| EclipseBundle.ReadFromManifest | releng/eclipse/src/main/kotlin/mb/releng/eclipse/mavenize/EclipseBundle.kt:65-105 | fails without a symbolic name or on an unclosed quote in `Require-Bundle`; the name is the symbolic name before its directives, trimmed; a missing version is zero, and a present one is the parse of its trimmed text, `null` exactly when that text is not a version |
| ModelBundle.ResolutionParse | releng/eclipse/src/main/kotlin/mb/releng/eclipse/model/Bundle.kt:216-223 | `optional` is the only text read as optional |
| ModelBundle.ResolutionToString | releng/eclipse/src/main/kotlin/mb/releng/eclipse/model/Bundle.kt:225-230 | the printed name of a resolution parses back to it |
| ModelBundle.ResolutionToStringOfParse | releng/eclipse/src/main/kotlin/mb/releng/eclipse/model/Bundle.kt:216-230 | on the two names, printing undoes parsing |
| ModelBundle.VisibilityParse | releng/eclipse/src/main/kotlin/mb/releng/eclipse/model/Bundle.kt:239-246 | `reexport` is the only text read as re-exported |
| ModelBundle.VisibilityToString | releng/eclipse/src/main/kotlin/mb/releng/eclipse/model/Bundle.kt:248-253 | the printed name of a visibility parses back to it |
| ModelBundle.VisibilityToStringOfParse | releng/eclipse/src/main/kotlin/mb/releng/eclipse/model/Bundle.kt:239-253 | on the two names, printing undoes parsing |
| ModelBundle.ParseInner | releng/eclipse/src/main/kotlin/mb/releng/eclipse/model/Bundle.kt:154-183 | the bundle name is the trimmed text before the first `;` |
| ModelBundle.ApplyElementStep | releng/eclipse/src/main/kotlin/mb/releng/eclipse/model/Bundle.kt:163-181 | one turn of the loop sets at most the attribute its element names; an element starting with `bundle-version` or `version` sets the version |
| ModelBundle.ApplyElementsAttributes | releng/eclipse/src/main/kotlin/mb/releng/eclipse/model/Bundle.kt:163-181 | after the loop, each attribute comes from the last element that sets it, or keeps its default |
| ModelBundle.ParseInnerAttributes | releng/eclipse/src/main/kotlin/mb/releng/eclipse/model/Bundle.kt:154-183 | a clause's version or range, resolution and visibility are those of its last trimmed `;` element of each kind |
| ModelBundle.ParseRequireBundle | releng/eclipse/src/main/kotlin/mb/releng/eclipse/model/Bundle.kt:123-152 | fails with the unclosed-quote exception exactly when the quotes do not pair up; otherwise one dependency per clause, in order |
| ModelBundle.DependencyToString | releng/eclipse/src/main/kotlin/mb/releng/eclipse/model/Bundle.kt:197-206 | the printed dependency starts with its name and a `;` |
| ModelBundle.DependencyToStringLosesAttributes | releng/eclipse/src/main/kotlin/mb/releng/eclipse/model/Bundle.kt:197-206 | for every dependency whose name and version text hold no `;`, the printed clause reads back with the name, trimmed, but always as mandatory and private |
| ModelBundle.ReadFromManifest | releng/eclipse/src/main/kotlin/mb/releng/eclipse/model/Bundle.kt:65-112 | fails without a symbolic name or on an unclosed quote; the name is the symbolic name before its directives, trimmed; a missing version is zero, and a present one is the parse of its trimmed text, `null` exactly when that text is not a version |
| ModelEclipseBundle.CoordinatesToString | releng/eclipse/src/main/kotlin/mb/releng/eclipse/model/eclipse/Bundle.kt:13 | `name@version`: for a name without `@`, the text before the first `@` is the name and the rest is the printed version |
| ModelEclipseBundle.BundleToString | releng/eclipse/src/main/kotlin/mb/releng/eclipse/model/eclipse/Bundle.kt:111 | a bundle prints as its coordinates |
| ModelEclipseBundle.ResolutionParse | releng/eclipse/src/main/kotlin/mb/releng/eclipse/model/eclipse/Bundle.kt:217-221 | `optional` is the only text read as optional |
| ModelEclipseBundle.ResolutionDefault | releng/eclipse/src/main/kotlin/mb/releng/eclipse/model/eclipse/Bundle.kt:223 | the default resolution is what every text that names no resolution parses to |
| ModelEclipseBundle.ResolutionToString | releng/eclipse/src/main/kotlin/mb/releng/eclipse/model/eclipse/Bundle.kt:225-228 | the printed name of a resolution parses back to it |
| ModelEclipseBundle.ResolutionToStringOfParse | releng/eclipse/src/main/kotlin/mb/releng/eclipse/model/eclipse/Bundle.kt:217-228 | on the two names, printing undoes parsing |
| ModelEclipseBundle.VisibilityParse | releng/eclipse/src/main/kotlin/mb/releng/eclipse/model/eclipse/Bundle.kt:237-241 | `reexport` is the only text read as re-exported |
| ModelEclipseBundle.VisibilityDefault | releng/eclipse/src/main/kotlin/mb/releng/eclipse/model/eclipse/Bundle.kt:243 | the default visibility is what every text that names no visibility parses to |
| ModelEclipseBundle.VisibilityToString | releng/eclipse/src/main/kotlin/mb/releng/eclipse/model/eclipse/Bundle.kt:245-248 | the printed name of a visibility parses back to it |
| ModelEclipseBundle.VisibilityToStringOfParse | releng/eclipse/src/main/kotlin/mb/releng/eclipse/model/eclipse/Bundle.kt:237-248 | on the two names, printing undoes parsing |
| ModelEclipseBundle.ParseInner | releng/eclipse/src/main/kotlin/mb/releng/eclipse/model/eclipse/Bundle.kt:156-185 | the bundle name is the trimmed text before the first `;` |
| ModelEclipseBundle.ApplyElementVersion | releng/eclipse/src/main/kotlin/mb/releng/eclipse/model/eclipse/Bundle.kt:165-182 | one turn of the loop sets the version exactly on a version element |
| ModelEclipseBundle.ParseInnerAttributes | releng/eclipse/src/main/kotlin/mb/releng/eclipse/model/eclipse/Bundle.kt:156-185 | a clause's version, resolution and visibility are those of its last trimmed `;` element of each kind, or the defaults |
| ModelEclipseBundle.ParseRequireBundle | releng/eclipse/src/main/kotlin/mb/releng/eclipse/model/eclipse/Bundle.kt:125-155 | fails with the unclosed-quote exception exactly when the quotes do not pair up; otherwise one dependency per clause, in order |
| ModelEclipseBundle.NameOf | releng/eclipse/src/main/kotlin/mb/releng/eclipse/model/eclipse/Bundle.kt:51-60 | the bundle name is the symbolic name before its first `;`, trimmed |
| ModelEclipseBundle.ReadFromManifest | releng/eclipse/src/main/kotlin/mb/releng/eclipse/model/eclipse/Bundle.kt:50-109 | fails with a bundle parse exception exactly when the symbolic name or version is missing, the version does not parse, or a header does not parse; each case has its own message (no symbolic name; no `Bundle-Version` for the named bundle; the trimmed version text that does not parse; the `Require-Bundle` text, with the unclosed-quote exception as cause); otherwise it holds the name, the parsed version and the parsed dependencies |
| BundleConverter.ApplyElementsVersion | releng/eclipse/src/main/kotlin/mb/releng/eclipse/mavenize/BundleConverter.kt:85-98 | the version text comes from the last untrimmed element starting with `bundle-version`, or is `[0.1,)` |
| BundleConverter.ApplyElementsOptional | releng/eclipse/src/main/kotlin/mb/releng/eclipse/mavenize/BundleConverter.kt:86-104 | the dependency is optional when any resolution element's trimmed value is `optional`; a later element never resets it |
| BundleConverter.ParseInner | releng/eclipse/src/main/kotlin/mb/releng/eclipse/mavenize/BundleConverter.kt:79-109 | the artifact is the trimmed text before the first `;`, the group is the converter's, and version and optional come from the elements |
| BundleConverter.ParseOuter | releng/eclipse/src/main/kotlin/mb/releng/eclipse/mavenize/BundleConverter.kt:48-78 | fails with the unclosed-quote exception exactly when the quotes do not pair up; otherwise one dependency per clause of the quote-aware split, in order, each the inner parse of its clause in the converter's group |
| BundleConverter.Convert | releng/eclipse/src/main/kotlin/mb/releng/eclipse/mavenize/BundleConverter.kt:34-47 | fails exactly when one of the three headers is missing or `Require-Bundle` has an unclosed quote; the artifact is the symbolic name before `;`, trimmed, and `.qualifier` in the version becomes `-SNAPSHOT` |
| BundleConverter.IndentedVersionIgnored | releng/eclipse/src/main/kotlin/mb/releng/eclipse/mavenize/BundleConverter.kt:87-89 | elements are matched before trimming: `name; bundle-version=...` keeps the default version |
| BundleConverter.OptionalOfResolution | releng/eclipse/src/main/kotlin/mb/releng/eclipse/mavenize/BundleConverter.kt:99-104 | with one `resolution:=` element, the dependency is optional exactly when the trimmed value is `optional` |
| BundleConverter.QuotedOptionalIgnored | releng/eclipse/src/main/kotlin/mb/releng/eclipse/mavenize/BundleConverter.kt:79-104 | a clause `name;resolution:="w"` with a quoted value, `"optional"` among them, reads as a non-optional dependency, because the value is only trimmed and keeps its quotes |
| Conversions.MavenAny | releng/eclipse/src/main/kotlin/mb/releng/eclipse/mavenize/Conversions.kt:60-61 | any version: from zero, inclusive, without maximum |
| Conversions.QualifierRoundTrip | releng/eclipse/src/main/kotlin/mb/releng/eclipse/mavenize/Conversions.kt:7-28 | the placeholder `qualifier` becomes `SNAPSHOT` and back; a qualifier with neither marker is unchanged both ways |
| Conversions.VersionToMaven | releng/eclipse/src/main/kotlin/mb/releng/eclipse/mavenize/Conversions.kt:7-9 | the same numbers, with the Eclipse qualifier placeholder turned into the Maven snapshot marker |
| Conversions.MavenVersionTextRoundTrip | releng/eclipse/src/main/kotlin/mb/releng/eclipse/model/maven/Version.kt:15-21 | the text `MavenVersion.from` builds, the major number then `.minor`, `.incremental` and `-qualifier` for each part present, reads back as the version it was built from when an incremental number comes only with a minor one |
| Conversions.RangeSpecRoundTrip | releng/eclipse/src/main/kotlin/mb/releng/eclipse/model/maven/Version.kt:50-51 | the spec `MavenVersionRange.from` hands to Maven, bracket, minimum, comma, maximum if any, bracket, reads back as the range it was built from when both bounds are well formed and the minimum's qualifier has no comma |
| Conversions.MavenRangeFrom | releng/eclipse/src/main/kotlin/mb/releng/eclipse/model/maven/Version.kt:50-53 | succeeds exactly when Maven takes the spec built from the range, and then gives that range; otherwise fails with `Failed to build Maven version range from string '<spec>'` |
| Conversions.VersionToEclipse | releng/eclipse/src/main/kotlin/mb/releng/eclipse/mavenize/Conversions.kt:26-28 | the same numbers, with the Maven snapshot marker turned into the Eclipse placeholder |
| Conversions.VersionRoundTrip | releng/eclipse/src/main/kotlin/mb/releng/eclipse/mavenize/Conversions.kt:7-28 | a bundle version whose qualifier round-trips survives the trip through the model's Maven version record, which keeps the parts it is built from |
| Conversions.RangeToMaven | releng/eclipse/src/main/kotlin/mb/releng/eclipse/mavenize/Conversions.kt:11-13 | the same brackets, each bound converted, a maximum exactly when there was one; fails with the `MavenVersionRange.from` message exactly when Maven does not take the spec of that range |
| Conversions.VersionOrRangeToMaven | releng/eclipse/src/main/kotlin/mb/releng/eclipse/mavenize/Conversions.kt:15-23 | always a range: a plain version means that version or later, and a range converts bound by bound; fails exactly when Maven does not take the spec of that range |
| Conversions.RangeToEclipse | releng/eclipse/src/main/kotlin/mb/releng/eclipse/mavenize/Conversions.kt:30-33 | the range's Maven text parsed as a bundle range, or the conversion error naming that text |
| Conversions.VersionOrRangeToEclipse | releng/eclipse/src/main/kotlin/mb/releng/eclipse/mavenize/Conversions.kt:35-40 | a version converts directly and always succeeds; a range converts by way of its text |
| Conversions.CoordinatesToMaven | releng/eclipse/src/main/kotlin/mb/releng/eclipse/mavenize/Conversions.kt:43-46 | the bundle name is the artifact id and the version is converted, in the given group |
| Conversions.CoordinatesRoundTrip | releng/eclipse/src/main/kotlin/mb/releng/eclipse/mavenize/Conversions.kt:43-51 | bundle coordinates survive the trip through the model's Maven coordinates when their qualifier does |
| Conversions.DependencyToMaven | releng/eclipse/src/main/kotlin/mb/releng/eclipse/mavenize/Conversions.kt:54-73 | a dependency on the bundle's name; no version means any version; optional exactly when the resolution is optional; fails exactly when Maven does not take the spec of the version's range |
| Conversions.DependencyToEclipse | releng/eclipse/src/main/kotlin/mb/releng/eclipse/mavenize/Conversions.kt:75-81 | succeeds exactly when the version converts; optional exactly when the Maven dependency is; the visibility is the default |
| Conversions.DependencyRoundTrip | releng/eclipse/src/main/kotlin/mb/releng/eclipse/mavenize/Conversions.kt:54-81 | a dependency that converts to Maven and back keeps its name and resolution and becomes private |
| Conversions.FeatureCoordinatesToMaven | releng/eclipse/src/main/kotlin/mb/releng/eclipse/mavenize/Conversions.kt:84-91 | the feature's id and converted version as a plain version in the given group |
| Conversions.SiteDependencyToMaven | releng/eclipse/src/main/kotlin/mb/releng/eclipse/mavenize/Conversions.kt:93-100 | the site dependency's id and converted version as a plain version in the given group |
| EclipseBundleToMaven.ConvertVersion | releng/eclipse/src/main/kotlin/mb/releng/eclipse/mavenize/EclipseBundleToMaven.kt:19-31 | `0` without a version; otherwise the printed version minus its qualifier, which parses back to the version without qualifier |
| EclipseBundleToMaven.ConvertVersionRange | releng/eclipse/src/main/kotlin/mb/releng/eclipse/mavenize/EclipseBundleToMaven.kt:33-37 | the range's brackets around each bound as `convertVersion` writes it, the maximum only when there is one |
| EclipseBundleToMaven.ConvertVersionRangeParses | releng/eclipse/src/main/kotlin/mb/releng/eclipse/mavenize/EclipseBundleToMaven.kt:33-37 | a converted range without maximum reads back as the range without qualifiers |
| EclipseBundleToMaven.ConvertDependencyVersion | releng/eclipse/src/main/kotlin/mb/releng/eclipse/mavenize/EclipseBundleToMaven.kt:39-53 | a plain version means that version or later, no version means `[0,)`, a range is kept |
| EclipseBundleToMaven.AtLeastText | releng/eclipse/src/main/kotlin/mb/releng/eclipse/mavenize/EclipseBundleToMaven.kt:39-53 | "this version or later" prints the same whether built as a range or from a plain version |
| EclipseBundleToMaven.BundleToCoordinates | releng/eclipse/src/main/kotlin/mb/releng/eclipse/mavenize/EclipseBundleToMaven.kt:4-7 | the bundle's name and converted version in the given group, with neither classifier nor extension |
| EclipseBundleToMaven.ConvertRequiredBundle | releng/eclipse/src/main/kotlin/mb/releng/eclipse/mavenize/EclipseBundleToMaven.kt:9-17 | a dependency on the required bundle, optional exactly when its resolution is optional |
| EclipseBundleToMaven.ConvertRequiredBundleIgnoresVisibility | releng/eclipse/src/main/kotlin/mb/releng/eclipse/mavenize/EclipseBundleToMaven.kt:9-17 | the visibility never shows in the Maven dependency |
| EclipseBundleToMaven.NewFragmentEmulator | releng/eclipse/src/main/kotlin/mb/releng/eclipse/mavenize/EclipseBundleToMaven.kt:56-67 | the guests recorded for a host are exactly the bundles that name it as fragment host |
| EclipseBundleToMaven.EmulateFor | releng/eclipse/src/main/kotlin/mb/releng/eclipse/mavenize/EclipseBundleToMaven.kt:69-79 | a bundle without fragments is returned unchanged; a host keeps its own required bundles, in order, followed by one dependency per fragment |
| EclipseBundleToMaven.EmulateForAddsFragments | releng/eclipse/src/main/kotlin/mb/releng/eclipse/mavenize/EclipseBundleToMaven.kt:56-79 | whatever the iteration order, the added dependencies are a mandatory re-exported one on each fragment of the host |
| EclipseBundleToMaven.EmulateForWithoutFragments | releng/eclipse/src/main/kotlin/mb/releng/eclipse/mavenize/EclipseBundleToMaven.kt:56-79 | a bundle that no fragment names as host is left as it is |
| EclipseBundleToMaven.EmulateForIgnoresHostVersion | releng/eclipse/src/main/kotlin/mb/releng/eclipse/mavenize/EclipseBundleToMaven.kt:69-79 | hosts are matched by name only |
| EclipseBundleToMavenArtifact.ConvertVersion | releng/eclipse/src/main/kotlin/mb/releng/eclipse/mavenize/EclipseBundleToMavenArtifact.kt:151-163 | `0` without a version; otherwise the printed version minus its qualifier, which parses back to the version without qualifier |
| EclipseBundleToMavenArtifact.ConvertVersionRange | releng/eclipse/src/main/kotlin/mb/releng/eclipse/mavenize/EclipseBundleToMavenArtifact.kt:165-169 | the range's brackets around each bound as `convertVersion` writes it, the maximum only when there is one |
| EclipseBundleToMavenArtifact.ConvertVersionRangeParses | releng/eclipse/src/main/kotlin/mb/releng/eclipse/mavenize/EclipseBundleToMavenArtifact.kt:165-169 | a converted range without maximum reads back as the range without qualifiers |
| EclipseBundleToMavenArtifact.ConvertVersionRangeWholeMax | releng/eclipse/src/main/kotlin/mb/releng/eclipse/mavenize/EclipseBundleToMavenArtifact.kt:165-169 | read with the range pattern as evidently intended, every converted range, maximum included, reads back as the range without qualifiers |
| EclipseBundleToMavenArtifact.ConvertDependencyVersion | releng/eclipse/src/main/kotlin/mb/releng/eclipse/mavenize/EclipseBundleToMavenArtifact.kt:171-185 | a plain version means that version or later, no version means `[0,)`, a range is kept |
| EclipseBundleToMavenArtifact.BundleToCoordinates | releng/eclipse/src/main/kotlin/mb/releng/eclipse/mavenize/EclipseBundleToMavenArtifact.kt:135-139 | a `jar` in the converter's group, classified `sources` exactly for a source bundle |
| EclipseBundleToMavenArtifact.ConvertRequiredBundle | releng/eclipse/src/main/kotlin/mb/releng/eclipse/mavenize/EclipseBundleToMavenArtifact.kt:141-149 | a dependency on the required bundle, optional exactly when its resolution is optional |
| EclipseBundleToMavenArtifact.ConvertRequiredBundleIgnoresVisibility | releng/eclipse/src/main/kotlin/mb/releng/eclipse/mavenize/EclipseBundleToMavenArtifact.kt:141-149 | the visibility never shows in the Maven dependency |
| EclipseBundleToMavenArtifact.AddBundle | releng/eclipse/src/main/kotlin/mb/releng/eclipse/mavenize/EclipseBundleToMavenArtifact.kt:90-101 | the bundle is remembered, added to its host's guests and recorded as the sources of the bundle it names; nothing else changes |
| EclipseBundleToMavenArtifact.AddBundlesConsistent | releng/eclipse/src/main/kotlin/mb/releng/eclipse/mavenize/EclipseBundleToMavenArtifact.kt:90-105 | after adding bundles, the recorded guests are exactly the fragments among them and each recorded source bundle is the last one added for its name |
| EclipseBundleToMavenArtifact.LastSourcesOfIsLast | releng/eclipse/src/main/kotlin/mb/releng/eclipse/mavenize/EclipseBundleToMavenArtifact.kt:97-100 | a later source bundle for the same name replaces an earlier one |
| EclipseBundleToMavenArtifact.FragmentGuestDependencies | releng/eclipse/src/main/kotlin/mb/releng/eclipse/mavenize/EclipseBundleToMavenArtifact.kt:121-128 | one dependency per recorded guest of the bundle's name |
| EclipseBundleToMavenArtifact.FragmentGuestDependenciesOrderFree | releng/eclipse/src/main/kotlin/mb/releng/eclipse/mavenize/EclipseBundleToMavenArtifact.kt:121-128 | which dependencies the guests give does not depend on the hash set's iteration order |
| EclipseBundleToMavenArtifact.GuestToMavenMandatory | releng/eclipse/src/main/kotlin/mb/releng/eclipse/mavenize/EclipseBundleToMavenArtifact.kt:121-128 | a guest dependency is mandatory, on the guest's name, in the converter's group, from the guest's version upwards |
| EclipseBundleToMavenArtifact.ToMavenArtifact | releng/eclipse/src/main/kotlin/mb/releng/eclipse/mavenize/EclipseBundleToMavenArtifact.kt:108-116 | the bundle's coordinates, one dependency per required bundle in order, then one per fragment guest |
| EclipseBundleToMavenArtifact.ToMavenArtifactDependsOnFragments | releng/eclipse/src/main/kotlin/mb/releng/eclipse/mavenize/EclipseBundleToMavenArtifact.kt:90-128 | a host depends on every fragment among the bundles added that names it as host |
| EclipseBundleToMavenArtifact.Convert | releng/eclipse/src/main/kotlin/mb/releng/eclipse/mavenize/EclipseBundleToMavenArtifact.kt:14-17 | as written: the bundle is added and the artifact returned is that of the first bundle the converter holds |
| EclipseBundleToMavenArtifact.ConvertReturnsFirstBundle | releng/eclipse/src/main/kotlin/mb/releng/eclipse/mavenize/EclipseBundleToMavenArtifact.kt:14-17 | converting a second bundle of another name gives the first bundle's artifact |
| EclipseBundleToMavenArtifact.ConvertAdded | releng/eclipse/src/main/kotlin/mb/releng/eclipse/mavenize/EclipseBundleToMavenArtifact.kt:14-17 | corrected: the artifact returned is that of the bundle just added |
| EclipseBundleToMavenArtifact.ConvertAll | releng/eclipse/src/main/kotlin/mb/releng/eclipse/mavenize/EclipseBundleToMavenArtifact.kt:19-22 | every bundle is added, then every bundle held is converted in order: artifact `i` is the artifact of the `i`-th bundle held, against the converter with every bundle added, so the earlier bundles come first with their own coordinates and the new bundles' artifacts come last, in their order |
| EclipseConverter.RecordBundle | releng/eclipse/src/main/kotlin/mb/releng/eclipse/mavenize/EclipseConverter.kt:15-24 | the bundle's group is recorded under its name, the bundle joins its host's guests and becomes the source bundle of the bundle it names; nothing else changes |
| EclipseConverter.RecordGroupId | releng/eclipse/src/main/kotlin/mb/releng/eclipse/mavenize/EclipseConverter.kt:26-28 | only the group of the named bundle changes |
| EclipseConverter.GroupIdIsLastRecorded | releng/eclipse/src/main/kotlin/mb/releng/eclipse/mavenize/EclipseConverter.kt:15-28 | after any sequence of calls, a bundle's group is the last one recorded for its name, or the fallback |
| EclipseConverter.GuestsAreRecordedFragments | releng/eclipse/src/main/kotlin/mb/releng/eclipse/mavenize/EclipseConverter.kt:15-24 | the guests of a host are exactly the recorded bundles that name it as fragment host |
| EclipseConverter.SourceBundleIsLastRecorded | releng/eclipse/src/main/kotlin/mb/releng/eclipse/mavenize/EclipseConverter.kt:15-24 | the source bundle of a bundle is the last recorded bundle that names it |
| EclipseConverter.GuestsHaveGroupIds | releng/eclipse/src/main/kotlin/mb/releng/eclipse/mavenize/EclipseConverter.kt:62-72 | every recorded guest has a recorded group, so the guest lookup never fails on a converter built by recording |
| EclipseConverter.FragmentGuestDependencies | releng/eclipse/src/main/kotlin/mb/releng/eclipse/mavenize/EclipseConverter.kt:62-72 | fails exactly when some guest has no recorded group or Maven does not take the spec of its version, with the message for the first such guest in iteration order; otherwise one dependency per guest, each in its guest's group |
| EclipseConverter.GuestToMaven | releng/eclipse/src/main/kotlin/mb/releng/eclipse/mavenize/EclipseConverter.kt:64-70 | one guest: the missing-group error naming the guest and the host when the guest has no recorded group, otherwise its mandatory, re-exported dependency converted in that group |
| EclipseConverter.RequiredToMaven | releng/eclipse/src/main/kotlin/mb/releng/eclipse/mavenize/EclipseConverter.kt:36-44 | the required bundles converted in order, each in its own group; fails exactly when Maven does not take some bundle's spec, with the message for the first one |
| EclipseConverter.RequiredDependencyToMaven | releng/eclipse/src/main/kotlin/mb/releng/eclipse/mavenize/EclipseConverter.kt:41-42 | one required bundle converted in its recorded group or the fallback; fails exactly when Maven does not take the spec of its version's range |
| EclipseConverter.WithoutSystemBundle | releng/eclipse/src/main/kotlin/mb/releng/eclipse/mavenize/EclipseConverter.kt:37-39 | exactly the required bundles other than `system.bundle` are kept |
| EclipseConverter.Convert | releng/eclipse/src/main/kotlin/mb/releng/eclipse/mavenize/EclipseConverter.kt:31-49 | the bundle's coordinates in its group, `sources` for a source bundle, a dependency per required bundle other than the system bundle, then one per fragment guest; fails exactly when Maven does not take some required bundle's spec or the guests fail, and a failing required bundle is the failure reported |
| EclipseConverter.ArtifactCoordinates | releng/eclipse/src/main/kotlin/mb/releng/eclipse/mavenize/EclipseConverter.kt:32-34 | the bundle's coordinates in its recorded group or the fallback, classified `sources` exactly for a source bundle |
| EclipseConverter.ConvertDropsSystemBundle | releng/eclipse/src/main/kotlin/mb/releng/eclipse/mavenize/EclipseConverter.kt:37-39 | no converted bundle depends on `system.bundle` through its required bundles |
| EclipseConverter.ConvertOfReplaySucceeds | releng/eclipse/src/main/kotlin/mb/releng/eclipse/mavenize/EclipseConverter.kt:62-72 | on a converter built by recording bundles the missing-group error never happens: converting succeeds exactly when Maven takes the spec of every required bundle and of every fragment guest |
| EclipseConverter.GuestsWithGroupsConvert | releng/eclipse/src/main/kotlin/mb/releng/eclipse/mavenize/EclipseConverter.kt:62-72 | when every guest has a recorded group, the guests convert exactly when Maven takes each guest's spec |
| EclipseConverter.ConvertGuestsMandatory | releng/eclipse/src/main/kotlin/mb/releng/eclipse/mavenize/EclipseConverter.kt:62-72 | the dependencies on fragment guests are never optional |
| EclipseConverter.ConvertFeatureCoordinates | releng/eclipse/src/main/kotlin/mb/releng/eclipse/mavenize/EclipseConverter.kt:51-54 | the feature in its recorded group, or the fallback group |
| EclipseConverter.ConvertSiteDependency | releng/eclipse/src/main/kotlin/mb/releng/eclipse/mavenize/EclipseConverter.kt:56-59 | the site dependency in its recorded group, or the fallback group |
| MavenMetadata.DependencyLines | releng/eclipse/src/main/kotlin/mb/releng/eclipse/mavenize/MavenMetadata.kt:42-51 | one `<dependency>` block, with an `<optional>` line exactly for an optional dependency |
| MavenMetadata.ToPomXml | releng/eclipse/src/main/kotlin/mb/releng/eclipse/mavenize/MavenMetadata.kt:14-30 | the declaration, the project with group, artifact and version, and a `<dependencies>` block exactly when there are dependencies |
| MavenMetadata.ReadPomOfToPomXml | releng/eclipse/src/main/kotlin/mb/releng/eclipse/mavenize/MavenMetadata.kt:14-51 | the POM holds all of the metadata: reading it gives the metadata back, with the dependencies in order |
| MavenMetadata.PomDependencies | releng/eclipse/src/main/kotlin/mb/releng/eclipse/mavenize/MavenMetadata.kt:21-28 | with dependencies, the POM holds an empty line, `<dependencies>`, one block per dependency and `</dependencies>` |
| BuildProperties.Read | releng/eclipse/src/main/kotlin/mb/releng/eclipse/model/eclipse/BuildProperties.kt:26-35 | the source directories are the comma-separated pieces of `source..`, the output directory is `output..` when present, and the includes are the pieces of `bin.includes` other than `.` and `META-INF/` |
| BuildProperties.ReadOfWritten | releng/eclipsex/src/main/kotlin/mb/releng/eclipse/model/eclipse/BuildProperties.kt:26-36 | a file written from comma-free directories and kept includes reads back as exactly those |
| BuildProperties.ReadKeepsIncludeOrder | releng/eclipse/src/main/kotlin/mb/releng/eclipse/mavenize/EclipseBuildProperties.kt:26-35 | the kept includes stay in file order |
| BuildProperties.PluginDefaults | releng/eclipse/src/main/kotlin/mb/releng/eclipse/model/eclipse/BuildProperties.kt:38-40 | no sources, no output directory and `plugin.xml` as the only include |
| BuildProperties.FeatureDefaults | releng/eclipse/src/main/kotlin/mb/releng/eclipse/model/eclipse/BuildProperties.kt:42-44 | no sources, no output directory and `feature.xml` as the only include |
| BuildProperties.DefaultsAreNotRead | releng/eclipse/src/main/kotlin/mb/releng/eclipse/mavenize/EclipseBuildProperties.kt:26-45 | reading always gives at least one source directory, so the defaults never come from a file |
| InstallationMavenizer.FixDepVersion | releng/eclipse/src/main/kotlin/mb/releng/eclipse/mavenize/EclipseInstallationMavenizer.kt:44-48 | no version stays none; a version or a range loses its qualifiers and keeps its kind |
| InstallationMavenizer.FixDep | releng/eclipse/src/main/kotlin/mb/releng/eclipse/mavenize/EclipseInstallationMavenizer.kt:50 | the same dependency with its version's qualifiers removed |
| InstallationMavenizer.RemoveQualifiers | releng/eclipse/src/main/kotlin/mb/releng/eclipse/mavenize/EclipseInstallationMavenizer.kt:40-55 | the name is kept and every qualifier is removed, from the bundle's version and from all its dependencies, which keep their order and presence |
| InstallationMavenizer.RemoveQualifiersIdempotent | releng/eclipse/src/main/kotlin/mb/releng/eclipse/mavenize/EclipseInstallationMavenizer.kt:40-55 | removing the qualifiers a second time changes nothing |
| InstallationMavenizer.RemoveQualifiersKeepsLinks | releng/eclipse/src/main/kotlin/mb/releng/eclipse/mavenize/EclipseInstallationMavenizer.kt:40-55 | fragment hosts and source bundle targets, found by name, are the same before and after |
| InstallationMavenizer.CreateConverter | releng/eclipse/src/main/kotlin/mb/releng/eclipse/mavenize/EclipseInstallationMavenizer.kt:84-90 | every installation bundle is put in the installation's group and every other bundle in the fallback group |
| InstallationMavenizer.CreateConverterOrderFree | releng/eclipse/src/main/kotlin/mb/releng/eclipse/mavenize/EclipseInstallationMavenizer.kt:84-90 | the converter does not depend on the order in which the set of names is visited |
| InstallationMavenizer.CreateConverterGroupsMavenized | releng/eclipse/src/main/kotlin/mb/releng/eclipse/mavenize/EclipseInstallationMavenizer.kt:82-90 | when the groups differ, `isMavenizedBundle` (modelled as `InstallationMavenizer.IsMavenizedBundle`) holds for a bundle's group in the converter exactly when it is one of the installation's bundles |
| DependencyUtil.GradleNotation | releng/eclipse.gradle/src/main/kotlin/mb/releng/eclipse/gradle/util/DependencyUtil.kt:12-13 | `group:id:version`, then `:classifier` and `@extension` when present |
| DependencyUtil.ParseGradleNotation | releng/eclipse.gradle/src/main/kotlin/mb/releng/eclipse/gradle/util/DependencyUtil.kt:12-13 | the notation is unambiguous: when the parts are free of `:` and `@`, reading it back gives the parts, the classifier and the extension present exactly when set |
| KotlinCollections.MapOrderFree | releng/eclipse/src/main/kotlin/mb/releng/eclipse/mavenize/EclipseBundleToMavenArtifact.kt:125-127 | mapping a set's elements gives the same elements whatever the iteration order |
| KotlinCollections.MapOrFail | releng/eclipse/src/main/kotlin/mb/releng/eclipse/mavenize/EclipseConverter.kt:64-71 | `map` with a function that may throw: fails exactly when the function fails on some element, with the failure of the first such element; otherwise one image per element, in order |

## Left out

- File system, JAR, manifest-file and `Properties` loading, logging, temporary directories and the installer. Manifests and property files are maps from names to values.
- `ModelVersion.Parse`, `EclipseVersionParser.Parse` and `EclipseBundle.Parse` do not model the 32-bit limit of `toInt`. Numbers are unbounded naturals, so a group above 2147483647, which makes the source throw `NumberFormatException`, is read as its value.
- Manifest attribute names are matched exactly. Java's `Attributes` compares them case-insensitively.
- model/eclipse/Version.kt is not part of this model. `BundleVersion` and `BundleVersionOrRange` are type parameters, or records holding the fields the conversions read. Their `parse` and `toString` are parameters.
- The model/maven records (`MavenVersion`, `MavenVersionRange`, `Coordinates`, `MavenDependency`, `MavenArtifact`) are plain records. A Maven version is taken to print as the text `MavenVersion.from` built it from, which is what `DefaultArtifactVersion.toString` returns. Maven's verdict on a range spec, `VersionRange.createFromVersionSpec`, is the parameter `accepts`. Printing a Maven range for `toEclipse` and parsing bundle ranges are parameters. Maven's own version and range parsers are not part of this model.
- Conversions.VersionRoundTrip and Conversions.CoordinatesRoundTrip hold for the model's Maven version record, not for Maven. model/maven/Version.kt:15-29 builds a `DefaultArtifactVersion` from a string and reads the parts back through its `int` getters. So a version without minor or micro comes back with `0` for them, and an all-digit qualifier is read as a build number and comes back as no qualifier. Maven's version parser is not part of this model.
- EclipseBundleToMaven.BundleToCoordinates assumes that the three-argument `Coordinates` constructor leaves the classifier and the extension unset. The Maven `Coordinates` class that defines those defaults is not part of this model.
- Feature and site XML reading are left out. Only the coordinates and dependencies the converters take are modelled.
- EclipseBundleToInstallableMavenArtifact.kt, EclipseBundleConverter.kt and the Gradle plugins are left out. They are callers of the modelled code and do file work.
- `launcherPath` and the directory listing in `mavenizeEclipseInstallation`. The set of installed bundle names is an input.
- `toGradleDependency` and `createDependency`. They call the Gradle project API.
- Hash-set iteration order is not fixed. Members that iterate a set take the order as a parameter and are proved independent of it.

## Findings

| source | as written | input that shows it | evidently intended | confidence | as-written member | corrected member |
|---|---|---|---|---|---|---|
| releng/eclipse/src/main/kotlin/mb/releng/eclipse/mavenize/EclipseBundleToMavenArtifact.kt:14-17 | `convert` adds the bundle, converts every bundle the converter holds and returns the first artifact | converting bundle `b` after bundle `a` on one converter returns the artifact of `a` | the artifact of the bundle passed in | not executed | EclipseBundleToMavenArtifact.ConvertReturnsFirstBundle | EclipseBundleToMavenArtifact.ConvertAdded |
| releng/eclipse/src/main/kotlin/mb/releng/eclipse/mavenize/EclipseBundle.kt:189-198 | `toString` joins the attributes after the name with `,` | an optional, private dependency `a` prints as `a;resolution:=optional,visibility:=private`, which `parseInner` reads back as mandatory | every attribute as its own `;` element, so that the clause reads back as the dependency | not executed | EclipseBundle.DependencyToStringLosesAttributes | EclipseBundle.ParseInnerOfDependencyToClause |
| releng/eclipse/src/main/kotlin/mb/releng/eclipse/model/Version.kt:41 | the range pattern `([\[\(])(.+)\w*,\w*(.*)([\]\)])` has a `\w*` after the comma, which takes the maximum's leading digits before group 3 | `[1.0,2.0)` matches with group 3 `.0`, which is not a version, so it reads as the range from 1.0 without maximum | group 3 holds the whole maximum, so that `[1.0,2.0)` reads back as itself | not executed | ModelVersion.RangeParseLosesMax | ModelVersion.RangeParseWholeMaxOfToString |

`EclipseBundle.DependencyToStringMisreadsResolution` works the example through. model/Bundle.kt:197-206 has the same `toString`. It is modelled as written in `ModelBundle.DependencyToString`, and `ModelBundle.DependencyToStringLosesAttributes` shows the same loss. The corrected clause layout is the one `EclipseBundle.DependencyToClause` writes. The model does not repeat that correction, or its round trip, for model/Bundle.kt.

The same range pattern is at mavenize/EclipseVersionParser.kt:36 and mavenize/EclipseBundle.kt:301. `EclipseVersionParser.RangeParseLosesMax`, `EclipseBundle.RangeParseLosesMax` and `VersionPatterns.MatchRangeMaxNeverVersion` show the same loss there. The corrected pattern is `VersionPatterns.MatchRangeWholeMax`, which drops both `\w*`. The range parsers of the three modules keep the pattern as written, because that is what the program runs.
