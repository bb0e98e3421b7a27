# vermouth — a verified model of its version handling

vermouth reads, compares, stores and prints semantic versions. This project
models its four pieces in Dafny and proves what each one promises.

- **`vermouth.Version`** is a value made of three 32-bit integers: `major`, `minor` and `patch`.
  - It compares versions on those three numbers alone.
  - It renders them as `major.minor.patch`.
  - Its `parse` is forgiving and never fails:
    - the text is split with Java's `String.split("\\.")`, which drops trailing empty tokens;
    - each of the first three tokens goes through `Integer.parseInt` and becomes 0 when that throws;
    - any further tokens are ignored.
- **The properties codec.**
  - `properties.Parser.parse(Properties)` looks up `major`, `minor`, `patch`, the qualifier and the metadata.
  - Each lookup tries the bare key first, then the `version.`-prefixed key, then a default.
  - It assembles `M.m.p[-q][+meta]` and hands that to `Version.parse`.
  - It is modelled as a function of the table's entries, so the table is only read.
  - `properties.Serializer.properties(version)` builds a new table from a version's five fields.
- **The Go command-line tool (`main.go`).**
  - `formatVersion` expands `{version+}` and replaces the eight placeholders in a fixed order. It then collapses separator pairs until nothing changes and trims trailing separators.
  - `convertTimeFormat` rewrites a human time pattern into Go's layout with a `strings.Replacer`.
  - `getVersion` decodes the output of `git describe`. When that does not match, it decodes the default version instead.

Modules, one per source unit or library:

| file | module | models |
|---|---|---|
| `wrappers.dfy` | `Wrappers` | `Option` |
| `java_lang.dfy` | `JavaLang` | `int` as int32, `Integer.toString`, `Integer.parseInt`, `String.split` on one character |
| `version.dfy` | `Versions` | `Version.java` |
| `properties.dfy` | `JavaProperties` | `java.util.Properties`: lookup, plus a table object updated by `setProperty` |
| `properties_parser.dfy` | `PropertiesParser` | `properties/Parser.java` |
| `properties_serializer.dfy` | `PropertiesSerializer` | `properties/Serializer.java` |
| `go_strings.dfy` | `GoStrings` | `strings.ReplaceAll`, `TrimRight`, `TrimSpace`, `NewReplacer(...).Replace` |
| `version_format.dfy` | `VersionFormat` | `formatVersion`, `convertTimeFormat` |
| `describe.dfy` | `DescribeDecoding` | the regular expressions and the decoding in `getVersion` |

Where the code and its description differ, the model follows the code:

- `compare` looks only at the numeric core. Qualifier and metadata play no part in ordering.
- `equals(String)` parses its argument and compares the numbers. It does not compare text: `"1.2.3.9"` equals version 1.2.3 (`Versions.EqualsStringIsNotTextual`).
- A qualifier or metadata that the Parser assembles stays glued to the patch token, because `Version.parse` splits on `.` alone. The patch then reads as 0. For example, `2.22.42-beta1` parses as 2.22.0.

Other behaviour the model makes explicit:

- When `git describe` fails, the text decoded is `v` followed by the default version, and the describe pattern is tried on it first. A default such as `1.2.3-rc1` therefore decodes as 1, 2, 3 with prerelease `rc1` (`DescribeDecoding.PrereleaseDefaultExample`).
- The default version becomes the major part, with empty minor and patch, whenever two conditions hold: the decoded text does not match the describe pattern, and the default does not match `X.Y.Z`. The decoded text is git's output without surrounding white space, or `v` followed by the default when git fails. So this happens even when git succeeds with text the pattern rejects: `v1.2.3.4` with the default `1.2.3-rc1` gives the major part `1.2.3-rc1` (`DescribeDecoding.DecodeFallback`). `{version}` and `{version+}` then print the default followed by `..`.
- The commit hash that `git describe` reports is decoded but never printed: `VersionInfo` has no field for it.

## Model

| member | source | states |
|---|---|---|
| `Versions.Compare` | src/main/java/vermouth/Version.java:48-53 | the result is -1, 0 or 1; it is 0 exactly when the versions are equal, -1 exactly when the first comes first in (major, minor, patch) order, and 1 exactly when the second does |
| `Versions.CompareAntisymmetric` | src/main/java/vermouth/Version.java:48-53 | swapping the arguments negates the result |
| `Versions.CompareTransitive` | src/main/java/vermouth/Version.java:49-52 | "at most" and "strictly less" are both transitive |
| `Versions.CompareLexicographic` | src/main/java/vermouth/Version.java:49-52 | the first field that differs decides the result, and equal major and minor leave the decision to patch |
| `Versions.Equals` | src/main/java/vermouth/Version.java:40-42 | true exactly when all three fields are equal |
| `Versions.EqualsObject` | src/main/java/vermouth/Version.java:29-34 | true exactly when the object is a Version with the same fields; false for any other kind of object |
| `Versions.IsGreater` | src/main/java/vermouth/Version.java:59-61 | true exactly when the argument comes strictly before this version |
| `Versions.IsLesser` | src/main/java/vermouth/Version.java:67-69 | true exactly when this version comes strictly before the argument |
| `Versions.Trichotomy` | src/main/java/vermouth/Version.java:40-69 | for any two versions exactly one of greater, lesser and equal holds |
| `Versions.CompareString` | src/main/java/vermouth/Version.java:44-46 | ordering against the parsed text, with 0, -1 and 1 characterised as for `Compare` |
| `Versions.EqualsString` | src/main/java/vermouth/Version.java:36-38 | true exactly when the parsed text has the same fields |
| `Versions.IsGreaterString` | src/main/java/vermouth/Version.java:55-57 | true exactly when the parsed text comes strictly before this version |
| `Versions.IsLesserString` | src/main/java/vermouth/Version.java:63-65 | true exactly when this version comes strictly before the parsed text |
| `Versions.StringOverloadsDelegate` | src/main/java/vermouth/Version.java:36-65 | each String overload gives the same answer as its Version overload applied to `parse(text)` |
| `Versions.EqualsStringIsNotTextual` | src/main/java/vermouth/Version.java:36-38 | a version equals its own rendering with any extra `.`-token appended, though the texts differ |
| `Versions.Integer` | src/main/java/vermouth/Version.java:95-101 | the empty token gives the default; a token of ASCII digits within int32 gives its value; whenever `Integer.parseInt` throws, the result is the default |
| `JavaLang.ParseInt` | src/main/java/vermouth/Version.java:97 | only non-empty text is accepted, as `Integer.parseInt` demands |
| `JavaLang.ParseIntDigits` | src/main/java/vermouth/Version.java:97 | a run of ASCII digits whose value fits in an int32 is read as that value |
| `JavaLang.ParseIntRejects` | src/main/java/vermouth/Version.java:97 | text with a non-digit after its first character is rejected |
| `JavaLang.ParseIntBadStart` | src/main/java/vermouth/Version.java:97 | text whose first character is neither a sign nor a digit is rejected |
| `JavaLang.ParseIntSigned` | src/main/java/vermouth/Version.java:97 | a leading `+` reads as the digits alone; a leading `-` negates them, down to -2147483648; a lone sign is rejected |
| `JavaLang.ParseIntOverflow` | src/main/java/vermouth/Version.java:97 | any run of ASCII digits, leading zeros allowed, whose value is above 2147483647 is rejected, bare or after `+`; after `-` it is rejected when the value is above 2147483648 |
| `JavaLang.ParseIntToString` | src/main/java/vermouth/Version.java:72 | reading back the decimal rendering of any int32, negatives included, gives that int32 |
| `JavaLang.IntToString` | src/main/java/vermouth/Version.java:72 | the rendering is non-empty, has a leading `-` exactly for negative numbers, and otherwise holds only digits |
| `JavaLang.NatToString` | src/main/java/vermouth/Version.java:72 | the rendering is digits with value n and no leading zero |
| `JavaLang.Split` | src/main/java/vermouth/Version.java:81 | the tokens are the `.`-separated pieces with trailing empty pieces dropped; text without a separator is its own single token; otherwise the last token is never empty |
| `JavaLang.SplitEdges` | src/main/java/vermouth/Version.java:81 | `""` splits into one empty token, and a lone separator into no tokens at all |
| `JavaLang.DropTrailingEmpty` | src/main/java/vermouth/Version.java:81 | the result is a prefix of the input, does not end in an empty piece, and every dropped piece is empty |
| `JavaLang.PiecesCons` | src/main/java/vermouth/Version.java:81 | text before the first separator is the first piece, and the rest splits on its own |
| `Versions.Parse` | src/main/java/vermouth/Version.java:79-93 | a text without `.` is a lone major number, read by `integer`, with minor and patch 0 |
| `Versions.ParseDotted` | src/main/java/vermouth/Version.java:79-93 | `a.b.c` with dot-free tokens gives the three tokens read by `integer` |
| `Versions.ParseOverflow` | src/main/java/vermouth/Version.java:83-84 | a major token of digits whose value is above the int32 range reads as 0, while minor and patch are still read |
| `Versions.ParseByFields` | src/main/java/vermouth/Version.java:79-93 | each field of the result is the matching token read by `integer`, or 0 when that token is missing |
| `Versions.ParseDefaults` | src/main/java/vermouth/Version.java:79-93 | `""`, `"."` and `".."` all parse as 0.0.0 |
| `Versions.ParseMissingFields` | src/main/java/vermouth/Version.java:83-90 | a missing minor or patch token becomes 0 |
| `Versions.ParseFirstThree` | src/main/java/vermouth/Version.java:83-90 | when there are at least three pieces, the fields are the first three pieces read by `integer` |
| `Versions.ParseIgnoresExtraTokens` | src/main/java/vermouth/Version.java:79-93 | tokens after the third do not change the result |
| `Versions.SuffixSpoilsPatch` | src/main/java/vermouth/Version.java:89-90 | a patch token followed by a non-digit marker such as `-` or `+` reads as 0 |
| `Versions.ToString` | src/main/java/vermouth/Version.java:71-73 | parsing the rendering of any version gives that version back, for every int32 triple |
| `Versions.ParseRendering` | src/main/java/vermouth/Version.java:79-93 | a text that is some version's rendering parses as that version |
| `Versions.ParseDefaultsZero` | src/main/java/vermouth/Version.java:6-10 | `0.0.0` parses as the default version |
| `Versions.ParseExample` | src/test/java/vermouth/TestVersion.java:21-24 | `1.11.100` parses as (1, 11, 100) |
| `Versions.SimpleVersionExamples` | src/test/java/vermouth/TestVersion.java:20-38 | 1.11.100 is greater than 1.10.500 and 1.10.501 and less than 1.12.0 and 12.12.1200; it equals itself as object, version and text; it does not equal the integer 10 |
| `JavaProperties.GetProperty` | src/main/java/vermouth/properties/Parser.java:92 | the key's value when the key is present, the default otherwise |
| `JavaProperties.Properties.constructor` | src/main/java/vermouth/properties/Serializer.java:18 | a new table is empty |
| `JavaProperties.Properties.SetProperty` | src/main/java/vermouth/properties/Serializer.java:19 | the key now maps to the value and every other entry is unchanged |
| `PropertiesParser.Get` | src/main/java/vermouth/properties/Parser.java:91-93 | the bare key's value if present, otherwise the `version.`-prefixed key's value if present, otherwise the default; a bare key wins |
| `PropertiesParser.Valid` | src/main/java/vermouth/properties/Parser.java:102-107 | an empty value gives `""`, any other value gives the prefix followed by it |
| `PropertiesParser.QualifierLookupOrder` | src/main/java/vermouth/properties/Parser.java:60 | the qualifier is looked up as `qualifier`, `version.qualifier`, `prerelease`, `version.prerelease`, then `""` |
| `PropertiesParser.Text` | src/main/java/vermouth/properties/Parser.java:56-62 | the assembled text is the three numbers joined by `.`, then `-` and the qualifier only when there is one, then `+` and the metadata only when there is some |
| `PropertiesParser.Parse` | src/main/java/vermouth/properties/Parser.java:55-63 | with dot-free numbers and no qualifier or metadata, the version is the three looked-up numbers read by `integer`; with a qualifier or metadata and a non-empty patch, the patch is 0 and major and minor are still read |
| `PropertiesParser.EmptyTable` | src/test/java/vermouth/TestVersion.java:135-136 | an empty table assembles `0.0.0` and parses as the default version |
| `PropertiesParser.LoadBareMajor` | src/test/java/vermouth/TestVersion.java:138-139 | a table holding only `major=1` assembles `1.0.0` |
| `PropertiesParser.LoadPrefixedMajor` | src/test/java/vermouth/TestVersion.java:141-143 | a table holding only `version.major=2` assembles `2.0.0` |
| `PropertiesParser.LoadBareWins` | src/main/java/vermouth/properties/Parser.java:91-93 | with both `major=1` and `version.major=2`, the bare key wins and the text is `1.0.0` |
| `PropertiesParser.LoadMixedKeys` | src/test/java/vermouth/TestVersion.java:145-146 | bare and prefixed keys mix: `version.major=2` with `minor=20` gives `2.20.0` |
| `PropertiesParser.QualifiedLoadExample` | src/test/java/vermouth/TestVersion.java:159-160 | prefixed numbers with a qualifier assemble `2.22.42-` and the qualifier |
| `PropertiesParser.QualifiedLoadParses` | src/main/java/vermouth/properties/Parser.java:55-63 | that qualified table parses as 2.22.0: the qualifier spoils the patch |
| `PropertiesSerializer.Properties` | src/main/java/vermouth/properties/Serializer.java:17-32 | the table is new; it holds `major`, `minor` and `patch` in decimal; `metadata` exactly when there is metadata; `qualifier` and `prerelease`, both equal to the qualifier, exactly when there is one; and no other key |
| `PropertiesSerializer.SerializationIsUnique` | src/main/java/vermouth/properties/Serializer.java:17-32 | that description fixes the table completely |
| `PropertiesSerializer.PlainSerialization` | src/main/java/vermouth/properties/Serializer.java:19-21 | without qualifier or metadata the table has exactly the three keys `major`, `minor` and `patch` |
| `PropertiesSerializer.SerializedQualifier` | src/main/java/vermouth/properties/Serializer.java:26-29 | reading a serialized table back finds the version's qualifier |
| `PropertiesSerializer.SerializedMetadata` | src/main/java/vermouth/properties/Serializer.java:23-24 | reading a serialized table back finds the version's metadata |
| `PropertiesSerializer.AssembledFromSerialization` | src/main/java/vermouth/properties/Parser.java:55-63 | the Parser's assembled text for a serialized table is `M.m.p[-q][+meta]` built from the version's five fields |
| `PropertiesSerializer.ParsedFromSerialization` | src/main/java/vermouth/properties/Parser.java:55-63 | serializing and then parsing keeps major and minor; patch survives only when qualifier and metadata are both empty, and is otherwise 0 |
| `GoStrings.ReplaceAll` | main.go:94-101 | a replacement no longer than the target never lengthens the text, and one of the same length keeps its length |
| `GoStrings.ReplaceAllAbsent` | main.go:94-101 | replacing a target that does not occur leaves the text unchanged |
| `GoStrings.ReplaceAllShrinks` | main.go:107-110 | replacing a target with something shorter never lengthens the text, and shortens it when the target occurs |
| `GoStrings.ReplaceAllSkips` | main.go:94-101 | a prefix without the target's first character is kept, and replacement goes on after it |
| `GoStrings.ReplaceAllFront` | main.go:94-101 | a target at the front is replaced there, and replacement goes on after it |
| `GoStrings.TrimRight` | main.go:117 | the result is a prefix of the input that does not end in a cut character, and only cut characters were removed |
| `GoStrings.TrimLeft` | main.go:180 | the result is a suffix of the input that does not start with a cut character, and only cut characters were removed |
| `GoStrings.TrimSpace` | main.go:180 | the result is no longer than the input and neither starts nor ends with white space; text that is all white space becomes empty |
| `GoStrings.TrimSpaceStrips` | main.go:180 | white space around a text with non-blank ends is removed and the text is kept |
| `GoStrings.TrimSpaceKeeps` | main.go:180 | text that neither starts nor ends with white space is kept as it is |
| `GoStrings.FirstMatch` | main.go:72-81 | the replacer uses the first pair, in argument order, whose target starts the text, or none when no target does |
| `GoStrings.ReplaceFront` | main.go:81 | the pair used at the front is replaced there, and the rest of the text follows |
| `GoStrings.Replace` | main.go:81 | when every pair keeps its length, the output is as long as the input |
| `GoStrings.ReplaceKeeps` | main.go:81 | every character that no target contains is copied to the same position |
| `VersionFormat.Placeholders` | main.go:93-101 | a text with no `{` is left as it is |
| `VersionFormat.Substituted` | main.go:87-101 | a format with no `{` is left as it is by the expansion and the replacements |
| `VersionFormat.Formatted` | main.go:85-119 | the printed version has no two adjacent separators and does not end in `-` or `+` |
| `VersionFormat.FormatVersion` | main.go:84-120 | the result equals the formatting function; no two separators are adjacent; the result does not end in `-` or `+` |
| `VersionFormat.CollapsePassShrinks` | main.go:105-114 | a clean-up pass never lengthens the text and shortens it whenever it changes it, so the loop ends |
| `VersionFormat.Cleanup` | main.go:105-114 | the loop's result is a fixpoint of one pass |
| `VersionFormat.FixpointHasNoAdjacentSeparators` | main.go:111-113 | a text that a pass leaves alone contains none of `--`, `++`, `-+` or `+-` |
| `VersionFormat.CleanupSqueezes` | main.go:105-114 | the loop turns each run of separators into its last character and changes nothing else |
| `VersionFormat.ReplaceAllFills` | main.go:94-101 | replacing a placeholder token in a template's text fills that placeholder and nothing else |
| `VersionFormat.FullTemplateText` | main.go:87 | `{version+}` stands for `{version}-{prerelease}-{commits}-{timestamp}+{metadata}` |
| `VersionFormat.ExpandStep` | main.go:87 | expanding `{version+}` in a template's text is filling its `{version+}` placeholders with the five-part template |
| `VersionFormat.SubstitutionResolves` | main.go:87-101 | when no value opens a placeholder, the ordered replacements fill every placeholder at once: `{version}` with `Major.Minor.Patch` and each other with its field |
| `VersionFormat.FormatTemplate` | main.go:87-117 | a format whose filled text has no separators to tidy prints exactly as filled |
| `VersionFormat.FormatFullVersion` | main.go:84-120 | `{version+}` prints `Major.Minor.Patch`, then `-prerelease`, `-commits`, `-timestamp` and `+metadata`, each only when not empty; for numbers without `-`, `+` or braces and optional parts without `{` whose `-` and `+` stand alone between other characters (a stamp `2025-12-05` is covered) |
| `VersionFormat.FormatPrefixedFullVersion` | main.go:163 | `v{version+}` prints `v` followed by what `{version+}` prints, under the same conditions on the values |
| `VersionFormat.FormatCoreOnly` | main.go:87-117 | with no prerelease, commits, timestamp or metadata, the default format prints exactly `Major.Minor.Patch`, for numbers without `-`, `+` or braces |
| `VersionFormat.FormatPrefixedVersion` | main.go:164 | `v{version}` prints `v` and `Major.Minor.Patch`, for values without `-`, `+` or braces |
| `VersionFormat.FormatSnapshot` | main.go:166 | `{version}-SNAPSHOT` prints `Major.Minor.Patch-SNAPSHOT`, for values without `-`, `+` or braces |
| `VersionFormat.FormatMajorMinor` | main.go:165 | `{major}.{minor}` prints `Major.Minor`, for values without `-`, `+` or braces |
| `VersionFormat.TimeLayoutPairsShape` | main.go:72-80 | every pair of the time replacer keeps its length and targets only the letters `Y`, `M`, `d`, `H`, `m` and `s` |
| `VersionFormat.ConvertTimeFormat` | main.go:71-82 | the Go layout is as long as the pattern |
| `VersionFormat.ConvertTimeFormatKeeps` | main.go:71-82 | every character other than a field letter is copied to the same place |
| `VersionFormat.ConvertField` | main.go:72-81 | a field at the front becomes its Go field, and `YYYY` wins over `YY` |
| `VersionFormat.ConvertAllFields` | main.go:72-81 | the six fields in the default's order become `2006`, `01`, `02`, `15`, `04` and `05` |
| `VersionFormat.ConvertDefaultTimestamp` | main.go:34 | the default pattern `YYYYMMddHHmmss` becomes `20060102150405` |
| `DescribeDecoding.Span` | main.go:185 | the span is the longest run at the front of the text that stays in the character class |
| `DescribeDecoding.NumberSound` | main.go:185 | a matched `\d+` group is a run of digits that is not followed by another digit, and the group and the rest make up the text |
| `DescribeDecoding.NumberComplete` | main.go:185 | digits followed by a non-digit are matched as exactly that group |
| `DescribeDecoding.CoreSound` | main.go:185 | a matched `(\d+)\.(\d+)\.(\d+)` yields three digit groups whose rendering with the rest is the text |
| `DescribeDecoding.CoreComplete` | main.go:185 | every well-formed core is matched back to itself |
| `DescribeDecoding.CommitsSound` | main.go:185 | a matched `-(\d+)-g([0-9a-f]+)` tail yields a digit count and a hex hash that render back to the tail |
| `DescribeDecoding.CommitsComplete` | main.go:185 | every well-formed commits tail is matched back to itself |
| `DescribeDecoding.SuffixSound` | main.go:185 | a matched optional prerelease and commits tail is well formed and renders back to the text |
| `DescribeDecoding.SuffixComplete` | main.go:185 | every well-formed suffix is matched back to itself; a prerelease starts with a letter and a count with a digit, so the reading is unique |
| `DescribeDecoding.MatchDescribe` | main.go:185-186 | a describe text that matches the whole pattern is the rendering of a well-formed decoded value |
| `DescribeDecoding.DescribeComplete` | main.go:185-186 | every well-formed `vX.Y.Z[-pre][-N-gHASH]` text matches, and gives back exactly its parts |
| `DescribeDecoding.MatchDefault` | main.go:200-201 | a default that matches `^(\d+)\.(\d+)\.(\d+)$` is three digit groups joined by dots |
| `DescribeDecoding.DefaultComplete` | main.go:200-205 | any three digit groups joined by dots match as those three groups |
| `DescribeDecoding.DecodeVersionInfo` | main.go:188-190 | the decoded info carries the given metadata and no timestamp |
| `DescribeDecoding.DecodeDescribed` | main.go:192-197 | a matching describe text gives major, minor, patch, prerelease and commits, but not the hash |
| `DescribeDecoding.DecodeDefault` | main.go:198-205 | a text that does not match falls back to an `X.Y.Z` default, split into its three parts |
| `DescribeDecoding.PlainDescribeExample` | main.go:184 | `v1.2.3` decodes as 1, 2, 3 with empty prerelease and commits |
| `DescribeDecoding.DescribeExample` | main.go:184 | `v0.1.0-beta1-5-g1a2b3c4` decodes as 0, 1, 0, prerelease `beta1`, 5 commits and hash `1a2b3c4` |
| `DescribeDecoding.GetVersion` | main.go:170-224 | the printed version has no two adjacent separators and does not end in `-` or `+` |
| `DescribeDecoding.DescribedVersion` | main.go:170-224 | a matching describe text with any ASCII white space before and after it is formatted with its parts, the timestamp when the tree is dirty, and the metadata |
| `DescribeDecoding.DescribedFullVersion` | main.go:170-224 | with `{version+}`, a tag `vX.Y.Z[-pre][-N-gHASH]`, with any white space around it, prints `X.Y.Z`, then `-pre`, `-N`, `-stamp` and `+metadata`, each only when present; for a stamp and metadata without `{` whose `-` and `+` stand alone between other characters |
| `DescribeDecoding.FailedDescribe` | main.go:176-181 | a failed `git describe` is read as the text `v` followed by the default |
| `DescribeDecoding.DescribeLikeDefault` | main.go:176-197 | when git fails, a default that reads as a describe text after a `v` is decoded by the describe pattern |
| `DescribeDecoding.PrereleaseDefaultExample` | main.go:176-197 | the default `1.2.3-rc1` gives 1, 2, 3 and the prerelease `rc1` |
| `DescribeDecoding.UntaggedVersion` | main.go:176-212 | when git fails and the default is `X.Y.Z`, `{version+}` prints the default, then the stamp and the metadata when present; for a stamp and metadata as in `DescribedFullVersion` |
| `DescribeDecoding.DecodeFallback` | main.go:198-211 | whatever text is decoded, when it does not match the describe pattern and the default does not match `X.Y.Z`, the default is the major part and every other part is empty |
| `DescribeDecoding.FallbackVersion` | main.go:174-211 | whether git succeeded or failed, when neither the decoded text nor the default matches its pattern, the version is formatted with the default as the major part and empty minor and patch |
| `DescribeDecoding.NonStandardDefault` | main.go:174-211 | such a default without `-`, `+` or braces prints with `{version+}` as itself followed by `..`, then the stamp and the metadata when present, for a stamp and metadata as in `DescribedFullVersion` |

## Left out

- `src/main/java/vermouth/maven/Parser.java` is not part of this model. It reads a POM file through DOM and XPath libraries, and only hands a string to `Version.parse`.
- The stream and file entry points are not modelled: `Parser.parse(String/File/InputStream)`, `properties(InputStream)` and the `Serializer.serialize` overloads. The text formats of `Properties.load` and `Properties.store`, the swallowed exceptions and the stream closing go with them. A table is modelled as a map from keys to values.
- The commented-out loader code in `Version.java` is not modelled.
- Running `git describe` and `git status` is process I/O. It is an input instead:
  - the describe output is `Some(text)`, or `None` when the command fails;
  - the timestamp is `Some(stamp)` when the working tree has uncommitted changes, or `None` otherwise.
- `time.Now().Format` reads the clock and uses Go's time-layout engine, so its result is an input too.
- `convertTimeFormat` is modelled, but the stamp it would feed is not computed.
- `main`'s argument loop, `--version` and `printHelp` are command-line plumbing and are not modelled. The help's five format examples are proved as lemmas (`FormatFullVersion`, `FormatPrefixedFullVersion`, `FormatPrefixedVersion`, `FormatMajorMinor`, `FormatSnapshot`).
- `GoStrings.TrimSpace`: trims ASCII white space only. Go's `strings.TrimSpace` also trims Unicode white space.
- `JavaLang.ParseInt`: accepts ASCII digits only. `Integer.parseInt` also accepts other Unicode decimal digits.
- `PropertiesParser.Valid`: does not model the null argument. Java `Properties` lookups with a non-null default never return null, so `valid` never sees one from `parse`.
- `Versions.EqualsObject`: run-time classes are modelled as four cases: a `Version`, a `String`, a boxed `Integer` and any other object.
- The serializer's input is a five-field record: major, minor, patch, qualifier and metadata. `Version.java` has no qualifier or metadata accessors.
- Several test assertions target API that `Version.java` does not define: qualifier and metadata accessors, a five-argument constructor, `greater`/`lesser`, `load`/`store` and prerelease precedence. They are not attributed to this model.
