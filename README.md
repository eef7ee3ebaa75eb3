# apt-client, modelled in Dafny

This project models the core of apt-client, a TypeScript client for Debian APT repositories. It covers five pieces:

- **Version comparison** (`src/version_cmp.ts`, `version_cmp.dfy`). A version is broken into epoch, upstream version and Debian revision, and the characters are checked. The upstream and revision parts are compared run by run: digit runs by value, other runs by a lexical order in which letters sort first and `~` sorts before everything, even the end of the part.
- **Index reading** (`src/aptreader.ts`):
  - `record_reader.dfy` is the byte-level record reader `iterRecords` and `buf2string`. It turns chunks of a `Packages`/`Sources` file into `field: value` records and paragraph boundaries.
  - `field_values.dfy` and `contact_info.dfy` hold the value parsers of the dispatch table: `commas`, `splitspace`, `splitlines`, `multiline`, `parseInt`, `filespecs`, `toContactInfo` and `multiContactInfo`.
  - `index_builder.dfy` is `parseIndex`, which folds the records into package descriptions. It also has the part of `readAptSource` that turns a `sources.list` line into index URLs.
- **The client cache** (`src/index.ts`, `apt_client.dfy`). The class `AptClient` keeps two maps, from package name to description, one for binary and one for source packages. Each entry has an artifact slot that is filled on first request. A third map holds, per source line, the time and records of its last read. The class answers "is this the latest version" questions.
- **The inflate stream constructor** (`src/inflate/zlib/zstream.ts`, `zstream.dfy`). It decodes the `windowBits` argument into a wrapper mode and a window size, or refuses it. The wrapper mode is the zlib format of RFC 1950, the gzip format of RFC 1952, both, or raw DEFLATE of RFC 1951.
- `text.dfy` holds JavaScript's whitespace class and `String.prototype.trim`/`split`. `wrappers.dfy` holds `Option` and `Result`.

JavaScript's `NaN` result of a subtraction is the `NaN` constructor of `VersionCmp.Cmp`. A `throw` is a `Failure` or `None` result, so each error path is a value the caller can inspect. The network, the clock and decompression are parameters:

- `get` maps an index URL to its chunks, or to `None` when both fetches fail.
- `fetch` maps an artifact URL to its bytes.
- `now` stands for `Date.now()`.

Where the source is a loop or changes state, the model is a method proved against the function that specifies it. This covers `splitCharTypes`, `vstrcmp`, `cmpVersionPart`, `buf2string`, `iterRecords`, `filespecs`, `multiContactInfo`, `parseIndex`, `readAptSource`, the client's methods and the stream constructor.

## Model

| member | source | states |
|---|---|---|
| VersionCmp.SplitCharTypes | src/version_cmp.ts:11-23 | the generator yields exactly `Runs(s)`: alternating digit and non-digit runs, the digit run first |
| VersionCmp.RunsFromConcat | src/version_cmp.ts:11-23 | the runs put back together give the string |
| VersionCmp.RunsFromKinds | src/version_cmp.ts:17-19 | run k is all digits when k is even and holds no digit when k is odd |
| VersionCmp.RunsFromNonEmpty | src/version_cmp.ts:12-16 | only the first run can be empty, and then it is a digit run |
| VersionCmp.LeadingZeroIgnored | src/version_cmp.ts:143 | a leading zero does not change the value of a digit run |
| VersionCmp.Vstrcmp | src/version_cmp.ts:33-63 | the loop returns `VStrCmp(a, b)` |
| VersionCmp.VStrCmpIsRankOrder | src/version_cmp.ts:25-27 | vstrcmp compares the first differing position by rank: `~` lowest, then end of string, letters, other characters |
| VersionCmp.VStrCmpSwap | src/version_cmp.ts:33-63 | swapping the arguments flips the sign |
| VersionCmp.VStrCmpZeroIffEqual | src/version_cmp.ts:33-63 | vstrcmp is 0 exactly when the strings are equal |
| VersionCmp.VStrCmpTransitive | src/version_cmp.ts:33-63 | a negative result is transitive |
| VersionCmp.VStrCmpExamples | test/version-sort-test.js:9-27 | the tilde, letter and end-of-part orderings of the test suite |
| VersionCmp.CmpVersionPart | src/version_cmp.ts:129-146 | the lockstep loop over both run generators returns `PartCmp(a, b)` |
| VersionCmp.PartCmpFromReflexive | src/version_cmp.ts:129-146 | a part compares equal to itself |
| VersionCmp.PartCmpSwap | src/version_cmp.ts:129-146 | swapping the parts negates a numeric result and keeps NaN |
| VersionCmp.PartCmpFromNaN | src/version_cmp.ts:141-143 | NaN needs run sequences of different lengths, the shorter of even length: a digit run is missing on one side only |
| VersionCmp.PartCmpNaNNeedsRunCountMismatch | src/version_cmp.ts:141-143 | NaN needs run counts that differ, the smaller even; any other result equals the corrected comparison |
| VersionCmp.PartCmpFromAgreesWithFixed | src/version_cmp.ts:126 | whenever the as-written result is a number, it equals the comparison that counts a missing run as zero |
| VersionCmp.PartCmpNaNExamples | src/version_cmp.ts:141-143 | `1a` against `1a1`, and the empty part against `1`, give NaN |
| VersionCmp.SplitJoins | src/version_cmp.ts:74-102 | the epoch text, upstream, hyphen and revision that the split finds put back together give the string |
| VersionCmp.SplitOfJoin | src/version_cmp.ts:74-102 | splitting a joined version gives back its pieces: the last hyphen separates the revision |
| VersionCmp.BreakVersionRoundTrip | src/version_cmp.ts:65-118 | breakVersionString of a well-formed joined version returns its decimal epoch, upstream and revision |
| VersionCmp.BreakVersionBadUpstream | test/version-sort-test.js:81-83 | `0?` is refused as an invalid upstream version |
| VersionCmp.BreakVersionBadRevision | test/version-sort-test.js:85-87 | `1-0?` is refused as an invalid revision |
| VersionCmp.BreakVersionColonWithoutEpoch | test/version-sort-test.js:89-91 | `a:0` is refused: a colon without an epoch |
| VersionCmp.BreakPlainVersion | src/version_cmp.ts:112-117 | a version without epoch or hyphen has epoch 0 and an empty revision |
| VersionCmp.VersionCmpReflexive | test/version-sort-test.js:75-77 | every valid version compares equal to itself |
| VersionCmp.VersionCmpSwap | test/version-sort-test.js:68-72 | swapping two valid versions negates a numeric result |
| VersionCmp.VersionCmpNumericRuns | test/version-sort-test.js:36 | version_cmp(`1.10.0`, `1.9.0`) is 1 and the reverse is negative: digit runs compare by value |
| VersionCmp.PartCmpDotted | src/version_cmp.ts:141-144 | dotted triples that share their first run compare by the value of the middle run |
| VersionCmp.VersionCmpEpochFirst | test/version-sort-test.js:61 | version_cmp(`2:1.2`, `1:1.2`) is 1 and the reverse is negative: the epoch decides first |
| VersionCmp.VersionCmpRevisionOverNone | src/version_cmp.ts:158-163 | for any valid epoch (written or not) and upstream, the version with a non-empty revision compares 1 against the one without, and -1 the other way round |
| VersionCmp.VersionCmpRevisionAfterNone | test/version-sort-test.js:65 | version_cmp(`3:1.1235-~`, `3:1.1235`) is 1 and the reverse is negative |
| VersionCmp.VersionCmpPlain | src/version_cmp.ts:148-155 | versions without epoch or revision compare as their upstream parts |
| VersionCmp.RunsOfConcat | src/version_cmp.ts:11-23 | runs of the shape splitCharTypes yields, put together, split back into the same runs |
| VersionCmp.RunsFromAppend | src/version_cmp.ts:11-23 | a string followed by text that starts with the other kind of character splits into the string's runs, then the text's |
| VersionCmp.RunsFromParity | src/version_cmp.ts:11-23 | a string has an odd number of runs exactly when its first and last runs are of the same kind |
| VersionCmp.PartCmpFromCommonRuns | src/version_cmp.ts:133-145 | runs that both parts share at the start are passed over |
| VersionCmp.PartCmpFromShift | src/version_cmp.ts:133-145 | what follows shared leading runs compares the same after any shared runs of the same parity |
| VersionCmp.PartCmpSharedPrefix | src/version_cmp.ts:129-146 | a prefix two parts share matters only through its last character, when what follows it starts a new run on both sides |
| VersionCmp.PartCmpDecidedBy | src/version_cmp.ts:129-146 | two parts with a shared start compare as the runs that follow the start's last character |
| VersionCmp.PartCmpLongerPart | src/version_cmp.ts:129-146 | a part ending in a digit, extended by text that starts with a non-digit, compares 1 against the part alone, or -1 when the text starts with `~` |
| VersionCmp.SortsAfterOfPieces | src/version_cmp.ts:148-166 | two well-formed versions whose parts compare positively give a positive result one way and a negative one the other |
| VersionCmp.SortsAfterByUpstream | src/version_cmp.ts:153-157 | with equal epoch values, the upstream parts decide both directions |
| VersionCmp.SortsAfterByRevision | src/version_cmp.ts:159-165 | with the same epoch and upstream and two revisions, the revisions decide both directions |
| VersionCmp.SortsAfterPlain | src/version_cmp.ts:148-157 | versions without epoch or revision: version_cmp is the comparison of the runs after their shared start, in both directions |
| VersionCmp.SortsAroundPlainSuffix | src/version_cmp.ts:148-157 | a plain version extended after its last digit run by text that starts with a non-digit sorts after it, or before it when the text starts with `~` |
| VersionCmp.SortsAroundRevisionSuffix | src/version_cmp.ts:159-165 | the same for a revision extended after its last digit run |
| VersionCmp.VersionCmpZeroMajor | test/version-sort-test.js:33 | `0.3.0` is earlier than `1.9.0`, both ways |
| VersionCmp.VersionCmpMajorLater | test/version-sort-test.js:34 | `2.9.0` is later than `1.9.0`, both ways |
| VersionCmp.VersionCmpMajorBeforeMinor | test/version-sort-test.js:35 | `2.9.0` is later than `1.10.0`, both ways |
| VersionCmp.VersionCmpValueNotLength | test/version-sort-test.js:45 | `333` is later than `22.2`, both ways |
| VersionCmp.VersionCmpRevisionLetter | test/version-sort-test.js:46 | `0-b` is later than `0-a`, both ways |
| VersionCmp.VersionCmpUpstreamLetter | test/version-sort-test.js:47 | `0b-0` is later than `0a-0`, both ways |
| VersionCmp.VersionCmpPatchLater | test/version-sort-test.js:48 | `1.0.1` is later than `1.0.0`, both ways |
| VersionCmp.VersionCmpMinorLater | test/version-sort-test.js:49 | `1.1.0` is later than `1.0.0`, both ways |
| VersionCmp.VersionCmpMinorOverPatch | test/version-sort-test.js:50 | `1.1.0` is later than `1.0.1`, both ways |
| VersionCmp.VersionCmpPatchLaterOnMinor | test/version-sort-test.js:51 | `1.1.1` is later than `1.1.0`, both ways |
| VersionCmp.VersionCmpTildeBeforeEnd | test/version-sort-test.js:52 | `1.0.0` is later than `1.0.0~rc1`, both ways |
| VersionCmp.VersionCmpTildeRuns | test/version-sort-test.js:53 | `1.0.0~rc2` is later than `1.0.0~rc1`, both ways |
| VersionCmp.VersionCmpPlusAfterEnd | test/version-sort-test.js:54 | `1.0.0~rc2+v1` is later than `1.0.0~rc2`, both ways |
| VersionCmp.VersionCmpLastDigitRun | test/version-sort-test.js:55 | `1.0.1~rc2+v2` is later than `1.0.1~rc2+v1`, both ways |
| VersionCmp.VersionCmpLongerDigitRun | test/version-sort-test.js:56 | `1.0.0+v10` is later than `1.0.0+v1`, both ways |
| VersionCmp.ElevenAfterTen | test/version-sort-test.js:57 | the upstream `2.11` is decided against `2.10` by its last digit run, 11 against 10 |
| VersionCmp.VersionCmpUpstreamOverRevision | test/version-sort-test.js:57 | `2.11-9` is later than `2.10-18+deb7u4`, both ways |
| VersionCmp.VersionCmpRevisionPlusSuffix | test/version-sort-test.js:58 | `2.11-18+deb7u4` is later than `2.11-18`, both ways |
| VersionCmp.VersionCmpRevisionTildeSuffix | test/version-sort-test.js:59 | `2.11-18` is later than `2.11-18~deb7u4`, both ways |
| VersionCmp.VersionCmpUpstreamOverTilde | test/version-sort-test.js:60 | `2.11-18~deb7u4` is later than `2.10-18`, both ways |
| VersionCmp.UpstreamAfterByOne | test/version-sort-test.js:62 | the upstream `1.1235` is decided against `1.1234` by its last digit run |
| VersionCmp.VersionCmpUpstreamWithEpoch | test/version-sort-test.js:62 | `2:1.1235-1` is later than `2:1.1234-4`, both ways |
| VersionCmp.VersionCmpEpochOverUpstream | test/version-sort-test.js:63 | `3:1.1235-1` is later than `2:1.1234-4`, both ways |
| VersionCmp.VersionCmpRevisionOverNoneExample | test/version-sort-test.js:64 | `3:1.1235-4` is later than `3:1.1235`, both ways |
| VersionCmp.VersionCmpIdentical | test/version-sort-test.js:76 | version_cmp(`0:1-2`, `0:1-2`) is 0 |
| VersionCmp.VersionCmpFixedIsTotalPreorder | src/version_cmp.ts:126 | the corrected comparison is zero on equal versions, negates when the arguments are swapped, and its signs are transitive over any three valid versions |
| VersionCmp.VersionCmpAgreesWithFixed | src/version_cmp.ts:148-166 | whenever version_cmp gives a number, the corrected comparison gives the same number |
| VersionCmp.VersionCmpNaNExample | src/version_cmp.ts:141-143 | version_cmp(`1a`, `1a1`) is NaN while the corrected comparison is -1 |
| ByteRecords.Latin1Append | src/aptreader.ts:239-249 | decoding bytes one char per byte distributes over concatenation |
| ByteRecords.Latin1Injective | src/aptreader.ts:245 | different byte strings decode to different strings |
| ByteRecords.Buf2String | src/aptreader.ts:239-249 | the strided loop returns the Latin-1 decoding of the first `len` bytes (the typed array clamps at its length) |
| ByteRecords.RecordsWellFormed | src/aptreader.ts:279-292 | every field yielded has a non-empty name without `-`, `:` or newline, and a value no longer than the 32768-byte buffer |
| ByteRecords.ChunkSplit | src/aptreader.ts:258-318 | reading `b1 + b2` as one chunk is reading `b1`, then continuing in `b2` from where `b1` stopped |
| ByteRecords.ChunkSplitClean | src/aptreader.ts:258-318 | when `b1` ends cleanly, one chunk `b1 + b2` yields the same records and state as the chunks `b1`, `b2` |
| ByteRecords.FeedSplitClean | src/aptreader.ts:258-318 | in that case splitting a chunk in two does not change the record stream |
| ByteRecords.ChunkSplitAfterColon | src/aptreader.ts:286-291 | a colon at the end of a chunk skips a byte past the chunk, so the next chunk's first byte is kept in the value |
| ByteRecords.ChunkSplitLosesNewline | src/aptreader.ts:261-270 | a newline at the end of a chunk that is followed by a continuation byte is dropped from the value |
| ByteRecords.ExampleWhole | src/aptreader.ts:251-321 | `A: v\n` yields the field `A` with value `v` |
| ByteRecords.ExampleBlankLine | src/aptreader.ts:296-300 | a blank line yields a boundary, and the final flush repeats the last field with an empty value |
| ByteRecords.ExampleNameWithoutColon | src/aptreader.ts:280-284 | a line without a colon is dropped |
| ByteRecords.ExampleContinuation | src/aptreader.ts:306-313 | a continuation line is kept in the value with its newline |
| ByteRecords.ExampleSplitAfterColon | src/aptreader.ts:286-291 | `A:` and ` v` plus a newline as two chunks yield A with the value ` v`: the space after the colon is kept |
| ByteRecords.ExampleChunkEndsInNewline | src/aptreader.ts:261-270 | a chunk `A: x` plus a newline ends with the newline pending and no record yielded yet |
| ByteRecords.ExampleSplitLosesNewline | src/aptreader.ts:261-270 | the same value split after its newline loses the newline |
| ByteRecords.ExampleEmptyChunk | src/aptreader.ts:261-268 | an empty chunk after a trailing newline joins the next line onto the value |
| ByteRecords.Reader.FeedChunk | src/aptreader.ts:258-318 | one iteration of the outer loop moves the reader to `Chunk(old state, buf)` and yields its records |
| ByteRecords.Reader.Finish | src/aptreader.ts:320 | the final flush yields the pending field, if any |
| ByteRecords.IterRecords | src/aptreader.ts:251-321 | the generator, run over all chunks, yields exactly `Records(chunks)` |
| FieldValues.CommasItems | src/aptreader.ts:178-180 | every item of `commas` is non-empty, trimmed and holds no comma |
| FieldValues.CommasOfJoin | src/aptreader.ts:178-180 | `commas` of items joined by `, ` gives the items back |
| FieldValues.SplitSpaceWords | src/aptreader.ts:162-164 | every word of `splitspace` is non-empty and holds no whitespace |
| FieldValues.SplitSpaceOfJoin | src/aptreader.ts:162-164 | `splitspace` of words joined by a space gives the words back |
| FieldValues.SplitLinesHaveNoNewline | src/aptreader.ts:166-168 | no line of `splitlines` holds a newline |
| FieldValues.SplitLinesOfJoin | src/aptreader.ts:166-168 | `splitlines` of lines joined by newlines gives the lines back, when each later line starts with a non-space |
| FieldValues.MultilineKeepsInk | src/aptreader.ts:182-184 | `multiline` changes only whitespace and the lone `.` of a dot line |
| FieldValues.MultilineWithoutDot | src/aptreader.ts:182-184 | a text without `.` is unchanged |
| FieldValues.MultilineExample | src/aptreader.ts:183 | a line holding only ` .` becomes empty, other lines are kept |
| FieldValues.ParseIntOfDigits | src/aptreader.ts:191-192 | parseInt of a digit run followed by a non-digit is the run's decimal value |
| FieldValues.ParseIntNaN | src/aptreader.ts:191-192 | parseInt of an empty, sign-only or non-numeric text is NaN |
| FieldValues.FileSpecs | src/aptreader.ts:170-176 | the match loop returns `SpecsFrom(s, 0)`, one spec per line of three whitespace-separated words |
| FieldValues.SpecsFromShape | src/aptreader.ts:172-173 | every spec's hash and name are non-empty and hold no whitespace |
| FieldValues.SpecsOfListing | src/aptreader.ts:170-176 | `filespecs` of a listing of hash, size and name lines gives back those triples, with the size as a number |
| Contacts.StripNameIsTrim | src/aptreader.ts:131 | the name replacement on a text without quotes is `trim` |
| Contacts.StripNameUnquoted | src/aptreader.ts:131 | the name replacement leaves no double quote |
| Contacts.ToContactInfoOfFormat | src/aptreader.ts:127-132 | `name <email>` reads back as that contact |
| Contacts.ToContactInfoOfBracket | src/aptreader.ts:127-131 | a single line `u<v>` with `u` non-empty and no angle bracket in `v` reads as the name `u` without quotes and outer whitespace, and the address `v` trimmed |
| Contacts.ToContactInfoTakesLastBracket | src/aptreader.ts:128 | the greedy `(.*)?` makes the last `<...>` on the line the address |
| Contacts.ToContactInfoWithoutName | src/aptreader.ts:128-131 | `<email>` alone throws: the optional name group is undefined |
| Contacts.ToContactInfoOfAddress | src/aptreader.ts:134-135 | a single word holding `@` inside, with whitespace around it, is read as that email with an empty name |
| Contacts.ToContactInfoOfName | src/aptreader.ts:138 | a text without `<`, `@` or double quote is all name, trimmed, with an empty email |
| Contacts.SplitQuotedJoins | src/aptreader.ts:146-156 | the pieces cut at unquoted commas put back together give the text |
| Contacts.SplitQuotedOfJoin | src/aptreader.ts:146-156 | pieces without unquoted commas joined by `,` are cut back into those pieces |
| Contacts.CollectFails | src/aptreader.ts:149-157 | the list throws exactly when one of its contacts throws |
| Contacts.MultiContacts | src/aptreader.ts:141-160 | the loop returns `MultiContactInfo(x)` |
| Contacts.MultiContactInfoOfListed | src/aptreader.ts:141-160 | a comma-joined list of `name <email>` contacts reads back as that list |
| Contacts.MultiContactInfoQuotedComma | src/aptreader.ts:147-148 | a comma inside double quotes does not split |
| Contacts.MultiContactInfoDropsBlankTail | src/aptreader.ts:156-157 | a whitespace-only rest after the last comma is dropped |
| Contacts.MultiContactInfoKeepsEmptyTail | src/aptreader.ts:156-157 | an empty rest after the last comma is kept as an empty contact |
| PackageIndex.ApplyParser | src/aptreader.ts:190-237 | the table's parser applied to a value, with the loop-based parsers run as methods, equals `Apply` |
| PackageIndex.ParseIndex | src/aptreader.ts:323-343 | the loop over the records returns the fold of `Records(chunks)` from a fresh description onto `pkgs` |
| PackageIndex.FoldIsPackages | src/aptreader.ts:329-342 | the fold is the caller's list followed by one description per paragraph that names a package |
| PackageIndex.ParseIndexAppends | src/aptreader.ts:323-343 | parseIndex only appends: the list it is given comes back as a prefix |
| PackageIndex.AssignFrame | src/aptreader.ts:336-338 | a field touches only its own key |
| PackageIndex.AssignOverwrites | src/aptreader.ts:338 | a repeated field keeps its last value |
| PackageIndex.AssignTrims | src/aptreader.ts:338 | an identity field stores its trimmed value |
| PackageIndex.PackagesShape | src/aptreader.ts:329-334 | every description pushed names a package and keeps the `type` of the index it came from |
| PackageIndex.SplitAtSpacesOfJoin | src/aptreader.ts:346 | splitting at each whitespace character gives back tokens joined by single spaces |
| PackageIndex.IndexFilesOfDeb | src/aptreader.ts:347-353 | a `deb` line gives one `binary-<arch>/Packages` URL per component, of kind `bin` |
| PackageIndex.IndexFilesOfOther | src/aptreader.ts:347-353 | any other line gives one `source/Sources` URL per component, of kind `src` |
| PackageIndex.IndexFilesWithoutComponents | src/aptreader.ts:346-352 | a line without components reads no index |
| PackageIndex.ReadAptSource | src/aptreader.ts:345-371 | the per-component loop returns `ReadFiles(IndexFiles(spec, arch), get, [])` |
| PackageIndex.ReadFilesShape | src/aptreader.ts:352-367 | every description read names a package and has a `type` |
| AptClient.StoreAllIsLastWriteWins | src/index.ts:44-46 | after storing records, each map holds a name exactly when a record of its kind has that name, and it holds the last such record with an empty slot |
| AptClient.StoreAllAppend | src/index.ts:44-52 | storing two lists one after the other is storing their concatenation |
| AptClient.UpdateWithoutCache | src/index.ts:47-53 | without a positive finite cache time every source is read and stamped, and the result is all records stored in order |
| AptClient.UpdateFreshKeepsAll | src/index.ts:37-38 | when every source is fresh and `clear` is false, update changes nothing |
| AptClient.UpdateFreshRestores | src/index.ts:37-39 | when every source is fresh and `clear` is true, the kept records are stored again |
| AptClient.UpdateSourceStamps | src/index.ts:40-43 | a source that is not fresh is read: a failed read changes nothing and reports false; a successful one stamps the source with `now` and its records |
| AptClient.Client.Update | src/index.ts:13-61 | an update after a failed one throws and changes nothing; otherwise the maps are cleared if asked, then every source is updated in order |
| AptClient.Client.GetPkgInfo | src/index.ts:63-83 | the two result maps hold the requested names found in each map, with their descriptions |
| AptClient.FillBinFetchesOnce | src/index.ts:93-96 | filling keeps every entry's description; a requested slot keeps its bytes or is fetched from `RepoBase/Filename` when empty; other slots are unchanged |
| AptClient.FillBinIsMemo | src/index.ts:93-96 | asking again fetches nothing new |
| AptClient.Client.GetBinFiles | src/index.ts:85-102 | the requested binary slots are filled, the result holds their bytes, and nothing else changes |
| AptClient.FillSrcFetchesFiles | src/index.ts:112-118 | an empty source slot is filled with exactly the listed file names, each fetched from `RepoBase/Directory/name` |
| AptClient.FillSrcIsMemo | src/index.ts:112-118 | asking again fetches nothing new |
| AptClient.Client.GetSrcFiles | src/index.ts:104-125 | the slots before the first package without `Files` are filled, and that package makes it throw; otherwise the result holds every requested slot |
| AptClient.Client.FillSlot | src/index.ts:109-119 | an empty slot of a requested source package is filled from its `Files` listing, a filled slot is kept, and an empty slot without `Files` throws and changes nothing |
| AptClient.Latest | src/index.ts:127-131 | an answer comes exactly when no comparison throws; apart from a NaN comparison it is "no tracked entry is newer than the given version", which is what areAllLatest answers for that query alone; on NaN it is false while areAllLatest is true |
| AptClient.LatestOfOwnVersion | src/index.ts:127-131 | a package asked about with its own valid version is latest |
| AptClient.LatestPrefersBin | src/index.ts:128 | a binary package hides a source package of the same name |
| AptClient.LatestAgreesWithFixed | src/index.ts:130 | whenever the comparison is a number, isLatest agrees with the corrected comparison |
| AptClient.Client.IsLatest | src/index.ts:127-131 | over the cached packages: an answer exactly when no comparison throws, "no tracked entry is newer" apart from NaN, equal to areAllLatest on the query alone apart from NaN, and false on NaN |
| AptClient.Client.AreLatest | src/index.ts:133-139 | yields one `Latest` answer per query in order, and stops at the first query whose comparison throws |
| AptClient.Client.AreAllLatest | src/index.ts:141-151 | returns `AllLatest` of the current state |
| AptClient.AllLatestIsNoneNewer | src/index.ts:141-151 | when no comparison throws, areAllLatest is true exactly when no stored version is newer than its query |
| AptClient.AllLatestDisagreesOnNaN | src/index.ts:130 | for a stored `1a` asked about `1a1`, isLatest is false while areAllLatest is true |
| AptClient.LatestOnNaN | src/index.ts:127-151 | whenever the stored version compares to the query as NaN, isLatest answers false while areAllLatest on that query alone answers true |
| ZStreams.DecodeAcceptsExactly | src/inflate/zlib/zstream.ts:44-56 | the arguments accepted are exactly -15..-8 and those in 0..47 whose low four bits are 0 or 8..15 |
| ZStreams.DecodeRefusesLarge | src/inflate/zlib/zstream.ts:50-56 | every argument of 48 or more is refused |
| ZStreams.DecodeNegative | src/inflate/zlib/zstream.ts:45-47 | a negative argument asks for raw DEFLATE with window `-windowBits` |
| ZStreams.DecodeEncode | src/inflate/zlib/zstream.ts:44-60 | decoding the argument that asks for a valid window gives that window |
| ZStreams.EncodeDecode | src/inflate/zlib/zstream.ts:44-60 | every accepted argument is the one that asks for the window it decodes to |
| ZStreams.InitialAdler | src/inflate/zlib/zstream.ts:62-64 | the checksum starts at 1 exactly for the zlib wrapper modes (1 and 3) |
| ZStreams.DecodeAutoDetect | src/inflate/index.ts:9 | the argument 47 gives wrapper mode 3 (zlib or gzip), a 32K window and an initial checksum of 1 |
| ZStreams.NewZStream | src/inflate/zlib/zstream.ts:40-65 | null exactly when the argument is refused; otherwise a fresh stream holding the decoded window, the initial checksum, and the defaults of `src/inflate/zlib/gzstate.ts` |
| Text.TrimOfPadded | src/aptreader.ts:338 | trim removes exactly the whitespace around a trimmed text |
| Text.TrimIdempotent | src/aptreader.ts:179 | trimming twice is trimming once |
| Text.JoinSplits | src/aptreader.ts:179 | splitting pieces joined by a separator they do not contain gives them back |

## Left out

- The network and decompression. The HTTP fetches become parameters: `get` for index files (`None` when both the plain and the `.gz` fetch fail) and `fetch` for artifacts. The DEFLATE decoder behind `inflate` is not part of this model; only its stream constructor is.
- Concurrency. `readAptSource` parses components, and `update` reads sources, one after the other in list order. In the source they run concurrently, so the order in which the parsed lists are appended, and the order of `set` calls on the maps, depends on completion order. After one source fails, the sources still in flight would keep updating the maps in the background; the model applies every source before reporting the failure.
- AptClient.Client.Update: the caller passes the sources, architecture, cache time and `clear` explicitly; the defaults from the constructor are not applied. `Date.now()` is the parameter `now`.
- AptClient.Client.Update: the cache time is an integer `ttl`. Any `ttl <= 0` means "never cache", and so does a non-finite `cachetime` (`+Infinity`, `-Infinity`, `NaN`). A fractional positive `cachetime` is not modelled.
- ZStreams.NewZStream: `windowBits` is an integer. `NaN`, fractional arguments and the 32-bit conversion that `>>` applies to arguments of 2^31 and more are not modelled (every argument of 48 or more is refused anyway).
- ZStreams.NewZStream: `src/inflate/zlib/zstream.ts:23` imports `GZstate` as a default export, while `src/inflate/zlib/gzstate.ts` exports the class only by name; the model assumes the import resolves to that class.
- ZStreams.NewZStream: the `head` (gzip header) and `next` fields of the decoder state are not modelled, and the code-length buffers are `int` arrays rather than 16-bit arrays.
- Numbers are unbounded integers. The source's floating-point epochs, `parseInt` results and sizes lose precision above 2^53; this is not modelled.
- Keys of the dispatch table are looked up in the table only. A field named after an `Object.prototype` member (such as `constructor`) would find that member in the source.
- PackageIndex.ParseIndex: values under keys parsed by `id` are always text. The cast-away types that would let another parser's output reach `Version`, `Package` or `Filename` do not arise.
- VersionCmp.VStrCmpIsRankOrder: strings are sequences of Unicode characters compared by code point, while the source compares UTF-16 code units; the two orders differ only for characters above U+FFFF, which never pass the version character checks.

## Findings

| source | as written | input that shows it | evidently intended | confidence | as-written member | corrected member |
|---|---|---|---|---|---|---|
| src/version_cmp.ts:141-143 | a digit run missing on one side is `+undefined`, so the subtraction gives NaN; NaN is returned as the comparison, and `< 1` and `> 0` are both false for it | `version_cmp("1a", "1a1")` | the comment at line 126 says an empty string counts as zero, so the result should be -1 (`1a` before `1a1`) | high, not executed | VersionCmp.VersionCmpNaNExample | VersionCmp.VersionCmpFixedIsTotalPreorder |

The corrected comparison counts a missing digit run as zero. It is `VersionCmp.VersionCmpFixed`, built from `PartCmpFixed` and `RevisionCmpFixed`, and it is proved to be a total preorder. It agrees in sign with the as-written one wherever the as-written one gives a number (`VersionCmp.VersionCmpAgreesWithFixed`). The client queries keep the as-written comparison, because the way `isLatest` and `areAllLatest` disagree on NaN is behaviour of the client as written (`AptClient.AllLatestDisagreesOnNaN`). `AptClient.LatestAgreesWithFixed` states that the client follows the corrected comparison everywhere else.
