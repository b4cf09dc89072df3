# Company-name deduplication, modelled in Dafny

This project models the core of a company-name deduplicator. Each raw line
(a company name) is turned into a key. Lines are grouped by key, and each
group keeps every distinct original with its number of occurrences. Views
over the groups then list potential duplicates or uniques.

The repository has two engines, and both are modelled:

- **The generic engine** (`StringDeduperBuilder`) is modules `StringDeduper`,
  `Suffixes`, `LengthIndex`, `GroupingStore`, `GroupViews`, `EditDistance`
  and `StringUtility`. It covers:
  - configuration: a normalize strategy, ignored suffixes, and fuzzy matching
    with its argument checks;
  - `Build`, which normalizes and sorts the suffixes;
  - key derivation: normalize, then one ordered pass of suffix trimming;
  - optional fuzzy key resolution. The engine scans a length-bucketed index
    of the stored keys, in ascending length and in insertion order within
    a length, and keeps the first neighbour accepted by the Levenshtein or
    Bitap matcher;
  - the grouping store;
  - the `GetDuplicates` and `GetUniques` views, and `ClearMemory`.
- **The original, fixed engine** (`CompanyNameDeduper`) is modules
  `CompanyNames`, `CompanyNameDeduper`, `CompanyNameExamples` and
  `CompanyEngines`. It covers:
  - the cleaning: ASCII lowercase, then every character outside `[a-z0-9]`
    removed;
  - the hard-coded company suffix list;
  - the admission checks of the read loop;
  - the store update;
  - the filter and line emission of the export;
  - `ClearMemory`.
- **The Bitap search kernel** (`StringUtility.SearchString`) is written
  twice:
  - as a functional specification (`Search`: the first start at which the
    pattern differs from the text in at most k positions);
  - as an imperative loop over 32-bit rows, proved to compute exactly that.

Modelling choices:

- The C# dictionaries and hash sets are insertion-ordered sequences. Entries
  are never removed, only cleared, so sequence order is enumeration order.
- Both engines are immutable values. Reading or importing is a left fold over
  the lines, and every view is a function returning the emitted lines.
- A 32-bit row is a `seq<bool>` of 32 bits, bit 0 first.
- The Levenshtein distance of the external library is the recursive
  definition `EditDistance.Distance`.
- `CompanyEngines` relates the two engines. The generic engine, configured
  with the cleaning as its normalize strategy and the company suffixes,
  derives the same keys as the original engine. The two differ only on lines
  the original engine does not admit.

## Model

| member | source | states |
|---|---|---|
| StringDeduper.UseFuzzyMatching | StringDeduper/StringDeduperBuilder.cs:49-58 | Succeeds exactly when both limits are at least 1. A minimum length below 1 is reported first, then a deviation below 1. On success, only the strategy and the two limits change. |
| StringDeduper.Build | StringDeduper/StringDeduperBuilder.cs:68 | The prepared suffixes are sorted descending and are a permutation of the suffixes mapped through the normalize strategy. Nothing else changes. |
| StringDeduper.BuildIsDetermined | StringDeduper/StringDeduperBuilder.cs:68 | Any descending-sorted permutation of the normalized suffixes is exactly what `Build` produces. |
| StringDeduper.NormalizeAll | StringDeduper/StringDeduperBuilder.cs:68 | Every suffix is mapped through the normalize strategy (the identity when none is set), position by position. |
| StringDeduper.ImportKey | StringDeduper/StringDeduperBuilder.cs:83-93 | The key a line is stored under: `DeriveKey`, then fuzzy resolution. No ensures of its own; see DeriveKey, ResolveKeyOutcome and CompanyEngines.SameKeysAsOriginal. |
| StringDeduper.DeriveKey | StringDeduper/StringDeduperBuilder.cs:83-88 | The key before fuzzy resolution is a prefix of the normalized line. |
| Suffixes.TrimOnce | StringDeduper/StringDeduperBuilder.cs:88 | A key ending with the suffix loses exactly that suffix; any other key is unchanged. |
| Suffixes.TrimSuffixes | StringDeduper/StringDeduperBuilder.cs:87-88 | The trimmed key is a prefix of the key it started from. |
| Suffixes.TrimSuffixesBound | StringDeduper/StringDeduperBuilder.cs:87-88 | Each suffix is removed at most once, so the key shrinks by at most the total suffix length. |
| Suffixes.TrimSuffixesSnoc | StringDeduper/StringDeduperBuilder.cs:87-88 | The pass is a left fold: one more suffix at the end trims the previous result once more. |
| Suffixes.TrimSuffixesAppend | StringDeduper/StringDeduperBuilder.cs:87-88 | Trimming with a concatenated list trims with the first list, then with the second. |
| Suffixes.TrimWithoutMatchesIsIdentity | StringDeduper/StringDeduperBuilder.cs:87-88 | When no suffix along the pass matches, the key is unchanged. |
| Strings.SortDescending | StringDeduper/StringDeduperBuilder.cs:68 | The result is sorted descending in ordinal order and is a permutation of the input. |
| Strings.SortedPermutationUnique | StringDeduper/StringDeduperBuilder.cs:68 | Two descending-sorted permutations of the same list are equal. |
| Strings.SortSortedIsIdentity | StringDeduper/StringDeduperBuilder.cs:68 | Sorting an already sorted list changes nothing. |
| Strings.OrdinalTransitive | StringDeduper/StringDeduperBuilder.cs:68 | The ordinal order used for sorting is transitive. |
| Strings.OrdinalAntisymmetric | StringDeduper/StringDeduperBuilder.cs:68 | The ordinal order is antisymmetric. |
| Strings.OrdinalTotal | StringDeduper/StringDeduperBuilder.cs:68 | Any two strings are ordinally comparable. |
| LengthIndex.AddKey | StringDeduper/StringDeduperBuilder.cs:257-267 | The key joins its length's bucket with set semantics. Every other bucket is unchanged, and duplicate-free buckets stay duplicate-free. |
| LengthIndex.AddKeyMirrors | StringDeduper/StringDeduperBuilder.cs:249 | If every bucket holds exactly the stored keys of its length in store order, it still does after a key is stored and added: a new key joins the end of its bucket, a known key changes nothing. |
| LengthIndex.FirstAcceptedIsEarliest | StringDeduper/StringDeduperBuilder.cs:171-175 | On a mirroring index, the first neighbour a test accepts was stored before every other accepted key of its length (the hash set enumerates in insertion order). |
| LengthIndex.Neighbors | StringDeduper/StringDeduperBuilder.cs:184-190 | The lazily enumerated neighbours, as the scan over the length window. No ensures of its own; see NeighborsAreKeysInRange, ScanAscending and FirstAcceptedIsEarliest. |
| LengthIndex.Scan | StringDeduper/StringDeduperBuilder.cs:186-189 | The scan yields exactly the keys of the buckets from the lower to the upper length. |
| LengthIndex.ScanAscending | StringDeduper/StringDeduperBuilder.cs:186 | Buckets are scanned in ascending length, so the yielded keys are ordered by length. |
| LengthIndex.NeighborsAreKeysInRange | StringDeduper/StringDeduperBuilder.cs:184-190 | The neighbours are exactly the stored keys whose length lies in [max(1, length − deviation), length + deviation], in ascending length. No empty key is ever a neighbour. |
| StringDeduper.TextAndPattern | StringDeduper/StringDeduperBuilder.cs:202-203 | The longer string becomes the text and the pair is a reordering of the arguments. |
| StringDeduper.IsBitapMatch | StringDeduper/StringDeduperBuilder.cs:199-208 | The Bitap test: the longer string is the text and the search finds a start. No ensures of its own; see BitapMatchMeaning, BitapMatchSymmetric and BitapIsSubstitutionOnly. |
| StringDeduper.BitapMatchMeaning | StringDeduper/StringDeduperBuilder.cs:199-208 | The Bitap matcher holds iff the shorter string is empty, or is at most 31 long and occurs in the longer one with at most `maxDeviation` substitutions. |
| StringDeduper.BitapMatchSymmetric | StringDeduper/StringDeduperBuilder.cs:199-208 | The Bitap matcher gives the same answer for both argument orders. |
| StringDeduper.IsLevenshteinMatch | StringDeduper/StringDeduperBuilder.cs:217-222 | The Levenshtein test: the edit distance is at most the deviation. No ensures of its own; see LevenshteinMatchSymmetric and LevenshteinAcceptsDeletion. |
| StringDeduper.LevenshteinMatchSymmetric | StringDeduper/StringDeduperBuilder.cs:217-222 | The Levenshtein matcher gives the same answer for both argument orders. |
| StringDeduper.BitapIsSubstitutionOnly | StringDeduper/Helpers/StringUtility.cs:38 | "abdef" does not Bitap-match "abcdef" at deviation 1, although one deletion separates them. |
| StringDeduper.LevenshteinAcceptsDeletion | StringDeduper/StringDeduperBuilder.cs:217-222 | The Levenshtein matcher accepts any two strings one deletion apart at deviation 1 or more, in both orders. |
| StringDeduper.FirstMatchIndex | StringDeduper/StringDeduperBuilder.cs:171-175 | The position found is accepted by the matcher and no earlier candidate is; -1 means no candidate is accepted. |
| StringDeduper.CheckNeighbors | StringDeduper/StringDeduperBuilder.cs:158-176 | The first neighbour the chosen test accepts, else the key. No ensures of its own; see CheckNeighborsOutcome and LevenshteinResolutionComplete. |
| StringDeduper.CheckNeighborsOutcome | StringDeduper/StringDeduperBuilder.cs:158-176 | With no accepted neighbour the key is returned unchanged. Otherwise the result is an accepted stored key in the window, no shorter one is accepted, and no accepted key of the same length was stored before it. |
| StringDeduper.ResolveKey | StringDeduper/StringDeduperBuilder.cs:91-92 | Fuzzy resolution only with a strategy set and a key of at least the minimum length. No ensures of its own; see ResolveKeyOutcome. |
| StringDeduper.ResolveKeyOutcome | StringDeduper/StringDeduperBuilder.cs:91-92 | With a strategy set and a long enough key, resolution returns the key unchanged when no stored neighbour is accepted. Otherwise it picks the shortest accepted stored key, and among keys of that length the one stored first. |
| StringDeduper.LevenshteinResolutionComplete | StringDeduper/StringDeduperBuilder.cs:158-176 | If some stored non-empty key is within the deviation, Levenshtein resolution returns a stored key within the deviation. |
| StringDeduper.SaveStringByKey | StringDeduper/StringDeduperBuilder.cs:230-250 | The line is counted in the store under its key. With fuzzy matching the key is also added to its length bucket; without it the index is untouched. The configuration never changes. |
| StringDeduper.ImportOne | StringDeduper/StringDeduperBuilder.cs:80-96 | Every line, blank or not, adds exactly one to the store's total. |
| StringDeduper.ImportStrings | StringDeduper/StringDeduperBuilder.cs:78-97 | Importing changes only the store and the index, never the configuration. |
| StringDeduper.ImportTotal | StringDeduper/StringDeduperBuilder.cs:80-95 | After import the total grows by exactly the number of lines. |
| StringDeduper.ImportKeepsWellFormed | StringDeduper/StringDeduperBuilder.cs:230-246 | Import keeps keys distinct, originals distinct within a group and every count positive. |
| StringDeduper.ImportKeepsIndexMirror | StringDeduper/StringDeduperBuilder.cs:249 | With a strategy set, every bucket holds exactly the stored keys of its length, in store order, after import. |
| StringDeduper.ImportLeavesIndexWithoutStrategy | StringDeduper/StringDeduperBuilder.cs:95 | Without a strategy, import never touches the length index. |
| StringDeduper.ImportWithoutFuzzyCounts | StringDeduper/StringDeduperBuilder.cs:80-95 | Without fuzzy matching, each line's count under its derived key grows by its number of occurrences in the input. |
| GroupingStore.Save | StringDeduper/StringDeduperBuilder.cs:232-246 | The key list is unchanged for a known key and gains the key at the end otherwise, and the total grows by one. Every group under another key keeps its position and contents. |
| GroupingStore.SaveCounts | StringDeduper/StringDeduperBuilder.cs:232-246 | Saving adds one to the (key, value) count and leaves every other count alone. |
| GroupingStore.SaveKeepsWellFormed | StringDeduper/StringDeduperBuilder.cs:230-246 | Saving keeps keys distinct, originals distinct and counts positive. |
| GroupingStore.Increment | StringDeduper/StringDeduperBuilder.cs:234-241 | The originals list is unchanged for a known value and gains the value at the end otherwise, and the group total grows by one. Every other original keeps its position and count. |
| GroupingStore.IncrementCounts | StringDeduper/StringDeduperBuilder.cs:234-241 | The value's count grows by one and every other original's count is unchanged. |
| GroupingStore.KeyIndex | StringDeduper/StringDeduperBuilder.cs:232 | The position found holds the key and no earlier group does; -1 exactly when the key is absent. |
| GroupingStore.ValueIndex | StringDeduper/StringDeduperBuilder.cs:234 | The position found holds the value and no earlier variation does; -1 exactly when the value is absent. |
| StringDeduper.GetDuplicates | StringDeduper/StringDeduperBuilder.cs:106-134 | The duplicate view: the groups with several originals or a repeated one, rendered with the three flags. No ensures of its own; see DuplicatesBlocks, DuplicatesLength and DuplicatesOnceMembers. |
| StringDeduper.DuplicatesOnceMembers | StringDeduper/StringDeduperBuilder.cs:106-134 | With the original included and repeats excluded, a string is listed iff it is an original of a duplicate group. |
| StringDeduper.DuplicatesBlocks | StringDeduper/StringDeduperBuilder.cs:106-133 | The view is the duplicate groups in store order, each followed by one empty string when `addEmptyString` holds. |
| StringDeduper.DuplicatesLength | StringDeduper/StringDeduperBuilder.cs:106-133 | With repeats kept, the view has one line per occurrence in the duplicate groups, minus each group's first unless the original is included, plus one empty string per group on request. |
| GroupViews.EmitFrom | StringDeduper/StringDeduperBuilder.cs:119-128 | The innermost loop over one original's occurrences, with the skip and the early break. No ensures of its own; see EmitClosedForm and SkipFirstWithRepeatsExcluded. |
| GroupViews.EmitClosedForm | StringDeduper/StringDeduperBuilder.cs:119-128 | The inner loop emits the value a closed-form number of times: count, minus one when the first is skipped, at most one with repeats excluded. |
| GroupViews.SkipFirstWithRepeatsExcluded | StringDeduper/StringDeduperBuilder.cs:122-127 | Skipping the first occurrence with repeats excluded still emits the first original once when it was seen twice or more. |
| GroupViews.EmitGroup | StringDeduper/StringDeduperBuilder.cs:115-129 | The lines of one group: its originals in insertion order, only the very first occurrence skippable. No ensures of its own; see EmitGroupLength, EmitGroupCounts and EmitGroupOnceIsValues. |
| GroupViews.EmitGroupLength | StringDeduper/StringDeduperBuilder.cs:115-128 | A group emits its total number of occurrences, minus one when the first occurrence is skipped. |
| GroupViews.EmitGroupCounts | CompanyNameDeduper/CompanyNameDeduper.cs:127-135 | Without exclusions, a group emits each original exactly as often as it was counted. |
| GroupViews.EmitGroupOnceIsValues | CompanyNameDeduper/CompanyNameDeduper.cs:127-135 | With repeats excluded and no skipping, a group emits its originals in insertion order, once each. |
| GroupViews.UniqueAndDuplicatePartition | StringDeduper/StringDeduperBuilder.cs:109 | On non-empty groups with positive counts, a group is unique exactly when it is not a duplicate group. |
| GroupViews.Render | CompanyNameDeduper/CompanyNameDeduper.cs:123-139 | The outer loop of a view: the selected groups in store order, each followed by the delimiter on request. It serves both engines' views. No ensures of its own; see RenderIsBlocks, RenderLength, RenderOnceMembers and RenderAllLength. |
| GroupViews.RenderOnceMembers | CompanyNameDeduper/CompanyNameDeduper.cs:123-136 | With repeats excluded, a line is emitted iff it is an original of a selected group. |
| GroupViews.RenderAllLength | CompanyNameDeduper/CompanyNameDeduper.cs:125-136 | Selecting every group without exclusions emits exactly as many lines as the store holds occurrences. |
| GroupViews.RenderIsBlocks | CompanyNameDeduper/CompanyNameDeduper.cs:123-136 | A view is the lines of the selected groups in store order, each group closed by one empty line when delimiting and by nothing otherwise. |
| GroupViews.RenderLength | CompanyNameDeduper/CompanyNameDeduper.cs:123-136 | With repeats kept, a view has one line per occurrence in the selected groups, minus one per group when the first occurrence is skipped, plus one per group when delimiting. |
| StringDeduper.GetUniques | StringDeduper/StringDeduperBuilder.cs:141-148 | As written: one line per group, the group's first original, in group order, whatever the flag. |
| StringDeduper.GetUniquesFiltered | StringDeduper/StringDeduperBuilder.cs:144 | Corrected: with the flag set, the first originals of the unique groups only; without it, the same as `GetUniques`. |
| StringDeduper.GetUniquesIgnoresRestriction | StringDeduper/StringDeduperBuilder.cs:144-147 | After importing x, x, y, asking for input-unique strings still yields x, while the filtered view yields only y. |
| StringDeduper.ClearMemory | StringDeduper/StringDeduperBuilder.cs:272-276 | Store and index are empty, every view is empty, the configuration is kept. |
| StringDeduper.FuzzyGroupsCanShareAnOriginal | StringDeduper/StringDeduperBuilder.cs:186 | With Levenshtein at deviation 2, importing a+g, a, b, a (a = c+b, \|g\| = 2) counts a once under a+g and once under b. |
| EditDistance.Distance | StringDeduper/StringDeduperBuilder.cs:219 | The reference Levenshtein distance standing in for the library call. No ensures of its own; see DistanceSymmetric, DistanceZeroIffEqual, DistanceAtLeastLengthGap, DistanceAtMostLonger and SharedPrefix. |
| EditDistance.DistanceSymmetric | StringDeduper/StringDeduperBuilder.cs:219 | The edit distance is symmetric. |
| EditDistance.DistanceZeroIffEqual | StringDeduper/StringDeduperBuilder.cs:219 | The edit distance is zero exactly for equal strings. |
| EditDistance.DistanceAtLeastLengthGap | StringDeduper/StringDeduperBuilder.cs:219 | The edit distance is at least the length difference. |
| EditDistance.DistanceAtMostLonger | StringDeduper/StringDeduperBuilder.cs:219 | The edit distance is at most the longer length. |
| EditDistance.SharedPrefix | StringDeduper/StringDeduperBuilder.cs:219 | A common prefix never increases the distance. |
| StringUtility.Search | StringDeduper/Helpers/StringUtility.cs:6-50 | The result is 0 for an empty pattern, -1 for a pattern over 31 characters, otherwise the first start where at most k positions differ, or -1 when none exists. A result is always -1 or within [0, \|text\| − \|pattern\|]. |
| StringUtility.SearchString | StringDeduper/Helpers/StringUtility.cs:6-50 | The bit-parallel loop returns exactly `Search`'s answer. |
| StringUtility.PatternMask | StringDeduper/Helpers/StringUtility.cs:21-25 | Bit j of a character's mask is clear exactly when the pattern has that character at j. |
| StringUtility.AdvancePreservesMeaning | StringDeduper/Helpers/StringUtility.cs:29-40 | After a text character, bit n of row d is clear iff the last n text characters match the pattern's first n with at most d substitutions. |
| StringUtility.DetectMatch | StringDeduper/Helpers/StringUtility.cs:42-46 | A clear bit m in row k marks the first match, ending at the current character; a set bit means no match has ended yet. |
| StringUtility.FirstMatchFrom | StringDeduper/Helpers/StringUtility.cs:27-47 | The first start from a given position at which the pattern matches, or -1 when there is none. |
| StringUtility.ExactSearch | StringDeduper/Helpers/StringUtility.cs:29-34 | With k = 0 the search finds the first exact occurrence. |
| StringUtility.MismatchesZeroIffEqual | StringDeduper/Helpers/StringUtility.cs:38 | No mismatching position exactly when the strings are equal. |
| StringUtility.MismatchesSymmetric | StringDeduper/Helpers/StringUtility.cs:38 | The mismatch count is symmetric. |
| CompanyNames.ToLower | CompanyNameDeduper/CompanyNameDeduper.cs:62 | Upper-case ASCII letters become lower case; every other character is unchanged. |
| CompanyNames.Clean | CompanyNameDeduper/CompanyNameDeduper.cs:62-63 | The cleaned name contains only [a-z0-9] and is no longer than the input. |
| CompanyNames.CleanMembers | CompanyNameDeduper/CompanyNameDeduper.cs:62-63 | A character is in the cleaned name iff it is in [a-z0-9] and is the lowercase of some input character. |
| CompanyNames.CleanAppend | CompanyNameDeduper/CompanyNameDeduper.cs:62-63 | Cleaning works character by character: cleaning a concatenation concatenates the cleaned parts. |
| CompanyNames.CleanIdempotent | CompanyNameDeduper/CompanyNameDeduper.cs:62-63 | Cleaning a cleaned name changes nothing. |
| CompanyNames.CleanCompanyName | CompanyNameDeduper/CompanyNameDeduper.cs:60-69 | The key is a prefix of the cleaned name and contains only [a-z0-9]. |
| CompanyNames.Admits | CompanyNameDeduper/CompanyNameDeduper.cs:41-48 | The two whitespace checks of the read loop. No ensures of its own; see AdmitsIffNonEmptyKey. |
| CompanyNames.AdmitsIffNonEmptyKey | CompanyNameDeduper/CompanyNameDeduper.cs:41-48 | A line passes both admission checks exactly when its key is non-empty. |
| CompanyNameExamples.SuffixOrderMatters | CompanyNameDeduper/CompanyNameDeduper.cs:65-66 | "Foo Inc Ltd" has key "foo" but "Foo Ltd Inc" has key "fooltd": each suffix is tried once, in list order. |
| CompanyNameDeduper.ReadLine | CompanyNameDeduper/CompanyNameDeduper.cs:41-48 | A line that fails admission changes nothing. An admitted line adds one occurrence and at most its own key. |
| CompanyNameDeduper.ReadLineCounts | CompanyNameDeduper/CompanyNameDeduper.cs:71-88 | Only the admitted line's count under its key grows, by one. |
| CompanyNameDeduper.Admitted | CompanyNameDeduper/CompanyNameDeduper.cs:37-50 | A line is kept iff it occurs in the input and passes both admission checks. |
| CompanyNameDeduper.AdmittedOccurrences | CompanyNameDeduper/CompanyNameDeduper.cs:37-50 | An admitted line is kept as often as it occurs and any other line is dropped. |
| CompanyNameDeduper.ReadLines | CompanyNameDeduper/CompanyNameDeduper.cs:37-50 | The read loop as a fold of ReadLine over the lines. No ensures of its own; see ReadLinesTotal, ReadLinesCounts, ReadLinesKeepsWellFormed and ReadLinesKeysNonEmpty. |
| CompanyNameDeduper.ReadLinesTotal | CompanyNameDeduper/CompanyNameDeduper.cs:37-50 | Reading adds exactly one occurrence per admitted line. |
| CompanyNameDeduper.ReadLinesCounts | CompanyNameDeduper/CompanyNameDeduper.cs:37-50 | Each (key, line) count grows by the line's occurrences when the line is admitted under that key, and not at all otherwise. |
| CompanyNameDeduper.ReadLinesKeepsWellFormed | CompanyNameDeduper/CompanyNameDeduper.cs:71-88 | Reading keeps keys distinct, originals distinct and counts positive. |
| CompanyNameDeduper.ReadLinesKeysNonEmpty | CompanyNameDeduper/CompanyNameDeduper.cs:45 | No group is ever keyed by the empty string. |
| CompanyNameDeduper.Filter | CompanyNameDeduper/CompanyNameDeduper.cs:100-105 | Uniques selects one original seen once, Duplicates selects several originals or a repeated first one, and any other type selects every group. |
| CompanyNameDeduper.WriteLines | CompanyNameDeduper/CompanyNameDeduper.cs:98-148 | The export: Render with the filter for the export type, the original never skipped. No ensures of its own; see WriteLinesBlocks, WriteLinesLength, WriteLinesPartition, WriteAllLength and WriteOnceMembers. |
| CompanyNameDeduper.WriteLinesPartition | CompanyNameDeduper/CompanyNameDeduper.cs:100-105 | Together, the Uniques and Duplicates exports write exactly the lines of the unfiltered export. |
| CompanyNameDeduper.WriteAllLength | CompanyNameDeduper/CompanyNameDeduper.cs:125-136 | The unfiltered export without exclusions writes as many lines as were stored. |
| CompanyNameDeduper.WriteOnceMembers | CompanyNameDeduper/CompanyNameDeduper.cs:125-136 | With literal duplicates excluded, a name is written iff some selected group holds it. |
| CompanyNameDeduper.WriteLinesBlocks | CompanyNameDeduper/CompanyNameDeduper.cs:117-136 | The export is the selected groups in store order, each followed by one empty line when `skipLineAfterDupGroup` holds. |
| CompanyNameDeduper.WriteLinesLength | CompanyNameDeduper/CompanyNameDeduper.cs:117-136 | Without exclusions, the export has one line per occurrence in the selected groups, plus one empty line per group when `skipLineAfterDupGroup` holds. |
| CompanyNameDeduper.DuplicatesExportIsGenericView | CompanyNameDeduper/CompanyNameDeduper.cs:103 | The Duplicates export equals the generic engine's duplicate view with the original included. |
| CompanyNameDeduper.ClearMemory | CompanyNameDeduper/CompanyNameDeduper.cs:153 | The store is empty, so every export is empty. |
| CompanyEngines.CompanySuffixesDescending | CompanyNameDeduper/CompanyNameDeduper.cs:12-24 | The hard-coded suffix list is already in descending ordinal order. |
| CompanyEngines.BuildKeepsCompanySuffixes | StringDeduper/StringDeduperBuilder.cs:68 | Given the cleaning and the company suffixes, `Build` changes nothing: the suffixes are clean and sorted already. |
| CompanyEngines.SameKeysAsOriginal | CompanyNameDeduper/CompanyNameDeduper.cs:60-69 | The generic engine configured like the original stores every line under the original engine's key. |
| CompanyEngines.EnginesAgreeOnAdmittedLines | CompanyNameDeduper/CompanyNameDeduper.cs:41-48 | For an admitted line, both engines count it once per occurrence under the same key. |
| CompanyEngines.BlankLineContrast | StringDeduper/StringDeduperBuilder.cs:80-95 | A blank line is stored under the empty key by the generic engine and dropped by the original engine. |

## Left out

- I/O: reading and writing files and HTTP streams, async enumeration, and the catch-all that returns false. Reading is a fold over a sequence of lines, and writing returns the sequence of lines written.
- `Program.cs`, `FileUtility.cs` and `HttpUtility.cs`: streaming and fixed wiring only, with nothing to verify.
- The builder and service interfaces: they declare no behaviour.
- The external Levenshtein library and its threading option. They are replaced by the recursive edit distance `EditDistance.Distance`.
- Culture-sensitive `EndsWith` and the default string comparer of `OrderByDescending` are modelled as ordinal comparison. They agree only where no character is ignorable and the culture neither contracts nor reorders the characters involved. An example is keys already cleaned to `[a-z0-9]` under the invariant culture. A culture that reorders letters changes `Build`'s order even on cleaned keys, and with it the trimmed key. Estonian sorts `z` between `s` and `t`, so it orders "tz" before "z" where ordinal order puts "z" first. With the suffixes "z" and "tz", the key of "atz" is then "a" in the source and "at" here. `EndsWith` still agrees on such keys. For a raw line even `EndsWith` can differ: culturally, `"fooinc\u00AD".EndsWith("inc")` holds because the soft hyphen is ignored, and `[..^3]` then cuts the wrong three characters.
- CompanyNames.ToLower: only ASCII letters are lowercased. `ToLowerInvariant` also maps some non-ASCII letters into `a-z` (for example the Kelvin sign to `k`), and the model does not.
- StringDeduper.UseFuzzyMatching: accepts any `maxDeviation` of at least 1, and the model computes the neighbour window on unbounded integers. In the source, `length + maxDeviation` (StringDeduper/StringDeduperBuilder.cs:186) is 32-bit and wraps. For example, with `maxDeviation` = 2147483647 and a key of length 5 the upper bound is negative, so there are no neighbours and no fuzzy match, while the model's window holds every stored key. When `length + maxDeviation` is exactly 2147483647, `i++` wraps and the source's scan never ends unless a neighbour matches; the model's scan is finite. Likewise `(k + 1) * sizeof(int)` (StringDeduper/Helpers/StringUtility.cs:17) wraps to a negative array size for k ≥ 2^29 − 1, so the source's Bitap matcher throws where the model's `Search` answers.
- The occurrence counts are unbounded: the 32-bit overflow after 2^31 − 1 repeats of one line is not modelled.
- StringDeduper.IsBitapMatch: the engine's matcher uses the total `Search`. In the source, a character code of 128 or more in the pattern, or in the scanned text, indexes past the 128-entry mask table and throws. Only `StringUtility.SearchString` carries that as a precondition (`MaskIndexable`).
- Out-of-range values of the fuzzy-matching strategy enum are not modelled. `UseFuzzyMatching` does not validate the strategy, and such a value makes every import that reaches fuzzy resolution throw `NotImplementedException` (StringDeduper/StringDeduperBuilder.cs:167), even when there are no neighbours. The model's strategy type has only the two named values.
- CompanyNameDeduper.ExportType: any value other than `Uniques` and `Duplicates` is modelled as the single value `Other`, which selects every group.
- StringDeduper.GetUniques: requires every group to be non-empty. The source calls `First()` there, which throws on an empty group; the store never builds one.
- Strings are sequences of Unicode scalar values, whereas .NET strings are sequences of UTF-16 code units. For a character outside the Basic Multilingual Plane (a surrogate pair in .NET), the model differs from the source in lengths (bucket choice, the minimum-length test, the neighbour window), in the Levenshtein distance, in `[..^n]` slicing, and in ordinal order. Outside the BMP, ordinal order compares code units in .NET and scalar values here.
- Default arguments are not modelled: callers pass every argument. The source defaults are Levenshtein, 5 and 1 for `UseFuzzyMatching`; all flags false for `GetDuplicates` and `GetUniques`; and `Duplicates`, false, false for `WriteToFileAsync`.
- Null lines and a null normalize result are not modelled: strings are never null here.
- `AddNormalizeStrategy` and `AddIgnoredSuffixes` are plain field updates with nothing to state.

## Findings

| source | as written | input that shows it | evidently intended | confidence | as-written member | corrected member |
|---|---|---|---|---|---|---|
| StringDeduper/StringDeduperBuilder.cs:144-147 | `GetUniques` builds the filtered groups but then enumerates the unfiltered store, so the flag has no effect | import "x", "x", "y" and ask for uniques restricted to unique input: "x" is listed although it was seen twice | with the flag set, list only the first originals of groups holding one original seen once | high (not executed) | StringDeduper.GetUniquesIgnoresRestriction | StringDeduper.GetUniquesFiltered |
