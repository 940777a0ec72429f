# Census tissue-count chart: the reduction core

This project models, in Dafny, the data reduction behind the CELLxGENE Census
"cell-tissue counts" bar chart. The input is a flat list of records
`(species, census version, tissue, is_primary, n_cells)`. A selection of species,
census version and a tri-state primary flag (`null` for all) picks the records.
Each kept tissue name is title-cased. The cell counts are summed per title-cased
name in a string-keyed object. The object's entries are sorted ascending by count,
and the chart receives the sorted bars (`hist`), the counts alone (`nCells`) and
their total (`totalCells`). The model also covers the label helpers around it:
`titleCase`, `unsnake`, the integer and tier parts of `humanize`, and the elision
of y-axis tick labels.

Modules:

- `Utils` (`utils.dfy`): `titleCase`, `unsnake` and `humanize`. Each helper is
  defined twice in the application, in `src/utils.ts` and privately in
  `src/App.tsx`. The copies are identical, so each is modelled once.
- `CensusData` (`census.dfy`): species, census versions, the primary filter,
  records, the selection and the `(tissue, n_cells)` bar.
- `Sorting` (`sorting.dfy`): the ascending stable sort by count.
- `Tally` (`tally.dfy`): filter, title-case, group-sum into the ordered object,
  `Object.entries`, sort, `nCells` and `totalCells`, with the end-to-end theorems.
- `Chart` (`chart.dfy`): tick-label elision at 15 characters.

Behaviour worth knowing:

- `titleCase` (src/utils.ts:12) splits at every single `_` or space. Two
  separators in a row leave an empty piece, so `"a__b"` becomes `"A  B"`
  (`Utils.DoubleUnderscoreExample`).
- `titleCase` upper-cases the first character of each piece and never
  lower-cases anything. So `"lung"` and `"Lung"` share a bucket, but `"LUNG"`
  gets a bucket of its own (`Utils.TitleCaseMergesIff`).
- The sort (src/App.tsx:75) compares counts only. It is stable, so bars with
  equal counts keep the object's insertion order. That is the order in which
  their title-cased tissues were first met among the kept records
  (`Tally.TallyTies`, `Tally.GroupSumKeysFirstSeen`, `Tally.FirstSeenOrder`).
- `humanize` (src/App.tsx:34-42) picks its tier from the raw count. So 999999
  takes the thousands branch and its text is whatever `toPrecision(3)` gives
  for 999.999 (`Utils.HumanizeBoundaryExample`).

## Model

| member | source | states |
|---|---|---|
| `Utils.Upper` | src/utils.ts:12 | Upper-casing turns a lower-case ASCII letter into an upper-case one and leaves every other character as it is. So it never leaves a lower-case ASCII letter, and it keeps a character a separator exactly when it was one. |
| `Utils.Split` | src/utils.ts:12 | Splitting at each single `_` or space gives one more piece than there are separators. Empty pieces count, and no piece holds a separator. |
| `Utils.SplitJoin` | src/utils.ts:12 | Joining the pieces with spaces gives the name back with every separator turned into a space. No character is lost. |
| `Utils.TitleScan` | src/utils.ts:11-13 | Reference one-pass title-casing. It has the input's length. A separator becomes a space, a character at a word start is upper-cased, and every other character is kept. |
| `Utils.ScanMatchesSplit` | src/utils.ts:12 | The split / capitalize-first-character / join-with-space composition equals the one-pass reference. |
| `Utils.TitleCase` | src/utils.ts:11-13 | `titleCase(s)` has the length of `s` and contains no `_`. At each position it holds a space for a separator, the upper-cased character at a word start, and the original character elsewhere. |
| `Utils.TitleCaseIdempotent` | src/utils.ts:11-13 | `titleCase(titleCase(s)) == titleCase(s)`. |
| `Utils.TitleCaseMergesIff` | src/App.tsx:44-46 | Two names title-case alike exactly when three things hold. They have separators of either kind at the same positions. Their word-initial characters agree after upper-casing. All their other characters are identical. |
| `Utils.DoubleUnderscoreExample` | src/App.tsx:45 | `"a__b"` splits into `["a", "", "b"]` and title-cases to `"A  B"`. |
| `Utils.CaseMergeExample` | src/utils.ts:12 | `"lung"` and `"Lung"` both become `"Lung"`. `"LUNG"` stays apart from them. |
| `Utils.IndexOf` | src/utils.ts:16 | The search behind a string-pattern `replace` returns the first position of the character, or nothing exactly when the character is absent. |
| `Utils.Unsnake` | src/utils.ts:15-17 | `unsnake` keeps the length. Only the first `_` becomes a space, and every other character, later underscores included, is unchanged. A name without `_` comes back unchanged. |
| `Utils.UnsnakeKeepsTitleCase` | src/App.tsx:44-50 | Applying `unsnake` first never changes a name's title-cased key. |
| `Utils.Decimal` | src/utils.ts:7 | The integer text of a count is a non-empty run of decimal digits with no leading zero. |
| `Utils.DecimalRoundTrip` | src/utils.ts:7 | Reading the digit text back gives the count. |
| `Utils.DecimalLength` | src/utils.ts:6-7 | A count below 10^k has at most k digits. |
| `Utils.Humanize` | src/utils.ts:1-9 | The text ends in `M` exactly when n ≥ 10^6, and in `k` exactly when 10^3 ≤ n < 10^6. In both cases the part before the suffix is the formatter's text of n/10^6 or n/10^3. The text is pure digits exactly when n < 1000, and then it is at most three digits reading back as n. |
| `Utils.HumanizeBoundaryExample` | src/App.tsx:34-42 | 999 gives `"999"`. 1000 and 999999 take the `k` tier, and 10^6 takes the `M` tier. |
| `Sorting.Insert` | src/App.tsx:75 | Inserting a bar adds exactly that bar to the multiset of bars. |
| `Sorting.InsertSorted` | src/App.tsx:75 | Inserting into an ascending sequence keeps it ascending. |
| `Sorting.Sort` | src/App.tsx:75 | The sorted bars are a permutation of the input and ascending by `n_cells`. |
| `Sorting.SortIsStable` | src/App.tsx:75 | For every count, the bars with that count appear in the same order as in the input. |
| `Sorting.StableSortUnique` | src/App.tsx:75 | Two ascending sequences that agree, in order, on the bars of every count are equal. |
| `Sorting.SortIsTheStableSort` | src/App.tsx:75 | Any ascending arrangement that keeps the order of equal counts is the result of `Sort`. So the comparator and stability fix the result. |
| `Sorting.SortTotal` | src/App.tsx:75-77 | Sorting leaves the total cell count unchanged. |
| `Sorting.SortDistinct` | src/App.tsx:74-75 | Sorting keeps tissue names pairwise distinct. |
| `Sorting.SortPermutes` | src/App.tsx:74-75 | The sorted bars are the input bars, with the same number of them and no tissue twice. |
| `Tally.Filter` | src/App.tsx:58-62 | A record is kept exactly when it is in the input and matches three facets: species equal, census equal, and primary flag unconstrained or equal. |
| `Tally.FilterAppend` | src/App.tsx:58-62 | Filtering a concatenation is the concatenation of the filtered parts, so kept records keep their relative order. |
| `Tally.NormalizeCells` | src/App.tsx:63-66 | Mapping records to (title-cased tissue, n_cells) pairs keeps the total cell count. |
| `Tally.NormalizeCellsOf` | src/App.tsx:63-66 | The pairs with tissue k carry the cells of the records whose title-cased tissue is k. |
| `Tally.NormalizeKeys` | src/App.tsx:63-66 | The pairs' tissue names are exactly the records' title-cased tissues. |
| `Tally.Accumulate` | src/App.tsx:68-73 | One loop step keeps the object well-formed. An unseen tissue is appended to the key order with the pair's count. A seen tissue gains the count in place. Every other entry is unchanged. |
| `Tally.GroupSum` | src/App.tsx:67-73 | The object's keys are exactly the tissues that occur. Each value is the sum of the counts of the pairs with that tissue. |
| `Tally.AccumulateSums` | src/App.tsx:68-73 | One loop step turns the per-tissue sums of a prefix into those of the prefix extended by one pair. |
| `Tally.Entries` | src/App.tsx:74 | `Object.entries` yields one pair per key, in key order, with distinct tissues. A pair is present exactly when its count is the object's value for its tissue. |
| `Tally.AccumulateTotal` | src/App.tsx:68-74 | One loop step raises the entries' total by exactly the pair's count. |
| `Tally.GroupSumTotal` | src/App.tsx:67-74 | The entries of the grouped object sum to the total of the pairs. Nothing is dropped or double-counted. |
| `Tally.SumNCells` | src/App.tsx:76-77 | The zero-seeded sum of `nCells` equals the bars' total. |
| `Tally.ComputeTally` | src/App.tsx:56-81 | `hist` is ascending by `n_cells`. `nCells` has the length of `hist`, with `nCells[i] == hist[i].n_cells`. `totalCells` is the bars' total. |
| `Tally.TallyPermutesBuckets` | src/App.tsx:74-75 | The bars are a permutation of the object's entries: as many as there are keys, no tissue twice, and each bar matching its key's sum. |
| `Tally.TallyKeys` | src/App.tsx:63-74 | The bar names are exactly the title-cased tissues of the kept records. |
| `Tally.TallyCounts` | src/App.tsx:67-74 | Each bar's count is the sum of `n_cells` over the kept records whose title-cased tissue is the bar's name. |
| `Tally.TallyMerges` | src/App.tsx:63-74 | Two kept records whose tissues title-case alike fall into one and the same bar. |
| `Tally.TallyTotal` | src/App.tsx:67-77 | `totalCells` equals the bars' total and the sum of `n_cells` over the kept records. |
| `Tally.TallyEmpty` | src/App.tsx:58-78 | There are no bars exactly when no record is kept. In that case `nCells` is empty and `totalCells` is 0. |
| `Tally.FirstSeen` | src/App.tsx:69-70 | The order in which names join the object lists each tissue that occurs exactly once, and no other name. |
| `Tally.FirstSeenOrder` | src/App.tsx:68-70 | A name listed before another is met before it: every occurrence of the later name comes after an occurrence of the earlier one. |
| `Tally.GroupSumKeysFirstSeen` | src/App.tsx:68-73 | The summing loop's object holds its keys in the order in which the tissues were first met. |
| `Tally.TallyTies` | src/App.tsx:68-75 | Bars with equal counts keep the object's entry order, and the entries list the title-cased tissues in the order in which they were first met among the kept records. |
| `Tally.SingleBucketTally` | src/App.tsx:56-81 | When all kept records share one title-cased tissue, the result is one bar holding all their cells, and that bar's count is also the total. |
| `Tally.LungScenario` | src/App.tsx:56-81 | Primary human 2025 records `"lung"` 1000 and `"Lung"` 2000, plus a secondary `"liver"` 500, give exactly one bar `("Lung", 3000)` with total 3000. |
| `Chart.TickLabel` | src/App.tsx:99-103 | A tick label is min(len, 16) + 1 characters long, so at most 17. It ends in the clearance space and keeps the name's first characters. Without that space it equals the name exactly when the name has at most 16 characters. Otherwise position 15 holds the ellipsis. |
| `Chart.TickText` | src/App.tsx:100-103 | There is one label per bar, in bar order. Each is at most 17 characters and ends in a space. |
| `Chart.ElisionBoundaryExample` | src/App.tsx:101 | A 16-character name is kept whole. A 17-character name becomes its first 15 characters plus the ellipsis. |

## Left out

- Utils.Upper: models `toUpperCase` on ASCII a–z only. JavaScript upper-cases all of Unicode, and for a few characters (`ß` to `SS`) that lengthens the string. Those characters are outside the model.
- Utils.Humanize: the three-significant-digit text of `toPrecision(3)` is a parameter. It is IEEE-754 formatting. Only the tier choice, the suffix and the integer branch are modelled. The count is a non-negative integer, as the chart passes it. Negative or fractional inputs are not modelled.
- Chart.TickLabel: lengths and cuts count Unicode scalar values. JavaScript counts UTF-16 code units, which differ for characters outside the Basic Multilingual Plane.
- Tally.Entries: JavaScript lists integer-like keys (such as `"42"`) before all other keys in ascending numeric order. The model keeps plain insertion order, which is what tissue names get.
- Counts are unbounded integers. JavaScript numbers lose exactness above 2^53, and that is not modelled.
- The log10 axis range (src/App.tsx:82-85) is floating point. It also throws on an empty `nCells`, because `reduce` has no initial value there.
- `toLocaleString` of the total (src/App.tsx:132) depends on the locale.
- Session and local storage state (src/App.tsx:53-55, 87-90), the dark-mode effect and DOM access (91-97), and the select handlers and markup (105-133). These are UI and I/O.
- The Plotly chart configuration (src/App.tsx:134-184) is a foreign library. This includes the per-bar humanized texts and the `y` category list, which are plain maps over `hist`.
- Loading the JSON dataset (src/App.tsx:2) is data loading. The records are a parameter.
- The memoisation in `useMemo` is left out. `ComputeTally` is a pure function of the records and the selection.
