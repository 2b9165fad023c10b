# lang-rank core, modelled in Dafny

`github-lang-rank` is a small Go command. It lists a GitHub user's (or
organisation's) repositories, keeps or drops forks and archived ones, and adds
up the per-repository language byte counts. It then drops the excluded
languages, ranks the rest by size, and optionally buckets the tail into an
"Other" entry. Finally it draws a 640×320 SVG card: a usage bar, a grid of
language tiles and an optional "Excluded: …" footnote.

This project models the pure part of that program, everything in `main.go`
between the HTTP calls and the file write, as immutable datatypes and pure
functions with contracts:

| module | models |
|---|---|
| `Sorting` | a generic insertion sort for a total order, standing in for `sort.Slice` and `sort.Strings`; a total order has one sorted arrangement |
| `Text` | Go's string `<`, ASCII `strings.ToLower`, `strings.TrimSpace`, `strings.Split`, `strings.Join` |
| `Ranking` | `rankLanguages` and `collapseOthers` |
| `Excludes` | `applyExcludes`: deleting matched keys and reporting the matching terms |
| `Escape` | `escapeText` and its inverse |
| `Colors` | `languageColors`, `colorForLanguage`, the six-colour fallback palette, `initialForLanguage` |
| `Config` | the `stringFlag`/`boolFlag`/`intFlag` records, `splitCSV`, `mergeConfig` |
| `Repos` | the fork/archived filter of `main` and the `total[lang] += bytes` fold |
| `Layout` | the integer layout of `writeSVG`: guards, columns and rows, vertical offset, bar segments, tiles, footnote |
| `Pipeline` | `main`'s sequence: exclude, rank, bucket, draw |

Go map iteration order is unspecified. Each operation that iterates a map
therefore takes the order as a parameter: a sequence that lists each key once
(`Sorting.Enumerates`). Lemmas then show the results do not depend on it.
Go's truncating `/` is modelled by `Layout.GoDiv`.

Three behaviours of the code that a reader might not expect:

- `applyExcludes` reports the exclude terms as the user typed them, not the
  languages' own names. Of several terms that differ only in case, the last
  one typed is kept. One term is reported once per deleted key, so the list
  can repeat a term (`Excludes.ReportUsesTermSpelling`, `Excludes.ReportMayRepeat`).
- The last bar entry absorbs the rounding remainder only when its own
  truncated width is non-zero. Otherwise it is skipped, and the bar reaches
  its right edge only if the other truncated widths add up to the full 584
  units. When the skipped entry has bytes they never do, so the bar stops
  short (`Layout.BarStopsShort`, `Layout.BarGapExample`). When it has none,
  either can happen (`Layout.BarZeroLastExamples`).
- The tile grid fits the 320-unit card only for at most six entries. Every
  tile lies within the grid's height and the last one reaches its bottom
  (`Layout.TilesInGrid`), so a longer ranking draws tiles past the bottom
  edge (`Layout.GridFitsIff`).

## Model

| member | source | states |
|---|---|---|
| `Sorting.Sort` | main.go:184-189 | the result is a sorted permutation of the input, for any total order |
| `Sorting.SortedUnique` | main.go:184-189 | two sorted permutations of the same multiset under a total order are equal, so an unstable sort still has one outcome |
| `Sorting.EnumerationsPermute` | main.go:181 | two iteration orders of the same key set are permutations of each other |
| `Text.LessEqTotalOrder` | main.go:565 | Go's `<=` on strings (lexicographic on code points, the same order as Go's comparison of UTF-8 bytes) is a total order |
| `Text.Lower` | main.go:331 | the result has the input's length and no upper-case ASCII letter; each upper-case letter becomes its lower-case partner and every other character is kept |
| `Text.TrimSpace` | main.go:535 | the result is trimmed, no longer than the input, built from its characters, and empty exactly when the input is all white space |
| `Text.TrimSpaceStrips` | main.go:541 | the trimmed result is an infix of the input with only white space before and after it; with being trimmed, this pins the result |
| `Text.TrimSpaceIdempotent` | main.go:541 | trimming a trimmed string changes nothing |
| `Text.Split` | main.go:538 | there is at least one piece, no piece contains the separator, and joining the pieces with the separator gives back the input |
| `Text.SplitJoin` | main.go:538 | splitting a join of separator-free pieces recovers the pieces |
| `Ranking.RankLeqTotalOrder` | main.go:184-189 | the comparator (more bytes first, then ascending name) together with equality is a total order on entries, so no two distinct entries tie |
| `Ranking.EntriesListTheMap` | main.go:180-183 | visiting each key once collects every entry of the map exactly once: one per key, each with its own count, nothing else |
| `Ranking.RankLanguages` | main.go:179-191 | the ranking has one entry per key, each entry is a key with its own count, every key appears, and consecutive entries have more bytes or equal bytes and a smaller name |
| `Ranking.RankingUnique` | main.go:179-191 | a map has only one sequence that is both a permutation of its entries and sorted by the comparator |
| `Ranking.RankDeterministic` | main.go:179-191 | the ranking is the same for every map iteration order |
| `Ranking.SumNonNegative` | main.go:221-224 | non-negative counts have a non-negative total |
| `Ranking.CollapseOthers` | main.go:377-394 | with `top <= 0` or at most `top` entries the input is returned; otherwise the first `top` entries are kept, an extra entry is present iff `showOther` and the tail sum is positive, and that entry is "Other" with the tail sum |
| `Ranking.CollapseConservesTotal` | main.go:383-393 | with `showOther` and non-negative counts, bucketing keeps the total byte count |
| `Ranking.CollapseIdempotent` | main.go:377-394 | bucketing twice with the same settings is bucketing once |
| `Ranking.CollapseKeepsOrder` | main.go:381-382 | the kept prefix is still in ranking order |
| `Ranking.CollapseNonNegative` | main.go:386-392 | bucketing non-negative counts gives non-negative counts |
| `Ranking.CollapseHead` | main.go:381-382 | a non-empty ranking keeps its first entry |
| `Ranking.CollapseAllZero` | main.go:386-392 | bucketing all-zero counts yields a zero total |
| `Excludes.Normalize` | main.go:554-557 | the keys are exactly the lower-cased terms, each value is a term filed under its own lower-cased form, and the last term of each case class wins |
| `Excludes.ApplyExcludes` | main.go:550-567 | with no terms nothing changes; a key survives iff no term matches it case-insensitively, with its count unchanged; the report is sorted, names each term once per deleted key it governs, and has one entry per deleted key |
| `Excludes.CollectCount` | main.go:558-564 | the report counts each term once per deleted language whose last matching term it is |
| `Excludes.KeptSize` | main.go:559-563 | the kept map has the original size minus the number of matched keys |
| `Excludes.ExcludesDeterministic` | main.go:558-565 | the kept map and the sorted report are the same for every iteration order |
| `Excludes.ReportedAreTerms` | main.go:556-562 | every reported name is one of the exclude terms as typed |
| `Excludes.ReportUsesTermSpelling` | main.go:554-562 | excluding "GO" from a map holding "Go" reports "GO" |
| `Excludes.ReportMayRepeat` | main.go:558-565 | with keys "Go" and "GO" and the term "go", "go" is reported twice |
| `Escape.EscapeChar` | main.go:320-326 | exactly the five special characters are replaced by a longer string, and every other character is kept |
| `Escape.EscapeText` | main.go:319-328 | the output is at least as long as the input; it has no raw `<`, `>`, `"` or `'`, and every `&` begins one of the five entities; input without special characters is returned unchanged |
| `Escape.UnescapeEscape` | main.go:319-328 | decoding the five entities recovers the input |
| `Escape.EscapeInjective` | main.go:319-328 | different inputs never escape to the same text |
| `Escape.EscapeUnescape` | main.go:319-328 | every text with no raw special characters, and whose `&`s all begin entities, is the escaping of its decoding |
| `Colors.ColorsWellFormed` | main.go:349-375 | every table colour and every palette colour is a `#rrggbb` literal |
| `Colors.TableKeysLowerCase` | main.go:349-375 | every table key is its own lower-casing, so each entry can be found by the lower-cased lookup |
| `Colors.ColorForLanguage` | main.go:330-335 | the colour is a table colour or the fallback, the fallback whenever the lower-cased name is not in the table, and a `#rrggbb` colour whenever the fallback is |
| `Colors.ColorIgnoresCase` | main.go:331 | names equal up to ASCII case get the same colour |
| `Colors.ColorFromTable` | main.go:331-333 | a name whose lower-casing is a key gets that key's colour |
| `Colors.EntryColor` | main.go:278 | an entry's colour is always `#rrggbb`, and an unknown language gets palette colour `i % 6` |
| `Colors.FallbackCycles` | main.go:292 | for an unknown language the colour repeats with period six, and neighbouring ranks below six differ |
| `Colors.InitialForLanguage` | main.go:337-347 | the result is one character: "?" iff the name has no ASCII letter or digit, otherwise the first such character, upper-cased |
| `Config.NonEmptyTrimmedSingle` | main.go:540-546 | one piece contributes its trimming, or nothing when that is empty |
| `Config.NonEmptyTrimmedConcat` | main.go:540-546 | the loop distributes over concatenation of the pieces, so the kept pieces stay in input order |
| `Config.SplitCsv` | main.go:534-548 | blank input gives no terms; each term is non-empty, trimmed and comma-free |
| `Config.NonEmptyTrimmedMembers` | main.go:540-546 | a string is kept exactly when it is the non-empty trimming of some piece |
| `Config.SplitCsvTerms` | main.go:534-548 | the terms are exactly the non-empty trimmings of the comma-separated pieces of the value, blank values included |
| `Config.SplitCsvJoin` | main.go:534-548 | splitting clean terms joined with commas recovers the terms |
| `Config.SplitCsvExample` | main.go:534-548 | `-exclude "HTML, CSS"` gives the terms "HTML" and "CSS", the space after the comma trimmed away |
| `Config.ApplyDefaults` | main.go:458-464 | an empty output becomes "lang-rank.svg" and a missing show-other setting becomes true; nothing else changes |
| `Config.MergeConfig` | main.go:426-467 | each field is the flag value when its flag was given and the file value otherwise (`-exclude` through `splitCSV`); then the two defaults apply, so the output is non-empty and show-other is present |
| `Config.MergeIdempotent` | main.go:426-467 | merging the same flags twice is merging them once |
| `Config.MergeWithoutFlags` | main.go:426-467 | with no flag given, only the two defaults can change the file's configuration |
| `Config.MergeAllFlagsSet` | main.go:429-456 | when every flag is given, the file's values play no part |
| `Repos.FilterRepos` | main.go:72-81 | a repository is kept iff it is in the listing and passes the fork and archived tests; the result is no longer than the listing |
| `Repos.FilterConcat` | main.go:72-81 | filtering distributes over concatenation, so the listing order is preserved |
| `Repos.FilterSingle` | main.go:73-80 | one repository survives exactly when the filter keeps it |
| `Repos.FilterIdempotent` | main.go:72-81 | filtering twice is filtering once |
| `Repos.AddIntoCommutes` | main.go:142-144 | adding two repositories' maps into the total gives the same result in either order |
| `Repos.Aggregate` | main.go:134-145 | a language is in the total iff some repository reports it, and its count is the sum over all repositories |
| `Repos.SumAtPermutation` | main.go:136-145 | a language's sum does not depend on the order of the repositories |
| `Repos.AggregatePermutation` | main.go:136-145 | the whole total does not depend on the order of the repositories |
| `Layout.GoDivTruncates` | main.go:255 | Go's `/` leaves a remainder smaller than the divisor in magnitude that is zero or has the dividend's sign, which is truncation toward zero |
| `Layout.Rows` | main.go:241 | the row count is the ceiling of entries over columns |
| `Layout.TopOffset` | main.go:253-258 | the offset is at least the card padding; when the content leaves room for both paddings it centres the content to within one unit, and otherwise it is the padding |
| `Layout.TopOffsetAgreesWithFloor` | main.go:255-258 | after the clamp to 28, truncating and flooring division give the same offset |
| `Layout.TileX` | main.go:290 | every tile column lies between the card padding and the right edge of the grid |
| `Layout.TileAt` | main.go:287-299 | a tile lies within the grid width, below the grid top, and has the tile size, the entry's escaped name, its count and its colour; its row and column are given by `Layout.TilesRowMajor` and `Layout.TilesInGrid` |
| `Layout.TilesRowMajor` | main.go:288-291 | tiles go left to right and top to bottom: rank 0 at the grid's top-left corner, the next rank one tile and gap to the right, wrapping to the start of the next row after the last column |
| `Layout.WidthsAreShares` | main.go:271 | with non-negative counts and a positive total, each entry's width is the largest whole number not above its share `584 * bytes / total` |
| `Layout.Spans` | main.go:269-281 | only entries of non-zero width get a span, and every span except the last entry's has the entry's own width |
| `Layout.SpansContiguous` | main.go:269-281 | the spans follow rank order and each starts where the previous one ends |
| `Layout.SpansCoverNonZero` | main.go:272-274 | every entry of non-zero width gets a span |
| `Layout.SpansReachEdge` | main.go:275-277 | when the last entry has non-zero width, the last span ends at the bar's right edge |
| `Layout.SpansInside` | main.go:269-281 | with non-negative widths that fit, every span is at least one unit wide and inside the bar |
| `Layout.WidthsFit` | main.go:271 | the truncated widths of a positive total sum to at most the bar width |
| `Layout.BarSegments` | main.go:269-281 | each segment belongs to an entry and has that entry's table or palette colour |
| `Layout.NoteY` | main.go:304-307 | the footnote sits 20 below the grid, clamped to at most 302 |
| `Layout.WriteSvg` | main.go:201-309 | fails iff the ranking is empty or sums to zero; otherwise it uses `min(3, n)` columns and the ceiling number of rows, the clamped centring offset, one tile per entry, the bar segments, and a footnote iff something was excluded, 20 below the grid but at most at 302, holding the escaped "Excluded: …" text |
| `Layout.BarContiguous` | main.go:269-281 | the segments start at x = 28, follow rank order and abut |
| `Layout.BarInside` | main.go:269-281 | with non-negative counts every segment is at least one unit wide and lies within x = 28 … 612 |
| `Layout.BarCoversNonZero` | main.go:272-274 | every entry of non-zero width has a segment |
| `Layout.BarReachesEdge` | main.go:275-277 | when the last entry has non-zero width the bar ends exactly at x = 612 |
| `Layout.BarGapExample` | main.go:271-277 | for Go 1000 and Python 1 the bar has one segment and stops at x = 611 |
| `Layout.BarStopsShort` | main.go:271-277 | when the last entry has bytes but its truncated width is zero, every segment ends before x = 612: the other truncated widths add up to less than the bar |
| `Layout.BarZeroLastExamples` | main.go:271-277 | a last entry without bytes is skipped too: Go 1 and TeX 0 fill the bar to x = 612, while Go 2, Python 1 and TeX 0 stop at x = 611 |
| `Layout.TilesInGrid` | main.go:253-291 | in a drawn chart every tile lies between the grid top and the grid's bottom edge, and the last rank's tile reaches that edge |
| `Layout.TilesDisjoint` | main.go:287-291 | two tiles of different rank are at least a gap apart horizontally or vertically |
| `Layout.GridFitsIff` | main.go:253-291 | the grid ends above the lower padding (and above the card's edge) iff there are at most six entries |
| `Layout.CentredIff` | main.go:253-258 | the content is centred vertically to within one unit iff there are at most three entries, or at most six and no footnote; otherwise the offset is clamped to the padding |
| `Layout.NoteUnderGrid` | main.go:302-307 | with at most six entries the footnote sits exactly 20 below the grid |
| `Pipeline.Shown` | main.go:93-96 | the shown ranking is empty iff nothing is kept; it has at most `top + 1` entries when bucketing applies, and one entry per kept language otherwise |
| `Pipeline.ShownIsCollapsed` | main.go:94-96 | `main`'s guard around `collapseOthers` changes nothing, because that function returns its input in the skipped cases |
| `Pipeline.ShownPositiveIff` | main.go:92-96 | with non-negative counts the shown entries are non-negative and sum to more than zero iff some kept language has bytes |
| `Pipeline.ShownChartFailsIff` | main.go:94-100 | drawing the shown ranking fails iff no kept language has bytes |
| `Pipeline.Render` | main.go:92-100 | a drawn chart has a footnote iff some term was reported |
| `Pipeline.RenderFailsIff` | main.go:92-100 | with non-negative totals the run fails with "no language data" iff no language left after exclusion has bytes |
| `Pipeline.ReportNonEmptyIff` | main.go:550-567 | some term is reported iff some language matches an exclude term |
| `Pipeline.RenderNotesExclusions` | main.go:92-100 | a chart drawn after some language matched an exclude term carries the footnote |

## Left out

- HTTP: `fetchRepos`, `getJSON` and the requests in `fetchLanguages` are network I/O. Each repository's language map is taken as given (`Repos.Aggregate` receives the list of maps).
- `loadConfig` reads a file and parses JSON. The file's configuration is an input of `Config.MergeConfig`.
- Flag registration, `flag.Parse`, `parseBool` and `parseInt` are command-line parsing over `strconv`. Each flag is a `(val, given)` record.
- `exitWith` and the early exits of `main` (missing username, "no repositories after filtering") are process control; the model computes what they guard.
- `printTable` is console formatting.
- SVG text emission, `os.MkdirAll` and `os.WriteFile` in `writeSVG` are formatting and I/O. The model keeps the base coordinates, sizes, colours and strings of the chart. The rest of the SVG text is constant or lies at fixed offsets from these: the header string and its baseline `topOffset + 18` (main.go:260-261), and the swatch and label positions inside each tile (main.go:295-299).
- `owner` is not used by `writeSVG`; `path` feeds only the file write.
- The float64 percentage and its `%.2f` formatting (main.go:293, 298) are floating point.
- Layout.SegmentWidth: the float64 product `barWidth * (bytes / total)` is modelled as exact integer division truncated toward zero. Floating-point rounding can make Go's width differ by one unit when the exact share is an integer or very close to one.
- Byte counts are unbounded integers; int64 overflow in the sums is not modelled.
- Text.Lower: `strings.ToLower` is modelled on ASCII letters only; other characters are left unchanged.
- Text.Less: Go compares strings byte by byte in UTF-8. The model compares characters, which gives the same order for the ASCII names the program handles.
- The second `len(ranked) == 0` test in `writeSVG` (main.go:233) can never fire after the first; the model has one guard.
- `initialForLanguage` is not called anywhere in the program; it is modelled on its own.
- Config.Overlay: the flag overlay inside `Config.MergeConfig` has no contract of its own; `MergeConfig` states the overlay field by field.
