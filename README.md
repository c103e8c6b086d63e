# Warp toolbox: a verified model of its visit log and tool pages

This project models the browser toolbox in Dafny. It covers two parts.

**The visit log (`src/lib/analytics.ts`).** The log is kept in browser storage as a list of page views with a time of last cleanup. The model covers:

- loading the log, with an empty default when nothing readable is stored;
- the lazy retention sweep: at most once a day, it keeps the last 1000 records newer than 30 days;
- recording one visit: append one record, then truncate to 1000;
- the read-only snapshot:
  - today, week and month counts;
  - the unique-visitor estimate over (country, city, 30-minute bucket);
  - the five most visited pages and countries, with shares;
  - the 20 most recent geo-tagged visits;
  - the placeholders used when a list is empty.

The stored blob is the field `slot` of `Analytics.AnalyticsStore`. The clock readings, local midnight, the resolved country and city, and the outcome of writing to storage are arguments.

**Six tool pages under `src/app/tools/`.** Each page's state is a class whose handlers are methods:

- **Colour picker:** the hex ↔ RGB codec, the clamped RGB edit and the hex → RGB effect.
- **Calculator:** the keypad over `display`/`equation`/`hasResult`, and the expression sanitiser.
- **File converter:**
  - file-extension extraction;
  - the file queue: add, remove, retarget;
  - the pending → converting → done steps of the simulated conversion;
  - the format table fallbacks;
  - the convert button.
- **Text tools:** the statistics panel and the seven transforms.
- **Time-zone list:** the selection without duplicates, its complement, and the remove guard.
- **Hash page:** the bytes → lower-case hexadecimal encoding, and the loop that fills one result per algorithm.

Shared pieces sit in `common.dfy`:

- `Options` holds the optional value.
- `Chars` holds JavaScript's `\s` and `\w` and the ASCII case mappings.
- `HexText` holds `toString(16)` with `padStart(2, "0")`.
- `Seqs` holds the count of an element's occurrences in a sequence, shared by the text statistics and the visit tallies, and `find` by id, shared by the converter's format table and the time-zone catalogue.
- `Strings` holds `split` and `join` on one character.

**Where the code and its description differ.** The model follows the code.

- The sweep keeps records with `timestamp > now - 30 days`, but the month window counts `timestamp >= now - 30 days`. A record exactly 30 days old is therefore counted by the month window and dropped by the next sweep.
- `recentUsers` is taken from the whole stored log, not from the month window.

## Model

| member | source | states |
|---|---|---|
| Analytics.Load | src/lib/analytics.ts:17-29 | `getStoredData`: the stored log, or an empty log with `lastCleanup = now` |
| Analytics.LoadDefault | src/lib/analytics.ts:17-29 | a missing or unparseable blob loads as an empty `pageViews` list stamped `now`; a readable one loads as stored |
| Analytics.TakeLast | src/lib/analytics.ts:50 | `slice(-n)` keeps min(n, length) elements, and they are the suffix of the input |
| Analytics.Filter | src/lib/analytics.ts:50 | a record is in the result exactly when it is in the input and passes the test |
| Analytics.FilterAppend | src/lib/analytics.ts:50 | filtering keeps order: it distributes over concatenation |
| Analytics.FilterChronological | src/lib/analytics.ts:50 | a filtered log in recording order stays in recording order |
| Analytics.SweepSpec | src/lib/analytics.ts:41-53 | less than 24 h since `lastCleanup` leaves the data unchanged. Otherwise `lastCleanup = now`, at most 1000 records are kept, and they are a suffix, in order, of the records with `timestamp > now - 30 days`. All such records are kept when there are at most 1000, and nothing older survives. |
| Analytics.SweepChronological | src/lib/analytics.ts:41-53 | the sweep keeps a log in recording order |
| Analytics.AppendedSpec | src/lib/analytics.ts:84-93 | after the push and the truncation, the new record is last and there are at most 1000 records. The log is a suffix of old log + record, so any dropped records are the oldest. Nothing is dropped when there was room, and the result is exactly 1000 otherwise. |
| Analytics.AppendedChronological | src/lib/analytics.ts:84-93 | recording a visit no earlier than the stored ones keeps the log in order |
| Analytics.AnalyticsStore.TrackPageView | src/lib/analytics.ts:55-96 | a successful save stores load → sweep → append of the record (page, visit time, country, city), with at most 1000 records; a failed save leaves storage unchanged |
| Analytics.SinceMonotone | src/lib/analytics.ts:106-108 | a later window start never counts more records |
| Analytics.NatDecimal | src/lib/analytics.ts:113 | `${n}` of a bucket number is a non-empty string of decimal digits, with two or more digits exactly from 10 up |
| Analytics.NatDecimalInjective | src/lib/analytics.ts:113 | different bucket numbers are written differently |
| Analytics.IntDecimalInjective | src/lib/analytics.ts:113 | different integers, negative ones included, are written differently |
| Analytics.SessionsBound | src/lib/analytics.ts:110-117 | the number of distinct session ids is at most the number of records, and it is 0 exactly for no records |
| Analytics.SessionBuckets | src/lib/analytics.ts:113 | two records with the same country and city share a session id exactly when they fall in the same 30-minute bucket, so records in different buckets count as two visitors |
| Analytics.SameSessionCountsOnce | src/lib/analytics.ts:110-117 | a record whose (country, city, bucket) id was already seen adds no visitor |
| Analytics.SessionMember | src/lib/analytics.ts:112-115 | every record's session id is in the set |
| Analytics.UniqueVisitors | src/lib/analytics.ts:110-117 | the `forEach` loop returns the number of distinct session ids: at most the record count, and 0 exactly for no records |
| Analytics.IndexOf | src/lib/analytics.ts:120 | finds the entry for a key if there is one, and otherwise reports that no entry has the key |
| Analytics.TotalCountUpdate | src/lib/analytics.ts:136 | replacing one entry changes the sum of counts by the difference of the two counts |
| Analytics.OccurrencesSnoc | src/lib/analytics.ts:119-122 | one more key raises its own count by one and leaves the others' counts alone |
| Analytics.BumpSeen | src/lib/analytics.ts:120 | `acc[k] + 1` on a key already counted keeps the record correct |
| Analytics.BumpNew | src/lib/analytics.ts:120 | `(acc[k] \|\| 0) + 1` on a new key appends an entry with count 1 and keeps the record correct |
| Analytics.FirstIndex | src/lib/analytics.ts:119-122 | the position of a key's first occurrence |
| Analytics.FirstIndexSnoc | src/lib/analytics.ts:119-122 | counting one more key does not move earlier first occurrences, and a new key first occurs last |
| Analytics.FirstSeenBumpSeen | src/lib/analytics.ts:120 | raising the count of a key already in the record keeps the entries in first-seen order |
| Analytics.FirstSeenBumpNew | src/lib/analytics.ts:120 | a key seen for the first time becomes the last entry, keeping first-seen order |
| Analytics.TallyFirstSeen | src/lib/analytics.ts:119-122 | `Object.entries` of the counting record lists the keys in the order they first occur |
| Analytics.TallySpec | src/lib/analytics.ts:119-122 | the counting record has distinct keys, exactly the keys that occur, each with its number of occurrences (≥ 1), and counts that sum to the number of keys |
| Analytics.Pages | src/lib/analytics.ts:119-122 | one page per record |
| Analytics.Countries | src/lib/analytics.ts:129-134 | only truthy (non-empty) countries are counted, at most one per record |
| Analytics.PagesCount | src/lib/analytics.ts:119-122 | a page's count is the number of month records for that page |
| Analytics.CountriesCount | src/lib/analytics.ts:129-136 | a country's count is the number of month records from that country, and the total is the number of records with a truthy country; the others are skipped |
| Analytics.CountPages | src/lib/analytics.ts:119-122 | the `reduce` loop computes the counting record of the records' pages |
| Analytics.CountCountries | src/lib/analytics.ts:129-134 | the `reduce` loop computes the counting record of the truthy countries and skips the other records |
| Analytics.Insert | src/lib/analytics.ts:125 | inserting into the sorted list adds exactly that entry |
| Analytics.InsertSorted | src/lib/analytics.ts:125 | insertion keeps the counts non-increasing |
| Analytics.SortByCount | src/lib/analytics.ts:124-125 | sorting by count is a permutation of the entries |
| Analytics.SortedByCount | src/lib/analytics.ts:124-125 | the sorted entries have non-increasing counts |
| Analytics.WithCountMembers | src/lib/analytics.ts:125 | the entries with a given count, exactly those, in order |
| Analytics.InsertWithCount | src/lib/analytics.ts:125 | an inserted entry goes ahead of all entries with its own count, and the other entries keep their order |
| Analytics.SortStable | src/lib/analytics.ts:125 | the sort is stable: entries with equal counts keep their relative order |
| Analytics.Take | src/lib/analytics.ts:126 | `slice(0, n)` is the prefix of length min(n, length) |
| Analytics.Top5Spec | src/lib/analytics.ts:124-127 | at most five entries of the record, highest count first, none only for an empty record; no entry left out has a higher count than one kept |
| Analytics.PercentTenthsRounds | src/lib/analytics.ts:143 | the share in tenths of a percent is `visits/total·1000` rounded half up, and at most 1000 when visits ≤ total |
| Analytics.TaggedTruthy | src/lib/analytics.ts:147 | the rows considered for recent users have a non-empty country and city |
| Analytics.RecentUsersRows | src/lib/analytics.ts:146-162 | at most 20 rows, ids 1..n; row i is the i-th geo-tagged record counted from the end, with its non-empty country and city, page and timestamp |
| Analytics.RecentUsersOrder | src/lib/analytics.ts:146-162 | for a log in recording order, the rows go from the most recent visit to the oldest |
| Analytics.WindowsSpec | src/lib/analytics.ts:102-117 | each window's `visits` and `pageViews` equal the number of records at or after its start, and `uniqueVisitors` is at most `visits`. The month's estimate is 0 exactly for an empty month. week ≤ month, and today ≤ week when midnight is within the past week. |
| Analytics.PagesOccur | src/lib/analytics.ts:119-122 | a page is counted exactly when some record visits it |
| Analytics.TopPagesSpec | src/lib/analytics.ts:119-127 | `topPages` has 1 to 5 entries, highest first. It is the `/`-with-0 placeholder exactly when the month is empty. Otherwise each entry counts that page's month records, and no page left out has more. |
| Analytics.ShareRow | src/lib/analytics.ts:140-144 | one country row counts its country's occurrences and has a share in 0..1000 tenths |
| Analytics.SharesOf | src/lib/analytics.ts:136-144 | at most five rows, highest first, none only for no countries. Each row counts its country's occurrences, and its share is taken of all counted country visits. |
| Analytics.TopCountriesSpec | src/lib/analytics.ts:129-144 | `topCountries` has 1 to 5 entries, highest first, and counts only country-tagged month records. It is the `FR`-with-0 placeholder exactly when there are none. Each share is in 0..1000 tenths. |
| Analytics.RecentUsersOfLog | src/lib/analytics.ts:146-148 | the recent users come from the whole stored log, and there are at most 20 |
| Analytics.GetAnalytics | src/lib/analytics.ts:98-184 | the snapshot is `SnapshotOf` the loaded log, and it never writes storage: no `modifies` clause |
| ColorPicker.DigitsOf | src/app/tools/color-picker/page.tsx:16 | the six digits of a valid colour text, with the optional `#` removed |
| ColorPicker.HexToRgb | src/app/tools/color-picker/page.tsx:15-24 | a result exactly for an optional `#` and six hex digits in either case; every component is in 0..255 |
| ColorPicker.RgbToHexShape | src/app/tools/color-picker/page.tsx:26-28 | for components in 0..255: `#` and six lower-case digits, two per component, high nibble first, zero-padded |
| ColorPicker.HexRoundTrip | src/app/tools/color-picker/page.tsx:15-28 | `hexToRgb(rgbToHex(c)) = c` for components in 0..255 |
| ColorPicker.HexReverseRoundTrip | src/app/tools/color-picker/page.tsx:15-28 | `rgbToHex(hexToRgb(h))` is `#` and the lower-cased six digits of a valid `h` |
| ColorPicker.Clamp | src/app/tools/color-picker/page.tsx:79 | `min(255, max(0, v))` is in 0..255, keeps in-range values, and sends values below 0 to 0 and values above 255 to 255 |
| ColorPicker.ClampedEditInRange | src/app/tools/color-picker/page.tsx:78-82 | the clamped edit stays in range and changes only the named component |
| ColorPicker.ColorPickerPage.constructor | src/app/tools/color-picker/page.tsx:65-67 | starts at `#6366f1` = (99, 102, 241) |
| ColorPicker.ColorPickerPage.ColorEffect | src/app/tools/color-picker/page.tsx:70-76 | a valid colour text sets RGB (and the HSL source) from it; an invalid one leaves RGB and HSL unchanged |
| ColorPicker.ColorPickerPage.SetColor | src/app/tools/color-picker/page.tsx:70-76 | typing a colour text and running the effect keeps the page consistent |
| ColorPicker.ColorPickerPage.HandleRgbChange | src/app/tools/color-picker/page.tsx:78-82 | the new RGB is the old one with the named component clamped, and the colour text is its hex form |
| Calculator.Sanitize | src/app/tools/calculator/page.tsx:54-57 | the output is no longer than the input and has only `0-9 + - * / . ( )` and spaces |
| Calculator.SanitizeAppend | src/app/tools/calculator/page.tsx:54-57 | the sanitiser works character by character: it distributes over concatenation |
| Calculator.SanitizeKeeps | src/app/tools/calculator/page.tsx:57 | an expression made only of allowed characters passes unchanged |
| Calculator.SanitizeSigns | src/app/tools/calculator/page.tsx:55-56 | `×` becomes `*` and `÷` becomes `/` |
| Calculator.SanitizeIdempotent | src/app/tools/calculator/page.tsx:54-57 | sanitising twice is sanitising once |
| Calculator.SanitizeDrops | src/app/tools/calculator/page.tsx:57 | text with no allowed character and no `×`/`÷` sanitises to nothing |
| Calculator.Dots | src/app/tools/calculator/page.tsx:24 | the number of `.` is 0 exactly when the display has none |
| Calculator.DotsAppend | src/app/tools/calculator/page.tsx:27 | appending a key adds one dot exactly when the key is `.` |
| Calculator.CalculatorPage.constructor | src/app/tools/calculator/page.tsx:13-15 | starts at ("0", "", no result) |
| Calculator.CalculatorPage.HandleNumber | src/app/tools/calculator/page.tsx:17-29 | after a result the key starts fresh. A digit replaces a `0` display. A second `.` changes nothing, and anything else is appended. A display with at most one `.` keeps at most one. |
| Calculator.CalculatorPage.HandleOperator | src/app/tools/calculator/page.tsx:31-35 | equation = display + " " + op + " ", display = "0", no result |
| Calculator.CalculatorPage.HandleClear | src/app/tools/calculator/page.tsx:37-41 | resets to ("0", "", no result) whatever the state, so it is idempotent |
| Calculator.CalculatorPage.HandleDelete | src/app/tools/calculator/page.tsx:43-49 | drops the last character when the display has more than one, and otherwise shows "0"; the display is never empty |
| Calculator.CalculatorPage.HandleEquals | src/app/tools/calculator/page.tsx:51-65 | the evaluated text is the sanitised full equation. An evaluation result is shown with `equation + display + " ="`; a failure shows `Erreur`. Either way there is a result. |
| Converter.ExtensionIsAfterLastDot | src/app/tools/converter/page.tsx:125-127 | the lower-cased text after the last `.`; the whole lower-cased name when there is no `.`; `""` for an empty name or one ending in `.` |
| Converter.LowerKeepsDots | src/app/tools/converter/page.tsx:126 | lower-casing neither adds nor removes a `.` |
| Converter.NewEntry | src/app/tools/converter/page.tsx:165-174 | a new entry is pending at 0 %, targets the global format, and has the name's extension as its type |
| Converter.RemoveById | src/app/tools/converter/page.tsx:179 | removes exactly the entries with that id and keeps the others |
| Converter.RemoveByIdAppend | src/app/tools/converter/page.tsx:179 | removal keeps order: it distributes over concatenation |
| Converter.RemoveAbsentId | src/app/tools/converter/page.tsx:179 | removing an absent id changes nothing |
| Converter.Retarget | src/app/tools/converter/page.tsx:182-186 | changes only `targetFormat`, and only of the matching entries; length and order are kept |
| Converter.Advances | src/app/tools/converter/page.tsx:198-203 | the progress steps are 0, 10, …, 10(n-1) |
| Converter.ReplayAppend | src/app/tools/converter/page.tsx:188-210 | replaying two runs of steps is replaying them one after the other |
| Converter.ReplayOneId | src/app/tools/converter/page.tsx:192-209 | steps for one id touch only the status and progress of entries with that id |
| Converter.ReplayStepsFor | src/app/tools/converter/page.tsx:192-209 | converting one file (converting at 0, progress 0..100 by 10, done at 100) leaves its entries done at 100 and all others unchanged |
| Converter.ReplayPlan | src/app/tools/converter/page.tsx:188-210 | converting a list of ids marks exactly those ids' entries done at 100 |
| Converter.PendingIdsComplete | src/app/tools/converter/page.tsx:189-190 | the loop visits exactly the ids of the pending entries |
| Converter.ConversionOutcome | src/app/tools/converter/page.tsx:188-210 | after the conversion, every entry that shared an id with a pending file is done at 100 and the others are unchanged; no entry is left pending |
| Converter.PlanOfPrefix | src/app/tools/converter/page.tsx:189-190 | one more file adds its steps when it is pending and nothing otherwise |
| Converter.ConvertDisabledIffNoneCounted | src/app/tools/converter/page.tsx:412-416 | the convert button is disabled exactly when its label counts no pending file |
| Seqs.FindBy | src/app/tools/converter/page.tsx:214 | `find` by id, as `formats.find` here and `timezones.find` on the time-zone page use it: none exactly when no element has the id; otherwise the first element that has it |
| Converter.FormatColor | src/app/tools/converter/page.tsx:218-221 | the format's colour, or the grey default for an unknown id |
| Converter.FormatIcon | src/app/tools/converter/page.tsx:213-216 | the format's icon, or the file-text default for an unknown id |
| Converter.FormatsColored | src/app/tools/converter/page.tsx:39-104 | every format in the table has a non-empty colour, so `\|\|` falls back only for unknown ids |
| Converter.ConverterPage.constructor | src/app/tools/converter/page.tsx:130-132 | no files, global target `pdf` |
| Converter.ConverterPage.AddFiles | src/app/tools/converter/page.tsx:164-176 | the old entries keep their order, and one new pending entry per file is appended, in order |
| Converter.ConverterPage.RemoveFile | src/app/tools/converter/page.tsx:178-180 | the queue becomes `RemoveById` of the old queue |
| Converter.ConverterPage.UpdateFileFormat | src/app/tools/converter/page.tsx:182-186 | the queue becomes `Retarget` of the old queue |
| Converter.ConverterPage.ConvertOne | src/app/tools/converter/page.tsx:192-209 | the inner loop performs exactly one file's steps on the queue |
| Converter.ConverterPage.SimulateConversion | src/app/tools/converter/page.tsx:188-211 | the steps taken are the plan for the pending files of the queue at the start, and the queue is their replay |
| Chars.UpperString | src/app/tools/text/page.tsx:34 | `toUpperCase` maps each character and keeps the length |
| Chars.UpperStringIdempotent | src/app/tools/text/page.tsx:34 | upper-casing twice is upper-casing once, and it leaves no lower-case letter |
| Chars.LowerStringIdempotent | src/app/tools/text/page.tsx:37 | lower-casing twice is lower-casing once, and it leaves no upper-case letter |
| HexText.Hex2OfByte | src/app/tools/color-picker/page.tsx:27 | `toString(16).padStart(2, "0")` of a byte is its two lower-case digits, high first |
| HexText.PairValueOfHex2 | src/app/tools/color-picker/page.tsx:19-21 | `parseInt` of the two digits written for a byte gives the byte |
| HexText.Hex2OfPairValue | src/app/tools/color-picker/page.tsx:19-27 | writing the value of two digits gives them back lower-cased |
| Strings.JoinSplit | src/app/tools/text/page.tsx:26 | joining the pieces of `split(sep)` with `sep` gives the text back |
| Strings.LastPiece | src/app/tools/converter/page.tsx:126 | the last piece of `split(".")` is the text after the last `.`, or the whole text when there is none |
| Seqs.Occurrences | src/lib/analytics.ts:119-122 | the number of occurrences is at most the length, and 0 exactly when the element is absent |
| Strings.SplitCount | src/app/tools/text/page.tsx:26 | `split` gives one more piece than there are separators |
| TextTools.Remove | src/app/tools/text/page.tsx:24 | `replace(/\s/g, "")` keeps only non-whitespace characters of the input |
| TextTools.RemoveAppend | src/app/tools/text/page.tsx:24 | removal distributes over concatenation |
| TextTools.SkipSpaces | src/app/tools/text/page.tsx:25 | the end of the leading whitespace: only whitespace before it, and a non-whitespace character at it |
| TextTools.BackSpaces | src/app/tools/text/page.tsx:25 | the start of the trailing whitespace |
| TextTools.TrimSlice | src/app/tools/text/page.tsx:25 | `trim()` is the slice after the leading whitespace, and only whitespace lies before and after it |
| TextTools.TrimEnds | src/app/tools/text/page.tsx:25 | the trimmed text starts and ends with non-whitespace, and it is empty exactly for a blank text |
| TextTools.TrimFixed | src/app/tools/text/page.tsx:25 | a text with no whitespace at its ends trims to itself |
| TextTools.FirstRun | src/app/tools/text/page.tsx:25-28 | the first position where a separator run of the given length starts, or none |
| TextTools.SplitRuns | src/app/tools/text/page.tsx:25-28 | `split` on a separator regex: at least one piece, and no piece contains a separator run |
| TextTools.SepRuns | src/app/tools/text/page.tsx:25-28 | the runs the split cuts out: one fewer than the pieces, each all separators and at least as long as the regex demands |
| TextTools.SplitRunsInterleave | src/app/tools/text/page.tsx:25-28 | the pieces with the cut-out runs put back between them are the text |
| TextTools.SplitRunsKeeps | src/app/tools/text/page.tsx:28 | a character that is not a separator lies in some piece, so some piece is non-empty |
| TextTools.ConcatSplitRuns | src/app/tools/text/page.tsx:25-27 | concatenating the pieces of a split on single separators gives the text without its separators |
| TextTools.NonEmpty | src/app/tools/text/page.tsx:27-28 | `filter(Boolean)` keeps exactly the non-empty pieces |
| TextTools.ConcatNonEmpty | src/app/tools/text/page.tsx:27-28 | dropping empty pieces does not change their concatenation |
| TextTools.CharacterCounts | src/app/tools/text/page.tsx:23-24 | `characters` is the length, and `charactersNoSpaces` is at most that and equals it when there is no whitespace |
| TextTools.RemoveTrimmed | src/app/tools/text/page.tsx:24-25 | trimming first does not change the non-whitespace characters |
| TextTools.WordsAreRuns | src/app/tools/text/page.tsx:25 | `words` is 0 exactly for a blank text. Otherwise the trimmed text is the words with non-empty whitespace runs between them, and each word is non-empty and whitespace-free, so `words` counts the maximal non-whitespace runs; together the words are the non-whitespace characters. |
| TextTools.LinesCount | src/app/tools/text/page.tsx:26 | `lines` is 0 for an empty text and otherwise the number of `\n` plus one |
| TextTools.SentencesAreRuns | src/app/tools/text/page.tsx:27 | `sentences` is 0 for a blank text. Otherwise the text is the pieces with non-empty runs of `.`, `!` and `?` between them, and `sentences` counts the non-empty pieces, which together are the text without those characters. |
| TextTools.ParagraphsShape | src/app/tools/text/page.tsx:28 | `paragraphs` is 0 for a blank text and at least 1 otherwise. The text is the pieces with runs of two or more `\n` between them; no piece holds `\n\n`, and `paragraphs` counts the non-empty pieces. |
| TextTools.Capitalize | src/app/tools/text/page.tsx:40 | the capitalised text keeps the length and is decided character by character |
| TextTools.CapitalizeSpec | src/app/tools/text/page.tsx:40 | every word start is upper-cased, every other character is kept, and capitalising twice is capitalising once |
| TextTools.PrevNonSpace | src/app/tools/text/page.tsx:43 | the nearest earlier non-whitespace character, with only whitespace between |
| TextTools.SentenceCaseSpec | src/app/tools/text/page.tsx:43 | the lower-cased text with each sentence start upper-cased; no other upper-case letter; idempotent |
| TextTools.Reverse | src/app/tools/text/page.tsx:46 | character i of the result is character n-1-i of the text (characters, not UTF-16 code units) |
| TextTools.ReverseInvolution | src/app/tools/text/page.tsx:46 | reversing twice gives the text back |
| TextTools.ReplaceRuns | src/app/tools/text/page.tsx:49 | `replace(/[class]+/g, c)` is never longer than the text and is empty only for an empty text |
| TextTools.ReplaceRunsSplit | src/app/tools/text/page.tsx:49 | the replacement is the split at separator runs with one `c` in each gap |
| TextTools.ReplaceKeepsText | src/app/tools/text/page.tsx:49 | when `c` is a separator, the replacement keeps every other character, in order |
| TextTools.ReplaceCount | src/app/tools/text/page.tsx:49 | when `c` is a separator, the replacement holds one `c` per separator run |
| TextTools.ReplaceShape | src/app/tools/text/page.tsx:49 | when `c` is a separator, the only separators left are single `c`s, and the result starts and ends with a separator as the text does |
| TextTools.ReplaceFixed | src/app/tools/text/page.tsx:49 | a text whose separators are single `c`s is its own replacement |
| TextTools.CollapseRuns | src/app/tools/text/page.tsx:49 | `replace(/\s+/g, " ")` turns each maximal whitespace run into exactly one space and keeps every other character in place |
| TextTools.CollapseShape | src/app/tools/text/page.tsx:49 | the collapsed text's only whitespace is single spaces, and it starts and ends with whitespace as the text does |
| TextTools.TrimAndCollapseShape | src/app/tools/text/page.tsx:49 | the `trim` transform leaves no whitespace at either end and only single spaces inside |
| TextTools.TrimAndCollapseWords | src/app/tools/text/page.tsx:49 | the `trim` transform is the words of the statistics joined by single spaces: it keeps every non-whitespace character, in order, and holds one space fewer than there are words |
| TextTools.TrimAndCollapseIdempotent | src/app/tools/text/page.tsx:49 | applying `trim` again changes nothing |
| TextTools.KindOf | src/app/tools/text/page.tsx:31-54 | a case is chosen exactly for the seven known names |
| TextTools.TransformTwice | src/app/tools/text/page.tsx:33-53 | every transform but `reverse` is idempotent (`lorem` always sets the fixed text), and `reverse` undoes itself |
| TextTools.TextPage.Transform | src/app/tools/text/page.tsx:31-55 | a known case overwrites the text with its transform; any other name changes nothing |
| Timezone.Timezones | src/app/tools/timezone/page.tsx:13-31 | the catalogue has 17 zones |
| Timezone.Without | src/app/tools/timezone/page.tsx:83 | `filter(z => z !== id)` keeps every other id and drops that one |
| Timezone.WithoutNoDuplicates | src/app/tools/timezone/page.tsx:82-84 | removal keeps the list free of duplicates and shortens it by one exactly when the id was there |
| Timezone.WithoutAppend | src/app/tools/timezone/page.tsx:83 | removal keeps order: it distributes over concatenation |
| Timezone.Available | src/app/tools/timezone/page.tsx:86 | `availableZones` has exactly the catalogue zones whose id is not selected |
| Timezone.AvailableAppend | src/app/tools/timezone/page.tsx:86 | the available zones are in catalogue order |
| Timezone.AvailableComplement | src/app/tools/timezone/page.tsx:86 | a catalogue zone is offered exactly when it is not selected |
| Timezone.RenderedOrder | src/app/tools/timezone/page.tsx:126-128 | the zones are drawn in selection order: drawing two selections in turn is drawing each in turn, and one id draws its zone or nothing |
| Timezone.Rendered | src/app/tools/timezone/page.tsx:126-128 | the drawn zones are selected catalogue zones; every selected id found in the catalogue is drawn; unknown ids are skipped |
| Timezone.RemoveThroughControlKeepsOne | src/app/tools/timezone/page.tsx:147-149 | the remove control appears only with more than one zone, so removing through it leaves at least one |
| Timezone.TimezonePage.constructor | src/app/tools/timezone/page.tsx:64-66 | starts with local, UTC, New York and Tokyo selected and the selector closed |
| Timezone.TimezonePage.AddZone | src/app/tools/timezone/page.tsx:75-80 | appends the id only when it is absent, so there are never duplicates; always closes the selector |
| Timezone.TimezonePage.RemoveZone | src/app/tools/timezone/page.tsx:82-84 | removes that id, keeps the others in order, and keeps the list free of duplicates |
| HashTool.ByteHex | src/app/tools/hash/page.tsx:20 | one byte is two lower-case hex digits, high nibble first, zero-padded, and they read back as the byte |
| HashTool.ToHex | src/app/tools/hash/page.tsx:19-20 | exactly two characters per byte, all in `0-9a-f` |
| HashTool.ToHexAt | src/app/tools/hash/page.tsx:20 | byte i is written at positions 2i and 2i+1, high nibble first |
| HashTool.FromHexToHex | src/app/tools/hash/page.tsx:19-20 | decoding the hex text gives the bytes back |
| HashTool.ToHexInjective | src/app/tools/hash/page.tsx:19-20 | different digests give different hex texts |
| HashTool.HashTextLength | src/app/tools/hash/page.tsx:15-21 | a 20/32/48/64-byte digest gives 40/64/96/128 characters |
| HashTool.ResultsSnoc | src/app/tools/hash/page.tsx:41-43 | one loop iteration adds the algorithm's entry to the record |
| HashTool.ResultsContents | src/app/tools/hash/page.tsx:40-43 | the record holds exactly the visited algorithms' names, each with its own digest text |
| HashTool.AllResults | src/app/tools/hash/page.tsx:30-43 | after the loop, every algorithm has its entry, holding its digest text |
| HashTool.ResultKeys | src/app/tools/hash/page.tsx:30-43 | the record's keys are exactly SHA-1, SHA-256, SHA-384 and SHA-512 |
| HashTool.HashPage.GenerateHashes | src/app/tools/hash/page.tsx:37-46 | an empty text does nothing; otherwise `hashes` becomes the full record and `loading` ends off |

## Left out

- The geolocation request and its random fallback (src/lib/analytics.ts:58-82) are network access and randomness. The resolved country and city are arguments of `TrackPageView`.
- `localStorage`, `JSON.parse`/`JSON.stringify` and the `typeof window` checks are I/O. The stored blob is a `Slot`: empty, unreadable, or holding a log. A failed write is the `saved` argument. The server-side branch, where there is no `window`, behaves like an empty slot that is never written.
- `Date.now()` readings and local midnight (`setHours(0, 0, 0, 0)`) are clock and locale. They are arguments: `TrackPageView` takes its load, sweep and visit times separately because the source reads the clock at each point, and `GetAnalytics` takes `now` and `todayStart`.
- The `toLocaleString` date of a recent user is locale formatting. The row keeps the record's timestamp instead.
- Analytics.PercentTenths: the source's `Math.round(visits / total * 1000) / 10` is floating point. The model states the exact share in integer tenths of a percent, rounded half up, which can differ from the float result in the last digit.
- Analytics.SortByCount: `Object.entries` lists integer-like keys first, in numeric order, and the other keys in insertion order. The model lists every key in first-seen order (`TallyFirstSeen`) and sorts stably (`SortStable`). The two orders agree because page paths and country names are not integer-like.
- Analytics.NatDecimal: `${n}` switches to exponent notation from 10^21. Session buckets never reach that.
- Overlapping asynchronous `trackPageView` calls can each load and save the log. The model runs one call at a time.
- `rgbToHsl` is floating-point arithmetic. The colour picker records the RGB colour its HSL panel shows, not the HSL numbers.
- `formatFileSize` is floating point. An entry's size is kept as given and its display text is not modelled.
- The calculator's `handlePercent` and `handleSign` are floating point.
- The calculator's evaluation through `Function(...)` is dynamic code execution. Its outcome is the `outcome` argument of `HandleEquals`, and the model keeps the sanitiser.
- The `setTimeout` delays in `simulateConversion` are timing. The model keeps the sequence of state changes. The random file ids of `addFiles` are arguments.
- Chars.UpperString: `toUpperCase`/`toLowerCase` are modelled on ASCII letters only; other letters are left unchanged.
- TextTools.Reverse: `split("")` splits the text into UTF-16 code units, so a character outside the Basic Multilingual Plane (an emoji, say) comes out as two lone surrogates in swapped order. The model reverses characters, which agrees with the source only for texts without such characters.
- HashTool.HashPage.GenerateHashes: the source has no `try`/`catch` around the awaited digests (src/app/tools/hash/page.tsx:18, 39-45), so a rejected digest leaves `loading` on and `hashes` as they were. The model's digest is a total function and always succeeds, so that stuck state is not modelled.
- Converter.ConverterPage.SimulateConversion: in the source the run awaits between steps, and other handlers (adding or removing files, changing a target) can run in between. A file added mid-run stays pending, and a removed one is skipped by the remaining updates. The model runs the conversion without interleaving, so `ConversionOutcome` describes an uninterrupted run only.
- TextTools.CharacterCounts: `text.length` counts UTF-16 code units. The model counts characters, which agrees outside the astral planes.
- The SHA digests and `TextEncoder` are platform code. The digest is a function argument of the hash operations, with its lengths as a precondition where they matter.
- Clipboard copying, the theme, the language context, animation and all rendering are left out.
