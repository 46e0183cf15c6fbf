# text_hunter: header-block extractor and its views

`hunter.py` walks a directory tree and scans every file with a matching
extension for "header blocks". A block starts at a line that contains one of
the trigger phrases and runs until the next line of length at most 1. The
lines it captures are gathered into a `Results` collection. That collection
offers several views: the raw texts, a count per distinct raw text, the unique
sanitized texts, the unique paths, and a heat-map of texts ranked by count.

This project models the extractor and the views in Dafny and proves their
properties:

- `text.dfy` (module `Text`): Python's substring test (`sub in s`), and
  `sanitized`, which is `replace("\n", "")` followed by `strip()`.
- `hunter.dfy` (module `Hunter`): the per-line state machine of
  `find_by_headers`, a functional specification of the scan (`Scan` over a
  range of a file's lines, `FindAll`), and the imperative scan `FindByHeaders`. That method has the
  source's nested loops, its mutable `found` flag and its growing output list,
  and it is proved equal to `FindAll`. Lemmas cover the emission filter, the
  per-file reset, the block end at a blank line, and the trigger line.
- `views.dfy` (module `Views`): `contents`, `paths`, `content_occurence`
  (with its items in dict insertion order), `content_unique`, `paths_unique`
  and `heatmap`, with lemmas relating them.
- `scenarios.dfy` (module `Scenarios`): worked examples on concrete files.

The extractor receives the enumerated files in order, each already split into
lines the way `readlines()` splits them (terminators kept). Python's `str` is
modelled as `seq<char>`, a path as such a string, and the `Results` list as
`seq<Result>`.

## Model

| member | source | states |
|---|---|---|
| `Text.Contains` | hunter.py:123 | Python's `sub in s` as a recursive test: a prefix of `s` is contained in it, and nothing longer than `s` is |
| `Text.ContainsIffOccurs` | hunter.py:123 | the recursive substring test holds exactly when `sub` occurs at some position of `s`, as Python's `in` on strings |
| `Text.OccursAtContains` | hunter.py:123 | an occurrence at a known position makes the substring test succeed |
| `Text.MissingCharNotContained` | hunter.py:127 | a non-empty string whose first character is absent from `s` is not contained in `s` |
| `Text.IsWhitespace` | hunter.py:36 | the characters `strip()` removes, restricted to ASCII: tab, line feed, vertical tab, form feed, carriage return, 0x1C-0x1F and space |
| `Text.LeadingWhitespace` | hunter.py:36 | the length `lstrip()` cuts: every character before it is whitespace, and the character at it is not |
| `Text.TrimmedLength` | hunter.py:36 | the length `rstrip()` keeps: every character from it on is whitespace, and the last kept character is not |
| `Text.TrimmedSliceIsCut` | hunter.py:36 | cutting the leading whitespace, then the trailing whitespace of the rest, cuts only whitespace from either end |
| `Text.Strip` | hunter.py:36 | the result is a slice of the input with only whitespace cut on either side, and neither end of it is whitespace |
| `Text.RemoveNewlines` | hunter.py:36 | no line feed is left, it is no longer than the input, every other character keeps its number of occurrences, and a one-character string loses that character exactly when it is a line feed |
| `Text.RemoveNewlinesAppend` | hunter.py:36 | deleting line feeds distributes over concatenation, so together with the one-character case the kept characters stay in their order |
| `Text.RemoveNewlinesNoop` | hunter.py:36 | deleting line feeds from a string without any leaves it unchanged |
| `Text.Sanitized` | hunter.py:34-36 | the sanitized text is a slice of the text without line feeds with only whitespace cut on either side; it has no line feed, no whitespace at either end, and is no longer than the input |
| `Text.SanitizedFixpoint` | hunter.py:34-36 | a string with no line feed and no whitespace at either end is its own sanitized form |
| `Text.SanitizedIdempotent` | hunter.py:34-36 | sanitizing twice gives the same as sanitizing once |
| `Hunter.HasPhrase` | hunter.py:123 | `any(phrase in _line for phrase in phrases)`: the phrases are tried in order, and an empty list holds none |
| `Hunter.HasPhraseIffSome` | hunter.py:123 | `any(phrase in _line ...)` holds exactly when some phrase of the list is contained in the line |
| `Hunter.NextFound` | hunter.py:123-126 | after the phrase rule and the length rule, the flag is set exactly when the line has length of at least 2 and the flag was set or the line holds a phrase; so `_line[0]` is only read on a non-empty line |
| `Hunter.Emits` | hunter.py:127 | the third rule: a line is captured when the flag is set and the line is capturable (no `###` in it, no `#` in front) |
| `Hunter.Scan` | hunter.py:122-128 | a scan of a run of lines emits at most one entry per line |
| `Hunter.ScanFile` | hunter.py:120-128 | one file's entries: its lines scanned with the flag starting idle |
| `Hunter.FindAll` | hunter.py:118-129 | the collection: each enumerated file's entries, in enumeration order |
| `Hunter.FindByHeaders` | hunter.py:118-129 | the nested loop with the mutable flag, reset to false for each file, returns exactly the specification `FindAll`: each file's scan from the idle state, concatenated in file order |
| `Hunter.ScanStep` | hunter.py:122-128 | one pass of the line loop: the entries so far plus the scan of the rest of the file stay the same once the line is handled |
| `Hunter.FileStep` | hunter.py:119-128 | one pass of the file loop: after the file's lines are consumed, the entries so far plus the remaining files' collection equal the entries before the file plus the collection from that file on |
| `Hunter.ScanEntries` | hunter.py:122-128 | every entry of a scan carries the file's path and one of the scanned lines; the line has length of at least 2, holds no `###` and does not start with `#` |
| `Hunter.FindAllEntries` | hunter.py:118-128 | every entry of the collection is capturable and is a line of an enumerated file whose path it carries |
| `Hunter.NoPhraseNoEntries` | hunter.py:121-128 | from the idle state, lines none of which holds a phrase yield no entries, and the scan ends idle |
| `Hunter.FoundAfterSplit` | hunter.py:122-126 | the flag after two consecutive runs of lines is the flag after the second run, started from the flag the first run ended with |
| `Hunter.ScanSplit` | hunter.py:122-128 | scanning two consecutive runs of lines is scanning the first, then the second from the flag the first ended with |
| `Hunter.BlankLineResets` | hunter.py:125-128 | a line of length at most 1 is not captured and leaves the flag cleared, whatever it was before |
| `Hunter.SilentRun` | hunter.py:121-128 | from the idle state, a run of lines without a phrase emits nothing and leaves the scan idle for the lines after it |
| `Hunter.QuietAfterBlank` | hunter.py:114-128 | a line of length at most 1 ends the block; nothing after it is captured until a line with a phrase, and the scan resumes idle |
| `Hunter.TriggerLine` | hunter.py:123-128 | a line of length of at least 2 with a phrase opens a block whatever the state, and is itself captured exactly when it passes the `###` and `#` filter |
| `Hunter.OpenBlockCaptured` | hunter.py:125-128 | inside an open block, a run of capturable lines is captured in full, one entry per line, in line order |
| `Hunter.BlockCaptured` | hunter.py:114-128 | a capturable trigger line followed by capturable lines yields one entry per line, the trigger line first, in line order |
| `Hunter.FindAllAppend` | hunter.py:119-128 | the flag resets per file: the collection for two runs of files is the first run's collection followed by the second's |
| `Hunter.SilentFileContributesNothing` | hunter.py:119-128 | a file with no phrase anywhere can be removed from the file list without changing the collection |
| `Views.Contents` | hunter.py:45-48 | one raw text per entry, in collection order, duplicates kept |
| `Views.Paths` | hunter.py:62-65 | one path per entry, in collection order, duplicates kept |
| `Views.ContentsAppend` | hunter.py:45-65 | both lists distribute over concatenation of collections |
| `Views.Count` | hunter.py:53 | `list.count`: the number of occurrences of the element in the list, so at most the length, and positive exactly when the element occurs |
| `Views.Distinct` | hunter.py:53 | the dict's keys: no duplicates, and exactly the elements of the list |
| `Views.Items` | hunter.py:53 | the `(key, count)` pairs for a list of keys; `ItemsAt` states them position by position |
| `Views.ContentOccurence` | hunter.py:50-53 | the keys are exactly the raw texts of the entries, and each key maps to the number of entries with that raw text, which lies between 1 and the number of entries |
| `Views.OccurrenceItems` | hunter.py:76 | `content_occurence.items()` in the dict's order; `OccurrenceItemsMatch` relates them to the map |
| `Views.OccurrenceKeys` | hunter.py:50-53 | the keys of `content_occurence` are the distinct raw texts, as many as there are |
| `Views.ItemsAt` | hunter.py:53 | the i-th item pairs the i-th key with its count |
| `Views.OccurrenceItemsMatch` | hunter.py:50-53 | the items list every key of `content_occurence` once, each with the count the map gives it |
| `Views.NoDuplicatesCard` | hunter.py:53 | a list without duplicates has as many elements as its set |
| `Views.CountNoDuplicates` | hunter.py:53 | an element of a list without duplicates occurs in it exactly once |
| `Views.ItemsTotalSnoc` | hunter.py:53 | appending one element to the counted list adds its number of key occurrences to the sum of counts |
| `Views.TotalAppend` | hunter.py:53 | the sum of counts distributes over concatenation |
| `Views.DistinctCountsSum` | hunter.py:53 | summed over the distinct elements, the counts add up to the length of the list |
| `Views.OccurrenceSum` | hunter.py:50-53 | the counts of `content_occurence` add up to `len(self)` |
| `Views.Insert` | hunter.py:75-77 | inserting an item adds exactly that item to the multiset |
| `Views.InsertTotal` | hunter.py:75-77 | inserting an item adds its count to the sum of counts |
| `Views.ConsNonIncreasing` | hunter.py:75-77 | an item whose count is at least the first count of an ordered list keeps the list ordered when put in front |
| `Views.InsertOrdered` | hunter.py:75-77 | inserting into a list ordered by count, largest first, keeps it ordered |
| `Views.SortByCount` | hunter.py:75-77 | the sort returns a permutation of its input, ordered by count, largest first, with the same sum of counts |
| `Views.Heatmap` | hunter.py:72-77 | the heatmap is a permutation of the `content_occurence` items, ordered by count, non-increasing |
| `Views.HeatmapMatchesOccurrence` | hunter.py:72-77 | the heatmap has one pair per distinct raw text, each with its count, all keys appear, and the counts add up to the number of entries |
| `Views.ContentUnique` | hunter.py:55-60 | a text is in `content_unique` exactly when it is the sanitized text of some entry |
| `Views.PathsUnique` | hunter.py:67-70 | a path is in `paths_unique` exactly when some entry carries it |
| `Views.ContentUniqueSingle` | hunter.py:55-60 | entries whose texts all sanitize to the same text leave exactly that one text in `content_unique` |
| `Views.ContentUniqueSanitized` | hunter.py:55-60 | every member of `content_unique` is already sanitized |
| `Views.UniqueAtMostOccurrences` | hunter.py:50-60 | there are never more unique sanitized texts than distinct raw texts, since sanitizing can merge raw variants |
| `Views.ImageCard` | hunter.py:60 | the image of a finite set under a function is no larger than the set |
| `Views.CoveredByImageCard` | hunter.py:60 | a set covered by the image of another set is no larger than that set |
| `Views.PathsUniqueFromFiles` | hunter.py:67-70 | every path in `paths_unique` of the scan result is the path of an enumerated file |
| `Views.ScanKeepsLineOrder` | hunter.py:122-128 | the captured texts of a scan are a subsequence of the scanned lines, in line order |
| `Scenarios.HeaderBlock` | hunter.py:123-128 | `HEADER:`, `foo`, `bar` with phrase `HEADER:` capture all three lines |
| `Scenarios.BlockEndsAtBlankLine` | hunter.py:114-128 | `HEADER:`, `foo`, `bar`, a blank line and `baz` with phrase `HEADER:` capture the first three lines only |
| `Scenarios.CommentTriggerNotCaptured` | hunter.py:123-128 | a `### HEADER: comment` line opens the block but is not captured |
| `Scenarios.CommentHeaderFile` | hunter.py:123-128 | a `# HEADER:` line followed by `x` captures only `x` |
| `Scenarios.SameLineInTwoFiles` | hunter.py:119-128 | two such files capture `x` once each, in file order |
| `Scenarios.SanitizedLine` | hunter.py:34-36 | the sanitized form of `x` followed by a line feed is `x` |
| `Scenarios.SameLineCountedTwice` | hunter.py:50-53 | that collection counts the raw text `x\n` twice |
| `Scenarios.SameLineUniqueOnce` | hunter.py:55-60 | that collection has the single unique sanitized text `x` |
| `Scenarios.SameLineBothPaths` | hunter.py:67-70 | that collection lists both paths |
| `Scenarios.SameLineHeatmap` | hunter.py:72-77 | that collection's heatmap is the single pair of `x\n` and 2 |
| `Scenarios.EmptyCollection` | hunter.py:72-77 | an empty collection has an empty heatmap and no occurrences |

## Left out

- `files_by_extension` (hunter.py:85-98) globs the real filesystem, resolves paths and skips directories. This is I/O, so the model takes the enumerated files, in order, as input.
- Opening files as UTF-8 and `readlines()` (hunter.py:120-122) are I/O. A decode error aborts the scan there, and this is not modelled. Each file arrives already split into lines.
- `write_csv`, `print_divider`, `ViewCLI` and the `__main__` block (hunter.py:132-209) are console, CSV, argument-parsing and logging plumbing. The rounded percentage printed per heat-map line is not modelled either.
- The `__repr__` methods (hunter.py:30-31, 42-43) only format text for logging.
- `Results.find` (hunter.py:79-82) only delegates to `find_by_headers`, which `Hunter.FindByHeaders` models.
- `heatmap` (hunter.py:76) sorts the module-level `commands` rather than `self`. In the program's only use (hunter.py:198-205) both are the same object, so `Views.Heatmap` is computed over its own argument.
- `Views.Distinct`: the keys are built in order of first occurrence, as a dict's are, but the contract states only that they are duplicate-free and are exactly the list's elements. Their order matters only for the order of equal counts in the heatmap, which is not stated either (next line).
- `Views.Heatmap`: the order of equal counts is not stated. `SortByCount` is a stable insertion sort, like Python's `sorted`, but only the non-increasing order and the permutation are proved.
- `Text.Strip`: `str.strip()` also removes non-ASCII Unicode whitespace. The model's whitespace set is the ASCII characters for which `str.isspace()` holds: tab, line feed, vertical tab, form feed, carriage return, 0x1C-0x1F and space.
- `content_unique` and `paths_unique` return `list(set(...))`, whose order is arbitrary. They are modelled as sets, which also captures "no duplicates".
- The file list is a sequence, not a set. Duplicate paths produced by the enumerator are scanned again and their entries repeated, as in the code.
