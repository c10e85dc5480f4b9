# A verified model of the TED talk scraper

`global_tech.py` drives a browser over the TED listing of popular talks on
global issues and technology. The script works like this:

- It writes a CSV header first.
- It fetches listing pages 1, 2, 3, … until a page fetch raises.
- On each listing page it reads the title, speaker and link of every row.
- It opens each talk's detail page.
- It extracts seven fields from the detail page, each in its own `try`. A
  field that fails becomes `None`; the other fields are untouched.
- It stores the ten values in `detail_dict` and appends the dictionary's
  values to the CSV file.

The model has five modules:

- `Wrappers`: the `Option` type.
- `Strings`: the Python string operations the script uses.
  - `str.replace(pat, '')`, `str.split(sep)` and `sep.join`.
  - The ASCII parts of `\d` and `\s`.
  - ASCII case folding.
- `Normalise`: the six per-field normalisers (the summary is kept as read).
- `Detail`: the detail page.
  - Per-field extraction and failure isolation.
  - The ten-column row and its header.
  - `detail_dict` as an insertion-ordered dictionary.
- `Crawl`: the whole run.
  - The site as data.
  - A specification function `CrawlFrom` of the run from page `p` on.
  - The imperative driver (`CrawlPages`, `ProcessPage`, `ParseListing`,
    `VisitCandidates`, `Detail.AssembleRow`). It writes into a `CsvSink`
    class and is proved to produce exactly the rows and final state that
    `Crawl` specifies.

Where the script's behaviour may surprise a reader, the model follows the
code:

- **Counts stay strings.** `num_views`, `num_translations` and
  `num_comments` are the strings left after stripping
  (global_tech.py:60, 101, 123). They are never converted to integers.
- **The counter moves after a load.** `p` is incremented only after a
  listing page loads (global_tech.py:20-21), not before every attempt. On a
  `break` it names the page that failed to load (`FinalCounter`).
- **An incomplete listing row ends the whole run.** It does not just end
  the page. The lookups at global_tech.py:37-39 are outside any `try`, so
  their exception leaves the `while True` loop. It happens before any talk
  of that page is visited (`Stop.ListingRowIncomplete`).
- **A failed detail page ends the whole run.** `driver.get(video_url)`
  (global_tech.py:48) is outside any `try` too
  (`Stop.DetailFetchFailed`). Talks listed after it are never visited.

## Model

| member | source | states |
|---|---|---|
| Strings.Remove | global_tech.py:60 | `s.replace(pat, '')` scanning left to right; the result is never longer than the input |
| Strings.DropChar | global_tech.py:60 | reference definition of deleting one character: the result holds no `c` and is no longer than the input |
| Strings.RemoveCharIsDropChar | global_tech.py:60 | replacing a one-character pattern by `''` is exactly deleting every occurrence of that character |
| Strings.DropCharMultiset | global_tech.py:60 | deleting `c` keeps every other character with its multiplicity |
| Strings.DropCharAbsent | global_tech.py:60 | text without the character is unchanged |
| Strings.RemoveAbsent | global_tech.py:101 | text in which the pattern never occurs is returned unchanged |
| Strings.RemoveKeepsPrefix | global_tech.py:70 | a prefix none of whose characters starts the pattern passes through `replace` untouched |
| Strings.RemoveLeading | global_tech.py:70 | an occurrence of the pattern at the front is deleted |
| Strings.RemoveFirstOccurrence | global_tech.py:101 | for every input with an occurrence: the text before the leftmost occurrence is kept, that occurrence is deleted, and the scan resumes after it (no overlapping matches) |
| Strings.Split | global_tech.py:82 | `s.split(sep)`: at least one piece, no piece contains `sep`, and text without `sep` is one piece |
| Strings.JoinSplit | global_tech.py:82 | joining the pieces of a split with the same separator restores the text |
| Strings.SplitJoin | global_tech.py:82 | splitting a join of separator-free pieces gives the pieces back |
| Strings.SplitAfterPiece | global_tech.py:82 | splitting `a + sep + b`, with `a` separator-free, yields `a` followed by the pieces of `b` |
| Strings.SplitPieceCount | global_tech.py:82-83 | a split yields two or more pieces exactly when the separator occurs |
| Strings.JoinLength | global_tech.py:112 | a join's length is the total length of the pieces plus one separator between each pair |
| Strings.Join | global_tech.py:112 | `sep.join(parts)`: no parts give the empty string, one part is returned as it is, and two or more parts always leave a separator in the result; with `JoinAppend` this fixes the text of every join |
| Strings.JoinAppend | global_tech.py:112 | joining one more part appends a separator and that part, for all parts whatever they contain |
| Strings.LowerStr | global_tech.py:71 | ASCII case folding, as `%B` compares month names; what folding guarantees is stated by `LowerStrFolds` and `LowerStrIdempotent` |
| Strings.LowerStrFolds | global_tech.py:71 | after folding no upper-case letter is left, and every character that was not an upper-case letter is unchanged |
| Strings.LowerStrIdempotent | global_tech.py:71 | folding case twice is the same as folding it once |
| Normalise.NumViews | global_tech.py:60 | the view count with every comma deleted; no comma is left |
| Normalise.NumViewsIdempotent | global_tech.py:60 | stripping separators a second time changes nothing |
| Normalise.NumViewsKeepsOtherCharacters | global_tech.py:60 | every character other than a comma survives with its multiplicity |
| Normalise.NumViewsExample | global_tech.py:60 | `"1,234,567"` becomes `"1234567"` |
| Normalise.MonthFrom | global_tech.py:71 | a month from `j + 1` on whose name matches up to case, or 0 when none from there matches; by `MonthNamesDistinct` at most one month can match |
| Normalise.MonthNumber | global_tech.py:71 | `%B`: the month matched up to case, or 0 exactly when no month name matches |
| Normalise.MonthNamesDistinct | global_tech.py:71 | no two month names coincide up to case, so `%B` is unambiguous |
| Normalise.DigitsValue | global_tech.py:71 | the value of a digit string is below 10 to the power of its length |
| Normalise.FourDigitsBound | global_tech.py:71 | a `%Y` year of four digits is at most 9999 |
| Normalise.TrailingSpaces | global_tech.py:71 | the count of whitespace at the end of the text; the character before them is not whitespace |
| Normalise.ParseMonthYear | global_tech.py:71 | soundness of `strptime(s, '%B %Y').date()`: a result is day 1 of a month 1-12 and a year 1-9999, and the text is a month name up to case, whitespace, and the four year digits |
| Normalise.ParseMonthYearComplete | global_tech.py:71 | completeness: every month name, non-empty whitespace gap and four digits parses to day 1 of that month and year, except year 0000, which is refused |
| Normalise.ParsedShape | global_tech.py:71 | what the parser found, a month name, a whitespace gap and four digits, is the `%B %Y` shape of that month and year, and the year is at most 9999 |
| Normalise.MonthYearTextOf | global_tech.py:71 | a month name up to case, then whitespace, then four digits, is the `%B %Y` shape of that month and year |
| Normalise.TrailingSpacesAfterWord | global_tech.py:71 | the whitespace after a word is exactly what `TrailingSpaces` counts |
| Normalise.MonthNumberOf | global_tech.py:71 | a name equal to a month's name up to case selects that month |
| Normalise.MonthNameEndsInLetter | global_tech.py:71 | a month name ends in a letter, so it is never confused with the whitespace gap |
| Normalise.MonthNameLetters | global_tech.py:71 | every character of a month name folds to a lower-case letter |
| Normalise.ParseDateExample | global_tech.py:70-71 | the text with a leading bar-and-space pair before `March 2015` loses that pair and parses to 1 March 2015 |
| Normalise.YearDigitsExample | global_tech.py:71 | `"2015"` is four digits of value 2015 |
| Normalise.ParseDate | global_tech.py:70-71 | the `date` normaliser, every bar-and-space pair removed and then `strptime`: a present date is day 1 of a month 1-12, and the cleaned text has the `%B %Y` shape for it; completeness through `ParseMonthYearComplete` |
| Normalise.Tags | global_tech.py:81-83 | `blocks[0].split('\n')[1:]` then `pop()`: present exactly when a panel matched and its text has a line break; then two fewer items than the panel has lines, none holding a line break; which items they are is stated by `TagsOfPanel` together with `JoinSplit` |
| Normalise.TagsOfPanel | global_tech.py:81-83 | a panel of a heading, tag lines and a closing line yields exactly the tag lines in order; later panels are ignored |
| Normalise.TagsExample | global_tech.py:81-83 | `"Tags\nAI\nPrivacy\nClose"` yields `["AI", "Privacy"]` |
| Normalise.NumTranslations | global_tech.py:101 | `replace(' languages', '')`: never longer than the text; what it removes is stated for every text by `NumTranslationsFirst` together with `NumTranslationsAbsent` |
| Normalise.NumTranslationsOfCount | global_tech.py:101 | a digit count followed by `" languages"` yields the count |
| Normalise.NumTranslationsAbsent | global_tech.py:101 | text without `" languages"` comes back unchanged |
| Normalise.NumTranslationsFirst | global_tech.py:101 | the leftmost `" languages"` is deleted, the text before it kept, and the removal continues after it |
| Normalise.NumTranslationsExample | global_tech.py:101 | `"Available in 33 languages"` gives `"Available in 33"` |
| Normalise.Transcript | global_tech.py:112 | `" ".join`: empty for no fragments, the fragment itself for one, otherwise the fragments' lengths plus one space between each pair |
| Normalise.TranscriptAppend | global_tech.py:112 | for all fragments: the transcript of one more fragment is the transcript so far, a space, and that fragment; with the one-fragment case this fixes the whole text as the fragments in order, single spaces between |
| Normalise.FirstDigit | global_tech.py:123 | the index of the first digit: no digit before it, a digit at it unless it is the end |
| Normalise.DigitRun | global_tech.py:123 | the length of the maximal digit run at the front |
| Normalise.NumComments | global_tech.py:123 | `re.search('\d+', text).group(0)`: absent exactly when the text has no digit; otherwise a non-empty digit string that is the leftmost maximal digit run |
| Normalise.NumCommentsFindsRun | global_tech.py:123 | the leftmost maximal digit run is what is returned (the converse of `NumComments`' contract) |
| Normalise.FirstDigitAt | global_tech.py:123 | a digit with no digit before it is the first digit |
| Normalise.DigitRunExact | global_tech.py:123 | a digit prefix followed by a non-digit or the end is the front digit run |
| Normalise.NumCommentsExample | global_tech.py:123 | `"Comments (42)"` yields `"42"` |
| Detail.ExtractNumViews | global_tech.py:58-64 | the field is present exactly when its element's text was read, and then it is the text without commas |
| Detail.ExtractDate | global_tech.py:68-74 | a present date is day 1 of a month and the text, after removing every bar-and-space pair, has the `%B %Y` shape for it |
| Detail.ExtractTags | global_tech.py:78-86 | present exactly when the button was found and clicked, the panels were read, and the first panel has a line break |
| Detail.ExtractNumTranslations | global_tech.py:98-104 | present exactly when the text was read; never longer than the text |
| Detail.ExtractTranscript | global_tech.py:108-115 | present exactly when the button was clicked and the lines were read, and `""` when no line matched |
| Detail.ExtractNumComments | global_tech.py:120-127 | absent exactly when the label is missing or has no digit; otherwise a non-empty digit string |
| Detail.ExtractDetails | global_tech.py:58-128 | six fields, each computed by its own extractor above, and the summary as read; that each depends only on its own raw input is stated by `FieldFailureIsIsolated` and `FieldsAreIndependent` |
| Detail.FieldFailureIsIsolated | global_tech.py:58-128 | a failing field is absent and the six other fields keep their values |
| Detail.FieldsAreIndependent | global_tech.py:58-128 | whatever happens to one field's raw input changes no other field |
| Detail.OrderMatchesHeader | global_tech.py:131-140 | the ten keys, in insertion order, are the ten header names |
| Detail.NamesDistinct | global_tech.py:131-140 | distinct keys have distinct names |
| Detail.RowOf | global_tech.py:143 | a written row has exactly the header's ten cells |
| Detail.RowFollowsHeader | global_tech.py:131-143 | cell `k` of a row is the value stored under the key named by header column `k` |
| Detail.KeyOf | global_tech.py:131-140 | the `detail_dict` key under which each detail field is stored |
| Detail.ColumnOf | global_tech.py:131-140 | a detail field's column is its key's header position, among positions 2 to 8, and the header name there is the key's name |
| Detail.Value | global_tech.py:131-140 | the value stored under a key is the row's cell at that key's header position; the title, speaker and URL columns always hold text |
| Detail.BlankEmptiesOneCell | global_tech.py:131-143 | blanking a field empties its own cell and no other |
| Detail.FailedFieldEmptiesOneCell | global_tech.py:58-143 | a failed field still leaves a ten-cell row: its cell is empty, every other cell is as before, and title, speaker and URL are the listing's |
| Detail.IndexOf | global_tech.py:131-140 | the position of a key among the keys: the first occurrence |
| Detail.Position | global_tech.py:131-140 | a key's header position is where it sits in the insertion order |
| Detail.Put | global_tech.py:131-140 | `d[key] = v` keeps the keys and values in step |
| Detail.Get | global_tech.py:131-140 | `d.get(key)`: present exactly when the key was stored, and then the value at the key's first place |
| Detail.PutThenGet | global_tech.py:131-140 | after `d[key] = v` the key maps to `v` and every other key keeps its value; a new key goes last, an old one keeps its place |
| Detail.PutExistingGet | global_tech.py:131-140 | the dictionary laws when the key is already present |
| Detail.PutNewGet | global_tech.py:131-140 | the dictionary laws when the key is new |
| Detail.NewKeyGet | global_tech.py:131-140 | an appended key maps to its value |
| Detail.OldKeyGet | global_tech.py:131-140 | appending a key leaves every old key's value alone |
| Detail.IndexOfAppend | global_tech.py:131-140 | appending a key leaves the positions of the old keys alone and puts the new one last |
| Detail.PutNext | global_tech.py:131-140 | storing the next column's key into a dictionary of the first `k` columns appends it |
| Detail.AssembleRow | global_tech.py:131-143 | filling a fresh `detail_dict` with the ten assignments and taking its values yields exactly the record's row |
| Crawl.FetchListing | global_tech.py:20 | a listing page loads only for a page number of the site; every page past the end fails |
| Crawl.Candidates | global_tech.py:36-42 | present exactly when every row has all three elements; then one candidate per row, in row order, holding that row's texts |
| Crawl.Zip3 | global_tech.py:42 | `zip` of three lists: as long as the shortest, element `i` built from the three elements `i` |
| Crawl.Lines | global_tech.py:143 | one written row per visited talk |
| Crawl.LinesAppend | global_tech.py:143 | the rows of two runs of visits are the rows of each, concatenated |
| Crawl.VisitAll | global_tech.py:42-48 | the visits of a run of candidates: never more than the candidates, a failure exactly when some candidate was not visited, and the failed URL has no page; fully specified by `VisitAllMeaning` |
| Crawl.ProcessListing | global_tech.py:30-48 | one loaded listing page: it never reports a failed page fetch, an incomplete row leaves no visits, and a page that does not end the run visits one talk per row; which talks are visited in each case, and which URL is reported when one fails to load, is stated by `ListingMeaning` |
| Crawl.CrawlFrom | global_tech.py:18-48 | the run from page `p` ends on a page at or after `p`, at most one past the site's last page when `p` is, and ends on a failed fetch exactly when that page did not load; for `p` up to one past the site's last page it is fully specified by `CrawlFromStops` and `CrawlFromGathersPages`, and for a later `p` by `CrawlFromFetchFails` |
| Crawl.Crawl | global_tech.py:15-48 | the run from page 1 ends on a page from 1 to one past the site's last page, on a failed fetch exactly when that page did not load |
| Crawl.FinalCounter | global_tech.py:15-21 | the counter is the last page on a `break` and one more otherwise; `FinalCounterCountsLoads` shows it is one more than the number of listing pages that loaded |
| Crawl.VisitAllAt | global_tech.py:42-48 | one step of the visits: a talk that does not load ends them, one that loads is visited and the rest follow |
| Crawl.CrawlFromContinues | global_tech.py:18-143 | a listing page that loads and does not end the run adds its rows, and the crawl goes on with the next page |
| Crawl.CrawlFromFetchFails | global_tech.py:19-23 | a listing page whose fetch fails ends the run with no more rows, at that page |
| Crawl.CrawlFromEndsOn | global_tech.py:36-48 | a listing page that loads and ends the run adds its rows and is the last page |
| Crawl.VisitAllMeaning | global_tech.py:42-48 | the first `n` candidates load and are visited in order; the visits stop at the first URL that does not load, which is the failure reported; no failure exactly when all were visited |
| Crawl.ListingMeaning | global_tech.py:30-48 | a page ends the run for an incomplete row exactly when some row is incomplete, and then no talk of it is visited; a page that does not end the run visits one talk per row, in row order, with that row's texts and the page its URL names; a page whose talk fails to load has only complete rows, visits the rows before that talk in order, and reports that talk's URL, which the site does not hold |
| Crawl.CrawlFromStops | global_tech.py:18-48 | every page before the last one fetched loaded and was processed to the end; the run ends on a failed fetch exactly when the last page did not load, and otherwise for the reason its processing gives |
| Crawl.CrawlFromGathersPages | global_tech.py:18-143 | the run's rows are the pages' rows, in page order, from the first page to the last one fetched |
| Crawl.CrawlIgnoresLaterPages | global_tech.py:18-23 | any site that agrees on the talks and on the pages up to the last one fetched crawls the same way |
| Crawl.VisitAllSameTalks | global_tech.py:42-48 | the visits depend on the site's talks only |
| Crawl.ProcessListingSameTalks | global_tech.py:30-48 | a listing page's outcome depends on the site's talks only |
| Crawl.EmptyListingContinues | global_tech.py:34-42 | a listing page with no rows adds nothing and does not end the loop |
| Crawl.FinalCounterCountsLoads | global_tech.py:15-21 | every page before the last one loaded, and the final counter is one more than the number of pages that loaded |
| Crawl.LinesFollowHeader | global_tech.py:131-143 | every written row has the header's ten cells, each holding that column's value of the visited talk |
| Crawl.OnePageExample | global_tech.py:18-143 | one page with one talk, then a failed page 2: one row, the loop breaks, and the counter is 2 |
| Crawl.IncompleteRowExample | global_tech.py:36-39 | a listing row without a speaker ends the run with no row written, and the counter is 2 |
| Crawl.MissingTalkExample | global_tech.py:42-48 | a second talk whose page does not load ends the run after the first talk's row |
| Crawl.CsvSink.constructor | global_tech.py:8-9 | a new CSV writer holds no rows |
| Crawl.CsvSink.WriteRow | global_tech.py:143 | `writerow` appends one row and changes nothing else |
| Crawl.ParseListing | global_tech.py:30-39 | the loop that fills `titles`, `speakers` and `video_urls`: it succeeds exactly when every row is complete; then the three lists are the rows' texts, and their `zip` is the page's candidates |
| Crawl.VisitCandidates | global_tech.py:42-143 | the loop over the zipped candidates appends exactly the rows of `VisitAll`, in order, and reports the URL that failed to load |
| Crawl.ProcessPage | global_tech.py:29-143 | one loaded listing page appends exactly the rows of `ProcessListing` and returns its reason to stop |
| Crawl.CrawlPages | global_tech.py:15-143 | the `while True` loop appends exactly the rows of `Crawl`, in order, ends for the reason `Crawl` gives, and leaves `p` at `FinalCounter` |
| Crawl.Run | global_tech.py:11-143 | the script writes the header and then exactly the crawl's rows |

## Left out

- **The browser.** Selenium, the XPath locators and the clicks are not
  modelled. A listing row is three optional texts (`ListingRow`). A detail
  page is the optional raw input of each field, plus a flag for whether a
  control was found and clicked (`DetailPage`). The site is a finite
  sequence of listing-page outcomes and a map from talk URL to detail page
  (`Site`). Every page past the end fails to load. So the model does not
  cover a site that serves listing pages forever.
- **Sleeps and prints.** `time.sleep` (global_tech.py:26, 54, 111) and the
  advisory `print` calls have no effect on the output, so they are left
  out.
- **File handling and cell rendering.** Opening the file and its encoding
  (global_tech.py:8), and `driver.close()` (global_tech.py:145), are left
  out. So is how `csv.writer` renders a cell. The model keeps typed cells
  instead:
  - `Empty` for `None`;
  - `DateCell` for a `datetime.date`;
  - `ListCell` for the tag list, which `csv` writes as `str(list)`.
  `CsvSink` only records the rows in order.
- **`main_url`** (global_tech.py:29) is assigned and never used.
- **Unicode.** `\d`, `\s` and `%B`'s case-insensitive match are modelled on
  ASCII only. Non-ASCII digits, spaces and case folding are not modelled.
- **Other exceptions.** An exception other than a missing element, a
  failed load or a failed parse is not modelled; a failing write is one
  example.
- Detail.AssembleRow: the ten statements become a loop. The ten
  straight-line assignments `detail_dict[key] = value`
  (global_tech.py:131-140) are modelled as a loop over the ten keys in
  `Order`. Its k-th pass is the k-th assignment, and the value it stores
  is `Value(r, Order[k])`. `Name` and `OrderMatchesHeader` tie the keys to
  the source's string literals. One loop invariant then describes the
  dictionary after every assignment, instead of ten separate states.
- Strings.Remove: its own contract states only the length bound. What it
  deletes is stated for every input by `RemoveFirstOccurrence` (text
  before the leftmost occurrence is kept, that occurrence is deleted and
  the scan goes on after it) together with `RemoveAbsent` (no occurrence:
  unchanged); `RemoveCharIsDropChar` restates it for one-character
  patterns.
- Detail.ExtractNumTranslations: its own contract states presence and a
  length bound. The stripping itself is stated for every text by
  `Normalise.NumTranslationsFirst` together with
  `Normalise.NumTranslationsAbsent`.
- **Dictionary keys.** Keys are the `Column` enumeration, not strings.
  `NamesDistinct` shows that this loses nothing.
