# Academic book mapper and chapter locator, modelled in Dafny

The repository holds two small PDF tools.

- `main.py` holds `AcademicBookMapper`. It reads a book page by page and
  runs four line rules over the text of each page: chapter headings,
  numbered sections, a `References`/`Bibliography` line, and appendix
  headings. It then scans the whole page text for figure captions, table
  captions and equation numbers. From the collected records it builds a
  book map: a summary of counts and the structure lists.
- `phraseFind2.py` holds `find_chapters_with_details`. It looks on every
  page for the exact text `Chapter <digits>: `. It keeps the matches
  numbered 1 to 25, records each one's page, surrounding context and font
  size, and sorts the rows by chapter number. `display_chapter_analysis`
  then shortens the contexts, lists the 1-based pages and reports the
  chapter numbers that were not found.

The Dafny project models both. For the heading, equation and chapter
locator patterns it proves that a match happens exactly on lines or texts
of a stated shape. For the caption pattern it proves what every match
breaks down into. It also proves the caption Python finds in each way a
match can arise: a caption on the rest of the line, on a later line, an
empty caption after a blank rest, and the caption after the backtrack from
`3.5` to `3`. It proves that the
structure built page by page stays well formed, with records ordered by
page, sections filed under the right chapter, and well-formed numbers and
captions. The imperative mapper class is proved to follow a functional
specification. The locator's rows are proved sorted, a permutation of
what was found, and stable for equal chapter numbers. The report's
missing-chapter list is proved to be exactly the gaps below the largest
number found.

Modules and files:

| file | module | what it holds |
|---|---|---|
| `wrappers.dfy` | `Wrappers` | `Option`, `Result` |
| `text.dfy` | `Text` | character classes, `str.strip`, splitting, digit values |
| `matching.dfy` | `Matching` | `re.finditer` as leftmost non-overlapping search; the `\s*(.+)` tail of a pattern |
| `headings.dfy` | `Headings` | the four line rules of `_analyze_page_structure` |
| `annotations.dfy` | `Annotations` | the figure, table and equation patterns of `_detect_figures_tables` |
| `book_structure.dfy` | `BookStructure` | the structure as a value, the page-by-page specification, its invariant, the book map |
| `book_mapper.dfy` | `BookMapper` | the `AcademicBookMapper` class, with fields updated in place, and `map_academic_book` |
| `chapter_order.dfy` | `ChapterOrder` | the result rows and the stable sort by chapter number |
| `chapter_locator.dfy` | `ChapterLocator` | `find_chapters_with_details` |
| `locator_report.dfy` | `LocatorReport` | the values `display_chapter_analysis` computes |

Where the code and its documentation disagree, the model follows the code:

- The section pattern `^(\d+\.(?:\d+)*)\s+(.+)` accepts only numbers with exactly one `.`,
  such as `2.` or `2.3`. A line such as `2.3.1 Title` is not a section. So
  every recorded section has level 1, and `SectionLevelIsOne` proves this.
- The book map lists the sections only inside their chapters. The global
  `sections` list is kept in the structure but is not part of the map.
- `find_chapters_with_details` has no guard for a page without text.
  `finditer` on `None` raises, so the model returns
  `Failure(MissingText(page))` for the first such page.

## Model

| member | source | states |
|---|---|---|
| Headings.ChapterShapeMatches | main.py:38-43 | every line made of the keyword, whitespace, a digit or Roman run, `.` or `:` and at least one more character is a chapter heading with that number and the stripped rest as title |
| Headings.ChapterMatchShape | main.py:38-43 | conversely, every chapter heading comes from such a shape, with number and title taken from it |
| Headings.ChapterTitleOnLine | main.py:38 | after the separator, `\s*(.+)` succeeds on a line exactly when a character follows the separator |
| Headings.SectionShapeMatches | main.py:51-56 | every line with digits, one `.`, optional digits, whitespace and more text is a section with number `line[..e]` and the stripped rest as title |
| Headings.SectionMatchShape | main.py:51-56 | conversely, every section match comes from such a shape |
| Headings.SectionTitleOnLine | main.py:51 | `\s+(.+)` after the number succeeds exactly when whitespace and another character follow |
| Headings.SectionLevelIsOne | main.py:51-58 | `len(number.split('.')) - 1` is 1 for every number the section rule accepts |
| Headings.ReferenceLineExact | main.py:67-69 | on a line, the IGNORECASE rule holds exactly when the lower-cased line is `references` or `bibliography`; the stripped title is then the line itself |
| Headings.AppendixShapeMatches | main.py:75-80 | every line made of `Appendix`, whitespace, a capital, `:` and more text is an appendix with that letter and the stripped rest |
| Headings.AppendixMatchShape | main.py:75-80 | conversely, every appendix match comes from such a shape |
| Headings.AppendixTitleOnLine | main.py:75 | `\s*(.+)` after the colon succeeds exactly when a character follows it |
| Headings.ClassifyLine | main.py:36-82 | the chapter rule is tried first: the line is a chapter heading exactly when that rule matches, and then it is that rule's heading |
| Headings.HeadingFirstCharacters | main.py:38-75 | the first character each rule demands: `C`, a digit, `r`/`b` in either case, `A` |
| Headings.HeadingRulesExclusive | main.py:36-82 | at most one of the four rules matches any line, so the `continue` order never hides a match |
| Headings.LowerAll | main.py:67 | character-wise lowering, the IGNORECASE comparison |
| Matching.FindIter | main.py:89 | `finditer`: every match found is a match of the pattern at its start, and matches do not overlap |
| Matching.FindIterLeftmost | main.py:89-110 | the matches are the leftmost ones: between consecutive matches, and before the first, no match starts |
| Matching.LineEnd | main.py:89 | `.` stops at a newline: the tail's end is the end of the text or a newline |
| Matching.MatchTail | main.py:89 | `\s*(.+)`, with backtracking into the spaces: the group is non-empty and ends at a newline or at the end of the text |
| Matching.MatchTailSpans | main.py:89 | the skipped part is all whitespace and the group holds no newline |
| Matching.TailWithinLine | main.py:89-94 | when non-space text follows on the same line, the stripped group is the stripped rest of the line |
| Matching.TailAllBlank | main.py:89-94 | when the text ends in whitespace with no newline after the separator, the greedy run gives back one character: the group is the text's last character, and it strips to nothing |
| Matching.TailFails | main.py:89-94 | `\s*(.+)` fails exactly when nothing but newlines follows the separator |
| Matching.TailBlankRest | main.py:89-94 | when only whitespace follows and `k` is its last character that is not a newline, the group is `s[k]` alone, ends at a line end and strips to nothing |
| Matching.TailFromFirstText | main.py:89-94 | when whitespace, newlines included, runs up to a non-space character `t`, the group is `t` to the end of `t`'s line; a blank rest of a line sends the group onto the next line with text |
| Annotations.Captions | main.py:89-90 | every caption match is a match of the pattern at its start, and matches do not overlap |
| Annotations.CaptionsLeftmost | main.py:89-99 | the caption matches are the leftmost non-overlapping ones |
| Annotations.CaptionShapeMatches | main.py:89-94 | the keyword, whitespace, a decimal number and `.`/`:`, then a rest of the line that is not blank, is a caption with that number and the stripped rest of the line. If the number has no `.` and the separator is `.`, the next character must not be a digit, `.` or `:` (so `Figure 3. Caption` is covered, with number `3`); otherwise Python reads the `.` into the number |
| Annotations.CaptionAcrossLinesMatches | main.py:89-94 | after the same caption start, whitespace that may cross newlines up to a non-space character gives as caption the stripped line that character is on |
| Annotations.CaptionBlankRestMatches | main.py:89-94 | after a caption start, a rest of the text that is whitespace but not only newlines gives an empty caption, ending at the line end after the last character that is not a newline |
| Annotations.BacktrackNumberStep | main.py:89 | when the longer number (digits, `.`, digits) has no separator after it, or only newlines follow its separator, Python backtracks to the digit run alone with the `.` as its separator |
| Annotations.CaptionBacktrackMatches | main.py:89-94 | in that backtracking case the number is the bare digit run and the caption is the stripped line from just after the `.` |
| Annotations.CaptionMatchShape | main.py:89-105 | conversely, every caption match is the keyword, whitespace, a decimal number, a separator, whitespace (newlines included), and a one-line group ending at a line end; the caption is that group stripped |
| Annotations.NumberThenDotCaption | main.py:89-96 | `Figure 3. Caption` gives number `3` and caption `Caption` |
| Annotations.RunningTextCaption | main.py:89-96 | running text `Figure 3.5 shows` gives figure `3` with caption `5 shows` |
| Annotations.BlankCaptionAtPageEnd | main.py:89-96 | `Figure 3: ` followed by a newline at the end of the page gives an empty caption |
| Annotations.CaptionFromNextLine | main.py:89-96 | `Figure 3:` followed by a newline and `Next` gives caption `Next`, taken from the next line |
| Annotations.FiguresTablesWellFormed | main.py:89-105 | every figure and table number is digits with at most one `.`, and every caption has no newline or outer whitespace |
| Annotations.DecimalRun | main.py:89 | `\d+\.?\d*` ends where the digits stop, or after one `.` and further digits |
| Annotations.Equations | main.py:109-110 | every equation match is a match of the pattern at its start, and matches do not overlap |
| Annotations.EquationsLeftmost | main.py:109-110 | the equation matches are the leftmost non-overlapping ones |
| Annotations.EquationWellFormed | main.py:109-111 | every equation number is digits with at most one `.` |
| Annotations.EquationShapeMatches | main.py:109-111 | `(`, spaces, optional `eq`/`equation` in any case, spaces, a decimal number, spaces and `)` is an equation with that number |
| Annotations.EquationMatchShape | main.py:109-111 | conversely, every equation match has equation shape, with the number and the end it reports |
| Annotations.YearIsEquation | main.py:109 | the text `(2023)` is an equation with number `2023`; EquationShapeMatches gives the general case |
| BookStructure.ScanLinesStep | main.py:34-36 | the line pass is the lines applied one after another |
| BookStructure.AnalyzePagesStep | main.py:24-28 | the page pass is the pages scanned one after another, numbered from 1 |
| BookStructure.BookMapOf | main.py:117-151 | the summary counts the chapters, figures, tables and equations; the map's lists are the structure's lists |
| BookStructure.ChapterLineAppends | main.py:38-48 | a chapter line appends one chapter with no sections and changes nothing else |
| BookStructure.SectionLineAppends | main.py:51-64 | a section line appends its level-1 section to the global list and to the last chapter, if there is one, whose number, title and page stay; nothing else changes |
| BookStructure.ReferenceLineAppends | main.py:67-72 | a line adds a reference exactly when it is `references` or `bibliography` in any case |
| BookStructure.AppendixLineAppends | main.py:75-82 | an appendix line appends one appendix with its capital letter |
| BookStructure.LineAtMostOneRecord | main.py:36-82 | each line adds at most one record, and a line no rule matches changes nothing |
| BookStructure.ApplyLinePreserves | main.py:36-82 | one line keeps the structure well formed |
| BookStructure.ScanLinesPreserves | main.py:32-82 | the line pass keeps the structure well formed |
| BookStructure.DetectPreserves | main.py:84-115 | the caption and equation pass keeps the structure well formed |
| BookStructure.DetectCounts | main.py:84-115 | the pass keeps every earlier figure, table and equation record, appends one record per match in text order with that match's number (and caption) and the page, and changes nothing else |
| BookStructure.ScanPagePreserves | main.py:26-28 | scanning a page keeps the structure well formed |
| BookStructure.AnalyzePagesWellFormed | main.py:21-28 | after all pages: every list is ordered by page with pages 1 to n; the global section list ends with the chapters' own sections, chapter after chapter; all levels are 1; appendix letters, reference titles, numbers and captions are well formed |
| BookStructure.BookMapWellFormed | main.py:117-151 | the map of a well-formed structure has counts equal to its lists, lists ordered by page, level-1 sections, capital appendix letters and well-formed captions |
| BookStructure.BlankPagesIgnored | main.py:25-26 | a blank last page (None or empty) leaves the analysis as it was |
| BookMapper.AcademicBookMapper.constructor | main.py:6-19 | a fresh mapper holds the file path and an empty structure with no current chapter |
| BookMapper.AcademicBookMapper.AddChapter | main.py:41-48 | a new chapter object is appended and becomes the current chapter |
| BookMapper.AcademicBookMapper.AddSectionRecord | main.py:54-64 | the section is appended to the current chapter's own list, if there is one, and to the global list |
| BookMapper.AcademicBookMapper.AddReference | main.py:68-72 | the reference record is appended |
| BookMapper.AcademicBookMapper.AddAppendix | main.py:78-82 | the appendix record is appended |
| BookMapper.AcademicBookMapper.AnalyzeLine | main.py:36-82 | the state after one line is `ApplyLine` of the state before |
| BookMapper.AcademicBookMapper.AnalyzePageStructure | main.py:32-82 | the state after the line loop is the line pass of the state before |
| BookMapper.AcademicBookMapper.AppendFigures | main.py:90-96 | the figure records of the matches are appended, in order |
| BookMapper.AcademicBookMapper.AppendTables | main.py:100-106 | the table records of the matches are appended, in order |
| BookMapper.AcademicBookMapper.AppendEquations | main.py:110-115 | the equation records of the matches are appended, in order |
| BookMapper.AcademicBookMapper.DetectFiguresTables | main.py:84-115 | the state after the pass is the caption and equation pass of the state before |
| BookMapper.AcademicBookMapper.GenerateBookMap | main.py:117-151 | the map is the map of the current structure |
| BookMapper.AcademicBookMapper.AnalyzePage | main.py:25-28 | a page with text is scanned; a page without text changes nothing |
| BookMapper.AcademicBookMapper.Analyze | main.py:21-30 | the state is the page pass over all pages, and the result is its map |
| BookMapper.MapAcademicBook | main.py:153-156 | the map of a fresh mapper over the pages, and that map is well formed |
| ChapterLocator.ChapterPatternAt | phraseFind2.py:10 | a match of `Chapter \d+: ` is exactly `Chapter `, one or more digits and `: ` |
| ChapterLocator.TextPattern | phraseFind2.py:10 | conversely, every text of that form matches where it starts |
| ChapterLocator.ChapterMatches | phraseFind2.py:26 | every match found is a pattern match at its start, and matches do not overlap |
| ChapterLocator.ChapterMatchesLeftmost | phraseFind2.py:26 | the matches are the leftmost non-overlapping ones |
| ChapterLocator.SearchDigits | phraseFind2.py:30 | `re.search(r'\d+')` finds a non-empty digit run |
| ChapterLocator.SearchFindsDigits | phraseFind2.py:29-30 | on a matched text, the digit search finds exactly the chapter's digits |
| ChapterLocator.ChapterNumberIsDigits | phraseFind2.py:30 | the chapter number is the value of those digits |
| ChapterLocator.ContextBounds | phraseFind2.py:34-36 | the context is at most 60 characters longer than the match and has no newline |
| ChapterLocator.FirstChapterSizeIsFirst | phraseFind2.py:39-44 | the size is None exactly when no word contains `Chapter`, and otherwise it is the size of the first word that does |
| ChapterLocator.FontSizeOf | phraseFind2.py:40-44 | the loop with `break` yields that first size |
| ChapterLocator.MatchRow | phraseFind2.py:29-52 | a match gives a row exactly when its number is between 1 and 25 |
| ChapterLocator.ScanPageMatches | phraseFind2.py:26-52 | the rows of one page are the kept matches, in order |
| ChapterLocator.RowsOfExactly | phraseFind2.py:26-52 | a row is on the page's list exactly when some match numbered 1 to 25 produced it; every row holds the matched text, the page, and a number in range |
| ChapterLocator.CollectPagesRows | phraseFind2.py:18-52 | every collected row lies on a page of the book that has text, and is well formed for that page |
| ChapterLocator.FindChaptersWithDetails | phraseFind2.py:5-56 | the loop over pages computes the search's result, including the failure on a page without text |
| ChapterLocator.FindChaptersResult | phraseFind2.py:46-56 | the result is sorted by number, is a permutation of the collected rows, keeps rows of equal number in found order, and every row lies on its page |
| ChapterLocator.CollectPagesSucceeds | phraseFind2.py:18-26 | when every page has text, the search succeeds |
| ChapterLocator.CollectPagesMissingFails | phraseFind2.py:23-26 | when some page has no text, the search fails |
| ChapterLocator.CollectPagesFailsAtFirstMissing | phraseFind2.py:23-26 | a failure names the first page without text |
| ChapterOrder.InsertSorted | phraseFind2.py:55 | inserting into a sorted list keeps it sorted |
| ChapterOrder.InsertMultiset | phraseFind2.py:55 | inserting adds exactly that element |
| ChapterOrder.InsertStable | phraseFind2.py:55 | inserting puts the element after every element with its number |
| ChapterOrder.SortByNumberSorted | phraseFind2.py:55 | the sorted rows are ordered by chapter number and are a permutation of the input |
| ChapterOrder.SortByNumberStable | phraseFind2.py:55 | for each chapter number, the rows with that number keep their order |
| LocatorReport.TruncateContext | phraseFind2.py:73-74 | a context of more than 40 characters becomes its first 37 characters plus `...`; a shorter one is unchanged; the result has at most 40 characters |
| LocatorReport.ShownSizeOfWords | phraseFind2.py:39-44 | the size looked up on a page's words is shown exactly when the first word containing `Chapter` has a non-zero size, and the size shown is that word's |
| LocatorReport.ShownFontSizeOfRow | phraseFind2.py:71-75 | in the search result, a row's font-size column shows a size exactly when the first word of its page containing `Chapter` has a non-zero size, and then shows that size |
| LocatorReport.SplitPagesInBook | phraseFind2.py:79 | every listed page is a 1-based page of the book whose text contains the row's matched text |
| LocatorReport.MaxNumber | phraseFind2.py:82-84 | `max(found_chapters)` bounds every row's number and is one of them |
| LocatorReport.MissingChaptersExactly | phraseFind2.py:82-87 | the missing list holds exactly the numbers from 1 to the largest found that no row has, in strictly increasing order, and is empty when there are no rows |
| LocatorReport.MissingBelowMax | phraseFind2.py:84-85 | every missing number is below the largest number found |

## Left out

- PDF reading with pdfplumber (`pdfplumber.open`, `extract_text`, `extract_words`) is not modelled. Each page's text is an input (`None` for a page without text), and so is the list of its words with their sizes.
- `extract_words` is called once per kept match in the source. The model passes the words once per page; the result is the same because nothing else touches the page.
- Printing is not modelled: progress lines, headers, column padding, the `.1f` format and the summary line. The model keeps the values those lines show.
- `main()` of phraseFind2.py with its `try`/`except`, and the call at module level in main.py:160, are not modelled; they only call the modelled functions on a fixed file name.
- The `toc` list and the `hierarchy` dictionary of `AcademicBookMapper` are never read or written after `__init__`, so they are not modelled.
- Font sizes are `real`, not floating point; the only operation on them is the test against zero.
- `re` is not modelled in general. Each of the nine patterns is modelled by hand, and IGNORECASE folds ASCII letters only.
- `\d` in every pattern, and the digits `int()` parses, are modelled as the ASCII digits `0`-`9` only. Python also matches other Unicode decimal digits, such as fullwidth `３` or Arabic-Indic `٣`.
- `ChapterOrder.SortByNumberSorted`: `list.sort` (Timsort) is modelled by a stable insertion sort with the same contract: sorted, a permutation, and stable.
- `ChapterLocator.ContextBounds`: the context's bounds are stated, not its exact characters beyond the slice, replace and strip that compute it.
