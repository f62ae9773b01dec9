# searchr search core, modelled in Dafny

searchr walks a directory tree and looks for a list of search terms in two places. It checks
every file name for a case-insensitive substring match. In files whose extension is one of
26 text extensions, it checks every line for a case-insensitive whole-word match. Matches
are grouped by path relative to the searched directory. Paths without any match are dropped.
For each kept path the program builds a details excerpt: the filename matches, then one
block per matching line, with the line number, the matched terms, and the line itself with
the terms highlighted and cut to about 200 characters. An HTML report lists these rows,
optionally linking each path under a base URL. The settings come from a `KEY = value`
configuration file.

The model is written over pure functions. The file system is an input: the walk is a
sequence of entries, each with its lines, or with nothing when reading fails.

Three behaviours of the code are easy to misread. The model follows the code in each:

- The terms recorded for a matching line are their `re.escape` forms, not the terms as configured: line 58 keeps the compiled pattern with only its two `\b` removed (`search.py:58`).
- A term configured twice is listed twice in the terms of a matching line (`search.py:55-58`); the filename matches and the matched terms of a file are sets, as in the code.
- The comment at `search.py:98` describes truncation as keeping whole words before index 200, but the code cuts at the last space before index 200 only when that space is past index 0. Otherwise it keeps all 200 characters, even in the middle of a word or a tag.

| file | module | models |
|---|---|---|
| `wrappers.dfy` | `Wrappers` | `Option` |
| `text.dfy` | `Text` | the Python string operations used: `lower`, `in`, `strip`, `split`/`join`, `find`/`rfind`, `html.escape`, `str(n)` |
| `matching.dfy` | `Matching` | `is_string_in_filename`, the `\bTERM\b` search under `re.IGNORECASE`, `re.escape` |
| `classify.dfy` | `Classify` | `TEXT_EXTENSIONS`, `is_searchable_file`, `os.path.join` |
| `highlight.dfy` | `Highlighting` | `highlight_search_terms` (the `re.sub` scan over an alternation), the 200-character truncation |
| `search.dfy` | `Search` | `search_directory`: the scan of one file, grouping by relative path, and the second pass that drops paths without matches |
| `excerpt.dfy` | `Excerpt` | the matched-terms string and the match-details excerpt of each result |
| `report.dfy` | `Report` | the parts of `generate_html` with logic: the sorted extension list, the grid of 6-extension columns, the count line, the URL join, the path cell |
| `config.dfy` | `Config` | the configuration parser and `missing_settings` of the main block |

## Model

| member | source | states |
|---|---|---|
| Classify.SearchableIff | search.py:7-18 | a path is content-searchable iff it holds a dot and the lower-cased text after its last dot is one of the 26 text extensions |
| Classify.NoDotNeverSearchable | search.py:17-18 | a path without a dot has the empty extension and is never searchable |
| Classify.SearchableByName | search.py:34-49 | classifying `os.path.join(root, file)` gives the same answer as classifying the bare file name |
| Matching.InFilenameIff | search.py:21-22 | a term matches a file name iff it occurs in it somewhere, ignoring ASCII case; the empty term matches every name |
| Matching.SearchWord | search.py:27 | the compiled pattern finds the term iff it occurs in the line at a position with a `\b` word boundary on both sides, ignoring case |
| Matching.WholeWordOfWordTerm | search.py:27 | for a non-empty term of word characters, `\b` on both sides means no word character directly before or after the occurrence |
| Matching.CatNotInCategory | search.py:27 | "cat" is not a whole word of "category" |
| Matching.CatInSentence | search.py:27 | "cat" is a whole word of "the Cat sat", whatever its case there |
| Matching.RegexEscapeRoundTrip | search.py:58 | the pattern read back from `re.escape(term)` is the literal term itself |
| Matching.RegexEscapeBounds | search.py:58 | escaping at most doubles a term's length and leaves a term of word characters unchanged |
| Search.NameMatchesSpec | search.py:43-46 | the filename matches of a file are exactly the configured terms occurring in its bare name, ignoring case, whatever its extension |
| Search.LineWordsSpec | search.py:54-60 | the terms recorded for a line are the `re.escape` forms of exactly the terms matching it as whole words, in configured order; a line records something iff some term matches it |
| Search.HitsFromSpec | search.py:56-58 | the tested terms are listed in increasing index order, and an index is listed iff its term matches the line |
| Search.ContentFromRecords | search.py:54-66 | each content match has a 1-based line number within the file and holds the stripped, HTML-escaped text of that line and a non-empty list of its recorded terms |
| Search.ContentFromOrder | search.py:54-66 | content matches are listed in strictly increasing line order |
| Search.ContentFromCover | search.py:54-66 | a line has a content match iff some term matches it as a whole word |
| Search.ScanEntry | search.py:43-66 | a file contributes its filename matches always, and its content matches only when its path is searchable and the read succeeds |
| Search.ReadFailureKeepsNameMatches | search.py:49-68 | a file that cannot be read still reports its filename matches, with no content matches |
| Search.MakeRecord | search.py:76-78 | `all_matched_words` holds exactly the filename matches and every term recorded on some matching line |
| Search.Keys | search.py:37-41 | the keys of `grouped_results` are distinct and are exactly the relative paths of the files not skipped |
| Search.KeysFirstVisitOrder | search.py:37-41 | the keys are in first-visit order: some visit of an earlier key comes before every visit of a later one |
| Search.GroupedMapSpec | search.py:26-68 | the grouping map holds exactly the visited relative paths, each with everything its visits found |
| Search.GroupByPath | search.py:26-68 | the first loop yields the key order and, for each path, what its visits found, as the reference definition gives them |
| Search.Finalize | search.py:71-114 | the second loop keeps, in key order, one record per path with some match |
| Search.SearchDirectory | search.py:25-114 | the result is the reference report; its paths are distinct, and every reported path has a filename or content match |
| Search.CollectShape | search.py:71-78 | every record comes from a key with some match and carries what that path gathered; every such key has a record |
| Search.MergedHasMatches | search.py:37-74 | a path has gathered some match iff one of its visits, by a file not skipped, found one |
| Search.RetainedIff | search.py:29-74 | a path is reported iff some file under it that is not skipped has a filename match, or is searchable, readable and has a matching line |
| Search.CombineHasMatches | search.py:73 | a merged group has a match iff one of its two parts has one |
| Search.NoTermsNoResults | search.py:43-74 | with no terms configured the report is empty |
| Search.SkippedEntryIgnored | search.py:31-32 | a file whose name starts with `._`, wherever it stands in the walk, changes nothing in the report |
| Search.ResultsAppendFresh | search.py:37-74 | a file under a new relative path appends its record, if it has a match, and leaves earlier records alone |
| Search.DistinctVisitsResults | search.py:29-114 | when no relative path is visited twice, the report is the per-file filter of the walk: one record per file with a match, in walk order |
| Highlighting.NextHitLeftmost | search.py:11-12 | each search of the substitution scan finds the leftmost admissible position, and there the first alternative in term order |
| Highlighting.HitOccurs | search.py:11-12 | what the scan finds is a case-insensitive occurrence of that alternative |
| Highlighting.FirstAltSpec | search.py:11 | alternatives are tried in term order, so an earlier term wins at the same position |
| Highlighting.PiecesCover | search.py:12 | the plain and highlighted pieces of the substitution cover the input exactly, in order |
| Highlighting.HighlightRoundTrip | search.py:10-12 | deleting the inserted `<strong>` tags from a highlighted tag-free text gives the text back |
| Highlighting.HighlightMarksTerms | search.py:10-12 | every highlighted stretch equals one of the terms, ignoring case |
| Highlighting.HighlightMissesNothing | search.py:10-12 | with non-empty terms, no occurrence of a term, ignoring case, starts inside a stretch left unwrapped; together with the row above, the wrapped stretches are exactly the occurrences the scan takes |
| Highlighting.NoOccurrenceUnchanged | search.py:10-12 | with non-empty terms, a text in which none of them occurs, ignoring case, is left unchanged |
| Highlighting.Truncate | search.py:96-104 | an excerpt of at most 200 characters is kept; a longer one is cut back to its last space before index 200 when that space is not at index 0, otherwise at 200, and gets "..." |
| Excerpt.DetailsShape | search.py:80-111 | the details hold the filename block iff a filename matched, then the header and one `match-line` block per matching line in line order when some line matched, each showing the line highlighted with its recorded terms as written; a kept path has at least one block |
| Excerpt.LineNumberReadBack | search.py:106-108 | a `match-line` block spells the match's line number in decimal right after its prefix, followed by a colon |
| Excerpt.ShownHighlightsMatchedTerms | search.py:91-94 | the corrected excerpt highlights with exactly the matched terms of the line, each of which matches it, and marks only stretches equal to one of them |
| Excerpt.ShownRoundTrip | search.py:94-104 | deleting the tags from a line's untruncated excerpt, highlighted with the recorded terms as written, gives its stripped, HTML-escaped text |
| Excerpt.RowLayout | search.py:111-112 | a returned row holds the path; its excerpt is the opening `match-details` tag, the detail blocks in order with one separator between neighbours, and the closing tag; every matched term appears in the terms cell at its place in the join |
| Excerpt.WordTermsUnaffected | search.py:91-94 | when every recorded term is made of word characters, the as-written excerpt equals the intended one, so the highlighting defect needs a term with a special character |
| Excerpt.EmailRecorded | search.py:57-66 | the line "e-mail" matches the term "e-mail" and is recorded with the escaped term `e\-mail` |
| Excerpt.EscapedTermNotHighlighted | search.py:91-94 | as written, nothing is highlighted in that line |
| Excerpt.MatchedTermHighlighted | search.py:91-94 | with the recorded terms unescaped first, the matched term is highlighted |
| Report.LinkUrlJunction | search.py:192-194 | with a non-empty base URL the link is the base without its trailing slashes, one slash, and the path without its leading slashes |
| Report.NoBaseNoLink | search.py:192-197 | with an empty base URL no path is linked |
| Report.LinkIgnoresExtraSlashes | search.py:194 | an extra slash at the end of the base or the start of the path does not change the link |
| Report.PathCellHref | search.py:192-197 | the cell is a link iff there is a base URL; its `href` ends at the first double quote and HTML-unescapes to the URL |
| Report.SortedUnique | search.py:118 | two sorted listings of the same strings are equal, so `sorted` has exactly one result |
| Report.StrLessTotal | search.py:118 | Python's string order is total |
| Report.SortedExtensionsListing | search.py:118 | the 26-entry listing is sorted and holds exactly the text extensions, so it is `sorted(list(TEXT_EXTENSIONS))` |
| Report.ChunksShape | search.py:163-164 | the chunks of a list put back together give the list; each holds 1 to `n` items, and all but the last exactly `n` |
| Report.ChunkAt | search.py:164 | chunk `k` is the slice `xs[k*n : (k+1)*n]` the comprehension takes |
| Report.ExtensionColumns | search.py:163-170 | the extension grid has five columns, four of six extensions and a last one holding "yaml" and "yml" |
| Report.CountReadBack | search.py:179 | the count line spells the number of reported files in decimal between its prefix and the closing tag |
| Config.ParseLineSpec | search.py:234-244 | a line is ignored iff, once stripped, it is empty, starts with `#` or holds no `=`; otherwise the key and value are the stripped sides of the first `=` |
| Config.ReadLinesLastWins | search.py:233-253 | each setting holds the value of the last line assigning it; the terms are split at commas and stripped; an unknown key changes nothing |
| Config.LastValueIff | search.py:233-253 | the value read for a key is `v` iff some line assigns `v` to it and no later line assigns it; it is unset iff no line assigns it |
| Config.IgnoredLine | search.py:236-241 | a comment, blank or `=`-free line leaves the settings as they are |
| Config.SplitTermsSpec | search.py:249 | the terms list has one stripped entry per comma-separated part of the value, and none holds a comma |
| Config.MissingSpec | search.py:255-264 | a setting is reported missing iff it is unset; the list names them in the order DIRECTORY, SEARCH_TERMS, BASE_URL, OUTPUT_FILE, and is empty iff all four are set |
| Text.HtmlEscapeRoundTrip | search.py:63 | unescaping the five entities `html.escape` produces gives the text back |
| Text.HtmlEscapeSafe | search.py:63 | escaped text holds no `<`, `>`, `"` or `'`, and is no shorter than the input |
| Text.JoinLayout | search.py:111 | in `sep.join(parts)` each part stands at its start index, with one separator between neighbours and the last part running to the end |
| Text.SplitJoin | search.py:249 | splitting a join of separator-free parts gives the parts back |
| Text.NatToStringRoundTrip | search.py:179 | the decimal spelling of a number reads back as that number |
| Text.StripIdempotent | search.py:243-244 | stripping twice is stripping once |

## Left out

- I/O is not modelled: `os.walk`, `open`/`readlines`, `os.path.relpath`, the existence check of `config.txt` and its `sys.exit` (lines 218-224, 266-270), writing the report and the closing messages (lines 278-286), and every `print`. The walk, each file's lines and the configuration lines are inputs.
- Errors other than a failed read inside the `try` at lines 50-68 are not modelled. A file's lines are either present or absent.
- Decoding with `errors='ignore'` is not modelled: lines are given as strings.
- `lower()` and `\w` follow ASCII: only `A`-`Z` are lower-cased, and word characters are ASCII letters, digits and `_`. Unicode case folding and Unicode word characters are out of scope. `strip()` uses Python's full whitespace set.
- Matching.RegexEscape: models Python 3.7 and later, where `-`, `#` and the whitespace characters are escaped. Python 3.3 to 3.6 escaped every character except ASCII letters, digits and `_`.
- The regular-expression engine in general is not modelled. Only the two pattern shapes the program builds are: `\bESCAPED\b` and an alternation of escaped literals under `re.IGNORECASE`.
- Python leaves set iteration order open. `", ".join` of a set appears at lines 84 and 112, so that order is a parameter of `Excerpt.Details` and `Excerpt.MakeRow`: any sequence listing each element once.
- Search.DistinctVisitsResults: requires that no relative path is visited twice, which holds for a real walk. The general definition `Search.Results` still merges repeated paths as the dictionary does.
- The static HTML of `generate_html` is left out: the style sheet, the search-parameter card (lines 120-160), the table frame, and the rows of lines 199-205, which only concatenate values the model already defines. `html.escape(ext)` at line 169 changes no extension.
- The `print` on a filename match (line 45) is left out.

## Findings

| source | as written | input that shows it | evidently intended | confidence | as-written member | corrected member |
|---|---|---|---|---|---|---|
| search.py:58,91-94 | the terms recorded for a line are already `re.escape`d (`pattern.pattern[2:-2]`), and `highlight_search_terms` escapes them again, so a term with a special character is matched but never highlighted | term "e-mail" and a file line "e-mail": the line is recorded with term `e\-mail`, and the highlight pattern then looks for the literal text `e\-mail` | highlight the terms that matched, i.e. unescape (or do not escape) the recorded terms before highlighting | not executed | Excerpt.ShownAsWritten, Excerpt.EscapedTermNotHighlighted | Excerpt.Shown, Excerpt.MatchedTermHighlighted |
