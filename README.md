# Research assistant: citation extraction, task routing, arXiv helpers

A Dafny model of the sequential string and list logic at the core of the
research assistant. It has four parts.

- **The citation extractor** (`tools/citation_extractor.py`).
  - The twenty citation patterns, as ordered data.
  - The year and author validators.
  - `extract_citations`: its loops over two regions (the whole text, tagged
    inline, and the References/Bibliography/Works Cited section, tagged
    reference), over the patterns, over the matches and over the digit runs
    of each numerical match. It keeps a list of records and a set of seen keys.
  - `process_text`, which wraps the extraction in a result record.
- **The task dispatcher** `ResearcherAgent.run` (`agents/researcher_agent.py`).
  - The routing cascade: search, then download/summarize/read, then citation.
  - The small extractions each route makes: the topic after "about ", the URL
    starting at "http", and the text after the first colon.
  - The error messages every failure becomes.
  - The `extract_citations` wrapper.
- **The arXiv helpers** (`tools/arxiv_search.py`).
  - `_preprocess_query`: filter the tokens, rank them as
    `Counter.most_common` does, and join them with " AND ".
  - `_format_pdf_url`: the paper id after `abs/`, its validation, and the PDF
    link built from it.
  - The filter-and-cap loop of `search`.
- **The result and section helpers of `main.py`**.
  - `extract_first_pdf_url`.
  - The loop that lays out the sections of a summary under their headings.
  - The grouping of inline citations by number, and the listing of those
    numbers sorted by value.

The regular-expression engine is a parameter. `re.finditer` is a function
from a pattern and a text to a sequence of matches. The contract
`CitationPatterns.MatcherConforms` says that, for the patterns of the
library, the matches lie inside the text, run left to right without
overlapping, and carry one group per capturing group of the pattern. Two searches are hand-coded:

- `re.findall(r'\d+')` becomes maximal digit runs.
- The references-section search at `tools/citation_extractor.py:106` becomes
  `ReferencesSection`.

The imperative loops of the source are Dafny methods with loop invariants:

- `ExtractCitations` and its nested loops;
- `FilterResults`;
- `ExtractFirstPdfUrl`;
- `ShowSections`;
- `GroupCitations`.

`ExtractFirstPdfUrl` is specified directly by its result: the link of the
first result that settles the search, or `None` when none does. Each of the
others is proved equal to a specification function, and its properties are
lemmas about that function.

### The branch on line 117

The branch at `tools/citation_extractor.py:117` is kept exactly as written:
`'[' in pattern or ('(' in pattern and <the match has a digit>)`.

1. Every shipped pattern except the two parenthesised-number ones (lines
   17-18) contains a `[`.
2. Those two contain a `(` and exactly one capturing group.
3. So a match of theirs without a digit falls to the single-author branch.
4. There `match.group(2)` raises, and the match is skipped.

It follows that every emitted record is numerical:
`ExtractorProperties.EveryRecordNumerical`. The two author-year branches and
the validators never contribute a record. They are still modelled branch for
branch in `CitationExtractor.MatchCandidates`, and the validators are
standalone predicates.

### Quirks the model keeps

- **The inline region contains the references block.** It is the whole text,
  so a citation in the References section is reported twice: once as inline
  and once as reference.
- **A cap below one still lets one paper through.** `search` checks the cap
  after the append (`tools/arxiv_search.py:192-195`), so with a negative
  `max_results` the first kept result still gets through.
- **A trailing newline survives in the PDF link.** `[^/]+` takes a final
  newline into the id, and the `$` of the validation regex matches just
  before it. So an entry id ending in `abs/<id>\n` yields a link that
  contains the newline:
  `ArxivSearch.FormatPdfUrlKeepsNewline`.
- **The numerical branch re-checks its last key.** It falls through to the
  shared check at line 164 with its last key, which is already in the set. So
  nothing is added twice.
- **"Invalid URL in task" cannot be returned.** The URL slice always starts
  with "http", and stripping `.,;` cannot empty it:
  `ResearcherAgent.RunOutcome`.

## Model

| member | source | states |
|---|---|---|
| CitationPatterns.BracketInPattern | tools/citation_extractor.py:12-50 | every shipped pattern other than the two parenthesised-number ones contains a `[` |
| CitationPatterns.ParenthesisPatternChars | tools/citation_extractor.py:17-18 | the two parenthesised-number patterns contain no `[`, do contain `(`, and contain no `a` |
| CitationPatterns.ParenthesisPatternGroups | tools/citation_extractor.py:17-18 | each parenthesised-number pattern has exactly one capturing group, so `group(2)` does not exist for its matches |
| CitationPatterns.ShippedNumericalTest | tools/citation_extractor.py:117 | for a shipped pattern, the line-117 test holds iff the pattern is not a parenthesised-number one or the match text has a digit |
| CitationPatterns.ParenthesisPatternNotTwoAuthor | tools/citation_extractor.py:137 | neither parenthesised-number pattern takes the two-author branch |
| CitationValidators.ValidAuthorIff | tools/citation_extractor.py:82-86 | a name passes iff it has a non-whitespace character, all its characters are letters, whitespace, `-`, `.` or `'`, and it is at least 2 long |
| CitationValidators.ValidYearOfDigits | tools/citation_extractor.py:62-69 | a decimal year, with an optional single lower-case suffix letter, passes iff its value lies in [1800, currentYear + 1] |
| CitationValidators.TwoLetterSuffixRejected | tools/citation_extractor.py:64-65 | only one suffix letter is removed: a year followed by two letters fails to parse and is rejected |
| ReferencesSection.ReferencesText | tools/citation_extractor.py:106-107 | the references region is always a piece of the text (empty when nothing matches) |
| ReferencesSection.NoHeadingNoReferences | tools/citation_extractor.py:106-107 | with no References/Bibliography/Works Cited heading anywhere, the references region is "" |
| ReferencesSection.LeadingHeading | tools/citation_extractor.py:106 | a heading, a newline, a body without blank lines, then a blank line or the end: the region is exactly that body |
| ReferencesSection.LeadingHeadingFirst | tools/citation_extractor.py:106 | a match at index 0 by the first alternative that matches there is the search's result |
| SeenKeys.KeptSnoc | tools/citation_extractor.py:164-166 | one more candidate adds its key to the seen set, and its record is appended exactly when the key was unseen |
| SeenKeys.SeenMembers | tools/citation_extractor.py:132-135 | a key is in the seen set iff some candidate so far carries it |
| SeenKeys.KeptFirstOccurrences | tools/citation_extractor.py:164-166 | the kept records are the first occurrences of their keys, at increasing positions, and every candidate's key is held by a kept record found no later |
| SeenKeys.KeptDistinctKeys | tools/citation_extractor.py:164-166 | no two kept records come from candidates with the same key |
| SeenKeys.KeptAppend | tools/citation_extractor.py:164-166 | later candidates only append: records already kept are never changed or reordered |
| SeenKeys.KeptDistinct | tools/citation_extractor.py:164-166 | when all keys are distinct, every candidate's record is kept, in order |
| Strings.DigitRunsBase | tools/citation_extractor.py:119-121 | a text without digits has no runs; a non-empty all-digit text is one run |
| Strings.DigitRuns | tools/citation_extractor.py:119 | every run found is non-empty and all digits |
| Strings.StripIsSlice | tools/citation_extractor.py:130 | `strip()` keeps a contiguous slice and cuts only whitespace, at both ends |
| Strings.ParseIntOfDigits | main.py:220 | `int` of a non-empty digit string is its decimal value |
| Strings.ParseIntOfDecimal | tools/citation_extractor.py:65 | `int` reads back the decimal form of every natural number |
| Strings.WordsNonEmpty | tools/citation_extractor.py:83 | `split()` has a word iff some character is not whitespace |
| Strings.Lower | agents/researcher_agent.py:109 | `lower()` keeps the length and lowers each character |
| Strings.FindFrom | agents/researcher_agent.py:128-135 | `find` gives the first occurrence at or after the start, or none at all |
| Strings.RStripChars | agents/researcher_agent.py:137 | `rstrip(chars)` keeps a prefix, removes only characters of the set, and leaves no trailing one |
| CitationExtractor.Context | tools/citation_extractor.py:130 | the context of a match is a piece of the region it was found in |
| CitationExtractor.AddIfUnseen | tools/citation_extractor.py:164-166 | the record list and seen set become those of the candidates so far plus this one |
| CitationExtractor.AddNumbers | tools/citation_extractor.py:124-135 | the loop over digit runs leaves list and set as the kept records and seen keys with one candidate per run added |
| CitationExtractor.ScanMatch | tools/citation_extractor.py:116-171 | one match's body (the three branches, the shared key check, the skipped errors) adds exactly that match's candidates |
| CitationExtractor.ScanMatches | tools/citation_extractor.py:114-171 | the loop over matches adds the candidates of all matches, in match order |
| CitationExtractor.ScanPatterns | tools/citation_extractor.py:113-171 | the loop over patterns adds the candidates of all patterns, in pattern order |
| CitationExtractor.ExtractCitations | tools/citation_extractor.py:88-174 | the returned list is the first-key-wins filtering of all candidates, inline region first, then references; [] for an empty text |
| CitationExtractor.ProcessText | tools/citation_extractor.py:176-203 | success iff the text is non-empty, citations are the extraction, and an empty text gives success false, no citations, "Empty text provided" |
| ExtractorProperties.NumericalCandidatesWellFormed | tools/citation_extractor.py:124-132 | each number's record carries the key built from type, text and number, a context inside the region, and a number that is a digit run of its text |
| ExtractorProperties.MatchCandidatesWellFormed | tools/citation_extractor.py:117-162 | every record a match yields is keyed as the source keys it, and its context lies in the region |
| ExtractorProperties.MatchCandidatesNumerical | tools/citation_extractor.py:117-155 | for a shipped pattern whose match has the pattern's groups, every record is numerical |
| ExtractorProperties.MatchCandidatesIgnoreYear | tools/citation_extractor.py:117-155 | for shipped patterns the current year has no effect on a match's records |
| ExtractorProperties.MatchCandidatesOfEmptyRegion | tools/citation_extractor.py:110-121 | a match over the empty region yields nothing |
| ExtractorProperties.EmptyRegionNoCandidates | tools/citation_extractor.py:107-112 | the empty references region yields no candidate at all |
| ExtractorProperties.RegionWellFormed | tools/citation_extractor.py:112-162 | every candidate of a region is well keyed, carries that region's tag and a context inside it, and a numerical one's number is a digit run of its text |
| ExtractorProperties.CandidatesNumbersAreRuns | tools/citation_extractor.py:118-127 | the number of every numerical candidate is a digit run of its citation text |
| ExtractorProperties.RegionNumerical | tools/citation_extractor.py:112-135 | under a conforming matcher every candidate of a region is numerical |
| ExtractorProperties.CandidatesWellFormed | tools/citation_extractor.py:110-135 | every candidate is keyed by `Key`, has its context inside the text and a number that is a digit run, and is tagged inline exactly when it comes from the first region |
| ExtractorProperties.CandidatesNumerical | tools/citation_extractor.py:117-135 | under a conforming matcher every candidate is numerical |
| ExtractorProperties.RegionOrigin | tools/citation_extractor.py:112-115 | every candidate of a region comes from a particular match of a particular pattern |
| ExtractorProperties.InRegion | tools/citation_extractor.py:112-115 | every record of every match of every pattern is a candidate of the region |
| ExtractorProperties.NumericalKeyInjective | tools/citation_extractor.py:132 | two numerical records with the same key agree on text, number and region |
| ExtractorProperties.ExtractionKeepsFirst | tools/citation_extractor.py:102-166 | first occurrence wins: output records are candidates at increasing positions, no earlier candidate shares their key, keys are distinct, and every candidate's key is covered |
| ExtractorProperties.ExtractionDistinctKeys | tools/citation_extractor.py:132-135 | no two returned records share a dedup key |
| ExtractorProperties.ExtractionContextInText | tools/citation_extractor.py:130 | every returned context is a piece of the input text |
| ExtractorProperties.InlineBeforeReference | tools/citation_extractor.py:110-112 | all inline records come before all reference records |
| ExtractorProperties.NoHeadingAllInline | tools/citation_extractor.py:106-112 | without a heading the output is the filtered inline candidates and every record is inline |
| ExtractorProperties.EveryRecordNumerical | tools/citation_extractor.py:117-135 | under the shipped patterns and a conforming matcher every returned record is numerical |
| ExtractorProperties.RegionOf | tools/citation_extractor.py:110 | the region a tag stands for (the whole text for inline, the references section for reference) is a piece of the text |
| ExtractorProperties.NumericalCandidateAt | tools/citation_extractor.py:110-131 | each digit run of a numerical match over either region is the number of a candidate carrying that match's text and that region's tag |
| ExtractorProperties.NumericalMatchEmitted | tools/citation_extractor.py:110-135 | each digit run of a numerical match over either region is the number of exactly one returned record with that match's text and that region's tag |
| ExtractorProperties.ExtractionNumbersAreRuns | tools/citation_extractor.py:118-127 | conversely, the number of every returned numerical record is a non-empty digit run of its own citation text |
| ExtractorProperties.ExtractionCovers | tools/citation_extractor.py:164-166 | each candidate's key is held by exactly one returned record |
| ExtractorProperties.CandidateNumericalAt | tools/citation_extractor.py:117-127 | under a conforming matcher each candidate is numerical and its number is all digits |
| ResearcherAgent.RouteOf | agents/researcher_agent.py:112-159 | search wins over paper, paper over citation, citation over unknown, each as the substring tests on the lowered, stripped task |
| ResearcherAgent.ResearchIsSearch | agents/researcher_agent.py:112 | a task mentioning "search" and "research" is a search task |
| ResearcherAgent.AboutFrom | agents/researcher_agent.py:115 | the first "about " followed by a character other than a newline, or none |
| ResearcherAgent.LineEnd | agents/researcher_agent.py:115 | `.+` stops at the first newline or the end |
| ResearcherAgent.AboutTopic | agents/researcher_agent.py:115-117 | with no "about" before it, a one-line topic after "about " is the query, stripped ("search papers about dark matter" gives "dark matter") |
| ResearcherAgent.AboutFirst | agents/researcher_agent.py:115 | the search finds the first "about " |
| ResearcherAgent.UrlShape | agents/researcher_agent.py:128-137 | no URL iff no "http"; otherwise it starts with "http", holds no space, has no trailing `.,;` and is a piece of the task |
| ResearcherAgent.UrlPieceShape | agents/researcher_agent.py:133-137 | stripping `.,;` from a space-free piece starting with "http" keeps "http" and leaves no trailing `.,;` |
| ResearcherAgent.UrlNeverEmpty | agents/researcher_agent.py:137-139 | an extracted URL is never empty |
| ResearcherAgent.UrlOfParts | agents/researcher_agent.py:128-137 | a first "http"-URL followed by a space or the end is extracted exactly |
| ResearcherAgent.CitationTextOfParts | agents/researcher_agent.py:147-153 | the text is the stripped rest after the first colon, or the empty-text error |
| ResearcherAgent.CitationTextNoColon | agents/researcher_agent.py:147-149 | no colon gives "No text provided for citation extraction" |
| ResearcherAgent.ExtractCitations | agents/researcher_agent.py:70-88 | the wrapper returns `process_text`: the extraction with success for non-empty text, the empty-text failure otherwise |
| ResearcherAgent.RunOutcome | agents/researcher_agent.py:101-172 | the invalid-task error exactly for an empty or non-string task; the only other failures are no URL, the two citation-text errors and the unknown task; "Invalid URL in task" never |
| ResearcherAgent.RunRoutes | agents/researcher_agent.py:109-159 | a search task searches its topic, a paper task processes its URL or fails with no URL, a citation task succeeds with the extraction of its text, and an unknown task fails with its text |
| Ranking.FirstPos | tools/arxiv_search.py:64-67 | the first position of an element, or the length when it is absent |
| Ranking.Distinct | tools/arxiv_search.py:64 | the distinct elements, none repeated, exactly those of the input |
| Ranking.InsertSorted | tools/arxiv_search.py:66-67 | inserting a new element keeps a sorted sequence sorted and adds just that element |
| Ranking.SortBySorted | tools/arxiv_search.py:66-67 | sorting distinct elements under a strict total order is a permutation and puts them in that order |
| ArxivSearch.Take | tools/arxiv_search.py:67 | the first `n` elements, or all of them when there are fewer |
| ArxivSearch.BeforeStrictTotal | tools/arxiv_search.py:64-67 | higher count first, ties by first occurrence, is a strict total order on the tokens |
| ArxivSearch.MostCommonTop | tools/arxiv_search.py:64-67 | `most_common(n)`: at most n distinct tokens, ranked, each before every token left out, and all of them when fewer than n |
| ArxivSearch.FilterTokens | tools/arxiv_search.py:56-61 | a token survives iff it is no stop-word, alphanumeric and longer than two characters |
| ArxivSearch.FilterTokensCount | tools/arxiv_search.py:56-64 | filtering does not change the count of a surviving token |
| ArxivSearch.PreprocessQuery | tools/arxiv_search.py:37-80 | a query of at most 200 characters is returned unchanged; a failing tokenizer gives the first 200 characters |
| ArxivSearch.KeyTermsSpec | tools/arxiv_search.py:53-70 | the joined terms: at most maxTerms distinct key tokens, ranked by frequency with ties by first occurrence, each before every key token left out |
| ArxivSearch.AbsTailShape | tools/arxiv_search.py:102-107 | a found id is non-empty, has no '/', follows "abs/" and ends the URL |
| ArxivSearch.PaperIdOfParts | tools/arxiv_search.py:102-107 | an URL ending in "abs/" and a slash-free id yields that id |
| ArxivSearch.BeforeV | tools/arxiv_search.py:115-116 | `split('v')[0]`: the prefix before the first 'v' |
| ArxivSearch.BeforeVOfBody | tools/arxiv_search.py:115-116 | dropping the version of a valid id leaves its `DDDD.DDDDD` core |
| ArxivSearch.FormatPdfUrl | tools/arxiv_search.py:90-121 | a link is returned iff the URL has an id after "abs/" that is valid |
| ArxivSearch.FormatPdfUrlOfId | tools/arxiv_search.py:110-118 | a versioned id and its unversioned core give the same link, `https://arxiv.org/pdf/<core>.pdf` |
| ArxivSearch.FormatPdfUrlKeepsNewline | tools/arxiv_search.py:102-118 | an id followed by one final newline passes both regexes, and the link keeps the newline |
| ArxivSearch.FormatPdfUrlNone | tools/arxiv_search.py:102-112 | no id or an invalid id gives None |
| ArxivSearch.SelectedPrefix | tools/arxiv_search.py:164-192 | later results never change the papers selected from earlier ones |
| ArxivSearch.SelectedSpec | tools/arxiv_search.py:173-192 | every selected paper is recent enough and carries the PDF link of its own entry, and every kept result is selected |
| ArxivSearch.SelectedOrigin | tools/arxiv_search.py:164-192 | exactly the kept results become papers: the i-th paper is the paper of the kept result at an increasing position (the client's order), and every kept result has a position |
| ArxivSearch.FilterResults | tools/arxiv_search.py:164-195 | the loop returns the first max(cap, 1) selected papers, in the client's order |
| ArxivSearch.Search | tools/arxiv_search.py:140-201 | an empty query gives no results; long queries are preprocessed; the result is the selected papers of the client's answer, capped at max(cap, 1) |
| MainFlow.ExtractFirstPdfUrl | main.py:12-37 | the first result with a `pdf_url`, or a `url` ending in ".pdf" in any case, decides, and `pdf_url` beats `url`; None without one |
| MainFlow.Rank | main.py:144-150 | the position of a section type in the table's order |
| MainFlow.FirstNewFrom | main.py:170-182 | the first type in table order that the section mentions and that has no heading yet; earlier mentioned types are skipped |
| MainFlow.LayOutSnoc | main.py:161-191 | the layout of one more section is one loop step on the layout so far |
| MainFlow.StepHeading | main.py:170-182 | a section with a new type adds a heading with the content below its first line, marks the type processed and makes it current |
| MainFlow.StepPlain | main.py:184-191 | a section without a new type is shown under the current heading, or as general content when there is none |
| MainFlow.ScanStep | main.py:170-173 | the table scan at one position: take the type if new, else go on |
| MainFlow.ShowSections | main.py:158-191 | the loop shows exactly the layout the step function defines, section by section |
| MainFlow.AnnouncedSnoc | main.py:174-177 | only a heading adds to the announced types |
| MainFlow.StepConsistent | main.py:161-191 | each step keeps the layout consistent |
| MainFlow.LayOutConsistent | main.py:158-191 | processed types are exactly the announced ones, each at most once, the current heading is the last one, general content only before the first heading, and one entry per non-blank section |
| MainFlow.ProcessedGrows | main.py:158-175 | the processed set only grows and the output only extends |
| MainFlow.FallsThrough | main.py:171-173 | a mentioned type already processed does not stop the scan: a later new type still wins |
| MainFlow.HeadingBodyDropsFirstLine | main.py:179-180 | a heading's content is the rest after its first line, stripped |
| MainFlow.InlineMembers | main.py:203 | inline records are exactly the records tagged inline |
| MainFlow.GroupCitations | main.py:203-216 | keys are the distinct numbers of inline records in first-seen order, each mapped to its records' texts in order; the other inline records go to the author list in order |
| MainFlow.GroupNewNumber | main.py:212-214 | a new number opens a group holding this text |
| MainFlow.GroupKnownNumber | main.py:214 | a known number's group gets this text appended |
| MainFlow.GroupAuthor | main.py:215-216 | a record without a number goes to the author list |
| MainFlow.TextsStep | main.py:209-214 | after an append the map still holds every number's texts |
| MainFlow.TextsOfAbsent | main.py:212-213 | a number not seen yet has no texts |
| MainFlow.NumbersSnoc | main.py:209-213 | one more record adds its number to the first-seen key order exactly when it is new |
| MainFlow.TextsSnoc | main.py:214 | one more numbered record adds its text to its own number's group only |
| MainFlow.AuthorsSnoc | main.py:215-216 | one more record without a number extends the author list |
| MainFlow.ListingOf | main.py:220-222 | one entry per number in the given order, counting the distinct texts of that number |
| MainFlow.ByValueStrictTotal | main.py:220 | by integer value, ties by first position, is a strict total order on the keys |
| MainFlow.ListingSorted | main.py:218-222 | the listing is a permutation of the keys, sorted by `int(number)` with equal values in insertion order (stable sort) |
| MainFlow.TextOrigin | main.py:209-214 | every grouped text comes from an inline numbered record with that number |
| MainFlow.TextsDistinct | main.py:221 | with distinct dedup keys, a number's grouped texts are distinct |
| MainFlow.DistinctCount | main.py:221-222 | a sequence without repetitions has as many distinct elements as entries |
| MainFlow.ExtractionNumbersParse | main.py:220 | every extracted number passes `int` and means its decimal value |
| MainFlow.GroupedNumbersParse | main.py:220 | `int` never fails on a grouped number |
| MainFlow.GroupedCountsExact | main.py:221-222 | the printed occurrence count is the number of grouped records: dedup already made their texts distinct |
| MainFlow.NoAuthorCitations | main.py:215-216 | under the shipped patterns the author list is always empty |
| MainFlow.NumbersAreOfRecords | main.py:209-211 | every grouped number is the number of some record |
| MainFlow.NoAuthorRecords | main.py:215-216 | with only numbered records the author list is empty |

## Left out

- Unicode: `lower()`, `isalnum()`, `isdigit()` and `\d` are modelled on ASCII; whitespace is Python's full `isspace` set.
- The regular-expression engine is a parameter with a contract (`CitationPatterns.MatcherConforms`), not an implementation; only digit runs and the references-section search are hand-coded.
- Exceptions inside the match loop: the only ones modelled are those group access raises (a group the pattern lacks, or `.strip()` on a group that did not take part); each makes the match contribute nothing, as the `except` at lines 169-171 does.
- Logging, `print` calls and the `DEBUG` print in `search` have no effect on results and are left out.
- nltk's `word_tokenize` and stop-word list are parameters (`tokenize`, `stopWords`); a tokenizer failure is `None`.
- The arXiv client is a parameter (`client`) mapping the query and cap to result entries; `_check_rate_limit` (wall clock and sleep) is left out.
- Dates: `datetime.now`, `timedelta` and the timezone normalisation become an integer `published` and an integer `dateFilter`; the current year is a parameter of the validators.
- The `arxiv.ArxivError` and generic exception branches of `search` and the per-result `except` are left out: the modelled loop body cannot raise.
- `process_paper` and `search_papers` are parameters of `Run`; tools/pdf_processor.py is not part of this model.
- The `re.split(r'\n\s*\n', summary_text)` that produces the sections is left out; `ShowSections` takes the sections as input.
- The printed text of `main()` (banners, icons, upper-cased heading names) is left out; headings are modelled as section types.
- main.py's `print_progress`, `get_user_input` and the interactive loop are left out (interactive I/O and sleeps).
- MainFlow.ListingSorted: requires every key to parse as an integer, because `int()` would raise otherwise; `MainFlow.GroupedNumbersParse` shows this always holds for keys grouped from an extraction.
- ArxivSearch.PreprocessQuery: its own contract covers the short and failing cases; the long-query result is the " AND "-join of `KeyTerms`, whose properties are stated in `ArxivSearch.KeyTermsSpec`.
- utils/logger.py, utils/config.py, tools/__init__.py and tests/test_agent.py are not part of this model.
