# Web-search post-processor, modelled in Dafny

This project models the result post-processor of the LangChain playground's
web-search tool, `langchain_playground/Tools/WebSearch/websearch.py`. The
processor takes a search provider's response, which holds the query, a ranked
list of result records and a suggested answer, and turns it into one text
block. It does this in four steps:

1. It drops the results that score below the threshold.
2. It cleans each result's `content` and `raw_content` with `filter_garbage`.
3. If asked, it replaces each content by an LLM summary of the raw content.
4. It renders the query, the sources and the optional suggested answer.

The project has these modules:

- `TextFilter` (`text_filter.dfy`) models `filter_garbage` as pure functions.
  - The character classes of the allow-list are one predicate each: `IsPrintableAscii`, `IsControlChar`, `IsChinese`, `IsMiscSymbol`, `IsDingbat`, `IsEmoji`. `IsValidChar` combines them.
  - `Select` models the generator expression that joins the allowed characters.
  - `CollapseRuns` models each `re.sub`. The pattern ``\n{3,}`` replaced by two newlines is `CollapseRuns(s, '\n', 2)`. The pattern `` {2,}`` replaced by one space is `CollapseRuns(s, ' ', 1)`. Every maximal run of the character longer than `keep` becomes `keep` copies of it.
  - Characters are Unicode scalar values, so the emoji range above U+FFFF is covered.
- `FilterExamples`: the cleaner on sample inputs.
- `SearchResults` (`search_results.dfy`) holds the records and the specification of each stage, as functions on values:
  - records: `SearchArgs` (with the record's defaults), `SearchResult` and `SearchResponse`;
  - filtering: `KeepRelevant`;
  - cleaning: `CleanField`, `CleanResult` and `CleanAll`;
  - summary pairing: `SummarizeAt`, `Requests`, `Answer` and `Redistribute`;
  - the whole pipeline on values: `Pipeline`;
  - the rendered lines: `ReportLines`, built from `Header`, `Blocks` and `AnswerLines`, and joined with `Join`.
- `WebSearch` (`websearch.dfy`) holds the imperative side.
  - Class `Response` holds the response being processed. Its methods carry the loops of the Python code, and each method's postcondition ties the new state to the specification functions.
  - `Search` models `websearch` as the composition of building the options, asking the provider and processing.
- `PipelineExamples`: the summarizing and threshold scenarios.
- `Wrappers`: `Option`, for fields that may be `None`.

Three things are parameters of the model:

- the search provider: `search: SearchArgs -> SearchResponse`;
- the LLM summarizer: `summarize: string -> string`;
- Python's rendering of a float score: `scoreText: real -> string`.

A Python `None` inside an f-string renders as `None`. `Render` models this for an absent content and an absent answer.

## Model

| member | source | states |
|---|---|---|
| `TextFilter.Select` | langchain_playground/Tools/WebSearch/websearch.py:59 | the kept text is no longer than the input; every kept character satisfies the predicate; a character occurs in the result iff it occurs in the input and satisfies the predicate |
| `TextFilter.SelectAppend` | langchain_playground/Tools/WebSearch/websearch.py:59 | selection distributes over concatenation, so kept characters keep their relative order |
| `TextFilter.SelectAll` | langchain_playground/Tools/WebSearch/websearch.py:59 | a text made only of accepted characters is kept whole |
| `TextFilter.SelectNone` | langchain_playground/Tools/WebSearch/websearch.py:59 | a text with no accepted character yields the empty text |
| `TextFilter.SelectSelect` | langchain_playground/Tools/WebSearch/websearch.py:59 | selecting by one predicate and then another equals selecting once by their conjunction |
| `TextFilter.LeadRun` | langchain_playground/Tools/WebSearch/websearch.py:60-61 | the result is the length of the maximal run of the character at the start of the text: all of its positions hold the character and the next one does not |
| `TextFilter.LeadRunAtLeast` | langchain_playground/Tools/WebSearch/websearch.py:60-61 | the leading run is at least n long iff the first n characters are all the run character |
| `TextFilter.LeadRunOfRep` | langchain_playground/Tools/WebSearch/websearch.py:60-61 | a block of a copies followed by a different character has a leading run of exactly a |
| `TextFilter.RunsAtMostSuffix` | langchain_playground/Tools/WebSearch/websearch.py:60-61 | a run bound that holds for a text holds for every suffix |
| `TextFilter.CollapseRuns` | langchain_playground/Tools/WebSearch/websearch.py:60-61 | collapsing never lengthens the text and introduces no character absent from the input |
| `TextFilter.CollapseLeadRunSelf` | langchain_playground/Tools/WebSearch/websearch.py:60-61 | a leading run of n copies of the character becomes min(n, keep) copies: a run longer than keep is cut to exactly keep, a shorter one is kept whole |
| `TextFilter.CollapseRunHead` | langchain_playground/Tools/WebSearch/websearch.py:60-61 | a text starting with exactly n copies of the character collapses to min(n, keep) copies followed by the collapse of the rest |
| `TextFilter.LeadRunTake` | langchain_playground/Tools/WebSearch/websearch.py:60-61 | a leading run that stops before position k is also the leading run of the first k characters |
| `TextFilter.CollapseSplit` | langchain_playground/Tools/WebSearch/websearch.py:60-61 | a text cut right after a character other than the run character collapses piece by piece: no match of the pattern spans the cut |
| `TextFilter.CollapseRunAt` | langchain_playground/Tools/WebSearch/websearch.py:60-61 | every maximal run anywhere in the text, n copies of the character between two other characters, becomes exactly min(n, keep) copies, and the text on either side is collapsed on its own |
| `TextFilter.CollapseAbsent` | langchain_playground/Tools/WebSearch/websearch.py:60-61 | a text without the run character is unchanged |
| `TextFilter.CollapseFirst` | langchain_playground/Tools/WebSearch/websearch.py:60-61 | with at least one copy kept, the first character of the input is the first of the output |
| `TextFilter.CollapseBoundsRuns` | langchain_playground/Tools/WebSearch/websearch.py:60-61 | after collapsing, no run of the character anywhere in the output is longer than `keep` |
| `TextFilter.CollapseIdentity` | langchain_playground/Tools/WebSearch/websearch.py:60-61 | a text whose runs are already at most `keep` long is unchanged |
| `TextFilter.CollapseKeepsChars` | langchain_playground/Tools/WebSearch/websearch.py:60-61 | with at least one copy kept, a character occurs in the output iff it occurs in the input |
| `TextFilter.CollapseLeadRun` | langchain_playground/Tools/WebSearch/websearch.py:60-61 | collapsing runs of one character leaves the leading run of any other character unchanged |
| `TextFilter.CollapseKeepsOtherRuns` | langchain_playground/Tools/WebSearch/websearch.py:60-61 | collapsing runs of one character never lengthens runs of another, so the space collapse cannot create a newline run |
| `TextFilter.CollapseSelect` | langchain_playground/Tools/WebSearch/websearch.py:60-61 | collapsing removes only copies of the run character: every other character survives, in order |
| `TextFilter.FilterGarbage` | langchain_playground/Tools/WebSearch/websearch.py:40-63 | the output is no longer than the input and every output character is on the allow-list (printable ASCII 32-126, newline, tab, carriage return, U+4E00-U+9FFF, U+2600-U+26FF, U+2700-U+27BF, U+1F300-U+1F9FF) |
| `TextFilter.FilterGarbageOfValid` | langchain_playground/Tools/WebSearch/websearch.py:56-61 | on allow-listed text only the two collapses act |
| `TextFilter.NewlineRunsIndexed` | langchain_playground/Tools/WebSearch/websearch.py:60 | "no newline run longer than two" holds iff no three consecutive positions hold newlines |
| `TextFilter.SpaceRunsIndexed` | langchain_playground/Tools/WebSearch/websearch.py:61 | "no space run longer than one" holds iff no two consecutive positions hold spaces |
| `TextFilter.FilterGarbageIsClean` | langchain_playground/Tools/WebSearch/websearch.py:59-61 | the output is clean: allow-listed characters only, never three newlines in a row, never two spaces in a row |
| `TextFilter.FilterGarbageOnClean` | langchain_playground/Tools/WebSearch/websearch.py:56-61 | the cleaner is the identity on clean text |
| `TextFilter.FilterGarbageFixedPoints` | langchain_playground/Tools/WebSearch/websearch.py:56-61 | a text is left unchanged by the cleaner iff it is clean |
| `TextFilter.FilterGarbageIdempotent` | langchain_playground/Tools/WebSearch/websearch.py:59-61 | cleaning twice equals cleaning once |
| `TextFilter.FilterGarbageChars` | langchain_playground/Tools/WebSearch/websearch.py:56-61 | a character occurs in the output iff it occurs in the input and is allow-listed |
| `TextFilter.FilterGarbageKeepsOrder` | langchain_playground/Tools/WebSearch/websearch.py:56-61 | apart from newlines and spaces, the output is exactly the input's allow-listed characters in their original order |
| `FilterExamples.NewlineCollapseExample` | langchain_playground/Tools/WebSearch/websearch.py:60 | the newline collapse turns "a" + four newlines + "b" into "a" + two newlines + "b" |
| `FilterExamples.NewlineRunExample` | langchain_playground/Tools/WebSearch/websearch.py:59-61 | the cleaner maps "a" + four newlines + "b" to "a" + two newlines + "b" |
| `FilterExamples.NoSpaceExample` | langchain_playground/Tools/WebSearch/websearch.py:61 | the space collapse leaves "a" + two newlines + "b" unchanged |
| `FilterExamples.SpaceCollapseExample` | langchain_playground/Tools/WebSearch/websearch.py:61 | the space collapse turns "a" + four spaces + "b" into "a b" |
| `FilterExamples.SpaceRunExample` | langchain_playground/Tools/WebSearch/websearch.py:59-61 | the cleaner maps "a" + four spaces + "b" to "a b" |
| `FilterExamples.BellSelectExample` | langchain_playground/Tools/WebSearch/websearch.py:56-59 | the allow-list step turns "a" + U+0007 + "b" into "ab" |
| `FilterExamples.BellExample` | langchain_playground/Tools/WebSearch/websearch.py:56-59 | U+0007 between two letters is removed |
| `FilterExamples.ChineseExample` | langchain_playground/Tools/WebSearch/websearch.py:51 | the CJK ideograph U+4E2D is kept |
| `SearchResults.KeepRelevant` | langchain_playground/Tools/WebSearch/websearch.py:100 | every survivor scores at least the threshold; a result is a survivor iff it is in the input and meets the threshold |
| `SearchResults.KeepRelevantAppend` | langchain_playground/Tools/WebSearch/websearch.py:100 | filtering distributes over concatenation, so survivors keep their relative order |
| `SearchResults.KeepRelevantSnoc` | langchain_playground/Tools/WebSearch/websearch.py:100 | extending the scanned prefix by one result adds that result exactly when it meets the threshold |
| `SearchResults.KeepRelevantAll` | langchain_playground/Tools/WebSearch/websearch.py:100 | nothing is dropped iff every score meets the threshold |
| `SearchResults.CleanField` | langchain_playground/Tools/WebSearch/websearch.py:103-106 | an absent field stays absent, and a present field becomes clean text no longer than before |
| `SearchResults.CleanResult` | langchain_playground/Tools/WebSearch/websearch.py:102-106 | url and score are untouched; content and raw content are absent exactly when they were before |
| `SearchResults.CleanAll` | langchain_playground/Tools/WebSearch/websearch.py:102-106 | cleaning keeps the number of results |
| `SearchResults.CleanResultIdempotent` | langchain_playground/Tools/WebSearch/websearch.py:102-106 | cleaning a result twice equals cleaning it once |
| `SearchResults.Requests` | langchain_playground/Tools/WebSearch/websearch.py:79-83 | the raw contents whose batch answers line 83 keeps are never more than the results |
| `SearchResults.RequestsCount` | langchain_playground/Tools/WebSearch/websearch.py:79-83 | the number of batch answers line 83 keeps equals the number of results with raw content |
| `SearchResults.Redistribute` | langchain_playground/Tools/WebSearch/websearch.py:83-87 | handing the answers back keeps the number of results |
| `SearchResults.SummaryPairing` | langchain_playground/Tools/WebSearch/websearch.py:79-87 | the code's index pairing (one summary slot per result, empty where raw content is absent) gives the same results as sending only the present raw contents and handing back the answers in order |
| `SearchResults.PipelineResults` | langchain_playground/Tools/WebSearch/websearch.py:100-109 | the processed results are, one for one and in order, the results meeting the threshold, with url and score untouched (score at least the threshold) and raw content cleaned; content is cleaned, or is the summary of the cleaned raw content when summarizing and raw content is present |
| `SearchResults.ResultLines` | langchain_playground/Tools/WebSearch/websearch.py:117-123 | each result contributes three lines |
| `SearchResults.Blocks` | langchain_playground/Tools/WebSearch/websearch.py:116-123 | the result lines number three per result |
| `SearchResults.BlocksAt` | langchain_playground/Tools/WebSearch/websearch.py:116-123 | the lines of result i are at positions 3i to 3i+2 of the blocks |
| `SearchResults.ReportLinesAt` | langchain_playground/Tools/WebSearch/websearch.py:111-123 | in the report, result i gives the lines "Relevance Score: …", "URL: …" and "Content: …" + newline at positions 2+3i, 3+3i and 4+3i |
| `SearchResults.JoinTwo` | langchain_playground/Tools/WebSearch/websearch.py:128 | joining two lines puts one separator between them |
| `SearchResults.JoinAppend` | langchain_playground/Tools/WebSearch/websearch.py:128 | joining a concatenation of two non-empty line lists puts one separator between the two joined halves |
| `SearchResults.NotPrefixed` | langchain_playground/Tools/WebSearch/websearch.py:112-126 | a line whose first character differs from a label's first character does not start with that label |
| `SearchResults.CountPrefixedThree` | langchain_playground/Tools/WebSearch/websearch.py:117-123 | counting labelled lines in a three-line list counts each of the three lines |
| `SearchResults.CountPrefixedOne` | langchain_playground/Tools/WebSearch/websearch.py:112-126 | a one-line list is counted once iff its line carries the label |
| `SearchResults.CountPrefixedAppend` | langchain_playground/Tools/WebSearch/websearch.py:111-126 | labelled lines of a concatenation are the sum of those of its parts |
| `SearchResults.ResultLinesCount` | langchain_playground/Tools/WebSearch/websearch.py:119-121 | each result block holds one "Relevance Score: " line and no "Suggested Answer: " line |
| `SearchResults.BlocksCount` | langchain_playground/Tools/WebSearch/websearch.py:116-123 | the blocks hold one "Relevance Score: " line per result and no "Suggested Answer: " line |
| `SearchResults.HeaderCount` | langchain_playground/Tools/WebSearch/websearch.py:111-114 | the "Query:" and "Sources:" lines carry neither label |
| `SearchResults.AnswerCount` | langchain_playground/Tools/WebSearch/websearch.py:125-126 | the answer part holds one "Suggested Answer: " line when asked for, none otherwise, and no "Relevance Score: " line |
| `SearchResults.ReportCounts` | langchain_playground/Tools/WebSearch/websearch.py:111-128 | the report has 2 + 3n lines plus one when the answer is asked for; exactly n lines start with "Relevance Score: "; one line starts with "Suggested Answer: " iff the suggested answer was asked for |
| `SearchResults.ReportStart` | langchain_playground/Tools/WebSearch/websearch.py:111-128 | the text starts with "Query: " + query, a blank line, then "Sources:" |
| `WebSearch.Response.constructor` | langchain_playground/Tools/WebSearch/websearch.py:90 | the response object holds the provider's query, results and answer |
| `WebSearch.Response.FilterByScore` | langchain_playground/Tools/WebSearch/websearch.py:100 | the result list becomes the results meeting the threshold, in order; query and answer are unchanged |
| `WebSearch.Response.CleanContents` | langchain_playground/Tools/WebSearch/websearch.py:102-106 | each result is replaced by its cleaned version, one for one; query and answer are unchanged |
| `WebSearch.Response.SummarizeContent` | langchain_playground/Tools/WebSearch/websearch.py:79-87 | the result count is unchanged; a result without raw content is unchanged; every other result's content becomes the summary of its own raw content; this equals handing out the answers to the present raw contents in order |
| `WebSearch.Response.Format` | langchain_playground/Tools/WebSearch/websearch.py:111-128 | the text is the newline-join of the header, three lines per result in order and the answer line when asked for |
| `WebSearch.Response.Process` | langchain_playground/Tools/WebSearch/websearch.py:90-128 | the results become the filtered, cleaned and optionally summarized list, and the text is the report of those results |
| `WebSearch.Search` | langchain_playground/Tools/WebSearch/websearch.py:131-157 | the text is the report of the provider's response to the collected options (defaults 5, 0.5, false, false) |
| `PipelineExamples.SummarizeSkipsAbsent` | langchain_playground/Tools/WebSearch/websearch.py:79-87 | with raw contents "text A", none and "text C", two of the three batch answers are used, for entries 0 and 2 ("text A" and "text C" in that order), and entry 1 is unchanged |
| `PipelineExamples.ThresholdScenario` | langchain_playground/Tools/WebSearch/websearch.py:100-128 | with scores 0.9 and 0.3 and the default threshold, only the first result survives, the report has one "Relevance Score: " line and no "Suggested Answer: " line |

The character-class predicates (`langchain_playground/Tools/WebSearch/websearch.py:49-57`) are definitions. Their ranges are the constants of the source, and they are used by `FilterGarbage` and the lemmas above. These are definitions too, and the lemmas above state their properties:

- `IsClean`: the condition the output of lines 59-61 meets;
- `SummarizeAt`: the update of one result at lines 85-87;
- `Answer`: the summarizer applied to each kept raw content (line 82);
- `CountPresent`: the number of results with raw content (lines 79-80);
- `Pipeline`: lines 100-109;
- `Header`: lines 111-114;
- `AnswerLines`: lines 125-126;
- `ReportLines`: lines 111-126;
- `Render`: a `None` inside an f-string, at lines 119-126;
- `Join`: the `"\n".join` at line 128;
- `Report`: `process_response` as a whole (lines 90-128).

`CountPrefixed` counts the lines that start with a given label. It is used to state the report's properties.

Two points where the model follows the code closely:

- The code sends the whole raw-content list, `None` entries included, to `chain.batch` (lines 79-82). It then discards the answers at those positions (line 83). Sending only the present raw contents and handing the answers back in order gives the same results; `SummaryPairing` proves it. The summarizer is a parameter here, so how many calls are made is not observable.
- Summaries replace `content` after cleaning and are not cleaned themselves. `PipelineResults` states this.

## Left out

- `tavily_search` (lines 20-37), `load_dotenv` and the `TAVILY_API_KEY` lookup: network and environment I/O. The provider is the parameter `search` of `WebSearch.Search`.
- The `ChatOpenAI` / `ChatPromptTemplate` chain and `chain.batch` (lines 68-82): an external LLM call, modelled as the function parameter `summarize`. Whether `None` entries reach the batch is not modelled.
- Rendering a float score in `f"Relevance Score: {result['score']}"`: Python's float repr, modelled as the parameter `scoreText`. Scores are `real`, so NaN and float rounding are not modelled.
- `max_results` is only passed to the provider. The model carries it in `SearchArgs` and nothing else reads it.
- Errors raised by the provider or the LLM, and `KeyError` on a record missing a key: every record is assumed to carry all four keys, with an absent value written as `None`. Exceptions propagate in the source and are not modelled.
- Result dictionaries are values in the model. Updating a key in place becomes replacing the element of the result list. No other reference to those dictionaries exists in the source, so no aliasing is lost.
- Python strings may hold lone surrogates (U+D800-U+DFFF), which a Dafny `char` cannot. No surrogate is on the allow-list, so the cleaner drops them anyway.
- `TextToSQL/react.py` is not part of this model: it is an agent over a SQLite database and a hosted LLM.
- `Notion/main.py` is not part of this model: it calls classes that are not available.
