/** The post-processor as the program runs it: a response object whose
    result list is filtered, cleaned and summarized in place, then
    rendered as one text block. */
module WebSearch {
  import opened Wrappers
  import opened TextFilter
  import opened SearchResults

  /** A search-provider response while it is being processed. */
  class Response {
    var query: string
    var results: seq<SearchResult>
    var answer: Option<string>

    constructor (r: SearchResponse)
      ensures query == r.query && results == r.results && answer == r.answer
    {
      query := r.query;
      results := r.results;
      answer := r.answer;
    }

    /** Replaces the result list by the results scoring at least `threshold`. */
    method FilterByScore(threshold: real)
      modifies this
      ensures results == KeepRelevant(old(results), threshold)
      ensures query == old(query) && answer == old(answer)
    {
      var rs := results;
      var kept: seq<SearchResult> := [];
      var i := 0;
      while i < |rs|
        invariant 0 <= i <= |rs|
        invariant kept == KeepRelevant(rs[..i], threshold)
        invariant query == old(query) && answer == old(answer)
      {
        KeepRelevantSnoc(rs, i, threshold);
        if rs[i].score >= threshold {
          kept := kept + [rs[i]];
        }
        i := i + 1;
      }
      assert rs[..i] == rs;
      results := kept;
    }

    /** Cleans the present content and raw content of every result in turn. */
    method CleanContents()
      modifies this
      ensures results == CleanAll(old(results))
      ensures query == old(query) && answer == old(answer)
    {
      var rs := results;
      var i := 0;
      while i < |rs|
        invariant 0 <= i <= |rs| && |rs| == |old(results)|
        invariant forall k :: 0 <= k < i ==> rs[k] == CleanResult(old(results)[k])
        invariant forall k :: i <= k < |rs| ==> rs[k] == old(results)[k]
      {
        var r := rs[i];
        if r.content.Some? {
          r := r.(content := Some(FilterGarbage(r.content.value)));
        }
        if r.rawContent.Some? {
          r := r.(rawContent := Some(FilterGarbage(r.rawContent.value)));
        }
        assert r == CleanResult(rs[i]);
        rs := rs[i := r];
        i := i + 1;
      }
      results := rs;
    }

    /** Gives every result that has raw content the summary of that raw
        content as its content.  One summary slot per result, left empty
        where there is no raw content, then the slots are paired with the
        results by index. */
    method SummarizeContent(summarize: string -> string)
      modifies this
      ensures results == Redistribute(old(results), Answer(Requests(old(results)), summarize))
      ensures |results| == |old(results)|
      ensures forall i :: 0 <= i < |results| ==> results[i] == SummarizeAt(old(results)[i], summarize)
      ensures query == old(query) && answer == old(answer)
    {
      var raws := seq(|results|, i requires 0 <= i < |results| reads this => results[i].rawContent);
      var slots := seq(|raws|, i requires 0 <= i < |raws| =>
        match raws[i] case None => None case Some(raw) => Some(summarize(raw)));
      var i := 0;
      while i < |results|
        invariant 0 <= i <= |results| && |results| == |old(results)|
        invariant forall k :: 0 <= k < i ==> results[k] == SummarizeAt(old(results)[k], summarize)
        invariant forall k :: i <= k < |results| ==> results[k] == old(results)[k]
        invariant query == old(query) && answer == old(answer)
      {
        if slots[i].Some? {
          results := results[i := results[i].(content := slots[i])];
        }
        i := i + 1;
      }
      SummaryPairing(old(results), summarize);
    }

    /** The report: header lines, three lines per result, and the suggested
        answer when asked for, joined with newlines. */
    method Format(suggested: bool, scoreText: real -> string) returns (text: string)
      ensures text == Join(ReportLines(query, results, answer, suggested, scoreText), "\n")
    {
      var lines := Header(query);
      var i := 0;
      while i < |results|
        invariant 0 <= i <= |results|
        invariant lines == Header(query) + Blocks(results[..i], scoreText)
      {
        assert results[..i + 1][..i] == results[..i];
        lines := lines + ResultLines(results[i], scoreText);
        i := i + 1;
      }
      assert results[..i] == results;
      lines := lines + AnswerLines(answer, suggested);
      assert lines == ReportLines(query, results, answer, suggested, scoreText);
      text := Join(lines, "\n");
    }

    /** The whole post-processing of one response. */
    method Process(args: SearchArgs, summarize: string -> string, scoreText: real -> string)
      returns (text: string)
      modifies this
      ensures results == Pipeline(old(results), args, summarize)
      ensures query == old(query) && answer == old(answer)
      ensures text == Join(ReportLines(query, results, answer, args.suggestedAnswer, scoreText), "\n")
    {
      FilterByScore(args.filterScore);
      CleanContents();
      if args.summarizeContent {
        SummarizeContent(summarize);
      }
      text := Format(args.suggestedAnswer, scoreText);
    }
  }

  /** The text a search produces for a provider response. */
  function Report(r: SearchResponse, args: SearchArgs, summarize: string -> string,
                  scoreText: real -> string): string
  {
    Join(ReportLines(r.query, Pipeline(r.results, args, summarize), r.answer,
                     args.suggestedAnswer, scoreText), "\n")
  }

  /** One search: the options are collected, the provider is asked, and its
      response is processed. */
  method Search(search: SearchArgs -> SearchResponse, summarize: string -> string,
                scoreText: real -> string, query: string, maxResults: int := 5,
                filterScore: real := 0.5, summarizeContent: bool := false,
                suggestedAnswer: bool := false)
    returns (text: string)
    ensures var args := SearchArgs(query, maxResults, filterScore, summarizeContent, suggestedAnswer);
      text == Report(search(args), args, summarize, scoreText)
  {
    var args := SearchArgs(query, maxResults, filterScore, summarizeContent, suggestedAnswer);
    var response := new Response(search(args));
    text := response.Process(args, summarize, scoreText);
  }
}
