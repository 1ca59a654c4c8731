/** The pipeline on two scenarios: summarizing three
    results of which the middle one has no raw content, and a search whose
    second result scores below the threshold. */
module PipelineExamples {
  import opened Wrappers
  import opened SearchResults

  /** Raw contents "text A", absent, "text C": two of the three batch
      answers are used, for entries 0 and 2, and entry 1 keeps its content. */
  lemma SummarizeSkipsAbsent(rs: seq<SearchResult>, summarize: string -> string)
    requires |rs| == 3
    requires rs[0].rawContent == Some("text A") && rs[1].rawContent.None? && rs[2].rawContent == Some("text C")
    ensures Requests(rs) == ["text A", "text C"]
    ensures var out := Redistribute(rs, Answer(Requests(rs), summarize));
      && |out| == 3
      && out[0] == rs[0].(content := Some(summarize("text A")))
      && out[1] == rs[1]
      && out[2] == rs[2].(content := Some(summarize("text C")))
  {
    assert rs[1..][1..] == [rs[2]] && [rs[2]][1..] == [];
    assert Requests([rs[2]]) == ["text C"];
    assert Requests(rs[1..]) == ["text C"];
    SummaryPairing(rs, summarize);
    var out := Redistribute(rs, Answer(Requests(rs), summarize));
    assert out[0] == SummarizeAt(rs[0], summarize);
    assert out[1] == SummarizeAt(rs[1], summarize);
    assert out[2] == SummarizeAt(rs[2], summarize);
  }

  /** Scores 0.9 and 0.3 against the default threshold 0.5: the report has
      exactly one source block, that of the first result, and no
      suggested-answer line unless asked for. */
  lemma ThresholdScenario(r1: SearchResult, r2: SearchResult, summarize: string -> string,
                          scoreText: real -> string, answer: Option<string>)
    requires r1.score == 0.9 && r2.score == 0.3
    ensures var args := SearchArgs("capital of France");
      var out := Pipeline([r1, r2], args, summarize);
      var lines := ReportLines("capital of France", out, answer, args.suggestedAnswer, scoreText);
      && |out| == 1
      && out[0].url == r1.url && out[0].score == r1.score
      && CountPrefixed(lines, "Relevance Score: ") == 1
      && CountPrefixed(lines, "Suggested Answer: ") == 0
  {
    var args := SearchArgs("capital of France");
    assert [r1, r2][1..] == [r2] && [r2][1..] == [];
    assert KeepRelevant([r1, r2], args.filterScore) == [r1];
    var out := Pipeline([r1, r2], args, summarize);
    ReportCounts("capital of France", out, answer, args.suggestedAnswer, scoreText);
  }
}
