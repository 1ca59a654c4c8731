/** Result records of a web search and the specification of each stage of
    the post-processing pipeline: filter by relevance score, clean the
    text fields, optionally summarize, render as text. */
module SearchResults {
  import opened Wrappers
  import opened TextFilter

  /** Options of one search; the defaults are those of the record. */
  datatype SearchArgs = SearchArgs(
    query: string,
    maxResults: int := 5,
    filterScore: real := 0.5,
    summarizeContent: bool := false,
    suggestedAnswer: bool := false)

  /** One result as the search provider returns it. */
  datatype SearchResult = SearchResult(
    url: string,
    score: real,
    content: Option<string>,
    rawContent: Option<string>)

  /** The provider's answer to one query: the query echoed back, the ranked
      results and an optional suggested answer. */
  datatype SearchResponse = SearchResponse(
    query: string,
    results: seq<SearchResult>,
    answer: Option<string>)

  // ---------------------------------------------------------------------
  // Filtering by score
  // ---------------------------------------------------------------------

  /** The results scoring at least `threshold`, in their original order. */
  function KeepRelevant(rs: seq<SearchResult>, threshold: real): (kept: seq<SearchResult>)
    ensures |kept| <= |rs|
    ensures forall i :: 0 <= i < |kept| ==> kept[i].score >= threshold
    ensures forall r :: r in kept <==> r in rs && r.score >= threshold
  {
    if rs == [] then []
    else (if rs[0].score >= threshold then [rs[0]] else []) + KeepRelevant(rs[1..], threshold)
  }

  /** Filtering a concatenation filters each part: survivors are never reordered. */
  lemma {:induction false} KeepRelevantAppend(a: seq<SearchResult>, b: seq<SearchResult>, threshold: real)
    ensures KeepRelevant(a + b, threshold) == KeepRelevant(a, threshold) + KeepRelevant(b, threshold)
  {
    if a == [] {
      assert a + b == b;
    } else {
      assert (a + b)[1..] == a[1..] + b;
      KeepRelevantAppend(a[1..], b, threshold);
    }
  }

  /** Filtering a prefix one result longer adds that result when it meets the threshold. */
  lemma KeepRelevantSnoc(rs: seq<SearchResult>, i: nat, threshold: real)
    requires i < |rs|
    ensures KeepRelevant(rs[..i + 1], threshold)
         == KeepRelevant(rs[..i], threshold) + (if rs[i].score >= threshold then [rs[i]] else [])
  {
    assert rs[..i + 1] == rs[..i] + [rs[i]];
    KeepRelevantAppend(rs[..i], [rs[i]], threshold);
    assert [rs[i]][1..] == [];
  }

  /** Only results below the threshold are dropped: the survivors are all
      of the input exactly when every score meets the threshold. */
  lemma {:induction false} KeepRelevantAll(rs: seq<SearchResult>, threshold: real)
    ensures KeepRelevant(rs, threshold) == rs <==> forall i :: 0 <= i < |rs| ==> rs[i].score >= threshold
  {
    if rs != [] {
      KeepRelevantAll(rs[1..], threshold);
      if rs[0].score < threshold {
        assert |KeepRelevant(rs, threshold)| < |rs|;
      } else if KeepRelevant(rs, threshold) == rs {
        assert KeepRelevant(rs[1..], threshold) == rs[1..];
      }
    }
  }

  // ---------------------------------------------------------------------
  // Cleaning the text fields
  // ---------------------------------------------------------------------

  /** An absent field stays absent; a present one is cleaned. */
  function CleanField(f: Option<string>): (g: Option<string>)
    ensures g.None? <==> f.None?
    ensures g.Some? ==> IsClean(g.value) && |g.value| <= |f.value|
  {
    match f
    case None => None
    case Some(t) => FilterGarbageIsClean(t); Some(FilterGarbage(t))
  }

  /** A result with both text fields cleaned and nothing else changed. */
  function CleanResult(r: SearchResult): (c: SearchResult)
    ensures c.url == r.url && c.score == r.score
    ensures c.content.None? <==> r.content.None?
    ensures c.rawContent.None? <==> r.rawContent.None?
  {
    r.(content := CleanField(r.content), rawContent := CleanField(r.rawContent))
  }

  /** Every result cleaned, one for one. */
  function CleanAll(rs: seq<SearchResult>): (cs: seq<SearchResult>)
    ensures |cs| == |rs|
  {
    seq(|rs|, i requires 0 <= i < |rs| => CleanResult(rs[i]))
  }

  /** Cleaning a result twice is cleaning it once. */
  lemma CleanResultIdempotent(r: SearchResult)
    ensures CleanResult(CleanResult(r)) == CleanResult(r)
  {
    if r.content.Some? {
      FilterGarbageIdempotent(r.content.value);
    }
    if r.rawContent.Some? {
      FilterGarbageIdempotent(r.rawContent.value);
    }
  }

  // ---------------------------------------------------------------------
  // Summarizing: pairing summaries with results
  // ---------------------------------------------------------------------

  /** What the source does to one result: a result with raw content gets the
      summary of that raw content as its content; the others are unchanged. */
  function SummarizeAt(r: SearchResult, summarize: string -> string): SearchResult
  {
    match r.rawContent
    case None => r
    case Some(raw) => r.(content := Some(summarize(raw)))
  }

  /** The present raw contents, in result order: the entries of the batch
      whose answers are kept. */
  function Requests(rs: seq<SearchResult>): (reqs: seq<string>)
    ensures |reqs| <= |rs|
  {
    if rs == [] then []
    else (match rs[0].rawContent case None => [] case Some(raw) => [raw]) + Requests(rs[1..])
  }

  /** Hands out `answers` in order to the results that have raw content;
      the other results keep their content and consume no answer. */
  function Redistribute(rs: seq<SearchResult>, answers: seq<string>): (out: seq<SearchResult>)
    requires |answers| == |Requests(rs)|
    ensures |out| == |rs|
  {
    if rs == [] then []
    else match rs[0].rawContent
      case None => [rs[0]] + Redistribute(rs[1..], answers)
      case Some(_) => [rs[0].(content := Some(answers[0]))] + Redistribute(rs[1..], answers[1..])
  }

  /** The summarizer applied to each request, in order. */
  function Answer(reqs: seq<string>, summarize: string -> string): seq<string>
  {
    seq(|reqs|, k requires 0 <= k < |reqs| => summarize(reqs[k]))
  }

  /** Pairing by index, as the source does it (one summary slot per result,
      empty for a result without raw content), agrees with sending only the
      present raw contents and handing the answers back in order: absent
      entries never shift the pairing of later ones. */
  lemma {:induction false} SummaryPairing(rs: seq<SearchResult>, summarize: string -> string)
    ensures Redistribute(rs, Answer(Requests(rs), summarize))
         == seq(|rs|, i requires 0 <= i < |rs| => SummarizeAt(rs[i], summarize))
  {
    if rs != [] {
      SummaryPairing(rs[1..], summarize);
      var tail := seq(|rs| - 1, i requires 0 <= i < |rs| - 1 => SummarizeAt(rs[1..][i], summarize));
      var whole := seq(|rs|, i requires 0 <= i < |rs| => SummarizeAt(rs[i], summarize));
      assert whole == [SummarizeAt(rs[0], summarize)] + tail;
      var reqs := Requests(rs);
      match rs[0].rawContent
      case None =>
        assert reqs == Requests(rs[1..]);
      case Some(raw) =>
        assert reqs == [raw] + Requests(rs[1..]);
        assert Answer(reqs, summarize)[1..] == Answer(Requests(rs[1..]), summarize);
    }
  }

  /** The number of results with raw content, whose batch answers are kept. */
  function CountPresent(rs: seq<SearchResult>): nat
  {
    if rs == [] then 0 else (if rs[0].rawContent.Some? then 1 else 0) + CountPresent(rs[1..])
  }

  lemma {:induction false} RequestsCount(rs: seq<SearchResult>)
    ensures |Requests(rs)| == CountPresent(rs)
  {
    if rs != [] {
      RequestsCount(rs[1..]);
    }
  }

  // ---------------------------------------------------------------------
  // The pipeline on values
  // ---------------------------------------------------------------------

  /** The results after filtering, cleaning and, when asked for, summarizing. */
  function Pipeline(rs: seq<SearchResult>, args: SearchArgs, summarize: string -> string): seq<SearchResult>
  {
    var cleaned := CleanAll(KeepRelevant(rs, args.filterScore));
    if args.summarizeContent then Redistribute(cleaned, Answer(Requests(cleaned), summarize))
    else cleaned
  }

  /** What each stage of the pipeline leaves in each surviving result: the
      survivors are the results meeting the threshold, in order; url, score
      and presence of raw content are untouched; raw content is cleaned;
      content is cleaned, or replaced by the summary of the cleaned raw
      content when summarizing and raw content is present. */
  lemma PipelineResults(rs: seq<SearchResult>, args: SearchArgs, summarize: string -> string)
    ensures var kept := KeepRelevant(rs, args.filterScore);
      var out := Pipeline(rs, args, summarize);
      && |out| == |kept|
      && forall i :: 0 <= i < |out| ==>
        && out[i].url == kept[i].url
        && out[i].score == kept[i].score >= args.filterScore
        && out[i].rawContent == CleanField(kept[i].rawContent)
        && out[i].content ==
             if args.summarizeContent && kept[i].rawContent.Some?
             then Some(summarize(FilterGarbage(kept[i].rawContent.value)))
             else CleanField(kept[i].content)
  {
    var cleaned := CleanAll(KeepRelevant(rs, args.filterScore));
    if args.summarizeContent {
      SummaryPairing(cleaned, summarize);
    }
  }

  // ---------------------------------------------------------------------
  // Rendering
  // ---------------------------------------------------------------------

  /** How a possibly absent text is written into a line: an absent one as "None". */
  function Render(f: Option<string>): string
  {
    match f
    case None => "None"
    case Some(t) => t
  }

  /** The three lines of one result. */
  function ResultLines(r: SearchResult, scoreText: real -> string): (lines: seq<string>)
    ensures |lines| == 3
  {
    ["Relevance Score: " + scoreText(r.score), "URL: " + r.url, "Content: " + Render(r.content) + "\n"]
  }

  /** The lines of all results, result after result. */
  function Blocks(rs: seq<SearchResult>, scoreText: real -> string): (lines: seq<string>)
    ensures |lines| == 3 * |rs|
  {
    if rs == [] then []
    else Blocks(rs[..|rs| - 1], scoreText) + ResultLines(rs[|rs| - 1], scoreText)
  }

  function Header(query: string): seq<string>
  {
    ["Query: " + query + "\n", "Sources:\n"]
  }

  /** The suggested-answer line, present only when asked for. */
  function AnswerLines(answer: Option<string>, suggested: bool): seq<string>
  {
    if suggested then ["Suggested Answer: " + Render(answer)] else []
  }

  /** Every line of the report, before they are joined. */
  function ReportLines(query: string, rs: seq<SearchResult>, answer: Option<string>, suggested: bool,
                       scoreText: real -> string): seq<string>
  {
    Header(query) + Blocks(rs, scoreText) + AnswerLines(answer, suggested)
  }

  /** The lines joined with `sep` between neighbours ("sep".join). */
  function Join(lines: seq<string>, sep: string): string
  {
    if lines == [] then "" else if |lines| == 1 then lines[0] else lines[0] + sep + Join(lines[1..], sep)
  }

  /** Joining two non-empty lists of lines puts one separator between the joined halves. */
  lemma {:induction false} JoinAppend(a: seq<string>, b: seq<string>, sep: string)
    requires a != [] && b != []
    ensures Join(a + b, sep) == Join(a, sep) + sep + Join(b, sep)
  {
    if |a| == 1 {
      assert (a + b)[1..] == b;
    } else {
      assert (a + b)[1..] == a[1..] + b;
      JoinAppend(a[1..], b, sep);
    }
  }

  lemma JoinTwo(x: string, y: string, sep: string)
    ensures Join([x, y], sep) == x + sep + y
  {
    assert [x, y][1..] == [y];
  }

  /** The number of lines that start with `prefix`. */
  function CountPrefixed(lines: seq<string>, prefix: string): nat
  {
    if lines == [] then 0
    else CountPrefixed(lines[..|lines| - 1], prefix) + (if prefix <= lines[|lines| - 1] then 1 else 0)
  }

  lemma {:induction false} CountPrefixedAppend(a: seq<string>, b: seq<string>, prefix: string)
    ensures CountPrefixed(a + b, prefix) == CountPrefixed(a, prefix) + CountPrefixed(b, prefix)
    decreases |b|
  {
    if b == [] {
      assert a + b == a;
    } else {
      assert (a + b)[..|a + b| - 1] == a + b[..|b| - 1];
      CountPrefixedAppend(a, b[..|b| - 1], prefix);
    }
  }

  /** The lines of result `i` sit at positions 3i, 3i+1 and 3i+2 of the blocks. */
  lemma {:induction false} BlocksAt(rs: seq<SearchResult>, scoreText: real -> string, i: nat)
    requires i < |rs|
    ensures Blocks(rs, scoreText)[3 * i .. 3 * i + 3] == ResultLines(rs[i], scoreText)
  {
    var n := |rs| - 1;
    if i < n {
      BlocksAt(rs[..n], scoreText, i);
      assert rs[..n][i] == rs[i];
    }
  }

  /** In the report, the lines of result `i` follow the two header lines and
      the lines of the results before it, in result order. */
  lemma ReportLinesAt(query: string, rs: seq<SearchResult>, answer: Option<string>, suggested: bool,
                      scoreText: real -> string, i: nat)
    requires i < |rs|
    ensures var lines := ReportLines(query, rs, answer, suggested, scoreText);
      && lines[2 + 3 * i] == "Relevance Score: " + scoreText(rs[i].score)
      && lines[3 + 3 * i] == "URL: " + rs[i].url
      && lines[4 + 3 * i] == "Content: " + Render(rs[i].content) + "\n"
  {
    var b := Blocks(rs, scoreText);
    BlocksAt(rs, scoreText, i);
    assert b[3 * i] == b[3 * i .. 3 * i + 3][0];
    assert b[3 * i + 1] == b[3 * i .. 3 * i + 3][1];
    assert b[3 * i + 2] == b[3 * i .. 3 * i + 3][2];
  }

  /** A line whose first character differs from the label's does not start with it. */
  lemma NotPrefixed(prefix: string, line: string)
    requires prefix != [] && line != [] && prefix[0] != line[0]
    ensures !(prefix <= line)
  {
  }

  /** Counting over a list given element by element. */
  lemma CountPrefixedThree(x: string, y: string, z: string, prefix: string)
    ensures CountPrefixed([x, y, z], prefix)
         == (if prefix <= x then 1 else 0) + (if prefix <= y then 1 else 0) + (if prefix <= z then 1 else 0)
  {
    assert [x][..0] == [];
    assert CountPrefixed([x], prefix) == (if prefix <= x then 1 else 0);
    assert [x, y][..1] == [x];
    assert CountPrefixed([x, y], prefix) == CountPrefixed([x], prefix) + (if prefix <= y then 1 else 0);
    assert [x, y, z][..2] == [x, y];
  }

  /** Each result contributes one "Relevance Score:" line and no "Suggested Answer:" line. */
  lemma ResultLinesCount(r: SearchResult, scoreText: real -> string)
    ensures CountPrefixed(ResultLines(r, scoreText), "Relevance Score: ") == 1
    ensures CountPrefixed(ResultLines(r, scoreText), "Suggested Answer: ") == 0
  {
    var l := ResultLines(r, scoreText);
    CountPrefixedThree(l[0], l[1], l[2], "Relevance Score: ");
    CountPrefixedThree(l[0], l[1], l[2], "Suggested Answer: ");
    assert l == [l[0], l[1], l[2]];
    assert "Relevance Score: " <= l[0];
    NotPrefixed("Relevance Score: ", l[1]);
    NotPrefixed("Relevance Score: ", l[2]);
    NotPrefixed("Suggested Answer: ", l[0]);
    NotPrefixed("Suggested Answer: ", l[1]);
    NotPrefixed("Suggested Answer: ", l[2]);
  }

  /** Which lines of the blocks start with a given line label. */
  lemma {:induction false} BlocksCount(rs: seq<SearchResult>, scoreText: real -> string)
    ensures CountPrefixed(Blocks(rs, scoreText), "Relevance Score: ") == |rs|
    ensures CountPrefixed(Blocks(rs, scoreText), "Suggested Answer: ") == 0
  {
    if rs != [] {
      var n := |rs| - 1;
      BlocksCount(rs[..n], scoreText);
      var last := ResultLines(rs[n], scoreText);
      CountPrefixedAppend(Blocks(rs[..n], scoreText), last, "Relevance Score: ");
      CountPrefixedAppend(Blocks(rs[..n], scoreText), last, "Suggested Answer: ");
      ResultLinesCount(rs[n], scoreText);
    }
  }

  lemma CountPrefixedOne(x: string, prefix: string)
    ensures CountPrefixed([x], prefix) == if prefix <= x then 1 else 0
  {
    assert [x][..0] == [];
  }

  /** The header holds neither label. */
  lemma HeaderCount(query: string)
    ensures CountPrefixed(Header(query), "Relevance Score: ") == 0
    ensures CountPrefixed(Header(query), "Suggested Answer: ") == 0
  {
    var h := Header(query);
    assert h == [h[0]] + [h[1]];
    CountPrefixedAppend([h[0]], [h[1]], "Relevance Score: ");
    CountPrefixedAppend([h[0]], [h[1]], "Suggested Answer: ");
    CountPrefixedOne(h[0], "Relevance Score: ");
    CountPrefixedOne(h[1], "Relevance Score: ");
    CountPrefixedOne(h[0], "Suggested Answer: ");
    CountPrefixedOne(h[1], "Suggested Answer: ");
    NotPrefixed("Relevance Score: ", h[0]);
    NotPrefixed("Relevance Score: ", h[1]);
    NotPrefixed("Suggested Answer: ", h[0]);
    assert h[1][1] == 'o' && "Suggested Answer: "[1] == 'u';
  }

  /** The answer part holds one "Suggested Answer:" line when asked for and nothing otherwise. */
  lemma AnswerCount(answer: Option<string>, suggested: bool)
    ensures CountPrefixed(AnswerLines(answer, suggested), "Relevance Score: ") == 0
    ensures CountPrefixed(AnswerLines(answer, suggested), "Suggested Answer: ") == if suggested then 1 else 0
  {
    if suggested {
      var line := "Suggested Answer: " + Render(answer);
      CountPrefixedOne(line, "Relevance Score: ");
      CountPrefixedOne(line, "Suggested Answer: ");
      NotPrefixed("Relevance Score: ", line);
    }
  }

  /** One "Relevance Score:" line per result, and a "Suggested Answer:"
      line exactly when it was asked for. */
  lemma ReportCounts(query: string, rs: seq<SearchResult>, answer: Option<string>, suggested: bool,
                     scoreText: real -> string)
    ensures var lines := ReportLines(query, rs, answer, suggested, scoreText);
      && |lines| == 2 + 3 * |rs| + (if suggested then 1 else 0)
      && CountPrefixed(lines, "Relevance Score: ") == |rs|
      && CountPrefixed(lines, "Suggested Answer: ") == (if suggested then 1 else 0)
  {
    var h := Header(query);
    var b := Blocks(rs, scoreText);
    var a := AnswerLines(answer, suggested);
    BlocksCount(rs, scoreText);
    HeaderCount(query);
    AnswerCount(answer, suggested);
    CountPrefixedAppend(h + b, a, "Relevance Score: ");
    CountPrefixedAppend(h, b, "Relevance Score: ");
    CountPrefixedAppend(h + b, a, "Suggested Answer: ");
    CountPrefixedAppend(h, b, "Suggested Answer: ");
  }

  /** The report opens with the query line and the "Sources:" label,
      each followed by a blank line. */
  lemma ReportStart(query: string, rs: seq<SearchResult>, answer: Option<string>, suggested: bool,
                    scoreText: real -> string)
    ensures "Query: " + query + "\n\nSources:\n" <= Join(ReportLines(query, rs, answer, suggested, scoreText), "\n")
  {
    var lines := ReportLines(query, rs, answer, suggested, scoreText);
    var h := Header(query);
    var head := Join(h, "\n");
    JoinTwo(h[0], h[1], "\n");
    assert head == "Query: " + query + "\n\nSources:\n" by {
      assert h == [h[0], h[1]];
      assert "\n" + "\n" + "Sources:\n" == "\n\nSources:\n";
    }
    var rest := lines[2..];
    assert lines == h + rest;
    if rest != [] {
      JoinAppend(h, rest, "\n");
      var tail := "\n" + Join(rest, "\n");
      assert Join(lines, "\n") == head + tail;
      assert (head + tail)[..|head|] == head;
    } else {
      assert lines == h;
    }
  }
}
