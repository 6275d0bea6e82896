/**
 * Web search with degraded fallbacks: the search engine's result records are
 * rendered as markdown blocks joined by horizontal rules, and a language
 * model is asked to tidy them. A failed search counts as no results, and a
 * failed formatting request leaves the markdown as it was.
 *
 * The search engine, the HTML-to-text conversion and the language model are
 * functions passed in.
 */
module WebSearch {
  import Strings

  /** One search result: a dictionary from keys such as "title" to strings. */
  type Record = map<string, string>

  const NoTitle: string := "No title"
  const NoLink: string := "No link"
  const NoDescription: string := "No description"

  /** Separates two result blocks in the markdown. */
  const ResultSeparator: string := "\n---\n"

  /** Put in front of the markdown sent to the language model. */
  const FormatPrompt: string := "Format the following results in proper markdown:\n"

  /** The whole answer when the search gives nothing. */
  const NoResults: string := "No results found."

  /** What the search engine does with a query: results, or an exception. */
  datatype SearchOutcome = Results(records: seq<Record>) | SearchFailed

  /** What the language model does with a request: a reply, or an exception. */
  datatype Completion = Completed(text: string) | RequestFailed

  /** Python's `record.get(key, default)`. */
  function Get(r: Record, key: string, default: string): (v: string)
    ensures key in r ==> v == r[key]
    ensures key !in r ==> v == default
  {
    if key in r then r[key] else default
  }

  /** The markdown block of one result: a linked heading, a blank line, the body's text and a newline. */
  function Block(r: Record, getText: string -> string): (b: string)
    ensures Strings.StartsWith(b, "### [" + Get(r, "title", NoTitle) + "](")
    ensures |b| > 0 && b[|b| - 1] == '\n'
  {
    "### [" + Get(r, "title", NoTitle) + "](" + Get(r, "href", NoLink) + ")\n\n"
    + getText(Get(r, "body", NoDescription)) + "\n"
  }

  /** The blocks of the results, one per result, in order. */
  function Blocks(results: seq<Record>, getText: string -> string): (bs: seq<string>)
    ensures |bs| == |results|
    ensures forall i :: 0 <= i < |results| ==> bs[i] == Block(results[i], getText)
  {
    if results == [] then [] else Blocks(results[..|results| - 1], getText) + [Block(results[|results| - 1], getText)]
  }

  /** The markdown of the results: their blocks joined by horizontal rules. */
  function Markdown(results: seq<Record>, getText: string -> string): string {
    Strings.Join(ResultSeparator, Blocks(results, getText))
  }

  /**
   * `search` with the search engine's answer for this query: an exception
   * gives no results.
   */
  function Search(outcome: SearchOutcome): (results: seq<Record>)
    ensures outcome.SearchFailed? ==> results == []
    ensures outcome.Results? ==> results == outcome.records
  {
    match outcome
    case Results(records) => records
    case SearchFailed => []
  }

  /** `format_with_llm`: the model's reply to the prompt and the markdown, or the markdown itself if the request raises. */
  function FormatWithLlm(requestAi: string -> Completion, markdown: string): (r: string)
    ensures requestAi(FormatPrompt + markdown).RequestFailed? ==> r == markdown
    ensures requestAi(FormatPrompt + markdown).Completed? ==> r == requestAi(FormatPrompt + markdown).text
  {
    match requestAi(FormatPrompt + markdown)
    case Completed(text) => text
    case RequestFailed => markdown
  }

  /** `perform_search_and_format`: the sentinel for no results, otherwise the formatted markdown. */
  function SearchAndFormat(outcome: SearchOutcome, getText: string -> string, requestAi: string -> Completion): string {
    var results := Search(outcome);
    if |results| == 0 then NoResults else FormatWithLlm(requestAi, Markdown(results, getText))
  }

  /** A search for `query` returning at most `maxResults` records; the configuration is not used. */
  datatype WebSearch = WebSearch(query: string, maxResults: nat)
  {
    /** `parse_results`: the blocks are collected one by one and joined. */
    method ParseResults(results: seq<Record>, getText: string -> string) returns (markdown: string)
      ensures markdown == Markdown(results, getText)
      ensures results == [] ==> markdown == ""
    {
      var markdownResults: seq<string> := [];
      for i := 0 to |results|
        invariant markdownResults == Blocks(results[..i], getText)
      {
        var block := Block(results[i], getText);
        markdownResults := markdownResults + [block];
        assert results[..i + 1][..i] == results[..i];
      }
      assert results[..|results|] == results;
      markdown := Strings.Join(ResultSeparator, markdownResults);
    }

    /**
     * `perform_search_and_format`, with `ddgs` the search engine: it is asked
     * for this query and this many results.
     */
    method PerformSearchAndFormat(ddgs: (string, nat) -> SearchOutcome, getText: string -> string,
                                  requestAi: string -> Completion) returns (answer: string)
      ensures answer == SearchAndFormat(ddgs(query, maxResults), getText, requestAi)
      ensures Search(ddgs(query, maxResults)) == [] ==> answer == NoResults
    {
      var results := Search(ddgs(query, maxResults));
      if |results| == 0 {
        return NoResults;
      }
      var markdownResults := ParseResults(results, getText);
      answer := FormatWithLlm(requestAi, markdownResults);
    }
  }

  // ---------------------------------------------------------------------------
  // Properties
  // ---------------------------------------------------------------------------

  /** A block that holds no horizontal rule cannot run into the rule that follows it. */
  lemma BlockSeparatesCleanly(b: string)
    requires |b| > 0 && b[|b| - 1] == '\n' && !Strings.Contains(b, ResultSeparator)
    ensures Strings.SeparatesCleanly(b, ResultSeparator)
  {
    var t := b + ResultSeparator;
    forall j | 0 <= j < |b|
      ensures !Strings.OccursAt(t, ResultSeparator, j)
    {
      if j + |ResultSeparator| <= |b| {
        assert t[j..j + |ResultSeparator|] == b[j..j + |ResultSeparator|];
        Strings.ContainsIffOccurs(b, ResultSeparator);
        assert !Strings.OccursAt(b, ResultSeparator, j);
      } else {
        // The rule would have to begin inside the block's final newline run,
        // but the rule never holds two newlines in a row.
        var m := |b| - j;
        assert t[|b| - 1] == '\n' && t[|b|] == '\n';
        assert ResultSeparator[m - 1] != '\n' || ResultSeparator[m] != '\n';
        assert t[j..j + |ResultSeparator|][m - 1] == t[|b| - 1];
        assert t[j..j + |ResultSeparator|][m] == t[|b|];
      }
    }
  }

  /**
   * When no result's block contains a horizontal rule, splitting the
   * markdown at the rules gives back exactly the blocks, one per result, in
   * order; so `n` results give `n - 1` rules.
   */
  lemma MarkdownSplitsIntoBlocks(results: seq<Record>, getText: string -> string)
    requires |results| > 0
    requires forall i :: 0 <= i < |results| ==> !Strings.Contains(Block(results[i], getText), ResultSeparator)
    ensures Strings.Split(Markdown(results, getText), ResultSeparator) == Blocks(results, getText)
    ensures Strings.Count(Markdown(results, getText), ResultSeparator) == |results| - 1
  {
    var bs := Blocks(results, getText);
    forall k | 0 <= k < |bs| - 1
      ensures Strings.SeparatesCleanly(bs[k], ResultSeparator)
    {
      assert bs[k] == Block(results[k], getText);
      BlockSeparatesCleanly(bs[k]);
    }
    assert bs[|bs| - 1] == Block(results[|results| - 1], getText);
    var m := Strings.Join(ResultSeparator, bs);
    Strings.SplitJoin(ResultSeparator, bs);
    Strings.SplitSize(m, ResultSeparator);
  }

  /** The markdown of some results is never the sentinel: it begins with the first block's heading. */
  lemma MarkdownIsNotSentinel(results: seq<Record>, getText: string -> string)
    requires |results| > 0
    ensures Strings.StartsWith(Markdown(results, getText), "### [" + Get(results[0], "title", NoTitle) + "](")
    ensures Markdown(results, getText) != NoResults
  {
    var bs := Blocks(results, getText);
    Strings.JoinStartsWith(ResultSeparator, bs);
    var m := Markdown(results, getText);
    assert m[..|bs[0]|] == bs[0];
    var h := "### [" + Get(results[0], "title", NoTitle) + "](";
    assert m[..|h|] == bs[0][..|h|] == h;
    assert m[0] == '#' != NoResults[0];
  }

  /**
   * When the language model always raises, the answer is the sentinel for no
   * results and otherwise the plain markdown; the two cannot be confused.
   */
  lemma FailingModelGivesMarkdown(outcome: SearchOutcome, getText: string -> string, requestAi: string -> Completion)
    requires forall request :: requestAi(request).RequestFailed?
    ensures var results := Search(outcome);
      var answer := SearchAndFormat(outcome, getText, requestAi);
      && (|results| == 0 <==> answer == NoResults)
      && (|results| > 0 ==> answer == Markdown(results, getText))
  {
    var results := Search(outcome);
    if |results| > 0 {
      MarkdownIsNotSentinel(results, getText);
    }
  }

  /** A failed search or an empty one gives the sentinel whatever the language model does. */
  lemma NoResultsIgnoresModel(outcome: SearchOutcome, getText: string -> string,
                              requestAi: string -> Completion, otherAi: string -> Completion)
    requires outcome.SearchFailed? || outcome.records == []
    ensures SearchAndFormat(outcome, getText, requestAi) == SearchAndFormat(outcome, getText, otherAi) == NoResults
  {
  }
}
