/** Summarising the chunks of the research-report pipeline: each chunk is
    handed to the generative model on its own, a failed call is replaced by
    a fixed error string, and the summaries are joined with single spaces.
    The model itself is a parameter: a function from the text it is given
    to either the text it answers or a failure. */
module Summaries {
  import opened Text
  import opened Chunker

  /** The outcome of one call to the generative model. */
  datatype Reply = Answer(text: string) | Failed

  /** What `summarize_data` returns when the model call raises. */
  const SummaryError: string := "Error summarizing data."

  /** The answer's text, or the sentinel that replaces a failed call. */
  function Settle(reply: Reply, sentinel: string): string
  {
    match reply
    case Answer(text) => text
    case Failed => sentinel
  }

  /** `summarize_data` applied to each chunk, in chunk order. */
  function SummarizeEach(chunks: seq<string>, summarize: string -> Reply): seq<string>
  {
    seq(|chunks|, k requires 0 <= k < |chunks| => Settle(summarize(chunks[k]), SummaryError))
  }

  /** `summarized_data`: the summaries joined with single spaces. */
  function SummarizedData(chunks: seq<string>, summarize: string -> Reply): string
  {
    JoinSpaced(SummarizeEach(chunks, summarize))
  }

  /** There is one summary per chunk, in chunk order: summary `k` sits at the
      offset given by the padded summaries before it and is followed by a
      single space unless it is the last; it is the model's answer for chunk
      `k`, or the fixed error string when that call failed. */
  lemma SummaryAt(chunks: seq<string>, summarize: string -> Reply, k: nat)
    requires k < |chunks|
    ensures var all := SummarizeEach(chunks, summarize);
            var s := SummarizedData(chunks, summarize);
            var o := |Padded(all[..k])|;
            var piece := if summarize(chunks[k]).Failed? then SummaryError
                         else summarize(chunks[k]).text;
            |all| == |chunks| &&
            o + |piece| <= |s| && s[o..o + |piece|] == piece &&
            (k + 1 < |chunks| ==> o + |piece| < |s| && s[o + |piece|] == ' ')
  {
    JoinAt(SummarizeEach(chunks, summarize), k);
  }

  /** The joined summary followed by one space is every summary followed by
      one space, in chunk order: no summary is dropped, reordered or merged. */
  lemma SummarizedLayout(chunks: seq<string>, summarize: string -> Reply)
    requires chunks != []
    ensures SummarizedData(chunks, summarize) + " " == Padded(SummarizeEach(chunks, summarize))
  {
    JoinPadded(SummarizeEach(chunks, summarize));
  }

  /** The joined summary is empty only when there are no chunks or the one
      chunk's summary is empty; in particular a failing model never leaves
      the report stage with nothing to work on. */
  lemma SummarizedEmpty(chunks: seq<string>, summarize: string -> Reply)
    ensures SummarizedData(chunks, summarize) == "" <==>
            chunks == [] || (|chunks| == 1 && summarize(chunks[0]) == Answer(""))
  {
    var all := SummarizeEach(chunks, summarize);
    JoinEmpty(all);
    if |chunks| == 1 {
      assert all == [all[0]];
    }
  }

  /** A model that fails on every call still yields one error string per
      chunk: `n` chunks give `n` copies of the sentinel separated by spaces. */
  lemma {:induction false} AllFailed(chunks: seq<string>, summarize: string -> Reply)
    requires forall c :: summarize(c) == Failed
    ensures chunks != [] ==> |SummarizedData(chunks, summarize)| == 24 * |chunks| - 1
    ensures SummarizeEach(chunks, summarize) == seq(|chunks|, k => SummaryError)
  {
    var all := SummarizeEach(chunks, summarize);
    if chunks != [] {
      JoinPadded(all);
      PaddedOfCopies(all);
    }
  }

  /** Padding `n` copies of the sentinel takes `24 * n` characters. */
  lemma {:induction false} PaddedOfCopies(items: seq<string>)
    requires forall k :: 0 <= k < |items| ==> items[k] == SummaryError
    ensures |Padded(items)| == 24 * |items|
  {
    if items != [] {
      PaddedOfCopies(items[..|items| - 1]);
    }
  }

  /** The research pipeline up to the report stage: the scraped texts are
      chunked with the default threshold, each chunk is summarised and the
      summaries are joined. */
  function ResearchSummary(scraped: seq<string>, summarize: string -> Reply): string
  {
    SummarizedData(Chunks(scraped, DefaultChunkSize), summarize)
  }

  /** The text handed to the report stage is empty exactly when nothing was
      scraped or everything fit into one chunk whose summary is empty. */
  lemma ResearchSummaryEmpty(scraped: seq<string>, summarize: string -> Reply)
    ensures var chunks := Chunks(scraped, DefaultChunkSize);
            ResearchSummary(scraped, summarize) == "" <==>
              scraped == [] || (|chunks| == 1 && summarize(chunks[0]) == Answer(""))
  {
    ChunksEmpty(scraped, DefaultChunkSize);
    SummarizedEmpty(Chunks(scraped, DefaultChunkSize), summarize);
  }

  /** When every model call fails, a non-empty scrape still yields a
      non-empty text made of at most one error string per scraped text, plus
      one for an empty first chunk. */
  lemma ResearchSummaryAllFailed(scraped: seq<string>, summarize: string -> Reply)
    requires forall c :: summarize(c) == Failed
    ensures scraped != [] ==>
              ResearchSummary(scraped, summarize) != "" &&
              |ResearchSummary(scraped, summarize)| <= 24 * (|scraped| + 1) - 1
  {
    var chunks := Chunks(scraped, DefaultChunkSize);
    ChunksEmpty(scraped, DefaultChunkSize);
    ChunkCount(scraped, DefaultChunkSize);
    AllFailed(chunks, summarize);
  }
}
