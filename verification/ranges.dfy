/** Normalisation of the Cloudflare IP-range feeds and of the target-bucket
    configuration (handlers/index.cjs, lines 56-77). */
module Ranges {
  import opened Wrappers
  import opened Seqs
  import opened Strings

  /** What a `fetch` of one feed yields: a transport failure, which rejects the
      awaited promise, or a response with a status and a body text. */
  datatype FetchResponse = TransportError | Response(status: int, body: string)

  const Newline: char := '\n'
  const BucketSeparator: char := ','

  /** The test that keeps a line: only the empty string counts as false. */
  predicate IsNonEmpty(s: string) {
    |s| > 0
  }

  /** The text a feed contributes. The response status is never inspected:
      any response's body is used as the range list. */
  function FeedText(r: FetchResponse): (text: Option<string>)
    ensures text.None? <==> r.TransportError?
  {
    match r
    case TransportError => None
    case Response(_, body) => Some(body)
  }

  /** Two responses with the same body contribute the same text, whatever their
      statuses: an error page is taken for a range list. */
  lemma StatusIgnored(status1: int, status2: int, body: string)
    ensures FeedText(Response(status1, body)) == FeedText(Response(status2, body)) == Some(body)
  {
  }

  /** The v4 text, a newline, then the v6 text, split into lines, with the
      empty lines dropped. */
  function NormaliseRanges(v4: string, v6: string): (ranges: seq<string>)
    ensures forall i :: 0 <= i < |ranges| ==> IsNonEmpty(ranges[i]) && Newline !in ranges[i]
  {
    var lines := Split(v4 + [Newline] + v6, Newline);
    var ranges := Filter(lines, IsNonEmpty);
    assert forall i :: 0 <= i < |ranges| ==> ranges[i] in lines;
    ranges
  }

  /** The range list is the non-blank lines of the v4 feed followed by the
      non-blank lines of the v6 feed, each in feed order. */
  lemma RangesPerFeed(v4: string, v6: string)
    ensures NormaliseRanges(v4, v6)
         == Filter(Split(v4, Newline), IsNonEmpty) + Filter(Split(v6, Newline), IsNonEmpty)
  {
    SplitAround(v4, v6, Newline);
    FilterConcat(Split(v4, Newline), Split(v6, Newline), IsNonEmpty);
  }

  /** Feeds made of non-blank lines give back exactly those lines, v4 first:
      nothing is dropped, deduplicated or reordered. */
  lemma RangesOfCleanFeeds(v4Lines: seq<string>, v6Lines: seq<string>)
    requires |v4Lines| >= 1 && |v6Lines| >= 1
    requires forall i :: 0 <= i < |v4Lines| ==> IsNonEmpty(v4Lines[i]) && Newline !in v4Lines[i]
    requires forall i :: 0 <= i < |v6Lines| ==> IsNonEmpty(v6Lines[i]) && Newline !in v6Lines[i]
    ensures NormaliseRanges(Join(v4Lines, Newline), Join(v6Lines, Newline)) == v4Lines + v6Lines
  {
    RangesPerFeed(Join(v4Lines, Newline), Join(v6Lines, Newline));
    SplitJoin(v4Lines, Newline);
    SplitJoin(v6Lines, Newline);
    FilterKeepsAll(v4Lines, IsNonEmpty);
    FilterKeepsAll(v6Lines, IsNonEmpty);
  }

  /** The bucket list split at its commas, refused when the variable is unset
      or empty. Empty names between adjacent commas are kept. */
  function BucketNames(config: Option<string>): (names: Option<seq<string>>)
    ensures names.None? <==> config.None? || config.value == ""
    ensures names.Some? ==> |names.value| >= 1 && Join(names.value, BucketSeparator) == config.value
    ensures names.Some? ==> forall i :: 0 <= i < |names.value| ==> BucketSeparator !in names.value[i]
  {
    match config
    case None => None
    case Some(text) =>
      if text == "" then None
      else
        JoinSplit(text, BucketSeparator);
        Some(Split(text, BucketSeparator))
  }
}
