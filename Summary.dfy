/**
 The placeholder summary: the transcript cut to its first 1000 characters,
 followed by an ellipsis.
 */
module Summary {

  /** How many transcript characters the summary keeps. */
  const SummaryLimit: nat := 1000

  /** The marker appended to every summary. */
  const Ellipsis: string := "..."

  function Min(a: nat, b: nat): nat {
    if a <= b then a else b
  }

  predicate IsPrefix(p: string, s: string) {
    |p| <= |s| && s[..|p|] == p
  }

  /**
   `summarize_video`: the result is a prefix of the text, as long as the text
   but never longer than SummaryLimit, followed by the ellipsis.
   */
  function SummarizeVideo(text: string): (r: string)
    ensures |r| == Min(|text|, SummaryLimit) + |Ellipsis| <= SummaryLimit + |Ellipsis|
    ensures IsPrefix(r[..|r| - |Ellipsis|], text)
    ensures r[|r| - |Ellipsis|..] == Ellipsis
  {
    text[..Min(|text|, SummaryLimit)] + Ellipsis
  }

  /** A text of at most SummaryLimit characters is kept whole. */
  lemma ShortTextKeptWhole(text: string)
    requires |text| <= SummaryLimit
    ensures SummarizeVideo(text) == text + Ellipsis
  {
  }

  /** A longer text is cut to exactly SummaryLimit characters. */
  lemma LongTextCut(text: string)
    requires |text| > SummaryLimit
    ensures SummarizeVideo(text) == text[..SummaryLimit] + Ellipsis
    ensures |SummarizeVideo(text)| == SummaryLimit + |Ellipsis|
  {
  }

  /** Characters past SummaryLimit never reach the summary. */
  lemma SummaryIgnoresTail(text: string, tail: string)
    requires |text| >= SummaryLimit
    ensures SummarizeVideo(text + tail) == SummarizeVideo(text)
  {
  }
}
