/**
 * The compression request: a compression level chooses the ratio, and the
 * text is summarised at that ratio.
 *
 * The level arrives as whatever `parseInt` made of the request field:
 * `Some(n)` for an integer, `None` for `NaN`. Parsing itself, the HTTP
 * method checks, CORS headers and the JSON envelope are outside this model.
 */
module Compression {
  import opened Wrappers
  import opened Summarizer

  /** The ratio, as a percentage, that the handler's `switch` gives a parsed level. The
      `switch` itself is the method `RatioForLevel`, proved against this table; the table is
      kept as a function so that contracts, which cannot call a method, can name it. */
  function LevelPercent(level: Option<int>): (r: nat)
    ensures r in {100, 75, 50, 25, 10}
  {
    match level
    case Some(2) => 75
    case Some(3) => 50
    case Some(4) => 25
    case Some(5) => 10
    case _ => 100
  }

  /** The `switch` on the parsed level: levels 1 to 5 give 100, 75, 50, 25 and 10 percent;
      anything else, including a level that did not parse, gives 100 percent. Whatever the
      level, the resulting selection count lies between 1 and the number of sentences. */
  method RatioForLevel(level: Option<int>) returns (percent: nat)
    ensures level == Some(1) ==> percent == 100
    ensures level == Some(2) ==> percent == 75
    ensures level == Some(3) ==> percent == 50
    ensures level == Some(4) ==> percent == 25
    ensures level == Some(5) ==> percent == 10
    ensures !(level.Some? && 1 <= level.value <= 5) ==> percent == 100
    ensures percent in {100, 75, 50, 25, 10}
    ensures percent == LevelPercent(level)
    ensures forall sentenceCount: nat :: sentenceCount >= 1 ==>
              1 <= SelectionCount(sentenceCount, percent) <= sentenceCount
  {
    percent := 100;
    match level {
      case Some(1) => percent := 100;
      case Some(2) => percent := 75;
      case Some(3) => percent := 50;
      case Some(4) => percent := 25;
      case Some(5) => percent := 10;
      case _ => percent := 100;
    }
    forall sentenceCount: nat | sentenceCount >= 1
      ensures 1 <= SelectionCount(sentenceCount, percent) <= sentenceCount
    {
      SelectionCountBounds(sentenceCount, percent);
    }
  }

  /** The handler's reply: the two lengths, the ratio (as a percentage) and the summary. */
  datatype CompressReply = CompressReply(originalLength: nat, compressedLength: nat, percent: nat, text: string)

  /** A request without text is refused (`None`, the 400 reply); otherwise the text is
      summarised at the level's ratio. */
  method Compress(text: string, level: Option<int>, tokenize: string -> seq<string>, lower: string -> string)
    returns (reply: Option<CompressReply>)
    ensures reply.None? <==> |text| == 0
    ensures reply.Some? ==>
              && reply.value.originalLength == |text|
              && reply.value.percent == LevelPercent(level)
              && reply.value.text == Summary(text, reply.value.percent, tokenize, lower)
              && reply.value.compressedLength == |reply.value.text|
  {
    if |text| == 0 {
      return None;
    }
    var percent := RatioForLevel(level);
    var compressed := SummarizeText(text, percent, tokenize, lower);
    reply := Some(CompressReply(|text|, |compressed|, percent, compressed));
  }
}
