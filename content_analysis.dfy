/**
 * The content-analysis step of the `/api/analyze` handler, from the page's
 * body text on: clean the text, tokenize it, count the words, drop stop words
 * and short tokens, and rank the 1-, 2- and 3-grams of what is left.
 *
 * Fetching the page and extracting its body text, title, meta description
 * and headings are outside this model: the body text is an input here.
 * `tokenize` stands for `natural.WordTokenizer.tokenize` and `lower` for
 * `String.prototype.toLowerCase`, both outside this model.
 */
module ContentAnalysis {
  import opened Strings
  import opened Whitespace
  import opened Counter
  import opened NGrams

  /** The fixed English stop-word set of the handler. */
  const StopWords: set<string> := {
    "the", "and", "or", "but", "is", "are", "was", "were", "in", "on", "at", "to", "for", "of",
    "with", "by", "a", "an", "this", "that", "it", "as", "be", "from", "which", "not", "have",
    "has", "had", "will", "would", "can", "could", "should", "may", "might", "must", "do", "does",
    "did", "done", "doing", "i", "you", "he", "she", "we", "they", "me", "him", "her", "us", "them",
    "my", "your", "his", "its", "our", "their", "mine", "yours", "hers", "ours", "theirs"
  }

  /** The filter's test: `!stopWords.has(t.toLowerCase()) && t.length > 2`. */
  predicate Kept(t: string, lower: string -> string)
  {
    lower(t) !in StopWords && |t| > 2
  }

  /** `a` is `b` with some elements left out, the rest in their original order. */
  predicate IsSubsequence<T(==)>(a: seq<T>, b: seq<T>)
    decreases |b|
  {
    |a| == 0 || (|b| > 0 && if a[0] == b[0] then IsSubsequence(a[1..], b[1..]) else IsSubsequence(a, b[1..]))
  }

  /** `tokens.filter(t => !stopWords.has(t.toLowerCase()) && t.length > 2)`: exactly the kept
      tokens, each as often as in `tokens`, in their original order. */
  function FilterTokens(tokens: seq<string>, lower: string -> string): (r: seq<string>)
    ensures |r| <= |tokens|
    ensures forall t :: t in r ==> Kept(t, lower)
    ensures forall t :: multiset(r)[t] == if Kept(t, lower) then multiset(tokens)[t] else 0
    ensures IsSubsequence(r, tokens)
  {
    if |tokens| == 0 then []
    else
      var rest := FilterTokens(tokens[1..], lower);
      assert tokens == [tokens[0]] + tokens[1..];
      if Kept(tokens[0], lower) then
        assert ([tokens[0]] + rest)[1..] == rest;
        [tokens[0]] + rest
      else
        SubsequenceOfTail(rest, tokens);
        rest
  }

  /** A subsequence of the tail is a subsequence of the whole. */
  lemma {:induction false} SubsequenceOfTail<T>(a: seq<T>, b: seq<T>)
    requires |b| > 0 && IsSubsequence(a, b[1..])
    ensures IsSubsequence(a, b)
    decreases |b|, 0
  {
    if |a| > 0 && a[0] == b[0] {
      SubsequenceDropFirst(a, b[1..]);
    }
  }

  /** Leaving out the first element of a subsequence leaves a subsequence. */
  lemma {:induction false} SubsequenceDropFirst<T>(a: seq<T>, c: seq<T>)
    requires |a| > 0 && IsSubsequence(a, c)
    ensures IsSubsequence(a[1..], c)
    decreases |c|, 1
  {
    if a[0] == c[0] {
      SubsequenceOfTail(a[1..], c);
    } else {
      SubsequenceDropFirst(a, c[1..]);
      SubsequenceOfTail(a[1..], c);
    }
  }

  /** Once stop words and short tokens are gone, and provided lower-casing never shortens a string, no
      window is skipped by the `gram.length > 1` test: every window position is counted. */
  lemma FilteredWindowsAllCounted(tokens: seq<string>, n: nat, lower: string -> string)
    requires n >= 1
    requires forall s :: |lower(s)| >= |s|
    ensures forall i :: 0 <= i < WindowCount(|FilterTokens(tokens, lower)|, n) ==>
              |Window(FilterTokens(tokens, lower), n, lower, i)| > 1
    ensures |Grams(FilterTokens(tokens, lower), n, lower)| == WindowCount(|FilterTokens(tokens, lower)|, n)
  {
    var ft := FilterTokens(tokens, lower);
    forall i | 0 <= i < WindowCount(|ft|, n) ensures |Window(ft, n, lower, i)| > 1 {
      var w := ft[i..i + n];
      JoinStartsWithFirst(w, " ");
      assert w[0] in ft;
    }
    AllWindowsCounted(ft, n, lower, WindowCount(|ft|, n));
  }

  lemma {:induction false} AllWindowsCounted(tokens: seq<string>, n: nat, lower: string -> string, m: nat)
    requires m <= WindowCount(|tokens|, n)
    requires forall i :: 0 <= i < WindowCount(|tokens|, n) ==> |Window(tokens, n, lower, i)| > 1
    ensures |GramsUpTo(tokens, n, lower, m)| == m
  {
    if m > 0 {
      AllWindowsCounted(tokens, n, lower, m - 1);
    }
  }

  /** The `content` and `analysis` parts of the handler's reply. */
  datatype ContentReport = ContentReport(
    wordCount: nat,
    characterCount: nat,
    rawText: string,
    oneGrams: seq<Entry>,
    twoGrams: seq<Entry>,
    threeGrams: seq<Entry>)

  /** From the extracted body text to the reply's word count, cleaned text and n-gram rankings. */
  method AnalyzeContent(bodyText: string, tokenize: string -> seq<string>, lower: string -> string)
    returns (report: ContentReport)
    ensures report.rawText == CleanText(bodyText) && IsClean(report.rawText)
    ensures report.characterCount == |report.rawText|
    ensures report.wordCount == |tokenize(report.rawText)|
    ensures |FilterTokens(tokenize(report.rawText), lower)| <= report.wordCount
    ensures report.oneGrams == RankNGrams(FilterTokens(tokenize(report.rawText), lower), 1, lower)
    ensures report.twoGrams == RankNGrams(FilterTokens(tokenize(report.rawText), lower), 2, lower)
    ensures report.threeGrams == RankNGrams(FilterTokens(tokenize(report.rawText), lower), 3, lower)
  {
    var text := CleanText(bodyText);
    CleanTextIsClean(bodyText);
    var tokens := tokenize(text);
    var wordCount := |tokens|;
    var filteredTokens := FilterTokens(tokens, lower);
    var oneGrams := GenerateNGrams(filteredTokens, 1, lower);
    var twoGrams := GenerateNGrams(filteredTokens, 2, lower);
    var threeGrams := GenerateNGrams(filteredTokens, 3, lower);
    report := ContentReport(wordCount, |text|, text, oneGrams, twoGrams, threeGrams);
  }
}
