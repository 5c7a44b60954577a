/**
 * `summarizeText(text, ratio)`, the extractive summariser behind `/api/compress`.
 *
 * The text is split into sentences; every token of the lower-cased text that
 * is longer than two characters is counted; each sentence scores the mean
 * count of its own tokens; the best `max(1, ceil(S * ratio))` sentences are
 * kept, put back in text order, trimmed and joined with single spaces.
 *
 * The ratio is an integer percentage `percent` (ratio = percent / 100), and
 * scores are exact rationals. `tokenize` stands for
 * `natural.WordTokenizer.tokenize` and `lower` for `toLowerCase`, both outside
 * this model.
 */
module Summarizer {
  import opened Strings
  import opened Whitespace
  import opened Counter
  import opened StableSort
  import opened Segmenter

  /** One entry of `sentenceScores`: the trimmed sentence, its score and its position. */
  datatype Scored = Scored(text: string, score: real, index: nat)

  /** The tokens the frequency table counts: those longer than two characters, in order. */
  function LongTokens(ts: seq<string>): seq<string>
  {
    if |ts| == 0 then []
    else LongTokens(ts[..|ts| - 1]) + (if |ts[|ts| - 1]| > 2 then [ts[|ts| - 1]] else [])
  }

  lemma LongTokensStep(ts: seq<string>, i: nat)
    requires i < |ts|
    ensures LongTokens(ts[..i + 1]) == LongTokens(ts[..i]) + (if |ts[i]| > 2 then [ts[i]] else [])
  {
    assert ts[..i + 1][..i] == ts[..i];
  }

  /** `wordFreq` for a token list: the counter after the `forEach` over it. */
  function Frequencies(ts: seq<string>): seq<Entry>
  {
    Tally(LongTokens(ts))
  }

  /** `wordFreq` for the whole text. */
  function WordFrequencies(text: string, tokenize: string -> seq<string>, lower: string -> string): seq<Entry>
  {
    Frequencies(tokenize(lower(text)))
  }

  /** Reads `wordFreq[t]` means: how often `t` occurs among the tokens, when it is longer
      than two characters, and 0 otherwise. */
  lemma {:induction false} FrequenciesCount(ts: seq<string>, t: string)
    ensures Lookup(Frequencies(ts), t) == if |t| > 2 then multiset(ts)[t] else 0
  {
    TallyCounts(LongTokens(ts));
    LongTokensCount(ts, t);
  }

  lemma {:induction false} LongTokensCount(ts: seq<string>, t: string)
    ensures multiset(LongTokens(ts))[t] == if |t| > 2 then multiset(ts)[t] else 0
  {
    if |ts| > 0 {
      LongTokensCount(ts[..|ts| - 1], t);
      assert ts == ts[..|ts| - 1] + [ts[|ts| - 1]];
    }
  }

  /** The frequency `forEach`: the counter is `wordFreq` of the tokens seen so far. */
  method CountWords(tokens: seq<string>) returns (freq: seq<Entry>)
    ensures freq == Frequencies(tokens)
  {
    freq := [];
    for i := 0 to |tokens|
      invariant freq == Frequencies(tokens[..i])
    {
      var token := tokens[i];
      LongTokensStep(tokens, i);
      if |token| > 2 {
        TallySnoc(LongTokens(tokens[..i]), token);
        freq := Bump(freq, token);
      } else {
        assert LongTokens(tokens[..i + 1]) == LongTokens(tokens[..i]);
      }
    }
    assert tokens[..|tokens|] == tokens;
  }

  /** Sum of `wordFreq[t] || 0` over the tokens of a sentence. */
  function FreqSum(freq: seq<Entry>, ts: seq<string>): nat
  {
    if |ts| == 0 then 0 else FreqSum(freq, ts[..|ts| - 1]) + Lookup(freq, ts[|ts| - 1])
  }

  /** How often the tokens of `ts` (those longer than two characters) occur in `all`. */
  function Occurrences(all: seq<string>, ts: seq<string>): nat
  {
    if |ts| == 0 then 0
    else Occurrences(all, ts[..|ts| - 1]) + (if |ts[|ts| - 1]| > 2 then multiset(all)[ts[|ts| - 1]] else 0)
  }

  /** A sentence's score: the mean `wordFreq` of its tokens, or 0 when it has none. */
  function SentenceScore(freq: seq<Entry>, ts: seq<string>): (r: real)
    ensures r >= 0.0
  {
    if |ts| > 0 then FreqSum(freq, ts) as real / |ts| as real else 0.0
  }

  /** Against the whole text's frequency table, a sentence's token total is the number of times
      its long tokens occur in the whole text. */
  lemma {:induction false} FreqSumIsOccurrences(all: seq<string>, ts: seq<string>)
    ensures FreqSum(Frequencies(all), ts) == Occurrences(all, ts)
  {
    if |ts| > 0 {
      FreqSumIsOccurrences(all, ts[..|ts| - 1]);
      FrequenciesCount(all, ts[|ts| - 1]);
    }
  }

  /** The score is the mean, over the sentence's tokens, of how often each occurs in the text. */
  lemma SentenceScoreIsMean(all: seq<string>, ts: seq<string>)
    ensures SentenceScore(Frequencies(all), ts) ==
              if |ts| > 0 then (Occurrences(all, ts) as real) / (|ts| as real) else 0.0
  {
    FreqSumIsOccurrences(all, ts);
  }

  /** The scoring `forEach`: add `wordFreq[token]` when it is truthy, then divide by the
      number of tokens. */
  method ScoreSentence(freq: seq<Entry>, ts: seq<string>) returns (score: real)
    ensures score == SentenceScore(freq, ts)
  {
    var total: nat := 0;
    for i := 0 to |ts|
      invariant total == FreqSum(freq, ts[..i])
    {
      assert ts[..i + 1][..i] == ts[..i];
      var f := Lookup(freq, ts[i]);
      if f != 0 {
        total := total + f;
      }
    }
    assert ts[..|ts|] == ts;
    score := if |ts| > 0 then total as real / |ts| as real else 0.0;
  }

  /** The `sentenceScores` entry of sentence `i`. */
  function ScoreAt(sentences: seq<string>, freq: seq<Entry>, tokenize: string -> seq<string>,
                   lower: string -> string, i: nat): Scored
    requires i < |sentences|
  {
    Scored(Trim(sentences[i]), SentenceScore(freq, tokenize(lower(sentences[i]))), i)
  }

  /** `sentences.map(...)`: every sentence scored, in text order. */
  function ScoredSentences(sentences: seq<string>, freq: seq<Entry>, tokenize: string -> seq<string>,
                           lower: string -> string): seq<Scored>
  {
    seq(|sentences|, i requires 0 <= i < |sentences| => ScoreAt(sentences, freq, tokenize, lower, i))
  }

  /** Sort key of `(a, b) => b.score - a.score`. */
  function ScoreOf(e: Scored): real
  {
    e.score
  }

  /** Sort key of `(a, b) => a.index - b.index`, as a descending key. */
  function EarlierFirst(e: Scored): real
  {
    -(e.index as real)
  }

  function Position(e: Scored): int
  {
    e.index
  }

  /** `Math.max(1, Math.ceil(S * ratio))` with ratio = percent / 100. */
  function SelectionCount(sentenceCount: nat, percent: nat): (r: nat)
    ensures r >= 1
  {
    var c := (sentenceCount * percent + 99) / 100;
    if c > 1 then c else 1
  }

  function Min(a: nat, b: nat): nat
  {
    if a < b then a else b
  }

  /** Sort by score, keep the first `take`, sort those back by position. */
  function Pick(scored: seq<Scored>, take: nat): seq<Scored>
    requires take <= |scored|
  {
    SortDesc(SortDesc(scored, ScoreOf)[..take], EarlierFirst)
  }

  /** The scored sentences kept from `sentences` under the frequency table `freq`, in output
      order. */
  function SelectFrom(sentences: seq<string>, freq: seq<Entry>, percent: nat,
                      tokenize: string -> seq<string>, lower: string -> string): seq<Scored>
  {
    Pick(ScoredSentences(sentences, freq, tokenize, lower), Min(SelectionCount(|sentences|, percent), |sentences|))
  }

  /** The sentences `summarizeText` keeps, in output order. */
  function Selected(text: string, percent: nat, tokenize: string -> seq<string>, lower: string -> string): seq<Scored>
  {
    SelectFrom(Sentences(text), WordFrequencies(text, tokenize, lower), percent, tokenize, lower)
  }

  function Indexes(es: seq<Scored>): seq<nat>
  {
    seq(|es|, j requires 0 <= j < |es| => es[j].index)
  }

  /** The original positions of the kept sentences, in output order. */
  function KeptIndexes(text: string, percent: nat, tokenize: string -> seq<string>, lower: string -> string): seq<nat>
  {
    Indexes(Selected(text, percent, tokenize, lower))
  }

  function Texts(es: seq<Scored>): seq<string>
  {
    seq(|es|, j requires 0 <= j < |es| => es[j].text)
  }

  /** Every sentence, trimmed, in text order. */
  function TrimmedAll(sentences: seq<string>): seq<string>
  {
    seq(|sentences|, k requires 0 <= k < |sentences| => Trim(sentences[k]))
  }

  /** `summarizeText(text, percent / 100)`. */
  function Summary(text: string, percent: nat, tokenize: string -> seq<string>, lower: string -> string): string
  {
    if |text| == 0 then []
    else if |Sentences(text)| <= 1 then text
    else Join(Texts(Selected(text, percent, tokenize, lower)), " ")
  }

  /** `sentences.map(...)`: each sentence scored in turn, in text order. */
  method ScoreAll(sentences: seq<string>, freq: seq<Entry>, tokenize: string -> seq<string>, lower: string -> string)
    returns (scored: seq<Scored>)
    ensures scored == ScoredSentences(sentences, freq, tokenize, lower)
  {
    scored := [];
    for i := 0 to |sentences|
      invariant |scored| == i
      invariant forall k :: 0 <= k < i ==> scored[k] == ScoreAt(sentences, freq, tokenize, lower, k)
    {
      var score := ScoreSentence(freq, tokenize(lower(sentences[i])));
      scored := scored + [Scored(Trim(sentences[i]), score, i)];
    }
  }

  /** Sort the scored sentences in place by score, copy out the first `count`, and sort those
      in place by position. */
  method SelectSentences(sentences: seq<string>, freq: seq<Entry>, percent: nat,
                         tokenize: string -> seq<string>, lower: string -> string)
    returns (kept: seq<Scored>)
    ensures kept == SelectFrom(sentences, freq, percent, tokenize, lower)
  {
    var scored := ScoreAll(sentences, freq, tokenize, lower);
    var n := |scored|;
    var scores := new Scored[n];
    forall k | 0 <= k < n {
      scores[k] := scored[k];
    }
    assert scores[..] == scored;
    SortInPlace(scores, ScoreOf);
    var take := Min(SelectionCount(n, percent), n);
    var top := new Scored[take];
    forall k | 0 <= k < take {
      top[k] := scores[k];
    }
    assert top[..] == SortDesc(scored, ScoreOf)[..take];
    SortInPlace(top, EarlierFirst);
    kept := top[..];
  }

  /** The summariser: an empty text gives '', a text of at most one sentence comes back
      unchanged, and otherwise the kept sentences' texts are joined by single spaces. */
  method SummarizeText(text: string, percent: nat, tokenize: string -> seq<string>, lower: string -> string)
    returns (summary: string)
    ensures summary == Summary(text, percent, tokenize, lower)
    ensures |text| == 0 ==> summary == []
    ensures |Sentences(text)| <= 1 ==> summary == text
  {
    if |text| == 0 {
      return [];
    }
    var sentences := Sentences(text);
    if |sentences| <= 1 {
      return text;
    }
    var freq := CountWords(tokenize(lower(text)));
    var kept := SelectSentences(sentences, freq, percent, tokenize, lower);
    summary := Join(Texts(kept), " ");
  }

  /** Every entry of `ScoredSentences` sits at its own index. */
  ghost predicate Indexed(scored: seq<Scored>)
  {
    forall i :: 0 <= i < |scored| ==> scored[i].index == i
  }

  lemma IndexedDistinct(scored: seq<Scored>)
    requires Indexed(scored)
    ensures StrictlyIncreasing(scored, Position)
    ensures DistinctBy(scored, Position)
  {
  }

  /** What `Pick` returns: `take` entries of `scored`, each the entry at its own index, in
      strictly increasing index order. */
  lemma PickFacts(scored: seq<Scored>, take: nat)
    requires Indexed(scored) && take <= |scored|
    ensures |Pick(scored, take)| == take
    ensures forall j :: 0 <= j < take ==>
              Pick(scored, take)[j].index < |scored| && Pick(scored, take)[j] == scored[Pick(scored, take)[j].index]
    ensures forall j, k :: 0 <= j < k < take ==> Pick(scored, take)[j].index < Pick(scored, take)[k].index
  {
    var ranked := SortDesc(scored, ScoreOf);
    var top := ranked[..take];
    var picked := Pick(scored, take);
    IndexedDistinct(scored);
    SortDescDistinct(scored, ScoreOf, Position);
    assert DistinctBy(top, Position);
    SortDescDistinct(top, EarlierFirst, Position);
    SortDescSorted(top, EarlierFirst);
    forall j | 0 <= j < take ensures picked[j].index < |scored| && picked[j] == scored[picked[j].index] {
      assert picked[j] in multiset(top);
      assert picked[j] in ranked;
      assert picked[j] in multiset(scored);
    }
  }

  /** A kept entry beats every entry left out: a higher score, or the same score and an
      earlier position. */
  lemma PickDominates(scored: seq<Scored>, take: nat, x: Scored, y: Scored)
    requires Indexed(scored) && take <= |scored|
    requires x in Pick(scored, take) && y in scored && y !in Pick(scored, take)
    ensures x.score > y.score || (x.score == y.score && x.index < y.index)
  {
    var top := SortDesc(scored, ScoreOf)[..take];
    assert x in multiset(top);
    assert y !in multiset(top);
    IndexedDistinct(scored);
    SortDescPrefixDominates(scored, ScoreOf, Position, take, x, y);
  }

  /** A strictly increasing list of `n` indexes below `n` is `0, 1, ..., n - 1`. */
  lemma {:induction false} IncreasingIndexes(ks: seq<nat>, n: nat)
    requires |ks| == n
    requires forall j :: 0 <= j < n ==> ks[j] < n
    requires forall j, k :: 0 <= j < k < n ==> ks[j] < ks[k]
    ensures forall j :: 0 <= j < n ==> ks[j] == j
  {
    if n > 0 {
      forall j | 0 <= j < n ensures ks[j] >= j {
        AtLeastPosition(ks, j);
      }
      forall j | 0 <= j < n - 1 ensures ks[j] < ks[n - 1] { }
      IncreasingIndexes(ks[..n - 1], n - 1);
    }
  }

  lemma {:induction false} AtLeastPosition(ks: seq<nat>, j: nat)
    requires j < |ks|
    requires forall p, q :: 0 <= p < q < |ks| ==> ks[p] < ks[q]
    ensures ks[j] >= j
  {
    if j > 0 {
      AtLeastPosition(ks, j - 1);
    }
  }

  /** With every entry taken, `Pick` gives the entries back in their original order. */
  lemma PickAll(scored: seq<Scored>)
    requires Indexed(scored)
    ensures Pick(scored, |scored|) == scored
  {
    var picked := Pick(scored, |scored|);
    PickFacts(scored, |scored|);
    var ks := seq(|picked|, j requires 0 <= j < |picked| => picked[j].index);
    IncreasingIndexes(ks, |scored|);
    forall j | 0 <= j < |scored| ensures picked[j] == scored[j] {
      assert ks[j] == picked[j].index;
    }
  }

  /** The scored sentences of a text are indexed by position. */
  lemma ScoredIndexed(sentences: seq<string>, freq: seq<Entry>, tokenize: string -> seq<string>, lower: string -> string)
    ensures Indexed(ScoredSentences(sentences, freq, tokenize, lower))
  {
  }

  /** What is kept from a list of sentences: as many as the selection count says (at most
      all of them), each the scored entry of its own sentence, in strictly increasing
      position order. */
  lemma SelectionShape(sentences: seq<string>, freq: seq<Entry>, percent: nat,
                       tokenize: string -> seq<string>, lower: string -> string)
    ensures var kept := SelectFrom(sentences, freq, percent, tokenize, lower);
      && |kept| == Min(SelectionCount(|sentences|, percent), |sentences|)
      && (forall j :: 0 <= j < |kept| ==>
            kept[j].index < |sentences| && kept[j] == ScoreAt(sentences, freq, tokenize, lower, kept[j].index))
      && (forall j, k :: 0 <= j < k < |kept| ==> kept[j].index < kept[k].index)
  {
    var scored := ScoredSentences(sentences, freq, tokenize, lower);
    ScoredIndexed(sentences, freq, tokenize, lower);
    PickFacts(scored, Min(SelectionCount(|sentences|, percent), |sentences|));
  }

  /** A kept sentence scores higher than every sentence left out, or the same and comes
      earlier: ties at the cut-off go to the earlier sentence. */
  lemma SelectionKeepsTheBest(sentences: seq<string>, freq: seq<Entry>, percent: nat,
                              tokenize: string -> seq<string>, lower: string -> string, i: nat, j: nat)
    requires i in Indexes(SelectFrom(sentences, freq, percent, tokenize, lower))
    requires j < |sentences| && j !in Indexes(SelectFrom(sentences, freq, percent, tokenize, lower))
    ensures i < |sentences|
    ensures var si := ScoreAt(sentences, freq, tokenize, lower, i).score;
            var sj := ScoreAt(sentences, freq, tokenize, lower, j).score;
            si > sj || (si == sj && i < j)
  {
    var scored := ScoredSentences(sentences, freq, tokenize, lower);
    ScoredIndexed(sentences, freq, tokenize, lower);
    PickKeepsTheBest(scored, Min(SelectionCount(|sentences|, percent), |sentences|), i, j);
  }

  /** `SelectionKeepsTheBest` for the entries `Pick` chooses from. */
  lemma PickKeepsTheBest(scored: seq<Scored>, take: nat, i: nat, j: nat)
    requires Indexed(scored) && take <= |scored|
    requires i in Indexes(Pick(scored, take))
    requires j < |scored| && j !in Indexes(Pick(scored, take))
    ensures i < |scored|
    ensures scored[i].score > scored[j].score || (scored[i].score == scored[j].score && i < j)
  {
    PickFacts(scored, take);
    var sel := Pick(scored, take);
    var ks := Indexes(sel);
    var q :| 0 <= q < |ks| && ks[q] == i;
    assert sel[q] == scored[i];
    forall p | 0 <= p < |sel| ensures sel[p] != scored[j] {
      assert ks[p] == sel[p].index;
    }
    PickDominates(scored, take, sel[q], scored[j]);
  }

  /** At a ratio of 1 (or more) every sentence is kept, in text order. */
  lemma SelectionAll(sentences: seq<string>, freq: seq<Entry>, percent: nat,
                     tokenize: string -> seq<string>, lower: string -> string)
    requires percent >= 100
    ensures SelectFrom(sentences, freq, percent, tokenize, lower) == ScoredSentences(sentences, freq, tokenize, lower)
  {
    SelectionCountFull(|sentences|, percent);
    ScoredIndexed(sentences, freq, tokenize, lower);
    PickAll(ScoredSentences(sentences, freq, tokenize, lower));
  }

  /** The shape of a summary of a text with several sentences: the number of kept sentences is
      the selection count (at most the number of sentences), their positions strictly
      increase, and the summary is their trimmed texts joined by single spaces. */
  lemma SummaryShape(text: string, percent: nat, tokenize: string -> seq<string>, lower: string -> string)
    requires |Sentences(text)| > 1
    ensures var ks := KeptIndexes(text, percent, tokenize, lower);
      && |ks| == Min(SelectionCount(|Sentences(text)|, percent), |Sentences(text)|)
      && (forall j :: 0 <= j < |ks| ==> ks[j] < |Sentences(text)|)
      && (forall j, k :: 0 <= j < k < |ks| ==> ks[j] < ks[k])
      && Summary(text, percent, tokenize, lower) ==
           Join(seq(|ks|, j requires 0 <= j < |ks| => Trim(Sentences(text)[ks[j]])), " ")
  {
    var sentences := Sentences(text);
    var freq := WordFrequencies(text, tokenize, lower);
    SelectionShape(sentences, freq, percent, tokenize, lower);
    var sel := Selected(text, percent, tokenize, lower);
    var ks := KeptIndexes(text, percent, tokenize, lower);
    assert Texts(sel) == seq(|ks|, j requires 0 <= j < |ks| => Trim(sentences[ks[j]]));
  }

  /** At a ratio of 1 (or more) the summary is every sentence, trimmed, in text order. */
  lemma SummaryFullRatio(text: string, percent: nat, tokenize: string -> seq<string>, lower: string -> string)
    requires |Sentences(text)| > 1 && percent >= 100
    ensures Summary(text, percent, tokenize, lower) == Join(TrimmedAll(Sentences(text)), " ")
  {
    var sentences := Sentences(text);
    var freq := WordFrequencies(text, tokenize, lower);
    SelectionAll(sentences, freq, percent, tokenize, lower);
    var scored := ScoredSentences(sentences, freq, tokenize, lower);
    assert Texts(scored) == TrimmedAll(sentences);
  }

  /** The selection count is `max(1, ceil(S * percent / 100))`. */
  lemma SelectionCountIsCeiling(sentenceCount: nat, percent: nat)
    ensures SelectionCount(sentenceCount, percent) >= 1
    ensures sentenceCount * percent > 0 ==>
              100 * (SelectionCount(sentenceCount, percent) - 1) < sentenceCount * percent
              <= 100 * SelectionCount(sentenceCount, percent)
    ensures sentenceCount * percent == 0 ==> SelectionCount(sentenceCount, percent) == 1
  {
    var x := sentenceCount * percent;
    var c := (x + 99) / 100;
    assert 100 * c <= x + 99 < 100 * c + 100;
  }

  /** For a ratio of at most 1 the selection count lies between 1 and the number of sentences. */
  lemma SelectionCountBounds(sentenceCount: nat, percent: nat)
    requires sentenceCount >= 1 && percent <= 100
    ensures 1 <= SelectionCount(sentenceCount, percent) <= sentenceCount
  {
    assert sentenceCount * percent <= sentenceCount * 100;
  }

  /** At a ratio of 1 (or more) the selection count covers every sentence. */
  lemma SelectionCountFull(sentenceCount: nat, percent: nat)
    requires percent >= 100
    ensures SelectionCount(sentenceCount, percent) >= sentenceCount
  {
    var extra := sentenceCount * (percent - 100);
    assert sentenceCount * percent == 100 * sentenceCount + extra;
    assert (100 * sentenceCount + extra + 99) / 100 >= sentenceCount;
  }

  /** A larger ratio never keeps fewer sentences. */
  lemma SelectionCountMonotone(sentenceCount: nat, p: nat, q: nat)
    requires p <= q
    ensures SelectionCount(sentenceCount, p) <= SelectionCount(sentenceCount, q)
  {
    assert sentenceCount * p <= sentenceCount * q;
  }
}
